/** Complete exchanges as a host performs them, and enumeration of the protocol table. */
module Exchange {
  import opened Words
  import opened Protocol
  import opened Mailbox
  import opened Device

  const CTRL_ABORT: u32 := 0x0000_0001
  const CTRL_GO: u32 := 0x8000_0000

  function Writes(req: seq<u32>): (r: seq<Access>)
  {
    seq(|req|, i requires 0 <= i < |req| => Wr(DOE_REG_WRITE, req[i]))
  }

  function Submit(req: seq<u32>): (r: seq<Access>)
  {
    [Wr(DOE_REG_CTRL, CTRL_ABORT)] + Writes(req) + [Wr(DOE_REG_CTRL, CTRL_GO)]
  }

  /** `n` rounds of: poll STATUS, read a dword, acknowledge it. */
  function Rounds(n: nat): (r: seq<Access>)
    ensures |r| == 3 * n
  {
    if n == 0 then []
    else [Rd(DOE_REG_STATUS), Rd(DOE_REG_READ), Wr(DOE_REG_READ, 0)] + Rounds(n - 1)
  }

  /** What those rounds should return for a response: READY, the next dword, nothing. */
  function RoundResults(rsp: seq<u32>): (r: seq<u32>)
    ensures |r| == 3 * |rsp|
    ensures forall i :: 0 <= i < |rsp| ==>
      r[3 * i] == DOE_STATUS_READY && r[3 * i + 1] == rsp[i] && r[3 * i + 2] == 0
  {
    if rsp == [] then []
    else
      assert forall i :: 0 < i < |rsp| ==> rsp[i] == rsp[1..][i - 1];
      [DOE_STATUS_READY, rsp[0], 0] + RoundResults(rsp[1..])
  }

  function Probe(): (r: seq<Access>)
  {
    [Rd(DOE_REG_STATUS), Rd(DOE_REG_READ)]
  }

  /** Submit a request, read `n` dwords, then look at STATUS and READ once more. */
  function Conversation(req: seq<u32>, n: nat): (r: seq<Access>)
  {
    Submit(req) + Rounds(n) + Probe()
  }

  lemma {:induction false} RoundAt(n: nat, i: nat)
    requires i < n
    ensures Rounds(n)[3 * i..3 * i + 3] == [Rd(0x0c), Rd(0x14), Wr(0x14, 0)]
  {
    if i > 0 {
      RoundAt(n - 1, i - 1);
      assert Rounds(n)[3..] == Rounds(n - 1);
      assert Rounds(n)[3..][3 * (i - 1)..3 * (i - 1) + 3] == Rounds(n)[3 * i..3 * i + 3];
    }
  }

  /** A conversation, register by register. */
  lemma ConversationShape(req: seq<u32>, n: nat, i: nat)
    ensures
      var c, k := Conversation(req, n), |req| + 2;
      && |c| == k + 3 * n + 2
      && c[0] == Wr(0x08, 0x0000_0001) && c[k - 1] == Wr(0x08, 0x8000_0000)
      && (i < |req| ==> c[1 + i] == Wr(0x10, req[i]))
      && (i < n ==> c[k + 3 * i..k + 3 * i + 3] == [Rd(0x0c), Rd(0x14), Wr(0x14, 0)])
      && c[k + 3 * n..] == [Rd(0x0c), Rd(0x14)]
  {
    var c, k := Conversation(req, n), |req| + 2;
    assert c[k..k + 3 * n] == Rounds(n);
    if i < n {
      RoundAt(n, i);
      assert c[k..k + 3 * n][3 * i..3 * i + 3] == c[k + 3 * i..k + 3 * i + 3];
    }
  }

  lemma CapTwice(a: seq<u32>, req: seq<u32>)
    requires req != []
    ensures Cap(Cap(a + [req[0]]) + req[1..]) == Cap(a + req)
  {
    assert a + req == a + [req[0]] + req[1..];
  }

  lemma {:induction false} WritesFill(table: seq<Entry>, d: Device, req: seq<u32>)
    requires |d.request| <= DOE_BUF_DWORDS
    ensures After(table, d, Writes(req)) == d.(request := Cap(d.request + req))
    ensures Results(table, d, Writes(req)) == Blanks(|req|)
    decreases |req|
  {
    hide ApplyCtrl, Answer, Cap;
    if req == [] {
      assert d.request + req == d.request;
    } else {
      assert Writes(req)[1..] == Writes(req[1..]);
      WritesFill(table, Apply(table, d, Writes(req)[0]), req[1..]);
      CapTwice(d.request, req);
    }
  }

  /** After ABORT, the request and GO, the device holds the answer, whatever it held before. */
  lemma SubmitAnswers(table: seq<Entry>, d: Device, req: seq<u32>)
    ensures Results(table, d, Submit(req)) == Blanks(|req| + 2)
    ensures After(table, d, Submit(req))
            == match Answer(table, req)
               case None => Device(DOE_STATUS_ERROR, [], [])
               case Some(rsp) => Device(DOE_STATUS_READY, [], rsp)
  {
    var abort, go := [Wr(DOE_REG_CTRL, CTRL_ABORT)], [Wr(DOE_REG_CTRL, CTRL_GO)];
    RunAppendAccesses(table, d, abort + Writes(req), go);
    RunAppendAccesses(table, d, abort, Writes(req));
    assert After(table, d, abort) == FRESH;
    WritesFill(table, FRESH, req);
    assert FRESH.request + req == req;
    AnswerIgnoresTail(table, req, DOE_BUF_DWORDS);
  }

  lemma OneRound(table: seq<Entry>, d: Device)
    ensures After(table, d, Rounds(1)) == Apply(table, d, Wr(DOE_REG_READ, 0))
    ensures Results(table, d, Rounds(1)) == [d.status, Result(d, Rd(DOE_REG_READ)), 0]
  {
    var ack := [Wr(DOE_REG_READ, 0)];
    var read := [Rd(DOE_REG_READ)] + ack;
    assert Rounds(0) == [];
    assert Rounds(1)[1..] == read && read[1..] == ack && ack[1..] == [];
    assert After(table, d, ack) == Apply(table, d, ack[0]);
    assert After(table, d, read) == After(table, d, ack);
    assert Results(table, d, ack) == [0];
    assert Results(table, d, read) == [Result(d, read[0]), 0];
  }

  lemma {:induction false} RoundsDrain(table: seq<Entry>, d: Device)
    requires d.status == DOE_STATUS_READY && d.response != []
    ensures Results(table, d, Rounds(|d.response|)) == RoundResults(d.response)
    ensures After(table, d, Rounds(|d.response|)) == Device(0, d.request, [])
    decreases |d.response|
  {
    var n := |d.response|;
    assert Rounds(n) == Rounds(1) + Rounds(n - 1);
    OneRound(table, d);
    RunAppendAccesses(table, d, Rounds(1), Rounds(n - 1));
    if n > 1 {
      RoundsDrain(table, Apply(table, d, Wr(DOE_REG_READ, 0)));
    }
  }

  /** The whole conversation on the observable device. */
  lemma ConversationResults(table: seq<Entry>, d: Device, req: seq<u32>, rsp: seq<u32>)
    requires Answer(table, req) == Some(rsp)
    ensures Results(table, d, Conversation(req, |rsp|))
            == Blanks(|req| + 2) + RoundResults(rsp) + [0, OVERRUN]
    ensures After(table, d, Conversation(req, |rsp|)) == FRESH
  {
    hide Submit, Rounds, RoundResults, Probe, Answer;
    SubmitAnswers(table, d, req);
    RunAppendAccesses(table, d, Submit(req) + Rounds(|rsp|), Probe());
    RunAppendAccesses(table, d, Submit(req), Rounds(|rsp|));
    RoundsDrain(table, Device(DOE_STATUS_READY, [], rsp));
    ProbeFresh(table);
  }

  lemma ProbeFresh(table: seq<Entry>)
    ensures Results(table, FRESH, Probe()) == [0, OVERRUN] && After(table, FRESH, Probe()) == FRESH
  {
    assert Probe()[1..] == [Rd(DOE_REG_READ)];
  }

  function Values(rs: seq<Transaction>): (vs: seq<u32>)
    ensures |vs| == |rs|
  {
    seq(|rs|, i requires 0 <= i < |rs| => rs[i].data)
  }

  lemma ValuesRefine(table: seq<Entry>, s: State, ts: seq<Transaction>)
    requires Sized(s)
    ensures Values(Replies(table, s, ts)) == Results(table, Abs(s), Accesses(Base(s), ts))
    ensures Abs(Final(table, s, ts)) == After(table, Abs(s), Accesses(Base(s), ts))
  {
    RunRefines(table, s, ts);
  }

  /** Full exchange. From any mailbox, whatever transactions carry it, the conversation for an
      answerable request of any length returns the response dwords in order, once each, with STATUS
      at READY before each acknowledgement. Response dword 1 counts the acknowledgements after which
      STATUS is 0 and READ is overrun. */
  lemma FullExchange(table: seq<Entry>, s: State, req: seq<u32>, rsp: seq<u32>, ts: seq<Transaction>)
    requires Sized(s)
    requires Answer(table, req) == Some(rsp)
    requires Accesses(Base(s), ts) == Conversation(req, rsp[1])
    ensures Values(Replies(table, s, ts)) == Blanks(|req| + 2) + RoundResults(rsp) + [0, OVERRUN]
    ensures Abs(Final(table, s, ts)) == FRESH
  {
    ValuesRefine(table, s, ts);
    ConversationResults(table, Abs(s), req, rsp);
  }

  /** A refused request leaves ERROR in STATUS and nothing to read, after ABORT. */
  lemma RefusedExchange(table: seq<Entry>, s: State, req: seq<u32>, ts: seq<Transaction>)
    requires Sized(s)
    requires Answer(table, req) == None
    requires Accesses(Base(s), ts) == Conversation(req, 0)
    ensures Values(Replies(table, s, ts)) == Blanks(|req| + 2) + [DOE_STATUS_ERROR, OVERRUN]
  {
    ValuesRefine(table, s, ts);
    SubmitAnswers(table, Abs(s), req);
    var d := Device(DOE_STATUS_ERROR, [], []);
    assert Conversation(req, 0) == Submit(req) + Probe();
    RunAppendAccesses(table, Abs(s), Submit(req), Probe());
    assert Probe()[1..] == [Rd(DOE_REG_READ)];
    assert Results(table, d, Probe()) == [DOE_STATUS_ERROR, OVERRUN];
  }

  // ---------- Enumeration ----------

  lemma {:induction false} RoundsNeverSkip(n: nat)
    ensures forall a :: a in Rounds(n) ==> !a.Skip?
  {
    if n > 0 {
      RoundsNeverSkip(n - 1);
    }
  }

  function DiscoveryRequest(index: u32): (req: seq<u32>)
  {
    [Header(DOE_TYPE_DISC), 3, index]
  }

  /** The transactions of one discovery exchange. */
  function DiscoveryStream(base: u32, index: u32): (ts: seq<Transaction>)
    ensures Accesses(Some(base), ts) == Conversation(DiscoveryRequest(index), 4)
  {
    RoundsNeverSkip(4);
    IssueAllDecodes(base, Conversation(DiscoveryRequest(index), 4));
    IssueAll(base, Conversation(DiscoveryRequest(index), 4))
  }

  /** The entry and the next index that a host reads out of the replies of one exchange. */
  lemma DiscoveryExchange(table: seq<Entry>, s: State, index: u32)
    requires Sized(s) && s.capDetected
    ensures
      var rs := Replies(table, s, DiscoveryStream(s.capBase, index));
      var rsp := DiscoveryResponse(table, index % 0x100);
      |rs| == 19 && rs[12].data == rsp[2] && rs[15].data == rsp[3]
    ensures Final(table, s, DiscoveryStream(s.capBase, index)).capDetected
    ensures Final(table, s, DiscoveryStream(s.capBase, index)).capBase == s.capBase
  {
    var ts := DiscoveryStream(s.capBase, index);
    var rsp := DiscoveryResponse(table, index % 0x100);
    FullExchange(table, s, DiscoveryRequest(index), rsp, ts);
    var vs := Values(Replies(table, s, ts));
    assert vs[12] == RoundResults(rsp)[3 * 2 + 1] && vs[15] == RoundResults(rsp)[3 * 3 + 1];
    BaseIsKept(table, s, ts);
  }

  /** A host that starts at `index` and follows the returned next index until it is 0, for at most
      `fuel` exchanges: the entry words it collects, and whether it saw the end of the list. */
  ghost function Enumerate(table: seq<Entry>, s: State, index: u32, fuel: nat): (r: (seq<u32>, bool))
    requires Sized(s) && s.capDetected
    decreases fuel
  {
    if fuel == 0 then ([], false)
    else
      DiscoveryExchange(table, s, index);
      var ts := DiscoveryStream(s.capBase, index);
      var rs := Replies(table, s, ts);
      var (entry, next) := (rs[12].data, rs[15].data);
      if next == 0 then ([entry], true)
      else
        var (entries, ended) := Enumerate(table, Final(table, s, ts), next, fuel - 1);
        ([entry] + entries, ended)
  }

  function EntryWords(table: seq<Entry>): (ws: seq<u32>)
    ensures |ws| == |table|
  {
    seq(|table|, i requires 0 <= i < |table| => EntryWord(table[i]))
  }

  /** The same walk read off the table, without a device. */
  ghost function Follow(table: seq<Entry>, index: u32, fuel: nat): (r: (seq<u32>, bool))
    decreases fuel
  {
    if fuel == 0 then ([], false)
    else
      var rsp := DiscoveryResponse(table, index % 0x100);
      if rsp[3] == 0 then ([rsp[2]], true)
      else
        var (entries, ended) := Follow(table, rsp[3], fuel - 1);
        ([rsp[2]] + entries, ended)
  }

  lemma {:induction false} EnumerateFollows(table: seq<Entry>, s: State, index: u32, fuel: nat)
    requires Sized(s) && s.capDetected
    ensures Enumerate(table, s, index, fuel) == Follow(table, index, fuel)
    decreases fuel
  {
    if fuel > 0 {
      DiscoveryExchange(table, s, index);
      var next := DiscoveryResponse(table, index % 0x100)[3];
      EnumerateFollows(table, Final(table, s, DiscoveryStream(s.capBase, index)), next, fuel - 1);
    }
  }

  lemma DiscoveryWithin(table: seq<Entry>, index: u32)
    requires index < |table| <= 256
    ensures
      var rsp := DiscoveryResponse(table, index % 0x100);
      rsp[2] == EntryWords(table)[index] && rsp[3] == if index + 1 < |table| then index + 1 else 0
  {
  }

  lemma {:induction false} FollowFrom(table: seq<Entry>, index: u32, fuel: nat)
    requires index < |table| <= 256 && fuel >= |table| - index
    ensures Follow(table, index, fuel) == (EntryWords(table)[index..], true)
    decreases fuel
  {
    hide DiscoveryResponse, EntryWords;
    DiscoveryWithin(table, index);
    var words := EntryWords(table);
    if index + 1 < |table| {
      FollowFrom(table, index + 1, fuel - 1);
      assert words[index..] == [words[index]] + words[index + 1..];
    } else {
      assert words[index..] == [words[index]];
    }
  }

  lemma DiscoveryBeyond(table: seq<Entry>, index: u32)
    requires |table| > 256
    ensures
      var rsp := DiscoveryResponse(table, index % 0x100);
      rsp[2] == EntryWord(table[index % 256]) && rsp[3] == index % 256 + 1
  {
  }

  /** With more than 256 entries the index wraps at eight bits: the list never ends, and the i-th
      entry visited is again one of the first 256. */
  lemma {:induction false} FollowWraps(table: seq<Entry>, index: u32, fuel: nat, i: nat)
    requires |table| > 256 && i <= fuel
    ensures !Follow(table, index, fuel).1 && |Follow(table, index, fuel).0| == fuel
    ensures i < fuel ==> Follow(table, index, fuel).0[i] == EntryWord(table[(index as int + i) % 256])
    decreases fuel
  {
    hide DiscoveryResponse, EntryWord;
    if fuel > 0 {
      DiscoveryBeyond(table, index);
      var next: u32 := index % 256 + 1;
      FollowWraps(table, next, fuel - 1, if i == 0 then 0 else i - 1);
      if i > 0 {
        WrapStep(index, i);
      }
    }
  }

  lemma WrapStep(index: int, i: int)
    ensures (index % 256 + 1 + (i - 1)) % 256 == (index + i) % 256
  {
  }

  /** Enumeration from index 0 through complete exchanges visits every entry exactly once, in order,
      and then ends, exactly for tables of 1 to 256 entries; for an empty one it reports a blank entry. */
  lemma EnumerationExact(table: seq<Entry>, s: State, fuel: nat)
    requires Sized(s) && s.capDetected && fuel >= |table|
    ensures Enumerate(table, s, 0, fuel) == (EntryWords(table), true) <==> 1 <= |table| <= 256
    ensures table == [] && fuel > 0 ==> Enumerate(table, s, 0, fuel) == ([0], true)
  {
    EnumerateFollows(table, s, 0, fuel);
    if 1 <= |table| <= 256 {
      FollowFrom(table, 0, fuel);
      assert EntryWords(table)[0..] == EntryWords(table);
    } else if |table| > 256 {
      FollowWraps(table, 0, fuel, 0);
    }
  }

  /** The table compiled into the emulator is enumerated in full in four exchanges. */
  lemma CompiledTable(s: State)
    requires Sized(s) && s.capDetected
    ensures Enumerate(PROTOCOLS, s, 0, 4) == ([0x0000_0001, 0x0001_0001, 0x0002_0001, 0x0002_1E98], true)
  {
    hide Enumerate;
    EnumerationExact(PROTOCOLS, s, 4);
    assert EntryWords(PROTOCOLS) == [0x0000_0001, 0x0001_0001, 0x0002_0001, 0x0002_1E98];
  }
}
