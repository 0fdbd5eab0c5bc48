/** Properties of whole runs of the mailbox. */
module Properties {
  import opened Words
  import opened Protocol
  import opened Mailbox
  import opened Device

  // ---------- ABORT is a reset ----------

  /** A powered-up device whose base is already known. */
  function Fresh(base: u32): (s: State)
    ensures Sized(s)
  {
    Init().(capBase := base, capDetected := true)
  }

  /** No stream of transactions tells the two mailboxes apart. */
  ghost predicate Indistinguishable(table: seq<Entry>, s1: State, s2: State)
    requires Sized(s1) && Sized(s2)
  {
    forall ts :: Replies(table, s1, ts) == Replies(table, s2, ts)
  }

  lemma ToldApart(table: seq<Entry>, s1: State, s2: State, ts: seq<Transaction>)
    requires Sized(s1) && Sized(s2)
    requires Replies(table, s1, ts) != Replies(table, s2, ts)
    ensures !Indistinguishable(table, s1, s2)
  {
  }

  /** From any mailbox, an ABORT write makes every later reply equal to that of a fresh device with
      the same base, exactly when the same write does not also carry GO. */
  lemma AbortIsReset(table: seq<Entry>, s: State, t: Transaction)
    requires Sized(s) && s.capDetected
    requires Decode(Base(s), t) == Wr(0x08, t.data) && t.data % 2 == 1
    ensures Indistinguishable(table, Next(table, s, t), Fresh(s.capBase)) <==> t.data < 0x8000_0000
    ensures t.data >= 0x8000_0000 ==> Abs(Next(table, s, t)) == Device(DOE_STATUS_ERROR, [], [])
  {
    var s1, s2 := Next(table, s, t), Fresh(s.capBase);
    NextRefines(table, s, t);
    if !Go(t.data) {
      forall ts
        ensures Replies(table, s1, ts) == Replies(table, s2, ts)
      {
        Bisimulation(table, s1, s2, ts);
      }
    } else {
      var ts := [Issue(s.capBase, Rd(DOE_REG_STATUS))];
      IssueDecodes(s.capBase, Rd(DOE_REG_STATUS));
      NextRefines(table, s1, ts[0]);
      NextRefines(table, s2, ts[0]);
      var rs1, rs2 := Replies(table, s1, ts), Replies(table, s2, ts);
      assert rs1[0] == Reply(s1, ts[0]) && rs2[0] == Reply(s2, ts[0]);
      assert rs1[0].data == DOE_STATUS_ERROR && rs2[0].data == 0;
      ToldApart(table, s1, s2, ts);
    }
  }

  // ---------- Base detection and address arithmetic ----------

  function Shift(t: Transaction, k: u64): (r: Transaction)
  {
    t.(address := (t.address + k) % 0x1_0000_0000_0000_0000)
  }

  function ShiftAll(ts: seq<Transaction>, k: u64): (r: seq<Transaction>)
    ensures |r| == |ts|
  {
    seq(|ts|, i requires 0 <= i < |ts| => Shift(ts[i], k))
  }

  function ShiftBase(base: Option<u32>, k: u64): (r: Option<u32>)
  {
    match base
    case None => None
    case Some(b) => Some((b + k) % 0x1_0000_0000)
  }

  lemma Congruent(x: int, y: int, q: int)
    requires x == y + 0x1_0000_0000 * q
    ensures x % 0x1_0000_0000 == y % 0x1_0000_0000
  {
  }

  lemma ShiftOffset(t: Transaction, k: u64)
    ensures Offset(Shift(t, k)) == (Offset(t) + k) % 0x1_0000_0000
  {
    var sum: int := t.address as int + k as int;
    var wraps := sum / 0x1_0000_0000_0000_0000;
    Congruent(Offset(t) as int + k as int, Shift(t, k).address,
              0x1_0000_0000 * wraps - t.address / 0x1_0000_0000);
  }

  /** Shifting both operands of a wrap-around subtraction by the same amount cancels. */
  lemma ShiftBoth(a: u32, b: u32, k: u64)
    ensures Sub32((a + k) % 0x1_0000_0000, (b + k) % 0x1_0000_0000) == Sub32(a, b)
  {
    var x: int, y: int := a as int + k as int, b as int + k as int;
    Congruent(x % 0x1_0000_0000 - y % 0x1_0000_0000, a as int - b as int,
              y / 0x1_0000_0000 - x / 0x1_0000_0000);
  }

  /** Shifting the left operand shifts the difference. */
  lemma ShiftLeft(a: u32, b: u32, k: u64)
    ensures Sub32((a + k) % 0x1_0000_0000, b) == (Sub32(a, b) + k) % 0x1_0000_0000
  {
    var x: int, d: int := a as int + k as int, a as int - b as int;
    Congruent(x % 0x1_0000_0000 - b as int, d % 0x1_0000_0000 + k as int,
              d / 0x1_0000_0000 - x / 0x1_0000_0000);
  }

  lemma ShiftDecode(base: Option<u32>, t: Transaction, k: u64)
    ensures Locate(ShiftBase(base, k), Shift(t, k)) == ShiftBase(Locate(base, t), k)
    ensures Decode(ShiftBase(base, k), Shift(t, k)) == Decode(base, t)
  {
    ShiftOffset(t, k);
    ShiftLeft(Offset(t), DOE_REG_STATUS, k);
    match Locate(base, t)
    case None =>
    case Some(b) => ShiftBoth(Offset(t), b, k);
  }

  lemma {:induction false} ShiftAccesses(base: Option<u32>, ts: seq<Transaction>, k: u64)
    ensures Accesses(ShiftBase(base, k), ShiftAll(ts, k)) == Accesses(base, ts)
    decreases |ts|
  {
    if ts != [] && !Quit(ts[0]) {
      ShiftDecode(base, ts[0], k);
      assert ShiftAll(ts, k)[1..] == ShiftAll(ts[1..], k);
      ShiftAccesses(Locate(base, ts[0]), ts[1..], k);
    }
  }

  /** Two streams that differ only in that every physical address of the second is larger by the same
      amount, modulo 2^64, get the same replies. */
  lemma ShiftInvariance(table: seq<Entry>, ts: seq<Transaction>, us: seq<Transaction>, k: u64)
    requires |us| == |ts|
    requires forall i :: 0 <= i < |ts| ==>
      us[i] == ts[i].(address := (ts[i].address as int + k as int) % 0x1_0000_0000_0000_0000)
    ensures Replies(table, Init(), us) == Replies(table, Init(), ts)
  {
    assert us == ShiftAll(ts, k);
    RunRefines(table, Init(), ts);
    RunRefines(table, Init(), us);
    ShiftAccesses(None, ts, k);
  }

  /** Writes that arrive before the first read are acknowledged and otherwise ignored. */
  lemma {:induction false} WritesBeforeDetection(table: seq<Entry>, writes: seq<Transaction>, ts: seq<Transaction>)
    requires forall t :: t in writes ==> t.r0w1 == 1 && !Quit(t)
    ensures Final(table, Init(), writes) == Init()
    ensures Replies(table, Init(), writes + ts)
            == seq(|writes|, i requires 0 <= i < |writes| => Echo(writes[i], 0)) + Replies(table, Init(), ts)
    decreases |writes|
  {
    if writes == [] {
      assert writes + ts == ts;
    } else {
      assert (writes + ts)[1..] == writes[1..] + ts;
      assert Next(table, Init(), writes[0]) == Init();
      WritesBeforeDetection(table, writes[1..], ts);
    }
  }

  // ---------- Request history ----------

  predicate Clears(a: Access)
  {
    a.Wr? && a.reg == DOE_REG_CTRL && (Abort(a.val) || Go(a.val))
  }

  predicate Fills(a: Access)
  {
    a.Wr? && a.reg == DOE_REG_WRITE
  }

  /** The accesses after the last CTRL write that carried GO or ABORT. */
  function SinceClear(accesses: seq<Access>): (r: seq<Access>)
    ensures forall a :: a in r ==> !Clears(a)
  {
    if accesses == [] || Clears(accesses[|accesses| - 1]) then []
    else SinceClear(accesses[..|accesses| - 1]) + [accesses[|accesses| - 1]]
  }

  /** The values that the accesses write to the WRITE register, in order. */
  function Written(accesses: seq<Access>): (vs: seq<u32>)
  {
    if accesses == [] then []
    else
      var last := accesses[|accesses| - 1];
      Written(accesses[..|accesses| - 1])
      + if Fills(last) then [last.val] else []
  }

  lemma RequestStep(table: seq<Entry>, d: Device, a: Access)
    ensures Apply(table, d, a).request
            == if Clears(a) then [] else if Fills(a) then Cap(d.request + [a.val]) else d.request
  {
  }

  lemma HistoryStep(front: seq<Access>, last: Access)
    ensures
      var before, after := Written(SinceClear(front)), Written(SinceClear(front + [last]));
      after == if Clears(last) then [] else if Fills(last) then before + [last.val] else before
  {
    assert (front + [last])[..|front|] == front;
    var since := SinceClear(front + [last]);
    if !Clears(last) {
      assert since[..|since| - 1] == SinceClear(front);
    }
  }

  lemma {:induction false} RequestIsHistory(table: seq<Entry>, accesses: seq<Access>)
    ensures After(table, FRESH, accesses).request == Cap(Written(SinceClear(accesses)))
    decreases |accesses|
  {
    if accesses != [] {
      var front, last := accesses[..|accesses| - 1], accesses[|accesses| - 1];
      RequestIsHistory(table, front);
      assert accesses == front + [last];
      RunAppendAccesses(table, FRESH, front, [last]);
      RequestStep(table, After(table, FRESH, front), last);
      HistoryStep(front, last);
    }
  }

  /** At every point of every run from power-up, the live request is the first 68 of the values
      written since the last CTRL write with GO or ABORT. */
  lemma RequestHistory(table: seq<Entry>, ts: seq<Transaction>)
    ensures
      var s := Final(table, Init(), ts);
      s.reqBuf[..s.reqLen] == Cap(Written(SinceClear(Accesses(None, ts))))
  {
    RunRefines(table, Init(), ts);
    RequestIsHistory(table, Accesses(None, ts));
  }

  // ---------- Stuttering ----------

  /** Accesses that leave every device as it is. */
  predicate Silent(a: Access)
  {
    match a
    case Rd(_) => true
    case Skip => true
    case Wr(reg, val) =>
      && (reg == DOE_REG_CTRL ==> !Abort(val) && !Go(val))
      && reg != DOE_REG_WRITE
      && (reg == DOE_REG_READ ==> val != 0)
  }

  lemma SilentExactly(table: seq<Entry>, a: Access)
    ensures Silent(a) <==> forall d :: Apply(table, d, a) == d
  {
    if !Silent(a) {
      var d := Device(0, [7], [1, 2]);
      assert Apply(table, d, a) != d;
    }
  }

  /** The elements of `xs` that the mask keeps. */
  function Select<T>(xs: seq<T>, mask: seq<bool>): (r: seq<T>)
    requires |xs| <= |mask|
    decreases |xs|
  {
    if xs == [] then []
    else (if mask[0] then [xs[0]] else []) + Select(xs[1..], mask[1..])
  }

  lemma SelectAppend<T>(xs: seq<T>, mask: seq<bool>, x: T, keep: bool)
    requires |xs| == |mask|
    ensures Select(xs + [x], mask + [keep]) == Select(xs, mask) + if keep then [x] else []
    decreases |xs|
  {
    if xs != [] {
      assert (xs + [x])[1..] == xs[1..] + [x] && (mask + [keep])[1..] == mask[1..] + [keep];
      SelectAppend(xs[1..], mask[1..], x, keep);
    }
  }

  /** Once the base is known, dropping (or, read the other way, inserting) any silent transactions
      anywhere in a stream leaves the replies to all the others unchanged. */
  lemma {:induction false} Stuttering(table: seq<Entry>, s: State, ts: seq<Transaction>, mask: seq<bool>)
    requires Sized(s) && s.capDetected && |mask| == |ts|
    requires forall i :: 0 <= i < |ts| && !mask[i] ==> !Quit(ts[i]) && Silent(Decode(Base(s), ts[i]))
    ensures |Replies(table, s, ts)| <= |ts|
    ensures Select(Replies(table, s, ts), mask) == Replies(table, s, Select(ts, mask))
    decreases |ts|
  {
    if ts != [] && !Quit(ts[0]) {
      var s1 := Next(table, s, ts[0]);
      var rest := Select(ts[1..], mask[1..]);
      NextRefines(table, s, ts[0]);
      Stuttering(table, s1, ts[1..], mask[1..]);
      assert Replies(table, s, ts)[1..] == Replies(table, s1, ts[1..]);
      if mask[0] {
        assert Select(ts, mask)[1..] == rest;
      } else {
        assert Select(ts, mask) == rest;
        Bisimulation(table, s, s1, rest);
      }
    }
  }

  /** The case of a single transaction: a read, or a write that hits no register or acknowledges nothing, put
      anywhere into a stream gets its own reply and changes no other. */
  lemma InsertOne(table: seq<Entry>, s: State, a: seq<Transaction>, t: Transaction, b: seq<Transaction>)
    requires Sized(s) && s.capDetected
    requires forall u :: u in a ==> u.controlStatus % 2 == 0
    requires t.controlStatus % 2 == 0
    requires
      var reg := (t.address - s.capBase) % 0x1_0000_0000;
      t.r0w1 == 0 || reg !in {0x08, 0x10, 0x14} || (reg == 0x14 && t.data != 0)
    ensures |Replies(table, s, a)| == |a|
    ensures
      var rs := Replies(table, s, a + b);
      |a| <= |rs| && Replies(table, s, a + [t] + b) == rs[..|a|] + [Reply(Final(table, s, a), t)] + rs[|a|..]
  {
    hide Next, Reply, Replies, Final, Decode;
    var s1 := Final(table, s, a);
    BaseIsKept(table, s, a);
    RunAppend(table, s, a, b);
    assert a + [t] + b == a + ([t] + b);
    RunAppend(table, s, a, [t] + b);
    SilentStep(table, s1, t, b);
  }

  lemma SilentStep(table: seq<Entry>, s: State, t: Transaction, b: seq<Transaction>)
    requires Sized(s) && s.capDetected && !Quit(t)
    requires
      var reg := (t.address - s.capBase) % 0x1_0000_0000;
      t.r0w1 == 0 || reg !in {0x08, 0x10, 0x14} || (reg == 0x14 && t.data != 0)
    ensures Replies(table, s, [t] + b) == [Reply(s, t)] + Replies(table, s, b)
  {
    hide Reply;
    OffsetOf(t, s.capBase);
    NextRefines(table, s, t);
    SilentExactly(table, Decode(Base(s), t));
    Bisimulation(table, Next(table, s, t), s, b);
    assert ([t] + b)[0] == t && ([t] + b)[1..] == b;
  }

  lemma OffsetOf(t: Transaction, base: u32)
    ensures Sub32(Offset(t), base) == (t.address - base) % 0x1_0000_0000
  {
    Congruent(t.address as int - base as int, Offset(t) as int - base as int, t.address / 0x1_0000_0000);
  }

  // ---------- Request footprint ----------

  /** GO on two mailboxes with arbitrary pasts whose requests share a footprint: both refuse, or both
      end up holding the same unread response. */
  lemma GoFootprint(table: seq<Entry>, s1: State, s2: State, val: u32)
    requires Sized(s1) && Sized(s2) && Go(val) && !Abort(val)
    requires SameFootprint(Abs(s1).request, Abs(s2).request)
    ensures
      var d1, d2 := Abs(WriteCtrl(table, s1, val)), Abs(WriteCtrl(table, s2, val));
      && d1.status == d2.status && d1.request == d2.request == []
      && (d1.status == DOE_STATUS_READY ==> d1.response == d2.response)
      && (d1.status == DOE_STATUS_ERROR ==>
            d1.response == Abs(s1).response && d2.response == Abs(s2).response)
  {
    WriteRefines(table, s1, DOE_REG_CTRL, val);
    WriteRefines(table, s2, DOE_REG_CTRL, val);
    AnswerFootprint(table, Abs(s1).request, Abs(s2).request);
  }

  // ---------- ERROR ----------

  /** The accesses that take a device out of ERROR. */
  predicate EndsError(table: seq<Entry>, d: Device, a: Access)
  {
    && a.Wr?
    && ((a.reg == DOE_REG_CTRL && Abort(a.val) && !Go(a.val))
        || (a.reg == DOE_REG_CTRL && !Abort(a.val) && Go(a.val) && Answer(table, d.request).Some?)
        || (a.reg == DOE_REG_READ && a.val == 0 && |d.response| <= 1))
  }

  /** ERROR is left exactly by ABORT without GO, by an answered GO, and by acknowledging the last dword
      of a leftover response or an empty one. */
  lemma ErrorEndsExactly(table: seq<Entry>, d: Device, a: Access)
    requires d.status == DOE_STATUS_ERROR
    ensures Apply(table, d, a).status == DOE_STATUS_ERROR <==> !EndsError(table, d, a)
  {
    assert Answer(table, []) == None;
  }

  /** GO leaves ERROR beside a response to read exactly when the request is refused and a response was
      there before, whatever the stored mailbox. */
  lemma ErrorBesideResponse(table: seq<Entry>, s: State, val: u32)
    requires Sized(s) && Go(val) && !Abort(val)
    ensures
      var d := Abs(WriteCtrl(table, s, val));
      d.status == DOE_STATUS_ERROR && d.response != []
      <==> Answer(table, Abs(s).request).None? && Abs(s).response != []
  {
    WriteRefines(table, s, DOE_REG_CTRL, val);
  }

  predicate IsAck(a: Access)
  {
    a == Wr(DOE_REG_READ, 0)
  }

  function Acks(accesses: seq<Access>): (n: nat)
  {
    if accesses == [] then 0
    else (if IsAck(accesses[0]) then 1 else 0) + Acks(accesses[1..])
  }

  /** The acknowledgements that clear the status of a device. */
  function AcksToClear(d: Device): (n: nat)
  {
    if d.response == [] then 1 else |d.response|
  }

  predicate WritesCtrl(a: Access)
  {
    a.Wr? && a.reg == DOE_REG_CTRL
  }

  lemma ClearStays(table: seq<Entry>, d: Device, accesses: seq<Access>)
    requires d.status == 0 && forall a :: a in accesses ==> !WritesCtrl(a)
    ensures After(table, d, accesses).status == 0
    decreases |accesses|
  {
    if accesses != [] {
      assert !WritesCtrl(accesses[0]);
      ClearStays(table, Apply(table, d, accesses[0]), accesses[1..]);
    }
  }

  lemma {:induction false} ErrorRun(table: seq<Entry>, d: Device, accesses: seq<Access>)
    requires d.status == DOE_STATUS_ERROR && forall a :: a in accesses ==> !WritesCtrl(a)
    ensures After(table, d, accesses).status == DOE_STATUS_ERROR <==> Acks(accesses) < AcksToClear(d)
    ensures After(table, d, accesses).status in {0, DOE_STATUS_ERROR}
    decreases |accesses|
  {
    if accesses != [] {
      hide ApplyCtrl, Cap;
      assert !WritesCtrl(accesses[0]);
      var d1 := Apply(table, d, accesses[0]);
      if d1.status == DOE_STATUS_ERROR {
        ErrorRun(table, d1, accesses[1..]);
      } else {
        ClearStays(table, d1, accesses[1..]);
      }
    }
  }

  /** From any mailbox in ERROR, along any stream without CTRL writes, STATUS is still ERROR if and only
      if fewer zero writes to READ were made than the leftover response has dwords (at least one);
      otherwise it is 0, with no ABORT involved. */
  lemma ErrorClearsWithoutAbort(table: seq<Entry>, s: State, ts: seq<Transaction>)
    requires Sized(s) && s.status == DOE_STATUS_ERROR
    requires forall a :: a in Accesses(Base(s), ts) ==> !(a.Wr? && a.reg == 0x08)
    ensures
      Final(table, s, ts).status
      == if Acks(Accesses(Base(s), ts)) < AcksToClear(Abs(s)) then DOE_STATUS_ERROR else 0
  {
    RunRefines(table, s, ts);
    ErrorRun(table, Abs(s), Accesses(Base(s), ts));
  }

  /** A Discovery exchange read down to its last dword, and then GO with no request. */
  function LeftoverRun(): (r: seq<Access>)
  {
    [Rd(DOE_REG_STATUS),
     Wr(DOE_REG_WRITE, 1), Wr(DOE_REG_WRITE, 3), Wr(DOE_REG_WRITE, 0), Wr(DOE_REG_CTRL, 0x8000_0000),
     Wr(DOE_REG_READ, 0), Wr(DOE_REG_READ, 0), Wr(DOE_REG_READ, 0), Wr(DOE_REG_CTRL, 0x8000_0000)]
  }

  /** A run of four accesses is four applications, in order. */
  lemma AfterFour(table: seq<Entry>, d: Device, a: Access, b: Access, c: Access, e: Access)
    ensures After(table, d, [a, b, c, e])
            == Apply(table, Apply(table, Apply(table, Apply(table, d, a), b), c), e)
  {
    hide Apply;
    var d1 := Apply(table, d, a);
    var d2 := Apply(table, d1, b);
    var d3 := Apply(table, d2, c);
    assert [a, b, c, e][1..] == [b, c, e] && [b, c, e][1..] == [c, e] && [c, e][1..] == [e] && [e][1..] == [];
    assert After(table, d3, [e]) == Apply(table, d3, e);
    assert After(table, d2, [c, e]) == After(table, d3, [e]);
    assert After(table, d1, [b, c, e]) == After(table, d2, [c, e]);
  }

  lemma LeftoverDevice(table: seq<Entry>)
    ensures exists w :: After(table, FRESH, LeftoverRun()) == Device(DOE_STATUS_ERROR, [], [w])
  {
    var go, ack := Wr(DOE_REG_CTRL, 0x8000_0000), Wr(DOE_REG_READ, 0);
    var fill := [Wr(DOE_REG_WRITE, 1), Wr(DOE_REG_WRITE, 3), Wr(DOE_REG_WRITE, 0), go];
    var drain := [ack, ack, ack, go];
    assert LeftoverRun() == [Rd(DOE_REG_STATUS)] + (fill + drain);
    RunAppendAccesses(table, FRESH, [Rd(DOE_REG_STATUS)], fill + drain);
    RunAppendAccesses(table, FRESH, fill, drain);
    var rsp := DiscoveryResponse(table, 0);
    AfterFour(table, FRESH, fill[0], fill[1], fill[2], go);
    assert [] + [1] + [3] + [0] == [1, 3, 0];
    assert Answer(table, [1, 3, 0]) == Some(rsp);
    var d := Device(DOE_STATUS_READY, [], rsp);
    assert After(table, FRESH, fill) == d;
    AfterFour(table, d, ack, ack, ack, go);
    assert rsp[1..][1..][1..] == [rsp[3]];
    assert After(table, d, drain) == Device(DOE_STATUS_ERROR, [], [rsp[3]]);
  }

  lemma AfterOne(table: seq<Entry>, d: Device, a: Access)
    ensures After(table, d, [a]) == Apply(table, d, a)
  {
  }

  lemma LeftoverShape()
    ensures
      var run := LeftoverRun();
      && run != [] && run == [Rd(DOE_REG_STATUS)] + run[1..]
      && (forall a :: a in run ==> !a.Skip?)
  {
  }

  lemma LeftoverCleared(table: seq<Entry>)
    ensures After(table, FRESH, LeftoverRun() + [Wr(DOE_REG_READ, 0)]).status == 0
  {
    hide After, LeftoverRun;
    LeftoverDevice(table);
    RunAppendAccesses(table, FRESH, LeftoverRun(), [Wr(DOE_REG_READ, 0)]);
    AfterOne(table, After(table, FRESH, LeftoverRun()), Wr(DOE_REG_READ, 0));
  }

  /** For every table and base there is a run from power-up after which STATUS is ERROR while a response
      waits to be read, and one zero write to READ later STATUS is 0. */
  lemma ErrorWitness(table: seq<Entry>, base: u32)
    ensures
      var s := Final(table, Init(), IssueAll(base, LeftoverRun()));
      && s.status == DOE_STATUS_ERROR && |Abs(s).response| == 1
      && Final(table, Init(), IssueAll(base, LeftoverRun() + [Wr(DOE_REG_READ, 0)])).status == 0
  {
    hide Final, After, Apply, Accesses, IssueAll, LeftoverRun;
    var run, ack := LeftoverRun(), [Wr(DOE_REG_READ, 0)];
    LeftoverShape();
    assert run + ack == [Rd(DOE_REG_STATUS)] + (run[1..] + ack);
    IssueAllFromStart(base, run[1..]);
    IssueAllFromStart(base, run[1..] + ack);
    RunRefines(table, Init(), IssueAll(base, run));
    RunRefines(table, Init(), IssueAll(base, run + ack));
    LeftoverDevice(table);
    LeftoverCleared(table);
  }
}
