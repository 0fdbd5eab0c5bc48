/** The emulator's behaviour in plain numbers: what is answered, with which dwords, at which offsets and
    by which bits. The main laws are stated with literals instead of the model's constants, predicates and
    byte codec, which only the helper lemmas mention. */
module Reference {
  import opened Words
  import opened Protocol
  import opened Mailbox
  import opened Device
  import opened Exchange

  // ---------- Answers ----------

  /** Exactly the requests of at least three dwords for vendor 1 and type 0, 1 or 2 are answered. */
  lemma AnsweredExactly(table: seq<Entry>, req: seq<u32>)
    ensures Answer(table, req).Some?
            <==> |req| >= 3 && req[0] % 0x100_0000 in {0x00_0001, 0x01_0001, 0x02_0001}
  {
    if |req| >= 1 {
      LowWordDecides(req[0], req[0]);
    }
  }

  /** Discovery: the entry at the index in the low byte, and the index after it or 0; past the end, zeros. */
  lemma DiscoveryAnswer(table: seq<Entry>, req: seq<u32>)
    requires |req| >= 3 && req[0] % 0x100_0000 == 0x00_0001
    ensures
      var i := req[2] % 0x100;
      var entry := if i < |table| then table[i].vid as int + 0x1_0000 * table[i].kind as int else 0;
      Answer(table, req) == Some([0x0001, 4, entry, if i + 1 < |table| then i + 1 else 0])
  {
    LowWordDecides(req[0], req[0]);
  }

  lemma DwordsOfThree(bs: seq<byte>)
    requires |bs| == 12
    ensures Dwords(bs) == [FromLE32(bs[0..4]), FromLE32(bs[4..8]), FromLE32(bs[8..12])]
  {
  }

  lemma VersionDwords(kind: byte)
    ensures Pack(kind, VersionPayload()) == [Header(kind), 5, 0x0000_0410, 0x0002_0000, 0x1200_1000]
  {
    var bs := VersionPayload();
    assert Padded(bs) == bs;
    DwordsOfThree(bs);
    assert bs[0..4] == [0x10, 0x04, 0, 0] && bs[4..8] == [0, 0, 2, 0] && bs[8..12] == [0, 0x10, 0, 0x12];
  }

  lemma CapsDwords(kind: byte, ver: byte)
    ensures Pack(kind, CapsPayload(ver)) == [Header(kind), 5, 0x0000_6100 + ver as int, 0x0000_0C00, 0x0000_002C]
  {
    var bs := CapsPayload(ver);
    assert Padded(bs) == bs;
    DwordsOfThree(bs);
    assert bs[0..4] == [ver, 0x61, 0, 0] && bs[4..8] == [0, 12, 0, 0] && bs[8..12] == [0x2C, 0, 0, 0];
  }

  lemma AlgosDwords(kind: byte, ver: byte)
    ensures Pack(kind, AlgosPayload(ver))
            == [Header(kind), 11, 0x0000_6300 + ver as int, 0x0001_0024, 2, 1, 0, 0, 0, 0, 0]
  {
    var bs := AlgosPayload(ver);
    assert Padded(bs) == bs;
    assert bs[0..4] == [ver, 0x63, 0, 0] && bs[4..8] == [36, 0, 1, 0];
    assert bs[8..12] == [2, 0, 0, 0] && bs[12..16] == [1, 0, 0, 0];
    assert bs[16..20] == [0, 0, 0, 0] && bs[20..24] == [0, 0, 0, 0] && bs[24..28] == [0, 0, 0, 0];
    assert bs[28..32] == [0, 0, 0, 0] && bs[32..36] == [0, 0, 0, 0];
    var ws := Dwords(bs);
    assert ws[0] == FromLE32(bs[0..4]) && ws[1] == FromLE32(bs[4..8]) && ws[2] == FromLE32(bs[8..12]);
    assert ws[3] == FromLE32(bs[12..16]) && ws[4] == FromLE32(bs[16..20]) && ws[5] == FromLE32(bs[20..24]);
    assert ws[6] == FromLE32(bs[24..28]) && ws[7] == FromLE32(bs[28..32]) && ws[8] == FromLE32(bs[32..36]);
  }

  lemma ErrorDwords(kind: byte)
    ensures Pack(kind, ErrorPayload(SPDM_ERR_UNSUP)) == [Header(kind), 3, 0x0007_7F10]
  {
    var bs := ErrorPayload(SPDM_ERR_UNSUP);
    assert Padded(bs) == bs;
    assert bs[0..4] == [0x10, 0x7F, 0x07, 0];
  }

  /** SPDM over CMA and over Secured CMA: every answer, dword for dword. */
  lemma SpdmAnswer(table: seq<Entry>, req: seq<u32>)
    requires |req| >= 3 && req[0] % 0x100_0000 in {0x01_0001, 0x02_0001}
    ensures
      var h, ver, code := req[0] % 0x100_0000, req[2] % 0x100, req[2] / 0x100 % 0x100;
      Answer(table, req)
      == Some(if code == 0x84 then [h, 5, 0x0000_0410, 0x0002_0000, 0x1200_1000]
              else if code == 0xE1 then [h, 5, 0x0000_6100 + ver, 0x0000_0C00, 0x0000_002C]
              else if code == 0xE3 then [h, 11, 0x0000_6300 + ver, 0x0001_0024, 2, 1, 0, 0, 0, 0, 0]
              else [h, 3, 0x0007_7F10])
  {
    hide Pack, VersionPayload, CapsPayload, AlgosPayload, ErrorPayload;
    LowWordDecides(req[0], req[0]);
    var kind, ver := Kind(req[0]), req[2] % 0x100;
    assert Header(kind) == req[0] % 0x100_0000;
    VersionDwords(kind);
    CapsDwords(kind, ver);
    AlgosDwords(kind, ver);
    ErrorDwords(kind);
  }

  // ---------- Registers ----------

  /** Only bits 31 and 0 of a CTRL write count. */
  lemma CtrlBits(table: seq<Entry>, d: Device, val: u32)
    ensures
      var bits := (if val / 0x8000_0000 % 2 == 1 then 0x8000_0000 else 0) + val % 2;
      Apply(table, d, Wr(0x08, val)) == Apply(table, d, Wr(0x08, bits))
  {
    hide Answer;
  }

  /** What the four combinations do: nothing, reset, process, and reset followed by a refused GO. */
  lemma CtrlEffects(table: seq<Entry>, d: Device)
    ensures Apply(table, d, Wr(0x08, 0)) == d
    ensures Apply(table, d, Wr(0x08, 1)) == Device(0, [], [])
    ensures Apply(table, d, Wr(0x08, 0x8000_0000))
            == if Answer(table, d.request).Some? then Device(0x8000_0000, [], Answer(table, d.request).value)
               else Device(0x4, [], d.response)
    ensures Apply(table, d, Wr(0x08, 0x8000_0001)) == Device(0x4, [], [])
  {
    AnsweredExactly(table, []);
  }

  /** The other registers: WRITE appends up to 68 dwords, a zero to READ drops a dword and clears the status
      with the last one, and nothing else has an effect. */
  lemma OtherWrites(table: seq<Entry>, d: Device, reg: u32, val: u32)
    requires |d.request| <= 68 && reg != 0x08
    ensures
      Apply(table, d, Wr(reg, val))
      == if reg == 0x10 && |d.request| < 68 then d.(request := d.request + [val])
         else if reg == 0x14 && val == 0 && |d.response| >= 2 then d.(response := d.response[1..])
         else if reg == 0x14 && val == 0 then d.(status := 0, response := [])
         else d
  {
  }

  /** STATUS and READ are the only registers that read as anything but 0, and reading changes nothing. */
  lemma Reads(table: seq<Entry>, d: Device, reg: u32)
    ensures Apply(table, d, Rd(reg)) == d
    ensures Result(d, Rd(reg)) == if reg == 0x0c then d.status
                                  else if reg != 0x14 then 0
                                  else if d.response == [] then 0xFFFF_FFFF
                                  else d.response[0]
  {
  }

  // ---------- Transactions ----------

  /** Replies echo the identifying fields and the direction; a write, and anything before detection except
      the detecting transaction, is answered with 0. */
  lemma ReplyFields(s: State, t: Transaction)
    requires Sized(s)
    ensures
      var r := Reply(s, t);
      && r.packetNumber == t.packetNumber && r.packetType == t.packetType && r.simType == t.simType
      && r.r0w1 == t.r0w1 && r.dataSize == 4 && r.cmpStatus == 0 && r.controlStatus == 0 && r.address == 0
      && (t.r0w1 != 0 ==> r.data == 0)
  {
  }

  /** Bit 0 of `control_status`, and it alone, ends a run; the quit itself gets no reply. */
  lemma QuitEndsRun(table: seq<Entry>, s: State, a: seq<Transaction>, q: Transaction, b: seq<Transaction>)
    requires Sized(s) && q.controlStatus % 2 == 1
    requires forall t :: t in a ==> t.controlStatus % 2 == 0
    ensures |Replies(table, s, a)| == |a|
    ensures Replies(table, s, a + [q] + b) == Replies(table, s, a)
    ensures Final(table, s, a + [q] + b) == Final(table, s, a)
  {
    hide Next, Reply;
    assert a + [q] + b == a + ([q] + b);
    RunAppend(table, s, a, [q] + b);
    assert ([q] + b)[0] == q;
  }

  lemma WrapAround(a: int, b: int)
    ensures (a % 0x1_0000_0000 - (b % 0x1_0000_0000 - 12) % 0x1_0000_0000) % 0x1_0000_0000
            == (a - b + 12) % 0x1_0000_0000
  {
    var p, q := a / 0x1_0000_0000, b / 0x1_0000_0000;
    var c := b % 0x1_0000_0000 - 12;
    var k := c / 0x1_0000_0000;
    assert a % 0x1_0000_0000 - c % 0x1_0000_0000 == (a - b + 12) + 0x1_0000_0000 * (k + q - p);
  }

  /** The first transaction that is not a write stands for STATUS, and every later one is decoded by its
      distance from that one, modulo 2^32. Direction 0 reads; any other writes. */
  lemma FirstReadFixesBase(first: Transaction, t: Transaction)
    requires first.r0w1 != 1
    ensures
      var base := Locate(None, first);
      var reg := (t.address - first.address + 12) % 0x1_0000_0000;
      && base.Some? && Locate(base, t) == base
      && Decode(base, t) == (if t.r0w1 == 0 then Rd(reg) else Wr(reg, t.data))
  {
    WrapAround(t.address, first.address);
  }

  /** Before that, a write is skipped and leaves the base unknown. */
  lemma WriteBeforeBase(t: Transaction)
    requires t.r0w1 == 1
    ensures Locate(None, t) == None && Decode(None, t) == Skip
  {
  }

  // ---------- The exchange documented with the emulator ----------

  /** Two polls, the request and GO. */
  function Asking(): (r: seq<Access>)
  {
    [Rd(0x0c), Rd(0x0c),
     Wr(0x10, 0x0000_0001), Wr(0x10, 0x0000_0003), Wr(0x10, 0x0000_0000), Wr(0x08, 0x8000_0000)]
  }

  /** The four dwords, with a poll at the start, before the third acknowledgement and at the end. */
  function Reading(): (r: seq<Access>)
  {
    [Rd(0x0c), Rd(0x14), Wr(0x14, 0), Rd(0x14), Wr(0x14, 0), Rd(0x14), Rd(0x0c), Wr(0x14, 0),
     Rd(0x14), Wr(0x14, 0), Rd(0x0c)]
  }

  lemma OneAccess(table: seq<Entry>, d: Device, a: Access, rest: seq<Access>)
    ensures Results(table, d, [a] + rest) == [Result(d, a)] + Results(table, Apply(table, d, a), rest)
  {
    assert ([a] + rest)[0] == a && ([a] + rest)[1..] == rest;
  }

  lemma Fill(table: seq<Entry>, rest: seq<Access>)
    ensures
      Results(table, FRESH, Asking() + rest)
      == [0, 0, 0, 0, 0, 0] + Results(table, Device(0x8000_0000, [], DiscoveryResponse(table, 0)), rest)
  {
    hide Results, Answer, ApplyCtrl;
    var go, w0, w3, w1 := [Wr(0x08, 0x8000_0000)] + rest, Wr(0x10, 0), Wr(0x10, 3), Wr(0x10, 1);
    var r5, r4 := [w0] + go, [w3] + ([w0] + go);
    var r3 := [w1] + r4;
    var r2 := [Rd(0x0c)] + r3;
    assert Asking() + rest == [Rd(0x0c)] + r2;
    OneAccess(table, FRESH, Rd(0x0c), r2);
    OneAccess(table, FRESH, Rd(0x0c), r3);
    OneAccess(table, FRESH, w1, r4);
    assert [] + [1] == [1] && [1] + [3] == [1, 3] && [1, 3] + [0] == [1, 3, 0];
    OneAccess(table, Device(0, [1], []), w3, r5);
    OneAccess(table, Device(0, [1, 3], []), w0, go);
    OneAccess(table, Device(0, [1, 3, 0], []), Wr(0x08, 0x8000_0000), rest);
    CtrlEffects(table, Device(0, [1, 3, 0], []));
    FillAnswer(table);
  }

  lemma FillAnswer(table: seq<Entry>)
    ensures Answer(table, [1, 3, 0]) == Some(DiscoveryResponse(table, 0))
  {
  }

  lemma Drain(table: seq<Entry>, a: u32, b: u32, c: u32, e: u32)
    ensures
      Results(table, Device(0x8000_0000, [], [a, b, c, e]), Reading())
      == [0x8000_0000, a, 0, b, 0, c, 0x8000_0000, 0, e, 0, 0]
  {
    hide Results, ApplyCtrl;
    var ready, ack := 0x8000_0000, Wr(0x14, 0);
    var d4, d3, d2, d1 := Device(ready, [], [a, b, c, e]), Device(ready, [], [b, c, e]),
                          Device(ready, [], [c, e]), Device(ready, [], [e]);
    var s0: seq<Access> := [];
    var s1 := [Rd(0x0c)] + s0;
    var s2 := [ack] + s1;
    var s3 := [Rd(0x14)] + s2;
    var s4 := [ack] + s3;
    var s5 := [Rd(0x0c)] + s4;
    var s6 := [Rd(0x14)] + s5;
    var s7 := [ack] + s6;
    var s8 := [Rd(0x14)] + s7;
    var s9 := [ack] + s8;
    var s10 := [Rd(0x14)] + s9;
    OneAccess(table, FRESH, Rd(0x0c), s0);
    OneAccess(table, d1, ack, s1);
    OneAccess(table, d1, Rd(0x14), s2);
    OneAccess(table, d2, ack, s3);
    OneAccess(table, d2, Rd(0x0c), s4);
    OneAccess(table, d2, Rd(0x14), s5);
    OneAccess(table, d3, ack, s6);
    OneAccess(table, d3, Rd(0x14), s7);
    OneAccess(table, d4, ack, s8);
    OneAccess(table, d4, Rd(0x14), s9);
    OneAccess(table, d4, Rd(0x0c), s10);
    assert d4.response[1..] == d3.response && d3.response[1..] == d2.response && d2.response[1..] == d1.response;
    assert [Rd(0x0c)] + s10 == Reading();
  }

  lemma DocumentedResults()
    ensures Results(PROTOCOLS, FRESH, Asking() + Reading())
            == [0, 0, 0, 0, 0, 0] + [0x8000_0000, 1, 0, 4, 0, 1, 0x8000_0000, 0, 1, 0, 0]
  {
    hide Results, Asking, Reading;
    Fill(PROTOCOLS, Reading());
    assert DiscoveryResponse(PROTOCOLS, 0) == [1, 4, 1, 1];
    Drain(PROTOCOLS, 1, 4, 1, 1);
  }

  /** The log that the source gives for a successful Discovery exchange, from power-up, with the capability
      at 0x190 and the compiled-in table: the values read, and 0 for each write. */
  lemma DocumentedExchange()
    ensures Values(Replies(PROTOCOLS, Init(), IssueAll(0x190, Asking() + Reading())))
            == [0, 0, 0, 0, 0, 0] + [0x8000_0000, 1, 0, 4, 0, 1, 0x8000_0000, 0, 1, 0, 0]
  {
    hide Results, Replies, IssueAll, Accesses, Reading;
    var rest := Asking()[1..] + Reading();
    assert Asking() + Reading() == [Rd(DOE_REG_STATUS)] + rest;
    NoSkips();
    IssueAllFromStart(0x190, rest);
    ValuesRefine(PROTOCOLS, Init(), IssueAll(0x190, Asking() + Reading()));
    DocumentedResults();
  }

  lemma NoSkips()
    ensures forall a :: a in Asking() || a in Reading() ==> !a.Skip?
  {
  }
}
