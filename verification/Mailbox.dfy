/** The mailbox as the emulator stores it, and one pass of its main loop, as functions on values.
    Nothing is erased: both buffers keep their stale contents behind the live part. */
module Mailbox {
  import opened Words
  import opened Protocol

  const DOE_REG_CTRL: u32 := 0x08
  const DOE_REG_STATUS: u32 := 0x0c
  const DOE_REG_WRITE: u32 := 0x10
  const DOE_REG_READ: u32 := 0x14

  const DOE_STATUS_ERROR: u32 := 0x4
  const DOE_STATUS_READY: u32 := 0x8000_0000

  const OVERRUN: u32 := 0xFFFF_FFFF

  /** CTRL bit 0. */
  predicate Abort(val: u32) { val % 2 == 1 }

  /** CTRL bit 31. */
  predicate Go(val: u32) { val >= 0x8000_0000 }

  datatype State = State(
    status: u32,
    reqBuf: seq<u32>, reqLen: int,
    rspBuf: seq<u32>, rspLen: int, rspIdx: int,
    capBase: u32, capDetected: bool)

  /** The fields of `simics_transaction_t` that the emulator reads or sets; `data` is the first
      dword of the payload. All other fields are zero in every reply. */
  datatype Transaction = Transaction(
    packetNumber: u32, packetType: u32, simType: u32, controlStatus: u32,
    address: u64, r0w1: u32, dataSize: u32, data: u32, cmpStatus: u32)

  /** The indices stay inside the buffers. */
  predicate Sized(s: State)
  {
    && |s.reqBuf| == DOE_BUF_DWORDS && 0 <= s.reqLen <= DOE_BUF_DWORDS
    && |s.rspBuf| == DOE_BUF_DWORDS && 0 <= s.rspIdx <= s.rspLen <= DOE_BUF_DWORDS
  }

  /** The state after `memset(&doe, 0, sizeof(doe))`. */
  function Init(): (s: State)
    ensures Sized(s)
  {
    State(0, Blanks(DOE_BUF_DWORDS), 0, Blanks(DOE_BUF_DWORDS), 0, 0, 0, false)
  }

  /** A new response at the front of the buffer, over whatever was there. */
  function Publish(s: State, rsp: seq<u32>): (r: State)
    requires Sized(s) && |rsp| <= DOE_BUF_DWORDS
    ensures Sized(r)
  {
    s.(status := DOE_STATUS_READY, rspBuf := Splice(s.rspBuf, 0, rsp), rspLen := |rsp|, rspIdx := 0)
  }

  /** `doe_process`: a refused request sets ERROR and leaves the response fields alone. */
  function Process(table: seq<Entry>, s: State): (r: State)
    requires Sized(s)
    ensures Sized(r)
  {
    match Answer(table, s.reqBuf[..s.reqLen])
    case None => s.(status := DOE_STATUS_ERROR)
    case Some(rsp) => Publish(s, rsp)
  }

  function WriteCtrl(table: seq<Entry>, s: State, val: u32): (r: State)
    requires Sized(s)
    ensures Sized(r)
  {
    var s1 := if Abort(val) then s.(reqLen := 0, rspLen := 0, rspIdx := 0, status := 0) else s;
    if Go(val) then Process(table, s1).(reqLen := 0) else s1
  }

  function WriteData(s: State, val: u32): (r: State)
    requires Sized(s)
    ensures Sized(r)
  {
    if s.reqLen < DOE_BUF_DWORDS
    then s.(reqBuf := s.reqBuf[s.reqLen := val], reqLen := s.reqLen + 1)
    else s
  }

  function WriteAck(s: State, val: u32): (r: State)
    requires Sized(s)
    ensures Sized(r)
  {
    if val != 0 then s
    else if s.rspIdx + 1 >= s.rspLen then s.(status := 0, rspIdx := 0, rspLen := 0)
    else s.(rspIdx := s.rspIdx + 1)
  }

  function RegRead(s: State, reg: u32): (val: u32)
    requires Sized(s)
  {
    if reg == DOE_REG_STATUS then s.status
    else if reg == DOE_REG_READ then
      if s.rspIdx >= s.rspLen then OVERRUN else s.rspBuf[s.rspIdx]
    else 0
  }

  function RegWrite(table: seq<Entry>, s: State, reg: u32, val: u32): (r: State)
    requires Sized(s)
    ensures Sized(r)
  {
    if reg == DOE_REG_CTRL then WriteCtrl(table, s, val)
    else if reg == DOE_REG_WRITE then WriteData(s, val)
    else if reg == DOE_REG_READ then WriteAck(s, val)
    else s
  }

  /** Bit 0 of `control_status` ends the main loop. */
  predicate Quit(t: Transaction) { t.controlStatus % 2 == 1 }

  /** `(uint32_t)physical_address`. */
  function Offset(t: Transaction): (o: u32) { t.address % 0x1_0000_0000 }

  /** Wrap-around 32-bit subtraction. */
  function Sub32(a: u32, b: u32): (d: u32) { (a - b) % 0x1_0000_0000 }

  /** The first transaction that is not a write fixes the capability base. */
  function Detect(s: State, t: Transaction): (r: State)
    ensures Sized(s) ==> Sized(r)
  {
    if s.capDetected || t.r0w1 == 1 then s
    else s.(capBase := Sub32(Offset(t), DOE_REG_STATUS), capDetected := true)
  }

  /** The mailbox after one served transaction. */
  function Next(table: seq<Entry>, s: State, t: Transaction): (r: State)
    requires Sized(s)
    ensures Sized(r)
  {
    var s1 := Detect(s, t);
    if !s1.capDetected || t.r0w1 == 0 then s1
    else RegWrite(table, s1, Sub32(Offset(t), s1.capBase), t.data)
  }

  /** A reply: the identifying fields echoed, everything else fixed except the data dword. */
  function Echo(t: Transaction, val: u32): (r: Transaction)
  {
    Transaction(t.packetNumber, t.packetType, t.simType, 0, 0, t.r0w1, 4, val, 0)
  }

  function Reply(s: State, t: Transaction): (r: Transaction)
    requires Sized(s)
  {
    var s1 := Detect(s, t);
    Echo(t, if s1.capDetected && t.r0w1 == 0 then RegRead(s1, Sub32(Offset(t), s1.capBase)) else 0)
  }

  /** The replies of a whole run; the run ends at the first quit. */
  function Replies(table: seq<Entry>, s: State, ts: seq<Transaction>): (rs: seq<Transaction>)
    requires Sized(s)
    decreases |ts|
  {
    if ts == [] || Quit(ts[0]) then []
    else [Reply(s, ts[0])] + Replies(table, Next(table, s, ts[0]), ts[1..])
  }

  /** The mailbox at the end of a whole run. */
  function Final(table: seq<Entry>, s: State, ts: seq<Transaction>): (r: State)
    requires Sized(s)
    ensures Sized(r)
    decreases |ts|
  {
    if ts == [] || Quit(ts[0]) then s
    else Final(table, Next(table, s, ts[0]), ts[1..])
  }

  /** What every run keeps. The last conjunct says that a stored response describes its own length. */
  ghost predicate Invariant(s: State)
  {
    && Sized(s)
    && s.status in {0, DOE_STATUS_ERROR, DOE_STATUS_READY}
    && (s.rspLen == 0 || s.rspIdx < s.rspLen)
    && (s.status == 0 ==> s.rspLen == 0)
    && (s.status == DOE_STATUS_READY ==> s.rspLen > 0)
    && (s.rspLen > 0 ==> 3 <= s.rspLen && s.rspBuf[1] == s.rspLen)
    && (!s.capDetected ==> s == Init().(capBase := s.capBase))
  }

  lemma NextKeepsInvariant(table: seq<Entry>, s: State, t: Transaction)
    requires Invariant(s)
    ensures Invariant(Next(table, s, t))
  {
  }

  lemma {:induction false} RunKeepsInvariant(table: seq<Entry>, s: State, ts: seq<Transaction>)
    requires Invariant(s)
    ensures Invariant(Final(table, s, ts))
    decreases |ts|
  {
    if ts != [] && !Quit(ts[0]) {
      NextKeepsInvariant(table, s, ts[0]);
      RunKeepsInvariant(table, Next(table, s, ts[0]), ts[1..]);
    }
  }

  /** The prefix of a stream that is served before a quit. */
  function Served(ts: seq<Transaction>): (r: seq<Transaction>)
    ensures r <= ts
    ensures forall t :: t in r ==> !Quit(t)
  {
    if ts == [] || Quit(ts[0]) then [] else [ts[0]] + Served(ts[1..])
  }

  lemma {:induction false} OneReplyEach(table: seq<Entry>, s: State, ts: seq<Transaction>)
    requires Sized(s)
    ensures |Replies(table, s, ts)| == |Served(ts)|
    decreases |ts|
  {
    if ts != [] && !Quit(ts[0]) {
      OneReplyEach(table, Next(table, s, ts[0]), ts[1..]);
    }
  }

  /** Every state that a run from power-up reaches satisfies the invariant, so BUSY is never set, and
      there is one reply for each transaction served. */
  lemma EveryRun(table: seq<Entry>, ts: seq<Transaction>)
    ensures Invariant(Final(table, Init(), ts))
    ensures
      var s := Final(table, Init(), ts);
      && s.status in {0, 0x4, 0x8000_0000}
      && 0 <= s.reqLen <= 68 && |s.reqBuf| == 68 && |s.rspBuf| == 68
      && (s.rspIdx == s.rspLen == 0 || 0 <= s.rspIdx < s.rspLen <= 68)
      && (s.status == 0 ==> s.rspLen == 0)
      && (s.status == 0x8000_0000 ==> s.rspIdx < s.rspLen)
      && (s.rspLen > 0 ==> s.rspBuf[1] == s.rspLen)
    ensures |Replies(table, Init(), ts)| == |Served(ts)|
  {
    RunKeepsInvariant(table, Init(), ts);
    OneReplyEach(table, Init(), ts);
  }

  /** The run from position `i` of a stream: over at its end or at a quit, otherwise one pass and the rest. */
  lemma RunUnfolds(table: seq<Entry>, s: State, ts: seq<Transaction>, i: nat)
    requires Sized(s) && i <= |ts|
    ensures
      if i == |ts| || Quit(ts[i]) then
        Final(table, s, ts[i..]) == s && Replies(table, s, ts[i..]) == [] && Served(ts[i..]) == []
      else
        && Final(table, s, ts[i..]) == Final(table, Next(table, s, ts[i]), ts[i + 1..])
        && Replies(table, s, ts[i..]) == [Reply(s, ts[i])] + Replies(table, Next(table, s, ts[i]), ts[i + 1..])
        && Served(ts[i..]) == [ts[i]] + Served(ts[i + 1..])
  {
    hide Next, Reply;
    if i < |ts| {
      assert ts[i..][0] == ts[i] && ts[i..][1..] == ts[i + 1..];
    }
  }

  /** A run over a concatenation is the first run followed by the second. */
  lemma {:induction false} RunAppend(table: seq<Entry>, s: State, a: seq<Transaction>, b: seq<Transaction>)
    requires Sized(s)
    requires forall t :: t in a ==> !Quit(t)
    ensures Replies(table, s, a + b) == Replies(table, s, a) + Replies(table, Final(table, s, a), b)
    ensures Final(table, s, a + b) == Final(table, Final(table, s, a), b)
    ensures |Replies(table, s, a)| == |a|
    decreases |a|
  {
    if a == [] {
      assert a + b == b;
    } else {
      assert (a + b)[1..] == a[1..] + b;
      RunAppend(table, Next(table, s, a[0]), a[1..], b);
    }
  }
}
