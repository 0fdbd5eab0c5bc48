/** The mailbox a host can observe: a capped request, the unread rest of a response and a status.
    The stored mailbox refines it on every run. */
module Device {
  import opened Words
  import opened Protocol
  import opened Mailbox

  datatype Device = Device(status: u32, request: seq<u32>, response: seq<u32>)

  /** A transaction once its address is decoded; `Skip` is a write before the base is known. */
  datatype Access = Rd(reg: u32) | Wr(reg: u32, val: u32) | Skip

  const FRESH: Device := Device(0, [], [])

  function Cap(req: seq<u32>): (r: seq<u32>)
    ensures r <= req && |r| <= DOE_BUF_DWORDS
    ensures |req| <= DOE_BUF_DWORDS ==> r == req
  {
    if |req| <= DOE_BUF_DWORDS then req else req[..DOE_BUF_DWORDS]
  }

  function ApplyCtrl(table: seq<Entry>, d: Device, val: u32): (r: Device)
  {
    var d1 := if Abort(val) then FRESH else d;
    if !Go(val) then d1
    else match Answer(table, d1.request)
      case None => Device(DOE_STATUS_ERROR, [], d1.response)
      case Some(rsp) => Device(DOE_STATUS_READY, [], rsp)
  }

  function Apply(table: seq<Entry>, d: Device, a: Access): (r: Device)
  {
    match a
    case Rd(_) => d
    case Skip => d
    case Wr(reg, val) =>
      if reg == DOE_REG_CTRL then ApplyCtrl(table, d, val)
      else if reg == DOE_REG_WRITE then d.(request := Cap(d.request + [val]))
      else if reg == DOE_REG_READ && val == 0 then
        if |d.response| <= 1 then Device(0, d.request, []) else d.(response := d.response[1..])
      else d
  }

  function Result(d: Device, a: Access): (val: u32)
  {
    if a == Rd(DOE_REG_STATUS) then d.status
    else if a == Rd(DOE_REG_READ) then if d.response == [] then OVERRUN else d.response[0]
    else 0
  }

  function Results(table: seq<Entry>, d: Device, accesses: seq<Access>): (vs: seq<u32>)
    ensures |vs| == |accesses|
    decreases |accesses|
  {
    if accesses == [] then []
    else [Result(d, accesses[0])] + Results(table, Apply(table, d, accesses[0]), accesses[1..])
  }

  function After(table: seq<Entry>, d: Device, accesses: seq<Access>): (r: Device)
    decreases |accesses|
  {
    if accesses == [] then d else After(table, Apply(table, d, accesses[0]), accesses[1..])
  }

  lemma {:induction false} RunAppendAccesses(table: seq<Entry>, d: Device, a: seq<Access>, b: seq<Access>)
    ensures Results(table, d, a + b) == Results(table, d, a) + Results(table, After(table, d, a), b)
    ensures After(table, d, a + b) == After(table, After(table, d, a), b)
    decreases |a|
  {
    if a == [] {
      assert a + b == b;
    } else {
      assert (a + b)[1..] == a[1..] + b;
      RunAppendAccesses(table, Apply(table, d, a[0]), a[1..], b);
    }
  }

  // ---------- From transactions to accesses ----------

  function Base(s: State): (b: Option<u32>)
  {
    if s.capDetected then Some(s.capBase) else None
  }

  /** The base known once `t` has arrived. */
  function Locate(base: Option<u32>, t: Transaction): (b: Option<u32>)
  {
    if base.Some? || t.r0w1 == 1 then base else Some(Sub32(Offset(t), DOE_REG_STATUS))
  }

  function Decode(base: Option<u32>, t: Transaction): (a: Access)
  {
    match Locate(base, t)
    case None => Skip
    case Some(b) =>
      var reg := Sub32(Offset(t), b);
      if t.r0w1 == 0 then Rd(reg) else Wr(reg, t.data)
  }

  /** The accesses that a stream of transactions performs, up to a quit. */
  function Accesses(base: Option<u32>, ts: seq<Transaction>): (r: seq<Access>)
    ensures |r| <= |ts|
    decreases |ts|
  {
    if ts == [] || Quit(ts[0]) then []
    else [Decode(base, ts[0])] + Accesses(Locate(base, ts[0]), ts[1..])
  }

  /** A transaction that performs an access on a device with the given base. */
  function Issue(base: u32, a: Access): (t: Transaction)
    requires !a.Skip?
  {
    var (r0w1, val) := if a.Rd? then (0, 0) else (1, a.val);
    Transaction(0, 1, 1, 0, (base + a.reg) % 0x1_0000_0000, r0w1, 4, val, 0)
  }

  lemma AddThenSub(base: u32, reg: u32)
    ensures Sub32((base + reg) % 0x1_0000_0000, base) == reg
  {
    var o: int := (base as int + reg as int) % 0x1_0000_0000;
    assert (o - base) % 0x1_0000_0000 == reg;
  }

  lemma IssueDecodes(base: u32, a: Access)
    requires !a.Skip?
    ensures Decode(Some(base), Issue(base, a)) == a && !Quit(Issue(base, a))
  {
    hide Sub32;
    AddThenSub(base, a.reg);
  }

  function IssueAll(base: u32, accesses: seq<Access>): (ts: seq<Transaction>)
    requires forall a :: a in accesses ==> !a.Skip?
    ensures |ts| == |accesses|
  {
    seq(|accesses|, i requires 0 <= i < |accesses| => Issue(base, accesses[i]))
  }

  lemma {:induction false} IssueAllDecodes(base: u32, accesses: seq<Access>)
    requires forall a :: a in accesses ==> !a.Skip?
    ensures Accesses(Some(base), IssueAll(base, accesses)) == accesses
    decreases |accesses|
  {
    if accesses != [] {
      IssueDecodes(base, accesses[0]);
      assert IssueAll(base, accesses)[1..] == IssueAll(base, accesses[1..]);
      IssueAllDecodes(base, accesses[1..]);
    }
  }

  /** Issued to a device that has yet to learn its base, a first STATUS read teaches it. */
  lemma IssueAllFromStart(base: u32, accesses: seq<Access>)
    requires forall a :: a in accesses ==> !a.Skip?
    ensures
      var all := [Rd(DOE_REG_STATUS)] + accesses;
      Accesses(None, IssueAll(base, all)) == all
  {
    var all := [Rd(DOE_REG_STATUS)] + accesses;
    AddThenSub(base, DOE_REG_STATUS);
    AddThenSub(DOE_REG_STATUS, base);
    assert Locate(None, IssueAll(base, all)[0]) == Some(base);
    IssueAllDecodes(base, all);
  }

  // ---------- Refinement ----------

  /** The live part of the stored mailbox. */
  function Abs(s: State): (d: Device)
    requires Sized(s)
  {
    Device(s.status, s.reqBuf[..s.reqLen], s.rspBuf[s.rspIdx..s.rspLen])
  }

  lemma WriteRefines(table: seq<Entry>, s: State, reg: u32, val: u32)
    requires Sized(s)
    ensures Abs(RegWrite(table, s, reg, val)) == Apply(table, Abs(s), Wr(reg, val))
  {
    if reg == DOE_REG_CTRL {
      var s1 := if Abort(val) then s.(reqLen := 0, rspLen := 0, rspIdx := 0, status := 0) else s;
      assert Abs(s1) == if Abort(val) then FRESH else Abs(s);
    } else if reg == DOE_REG_READ && val == 0 {
      var s' := WriteAck(s, val);
      if s.rspIdx + 1 < s.rspLen {
        assert s'.rspBuf[s'.rspIdx..s'.rspLen] == s.rspBuf[s.rspIdx..s.rspLen][1..];
      }
    }
  }

  lemma NextRefines(table: seq<Entry>, s: State, t: Transaction)
    requires Sized(s)
    ensures Abs(Next(table, s, t)) == Apply(table, Abs(s), Decode(Base(s), t))
    ensures Base(Next(table, s, t)) == Locate(Base(s), t)
    ensures Reply(s, t) == Echo(t, Result(Abs(s), Decode(Base(s), t)))
  {
    var s1 := Detect(s, t);
    if s1.capDetected && t.r0w1 != 0 {
      WriteRefines(table, s1, Sub32(Offset(t), s1.capBase), t.data);
    }
  }

  /** On every run, from any stored mailbox, each reply echoes its transaction and carries the value
      that the observable device returns, and the final mailboxes agree. */
  lemma {:induction false} RunRefines(table: seq<Entry>, s: State, ts: seq<Transaction>)
    requires Sized(s)
    ensures
      var accesses := Accesses(Base(s), ts);
      var rs := Replies(table, s, ts);
      && Abs(Final(table, s, ts)) == After(table, Abs(s), accesses)
      && |rs| == |accesses|
      && forall i :: 0 <= i < |rs| ==> rs[i] == Echo(ts[i], Results(table, Abs(s), accesses)[i])
    decreases |ts|
  {
    if ts != [] && !Quit(ts[0]) {
      NextRefines(table, s, ts[0]);
      RunRefines(table, Next(table, s, ts[0]), ts[1..]);
    }
  }

  /** Two mailboxes that agree on their live parts, whatever their buffers hold behind them, answer
      every stream of transactions alike. */
  lemma Bisimulation(table: seq<Entry>, s1: State, s2: State, ts: seq<Transaction>)
    requires Sized(s1) && Sized(s2)
    requires Abs(s1) == Abs(s2) && Base(s1) == Base(s2)
    ensures Replies(table, s1, ts) == Replies(table, s2, ts)
    ensures Abs(Final(table, s1, ts)) == Abs(Final(table, s2, ts))
  {
    RunRefines(table, s1, ts);
    RunRefines(table, s2, ts);
  }

  lemma {:induction false} BaseIsKept(table: seq<Entry>, s: State, ts: seq<Transaction>)
    requires Sized(s) && s.capDetected
    ensures Base(Final(table, s, ts)) == Base(s)
    decreases |ts|
  {
    if ts != [] && !Quit(ts[0]) {
      NextRefines(table, s, ts[0]);
      BaseIsKept(table, Next(table, s, ts[0]), ts[1..]);
    }
  }
}
