/** The relay: daemon-doe, thin-server and doe-emu as three processes that exchange bytes, each step
    one partial transfer or one local computation, in any interleaving. */
module Relay {
  import opened Words
  import opened Protocol
  import opened Mailbox
  import opened Device
  import opened Wire
  import opened Framing

  // ---------- The records the thin server builds ----------

  /** The transaction that carries an op. */
  function Translate(number: u32, op: Op): (t: Transaction)
  {
    Transaction(number, 1, 1, 0, op.offset, if op.kind == AVERY_OP_WRITE then 1 else 0, 4, op.value, 0)
  }

  /** The op returned to the daemon. */
  function Answered(op: Op, rsp: Transaction): (r: Op)
  {
    op.(status := rsp.cmpStatus, value := rsp.data)
  }

  /** An op of type 0x10 writes its value at its offset, any other reads there; both are config transactions
      that never quit, under the given number. */
  lemma TranslatedOp(number: u32, op: Op, base: u32)
    ensures
      var t := Translate(number, op);
      && t.packetNumber == number && t.packetType == 1 && t.simType == 1 && t.dataSize == 4
      && t.controlStatus % 2 == 0 && t.address == op.offset && t.data == op.value
      && Decode(Some(base), t)
         == var reg := (op.offset - base) % 0x1_0000_0000; if op.kind == 0x10 then Wr(reg, op.value) else Rd(reg)
  {
  }

  /** The answer differs from the op in status and value only, which are the reply's. */
  lemma AnsweredOp(op: Op, rsp: Transaction)
    ensures Answered(op, rsp) == Op(op.kind, op.offset, rsp.data, rsp.cmpStatus)
  {
  }

  // ---------- Direct access, the reference ----------

  /** The mailbox after the ops have been applied to it one by one, with no relay between. */
  function DirectState(table: seq<Entry>, ops: seq<Op>): (s: State)
    ensures Sized(s)
  {
    if ops == [] then Init()
    else Next(table, DirectState(table, ops[..|ops| - 1]), Translate(0, ops[|ops| - 1]))
  }

  /** The answer to the k-th op under direct access. */
  function DirectAnswer(table: seq<Entry>, ops: seq<Op>, k: nat): (op: Op)
    requires k < |ops|
  {
    Answered(ops[k], Reply(DirectState(table, ops[..k]), Translate(0, ops[k])))
  }

  // ---------- The processes ----------

  datatype DaemonPc = Polling | Sending | Receiving
  datatype ServerPc = RecvOp | WriteReq | ReadRsp | SendOp
  datatype EmuPc = ReadReq | WriteRsp | Stopped

  datatype Relay = Relay(
    pending: seq<Op>, done: seq<Op>,
    daemon: DaemonPc, up: Link, down: Link,
    server: ServerPc, number: u32, op: Op, req: Link, rsp: Link,
    emu: EmuPc, box: State)

  datatype Step =
    | DaemonTake | DaemonSend(n: int) | DaemonSent | DaemonRecv(n: int) | DaemonGive
    | ServerRecv(n: int) | ServerBuild | ServerWrite(n: int) | ServerWritten
    | ServerRead(n: int) | ServerReply | ServerSend(n: int) | ServerSent
    | EmuRead(n: int) | EmuHandle | EmuWrite(n: int) | EmuWritten

  function Start(ops: seq<Op>): (r: Relay)
  {
    Relay(ops, [], Polling, IDLE, IDLE, RecvOp, 0, Op(0, 0, 0, 0), IDLE, IDLE, ReadReq, Init())
  }

  function DaemonStep(r: Relay, step: Step): (r': Option<Relay>)
  {
    match step
    case DaemonTake =>
      if r.daemon.Polling? && r.pending != []
      then Some(r.(pending := r.pending[1..], up := r.up.(rest := EncodeOp(r.pending[0])), daemon := Sending))
      else None
    case DaemonSend(n) =>
      if r.daemon.Sending? && CanPush(r.up, n) then Some(r.(up := Push(r.up, n))) else None
    case DaemonSent =>
      if r.daemon.Sending? && r.up.rest == [] then Some(r.(daemon := Receiving)) else None
    case DaemonRecv(n) =>
      if r.daemon.Receiving? && CanPull(r.down, n, OP_SIZE)
      then Some(r.(down := Pull(r.down, n, OP_SIZE))) else None
    case DaemonGive =>
      if r.daemon.Receiving? && |r.down.got| == OP_SIZE
      then Some(r.(done := r.done + [DecodeOp(r.down.got)], down := r.down.(got := []), daemon := Polling))
      else None
    case _ => None
  }

  function ServerStep(r: Relay, step: Step): (r': Option<Relay>)
  {
    match step
    case ServerRecv(n) =>
      if r.server.RecvOp? && CanPull(r.up, n, OP_SIZE) then Some(r.(up := Pull(r.up, n, OP_SIZE))) else None
    case ServerBuild =>
      if r.server.RecvOp? && |r.up.got| == OP_SIZE then
        var op, number := DecodeOp(r.up.got), (r.number + 1) % 0x1_0000_0000;
        Some(r.(op := op, number := number, up := r.up.(got := []),
                req := r.req.(rest := EncodeTx(Translate(number, op))), server := WriteReq))
      else None
    case ServerWrite(n) =>
      if r.server.WriteReq? && CanPush(r.req, n) then Some(r.(req := Push(r.req, n))) else None
    case ServerWritten =>
      if r.server.WriteReq? && r.req.rest == [] then Some(r.(server := ReadRsp)) else None
    case ServerRead(n) =>
      if r.server.ReadRsp? && CanPull(r.rsp, n, TX_SIZE) then Some(r.(rsp := Pull(r.rsp, n, TX_SIZE))) else None
    case ServerReply =>
      if r.server.ReadRsp? && |r.rsp.got| == TX_SIZE then
        var op := Answered(r.op, DecodeTx(r.rsp.got));
        Some(r.(op := op, rsp := r.rsp.(got := []), down := r.down.(rest := EncodeOp(op)), server := SendOp))
      else None
    case ServerSend(n) =>
      if r.server.SendOp? && CanPush(r.down, n) then Some(r.(down := Push(r.down, n))) else None
    case ServerSent =>
      if r.server.SendOp? && r.down.rest == [] then Some(r.(server := RecvOp)) else None
    case _ => None
  }

  function EmuStep(table: seq<Entry>, r: Relay, step: Step): (r': Option<Relay>)
    requires Sized(r.box)
    ensures r'.Some? ==> Sized(r'.value.box)
  {
    match step
    case EmuRead(n) =>
      if r.emu.ReadReq? && CanPull(r.req, n, TX_SIZE) then Some(r.(req := Pull(r.req, n, TX_SIZE))) else None
    case EmuHandle =>
      if r.emu.ReadReq? && |r.req.got| == TX_SIZE then
        var t := DecodeTx(r.req.got);
        if Quit(t) then Some(r.(req := r.req.(got := []), emu := Stopped))
        else Some(r.(req := r.req.(got := []), box := Next(table, r.box, t),
                     rsp := r.rsp.(rest := EncodeTx(Reply(r.box, t))), emu := WriteRsp))
      else None
    case EmuWrite(n) =>
      if r.emu.WriteRsp? && CanPush(r.rsp, n) then Some(r.(rsp := Push(r.rsp, n))) else None
    case EmuWritten =>
      if r.emu.WriteRsp? && r.rsp.rest == [] then Some(r.(emu := ReadReq)) else None
    case _ => None
  }

  function Exec(table: seq<Entry>, r: Relay, step: Step): (r': Option<Relay>)
    requires Sized(r.box)
    ensures r'.Some? ==> Sized(r'.value.box)
  {
    var d := DaemonStep(r, step);
    var s := ServerStep(r, step);
    if d.Some? then d else if s.Some? then s else EmuStep(table, r, step)
  }

  /** A schedule: the relay after the given steps, if each was possible in turn. */
  function Play(table: seq<Entry>, ops: seq<Op>, steps: seq<Step>): (r: Option<Relay>)
    ensures r.Some? ==> Sized(r.value.box)
  {
    if steps == [] then Some(Start(ops))
    else match Play(table, ops, steps[..|steps| - 1])
      case None => None
      case Some(r) => Exec(table, r, steps[|steps| - 1])
  }

  /** A schedule is its steps one after the other, from a relay that holds all the ops and nothing else. */
  lemma PlayOneMore(table: seq<Entry>, ops: seq<Op>, steps: seq<Step>, step: Step)
    ensures Play(table, ops, []) == Some(Start(ops)) && Start(ops).pending == ops && Start(ops).done == []
    ensures Play(table, ops, steps).Some? ==>
      Play(table, ops, steps + [step]) == Exec(table, Play(table, ops, steps).value, step)
  {
    assert (steps + [step])[..|steps|] == steps;
  }

  /** The daemon's steps: each is possible exactly when the daemon is at it, and a transfer for every non-empty
      part of what is left to send, or of what has arrived and still belongs to the record. */
  lemma EveryDaemonStep(table: seq<Entry>, r: Relay, n: int)
    requires Sized(r.box)
    ensures Exec(table, r, DaemonTake).Some? <==> r.daemon == Polling && r.pending != []
    ensures Exec(table, r, DaemonSend(n)).Some? <==> r.daemon == Sending && 1 <= n <= |r.up.rest|
    ensures Exec(table, r, DaemonSent).Some? <==> r.daemon == Sending && r.up.rest == []
    ensures Exec(table, r, DaemonRecv(n)).Some?
            <==> r.daemon == Receiving && 1 <= n <= |r.down.wire| && |r.down.got| + n <= 16
    ensures Exec(table, r, DaemonGive).Some? <==> r.daemon == Receiving && |r.down.got| == 16
  {
    hide ServerStep, EncodeOp, DecodeOp, Push, Pull;
    ServerKeepsOff(r, n);
  }

  lemma ServerKeepsOff(r: Relay, n: int)
    ensures ServerStep(r, DaemonTake) == None && ServerStep(r, DaemonSend(n)) == None
    ensures ServerStep(r, DaemonSent) == None && ServerStep(r, DaemonRecv(n)) == None
    ensures ServerStep(r, DaemonGive) == None && ServerStep(r, EmuRead(n)) == None
    ensures ServerStep(r, EmuHandle) == None && ServerStep(r, EmuWrite(n)) == None
    ensures ServerStep(r, EmuWritten) == None
  {
  }

  lemma DaemonKeepsOff(r: Relay, n: int)
    ensures DaemonStep(r, ServerRecv(n)) == None && DaemonStep(r, ServerBuild) == None
    ensures DaemonStep(r, ServerWrite(n)) == None && DaemonStep(r, ServerWritten) == None
    ensures DaemonStep(r, ServerRead(n)) == None && DaemonStep(r, ServerReply) == None
    ensures DaemonStep(r, ServerSend(n)) == None && DaemonStep(r, ServerSent) == None
    ensures DaemonStep(r, EmuRead(n)) == None && DaemonStep(r, EmuHandle) == None
    ensures DaemonStep(r, EmuWrite(n)) == None && DaemonStep(r, EmuWritten) == None
  {
  }

  /** The server's transfers, in the same way. */
  lemma EveryServerTransfer(table: seq<Entry>, r: Relay, n: int)
    requires Sized(r.box)
    ensures Exec(table, r, ServerRecv(n)).Some?
            <==> r.server == RecvOp && 1 <= n <= |r.up.wire| && |r.up.got| + n <= 16
    ensures Exec(table, r, ServerWrite(n)).Some? <==> r.server == WriteReq && 1 <= n <= |r.req.rest|
    ensures Exec(table, r, ServerRead(n)).Some?
            <==> r.server == ReadRsp && 1 <= n <= |r.rsp.wire| && |r.rsp.got| + n <= 344
    ensures Exec(table, r, ServerSend(n)).Some? <==> r.server == SendOp && 1 <= n <= |r.down.rest|
  {
    hide DaemonStep, EncodeOp, DecodeOp, EncodeTx, DecodeTx, Push, Pull;
    DaemonKeepsOff(r, n);
  }

  /** The server's local steps, in the same way. */
  lemma EveryServerStep(table: seq<Entry>, r: Relay)
    requires Sized(r.box)
    ensures Exec(table, r, ServerBuild).Some? <==> r.server == RecvOp && |r.up.got| == 16
    ensures Exec(table, r, ServerWritten).Some? <==> r.server == WriteReq && r.req.rest == []
    ensures Exec(table, r, ServerReply).Some? <==> r.server == ReadRsp && |r.rsp.got| == 344
    ensures Exec(table, r, ServerSent).Some? <==> r.server == SendOp && r.down.rest == []
  {
    hide DaemonStep, EncodeOp, DecodeOp, EncodeTx, DecodeTx, Push, Pull;
    DaemonKeepsOff(r, 0);
  }

  /** The emulator's steps, in the same way. */
  lemma EveryEmuStep(table: seq<Entry>, r: Relay, n: int)
    requires Sized(r.box)
    ensures Exec(table, r, EmuRead(n)).Some?
            <==> r.emu == ReadReq && 1 <= n <= |r.req.wire| && |r.req.got| + n <= 344
    ensures Exec(table, r, EmuHandle).Some? <==> r.emu == ReadReq && |r.req.got| == 344
    ensures Exec(table, r, EmuWrite(n)).Some? <==> r.emu == WriteRsp && 1 <= n <= |r.rsp.rest|
    ensures Exec(table, r, EmuWritten).Some? <==> r.emu == WriteRsp && r.rsp.rest == []
  {
    hide DaemonStep, ServerStep, EncodeTx, DecodeTx, Next, Reply, Push, Pull;
    DaemonKeepsOff(r, n);
    ServerKeepsOff(r, n);
  }

  // ---------- The invariant: one record in flight, in one of four places ----------

  /** The answered ops got their direct answers. */
  ghost predicate Settled(table: seq<Entry>, ops: seq<Op>, r: Relay)
  {
    && |r.done| <= |ops|
    && forall i :: 0 <= i < |r.done| ==> r.done[i] == DirectAnswer(table, ops, i)
  }

  ghost predicate Idle(table: seq<Entry>, ops: seq<Op>, r: Relay)
  {
    var k := |r.done|;
    && Settled(table, ops, r)
    && r.pending == ops[k..] && r.number == k % 0x1_0000_0000 && r.box == DirectState(table, ops[..k])
    && r.up == IDLE && r.req == IDLE && r.rsp == IDLE && r.down == IDLE
    && r.daemon.Polling? && (r.server.RecvOp? || r.server.SendOp?) && !r.emu.Stopped?
  }

  /** What holds while an op is being served. */
  ghost predicate Flying(table: seq<Entry>, ops: seq<Op>, r: Relay)
  {
    var k := |r.done|;
    && Settled(table, ops, r)
    && k < |ops| && r.pending == ops[k + 1..]
    && !r.daemon.Polling? && (r.daemon.Receiving? ==> r.up.rest == []) && !r.emu.Stopped?
  }

  /** The op is on its way to the server. */
  ghost predicate GoingUp(table: seq<Entry>, ops: seq<Op>, r: Relay)
  {
    && Flying(table, ops, r)
    && var k := |r.done|;
    && r.number == k % 0x1_0000_0000 && r.box == DirectState(table, ops[..k])
    && Content(r.up) == EncodeOp(ops[k]) && r.req == IDLE && r.rsp == IDLE && r.down == IDLE
    && (r.server.RecvOp? || r.server.SendOp?)
  }

  /** What holds from the server's request on. */
  ghost predicate Issued(table: seq<Entry>, ops: seq<Op>, r: Relay)
  {
    && Flying(table, ops, r)
    && r.up == IDLE && r.number == (|r.done| + 1) % 0x1_0000_0000
  }

  /** The transaction is on its way to the emulator. */
  ghost predicate Requested(table: seq<Entry>, ops: seq<Op>, r: Relay)
  {
    && Issued(table, ops, r)
    && var k := |r.done|;
    && r.op == ops[k] && r.box == DirectState(table, ops[..k])
    && Content(r.req) == EncodeTx(Translate(r.number, ops[k])) && r.rsp == IDLE && r.down == IDLE
    && (r.server.WriteReq? || (r.server.ReadRsp? && r.req.rest == []))
  }

  /** The reply is on its way back to the server. */
  ghost predicate Replied(table: seq<Entry>, ops: seq<Op>, r: Relay)
  {
    && Issued(table, ops, r)
    && var k := |r.done|;
    && r.op == ops[k] && r.box == DirectState(table, ops[..k + 1])
    && Content(r.rsp) == EncodeTx(Reply(DirectState(table, ops[..k]), Translate(r.number, ops[k])))
    && r.req == IDLE && r.down == IDLE
    && (r.server.WriteReq? || r.server.ReadRsp?) && (r.emu.ReadReq? ==> r.rsp.rest == [])
  }

  /** The answered op is on its way back to the daemon. */
  ghost predicate GoingDown(table: seq<Entry>, ops: seq<Op>, r: Relay)
  {
    && Issued(table, ops, r)
    && var k := |r.done|;
    && r.box == DirectState(table, ops[..k + 1])
    && Content(r.down) == EncodeOp(DirectAnswer(table, ops, k)) && r.req == IDLE && r.rsp == IDLE
    && (r.server.SendOp? || (r.server.RecvOp? && r.down.rest == []))
  }

  ghost predicate Inv(table: seq<Entry>, ops: seq<Op>, r: Relay)
  {
    || Idle(table, ops, r) || GoingUp(table, ops, r) || Requested(table, ops, r)
    || Replied(table, ops, r) || GoingDown(table, ops, r)
  }

  // ---------- A bound on the steps that remain ----------

  function Transit(l: Link): (n: nat)
  {
    2 * |l.rest| + |l.wire|
  }

  function Stage(r: Relay): (n: nat)
  {
    if r.up != IDLE then 1415
    else if r.req != IDLE then 725
    else if r.rsp != IDLE then 35
    else if r.down != IDLE then 1
    else 0
  }

  function Lag(r: Relay): (n: nat)
  {
    (if r.daemon.Sending? then 1 else 0) + (if r.server.WriteReq? || r.server.SendOp? then 1 else 0)
    + (if r.emu.WriteRsp? then 1 else 0)
  }

  function Work(r: Relay): (n: nat)
  {
    1450 * |r.pending| + Stage(r) + Lag(r)
    + Transit(r.up) + Transit(r.req) + Transit(r.rsp) + Transit(r.down)
  }

  // ---------- Every step keeps the invariant and uses up work ----------

  /** A complete record at the receiver is the whole content of the link. */
  lemma Complete(l: Link, size: nat)
    requires |Content(l)| == size == |l.got|
    ensures l.got == Content(l) && l.(got := []) == IDLE
  {
  }

  lemma DirectNext(table: seq<Entry>, ops: seq<Op>, k: nat, number: u32)
    requires k < |ops|
    ensures
      var s, t := DirectState(table, ops[..k]), Translate(number, ops[k]);
      && DirectState(table, ops[..k + 1]) == Next(table, s, t)
      && DirectAnswer(table, ops, k) == Answered(ops[k], Reply(s, t))
      && Reply(s, t).packetNumber == number && !Quit(t)
  {
    assert ops[..k + 1][..k] == ops[..k];
  }

  lemma TakeStep(table: seq<Entry>, ops: seq<Op>, r: Relay)
    requires Sized(r.box) && Idle(table, ops, r) && DaemonStep(r, DaemonTake).Some?
    ensures var r' := DaemonStep(r, DaemonTake).value; GoingUp(table, ops, r') && Work(r') < Work(r)
  {
    hide EncodeTx, EncodeOp, DecodeTx, DecodeOp, Next, Reply, DirectState;
    var r' := DaemonStep(r, DaemonTake).value;
    assert r.pending[0] == ops[|r.done|];
    assert Content(r'.up) == EncodeOp(ops[|r.done|]);
  }

  lemma NextNumber(k: nat)
    ensures (k % 0x1_0000_0000 + 1) % 0x1_0000_0000 == (k + 1) % 0x1_0000_0000
  {
  }

  lemma BuildStep(table: seq<Entry>, ops: seq<Op>, r: Relay)
    requires Sized(r.box) && GoingUp(table, ops, r) && ServerStep(r, ServerBuild).Some?
    ensures var r' := ServerStep(r, ServerBuild).value; Requested(table, ops, r') && Work(r') < Work(r)
  {
    hide EncodeTx, EncodeOp, DecodeTx, DecodeOp, Next, Reply, DirectState;
    var op := ops[|r.done|];
    Complete(r.up, OP_SIZE);
    OpRoundTrip(op);
    var number: u32 := (r.number + 1) % 0x1_0000_0000;
    NextNumber(|r.done|);
    var rest := EncodeTx(Translate(number, op));
    var r' := r.(op := op, number := number, up := IDLE, req := Link(rest, [], []), server := WriteReq);
    assert ServerStep(r, ServerBuild) == Some(r');
    assert Content(r'.req) == rest;
  }

  lemma HandleResult(table: seq<Entry>, r: Relay, t: Transaction)
    requires Sized(r.box) && r.emu.ReadReq? && r.req.got == EncodeTx(t) && !Quit(t)
    ensures EmuStep(table, r, EmuHandle)
            == Some(r.(req := r.req.(got := []), box := Next(table, r.box, t),
                       rsp := r.rsp.(rest := EncodeTx(Reply(r.box, t))), emu := WriteRsp))
  {
    TxRoundTrip(t);
  }

  lemma HandleStep(table: seq<Entry>, ops: seq<Op>, r: Relay)
    requires Sized(r.box) && Requested(table, ops, r) && EmuStep(table, r, EmuHandle).Some?
    ensures var r' := EmuStep(table, r, EmuHandle).value; Replied(table, ops, r') && Work(r') < Work(r)
  {
    hide EncodeTx, EncodeOp, DecodeTx, DecodeOp, Next, Reply, DirectState;
    var k := |r.done|;
    var s, t := DirectState(table, ops[..k]), Translate(r.number, ops[k]);
    Complete(r.req, TX_SIZE);
    HandleResult(table, r, t);
    var rest := EncodeTx(Reply(s, t));
    var s1 := DirectState(table, ops[..k + 1]);
    DirectNext(table, ops, k, r.number);
    var r' := r.(req := IDLE, box := s1, rsp := Link(rest, [], []), emu := WriteRsp);
    assert EmuStep(table, r, EmuHandle) == Some(r');
    assert Content(r'.rsp) == rest;
  }

  lemma ReplyStep(table: seq<Entry>, ops: seq<Op>, r: Relay)
    requires Sized(r.box) && Replied(table, ops, r) && ServerStep(r, ServerReply).Some?
    ensures var r' := ServerStep(r, ServerReply).value; GoingDown(table, ops, r') && Work(r') < Work(r)
  {
    hide EncodeTx, EncodeOp, DecodeTx, DecodeOp, Next, Reply, DirectState;
    var r' := ServerStep(r, ServerReply).value;
    var k := |r.done|;
    Complete(r.rsp, TX_SIZE);
    TxRoundTrip(Reply(DirectState(table, ops[..k]), Translate(r.number, ops[k])));
    DirectNext(table, ops, k, r.number);
    assert Content(r'.down) == r'.down.rest;
  }

  lemma GiveStep(table: seq<Entry>, ops: seq<Op>, r: Relay)
    requires Sized(r.box) && GoingDown(table, ops, r) && DaemonStep(r, DaemonGive).Some?
    ensures var r' := DaemonStep(r, DaemonGive).value; Idle(table, ops, r') && Work(r') < Work(r)
  {
    hide EncodeTx, EncodeOp, DecodeTx, DecodeOp, Next, Reply, DirectState;
    Complete(r.down, OP_SIZE);
    OpRoundTrip(DirectAnswer(table, ops, |r.done|));
  }

  lemma IdleStep(table: seq<Entry>, ops: seq<Op>, r: Relay, step: Step)
    requires Sized(r.box) && Idle(table, ops, r) && Exec(table, r, step).Some?
    ensures var r' := Exec(table, r, step).value; Inv(table, ops, r') && Work(r') < Work(r)
  {
    hide EncodeTx, EncodeOp, DecodeTx, DecodeOp, Next, Reply, DirectState, Push, Pull, Content, DirectAnswer;
    if step == DaemonTake {
      TakeStep(table, ops, r);
    } else {
      assert Idle(table, ops, Exec(table, r, step).value);
    }
  }

  lemma GoingUpStep(table: seq<Entry>, ops: seq<Op>, r: Relay, step: Step)
    requires Sized(r.box) && GoingUp(table, ops, r) && Exec(table, r, step).Some?
    ensures var r' := Exec(table, r, step).value; Inv(table, ops, r') && Work(r') < Work(r)
  {
    hide EncodeTx, EncodeOp, DecodeTx, DecodeOp, Next, Reply, DirectState, Push, Pull, Content, DirectAnswer;
    if step == ServerBuild {
      BuildStep(table, ops, r);
    } else {
      assert GoingUp(table, ops, Exec(table, r, step).value);
    }
  }

  lemma RequestedStep(table: seq<Entry>, ops: seq<Op>, r: Relay, step: Step)
    requires Sized(r.box) && Requested(table, ops, r) && Exec(table, r, step).Some?
    ensures var r' := Exec(table, r, step).value; Inv(table, ops, r') && Work(r') < Work(r)
  {
    hide EncodeTx, EncodeOp, DecodeTx, DecodeOp, Next, Reply, DirectState, Push, Pull, Content, DirectAnswer;
    if step == EmuHandle {
      HandleStep(table, ops, r);
    } else {
      assert Requested(table, ops, Exec(table, r, step).value);
    }
  }

  lemma RepliedStep(table: seq<Entry>, ops: seq<Op>, r: Relay, step: Step)
    requires Sized(r.box) && Replied(table, ops, r) && Exec(table, r, step).Some?
    ensures var r' := Exec(table, r, step).value; Inv(table, ops, r') && Work(r') < Work(r)
  {
    hide EncodeTx, EncodeOp, DecodeTx, DecodeOp, Next, Reply, DirectState, Push, Pull, Content, DirectAnswer;
    if step == ServerReply {
      ReplyStep(table, ops, r);
    } else {
      assert Replied(table, ops, Exec(table, r, step).value);
    }
  }

  lemma GoingDownStep(table: seq<Entry>, ops: seq<Op>, r: Relay, step: Step)
    requires Sized(r.box) && GoingDown(table, ops, r) && Exec(table, r, step).Some?
    ensures var r' := Exec(table, r, step).value; Inv(table, ops, r') && Work(r') < Work(r)
  {
    hide EncodeTx, EncodeOp, DecodeTx, DecodeOp, Next, Reply, DirectState, Push, Pull, Content, DirectAnswer;
    if step == DaemonGive {
      GiveStep(table, ops, r);
    } else {
      assert GoingDown(table, ops, Exec(table, r, step).value);
    }
  }

  lemma ExecKeepsInv(table: seq<Entry>, ops: seq<Op>, r: Relay, step: Step)
    requires Sized(r.box) && Inv(table, ops, r) && Exec(table, r, step).Some?
    ensures var r' := Exec(table, r, step).value; Inv(table, ops, r') && Work(r') < Work(r)
  {
    if Idle(table, ops, r) {
      IdleStep(table, ops, r, step);
    } else if GoingUp(table, ops, r) {
      GoingUpStep(table, ops, r, step);
    } else if Requested(table, ops, r) {
      RequestedStep(table, ops, r, step);
    } else if Replied(table, ops, r) {
      RepliedStep(table, ops, r, step);
    } else {
      GoingDownStep(table, ops, r, step);
    }
  }

  lemma {:induction false} PlayKeepsInv(table: seq<Entry>, ops: seq<Op>, steps: seq<Step>)
    requires Play(table, ops, steps).Some?
    ensures Inv(table, ops, Play(table, ops, steps).value)
    ensures Work(Play(table, ops, steps).value) + |steps| <= 1450 * |ops|
  {
    if steps == [] {
      assert ops[..0] == [] && ops[0..] == ops;
      assert Idle(table, ops, Start(ops));
    } else {
      var front := steps[..|steps| - 1];
      PlayKeepsInv(table, ops, front);
      ExecKeepsInv(table, ops, Play(table, ops, front).value, steps[|steps| - 1]);
    }
  }

  // ---------- The theorems ----------

  function DirectAnswers(table: seq<Entry>, ops: seq<Op>): (r: seq<Op>)
    ensures |r| == |ops| && forall k :: 0 <= k < |ops| ==> r[k] == DirectAnswer(table, ops, k)
  {
    seq(|ops|, k requires 0 <= k < |ops| => DirectAnswer(table, ops, k))
  }

  /** One link is idle, or holds exactly one record of its size while the three others are idle. */
  ghost predicate OnlyRecord(l: Link, size: nat, a: Link, b: Link, c: Link)
  {
    l != IDLE ==> |Content(l)| == size && a == IDLE && b == IDLE && c == IDLE
  }

  /** At most one record is anywhere between the three processes. */
  ghost predicate AtMostOneInFlight(r: Relay)
  {
    && OnlyRecord(r.up, OP_SIZE, r.req, r.rsp, r.down)
    && OnlyRecord(r.req, TX_SIZE, r.up, r.rsp, r.down)
    && OnlyRecord(r.rsp, TX_SIZE, r.up, r.req, r.down)
    && OnlyRecord(r.down, OP_SIZE, r.up, r.req, r.rsp)
  }

  /** Under every schedule the relay has returned to the device, so far, exactly the answers of direct
      access; at most one record is in flight, the emulator is never told to quit, and the number of
      steps is bounded by the number of ops. */
  lemma RelayRefinesDirect(table: seq<Entry>, ops: seq<Op>, steps: seq<Step>)
    requires Play(table, ops, steps).Some?
    ensures
      var r := Play(table, ops, steps).value;
      && r.done <= DirectAnswers(table, ops) && AtMostOneInFlight(r) && !r.emu.Stopped?
      && (|Content(r.up)|, |Content(r.req)|, |Content(r.rsp)|, |Content(r.down)|)
         in {(0, 0, 0, 0), (16, 0, 0, 0), (0, 344, 0, 0), (0, 0, 344, 0), (0, 0, 0, 16)}
    ensures |steps| <= 1450 * |ops|
  {
    hide EncodeTx, EncodeOp, Translate, Reply, DirectAnswer, DirectState;
    PlayKeepsInv(table, ops, steps);
  }

  lemma CanMove(l: Link, size: int)
    requires l != IDLE && |Content(l)| == size
    ensures l.rest == [] ==> |l.got| == size || CanPull(l, 1, size)
    ensures l.rest != [] ==> CanPush(l, 1)
  {
  }

  /** No schedule can get stuck before every op is answered. */
  lemma RelayProgress(table: seq<Entry>, ops: seq<Op>, r: Relay) returns (step: Step)
    requires Sized(r.box) && Inv(table, ops, r) && |r.done| < |ops|
    ensures Exec(table, r, step).Some?
  {
    hide EncodeTx, EncodeOp, DecodeTx, DecodeOp, Next, Reply, DirectState;
    if Idle(table, ops, r) {
      step := DaemonTake;
    } else if GoingUp(table, ops, r) {
      CanMove(r.up, OP_SIZE);
      step := if r.up.rest != [] then DaemonSend(1)
              else if r.server.SendOp? then ServerSent
              else if |r.up.got| == OP_SIZE then ServerBuild else ServerRecv(1);
    } else if Requested(table, ops, r) {
      CanMove(r.req, TX_SIZE);
      step := if r.req.rest != [] then ServerWrite(1)
              else if r.emu.WriteRsp? then EmuWritten
              else if |r.req.got| == TX_SIZE then EmuHandle else EmuRead(1);
    } else if Replied(table, ops, r) {
      CanMove(r.rsp, TX_SIZE);
      step := if r.rsp.rest != [] then EmuWrite(1)
              else if r.server.WriteReq? then ServerWritten
              else if |r.rsp.got| == TX_SIZE then ServerReply else ServerRead(1);
    } else {
      CanMove(r.down, OP_SIZE);
      step := if r.down.rest != [] then ServerSend(1)
              else if r.daemon.Sending? then DaemonSent
              else if |r.down.got| == OP_SIZE then DaemonGive else DaemonRecv(1);
    }
  }

  /** A schedule that cannot go on has returned the direct answer to every op. */
  lemma RelayCompletes(table: seq<Entry>, ops: seq<Op>, steps: seq<Step>)
    requires Play(table, ops, steps).Some?
    requires forall step :: Exec(table, Play(table, ops, steps).value, step).None?
    ensures Play(table, ops, steps).value.done == DirectAnswers(table, ops)
  {
    var r := Play(table, ops, steps).value;
    PlayKeepsInv(table, ops, steps);
    if |r.done| < |ops| {
      var step := RelayProgress(table, ops, r);
    }
  }

  /** Every schedule can be continued to one that cannot go on, and that one has answered every op. */
  lemma {:induction false} ScheduleCompletes(table: seq<Entry>, ops: seq<Op>, steps: seq<Step>)
    returns (more: seq<Step>)
    requires Play(table, ops, steps).Some?
    ensures Play(table, ops, steps + more).Some?
    ensures
      var r := Play(table, ops, steps + more).value;
      r.done == DirectAnswers(table, ops) && forall step :: Exec(table, r, step).None?
    decreases 1450 * |ops| - |steps|
  {
    hide Exec, DirectAnswers;
    PlayKeepsInv(table, ops, steps);
    var r := Play(table, ops, steps).value;
    if step :| Exec(table, r, step).Some? {
      assert (steps + [step])[..|steps|] == steps;
      PlayKeepsInv(table, ops, steps + [step]);
      var rest := ScheduleCompletes(table, ops, steps + [step]);
      more := [step] + rest;
      assert steps + more == steps + [step] + rest;
    } else {
      more := [];
      assert steps + more == steps;
      RelayCompletes(table, ops, steps);
    }
  }

  /** The transaction issued for the i-th op (from 1) carries i modulo 2^32, and the reply that the
      server is about to consume, whose number it never looks at, carries the same. */
  lemma PacketNumbersAgree(table: seq<Entry>, ops: seq<Op>, steps: seq<Step>)
    requires Play(table, ops, steps).Some?
    ensures
      var r := Play(table, ops, steps).value;
      && (r.req != IDLE ==> |Content(r.req)| == TX_SIZE
                            && DecodeTx(Content(r.req)).packetNumber == (|r.done| + 1) % 0x1_0000_0000)
      && (r.server.ReadRsp? && |r.rsp.got| == TX_SIZE ==>
            DecodeTx(r.rsp.got).packetNumber == r.number == (|r.done| + 1) % 0x1_0000_0000)
  {
    hide EncodeTx, EncodeOp, DecodeTx, DecodeOp, Next, DirectState, RegRead, Detect;
    var r := Play(table, ops, steps).value;
    PlayKeepsInv(table, ops, steps);
    if Requested(table, ops, r) {
      TxRoundTrip(Translate(r.number, ops[|r.done|]));
    } else if Replied(table, ops, r) {
      var k := |r.done|;
      TxRoundTrip(Reply(DirectState(table, ops[..k]), Translate(r.number, ops[k])));
      if |r.rsp.got| == TX_SIZE {
        assert r.rsp.got == Content(r.rsp);
      }
    }
  }

  // ---------- Direct access in terms of the observable device ----------

  function TranslateAll(ops: seq<Op>): (ts: seq<Transaction>)
    ensures |ts| == |ops|
  {
    seq(|ops|, i requires 0 <= i < |ops| => Translate(0, ops[i]))
  }

  lemma {:induction false} DirectRun(table: seq<Entry>, ops: seq<Op>)
    ensures DirectState(table, ops) == Final(table, Init(), TranslateAll(ops))
    ensures |Replies(table, Init(), TranslateAll(ops))| == |ops|
  {
    if ops != [] {
      var front, last := ops[..|ops| - 1], Translate(0, ops[|ops| - 1]);
      DirectRun(table, front);
      assert TranslateAll(ops) == TranslateAll(front) + [last];
      RunAppend(table, Init(), TranslateAll(front), [last]);
      var s := Final(table, Init(), TranslateAll(front));
      assert Final(table, s, [last]) == Next(table, s, last);
    }
  }

  lemma DirectReply(table: seq<Entry>, ops: seq<Op>, k: nat)
    requires k < |ops|
    ensures |Replies(table, Init(), TranslateAll(ops))| == |ops|
    ensures DirectAnswer(table, ops, k) == Answered(ops[k], Replies(table, Init(), TranslateAll(ops))[k])
  {
    DirectRun(table, ops);
    DirectRun(table, ops[..k]);
    var before, after := TranslateAll(ops[..k]), TranslateAll(ops[k..]);
    assert TranslateAll(ops) == before + after;
    RunAppend(table, Init(), before, after);
  }

  /** The answer to each op: its own kind and offset, status 0, and the value that the observable
      device returns for the access the op stands for, which for a write is 0. */
  lemma DirectAnswerValue(table: seq<Entry>, ops: seq<Op>, k: nat)
    requires k < |ops|
    ensures |Accesses(None, TranslateAll(ops))| == |ops|
    ensures DirectAnswer(table, ops, k)
            == Op(ops[k].kind, ops[k].offset, Results(table, FRESH, Accesses(None, TranslateAll(ops)))[k], 0)
    ensures ops[k].kind == AVERY_OP_WRITE ==> DirectAnswer(table, ops, k).value == 0
  {
    DirectReply(table, ops, k);
    RunRefines(table, Init(), TranslateAll(ops));
  }
}
