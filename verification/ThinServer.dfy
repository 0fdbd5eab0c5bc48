/** The thin server: its packet counter, the op it is serving, its record buffers, and its main loop
    in lockstep with the emulator. */
module ThinServer {
  import opened Words
  import opened Protocol
  import opened Mailbox
  import opened Wire
  import opened Framing
  import opened Relay
  import opened Emulator

  /** `xsend` or `send_all` of an op record. */
  method WriteOp(p: Pipe, op: Op)
    modifies p
    ensures p.Stream() == old(p.Stream()) + EncodeOp(op)
  {
    var bs := EncodeOp(op);
    var buf := new byte[OP_SIZE](i requires 0 <= i < OP_SIZE => bs[i]);
    assert buf[..] == bs;
    WriteAll(p, buf);
  }

  /** `xrecv` or `recv_all` of an op record. */
  method ReadOp(p: Pipe) returns (op: Op)
    requires OP_SIZE <= |p.Stream()|
    modifies p
    ensures op == DecodeOp(old(p.Stream())[..OP_SIZE])
    ensures p.Stream() == old(p.Stream())[OP_SIZE..]
  {
    var buf := new byte[OP_SIZE];
    ReadAll(p, buf);
    op := DecodeOp(buf[..]);
  }

  class Server {
    var number: u32
    var op: Op
    const req: array<byte>
    const rsp: array<byte>

    ghost predicate Valid()
      reads this
    {
      req.Length == TX_SIZE && rsp.Length == TX_SIZE && req != rsp
    }

    constructor ()
      ensures Valid() && number == 0 && fresh(req) && fresh(rsp)
    {
      number := 0;
      op := Op(0, 0, 0, 0);
      req := new byte[TX_SIZE](_ => 0);
      rsp := new byte[TX_SIZE](_ => 0);
    }

    /** Numbers the next transaction and lays it out in the request buffer. */
    method BuildRequest()
      requires Valid()
      modifies this`number, req
      ensures Valid()
      ensures number == (old(number) + 1) % 0x1_0000_0000
      ensures req[..] == EncodeTx(Translate(number, op))
    {
      number := (number + 1) % 0x1_0000_0000;
      var r0w1: u32 := if op.kind == AVERY_OP_WRITE then 1 else 0;
      LayOut(req, Transaction(number, 1, 1, 0, op.offset, r0w1, 4, op.value, 0));
    }

    /** Copies the completion status and the data dword of the reply into the op. */
    method TakeReply()
      requires Valid()
      modifies this`op
      ensures op == Answered(old(op), DecodeTx(rsp[..]))
    {
      op := op.(status := Field32(rsp[..], 328), value := Field32(rsp[..], 48));
    }
  }

  /** One pass of the emulator's main loop: a record in, a record out. */
  method EmulatorPass(doe: Doe, req: Pipe, rep: Pipe)
    requires doe.Valid() && req != rep
    requires TX_SIZE <= |req.Stream()| && !Quit(DecodeTx(req.Stream()[..TX_SIZE]))
    modifies doe, doe.reqBuf, doe.rspBuf, req, rep
    ensures doe.Valid()
    ensures
      var s, t := old(doe.Snapshot()), DecodeTx(old(req.Stream())[..TX_SIZE]);
      && doe.Snapshot() == Next(doe.protocols, s, t) && doe.served == old(doe.served) + [t]
      && req.Stream() == old(req.Stream())[TX_SIZE..]
      && rep.Stream() == old(rep.Stream()) + EncodeTx(Reply(s, t))
  {
    hide Next, EncodeTx, DecodeTx;
    var buf := new byte[TX_SIZE];
    ReadAll(req, buf);
    var t := DecodeTx(buf[..]);
    var rsp := doe.Serve(t);
    var out := new byte[TX_SIZE];
    LayOut(out, rsp);
    WriteAll(rep, out);
  }

  /** The objects of one pass are all different. */
  ghost predicate Apart(server: Server, doe: Doe, client: Pipe, back: Pipe, req: Pipe, rep: Pipe)
  {
    && client != back && client != req && client != rep && back != req && back != rep && req != rep
    && server.req as object != doe.reqBuf && server.req as object != doe.rspBuf
    && server.rsp as object != doe.reqBuf && server.rsp as object != doe.rspBuf
  }

  /** One pass of `serve`: the next op of the client goes to the emulator under the next packet number
      and comes back with the emulator's answer. */
  method ServePass(server: Server, doe: Doe, client: Pipe, back: Pipe, req: Pipe, rep: Pipe)
    requires server.Valid() && doe.Valid() && Apart(server, doe, client, back, req, rep)
    requires OP_SIZE <= |client.Stream()| && req.Stream() == [] && rep.Stream() == []
    modifies server, server.req, server.rsp, doe, doe.reqBuf, doe.rspBuf, client, back, req, rep
    ensures server.Valid() && doe.Valid() && req.Stream() == [] && rep.Stream() == []
    ensures server.number == (old(server.number) + 1) % 0x1_0000_0000
    ensures
      var s, op := old(doe.Snapshot()), DecodeOp(old(client.Stream())[..OP_SIZE]);
      var t := Translate(server.number, op);
      && client.Stream() == old(client.Stream())[OP_SIZE..]
      && doe.Snapshot() == Next(doe.protocols, s, t) && doe.served == old(doe.served) + [t]
      && back.Stream() == old(back.Stream()) + EncodeOp(Answered(op, Reply(s, t)))
  {
    hide Next, EncodeTx, DecodeTx, EncodeOp, DecodeOp;
    server.op := ReadOp(client);
    ghost var s, op := doe.Snapshot(), server.op;
    server.BuildRequest();
    ghost var t := Translate(server.number, op);
    TxRoundTrip(t);
    WriteAll(req, server.req);
    assert req.Stream() == EncodeTx(t) && req.Stream()[..TX_SIZE] == EncodeTx(t);
    EmulatorPass(doe, req, rep);
    ghost var reply := Reply(s, t);
    assert rep.Stream() == EncodeTx(reply) && rep.Stream()[..TX_SIZE] == EncodeTx(reply);
    ReadAll(rep, server.rsp);
    TxRoundTrip(reply);
    server.TakeReply();
    WriteOp(back, server.op);
  }

  /** A stream that holds one op record and nothing else. */
  lemma SoleRecord(op: Op)
    ensures
      var bs := [] + EncodeOp(op);
      DecodeOp(bs[..OP_SIZE]) == op && bs[OP_SIZE..] == []
  {
    var bs := [] + EncodeOp(op);
    assert bs[..OP_SIZE] == EncodeOp(op);
    OpRoundTrip(op);
  }

  function Records(ops: seq<Op>): (rs: seq<seq<byte>>)
    ensures |rs| == |ops| && forall i :: 0 <= i < |ops| ==> rs[i] == EncodeOp(ops[i])
  {
    seq(|ops|, i requires 0 <= i < |ops| => EncodeOp(ops[i]))
  }

  /** The front record of an encoded list is the first op. */
  lemma FrontRecord(ops: seq<Op>, i: nat)
    requires i < |ops|
    ensures
      var bs := Concat(Records(ops[i..]));
      && |bs| >= OP_SIZE && DecodeOp(bs[..OP_SIZE]) == ops[i] && bs[OP_SIZE..] == Concat(Records(ops[i + 1..]))
  {
    var rs := Records(ops[i..]);
    assert rs[0] == EncodeOp(ops[i]) && rs[1..] == Records(ops[i + 1..]);
    var bs := Concat(rs);
    assert bs == rs[0] + Concat(rs[1..]);
    assert bs[..OP_SIZE] == rs[0] && bs[OP_SIZE..] == Concat(rs[1..]);
    OpRoundTrip(ops[i]);
  }

  lemma OneMoreRecord(ops: seq<Op>, i: nat)
    requires i < |ops|
    ensures Concat(Records(ops[..i + 1])) == Concat(Records(ops[..i])) + EncodeOp(ops[i])
  {
    assert Records(ops[..i + 1]) == Records(ops[..i]) + [EncodeOp(ops[i])];
    ConcatAppend(Records(ops[..i]), EncodeOp(ops[i]));
  }

  /** The loop of `serve` over the ops that the client sends, with a freshly started emulator: the
      client gets back, record for record, the answers of direct access, and the counter has advanced
      once for each op. */
  method Serve(server: Server, doe: Doe, client: Pipe, back: Pipe, req: Pipe, rep: Pipe, n: nat, ghost ops: seq<Op>)
    requires server.Valid() && doe.Valid() && Apart(server, doe, client, back, req, rep)
    requires doe.Snapshot() == Init() && req.Stream() == [] && rep.Stream() == []
    requires n == |ops| && client.Stream() == Concat(Records(ops))
    modifies server, server.req, server.rsp, doe, doe.reqBuf, doe.rspBuf, client, back, req, rep
    ensures doe.Valid() && doe.Snapshot() == DirectState(doe.protocols, ops)
    ensures client.Stream() == [] && req.Stream() == [] && rep.Stream() == []
    ensures back.Stream() == old(back.Stream()) + Concat(Records(DirectAnswers(doe.protocols, ops)))
    ensures server.number == (old(server.number) + n) % 0x1_0000_0000
  {
    hide Next, Reply, Answered, EncodeOp, DecodeOp, DirectState, DirectAnswer, Concat, Records;
    ghost var table, answers := doe.protocols, DirectAnswers(doe.protocols, ops);
    assert ops[0..] == ops && ops[..0] == [] && answers[..0] == [];
    NoRecords(table);
    for i := 0 to n
      invariant server.Valid() && doe.Valid() && req.Stream() == [] && rep.Stream() == []
      invariant client.Stream() == Concat(Records(ops[i..]))
      invariant doe.Snapshot() == DirectState(table, ops[..i])
      invariant back.Stream() == old(back.Stream()) + Concat(Records(answers[..i]))
      invariant server.number == (old(server.number) + i) % 0x1_0000_0000
    {
      FrontRecord(ops, i);
      ghost var before := back.Stream();
      ServePass(server, doe, client, back, req, rep);
      DirectNext(table, ops, i, server.number);
      OneMoreRecord(answers, i);
      assert back.Stream() == before + EncodeOp(answers[i]);
    }
    assert ops[..n] == ops && ops[n..] == [] && answers[..n] == answers;
  }

  lemma NoRecords(table: seq<Entry>)
    ensures Concat(Records([])) == [] && DirectState(table, []) == Init()
  {
  }
}
