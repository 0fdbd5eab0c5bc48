/** The netlink daemon: reading requests, answering them over the relay, and its main loop. */
module NetlinkDaemon {
  import opened Words
  import opened Protocol
  import opened Mailbox
  import opened Wire
  import opened Buffers
  import opened Relay
  import opened Netlink
  import opened Emulator
  import opened Framing
  import ThinServer

  // ---------- Messages ----------

  datatype Message = Message(
    family: u16, flags: u16, number: u32, portid: u32,
    cmd: byte, version: byte, reserved: u16, attrs: seq<Attr>)

  ghost predicate Sendable(m: Message)
  {
    WellFormed(m.attrs) && |EncodeAttrs(m.attrs)| < 0x8000_0000
  }

  /** Every well-formed list of less than 2^31 bytes can be sent under any header. */
  lemma AnyHeaderSendable(m: Message)
    requires WellFormed(m.attrs) && |EncodeAttrs(m.attrs)| < 0x8000_0000
    ensures Sendable(m)
    ensures EncodeMessage(m)[ATTRS_AT..] == EncodeAttrs(m.attrs)
  {
  }

  function HeaderBytes(len: u32, m: Message): (bs: seq<byte>)
    ensures |bs| == ATTRS_AT
  {
    LE32(len) + LE16(m.family) + LE16(m.flags) + LE32(m.number) + LE32(m.portid)
    + [m.cmd, m.version] + LE16(m.reserved)
  }

  ghost function EncodeMessage(m: Message): (bs: seq<byte>)
    requires Sendable(m)
    ensures |bs| == ATTRS_AT + |EncodeAttrs(m.attrs)|
  {
    HeaderBytes(ATTRS_AT + |EncodeAttrs(m.attrs)|, m) + EncodeAttrs(m.attrs)
  }

  lemma HeaderFields(len: u32, m: Message, after: seq<byte>)
    ensures
      var bs := HeaderBytes(len, m) + after;
      && Field32(bs, 0) == len && Field32(bs, 8) == m.number && Field32(bs, 12) == m.portid
      && FromLE16(bs[4..6]) == m.family && FromLE16(bs[6..8]) == m.flags
      && bs[16..20] == [m.cmd, m.version] + LE16(m.reserved)
  {
    hide LE16, LE32, FromLE16, FromLE32;
    var bs := HeaderBytes(len, m) + after;
    assert bs[4..6] == LE16(m.family) && bs[6..8] == LE16(m.flags);
    LE16RoundTrip(m.family);
    LE16RoundTrip(m.flags);
    assert bs[0..4] == LE32(len);
    assert bs[8..12] == LE32(m.number);
    assert bs[12..16] == LE32(m.portid);
    LE32RoundTrip(len);
    LE32RoundTrip(m.number);
    LE32RoundTrip(m.portid);
  }

  /** `nlmsg_len - NLMSG_LENGTH(GENL_HDRLEN)` as it is stored in an `int`. */
  function AttrsLen(bs: seq<byte>): (n: int)
    requires |bs| >= ATTRS_AT
    ensures -0x8000_0000 <= n < 0x8000_0000
  {
    var n := Field32(bs, 0) - ATTRS_AT;
    if n >= 0x8000_0000 then n - 0x1_0000_0000 else n
  }

  /** A message at the front of a buffer: its header fields read back, and the walk over its
      attributes ends at the first one of the kind. */
  lemma MessageReads(m: Message, after: seq<byte>, kind: u16)
    requires Sendable(m)
    ensures
      var bs := EncodeMessage(m) + after;
      && Field32(bs, 8) == m.number && Field32(bs, 12) == m.portid && bs[NLMSG_HDRLEN] == m.cmd
      && WalkEndsAt(bs, ATTRS_AT, AttrsLen(bs), kind, FindFirst(m.attrs, kind))
  {
    hide HeaderBytes, EncodeAttrs, WalkEndsAt, FindFirst;
    var body := EncodeAttrs(m.attrs);
    var head := HeaderBytes(ATTRS_AT + |body|, m);
    var bs := EncodeMessage(m) + after;
    assert bs == head + (body + after);
    assert bs == head + body + after;
    HeaderFields(ATTRS_AT + |body|, m, body + after);
    WalkFindsFirst(head, m.attrs, after, kind);
  }

  // ---------- Requests ----------

  datatype Request = Request(portid: u32, number: u32, op: Op)

  /** A received buffer with a header; if it is a request, its attributes can be walked up to the op
      and the op, if any, is complete. */
  ghost predicate Receivable(bs: seq<byte>)
  {
    && |bs| >= ATTRS_AT
    && (bs[NLMSG_HDRLEN] == AVERY_CMD_REQUEST ==>
          && Walkable(bs, ATTRS_AT, AttrsLen(bs), AVERY_ATTR_OP)
          && var r := Walk(bs, ATTRS_AT, AttrsLen(bs), AVERY_ATTR_OP);
             r.Some? ==> r.value + NLA_HDRLEN + OP_SIZE <= |bs|)
  }

  /** The request in a received buffer; an empty buffer stands for a failed `recv`. */
  function Accept(bs: seq<byte>): (r: Option<Request>)
    requires bs == [] || Receivable(bs)
  {
    if bs == [] || bs[NLMSG_HDRLEN] != AVERY_CMD_REQUEST then None
    else match Walk(bs, ATTRS_AT, AttrsLen(bs), AVERY_ATTR_OP)
      case None => None
      case Some(at) => Some(Request(Field32(bs, 12), Field32(bs, 8), DecodeOp(bs[at + 4..at + 4 + OP_SIZE])))
  }

  /** A length field that leaves no attributes, or so many that the `int` turns negative, rejects the
      buffer whatever it holds; any other length lets the walk begin. */
  lemma LengthDecides(bs: seq<byte>)
    requires |bs| >= ATTRS_AT
    ensures AttrsLen(bs) > 0 <==> ATTRS_AT < Field32(bs, 0) < 0x8000_0014
    ensures AttrsLen(bs) <= 0 ==> Receivable(bs) && Accept(bs) == None
  {
  }

  lemma PrefixOfSlice(bs: seq<byte>, at: nat, n: nat, k: nat)
    requires k <= n && at + n <= |bs|
    ensures bs[at..at + n][..k] == bs[at..at + k]
  {
  }

  /** A message, followed in the buffer by anything, is accepted exactly when its command is 1 and it has an
      attribute of kind 1, and then with its own port, sequence number and the op in the first such attribute. */
  lemma AcceptEncoded(m: Message, after: seq<byte>)
    requires Sendable(m)
    requires FindFirst(m.attrs, 1).Some? ==> |FindFirst(m.attrs, 1).value.payload| >= 16
    ensures Receivable(EncodeMessage(m) + after)
    ensures Accept(EncodeMessage(m) + after)
            == match FindFirst(m.attrs, 1)
               case None => None
               case Some(a) =>
                 if m.cmd == 1 then Some(Request(m.portid, m.number, DecodeOp(a.payload[..16]))) else None
  {
    hide EncodeMessage, DecodeOp, Walk, Walkable, FindFirst;
    MessageReads(m, after, AVERY_ATTR_OP);
    var bs := EncodeMessage(m) + after;
    match FindFirst(m.attrs, AVERY_ATTR_OP)
    case None =>
    case Some(a) =>
      var at := Walk(bs, ATTRS_AT, AttrsLen(bs), AVERY_ATTR_OP).value;
      PrefixOfSlice(bs, at + 4, |a.payload|, OP_SIZE);
  }

  // ---------- Responses ----------

  function OpAttr(op: Op): (a: Attr)
  {
    Attr(AVERY_ATTR_OP, EncodeOp(op), [])
  }

  function Response(family: u16, pid: u32, number: u32, op: Op): (m: Message)
  {
    Message(family, NLM_F_REQUEST, number, pid, AVERY_CMD_RESPONSE, 1, 0, [OpAttr(op)])
  }

  lemma ResponseAttrs(op: Op)
    ensures WellFormed([OpAttr(op)])
    ensures EncodeAttrs([OpAttr(op)]) == LE16(20) + LE16(AVERY_ATTR_OP) + EncodeOp(op)
  {
    assert [OpAttr(op)][1..] == [];
    assert EncodeAttrs([]) == [];
  }

  /** The walk over a response recovers the op and the header recovers the sequence number, also
      when attributes of other kinds are put in front. */
  lemma ResponseRoundTrip(family: u16, pid: u32, number: u32, op: Op, others: seq<Attr>, after: seq<byte>)
    requires forall a :: a in others ==> a.kind != AVERY_ATTR_OP
    requires Sendable(Response(family, pid, number, op).(attrs := others + [OpAttr(op)]))
    ensures
      var bs := EncodeMessage(Response(family, pid, number, op).(attrs := others + [OpAttr(op)])) + after;
      && Field32(bs, 8) == number && bs[NLMSG_HDRLEN] == AVERY_CMD_RESPONSE
      && Walkable(bs, ATTRS_AT, AttrsLen(bs), AVERY_ATTR_OP)
      && var r := Walk(bs, ATTRS_AT, AttrsLen(bs), AVERY_ATTR_OP);
      && r.Some? && r.value + NLA_HDRLEN + OP_SIZE <= |bs| && DecodeOp(bs[r.value + 4..r.value + 4 + OP_SIZE]) == op
  {
    hide EncodeMessage, DecodeOp, Walk, Walkable;
    FindFirstSkips(others, [OpAttr(op)], AVERY_ATTR_OP);
    MessageReads(Response(family, pid, number, op).(attrs := others + [OpAttr(op)]), after, AVERY_ATTR_OP);
    OpRoundTrip(op);
  }

  /** The header of the op attribute, with `nla_len` 20. */
  function OpAttrHeader(): (bs: seq<byte>)
    ensures |bs| == NLA_HDRLEN
  {
    LE16(20) + LE16(AVERY_ATTR_OP)
  }

  function LengthBytes(len: u32): (bs: seq<byte>)
    ensures |bs| == 4
  {
    LE32(len)
  }

  /** Adding the attribute to `nlmsg_len` after the header was laid out. */
  lemma LengthPatch(m: Message)
    ensures LengthBytes(40) + HeaderBytes(20, m)[4..] == HeaderBytes(40, m)
  {
  }

  /** The bytes of a response. */
  ghost function ResponseBytes(family: u16, pid: u32, number: u32, op: Op): (bs: seq<byte>)
    ensures Sendable(Response(family, pid, number, op))
    ensures bs == EncodeMessage(Response(family, pid, number, op))
    ensures bs == HeaderBytes(40, Response(family, pid, number, op)) + OpAttrHeader() + EncodeOp(op)
  {
    ResponseAttrs(op);
    EncodeMessage(Response(family, pid, number, op))
  }

  /** A response in numbers: 40 bytes that say so, the family as type, the request flag, the sequence number and
      the sender, command 2 of version 1, and one attribute of kind 1 that holds the op. */
  lemma ResponseFields(family: u16, pid: u32, number: u32, op: Op)
    ensures
      var bs := ResponseBytes(family, pid, number, op);
      && |bs| == 40 == Field32(bs, 0)
      && FromLE16(bs[4..6]) == family && FromLE16(bs[6..8]) == 1
      && Field32(bs, 8) == number && Field32(bs, 12) == pid
      && bs[16..20] == [2, 1, 0, 0] && bs[20..24] == [20, 0, 1, 0] && bs[24..40] == EncodeOp(op)
  {
    hide ResponseBytes, HeaderBytes, EncodeOp, Field32;
    var bs, m := ResponseBytes(family, pid, number, op), Response(family, pid, number, op);
    var tail := OpAttrHeader() + EncodeOp(op);
    assert bs == HeaderBytes(40, m) + tail;
    HeaderFields(40, m, tail);
    assert bs[20..24] == tail[..4] == OpAttrHeader() && bs[24..40] == EncodeOp(op);
  }

  /** The stores into the zeroed buffer, the last of which corrects the length, leave the response. */
  lemma ResponseLayout(head: seq<byte>, len: seq<byte>, attr: seq<byte>, payload: seq<byte>)
    requires |head| == 20 && |len| == 4 && |attr| == 4 && |payload| == OP_SIZE
    ensures
      var stored := Splice(Splice(Splice(Zeros(256), 0, head), 20, attr), 24, payload);
      Splice(stored, 0, len)[..40] == len + head[4..] + attr + payload
  {
  }

  // ---------- The main loop ----------

  /** The requests accepted out of the received buffers, in order. */
  function Accepted(msgs: seq<seq<byte>>): (r: seq<Request>)
    requires forall m :: m in msgs ==> m == [] || Receivable(m)
  {
    if msgs == [] then []
    else
      var last := Accept(msgs[|msgs| - 1]);
      Accepted(msgs[..|msgs| - 1]) + if last.Some? then [last.value] else []
  }

  /** Each buffer contributes its own request, or nothing if it is rejected, wherever it stands. */
  lemma {:induction false} AcceptedEach(a: seq<seq<byte>>, m: seq<byte>, b: seq<seq<byte>>)
    requires forall x :: x in a + [m] + b ==> x == [] || Receivable(x)
    ensures Accepted([]) == []
    ensures Accepted(a + [m] + b)
            == Accepted(a) + (match Accept(m) case None => [] case Some(r) => [r]) + Accepted(b)
    decreases |b|
  {
    hide Receivable, Accept;
    assert m in a + [m] + b;
    if b == [] {
      assert a + [m] + b == a + [m] && (a + [m])[..|a|] == a;
    } else {
      var front, last := b[..|b| - 1], b[|b| - 1];
      var all := a + [m] + b;
      assert all[..|all| - 1] == a + [m] + front && all[|all| - 1] == last;
      AcceptedEach(a, m, front);
    }
  }

  function Ops(rs: seq<Request>): (ops: seq<Op>)
    ensures |ops| == |rs| && forall i :: 0 <= i < |rs| ==> ops[i] == rs[i].op
  {
    seq(|rs|, i requires 0 <= i < |rs| => rs[i].op)
  }

  lemma DirectAppend(table: seq<Entry>, ops: seq<Op>, op: Op)
    ensures
      var s, t := DirectState(table, ops), Translate(0, op);
      && DirectState(table, ops + [op]) == Next(table, s, t)
      && DirectAnswer(table, ops + [op], |ops|) == Answered(op, Reply(s, t))
    ensures forall k :: 0 <= k < |ops| ==> DirectAnswer(table, ops + [op], k) == DirectAnswer(table, ops, k)
  {
    hide Next, Reply, Answered;
    assert (ops + [op])[..|ops|] == ops;
    forall k | 0 <= k < |ops|
      ensures DirectAnswer(table, ops + [op], k) == DirectAnswer(table, ops, k)
    {
      assert (ops + [op])[..k] == ops[..k];
    }
  }

  /** The messages sent answer the accepted requests one for one. */
  ghost predicate Correlated(table: seq<Entry>, family: u16, pid: u32, rs: seq<Request>, out: seq<seq<byte>>)
  {
    && |out| == |rs|
    && forall i :: 0 <= i < |rs| ==>
         out[i] == ResponseBytes(family, pid, rs[i].number, DirectAnswer(table, Ops(rs), i))
  }

  lemma CorrelatedAppend(table: seq<Entry>, family: u16, pid: u32, rs: seq<Request>, out: seq<seq<byte>>, r: Request)
    requires Correlated(table, family, pid, rs, out)
    ensures
      var answer := DirectAnswer(table, Ops(rs) + [r.op], |rs|);
      && Ops(rs + [r]) == Ops(rs) + [r.op]
      && Correlated(table, family, pid, rs + [r], out + [ResponseBytes(family, pid, r.number, answer)])
  {
    hide ResponseBytes, DirectAnswer, DirectState, Next, Reply, Answered, Translate;
    assert Ops(rs + [r]) == Ops(rs) + [r.op];
    DirectAppend(table, Ops(rs), r.op);
  }

  /** The transactions that carry the ops, under the packet numbers from 1 on. */
  function Numbered(ops: seq<Op>): (ts: seq<Transaction>)
    ensures |ts| == |ops|
    ensures forall i :: 0 <= i < |ops| ==> ts[i] == Translate((i + 1) % 0x1_0000_0000, ops[i])
  {
    seq(|ops|, i requires 0 <= i < |ops| => Translate((i + 1) % 0x1_0000_0000, ops[i]))
  }

  /** One more op: its packet number, its transaction, the mailbox after it and its answer. */
  lemma OneMoreExchange(table: seq<Entry>, ops: seq<Op>, op: Op)
    ensures
      var number := (|ops| % 0x1_0000_0000 + 1) % 0x1_0000_0000;
      var s, t := DirectState(table, ops), Translate(number, op);
      && number == |ops + [op]| % 0x1_0000_0000
      && Numbered(ops + [op]) == Numbered(ops) + [t]
      && DirectState(table, ops + [op]) == Next(table, s, t)
      && DirectAnswer(table, ops + [op], |ops|) == Answered(op, Reply(s, t))
  {
    hide Next, Reply, DirectState, DirectAnswer, Answered, Translate;
    var k, all := |ops|, ops + [op];
    var number := (k % 0x1_0000_0000 + 1) % 0x1_0000_0000;
    assert number == (k + 1) % 0x1_0000_0000;
    assert all[..k] == ops && all[..k + 1] == all;
    DirectNext(table, all, k, number);
  }

  /** The far end of the daemon's socket: a log of the ops sent to it, the thin server that receives them
      and the emulator behind the server's pipes. */
  class Remote {
    const server: ThinServer.Server
    const doe: Doe
    const client: Pipe
    const back: Pipe
    const req: Pipe
    const rep: Pipe
    var traffic: seq<Op>

    ghost function Footprint(): (r: set<object>)
    {
      {this, server, server.req, server.rsp, doe, doe.reqBuf, doe.rspBuf, client, back, req, rep}
    }

    /** Between exchanges all streams are empty, and the emulator has served the logged ops, each under
        its packet number, and nothing else. */
    ghost predicate Valid()
      reads Footprint()
    {
      && server.Valid() && doe.Valid() && ThinServer.Apart(server, doe, client, back, req, rep)
      && client.Stream() == [] && back.Stream() == [] && req.Stream() == [] && rep.Stream() == []
      && server.number == |traffic| % 0x1_0000_0000
      && doe.served == Numbered(traffic) && doe.Snapshot() == DirectState(doe.protocols, traffic)
    }

    constructor (table: seq<Entry>)
      ensures Valid() && traffic == [] && doe.protocols == table && fresh(Footprint())
    {
      server := new ThinServer.Server();
      doe := new Doe(table);
      client := new Pipe();
      back := new Pipe();
      req := new Pipe();
      rep := new Pipe();
      traffic := [];
      new;
      assert Numbered([]) == [];
    }

    /** `send` of an op record and `recv` of the answer record, with one pass of the server between. */
    method Pass(op: Op) returns (answer: Op)
      requires Valid()
      modifies Footprint() - {this}
      ensures server.Valid() && doe.Valid()
      ensures client.Stream() == [] && back.Stream() == [] && req.Stream() == [] && rep.Stream() == []
      ensures server.number == (old(server.number) + 1) % 0x1_0000_0000
      ensures
        var s, t := old(doe.Snapshot()), Translate(server.number, op);
        && doe.Snapshot() == Next(doe.protocols, s, t) && doe.served == old(doe.served) + [t]
        && answer == Answered(op, Reply(s, t))
    {
      hide Next, Reply, DirectState, Answered, Translate, EncodeOp, DecodeOp, Numbered;
      ThinServer.WriteOp(client, op);
      ThinServer.SoleRecord(op);
      ghost var s := doe.Snapshot();
      ThinServer.ServePass(server, doe, client, back, req, rep);
      ThinServer.SoleRecord(Answered(op, Reply(s, Translate(server.number, op))));
      answer := ThinServer.ReadOp(back);
    }

    /** One exchange: the op is logged, and its answer is that of direct access. */
    method Exchange(op: Op) returns (answer: Op)
      requires Valid()
      modifies Footprint()
      ensures Valid() && traffic == old(traffic) + [op]
      ensures answer == DirectAnswer(doe.protocols, traffic, |old(traffic)|)
    {
      hide Next, Reply, DirectState, DirectAnswer, Answered, Translate, Numbered, Sized, ThinServer.Apart;
      OneMoreExchange(doe.protocols, traffic, op);
      answer := Pass(op);
      traffic := traffic + [op];
    }
  }

  class Daemon {
    const family: u16
    const pid: u32
    var portid: u32
    var number: u32
    var op: Op

    constructor (family: u16, pid: u32)
      ensures this.family == family && this.pid == pid
    {
      this.family, this.pid := family, pid;
      portid, number, op := 0, 0, Op(0, 0, 0, 0);
    }

    /** Reads one message; a rejected one may already have overwritten `portid` and `number`. */
    method RecvRequest(buf: array<byte>) returns (ok: bool)
      requires buf.Length == 0 || Receivable(buf[..])
      modifies this
      ensures ok <==> Accept(buf[..]).Some?
      ensures ok ==> Accept(buf[..]) == Some(Request(portid, number, op))
      ensures !ok ==> op == old(op)
    {
      if buf.Length == 0 || buf[NLMSG_HDRLEN] != AVERY_CMD_REQUEST {
        return false;
      }
      portid := Field32(buf[..], 12);
      number := Field32(buf[..], 8);
      var r := WalkAttrs(buf, ATTRS_AT, AttrsLen(buf[..]), AVERY_ATTR_OP);
      if r == None {
        return false;
      }
      op := DecodeOp(buf[..][r.value + 4..r.value + 4 + OP_SIZE]);
      return true;
    }

    /** Lays the response out in a zeroed buffer and sends its first `nlmsg_len` bytes. */
    method SendResponse() returns (sent: seq<byte>)
      ensures sent == ResponseBytes(family, pid, number, op)
    {
      hide HeaderBytes, EncodeOp, ResponseBytes, OpAttrHeader, LengthBytes;
      var buffer := new byte[256];
      Clear(buffer);
      var m := Response(family, pid, number, op);
      Put(buffer, 0, HeaderBytes(20, m));
      Put(buffer, 20, OpAttrHeader());
      Put(buffer, 24, EncodeOp(op));
      Put(buffer, 0, LengthBytes(40));
      sent := buffer[..40];
      ResponseLayout(HeaderBytes(20, m), LengthBytes(40), OpAttrHeader(), EncodeOp(op));
      LengthPatch(m);
    }

    /** One pass of the main loop. A rejected buffer sends nothing to either side; an accepted one
        sends its op to the remote once and the remote's answer back under its sequence number. */
    method HandleOne(remote: Remote, bytes: seq<byte>) returns (sent: Option<seq<byte>>)
      requires remote.Valid() && (bytes == [] || Receivable(bytes))
      modifies this, remote.Footprint()
      ensures remote.Valid()
      ensures match Accept(bytes)
              case None => sent == None && remote.traffic == old(remote.traffic)
              case Some(r) =>
                var k := |old(remote.traffic)|;
                && remote.traffic == old(remote.traffic) + [r.op]
                && sent == Some(ResponseBytes(family, pid, r.number,
                                              DirectAnswer(remote.doe.protocols, remote.traffic, k)))
    {
      hide ResponseBytes, DirectAnswer, DirectState, Accept, Numbered, Receivable, Sized, ThinServer.Apart;
      var buffer := new byte[|bytes|](k requires 0 <= k < |bytes| => bytes[k]);
      assert buffer[..] == bytes;
      var ok := RecvRequest(buffer);
      if !ok {
        return None;
      }
      op := remote.Exchange(op);
      var bs := SendResponse();
      sent := Some(bs);
    }

    /** The main loop over the buffers that `recv` delivers. The remote is sent exactly the ops of the
        accepted requests, in order, and the i-th message sent back carries the sequence number of the
        i-th accepted request and the remote's answer to its op. */
    method Run(remote: Remote, msgs: seq<seq<byte>>) returns (out: seq<seq<byte>>)
      requires remote.Valid() && remote.traffic == []
      requires forall m :: m in msgs ==> m == [] || Receivable(m)
      modifies this, remote.Footprint()
      ensures remote.Valid() && remote.traffic == Ops(Accepted(msgs))
      ensures remote.doe.served == Numbered(Ops(Accepted(msgs)))
      ensures |out| == |Accepted(msgs)|
      ensures
        forall i :: 0 <= i < |out| ==>
          var rs := Accepted(msgs);
          out[i] == ResponseBytes(family, pid, rs[i].number, DirectAnswer(remote.doe.protocols, Ops(rs), i))
    {
      hide ResponseBytes, DirectAnswer, DirectState, Accept, Correlated, Numbered;
      out := [];
      NothingSent(remote.doe.protocols, family, pid);
      for i := 0 to |msgs|
        invariant remote.Valid() && remote.traffic == Ops(Accepted(msgs[..i]))
        invariant Correlated(remote.doe.protocols, family, pid, Accepted(msgs[..i]), out)
      {
        ghost var rs := Accepted(msgs[..i]);
        assert msgs[..i + 1][..i] == msgs[..i];
        var sent := HandleOne(remote, msgs[i]);
        if sent.Some? {
          ghost var r := Accept(msgs[i]).value;
          CorrelatedAppend(remote.doe.protocols, family, pid, rs, out, r);
          assert Accepted(msgs[..i + 1]) == rs + [r];
          out := out + [sent.value];
        } else {
          assert Accepted(msgs[..i + 1]) == rs;
        }
      }
      assert msgs[..|msgs|] == msgs;
      CorrelatedMeans(remote.doe.protocols, family, pid, Accepted(msgs), out);
    }
  }

  lemma CorrelatedMeans(table: seq<Entry>, family: u16, pid: u32, rs: seq<Request>, out: seq<seq<byte>>)
    requires Correlated(table, family, pid, rs, out)
    ensures |out| == |rs|
    ensures forall i :: 0 <= i < |rs| ==>
      out[i] == ResponseBytes(family, pid, rs[i].number, DirectAnswer(table, Ops(rs), i))
  {
  }

  lemma NothingSent(table: seq<Entry>, family: u16, pid: u32)
    ensures Correlated(table, family, pid, [], [])
  {
  }

  /** The family lookup: the first two payload bytes of the first CTRL_ATTR_FAMILY_ID attribute. */
  method FamilyId(buf: array<byte>, ghost m: Message, ghost after: seq<byte>) returns (id: Option<u16>)
    requires Sendable(m) && buf[..] == EncodeMessage(m) + after
    requires FindFirst(m.attrs, 1).Some? ==>
               |FindFirst(m.attrs, 1).value.payload| >= 2
    ensures match FindFirst(m.attrs, 1)
            case None => id == None
            case Some(a) => id == Some(FromLE16(a.payload[..2]))
  {
    hide EncodeMessage, Walk, Walkable;
    MessageReads(m, after, CTRL_ATTR_FAMILY_ID);
    var r := WalkAttrs(buf, ATTRS_AT, AttrsLen(buf[..]), CTRL_ATTR_FAMILY_ID);
    if r == None {
      return None;
    }
    id := Some(FromLE16(buf[..][r.value + 4..r.value + 6]));
    PrefixOfSlice(buf[..], r.value + 4, |FindFirst(m.attrs, 1).value.payload|, 2);
  }
}
