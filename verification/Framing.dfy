/** Byte streams with partial reads and writes. */
module Framing {
  import opened Words

  // ---------- The transfer loops ----------

  /** A stream as its reader sees it: bytes that have arrived, and bytes still to come. */
  class Pipe {
    var wire: seq<byte>
    var coming: seq<byte>

    constructor ()
      ensures wire == [] && coming == []
    {
      wire, coming := [], [];
    }

    ghost function Stream(): (bs: seq<byte>)
      reads this
    {
      wire + coming
    }

    /** More bytes may arrive at any time, and do when a reader waits for them. */
    method Arrive()
      modifies this
      ensures Stream() == old(Stream())
      ensures old(Stream()) != [] ==> wire != []
    {
      var n :| 0 <= n <= |coming| && (wire == [] && coming != [] ==> n > 0);
      wire, coming := wire + coming[..n], coming[n..];
    }

    /** A single `read` that returns `n` of the bytes that have arrived. */
    method Take(n: nat) returns (chunk: seq<byte>)
      requires n <= |wire|
      modifies this
      ensures |chunk| == n && chunk == old(Stream())[..n] && Stream() == old(Stream())[n..]
    {
      chunk := wire[..n];
      wire := wire[n..];
    }
  }

  /** The send loop; each call of `write` or `send` may take any non-empty part of what is left. */
  method WriteAll(p: Pipe, buf: array<byte>)
    modifies p
    ensures p.Stream() == old(p.Stream()) + buf[..]
  {
    var at := 0;
    while at < buf.Length
      invariant 0 <= at <= buf.Length
      invariant p.Stream() == old(p.Stream()) + buf[..at]
    {
      var n :| 1 <= n <= buf.Length - at;
      ghost var before := p.Stream();
      p.coming := p.coming + buf[at..at + n];
      assert p.Stream() == before + buf[at..at + n];
      assert buf[..at + n] == buf[..at] + buf[at..at + n];
      at := at + n;
    }
    assert buf[..buf.Length] == buf[..];
  }

  /** The receive loop; each call of `read` or `recv` waits until something has arrived and may return
      any non-empty part of it. */
  method ReadAll(p: Pipe, buf: array<byte>)
    requires buf.Length <= |p.Stream()|
    modifies p, buf
    ensures buf[..] == old(p.Stream())[..buf.Length]
    ensures p.Stream() == old(p.Stream())[buf.Length..]
  {
    ghost var all := p.Stream();
    var at := 0;
    while at < buf.Length
      invariant 0 <= at <= buf.Length
      invariant p.Stream() == all[at..]
      invariant buf[..at] == all[..at]
    {
      p.Arrive();
      var n :| 1 <= n <= buf.Length - at && n <= |p.wire|;
      var chunk := p.Take(n);
      forall i | 0 <= i < n {
        buf[at + i] := chunk[i];
      }
      assert buf[..at + n] == buf[..at] + chunk;
      assert all[..at + n] == all[..at] + all[at..][..n];
      at := at + n;
    }
    assert buf[..] == buf[..buf.Length];
  }

  // ---------- Interleaved transfer of a list of records ----------

  /** One direction of a connection: bytes still to send, bytes in transit, bytes received so far
      for the record being read. */
  datatype Link = Link(rest: seq<byte>, wire: seq<byte>, got: seq<byte>)

  const IDLE: Link := Link([], [], [])

  function Content(l: Link): (bs: seq<byte>)
    ensures |bs| == |l.got| + |l.wire| + |l.rest|
  {
    l.got + l.wire + l.rest
  }

  predicate CanPush(l: Link, n: int)
  {
    1 <= n <= |l.rest|
  }

  /** A partial write of `n` bytes. */
  function Push(l: Link, n: int): (r: Link)
    requires CanPush(l, n)
    ensures Content(r) == Content(l) && r.got == l.got
    ensures |r.rest| == |l.rest| - n && |r.wire| == |l.wire| + n
  {
    var r := Link(l.rest[n..], l.wire + l.rest[..n], l.got);
    assert l.rest == l.rest[..n] + l.rest[n..];
    r
  }

  predicate CanPull(l: Link, n: int, size: int)
  {
    1 <= n <= |l.wire| && |l.got| + n <= size
  }

  /** A partial read of `n` bytes of a record of `size` bytes. */
  function Pull(l: Link, n: int, size: int): (r: Link)
    requires CanPull(l, n, size)
    ensures Content(r) == Content(l) && r.rest == l.rest
    ensures |r.wire| == |l.wire| - n && |r.got| == |l.got| + n
  {
    var r := Link(l.rest, l.wire[n..], l.got + l.wire[..n]);
    assert l.wire == l.wire[..n] + l.wire[n..];
    r
  }

  /** A sender with records to go, a link, and a receiver with the records it has assembled. */
  datatype Conn = Conn(queue: seq<seq<byte>>, link: Link, received: seq<seq<byte>>)

  datatype Move = Load | PushMove(n: int) | PullMove(n: int) | Deliver

  /** One step of either loop; the sender and the receiver move independently. */
  function Advance(size: nat, c: Conn, m: Move): (r: Option<Conn>)
  {
    match m
    case Load =>
      if c.link.rest == [] && c.queue != []
      then Some(c.(queue := c.queue[1..], link := c.link.(rest := c.queue[0]))) else None
    case PushMove(n) =>
      if CanPush(c.link, n) then Some(c.(link := Push(c.link, n))) else None
    case PullMove(n) =>
      if CanPull(c.link, n, size) then Some(c.(link := Pull(c.link, n, size))) else None
    case Deliver =>
      if |c.link.got| == size
      then Some(c.(received := c.received + [c.link.got], link := c.link.(got := []))) else None
  }

  function Transfer(size: nat, c: Conn, moves: seq<Move>): (r: Option<Conn>)
  {
    if moves == [] then Some(c)
    else match Transfer(size, c, moves[..|moves| - 1])
      case None => None
      case Some(c1) => Advance(size, c1, moves[|moves| - 1])
  }

  function Concat(rs: seq<seq<byte>>): (bs: seq<byte>)
  {
    if rs == [] then [] else rs[0] + Concat(rs[1..])
  }

  lemma {:induction false} ConcatAppend(rs: seq<seq<byte>>, r: seq<byte>)
    ensures Concat(rs + [r]) == Concat(rs) + r && Concat([]) == []
  {
    if rs == [] {
      assert Concat([r]) == r + Concat([]);
    } else {
      assert (rs + [r])[1..] == rs[1..] + [r];
      ConcatAppend(rs[1..], r);
    }
  }

  /** Any non-empty part of what is left can be sent, and any non-empty part of what has arrived and still
      belongs to the record can be received, each at any time. */
  lemma EveryChunk(size: nat, c: Conn, n: int)
    ensures
      var r := Advance(size, c, PushMove(n));
      && (r.Some? <==> 1 <= n <= |c.link.rest|)
      && (r.Some? ==> r.value == c.(link := Link(c.link.rest[n..], c.link.wire + c.link.rest[..n], c.link.got)))
    ensures
      var r := Advance(size, c, PullMove(n));
      && (r.Some? <==> 1 <= n <= |c.link.wire| && |c.link.got| + n <= size)
      && (r.Some? ==> r.value == c.(link := Link(c.link.rest, c.link.wire[n..], c.link.got + c.link.wire[..n])))
  {
  }

  /** A play is its moves one after the other. */
  lemma TransferOneMore(size: nat, c: Conn, moves: seq<Move>, m: Move)
    ensures Transfer(size, c, []) == Some(c)
    ensures Transfer(size, c, moves).Some? ==>
      Transfer(size, c, moves + [m]) == Advance(size, Transfer(size, c, moves).value, m)
  {
    assert (moves + [m])[..|moves|] == moves;
  }

  /** Of `records`, the first `|received|` have been delivered, those up to `loaded` are on the link
      and the others are still queued. */
  ghost predicate InOrder(size: nat, records: seq<seq<byte>>, c: Conn, loaded: nat)
  {
    var k := |c.received|;
    && k <= loaded <= |records|
    && c.received == records[..k]
    && Content(c.link) == Concat(records[k..loaded])
    && c.queue == records[loaded..]
    && |c.link.got| <= size
  }

  ghost predicate Uniform(size: nat, records: seq<seq<byte>>)
  {
    size > 0 && forall r :: r in records ==> |r| == size
  }

  /** Steps that can still be made. */
  ghost function Remaining(size: nat, c: Conn, loaded: nat): (w: int)
  {
    (2 * size + 2) * |c.queue| + 2 * |c.link.rest| + |c.link.wire| + (loaded - |c.received|)
  }

  lemma LoadInOrder(size: nat, records: seq<seq<byte>>, c: Conn, loaded: nat)
    requires Uniform(size, records) && InOrder(size, records, c, loaded)
    requires c.link.rest == [] && c.queue != []
    ensures InOrder(size, records, Advance(size, c, Load).value, loaded + 1)
    ensures Remaining(size, Advance(size, c, Load).value, loaded + 1) < Remaining(size, c, loaded)
  {
    var k := |c.received|;
    assert c.queue[0] == records[loaded];
    assert records[k..loaded + 1] == records[k..loaded] + [records[loaded]];
    ConcatAppend(records[k..loaded], records[loaded]);
    LoadRemaining(size, |c.queue|);
  }

  lemma DeliverInOrder(size: nat, records: seq<seq<byte>>, c: Conn, loaded: nat)
    requires Uniform(size, records) && InOrder(size, records, c, loaded)
    requires |c.link.got| == size
    ensures InOrder(size, records, Advance(size, c, Deliver).value, loaded)
    ensures Remaining(size, Advance(size, c, Deliver).value, loaded) < Remaining(size, c, loaded)
  {
    var k := |c.received|;
    var bs := Content(c.link);
    assert k < loaded by {
      assert bs[0] == c.link.got[0];
    }
    assert records[k..loaded][1..] == records[k + 1..loaded];
    assert bs == records[k] + Concat(records[k + 1..loaded]);
    assert c.link.got == bs[..size] == records[k];
    assert Content(c.link.(got := [])) == bs[size..];
    assert records[..k + 1] == records[..k] + [records[k]];
  }

  lemma AdvanceInOrder(size: nat, records: seq<seq<byte>>, c: Conn, loaded: nat, m: Move) returns (loaded': nat)
    requires Uniform(size, records) && InOrder(size, records, c, loaded)
    requires Advance(size, c, m).Some?
    ensures InOrder(size, records, Advance(size, c, m).value, loaded')
    ensures Remaining(size, Advance(size, c, m).value, loaded') < Remaining(size, c, loaded)
  {
    loaded' := if m.Load? then loaded + 1 else loaded;
    match m {
      case Load => LoadInOrder(size, records, c, loaded);
      case Deliver => DeliverInOrder(size, records, c, loaded);
      case PushMove(n) =>
      case PullMove(n) =>
    }
  }

  lemma LoadRemaining(size: nat, n: int)
    ensures (2 * size + 2) * (n - 1) == (2 * size + 2) * n - (2 * size + 2)
  {
  }

  lemma {:induction false} TransferInOrder(size: nat, records: seq<seq<byte>>, moves: seq<Move>) returns (loaded: nat)
    requires Uniform(size, records)
    requires Transfer(size, Conn(records, IDLE, []), moves).Some?
    ensures
      var c := Transfer(size, Conn(records, IDLE, []), moves).value;
      InOrder(size, records, c, loaded) && Remaining(size, c, loaded) + |moves| <= (2 * size + 2) * |records|
  {
    var c0 := Conn(records, IDLE, []);
    if moves == [] {
      loaded := 0;
      assert Remaining(size, c0, 0) == (2 * size + 2) * |records|;
    } else {
      var front := moves[..|moves| - 1];
      var before := TransferInOrder(size, records, front);
      loaded := AdvanceInOrder(size, records, Transfer(size, c0, front).value, before, moves[|moves| - 1]);
    }
  }

  /** Framing is reliable. However the sends and receives are split and interleaved, the receiver has
      always assembled exactly the first so many records, and no play is longer than a fixed number
      of moves. */
  lemma ReliableFraming(size: nat, records: seq<seq<byte>>, moves: seq<Move>)
    requires size > 0 && forall r :: r in records ==> |r| == size
    requires Transfer(size, Conn(records, IDLE, []), moves).Some?
    ensures Transfer(size, Conn(records, IDLE, []), moves).value.received <= records
    ensures |moves| <= (2 * size + 2) * |records|
  {
    var loaded := TransferInOrder(size, records, moves);
    var c := Transfer(size, Conn(records, IDLE, []), moves).value;
    RemainingNonNegative(size, |c.queue|);
  }

  lemma RemainingNonNegative(size: nat, n: nat)
    ensures (2 * size + 2) * n >= 0
  {
  }

  lemma {:induction false} ConcatLength(size: nat, rs: seq<seq<byte>>)
    requires Uniform(size, rs)
    ensures |Concat(rs)| >= |rs| && (rs != [] ==> |Concat(rs)| >= size)
  {
    if rs != [] {
      ConcatLength(size, rs[1..]);
    }
  }

  /** A play that cannot go on has delivered every record. */
  lemma FramingCompletes(size: nat, records: seq<seq<byte>>, moves: seq<Move>)
    requires size > 0 && forall r :: r in records ==> |r| == size
    requires Transfer(size, Conn(records, IDLE, []), moves).Some?
    requires forall m :: Advance(size, Transfer(size, Conn(records, IDLE, []), moves).value, m).None?
    ensures Transfer(size, Conn(records, IDLE, []), moves).value.received == records
  {
    var c := Transfer(size, Conn(records, IDLE, []), moves).value;
    var loaded := TransferInOrder(size, records, moves);
    assert Advance(size, c, Load).None? && Advance(size, c, PushMove(1)).None?;
    assert Advance(size, c, PullMove(1)).None? && Advance(size, c, Deliver).None?;
    assert c.link.rest == [] && c.queue == [];
    ConcatLength(size, records[|c.received|..loaded]);
  }
}
