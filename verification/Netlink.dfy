/** Generic netlink messages: header, attribute list, and the walk over it. */
module Netlink {
  import opened Words
  import opened Protocol

  const NLA_HDRLEN: int := 4
  const NLMSG_HDRLEN: int := 16

  /** `NLMSG_LENGTH(GENL_HDRLEN)`: where the attributes start. */
  const ATTRS_AT: int := 20

  const NLM_F_REQUEST: u16 := 1

  const AVERY_CMD_REQUEST: byte := 1
  const AVERY_CMD_RESPONSE: byte := 2
  const AVERY_ATTR_OP: u16 := 1
  const CTRL_ATTR_FAMILY_ID: u16 := 1

  function NlaAlign(n: nat): (r: nat)
    ensures r == n + PadLen(n)
  {
    (n + 3) / 4 * 4
  }

  // ---------- Attribute lists ----------

  /** An attribute with the padding bytes that follow it, whatever they hold. */
  datatype Attr = Attr(kind: u16, payload: seq<byte>, pad: seq<byte>)

  /** Lengths fit their field; padding reaches the next boundary, except that the message may end
      before the padding of its last attribute does. */
  ghost predicate WellFormed(attrs: seq<Attr>)
  {
    forall i :: 0 <= i < |attrs| ==>
      && NLA_HDRLEN + |attrs[i].payload| < 0x1_0000
      && |attrs[i].pad| <= PadLen(|attrs[i].payload|)
      && (i + 1 < |attrs| ==> |attrs[i].pad| == PadLen(|attrs[i].payload|))
  }

  function EncodeAttr(a: Attr): (bs: seq<byte>)
    requires NLA_HDRLEN + |a.payload| < 0x1_0000
    ensures |bs| == NLA_HDRLEN + |a.payload| + |a.pad|
  {
    LE16(NLA_HDRLEN + |a.payload|) + LE16(a.kind) + a.payload + a.pad
  }

  function EncodeAttrs(attrs: seq<Attr>): (bs: seq<byte>)
    requires forall a :: a in attrs ==> NLA_HDRLEN + |a.payload| < 0x1_0000
  {
    if attrs == [] then [] else EncodeAttr(attrs[0]) + EncodeAttrs(attrs[1..])
  }

  /** The first attribute of a kind. */
  function FindFirst(attrs: seq<Attr>, kind: u16): (r: Option<Attr>)
  {
    if attrs == [] then None
    else if attrs[0].kind == kind then Some(attrs[0])
    else FindFirst(attrs[1..], kind)
  }

  lemma {:induction false} FindFirstSkips(others: seq<Attr>, attrs: seq<Attr>, kind: u16)
    requires forall a :: a in others ==> a.kind != kind
    ensures FindFirst(others + attrs, kind) == FindFirst(attrs, kind)
  {
    if others == [] {
      assert others + attrs == attrs;
    } else {
      assert (others + attrs)[1..] == others[1..] + attrs;
      FindFirstSkips(others[1..], attrs, kind);
    }
  }

  /** The first of a kind is the one with none of the kind in front, and there is none only if there is none. */
  lemma FindFirstExactly(front: seq<Attr>, a: Attr, back: seq<Attr>, kind: u16)
    requires forall b :: b in front ==> b.kind != kind
    ensures a.kind == kind ==> FindFirst(front + [a] + back, kind) == Some(a)
    ensures FindFirst(front, kind) == None
  {
    assert front + [a] + back == front + ([a] + back);
    FindFirstSkips(front, [a] + back, kind);
    FindFirstSkips(front, [], kind);
    assert front + [] == front;
  }

  /** An attribute in bytes: length with header, kind, payload, padding. */
  lemma AttrBytes(a: Attr)
    requires |a.payload| < 0xFFFC
    ensures
      var bs := EncodeAttr(a);
      && bs[0] as int + 0x100 * bs[1] as int == 4 + |a.payload| && bs[2] as int + 0x100 * bs[3] as int == a.kind
      && bs[4..] == a.payload + a.pad
  {
    LittleEndian(4 + |a.payload|, 0, 0);
    LittleEndian(a.kind, 0, 0);
  }

  /** A list in bytes: its attributes one after the other. */
  lemma AttrsBytes(a: Attr, attrs: seq<Attr>)
    requires forall b :: b in [a] + attrs ==> |b.payload| < 0xFFFC
    ensures EncodeAttrs([]) == [] && EncodeAttrs([a] + attrs) == EncodeAttr(a) + EncodeAttrs(attrs)
  {
    assert ([a] + attrs)[1..] == attrs;
  }

  /** Every list of attributes that fit their length field, padded to multiples of four, is well-formed,
      and so is one whose last padding is cut short. */
  lemma WellFormedLists(attrs: seq<Attr>, last: Attr)
    requires forall a :: a in attrs ==> |a.payload| < 0xFFFC && |a.pad| == (4 - |a.payload| % 4) % 4
    requires |last.payload| < 0xFFFC && |last.pad| <= (4 - |last.payload| % 4) % 4
    ensures WellFormed(attrs) && WellFormed(attrs + [last])
  {
  }

  // ---------- The walk ----------

  function AttrLen(bs: seq<byte>, at: nat): (n: u16)
    requires at + 4 <= |bs|
  {
    FromLE16(bs[at..at + 2])
  }

  function AttrKind(bs: seq<byte>, at: nat): (k: u16)
    requires at + 4 <= |bs|
  {
    FromLE16(bs[at + 2..at + 4])
  }

  /** Each attribute header that the walk for `kind` reaches lies in the buffer, and each one it steps
      over has a length of at least the header size. Nothing is asked of what lies behind a match. */
  ghost predicate Walkable(bs: seq<byte>, at: nat, attrlen: int, kind: u16)
    decreases attrlen
  {
    attrlen > 0 ==>
      && at + 4 <= |bs|
      && (AttrKind(bs, at) != kind ==>
            && AttrLen(bs, at) >= NLA_HDRLEN
            && Walkable(bs, at + NlaAlign(AttrLen(bs, at)), attrlen - NlaAlign(AttrLen(bs, at)), kind))
  }

  /** Where the walk finds an attribute of the wanted kind. */
  function Walk(bs: seq<byte>, at: nat, attrlen: int, kind: u16): (r: Option<nat>)
    requires Walkable(bs, at, attrlen, kind)
    ensures r.Some? ==> r.value + 4 <= |bs|
    decreases attrlen
  {
    if attrlen <= 0 then None
    else if AttrKind(bs, at) == kind then Some(at)
    else Walk(bs, at + NlaAlign(AttrLen(bs, at)), attrlen - NlaAlign(AttrLen(bs, at)), kind)
  }

  /** The pointer walk of both readers. */
  method WalkAttrs(buf: array<byte>, start: nat, len: int, kind: u16) returns (r: Option<nat>)
    requires Walkable(buf[..], start, len, kind)
    ensures r == Walk(buf[..], start, len, kind)
  {
    var at, attrlen := start, len;
    while attrlen > 0
      invariant Walkable(buf[..], at, attrlen, kind)
      invariant Walk(buf[..], start, len, kind) == Walk(buf[..], at, attrlen, kind)
      decreases attrlen
    {
      if AttrKind(buf[..], at) == kind {
        return Some(at);
      }
      var step := NlaAlign(AttrLen(buf[..], at));
      attrlen := attrlen - step;
      at := at + step;
    }
    return None;
  }

  /** A header in front of a payload reads back as its length and kind. */
  lemma HeaderReads(before: seq<byte>, a: Attr, after: seq<byte>)
    requires NLA_HDRLEN + |a.payload| < 0x1_0000
    ensures
      var bs, at := before + EncodeAttr(a) + after, |before|;
      && AttrLen(bs, at) == NLA_HDRLEN + |a.payload| && AttrKind(bs, at) == a.kind
      && bs[at + 4..at + 4 + |a.payload|] == a.payload
  {
    var bs, at := before + EncodeAttr(a) + after, |before|;
    var e := EncodeAttr(a);
    assert e[..2] == LE16(NLA_HDRLEN + |a.payload|) && e[2..4] == LE16(a.kind);
    assert e[4..4 + |a.payload|] == a.payload;
    assert bs[at..at + 2] == e[..2] && bs[at + 2..at + 4] == e[2..4];
    assert bs[at + 4..at + 4 + |a.payload|] == e[4..4 + |a.payload|];
    LE16RoundTrip(NLA_HDRLEN + |a.payload|);
    LE16RoundTrip(a.kind);
  }

  /** The walk from `at` ends at the payload of the given attribute, or finds nothing if there is none. */
  ghost predicate WalkEndsAt(bs: seq<byte>, at: nat, attrlen: int, kind: u16, r: Option<Attr>)
  {
    && Walkable(bs, at, attrlen, kind)
    && match r
       case None => Walk(bs, at, attrlen, kind) == None
       case Some(a) =>
         && Walk(bs, at, attrlen, kind).Some?
         && var p := Walk(bs, at, attrlen, kind).value + NLA_HDRLEN;
         && p + |a.payload| <= |bs| && bs[p..p + |a.payload|] == a.payload
  }

  lemma WalkStep(bs: seq<byte>, at: nat, attrlen: int, kind: u16, attrs: seq<Attr>)
    requires attrs != [] && attrlen > 0
    requires
      var a := attrs[0];
      && at + 4 + |a.payload| <= |bs| && bs[at + 4..at + 4 + |a.payload|] == a.payload
      && AttrLen(bs, at) == NLA_HDRLEN + |a.payload| && AttrKind(bs, at) == a.kind
    requires
      var step := NlaAlign(AttrLen(bs, at));
      WalkEndsAt(bs, at + step, attrlen - step, kind, FindFirst(attrs[1..], kind))
    ensures WalkEndsAt(bs, at, attrlen, kind, FindFirst(attrs, kind))
  {
  }

  lemma PadAfterHeader(n: nat)
    ensures NlaAlign(NLA_HDRLEN + n) == NLA_HDRLEN + n + PadLen(n)
  {
  }

  /** What well-formedness says about the head of a list and leaves for the rest. */
  lemma WellFormedHead(attrs: seq<Attr>)
    requires WellFormed(attrs) && attrs != []
    ensures WellFormed(attrs[1..])
    ensures NLA_HDRLEN + |attrs[0].payload| < 0x1_0000
    ensures
      var len, step := |EncodeAttr(attrs[0])|, NlaAlign(NLA_HDRLEN + |attrs[0].payload|);
      if |attrs| == 1 then len <= step else len == step
  {
    PadAfterHeader(|attrs[0].payload|);
  }

  lemma WalkDone(bs: seq<byte>, at: nat, attrlen: int, kind: u16)
    requires attrlen <= 0
    ensures WalkEndsAt(bs, at, attrlen, kind, None)
  {
  }

  /** The walk over an encoded list, wherever it lies in a buffer, ends at the payload of the first
      attribute of the kind, and finds nothing exactly when there is none. */
  lemma {:induction false} WalkFindsFirst(before: seq<byte>, attrs: seq<Attr>, after: seq<byte>, kind: u16)
    requires WellFormed(attrs)
    ensures WalkEndsAt(before + EncodeAttrs(attrs) + after, |before|, |EncodeAttrs(attrs)|,
                       kind, FindFirst(attrs, kind))
    decreases |attrs|
  {
    hide WalkEndsAt, Walk, Walkable, EncodeAttr, AttrLen, AttrKind, NlaAlign, PadLen;
    if attrs == [] {
      WalkDone(before + EncodeAttrs(attrs) + after, |before|, 0, kind);
    } else {
      WellFormedHead(attrs);
      var a, tail := attrs[0], attrs[1..];
      var n, rest := |EncodeAttrs(attrs)|, EncodeAttrs(tail);
      var bs := before + EncodeAttrs(attrs) + after;
      assert bs == before + EncodeAttr(a) + (rest + after);
      HeaderReads(before, a, rest + after);
      var step := NlaAlign(NLA_HDRLEN + |a.payload|);
      assert WalkEndsAt(bs, |before| + step, n - step, kind, FindFirst(tail, kind)) by {
        if tail == [] {
          WalkDone(bs, |before| + step, n - step, kind);
        } else {
          var before' := before + EncodeAttr(a);
          assert |before'| == |before| + step && n - step == |rest|;
          assert bs == before' + rest + after;
          WalkFindsFirst(before', tail, after, kind);
        }
      }
      WalkStep(bs, |before|, n, kind, attrs);
    }
  }
}
