/** The data objects the emulator exchanges and the protocol handlers as functions of the request. */
module Protocol {
  import opened Words

  const DOE_BUF_DWORDS: int := 68

  const DOE_VID_PCISIG: u16 := 0x0001
  const DOE_TYPE_DISC: byte := 0x00
  const DOE_TYPE_CMA_SPDM: byte := 0x01
  const DOE_TYPE_SECURED_CMA_SPDM: byte := 0x02

  const SPDM_GET_VERSION: byte := 0x84
  const SPDM_GET_CAPS: byte := 0xE1
  const SPDM_NEG_ALGOS: byte := 0xE3
  const SPDM_RSP_VERSION: byte := 0x04
  const SPDM_RSP_CAPS: byte := 0x61
  const SPDM_RSP_ALGOS: byte := 0x63
  const SPDM_RSP_ERROR: byte := 0x7F
  const SPDM_ERR_UNSUP: byte := 0x07

  const SPDM_CAP_FLAGS: u32 := 0x04 + 0x08 + 0x20
  const SPDM_ASYM_RSA2048: u32 := 0x02
  const SPDM_HASH_SHA256: u32 := 0x01
  const SPDM_MEAS_DMTF: byte := 0x01

  /** A row of the table that Discovery advertises. */
  datatype Entry = Entry(vid: u16, kind: byte)

  /** The table compiled into the emulator. */
  const PROTOCOLS: seq<Entry> :=
    [Entry(0x0001, 0x00), Entry(0x0001, 0x01), Entry(0x0001, 0x02), Entry(0x1E98, 0x02)]

  /** The dword `vid | type << 16`. */
  function EntryWord(e: Entry): (w: u32)
  {
    e.vid + e.kind * 0x1_0000
  }

  function Header(kind: byte): (w: u32)
  {
    EntryWord(Entry(DOE_VID_PCISIG, kind))
  }

  /** The index that Discovery reports after `index`; 0 ends the list. */
  function NextIndex(table: seq<Entry>, index: byte): (next: u32)
  {
    if index + 1 < |table| then index + 1 else 0
  }

  function DiscoveryResponse(table: seq<Entry>, index: byte): (rsp: seq<u32>)
    ensures |rsp| == 4 && rsp[1] == 4
  {
    if index < |table| then
      [Header(DOE_TYPE_DISC), 4, EntryWord(table[index]), NextIndex(table, index)]
    else
      [Header(DOE_TYPE_DISC), 4, 0, 0]
  }

  function PadLen(n: nat): (k: nat)
    ensures k < 4 && (n + k) % 4 == 0
  {
    (4 - n % 4) % 4
  }

  function Padded(payload: seq<byte>): (bs: seq<byte>)
    ensures |bs| % 4 == 0
  {
    payload + Zeros(PadLen(|payload|))
  }

  /** The data object that carries `payload`: two header dwords, then the padded payload. */
  function Pack(kind: byte, payload: seq<byte>): (rsp: seq<u32>)
    requires |payload| <= 264
    ensures 2 <= |rsp| <= DOE_BUF_DWORDS && rsp[1] == |rsp|
    ensures |rsp| == 2 + (|payload| + 3) / 4
  {
    var body := Dwords(Padded(payload));
    [Header(kind), 2 + |body|] + body
  }

  /** Packing loses nothing: the payload dwords of the object, read back as bytes, are the
      payload followed by fewer than four zero bytes. */
  lemma PackRoundTrip(kind: byte, payload: seq<byte>)
    requires |payload| <= 264
    ensures Bytes(Pack(kind, payload)[2..]) == payload + Zeros(PadLen(|payload|))
    ensures PadLen(|payload|) < 4
  {
    assert Pack(kind, payload)[2..] == Dwords(Padded(payload));
    BytesOfDwords(Padded(payload));
  }

  function VersionPayload(): (bs: seq<byte>)
    ensures |bs| == 12
  {
    [0x10, SPDM_RSP_VERSION, 0, 0, 0, 0, 2, 0] + LE16(0x1000) + LE16(0x1200)
  }

  function CapsPayload(ver: byte): (bs: seq<byte>)
    ensures |bs| == 12
  {
    [ver, SPDM_RSP_CAPS, 0, 0, 0, 12, 0, 0] + LE32(SPDM_CAP_FLAGS)
  }

  function AlgosPayload(ver: byte): (bs: seq<byte>)
    ensures |bs| == 36
  {
    [ver, SPDM_RSP_ALGOS, 0, 0] + LE16(36) + [SPDM_MEAS_DMTF, 0]
    + LE32(SPDM_ASYM_RSA2048) + LE32(SPDM_HASH_SHA256) + Zeros(20)
  }

  function ErrorPayload(code: byte): (bs: seq<byte>)
    ensures |bs| == 4
  {
    [0x10, SPDM_RSP_ERROR, code, 0]
  }

  function SpdmPayload(ver: byte, code: byte): (bs: seq<byte>)
    ensures 4 <= |bs| <= 36
  {
    if code == SPDM_GET_VERSION then VersionPayload()
    else if code == SPDM_GET_CAPS then CapsPayload(ver)
    else if code == SPDM_NEG_ALGOS then AlgosPayload(ver)
    else ErrorPayload(SPDM_ERR_UNSUP)
  }

  /** A table entry can be read back from its dword. */
  lemma EntryWordParts(e: Entry)
    ensures Vid(EntryWord(e)) == e.vid && Kind(EntryWord(e)) == e.kind
  {
    assert EntryWord(e) / 0x1_0000 == e.kind;
  }

  function Vid(w: u32): (v: u16) { w % 0x1_0000 }

  function Kind(w: u32): (k: byte) { w / 0x1_0000 % 0x100 }

  /** What GO makes of a request: a response, or nothing when the request is refused. */
  function Answer(table: seq<Entry>, req: seq<u32>): (r: Option<seq<u32>>)
    ensures r.Some? ==> 3 <= |r.value| <= DOE_BUF_DWORDS && r.value[1] == |r.value|
  {
    if |req| < 2 || Vid(req[0]) != DOE_VID_PCISIG then None
    else if Kind(req[0]) == DOE_TYPE_DISC then
      if |req| < 3 then None else Some(DiscoveryResponse(table, req[2] % 0x100))
    else if Kind(req[0]) == DOE_TYPE_CMA_SPDM || Kind(req[0]) == DOE_TYPE_SECURED_CMA_SPDM then
      if |req| < 3 then None
      else Some(Pack(Kind(req[0]), SpdmPayload(req[2] % 0x100, req[2] / 0x100 % 0x100)))
    else None
  }

  /** The part of a request that can influence its outcome. */
  ghost predicate SameFootprint(a: seq<u32>, b: seq<u32>)
  {
    && (|a| < 2 <==> |b| < 2)
    && (|a| < 3 <==> |b| < 3)
    && (|a| >= 2 ==> a[0] % 0x100_0000 == b[0] % 0x100_0000)
    && (|a| >= 3 && a[0] % 0x100_0000 == Header(DOE_TYPE_DISC) ==> a[2] % 0x100 == b[2] % 0x100)
    && (|a| >= 3 && a[0] % 0x100_0000 in {Header(DOE_TYPE_CMA_SPDM), Header(DOE_TYPE_SECURED_CMA_SPDM)} ==>
          a[2] % 0x1_0000 == b[2] % 0x1_0000)
  }

  /** Agreement on the length class, on 24 bits of dword 0, and on 8 or 16 bits of dword 2 is enough. */
  lemma FootprintSuffices(a: seq<u32>, b: seq<u32>)
    requires (|a| < 2 && |b| < 2) || (|a| == 2 && |b| == 2) || (|a| >= 3 && |b| >= 3)
    requires |a| >= 2 ==> a[0] % 0x100_0000 == b[0] % 0x100_0000
    requires |a| >= 3 ==> a[2] % (if a[0] % 0x100_0000 == 1 then 0x100 else 0x1_0000)
                          == b[2] % (if a[0] % 0x100_0000 == 1 then 0x100 else 0x1_0000)
    ensures SameFootprint(a, b)
  {
  }

  lemma LowWordDecides(w: u32, v: u32)
    requires w % 0x100_0000 == v % 0x100_0000
    ensures Vid(w) == Vid(v) && Kind(w) == Kind(v)
    ensures w % 0x100_0000 == Vid(w) + 0x1_0000 * Kind(w)
  {
    var lo := w % 0x100_0000;
    assert w == 0x100_0000 * (w / 0x100_0000) + lo;
    assert v == 0x100_0000 * (v / 0x100_0000) + lo;
    assert w / 0x1_0000 == 0x100 * (w / 0x100_0000) + lo / 0x1_0000;
    assert v / 0x1_0000 == 0x100 * (v / 0x100_0000) + lo / 0x1_0000;
  }

  lemma LowHalfDecides(w: u32, v: u32)
    requires w % 0x1_0000 == v % 0x1_0000
    ensures w % 0x100 == v % 0x100 && w / 0x100 % 0x100 == v / 0x100 % 0x100
  {
    var lo := w % 0x1_0000;
    assert w == 0x1_0000 * (w / 0x1_0000) + lo;
    assert v == 0x1_0000 * (v / 0x1_0000) + lo;
    assert w / 0x100 == 0x100 * (w / 0x1_0000) + lo / 0x100;
    assert v / 0x100 == 0x100 * (v / 0x1_0000) + lo / 0x100;
  }

  /** Requests that agree on the footprint get the same outcome and the same response. */
  lemma AnswerFootprint(table: seq<Entry>, a: seq<u32>, b: seq<u32>)
    requires SameFootprint(a, b)
    ensures Answer(table, a) == Answer(table, b)
  {
    if |a| >= 2 {
      LowWordDecides(a[0], b[0]);
      if |a| >= 3 && a[2] % 0x1_0000 == b[2] % 0x1_0000 {
        LowHalfDecides(a[2], b[2]);
      }
    }
  }

  /** The 68-dword limit of the request buffer never changes an answer. */
  lemma AnswerIgnoresTail(table: seq<Entry>, req: seq<u32>, n: int)
    requires 3 <= n
    ensures |req| > n ==> Answer(table, req[..n]) == Answer(table, req)
  {
  }

  /** An SPDM answer clears bit 7 of a supported request code, as DSP0274 pairs them, and is ERROR
      otherwise; it repeats the version of the request except in VERSION and ERROR; ALGORITHMS states
      its own length. */
  ghost predicate SpdmAnswers(bs: seq<byte>, ver: byte, code: byte)
  {
    && |bs| >= 4
    && bs[1] == (if code in {SPDM_GET_VERSION, SPDM_GET_CAPS, SPDM_NEG_ALGOS} then code - 0x80 else SPDM_RSP_ERROR)
    && bs[0] == (if code in {SPDM_GET_CAPS, SPDM_NEG_ALGOS} then ver else 0x10)
    && (code == SPDM_NEG_ALGOS ==> |bs| >= 6 && FromLE16(bs[4..6]) == |bs|)
  }

  lemma SpdmPayloadAnswers(ver: byte, code: byte)
    ensures SpdmAnswers(SpdmPayload(ver, code), ver, code) && |SpdmPayload(ver, code)| % 4 == 0
  {
    if code == SPDM_NEG_ALGOS {
      assert AlgosPayload(ver)[4..6] == LE16(36);
    }
  }

  /** Every answer is an object of the protocol that was asked, and an SPDM answer, read back as
      bytes, matches the SPDM request in the first payload dword. */
  lemma AnswerMatchesRequest(table: seq<Entry>, req: seq<u32>)
    requires Answer(table, req).Some?
    ensures
      var rsp := Answer(table, req).value;
      && Vid(rsp[0]) == Vid(req[0]) && Kind(rsp[0]) == Kind(req[0])
      && (Kind(req[0]) != DOE_TYPE_DISC ==>
            SpdmAnswers(Bytes(rsp[2..]), req[2] % 0x100, req[2] / 0x100 % 0x100))
  {
    hide SpdmAnswers, SpdmPayload;
    EntryWordParts(Entry(DOE_VID_PCISIG, Kind(req[0])));
    if Kind(req[0]) != DOE_TYPE_DISC {
      var ver, code := req[2] % 0x100, req[2] / 0x100 % 0x100;
      SpdmPayloadAnswers(ver, code);
      PackRoundTrip(Kind(req[0]), SpdmPayload(ver, code));
      assert SpdmPayload(ver, code) + Zeros(0) == SpdmPayload(ver, code);
    }
  }
}
