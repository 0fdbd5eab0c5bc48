/** The two records that travel between the processes, and their byte layouts. */
module Wire {
  import opened Words
  import opened Mailbox
  import opened Buffers

  /** `sizeof(struct avery_pci_config_op)`: four packed 32-bit fields. */
  const OP_SIZE: int := 16

  /** `sizeof(simics_transaction_t)`, with four bytes of tail padding. */
  const TX_SIZE: int := 344

  const AVERY_OP_WRITE: u32 := 0x10
  const AVERY_OP_READ: u32 := 0x14

  /** `struct avery_pci_config_op`; `status` is held as its 32-bit pattern. */
  datatype Op = Op(kind: u32, offset: u32, value: u32, status: u32)

  function EncodeOp(op: Op): (bs: seq<byte>)
    ensures |bs| == OP_SIZE
  {
    LE32(op.kind) + LE32(op.offset) + LE32(op.value) + LE32(op.status)
  }

  function DecodeOp(bs: seq<byte>): (op: Op)
    requires |bs| == OP_SIZE
  {
    Op(FromLE32(bs[..4]), FromLE32(bs[4..8]), FromLE32(bs[8..12]), FromLE32(bs[12..16]))
  }

  /** The packed layout, and that reading it back recovers the op. */
  lemma OpRoundTrip(op: Op)
    ensures
      var bs := EncodeOp(op);
      && bs[..4] == LE32(op.kind) && bs[4..8] == LE32(op.offset)
      && bs[8..12] == LE32(op.value) && bs[12..16] == LE32(op.status)
    ensures DecodeOp(EncodeOp(op)) == op
  {
    var bs := EncodeOp(op);
    assert bs[..4] == LE32(op.kind) && bs[4..8] == LE32(op.offset);
    assert bs[8..12] == LE32(op.value) && bs[12..16] == LE32(op.status);
    LE32RoundTrip(op.kind);
    LE32RoundTrip(op.offset);
    LE32RoundTrip(op.value);
    LE32RoundTrip(op.status);
  }

  /** Every 16 bytes are the layout of the op read from them. */
  lemma OpInverse(bs: seq<byte>)
    requires |bs| == OP_SIZE
    ensures EncodeOp(DecodeOp(bs)) == bs
  {
    LE32Inverse(bs[..4]);
    LE32Inverse(bs[4..8]);
    LE32Inverse(bs[8..12]);
    LE32Inverse(bs[12..16]);
    assert bs == bs[..4] + bs[4..8] + bs[8..12] + bs[12..16];
  }

  function EncodeTx(t: Transaction): (bs: seq<byte>)
    ensures |bs| == TX_SIZE
  {
    LE32(t.packetNumber) + LE32(t.packetType) + LE32(t.simType) + Zeros(16)
    + LE32(t.controlStatus) + LE64(t.address) + LE32(t.r0w1) + LE32(t.dataSize)
    + LE32(t.data) + Zeros(276) + LE32(t.cmpStatus) + Zeros(12)
  }

  function Field32(bs: seq<byte>, at: nat): (v: u32)
    requires at + 4 <= |bs|
  {
    FromLE32(bs[at..at + 4])
  }

  function DecodeTx(bs: seq<byte>): (t: Transaction)
    requires |bs| == TX_SIZE
  {
    Transaction(Field32(bs, 0), Field32(bs, 4), Field32(bs, 8), Field32(bs, 28),
                FromLE64(bs[32..40]), Field32(bs, 40), Field32(bs, 44), Field32(bs, 48), Field32(bs, 328))
  }

  /** The offsets of the fields, as the C structure lays them out. */
  lemma TxFields(t: Transaction)
    ensures
      var bs := EncodeTx(t);
      && bs[0..4] == LE32(t.packetNumber) && bs[4..8] == LE32(t.packetType) && bs[8..12] == LE32(t.simType)
      && bs[28..32] == LE32(t.controlStatus) && bs[32..40] == LE64(t.address) && bs[40..44] == LE32(t.r0w1)
      && bs[44..48] == LE32(t.dataSize) && bs[48..52] == LE32(t.data) && bs[328..332] == LE32(t.cmpStatus)
      && (forall i :: 12 <= i < 28 || 52 <= i < 328 || 332 <= i < 344 ==> bs[i] == 0)
  {
  }

  lemma TxRoundTrip(t: Transaction)
    ensures DecodeTx(EncodeTx(t)) == t
  {
    TxFields(t);
    LE32RoundTrip(t.packetNumber);
    LE32RoundTrip(t.packetType);
    LE32RoundTrip(t.simType);
    LE32RoundTrip(t.controlStatus);
    LE64RoundTrip(t.address);
    LE32RoundTrip(t.r0w1);
    LE32RoundTrip(t.dataSize);
    LE32RoundTrip(t.data);
    LE32RoundTrip(t.cmpStatus);
  }

  /** From every 344 bytes the fields are read at those offsets. */
  lemma TxInverse(bs: seq<byte>)
    requires |bs| == TX_SIZE
    ensures
      var t := DecodeTx(bs);
      && LE32(t.packetNumber) == bs[0..4] && LE32(t.packetType) == bs[4..8] && LE32(t.simType) == bs[8..12]
      && LE32(t.controlStatus) == bs[28..32] && LE64(t.address) == bs[32..40] && LE32(t.r0w1) == bs[40..44]
      && LE32(t.dataSize) == bs[44..48] && LE32(t.data) == bs[48..52] && LE32(t.cmpStatus) == bs[328..332]
  {
    hide LE32, FromLE32;
    LE32Inverse(bs[0..4]);
    LE32Inverse(bs[4..8]);
    LE32Inverse(bs[8..12]);
    LE32Inverse(bs[28..32]);
    LE64Inverse(bs[32..40]);
    LE32Inverse(bs[40..44]);
    LE32Inverse(bs[44..48]);
    LE32Inverse(bs[48..52]);
    LE32Inverse(bs[328..332]);
  }

  /** The fields up to `sim_type`. */
  function Ids(t: Transaction): (bs: seq<byte>)
    ensures |bs| == 12
  {
    LE32(t.packetNumber) + LE32(t.packetType) + LE32(t.simType)
  }

  /** The fields from `physical_address` to the first data dword. */
  function Body(t: Transaction): (bs: seq<byte>)
    ensures |bs| == 20
  {
    LE64(t.address) + LE32(t.r0w1) + LE32(t.dataSize) + LE32(t.data)
  }

  lemma ZeroFields(t: Transaction)
    requires t.controlStatus == 0 && t.cmpStatus == 0
    ensures Ids(t) + Zeros(20) + Body(t) + Zeros(292) == EncodeTx(t)
  {
    assert Zeros(20) == Zeros(16) + LE32(0);
    assert Zeros(292) == Zeros(276) + LE32(0) + Zeros(12);
  }

  /** Zeroing the record and storing those fields gives exactly the encoded transaction. */
  lemma TxLayout(t: Transaction)
    requires t.controlStatus == 0 && t.cmpStatus == 0
    ensures Splice(Splice(Zeros(TX_SIZE), 0, Ids(t)), 32, Body(t)) == EncodeTx(t)
  {
    hide Ids, Body, EncodeTx;
    StoreInZeros([], TX_SIZE, 0, Ids(t));
    assert [] + Zeros(TX_SIZE) == Zeros(TX_SIZE);
    assert Splice(Zeros(TX_SIZE), 0, Ids(t)) == Ids(t) + Zeros(332);
    StoreInZeros(Ids(t), 332, 20, Body(t));
    ZeroFields(t);
  }

  /** Lays a transaction out in a record buffer. */
  method LayOut(buf: array<byte>, t: Transaction)
    requires buf.Length == TX_SIZE && t.controlStatus == 0 && t.cmpStatus == 0
    modifies buf
    ensures buf[..] == EncodeTx(t)
  {
    Clear(buf);
    Put(buf, 0, Ids(t));
    Put(buf, 32, Body(t));
    TxLayout(t);
  }
}
