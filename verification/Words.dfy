/** Fixed-width unsigned integers and their little-endian byte form (include/asm/byteorder.h). */
module Words {

  datatype Option<+T> = None | Some(value: T)

  type byte = x: int | 0 <= x < 0x100
  type u16 = x: int | 0 <= x < 0x1_0000
  type u32 = x: int | 0 <= x < 0x1_0000_0000
  type u64 = x: int | 0 <= x < 0x1_0000_0000_0000_0000

  function Zeros(n: nat): (z: seq<byte>)
  {
    seq(n, _ => 0)
  }

  function Blanks(n: nat): (ws: seq<u32>)
  {
    seq(n, _ => 0)
  }

  function LE16(v: u16): (bs: seq<byte>)
    ensures |bs| == 2
  {
    [v % 0x100, v / 0x100]
  }

  function FromLE16(bs: seq<byte>): (v: u16)
    requires |bs| == 2
  {
    bs[0] as int + 0x100 * bs[1] as int
  }

  function LE32(v: u32): (bs: seq<byte>)
    ensures |bs| == 4
  {
    [v % 0x100, v / 0x100 % 0x100, v / 0x1_0000 % 0x100, v / 0x100_0000]
  }

  function FromLE32(bs: seq<byte>): (v: u32)
    requires |bs| == 4
  {
    bs[0] as int + 0x100 * bs[1] as int + 0x1_0000 * bs[2] as int + 0x100_0000 * bs[3] as int
  }

  function LE64(v: u64): (bs: seq<byte>)
  {
    LE32(v % 0x1_0000_0000) + LE32(v / 0x1_0000_0000)
  }

  function FromLE64(bs: seq<byte>): (v: u64)
    requires |bs| == 8
  {
    FromLE32(bs[..4]) + 0x1_0000_0000 * FromLE32(bs[4..])
  }

  /** The byte forms list the digits to base 256, least significant first. */
  lemma LittleEndian(h: u16, w: u32, d: u64)
    ensures var b := LE16(h); h == b[0] as int + 0x100 * b[1] as int
    ensures var b := LE32(w);
            w == b[0] as int + 0x100 * b[1] as int + 0x1_0000 * b[2] as int + 0x100_0000 * b[3] as int
    ensures LE64(d) == LE32(d % 0x1_0000_0000) + LE32(d / 0x1_0000_0000)
  {
    LE32RoundTrip(w);
  }

  lemma LE16RoundTrip(v: u16)
    ensures FromLE16(LE16(v)) == v
  {
  }

  lemma LE32RoundTrip(v: u32)
    ensures FromLE32(LE32(v)) == v
  {
    assert v / 0x1_0000 == v / 0x100 / 0x100;
    assert v / 0x100_0000 == v / 0x1_0000 / 0x100;
  }

  /** The byte form is onto: four bytes are the byte form of the word they denote. */
  lemma LE32Inverse(bs: seq<byte>)
    requires |bs| == 4
    ensures LE32(FromLE32(bs)) == bs
  {
    var v := FromLE32(bs);
    var b1: int, b2: int, b3: int := bs[1], bs[2], bs[3];
    assert v / 0x100 == b1 + 0x100 * b2 + 0x1_0000 * b3;
    assert v / 0x1_0000 == b2 + 0x100 * b3;
  }

  lemma LE64RoundTrip(v: u64)
    ensures FromLE64(LE64(v)) == v
  {
    var lo, hi := v % 0x1_0000_0000, v / 0x1_0000_0000;
    assert LE64(v)[..4] == LE32(lo) && LE64(v)[4..] == LE32(hi);
    LE32RoundTrip(lo);
    LE32RoundTrip(hi);
  }

  lemma LE64Inverse(bs: seq<byte>)
    requires |bs| == 8
    ensures LE64(FromLE64(bs)) == bs
  {
    hide LE32, FromLE32;
    LE32Inverse(bs[..4]);
    LE32Inverse(bs[4..]);
    var lo: int, hi: int := FromLE32(bs[..4]), FromLE32(bs[4..]);
    assert (lo + 0x1_0000_0000 * hi) % 0x1_0000_0000 == lo && (lo + 0x1_0000_0000 * hi) / 0x1_0000_0000 == hi;
    assert bs == bs[..4] + bs[4..];
  }

  /** The bytes a dword array occupies in memory. */
  function Bytes(ws: seq<u32>): (bs: seq<byte>)
    ensures |bs| == 4 * |ws|
  {
    seq(4 * |ws|, i requires 0 <= i < 4 * |ws| => LE32(ws[i / 4])[i % 4])
  }

  /** The dword array that occupies the given bytes. */
  function Dwords(bs: seq<byte>): (ws: seq<u32>)
    requires |bs| % 4 == 0
    ensures |ws| == |bs| / 4
  {
    seq(|bs| / 4, i requires 0 <= i < |bs| / 4 => FromLE32(bs[4 * i..4 * i + 4]))
  }

  lemma BytesOfDwords(bs: seq<byte>)
    requires |bs| % 4 == 0
    ensures Bytes(Dwords(bs)) == bs
  {
    forall i | 0 <= i < |bs|
      ensures Bytes(Dwords(bs))[i] == bs[i]
    {
      var k := i / 4;
      LE32Inverse(bs[4 * k..4 * k + 4]);
    }
  }

  lemma BytesAt(ws: seq<u32>, k: int)
    requires 0 <= k < |ws|
    ensures Bytes(ws)[4 * k..4 * k + 4] == LE32(ws[k])
  {
    var four := Bytes(ws)[4 * k..4 * k + 4];
    forall j | 0 <= j < 4
      ensures four[j] == LE32(ws[k])[j]
    {
      assert (4 * k + j) / 4 == k && (4 * k + j) % 4 == j;
    }
  }

  lemma DwordsOfBytes(ws: seq<u32>)
    ensures Dwords(Bytes(ws)) == ws
  {
    forall k | 0 <= k < |ws|
      ensures Dwords(Bytes(ws))[k] == ws[k]
    {
      BytesAt(ws, k);
      LE32RoundTrip(ws[k]);
    }
  }

  /** Byte i of a dword array is byte i % 4 of dword i / 4. */
  lemma ByteOfDwords(ws: seq<u32>, i: nat)
    requires i < 4 * |ws|
    ensures Bytes(ws)[i] == LE32(ws[i / 4])[i % 4]
  {
  }

  /** `memcpy(buf + at, data, |data|)` on a buffer held as a value. */
  function Splice<T>(buf: seq<T>, at: int, data: seq<T>): (r: seq<T>)
    requires 0 <= at && at + |data| <= |buf|
    ensures |r| == |buf|
  {
    buf[..at] + data + buf[at + |data|..]
  }

  lemma SpliceAt<T>(buf: seq<T>, at: int, data: seq<T>, i: nat)
    requires 0 <= at && at + |data| <= |buf| && i < |buf|
    ensures Splice(buf, at, data)[i] == if at <= i < at + |data| then data[i - at] else buf[i]
  {
  }
}
