/** Filling byte buffers in place: `memset` and `memcpy`. */
module Buffers {
  import opened Words

  method Clear(buf: array<byte>)
    modifies buf
    ensures buf[..] == Zeros(buf.Length)
  {
    for i := 0 to buf.Length
      invariant buf[..i] == Zeros(i)
    {
      buf[i] := 0;
    }
    assert buf[..] == buf[..buf.Length];
  }

  method Put(buf: array<byte>, at: nat, data: seq<byte>)
    requires at + |data| <= buf.Length
    modifies buf
    ensures buf[..] == Splice(old(buf[..]), at, data)
  {
    for i := 0 to |data|
      invariant buf[..] == Splice(old(buf[..]), at, data[..i])
    {
      buf[at + i] := data[i];
    }
    assert data[..|data|] == data;
  }

  /** A store into the zero tail of a buffer, `gap` bytes after the part already filled. */
  lemma StoreInZeros(filled: seq<byte>, m: nat, gap: nat, data: seq<byte>)
    requires gap + |data| <= m
    ensures Splice(filled + Zeros(m), |filled| + gap, data)
            == filled + Zeros(gap) + data + Zeros(m - gap - |data|)
  {
  }
}
