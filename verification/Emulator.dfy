/** The emulator's static `doe` object: two fixed buffers updated in place through their indices.
    Every method is proved against the functions of module Mailbox, stale buffer contents included. */
module Emulator {
  import opened Words
  import opened Protocol
  import opened Mailbox

  // ---------- The byte view of a dword buffer ----------

  lemma BytesPrefix(ws: seq<u32>, k: int)
    requires 0 <= k <= |ws|
    ensures Bytes(ws)[..4 * k] == Bytes(ws[..k])
    ensures Bytes(ws)[4 * k..] == Bytes(ws[k..])
  {
    forall i | 0 <= i < 4 * (|ws| - k)
      ensures Bytes(ws)[4 * k + i] == Bytes(ws[k..])[i]
    {
      assert (4 * k + i) / 4 == k + i / 4 && (4 * k + i) % 4 == i % 4;
    }
  }

  /** Storing one byte through a byte pointer changes that byte of the view and no other. */
  lemma StoreByte(ws: seq<u32>, i: int, b: byte)
    requires 0 <= i < 4 * |ws|
    ensures Bytes(ws[i / 4 := FromLE32(LE32(ws[i / 4])[i % 4 := b])]) == Bytes(ws)[i := b]
  {
    var four := LE32(ws[i / 4])[i % 4 := b];
    LE32Inverse(four);
    var after := Bytes(ws[i / 4 := FromLE32(four)]);
    forall j | 0 <= j < 4 * |ws|
      ensures after[j] == Bytes(ws)[i := b][j]
    {
      if j / 4 == i / 4 && j != i {
        assert j % 4 != i % 4;
      }
    }
  }

  lemma SpliceAppend<T>(buf: seq<T>, at: int, x: seq<T>, y: seq<T>)
    requires 0 <= at && at + |x| + |y| <= |buf|
    ensures Splice(Splice(buf, at, x), at + |x|, y) == Splice(buf, at, x + y)
  {
  }

  lemma SpliceInside<T>(buf: seq<T>, x: seq<T>, at: int, y: seq<T>)
    requires |x| <= |buf| && 0 <= at && at + |y| <= |x|
    ensures Splice(Splice(buf, 0, x), at, y) == Splice(buf, 0, Splice(x, at, y))
  {
  }

  lemma SpliceNothing(buf: seq<byte>, at: nat)
    requires at <= |buf|
    ensures Splice(buf, at, Zeros(0)) == buf
  {
  }

  lemma SpliceOneMoreZero(buf: seq<byte>, at: nat, k: nat)
    requires at + k < |buf|
    ensures Splice(buf, at, Zeros(k))[at + k := 0] == Splice(buf, at, Zeros(k + 1))
  {
  }

  lemma SplicePadding(buf: seq<byte>, at: nat, k: nat)
    requires at + k <= |buf|
    ensures Splice(buf, at, Zeros(k)) == Splice(buf, 0, buf[..at] + Zeros(k))
  {
  }

  /** A buffer whose payload bytes are `bytes`, with its first two dwords replaced by the header of
      the object, is the old buffer with the object spliced in at the front. */
  lemma FinishedBuffer(before: seq<u32>, after: seq<u32>, kind: byte, payload: seq<byte>)
    requires |before| == |after| == DOE_BUF_DWORDS && |payload| <= 264
    requires Bytes(after[2..]) == Splice(Bytes(before[2..]), 0, Padded(payload))
    requires after[..2] == Pack(kind, payload)[..2]
    ensures after == Splice(before, 0, Pack(kind, payload))
  {
    var k := |Padded(payload)| / 4;
    BytesPrefix(after[2..], k);
    BytesPrefix(before[2..], k);
    var bs := Bytes(after[2..]);
    assert bs[..4 * k] == Padded(payload);
    assert bs[4 * k..] == Bytes(before[2..])[4 * k..];
    DwordsOfBytes(after[2..][..k]);
    DwordsOfBytes(after[2..][k..]);
    DwordsOfBytes(before[2..][k..]);
    assert after == after[..2] + after[2..][..k] + after[2..][k..];
    assert before[|Pack(kind, payload)|..] == before[2..][k..];
  }

  /** Dwords overwritten by a payload do not matter once the object that carries it is spliced in. */
  lemma StoresVanish(before: seq<u32>, after: seq<u32>, kind: byte, payload: seq<byte>)
    requires |before| == |after| == DOE_BUF_DWORDS && |payload| <= 264 && |payload| % 4 == 0
    requires Bytes(after[2..]) == Splice(Bytes(before[2..]), 0, payload)
    ensures Splice(after, 0, Pack(kind, payload)) == Splice(before, 0, Pack(kind, payload))
    ensures Bytes(after[2..])[..|payload|] == payload
  {
    var k := |payload| / 4;
    BytesPrefix(after[2..], k);
    BytesPrefix(before[2..], k);
    assert Bytes(after[2..])[4 * k..] == Bytes(before[2..])[4 * k..];
    DwordsOfBytes(after[2..][k..]);
    DwordsOfBytes(before[2..][k..]);
    assert after[2 + k..] == after[2..][k..] && before[2 + k..] == before[2..][k..];
  }

  lemma AlgosStores(ver: byte)
    ensures Splice(Splice(Splice(Splice(Splice(Zeros(36),
              0, [ver, SPDM_RSP_ALGOS, 0, 0]), 4, LE16(36)), 6, [SPDM_MEAS_DMTF]),
              8, LE32(SPDM_ASYM_RSA2048)), 12, LE32(SPDM_HASH_SHA256))
            == AlgosPayload(ver)
  {
    var head := [ver, SPDM_RSP_ALGOS, 0, 0];
    var a1 := Splice(Zeros(36), 0, head);
    assert a1 == head + Zeros(32);
    var a2 := Splice(a1, 4, LE16(36));
    assert a2 == head + LE16(36) + Zeros(30);
    var a3 := Splice(a2, 6, [SPDM_MEAS_DMTF]);
    assert a3 == head + LE16(36) + [SPDM_MEAS_DMTF, 0] + Zeros(28);
    var a4 := Splice(a3, 8, LE32(SPDM_ASYM_RSA2048));
    assert a4 == head + LE16(36) + [SPDM_MEAS_DMTF, 0] + LE32(SPDM_ASYM_RSA2048) + Zeros(24);
  }

  class Doe {
    const protocols: seq<Entry>

    var status: u32
    const reqBuf: array<u32>
    var reqLen: int
    const rspBuf: array<u32>
    var rspLen: int
    var rspIdx: int
    var capBase: u32
    var capDetected: bool

    /** Every transaction served so far. */
    ghost var served: seq<Transaction>

    ghost predicate Valid()
      reads this, reqBuf, rspBuf
    {
      reqBuf != rspBuf && Sized(Snapshot())
    }

    /** The emulator's fields as a value. */
    ghost function Snapshot(): (s: State)
      reads this, reqBuf, rspBuf
    {
      State(status, reqBuf[..], reqLen, rspBuf[..], rspLen, rspIdx, capBase, capDetected)
    }

    /** The bytes that `(uint8_t *)&doe.rsp_buf[2]` addresses. */
    ghost function View(): (bs: seq<byte>)
      requires rspBuf.Length == DOE_BUF_DWORDS
      reads this, rspBuf
    {
      Bytes(rspBuf[2..])
    }

    constructor (table: seq<Entry>)
      ensures Valid() && Snapshot() == Init() && protocols == table && served == []
      ensures fresh(reqBuf) && fresh(rspBuf)
    {
      protocols := table;
      status := 0;
      reqBuf := new u32[DOE_BUF_DWORDS](_ => 0);
      reqLen := 0;
      rspBuf := new u32[DOE_BUF_DWORDS](_ => 0);
      rspLen := 0;
      rspIdx := 0;
      capBase := 0;
      capDetected := false;
      served := [];
    }

    /** `rsp[i] = b`. */
    method PutByte(i: nat, b: byte)
      requires Valid() && i < 264
      modifies rspBuf
      ensures Valid()
      ensures rspBuf[..2] == old(rspBuf[..2]) && View() == old(View())[i := b]
    {
      StoreByte(rspBuf[2..], i, b);
      ghost var ws := rspBuf[2..];
      rspBuf[2 + i / 4] := FromLE32(LE32(rspBuf[2 + i / 4])[i % 4 := b]);
      assert rspBuf[2..] == ws[i / 4 := FromLE32(LE32(ws[i / 4])[i % 4 := b])];
    }

    /** A run of byte stores, `memcpy` or `memset` at `rsp + at`. */
    method PutBytes(at: nat, data: seq<byte>)
      requires Valid() && at + |data| <= 264
      modifies rspBuf
      ensures Valid()
      ensures rspBuf[..2] == old(rspBuf[..2]) && View() == Splice(old(View()), at, data)
    {
      hide Bytes;
      for i := 0 to |data|
        invariant Valid()
        invariant rspBuf[..2] == old(rspBuf[..2])
        invariant View() == Splice(old(View()), at, data[..i])
      {
        PutByte(at + i, data[i]);
      }
      assert data[..|data|] == data;
    }

    /** The padding loop: zero bytes up to the next dword boundary. */
    method PadPayload(spdmBytes: nat) returns (n: nat)
      requires Valid() && spdmBytes <= 264
      modifies rspBuf
      ensures Valid() && n == spdmBytes + PadLen(spdmBytes)
      ensures rspBuf[..2] == old(rspBuf[..2])
      ensures View() == Splice(old(View()), 0, Padded(old(View()[..spdmBytes])))
    {
      hide Bytes, Splice;
      ghost var view, k := View(), PadLen(spdmBytes);
      n := spdmBytes;
      SpliceNothing(view, spdmBytes);
      while n % 4 != 0
        invariant spdmBytes <= n <= spdmBytes + k <= 264
        invariant Valid() && rspBuf[..2] == old(rspBuf[..2])
        invariant View() == Splice(view, spdmBytes, Zeros(n - spdmBytes))
        decreases 264 - n
      {
        SpliceOneMoreZero(view, spdmBytes, n - spdmBytes);
        PutByte(n, 0);
        n := n + 1;
      }
      SplicePadding(view, spdmBytes, k);
    }

    /** Pads the payload already stored at the front of the view and publishes the object. */
    method SpdmFinish(kind: byte, spdmBytes: nat)
      requires Valid() && spdmBytes <= 264
      modifies this`status, this`rspLen, this`rspIdx, rspBuf
      ensures Valid()
      ensures Snapshot() == Publish(old(Snapshot()), Pack(kind, old(View()[..spdmBytes])))
    {
      ghost var payload := View()[..spdmBytes];
      var n := PadPayload(spdmBytes);
      var dwords := n / 4;
      ghost var body := rspBuf[2..];
      rspBuf[0] := Header(kind);
      rspBuf[1] := 2 + dwords;
      assert rspBuf[2..] == body;
      assert |Pack(kind, payload)| == 2 + dwords;
      FinishedBuffer(old(rspBuf[..]), rspBuf[..], kind, payload);
      rspLen := 2 + dwords;
      rspIdx := 0;
      status := DOE_STATUS_READY;
    }

    method SpdmError(kind: byte, code: byte)
      requires Valid()
      modifies this`status, this`rspLen, this`rspIdx, rspBuf
      ensures Valid()
      ensures Snapshot() == Publish(old(Snapshot()), Pack(kind, ErrorPayload(code)))
    {
      PutBytes(0, [0x10, SPDM_RSP_ERROR, code, 0]);
      StoresVanish(old(rspBuf[..]), rspBuf[..], kind, ErrorPayload(code));
      SpdmFinish(kind, 4);
    }

    method SpdmVersion(kind: byte)
      requires Valid()
      modifies this`status, this`rspLen, this`rspIdx, rspBuf
      ensures Valid()
      ensures Snapshot() == Publish(old(Snapshot()), Pack(kind, VersionPayload()))
    {
      ghost var view := View();
      PutBytes(0, [0x10, SPDM_RSP_VERSION, 0, 0, 0, 0, 2, 0]);
      PutBytes(8, LE16(0x1000));
      PutBytes(10, LE16(0x1200));
      SpliceAppend(view, 0, [0x10, SPDM_RSP_VERSION, 0, 0, 0, 0, 2, 0], LE16(0x1000));
      SpliceAppend(view, 0, [0x10, SPDM_RSP_VERSION, 0, 0, 0, 0, 2, 0] + LE16(0x1000), LE16(0x1200));
      StoresVanish(old(rspBuf[..]), rspBuf[..], kind, VersionPayload());
      SpdmFinish(kind, 12);
    }

    method SpdmCaps(kind: byte, ver: byte)
      requires Valid()
      modifies this`status, this`rspLen, this`rspIdx, rspBuf
      ensures Valid()
      ensures Snapshot() == Publish(old(Snapshot()), Pack(kind, CapsPayload(ver)))
    {
      ghost var view := View();
      PutBytes(0, [ver, SPDM_RSP_CAPS, 0, 0, 0, 12, 0, 0]);
      PutBytes(8, LE32(SPDM_CAP_FLAGS));
      SpliceAppend(view, 0, [ver, SPDM_RSP_CAPS, 0, 0, 0, 12, 0, 0], LE32(SPDM_CAP_FLAGS));
      StoresVanish(old(rspBuf[..]), rspBuf[..], kind, CapsPayload(ver));
      SpdmFinish(kind, 12);
    }

    method SpdmAlgos(kind: byte, ver: byte)
      requires Valid()
      modifies this`status, this`rspLen, this`rspIdx, rspBuf
      ensures Valid()
      ensures Snapshot() == Publish(old(Snapshot()), Pack(kind, AlgosPayload(ver)))
    {
      ghost var view := View();
      ghost var a0 := Zeros(36);
      PutBytes(0, Zeros(36));
      PutBytes(0, [ver, SPDM_RSP_ALGOS, 0, 0]);
      SpliceInside(view, a0, 0, [ver, SPDM_RSP_ALGOS, 0, 0]);
      ghost var a1 := Splice(a0, 0, [ver, SPDM_RSP_ALGOS, 0, 0]);
      PutBytes(4, LE16(36));
      SpliceInside(view, a1, 4, LE16(36));
      ghost var a2 := Splice(a1, 4, LE16(36));
      PutBytes(6, [SPDM_MEAS_DMTF]);
      SpliceInside(view, a2, 6, [SPDM_MEAS_DMTF]);
      ghost var a3 := Splice(a2, 6, [SPDM_MEAS_DMTF]);
      PutBytes(8, LE32(SPDM_ASYM_RSA2048));
      SpliceInside(view, a3, 8, LE32(SPDM_ASYM_RSA2048));
      ghost var a4 := Splice(a3, 8, LE32(SPDM_ASYM_RSA2048));
      PutBytes(12, LE32(SPDM_HASH_SHA256));
      SpliceInside(view, a4, 12, LE32(SPDM_HASH_SHA256));
      AlgosStores(ver);
      StoresVanish(old(rspBuf[..]), rspBuf[..], kind, AlgosPayload(ver));
      SpdmFinish(kind, 36);
    }

    method SpdmHandle(kind: byte)
      requires Valid() && 2 <= reqLen && kind == Kind(reqBuf[0])
      requires Vid(reqBuf[0]) == DOE_VID_PCISIG
      requires kind == DOE_TYPE_CMA_SPDM || kind == DOE_TYPE_SECURED_CMA_SPDM
      modifies this`status, this`rspLen, this`rspIdx, rspBuf
      ensures Valid()
      ensures Snapshot() == Process(protocols, old(Snapshot()))
    {
      if reqLen < 3 {
        status := DOE_STATUS_ERROR;
        return;
      }
      var ver, code := reqBuf[2] % 0x100, reqBuf[2] / 0x100 % 0x100;
      if code == SPDM_GET_VERSION {
        SpdmVersion(kind);
      } else if code == SPDM_GET_CAPS {
        SpdmCaps(kind, ver);
      } else if code == SPDM_NEG_ALGOS {
        SpdmAlgos(kind, ver);
      } else {
        SpdmError(kind, SPDM_ERR_UNSUP);
      }
    }

    method HandleDiscovery()
      requires Valid() && 2 <= reqLen
      requires Vid(reqBuf[0]) == DOE_VID_PCISIG && Kind(reqBuf[0]) == DOE_TYPE_DISC
      modifies this`status, this`rspLen, this`rspIdx, rspBuf
      ensures Valid()
      ensures Snapshot() == Process(protocols, old(Snapshot()))
    {
      if reqLen < 3 {
        status := DOE_STATUS_ERROR;
        return;
      }
      var index: byte := reqBuf[2] % 0x100;
      var next: u32 := if index + 1 < |protocols| then index + 1 else 0;
      rspBuf[0] := Header(DOE_TYPE_DISC);
      rspBuf[1] := 4;
      if index < |protocols| {
        rspBuf[2] := EntryWord(protocols[index]);
        rspBuf[3] := next;
      } else {
        rspBuf[2] := 0;
        rspBuf[3] := 0;
      }
      rspLen := 4;
      rspIdx := 0;
      status := DOE_STATUS_READY;
      assert rspBuf[..] == Splice(old(rspBuf[..]), 0, DiscoveryResponse(protocols, index));
    }

    method Dispatch()
      requires Valid()
      modifies this`status, this`rspLen, this`rspIdx, rspBuf
      ensures Valid()
      ensures Snapshot() == Process(protocols, old(Snapshot()))
    {
      if reqLen < 2 {
        status := DOE_STATUS_ERROR;
        return;
      }
      var vid, kind := Vid(reqBuf[0]), Kind(reqBuf[0]);
      if vid == DOE_VID_PCISIG && kind == DOE_TYPE_DISC {
        HandleDiscovery();
      } else if vid == DOE_VID_PCISIG && (kind == DOE_TYPE_CMA_SPDM || kind == DOE_TYPE_SECURED_CMA_SPDM) {
        SpdmHandle(kind);
      } else {
        status := DOE_STATUS_ERROR;
      }
    }

    method ReadRegister(reg: u32) returns (val: u32)
      requires Valid()
      ensures val == RegRead(Snapshot(), reg)
    {
      if reg == DOE_REG_STATUS {
        val := status;
      } else if reg == DOE_REG_READ {
        if rspIdx >= rspLen {
          val := OVERRUN;
        } else {
          val := rspBuf[rspIdx];
        }
      } else {
        val := 0;
      }
    }

    method WriteRegister(reg: u32, val: u32)
      requires Valid()
      modifies this`status, this`reqLen, this`rspLen, this`rspIdx, reqBuf, rspBuf
      ensures Valid()
      ensures Snapshot() == RegWrite(protocols, old(Snapshot()), reg, val)
    {
      if reg == DOE_REG_CTRL {
        if Abort(val) {
          reqLen, rspLen, rspIdx := 0, 0, 0;
          status := 0;
        }
        if Go(val) {
          Dispatch();
          reqLen := 0;
        }
      } else if reg == DOE_REG_WRITE {
        if reqLen < DOE_BUF_DWORDS {
          reqBuf[reqLen] := val;
          reqLen := reqLen + 1;
        }
      } else if reg == DOE_REG_READ {
        if val == 0 {
          rspIdx := rspIdx + 1;
          if rspIdx >= rspLen {
            status := 0;
            rspIdx, rspLen := 0, 0;
          }
        }
      }
    }

    /** One pass of the main loop over a transaction that is not a quit. */
    method Serve(req: Transaction) returns (rsp: Transaction)
      requires Valid() && !Quit(req)
      modifies this, reqBuf, rspBuf
      ensures Valid()
      ensures Snapshot() == Next(protocols, old(Snapshot()), req)
      ensures rsp == Reply(old(Snapshot()), req)
      ensures served == old(served) + [req]
    {
      served := served + [req];
      var offset := Offset(req);
      if !capDetected {
        if req.r0w1 == 1 {
          return Echo(req, 0);
        }
        capBase := Sub32(offset, DOE_REG_STATUS);
        capDetected := true;
      }
      ghost var detected := Snapshot();
      assert detected == Detect(old(Snapshot()), req);
      var reg := Sub32(offset, capBase);
      var val := 0;
      if req.r0w1 == 0 {
        val := ReadRegister(reg);
      } else {
        WriteRegister(reg, req.data);
      }
      rsp := Echo(req, val);
    }

    /** The main loop: serves transactions until the stream is exhausted or one of them is a quit. */
    method Run(reqs: seq<Transaction>) returns (rsps: seq<Transaction>)
      requires Valid()
      modifies this, reqBuf, rspBuf
      ensures Valid()
      ensures Snapshot() == Final(protocols, old(Snapshot()), reqs)
      ensures rsps == Replies(protocols, old(Snapshot()), reqs)
      ensures served == old(served) + Served(reqs)
    {
      hide Next, Reply, Final, Replies, Served;
      rsps := [];
      var i := 0;
      assert reqs[0..] == reqs;
      while i < |reqs| && !Quit(reqs[i])
        invariant 0 <= i <= |reqs| && Valid()
        invariant Final(protocols, old(Snapshot()), reqs) == Final(protocols, Snapshot(), reqs[i..])
        invariant Replies(protocols, old(Snapshot()), reqs) == rsps + Replies(protocols, Snapshot(), reqs[i..])
        invariant old(served) + Served(reqs) == served + Served(reqs[i..])
      {
        RunUnfolds(protocols, Snapshot(), reqs, i);
        var rsp := Serve(reqs[i]);
        rsps := rsps + [rsp];
        i := i + 1;
      }
      RunUnfolds(protocols, Snapshot(), reqs, i);
    }
  }
}
