/** Unsigned big-endian integers, as `readUInt32BE` and its relatives use them. */
module Bytes {
  import opened Versions

  function Pow256(width: nat): nat
  {
    if width == 0 then 1 else 256 * Pow256(width - 1)
  }

  function BE(n: nat, width: nat): (b: Buf)
    ensures |b| == width
  {
    if width == 0 then [] else BE(n / 256, width - 1) + [(n % 256) as Byte]
  }

  function ReadBE(b: Buf): nat
  {
    if b == [] then 0 else 256 * ReadBE(b[..|b| - 1]) + b[|b| - 1] as nat
  }

  lemma {:induction false} ReadWritten(n: nat, width: nat)
    requires n < Pow256(width)
    ensures ReadBE(BE(n, width)) == n
  {
    if width > 0 {
      ReadWritten(n / 256, width - 1);
      var b := BE(n, width);
      assert b[..|b| - 1] == BE(n / 256, width - 1);
    }
  }

  lemma {:induction false} WrittenRead(b: Buf)
    ensures BE(ReadBE(b), |b|) == b && ReadBE(b) < Pow256(|b|)
  {
    if b != [] {
      WrittenRead(b[..|b| - 1]);
      assert b == b[..|b| - 1] + [b[|b| - 1]];
    }
  }

  lemma SliceOfSlice(b: Buf, p: nat, q: nat, i: nat, j: nat)
    requires p <= q <= |b| && i <= j <= q - p
    ensures b[p..q][i..j] == b[p + i..p + j]
  {
    assert forall k :: 0 <= k < j - i ==> b[p..q][i..j][k] == b[p + i..p + j][k];
  }

  lemma Widths()
    ensures Pow256(1) == 0x100 && Pow256(2) == 0x1_0000 && Pow256(4) == 0x1_0000_0000
    ensures Pow256(8) == 0x1_0000_0000_0000_0000
  {
    assert Pow256(3) == 0x100_0000;
    assert Pow256(6) == 256 * 256 * Pow256(4);
    assert Pow256(8) == 256 * 256 * Pow256(6);
  }

  function Zeros(n: nat): (z: Buf)
    ensures |z| == n
  {
    seq(n, _ => 0)
  }

  /** No two messages that differ in one byte have the same checksum. */
  ghost predicate DetectsOneByte<W>(crc: Buf -> W)
  {
    forall a: Buf, x, y, b: Buf {:trigger crc(a + [x] + b), crc(a + [y] + b)} :: x != y ==>
      crc(a + [x] + b) != crc(a + [y] + b)
  }

  lemma ChangeIsDetected<W>(crc: Buf -> W, message: Buf, i: nat, y: Byte)
    requires DetectsOneByte(crc) && i < |message| && message[i] != y
    ensures crc(message[i := y]) != crc(message)
  {
    var a, b := message[..i], message[i + 1..];
    assert message == a + [message[i]] + b && message[i := y] == a + [y] + b;
  }

  /** Write bytes into a buffer at an offset. */
  function Put(frame: Buf, off: nat, b: Buf): (r: Buf)
    requires off + |b| <= |frame|
    ensures |r| == |frame|
  {
    frame[..off] + b + frame[off + |b|..]
  }

  lemma PutNext(before: Buf, left: nat, b: Buf)
    requires |b| <= left
    ensures Put(before + Zeros(left), |before|, b) == before + b + Zeros(left - |b|)
  {
  }

  /** `w` is what has been written so far. */
  method PutBytes(ghost w: Buf, b: Buf, off: nat, frame: Buf) returns (next: nat, after: Buf, ghost more: Buf)
    requires off == |w| && off + |b| <= |frame| && frame == w + Zeros(|frame| - off)
    ensures next == off + |b| == |more| && |after| == |frame|
    ensures more == w + b && after == more + Zeros(|frame| - next)
  {
    PutNext(w, |frame| - off, b);
    next, after, more := off + |b|, Put(frame, off, b), w + b;
  }
}

/** Keys under which `toFlushEntries` keeps old versions while snapshots are open. */
module VersionedKeys {
  import opened Keys

  const PREFIX: Key := [0, 0x56]

  predicate IsVersionedKey(key: Key)
  {
    PREFIX <= key
  }

  function HexDigit(d: nat): CodeUnit
    requires d < 16
  {
    if d < 10 then (48 + d) as CodeUnit else (87 + d) as CodeUnit
  }

  function DigitValue(c: CodeUnit): nat
  {
    if 48 <= c <= 57 then (c as nat) - 48 else if 97 <= c <= 102 then (c as nat) - 87 else 0
  }

  function Pow16(width: nat): nat
  {
    if width == 0 then 1 else 16 * Pow16(width - 1)
  }

  function Hex(n: nat, width: nat): (h: Key)
    ensures |h| == width
  {
    if width == 0 then [] else Hex(n / 16, width - 1) + [HexDigit(n % 16)]
  }

  function HexValue(h: Key): nat
  {
    if h == [] then 0 else 16 * HexValue(h[..|h| - 1]) + DigitValue(h[|h| - 1])
  }

  function EncodeVersionedKey(id: Key, txnId: nat): Key
  {
    PREFIX + Hex(txnId, 16) + [0] + id
  }

  /** The document id and transaction id a versioned key names. */
  function DecodeVersionedKey(key: Key): (Key, nat)
  {
    if |key| < 19 then ([], 0) else (key[19..], HexValue(key[2..18]))
  }

  lemma {:induction false} HexRoundTrip(n: nat, width: nat)
    requires n < Pow16(width)
    ensures HexValue(Hex(n, width)) == n
  {
    if width > 0 {
      HexRoundTrip(n / 16, width - 1);
      var h := Hex(n, width);
      assert h[..|h| - 1] == Hex(n / 16, width - 1);
    }
  }

  lemma VersionedKeyRoundTrip(id: Key, txnId: nat)
    requires txnId <= 0xffff_ffff_ffff_ffff
    ensures IsVersionedKey(EncodeVersionedKey(id, txnId))
    ensures DecodeVersionedKey(EncodeVersionedKey(id, txnId)) == (id, txnId)
  {
    var key := EncodeVersionedKey(id, txnId);
    assert key[..2] == PREFIX && key[2..18] == Hex(txnId, 16) && key[19..] == id;
    assert Pow16(8) == 0x1_0000_0000 by { assert Pow16(4) == 0x1_0000; }
    assert Pow16(12) == 0x1_0000 * Pow16(8);
    assert Pow16(16) == 0x1_0000 * Pow16(12);
    HexRoundTrip(txnId, 16);
  }
}
