/** Frames of the TCP replica protocol: one write-ahead-log record each. */
module Frames {
  import opened Options
  import opened Versions
  import opened Bytes

  /** A record as the primary ships it: the batch fields may be missing. */
  datatype WalRecord = WalRecord(
    lsn: nat,
    txnId: Option<nat>,
    batchSize: Option<nat>,
    batchIndex: Option<nat>,
    keyBuf: Buf,
    docBuf: Buf)

  const TCP_FRAME_FIXED: nat := 34

  /** Where the key starts in a frame: the fixed part counts four bytes more than its fields take. */
  const FIELD_BYTES: nat := 30

  function Or(x: Option<nat>, default: nat): nat
  {
    if x.Some? then x.value else default
  }

  /** What the replica gets: a record with every field filled in. */
  function Filled(r: WalRecord): WalRecord
  {
    r.(txnId := Some(Or(r.txnId, r.lsn)), batchSize := Some(Or(r.batchSize, 1)),
       batchIndex := Some(Or(r.batchIndex, 1)))
  }

  /** The record's numbers and lengths fit the widths the frame gives them. */
  predicate Fits(r: WalRecord)
  {
    && r.lsn < 0x1_0000_0000_0000_0000 && Or(r.txnId, r.lsn) < 0x1_0000_0000_0000_0000
    && Or(r.batchSize, 1) < 0x1_0000_0000 && Or(r.batchIndex, 1) < 0x1_0000_0000
    && |r.keyBuf| < 0x1_0000
    && TCP_FRAME_FIXED + |r.keyBuf| + |r.docBuf| < 0x1_0000_0000
  }

  function Fields(r: WalRecord): (b: Buf)
    ensures |b| == FIELD_BYTES
  {
    BE(r.lsn, 8) + BE(Or(r.txnId, r.lsn), 8) + BE(Or(r.batchSize, 1), 4) + BE(Or(r.batchIndex, 1), 4)
    + BE(|r.keyBuf|, 2) + BE(|r.docBuf|, 4)
  }

  function Payload(r: WalRecord): (b: Buf)
    ensures |b| == TCP_FRAME_FIXED + |r.keyBuf| + |r.docBuf|
  {
    Fields(r) + r.keyBuf + r.docBuf + Zeros(TCP_FRAME_FIXED - FIELD_BYTES)
  }

  function FrameOf(r: WalRecord): Buf
  {
    BE(TCP_FRAME_FIXED + |r.keyBuf| + |r.docBuf|, 4) + Payload(r)
  }

  /**
   * Fills a zeroed buffer field by field; the four bytes nothing is written to end up behind the document. It
   * throws where a number or length is too great for its field.
   */
  method EncodeFrame(r: WalRecord) returns (encoded: Option<Buf>)
    ensures encoded == if Fits(r) then Some(FrameOf(r)) else None
  {
    if !Fits(r) {
      return None;
    }
    var bodyLen := |r.keyBuf| + |r.docBuf|;
    var frame := Zeros(4 + TCP_FRAME_FIXED + bodyLen);
    var off := 0;
    ghost var w: Buf := [];
    off, frame, w := PutBytes(w, BE(TCP_FRAME_FIXED + bodyLen, 4), off, frame);
    off, frame, w := PutBytes(w, BE(r.lsn, 8), off, frame);
    off, frame, w := PutBytes(w, BE(Or(r.txnId, r.lsn), 8), off, frame);
    off, frame, w := PutBytes(w, BE(Or(r.batchSize, 1), 4), off, frame);
    off, frame, w := PutBytes(w, BE(Or(r.batchIndex, 1), 4), off, frame);
    off, frame, w := PutBytes(w, BE(|r.keyBuf|, 2), off, frame);
    off, frame, w := PutBytes(w, BE(|r.docBuf|, 4), off, frame);
    off, frame, w := PutBytes(w, r.keyBuf, off, frame);
    off, frame, w := PutBytes(w, r.docBuf, off, frame);
    Assembled(r);
    encoded := Some(frame);
  }

  lemma Assembled(r: WalRecord)
    ensures [] + BE(TCP_FRAME_FIXED + |r.keyBuf| + |r.docBuf|, 4) + BE(r.lsn, 8) + BE(Or(r.txnId, r.lsn), 8)
            + BE(Or(r.batchSize, 1), 4) + BE(Or(r.batchIndex, 1), 4) + BE(|r.keyBuf|, 2) + BE(|r.docBuf|, 4)
            + r.keyBuf + r.docBuf + Zeros(4)
            == FrameOf(r)
  {
    LeftToRight(BE(TCP_FRAME_FIXED + |r.keyBuf| + |r.docBuf|, 4), BE(r.lsn, 8), BE(Or(r.txnId, r.lsn), 8),
                BE(Or(r.batchSize, 1), 4), BE(Or(r.batchIndex, 1), 4), BE(|r.keyBuf|, 2), BE(|r.docBuf|, 4),
                r.keyBuf, r.docBuf, Zeros(4));
  }

  lemma LeftToRight(a: Buf, b: Buf, c: Buf, d: Buf, e: Buf, f: Buf, g: Buf, h: Buf, i: Buf, j: Buf)
    ensures [] + a + b + c + d + e + f + g + h + i + j == a + (b + c + d + e + f + g + h + i + j)
  {
  }

  function Clamp(i: nat, n: nat): nat
  {
    if i < n then i else n
  }

  /** `decodeFrame`; it throws when the frame is too short for its fields. */
  function DecodeFrame(frame: Buf): Option<WalRecord>
  {
    if |frame| < FIELD_BYTES then None
    else
      var keyLen, docLen := ReadBE(frame[24..26]), ReadBE(frame[26..30]);
      var keyEnd := FIELD_BYTES + keyLen;
      Some(WalRecord(
        ReadBE(frame[0..8]), Some(ReadBE(frame[8..16])), Some(ReadBE(frame[16..20])), Some(ReadBE(frame[20..24])),
        frame[FIELD_BYTES..Clamp(keyEnd, |frame|)],
        frame[Clamp(keyEnd, |frame|)..Clamp(keyEnd + docLen, |frame|)]))
  }

  lemma FieldsAt(r: WalRecord)
    ensures Payload(r)[0..8] == BE(r.lsn, 8) && Payload(r)[8..16] == BE(Or(r.txnId, r.lsn), 8)
    ensures Payload(r)[16..20] == BE(Or(r.batchSize, 1), 4) && Payload(r)[20..24] == BE(Or(r.batchIndex, 1), 4)
    ensures Payload(r)[24..26] == BE(|r.keyBuf|, 2) && Payload(r)[26..30] == BE(|r.docBuf|, 4)
  {
    var p, f := Payload(r), Fields(r);
    assert p[..30] == f;
    assert f[0..8] == BE(r.lsn, 8) && f[8..16] == BE(Or(r.txnId, r.lsn), 8);
    assert f[16..20] == BE(Or(r.batchSize, 1), 4) && f[20..24] == BE(Or(r.batchIndex, 1), 4);
    assert f[24..26] == BE(|r.keyBuf|, 2) && f[26..30] == BE(|r.docBuf|, 4);
    SliceOfSlice(p, 0, 30, 0, 8);
    SliceOfSlice(p, 0, 30, 8, 16);
    SliceOfSlice(p, 0, 30, 16, 20);
    SliceOfSlice(p, 0, 30, 20, 24);
    SliceOfSlice(p, 0, 30, 24, 26);
    SliceOfSlice(p, 0, 30, 26, 30);
  }

  /** A frame decodes to its record, defaults filled in; the padding is not looked at. */
  lemma FrameRoundTrip(r: WalRecord)
    requires Fits(r)
    ensures DecodeFrame(Payload(r)) == Some(Filled(r))
  {
    var p := Payload(r);
    Widths();
    FieldsAt(r);
    ReadWritten(r.lsn, 8);
    ReadWritten(Or(r.txnId, r.lsn), 8);
    ReadWritten(Or(r.batchSize, 1), 4);
    ReadWritten(Or(r.batchIndex, 1), 4);
    ReadWritten(|r.keyBuf|, 2);
    ReadWritten(|r.docBuf|, 4);
    BodyAt(r);
  }

  lemma BodyAt(r: WalRecord)
    ensures var k := FIELD_BYTES + |r.keyBuf|;
            Payload(r)[FIELD_BYTES..k] == r.keyBuf && Payload(r)[k..k + |r.docBuf|] == r.docBuf
  {
  }
}

/** Reassembly of frames from a byte stream that arrives in arbitrary chunks. */
module ReplicaStreams {
  import opened Options
  import opened Versions
  import opened Bytes
  import opened Framing
  import opened Frames

  /** The buffer starts with a whole frame. */
  predicate HasFrame(buf: Buf)
  {
    |buf| >= 4 && |buf| >= 4 + ReadBE(buf[..4])
  }

  function FirstPayload(buf: Buf): (p: Buf)
    requires HasFrame(buf)
    ensures |p| == ReadBE(buf[..4])
  {
    buf[4..4 + ReadBE(buf[..4])]
  }

  function AfterFrame(buf: Buf): (rest: Buf)
    requires HasFrame(buf)
    ensures |rest| < |buf|
  {
    buf[4 + ReadBE(buf[..4])..]
  }

  function Drained(buf: Buf): Drain<WalRecord>
    decreases |buf|
  {
    if !HasFrame(buf) then Drain([], buf, true)
    else
      var r := DecodeFrame(FirstPayload(buf));
      if r.None? then Drain([], AfterFrame(buf), false) else Prepended([r.value], Drained(AfterFrame(buf)))
  }

  function FramesOf(rs: seq<WalRecord>): (fs: seq<Buf>)
    ensures |fs| == |rs|
  {
    seq(|rs|, i requires 0 <= i < |rs| => FrameOf(rs[i]))
  }

  function AllFilled(rs: seq<WalRecord>): (fs: seq<WalRecord>)
    ensures |fs| == |rs|
  {
    seq(|rs|, i requires 0 <= i < |rs| => Filled(rs[i]))
  }

  ghost predicate AllFit(rs: seq<WalRecord>)
  {
    forall r :: r in rs ==> Fits(r)
  }

  lemma FrameKept(a: Buf, b: Buf)
    requires HasFrame(a)
    ensures HasFrame(a + b)
    ensures FirstPayload(a + b) == FirstPayload(a) && AfterFrame(a + b) == AfterFrame(a) + b
  {
    assert (a + b)[..4] == a[..4];
  }

  /** Draining what has arrived and then the rest is draining it all at once. */
  lemma {:induction false} DrainedSplit(a: Buf, b: Buf)
    requires Drained(a).ok
    ensures Drained(a + b) == Prepended(Drained(a).records, Drained(Drained(a).rest + b))
    decreases |a|
  {
    if HasFrame(a) {
      FrameKept(a, b);
      DrainedSplit(AfterFrame(a), b);
      var r := DecodeFrame(FirstPayload(a)).value;
      PrependedTwice([r], Drained(AfterFrame(a)).records, Drained(Drained(AfterFrame(a)).rest + b));
    } else {
      PrependedTwice([], [], Drained(a + b));
    }
  }

  lemma FrameFirst(r: WalRecord, tail: Buf)
    requires Fits(r)
    ensures HasFrame(FrameOf(r) + tail)
    ensures FirstPayload(FrameOf(r) + tail) == Payload(r) && AfterFrame(FrameOf(r) + tail) == tail
  {
    var buf, n := FrameOf(r) + tail, TCP_FRAME_FIXED + |r.keyBuf| + |r.docBuf|;
    assert buf[..4] == BE(n, 4);
    Widths();
    ReadWritten(n, 4);
  }

  /** Part of a frame is no frame. */
  lemma CutFrame(r: WalRecord, n: nat)
    requires Fits(r) && n < |FrameOf(r)|
    ensures !HasFrame(FrameOf(r)[..n])
  {
    if n >= 4 {
      assert FrameOf(r)[..n][..4] == BE(TCP_FRAME_FIXED + |r.keyBuf| + |r.docBuf|, 4);
      Widths();
      ReadWritten(TCP_FRAME_FIXED + |r.keyBuf| + |r.docBuf|, 4);
    }
  }

  lemma FramesDeliver(rs: seq<WalRecord>)
    requires AllFit(rs)
    ensures AllDeliver(Drained, FramesOf(rs), AllFilled(rs))
  {
    forall i | 0 <= i < |rs| ensures Delivers(Drained, FramesOf(rs)[i], AllFilled(rs)[i]) {
      var r := rs[i];
      FrameRoundTrip(r);
      forall tail ensures Drained(FrameOf(r) + tail) == Prepended([Filled(r)], Drained(tail)) {
        FrameFirst(r, tail);
      }
      forall n: nat | n < |FrameOf(r)| ensures Drained(FrameOf(r)[..n]) == Drain([], FrameOf(r)[..n], true) {
        CutFrame(r, n);
      }
    }
  }

  class TCPReplicaClient {
    var buf: Buf
    /** What the handler has been given, in order. */
    var delivered: seq<WalRecord>
    /** The log sequence number of the last record handled; none handled is the source's -1. */
    var ackedLsn: Option<nat>

    constructor ()
      ensures buf == [] && delivered == [] && ackedLsn == None
    {
      buf, delivered, ackedLsn := [], [], None;
    }

    ghost predicate Acked()
      reads this
    {
      ackedLsn == if delivered == [] then None else Some(delivered[|delivered| - 1].lsn)
    }

    method DrainFrames() returns (ok: bool)
      requires Acked()
      modifies this
      ensures Acked() && Drain(delivered, buf, ok) == Prepended(old(delivered), Drained(old(buf)))
    {
      ok := true;
      PrependedTwice(delivered, [], Drained(buf));
      while HasFrame(buf)
        invariant Acked() && ok
        invariant Prepended(delivered, Drained(buf)) == Prepended(old(delivered), Drained(old(buf)))
        decreases |buf|
      {
        var r := DecodeFrame(FirstPayload(buf));
        ghost var rest := AfterFrame(buf);
        buf := AfterFrame(buf);
        if r.None? {
          return false;
        }
        PrependedTwice(delivered, [r.value], Drained(rest));
        delivered := delivered + [r.value];
        ackedLsn := Some(r.value.lsn);
      }
    }

    /** A chunk arrives on the socket. */
    method Receive(chunk: Buf) returns (ok: bool)
      requires Acked()
      modifies this
      ensures Acked() && Drain(delivered, buf, ok) == Prepended(old(delivered), Drained(old(buf) + chunk))
    {
      buf := buf + chunk;
      ok := DrainFrames();
    }
  }

  /**
   * Stream reassembly. However the frames of some records are cut into chunks, and wherever the stream
   * stops, the handler gets the records of the whole frames, in order and with their defaults filled
   * in, and only an incomplete frame stays buffered.
   */
  method Reassemble(chunks: seq<Buf>, ghost rs: seq<WalRecord>)
    returns (delivered: seq<WalRecord>, buffered: Buf, ackedLsn: Option<nat>)
    requires AllFit(rs) && Concat(chunks) <= Concat(FramesOf(rs))
    ensures DrainsTo(FramesOf(rs), AllFilled(rs), |Concat(chunks)|, Drain(delivered, buffered, true))
    ensures ackedLsn == if delivered == [] then None else Some(delivered[|delivered| - 1].lsn)
  {
    FramesDeliver(rs);
    ghost var all := Concat(FramesOf(rs));
    delivered, buffered, ackedLsn := ReceiveAll(chunks, FramesOf(rs), AllFilled(rs), all[|Concat(chunks)|..]);
  }

  /** `unread` is what never arrives. */
  method ReceiveAll(chunks: seq<Buf>, ghost frames: seq<Buf>, ghost rs: seq<WalRecord>, ghost unread: Buf)
    returns (delivered: seq<WalRecord>, buffered: Buf, ackedLsn: Option<nat>)
    requires AllDeliver(Drained, frames, rs) && Concat(chunks) + unread == Concat(frames)
    ensures DrainsTo(frames, rs, |Concat(chunks)|, Drain(delivered, buffered, true))
    ensures ackedLsn == if delivered == [] then None else Some(delivered[|delivered| - 1].lsn)
  {
    var client := new TCPReplicaClient();
    assert chunks[0..] == chunks;
    ghost var arrived: Buf := [];
    var i := 0;
    while i < |chunks|
      invariant 0 <= i <= |chunks| && client.Acked()
      invariant arrived + Concat(chunks[i..]) == Concat(chunks)
      invariant Drained(arrived) == Drain(client.delivered, client.buf, true)
    {
      ghost var rest := Arrival(chunks, i, arrived, unread);
      ReceiveNext(client, chunks[i], arrived, frames, rs, rest);
      arrived := arrived + chunks[i];
      i := i + 1;
    }
    assert arrived == Concat(chunks) by { assert chunks[i..] == [] && arrived + [] == arrived; }
    PrefixDrains(Drained, frames, rs, arrived, unread);
    return client.delivered, client.buf, client.ackedLsn;
  }

  method ReceiveNext(client: TCPReplicaClient, chunk: Buf, ghost arrived: Buf, ghost frames: seq<Buf>,
                     ghost rs: seq<WalRecord>, ghost rest: Buf)
    requires AllDeliver(Drained, frames, rs) && arrived + chunk + rest == Concat(frames)
    requires client.Acked() && Drained(arrived) == Drain(client.delivered, client.buf, true)
    modifies client
    ensures client.Acked() && Drained(arrived + chunk) == Drain(client.delivered, client.buf, true)
  {
    DrainedSplit(arrived, chunk);
    PrefixDrains(Drained, frames, rs, arrived + chunk, rest);
    var ok := client.Receive(chunk);
  }

  lemma Arrival(chunks: seq<Buf>, i: nat, arrived: Buf, unread: Buf) returns (rest: Buf)
    requires i < |chunks| && arrived + Concat(chunks[i..]) == Concat(chunks)
    ensures arrived + chunks[i] + Concat(chunks[i + 1..]) == Concat(chunks)
    ensures arrived + chunks[i] + rest == Concat(chunks) + unread
  {
    var later := Concat(chunks[i + 1..]);
    assert chunks[i..][1..] == chunks[i + 1..];
    Regroup(arrived, chunks[i], later);
    Regroup(arrived + chunks[i], later, unread);
    rest := later + unread;
  }

  lemma Regroup(a: Buf, b: Buf, c: Buf)
    ensures a + (b + c) == a + b + c
  {
  }
}
