/** Records of the write-ahead log. */
module WalFormat {
  import opened Keys
  import opened Options
  import opened Versions
  import opened Bytes
  import opened Framing

  type Checksum = x: nat | x < 0x1_0000_0000

  /** UTF-8, the checksum, and the transaction id packed into a document. */
  datatype WalCodec = WalCodec(
    encodeKey: Key -> Buf,
    decodeKey: Buf -> Key,
    crc: Buf -> Checksum,
    txnOf: Buf -> Option<nat>)

  datatype LogEntry = LogEntry(lsn: nat, key: Key, doc: Buf)

  const WAL_HEADER_SIZE: nat := 18

  function Header(lsn: nat, keyLen: nat, docLen: nat, crc: nat): (h: Buf)
    ensures |h| == WAL_HEADER_SIZE
  {
    BE(lsn, 8) + BE(keyLen, 2) + BE(docLen, 4) + BE(crc, 4)
  }

  /** The bytes `writeWalRecord` appends. */
  function Image(c: WalCodec, e: LogEntry): (b: Buf)
    ensures |b| == WAL_HEADER_SIZE + |c.encodeKey(e.key)| + |e.doc|
  {
    var id := c.encodeKey(e.key);
    Header(e.lsn, |id|, |e.doc|, c.crc(id + e.doc)) + id + e.doc
  }

  /** The fields of an entry's header have room for it; where they have not, writing it throws. */
  predicate FitsHeader(c: WalCodec, e: LogEntry)
  {
    e.lsn < 0x1_0000_0000_0000_0000 && |c.encodeKey(e.key)| < 0x1_0000 && |e.doc| < 0x1_0000_0000
  }

  /** The key survives UTF-8, and everything fits its field. */
  predicate Loggable(c: WalCodec, e: LogEntry)
  {
    && c.decodeKey(c.encodeKey(e.key)) == e.key
    && FitsHeader(c, e)
  }

  /** The header fields: log position, lengths of key and document, checksum. */
  datatype Fields = Fields(lsn: nat, keyLen: nat, docLen: nat, crc: nat)

  /** How the header at the start of a buffer is read. */
  type HeaderReader = Buf -> Fields

  function ReadFields(b: Buf): Fields
  {
    if |b| < WAL_HEADER_SIZE then Fields(0, 0, 0, 0)
    else Fields(ReadBE(b[0..8]), ReadBE(b[8..10]), ReadBE(b[10..14]), ReadBE(b[14..18]))
  }

  /** Where the key ends, and where the record does. */
  function KeyEnd(f: Fields): nat
  {
    WAL_HEADER_SIZE + f.keyLen
  }

  function RecordEnd(f: Fields): nat
  {
    KeyEnd(f) + f.docLen
  }

  predicate HasRecord(rd: HeaderReader, b: Buf)
  {
    WAL_HEADER_SIZE <= |b| && RecordEnd(rd(b)) <= |b|
  }

  function EntryAt(c: WalCodec, b: Buf, f: Fields): LogEntry
    requires RecordEnd(f) <= |b|
  {
    LogEntry(f.lsn, c.decodeKey(b[WAL_HEADER_SIZE..KeyEnd(f)]), b[KeyEnd(f)..RecordEnd(f)])
  }

  predicate IsIntact(c: WalCodec, b: Buf, f: Fields)
    requires RecordEnd(f) <= |b|
  {
    c.crc(b[WAL_HEADER_SIZE..KeyEnd(f)] + b[KeyEnd(f)..RecordEnd(f)]) == f.crc
  }

  /** The records recovery replays: whole ones, up to the first that fails its checksum. */
  function Parsed(c: WalCodec, rd: HeaderReader, b: Buf): Drain<LogEntry>
    decreases |b|
  {
    if !HasRecord(rd, b) then Drain([], b, true)
    else if !IsIntact(c, b, rd(b)) then Drain([], b, false)
    else Prepended([EntryAt(c, b, rd(b))], Parsed(c, rd, b[RecordEnd(rd(b))..]))
  }

  function Parser(c: WalCodec, rd: HeaderReader): Buf -> Drain<LogEntry>
  {
    (b: Buf) => Parsed(c, rd, b)
  }

  function Images(c: WalCodec, es: seq<LogEntry>): (fs: seq<Buf>)
    ensures |fs| == |es|
  {
    seq(|es|, i requires 0 <= i < |es| => Image(c, es[i]))
  }

  ghost predicate AllLoggable(c: WalCodec, es: seq<LogEntry>)
  {
    forall i :: 0 <= i < |es| ==> Loggable(c, es[i])
  }

  lemma HeaderSlices(lsn: nat, keyLen: nat, docLen: nat, crc: nat)
    ensures var h := Header(lsn, keyLen, docLen, crc);
            h[0..8] == BE(lsn, 8) && h[8..10] == BE(keyLen, 2) && h[10..14] == BE(docLen, 4) && h[14..18] == BE(crc, 4)
  {
  }

  lemma HeaderFields(b: Buf, lsn: nat, keyLen: nat, docLen: nat, crc: nat)
    requires |b| >= WAL_HEADER_SIZE && b[..WAL_HEADER_SIZE] == Header(lsn, keyLen, docLen, crc)
    requires lsn < 0x1_0000_0000_0000_0000 && keyLen < 0x1_0000 && docLen < 0x1_0000_0000 && crc < 0x1_0000_0000
    ensures ReadFields(b) == Fields(lsn, keyLen, docLen, crc)
  {
    var h := Header(lsn, keyLen, docLen, crc);
    HeaderSlices(lsn, keyLen, docLen, crc);
    assert b[0..18] == h;
    SliceOfSlice(b, 0, 18, 0, 8);
    SliceOfSlice(b, 0, 18, 8, 10);
    SliceOfSlice(b, 0, 18, 10, 14);
    SliceOfSlice(b, 0, 18, 14, 18);
    Widths();
    ReadWritten(lsn, 8);
    ReadWritten(keyLen, 2);
    ReadWritten(docLen, 4);
    ReadWritten(crc, 4);
  }

  function FieldsOf(c: WalCodec, e: LogEntry): Fields
  {
    var id := c.encodeKey(e.key);
    Fields(e.lsn, |id|, |e.doc|, c.crc(id + e.doc))
  }

  /** The reader finds the fields of each record where one starts, whether or not all of it is there. */
  ghost predicate ReadsHeaders(c: WalCodec, rd: HeaderReader)
  {
    forall e, b :: Loggable(c, e) && StartsRecord(c, e, b) ==> rd(b) == FieldsOf(c, e)
  }

  ghost predicate StartsRecord(c: WalCodec, e: LogEntry, b: Buf)
  {
    |b| >= WAL_HEADER_SIZE && b[..WAL_HEADER_SIZE] == Image(c, e)[..WAL_HEADER_SIZE]
  }

  lemma ReadFieldsReads(c: WalCodec)
    ensures ReadsHeaders(c, ReadFields)
  {
    forall e, b | Loggable(c, e) && StartsRecord(c, e, b) ensures ReadFields(b) == FieldsOf(c, e) {
      var id := c.encodeKey(e.key);
      assert Image(c, e)[..18] == Header(e.lsn, |id|, |e.doc|, c.crc(id + e.doc));
      HeaderFields(b, e.lsn, |id|, |e.doc|, c.crc(id + e.doc));
    }
  }

  lemma RecordFirst(c: WalCodec, rd: HeaderReader, e: LogEntry, tail: Buf)
    requires Loggable(c, e) && ReadsHeaders(c, rd)
    ensures Parsed(c, rd, Image(c, e) + tail) == Prepended([e], Parsed(c, rd, tail))
  {
    var b, id := Image(c, e) + tail, c.encodeKey(e.key);
    assert StartsRecord(c, e, b);
    assert b[18..18 + |id|] == id && b[18 + |id|..18 + |id| + |e.doc|] == e.doc;
    assert b[18 + |id| + |e.doc|..] == tail;
  }

  lemma CutRecord(c: WalCodec, rd: HeaderReader, e: LogEntry, n: nat)
    requires Loggable(c, e) && n < |Image(c, e)| && ReadsHeaders(c, rd)
    ensures !HasRecord(rd, Image(c, e)[..n])
  {
    if n >= WAL_HEADER_SIZE {
      assert Image(c, e)[..n][..WAL_HEADER_SIZE] == Image(c, e)[..WAL_HEADER_SIZE];
      assert StartsRecord(c, e, Image(c, e)[..n]);
    }
  }

  lemma ImagesDeliver(c: WalCodec, rd: HeaderReader, es: seq<LogEntry>)
    requires AllLoggable(c, es) && ReadsHeaders(c, rd)
    ensures AllDeliver(Parser(c, rd), Images(c, es), es)
  {
    forall i | 0 <= i < |es| ensures Delivers(Parser(c, rd), Images(c, es)[i], es[i]) {
      var e := es[i];
      forall tail ensures Parsed(c, rd, Image(c, e) + tail) == Prepended([e], Parsed(c, rd, tail)) {
        RecordFirst(c, rd, e, tail);
      }
      forall n: nat | n < |Image(c, e)| ensures Parsed(c, rd, Image(c, e)[..n]) == Drain([], Image(c, e)[..n], true) {
        CutRecord(c, rd, e, n);
      }
    }
  }

  /** A log torn at any byte parses to exactly its whole records. */
  lemma TornLogParses(c: WalCodec, es: seq<LogEntry>, n: nat)
    requires AllLoggable(c, es) && n <= |Concat(Images(c, es))|
    ensures DrainsTo(Images(c, es), es, n, Parsed(c, ReadFields, Concat(Images(c, es))[..n]))
  {
    ReadFieldsReads(c);
    ImagesDeliver(c, ReadFields, es);
    StreamDrains(Parser(c, ReadFields), Images(c, es), es, n);
  }

  /** A record with a changed byte in its key or document is there, whole, and ends the replay. */
  lemma DamagedRecordStops(c: WalCodec, rd: HeaderReader, e: LogEntry, n: nat, y: Byte, tail: Buf)
    requires Loggable(c, e) && ReadsHeaders(c, rd) && DetectsOneByte(c.crc)
    requires WAL_HEADER_SIZE <= n < |Image(c, e)| && Image(c, e)[n] != y
    ensures Parsed(c, rd, Image(c, e)[n := y] + tail).records == []
  {
    var b, id := Image(c, e)[n := y] + tail, c.encodeKey(e.key);
    assert StartsRecord(c, e, b);
    var f := FieldsOf(c, e);
    assert Image(c, e)[18..] == id + e.doc;
    assert b[18..18 + |id|] + b[18 + |id|..18 + |id| + |e.doc|] == (id + e.doc)[n - 18 := y];
    ChangeIsDetected(c.crc, id + e.doc, n - 18, y);
  }

  /**
   * The checksum does not cover the position: a record with a changed byte in it is another good record, of the
   * same document at another position, and replay goes on.
   */
  lemma PositionChangeUnseen(c: WalCodec, e: LogEntry, n: nat, y: Byte)
    requires Loggable(c, e) && n < 8 && Image(c, e)[n] != y
    ensures exists lsn :: lsn != e.lsn && Loggable(c, e.(lsn := lsn)) && Image(c, e)[n := y] == Image(c, e.(lsn := lsn))
  {
    var b, id := Image(c, e), c.encodeKey(e.key);
    var rest := BE(|id|, 2) + BE(|e.doc|, 4) + BE(c.crc(id + e.doc), 4) + id + e.doc;
    assert b == BE(e.lsn, 8) + rest;
    var changed := BE(e.lsn, 8)[n := y];
    WrittenRead(changed);
    Widths();
    var lsn := ReadBE(changed);
    assert b[n := y] == changed + rest;
    assert Image(c, e.(lsn := lsn)) == BE(lsn, 8) + rest;
  }

  /** A log in which one byte of a key or document is changed parses to exactly the records before that. */
  lemma DamagedLogParses(c: WalCodec, es: seq<LogEntry>, j: nat, n: nat, y: Byte, damaged: Buf)
    requires AllLoggable(c, es) && DetectsOneByte(c.crc) && j < |es|
    requires WAL_HEADER_SIZE <= n < |Image(c, es[j])| && Image(c, es[j])[n] != y
    requires Concat(Images(c, es[..j])) + Image(c, es[j])[n := y] <= damaged
    ensures Parsed(c, ReadFields, damaged).records == es[..j]
  {
    var before, record := Concat(Images(c, es[..j])), Image(c, es[j])[n := y];
    var tail := damaged[|before| + |record|..];
    assert damaged == before + (record + tail);
    ReadFieldsReads(c);
    ImagesDeliver(c, ReadFields, es[..j]);
    FramesFirst(Parser(c, ReadFields), Images(c, es[..j]), es[..j], record + tail);
    DamagedRecordStops(c, ReadFields, es[j], n, y, tail);
    assert es[..j] + [] == es[..j];
  }
}

/** Replaying the log after a crash, against what the writer had written. */
module WalRecovery {
  import opened Keys
  import opened Options
  import opened Versions
  import opened Memtable
  import opened SnapshotRuns
  import opened Collection
  import opened Bytes
  import opened Framing
  import opened WalFormat

  /** What recovery rebuilds. */
  datatype Replayed = Replayed(mem: VersionMap, walLsn: nat, committed: nat, nextTxn: nat)

  /** The newest deletion of a key on disk, by the log position it was written at. */
  type Probe = Key -> Option<nat>

  function TxnOf(c: WalCodec, e: LogEntry): nat
  {
    if c.txnOf(e.doc).Some? then c.txnOf(e.doc).value else e.lsn
  }

  /** A record older than a deletion already on disk only moves the log position. */
  predicate IsSuperseded(probe: Probe, e: LogEntry)
  {
    probe(e.key).Some? && probe(e.key).value >= e.lsn
  }

  ghost function Replay(c: WalCodec, probe: Probe, oldest: nat, st: Replayed, e: LogEntry): Replayed
  {
    var txn, lsn := TxnOf(c, e), Max(e.lsn + 1, st.walLsn);
    if IsSuperseded(probe, e) then st.(walLsn := lsn)
    else Replayed(TableSet(st.mem, e.key, txn, e.doc, oldest), lsn, Max(txn, st.committed), Max(txn + 1, st.nextTxn))
  }

  ghost function ReplayAll(c: WalCodec, probe: Probe, oldest: nat, st: Replayed, es: seq<LogEntry>): Replayed
    decreases |es|
  {
    if es == [] then st else ReplayAll(c, probe, oldest, Replay(c, probe, oldest, st, es[0]), es[1..])
  }

  ghost const FRESH: Replayed := Replayed(map[], 0, 0, 1)

  /** The entry at an offset and where it ends, unless it is torn or fails its checksum. */
  method ReadEntry(c: WalCodec, rd: HeaderReader, buffer: Buf, offset: nat) returns (e: Option<LogEntry>, end: nat)
    requires offset + WAL_HEADER_SIZE <= |buffer|
    ensures e.None? ==> Parsed(c, rd, buffer[offset..]).records == []
    ensures e.Some? ==> offset < end <= |buffer|
                        && Parsed(c, rd, buffer[offset..]).records == [e.value] + Parsed(c, rd, buffer[end..]).records
  {
    var f := rd(buffer[offset..]);
    var start := offset + WAL_HEADER_SIZE;
    if start + f.keyLen + f.docLen > |buffer| {
      return None, offset;
    }
    var keyBuf := buffer[start..start + f.keyLen];
    var docBuf := buffer[start + f.keyLen..start + f.keyLen + f.docLen];
    SuffixSlices(buffer, offset, f);
    if c.crc(keyBuf + docBuf) != f.crc {
      return None, offset;
    }
    return Some(LogEntry(f.lsn, c.decodeKey(keyBuf), docBuf)), start + f.keyLen + f.docLen;
  }

  lemma SuffixSlices(b: Buf, off: nat, f: Fields)
    requires off + RecordEnd(f) <= |b|
    ensures var s, start := b[off..], off + WAL_HEADER_SIZE;
            && s[WAL_HEADER_SIZE..KeyEnd(f)] == b[start..start + f.keyLen]
            && s[KeyEnd(f)..RecordEnd(f)] == b[start + f.keyLen..start + f.keyLen + f.docLen]
            && s[RecordEnd(f)..] == b[start + f.keyLen + f.docLen..]
  {
  }

  class Recovery {
    const memtable: SortedMemtable
    var walLsn: nat
    var committedTxnId: nat
    var nextTxnId: nat

    constructor ()
      ensures Valid() && State() == FRESH && fresh(memtable)
    {
      memtable := new SortedMemtable();
      walLsn, committedTxnId, nextTxnId := 0, 0, 1;
    }

    ghost predicate Valid()
      reads this, memtable
    {
      memtable.Valid()
    }

    ghost function State(): Replayed
      requires Valid()
      reads this, memtable
    {
      Replayed(memtable.Contents(), walLsn, committedTxnId, nextTxnId)
    }

    /** `recoverFromWAL`: replays the records of a log until one is torn or fails its checksum. */
    method RecoverFromWal(c: WalCodec, rd: HeaderReader, probe: Probe, oldest: nat, buffer: Buf)
      requires Valid()
      modifies this, memtable
      ensures Valid() && State() == ReplayAll(c, probe, oldest, old(State()), Parsed(c, rd, buffer).records)
    {
      var offset, done := 0, false;
      assert buffer[0..] == buffer;
      ghost var records := Parsed(c, rd, buffer).records;
      while !done && offset + WAL_HEADER_SIZE <= |buffer|
        invariant offset <= |buffer| && Valid()
        invariant records == if done then [] else Parsed(c, rd, buffer[offset..]).records
        invariant ReplayAll(c, probe, oldest, old(State()), Parsed(c, rd, buffer).records)
                  == ReplayAll(c, probe, oldest, State(), records)
        decreases |buffer| - offset, !done
      {
        var e, end := ReadEntry(c, rd, buffer, offset);
        if e.None? {
          done := true;
        } else {
          records := records[1..];
          ReplayFirst(c, probe, oldest, State(), e.value, records);
          ReplayRecord(c, probe, oldest, e.value);
          offset := end;
        }
      }
    }

    method ReplayRecord(c: WalCodec, probe: Probe, oldest: nat, e: LogEntry)
      requires Valid()
      modifies this, memtable
      ensures Valid() && State() == Replay(c, probe, oldest, old(State()), e)
    {
      if IsSuperseded(probe, e) {
        if e.lsn + 1 > walLsn {
          walLsn := e.lsn + 1;
        }
        return;
      }
      var txnId := TxnOf(c, e);
      memtable.Set(e.key, txnId, e.doc, oldest);
      if e.lsn + 1 > walLsn {
        walLsn := e.lsn + 1;
      }
      if txnId > committedTxnId {
        committedTxnId := txnId;
      }
      if txnId >= nextTxnId {
        nextTxnId := txnId + 1;
      }
    }
  }

  lemma ReplayFirst(c: WalCodec, probe: Probe, oldest: nat, st: Replayed, e: LogEntry, rest: seq<LogEntry>)
    ensures ReplayAll(c, probe, oldest, st, [e] + rest)
            == ReplayAll(c, probe, oldest, Replay(c, probe, oldest, st, e), rest)
  {
  }

  /** What a run of writes leaves: the collection in memory, and the log it wrote. */
  datatype Writer = Writer(mem: VersionMap, walLsn: nat, committed: nat, nextTxn: nat, log: seq<LogEntry>)

  ghost const NEW_WRITER: Writer := Writer(map[], 0, 0, 1, [])

  /** One transaction: its documents, and the oldest open snapshot when they enter the memtable. */
  datatype Transaction = Transaction(writes: seq<Write>, oldest: nat)

  function Logged(writes: seq<Write>, lsn: nat): seq<LogEntry>
    decreases |writes|
  {
    if writes == [] then [] else [LogEntry(lsn, writes[0].key, writes[0].value)] + Logged(writes[1..], lsn + 1)
  }

  /** `upsert` and `commit`: log every document under the next positions, then set it in memory. */
  ghost function Transact(w: Writer, t: Transaction): Writer
  {
    Writer(SetAll(w.mem, t.writes, w.nextTxn, t.oldest), w.walLsn + |t.writes|, Max(w.nextTxn, w.committed),
           w.nextTxn + 1, w.log + Logged(t.writes, w.walLsn))
  }

  /** Every document carries the id of its transaction, and no key is written twice in one. */
  ghost predicate IsStamped(c: WalCodec, w: Writer, t: Transaction)
  {
    && t.writes != [] && DistinctKeys(t.writes)
    && forall i :: 0 <= i < |t.writes| ==> c.txnOf(t.writes[i].value) == Some(w.nextTxn)
  }

  ghost predicate IsHistory(c: WalCodec, w: Writer, ts: seq<Transaction>)
    decreases |ts|
  {
    ts == [] || (IsStamped(c, w, ts[0]) && IsHistory(c, Transact(w, ts[0]), ts[1..]))
  }

  ghost function TransactAll(w: Writer, ts: seq<Transaction>): Writer
    decreases |ts|
  {
    if ts == [] then w else TransactAll(Transact(w, ts[0]), ts[1..])
  }

  /** The document last logged for a key. */
  function LastDoc(es: seq<LogEntry>, key: Key): Option<Buf>
  {
    if es == [] then None
    else if es[|es| - 1].key == key then Some(es[|es| - 1].doc)
    else LastDoc(es[..|es| - 1], key)
  }

  /** In front of each key's versions is its last logged document, visible at `committed`. */
  ghost predicate InFront(mem: VersionMap, es: seq<LogEntry>, committed: nat)
  {
    forall key ::
      && (key in mem <==> LastDoc(es, key).Some?)
      && (key in mem ==> mem[key] != [] && mem[key][0].txn <= committed && LastDoc(es, key) == Some(mem[key][0].value))
  }

  lemma InFrontReads(mem: VersionMap, es: seq<LogEntry>, committed: nat, key: Key)
    requires InFront(mem, es, committed)
    ensures TableRead(mem, key, committed) == LastDoc(es, key)
  {
  }

  lemma InFrontNext(mem: VersionMap, es: seq<LogEntry>, committed: nat, e: LogEntry, txn: nat, oldest: nat)
    requires InFront(mem, es, committed)
    ensures InFront(TableSet(mem, e.key, txn, e.doc, oldest), es + [e], Max(txn, committed))
  {
    var vs := [Version(txn, e.doc)] + (if e.key in mem then mem[e.key] else []);
    TrimmedNonempty(vs, oldest);
    assert (es + [e])[..|es|] == es;
  }

  /** The entries written after any deletion of their key that is on disk already. */
  function NotDeleted(probe: Probe, es: seq<LogEntry>): seq<LogEntry>
  {
    if es == [] then []
    else
      var n := |es| - 1;
      var front, deletion := NotDeleted(probe, es[..n]), probe(es[n].key);
      if deletion.Some? && es[n].lsn <= deletion.value then front else front + [es[n]]
  }

  /** What recovery has rebuilt after replaying some records. */
  ghost predicate Rebuilt(c: WalCodec, probe: Probe, st: Replayed, es: seq<LogEntry>)
  {
    && InFront(st.mem, NotDeleted(probe, es), st.committed)
    && st.committed + 1 == st.nextTxn
    && (forall e :: e in es ==> e.lsn < st.walLsn)
    && (forall e :: e in NotDeleted(probe, es) ==> TxnOf(c, e) < st.nextTxn)
    && (st.walLsn == 0 || exists e :: e in es && e.lsn + 1 == st.walLsn)
    && (st.committed == 0 || exists e :: e in NotDeleted(probe, es) && TxnOf(c, e) == st.committed)
  }

  lemma RebuildsNext(c: WalCodec, probe: Probe, oldest: nat, st: Replayed, done: seq<LogEntry>, e: LogEntry)
    requires Rebuilt(c, probe, st, done)
    ensures Rebuilt(c, probe, Replay(c, probe, oldest, st, e), done + [e])
  {
    var kept := NotDeleted(probe, done);
    assert (done + [e])[..|done|] == done;
    assert forall x :: x in done + [e] <==> x in done || x == e;
    if !IsSuperseded(probe, e) {
      InFrontNext(st.mem, kept, st.committed, e, TxnOf(c, e), oldest);
      assert NotDeleted(probe, done + [e]) == kept + [e];
      assert forall x :: x in kept + [e] <==> x in kept || x == e;
    }
  }

  lemma {:induction false} ReplayRebuilds(c: WalCodec, probe: Probe, oldest: nat, st: Replayed, done: seq<LogEntry>,
                                          es: seq<LogEntry>)
    requires Rebuilt(c, probe, st, done)
    ensures Rebuilt(c, probe, ReplayAll(c, probe, oldest, st, es), done + es)
    decreases |es|
  {
    if es == [] {
      assert done + es == done;
    } else {
      var e, rest := es[0], es[1..];
      assert es == [e] + rest;
      Snoc(done, e, rest);
      RebuildsNext(c, probe, oldest, st, done, e);
      ReplayRebuilds(c, probe, oldest, Replay(c, probe, oldest, st, e), done + [e], rest);
    }
  }

  lemma Snoc(es: seq<LogEntry>, e: LogEntry, rest: seq<LogEntry>)
    ensures es + [e] + rest == es + ([e] + rest)
  {
  }

  lemma {:induction false} SetAllInFront(mem: VersionMap, es: seq<LogEntry>, committed: nat, writes: seq<Write>,
                                         txn: nat, oldest: nat, lsn: nat)
    requires InFront(mem, es, committed) && txn >= committed
    ensures InFront(SetAll(mem, writes, txn, oldest), es + Logged(writes, lsn), if writes == [] then committed else txn)
    decreases |writes|
  {
    if writes == [] {
      assert es + [] == es;
    } else {
      var e := LogEntry(lsn, writes[0].key, writes[0].value);
      InFrontNext(mem, es, committed, e, txn, oldest);
      SetAllInFront(TableSet(mem, e.key, txn, e.doc, oldest), es + [e], txn, writes[1..], txn, oldest, lsn + 1);
      Snoc(es, e, Logged(writes[1..], lsn + 1));
    }
  }

  /** What every run of the writer keeps. */
  ghost predicate WriterInv(c: WalCodec, w: Writer)
  {
    && InFront(w.mem, w.log, w.committed) && w.committed + 1 == w.nextTxn && w.walLsn == |w.log|
    && forall i :: 0 <= i < |w.log| ==>
         w.log[i].lsn == i && c.txnOf(w.log[i].doc).Some? && TxnOf(c, w.log[i]) < w.nextTxn
  }

  lemma {:induction false} LoggedAt(writes: seq<Write>, lsn: nat)
    ensures |Logged(writes, lsn)| == |writes|
    ensures forall i :: 0 <= i < |writes| ==>
              Logged(writes, lsn)[i] == LogEntry(lsn + i, writes[i].key, writes[i].value)
    decreases |writes|
  {
    if writes != [] {
      LoggedAt(writes[1..], lsn + 1);
    }
  }

  lemma TransactKeeps(c: WalCodec, w: Writer, t: Transaction)
    requires WriterInv(c, w) && IsStamped(c, w, t)
    ensures WriterInv(c, Transact(w, t))
  {
    SetAllInFront(w.mem, w.log, w.committed, t.writes, w.nextTxn, t.oldest, w.walLsn);
    LoggedAt(t.writes, w.walLsn);
  }

  lemma {:induction false} HistoryKeeps(c: WalCodec, w: Writer, ts: seq<Transaction>)
    requires WriterInv(c, w) && IsHistory(c, w, ts)
    ensures WriterInv(c, TransactAll(w, ts))
    decreases |ts|
  {
    if ts != [] {
      TransactKeeps(c, w, ts[0]);
      HistoryKeeps(c, Transact(w, ts[0]), ts[1..]);
    }
  }

  /** The writer reads, at its latest point, the document it last logged for each key. */
  lemma WriterReadsLog(c: WalCodec, ts: seq<Transaction>, key: Key)
    requires IsHistory(c, NEW_WRITER, ts)
    ensures var w := TransactAll(NEW_WRITER, ts); TableRead(w.mem, key, w.committed) == LastDoc(w.log, key)
  {
    HistoryKeeps(c, NEW_WRITER, ts);
    var w := TransactAll(NEW_WRITER, ts);
    InFrontReads(w.mem, w.log, w.committed, key);
  }

  lemma RebuiltFromFresh(c: WalCodec, probe: Probe, oldest: nat, es: seq<LogEntry>)
    ensures var st := ReplayAll(c, probe, oldest, FRESH, es);
            && Rebuilt(c, probe, st, es)
            && forall key :: TableRead(st.mem, key, st.committed) == LastDoc(NotDeleted(probe, es), key)
  {
    ReplayRebuilds(c, probe, oldest, FRESH, [], es);
    assert [] + es == es;
    var st := ReplayAll(c, probe, oldest, FRESH, es);
    forall key ensures TableRead(st.mem, key, st.committed) == LastDoc(NotDeleted(probe, es), key) {
      InFrontReads(st.mem, NotDeleted(probe, es), st.committed, key);
    }
  }

  /** Positions ascend along the log. */
  ghost predicate InSequence(es: seq<LogEntry>)
  {
    forall i, j :: 0 <= i < j < |es| ==> es[i].lsn < es[j].lsn
  }

  /** The position of the entry last logged for a key. */
  function LastLsn(es: seq<LogEntry>, key: Key): (lsn: Option<nat>)
    ensures lsn.Some? <==> LastDoc(es, key).Some?
  {
    if es == [] then None
    else if es[|es| - 1].key == key then Some(es[|es| - 1].lsn)
    else LastLsn(es[..|es| - 1], key)
  }

  /** What the log says of a key, next to a deletion of it on disk: its last document, if that was written later. */
  ghost function Recovered(probe: Probe, es: seq<LogEntry>, key: Key): Option<Buf>
  {
    var last, deletion := LastLsn(es, key), probe(key);
    if last.Some? && deletion.Some? && last.value <= deletion.value then None else LastDoc(es, key)
  }

  /**
   * A document is left out exactly when a deletion at its position or later is on disk; one that was written
   * again after the deletion is recovered.
   */
  lemma {:induction false} RewrittenIsRecovered(probe: Probe, es: seq<LogEntry>, key: Key)
    requires InSequence(es)
    ensures LastDoc(NotDeleted(probe, es), key) == Recovered(probe, es, key)
    decreases |es|
  {
    if es != [] {
      var n := |es| - 1;
      var front := NotDeleted(probe, es[..n]);
      RewrittenIsRecovered(probe, es[..n], key);
      assert (front + [es[n]])[..|front|] == front;
      if es[n].key == key && LastLsn(es[..n], key).Some? {
        LastLsnAt(es[..n], key);
      }
    }
  }

  lemma {:induction false} LastLsnAt(es: seq<LogEntry>, key: Key)
    requires LastLsn(es, key).Some?
    ensures exists i :: 0 <= i < |es| && es[i].key == key && es[i].lsn == LastLsn(es, key).value
    decreases |es|
  {
    var n := |es| - 1;
    if es[n].key != key {
      LastLsnAt(es[..n], key);
      var i :| 0 <= i < n && es[..n][i].key == key && es[..n][i].lsn == LastLsn(es, key).value;
      assert es[i] == es[..n][i];
    }
  }

  lemma NextPosition(c: WalCodec, probe: Probe, w: Writer, st: Replayed, k: nat)
    requires WriterInv(c, w) && k <= |w.log| && Rebuilt(c, probe, st, w.log[..k])
    ensures st.walLsn == k
  {
    if k > 0 {
      assert w.log[..k][k - 1] in w.log[..k];
    }
  }

  /** What a recovery must bring back of the first `k` entries of a run's log. */
  ghost predicate Recovers(c: WalCodec, probe: Probe, st: Replayed, log: seq<LogEntry>, k: nat)
    requires k <= |log|
  {
    && Rebuilt(c, probe, st, log[..k]) && st.walLsn == k
    && forall key :: TableRead(st.mem, key, st.committed) == Recovered(probe, log[..k], key)
  }

  lemma ReplayRecovers(c: WalCodec, probe: Probe, oldest: nat, ts: seq<Transaction>, k: nat)
    requires IsHistory(c, NEW_WRITER, ts) && k <= |TransactAll(NEW_WRITER, ts).log|
    ensures var log := TransactAll(NEW_WRITER, ts).log;
            Recovers(c, probe, ReplayAll(c, probe, oldest, FRESH, log[..k]), log, k)
  {
    var w := TransactAll(NEW_WRITER, ts);
    var es := w.log[..k];
    RebuiltFromFresh(c, probe, oldest, es);
    HistoryKeeps(c, NEW_WRITER, ts);
    NextPosition(c, probe, w, ReplayAll(c, probe, oldest, FRESH, es), k);
    assert forall i :: 0 <= i < |es| ==> es[i].lsn == i;
    forall key ensures LastDoc(NotDeleted(probe, es), key) == Recovered(probe, es, key) {
      RewrittenIsRecovered(probe, es, key);
    }
  }

  /**
   * Torn-log recovery. Cut the log of any run at any byte: recovery replays exactly the records wholly
   * before the cut, each key reads what the writer had logged last by then, unless a later deletion of it is on
   * disk, and new log positions and transaction ids start above every replayed one.
   */
  method RecoverTornLog(c: WalCodec, probe: Probe, oldest: nat, ghost ts: seq<Transaction>, torn: Buf)
    returns (r: Recovery, ghost k: nat)
    requires IsHistory(c, NEW_WRITER, ts) && AllLoggable(c, TransactAll(NEW_WRITER, ts).log)
    requires torn <= Concat(Images(c, TransactAll(NEW_WRITER, ts).log))
    ensures fresh(r) && r.Valid()
    ensures var log := TransactAll(NEW_WRITER, ts).log;
            && k == Whole(Images(c, log), |torn|)
            && Parsed(c, ReadFields, torn).records == log[..k] && Recovers(c, probe, r.State(), log, k)
  {
    r := new Recovery();
    ghost var log := TransactAll(NEW_WRITER, ts).log;
    TornLogParses(c, log, |torn|);
    assert Concat(Images(c, log))[..|torn|] == torn;
    k := Whole(Images(c, log), |torn|);
    r.RecoverFromWal(c, ReadFields, probe, oldest, torn);
    ReplayRecovers(c, probe, oldest, ts, k);
  }

  /**
   * Damaged-log recovery, with a checksum that tells one-byte changes apart. Change one byte of the key or the
   * document of any record in the log of any run, and whatever comes behind that record: recovery replays exactly
   * the records before it.
   */
  method RecoverDamagedLog(c: WalCodec, probe: Probe, oldest: nat, ghost ts: seq<Transaction>, damaged: Buf,
                           ghost j: nat, ghost n: nat, ghost y: Byte)
    returns (r: Recovery)
    requires IsHistory(c, NEW_WRITER, ts) && AllLoggable(c, TransactAll(NEW_WRITER, ts).log)
    requires DetectsOneByte(c.crc) && j < |TransactAll(NEW_WRITER, ts).log|
    requires var log := TransactAll(NEW_WRITER, ts).log;
             && WAL_HEADER_SIZE <= n < |Image(c, log[j])| && Image(c, log[j])[n] != y
             && Concat(Images(c, log[..j])) + Image(c, log[j])[n := y] <= damaged
    ensures fresh(r) && r.Valid()
    ensures var log := TransactAll(NEW_WRITER, ts).log;
            Parsed(c, ReadFields, damaged).records == log[..j] && Recovers(c, probe, r.State(), log, j)
  {
    r := new Recovery();
    ghost var log := TransactAll(NEW_WRITER, ts).log;
    DamagedLogParses(c, log, j, n, y, damaged);
    r.RecoverFromWal(c, ReadFields, probe, oldest, damaged);
    ReplayRecovers(c, probe, oldest, ts, j);
  }

  lemma {:induction false} ConcatTwo(a: seq<Buf>, b: seq<Buf>)
    ensures Concat(a + b) == Concat(a) + Concat(b)
  {
    if a == [] {
      assert a + b == b;
    } else {
      assert (a + b)[1..] == a[1..] + b;
      ConcatTwo(a[1..], b);
    }
  }

  lemma ImagesTwo(c: WalCodec, a: seq<LogEntry>, b: seq<LogEntry>)
    ensures Concat(Images(c, a + b)) == Concat(Images(c, a)) + Concat(Images(c, b))
  {
    assert Images(c, a + b) == Images(c, a) + Images(c, b);
    ConcatTwo(Images(c, a), Images(c, b));
  }

  lemma ImagesOne(c: WalCodec, e: LogEntry)
    ensures Concat(Images(c, [e])) == Image(c, e)
  {
    assert Images(c, [e]) == [Image(c, e)] && [Image(c, e)][1..] == [];
  }

  ghost predicate AllFitHeaders(c: WalCodec, es: seq<LogEntry>)
  {
    forall i :: 0 <= i < |es| ==> FitsHeader(c, es[i])
  }

  /** The header is filled in field by field, then key and document follow. */
  method EncodeRecord(c: WalCodec, e: LogEntry) returns (record: Option<Buf>)
    ensures record == if FitsHeader(c, e) then Some(Image(c, e)) else None
  {
    if !FitsHeader(c, e) {
      return None;
    }
    var id := c.encodeKey(e.key);
    var header, off := Zeros(WAL_HEADER_SIZE), 0;
    ghost var w: Buf := [];
    off, header, w := PutBytes(w, BE(e.lsn, 8), off, header);
    off, header, w := PutBytes(w, BE(|id|, 2), off, header);
    off, header, w := PutBytes(w, BE(|e.doc|, 4), off, header);
    off, header, w := PutBytes(w, BE(c.crc(id + e.doc), 4), off, header);
    assert header == Header(e.lsn, |id|, |e.doc|, c.crc(id + e.doc));
    record := Some(header + id + e.doc);
  }

  /** The writing side of a collection without tables: its memtable, and the log file. */
  class LogWriter {
    const memtable: SortedMemtable
    var file: Buf
    var walLsn: nat
    var nextTxnId: nat
    var committedTxnId: nat
    ghost var log: seq<LogEntry>

    constructor (c: WalCodec)
      ensures Valid(c) && State() == NEW_WRITER && fresh(memtable)
    {
      memtable := new SortedMemtable();
      file, walLsn, nextTxnId, committedTxnId, log := [], 0, 1, 0, [];
    }

    /** The file is the images of the entries logged, one after the other. */
    ghost predicate Valid(c: WalCodec)
      reads this, memtable
    {
      memtable.Valid() && file == Concat(Images(c, log))
    }

    ghost function State(): Writer
      requires memtable.Valid()
      reads this, memtable
    {
      Writer(memtable.Contents(), walLsn, committedTxnId, nextTxnId, log)
    }

    /**
     * `commit`, and `upsert` for a single document: the records reach the log together, then the memtable. If
     * one does not fit its header nothing is written, but its transaction id and some positions are used up.
     */
    method Commit(c: WalCodec, writes: seq<Write>, oldest: nat) returns (ok: bool)
      requires Valid(c)
      modifies this, memtable
      ensures Valid(c) && (ok <==> AllFitHeaders(c, Logged(writes, old(walLsn))))
      ensures ok ==> State() == Transact(old(State()), Transaction(writes, oldest))
      ensures !ok ==> old(walLsn) < walLsn <= old(walLsn) + |writes|
                      && State() == old(State()).(walLsn := walLsn, nextTxn := old(nextTxnId) + 1)
    {
      var txnId := nextTxnId;
      nextTxnId := nextTxnId + 1;
      ghost var es := Logged(writes, walLsn);
      var batch := EncodeAll(c, writes);
      ok := batch.Some?;
      if ok {
        AppendBatch(c, batch.value, es);
        committedTxnId := if txnId > committedTxnId then txnId else committedTxnId;
        NovaCollection.WriteAll(memtable, writes, txnId, oldest);
      }
    }

    method AppendBatch(c: WalCodec, batch: Buf, ghost es: seq<LogEntry>)
      requires Valid(c) && batch == Concat(Images(c, es))
      modifies `file, `log
      ensures Valid(c) && log == old(log) + es
    {
      ImagesTwo(c, log, es);
      file, log := file + batch, log + es;
    }

    /** The records of a transaction, each under the next position. */
    method EncodeAll(c: WalCodec, writes: seq<Write>) returns (batch: Option<Buf>)
      modifies `walLsn
      ensures batch.Some? <==> AllFitHeaders(c, Logged(writes, old(walLsn)))
      ensures batch.Some? ==> batch.value == Concat(Images(c, Logged(writes, old(walLsn))))
                              && walLsn == old(walLsn) + |writes|
      ensures batch.None? ==> old(walLsn) < walLsn <= old(walLsn) + |writes|
    {
      var records: Buf, i := [], 0;
      ghost var done: seq<LogEntry> := [];
      while i < |writes|
        invariant 0 <= i <= |writes| && walLsn == old(walLsn) + i && |done| == i
        invariant AllFitHeaders(c, done) && records == Concat(Images(c, done))
        invariant done + Logged(writes[i..], walLsn) == Logged(writes, old(walLsn))
      {
        var e := LogEntry(walLsn, writes[i].key, writes[i].value);
        walLsn := walLsn + 1;
        assert writes[i..][1..] == writes[i + 1..];
        Snoc(done, e, Logged(writes[i + 1..], walLsn));
        var record := EncodeRecord(c, e);
        if record.None? {
          assert Logged(writes, old(walLsn))[i] == e;
          return None;
        }
        ImagesTwo(c, done, [e]);
        ImagesOne(c, e);
        records, done := records + record.value, done + [e];
        i := i + 1;
      }
      assert done + [] == done;
      return Some(records);
    }
  }
}

/** CRC32C as the checksum of log records, whatever way bytes and checksums are written as bits and numbers. */
module LogChecksums {
  import opened Versions
  import opened Bytes
  import opened WalFormat
  import Crc32c

  const INITIAL: bv32 := 0xffff_ffff

  function AllBits(bits: Byte -> bv8, b: Buf): (v: seq<bv8>)
    ensures |v| == |b|
  {
    seq(|b|, i requires 0 <= i < |b| => bits(b[i]))
  }

  function CrcOf(bits: Byte -> bv8, number: bv32 -> Checksum): Buf -> Checksum
  {
    (b: Buf) => number(Crc32c.Checksum(AllBits(bits, b), INITIAL))
  }

  /** It tells one-byte changes apart. */
  lemma CrcDetectsOneByte(bits: Byte -> bv8, number: bv32 -> Checksum)
    requires forall x, y :: x != y ==> bits(x) != bits(y)
    requires forall c, d :: c != d ==> number(c) != number(d)
    ensures DetectsOneByte(CrcOf(bits, number))
  {
    var crc := CrcOf(bits, number);
    forall a: Buf, x, y, b: Buf | x != y ensures crc(a + [x] + b) != crc(a + [y] + b) {
      assert AllBits(bits, a + [x] + b) == AllBits(bits, a) + ([bits(x)] + AllBits(bits, b));
      assert AllBits(bits, a + [y] + b) == AllBits(bits, a) + ([bits(y)] + AllBits(bits, b));
      Crc32c.OneByteChangeDetected(AllBits(bits, a), bits(x), bits(y), AllBits(bits, b), INITIAL);
    }
  }
}
