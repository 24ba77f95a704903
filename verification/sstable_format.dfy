/** Records laid one after another, and the sparse index over the blocks they fall into. */
module Layout {
  import opened Keys
  import opened Versions
  import opened Runs

  /** How one record is written, in at least one byte; the layout is the same whatever the format. */
  type Encoder = rec: Item -> Buf | forall item :: rec(item) != [] witness (item: Item) => [0]

  type SparseIndex = seq<(Key, nat)>

  function DataOf(rec: Encoder, run: Run): Buf
  {
    if run == [] then [] else DataOf(rec, run[..|run| - 1]) + rec(run[|run| - 1])
  }

  function Offset(rec: Encoder, run: Run, i: nat): nat
    requires i <= |run|
  {
    |DataOf(rec, run[..i])|
  }

  lemma {:induction false} DataConcat(rec: Encoder, a: Run, b: Run)
    ensures DataOf(rec, a + b) == DataOf(rec, a) + DataOf(rec, b)
  {
    if b == [] {
      assert a + b == a;
    } else {
      var b' := b[..|b| - 1];
      assert (a + b)[..|a + b| - 1] == a + b';
      DataConcat(rec, a, b');
    }
  }

  /** Cutting the data at two record boundaries gives the data of the records between them. */
  lemma DataSlice(rec: Encoder, run: Run, i: nat, j: nat)
    requires i <= j <= |run|
    ensures Offset(rec, run, i) <= Offset(rec, run, j) <= |DataOf(rec, run)|
    ensures DataOf(rec, run)[Offset(rec, run, i)..Offset(rec, run, j)] == DataOf(rec, run[i..j])
    ensures Offset(rec, run, |run|) == |DataOf(rec, run)|
  {
    assert run == run[..i] + run[i..j] + run[j..];
    assert run[..j] == run[..i] + run[i..j];
    assert run[..|run|] == run;
    DataConcat(rec, run[..i], run[i..j]);
    DataConcat(rec, run[..j], run[j..]);
  }

  lemma OffsetStep(rec: Encoder, run: Run, i: nat)
    requires i < |run|
    ensures Offset(rec, run, i + 1) == Offset(rec, run, i) + |rec(run[i])|
    ensures Offset(rec, run, i + 1) <= |DataOf(rec, run)|
    ensures DataOf(rec, run)[Offset(rec, run, i)..Offset(rec, run, i + 1)] == rec(run[i])
  {
    DataSlice(rec, run, i, i + 1);
    assert run[..i + 1][..i] == run[..i];
    assert run[i..i + 1] == [run[i]];
    assert [run[i]][..0] == [];
    assert DataOf(rec, [run[i]]) == rec(run[i]);
  }

  lemma {:induction false} OffsetsIncrease(rec: Encoder, run: Run, i: nat, j: nat)
    requires i < j <= |run|
    ensures Offset(rec, run, i) < Offset(rec, run, j)
  {
    OffsetStep(rec, run, j - 1);
    if i < j - 1 {
      OffsetsIncrease(rec, run, i, j - 1);
    }
  }

  function LastBoundary(blockSize: nat, index: SparseIndex): int
  {
    if index == [] then -(blockSize as int) else index[|index| - 1].1
  }

  /** The sparse index of a run: one entry for each record that opens a block. */
  function IndexOf(rec: Encoder, blockSize: nat, run: Run): SparseIndex
  {
    if run == [] then []
    else
      var before := run[..|run| - 1];
      var index := IndexOf(rec, blockSize, before);
      var offset := |DataOf(rec, before)|;
      if offset - LastBoundary(blockSize, index) >= blockSize then index + [(run[|run| - 1].key, offset)] else index
  }

  /** The numbers of the records that open a block. */
  ghost function Marks(rec: Encoder, blockSize: nat, run: Run): (m: seq<nat>)
    ensures |m| == |IndexOf(rec, blockSize, run)|
  {
    if run == [] then []
    else
      var before := run[..|run| - 1];
      var m := Marks(rec, blockSize, before);
      if |IndexOf(rec, blockSize, run)| > |m| then m + [|before|] else m
  }

  /** Index entry `i` names the key and offset of record `m[i]`; the first record is always marked. */
  ghost predicate Indexes(rec: Encoder, run: Run, m: seq<nat>, index: SparseIndex)
  {
    && |m| == |index|
    && (forall i :: 0 <= i < |m| ==> m[i] < |run|)
    && (forall i :: 0 <= i < |m| ==> index[i].0 == run[m[i]].key)
    && (forall i :: 0 <= i < |m| ==> index[i].1 == Offset(rec, run, m[i]))
    && (forall i, j :: 0 <= i < j < |m| ==> m[i] < m[j])
    && (run != [] ==> m != [] && m[0] == 0)
  }

  lemma IndexesLonger(rec: Encoder, run: Run, m: seq<nat>, index: SparseIndex)
    requires run != [] && Indexes(rec, run[..|run| - 1], m, index)
    ensures m != [] ==> Indexes(rec, run, m, index)
    ensures Indexes(rec, run, m + [|run| - 1], index + [(run[|run| - 1].key, |DataOf(rec, run[..|run| - 1])|)])
  {
    var before := run[..|run| - 1];
    forall i | 0 <= i < |m| ensures index[i].1 == Offset(rec, run, m[i]) && index[i].0 == run[m[i]].key {
      assert before[..m[i]] == run[..m[i]];
    }
  }

  lemma {:induction false} MarksMatch(rec: Encoder, blockSize: nat, run: Run)
    ensures Indexes(rec, run, Marks(rec, blockSize, run), IndexOf(rec, blockSize, run))
  {
    if run != [] {
      var before := run[..|run| - 1];
      MarksMatch(rec, blockSize, before);
      IndexesLonger(rec, run, Marks(rec, blockSize, before), IndexOf(rec, blockSize, before));
      if before == [] {
        assert DataOf(rec, before) == [];
      }
    }
  }

  /** One more record extends the data, and the index exactly when it opens a block. */
  lemma IndexStep(rec: Encoder, blockSize: nat, run: Run, item: Item)
    ensures DataOf(rec, run + [item]) == DataOf(rec, run) + rec(item)
    ensures IndexOf(rec, blockSize, run + [item]) ==
            if |DataOf(rec, run)| - LastBoundary(blockSize, IndexOf(rec, blockSize, run)) >= blockSize
            then IndexOf(rec, blockSize, run) + [(item.key, |DataOf(rec, run)|)]
            else IndexOf(rec, blockSize, run)
  {
    var r := run + [item];
    assert r[..|r| - 1] == run;
  }
}

/** The bytes of one SSTable record. */
module RecordFormat {
  import opened Keys
  import opened Options
  import opened Versions
  import opened Runs
  import opened Bytes
  import opened Layout

  type Word = x: nat | x < 0x1_0000_0000

  /** The library calls of the storage engine: UTF-8, deflate, the checksum and the index packer. */
  datatype Codec = Codec(
    encodeKey: Key -> Buf,
    decodeKey: Buf -> Key,
    deflate: Buf -> Buf,
    inflate: Buf -> Buf,
    crc: Buf -> Word,
    packIndex: SparseIndex -> Buf,
    unpackIndex: Buf -> SparseIndex)

  datatype Config = Config(blockSize: nat, blockCompression: bool)

  const RECORD_HEADER_SIZE: nat := 11

  /** The stored document bytes and the flags byte: compressed only where that is shorter. */
  function StoredDoc(c: Codec, cfg: Config, raw: Buf): (Buf, Byte)
  {
    if cfg.blockCompression && |c.deflate(raw)| < |raw| then (c.deflate(raw), 1) else (raw, 0)
  }

  function LoadedDoc(c: Codec, flags: Byte, doc: Buf): Buf
  {
    if flags % 2 == 1 then c.inflate(doc) else doc
  }

  function Header(keyLen: nat, docLen: nat, crc: nat, flags: Byte): (h: Buf)
    ensures |h| == RECORD_HEADER_SIZE
  {
    BE(keyLen, 2) + BE(docLen, 4) + BE(crc, 4) + [flags]
  }

  function Record(c: Codec, cfg: Config, item: Item): (r: Buf)
    ensures |r| == RECORD_HEADER_SIZE + |c.encodeKey(item.key)| + |StoredDoc(c, cfg, item.value).0|
  {
    var id := c.encodeKey(item.key);
    var (doc, flags) := StoredDoc(c, cfg, item.value);
    Header(|id|, |doc|, c.crc(id + item.value), flags) + id + doc
  }

  /** The key survives UTF-8, the document survives deflate, and both fit their length fields. */
  ghost predicate Storable(c: Codec, cfg: Config, item: Item)
  {
    && c.decodeKey(c.encodeKey(item.key)) == item.key
    && c.inflate(c.deflate(item.value)) == item.value
    && |c.encodeKey(item.key)| < 0x1_0000
    && |StoredDoc(c, cfg, item.value).0| < 0x1_0000_0000
  }

  ghost predicate AllStorable(c: Codec, cfg: Config, run: Run)
  {
    forall i {:trigger Storable(c, cfg, run[i])} :: 0 <= i < |run| ==> Storable(c, cfg, run[i])
  }

  function Records(c: Codec, cfg: Config): Encoder
  {
    (item: Item) => Record(c, cfg, item)
  }

  lemma HeaderFields(b: Buf, pos: nat, keyLen: nat, docLen: nat, crc: nat, flags: Byte)
    requires pos + RECORD_HEADER_SIZE <= |b|
    requires b[pos..pos + RECORD_HEADER_SIZE] == Header(keyLen, docLen, crc, flags)
    requires keyLen < 0x1_0000 && docLen < 0x1_0000_0000 && crc < 0x1_0000_0000
    ensures ReadBE(b[pos..pos + 2]) == keyLen
    ensures ReadBE(b[pos + 2..pos + 6]) == docLen
    ensures ReadBE(b[pos + 6..pos + 10]) == crc
    ensures b[pos + 10] == flags
  {
    var h := b[pos..pos + RECORD_HEADER_SIZE];
    var k, d, s := BE(keyLen, 2), BE(docLen, 4), BE(crc, 4);
    assert h == k + d + s + [flags];
    assert h[0..2] == k && h[2..6] == d && h[6..10] == s;
    SliceOfSlice(b, pos, pos + RECORD_HEADER_SIZE, 0, 2);
    SliceOfSlice(b, pos, pos + RECORD_HEADER_SIZE, 2, 6);
    SliceOfSlice(b, pos, pos + RECORD_HEADER_SIZE, 6, 10);
    assert b[pos + 10] == h[10];
    Widths();
    ReadWritten(keyLen, 2);
    ReadWritten(docLen, 4);
    ReadWritten(crc, 4);
  }

  /** What a reader finds field by field where a record was written. */
  lemma RecordFields(c: Codec, cfg: Config, item: Item, b: Buf, pos: nat)
    requires Storable(c, cfg, item)
    requires pos + |Record(c, cfg, item)| <= |b|
    requires b[pos..pos + |Record(c, cfg, item)|] == Record(c, cfg, item)
    ensures var keyLen, docLen := ReadBE(b[pos..pos + 2]), ReadBE(b[pos + 2..pos + 6]);
            var p := pos + RECORD_HEADER_SIZE;
            && p + keyLen + docLen == pos + |Record(c, cfg, item)|
            && b[p..p + keyLen] == c.encodeKey(item.key)
            && LoadedDoc(c, b[pos + 10], b[p + keyLen..p + keyLen + docLen]) == item.value
            && ReadBE(b[pos + 6..pos + 10]) == c.crc(c.encodeKey(item.key) + item.value)
  {
    var r := Record(c, cfg, item);
    var id := c.encodeKey(item.key);
    var (doc, flags) := StoredDoc(c, cfg, item.value);
    var h := Header(|id|, |doc|, c.crc(id + item.value), flags);
    var p := pos + RECORD_HEADER_SIZE;
    assert r == h + id + doc;
    SliceOfSlice(b, pos, pos + |r|, 0, RECORD_HEADER_SIZE);
    SliceOfSlice(b, pos, pos + |r|, RECORD_HEADER_SIZE, RECORD_HEADER_SIZE + |id|);
    SliceOfSlice(b, pos, pos + |r|, RECORD_HEADER_SIZE + |id|, |r|);
    assert r[0..RECORD_HEADER_SIZE] == h && r[RECORD_HEADER_SIZE..RECORD_HEADER_SIZE + |id|] == id;
    assert r[RECORD_HEADER_SIZE + |id|..|r|] == doc;
    HeaderFields(b, pos, |id|, |doc|, c.crc(id + item.value), flags);
  }

  /**
   * What stands where a record was written: the record, or one with another document or checksum that a reader can tell
   * by its checksum. Its lengths and its key are as they were.
   */
  ghost predicate IsToldApart(c: Codec, cfg: Config, item: Item, bytes: Buf)
  {
    && Storable(c, cfg, item) && |bytes| == |Record(c, cfg, item)|
    && var id, r := c.encodeKey(item.key), Record(c, cfg, item);
    && bytes[..6] == r[..6] && bytes[RECORD_HEADER_SIZE..RECORD_HEADER_SIZE + |id|] == id
    && (bytes != r ==> c.crc(id + LoadedDoc(c, bytes[10], bytes[RECORD_HEADER_SIZE + |id|..])) != ReadBE(bytes[6..10]))
  }

  ghost predicate AllToldApart(c: Codec, cfg: Config, rec: Encoder, run: Run)
  {
    forall i {:trigger rec(run[i])} :: 0 <= i < |run| ==> IsToldApart(c, cfg, run[i], rec(run[i]))
  }

  lemma RecordsAreTold(c: Codec, cfg: Config, run: Run)
    requires AllStorable(c, cfg, run)
    ensures AllToldApart(c, cfg, Records(c, cfg), run)
  {
    forall i {:trigger Records(c, cfg)(run[i])} | 0 <= i < |run|
      ensures IsToldApart(c, cfg, run[i], Records(c, cfg)(run[i]))
    {
      assert Storable(c, cfg, run[i]);
      RecordKey(c, cfg, run[i]);
    }
  }

  lemma RecordKey(c: Codec, cfg: Config, item: Item)
    ensures var id, r := c.encodeKey(item.key), Record(c, cfg, item);
            r[RECORD_HEADER_SIZE..RECORD_HEADER_SIZE + |id|] == id
  {
  }

  /** Where the fields of bytes with a record's lengths and key are. */
  lemma ToldPlaces(c: Codec, cfg: Config, item: Item, bytes: Buf)
    requires IsToldApart(c, cfg, item, bytes)
    ensures var keyLen, docLen := ReadBE(bytes[0..2]), ReadBE(bytes[2..6]);
            keyLen == |c.encodeKey(item.key)| && RECORD_HEADER_SIZE + keyLen + docLen == |bytes|
  {
    var r := Record(c, cfg, item);
    RecordFields(c, cfg, item, r, 0);
    assert r[0..|r|] == r;
    SamePrefix(bytes, r);
  }

  lemma SliceFields(b: Buf, pos: nat, bytes: Buf, keyLen: nat)
    requires pos + |bytes| <= |b| && b[pos..pos + |bytes|] == bytes && RECORD_HEADER_SIZE + keyLen <= |bytes|
    ensures b[pos..pos + 2] == bytes[0..2] && b[pos + 2..pos + 6] == bytes[2..6] && b[pos + 6..pos + 10] == bytes[6..10]
    ensures b[pos + 10] == bytes[10]
    ensures var p := pos + RECORD_HEADER_SIZE;
            && b[p..p + keyLen] == bytes[RECORD_HEADER_SIZE..RECORD_HEADER_SIZE + keyLen]
            && b[p + keyLen..pos + |bytes|] == bytes[RECORD_HEADER_SIZE + keyLen..]
  {
    SliceOfSlice(b, pos, pos + |bytes|, 0, 2);
    SliceOfSlice(b, pos, pos + |bytes|, 2, 6);
    SliceOfSlice(b, pos, pos + |bytes|, 6, 10);
    SliceOfSlice(b, pos, pos + |bytes|, RECORD_HEADER_SIZE, RECORD_HEADER_SIZE + keyLen);
    SliceOfSlice(b, pos, pos + |bytes|, RECORD_HEADER_SIZE + keyLen, |bytes|);
    assert bytes[RECORD_HEADER_SIZE + keyLen..|bytes|] == bytes[RECORD_HEADER_SIZE + keyLen..];
  }

  /** What a reader finds where such bytes stand; by the checksum it knows whether they are the record. */
  lemma ToldFields(c: Codec, cfg: Config, item: Item, bytes: Buf, b: Buf, pos: nat)
    requires IsToldApart(c, cfg, item, bytes)
    requires pos + |bytes| <= |b| && b[pos..pos + |bytes|] == bytes
    ensures var keyLen, docLen := ReadBE(b[pos..pos + 2]), ReadBE(b[pos + 2..pos + 6]);
            var p := pos + RECORD_HEADER_SIZE;
            && p + keyLen + docLen == pos + |bytes|
            && b[p..p + keyLen] == c.encodeKey(item.key)
            && var doc := LoadedDoc(c, b[pos + 10], b[p + keyLen..p + keyLen + docLen]);
            && (c.crc(b[p..p + keyLen] + doc) == ReadBE(b[pos + 6..pos + 10]) <==> bytes == Record(c, cfg, item))
            && (bytes == Record(c, cfg, item) ==> doc == item.value)
  {
    ToldPlaces(c, cfg, item, bytes);
    SliceFields(b, pos, bytes, |c.encodeKey(item.key)|);
    if bytes == Record(c, cfg, item) {
      RecordFields(c, cfg, item, b, pos);
    }
  }

  lemma SamePrefix(a: Buf, b: Buf)
    requires |a| >= 6 && |b| >= 6 && a[..6] == b[..6]
    ensures a[0..2] == b[0..2] && a[2..6] == b[2..6]
  {
    assert a[..6][0..2] == a[0..2] && a[..6][2..6] == a[2..6] && b[..6][0..2] == b[0..2] && b[..6][2..6] == b[2..6];
  }

  /** One changed byte in a document that is not compressed is such a difference. */
  lemma ChangedDocIsTold(c: Codec, cfg: Config, item: Item, n: nat, y: Byte)
    requires Storable(c, cfg, item) && DetectsOneByte(c.crc) && StoredDoc(c, cfg, item.value).1 == 0
    requires RECORD_HEADER_SIZE + |c.encodeKey(item.key)| <= n < |Record(c, cfg, item)|
    requires Record(c, cfg, item)[n] != y
    ensures IsToldApart(c, cfg, item, Record(c, cfg, item)[n := y])
  {
    var r, id, raw := Record(c, cfg, item), c.encodeKey(item.key), item.value;
    var at := RECORD_HEADER_SIZE + |id|;
    RecordKey(c, cfg, item);
    PlainDoc(c, cfg, item);
    PlainChecksum(c, cfg, item);
    ByteChanged(r, at, n, y);
    var changed := raw[n - at := y];
    assert id + changed == (id + raw)[n - RECORD_HEADER_SIZE := y];
    ChangeIsDetected(c.crc, id + raw, n - RECORD_HEADER_SIZE, y);
    OtherDocIsTold(c, cfg, item, r[n := y], changed);
  }

  lemma PlainChecksum(c: Codec, cfg: Config, item: Item)
    requires Storable(c, cfg, item)
    ensures ReadBE(Record(c, cfg, item)[6..10]) == c.crc(c.encodeKey(item.key) + item.value)
  {
    var r := Record(c, cfg, item);
    RecordFields(c, cfg, item, r, 0);
    assert r[0..|r|] == r;
  }

  lemma OtherDocIsTold(c: Codec, cfg: Config, item: Item, bytes: Buf, doc: Buf)
    requires Storable(c, cfg, item) && |bytes| == |Record(c, cfg, item)|
    requires var r, at := Record(c, cfg, item), RECORD_HEADER_SIZE + |c.encodeKey(item.key)|;
             && bytes[..6] == r[..6] && bytes[6..10] == r[6..10] && bytes[10] == 0
             && bytes[RECORD_HEADER_SIZE..at] == c.encodeKey(item.key) && bytes[at..] == doc
    requires c.crc(c.encodeKey(item.key) + doc) != ReadBE(Record(c, cfg, item)[6..10])
    ensures IsToldApart(c, cfg, item, bytes)
  {
  }

  lemma PlainDoc(c: Codec, cfg: Config, item: Item)
    requires StoredDoc(c, cfg, item.value).1 == 0
    ensures var r := Record(c, cfg, item);
            r[10] == 0 && r[RECORD_HEADER_SIZE + |c.encodeKey(item.key)|..] == item.value
  {
  }

  lemma ByteChanged(r: Buf, at: nat, n: nat, y: Byte)
    requires RECORD_HEADER_SIZE <= at <= n < |r|
    ensures var b := r[n := y];
            && b[..6] == r[..6] && b[6..10] == r[6..10] && b[10] == r[10]
            && b[RECORD_HEADER_SIZE..at] == r[RECORD_HEADER_SIZE..at] && b[at..] == r[at..][n - at := y]
  {
  }
}
