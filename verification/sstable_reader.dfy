/** The block a sparse index leads a reader to. */
module Blocks {
  import opened Keys
  import opened Options
  import opened Runs
  import opened Layout

  /** The records of the block the lookup chose: between two index marks. */
  ghost function BlockBounds(rec: Encoder, blockSize: nat, run: Run, at: int): (b: (nat, nat))
    requires -1 <= at < |IndexOf(rec, blockSize, run)|
    ensures b.0 <= b.1 <= |run|
  {
    MarksMatch(rec, blockSize, run);
    var m := Marks(rec, blockSize, run);
    var k := if at < 0 then 0 else at;
    if m == [] then (0, 0) else (m[k], if k + 1 < |m| then m[k + 1] else |run|)
  }

  /** Only that block can hold the key. */
  lemma BlockHoldsKey(rec: Encoder, blockSize: nat, run: Run, at: int, targetId: Key)
    requires Ascending(run) && -1 <= at < |IndexOf(rec, blockSize, run)|
    requires var index := IndexOf(rec, blockSize, run);
             && (forall i :: 0 <= i <= at ==> LessEq(index[i].0, targetId))
             && (forall i :: at < i < |index| ==> Less(targetId, index[i].0))
    ensures var (a, b) := BlockBounds(rec, blockSize, run, at);
            Find(run[a..b], targetId) == Find(run, targetId)
  {
    MarksMatch(rec, blockSize, run);
    var (a, b) := BlockBounds(rec, blockSize, run, at);
    if at >= 0 {
      KeysBefore(run, a, targetId);
    }
    if b < |run| {
      KeysFrom(run, b, targetId);
    }
    FindMiddle(run, a, b, targetId);
  }

  lemma KeysBefore(run: Run, a: nat, targetId: Key)
    requires Ascending(run) && a < |run| && LessEq(run[a].key, targetId)
    ensures forall j :: 0 <= j < a ==> run[j].key != targetId
  {
    forall j | 0 <= j < a ensures run[j].key != targetId {
      assert Less(run[j].key, run[a].key);
      LessIrreflexive(targetId);
      if run[a].key != targetId {
        LessTransitive(run[j].key, run[a].key, targetId);
      }
    }
  }

  lemma KeysFrom(run: Run, b: nat, targetId: Key)
    requires Ascending(run) && b < |run| && Less(targetId, run[b].key)
    ensures forall j :: b <= j < |run| ==> run[j].key != targetId
  {
    forall j | b <= j < |run| ensures run[j].key != targetId {
      LessIrreflexive(targetId);
      if j > b { LessTransitive(targetId, run[b].key, run[j].key); }
    }
  }

  lemma FindMiddle(run: Run, a: nat, b: nat, targetId: Key)
    requires a <= b <= |run|
    requires forall j :: 0 <= j < a || b <= j < |run| ==> run[j].key != targetId
    ensures Find(run[a..b], targetId) == Find(run, targetId)
  {
    assert run == run[..a] + run[a..b] + run[b..];
    FindConcat(run[..a] + run[a..b], run[b..], targetId);
    FindConcat(run[..a], run[a..b], targetId);
    FindHolds(run[..a], targetId);
    FindHolds(run[b..], targetId);
  }

  lemma IndexAscends(rec: Encoder, blockSize: nat, run: Run)
    requires Ascending(run)
    ensures var index := IndexOf(rec, blockSize, run);
            forall i, j :: 0 <= i < j < |index| ==> Less(index[i].0, index[j].0) && index[i].1 < index[j].1
  {
    MarksMatch(rec, blockSize, run);
    var m, index := Marks(rec, blockSize, run), IndexOf(rec, blockSize, run);
    forall i, j | 0 <= i < j < |index| ensures Less(index[i].0, index[j].0) && index[i].1 < index[j].1 {
      OffsetsIncrease(rec, run, m[i], m[j]);
    }
  }

  ghost function BlockStart(index: SparseIndex, at: int): nat
    requires -1 <= at < |index|
  {
    if at < 0 then 0 else index[at].1
  }

  ghost function BlockStop(index: SparseIndex, at: int, dataEnd: nat): nat
    requires -1 <= at < |index|
  {
    var next := if at < 0 then 1 else at + 1;
    if next < |index| then index[next].1 else dataEnd
  }

  lemma BlockOffsets(rec: Encoder, blockSize: nat, run: Run, at: int)
    requires -1 <= at < |IndexOf(rec, blockSize, run)|
    ensures var index := IndexOf(rec, blockSize, run);
            var (a, b) := BlockBounds(rec, blockSize, run, at);
            && BlockStart(index, at) == Offset(rec, run, a)
            && BlockStop(index, at, |DataOf(rec, run)|) == Offset(rec, run, b)
  {
    MarksMatch(rec, blockSize, run);
    assert run[..0] == [] && run[..|run|] == run;
  }

  /** The block's records lie exactly between its own index offset and the next one. */
  lemma BlockExtent(rec: Encoder, blockSize: nat, run: Run, at: int)
    requires -1 <= at < |IndexOf(rec, blockSize, run)|
    ensures var index := IndexOf(rec, blockSize, run);
            var (a, b) := BlockBounds(rec, blockSize, run, at);
            var start, end := BlockStart(index, at), BlockStop(index, at, |DataOf(rec, run)|);
            && start <= end <= |DataOf(rec, run)|
            && DataOf(rec, run)[start..end] == DataOf(rec, run[a..b])
  {
    var (a, b) := BlockBounds(rec, blockSize, run, at);
    BlockOffsets(rec, blockSize, run, at);
    DataSlice(rec, run, a, b);
  }

  /** No other index offset falls inside the block. */
  lemma NextOffset(rec: Encoder, blockSize: nat, run: Run, at: int)
    requires Ascending(run)
    requires -1 <= at < |IndexOf(rec, blockSize, run)|
    ensures var index := IndexOf(rec, blockSize, run);
            var k: nat := if at < 0 then 0 else at;
            forall i :: 0 <= i < |index| ==> (index[i].1 > BlockStart(index, at) <==> i > k)
  {
    MarksMatch(rec, blockSize, run);
    IndexAscends(rec, blockSize, run);
    assert run[..0] == [];
  }
}

/** Reading an SSTable file back: its metadata, one record by key, or a range of records in order. */
module SSTableReader {
  import opened Blocks
  import opened Keys
  import opened Options
  import opened Versions
  import opened Runs
  import opened Bytes
  import opened VersionedKeys
  import opened Layout
  import opened RecordFormat
  import opened Bloom
  import opened SSTables

  /** Boot reads back what the writer built; only the bounds differ: they come from the sparse index. */
  method ReadSSTableMetadata(c: Codec, cfg: Config, hash: Hash, file: Buf,
                             ghost run: Run, ghost bits: Buf, ghost bloomSize: nat, ghost hashCount: nat)
    returns (r: Option<Meta>, bloom: BloomFilter?)
    requires Stored(c, cfg, file, run, bits, bloomSize, hashCount)
    requires var index := IndexOf(Records(c, cfg), cfg.blockSize, run); c.unpackIndex(c.packIndex(index)) == index
    requires 0 < bloomSize <= |bits| * 8
    ensures r == Some(Meta(IndexOf(Records(c, cfg), cfg.blockSize, run), bloomSize, hashCount,
                           MinIndexed(FormatOf(c, cfg), run), MaxIndexed(FormatOf(c, cfg), run), |run|, |file|))
    ensures bloom != null && fresh(bloom) && bloom.Valid() && bloom.bitArray[..] == bits
    ensures bloom.hash == hash && bloom.size == bloomSize && bloom.hashCount == hashCount
  {
    ghost var index := IndexOf(Records(c, cfg), cfg.blockSize, run);
    r, bloom := ReadRegions(c, hash, file, DataOf(Records(c, cfg), run), c.packIndex(index), bits, bloomSize, hashCount,
                            |run|);
  }

  /** The regions of the file one by one; the bounds are the first and the last key of the index. */
  method ReadRegions(c: Codec, hash: Hash, file: Buf, ghost data: Buf, ghost packed: Buf, ghost bits: Buf,
                     ghost bloomSize: nat, ghost hashCount: nat, ghost keyCount: nat)
    returns (r: Option<Meta>, bloom: BloomFilter?)
    requires FileImage(file, data, packed, bits, bloomSize, hashCount, keyCount) && 0 < bloomSize <= |bits| * 8
    ensures var index := c.unpackIndex(packed);
            r == Some(Meta(index, bloomSize, hashCount, FirstKey(index), LastKey(index), keyCount, |file|))
    ensures bloom != null && fresh(bloom) && bloom.Valid() && bloom.bitArray[..] == bits
    ensures bloom.hash == hash && bloom.size == bloomSize && bloom.hashCount == hashCount
  {
    r, bloom := None, null;
    var footer := file[|file| - FOOTER_SIZE..];
    var magic := ReadBE(footer[22..24]);
    if magic != FOOTER_MAGIC {
      return;
    }
    var indexOffset := ReadBE(footer[0..8]);
    var bloomOffset := ReadBE(footer[8..16]);
    var bloomSizeBits := ReadBE(footer[16..20]);
    var hashes := ReadBE(footer[20..22]);
    var version := ReadBE(footer[24..28]);
    var keyCount := if version >= 4 then ReadBE(footer[28..32]) else 0;
    var metadataSize := |file| - FOOTER_SIZE - indexOffset;
    if metadataSize <= 0 {
      return;
    }
    var sparseIndex := c.unpackIndex(file[indexOffset..bloomOffset]);
    var bloomRegion := file[bloomOffset..|file| - FOOTER_SIZE];
    bloom := new BloomFilter.FromRaw(hash, bloomSizeBits, hashes, bloomRegion);
    r := Some(Meta(sparseIndex, bloomSizeBits, hashes, FirstKey(sparseIndex), LastKey(sparseIndex), keyCount, |file|));
  }

  function FirstKey(index: SparseIndex): Key
  {
    if |index| > 0 then index[0].0 else []
  }

  function LastKey(index: SparseIndex): Key
  {
    if |index| > 0 then index[|index| - 1].0 else []
  }

  /** The offset of the last index entry at or before the key, by binary search; zero when there is none. */
  method SparseIndexLookup(index: SparseIndex, targetId: Key) returns (best: nat, ghost at: int)
    requires forall i, j :: 0 <= i < j < |index| ==> Less(index[i].0, index[j].0)
    ensures -1 <= at < |index|
    ensures forall i :: 0 <= i <= at ==> LessEq(index[i].0, targetId)
    ensures forall i :: at < i < |index| ==> Less(targetId, index[i].0)
    ensures best == if at < 0 then 0 else index[at].1
  {
    var lo: int, hi: int := 0, |index| - 1;
    best, at := 0, -1;
    while lo <= hi
      invariant 0 <= lo <= hi + 1 <= |index| && at == lo - 1
      invariant forall i :: 0 <= i < lo ==> LessEq(index[i].0, targetId)
      invariant forall i :: hi < i < |index| ==> Less(targetId, index[i].0)
      invariant best == if at < 0 then 0 else index[at].1
    {
      var mid := (lo + hi) / 2;
      if LessEq(index[mid].0, targetId) {
        forall i | 0 <= i < mid ensures LessEq(index[i].0, targetId) {
          if index[mid].0 != targetId { LessTransitive(index[i].0, index[mid].0, targetId); }
        }
        best, lo := index[mid].1, mid + 1;
        at := mid;
      } else {
        LessConnected(index[mid].0, targetId);
        forall i | mid < i < |index| ensures Less(targetId, index[i].0) {
          LessTransitive(targetId, index[mid].0, index[i].0);
        }
        hi := mid - 1;
      }
    }
  }

  datatype ReadResult = Found(doc: Buf) | Absent | Corrupt

  function ResultOf(found: Option<Buf>): ReadResult
  {
    match found case Some(doc) => Found(doc) case None => Absent
  }

  /** One record as a reader takes it apart: `intact` says its checksum matched. */
  datatype Parsed = Parsed(key: Key, doc: Buf, intact: bool, next: nat)

  /**
   * Takes apart the record at `pos`; none when its body runs past the end. What stands there may be a damaged record,
   * and then it is not `intact`.
   */
  method ParseRecord(c: Codec, b: Buf, pos: nat, ghost cfg: Config, ghost item: Item, ghost bytes: Buf)
    returns (p: Option<Parsed>)
    requires pos + RECORD_HEADER_SIZE <= |b|
    requires IsToldApart(c, cfg, item, bytes) && pos + |bytes| <= |b| && b[pos..pos + |bytes|] == bytes
    ensures p.Some? && p.value.key == item.key && p.value.next == pos + |bytes|
    ensures p.value.intact <==> bytes == Record(c, cfg, item)
    ensures p.value.intact ==> p.value.doc == item.value
  {
    ToldFields(c, cfg, item, bytes, b, pos);
    var keyLen := ReadBE(b[pos..pos + 2]);
    var docLen := ReadBE(b[pos + 2..pos + 6]);
    var storedCrc := ReadBE(b[pos + 6..pos + 10]);
    var flags := b[pos + 10];
    var at := pos + RECORD_HEADER_SIZE;
    if at + keyLen + docLen > |b| {
      return None;
    }
    var keyBuf := b[at..at + keyLen];
    var docBuf := b[at + keyLen..at + keyLen + docLen];
    var decompDoc := LoadedDoc(c, flags, docBuf);
    return Some(Parsed(c.decodeKey(keyBuf), decompDoc, c.crc(keyBuf + decompDoc) == storedCrc, at + keyLen + docLen));
  }

  /** Which records stand in the file as they were written. */
  ghost function Undamaged(c: Codec, cfg: Config, rec: Encoder): Item -> bool
  {
    (item: Item) => rec(item) == Record(c, cfg, item)
  }

  /** What a reader answers of records not all of which are good. */
  ghost function AnswerIn(run: Run, good: Item -> bool, key: Key): ReadResult
  {
    var found := Find(run, key);
    if found.None? then Absent else if good(Item(key, found.value)) then Found(found.value) else Corrupt
  }

  lemma AnswerAt(run: Run, good: Item -> bool, i: nat)
    requires Ascending(run) && i < |run|
    ensures AnswerIn(run, good, run[i].key) == if good(run[i]) then Found(run[i].value) else Corrupt
  {
    FindAt(run, i);
    assert run[i] == Item(run[i].key, run[i].value);
  }

  /** Takes apart record `i` of a block. */
  method ParseAt(c: Codec, ghost cfg: Config, block: Buf, pos: nat, ghost rec: Encoder, ghost part: Run, ghost i: nat,
                 ghost good: Item -> bool)
    returns (p: Option<Parsed>)
    requires AllToldApart(c, cfg, rec, part) && block == DataOf(rec, part) && good == Undamaged(c, cfg, rec)
    requires i < |part| && pos == Offset(rec, part, i) && pos + RECORD_HEADER_SIZE <= |block|
    ensures p.Some? && p.value.key == part[i].key && p.value.next == Offset(rec, part, i + 1)
    ensures i + 1 == |part| ==> p.value.next == |block|
    ensures p.value.intact <==> good(part[i])
    ensures p.value.intact ==> p.value.doc == part[i].value
  {
    ScanStep(rec, part, i);
    p := ParseRecord(c, block, pos, cfg, part[i], rec(part[i]));
  }

  /** Where a scan stands before record `i`: that far in, with the key still to come. */
  ghost predicate IsScanning(rec: Encoder, part: Run, i: nat, pos: nat, block: Buf, key: Key)
  {
    && i <= |part| && pos == Offset(rec, part, i) && NotYet(part, i, key)
    && (i == |part| <==> pos + RECORD_HEADER_SIZE > |block|)
  }

  lemma StartScanning(c: Codec, cfg: Config, rec: Encoder, part: Run, key: Key)
    requires AllToldApart(c, cfg, rec, part)
    ensures IsScanning(rec, part, 0, 0, DataOf(rec, part), key)
  {
    ScanStart(rec, part);
    if part != [] {
      RecordAhead(c, cfg, rec, part, 0);
    }
  }

  lemma KeepScanning(c: Codec, cfg: Config, rec: Encoder, part: Run, i: nat, pos: nat, key: Key)
    requires AllToldApart(c, cfg, rec, part) && IsScanning(rec, part, i, pos, DataOf(rec, part), key)
    requires i < |part| && part[i].key != key
    ensures IsScanning(rec, part, i + 1, Offset(rec, part, i + 1), DataOf(rec, part), key)
  {
    ScanStep(rec, part, i);
    if i + 1 < |part| {
      RecordAhead(c, cfg, rec, part, i + 1);
    }
  }

  /** The linear scan of one block, which stops at the first larger key. */
  method ScanBlock(c: Codec, ghost cfg: Config, block: Buf, targetId: Key, ghost rec: Encoder, ghost part: Run)
    returns (r: ReadResult)
    requires Ascending(part) && AllToldApart(c, cfg, rec, part) && block == DataOf(rec, part)
    ensures r == AnswerIn(part, Undamaged(c, cfg, rec), targetId)
  {
    ghost var good := Undamaged(c, cfg, rec);
    var pos: nat := 0;
    ghost var i: nat := 0;
    StartScanning(c, cfg, rec, part, targetId);
    while pos + RECORD_HEADER_SIZE <= |block|
      invariant IsScanning(rec, part, i, pos, block, targetId)
      decreases |part| - i
    {
      var p := ParseAt(c, cfg, block, pos, rec, part, i, good);
      if p.None? {
        break;
      }
      if p.value.key == targetId {
        AnswerAt(part, good, i);
        return if p.value.intact then Found(p.value.doc) else Corrupt;
      }
      if Less(targetId, p.value.key) {
        PassedKey(part, good, i, targetId);
        return Absent;
      }
      KeepScanning(c, cfg, rec, part, i, pos, targetId);
      pos := p.value.next;
      i := i + 1;
    }
    NeverMet(part, good, targetId);
    return Absent;
  }

  ghost predicate NotYet(part: Run, i: nat, key: Key)
    requires i <= |part|
  {
    forall j :: 0 <= j < i ==> part[j].key != key
  }

  lemma NeverMet(part: Run, good: Item -> bool, key: Key)
    requires NotYet(part, |part|, key)
    ensures AnswerIn(part, good, key) == Absent
  {
    FindHolds(part, key);
  }

  /** Where a record is still to come, there is room for its header. */
  lemma RecordAhead(c: Codec, cfg: Config, rec: Encoder, part: Run, i: nat)
    requires AllToldApart(c, cfg, rec, part) && i < |part|
    ensures Offset(rec, part, i) + RECORD_HEADER_SIZE <= |DataOf(rec, part)|
  {
    ScanStep(rec, part, i);
    assert IsToldApart(c, cfg, part[i], rec(part[i]));
  }

  lemma ScanStart(rec: Encoder, part: Run)
    ensures Offset(rec, part, 0) == 0
    ensures part == [] ==> DataOf(rec, part) == []
  {
    assert part[..0] == [];
  }

  lemma ScanStep(rec: Encoder, part: Run, i: nat)
    requires i < |part|
    ensures var pos, end := Offset(rec, part, i), Offset(rec, part, i + 1);
            && end == pos + |rec(part[i])| <= |DataOf(rec, part)|
            && DataOf(rec, part)[pos..end] == rec(part[i])
            && (i + 1 == |part| ==> end == |DataOf(rec, part)|)
  {
    OffsetStep(rec, part, i);
    DataSlice(rec, part, i, |part|);
  }

  lemma PassedKey(part: Run, good: Item -> bool, i: nat, targetId: Key)
    requires Ascending(part) && i < |part| && Less(targetId, part[i].key) && NotYet(part, i, targetId)
    ensures AnswerIn(part, good, targetId) == Absent
  {
    FindHolds(part, targetId);
    LessIrreflexive(targetId);
    forall j | i < j < |part| ensures part[j].key != targetId {
      LessTransitive(targetId, part[i].key, part[j].key);
    }
  }

  /** The first index offset past the block's start, or the end of the data. */
  method BlockEnd(index: SparseIndex, blockOffset: nat, indexOffset: nat, ghost k: nat) returns (blockEnd: nat)
    requires forall i :: 0 <= i < |index| ==> (index[i].1 > blockOffset <==> i > k)
    ensures blockEnd == if k + 1 < |index| then index[k + 1].1 else indexOffset
  {
    blockEnd := indexOffset;
    var i := 0;
    while i < |index|
      invariant 0 <= i <= |index|
      invariant i <= k + 1
      invariant blockEnd == indexOffset
    {
      if index[i].1 > blockOffset {
        return index[i].1;
      }
      i := i + 1;
    }
  }

  /** The file holds these records, however they are written, behind an index and a filter. */
  ghost predicate HoldsFile(c: Codec, cfg: Config, rec: Encoder, file: Buf, run: Run, bits: Buf, bloomSize: nat,
                        hashCount: nat)
  {
    && Ascending(run) && AllToldApart(c, cfg, rec, run)
    && FileImage(file, DataOf(rec, run), c.packIndex(IndexOf(rec, cfg.blockSize, run)), bits, bloomSize, hashCount,
                 |run|)
  }

  lemma StoredHolds(c: Codec, cfg: Config, file: Buf, run: Run, bits: Buf, bloomSize: nat, hashCount: nat)
    requires Stored(c, cfg, file, run, bits, bloomSize, hashCount)
    ensures HoldsFile(c, cfg, Records(c, cfg), file, run, bits, bloomSize, hashCount)
  {
    RecordsAreTold(c, cfg, run);
  }

  /** Finds one record. It answers as the run does, but that a damaged record is reported. */
  method ReadRecordFromDisk(c: Codec, ghost cfg: Config, file: Buf, index: SparseIndex, targetId: Key,
                            ghost rec: Encoder, ghost run: Run, ghost bits: Buf, ghost bloomSize: nat,
                            ghost hashCount: nat)
    returns (r: ReadResult)
    requires HoldsFile(c, cfg, rec, file, run, bits, bloomSize, hashCount)
    requires index == IndexOf(rec, cfg.blockSize, run)
    ensures r == AnswerIn(run, Undamaged(c, cfg, rec), targetId)
  {
    IndexAscends(rec, cfg.blockSize, run);
    var blockOffset, at := SparseIndexLookup(index, targetId);
    BlockHoldsKey(rec, cfg.blockSize, run, at, targetId);
    var blockData, part := LoadBlock(c, cfg, file, index, blockOffset, rec, run, bits, bloomSize, hashCount, at);
    PartOfRun(c, cfg, rec, run, part);
    r := ScanBlock(c, cfg, blockData, targetId, rec, part);
  }

  lemma PartOfRun(c: Codec, cfg: Config, rec: Encoder, run: Run, part: Run)
    requires Ascending(run) && AllToldApart(c, cfg, rec, run)
    requires exists a, b :: 0 <= a <= b <= |run| && part == run[a..b]
    ensures Ascending(part) && AllToldApart(c, cfg, rec, part)
  {
    var a, b :| 0 <= a <= b <= |run| && part == run[a..b];
    forall i {:trigger rec(part[i])} | 0 <= i < |part| ensures IsToldApart(c, cfg, part[i], rec(part[i])) {
      assert part[i] == run[a + i] && IsToldApart(c, cfg, run[a + i], rec(run[a + i]));
    }
  }

  /** Where the records end, from the first field of the footer. */
  method ReadIndexOffset(c: Codec, ghost cfg: Config, file: Buf, ghost rec: Encoder,
                         ghost run: Run, ghost bits: Buf, ghost bloomSize: nat, ghost hashCount: nat)
    returns (indexOffset: nat)
    requires HoldsFile(c, cfg, rec, file, run, bits, bloomSize, hashCount)
    ensures indexOffset == |DataOf(rec, run)|
  {
    var footer := file[|file| - FOOTER_SIZE..];
    indexOffset := ReadBE(footer[0..8]);
  }

  /** Reads one block from the file, when it is not in the block cache. */
  method LoadBlock(c: Codec, ghost cfg: Config, file: Buf, index: SparseIndex, blockOffset: nat, ghost rec: Encoder,
                   ghost run: Run, ghost bits: Buf, ghost bloomSize: nat, ghost hashCount: nat, ghost at: int)
    returns (blockData: Buf, ghost part: Run)
    requires HoldsFile(c, cfg, rec, file, run, bits, bloomSize, hashCount)
    requires index == IndexOf(rec, cfg.blockSize, run) && -1 <= at < |index|
    requires blockOffset == BlockStart(index, at)
    ensures var (a, b) := BlockBounds(rec, cfg.blockSize, run, at); part == run[a..b]
    ensures blockData == DataOf(rec, part)
  {
    ghost var (a, b) := BlockBounds(rec, cfg.blockSize, run, at);
    part := run[a..b];
    BlockInFile(rec, cfg.blockSize, run, file, at);
    NextOffset(rec, cfg.blockSize, run, at);
    var indexOffset := ReadIndexOffset(c, cfg, file, rec, run, bits, bloomSize, hashCount);
    var blockEnd := BlockEnd(index, blockOffset, indexOffset, if at < 0 then 0 else at);
    blockData := file[blockOffset..blockEnd];
  }

  /** The bytes from the chosen block's offset to the next one's are that block's records. */
  lemma BlockInFile(rec: Encoder, blockSize: nat, run: Run, file: Buf, at: int)
    requires Ascending(run)
    requires -1 <= at < |IndexOf(rec, blockSize, run)| && DataOf(rec, run) <= file
    ensures var index := IndexOf(rec, blockSize, run);
            var (a, b) := BlockBounds(rec, blockSize, run, at);
            var start, end := BlockStart(index, at), BlockStop(index, at, |DataOf(rec, run)|);
            start <= end <= |file| && file[start..end] == DataOf(rec, run[a..b])
  {
    BlockExtent(rec, blockSize, run, at);
    PrefixSlices(file, DataOf(rec, run));
  }

  lemma PrefixSlices(file: Buf, data: Buf)
    requires data <= file
    ensures forall i, j :: 0 <= i <= j <= |data| ==> file[i..j] == data[i..j]
  {
  }

  /** On a file as it was written the read answers exactly as the run itself does. */
  method ReadStored(c: Codec, ghost cfg: Config, file: Buf, index: SparseIndex, targetId: Key, ghost run: Run,
                    ghost bits: Buf, ghost bloomSize: nat, ghost hashCount: nat)
    returns (r: ReadResult)
    requires Stored(c, cfg, file, run, bits, bloomSize, hashCount)
    requires index == IndexOf(Records(c, cfg), cfg.blockSize, run)
    ensures r == ResultOf(Find(run, targetId))
  {
    StoredHolds(c, cfg, file, run, bits, bloomSize, hashCount);
    r := ReadRecordFromDisk(c, cfg, file, index, targetId, Records(c, cfg), run, bits, bloomSize, hashCount);
  }

  /**
   * One table's answer to `get`: the filter, then the record. Together they are the map the table was
   * written from: the filter never rejects a stored key, and an absent key reads as absent.
   */
  method Lookup(c: Codec, ghost cfg: Config, file: Buf, meta: Meta, bloom: BloomFilter, id: Key,
                ghost table: map<Key, Buf>, ghost run: Run)
    returns (r: ReadResult)
    requires bloom.Valid() && IsRunOf(run, table) && !IsVersionedKey(id)
    requires Stored(c, cfg, file, run, bloom.bitArray[..], bloom.size, bloom.hashCount)
    requires CoversRun(bloom.hash, bloom.size, bloom.hashCount, bloom.bitArray[..], run)
    requires meta.index == IndexOf(Records(c, cfg), cfg.blockSize, run)
    ensures r == if id in table then Found(table[id]) else Absent
  {
    var maybe := bloom.Check(id);
    if id in table {
      StoredKeyCovered(bloom.hash, bloom.size, bloom.hashCount, bloom.bitArray[..], run, id);
    }
    if !maybe {
      return Absent;
    }
    r := ReadStored(c, cfg, file, meta.index, id, run, bloom.bitArray[..], bloom.size, bloom.hashCount);
  }

  lemma StoredKeyCovered(hash: Hash, size: nat, hashCount: nat, bits: Buf, run: Run, id: Key)
    requires size > 0 && CoversRun(hash, size, hashCount, bits, run)
    requires Find(run, id).Some? && !IsVersionedKey(id)
    ensures Covers(bits, Probe(hash, size, hashCount, id))
  {
    FindHolds(run, id);
    var i :| 0 <= i < |run| && run[i].key == id;
    assert RealKey(run[i].key) == id;
  }
}

/** One changed byte in a table's file. */
module DamagedFiles {
  import opened Keys
  import opened Options
  import opened Versions
  import opened Runs
  import opened Bytes
  import opened Layout
  import opened RecordFormat
  import opened SSTables
  import opened SSTableReader

  /** The records as they are written, but for one that has a changed byte. */
  function WithDamage(c: Codec, cfg: Config, item: Item, n: nat, y: Byte): Encoder
    requires n < |Record(c, cfg, item)|
  {
    (other: Item) => if other == item then Record(c, cfg, item)[n := y] else Record(c, cfg, other)
  }

  lemma {:induction false} SameLengths(a: Encoder, b: Encoder, blockSize: nat, run: Run)
    requires forall i :: 0 <= i < |run| ==> |a(run[i])| == |b(run[i])|
    ensures |DataOf(a, run)| == |DataOf(b, run)| && IndexOf(a, blockSize, run) == IndexOf(b, blockSize, run)
    decreases |run|
  {
    if run != [] {
      SameLengths(a, b, blockSize, run[..|run| - 1]);
    }
  }

  lemma {:induction false} SameData(a: Encoder, b: Encoder, run: Run)
    requires forall i :: 0 <= i < |run| ==> a(run[i]) == b(run[i])
    ensures DataOf(a, run) == DataOf(b, run)
    decreases |run|
  {
    if run != [] {
      SameData(a, b, run[..|run| - 1]);
    }
  }

  lemma DataAround(rec: Encoder, run: Run, i: nat)
    requires i < |run|
    ensures DataOf(rec, run) == DataOf(rec, run[..i]) + (rec(run[i]) + DataOf(rec, run[i + 1..]))
    ensures Offset(rec, run, i) == |DataOf(rec, run[..i])|
  {
    assert run == run[..i] + ([run[i]] + run[i + 1..]) && [run[i]][..0] == [];
    DataConcat(rec, run[..i], [run[i]] + run[i + 1..]);
    DataConcat(rec, [run[i]], run[i + 1..]);
    assert DataOf(rec, [run[i]]) == DataOf(rec, []) + rec(run[i]) == rec(run[i]);
  }

  /** The data of records one of which has a changed byte. */
  lemma ChangedData(a: Encoder, b: Encoder, run: Run, i: nat, n: nat, y: Byte)
    requires i < |run| && n < |a(run[i])| && b(run[i]) == a(run[i])[n := y]
    requires forall j :: 0 <= j < |run| && j != i ==> b(run[j]) == a(run[j])
    ensures Offset(a, run, i) + n < |DataOf(a, run)|
    ensures DataOf(b, run) == DataOf(a, run)[Offset(a, run, i) + n := y]
  {
    DataAround(a, run, i);
    DataAround(b, run, i);
    SameData(a, b, run[..i]);
    SameData(a, b, run[i + 1..]);
  }

  lemma ChangedImage(file: Buf, data: Buf, packed: Buf, bits: Buf, bloomSize: nat, hashCount: nat, keyCount: nat,
                     p: nat, y: Byte)
    requires FileImage(file, data, packed, bits, bloomSize, hashCount, keyCount) && p < |data|
    ensures FileImage(file[p := y], data[p := y], packed, bits, bloomSize, hashCount, keyCount)
  {
    var f := file[p := y];
    assert f[|data|..|data| + |packed|] == file[|data|..|data| + |packed|];
    assert f[|data| + |packed|..|f| - FOOTER_SIZE] == file[|data| + |packed|..|file| - FOOTER_SIZE];
    assert f[|f| - FOOTER_SIZE..] == file[|file| - FOOTER_SIZE..];
    assert data[p := y] <= f;
  }

  lemma DamageIsTold(c: Codec, cfg: Config, run: Run, i: nat, n: nat, y: Byte)
    requires Ascending(run) && AllStorable(c, cfg, run) && DetectsOneByte(c.crc)
    requires i < |run| && StoredDoc(c, cfg, run[i].value).1 == 0
    requires RECORD_HEADER_SIZE + |c.encodeKey(run[i].key)| <= n < |Record(c, cfg, run[i])|
    requires Record(c, cfg, run[i])[n] != y
    ensures AllToldApart(c, cfg, WithDamage(c, cfg, run[i], n, y), run)
    ensures forall j :: 0 <= j < |run| && j != i ==> run[j] != run[i]
  {
    var rec := WithDamage(c, cfg, run[i], n, y);
    RecordsAreTold(c, cfg, run);
    assert Storable(c, cfg, run[i]);
    ChangedDocIsTold(c, cfg, run[i], n, y);
    forall j {:trigger rec(run[j])} | 0 <= j < |run| ensures IsToldApart(c, cfg, run[j], rec(run[j])) {
      assert IsToldApart(c, cfg, run[j], Records(c, cfg)(run[j]));
    }
    forall j | 0 <= j < |run| && j != i ensures run[j] != run[i] {
      LessIrreflexive(run[i].key);
      assert Less(run[if i < j then i else j].key, run[if i < j then j else i].key);
    }
  }

  /** A file with one byte of one record changed is the file of the records so changed. */
  lemma ChangedFile(c: Codec, cfg: Config, was: Encoder, rec: Encoder, file: Buf, run: Run, bits: Buf, bloomSize: nat,
                    hashCount: nat, i: nat, n: nat, y: Byte)
    requires Ascending(run) && AllToldApart(c, cfg, rec, run)
    requires FileImage(file, DataOf(was, run), c.packIndex(IndexOf(was, cfg.blockSize, run)), bits, bloomSize,
                       hashCount, |run|)
    requires i < |run| && n < |was(run[i])| && rec(run[i]) == was(run[i])[n := y]
    requires forall j :: 0 <= j < |run| && j != i ==> rec(run[j]) == was(run[j])
    ensures Offset(was, run, i) + n < |file|
    ensures IndexOf(rec, cfg.blockSize, run) == IndexOf(was, cfg.blockSize, run)
    ensures HoldsFile(c, cfg, rec, file[Offset(was, run, i) + n := y], run, bits, bloomSize, hashCount)
  {
    SameLengths(was, rec, cfg.blockSize, run);
    ChangedData(was, rec, run, i, n, y);
    ChangedImage(file, DataOf(was, run), c.packIndex(IndexOf(was, cfg.blockSize, run)), bits, bloomSize, hashCount,
                 |run|, Offset(was, run, i) + n, y);
  }

  /** Every key reads as the run says, but that the one record that is damaged is reported. */
  ghost predicate ReportsOnly(run: Run, good: Item -> bool, i: nat)
    requires i < |run|
  {
    forall key :: AnswerIn(run, good, key) == if key == run[i].key then Corrupt else ResultOf(Find(run, key))
  }

  lemma DamagedAnswer(run: Run, good: Item -> bool, i: nat)
    requires Ascending(run) && i < |run| && forall item :: good(item) <==> item != run[i]
    ensures ReportsOnly(run, good, i)
  {
    forall key
      ensures AnswerIn(run, good, key) == if key == run[i].key then Corrupt else ResultOf(Find(run, key))
    {
      if key == run[i].key {
        AnswerAt(run, good, i);
      } else if Find(run, key).Some? {
        assert good(Item(key, Find(run, key).value));
      }
    }
  }

  /** The encoder of the damaged file, with what is needed of it. */
  lemma Damaged(c: Codec, cfg: Config, run: Run, i: nat, n: nat, y: Byte) returns (rec: Encoder)
    requires Ascending(run) && AllStorable(c, cfg, run) && DetectsOneByte(c.crc)
    requires i < |run| && StoredDoc(c, cfg, run[i].value).1 == 0
    requires RECORD_HEADER_SIZE + |c.encodeKey(run[i].key)| <= n < |Record(c, cfg, run[i])|
    requires Record(c, cfg, run[i])[n] != y
    ensures AllToldApart(c, cfg, rec, run) && ReportsOnly(run, Undamaged(c, cfg, rec), i)
    ensures rec(run[i]) == Record(c, cfg, run[i])[n := y]
    ensures forall j :: 0 <= j < |run| && j != i ==> rec(run[j]) == Record(c, cfg, run[j])
  {
    rec := WithDamage(c, cfg, run[i], n, y);
    DamageIsTold(c, cfg, run, i, n, y);
    DamagedAnswer(run, Undamaged(c, cfg, rec), i);
  }

  /** The same for a file as it was written. */
  lemma ChangedStored(c: Codec, cfg: Config, rec: Encoder, file: Buf, run: Run, bits: Buf, bloomSize: nat,
                      hashCount: nat, i: nat, n: nat, y: Byte)
    requires Stored(c, cfg, file, run, bits, bloomSize, hashCount) && AllToldApart(c, cfg, rec, run)
    requires i < |run| && n < |Record(c, cfg, run[i])| && rec(run[i]) == Record(c, cfg, run[i])[n := y]
    requires forall j :: 0 <= j < |run| && j != i ==> rec(run[j]) == Record(c, cfg, run[j])
    ensures Offset(Records(c, cfg), run, i) + n < |file|
    ensures IndexOf(rec, cfg.blockSize, run) == IndexOf(Records(c, cfg), cfg.blockSize, run)
    ensures HoldsFile(c, cfg, rec, file[Offset(Records(c, cfg), run, i) + n := y], run, bits, bloomSize, hashCount)
  {
    ChangedFile(c, cfg, Records(c, cfg), rec, file, run, bits, bloomSize, hashCount, i, n, y);
  }

  /**
   * A damaged file. With a checksum that tells one-byte changes apart, and a document that is not compressed: change
   * one byte of it in the file, and a read of that key reports the damage, while every other key reads as it did.
   */
  lemma DamageIsReported(c: Codec, cfg: Config, file: Buf, run: Run, bits: Buf, bloomSize: nat, hashCount: nat,
                         i: nat, n: nat, y: Byte)
    returns (rec: Encoder)
    requires Stored(c, cfg, file, run, bits, bloomSize, hashCount) && DetectsOneByte(c.crc)
    requires i < |run| && StoredDoc(c, cfg, run[i].value).1 == 0
    requires RECORD_HEADER_SIZE + |c.encodeKey(run[i].key)| <= n < |Record(c, cfg, run[i])|
    requires Record(c, cfg, run[i])[n] != y
    ensures Offset(Records(c, cfg), run, i) + n < |file|
    ensures HoldsFile(c, cfg, rec, file[Offset(Records(c, cfg), run, i) + n := y], run, bits, bloomSize, hashCount)
    ensures IndexOf(rec, cfg.blockSize, run) == IndexOf(Records(c, cfg), cfg.blockSize, run)
    ensures ReportsOnly(run, Undamaged(c, cfg, rec), i)
  {
    rec := Damaged(c, cfg, run, i, n, y);
    ChangedStored(c, cfg, rec, file, run, bits, bloomSize, hashCount, i, n, y);
  }
}
