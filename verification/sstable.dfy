/** Writing SSTable files and finding records in them. */
module SSTables {
  import opened Keys
  import opened Options
  import opened Versions
  import opened Runs
  import opened Bytes
  import opened VersionedKeys
  import opened Layout
  import opened RecordFormat
  import opened Bloom

  const FOOTER_SIZE: nat := 32
  const FOOTER_MAGIC: nat := 0xdb42
  const FOOTER_VERSION: nat := 6

  datatype Meta = Meta(
    index: SparseIndex,
    bloomSize: nat,
    hashCount: nat,
    minKey: Key,
    maxKey: Key,
    keyCount: nat,
    sizeBytes: nat)

  datatype Built = Built(file: Buf, meta: Meta)

  /** The document key a record belongs to, under which it enters the Bloom filter. */
  function RealKey(key: Key): Key
  {
    if IsVersionedKey(key) then DecodeVersionedKey(key).0 else key
  }

  function Trailer(indexOffset: nat, bloomOffset: nat, bloomSize: nat, hashCount: nat, keyCount: nat): (t: Buf)
    ensures |t| == FOOTER_SIZE
  {
    BE(indexOffset, 8) + BE(bloomOffset, 8) + BE(bloomSize, 4) + BE(hashCount, 2)
    + BE(FOOTER_MAGIC, 2) + BE(FOOTER_VERSION, 4) + BE(keyCount, 4)
  }

  /** The field widths of a record and of the trailer: beyond them the writer throws. */
  predicate RecordFits(c: Codec, cfg: Config, item: Item)
  {
    |c.encodeKey(item.key)| < 0x1_0000 && |StoredDoc(c, cfg, item.value).0| < 0x1_0000_0000
  }

  predicate TrailerFits(indexOffset: nat, bloomOffset: nat, bloomSize: nat, hashCount: nat, keyCount: nat)
  {
    && indexOffset < 0x1_0000_0000_0000_0000 && bloomOffset < 0x1_0000_0000_0000_0000
    && bloomSize < 0x1_0000_0000 && hashCount < 0x1_0000 && keyCount < 0x1_0000_0000
  }

  /** The codec's pairs are inverse on this item: UTF-8 on its key, deflate on its document. */
  ghost predicate Invertible(c: Codec, item: Item)
  {
    c.decodeKey(c.encodeKey(item.key)) == item.key && c.inflate(c.deflate(item.value)) == item.value
  }

  function Join(a: Buf, b: Buf, c: Buf, d: Buf): Buf
  {
    a + b + c + d
  }

  /** What a table writer needs to know of the record format. */
  datatype Format = Format(rec: Encoder, fits: Item -> bool, blockSize: nat, packIndex: SparseIndex -> Buf)

  function FormatOf(c: Codec, cfg: Config): Format
  {
    Format(Records(c, cfg), (item: Item) => RecordFits(c, cfg, item), cfg.blockSize, c.packIndex)
  }

  ghost function FileOf(f: Format, run: Run, bits: Buf, bloomSize: nat, hashCount: nat): Buf
  {
    var data, index := DataOf(f.rec, run), f.packIndex(IndexOf(f.rec, f.blockSize, run));
    Join(data, index, bits, Trailer(|data|, |data| + |index|, bloomSize, hashCount, |run|))
  }

  ghost predicate FileFits(f: Format, run: Run, bloomSize: nat, hashCount: nat)
  {
    var data, index := DataOf(f.rec, run), f.packIndex(IndexOf(f.rec, f.blockSize, run));
    && (forall i :: 0 <= i < |run| ==> f.fits(run[i]))
    && TrailerFits(|data|, |data| + |index|, bloomSize, hashCount, |run|)
  }

  /** The regions of a file and the fields of its footer, as a reader takes them apart. */
  ghost predicate FileImage(file: Buf, data: Buf, packed: Buf, bits: Buf,
                            bloomSize: nat, hashCount: nat, keyCount: nat)
  {
    && |file| == |data| + |packed| + |bits| + FOOTER_SIZE
    && data <= file
    && file[|data|..|data| + |packed|] == packed
    && file[|data| + |packed|..|file| - FOOTER_SIZE] == bits
    && var footer := file[|file| - FOOTER_SIZE..];
    && ReadBE(footer[0..8]) == |data| && ReadBE(footer[8..16]) == |data| + |packed|
    && ReadBE(footer[16..20]) == bloomSize && ReadBE(footer[20..22]) == hashCount
    && ReadBE(footer[22..24]) == FOOTER_MAGIC && ReadBE(footer[24..28]) == FOOTER_VERSION
    && ReadBE(footer[28..32]) == keyCount
  }

  /** `file` is an SSTable of `run`. */
  ghost predicate Stored(c: Codec, cfg: Config, file: Buf, run: Run, bits: Buf, bloomSize: nat, hashCount: nat)
  {
    && Ascending(run)
    && AllStorable(c, cfg, run)
    && FileImage(file, DataOf(Records(c, cfg), run), c.packIndex(IndexOf(Records(c, cfg), cfg.blockSize, run)),
                 bits, bloomSize, hashCount, |run|)
  }

  /** The filter passes every document with a record in the run. */
  ghost predicate CoversRun(hash: Hash, size: nat, hashCount: nat, bits: Buf, run: Run)
    requires size > 0
  {
    forall i :: 0 <= i < |run| ==> Covers(bits, Probe(hash, size, hashCount, RealKey(run[i].key)))
  }

  /** The writer's variables after it has written the records of `run`. */
  ghost predicate Writing(rec: Encoder, blockSize: nat, run: Run,
                          data: Buf, index: SparseIndex, offset: nat, boundary: int)
  {
    && data == DataOf(rec, run)
    && offset == |data|
    && index == IndexOf(rec, blockSize, run)
    && boundary == LastBoundary(blockSize, index)
  }

  lemma WriteStep(rec: Encoder, blockSize: nat, run: Run, item: Item,
                  data: Buf, index: SparseIndex, offset: nat, boundary: int)
    requires Writing(rec, blockSize, run, data, index, offset, boundary)
    ensures var opens := offset - boundary >= blockSize;
            Writing(rec, blockSize, run + [item], data + rec(item),
                    if opens then index + [(item.key, offset)] else index,
                    offset + |rec(item)|, if opens then offset else boundary)
  {
    IndexStep(rec, blockSize, run, item);
  }

  lemma CoverGrows(hash: Hash, size: nat, hashCount: nat, bits: Buf, bits': Buf, run: Run, item: Item)
    requires size > 0 && CoversRun(hash, size, hashCount, bits, run)
    requires forall p: nat :: BitAt(bits', p) <==>
               BitAt(bits, p) || p in Probe(hash, size, hashCount, RealKey(item.key))
    ensures CoversRun(hash, size, hashCount, bits', run)
    ensures CoversRun(hash, size, hashCount, bits', run + [item])
  {
    forall i | 0 <= i < |run| ensures Covers(bits', Probe(hash, size, hashCount, RealKey(run[i].key))) {
      assert Covers(bits, Probe(hash, size, hashCount, RealKey(run[i].key)));
    }
  }

  /** An SSTable under construction: what `writeSSTableFile` and compaction keep while they write. */
  class OutputCtx {
    const f: Format
    const bloom: BloomFilter
    var data: Buf
    var sparseIndex: SparseIndex
    var currentOffset: nat
    var lastBlockBoundary: int
    var keyCount: nat
    /** The records written so far, as the values `data` encodes. */
    var run: Run

    ghost predicate Valid()
      reads `data, `sparseIndex, `currentOffset, `lastBlockBoundary, `keyCount, `run, bloom.bitArray
    {
      && bloom.Valid()
      && Writing(f.rec, f.blockSize, run, data, sparseIndex, currentOffset, lastBlockBoundary)
      && keyCount == |run|
      && (forall i :: 0 <= i < |run| ==> f.fits(run[i]))
      && CoversRun(bloom.hash, bloom.size, bloom.hashCount, bloom.bitArray[..], run)
    }

    constructor (f: Format, hash: Hash, bloomSize: nat, hashCount: nat)
      requires bloomSize > 0
      ensures Valid() && run == [] && fresh(bloom) && fresh(bloom.bitArray) && this.f == f
      ensures bloom.hash == hash && bloom.size == bloomSize && bloom.hashCount == hashCount
    {
      this.f := f;
      bloom := new BloomFilter(hash, bloomSize, hashCount);
      data, sparseIndex, currentOffset, keyCount := [], [], 0, 0;
      lastBlockBoundary := -(f.blockSize as int);
      run := [];
    }

    method AddToBloom(item: Item)
      requires Valid()
      modifies bloom.bitArray
      ensures Valid()
      ensures CoversRun(bloom.hash, bloom.size, bloom.hashCount, bloom.bitArray[..], run + [item])
    {
      ghost var bits := bloom.bitArray[..];
      bloom.Add(RealKey(item.key));
      CoverGrows(bloom.hash, bloom.size, bloom.hashCount, bits, bloom.bitArray[..], run, item);
    }

    /** Writes one record; throws, leaving the records as they were, when it does not fit its header. */
    method Append(item: Item) returns (ok: bool)
      requires Valid()
      modifies this, bloom.bitArray
      ensures Valid()
      ensures ok <==> f.fits(item)
      ensures run == if ok then old(run) + [item] else old(run)
    {
      AddToBloom(item);
      ok := f.fits(item);
      if ok {
        WriteRecord(item);
      }
    }

    method WriteRecord(item: Item)
      requires Valid() && f.fits(item)
      requires CoversRun(bloom.hash, bloom.size, bloom.hashCount, bloom.bitArray[..], run + [item])
      modifies this
      ensures Valid() && run == old(run) + [item]
    {
      var record := f.rec(item);
      var opens := currentOffset - lastBlockBoundary >= f.blockSize;
      WriteStep(f.rec, f.blockSize, run, item, data, sparseIndex, currentOffset, lastBlockBoundary);
      data, currentOffset, keyCount, sparseIndex, lastBlockBoundary, run :=
        data + record, currentOffset + |record|, keyCount + 1,
        if opens then sparseIndex + [(item.key, currentOffset)] else sparseIndex,
        if opens then currentOffset else lastBlockBoundary,
        run + [item];
    }

    /** The finished file. Its recorded bounds are the first and last keys of the sparse index. */
    method Finalize() returns (r: Option<Built>)
      requires Valid()
      ensures r.Some? <==> FileFits(f, run, bloom.size, bloom.hashCount)
      ensures r.Some? ==>
                && r.value.file == FileOf(f, run, bloom.bitArray[..], bloom.size, bloom.hashCount)
                && r.value.meta == Meta(IndexOf(f.rec, f.blockSize, run), bloom.size, bloom.hashCount,
                                        MinIndexed(f, run), MaxIndexed(f, run), |run|, |r.value.file|)
    {
      var indexOffset := currentOffset;
      var serializedIndex := f.packIndex(sparseIndex);
      var bloomOffset := indexOffset + |serializedIndex|;
      if !TrailerFits(indexOffset, bloomOffset, bloom.size, bloom.hashCount, keyCount) {
        return None;
      }
      var file := Join(data, serializedIndex, bloom.bitArray[..],
                       Trailer(indexOffset, bloomOffset, bloom.size, bloom.hashCount, keyCount));
      var minKey := if |sparseIndex| > 0 then sparseIndex[0].0 else [];
      var maxKey := if |sparseIndex| > 0 then sparseIndex[|sparseIndex| - 1].0 else [];
      return Some(Built(file, Meta(sparseIndex, bloom.size, bloom.hashCount, minKey, maxKey, keyCount, |file|)));
    }
  }

  function MinIndexed(f: Format, run: Run): Key
  {
    var index := IndexOf(f.rec, f.blockSize, run);
    if |index| > 0 then index[0].0 else []
  }

  function MaxIndexed(f: Format, run: Run): Key
  {
    var index := IndexOf(f.rec, f.blockSize, run);
    if |index| > 0 then index[|index| - 1].0 else []
  }

  /** A table of two records in one block: both of its recorded bounds are its first key. */
  lemma OneBlock(f: Format, run: Run)
    requires |run| == 2 && f.blockSize > |f.rec(run[0])|
    ensures MinIndexed(f, run) == MaxIndexed(f, run) == run[0].key
  {
    var first := run[..1];
    assert first == [run[0]] && first[..0] == [];
    assert IndexOf(f.rec, f.blockSize, []) == [] && DataOf(f.rec, []) == [];
    assert IndexOf(f.rec, f.blockSize, first) == [(run[0].key, 0)];
    assert DataOf(f.rec, first) == f.rec(run[0]);
  }

  /** The run a map's entries make in key order. */
  ghost predicate IsRunOf(run: Run, table: map<Key, Buf>)
  {
    && Ascending(run)
    && forall key :: Find(run, key) == if key in table then Some(table[key]) else None
  }

  lemma {:induction false} LeastExists(keys: set<Key>)
    requires keys != {}
    ensures exists k :: k in keys && forall j :: j in keys ==> LessEq(k, j)
    decreases keys
  {
    var k :| k in keys;
    var rest := keys - {k};
    assert forall j :: j in keys ==> j == k || j in rest;
    if rest == {} {
    } else {
      LeastExists(rest);
      var l :| l in rest && forall j :: j in rest ==> LessEq(l, j);
      LessConnected(k, l);
      var m := if Less(k, l) then k else l;
      forall j | j in keys ensures LessEq(m, j) {
        if j != k {
          assert j in rest;
          if Less(k, l) && l != j {
            LessTransitive(k, l, j);
          }
        }
      }
    }
  }

  /** `Array.from(table.keys()).sort()`. */
  method SortedKeys(keys: set<Key>) returns (s: seq<Key>)
    ensures AscendingKeys(s)
    ensures forall k :: k in s <==> k in keys
  {
    s := [];
    var todo := keys;
    while todo != {}
      invariant todo <= keys
      invariant AscendingKeys(s)
      invariant forall k :: k in s <==> k in keys - todo
      invariant forall i, k :: 0 <= i < |s| && k in todo ==> Less(s[i], k)
      decreases todo
    {
      LeastExists(todo);
      var k :| k in todo && forall j :: j in todo ==> LessEq(k, j);
      s := s + [k];
      todo := todo - {k};
    }
  }

  method WriteSSTableFile(c: Codec, cfg: Config, hash: Hash, bloomSize: nat, hashCount: nat, table: map<Key, Buf>)
    returns (r: Option<Built>, bloom: BloomFilter, ghost run: Run)
    requires bloomSize > 0
    requires forall key :: key in table ==> Invertible(c, Item(key, table[key]))
    ensures IsRunOf(run, table)
    ensures r.Some? <==> FileFits(FormatOf(c, cfg), run, bloomSize, hashCount)
    ensures fresh(bloom) && bloom.Valid()
    ensures r.Some? ==>
              && bloom.hash == hash && bloom.size == bloomSize && bloom.hashCount == hashCount
              && Stored(c, cfg, r.value.file, run, bloom.bitArray[..], bloomSize, hashCount)
              && CoversRun(hash, bloomSize, hashCount, bloom.bitArray[..], run)
              && r.value.meta == Meta(IndexOf(Records(c, cfg), cfg.blockSize, run), bloomSize, hashCount,
                                      if run == [] then [] else run[0].key,
                                      if run == [] then [] else run[|run| - 1].key,
                                      |run|, |r.value.file|)
  {
    var sortedKeys := SortedKeys(table.Keys);
    run := Listing(sortedKeys, table);
    ListedRun(c, sortedKeys, table, run);
    var ctx := new OutputCtx(FormatOf(c, cfg), hash, bloomSize, hashCount);
    bloom := ctx.bloom;
    r := None;
    var ok := AppendAll(ctx, sortedKeys, table, run);
    if ok {
      r := FinishSorted(c, cfg, ctx, sortedKeys, run);
    }
  }

  method FinishSorted(c: Codec, cfg: Config, ctx: OutputCtx, sortedKeys: seq<Key>, ghost run: Run)
    returns (r: Option<Built>)
    requires ctx.Valid() && ctx.run == run && |run| == |sortedKeys| && Ascending(run) && ctx.f == FormatOf(c, cfg)
    requires forall i :: 0 <= i < |run| ==> run[i].key == sortedKeys[i] && Invertible(c, run[i])
    ensures r.Some? <==> FileFits(FormatOf(c, cfg), run, ctx.bloom.size, ctx.bloom.hashCount)
    ensures r.Some? ==>
              && Stored(c, cfg, r.value.file, run, ctx.bloom.bitArray[..], ctx.bloom.size, ctx.bloom.hashCount)
              && r.value.meta == Meta(IndexOf(Records(c, cfg), cfg.blockSize, run),
                                      ctx.bloom.size, ctx.bloom.hashCount,
                                      if run == [] then [] else run[0].key,
                                      if run == [] then [] else run[|run| - 1].key,
                                      |run|, |r.value.file|)
  {
    var minKey := if |sortedKeys| > 0 then sortedKeys[0] else [];
    var maxKey := if |sortedKeys| > 0 then sortedKeys[|sortedKeys| - 1] else [];
    r := ctx.Finalize();
    if r.Some? {
      FittingRunIsStored(c, cfg, run, ctx.bloom.bitArray[..], ctx.bloom.size, ctx.bloom.hashCount);
      r := Some(Built(r.value.file, r.value.meta.(minKey := minKey, maxKey := maxKey)));
    }
  }

  method AppendAll(ctx: OutputCtx, sortedKeys: seq<Key>, table: map<Key, Buf>, ghost run: Run) returns (ok: bool)
    requires ctx.Valid() && ctx.run == [] && |run| == |sortedKeys|
    requires forall i :: 0 <= i < |run| ==>
               sortedKeys[i] in table && run[i] == Item(sortedKeys[i], table[sortedKeys[i]])
    modifies ctx, ctx.bloom.bitArray
    ensures ctx.Valid()
    ensures ok ==> ctx.run == run
    ensures ok <==> forall i :: 0 <= i < |run| ==> ctx.f.fits(run[i])
  {
    var i := 0;
    while i < |sortedKeys|
      invariant 0 <= i <= |sortedKeys|
      invariant ctx.Valid() && ctx.run == run[..i]
      invariant forall j :: 0 <= j < i ==> ctx.f.fits(run[j])
    {
      ok := ctx.Append(Item(sortedKeys[i], table[sortedKeys[i]]));
      if !ok {
        assert !ctx.f.fits(run[i]);
        return;
      }
      i := i + 1;
    }
    assert run[..i] == run;
    ok := true;
  }

  /** What the writer produces is taken apart region by region and field by field. */
  lemma FileHasImage(f: Format, run: Run, bits: Buf, bloomSize: nat, hashCount: nat)
    requires FileFits(f, run, bloomSize, hashCount)
    ensures FileImage(FileOf(f, run, bits, bloomSize, hashCount), DataOf(f.rec, run),
                      f.packIndex(IndexOf(f.rec, f.blockSize, run)), bits, bloomSize, hashCount, |run|)
  {
    FileParts(f, run, bits, bloomSize, hashCount);
    JoinHasImage(FileOf(f, run, bits, bloomSize, hashCount), DataOf(f.rec, run),
                 f.packIndex(IndexOf(f.rec, f.blockSize, run)), bits, bloomSize, hashCount, |run|);
  }

  lemma FileParts(f: Format, run: Run, bits: Buf, bloomSize: nat, hashCount: nat)
    requires FileFits(f, run, bloomSize, hashCount)
    ensures IsJoined(FileOf(f, run, bits, bloomSize, hashCount), DataOf(f.rec, run),
                     f.packIndex(IndexOf(f.rec, f.blockSize, run)), bits, bloomSize, hashCount, |run|)
  {
  }

  /** The regions end to end, with a trailer whose fields fit. */
  ghost predicate IsJoined(file: Buf, data: Buf, packed: Buf, bits: Buf, bloomSize: nat, hashCount: nat, keyCount: nat)
  {
    && TrailerFits(|data|, |data| + |packed|, bloomSize, hashCount, keyCount)
    && file == Join(data, packed, bits, Trailer(|data|, |data| + |packed|, bloomSize, hashCount, keyCount))
  }

  lemma JoinHasImage(file: Buf, data: Buf, packed: Buf, bits: Buf, bloomSize: nat, hashCount: nat, keyCount: nat)
    requires IsJoined(file, data, packed, bits, bloomSize, hashCount, keyCount)
    ensures FileImage(file, data, packed, bits, bloomSize, hashCount, keyCount)
  {
    var footer := Trailer(|data|, |data| + |packed|, bloomSize, hashCount, keyCount);
    TrailerFields(|data|, |data| + |packed|, bloomSize, hashCount, keyCount);
    Regions(data, packed, bits, footer);
    assert |file| == |data| + |packed| + |bits| + FOOTER_SIZE && file[|file| - FOOTER_SIZE..] == footer;
    assert data <= file;
  }

  lemma Regions(a: Buf, b: Buf, c: Buf, d: Buf)
    ensures var f := Join(a, b, c, d);
            && f[..|a|] == a
            && f[|a|..|a| + |b|] == b
            && f[|a| + |b|..|f| - |d|] == c
            && f[|f| - |d|..] == d
  {
  }

  lemma TrailerFields(indexOffset: nat, bloomOffset: nat, bloomSize: nat, hashCount: nat, keyCount: nat)
    requires TrailerFits(indexOffset, bloomOffset, bloomSize, hashCount, keyCount)
    ensures var t := Trailer(indexOffset, bloomOffset, bloomSize, hashCount, keyCount);
            && ReadBE(t[0..8]) == indexOffset && ReadBE(t[8..16]) == bloomOffset
            && ReadBE(t[16..20]) == bloomSize && ReadBE(t[20..22]) == hashCount
            && ReadBE(t[22..24]) == FOOTER_MAGIC && ReadBE(t[28..32]) == keyCount
            && ReadBE(t[24..28]) == FOOTER_VERSION
  {
    var a, b, s, h := BE(indexOffset, 8), BE(bloomOffset, 8), BE(bloomSize, 4), BE(hashCount, 2);
    var m, v, k := BE(FOOTER_MAGIC, 2), BE(FOOTER_VERSION, 4), BE(keyCount, 4);
    SevenFields(a, b, s, h, m, v, k);
    Widths();
    ReadWritten(indexOffset, 8);
    ReadWritten(bloomOffset, 8);
    ReadWritten(bloomSize, 4);
    ReadWritten(hashCount, 2);
    ReadWritten(FOOTER_MAGIC, 2);
    ReadWritten(FOOTER_VERSION, 4);
    ReadWritten(keyCount, 4);
  }

  lemma SevenFields(a: Buf, b: Buf, s: Buf, h: Buf, m: Buf, v: Buf, k: Buf)
    requires |a| == |b| == 8 && |s| == |v| == |k| == 4 && |h| == |m| == 2
    ensures var t := a + b + s + h + m + v + k;
            t[0..8] == a && t[8..16] == b && t[16..20] == s && t[20..22] == h
            && t[22..24] == m && t[24..28] == v && t[28..32] == k
  {
  }

  lemma FittingRunIsStored(c: Codec, cfg: Config, run: Run, bits: Buf, bloomSize: nat, hashCount: nat)
    requires Ascending(run) && FileFits(FormatOf(c, cfg), run, bloomSize, hashCount)
    requires forall i :: 0 <= i < |run| ==> Invertible(c, run[i])
    ensures Stored(c, cfg, FileOf(FormatOf(c, cfg), run, bits, bloomSize, hashCount), run, bits, bloomSize, hashCount)
  {
    FileHasImage(FormatOf(c, cfg), run, bits, bloomSize, hashCount);
    forall i | 0 <= i < |run| ensures Storable(c, cfg, run[i]) {
      assert Invertible(c, run[i]) && FormatOf(c, cfg).fits(run[i]);
    }
  }

  ghost function Listing(keys: seq<Key>, table: map<Key, Buf>): (run: Run)
    requires forall k :: k in keys ==> k in table
    ensures |run| == |keys|
    ensures forall i :: 0 <= i < |run| ==> run[i] == Item(keys[i], table[keys[i]])
  {
    if keys == [] then [] else [Item(keys[0], table[keys[0]])] + Listing(keys[1..], table)
  }

  lemma ListedRun(c: Codec, keys: seq<Key>, table: map<Key, Buf>, run: Run)
    requires AscendingKeys(keys) && |run| == |keys|
    requires forall key :: key in table ==> Invertible(c, Item(key, table[key]))
    requires forall k :: k in keys <==> k in table
    requires forall i :: 0 <= i < |run| ==> run[i] == Item(keys[i], table[keys[i]])
    ensures IsRunOf(run, table)
    ensures forall i :: 0 <= i < |run| ==> Invertible(c, run[i])
  {
    forall key ensures Find(run, key) == if key in table then Some(table[key]) else None {
      FindHolds(run, key);
      if key in table {
        var i :| 0 <= i < |keys| && keys[i] == key;
        FindAt(run, i);
      } else {
        assert forall i :: 0 <= i < |run| ==> run[i].key in keys;
      }
    }
  }
}
