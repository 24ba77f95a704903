/** Which of the old versions a table keeps a reader finds when the table does not answer with the plain record. */
module StoredVersions {
  import opened Keys
  import opened Options
  import opened Versions
  import opened VersionedKeys
  import opened Runs
  import opened Layout
  import opened Blocks

  /** The record's key names a version of the document that a reader at the snapshot may see. */
  predicate IsVersionOf(k: Key, id: Key, snapshot: nat)
  {
    IsVersionedKey(k) && DecodeVersionedKey(k).0 == id && DecodeVersionedKey(k).1 <= snapshot
  }

  /** A document key that sorts behind every versioned key. */
  predicate SortsBehindVersions(key: Key)
  {
    key != [] && (key[0] > 0 || (|key| > 1 && key[1] > 0x56))
  }

  lemma VersionsSortFirst(k: Key, key: Key)
    requires IsVersionedKey(k) && SortsBehindVersions(key)
    ensures Less(k, key) && !IsVersionedKey(key)
  {
    assert k[0] == PREFIX[0] && k[1] == PREFIX[1];
    if key[0] == 0 {
      assert k[1..][0] == 0x56 && key[1..][0] == key[1];
      assert Less(k[1..], key[1..]);
    }
  }

  datatype Best = Best(txn: nat, doc: Buf)

  /** The scan of a block: the newest version up to the first plain key at or behind the document's. */
  function BestVersion(part: Run, id: Key, snapshot: nat, best: Option<Best>): Option<Best>
  {
    if part == [] || (!Less(part[0].key, id) && !IsVersionedKey(part[0].key)) then best
    else BestVersion(part[1..], id, snapshot, Better(part[0], id, snapshot, best))
  }

  function Better(item: Item, id: Key, snapshot: nat, best: Option<Best>): Option<Best>
  {
    var txn := DecodeVersionedKey(item.key).1;
    if IsVersionOf(item.key, id, snapshot) && (best.None? || best.value.txn < txn) then Some(Best(txn, item.value))
    else best
  }

  /** How many entries at the front of the index are at or before the key. */
  function Leading(index: SparseIndex, key: Key): (n: nat)
    ensures n <= |index|
  {
    if index == [] || Less(key, index[0].0) then 0 else 1 + Leading(index[1..], key)
  }

  /** The block read is the one before the block the newest version would be in. */
  function VersionBlock(index: SparseIndex, key: Key): (at: int)
    ensures -1 <= at < |index|
  {
    var n := Leading(index, key);
    if n < 2 then -1 else n - 2
  }

  ghost function StoredVersion(rec: Encoder, blockSize: nat, run: Run, id: Key, snapshot: nat): Option<Buf>
  {
    var at := VersionBlock(IndexOf(rec, blockSize, run), EncodeVersionedKey(id, snapshot));
    var (a, b) := BlockBounds(rec, blockSize, run, at);
    DocOf(BestVersion(run[a..b], id, snapshot, None))
  }

  function DocOf(best: Option<Best>): Option<Buf>
  {
    if best.None? then None else Some(best.value.doc)
  }

  ghost predicate IsStoredAs(part: Run, id: Key, snapshot: nat, doc: Buf)
  {
    exists i :: 0 <= i < |part| && IsVersionOf(part[i].key, id, snapshot) && part[i].value == doc
  }

  lemma {:induction false} BestIsStored(part: Run, id: Key, snapshot: nat, best: Option<Best>)
    ensures var r := BestVersion(part, id, snapshot, best);
            r == best || (r.Some? && IsStoredAs(part, id, snapshot, r.value.doc))
    decreases |part|
  {
    if part != [] && (Less(part[0].key, id) || IsVersionedKey(part[0].key)) {
      BestIsStored(part[1..], id, snapshot, Better(part[0], id, snapshot, best));
      var r := BestVersion(part, id, snapshot, best);
      if r.Some? && IsStoredAs(part[1..], id, snapshot, r.value.doc) {
        var i :| 0 <= i < |part[1..]| && IsVersionOf(part[1..][i].key, id, snapshot) &&
              part[1..][i].value == r.value.doc;
        assert part[i + 1] == part[1..][i];
      }
    }
  }

  /** Only a version that is stored in the table, and that the snapshot may see, is ever found. */
  lemma FoundIsStored(rec: Encoder, blockSize: nat, run: Run, id: Key, snapshot: nat)
    requires Ascending(run) && StoredVersion(rec, blockSize, run, id, snapshot).Some?
    ensures exists k :: IsVersionOf(k, id, snapshot) && Find(run, k) == StoredVersion(rec, blockSize, run, id, snapshot)
  {
    var at := VersionBlock(IndexOf(rec, blockSize, run), EncodeVersionedKey(id, snapshot));
    var (a, b) := BlockBounds(rec, blockSize, run, at);
    BestIsStored(run[a..b], id, snapshot, None);
    PartIsStored(run, a, b, id, snapshot, StoredVersion(rec, blockSize, run, id, snapshot).value);
  }

  lemma PartIsStored(run: Run, a: nat, b: nat, id: Key, snapshot: nat, doc: Buf)
    requires Ascending(run) && a <= b <= |run| && IsStoredAs(run[a..b], id, snapshot, doc)
    ensures exists k :: IsVersionOf(k, id, snapshot) && Find(run, k) == Some(doc)
  {
    var i := StoredAt(run[a..b], id, snapshot, doc);
    assert run[a..b][i] == run[a + i];
    FindAt(run, a + i);
  }

  lemma StoredAt(part: Run, id: Key, snapshot: nat, doc: Buf) returns (i: nat)
    requires IsStoredAs(part, id, snapshot, doc)
    ensures i < |part| && IsVersionOf(part[i].key, id, snapshot) && part[i].value == doc
  {
    i :| 0 <= i < |part| && IsVersionOf(part[i].key, id, snapshot) && part[i].value == doc;
  }

  /** A table of one version, seen by the snapshot, answers with it. */
  lemma LoneVersion(rec: Encoder, blockSize: nat, id: Key, txn: nat, doc: Buf, snapshot: nat)
    requires txn <= snapshot <= NO_SNAPSHOT
    ensures StoredVersion(rec, blockSize, [Item(EncodeVersionedKey(id, txn), doc)], id, snapshot) == Some(doc)
  {
    var item := Item(EncodeVersionedKey(id, txn), doc);
    var run := [item];
    VersionedKeyRoundTrip(id, txn);
    LoneIndex(rec, blockSize, item);
    var at := VersionBlock(IndexOf(rec, blockSize, run), EncodeVersionedKey(id, snapshot));
    assert run[0..1] == run && run[1..] == [];
    assert BestVersion(run, id, snapshot, None) == BestVersion([], id, snapshot, Some(Best(txn, doc)));
  }

  lemma LoneIndex(rec: Encoder, blockSize: nat, item: Item)
    ensures IndexOf(rec, blockSize, [item]) == [(item.key, 0)]
    ensures BlockBounds(rec, blockSize, [item], -1) == (0, 1)
  {
    assert [item][..0] == [] && DataOf(rec, []) == [] && IndexOf(rec, blockSize, []) == [];
    MarksMatch(rec, blockSize, [item]);
    var m := Marks(rec, blockSize, [item]);
    assert |m| == 1 && m[0] == 0;
  }
}

/** When the one block that is searched gives the newest version the table has for a snapshot, and when it does not. */
module VersionSearch {
  import opened Keys
  import opened Options
  import opened Versions
  import opened VersionedKeys
  import opened Runs
  import opened Layout
  import opened Blocks
  import opened StoredVersions

  function TxnOf(item: Item): nat
  {
    DecodeVersionedKey(item.key).1
  }

  /** The newest version of the document the snapshot may see; no other is as new. */
  ghost predicate IsNewestVersion(run: Run, i: nat, id: Key, snapshot: nat)
  {
    && i < |run| && IsVersionOf(run[i].key, id, snapshot)
    && forall j :: 0 <= j < |run| && j != i ==> IsOlder(run[j], id, snapshot, TxnOf(run[i]))
  }

  /** Not a version the snapshot may see, or one from before the transaction. */
  ghost predicate IsOlder(item: Item, id: Key, snapshot: nat, txn: nat)
  {
    IsVersionOf(item.key, id, snapshot) ==> TxnOf(item) < txn
  }

  /** The scan of a block ends at such a record. */
  predicate Stops(item: Item, id: Key)
  {
    !Less(item.key, id) && !IsVersionedKey(item.key)
  }

  ghost predicate Reaches(part: Run, i: nat, id: Key)
  {
    i < |part| && forall j :: 0 <= j < i ==> !Stops(part[j], id)
  }

  /** The block that is searched. */
  ghost function Searched(rec: Encoder, blockSize: nat, run: Run, id: Key, snapshot: nat): (b: (nat, nat))
    ensures b.0 <= b.1 <= |run|
  {
    BlockBounds(rec, blockSize, run, VersionBlock(IndexOf(rec, blockSize, run), EncodeVersionedKey(id, snapshot)))
  }

  /** Records from before the transaction do not replace a version of it, nor make one. */
  lemma {:induction false} BestStays(part: Run, id: Key, snapshot: nat, best: Option<Best>, txn: nat)
    requires forall j :: 0 <= j < |part| ==> IsOlder(part[j], id, snapshot, txn)
    ensures best.Some? && best.value.txn >= txn ==> BestVersion(part, id, snapshot, best) == best
    decreases |part|
  {
    if part != [] {
      assert IsOlder(part[0], id, snapshot, txn);
      RestIsOlder(part, id, snapshot, txn);
      BestStays(part[1..], id, snapshot, Better(part[0], id, snapshot, best), txn);
    }
  }

  lemma RestIsOlder(part: Run, id: Key, snapshot: nat, txn: nat)
    requires part != [] && forall j :: 1 <= j < |part| ==> IsOlder(part[j], id, snapshot, txn)
    ensures forall j :: 0 <= j < |part[1..]| ==> IsOlder(part[1..][j], id, snapshot, txn)
  {
    forall j | 0 <= j < |part[1..]| ensures IsOlder(part[1..][j], id, snapshot, txn) {
      assert part[1..][j] == part[j + 1];
    }
  }

  /** The newest version is the best one once the scan has reached it. */
  lemma {:induction false} BestReached(part: Run, i: nat, id: Key, snapshot: nat, best: Option<Best>)
    requires IsNewestVersion(part, i, id, snapshot) && Reaches(part, i, id)
    requires best.Some? ==> best.value.txn < TxnOf(part[i])
    ensures BestVersion(part, id, snapshot, best) == Some(Best(TxnOf(part[i]), part[i].value))
    decreases |part|
  {
    var txn := TxnOf(part[i]);
    if i == 0 {
      RestIsOlder(part, id, snapshot, txn);
      BestStays(part[1..], id, snapshot, Some(Best(txn, part[0].value)), txn);
    } else {
      var rest := part[1..];
      assert IsOlder(part[0], id, snapshot, txn) && !Stops(part[0], id);
      assert rest[i - 1] == part[i];
      forall j | 0 <= j < |rest| && j != i - 1 ensures IsOlder(rest[j], id, snapshot, txn) {
        assert rest[j] == part[j + 1];
      }
      forall j | 0 <= j < i - 1 ensures !Stops(rest[j], id) {
        assert rest[j] == part[j + 1];
      }
      BestReached(rest, i - 1, id, snapshot, Better(part[0], id, snapshot, best));
    }
  }

  /** Where no record of the transaction is reached, something older is found or nothing. */
  lemma {:induction false} BestMissed(part: Run, id: Key, snapshot: nat, best: Option<Best>, txn: nat)
    requires forall j :: 0 <= j < |part| && Reaches(part, j, id) ==> IsOlder(part[j], id, snapshot, txn)
    requires best.Some? ==> best.value.txn < txn
    ensures var r := BestVersion(part, id, snapshot, best); r.Some? ==> r.value.txn < txn
    decreases |part|
  {
    if part != [] && !Stops(part[0], id) {
      assert Reaches(part, 0, id) && IsOlder(part[0], id, snapshot, txn);
      var rest := part[1..];
      forall j | 0 <= j < |rest| && Reaches(rest, j, id) ensures IsOlder(rest[j], id, snapshot, txn) {
        forall k | 0 <= k < j + 1 ensures !Stops(part[k], id) {
          assert k > 0 ==> part[k] == rest[k - 1];
        }
        assert Reaches(part, j + 1, id) && part[j + 1] == rest[j];
      }
      BestMissed(rest, id, snapshot, Better(part[0], id, snapshot, best), txn);
    }
  }

  /**
   * The newest version a snapshot may see is what is found exactly when it lies in the block that is searched,
   * and no plain key at or behind the document's comes before it there.
   */
  lemma NewestFoundIff(rec: Encoder, blockSize: nat, run: Run, i: nat, id: Key, snapshot: nat)
    requires IsNewestVersion(run, i, id, snapshot)
    ensures var (a, b) := Searched(rec, blockSize, run, id, snapshot);
            BestVersion(run[a..b], id, snapshot, None) == Some(Best(TxnOf(run[i]), run[i].value))
            <==> a <= i < b && Reaches(run[a..b], i - a, id)
  {
    var (a, b) := Searched(rec, blockSize, run, id, snapshot);
    var part := run[a..b];
    forall j | 0 <= j < |part| && j != i - a ensures IsOlder(part[j], id, snapshot, TxnOf(run[i])) {
      assert part[j] == run[a + j];
    }
    if a <= i < b && Reaches(part, i - a, id) {
      assert part[i - a] == run[i];
      BestReached(part, i - a, id, snapshot, None);
    } else {
      BestMissed(part, id, snapshot, None, TxnOf(run[i]));
    }
  }

  /** For a key that sorts behind all versions it need only lie in that block. */
  lemma NewestFoundInBlock(rec: Encoder, blockSize: nat, run: Run, i: nat, id: Key, snapshot: nat)
    requires Ascending(run) && IsNewestVersion(run, i, id, snapshot) && SortsBehindVersions(id)
    ensures var (a, b) := Searched(rec, blockSize, run, id, snapshot);
            BestVersion(run[a..b], id, snapshot, None) == Some(Best(TxnOf(run[i]), run[i].value)) <==> a <= i < b
  {
    var (a, b) := Searched(rec, blockSize, run, id, snapshot);
    NewestFoundIff(rec, blockSize, run, i, id, snapshot);
    VersionsSortFirst(run[i].key, id);
    if a <= i < b {
      NothingStops(run[a..b], i - a, id);
    }
  }

  lemma NothingStops(part: Run, i: nat, id: Key)
    requires i < |part| && Ascending(part) && Less(part[i].key, id)
    ensures Reaches(part, i, id)
  {
    forall j | 0 <= j < i ensures !Stops(part[j], id) {
      LessTransitive(part[j].key, part[i].key, id);
    }
  }

  /**
   * A version that is missed: with two blocks, the block before the right one is searched, and a reader at the
   * second transaction gets the document of the first.
   */
  lemma NewerVersionMissed(rec: Encoder, blockSize: nat, id: Key, first: Buf, second: Buf)
    requires 0 < blockSize <= |rec(Item(EncodeVersionedKey(id, 1), first))|
    ensures var run := [Item(EncodeVersionedKey(id, 1), first), Item(EncodeVersionedKey(id, 2), second)];
            IsNewestVersion(run, 1, id, 2) && StoredVersion(rec, blockSize, run, id, 2) == Some(first)
  {
    var one, two := Item(EncodeVersionedKey(id, 1), first), Item(EncodeVersionedKey(id, 2), second);
    VersionedKeyRoundTrip(id, 1);
    VersionedKeyRoundTrip(id, 2);
    assert IsOlder(one, id, 2, 2);
    AscendingVersions(id);
    FirstBlock(rec, blockSize, one, two, two.key);
    assert [one, two][0..1] == [one] && [one][1..] == [];
    assert BestVersion([one], id, 2, None) == BestVersion([], id, 2, Some(Best(1, first)));
  }

  lemma AscendingVersions(id: Key)
    ensures !Less(EncodeVersionedKey(id, 2), EncodeVersionedKey(id, 1))
  {
    var p := PREFIX + Hex(0, 15);
    EncodedDigit(p, id, 1);
    EncodedDigit(p, id, 2);
    LessBehind(p, [HexDigit(2)] + ([0] + id), [HexDigit(1)] + ([0] + id));
  }

  lemma EncodedDigit(p: Key, id: Key, n: nat)
    requires n < 16 && p == PREFIX + Hex(0, 15)
    ensures EncodeVersionedKey(id, n) == p + ([HexDigit(n)] + ([0] + id))
  {
    var h := Hex(0, 15);
    assert n / 16 == 0 && n % 16 == n;
    assert Hex(n, 16) == h + [HexDigit(n)];
    assert PREFIX + (h + [HexDigit(n)]) + [0] + id == PREFIX + h + ([HexDigit(n)] + ([0] + id));
  }

  lemma {:induction false} LessBehind(p: Key, a: Key, b: Key)
    ensures Less(p + a, p + b) <==> Less(a, b)
  {
    if p == [] {
      assert p + a == a && p + b == b;
    } else {
      assert (p + a)[1..] == p[1..] + a && (p + b)[1..] == p[1..] + b;
      LessBehind(p[1..], a, b);
    }
  }

  /** Of two blocks of one record each, the first is searched for a key not before the second. */
  lemma FirstBlock(rec: Encoder, blockSize: nat, one: Item, two: Item, best: Key)
    requires 0 < blockSize <= |rec(one)| && !Less(best, one.key) && best == two.key
    ensures var at := VersionBlock(IndexOf(rec, blockSize, [one, two]), best);
            at == 0 && BlockBounds(rec, blockSize, [one, two], at) == (0, 1)
  {
    TwoIndex(rec, blockSize, one, two);
    LessIrreflexive(best);
    AllLeading((one.key, 0), (two.key, |rec(one)|), best);
    FirstOfTwo(rec, blockSize, [one, two]);
  }

  lemma TwoIndex(rec: Encoder, blockSize: nat, one: Item, two: Item)
    requires 0 < blockSize <= |rec(one)|
    ensures IndexOf(rec, blockSize, [one, two]) == [(one.key, 0), (two.key, |rec(one)|)]
  {
    LoneIndex(rec, blockSize, one);
    IndexStep(rec, blockSize, [one], two);
    assert [one] + [two] == [one, two] && [one][..0] == [];
    assert DataOf(rec, [one]) == DataOf(rec, []) + rec(one) == rec(one);
  }

  lemma AllLeading(x: (Key, nat), y: (Key, nat), key: Key)
    requires !Less(key, x.0) && !Less(key, y.0)
    ensures Leading([x, y], key) == 2
  {
    assert [x, y][1..] == [y] && [y][1..] == [];
    assert Leading([y], key) == 1;
  }

  lemma FirstOfTwo(rec: Encoder, blockSize: nat, run: Run)
    requires |run| == |IndexOf(rec, blockSize, run)| == 2
    ensures BlockBounds(rec, blockSize, run, 0) == (0, 1)
  {
    MarksMatch(rec, blockSize, run);
    var m := Marks(rec, blockSize, run);
    assert m[0] == 0 && m[0] < m[1] < 2;
  }
}

/** Reading old versions from a file, and one table's whole answer to `get`. */
module VersionReader {
  import opened Keys
  import opened Options
  import opened Versions
  import opened VersionedKeys
  import opened Runs
  import opened Layout
  import opened RecordFormat
  import opened Bloom
  import opened SSTables
  import opened Blocks
  import opened SSTableReader
  import opened StoredVersions

  /** `readVersionedFromDisk`: one block is read, and in it the newest version of the document is taken. */
  method ReadVersionedFromDisk(c: Codec, ghost cfg: Config, file: Buf, index: SparseIndex, id: Key, snapshot: nat,
                               ghost run: Run, ghost bits: Buf, ghost bloomSize: nat, ghost hashCount: nat)
    returns (r: Option<Buf>)
    requires Stored(c, cfg, file, run, bits, bloomSize, hashCount)
    requires index == IndexOf(Records(c, cfg), cfg.blockSize, run)
    ensures r == StoredVersion(Records(c, cfg), cfg.blockSize, run, id, snapshot)
  {
    var best := EncodeVersionedKey(id, snapshot);
    var offset := VersionOffset(index, best);
    ghost var at := VersionBlock(index, best);
    StoredHolds(c, cfg, file, run, bits, bloomSize, hashCount);
    var blockData, part := LoadBlock(c, cfg, file, index, offset, Records(c, cfg), run, bits, bloomSize, hashCount, at);
    PartOfRun(c, cfg, Records(c, cfg), run, part);
    r := ScanVersions(c, cfg, blockData, id, snapshot, Records(c, cfg), part);
    AllIntact(c, cfg, part, id, snapshot);
  }

  /** The loop over the index keeps the offsets of the last two entries passed. */
  method VersionOffset(index: SparseIndex, best: Key) returns (prevOffset: nat)
    ensures prevOffset == BlockStart(index, VersionBlock(index, best))
  {
    var startOffset, i := 0, 0;
    prevOffset := 0;
    while i < |index|
      invariant 0 <= i <= |index| && Leading(index, best) == i + Leading(index[i..], best)
      invariant startOffset == (if i == 0 then 0 else index[i - 1].1)
      invariant prevOffset == (if i < 2 then 0 else index[i - 2].1)
    {
      assert index[i..][1..] == index[i + 1..];
      if Less(best, index[i].0) {
        break;
      }
      prevOffset, startOffset := startOffset, index[i].1;
      i := i + 1;
    }
  }

  /** The same scan, which passes over damaged records. */
  ghost function BestIntact(c: Codec, cfg: Config, rec: Encoder, part: Run, id: Key, snapshot: nat, best: Option<Best>)
    : Option<Best>
  {
    if part == [] || (!Less(part[0].key, id) && !IsVersionedKey(part[0].key)) then best
    else
      var next := if rec(part[0]) == Record(c, cfg, part[0]) then Better(part[0], id, snapshot, best) else best;
      BestIntact(c, cfg, rec, part[1..], id, snapshot, next)
  }

  /** It never answers with a damaged record. */
  lemma {:induction false} BestIsIntact(c: Codec, cfg: Config, rec: Encoder, part: Run, id: Key, snapshot: nat,
                                        best: Option<Best>)
    ensures var r := BestIntact(c, cfg, rec, part, id, snapshot, best);
            r == best
            || (r.Some? && exists i :: 0 <= i < |part| && IsIntactVersion(c, cfg, rec, part[i], id, snapshot, r.value))
    decreases |part|
  {
    if part != [] && (Less(part[0].key, id) || IsVersionedKey(part[0].key)) {
      var next := if rec(part[0]) == Record(c, cfg, part[0]) then Better(part[0], id, snapshot, best) else best;
      BestIsIntact(c, cfg, rec, part[1..], id, snapshot, next);
      var r := BestIntact(c, cfg, rec, part, id, snapshot, best);
      if r != next && r.Some? {
        var i :| 0 <= i < |part[1..]| && IsIntactVersion(c, cfg, rec, part[1..][i], id, snapshot, r.value);
        assert part[i + 1] == part[1..][i];
      }
    }
  }

  ghost predicate IsIntactVersion(c: Codec, cfg: Config, rec: Encoder, item: Item, id: Key, snapshot: nat, best: Best)
  {
    && rec(item) == Record(c, cfg, item) && IsVersionOf(item.key, id, snapshot)
    && best == Best(DecodeVersionedKey(item.key).1, item.value)
  }

  lemma {:induction false} AllIntactFrom(c: Codec, cfg: Config, part: Run, id: Key, snapshot: nat, best: Option<Best>)
    ensures BestIntact(c, cfg, Records(c, cfg), part, id, snapshot, best) == BestVersion(part, id, snapshot, best)
    decreases |part|
  {
    if part != [] {
      AllIntactFrom(c, cfg, part[1..], id, snapshot, Better(part[0], id, snapshot, best));
    }
  }

  lemma AllIntact(c: Codec, cfg: Config, part: Run, id: Key, snapshot: nat)
    ensures BestIntact(c, cfg, Records(c, cfg), part, id, snapshot, None) == BestVersion(part, id, snapshot, None)
  {
    AllIntactFrom(c, cfg, part, id, snapshot, None);
  }

  lemma IntactStep(c: Codec, cfg: Config, rec: Encoder, part: Run, i: nat, id: Key, snapshot: nat, best: Option<Best>)
    requires i < |part|
    ensures BestIntact(c, cfg, rec, part[i..], id, snapshot, best)
            == if !Less(part[i].key, id) && !IsVersionedKey(part[i].key) then best
               else BestIntact(c, cfg, rec, part[i + 1..], id, snapshot,
                               if rec(part[i]) == Record(c, cfg, part[i]) then Better(part[i], id, snapshot, best)
                               else best)
  {
    assert part[i..][1..] == part[i + 1..];
  }

  method ScanVersions(c: Codec, ghost cfg: Config, block: Buf, id: Key, snapshot: nat, ghost rec: Encoder,
                      ghost part: Run)
    returns (r: Option<Buf>)
    requires Ascending(part) && AllToldApart(c, cfg, rec, part) && block == DataOf(rec, part)
    ensures r == DocOf(BestIntact(c, cfg, rec, part, id, snapshot, None))
  {
    var pos := 0;
    var best: Option<Best> := None;
    ghost var i := 0;
    ScanStart(rec, part);
    while pos + RECORD_HEADER_SIZE <= |block|
      invariant 0 <= i <= |part| && pos == Offset(rec, part, i)
      invariant i == |part| ==> pos == |block|
      invariant BestIntact(c, cfg, rec, part[i..], id, snapshot, best)
                == BestIntact(c, cfg, rec, part, id, snapshot, None)
      decreases |part| - i
    {
      IntactStep(c, cfg, rec, part, i, id, snapshot, best);
      var p := ParseAt(c, cfg, block, pos, rec, part, i, Undamaged(c, cfg, rec));
      if p.None? {
        break;
      }
      if !Less(p.value.key, id) && !IsVersionedKey(p.value.key) {
        return DocOf(best);
      }
      if p.value.intact {
        best := Better(Item(p.value.key, p.value.doc), id, snapshot, best);
      }
      pos := p.value.next;
      i := i + 1;
    }
    if i < |part| {
      RecordAhead(c, cfg, rec, part, i);
    }
    assert i == |part| ==> part[i..] == [];
    return DocOf(best);
  }

  /**
   * One table's whole answer to `get`: its plain record if the snapshot sees that, or else an old version. The
   * filter turns away only documents the table has neither of.
   */
  method AnswerOfTable(c: Codec, ghost cfg: Config, file: Buf, meta: Meta, bloom: BloomFilter, id: Key, snapshot: nat,
                       visible: Buf -> bool, ghost run: Run)
    returns (r: ReadResult)
    requires bloom.Valid() && !IsVersionedKey(id)
    requires Stored(c, cfg, file, run, bloom.bitArray[..], bloom.size, bloom.hashCount)
    requires CoversRun(bloom.hash, bloom.size, bloom.hashCount, bloom.bitArray[..], run)
    requires meta.index == IndexOf(Records(c, cfg), cfg.blockSize, run)
    ensures r == ResultOf(if Find(run, id).Some? && visible(Find(run, id).value) then Find(run, id)
                          else StoredVersion(Records(c, cfg), cfg.blockSize, run, id, snapshot))
  {
    var maybe := bloom.Check(id);
    AnswerCovered(Records(c, cfg), cfg.blockSize, bloom.hash, bloom.size, bloom.hashCount, bloom.bitArray[..], run,
                  id, snapshot);
    if !maybe {
      return Absent;
    }
    r := ReadStored(c, cfg, file, meta.index, id, run, bloom.bitArray[..], bloom.size, bloom.hashCount);
    if r.Absent? || (r.Found? && !visible(r.doc)) {
      var version :=
        ReadVersionedFromDisk(c, cfg, file, meta.index, id, snapshot, run, bloom.bitArray[..], bloom.size,
                              bloom.hashCount);
      r := ResultOf(version);
    }
  }

  lemma AnswerCovered(rec: Encoder, blockSize: nat, hash: Hash, size: nat, hashCount: nat, bits: Buf, run: Run, id: Key,
                      snapshot: nat)
    requires size > 0 && CoversRun(hash, size, hashCount, bits, run) && Ascending(run) && !IsVersionedKey(id)
    ensures Find(run, id).Some? || StoredVersion(rec, blockSize, run, id, snapshot).Some? ==>
              Covers(bits, Probe(hash, size, hashCount, id))
  {
    if Find(run, id).Some? {
      StoredKeyCovered(hash, size, hashCount, bits, run, id);
    } else if StoredVersion(rec, blockSize, run, id, snapshot).Some? {
      FoundIsStored(rec, blockSize, run, id, snapshot);
      var k :| IsVersionOf(k, id, snapshot) && Find(run, k) == StoredVersion(rec, blockSize, run, id, snapshot);
      FindHolds(run, k);
      var i :| 0 <= i < |run| && run[i].key == k;
      assert RealKey(run[i].key) == id;
    }
  }
}
