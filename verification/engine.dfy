/** What a memtable hands to the table writer when it is flushed. */
module Flushes {
  import opened Keys
  import opened Options
  import opened Versions
  import opened VersionedKeys
  import opened Memtable

  /** The newest version of each plain key, and under plain keys nothing else. */
  ghost predicate HoldsLatest(m: map<Key, Buf>, t: VersionMap)
  {
    forall key :: !IsVersionedKey(key) ==>
      && (key in m <==> key in t && t[key] != [])
      && (key in m && key in t && t[key] != [] ==> m[key] == t[key][0].value)
  }

  ghost predicate LatestTo(m: map<Key, Buf>, es: seq<Entry>, n: nat)
    requires n <= |es|
  {
    && (forall i {:trigger es[i]} :: 0 <= i < n && !IsVersionedKey(es[i].key) && es[i].versions != [] ==>
          es[i].key in m && m[es[i].key] == es[i].versions[0].value)
    && forall key :: key in m && !IsVersionedKey(key) ==> exists i :: 0 <= i < n && es[i].key == key
  }

  /** An item the flush may write: an entry's newest version, or an old one a snapshot may need. */
  ghost predicate IsFlushItem(e: Entry, oldest: nat, key: Key, value: Buf)
  {
    || (e.versions != [] && key == e.key && value == e.versions[0].value)
    || IsVersionItem(e, |e.versions|, oldest, key, value)
  }

  ghost predicate IsVersionItem(e: Entry, n: nat, oldest: nat, key: Key, value: Buf)
    requires n <= |e.versions|
  {
    exists j :: 0 <= j < n && e.versions[j].txn >= oldest && value == e.versions[j].value
                && key == EncodeVersionedKey(e.key, e.versions[j].txn)
  }

  /** Every version no older than the oldest snapshot has its own versioned key. */
  ghost predicate HasVersions(m: map<Key, Buf>, e: Entry, n: nat, oldest: nat)
    requires n <= |e.versions|
  {
    forall j :: 0 <= j < n && e.versions[j].txn >= oldest ==> EncodeVersionedKey(e.key, e.versions[j].txn) in m
  }

  /** A versioned key in the map is one of the memtable's own, or names one of its documents. */
  ghost predicate VersionsAreOwn(m: map<Key, Buf>, t: VersionMap)
  {
    forall key :: key in m && IsVersionedKey(key) ==> IsOwnVersion(key, t)
  }

  ghost predicate IsOwnVersion(key: Key, t: VersionMap)
  {
    var id := DecodeVersionedKey(key).0;
    key in t || (id in t && t[id] != [])
  }

  ghost predicate OnlyItems(m: map<Key, Buf>, es: seq<Entry>, n: nat, oldest: nat)
    requires n <= |es|
  {
    forall key :: key in m ==> exists i :: 0 <= i < n && IsFlushItem(es[i], oldest, key, m[key])
  }

  /** The first `n` entries have their old versions in the map, if those are kept at all. */
  ghost predicate VersionsKept(m: map<Key, Buf>, es: seq<Entry>, n: nat, oldest: nat, kept: bool)
    requires n <= |es|
  {
    if kept then forall i :: 0 <= i < n ==> HasVersions(m, es[i], |es[i].versions|, oldest)
    else forall key :: key in m <==> exists i :: 0 <= i < n && es[i].key == key
  }

  /**
   * `toFlushEntries`, as the map it is turned into: with snapshots open, also each version the oldest one
   * does not precede, under its versioned key. Of two entries with one key the first stays.
   */
  method ToFlushEntries(mem: SortedMemtable, oldestSnapshot: nat, hasOpenSnapshots: bool) returns (out: map<Key, Buf>)
    requires mem.Valid()
    ensures HoldsLatest(out, mem.Contents())
    ensures OnlyItems(out, mem.entries, |mem.entries|, oldestSnapshot)
    ensures VersionsKept(out, mem.entries, |mem.entries|, oldestSnapshot, hasOpenSnapshots)
  {
    out := map[];
    var es := mem.entries;
    var i := 0;
    while i < |es|
      invariant 0 <= i <= |es| && LatestTo(out, es, i)
      invariant OnlyItems(out, es, i, oldestSnapshot)
      invariant VersionsKept(out, es, i, oldestSnapshot, hasOpenSnapshots)
    {
      out := AddEntry(out, es, i, oldestSnapshot, hasOpenSnapshots);
      i := i + 1;
    }
    LatestAll(out, es);
  }

  method AddEntry(m: map<Key, Buf>, es: seq<Entry>, i: nat, oldestSnapshot: nat, hasOpenSnapshots: bool)
    returns (out: map<Key, Buf>)
    requires i < |es| && WellFormed(es) && LatestTo(m, es, i) && OnlyItems(m, es, i, oldestSnapshot)
    requires VersionsKept(m, es, i, oldestSnapshot, hasOpenSnapshots)
    ensures LatestTo(out, es, i + 1) && OnlyItems(out, es, i + 1, oldestSnapshot)
    ensures VersionsKept(out, es, i + 1, oldestSnapshot, hasOpenSnapshots)
  {
    out := m;
    if hasOpenSnapshots {
      out := AddVersions(m, es[i], oldestSnapshot);
    }
    ghost var versioned := out;
    if es[i].key !in out {
      out := out[es[i].key := es[i].versions[0].value];
    }
    LatestStep(m, out, es, i);
    ItemsStep(m, versioned, out, es, i, oldestSnapshot);
    VersionsStep(m, out, es, i, oldestSnapshot, hasOpenSnapshots);
  }

  lemma VersionsStep(before: map<Key, Buf>, after: map<Key, Buf>, es: seq<Entry>, i: nat, oldest: nat, kept: bool)
    requires i < |es| && VersionsKept(before, es, i, oldest, kept)
    requires before.Keys <= after.Keys && es[i].key in after
    requires kept ==> HasVersions(after, es[i], |es[i].versions|, oldest)
    requires !kept ==> after.Keys <= before.Keys + {es[i].key}
    ensures VersionsKept(after, es, i + 1, oldest, kept)
  {
    forall j | kept && 0 <= j < i ensures HasVersions(after, es[j], |es[j].versions|, oldest) {
      assert HasVersions(before, es[j], |es[j].versions|, oldest);
    }
  }

  method AddVersions(m: map<Key, Buf>, e: Entry, oldestSnapshot: nat) returns (out: map<Key, Buf>)
    ensures forall key :: !IsVersionedKey(key) ==> (key in out <==> key in m)
    ensures forall key :: key in m ==> key in out && out[key] == m[key]
    ensures HasVersions(out, e, |e.versions|, oldestSnapshot)
    ensures forall key :: key in out && key !in m ==> IsVersionItem(e, |e.versions|, oldestSnapshot, key, out[key])
  {
    out := m;
    var i := 0;
    while i < |e.versions|
      invariant 0 <= i <= |e.versions|
      invariant forall key :: !IsVersionedKey(key) ==> (key in out <==> key in m)
      invariant forall key :: key in m ==> key in out && out[key] == m[key]
      invariant HasVersions(out, e, i, oldestSnapshot)
      invariant forall key :: key in out && key !in m ==> IsVersionItem(e, i, oldestSnapshot, key, out[key])
    {
      var v := e.versions[i];
      if v.txn >= oldestSnapshot {
        var key := EncodeVersionedKey(e.key, v.txn);
        assert key[..2] == PREFIX;
        if key !in out {
          out := out[key := v.value];
        }
      }
      i := i + 1;
    }
  }

  lemma ItemsStep(before: map<Key, Buf>, versioned: map<Key, Buf>, after: map<Key, Buf>, es: seq<Entry>, i: nat,
                  oldest: nat)
    requires i < |es| && es[i].versions != [] && OnlyItems(before, es, i, oldest)
    requires forall key :: key in before ==> key in versioned && versioned[key] == before[key]
    requires forall key :: key in versioned && key !in before ==>
               IsVersionItem(es[i], |es[i].versions|, oldest, key, versioned[key])
    requires after == if es[i].key in versioned then versioned else versioned[es[i].key := es[i].versions[0].value]
    ensures OnlyItems(after, es, i + 1, oldest)
  {
    forall key | key in after ensures exists j :: 0 <= j < i + 1 && IsFlushItem(es[j], oldest, key, after[key]) {
      if key in before {
        var j :| 0 <= j < i && IsFlushItem(es[j], oldest, key, before[key]);
      } else {
        assert IsFlushItem(es[i], oldest, key, after[key]);
      }
    }
  }

  lemma LatestStep(before: map<Key, Buf>, after: map<Key, Buf>, es: seq<Entry>, i: nat)
    requires i < |es| && Ordered(es) && LatestTo(before, es, i) && es[i].versions != []
    requires forall key :: key in before ==> key in after && after[key] == before[key]
    requires es[i].key in after
    requires forall key :: !IsVersionedKey(key) && key in after ==> key in before || key == es[i].key
    requires !IsVersionedKey(es[i].key) && es[i].key !in before ==> after[es[i].key] == es[i].versions[0].value
    ensures LatestTo(after, es, i + 1)
  {
    if es[i].key in before && !IsVersionedKey(es[i].key) {
      var j :| 0 <= j < i && es[j].key == es[i].key;
      KeysDiffer(es, i, j);
    }
  }

  lemma ItemsAreOwn(m: map<Key, Buf>, es: seq<Entry>, oldest: nat)
    requires WellFormed(es) && OnlyItems(m, es, |es|, oldest)
    ensures VersionsAreOwn(m, TableOf(es))
  {
    forall key | key in m && IsVersionedKey(key) ensures IsOwnVersion(key, TableOf(es)) {
      var i :| 0 <= i < |es| && IsFlushItem(es[i], oldest, key, m[key]);
      TableHas(es, i);
      if key != es[i].key {
        var j :| 0 <= j < |es[i].versions| && key == EncodeVersionedKey(es[i].key, es[i].versions[j].txn);
        assert key[19..] == es[i].key;
      }
    }
  }

  lemma LatestAll(m: map<Key, Buf>, es: seq<Entry>)
    requires WellFormed(es) && LatestTo(m, es, |es|)
    ensures HoldsLatest(m, TableOf(es))
  {
    forall key | !IsVersionedKey(key)
      ensures key in m <==> key in TableOf(es) && TableOf(es)[key] != []
      ensures key in m && key in TableOf(es) && TableOf(es)[key] != [] ==> m[key] == TableOf(es)[key][0].value
    {
      if key in TableOf(es) {
        var i :| 0 <= i < |es| && es[i].key == key;
        TableHas(es, i);
      }
      if key in m {
        var i :| 0 <= i < |es| && es[i].key == key;
        TableHas(es, i);
      }
    }
  }

  /** Documents are stored under plain keys, and transaction ids are 64-bit. */
  ghost predicate PlainEntries(es: seq<Entry>)
  {
    forall i, j :: 0 <= i < |es| && 0 <= j < |es[i].versions| ==>
      !IsVersionedKey(es[i].key) && es[i].versions[j].txn <= NO_SNAPSHOT
  }

  /** The document of one of the entry's versions by that transaction. */
  ghost predicate IsVersionBy(e: Entry, txn: nat, value: Buf)
  {
    exists j :: 0 <= j < |e.versions| && e.versions[j].txn == txn && e.versions[j].value == value
  }

  /**
   * With snapshots open a version is written beside the newest one exactly when the oldest snapshot does not
   * follow it. So of the versions that snapshot may see, only its own and the newest of a document survive.
   */
  lemma VersionFlushedIff(m: map<Key, Buf>, es: seq<Entry>, oldest: nat, i: nat, j: nat)
    requires WellFormed(es) && PlainEntries(es) && OnlyItems(m, es, |es|, oldest)
    requires VersionsKept(m, es, |es|, oldest, true)
    requires i < |es| && j < |es[i].versions|
    ensures var txn := es[i].versions[j].txn;
            var key := EncodeVersionedKey(es[i].key, txn);
            && (key in m <==> txn >= oldest)
            && (key in m ==> IsVersionBy(es[i], txn, m[key]))
  {
    var txn := es[i].versions[j].txn;
    var key := EncodeVersionedKey(es[i].key, txn);
    VersionedKeyRoundTrip(es[i].key, txn);
    assert HasVersions(m, es[i], |es[i].versions|, oldest);
    if key in m {
      var i' :| 0 <= i' < |es| && IsFlushItem(es[i'], oldest, key, m[key]);
      assert es[i'].versions != [] && es[i'].versions[0].txn <= NO_SNAPSHOT;
      assert IsVersionItem(es[i'], |es[i'].versions|, oldest, key, m[key]);
      var j' :| 0 <= j' < |es[i'].versions| && es[i'].versions[j'].txn >= oldest
                && m[key] == es[i'].versions[j'].value
                && key == EncodeVersionedKey(es[i'].key, es[i'].versions[j'].txn);
      VersionedKeyRoundTrip(es[i'].key, es[i'].versions[j'].txn);
      KeysDiffer(es, i, i');
    }
  }

  /** A snapshot between two writes of a document reads the older one in memory; the flush drops it. */
  lemma DroppedVersion(m: map<Key, Buf>, es: seq<Entry>, older: Buf, newer: Buf)
    requires |es| == 1 && es[0].versions == [Version(3, newer), Version(1, older)] && PlainEntries(es)
    requires WellFormed(es) && HoldsLatest(m, TableOf(es)) && OnlyItems(m, es, 1, 2) && VersionsKept(m, es, 1, 2, true)
    ensures TableRead(TableOf(es), es[0].key, 2) == Some(older)
    ensures EncodeVersionedKey(es[0].key, 1) !in m && es[0].key in m && m[es[0].key] == newer
  {
    TableHas(es, 0);
    assert es[0].versions[0].txn == 3 && !IsVersionedKey(es[0].key);
    assert es[0].versions[1..] == [Version(1, older)] && ReadAt([Version(1, older)], 2) == Some(older);
    assert ReadAt(es[0].versions, 2) == ReadAt(es[0].versions[1..], 2);
    VersionFlushedIff(m, es, 2, 0, 1);
  }
}

/** From a memtable to the table its flush writes. */
module FlushTables {
  import opened Keys
  import opened Options
  import opened Versions
  import opened Memtable
  import opened Runs
  import opened Layout
  import opened RecordFormat
  import opened Bloom
  import opened SSTables
  import opened Compaction
  import opened Leveled
  import opened LeveledStores
  import DiskReads
  import opened Flushes

  ghost predicate HoldsMap(table: Table, m: map<Key, Buf>)
  {
    forall key :: Find(table.run, key) == if key in m then Some(m[key]) else None
  }

  /** The newest version of each of the memtable's plain keys, no other plain key, and versions of its documents. */
  ghost predicate FlushesTo(t: VersionMap, table: Table)
  {
    exists m :: HoldsLatest(m, t) && VersionsAreOwn(m, t) && HoldsMap(table, m)
  }

  /** Every record a flush may write survives the codec. */
  ghost predicate AllInvertible(c: Codec, es: seq<Entry>, oldest: nat)
  {
    forall i, key, value :: 0 <= i < |es| && IsFlushItem(es[i], oldest, key, value) ==> Invertible(c, Item(key, value))
  }

  /**
   * The flush itself: a memtable's entries are written to a file, and the table of that file holds what the
   * memtable flushes to, with true bounds and a covering filter.
   */
  method FlushMemtable(c: Codec, cfg: Config, hash: Hash, bloomSize: nat, hashCount: nat, mem: SortedMemtable,
                     oldestSnapshot: nat, hasOpenSnapshots: bool, id: nat)
    returns (table: Option<Table>, file: Buf, bloom: BloomFilter, ghost run: Run)
    requires mem.Valid() && bloomSize > 0 && AllInvertible(c, mem.entries, oldestSnapshot)
    ensures fresh(bloom) && bloom.Valid()
    ensures table.Some? <==> FileFits(FormatOf(c, cfg), run, bloomSize, hashCount)
    ensures table.Some? ==>
              && FlushesTo(mem.Contents(), table.value) && Bounded(table.value)
              && table.value.id == id && table.value.run == run
              && bloom.hash == hash && bloom.size == bloomSize && bloom.hashCount == hashCount
              && Stored(c, cfg, file, run, bloom.bitArray[..], bloomSize, hashCount)
              && CoversRun(hash, bloomSize, hashCount, bloom.bitArray[..], run)
              && (!hasOpenSnapshots ==> forall key :: DiskReads.Has(table.value, key) ==> key in mem.Contents())
  {
    var entries := ToFlushEntries(mem, oldestSnapshot, hasOpenSnapshots);
    ItemsInvertible(c, mem.entries, oldestSnapshot, entries);
    ItemsAreOwn(entries, mem.entries, oldestSnapshot);
    var built;
    built, bloom, run := WriteSSTableFile(c, cfg, hash, bloomSize, hashCount, entries);
    var records := RunOf(entries);
    RunsByFind(run, records);
    file, table := [], None;
    if built.Some? {
      var meta := built.value.meta;
      file, table := built.value.file, Some(Table(id, records, meta.minKey, meta.maxKey, meta.sizeBytes));
      EndsBound(table.value);
      assert HoldsMap(table.value, entries);
      PlainFlush(mem.entries, entries, oldestSnapshot, hasOpenSnapshots);
    }
  }

  /** `runFlush` on the levels: an id is taken, the file written, and its table put in front of level 0. */
  method FlushToLevels(c: Codec, cfg: Config, hash: Hash, bloomSize: nat, hashCount: nat, mem: SortedMemtable,
                       oldestSnapshot: nat, hasOpenSnapshots: bool, store: LeveledStore)
    returns (table: Option<Table>)
    requires mem.Valid() && bloomSize > 0 && AllInvertible(c, mem.entries, oldestSnapshot)
    requires store.Valid() && store.levels != []
    modifies store
    ensures store.Valid() && store.nextSstableId == old(store.nextSstableId) + 1
    ensures table.None? ==> store.place == old(store.place) && store.levels == old(store.levels)
    ensures table.Some? ==>
              && FlushesTo(mem.Contents(), table.value) && Bounded(table.value)
              && store.levels == old(store.levels)[0 := [table.value] + old(store.levels[0])]
              && store.place == old(store.place)[table.value := 0]
              && forall t :: t in old(store.place) ==> t.id < table.value.id
  {
    var id := store.TakeId();
    var file, bloom;
    ghost var run;
    table, file, bloom, run := FlushMemtable(c, cfg, hash, bloomSize, hashCount, mem, oldestSnapshot,
                                             hasOpenSnapshots, id);
    if table.Some? {
      store.AddFlushed(table.value);
    }
  }

  /** With no snapshot open only the memtable's own keys are written. */
  lemma PlainFlush(es: seq<Entry>, m: map<Key, Buf>, oldest: nat, kept: bool)
    requires WellFormed(es) && VersionsKept(m, es, |es|, oldest, kept)
    ensures !kept ==> forall key :: key in m ==> key in TableOf(es)
  {
    forall key | !kept && key in m ensures key in TableOf(es) {
      var i :| 0 <= i < |es| && es[i].key == key;
      TableHas(es, i);
    }
  }

  lemma ItemsInvertible(c: Codec, es: seq<Entry>, oldest: nat, m: map<Key, Buf>)
    requires AllInvertible(c, es, oldest) && OnlyItems(m, es, |es|, oldest)
    ensures forall key :: key in m ==> Invertible(c, Item(key, m[key]))
  {
    forall key | key in m ensures Invertible(c, Item(key, m[key])) {
      var i :| 0 <= i < |es| && IsFlushItem(es[i], oldest, key, m[key]);
    }
  }

  /** The records of a map in key order. */
  method RunOf(entries: map<Key, Buf>) returns (run: Run)
    ensures IsRunOf(run, entries)
  {
    var keys := SortedKeys(entries.Keys);
    run := [];
    var i := 0;
    while i < |keys|
      invariant 0 <= i <= |keys| && |run| == i
      invariant forall k :: 0 <= k < i ==> run[k] == Item(keys[k], entries[keys[k]])
    {
      run := run + [Item(keys[i], entries[keys[i]])];
      i := i + 1;
    }
    forall key ensures Find(run, key) == if key in entries then Some(entries[key]) else None {
      FindHolds(run, key);
      if key in entries {
        var k :| 0 <= k < |keys| && keys[k] == key;
        FindAt(run, k);
      }
    }
  }

  /** The first and the last key of a table bound it. */
  lemma EndsBound(t: Table)
    requires Ascending(t.run)
    requires t.run != [] ==> t.minKey == t.run[0].key && t.maxKey == t.run[|t.run| - 1].key
    ensures Bounded(t)
  {
    forall key | DiskReads.Has(t, key) ensures LessEq(t.minKey, key) && LessEq(key, t.maxKey) {
      FindHolds(t.run, key);
      var i :| 0 <= i < |t.run| && t.run[i].key == key;
      assert i > 0 ==> Less(t.run[0].key, t.run[i].key);
      assert i < |t.run| - 1 ==> Less(t.run[i].key, t.run[|t.run| - 1].key);
    }
  }
}

/**
 * Whole runs of a collection: writes, commits, rotations, flushes in order, and compactions. Through all of them
 * the newest plain records are those of a map of the last writes, and `get` reads them exactly when no old version
 * that reads otherwise is found first.
 */
module Engine {
  import opened Keys
  import opened Options
  import opened Versions
  import opened VersionedKeys
  import opened Memtable
  import opened SnapshotRuns
  import opened Runs
  import opened Compaction
  import opened DiskReads
  import opened CompactionMeaning
  import opened SSTables
  import opened TableAnswers
  import opened GetReads
  import opened Leveled
  import opened Flushes
  import opened FlushTables
  import opened Scans

  datatype Store = Store(
    mem: VersionMap,
    imm: seq<VersionMap>,
    place: Placement,
    nextTxn: nat,
    committed: nat,
    /** The last document written under each key. */
    written: map<Key, Buf>)

  datatype Move =
    | Write(writes: seq<SnapshotRuns.Write>, oldest: nat)
    | RotateMem
    | Flush(at: nat, table: Table)
    | Compact(step: Leveled.Step)

  ghost const NEW_STORE: Store := Store(map[], [], map[], 1, 0, map[])

  /**
   * `table` holds what an immutable memtable flushes to. It took its id when the flush began, so that others may
   * have got greater ones since; and a flush that had to be tried again may end after later ones.
   */
  ghost predicate IsFlush(st: Store, at: nat, table: Table)
  {
    && at < |st.imm|
    && (forall t :: t in st.place ==> t.id != table.id)
    && FlushesTo(st.imm[at], table)
  }

  /** A flush of the oldest memtable that nothing has overtaken. */
  ghost predicate IsOrderlyFlush(st: Store, at: nat, table: Table)
  {
    && IsFlush(st, at, table)
    && at == 0
    && forall t :: t in st.place ==> t.id < table.id
  }

  ghost function NewerThan(ts: set<Table>, id: nat): set<Table>
  {
    set t | t in ts && t.id > id
  }

  /** A document that leaves memory must not come to stand behind an older memtable or a table of a greater id. */
  ghost predicate FlushKeepsMeaning(st: Store, at: nat, table: Table, isDeleted: Tombstone, key: Key)
    requires at < |st.imm|
  {
    key !in st.imm[at] || st.imm[at][key] == [] || MemoryRead(st.mem, st.imm[at + 1..], key, st.committed).Some? ||
    var doc := Live(isDeleted, Some(st.imm[at][key][0].value));
    var older, newer := ReadStack(st.imm[..at], key, st.committed), Record(NewerThan(st.place.Keys, table.id), key);
    if older.Some? then Live(isDeleted, older) == doc else newer.None? || Live(isDeleted, newer) == doc
  }

  ghost predicate IsSoundFlush(st: Store, at: nat, table: Table, isDeleted: Tombstone)
  {
    && IsFlush(st, at, table)
    && forall key :: !IsVersionedKey(key) ==> FlushKeepsMeaning(st, at, table, isDeleted, key)
  }

  /** A compaction of the store, whatever its bounds and levels are like. */
  ghost predicate IsCompaction(st: Store, step: Leveled.Step, isDeleted: Tombstone)
  {
    && Compacts(st.place, step, Moved(st.place, step.inputs, step.results, step.level + 1))
    && step.policy.isDeleted == isDeleted
  }

  /** A compaction that keeps the meaning of every plain key memory does not answer. */
  ghost predicate IsSound(st: Store, step: Leveled.Step, isDeleted: Tombstone)
  {
    && IsCompaction(st, step, isDeleted)
    && forall key :: !IsVersionedKey(key) ==>
        IsCovered(st, key) || KeepsMeaning(st.place.Keys, step.inputs, step.policy, key)
  }

  ghost predicate IsCovered(st: Store, key: Key)
  {
    MemoryRead(st.mem, st.imm, key, st.committed).Some?
  }

  /** What the code relies on: true bounds, and inputs that nothing outside overrides or depends on. */
  ghost predicate IsGuarded(st: Store, step: Leveled.Step, isDeleted: Tombstone)
  {
    && IsCompaction(st, step, isDeleted)
    && TrueBounds(st.place) && UpperClear(st.place, step) && BottomClear(st.place, step)
  }

  ghost predicate CanMove(st: Store, move: Move, isDeleted: Tombstone)
  {
    match move
    case Write(writes, _) => writes != [] && DistinctKeys(writes)
    case RotateMem => true
    case Flush(at, table) => IsSoundFlush(st, at, table, isDeleted)
    case Compact(step) => IsSound(st, step, isDeleted)
  }

  ghost function MoveStore(st: Store, move: Move): Store
    requires move.Flush? ==> move.at < |st.imm|
  {
    match move
    case Write(writes, oldest) =>
      st.(mem := SetAll(st.mem, writes, st.nextTxn, oldest),
          nextTxn := st.nextTxn + 1,
          committed := Max(st.nextTxn, st.committed),
          written := PutAll(st.written, writes))
    case RotateMem => st.(mem := map[], imm := st.imm + [st.mem])
    case Flush(at, table) => st.(imm := st.imm[..at] + st.imm[at + 1..], place := st.place[table := 0])
    case Compact(step) => st.(place := Moved(st.place, step.inputs, step.results, step.level + 1))
  }

  /** The newest record of a plain key at the latest committed point: memory first, then the disk. */
  ghost function PlainGet(st: Store, key: Key, isDeleted: Tombstone): Option<Buf>
  {
    var top := MemoryRead(st.mem, st.imm, key, st.committed);
    Live(isDeleted, if top.Some? then top else Record(st.place.Keys, key))
  }

  /** What a plain map of documents would answer. */
  ghost function Expected(st: Store, key: Key, isDeleted: Tombstone): Option<Buf>
  {
    if key in st.written then Live(isDeleted, Some(st.written[key])) else None
  }

  ghost predicate AllCommitted(imm: seq<VersionMap>, committed: nat)
  {
    forall i :: 0 <= i < |imm| ==> Committed(imm[i], committed)
  }

  /** The newest record of every plain key is what the map of the writes holds. */
  ghost predicate Refines(st: Store, isDeleted: Tombstone)
  {
    forall key :: !IsVersionedKey(key) ==> PlainGet(st, key, isDeleted) == Expected(st, key, isDeleted)
  }

  ghost predicate StoreInv(st: Store, isDeleted: Tombstone)
  {
    && st.committed < st.nextTxn
    && Committed(st.mem, st.committed) && AllCommitted(st.imm, st.committed)
    && UniqueIds(st.place.Keys)
    && Refines(st, isDeleted)
  }

  lemma {:induction false} CommittedStack(imm: seq<VersionMap>, committed: nat, key: Key, snapshot: nat)
    requires AllCommitted(imm, committed) && committed <= snapshot
    ensures ReadStack(imm, key, snapshot) == ReadStack(imm, key, committed)
  {
    if imm != [] {
      var n := |imm| - 1;
      CommittedRead(imm[n], committed, key, snapshot);
      CommittedRead(imm[n], committed, key, committed);
      CommittedStack(imm[..n], committed, key, snapshot);
    }
  }

  lemma WriteRefines(st: Store, writes: seq<SnapshotRuns.Write>, oldest: nat, isDeleted: Tombstone, key: Key)
    requires StoreInv(st, isDeleted) && DistinctKeys(writes) && !IsVersionedKey(key)
    ensures var st' := MoveStore(st, Move.Write(writes, oldest));
            PlainGet(st', key, isDeleted) == Expected(st', key, isDeleted)
  {
    var txn := st.nextTxn;
    SetAllRead(st.mem, writes, txn, oldest, key, txn);
    PutAllHas(st.written, writes, key);
    CommittedRead(st.mem, st.committed, key, txn);
    CommittedRead(st.mem, st.committed, key, st.committed);
    CommittedStack(st.imm, st.committed, key, txn);
    if w :| w in writes && w.key == key {
      assert TableRead(SetAll(st.mem, writes, txn, oldest), key, txn) == Some(w.value);
    } else {
      assert PlainGet(st, key, isDeleted) == Expected(st, key, isDeleted);
    }
  }

  lemma WriteKeeps(st: Store, writes: seq<SnapshotRuns.Write>, oldest: nat, isDeleted: Tombstone)
    requires StoreInv(st, isDeleted) && DistinctKeys(writes)
    ensures StoreInv(MoveStore(st, Move.Write(writes, oldest)), isDeleted)
  {
    SetAllKeepsCommitted(st.mem, writes, st.nextTxn, oldest);
    forall key | !IsVersionedKey(key)
      ensures var st' := MoveStore(st, Move.Write(writes, oldest));
              PlainGet(st', key, isDeleted) == Expected(st', key, isDeleted)
    {
      WriteRefines(st, writes, oldest, isDeleted, key);
    }
  }

  lemma RotateKeeps(st: Store, isDeleted: Tombstone)
    requires StoreInv(st, isDeleted)
    ensures StoreInv(MoveStore(st, RotateMem), isDeleted)
  {
    var st' := MoveStore(st, RotateMem);
    assert st'.imm[..|st'.imm| - 1] == st.imm;
    forall key | !IsVersionedKey(key) ensures PlainGet(st', key, isDeleted) == Expected(st', key, isDeleted) {
      assert PlainGet(st, key, isDeleted) == Expected(st, key, isDeleted);
    }
  }

  /** On disk, the new table stands behind those of greater ids. */
  lemma FlushRecord(all: set<Table>, table: Table, key: Key)
    requires UniqueIds(all) && UniqueIds(all + {table})
    ensures Record(all + {table}, key) ==
            if !Has(table, key) then Record(all, key)
            else if Record(NewerThan(all, table.id), key).Some? then Record(NewerThan(all, table.id), key)
            else Find(table.run, key)
  {
    var newer := NewerThan(all, table.id);
    RecordNone(newer, key);
    if !Has(table, key) {
      SameHolders(all, all + {table}, key);
    } else if Record(newer, key).Some? {
      HolderExists(newer, key);
      var t :| IsHolder(newer, key, t);
      RecordIs(newer, key, t);
      assert forall u :: u in all + {table} && Has(u, key) && u !in newer ==> u.id <= table.id;
      assert IsHolder(all + {table}, key, t);
      RecordIs(all + {table}, key, t);
    } else {
      assert forall u :: u in all && Has(u, key) ==> u !in newer && u.id <= table.id;
      assert IsHolder(all + {table}, key, table);
      RecordIs(all + {table}, key, table);
    }
  }

  lemma {:induction false} ReadStackConcat(a: seq<VersionMap>, b: seq<VersionMap>, key: Key, snapshot: nat)
    ensures ReadStack(a + b, key, snapshot) ==
            if ReadStack(b, key, snapshot).Some? then ReadStack(b, key, snapshot) else ReadStack(a, key, snapshot)
    decreases |b|
  {
    if b == [] {
      assert a + b == a;
    } else {
      var n := |b| - 1;
      assert (a + b)[..|a + b| - 1] == a + b[..n];
      ReadStackConcat(a, b[..n], key, snapshot);
    }
  }

  /** In memory, the flushed memtable was asked between those above and those below it. */
  lemma FlushMemory(mem: VersionMap, imm: seq<VersionMap>, at: nat, committed: nat, key: Key)
    requires at < |imm| && AllCommitted(imm, committed)
    ensures var above, below := MemoryRead(mem, imm[at + 1..], key, committed), ReadStack(imm[..at], key, committed);
            && MemoryRead(mem, imm, key, committed) ==
               (if above.Some? then above else if key in imm[at] then Some(imm[at][key][0].value) else below)
            && MemoryRead(mem, imm[..at] + imm[at + 1..], key, committed) == (if above.Some? then above else below)
  {
    assert imm == imm[..at] + imm[at..];
    ReadStackConcat(imm[..at], imm[at..], key, committed);
    ReadStackBelow(imm, at, key, committed);
    CommittedRead(imm[at], committed, key, committed);
    ReadStackConcat(imm[..at], imm[at + 1..], key, committed);
  }

  lemma FlushHolds(t: VersionMap, table: Table, key: Key)
    requires FlushesTo(t, table) && !IsVersionedKey(key)
    ensures Find(table.run, key) == if key in t && t[key] != [] then Some(t[key][0].value) else None
  {
    var m :| HoldsLatest(m, t) && VersionsAreOwn(m, t) && HoldsMap(table, m);
    assert Find(table.run, key) == if key in m then Some(m[key]) else None;
  }

  lemma FlushIds(p: Placement, table: Table)
    requires UniqueIds(p.Keys) && forall t :: t in p ==> t.id != table.id
    ensures UniqueIds(p[table := 0].Keys) && p[table := 0].Keys == p.Keys + {table}
  {
  }

  /** A flush leaves the newest plain record's reading exactly when it keeps its meaning. */
  lemma FlushReadsIff(st: Store, at: nat, table: Table, isDeleted: Tombstone, key: Key)
    requires AllCommitted(st.imm, st.committed) && UniqueIds(st.place.Keys)
    requires IsFlush(st, at, table) && !IsVersionedKey(key)
    ensures PlainGet(MoveStore(st, Flush(at, table)), key, isDeleted) == PlainGet(st, key, isDeleted)
            <==> FlushKeepsMeaning(st, at, table, isDeleted, key)
  {
    FlushIds(st.place, table);
    FlushMemory(st.mem, st.imm, at, st.committed, key);
    FlushRecord(st.place.Keys, table, key);
    FlushHolds(st.imm[at], table, key);
    assert key in st.imm[at] ==> st.imm[at][key] != [];
  }

  /** One that nothing has overtaken always does: what left memory is now the newest on disk. */
  lemma OrderlyIsSound(st: Store, at: nat, table: Table, isDeleted: Tombstone)
    requires IsOrderlyFlush(st, at, table)
    ensures IsSoundFlush(st, at, table, isDeleted)
  {
    assert NewerThan(st.place.Keys, table.id) == {};
    forall key ensures Record({}, key).None? && ReadStack(st.imm[..0], key, st.committed).None? {
      RecordNone({}, key);
    }
  }

  lemma FlushLayers(p: Placement, table: Table)
    requires Layered(p) && forall t :: t in p ==> t.id < table.id
    ensures Layered(p[table := 0])
  {
    var p' := p[table := 0];
    forall t, u | t in p' && u in p' ensures Apart(p', t, u) {
      if t in p && u in p {
        assert Apart(p, t, u);
      }
    }
  }

  lemma FlushKeepsIff(st: Store, at: nat, table: Table, isDeleted: Tombstone)
    requires StoreInv(st, isDeleted) && IsFlush(st, at, table)
    ensures StoreInv(MoveStore(st, Flush(at, table)), isDeleted) <==> IsSoundFlush(st, at, table, isDeleted)
  {
    FlushIds(st.place, table);
    forall key | !IsVersionedKey(key)
      ensures PlainGet(MoveStore(st, Flush(at, table)), key, isDeleted) == Expected(st, key, isDeleted)
              <==> FlushKeepsMeaning(st, at, table, isDeleted, key)
    {
      assert PlainGet(st, key, isDeleted) == Expected(st, key, isDeleted);
      FlushReadsIff(st, at, table, isDeleted, key);
    }
  }

  /** A compaction leaves the newest plain record's reading exactly when memory answers or its meaning is kept. */
  lemma CompactReadsIff(st: Store, step: Leveled.Step, isDeleted: Tombstone, key: Key)
    requires IsCompaction(st, step, isDeleted) && !IsVersionedKey(key)
    ensures PlainGet(MoveStore(st, Compact(step)), key, isDeleted) == PlainGet(st, key, isDeleted)
            <==> IsCovered(st, key) || KeepsMeaning(st.place.Keys, step.inputs, step.policy, key)
  {
    StepPreservesPlainIff(st.place, step, Moved(st.place, step.inputs, step.results, step.level + 1), key);
  }

  /** So a store whose newest records are the map's goes on being one exactly when the compaction is sound. */
  lemma CompactKeepsIff(st: Store, step: Leveled.Step, isDeleted: Tombstone)
    requires StoreInv(st, isDeleted) && IsCompaction(st, step, isDeleted)
    ensures StoreInv(MoveStore(st, Compact(step)), isDeleted) <==> IsSound(st, step, isDeleted)
  {
    CompactIds(st, step, isDeleted);
    forall key | !IsVersionedKey(key)
      ensures PlainGet(MoveStore(st, Compact(step)), key, isDeleted) == Expected(st, key, isDeleted)
              <==> IsCovered(st, key) || KeepsMeaning(st.place.Keys, step.inputs, step.policy, key)
    {
      assert PlainGet(st, key, isDeleted) == Expected(st, key, isDeleted);
      CompactReadsIff(st, step, isDeleted, key);
    }
  }

  lemma CompactIds(st: Store, step: Leveled.Step, isDeleted: Tombstone)
    requires IsCompaction(st, step, isDeleted)
    ensures UniqueIds(MoveStore(st, Compact(step)).place.Keys)
  {
    StepKeys(st.place, step, Moved(st.place, step.inputs, step.results, step.level + 1));
  }

  /** What the code relies on is enough, and keeps the layers it needs the next time. */
  lemma GuardedIsSound(st: Store, step: Leveled.Step, isDeleted: Tombstone)
    requires Layered(st.place) && IsGuarded(st, step, isDeleted)
    ensures IsSound(st, step, isDeleted) && Layered(MoveStore(st, Compact(step)).place)
  {
    GuardedLayers(st, step, isDeleted, MoveStore(st, Compact(step)).place);
    forall key | !IsVersionedKey(key) ensures KeepsMeaning(st.place.Keys, step.inputs, step.policy, key) {
      GuardedMeaning(st, step, isDeleted, key);
    }
  }

  lemma GuardedMeaning(st: Store, step: Leveled.Step, isDeleted: Tombstone, key: Key)
    requires Layered(st.place) && IsGuarded(st, step, isDeleted) && !IsVersionedKey(key)
    ensures KeepsMeaning(st.place.Keys, step.inputs, step.policy, key)
  {
    GuardsKeepMeaning(st.place, step, Moved(st.place, step.inputs, step.results, step.level + 1), key);
  }

  lemma GuardedLayers(st: Store, step: Leveled.Step, isDeleted: Tombstone, after: Placement)
    requires Layered(st.place) && IsGuarded(st, step, isDeleted) && after == MoveStore(st, Compact(step)).place
    ensures Layered(after)
  {
    StepPreservesLayers(st.place, step, after);
  }

  lemma MoveKeeps(st: Store, move: Move, isDeleted: Tombstone)
    requires StoreInv(st, isDeleted) && CanMove(st, move, isDeleted)
    ensures StoreInv(MoveStore(st, move), isDeleted)
  {
    match move {
      case Write(writes, oldest) => WriteKeeps(st, writes, oldest, isDeleted);
      case RotateMem => RotateKeeps(st, isDeleted);
      case Flush(at, table) => FlushKeepsIff(st, at, table, isDeleted);
      case Compact(step) => CompactKeepsIff(st, step, isDeleted);
    }
  }

  ghost predicate CanRun(st: Store, moves: seq<Move>, isDeleted: Tombstone)
    decreases |moves|
  {
    moves == [] || (CanMove(st, moves[0], isDeleted) && CanRun(MoveStore(st, moves[0]), moves[1..], isDeleted))
  }

  ghost function RunStore(st: Store, moves: seq<Move>, isDeleted: Tombstone): Store
    requires CanRun(st, moves, isDeleted)
    decreases |moves|
  {
    if moves == [] then st else RunStore(MoveStore(st, moves[0]), moves[1..], isDeleted)
  }

  lemma {:induction false} RunKeeps(st: Store, moves: seq<Move>, isDeleted: Tombstone)
    requires StoreInv(st, isDeleted) && CanRun(st, moves, isDeleted)
    ensures StoreInv(RunStore(st, moves, isDeleted), isDeleted)
    decreases |moves|
  {
    if moves != [] {
      MoveKeeps(st, moves[0], isDeleted);
      RunKeeps(MoveStore(st, moves[0]), moves[1..], isDeleted);
    }
  }

  /** A move whose flush or compaction is guarded, which is a matter of order, bounds and levels only. */
  ghost predicate IsGuardedMove(st: Store, move: Move, isDeleted: Tombstone)
  {
    match move
    case Flush(at, table) => IsOrderlyFlush(st, at, table)
    case Compact(step) => IsGuarded(st, step, isDeleted)
    case _ => CanMove(st, move, isDeleted)
  }

  ghost predicate IsGuardedRun(st: Store, moves: seq<Move>, isDeleted: Tombstone)
    decreases |moves|
  {
    moves == [] ||
    (IsGuardedMove(st, moves[0], isDeleted) && IsGuardedRun(MoveStore(st, moves[0]), moves[1..], isDeleted))
  }

  lemma GuardedCanMove(st: Store, move: Move, isDeleted: Tombstone)
    requires Layered(st.place) && IsGuardedMove(st, move, isDeleted)
    ensures CanMove(st, move, isDeleted) && Layered(MoveStore(st, move).place)
  {
    match move {
      case Compact(step) => GuardedIsSound(st, step, isDeleted);
      case Flush(at, table) =>
        OrderlyIsSound(st, at, table, isDeleted);
        FlushLayers(st.place, table);
      case _ =>
    }
  }

  lemma {:induction false} GuardedRunIsRun(st: Store, moves: seq<Move>, isDeleted: Tombstone)
    requires Layered(st.place) && IsGuardedRun(st, moves, isDeleted)
    ensures CanRun(st, moves, isDeleted)
    decreases |moves|
  {
    if moves != [] {
      GuardedCanMove(st, moves[0], isDeleted);
      GuardedRunIsRun(MoveStore(st, moves[0]), moves[1..], isDeleted);
    }
  }

  lemma NewStoreInv(isDeleted: Tombstone)
    ensures StoreInv(NEW_STORE, isDeleted)
  {
    forall key ensures PlainGet(NEW_STORE, key, isDeleted) == Expected(NEW_STORE, key, isDeleted) {
      RecordNone(NEW_STORE.place.Keys, key);
    }
  }

  /**
   * `get` at the latest committed point: memory first, then the newest table that answers, be it with the plain
   * record or with an old version.
   */
  ghost function Get(st: Store, key: Key, isDeleted: Tombstone, f: Format): Option<Buf>
  {
    var top := MemoryRead(st.mem, st.imm, key, st.committed);
    Live(isDeleted, if top.Some? then top else Got(st.place.Keys, key, CodeOlder(f, st.committed)))
  }

  /** Memory answers the key, or the disk answers as the newest plain record reads. */
  ghost predicate AnswersPlain(st: Store, key: Key, isDeleted: Tombstone, f: Format)
  {
    IsCovered(st, key) || VersionsAgree(st.place.Keys, key, CodeOlder(f, st.committed), isDeleted)
  }

  lemma GetIsPlainIff(st: Store, key: Key, isDeleted: Tombstone, f: Format)
    requires UniqueIds(st.place.Keys)
    ensures Get(st, key, isDeleted, f) == PlainGet(st, key, isDeleted) <==> AnswersPlain(st, key, isDeleted, f)
  {
    GotIff(st.place.Keys, key, CodeOlder(f, st.committed), isDeleted);
  }

  /**
   * When the collection is a map. After any run from an empty collection whose flushes and compactions are sound,
   * wherever its data has got to among memtable, immutable queue and levels, the newest record of every plain key is
   * the document last written under it, a deletion or none if there is none; and `get` returns just that exactly
   * when memory answers, or no table that reads otherwise answers first with an old version.
   */
  lemma CollectionIsAMap(moves: seq<Move>, isDeleted: Tombstone, key: Key, f: Format)
    requires CanRun(NEW_STORE, moves, isDeleted) && !IsVersionedKey(key)
    ensures var st := RunStore(NEW_STORE, moves, isDeleted);
            && PlainGet(st, key, isDeleted) == Expected(st, key, isDeleted)
            && (Get(st, key, isDeleted, f) == Expected(st, key, isDeleted) <==> AnswersPlain(st, key, isDeleted, f))
  {
    NewStoreInv(isDeleted);
    RunKeeps(NEW_STORE, moves, isDeleted);
    GetIsPlainIff(RunStore(NEW_STORE, moves, isDeleted), key, isDeleted, f);
  }
}

/** Runs in which no old version is ever above the newest record of its document. */
module VersionSafety {
  import opened Keys
  import opened Options
  import opened Versions
  import opened VersionedKeys
  import opened Memtable
  import opened SnapshotRuns
  import opened Runs
  import opened SSTables
  import opened StoredVersions
  import opened Compaction
  import opened DiskReads
  import opened CompactionMeaning
  import opened TableAnswers
  import opened GetReads
  import opened GetMeaning
  import opened Leveled
  import opened LeveledGets
  import opened Flushes
  import opened FlushTables
  import opened Engine

  /** The greatest id a snapshot can have: ids are 64 bits, and the last one means none. */
  const LAST_SNAPSHOT: nat := NO_SNAPSHOT - 1

  /** A reader that would answer with any version at all. */
  ghost function AnyVersion(): Older
  {
    (t: Table, key: Key) => if HasVersion(t, key, LAST_SNAPSHOT) then Some([]) else None
  }

  ghost predicate OnlyPlain(t: VersionMap)
  {
    forall key :: key in t ==> !IsVersionedKey(key)
  }

  ghost predicate PlainMemory(st: Store)
  {
    OnlyPlain(st.mem) && forall i :: 0 <= i < |st.imm| ==> OnlyPlain(st.imm[i])
  }

  ghost predicate VersionsBelow(ts: set<Table>)
  {
    forall key {:trigger NoVersionAbove(ts, key, AnyVersion())} :: !IsVersionedKey(key) ==>
      NoVersionAbove(ts, key, AnyVersion())
  }

  ghost predicate PlainWrites(writes: seq<SnapshotRuns.Write>)
  {
    forall i :: 0 <= i < |writes| ==> !IsVersionedKey(writes[i].key)
  }

  ghost predicate StepVersionsStay(p: Placement, s: Leveled.Step)
  {
    forall key {:trigger VersionsStayBelow(p, s, key, AnyVersion(), LAST_SNAPSHOT)} :: !IsVersionedKey(key) ==>
      VersionsStayBelow(p, s, key, AnyVersion(), LAST_SNAPSHOT)
  }

  /** Documents are written under plain keys, and a compaction moves no version without its record. */
  ghost predicate KeepsVersions(st: Store, move: Move)
  {
    match move
    case Write(writes, _) => PlainWrites(writes)
    case Compact(step) => StepVersionsStay(st.place, step)
    case _ => true
  }

  ghost predicate KeepsVersionsRun(st: Store, moves: seq<Move>, isDeleted: Tombstone)
    requires CanRun(st, moves, isDeleted)
    decreases |moves|
  {
    moves == [] || (KeepsVersions(st, moves[0]) && KeepsVersionsRun(MoveStore(st, moves[0]), moves[1..], isDeleted))
  }

  lemma {:induction false} SetAllPlain(t: VersionMap, writes: seq<SnapshotRuns.Write>, txn: nat, oldest: nat)
    requires OnlyPlain(t) && PlainWrites(writes)
    ensures OnlyPlain(SetAll(t, writes, txn, oldest))
    decreases |writes|
  {
    if writes != [] {
      SetAllPlain(TableSet(t, writes[0].key, txn, writes[0].value, oldest), writes[1..], txn, oldest);
    }
  }

  lemma MemoryStaysPlain(st: Store, move: Move, isDeleted: Tombstone)
    requires PlainMemory(st) && CanMove(st, move, isDeleted) && (move.Write? ==> PlainWrites(move.writes))
    ensures PlainMemory(MoveStore(st, move))
  {
    if move.Write? {
      SetAllPlain(st.mem, move.writes, st.nextTxn, move.oldest);
    }
  }

  /** A flushed table that holds a version holds its document's record too. */
  lemma FlushHoldsBoth(t: VersionMap, table: Table, key: Key, snapshot: nat)
    requires FlushesTo(t, table) && OnlyPlain(t) && !IsVersionedKey(key) && HasVersion(table, key, snapshot)
    ensures Has(table, key)
  {
    var m :| HoldsLatest(m, t) && VersionsAreOwn(m, t) && HoldsMap(table, m);
    var k :| Has(table, k) && IsVersionOf(k, key, snapshot);
    assert Find(table.run, k) == if k in m then Some(m[k]) else None;
    assert IsOwnVersion(k, t);
    assert Find(table.run, key) == if key in m then Some(m[key]) else None;
  }

  /** Moving the oldest memtable to disk changes nothing that `get` returns, if nothing has overtaken it. */
  lemma FlushKeepsGet(st: Store, at: nat, table: Table, isDeleted: Tombstone, key: Key, f: Format)
    requires AllCommitted(st.imm, st.committed) && UniqueIds(st.place.Keys)
    requires IsOrderlyFlush(st, at, table) && OnlyPlain(st.imm[at]) && !IsVersionedKey(key)
    ensures Get(MoveStore(st, Flush(at, table)), key, isDeleted, f) == Get(st, key, isDeleted, f)
  {
    var ts, older := st.place.Keys, CodeOlder(f, st.committed);
    CodeFindsVersions(f, st.committed);
    if !Has(table, key) && older(table, key).Some? {
      FlushHoldsBoth(st.imm[at], table, key, st.committed);
    }
    FlushMemory(st.mem, st.imm, at, st.committed, key);
    FlushGot(ts, table, key, older);
    FlushIds(st.place, table);
    FlushHolds(st.imm[at], table, key);
  }

  lemma FlushGot(ts: set<Table>, table: Table, key: Key, older: Older)
    requires UniqueIds(ts) && (forall t :: t in ts ==> t.id < table.id)
    requires Has(table, key) || older(table, key).None?
    ensures Got(ts + {table}, key, older) == if Has(table, key) then Find(table.run, key) else Got(ts, key, older)
  {
    var rd := Reading(older, key);
    AnswerOver({table}, ts, rd);
    AnswerNone({table}, rd);
    if Has(table, key) {
      AnswerIs({table}, rd, table);
    }
  }

  /** A compaction leaves what `get` returns exactly when memory answers or the answer from disk is kept. */
  lemma CompactGetIff(st: Store, step: Leveled.Step, isDeleted: Tombstone, key: Key, f: Format)
    requires IsCompaction(st, step, isDeleted)
    ensures Get(MoveStore(st, Compact(step)), key, isDeleted, f) == Get(st, key, isDeleted, f)
            <==> IsCovered(st, key)
                 || KeepsAnswer(st.place.Keys, step.inputs, step.results, step.policy, key, CodeOlder(f, st.committed))
  {
    CodeFindsVersions(f, st.committed);
    StepPreservesGetIff(st.place, step, Moved(st.place, step.inputs, step.results, step.level + 1), key,
                        CodeOlder(f, st.committed), st.committed);
  }

  lemma FlushKeepsBelow(st: Store, at: nat, table: Table)
    requires IsFlush(st, at, table) && PlainMemory(st) && VersionsBelow(st.place.Keys)
    ensures VersionsBelow(st.place[table := 0].Keys)
  {
    var ts, all := st.place.Keys, st.place[table := 0].Keys;
    forall key | !IsVersionedKey(key) ensures NoVersionAbove(all, key, AnyVersion()) {
      assert NoVersionAbove(ts, key, AnyVersion());
      forall t | t in all && AnyVersion()(t, key).Some? ensures exists u :: u in all && Has(u, key) && u.id >= t.id {
        if t == table {
          FlushHoldsBoth(st.imm[at], table, key, LAST_SNAPSHOT);
        }
      }
    }
  }

  lemma CompactKeepsBelow(st: Store, step: Leveled.Step, isDeleted: Tombstone, after: Placement)
    requires Layered(st.place) && IsGuarded(st, step, isDeleted) && VersionsBelow(st.place.Keys)
    requires StepVersionsStay(st.place, step)
    requires after == MoveStore(st, Compact(step)).place
    ensures VersionsBelow(after.Keys)
  {
    forall key | !IsVersionedKey(key) ensures NoVersionAbove(after.Keys, key, AnyVersion()) {
      StepPreservesGet(st.place, step, after, key, AnyVersion(), LAST_SNAPSHOT);
    }
  }

  /** So in every such run no version gets above its record. */
  lemma {:induction false} RunKeepsBelow(st: Store, moves: seq<Move>, isDeleted: Tombstone)
    requires Layered(st.place) && PlainMemory(st) && VersionsBelow(st.place.Keys)
    requires IsGuardedRun(st, moves, isDeleted) && CanRun(st, moves, isDeleted)
    requires KeepsVersionsRun(st, moves, isDeleted)
    ensures VersionsBelow(RunStore(st, moves, isDeleted).place.Keys)
    decreases |moves|
  {
    if moves != [] {
      MemoryStaysPlain(st, moves[0], isDeleted);
      GuardedCanMove(st, moves[0], isDeleted);
      match moves[0] {
        case Compact(step) => CompactKeepsBelow(st, step, isDeleted, MoveStore(st, moves[0]).place);
        case Flush(at, table) => FlushKeepsBelow(st, at, table);
        case _ =>
      }
      RunKeepsBelow(MoveStore(st, moves[0]), moves[1..], isDeleted);
    }
  }

  /** Then the newest record is what the disk answers with. */
  lemma BelowAnswersPlain(st: Store, key: Key, isDeleted: Tombstone, f: Format)
    requires UniqueIds(st.place.Keys) && VersionsBelow(st.place.Keys) && st.committed <= LAST_SNAPSHOT
    requires !IsVersionedKey(key)
    ensures AnswersPlain(st, key, isDeleted, f)
  {
    var ts, older := st.place.Keys, CodeOlder(f, st.committed);
    assert NoVersionAbove(ts, key, AnyVersion());
    CodeFindsVersions(f, st.committed);
    forall t | t in ts && older(t, key).Some? ensures exists u :: u in ts && Has(u, key) && u.id >= t.id {
      assert HasVersion(t, key, st.committed);
      var k :| Has(t, k) && IsVersionOf(k, key, st.committed);
      assert IsVersionOf(k, key, LAST_SNAPSHOT);
      assert AnyVersion()(t, key).Some?;
    }
    NoneAboveAgrees(ts, key, older, isDeleted);
  }

  /**
   * The collection is a map. After any run from an empty collection in which flushes are orderly and every compaction
   * meets what the code relies on and moves no version without its record, `get` returns the document last written
   * under a plain key, and nothing when that was a deletion or there was none.
   */
  lemma GuardedCollectionIsAMap(moves: seq<Move>, isDeleted: Tombstone, key: Key, f: Format)
    requires IsGuardedRun(NEW_STORE, moves, isDeleted) && !IsVersionedKey(key)
    ensures CanRun(NEW_STORE, moves, isDeleted)
    ensures var st := RunStore(NEW_STORE, moves, isDeleted);
            KeepsVersionsRun(NEW_STORE, moves, isDeleted) && st.committed <= LAST_SNAPSHOT ==>
              Get(st, key, isDeleted, f) == Expected(st, key, isDeleted)
  {
    GuardedRunIsRun(NEW_STORE, moves, isDeleted);
    CollectionIsAMap(moves, isDeleted, key, f);
    var st := RunStore(NEW_STORE, moves, isDeleted);
    if KeepsVersionsRun(NEW_STORE, moves, isDeleted) && st.committed <= LAST_SNAPSHOT {
      RunKeepsBelow(NEW_STORE, moves, isDeleted);
      NewStoreInv(isDeleted);
      RunKeeps(NEW_STORE, moves, isDeleted);
      BelowAnswersPlain(st, key, isDeleted, f);
    }
  }

  /** The tables hold plain records only. */
  ghost predicate VersionFree(ts: set<Table>)
  {
    forall t, k :: t in ts && Has(t, k) ==> !IsVersionedKey(k)
  }

  /** A move made while no snapshot is open: what it writes has no old versions. */
  ghost predicate IsPlainMove(move: Move)
  {
    match move
    case Write(writes, _) => PlainWrites(writes)
    case Flush(_, table) => VersionFree({table})
    case _ => true
  }

  lemma FreeStays(before: Placement, s: Leveled.Step, after: Placement)
    requires Compacts(before, s, after) && VersionFree(before.Keys)
    ensures VersionFree(after.Keys)
  {
    forall t, k | t in after.Keys && Has(t, k) ensures !IsVersionedKey(k) {
      if IsVersionedKey(k) && t in s.results {
        var (id, txn) := DecodeVersionedKey(k);
        assert IsVersionOf(k, id, txn);
        VersionsComeFromInputs(before.Keys, s.inputs, s.results, s.policy, s.firstId, t, id, txn);
      }
    }
  }

  lemma FreeIsGuarded(p: Placement, s: Leveled.Step)
    requires VersionFree(p.Keys) && Elements(s.inputs) <= p.Keys
    ensures StepVersionsStay(p, s)
  {
    forall t, key | t in p ensures !HasVersion(t, key, LAST_SNAPSHOT) { }
    assert forall t :: t in s.inputs ==> t in Elements(s.inputs);
  }

  lemma {:induction false} PlainRunKeepsVersions(st: Store, moves: seq<Move>, isDeleted: Tombstone)
    requires CanRun(st, moves, isDeleted) && VersionFree(st.place.Keys)
    requires forall i :: 0 <= i < |moves| ==> IsPlainMove(moves[i])
    ensures KeepsVersionsRun(st, moves, isDeleted)
    decreases |moves|
  {
    if moves != [] {
      var after := MoveStore(st, moves[0]);
      if moves[0].Compact? {
        FreeIsGuarded(st.place, moves[0].step);
        FreeStays(st.place, moves[0].step, after.place);
      }
      PlainRunKeepsVersions(after, moves[1..], isDeleted);
    }
  }

  /** In particular when memtables are flushed only while no snapshot is open. */
  lemma PlainCollectionIsAMap(moves: seq<Move>, isDeleted: Tombstone, key: Key, f: Format)
    requires IsGuardedRun(NEW_STORE, moves, isDeleted) && !IsVersionedKey(key)
    requires forall i :: 0 <= i < |moves| ==> IsPlainMove(moves[i])
    ensures CanRun(NEW_STORE, moves, isDeleted)
    ensures var st := RunStore(NEW_STORE, moves, isDeleted);
            st.committed <= LAST_SNAPSHOT ==> Get(st, key, isDeleted, f) == Expected(st, key, isDeleted)
  {
    GuardedRunIsRun(NEW_STORE, moves, isDeleted);
    PlainRunKeepsVersions(NEW_STORE, moves, isDeleted);
    GuardedCollectionIsAMap(moves, isDeleted, key, f);
  }
}

/** A flush that a compaction overtook. */
module FlushExample {
  import opened Keys
  import opened Options
  import opened Versions
  import opened VersionedKeys
  import opened Memtable
  import opened SSTables
  import opened StoredVersions
  import opened Compaction
  import opened DiskReads
  import opened TableAnswers
  import opened GetReads
  import opened Leveled
  import opened LeveledExamples
  import opened Flushes
  import opened FlushTables
  import opened Engine

  ghost predicate OvertakenStore(st: Store, moved: Table, table: Table)
  {
    && moved == One(3, K, OLD) && table == One(2, K, NEW)
    && st == Store(map[], [map[K := [Version(2, NEW)]]], map[moved := 1], 3, 2, map[K := NEW])
  }

  /**
   * A flush takes its id when it begins. While its memtable waited, a compaction gave the old document a greater
   * id; when the flush ends, `get` goes back from the new document to the old one.
   */
  lemma OvertakenFlush(st: Store, moved: Table, table: Table, f: Format)
    requires OvertakenStore(st, moved, table)
    ensures IsFlush(st, 0, table) && !FlushKeepsMeaning(st, 0, table, IsTomb(), K)
    ensures Get(st, K, IsTomb(), f) == Some(NEW) && Get(MoveStore(st, Flush(0, table)), K, IsTomb(), f) == Some(OLD)
  {
    OvertakenReads(st, moved, table);
    FlushReadsIff(st, 0, table, IsTomb(), K);
    HeldIsPlain(st, f);
    HeldIsPlain(MoveStore(st, Flush(0, table)), f);
  }

  lemma OvertakenReads(st: Store, moved: Table, table: Table)
    requires OvertakenStore(st, moved, table)
    ensures IsFlush(st, 0, table) && Engine.AllCommitted(st.imm, st.committed)
    ensures PlainGet(st, K, IsTomb()) == Some(NEW)
    ensures var after := MoveStore(st, Flush(0, table));
            && PlainGet(after, K, IsTomb()) == Some(OLD)
            && UniqueIds(after.place.Keys) && forall t :: t in after.place ==> Has(t, K)
  {
    OneFinds(3, K, OLD);
    OneFinds(2, K, NEW);
    assert HoldsLatest(map[K := NEW], st.imm[0]) && HoldsMap(table, map[K := NEW]);
    assert FlushesTo(st.imm[0], table);
    ReadsOf({moved, table}, K, moved);
    assert st.place[table := 0].Keys == {moved, table};
  }

  /** Where every table holds the key, no version is looked for. */
  lemma HeldIsPlain(st: Store, f: Format)
    requires UniqueIds(st.place.Keys) && forall t :: t in st.place ==> Has(t, K)
    ensures Get(st, K, IsTomb(), f) == PlainGet(st, K, IsTomb())
  {
    NoneAboveAgrees(st.place.Keys, K, CodeOlder(f, st.committed), IsTomb());
  }
}
