/** Steps the two k-way merges share. */
module MergeLoop {
  import opened Keys
  import opened Options
  import opened Versions
  import opened Runs
  import opened Heap
  import opened Merge

  ghost function Unread(sources: seq<Run>, pos: seq<nat>): nat
    requires |pos| == |sources| && forall i :: 0 <= i < |pos| ==> pos[i] <= |sources[i]|
    decreases |sources|
  {
    if sources == [] then 0
    else
      var n := |sources| - 1;
      Unread(sources[..n], pos[..n]) + |sources[n]| - pos[n]
  }

  lemma {:induction false} UnreadShrinks(sources: seq<Run>, pos: seq<nat>, p: nat)
    requires |pos| == |sources| && p < |pos| && forall i :: 0 <= i < |pos| ==> pos[i] <= |sources[i]|
    requires pos[p] < |sources[p]|
    ensures Unread(sources, Consumed(pos, p)) == Unread(sources, pos) - 1
    decreases |sources|
  {
    var n := |sources| - 1;
    if p == n {
      assert Consumed(pos, p)[..n] == pos[..n];
    } else {
      assert Consumed(pos, p)[..n] == Consumed(pos[..n], p);
      UnreadShrinks(sources[..n], pos[..n], p);
    }
  }

  /** Pops the least cursor, moves it on, and puts it back unless it is exhausted. */
  method PopAndAdvance(heap: MergeHeap) returns (winner: Cursor)
    requires heap.Valid() && heap.heap != []
    modifies heap
    ensures heap.Valid()
    ensures winner in old(multiset(heap.heap)) && winner.rest != []
    ensures forall c :: c in old(multiset(heap.heap)) ==> AtMost(winner, c)
    ensures multiset(heap.heap) == Requeued(old(multiset(heap.heap)), winner)
  {
    winner := heap.Pop();
    assert AtMost(winner, winner);
    if |winner.rest| > 1 {
      heap.Push(Cursor(winner.rest[1..], winner.priority));
    }
  }

  /** One turn: the least cursor comes off the heap, and the merge so far grows by its key unless it is a repeat. */
  method NextWinner(heap: MergeHeap, ghost sources: seq<Run>, ghost keep: Keep, ghost pos: seq<nat>,
                    ghost last: Option<Key>, ghost out: Run)
    returns (winner: Cursor, ghost pos': seq<nat>)
    requires heap.Valid() && heap.heap != [] && AllAscending(sources)
    requires Merging(sources, keep, pos, multiset(heap.heap), last, out)
    modifies heap
    ensures heap.Valid() && winner.rest != [] && |pos'| == |pos|
    ensures Merging(sources, keep, pos', multiset(heap.heap), Some(winner.Key()),
                    if last == Some(winner.Key()) then out else Emitted(keep, out, winner.rest[0]))
    ensures Unread(sources, pos') < Unread(sources, pos)
  {
    ghost var before := multiset(heap.heap);
    winner := PopAndAdvance(heap);
    MergeStep(sources, keep, pos, before, winner, last, out);
    UnreadShrinks(sources, pos, winner.priority);
    pos' := Consumed(pos, winner.priority);
  }

  /** Opens a cursor on each source that has anything to yield. */
  method OpenCursors(sources: seq<Run>, ghost keep: Keep) returns (heap: MergeHeap)
    ensures fresh(heap) && heap.Valid()
    ensures Merging(sources, keep, seq(|sources|, _ => 0), multiset(heap.heap), None, [])
  {
    heap := new MergeHeap();
    var i := 0;
    while i < |sources|
      invariant 0 <= i <= |sources| && fresh(heap) && heap.Valid()
      invariant forall c :: c in multiset(heap.heap) <==>
                  c.priority < i && c.rest != [] && c.rest == sources[c.priority]
      invariant forall c :: c in multiset(heap.heap) ==> multiset(heap.heap)[c] == 1
    {
      if sources[i] != [] {
        heap.Push(Cursor(sources[i], i));
      }
      i := i + 1;
    }
    FrontierStarts(sources, multiset(heap.heap));
  }
}

/** Compaction: merging SSTables into new ones. */
module Compaction {
  import opened Keys
  import opened Options
  import opened Versions
  import opened VersionedKeys
  import opened Runs
  import opened Heap
  import opened Merge
  import opened MergeLoop
  import opened Layout
  import opened RecordFormat
  import opened Bloom
  import opened SSTables

  /** One SSTable: its id, its records, and the metadata a reader keeps in memory. */
  datatype Table = Table(id: nat, run: Run, minKey: Key, maxKey: Key, sizeBytes: nat)

  /** Does the packed document carry the tombstone flag? */
  type Tombstone = Buf -> bool

  datatype Policy = Policy(isDeleted: Tombstone, isBottommost: bool, gcCutoffTxnId: nat, targetFileSize: nat)
  {
    /** Which newest versions compaction writes out. */
    predicate Keeps(key: Key, value: Buf)
    {
      if IsVersionedKey(key) then DecodeVersionedKey(key).1 >= gcCutoffTxnId
      else !(isDeleted(value) && isBottommost)
    }

    function Keep(): Keep
    {
      (key: Key, value: Buf) => Keeps(key, value)
    }
  }

  /** The inputs by priority: tables come in by ascending id, and the last one wins. */
  function Sources(tables: seq<Table>): (s: seq<Run>)
    ensures |s| == |tables|
    ensures forall i :: 0 <= i < |s| ==> s[i] == tables[|tables| - 1 - i].run
  {
    seq(|tables|, i requires 0 <= i < |tables| => tables[|tables| - 1 - i].run)
  }

  function Flat(tables: seq<Table>): Run
  {
    if tables == [] then [] else Flat(tables[..|tables| - 1]) + tables[|tables| - 1].run
  }

  /** An output of compaction: its bounds are read off its sparse index. */
  ghost predicate Finished(f: Format, t: Table)
  {
    t.minKey == MinIndexed(f, t.run) && t.maxKey == MaxIndexed(f, t.run)
  }

  /** The file of an output: its bytes, and the bits of its filter. */
  datatype File = File(bytes: Buf, bits: Buf)

  /** The file holds the table's records, behind a filter that passes all of them. */
  ghost predicate FiledAs(f: Format, hash: Hash, bloomSize: nat, hashCount: nat, file: File, t: Table)
    requires bloomSize > 0
  {
    && Finished(f, t) && t.sizeBytes == |file.bytes|
    && FileFits(f, t.run, bloomSize, hashCount)
    && file.bytes == FileOf(f, t.run, file.bits, bloomSize, hashCount)
    && CoversRun(hash, bloomSize, hashCount, file.bits, t.run)
  }

  ghost predicate AllFiled(f: Format, hash: Hash, bloomSize: nat, hashCount: nat, files: seq<File>, tables: seq<Table>)
    requires bloomSize > 0
  {
    |files| == |tables| && forall i :: 0 <= i < |tables| ==> FiledAs(f, hash, bloomSize, hashCount, files[i], tables[i])
  }

  lemma OneMoreFiled(f: Format, hash: Hash, bloomSize: nat, hashCount: nat, files: seq<File>, tables: seq<Table>,
                     file: File, t: Table)
    requires bloomSize > 0 && AllFiled(f, hash, bloomSize, hashCount, files, tables)
    requires FiledAs(f, hash, bloomSize, hashCount, file, t)
    ensures AllFiled(f, hash, bloomSize, hashCount, files + [file], tables + [t])
  {
  }

  /** So an output is an SSTable of its run, which every reader of such files reads back. */
  lemma OutputIsStored(c: Codec, cfg: Config, hash: Hash, bloomSize: nat, hashCount: nat, file: File, t: Table)
    requires bloomSize > 0 && FiledAs(FormatOf(c, cfg), hash, bloomSize, hashCount, file, t) && Ascending(t.run)
    requires forall i :: 0 <= i < |t.run| ==> Invertible(c, t.run[i])
    ensures Stored(c, cfg, file.bytes, t.run, file.bits, bloomSize, hashCount)
    ensures CoversRun(hash, bloomSize, hashCount, file.bits, t.run)
  {
    FittingRunIsStored(c, cfg, t.run, file.bits, bloomSize, hashCount);
  }

  ghost predicate Numbered(tables: seq<Table>, firstId: nat)
  {
    forall i :: 0 <= i < |tables| ==> tables[i].id == firstId + i
  }

  /** A run the writer closes its table after: its last record takes it to the target size. */
  ghost predicate Full(f: Format, run: Run, target: nat)
  {
    run != [] && |DataOf(f.rec, run)| >= target && Short(f, run[..|run| - 1], target)
  }

  ghost predicate Short(f: Format, run: Run, target: nat)
  {
    run == [] || |DataOf(f.rec, run)| < target
  }

  /** Every output but the last is just full; the last may be short, and empty only when it is the one output. */
  ghost predicate Sized(f: Format, results: seq<Table>, target: nat)
  {
    && results != []
    && AllFull(f, results[..|results| - 1], target)
    && var last := results[|results| - 1].run;
       Full(f, last, target) || (Short(f, last, target) && (last != [] || |results| == 1))
  }

  ghost predicate AllFull(f: Format, tables: seq<Table>, target: nat)
  {
    forall i :: 0 <= i < |tables| ==> Full(f, tables[i].run, target)
  }

  /** Every record of the run is in one of the sources. */
  ghost predicate DrawnFrom(run: Run, sources: seq<Run>)
  {
    forall i :: 0 <= i < |run| ==> SomeHolds(sources, run[i])
  }

  ghost predicate SomeHolds(sources: seq<Run>, item: Item)
  {
    exists k :: 0 <= k < |sources| && Find(sources[k], item.key) == Some(item.value)
  }

  /** No file of records from these sources overflows a field, so that writing one never throws. */
  ghost predicate Fitting(f: Format, bloomSize: nat, hashCount: nat, sources: seq<Run>)
  {
    forall run :: Ascending(run) && DrawnFrom(run, sources) ==> FileFits(f, run, bloomSize, hashCount)
  }

  /** The records from some point on make a file that does not fit. */
  ghost predicate Throws(f: Format, bloomSize: nat, hashCount: nat, written: Run)
  {
    exists n :: 0 <= n <= |written| && !FileFits(f, written[n..], bloomSize, hashCount)
  }

  lemma MergedIsDrawn(sources: seq<Run>, keep: Keep, last: Option<Key>, out: Run)
    requires MergedTo(sources, keep, last, out)
    ensures DrawnFrom(out, sources)
  {
    forall i | 0 <= i < |out| ensures SomeHolds(sources, out[i]) {
      FindAt(out, i);
      assert LessEq(out[i].key, last.value);
      var k := NewestFrom(sources, out[i].key);
    }
  }

  lemma {:induction false} NewestFrom(sources: seq<Run>, key: Key) returns (k: nat)
    requires Newest(sources, key).Some?
    ensures k < |sources| && Find(sources[k], key) == Newest(sources, key)
  {
    if Find(sources[0], key).Some? {
      k := 0;
    } else {
      k := NewestFrom(sources[1..], key);
      k := k + 1;
    }
  }

  /** When the writer throws, some records of the inputs do not fit a file. */
  lemma ThrowsOnlyWhenUnfit(f: Format, bloomSize: nat, hashCount: nat, sources: seq<Run>, keep: Keep,
                            last: Option<Key>, out: Run)
    requires MergedTo(sources, keep, last, out) && Throws(f, bloomSize, hashCount, out)
    ensures !Fitting(f, bloomSize, hashCount, sources)
  {
    var n :| 0 <= n <= |out| && !FileFits(f, out[n..], bloomSize, hashCount);
    MergedIsDrawn(sources, keep, last, out);
    var part := out[n..];
    assert forall i :: 0 <= i < |part| ==> part[i] == out[n + i];
    assert Ascending(part);
    assert DrawnFrom(part, sources);
  }

  lemma LastIsFull(f: Format, tables: seq<Table>, target: nat)
    requires AllFull(f, tables, target) && tables != []
    ensures Sized(f, tables, target)
  {
  }

  lemma OneMoreFull(f: Format, tables: seq<Table>, t: Table, target: nat)
    ensures (tables + [t])[..|tables|] == tables
    ensures AllFull(f, tables, target) && Full(f, t.run, target) ==> AllFull(f, tables + [t], target)
  {
  }

  lemma FlatStep(tables: seq<Table>, t: Table)
    ensures Flat(tables + [t]) == Flat(tables) + t.run
  {
    assert (tables + [t])[..|tables + [t]| - 1] == tables;
  }

  lemma OneMoreNumbered(tables: seq<Table>, t: Table, firstId: nat)
    requires Numbered(tables, firstId) && t.id == firstId + |tables|
    ensures Numbered(tables + [t], firstId)
  {
  }

  /** The tables compaction has finished and the one it is writing. */
  class CompactionOutput {
    const f: Format
    const hash: Hash
    const bloomSize: nat
    const hashCount: nat
    const firstId: nat
    const targetFileSize: nat
    var results: seq<Table>
    /** The files of the finished tables. */
    var files: seq<File>
    var cur: OutputCtx
    var nextId: nat

    ghost predicate Valid()
      reads this, cur, cur.bloom.bitArray
    {
      && bloomSize > 0
      && cur.Valid() && cur.f == f
      && cur.bloom.hash == hash && cur.bloom.size == bloomSize && cur.bloom.hashCount == hashCount
      && Numbered(results, firstId) && nextId == firstId + |results| + 1
      && AllFiled(f, hash, bloomSize, hashCount, files, results)
    }

    /** Every finished table is just full, and the one being written is not there yet. */
    ghost predicate Filling()
      reads this, cur`run
    {
      && AllFull(f, results, targetFileSize)
      && Short(f, cur.run, targetFileSize)
    }

    /** All the records written, in order. */
    ghost function Written(): Run
      reads this, cur`run
    {
      Flat(results) + cur.run
    }

    constructor (f: Format, hash: Hash, bloomSize: nat, hashCount: nat, firstId: nat, targetFileSize: nat)
      requires bloomSize > 0
      ensures Valid() && Filling() && Written() == []
      ensures this.f == f && this.hash == hash && this.bloomSize == bloomSize && this.hashCount == hashCount
      ensures this.firstId == firstId && this.targetFileSize == targetFileSize
      ensures fresh(cur) && fresh(cur.bloom.bitArray)
    {
      this.f, this.hash, this.bloomSize, this.hashCount, this.firstId := f, hash, bloomSize, hashCount, firstId;
      this.targetFileSize := targetFileSize;
      results, files, nextId := [], [], firstId + 1;
      cur := new OutputCtx(f, hash, bloomSize, hashCount);
    }

    /** Writes one record, and starts another table once this one has reached its size. */
    method Write(item: Item) returns (ok: bool)
      requires Valid() && Filling()
      modifies this, cur, cur.bloom.bitArray
      ensures cur == old(cur) || (fresh(cur) && fresh(cur.bloom.bitArray))
      ensures ok ==> Valid() && Filling() && Written() == old(Written()) + [item]
      ensures !ok ==> Throws(f, bloomSize, hashCount, old(Written()) + [item])
    {
      ok := Append(item);
      if ok && cur.currentOffset >= targetFileSize {
        ok := StartNext();
      }
    }

    /** Writes one record to the current table. */
    method Append(item: Item) returns (ok: bool)
      requires Valid() && Short(f, cur.run, targetFileSize)
      modifies cur, cur.bloom.bitArray
      ensures ok ==> Valid() && cur.run == old(cur.run) + [item] && Written() == old(Written()) + [item]
      ensures ok && |DataOf(f.rec, cur.run)| >= targetFileSize ==> Full(f, cur.run, targetFileSize)
      ensures !ok ==> Throws(f, bloomSize, hashCount, old(Written()) + [item])
    {
      ghost var before, run := Flat(results), cur.run;
      assert (run + [item])[..|run|] == run;
      assert before + run + [item] == before + (run + [item]);
      ok := cur.Append(item);
      if !ok {
        UnfitThrows(before, run + [item], |run|);
      }
    }

    /** The records at hand do not fit, whatever was written before them. */
    lemma UnfitThrows(before: Run, run: Run, i: nat)
      requires !FileFits(f, run, bloomSize, hashCount) || (i < |run| && !f.fits(run[i]))
      ensures Throws(f, bloomSize, hashCount, before + run)
    {
      assert (before + run)[|before|..] == run;
    }

    method StartNext() returns (ok: bool)
      requires Valid() && Full(f, cur.run, targetFileSize) && AllFull(f, results, targetFileSize)
      modifies this
      ensures ok ==> Valid() && Filling() && Written() == old(Written())
      ensures !ok ==> Throws(f, bloomSize, hashCount, old(Written()))
      ensures cur == old(cur) || (fresh(cur) && fresh(cur.bloom.bitArray))
    {
      ok := FinalizeOutput();
      if ok {
        cur := new OutputCtx(f, hash, bloomSize, hashCount);
        nextId := nextId + 1;
      }
    }

    /** Closes the current table. */
    method FinalizeOutput() returns (ok: bool)
      requires Valid()
      modifies `results, `files
      ensures !ok ==> results == old(results) && Throws(f, bloomSize, hashCount, Written())
      ensures ok ==> Flat(results) == old(Written()) && |results| == |old(results)| + 1
      ensures ok ==> results[|results| - 1].run == cur.run
      ensures ok ==> results[..|results| - 1] == old(results)
      ensures ok && old(AllFull(f, results, targetFileSize)) && Full(f, cur.run, targetFileSize) ==>
                AllFull(f, results, targetFileSize)
      ensures ok ==> Numbered(results, firstId) && AllFiled(f, hash, bloomSize, hashCount, files, results)
    {
      var t, file;
      t, file, ok := BuildTable();
      if ok {
        OneMoreFiled(f, hash, bloomSize, hashCount, files, results, file, t);
        FlatStep(results, t);
        OneMoreFull(f, results, t, targetFileSize);
        OneMoreNumbered(results, t, firstId);
        results, files := results + [t], files + [file];
      } else {
        UnfitThrows(Flat(results), cur.run, 0);
      }
    }

    /** The current table and its file, unless a field overflows. */
    method BuildTable() returns (t: Table, file: File, ok: bool)
      requires Valid()
      ensures ok <==> FileFits(f, cur.run, bloomSize, hashCount)
      ensures ok ==> t.id == nextId - 1 && t.run == cur.run && FiledAs(f, hash, bloomSize, hashCount, file, t)
    {
      var built := cur.Finalize();
      if built.None? {
        return Table(0, [], [], [], 0), File([], []), false;
      }
      var meta := built.value.meta;
      return Table(nextId - 1, cur.run, meta.minKey, meta.maxKey, meta.sizeBytes),
             File(built.value.file, cur.bloom.bitArray[..]), true;
    }
  }

  /**
   * Merges the tables into new ones of about the target size. Whatever the sizes, the outputs laid end
   * to end are the one ascending run that keeps, of each key's newest version, what the policy keeps. It
   * fails only where some records of the inputs would overflow a field of a file.
   */
  method CompactSSTablesStreaming(f: Format, hash: Hash, bloomSize: nat, hashCount: nat,
                                  tables: seq<Table>, policy: Policy, firstId: nat)
    returns (results: seq<Table>, files: seq<File>, nextId: nat, ok: bool)
    requires bloomSize > 0
    requires forall i :: 0 <= i < |tables| ==> Ascending(tables[i].run)
    ensures ok ==> IsMerge(Sources(tables), policy.Keep(), Flat(results))
    ensures ok ==> Sized(f, results, policy.targetFileSize)
    ensures ok ==> Numbered(results, firstId) && nextId >= firstId + |results|
    ensures ok ==> AllFiled(f, hash, bloomSize, hashCount, files, results)
    ensures Fitting(f, bloomSize, hashCount, Sources(tables)) ==> ok
  {
    var sources := Sources(tables);
    ghost var keep := policy.Keep();
    var heap := OpenCursors(sources, keep);
    ghost var pos: seq<nat> := seq(|sources|, _ => 0);
    var out := new CompactionOutput(f, hash, bloomSize, hashCount, firstId, policy.targetFileSize);
    var lastKey: Option<Key> := None;
    results, files, nextId, ok := [], [], firstId, false;
    while |heap.heap| > 0
      invariant heap.Valid() && Merging(sources, keep, pos, multiset(heap.heap), lastKey, out.Written())
      invariant out.Valid() && out.Filling()
      invariant fresh(heap) && fresh(out) && fresh(out.cur) && fresh(out.cur.bloom.bitArray)
      decreases Unread(sources, pos)
    {
      lastKey, pos, ok := Turn(heap, out, policy, lastKey, sources, pos);
      if !ok {
        return;
      }
    }
    MergeComplete(sources, keep, pos, lastKey, out.Written());
    ghost var written := out.Written();
    results, files, nextId, ok := Finish(out);
    if !ok {
      ThrowsOnlyWhenUnfit(f, bloomSize, hashCount, sources, keep, lastKey, written);
    }
  }

  /** One turn of the merge: the least cursor moves on, and a key not seen before is written if kept. */
  method Turn(heap: MergeHeap, out: CompactionOutput, policy: Policy, lastKey: Option<Key>,
              ghost sources: seq<Run>, ghost pos: seq<nat>)
    returns (last: Option<Key>, ghost pos': seq<nat>, ok: bool)
    requires heap.Valid() && heap.heap != [] && out.Valid() && out.Filling() && AllAscending(sources)
    requires Merging(sources, policy.Keep(), pos, multiset(heap.heap), lastKey, out.Written())
    modifies heap, out, out.cur, out.cur.bloom.bitArray
    ensures heap.Valid() && (out.cur == old(out.cur) || (fresh(out.cur) && fresh(out.cur.bloom.bitArray)))
    ensures ok ==> out.Valid() && out.Filling() && |pos'| == |pos|
    ensures ok ==> Merging(sources, policy.Keep(), pos', multiset(heap.heap), last, out.Written())
    ensures ok ==> Unread(sources, pos') < Unread(sources, pos)
    ensures !ok ==> !Fitting(out.f, out.bloomSize, out.hashCount, sources)
  {
    var winner;
    winner, pos' := NextWinner(heap, sources, policy.Keep(), pos, lastKey, out.Written());
    last, ok := Some(winner.Key()), true;
    if lastKey != last {
      ok := WriteNew(out, policy, winner.rest[0], sources, last);
    }
  }

  /** Writes a key's newest version, if it is kept. */
  method WriteNew(out: CompactionOutput, policy: Policy, item: Item, ghost sources: seq<Run>, ghost last: Option<Key>)
    returns (ok: bool)
    requires out.Valid() && out.Filling()
    requires MergedTo(sources, policy.Keep(), last, Emitted(policy.Keep(), out.Written(), item))
    modifies out, out.cur, out.cur.bloom.bitArray
    ensures out.cur == old(out.cur) || (fresh(out.cur) && fresh(out.cur.bloom.bitArray))
    ensures !ok ==> !Fitting(out.f, out.bloomSize, out.hashCount, sources)
    ensures ok ==> out.Valid() && out.Filling() && out.Written() == Emitted(policy.Keep(), old(out.Written()), item)
  {
    ghost var written := Emitted(policy.Keep(), out.Written(), item);
    ok := WriteIfKept(out, policy, item);
    if !ok {
      ThrowsOnlyWhenUnfit(out.f, out.bloomSize, out.hashCount, sources, policy.Keep(), last, written);
    }
  }

  method WriteIfKept(out: CompactionOutput, policy: Policy, item: Item) returns (ok: bool)
    requires out.Valid() && out.Filling()
    modifies out, out.cur, out.cur.bloom.bitArray
    ensures out.cur == old(out.cur) || (fresh(out.cur) && fresh(out.cur.bloom.bitArray))
    ensures !ok ==> Throws(out.f, out.bloomSize, out.hashCount, Emitted(policy.Keep(), old(out.Written()), item))
    ensures ok ==> out.Valid() && out.Filling() && out.Written() == Emitted(policy.Keep(), old(out.Written()), item)
  {
    ok := true;
    if IsVersionedKey(item.key) && DecodeVersionedKey(item.key).1 < policy.gcCutoffTxnId {
      return;
    }
    if policy.isDeleted(item.value) && policy.isBottommost && !IsVersionedKey(item.key) {
      return;
    }
    ok := out.Write(item);
  }

  /** Closes the last table, as it is. */
  method CloseLast(out: CompactionOutput) returns (ok: bool)
    requires out.Valid() && out.Filling() && (out.cur.run != [] || out.results == [])
    modifies out
    ensures ok ==> Flat(out.results) == old(out.Written()) && Sized(out.f, out.results, out.targetFileSize)
    ensures !ok ==> Throws(out.f, out.bloomSize, out.hashCount, old(out.Written()))
    ensures ok ==> |out.results| == |old(out.results)| + 1 && Numbered(out.results, out.firstId)
    ensures ok ==> out.nextId == old(out.nextId)
    ensures ok ==> AllFiled(out.f, out.hash, out.bloomSize, out.hashCount, out.files, out.results)
  {
    ok := out.FinalizeOutput();
  }

  /** Closes the last table, unless it is empty and not the only one. */
  method Finish(out: CompactionOutput) returns (results: seq<Table>, files: seq<File>, nextId: nat, ok: bool)
    requires out.Valid() && out.Filling()
    modifies out
    ensures ok ==> Flat(results) == old(out.Written()) && Sized(out.f, results, out.targetFileSize)
    ensures !ok ==> Throws(out.f, out.bloomSize, out.hashCount, old(out.Written()))
    ensures ok ==> Numbered(results, out.firstId) && nextId >= out.firstId + |results|
    ensures ok ==> AllFiled(out.f, out.hash, out.bloomSize, out.hashCount, files, results)
  {
    nextId, ok := out.nextId, true;
    if out.cur.keyCount > 0 || |out.results| == 0 {
      ok := CloseLast(out);
    } else {
      LastIsFull(out.f, out.results, out.targetFileSize);
    }
    results, files := out.results, out.files;
  }
}
