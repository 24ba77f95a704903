/** What a memtable yields to a range reader. */
module MemtableScans {
  import opened Keys
  import opened Options
  import opened Versions
  import opened Memtable
  import opened Runs
  import opened Ranges

  /** The items yielded from the first `n` entries. */
  ghost predicate YieldedTo(es: seq<Entry>, n: nat, snapshot: nat, from: Key, to: Key, out: Run)
    requires n <= |es|
  {
    && Ascending(out)
    && (forall i :: 0 <= i < |out| ==> exists j :: 0 <= j < n && es[j].key == out[i].key)
    && forall j {:trigger Find(out, es[j].key)} :: 0 <= j < n ==>
         Find(out, es[j].key) ==
         if Within(es[j].key, Some(from), Some(to)) then ReadAt(es[j].versions, snapshot) else None
  }

  /** `iterSnapshot`: for each key in range, the version a reader at the snapshot sees, in key order. */
  method IterSnapshot(mem: SortedMemtable, snapshot: nat, fromKey: Key, toKey: Key) returns (out: Run)
    requires mem.Valid()
    ensures Ascending(out)
    ensures forall key :: Find(out, key) ==
              if Within(key, Some(fromKey), Some(toKey)) then TableRead(mem.Contents(), key, snapshot) else None
  {
    out := [];
    var es := mem.entries;
    var i := 0;
    while i < |es|
      invariant 0 <= i <= |es| && YieldedTo(es, i, snapshot, fromKey, toKey, out)
    {
      if Less(es[i].key, fromKey) {
        PassEntry(es, i, snapshot, fromKey, toKey, out);
        i := i + 1;
        continue;
      }
      if Less(toKey, es[i].key) {
        break;
      }
      var v := FirstVisible(es[i].versions, snapshot);
      if v.Some? {
        YieldEntry(es, i, snapshot, fromKey, toKey, out, v.value);
        out := out + [Item(es[i].key, v.value)];
      } else {
        PassEntry(es, i, snapshot, fromKey, toKey, out);
      }
      i := i + 1;
    }
    YieldedAll(es, i, snapshot, fromKey, toKey, out);
  }

  method FirstVisible(vs: seq<Version>, snapshot: nat) returns (r: Option<Buf>)
    ensures r == ReadAt(vs, snapshot)
  {
    var i := 0;
    while i < |vs|
      invariant 0 <= i <= |vs|
      invariant forall j :: 0 <= j < i ==> vs[j].txn > snapshot
    {
      if vs[i].txn <= snapshot {
        ReadAtFirst(vs, snapshot, i);
        return Some(vs[i].value);
      }
      i := i + 1;
    }
    ReadAtFirst(vs, snapshot, i);
    return None;
  }

  lemma NotYetYielded(es: seq<Entry>, n: nat, snapshot: nat, from: Key, to: Key, out: Run, k: nat)
    requires n <= k < |es| && Ordered(es) && YieldedTo(es, n, snapshot, from, to, out)
    ensures Find(out, es[k].key) == None
    ensures forall i :: 0 <= i < |out| ==> Less(out[i].key, es[k].key)
  {
    FindHolds(out, es[k].key);
    LessIrreflexive(es[k].key);
    forall i | 0 <= i < |out| ensures Less(out[i].key, es[k].key) {
      var j :| 0 <= j < n && es[j].key == out[i].key;
      assert Less(es[j].key, es[k].key);
    }
  }

  lemma PassEntry(es: seq<Entry>, n: nat, snapshot: nat, from: Key, to: Key, out: Run)
    requires n < |es| && Ordered(es) && YieldedTo(es, n, snapshot, from, to, out)
    requires !Within(es[n].key, Some(from), Some(to)) || ReadAt(es[n].versions, snapshot).None?
    ensures YieldedTo(es, n + 1, snapshot, from, to, out)
  {
    NotYetYielded(es, n, snapshot, from, to, out, n);
  }

  lemma YieldEntry(es: seq<Entry>, n: nat, snapshot: nat, from: Key, to: Key, out: Run, value: Buf)
    requires n < |es| && Ordered(es) && YieldedTo(es, n, snapshot, from, to, out)
    requires Within(es[n].key, Some(from), Some(to)) && ReadAt(es[n].versions, snapshot) == Some(value)
    ensures YieldedTo(es, n + 1, snapshot, from, to, out + [Item(es[n].key, value)])
  {
    var item := Item(es[n].key, value);
    var r := out + [item];
    NotYetYielded(es, n, snapshot, from, to, out, n);
    forall i, j | 0 <= i < j < |r| ensures Less(r[i].key, r[j].key) {
      if j < |out| { assert Less(out[i].key, out[j].key); }
    }
    forall i | 0 <= i < |r| ensures exists j :: 0 <= j < n + 1 && es[j].key == r[i].key {
      if i < |out| {
        assert r[i] == out[i];
        var j :| 0 <= j < n && es[j].key == out[i].key;
      } else {
        assert es[n].key == r[i].key;
      }
    }
    forall j | 0 <= j < n + 1
      ensures Find(r, es[j].key) ==
              if Within(es[j].key, Some(from), Some(to)) then ReadAt(es[j].versions, snapshot) else None
    {
      FindConcat(out, [item], es[j].key);
      if j < n {
        KeysDiffer(es, j, n);
        assert Find(out, es[j].key) ==
          if Within(es[j].key, Some(from), Some(to)) then ReadAt(es[j].versions, snapshot) else None;
      }
    }
  }

  lemma YieldedAll(es: seq<Entry>, n: nat, snapshot: nat, from: Key, to: Key, out: Run)
    requires n <= |es| && Ordered(es) && YieldedTo(es, n, snapshot, from, to, out)
    requires n < |es| ==> Less(to, es[n].key)
    ensures forall key :: Find(out, key) ==
              if Within(key, Some(from), Some(to)) then TableRead(TableOf(es), key, snapshot) else None
  {
    forall key
      ensures Find(out, key) ==
              if Within(key, Some(from), Some(to)) then TableRead(TableOf(es), key, snapshot) else None
    {
      if key in TableOf(es) {
        var j :| 0 <= j < |es| && es[j].key == key;
        TableHas(es, j);
        if j < n {
          assert Find(out, es[j].key) == Find(out, key);
        } else {
          NotYetYielded(es, n, snapshot, from, to, out, j);
          if j > n {
            assert Less(es[n].key, es[j].key);
            LessTransitive(to, es[n].key, key);
          }
        }
      } else {
        FindHolds(out, key);
        forall i | 0 <= i < |out| ensures out[i].key != key {
          var j :| 0 <= j < n && es[j].key == out[i].key;
          TableHas(es, j);
        }
      }
    }
  }
}

/** The range scan over every memtable and table at once. */
module Scans {
  import opened Keys
  import opened Options
  import opened Versions
  import opened VersionedKeys
  import opened Memtable
  import opened MemtableScans
  import opened SnapshotRuns
  import opened Runs
  import opened Ranges
  import opened Heap
  import opened Merge
  import opened MergeLoop
  import opened Compaction
  import opened DiskReads
  import opened Layout
  import opened SSTables
  import opened TableAnswers
  import opened GetReads
  import opened Leveled
  import opened Collection

  /** The newest record of a plain key: memory first, then tables newest first. */
  ghost function NewestRecord(mem: VersionMap, imm: seq<VersionMap>, stack: seq<Table>, key: Key, snapshot: nat)
    : Option<Buf>
  {
    var top := MemoryRead(mem, imm, key, snapshot);
    if top.Some? then top else Lookup(stack, key)
  }

  /** What `get` reads: memory first, then tables newest first, each asked for an old version if it lacks the record. */
  ghost function GetRecord(mem: VersionMap, imm: seq<VersionMap>, stack: seq<Table>, key: Key, snapshot: nat,
                           older: Older): Option<Buf>
  {
    var top := MemoryRead(mem, imm, key, snapshot);
    if top.Some? then top else GetLoop(stack, key, older)
  }

  ghost function MemoryRead(mem: VersionMap, imm: seq<VersionMap>, key: Key, snapshot: nat): Option<Buf>
  {
    var top := TableRead(mem, key, snapshot);
    if top.Some? then top else ReadStack(imm, key, snapshot)
  }

  lemma {:induction false} ReadStackBelow(imm: seq<VersionMap>, i: nat, key: Key, snapshot: nat)
    requires i < |imm|
    ensures ReadStack(imm[i..], key, snapshot) ==
            if ReadStack(imm[i + 1..], key, snapshot).Some? then ReadStack(imm[i + 1..], key, snapshot)
            else TableRead(imm[i], key, snapshot)
    decreases |imm|
  {
    var n := |imm| - 1;
    if i == n {
      assert imm[i..] == [imm[i]] && imm[i + 1..] == [] && [imm[i]][..0] == [];
    } else {
      ReadStackBelow(imm[..n], i, key, snapshot);
      assert imm[i..][..|imm[i..]| - 1] == imm[..n][i..];
      assert imm[i + 1..][..|imm[i + 1..]| - 1] == imm[..n][i + 1..];
    }
  }

  /** Can a reader at the snapshot see the packed document? */
  type Visible = Buf -> bool

  ghost predicate AllVisible(sources: seq<Run>, visible: Visible)
  {
    forall i, j {:trigger visible(sources[i][j].value)} :: 0 <= i < |sources| && 0 <= j < |sources[i]| ==>
      visible(sources[i][j].value)
  }

  function ScanKeep(isDeleted: Tombstone): Keep
  {
    (key: Key, value: Buf) => !IsVersionedKey(key) && !isDeleted(value)
  }

  /** How the loop's two markers follow the last key popped. */
  ghost predicate Markers(last: Option<Key>, seen: Option<Key>, emitted: Option<Key>)
  {
    && seen == emitted
    && (emitted.Some? ==> last.Some? && LessEq(emitted.value, last.value) && !IsVersionedKey(emitted.value))
    && (last.Some? && !IsVersionedKey(last.value) ==> emitted == last)
  }

  /** The markers tell a repeated plain key from a new one, and keep doing so. */
  lemma MarkersFollow(last: Option<Key>, emitted: Option<Key>, key: Key)
    requires Markers(last, emitted, emitted) && (last.Some? ==> LessEq(last.value, key))
    ensures !IsVersionedKey(key) ==> (emitted == Some(key) <==> last == Some(key))
    ensures var next := if IsVersionedKey(key) then emitted else Some(key); Markers(Some(key), next, next)
  {
    if emitted == Some(key) {
      LessAsymmetric(key, last.value);
    }
    if emitted.Some? {
      Between(emitted.value, last.value, key);
    }
  }

  /**
   * What the loop does with one popped item: the markers after it, and the document to yield, if any.
   * `older` stands for the search among old versions on disk, which only a document newer than the
   * snapshot leads to.
   */
  method Decide(key: Key, value: Buf, lastSeen: Option<Key>, lastEmitted: Option<Key>,
                isDeleted: Tombstone, visible: Visible, older: Key -> Option<Buf>)
    returns (seen: Option<Key>, emitted: Option<Key>, doc: Option<Buf>)
    ensures visible(value) && lastSeen == lastEmitted ==>
              if IsVersionedKey(key) || lastEmitted == Some(key) then
                seen == emitted == lastEmitted && doc == None
              else
                seen == emitted == Some(key) && doc == if isDeleted(value) then None else Some(value)
  {
    seen, emitted, doc := lastSeen, lastEmitted, None;
    if IsVersionedKey(key) || Some(key) == lastEmitted {
      return;
    }
    if Some(key) == lastSeen && !visible(value) {
      return;
    }
    seen := Some(key);
    var found := if visible(value) then Some(value) else older(key);
    if found.Some? {
      emitted := Some(key);
      if !isDeleted(found.value) {
        doc := found;
      }
    }
  }

  /**
   * The merge loop of `scan`. With every document visible it yields, in strictly ascending order, the
   * newest document of each plain key any source holds, unless that is a tombstone.
   */
  method ScanMerge(sources: seq<Run>, isDeleted: Tombstone, visible: Visible, older: Key -> Option<Buf>)
    returns (out: Run)
    requires AllAscending(sources) && AllVisible(sources, visible)
    ensures IsMerge(sources, ScanKeep(isDeleted), out)
  {
    ghost var keep := ScanKeep(isDeleted);
    var heap := OpenCursors(sources, keep);
    ghost var pos: seq<nat>, last: Option<Key> := seq(|sources|, _ => 0), None;
    out := [];
    var lastSeenKey: Option<Key>, lastEmittedKey: Option<Key> := None, None;
    while |heap.heap| > 0
      invariant fresh(heap) && heap.Valid() && Merging(sources, keep, pos, multiset(heap.heap), last, out)
      invariant Markers(last, lastSeenKey, lastEmittedKey)
      decreases Unread(sources, pos)
    {
      ghost var before := multiset(heap.heap);
      var winner := PopAndAdvance(heap);
      var key, value := winner.Key(), winner.rest[0].value;
      ScanStep(sources, keep, pos, before, winner, last, out, visible);
      MarkersFollow(last, lastEmittedKey, key);
      var doc: Option<Buf>;
      lastSeenKey, lastEmittedKey, doc := Decide(key, value, lastSeenKey, lastEmittedKey, isDeleted, visible, older);
      if doc.Some? {
        out := out + [Item(key, doc.value)];
      }
      pos, last := Consumed(pos, winner.priority), Some(key);
    }
    MergeComplete(sources, keep, pos, last, out);
  }

  lemma ScanStep(sources: seq<Run>, keep: Keep, pos: seq<nat>, heap: multiset<Cursor>, top: Cursor,
                 last: Option<Key>, out: Run, visible: Visible)
    requires AllAscending(sources) && AllVisible(sources, visible)
    requires Merging(sources, keep, pos, heap, last, out)
    requires top in heap && top.rest != [] && forall c :: c in heap ==> AtMost(top, c)
    ensures IsCursor(sources, pos, top) && visible(top.rest[0].value)
    ensures last.Some? ==> LessEq(last.value, top.Key())
    ensures Merging(sources, keep, Consumed(pos, top.priority), Requeued(heap, top), Some(top.Key()),
                    if last == Some(top.Key()) then out else Emitted(keep, out, top.rest[0]))
    ensures Unread(sources, Consumed(pos, top.priority)) < Unread(sources, pos)
  {
    MergeStep(sources, keep, pos, heap, top, last, out);
    SplitMoves(sources, pos, heap, top, last);
    UnreadShrinks(sources, pos, top.priority);
    var p := top.priority;
    assert top.rest[0] == sources[p][pos[p]];
    assert visible(sources[p][pos[p]].value);
  }

  lemma {:induction false} NewestConcat(a: seq<Run>, b: seq<Run>, key: Key)
    ensures Newest(a + b, key) == if Newest(a, key).Some? then Newest(a, key) else Newest(b, key)
  {
    if a == [] {
      assert a + b == b;
    } else {
      assert (a + b)[1..] == a[1..] + b;
      NewestConcat(a[1..], b, key);
    }
  }

  lemma NewestOne(a: seq<Run>, run: Run, key: Key)
    ensures Newest(a + [run], key) == if Newest(a, key).Some? then Newest(a, key) else Find(run, key)
  {
    NewestConcat(a, [run], key);
    assert [run][1..] == [];
  }

  lemma OnlyMemtable(run: Run)
    ensures forall key :: Newest([] + [run], key) == Find(run, key)
  {
    forall key ensures Newest([] + [run], key) == Find(run, key) {
      NewestOne([], run, key);
    }
  }

  lemma OneMoreSource(sources: seq<Run>, run: Run, visible: Visible)
    requires AllAscending(sources) && AllVisible(sources, visible) && Ascending(run)
    requires forall i {:trigger visible(run[i].value)} :: 0 <= i < |run| ==> visible(run[i].value)
    ensures AllAscending(sources + [run]) && AllVisible(sources + [run], visible)
  {
    var all := sources + [run];
    forall i | 0 <= i < |all| ensures Ascending(all[i]) {
      if i < |sources| { assert Ascending(sources[i]); }
    }
    forall i, j {:trigger visible(all[i][j].value)} | 0 <= i < |all| && 0 <= j < |all[i]|
      ensures visible(all[i][j].value)
    {
      if i < |sources| { assert visible(sources[i][j].value); } else { assert visible(run[j].value); }
    }
  }

  /** The runs hold what memory answers in the range. */
  ghost predicate HoldMemory(sources: seq<Run>, mem: VersionMap, imm: seq<VersionMap>, snapshot: nat, from: Key,
                             to: Key)
  {
    forall key :: Newest(sources, key) ==
      if Within(key, Some(from), Some(to)) then MemoryRead(mem, imm, key, snapshot) else None
  }

  lemma OneMoreMemtable(sources: seq<Run>, run: Run, mem: VersionMap, imm: seq<VersionMap>, i: nat,
                        snapshot: nat, from: Key, to: Key)
    requires i < |imm|
    requires forall key :: Find(run, key) ==
               if Within(key, Some(from), Some(to)) then TableRead(imm[i], key, snapshot) else None
    requires HoldMemory(sources, mem, imm[i + 1..], snapshot, from, to)
    ensures HoldMemory(sources + [run], mem, imm[i..], snapshot, from, to)
  {
    forall key
      ensures Newest(sources + [run], key) ==
              if Within(key, Some(from), Some(to)) then MemoryRead(mem, imm[i..], key, snapshot) else None
    {
      NewestOne(sources, run, key);
      ReadStackBelow(imm, i, key, snapshot);
    }
  }

  ghost predicate SeesTable(t: VersionMap, snapshot: nat, visible: Visible)
  {
    forall key :: TableRead(t, key, snapshot).Some? ==> visible(TableRead(t, key, snapshot).value)
  }

  lemma SeenRun(t: VersionMap, snapshot: nat, from: Key, to: Key, run: Run, visible: Visible)
    requires SeesTable(t, snapshot, visible) && Ascending(run)
    requires forall key :: Find(run, key) ==
               if Within(key, Some(from), Some(to)) then TableRead(t, key, snapshot) else None
    ensures forall i {:trigger visible(run[i].value)} :: 0 <= i < |run| ==> visible(run[i].value)
  {
    forall i {:trigger visible(run[i].value)} | 0 <= i < |run| ensures visible(run[i].value) {
      FindAt(run, i);
    }
  }

  method OpenOne(mem: SortedMemtable, snapshot: nat, from: Key, to: Key, ghost visible: Visible) returns (run: Run)
    requires mem.Valid() && SeesTable(mem.Contents(), snapshot, visible)
    ensures Ascending(run) && forall i {:trigger visible(run[i].value)} :: 0 <= i < |run| ==> visible(run[i].value)
    ensures forall key :: Find(run, key) ==
              if Within(key, Some(from), Some(to)) then TableRead(mem.Contents(), key, snapshot) else None
  {
    run := IterSnapshot(mem, snapshot, from, to);
    SeenRun(mem.Contents(), snapshot, from, to, run, visible);
  }

  /** The iterators over memory, in priority order: the memtable, then the queue from its newest end. */
  method OpenMemory(mem: SortedMemtable, queue: seq<SortedMemtable>, snapshot: nat, from: Key, to: Key,
                    ghost visible: Visible)
    returns (sources: seq<Run>)
    requires mem.Valid() && forall i :: 0 <= i < |queue| ==> queue[i].Valid()
    requires SeesTable(mem.Contents(), snapshot, visible)
    requires forall i :: 0 <= i < |queue| ==> SeesTable(queue[i].Contents(), snapshot, visible)
    ensures AllAscending(sources) && AllVisible(sources, visible)
    ensures HoldMemory(sources, mem.Contents(), NovaCollection.Tables(queue), snapshot, from, to)
  {
    var first := OpenOne(mem, snapshot, from, to, visible);
    sources := [] + [first];
    OneMoreSource([], first, visible);
    ghost var contents, tables := mem.Contents(), NovaCollection.Tables(queue);
    var i := |queue|;
    assert tables[i..] == [];
    OnlyMemtable(first);
    assert HoldMemory(sources, contents, tables[i..], snapshot, from, to);
    while i > 0
      invariant 0 <= i <= |queue| && AllAscending(sources) && AllVisible(sources, visible)
      invariant HoldMemory(sources, contents, tables[i..], snapshot, from, to)
    {
      i := i - 1;
      var run := OpenOne(queue[i], snapshot, from, to, visible);
      OneMoreMemtable(sources, run, contents, tables, i, snapshot, from, to);
      OneMoreSource(sources, run, visible);
      sources := sources + [run];
    }
    assert tables[0..] == tables;
  }

  lemma {:induction false} LookupConcat(a: seq<Table>, t: Table, key: Key)
    ensures Lookup(a + [t], key) == if Lookup(a, key).Some? then Lookup(a, key) else Find(t.run, key)
  {
    if a == [] {
      assert a + [t] == [t] && [t][1..] == [];
    } else {
      assert (a + [t])[1..] == a[1..] + [t];
      LookupConcat(a[1..], t, key);
    }
  }

  lemma RangeRun(t: Table, from: Key, to: Key, visible: Visible)
    requires Ascending(t.run)
    requires forall i {:trigger visible(t.run[i].value)} :: 0 <= i < |t.run| ==> visible(t.run[i].value)
    ensures var run := InRange(t.run, Some(from), Some(to));
            && Ascending(run)
            && (forall key :: Find(run, key) == if Within(key, Some(from), Some(to)) then Find(t.run, key) else None)
            && forall i {:trigger visible(run[i].value)} :: 0 <= i < |run| ==> visible(run[i].value)
  {
    var run := InRange(t.run, Some(from), Some(to));
    InRangeMeaning(t.run, Some(from), Some(to));
    InRangeItems(t.run, 0, Some(from), Some(to));
    forall i {:trigger visible(run[i].value)} | 0 <= i < |run| ensures visible(run[i].value) {
      assert run[i] in run;
      var j :| 0 <= j < |t.run| && t.run[j] == run[i];
      assert visible(t.run[j].value);
    }
  }

  /** The scan leaves out a table whose recorded bounds miss the range. */
  predicate Misses(t: Table, from: Key, to: Key)
  {
    (t.maxKey != [] && Less(t.maxKey, from)) || (t.minKey != [] && Less(to, t.minKey))
  }

  /** The tables it reads. */
  function Met(stack: seq<Table>, from: Key, to: Key): seq<Table>
  {
    if stack == [] then []
    else
      var n := |stack| - 1;
      Met(stack[..n], from, to) + if Misses(stack[n], from, to) then [] else [stack[n]]
  }

  /** A table with true bounds that miss the range has nothing in it. */
  lemma OutOfRange(t: Table, from: Key, to: Key, key: Key)
    requires Bounded(t) && Misses(t, from, to) && Within(key, Some(from), Some(to))
    ensures Find(t.run, key) == None
  {
    if Has(t, key) {
      if Less(t.maxKey, from) {
        if key != t.maxKey { LessTransitive(key, t.maxKey, from); }
      } else if key != t.minKey {
        LessTransitive(to, t.minKey, key);
      }
    }
  }

  /** So with true bounds nothing is lost with the tables left out. */
  lemma {:induction false} NothingMissed(stack: seq<Table>, from: Key, to: Key, key: Key)
    requires (forall i :: 0 <= i < |stack| ==> Bounded(stack[i])) && Within(key, Some(from), Some(to))
    ensures Lookup(Met(stack, from, to), key) == Lookup(stack, key)
    decreases |stack|
  {
    if stack != [] {
      var n := |stack| - 1;
      NothingMissed(stack[..n], from, to, key);
      assert stack == stack[..n] + [stack[n]];
      LookupConcat(stack[..n], stack[n], key);
      LookupConcat(Met(stack[..n], from, to), stack[n], key);
      if Misses(stack[n], from, to) {
        OutOfRange(stack[n], from, to, key);
        assert Met(stack[..n], from, to) + [] == Met(stack[..n], from, to);
      }
    }
  }

  /** The iterators over the tables whose bounds meet the range, newest first. */
  method OpenTables(stack: seq<Table>, from: Key, to: Key, ghost visible: Visible) returns (sources: seq<Run>)
    requires forall i :: 0 <= i < |stack| ==> Ascending(stack[i].run)
    requires forall i, j {:trigger visible(stack[i].run[j].value)} :: 0 <= i < |stack| && 0 <= j < |stack[i].run| ==>
               visible(stack[i].run[j].value)
    ensures AllAscending(sources) && AllVisible(sources, visible)
    ensures forall key :: Newest(sources, key) ==
              if Within(key, Some(from), Some(to)) then Lookup(Met(stack, from, to), key) else None
  {
    sources := [];
    var i := 0;
    while i < |stack|
      invariant 0 <= i <= |stack| && AllAscending(sources) && AllVisible(sources, visible)
      invariant forall key :: Newest(sources, key) ==
                  if Within(key, Some(from), Some(to)) then Lookup(Met(stack[..i], from, to), key) else None
    {
      var t := stack[i];
      assert stack[..i + 1][..i] == stack[..i];
      assert Met(stack[..i], from, to) + [] == Met(stack[..i], from, to);
      if !Misses(t, from, to) {
        var run := InRange(t.run, Some(from), Some(to));
        RangeRun(t, from, to, visible);
        OneMoreTable(sources, run, Met(stack[..i], from, to), t, from, to);
        sources := sources + [run];
      }
      i := i + 1;
    }
    assert stack[..i] == stack;
  }

  lemma OneMoreTable(sources: seq<Run>, run: Run, met: seq<Table>, t: Table, from: Key, to: Key)
    requires forall key :: Newest(sources, key) == if Within(key, Some(from), Some(to)) then Lookup(met, key) else None
    requires forall key :: Find(run, key) == if Within(key, Some(from), Some(to)) then Find(t.run, key) else None
    ensures forall key :: Newest(sources + [run], key) ==
              if Within(key, Some(from), Some(to)) then Lookup(met + [t], key) else None
  {
    forall key
      ensures Newest(sources + [run], key) == if Within(key, Some(from), Some(to)) then Lookup(met + [t], key) else None
    {
      LookupConcat(met, t, key);
      NewestOne(sources, run, key);
    }
  }

  /**
   * `scan(from, to)` at the latest snapshot: in strictly ascending order exactly the plain keys in range that
   * are live in memory and in the tables it reads, each with its newest document.
   */
  method Scan(mem: SortedMemtable, queue: seq<SortedMemtable>, stack: seq<Table>, from: Key, to: Key, snapshot: nat,
              isDeleted: Tombstone, visible: Visible, older: Key -> Option<Buf>)
    returns (out: Run)
    requires mem.Valid() && forall i :: 0 <= i < |queue| ==> queue[i].Valid()
    requires forall i :: 0 <= i < |stack| ==> Ascending(stack[i].run)
    requires SeesTable(mem.Contents(), snapshot, visible)
    requires forall i :: 0 <= i < |queue| ==> SeesTable(queue[i].Contents(), snapshot, visible)
    requires forall i, j {:trigger visible(stack[i].run[j].value)} :: 0 <= i < |stack| && 0 <= j < |stack[i].run| ==>
               visible(stack[i].run[j].value)
    ensures IsScan(out, mem.Contents(), NovaCollection.Tables(queue), Met(stack, from, to), from, to, snapshot,
                   isDeleted)
  {
    var memory := OpenMemory(mem, queue, snapshot, from, to, visible);
    var tables := OpenTables(stack, from, to, visible);
    out := ScanMerge(memory + tables, isDeleted, visible, older);
    forall key
      ensures Find(out, key) ==
              if Within(key, Some(from), Some(to)) && !IsVersionedKey(key)
              then Live(isDeleted, NewestRecord(mem.Contents(), NovaCollection.Tables(queue), Met(stack, from, to),
                                                key, snapshot))
              else None
    {
      NewestConcat(memory, tables, key);
      assert Find(out, key) == Kept(ScanKeep(isDeleted), key, Newest(memory + tables, key));
    }
  }

  /** The live plain keys in range, in order, each with its newest document in memory and these tables. */
  ghost predicate IsScan(out: Run, mem: VersionMap, imm: seq<VersionMap>, stack: seq<Table>, from: Key, to: Key,
                         snapshot: nat, isDeleted: Tombstone)
  {
    && Ascending(out)
    && forall key :: Find(out, key) ==
         if Within(key, Some(from), Some(to)) && !IsVersionedKey(key)
         then Live(isDeleted, NewestRecord(mem, imm, stack, key, snapshot)) else None
  }

  /** On tables with true bounds the scan yields every newest record in range. */
  lemma ScanIsComplete(out: Run, mem: VersionMap, imm: seq<VersionMap>, stack: seq<Table>, from: Key, to: Key,
                       snapshot: nat, isDeleted: Tombstone)
    requires IsScan(out, mem, imm, Met(stack, from, to), from, to, snapshot, isDeleted)
    requires forall i :: 0 <= i < |stack| ==> Bounded(stack[i])
    ensures IsScan(out, mem, imm, stack, from, to, snapshot, isDeleted)
  {
    forall key | Within(key, Some(from), Some(to))
      ensures NewestRecord(mem, imm, stack, key, snapshot)
              == NewestRecord(mem, imm, Met(stack, from, to), key, snapshot)
    {
      NothingMissed(stack, from, to, key);
    }
  }

  /** There `scan` agrees with `get` on a key exactly when memory answers, or old versions do not change the answer. */
  lemma ScanAgrees(out: Run, mem: VersionMap, imm: seq<VersionMap>, stack: seq<Table>, from: Key, to: Key,
                   snapshot: nat, isDeleted: Tombstone, key: Key, older: Older)
    requires IsScan(out, mem, imm, Met(stack, from, to), from, to, snapshot, isDeleted)
    requires Descending(stack) && forall i :: 0 <= i < |stack| ==> Bounded(stack[i])
    requires Within(key, Some(from), Some(to)) && !IsVersionedKey(key)
    ensures Find(out, key) == Live(isDeleted, GetRecord(mem, imm, stack, key, snapshot, older))
            <==> MemoryRead(mem, imm, key, snapshot).Some? || VersionsAgree(Elements(stack), key, older, isDeleted)
  {
    ScanIsComplete(out, mem, imm, stack, from, to, snapshot, isDeleted);
    LookupIsRecord(stack, key);
    LoopIsGot(stack, key, older);
    GotIff(Elements(stack), key, older, isDeleted);
  }

  /** As they never do while no version stands above the newest record of its document. */
  lemma ScanAgreesBelow(out: Run, mem: VersionMap, imm: seq<VersionMap>, stack: seq<Table>, from: Key, to: Key,
                        snapshot: nat, isDeleted: Tombstone, key: Key, older: Older)
    requires IsScan(out, mem, imm, Met(stack, from, to), from, to, snapshot, isDeleted)
    requires Descending(stack) && forall i :: 0 <= i < |stack| ==> Bounded(stack[i])
    requires Within(key, Some(from), Some(to)) && !IsVersionedKey(key)
    requires NoVersionAbove(Elements(stack), key, older)
    ensures Find(out, key) == Live(isDeleted, GetRecord(mem, imm, stack, key, snapshot, older))
  {
    ScanAgrees(out, mem, imm, stack, from, to, snapshot, isDeleted, key, older);
    LookupIsRecord(stack, key);
    NoneAboveAgrees(Elements(stack), key, older, isDeleted);
  }

  /** The first table that answers `get`, with the record or with a version; the number of tables if none does. */
  ghost function FirstAnswer(stack: seq<Table>, key: Key, older: Older): (i: nat)
    ensures i <= |stack|
  {
    if stack == [] || Reading(older, key)(stack[0]).Some? then 0 else 1 + FirstAnswer(stack[1..], key, older)
  }

  lemma {:induction false} LoopStops(stack: seq<Table>, key: Key, older: Older)
    ensures var i := FirstAnswer(stack, key, older);
            && (forall j :: 0 <= j < i ==> !Has(stack[j], key))
            && (i < |stack| ==> Reading(older, key)(stack[i]).Some?)
            && GetLoop(stack, key, older) == if i == |stack| then None else Reading(older, key)(stack[i])
  {
    if stack != [] && Reading(older, key)(stack[0]).None? {
      LoopStops(stack[1..], key, older);
      var i := FirstAnswer(stack, key, older);
      forall j | 0 <= j < i ensures !Has(stack[j], key) {
        if j > 0 {
          assert stack[1..][j - 1] == stack[j];
        }
      }
    }
  }

  lemma {:induction false} MetNone(stack: seq<Table>, from: Key, to: Key, key: Key)
    requires forall j :: 0 <= j < |stack| ==> !Has(stack[j], key)
    ensures Lookup(Met(stack, from, to), key) == None
    decreases |stack|
  {
    if stack != [] {
      var n := |stack| - 1;
      MetNone(stack[..n], from, to, key);
      LookupConcat(Met(stack[..n], from, to), stack[n], key);
      assert Met(stack[..n], from, to) + [] == Met(stack[..n], from, to);
    }
  }

  /** The scan reads the record of the first holder if it reads that table. */
  lemma {:induction false} MetFinds(stack: seq<Table>, from: Key, to: Key, key: Key, i: nat)
    requires i < |stack| && Has(stack[i], key) && !Misses(stack[i], from, to)
    requires forall j :: 0 <= j < i ==> !Has(stack[j], key)
    ensures Lookup(Met(stack, from, to), key) == Find(stack[i].run, key)
    decreases |stack|
  {
    var n := |stack| - 1;
    LookupConcat(Met(stack[..n], from, to), stack[n], key);
    if i == n {
      MetNone(stack[..n], from, to, key);
    } else {
      MetFinds(stack[..n], from, to, key, i);
      assert Met(stack[..n], from, to) + [] == Met(stack[..n], from, to);
    }
  }

  /** The first table that answers `get` has the record and is not skipped. */
  ghost predicate AnsweredFromMet(stack: seq<Table>, from: Key, to: Key, key: Key, older: Older)
  {
    var i := FirstAnswer(stack, key, older);
    i < |stack| && Has(stack[i], key) && !Misses(stack[i], from, to)
  }

  /**
   * On any tables `scan` agrees with `get` on a key exactly when memory answers, or no table does, or the first
   * table that answers has the record and is not skipped, or what that table answers reads as the first record in
   * the tables the scan does read.
   */
  lemma ScanAgreesIff(out: Run, mem: VersionMap, imm: seq<VersionMap>, stack: seq<Table>, from: Key, to: Key,
                      snapshot: nat, isDeleted: Tombstone, key: Key, older: Older)
    requires IsScan(out, mem, imm, Met(stack, from, to), from, to, snapshot, isDeleted)
    requires Within(key, Some(from), Some(to)) && !IsVersionedKey(key)
    ensures var i := FirstAnswer(stack, key, older);
            Find(out, key) == Live(isDeleted, GetRecord(mem, imm, stack, key, snapshot, older))
            <==> || MemoryRead(mem, imm, key, snapshot).Some?
                 || i == |stack|
                 || AnsweredFromMet(stack, from, to, key, older)
                 || Live(isDeleted, Reading(older, key)(stack[i])) == Live(isDeleted, Lookup(Met(stack, from, to), key))
  {
    var i := FirstAnswer(stack, key, older);
    LoopStops(stack, key, older);
    if i == |stack| {
      MetNone(stack, from, to, key);
    } else if Has(stack[i], key) && !Misses(stack[i], from, to) {
      MetFinds(stack, from, to, key, i);
    }
    assert Find(out, key) == Live(isDeleted, NewestRecord(mem, imm, Met(stack, from, to), key, snapshot));
  }

  /**
   * A scan that misses a key `get` finds: the only table holds it beyond the maximum recorded for it, which
   * is the first key of its only block.
   */
  lemma SkippedTable(f: Format, t: Table, low: Item, high: Item, older: Older)
    requires Less(low.key, high.key) && low.key != [] && t.run == [low, high] && Finished(f, t)
    requires f.blockSize > |f.rec(low)|
    ensures Met([t], high.key, high.key) == [] && GetLoop([t], high.key, older) == Some(high.value)
  {
    OneBlock(f, t.run);
    LessIrreflexive(high.key);
    assert [t][..0] == [] && t.run[1..] == [high] && high.key != low.key;
    assert Find(t.run, high.key) == Find([high], high.key) == Some(high.value);
  }
}
