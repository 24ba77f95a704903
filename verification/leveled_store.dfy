/** How far a compaction output's recorded bounds can be trusted. */
module OutputBounds {
  import opened Keys
  import opened Options
  import opened Runs
  import opened Layout
  import opened SSTables
  import opened Compaction
  import opened DiskReads
  import opened Leveled

  /** Does the last record of the run open a block? */
  ghost predicate LastOpensBlock(f: Format, run: Run)
  {
    var m := Marks(f.rec, f.blockSize, run);
    m != [] && m[|m| - 1] == |run| - 1
  }

  /** An output's bounds are true exactly when its last record opens a block. */
  lemma OutputBoundedIff(f: Format, t: Table)
    requires Finished(f, t) && Ascending(t.run) && t.run != []
    ensures t.minKey == t.run[0].key
    ensures Bounded(t) <==> LastOpensBlock(f, t.run)
  {
    var run, n := t.run, |t.run|;
    MarksMatch(f.rec, f.blockSize, run);
    var m := Marks(f.rec, f.blockSize, run);
    var last := m[|m| - 1];
    assert t.maxKey == run[last].key;
    FindAt(run, n - 1);
    if LastOpensBlock(f, run) {
      forall key | Has(t, key) ensures LessEq(t.minKey, key) && LessEq(key, t.maxKey) {
        FindHolds(run, key);
        var i :| 0 <= i < n && run[i].key == key;
        if i > 0 { assert Less(run[0].key, run[i].key); }
        if i < n - 1 { assert Less(run[i].key, run[n - 1].key); }
      }
    } else {
      assert Less(run[last].key, run[n - 1].key);
      NotLess(run[n - 1].key, run[n - 1].key);
      LessAsymmetric(run[last].key, run[n - 1].key);
      assert Has(t, run[n - 1].key) && !LessEq(run[n - 1].key, t.maxKey);
    }
  }

  /** With blocks no larger than any record, every record opens one. */
  lemma {:induction false} SmallBlocksMarkAll(f: Format, run: Run)
    requires forall item {:trigger f.rec(item)} :: |f.rec(item)| >= f.blockSize
    ensures run != [] ==> LastOpensBlock(f, run)
  {
    if run != [] {
      var before := run[..|run| - 1];
      SmallBlocksMarkAll(f, before);
      MarksMatch(f.rec, f.blockSize, before);
      if before != [] {
        OffsetStep(f.rec, before, |before| - 1);
        assert before[..|before|] == before;
      } else {
        assert DataOf(f.rec, before) == [];
      }
    }
  }

  /** So then every recorded bound is true. */
  lemma SmallBlocksBound(f: Format, t: Table)
    requires Finished(f, t) && Ascending(t.run)
    requires forall item {:trigger f.rec(item)} :: |f.rec(item)| >= f.blockSize
    ensures Bounded(t)
  {
    SmallBlocksMarkAll(f, t.run);
    if t.run != [] {
      OutputBoundedIff(f, t);
    }
  }
}

/** The levels of one collection, and the method that compacts them. */
module LeveledStores {
  import opened Keys
  import opened Options
  import opened Versions
  import opened VersionedKeys
  import opened Runs
  import opened Merge
  import opened Layout
  import opened Bloom
  import opened SSTables
  import opened Compaction
  import opened DiskReads
  import opened CompactionMeaning
  import opened Leveled
  import opened GetReads
  import opened LeveledGets

  /** Each listed table lies on its level and on no other. */
  ghost predicate Places(levels: seq<seq<Table>>, p: Placement)
  {
    && (forall l, i :: 0 <= l < |levels| && 0 <= i < |levels[l]| ==> levels[l][i] in p && p[levels[l][i]] == l)
    && (forall t :: t in p ==> p[t] < |levels| && t in levels[p[t]])
  }

  lemma {:induction false} LeastIdExists(ts: set<Table>)
    requires ts != {}
    ensures exists t :: t in ts && forall u :: u in ts ==> t.id <= u.id
    decreases ts
  {
    var t :| t in ts;
    var rest := ts - {t};
    assert forall u :: u in ts ==> u == t || u in rest;
    if rest != {} {
      LeastIdExists(rest);
      var v :| v in rest && forall u :: u in rest ==> v.id <= u.id;
      var least := if t.id < v.id then t else v;
      assert least in ts && forall u :: u in ts ==> least.id <= u.id;
    }
  }

  /** `.sort((a, b) => a.id - b.id)`. */
  method SortById(ts: set<Table>) returns (s: seq<Table>)
    requires UniqueIds(ts)
    ensures AscendingIds(s) && forall t :: t in s <==> t in ts
  {
    s := [];
    var todo := ts;
    while todo != {}
      invariant todo <= ts && AscendingIds(s)
      invariant forall t :: t in s <==> t in ts - todo
      invariant forall i, t :: 0 <= i < |s| && t in todo ==> s[i].id < t.id
      decreases todo
    {
      LeastIdExists(todo);
      var t :| t in todo && forall u :: u in todo ==> t.id <= u.id;
      s := s + [t];
      todo := todo - {t};
    }
  }

  /** The least minimum and greatest maximum recorded among the tables. */
  method RangeOf(ts: seq<Table>) returns (minKey: Key, maxKey: Key)
    requires ts != []
    ensures forall t :: t in ts ==> LessEq(minKey, t.minKey) && LessEq(t.maxKey, maxKey)
    ensures exists t, u :: t in ts && u in ts && minKey == t.minKey && maxKey == u.maxKey
  {
    minKey, maxKey := ts[0].minKey, ts[0].maxKey;
    ghost var a, b := ts[0], ts[0];
    var i := 0;
    while i < |ts|
      invariant 0 <= i <= |ts| && a in ts && b in ts && minKey == a.minKey && maxKey == b.maxKey
      invariant forall j :: 0 <= j < i ==> LessEq(minKey, ts[j].minKey) && LessEq(ts[j].maxKey, maxKey)
    {
      ghost var lo, hi := minKey, maxKey;
      LessConnected(ts[i].minKey, minKey);
      LessConnected(ts[i].maxKey, maxKey);
      if Less(ts[i].minKey, minKey) {
        minKey, a := ts[i].minKey, ts[i];
      }
      if Less(maxKey, ts[i].maxKey) {
        maxKey, b := ts[i].maxKey, ts[i];
      }
      forall j | 0 <= j < i ensures LessEq(minKey, ts[j].minKey) && LessEq(ts[j].maxKey, maxKey) {
        Between(minKey, lo, ts[j].minKey);
        Between(ts[j].maxKey, hi, maxKey);
      }
      i := i + 1;
    }
  }

  method Overlapping(ts: seq<Table>, minKey: Key, maxKey: Key) returns (r: seq<Table>)
    ensures forall t :: t in r <==> t in ts && Overlaps(t, minKey, maxKey)
  {
    r := [];
    var i := 0;
    while i < |ts|
      invariant 0 <= i <= |ts|
      invariant forall t :: t in r <==> t in ts[..i] && Overlaps(t, minKey, maxKey)
    {
      assert ts[..i + 1] == ts[..i] + [ts[i]];
      if Overlaps(ts[i], minKey, maxKey) {
        r := r + [ts[i]];
      }
      i := i + 1;
    }
    assert ts[..i] == ts;
  }

  /** The tables of a list that are not among the removed ones. */
  method Without(ts: seq<Table>, removed: seq<Table>) returns (r: seq<Table>)
    ensures forall t :: t in r <==> t in ts && t !in removed
  {
    r := [];
    var i := 0;
    while i < |ts|
      invariant 0 <= i <= |ts|
      invariant forall t :: t in r <==> t in ts[..i] && t !in removed
    {
      assert ts[..i + 1] == ts[..i] + [ts[i]];
      if ts[i] !in removed {
        r := r + [ts[i]];
      }
      i := i + 1;
    }
    assert ts[..i] == ts;
  }

  ghost predicate ByMinKey(ts: seq<Table>)
  {
    forall i, j :: 0 <= i < j < |ts| ==> LessEq(ts[i].minKey, ts[j].minKey)
  }

  /** Keeps the next level in order of minimum key; which tables lie on it does not change. */
  method SortByMinKey(ts: seq<Table>) returns (r: seq<Table>)
    ensures ByMinKey(r)
    ensures forall t :: t in r <==> t in ts
  {
    r := [];
    var i := 0;
    while i < |ts|
      invariant 0 <= i <= |ts| && ByMinKey(r)
      invariant forall t :: t in r <==> t in ts[..i]
    {
      var j := |r|;
      while j > 0 && Less(ts[i].minKey, r[j - 1].minKey)
        invariant 0 <= j <= |r|
        invariant j < |r| ==> Less(ts[i].minKey, r[j].minKey)
      {
        j := j - 1;
      }
      InsertedByMinKey(r, ts[i], j);
      assert ts[..i + 1] == ts[..i] + [ts[i]];
      assert r == r[..j] + r[j..];
      r := r[..j] + [ts[i]] + r[j..];
      i := i + 1;
    }
    assert ts[..i] == ts;
  }

  lemma InsertedByMinKey(r: seq<Table>, t: Table, k: nat)
    requires ByMinKey(r) && k <= |r|
    requires k > 0 ==> !Less(t.minKey, r[k - 1].minKey)
    requires k < |r| ==> Less(t.minKey, r[k].minKey)
    ensures ByMinKey(r[..k] + [t] + r[k..])
  {
    TotalOrder();
    forall i | 0 <= i < k ensures LessEq(r[i].minKey, t.minKey) {
      Between(r[i].minKey, r[k - 1].minKey, t.minKey);
    }
    forall i | k <= i < |r| ensures LessEq(t.minKey, r[i].minKey) {
      Between(t.minKey, r[k].minKey, r[i].minKey);
    }
  }

  function SizeOf(ts: seq<Table>): nat
  {
    if ts == [] then 0 else SizeOf(ts[..|ts| - 1]) + ts[|ts| - 1].sizeBytes
  }

  lemma {:induction false} SizesAdd(a: seq<Table>, b: seq<Table>)
    ensures SizeOf(a + b) == SizeOf(a) + SizeOf(b)
    ensures forall t :: SizeOf([t]) == t.sizeBytes
    decreases |b|
  {
    assert forall t: Table :: [t][..0] == [] && [t][0] == t;
    if b == [] {
      assert a + b == a;
    } else {
      assert (a + b)[..|a + b| - 1] == a + b[..|b| - 1];
      SizesAdd(a, b[..|b| - 1]);
    }
  }

  function Pow(base: nat, exp: nat): nat
  {
    if exp == 0 then 1 else base * Pow(base, exp - 1)
  }

  ghost predicate IsLargest(t: Table, ts: seq<Table>)
  {
    t in ts && forall u :: u in ts ==> u.sizeBytes <= t.sizeBytes
  }

  ghost predicate SomeTableHolds(ts: set<Table>, item: Item)
  {
    exists t :: t in ts && Find(t.run, item.key) == Some(item.value)
  }

  /** The runs of records of these tables, any of which a compaction might write to one file. */
  ghost function Files(ts: set<Table>): iset<Run>
  {
    iset run: Run | Ascending(run) && forall i :: 0 <= i < |run| ==> SomeTableHolds(ts, run[i])
  }

  /** No such file would overflow a field. */
  ghost predicate FittingStore(f: Format, bloomSize: nat, hashCount: nat, ts: set<Table>)
  {
    forall run :: run in Files(ts) ==> FileFits(f, run, bloomSize, hashCount)
  }

  lemma InputsFit(f: Format, bloomSize: nat, hashCount: nat, ts: set<Table>, tables: seq<Table>)
    requires FittingStore(f, bloomSize, hashCount, ts) && forall t :: t in tables ==> t in ts
    ensures Fitting(f, bloomSize, hashCount, Sources(tables))
  {
    forall run: Run | Ascending(run) && DrawnFrom(run, Sources(tables)) ensures FileFits(f, run, bloomSize, hashCount) {
      forall i | 0 <= i < |run| ensures SomeTableHolds(ts, run[i]) {
        assert SomeHolds(Sources(tables), run[i]);
        var k :| 0 <= k < |tables| && Find(Sources(tables)[k], run[i].key) == Some(run[i].value);
        assert tables[|tables| - 1 - k] in ts;
      }
      assert run in Files(ts);
    }
  }

  /** A compaction makes no new records. */
  lemma StillFits(f: Format, bloomSize: nat, hashCount: nat, before: Placement, s: Step, after: Placement)
    requires Compacts(before, s, after) && FittingStore(f, bloomSize, hashCount, before.Keys)
    ensures FittingStore(f, bloomSize, hashCount, after.Keys)
  {
    forall run | run in Files(after.Keys) ensures run in Files(before.Keys) {
      forall i | 0 <= i < |run| ensures SomeTableHolds(before.Keys, run[i]) {
        assert SomeTableHolds(after.Keys, run[i]);
        HeldBefore(before, s, after, run[i]);
      }
    }
  }

  lemma HeldBefore(before: Placement, s: Step, after: Placement, item: Item)
    requires Compacts(before, s, after) && SomeTableHolds(after.Keys, item)
    ensures SomeTableHolds(before.Keys, item)
  {
    var t :| t in after.Keys && Find(t.run, item.key) == Some(item.value);
    if t !in before.Keys {
      ResultIsDrawn(s.inputs, s.results, s.policy.Keep(), t, item);
    }
  }

  lemma ResultIsDrawn(inputs: seq<Table>, results: seq<Table>, keep: Keep, t: Table, item: Item)
    requires IsMerge(Sources(inputs), keep, Flat(results))
    requires t in results && Find(t.run, item.key) == Some(item.value)
    ensures SomeTableHolds(Elements(inputs), item)
  {
    FlatFinds(results, item.key);
    assert Find(Flat(results), item.key) == Some(item.value);
    var k := NewestFrom(Sources(inputs), item.key);
    assert inputs[|inputs| - 1 - k] in Elements(inputs);
  }

  /** The largest table of the level; the first of them when several are. */
  method Largest(ts: seq<Table>) returns (t: Table)
    requires ts != []
    ensures IsLargest(t, ts)
  {
    t := ts[0];
    var i := 0;
    while i < |ts|
      invariant 0 <= i <= |ts| && t in ts
      invariant forall j :: 0 <= j < i ==> ts[j].sizeBytes <= t.sizeBytes
    {
      if ts[i].sizeBytes > t.sizeBytes {
        t := ts[i];
      }
      i := i + 1;
    }
  }

  class LeveledStore {
    const f: Format
    const hash: Hash
    const bloomSize: nat
    const hashCount: nat
    const l1MaxBytes: nat
    const levelSizeMultiplier: nat
    const targetFileSize: nat
    const isDeleted: Tombstone
    var levels: seq<seq<Table>>
    var nextSstableId: nat
    ghost var place: Placement

    ghost predicate Valid()
      reads this
    {
      && bloomSize > 0
      && Places(levels, place)
      && UniqueIds(place.Keys)
      && (forall t :: t in place ==> t.id < nextSstableId && Ascending(t.run))
    }

    constructor (f: Format, hash: Hash, bloomSize: nat, hashCount: nat, l1MaxBytes: nat, levelSizeMultiplier: nat,
                 targetFileSize: nat, isDeleted: Tombstone, numLevels: nat)
      requires bloomSize > 0
      ensures Valid() && place == map[] && nextSstableId == 0 && |levels| == numLevels
      ensures this.f == f && this.hash == hash && this.bloomSize == bloomSize && this.hashCount == hashCount
      ensures this.l1MaxBytes == l1MaxBytes && this.levelSizeMultiplier == levelSizeMultiplier
      ensures this.targetFileSize == targetFileSize && this.isDeleted == isDeleted
    {
      this.f, this.hash, this.bloomSize, this.hashCount := f, hash, bloomSize, hashCount;
      this.l1MaxBytes, this.levelSizeMultiplier := l1MaxBytes, levelSizeMultiplier;
      this.targetFileSize, this.isDeleted := targetFileSize, isDeleted;
      levels := seq(numLevels, _ => []);
      nextSstableId := 0;
      place := map[];
    }

    function LevelTargetBytes(level: nat): nat
    {
      if level == 0 then 0 else l1MaxBytes * Pow(levelSizeMultiplier, level - 1)
    }

    /** Each level may grow to a fixed multiple of the one above it. */
    lemma TargetsGrow(level: nat)
      requires level > 0
      ensures LevelTargetBytes(1) == l1MaxBytes
      ensures LevelTargetBytes(level + 1) == levelSizeMultiplier * LevelTargetBytes(level)
    {
      assert levelSizeMultiplier * (l1MaxBytes * Pow(levelSizeMultiplier, level - 1))
             == l1MaxBytes * (levelSizeMultiplier * Pow(levelSizeMultiplier, level - 1));
    }

    /** An id is taken before the table that gets it is written. */
    method TakeId() returns (id: nat)
      requires Valid()
      modifies this
      ensures Valid() && id == old(nextSstableId) && nextSstableId == id + 1
      ensures levels == old(levels) && place == old(place)
    {
      id := nextSstableId;
      nextSstableId := nextSstableId + 1;
    }

    /** A flushed table goes to the front of the first level. */
    method AddFlushed(t: Table)
      requires Valid() && levels != [] && Ascending(t.run)
      requires t.id < nextSstableId && forall u :: u in place ==> u.id != t.id
      modifies this
      ensures Valid() && nextSstableId == old(nextSstableId)
      ensures levels == old(levels)[0 := [t] + old(levels)[0]] && place == old(place)[t := 0]
    {
      levels := levels[0 := [t] + levels[0]];
      place := place[t := 0];
    }

    method IsBottommostLevel(level: nat, minKey: Key, maxKey: Key) returns (r: bool)
      requires Valid()
      ensures r <==> forall t :: t in place && place[t] > level ==> !Overlaps(t, minKey, maxKey)
    {
      var l := level + 1;
      while l < |levels|
        invariant level + 1 <= l
        invariant forall t :: t in place && level < place[t] < l ==> !Overlaps(t, minKey, maxKey)
      {
        var hit := AnyOverlaps(levels[l], minKey, maxKey);
        if hit {
          return false;
        }
        l := l + 1;
      }
      return true;
    }

    static method AnyOverlaps(ts: seq<Table>, minKey: Key, maxKey: Key) returns (r: bool)
      ensures r <==> exists i :: 0 <= i < |ts| && Overlaps(ts[i], minKey, maxKey)
    {
      var i := 0;
      while i < |ts|
        invariant 0 <= i <= |ts|
        invariant forall j :: 0 <= j < i ==> !Overlaps(ts[j], minKey, maxKey)
      {
        if Overlaps(ts[i], minKey, maxKey) {
          return true;
        }
        i := i + 1;
      }
      return false;
    }

    /** A level with one below it is due: the first when it holds any table, another when over its target. */
    ghost predicate Due(level: nat)
      reads this
    {
      level + 1 < |levels| && levels[level] != [] && (level == 0 || SizeOf(levels[level]) > LevelTargetBytes(level))
    }

    /** All of the first level; of a lower one over its target, the largest table. */
    method ChooseInputs(level: nat) returns (chosen: seq<Table>)
      requires Valid() && level + 1 < |levels|
      ensures chosen != [] <==> Due(level)
      ensures forall t :: t in chosen ==> t in levels[level]
      ensures level == 0 ==> chosen == levels[0]
      ensures level > 0 && chosen != [] ==> |chosen| == 1 && IsLargest(chosen[0], levels[level])
    {
      if level == 0 {
        return levels[0];
      }
      if SizeOf(levels[level]) <= LevelTargetBytes(level) || levels[level] == [] {
        return [];
      }
      var t := Largest(levels[level]);
      return [t];
    }

    /** Puts the outputs where the inputs were. */
    method Replace(level: nat, inputs: seq<Table>, results: seq<Table>)
      requires level + 1 < |levels| && Places(levels, place)
      requires forall t :: t in inputs ==> t in place && (place[t] == level || place[t] == level + 1)
      requires forall t :: t in results ==> t !in place
      modifies `levels, `place
      ensures |levels| == |old(levels)| && Places(levels, place)
      ensures place == Moved(old(place), inputs, results, level + 1)
    {
      ghost var before := place;
      var upper := Without(levels[level], inputs);
      var kept := Without(levels[level + 1], inputs);
      var lower := SortByMinKey(results + kept);
      place := Moved(place, inputs, results, level + 1);
      PlacesAfter(levels, before, level, inputs, results, upper, lower, place);
      levels := levels[level := upper][level + 1 := lower];
    }

    /** One level's compaction, without the cascade into the next. */
    method CompactLevel(level: nat, gcCutoffTxnId: nat) returns (ran: bool, ok: bool, ghost step: Step)
      requires Valid()
      modifies this
      ensures Valid() && |levels| == |old(levels)|
      ensures !ran ==> place == old(place) && levels == old(levels)
      ensures ran <==> old(Due(level)) && ok
      ensures FittingStore(f, bloomSize, hashCount, old(place).Keys) ==> ok
      ensures ran && level > 0 ==> exists t :: step.chosen == {t} && IsLargest(t, old(levels[level]))
      ensures ran && FittingStore(f, bloomSize, hashCount, old(place).Keys) ==>
                FittingStore(f, bloomSize, hashCount, place.Keys)
      ensures ran ==> step.level == level && Compacts(old(place), step, place)
      ensures ran ==>
                step.policy == Policy(isDeleted, step.policy.isBottommost, gcCutoffTxnId, targetFileSize)
    {
      ran, ok := false, true;
      step := Step(level, {}, [], [], [], [], Policy(isDeleted, false, gcCutoffTxnId, targetFileSize), 0);
      if level + 1 >= |levels| {
        return;
      }
      var chosen := ChooseInputs(level);
      if chosen == [] {
        return;
      }
      ghost var t := chosen[0];
      assert level > 0 ==> Elements(chosen) == {t};
      ok, step := Rewrite(level, chosen, gcCutoffTxnId);
      ran := ok;
      if ok && FittingStore(f, bloomSize, hashCount, old(place).Keys) {
        StillFits(f, bloomSize, hashCount, old(place), step, place);
      }
    }

    /** Merges the chosen tables into the next level. */
    method Rewrite(level: nat, chosen: seq<Table>, gcCutoffTxnId: nat) returns (ok: bool, ghost step: Step)
      requires Valid() && level + 1 < |levels| && chosen != [] && forall t :: t in chosen ==> t in levels[level]
      requires level == 0 ==> chosen == levels[0]
      modifies this
      ensures Valid() && |levels| == |old(levels)|
      ensures !ok ==> place == old(place) && levels == old(levels)
      ensures FittingStore(f, bloomSize, hashCount, old(place).Keys) ==> ok
      ensures ok ==> step.level == level && step.chosen == Elements(chosen)
      ensures ok ==> step.policy == Policy(isDeleted, step.policy.isBottommost, gcCutoffTxnId, targetFileSize)
      ensures ok ==> Compacts(old(place), step, place)
    {
      var minKey, maxKey, allInputs, policy := Plan(level, chosen, gcCutoffTxnId);
      if FittingStore(f, bloomSize, hashCount, place.Keys) {
        InputsFit(f, bloomSize, hashCount, place.Keys, allInputs);
      }
      var results, files, nextId;
      results, files, nextId, ok := CompactSSTablesStreaming(f, hash, bloomSize, hashCount, allInputs, policy,
                                                             nextSstableId);
      step := Step(level, Elements(chosen), minKey, maxKey, allInputs, results, policy, nextSstableId);
      if ok {
        ghost var after := StepIsCompaction(levels, place, step, chosen, level, allInputs, results);
        Install(level, allInputs, results, nextId, after);
      }
    }

    /** Makes the outputs part of the store, under the ids they were written with. */
    method Install(level: nat, allInputs: seq<Table>, results: seq<Table>, nextId: nat, ghost after: Placement)
      requires after == Moved(place, allInputs, results, level + 1)
      requires Valid() && level + 1 < |levels|
      requires nextId >= nextSstableId + |results| && Numbered(results, nextSstableId)
      requires forall t :: t in allInputs ==> t in place && (place[t] == level || place[t] == level + 1)
      requires forall t :: t in results ==> t !in place && Ascending(t.run)
      modifies this
      ensures Valid() && |levels| == |old(levels)|
      ensures place == after
    {
      StepKeepsIds(place.Keys, allInputs, results, nextSstableId, nextId);
      Replace(level, allInputs, results);
      assert place.Keys == After(old(place.Keys), allInputs, results);
      nextSstableId := nextId;
    }

    /** The range, the inputs by ascending id, and whether tombstones may go. */
    method Plan(level: nat, chosen: seq<Table>, gcCutoffTxnId: nat)
      returns (minKey: Key, maxKey: Key, allInputs: seq<Table>, policy: Policy)
      requires Valid() && level + 1 < |levels| && chosen != [] && forall t :: t in chosen ==> t in levels[level]
      ensures AscendingIds(allInputs)
      ensures Planned(levels, place, level, Elements(chosen), minKey, maxKey, allInputs, policy)
      ensures policy == Policy(isDeleted, policy.isBottommost, gcCutoffTxnId, targetFileSize)
      ensures forall i :: 0 <= i < |allInputs| ==> Ascending(allInputs[i].run)
    {
      minKey, maxKey := RangeOf(chosen);
      var overlapping := Overlapping(levels[level + 1], minKey, maxKey);
      var isBottommost := IsBottommostLevel(level + 1, minKey, maxKey);
      allInputs := SortById(set t | t in chosen + overlapping);
      policy := Policy(isDeleted, isBottommost, gcCutoffTxnId, targetFileSize);
      forall i | 0 <= i < |allInputs| ensures Ascending(allInputs[i].run) {
        assert allInputs[i] in allInputs;
      }
    }

    /**
     * Compacts a level, and the next ones as long as each grows over its target. It goes down level by level
     * and stops only at one that is not due, unless a file would overflow. `oldest(l)` is the oldest snapshot that is
     * open when the level `l` is compacted.
     */
    method RunLeveledCompaction(level: nat, oldest: nat -> nat)
      returns (ok: bool, ghost steps: seq<Step>, ghost places: seq<Placement>, ghost end: nat)
      requires Valid()
      modifies this
      ensures Valid() && |levels| == |old(levels)|
      ensures Descends(steps, places, isDeleted, oldest, level, old(place), place)
      ensures steps == [] ==> levels == old(levels)
      ensures end == level + |steps| && (ok ==> !Due(end))
      ensures FittingStore(f, bloomSize, hashCount, old(place).Keys) ==> ok
      decreases |levels| - level, 0
    {
      steps, places, end := [], [place], level;
      var ran;
      ghost var step;
      ran, ok, step := CompactLevel(level, oldest(level));
      if ran {
        ghost var here := place;
        ghost var rest, later;
        ok, rest, later, end := Descend(level + 1, oldest);
        DescendsFurther(step, old(place), rest, later, isDeleted, oldest, level, here, place);
        steps, places := [step] + rest, [old(place)] + later;
      }
    }

    /** Goes on with the next level, when that has grown over its target. */
    method Descend(level: nat, oldest: nat -> nat)
      returns (ok: bool, ghost steps: seq<Step>, ghost places: seq<Placement>, ghost end: nat)
      requires Valid() && 0 < level < |levels|
      modifies this
      ensures Valid() && |levels| == |old(levels)|
      ensures Descends(steps, places, isDeleted, oldest, level, old(place), place)
      ensures end == level + |steps| && (ok ==> !Due(end))
      ensures FittingStore(f, bloomSize, hashCount, old(place).Keys) ==> ok
      decreases |levels| - level, 1
    {
      ok, steps, places, end := true, [], [place], level;
      if level < |levels| - 1 && SizeOf(levels[level]) > LevelTargetBytes(level) {
        ok, steps, places, end := RunLeveledCompaction(level, oldest);
      }
    }
  }

  ghost predicate Planned(levels: seq<seq<Table>>, p: Placement, level: nat, chosen: set<Table>,
                          minKey: Key, maxKey: Key, inputs: seq<Table>, policy: Policy)
    requires level + 1 < |levels|
  {
    && (forall t :: t in chosen ==> LessEq(minKey, t.minKey) && LessEq(t.maxKey, maxKey))
    && (forall t :: t in inputs <==> t in chosen || (t in levels[level + 1] && Overlaps(t, minKey, maxKey)))
    && (policy.isBottommost <==> forall t :: t in p && p[t] > level + 1 ==> !Overlaps(t, minKey, maxKey))
  }

  /** A run of compactions, each from one placement to the next. */
  ghost predicate IsHistory(steps: seq<Step>, places: seq<Placement>, isDeleted: Tombstone)
  {
    && |places| == |steps| + 1
    && forall i :: 0 <= i < |steps| ==>
         Compacts(places[i], steps[i], places[i + 1]) && steps[i].policy.isDeleted == isDeleted
  }

  /** One level a step, each with the oldest snapshot open at the time as the cutoff. */
  ghost predicate GoesDown(steps: seq<Step>, oldest: nat -> nat, level: nat)
  {
    forall i :: 0 <= i < |steps| ==>
      steps[i].level == level + i && steps[i].policy.gcCutoffTxnId == oldest(level + i)
  }

  lemma OneMoreDown(s: Step, steps: seq<Step>, oldest: nat -> nat, level: nat)
    requires GoesDown(steps, oldest, level + 1)
    requires s.level == level && s.policy.gcCutoffTxnId == oldest(level)
    ensures GoesDown([s] + steps, oldest, level)
  {
    var ss := [s] + steps;
    forall i | 0 <= i < |ss| ensures ss[i].level == level + i && ss[i].policy.gcCutoffTxnId == oldest(level + i) {
      if i > 0 {
        assert ss[i] == steps[i - 1] && level + 1 + (i - 1) == level + i;
      }
    }
  }

  /** A history from one placement to another that goes down one level a step. */
  ghost predicate Descends(steps: seq<Step>, places: seq<Placement>, isDeleted: Tombstone, oldest: nat -> nat,
                           level: nat, from: Placement, to: Placement)
  {
    && IsHistory(steps, places, isDeleted)
    && places[0] == from && places[|steps|] == to
    && GoesDown(steps, oldest, level)
  }

  lemma DescendsFurther(s: Step, p: Placement, steps: seq<Step>, places: seq<Placement>, isDeleted: Tombstone,
                        oldest: nat -> nat, level: nat, here: Placement, to: Placement)
    requires Descends(steps, places, isDeleted, oldest, level + 1, here, to)
    requires Compacts(p, s, here) && s.policy.isDeleted == isDeleted
    requires s.level == level && s.policy.gcCutoffTxnId == oldest(level)
    ensures Descends([s] + steps, [p] + places, isDeleted, oldest, level, p, to)
  {
    var ss, ps := [s] + steps, [p] + places;
    forall i | 0 <= i < |ss|
      ensures Compacts(ps[i], ss[i], ps[i + 1]) && ss[i].policy.isDeleted == isDeleted
    {
      if i > 0 {
        assert Compacts(places[i - 1], steps[i - 1], places[i]);
      }
    }
    OneMoreDown(s, steps, oldest, level);
  }

  /** The states of a history at which the code's assumptions hold: bounds are true, nothing newer is outside. */
  ghost predicate Guarded(steps: seq<Step>, places: seq<Placement>)
    requires |places| == |steps| + 1
  {
    forall i :: 0 <= i < |steps| ==>
      TrueBounds(places[i]) && UpperClear(places[i], steps[i]) && BottomClear(places[i], steps[i])
  }

  /** A whole cascade of guarded compactions leaves the newest record of every plain key reading as before. */
  lemma {:induction false} HistoryPreservesPlain(steps: seq<Step>, places: seq<Placement>, isDeleted: Tombstone,
                                                 key: Key)
    requires IsHistory(steps, places, isDeleted) && Guarded(steps, places)
    requires Layered(places[0]) && !IsVersionedKey(key)
    ensures Layered(places[|steps|])
    ensures Live(isDeleted, Record(places[|steps|].Keys, key)) == Live(isDeleted, Record(places[0].Keys, key))
    decreases |steps|
  {
    if steps != [] {
      GuardedStepPreservesPlain(places[0], steps[0], places[1], key);
      HistoryTail(steps, places, isDeleted);
      HistoryPreservesPlain(steps[1..], places[1..], isDeleted, key);
      assert places[1..][|steps[1..]|] == places[|steps|];
    }
  }

  /** The states of a history at which versions stay below the newest record of their document. */
  ghost predicate VersionsGuarded(steps: seq<Step>, places: seq<Placement>, key: Key, older: Older, snapshot: nat)
    requires |places| == |steps| + 1
  {
    forall i :: 0 <= i < |steps| ==> VersionsStayBelow(places[i], steps[i], key, older, snapshot)
  }

  /** The same of what `get` returns, versions included. */
  lemma {:induction false} HistoryPreservesGet(steps: seq<Step>, places: seq<Placement>, isDeleted: Tombstone, key: Key,
                                               older: Older, snapshot: nat)
    requires IsHistory(steps, places, isDeleted) && Guarded(steps, places)
    requires VersionsGuarded(steps, places, key, older, snapshot) && OnlyVersions(older, snapshot)
    requires Layered(places[0]) && NoVersionAbove(places[0].Keys, key, older) && !IsVersionedKey(key)
    ensures Live(isDeleted, Got(places[|steps|].Keys, key, older)) == Live(isDeleted, Got(places[0].Keys, key, older))
    decreases |steps|
  {
    if steps != [] {
      StepPreservesGet(places[0], steps[0], places[1], key, older, snapshot);
      StepPreservesLayers(places[0], steps[0], places[1]);
      HistoryTail(steps, places, isDeleted);
      forall i {:trigger steps[1..][i]} | 0 <= i < |steps[1..]|
        ensures VersionsStayBelow(places[1..][i], steps[1..][i], key, older, snapshot)
      {
        assert VersionsStayBelow(places[i + 1], steps[i + 1], key, older, snapshot);
      }
      HistoryPreservesGet(steps[1..], places[1..], isDeleted, key, older, snapshot);
      assert places[1..][|steps[1..]|] == places[|steps|];
    }
  }

  lemma HistoryTail(steps: seq<Step>, places: seq<Placement>, isDeleted: Tombstone)
    requires IsHistory(steps, places, isDeleted) && Guarded(steps, places) && steps != []
    ensures IsHistory(steps[1..], places[1..], isDeleted) && Guarded(steps[1..], places[1..])
  {
    forall i {:trigger steps[1..][i]} | 0 <= i < |steps[1..]|
      ensures steps[1..][i] == steps[i + 1] && places[1..][i] == places[i + 1] && places[1..][i + 1] == places[i + 2]
    {
    }
  }

  lemma GuardedStepPreservesPlain(before: Placement, s: Step, after: Placement, key: Key)
    requires Compacts(before, s, after) && Layered(before) && TrueBounds(before)
    requires UpperClear(before, s) && BottomClear(before, s) && !IsVersionedKey(key)
    ensures Layered(after)
    ensures Live(s.policy.isDeleted, Record(after.Keys, key)) == Live(s.policy.isDeleted, Record(before.Keys, key))
  {
    StepPreservesLayers(before, s, after);
    StepPreservesPlain(before, s, after, key);
  }

  lemma PlacesAfter(levels: seq<seq<Table>>, p: Placement, level: nat, inputs: seq<Table>, results: seq<Table>,
                    upper: seq<Table>, lower: seq<Table>, p': Placement)
    requires level + 1 < |levels| && Places(levels, p)
    requires forall t :: t in inputs ==> t in p && (p[t] == level || p[t] == level + 1)
    requires forall t :: t in results ==> t !in p
    requires forall t :: t in upper <==> t in levels[level] && t !in inputs
    requires forall t :: t in lower <==> t in results || (t in levels[level + 1] && t !in inputs)
    requires p' == Moved(p, inputs, results, level + 1)
    ensures Places(levels[level := upper][level + 1 := lower], p')
  {
    var after := levels[level := upper][level + 1 := lower];
    forall l, i | 0 <= l < |after| && 0 <= i < |after[l]| ensures after[l][i] in p' && p'[after[l][i]] == l {
      var t := after[l][i];
      assert t in after[l];
      if l != level && l != level + 1 {
        assert t == levels[l][i];
      } else if t in levels[l] {
        var j :| 0 <= j < |levels[l]| && levels[l][j] == t;
      }
    }
    forall t | t in p' ensures p'[t] < |after| && t in after[p'[t]] {
      if t in results {
        assert p'[t] == level + 1;
      } else {
        assert p'[t] == p[t];
      }
    }
  }

  lemma StepKeepsIds(before: set<Table>, inputs: seq<Table>, results: seq<Table>, firstId: nat, nextId: nat)
    requires UniqueIds(before) && Numbered(results, firstId) && nextId >= firstId + |results|
    requires forall t :: t in before ==> t.id < firstId && Ascending(t.run)
    requires forall t :: t in results ==> Ascending(t.run)
    ensures UniqueIds(After(before, inputs, results))
    ensures forall t :: t in After(before, inputs, results) ==> t.id < nextId && Ascending(t.run)
  {
    FreshIds(before, inputs, results, firstId);
  }

  lemma StepIsCompaction(levels: seq<seq<Table>>, p: Placement, s: Step, chosen: seq<Table>,
                         level: nat, inputs: seq<Table>, results: seq<Table>) returns (after: Placement)
    requires s.level == level && s.inputs == inputs && s.results == results
    requires Places(levels, p) && s.level + 1 < |levels| && UniqueIds(p.Keys)
    requires chosen != [] && s.chosen == Elements(chosen) && forall t :: t in chosen ==> t in levels[s.level]
    requires s.level == 0 ==> chosen == levels[0]
    requires Planned(levels, p, s.level, s.chosen, s.minKey, s.maxKey, s.inputs, s.policy) && AscendingIds(s.inputs)
    requires forall t :: t in p ==> t.id < s.firstId
    requires Numbered(s.results, s.firstId) && IsMerge(Sources(s.inputs), s.policy.Keep(), Flat(s.results))
    ensures Compacts(p, s, after)
    ensures after == Moved(p, inputs, results, level + 1)
    ensures forall t :: t in s.inputs ==> t in p && (p[t] == s.level || p[t] == s.level + 1)
    ensures forall t :: t in s.results ==> t !in p && t.id >= s.firstId && Ascending(t.run)
  {
    after := Moved(p, s.inputs, s.results, s.level + 1);
    StepTakes(levels, p, s, chosen);
    ResultsAreFresh(p.Keys, s);
  }

  lemma StepTakes(levels: seq<seq<Table>>, p: Placement, s: Step, chosen: seq<Table>)
    requires Places(levels, p) && s.level + 1 < |levels|
    requires chosen != [] && s.chosen == Elements(chosen) && forall t :: t in chosen ==> t in levels[s.level]
    requires s.level == 0 ==> chosen == levels[0]
    requires Planned(levels, p, s.level, s.chosen, s.minKey, s.maxKey, s.inputs, s.policy)
    ensures Takes(p, s)
    ensures forall t :: t in s.inputs ==> t in p && (p[t] == s.level || p[t] == s.level + 1)
  {
    assert chosen[0] in s.chosen;
  }

  lemma ResultsAreFresh(p: set<Table>, s: Step)
    requires forall t :: t in p ==> t.id < s.firstId
    requires Numbered(s.results, s.firstId) && Ascending(Flat(s.results))
    ensures forall t :: t in s.results ==> t !in p && t.id >= s.firstId && Ascending(t.run)
  {
    forall t | t in s.results ensures t !in p && t.id >= s.firstId && Ascending(t.run) {
      var i :| 0 <= i < |s.results| && s.results[i] == t;
      FlatParts(s.results, i);
    }
  }

  lemma {:induction false} FlatParts(tables: seq<Table>, i: nat)
    requires Ascending(Flat(tables)) && i < |tables|
    ensures Ascending(tables[i].run)
    decreases |tables|
  {
    var n := |tables| - 1;
    AscendingParts(Flat(tables[..n]), tables[n].run, []);
    if i < n {
      FlatParts(tables[..n], i);
    }
  }
}
