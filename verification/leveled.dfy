/** The leveled store: which tables a compaction takes, and what its levels keep true. */
module Leveled {
  import opened Keys
  import opened Options
  import opened Versions
  import opened VersionedKeys
  import opened Runs
  import opened Merge
  import opened Compaction
  import opened DiskReads
  import opened CompactionMeaning

  /** The level each table lies on. */
  type Placement = map<Table, nat>

  predicate Overlaps(t: Table, minKey: Key, maxKey: Key)
  {
    !(Less(t.maxKey, minKey) || Less(maxKey, t.minKey))
  }

  /** One run of the leveled compaction: what it took, and what it put in its place. */
  datatype Step = Step(
    level: nat,
    chosen: set<Table>,
    minKey: Key,
    maxKey: Key,
    inputs: seq<Table>,
    results: seq<Table>,
    policy: Policy,
    firstId: nat)

  /** The tables a step takes: some of its level, all of it at level 0, and what they overlap one below. */
  ghost predicate Takes(p: Placement, s: Step)
  {
    && s.chosen != {}
    && (forall t :: t in s.chosen ==> t in p && p[t] == s.level)
    && (s.level == 0 ==> forall t :: t in p && p[t] == 0 ==> t in s.chosen)
    && (forall t :: t in s.chosen ==> LessEq(s.minKey, t.minKey) && LessEq(t.maxKey, s.maxKey))
    && (forall t :: t in s.inputs <==>
          t in s.chosen || (t in p && p[t] == s.level + 1 && Overlaps(t, s.minKey, s.maxKey)))
    && (s.policy.isBottommost <==>
        forall t :: t in p && p[t] > s.level + 1 ==> !Overlaps(t, s.minKey, s.maxKey))
  }

  /** The inputs gone, and the results on the output level. */
  ghost function Moved(p: Placement, inputs: seq<Table>, results: seq<Table>, level: nat): Placement
  {
    (p - Elements(inputs)) + (map r | r in Elements(results) :: level)
  }

  /** What `runLeveledCompaction` does to the levels. */
  ghost predicate Compacts(before: Placement, s: Step, after: Placement)
  {
    && Takes(before, s)
    && Replaces(before.Keys, s.inputs, s.results, s.policy, s.firstId)
    && after == Moved(before, s.inputs, s.results, s.level + 1)
  }

  ghost predicate SharesKey(t: Table, u: Table)
  {
    exists key :: Has(t, key) && Has(u, key)
  }

  lemma Symmetric(t: Table, u: Table)
    ensures SharesKey(t, u) <==> SharesKey(u, t)
  {
    if SharesKey(t, u) {
      var key :| Has(t, key) && Has(u, key);
      assert Has(u, key) && Has(t, key);
    }
    if SharesKey(u, t) {
      var key :| Has(u, key) && Has(t, key);
      assert Has(t, key) && Has(u, key);
    }
  }

  /** What a pair of tables must satisfy: an upper table is newer, and below level 0 levels are disjoint. */
  ghost predicate Apart(p: Placement, t: Table, u: Table)
    requires t in p && u in p
  {
    SharesKey(t, u) && t != u ==>
      && (p[t] < p[u] ==> t.id > u.id)
      && (p[t] == p[u] ==> p[t] == 0)
  }

  ghost predicate Layered(p: Placement)
  {
    forall t, u {:trigger Apart(p, t, u)} :: t in p && u in p ==> Apart(p, t, u)
  }

  ghost predicate Bounded(t: Table)
  {
    forall key :: Has(t, key) ==> LessEq(t.minKey, key) && LessEq(key, t.maxKey)
  }

  /** Every table's recorded bounds really bound its keys. */
  ghost predicate TrueBounds(p: Placement)
  {
    forall t :: t in p ==> Bounded(t)
  }

  /** Down to the compacted level, no table outside the inputs holds a key of theirs. */
  ghost predicate UpperClear(p: Placement, s: Step)
  {
    forall t, u {:trigger SharesKey(t, u)} :: t in p && p[t] <= s.level && t !in s.inputs && u in s.inputs ==>
      !SharesKey(t, u)
  }

  /**
   * When the step drops tombstones, no deeper table holds a key of its inputs. The code checks this over
   * the bounds of the chosen tables only, not over those they overlap on the next level.
   */
  ghost predicate BottomClear(p: Placement, s: Step)
  {
    s.policy.isBottommost ==>
      forall t, u {:trigger SharesKey(t, u)} :: t in p && p[t] > s.level + 1 && u in s.inputs ==> !SharesKey(t, u)
  }

  lemma SharedOverlaps(t: Table, u: Table, minKey: Key, maxKey: Key)
    requires Bounded(t) && Bounded(u) && SharesKey(t, u)
    requires LessEq(minKey, t.minKey) && LessEq(t.maxKey, maxKey)
    ensures Overlaps(u, minKey, maxKey)
  {
    var key :| Has(t, key) && Has(u, key);
    assert LessEq(t.minKey, key) && LessEq(key, t.maxKey) && LessEq(u.minKey, key) && LessEq(key, u.maxKey);
    Between(minKey, t.minKey, key);
    Between(key, t.maxKey, maxKey);
    Between(minKey, key, u.maxKey);
    Between(u.minKey, key, maxKey);
    NotLess(minKey, u.maxKey);
    NotLess(u.minKey, maxKey);
  }

  lemma Between(a: Key, b: Key, c: Key)
    requires LessEq(a, b) && LessEq(b, c)
    ensures LessEq(a, c)
  {
    if a != b && b != c { LessTransitive(a, b, c); }
  }

  lemma NotLess(a: Key, b: Key)
    requires LessEq(a, b)
    ensures !Less(b, a)
  {
    LessAsymmetric(a, b);
    LessIrreflexive(a);
  }

  /** Compacting the first level is never obstructed from above: it takes the whole level. */
  lemma FirstLevelIsClear(before: Placement, s: Step, after: Placement)
    requires Compacts(before, s, after) && s.level == 0
    ensures UpperClear(before, s)
  {
    assert forall t :: t in before && before[t] <= 0 ==> t in s.chosen && t in s.inputs;
  }

  /** For the chosen tables the code's bottommost check is enough. */
  lemma ChosenAreClear(before: Placement, s: Step, after: Placement, t: Table, u: Table)
    requires Compacts(before, s, after) && TrueBounds(before) && s.policy.isBottommost
    requires t in before && before[t] > s.level + 1 && u in s.chosen
    ensures !SharesKey(t, u)
  {
    Symmetric(t, u);
    if SharesKey(t, u) {
      SharedOverlaps(u, t, s.minKey, s.maxKey);
    }
  }

  /** Where a table outside the inputs that shares a key with one lies: deeper; and it is older. */
  lemma OutsideIsOlder(before: Placement, s: Step, after: Placement, t: Table, u: Table)
    requires Compacts(before, s, after) && Layered(before) && TrueBounds(before) && UpperClear(before, s)
    requires t in before && t !in s.inputs && u in s.inputs && SharesKey(t, u)
    ensures before[t] > s.level + 1 && t.id < u.id
  {
    assert u in before;
    Symmetric(t, u);
    assert Apart(before, t, u) && Apart(before, u, t);
    if before[t] == s.level + 1 && u in s.chosen {
      SharedOverlaps(u, t, s.minKey, s.maxKey);
    }
  }

  /** Where bounds are true and the inputs clear, no outside table holds a newer record, nor any if tombstones go. */
  lemma InputsAreNewest(before: Placement, s: Step, after: Placement, key: Key)
    requires Compacts(before, s, after) && Layered(before) && TrueBounds(before)
    requires UpperClear(before, s) && BottomClear(before, s) && Held(Elements(s.inputs), key)
    ensures NewestIsInput(before.Keys, s.inputs, key)
    ensures s.policy.isBottommost ==> !Held(before.Keys - Elements(s.inputs), key)
  {
    var u :| u in Elements(s.inputs) && Has(u, key);
    forall t | t in before && t !in s.inputs && Has(t, key)
      ensures t.id < u.id && !s.policy.isBottommost
    {
      assert SharesKey(t, u);
      OutsideIsOlder(before, s, after, t, u);
    }
  }

  /** One compaction leaves the newest plain record of every key reading as it did. */
  lemma StepPreservesPlain(before: Placement, s: Step, after: Placement, key: Key)
    requires Compacts(before, s, after) && Layered(before) && TrueBounds(before)
    requires UpperClear(before, s) && BottomClear(before, s) && !IsVersionedKey(key)
    ensures after.Keys == After(before.Keys, s.inputs, s.results)
    ensures Live(s.policy.isDeleted, Record(after.Keys, key)) == Live(s.policy.isDeleted, Record(before.Keys, key))
  {
    if Held(Elements(s.inputs), key) {
      InputsAreNewest(before, s, after, key);
    }
    CompactionPreservesPlain(before.Keys, s.inputs, s.results, s.policy, s.firstId, key);
  }

  lemma StepKeys(before: Placement, s: Step, after: Placement)
    requires Compacts(before, s, after)
    ensures after.Keys == After(before.Keys, s.inputs, s.results) && UniqueIds(after.Keys)
  {
    FreshIds(before.Keys, s.inputs, s.results, s.firstId);
  }

  /** Without bounds or layers: a compaction leaves a plain record's reads alone exactly when it keeps its meaning. */
  lemma StepPreservesPlainIff(before: Placement, s: Step, after: Placement, key: Key)
    requires Compacts(before, s, after) && !IsVersionedKey(key)
    ensures after.Keys == After(before.Keys, s.inputs, s.results) && UniqueIds(after.Keys)
    ensures Live(s.policy.isDeleted, Record(after.Keys, key)) == Live(s.policy.isDeleted, Record(before.Keys, key))
            <==> KeepsMeaning(before.Keys, s.inputs, s.policy, key)
  {
    StepKeys(before, s, after);
    CompactionPreservesPlainIff(before.Keys, s.inputs, s.results, s.policy, s.firstId, key);
  }

  /** What the code relies on is enough to keep every meaning. */
  lemma GuardsKeepMeaning(before: Placement, s: Step, after: Placement, key: Key)
    requires Compacts(before, s, after) && Layered(before) && TrueBounds(before)
    requires UpperClear(before, s) && BottomClear(before, s) && !IsVersionedKey(key)
    ensures KeepsMeaning(before.Keys, s.inputs, s.policy, key)
  {
    StepPreservesPlain(before, s, after, key);
    StepPreservesPlainIff(before, s, after, key);
  }

  /** A result shares keys only with what its inputs share them with. */
  lemma ResultSharesAsInput(s: Step, t: Table, r: Table) returns (w: Table)
    requires AscendingIds(s.inputs) && IsMerge(Sources(s.inputs), s.policy.Keep(), Flat(s.results))
    requires r in s.results && SharesKey(t, r)
    ensures w in s.inputs && SharesKey(t, w)
  {
    var key :| Has(t, key) && Has(r, key);
    FlatFinds(s.results, key);
    NewestInput(s.inputs, key);
    RecordNone(Elements(s.inputs), key);
    w :| w in Elements(s.inputs) && Has(w, key);
    assert Has(t, key) && Has(w, key);
  }

  lemma ResultIsNew(before: Placement, s: Step, after: Placement, r: Table)
    requires Compacts(before, s, after) && r in s.results
    ensures r.id >= s.firstId && r !in before
  {
    var i :| 0 <= i < |s.results| && s.results[i] == r;
  }

  lemma ResultsDisjoint(s: Step, t: Table, u: Table)
    requires IsMerge(Sources(s.inputs), s.policy.Keep(), Flat(s.results))
    requires t in s.results && u in s.results && SharesKey(t, u)
    ensures t == u
  {
    var key :| Has(t, key) && Has(u, key);
    FlatFinds(s.results, key);
    var i :| 0 <= i < |s.results| && s.results[i] == t;
    var j :| 0 <= j < |s.results| && s.results[j] == u;
  }

  /** An old table outside the inputs that shares a key with a result lies below it, and is older. */
  lemma ResultOverOld(before: Placement, s: Step, after: Placement, t: Table, r: Table)
    requires Compacts(before, s, after) && Layered(before) && TrueBounds(before) && UpperClear(before, s)
    requires t in before && t !in s.inputs && r in s.results && SharesKey(t, r)
    ensures before[t] > s.level + 1 && t.id < r.id
  {
    var w := ResultSharesAsInput(s, t, r);
    OutsideIsOlder(before, s, after, t, w);
    ResultIsNew(before, s, after, r);
  }

  /** The layering survives the step. */
  lemma StepPreservesLayers(before: Placement, s: Step, after: Placement)
    requires Compacts(before, s, after) && Layered(before) && TrueBounds(before) && UpperClear(before, s)
    ensures Layered(after) && UniqueIds(after.Keys)
  {
    ResultHolder(before.Keys, s.inputs, s.results, s.policy, s.firstId, []);
    assert after.Keys == After(before.Keys, s.inputs, s.results);
    forall t, u | t in after && u in after ensures Apart(after, t, u) {
      if SharesKey(t, u) && t != u {
        Symmetric(t, u);
        PairAfter(before, s, after, t, u);
      }
    }
  }

  lemma PairAfter(before: Placement, s: Step, after: Placement, t: Table, u: Table)
    requires Compacts(before, s, after) && Layered(before) && TrueBounds(before) && UpperClear(before, s)
    requires t in after && u in after && t != u && SharesKey(t, u) && SharesKey(u, t)
    ensures Apart(after, t, u)
  {
    if t in s.results && u in s.results {
      ResultsDisjoint(s, t, u);
    } else if t in s.results {
      ResultIsNew(before, s, after, t);
      ResultOverOld(before, s, after, u, t);
    } else if u in s.results {
      ResultIsNew(before, s, after, u);
      ResultOverOld(before, s, after, t, u);
    } else {
      assert Apart(before, t, u);
    }
  }
}

/** Three small stores on which the leveled compaction changes what a key reads. */
module LeveledExamples {
  import opened Keys
  import opened Options
  import opened Versions
  import opened VersionedKeys
  import opened Runs
  import opened Merge
  import opened Compaction
  import opened DiskReads
  import opened CompactionMeaning
  import opened Leveled
  import opened Layout
  import opened SSTables

  const A: Key := [97]
  const K: Key := [107]
  const TOMB: Buf := [0]
  const OLD: Buf := [1]
  const NEW: Buf := [2]

  function IsTomb(): Tombstone
  {
    (value: Buf) => value == TOMB
  }

  function PolicyOf(isBottommost: bool): Policy
  {
    Policy(IsTomb(), isBottommost, NO_SNAPSHOT, 1)
  }

  function One(id: nat, key: Key, value: Buf): Table
  {
    Table(id, [Item(key, value)], key, key, 1)
  }

  lemma OneFinds(id: nat, key: Key, value: Buf)
    ensures Ascending(One(id, key, value).run) && Bounded(One(id, key, value))
    ensures forall k :: Find(One(id, key, value).run, k) == if k == key then Some(value) else None
  {
    forall k ensures Find(One(id, key, value).run, k) == if k == key then Some(value) else None {
      assert One(id, key, value).run[1..] == [];
    }
  }

  lemma FlatOne(t: Table)
    ensures Flat([t]) == t.run
    ensures Elements([t]) == {t}
  {
    assert [t][..0] == [];
  }

  ghost predicate HidingStore(upper: Table, lower: Table, moved: Table, s: Step, before: Placement, after: Placement)
  {
    && upper == One(10, K, NEW) && lower == One(8, K, OLD) && moved == One(11, K, OLD)
    && s == Step(2, {lower}, K, K, [lower], [moved], PolicyOf(true), 11)
    && before == map[upper := 1, lower := 2] && after == map[upper := 1, moved := 3]
  }

  /**
   * Below the first level, a compaction can hide a newer write. Its output takes a fresh id, `get` tries
   * tables by descending id, and so the old record it moved down is found before the newer one above.
   */
  lemma MovedRecordHidesNewer(upper: Table, lower: Table, moved: Table, s: Step, before: Placement, after: Placement)
    requires HidingStore(upper, lower, moved, s, before, after)
    ensures Layered(before) && TrueBounds(before) && Compacts(before, s, after)
    ensures Record(before.Keys, K) == Some(NEW) && Record(after.Keys, K) == Some(OLD)
    ensures !KeepsMeaning(before.Keys, s.inputs, s.policy, K)
  {
    HidingReads(upper, lower, moved, s, before, after);
    StepPreservesPlainIff(before, s, after, K);
  }

  lemma HidingReads(upper: Table, lower: Table, moved: Table, s: Step, before: Placement, after: Placement)
    requires HidingStore(upper, lower, moved, s, before, after)
    ensures Layered(before) && TrueBounds(before) && Compacts(before, s, after) && s.policy.isDeleted == IsTomb()
    ensures Record(before.Keys, K) == Some(NEW) && Record(after.Keys, K) == Some(OLD)
  {
    OneFinds(10, K, NEW);
    OneFinds(8, K, OLD);
    OneFinds(11, K, OLD);
    LessIrreflexive(K);
    ReplacesOne(before.Keys, [lower], moved, s.policy, 11);
    MovesOne(before, s, after, upper, lower, moved, 1, 2);
    LayeredPair(before, upper, lower);
    ReadsOf(before.Keys, K, upper);
    ReadsOf(after.Keys, K, moved);
  }

  lemma LayeredPair(p: Placement, t: Table, u: Table)
    requires p.Keys == {t, u} && t.id > u.id && p[t] < p[u]
    ensures Layered(p)
  {
    forall x, y | x in p && y in p ensures Apart(p, x, y) { }
  }

  /** One table moved down under a new id, beside one that stays. */
  lemma MovesOne(before: Placement, s: Step, after: Placement, other: Table, from: Table, to: Table, l: nat, m: nat)
    requires before == map[other := l, from := m] && after == map[other := l, to := m + 1] && other != from
    requires s.level == m && s.chosen == {from} && s.inputs == [from] && s.results == [to] && to != other
    requires Replaces(before.Keys, s.inputs, s.results, s.policy, s.firstId)
    requires LessEq(s.minKey, from.minKey) && LessEq(from.maxKey, s.maxKey)
    requires m == 0 ==> l != 0
    requires l == m + 1 ==> !Overlaps(other, s.minKey, s.maxKey)
    requires s.policy.isBottommost <==> (l > m + 1 ==> !Overlaps(other, s.minKey, s.maxKey))
    ensures Compacts(before, s, after)
  {
    assert Elements(s.inputs) == {from} && Elements(s.results) == {to};
    assert before - {from} == map[other := l];
    assert (map r | r in Elements(s.results) :: s.level + 1) == map[to := m + 1];
  }

  /** A single input kept as it is. */
  lemma ReplacesOne(all: set<Table>, inputs: seq<Table>, out: Table, policy: Policy, firstId: nat)
    requires UniqueIds(all) && |inputs| == 1 && inputs[0] in all && out.id == firstId
    requires forall t :: t in all ==> t.id < firstId
    requires Ascending(out.run)
    requires forall key :: Find(out.run, key) == Kept(policy.Keep(), key, Find(inputs[0].run, key))
    ensures Replaces(all, inputs, [out], policy, firstId)
  {
    FlatOne(out);
    forall key ensures Find(Flat([out]), key) == Kept(policy.Keep(), key, Newest(Sources(inputs), key)) {
      assert inputs == [inputs[0]];
      OneSource(inputs[0], key);
    }
  }

  lemma OneSource(t: Table, key: Key)
    ensures Newest(Sources([t]), key) == Find(t.run, key)
  {
    var s := Sources([t]);
    assert s[0] == t.run && s[1..] == [];
  }

  lemma TwoSources(t: Table, u: Table, key: Key)
    ensures Newest(Sources([t, u]), key) == if Has(u, key) then Find(u.run, key) else Find(t.run, key)
  {
    var s := Sources([t, u]);
    assert s[0] == u.run && s[1..] == [t.run];
    assert Newest([t.run], key) == Find(t.run, key) by {
      assert [t.run][1..] == [];
    }
  }

  function Pair(id: nat, first: Buf, second: Buf, maxKey: Key): Table
  {
    Table(id, [Item(A, first), Item(K, second)], A, maxKey, 2)
  }

  lemma PairFinds(id: nat, first: Buf, second: Buf, maxKey: Key)
    ensures var run := Pair(id, first, second, maxKey).run;
            && Ascending(run) && Less(A, K)
            && forall k :: Find(run, k) == if k == A then Some(first) else if k == K then Some(second) else None
    ensures Bounded(Pair(id, first, second, K))
  {
    var run := Pair(id, first, second, maxKey).run;
    forall k ensures Find(run, k) == if k == A then Some(first) else if k == K then Some(second) else None {
      assert run[1..] == [Item(K, second)] && [Item(K, second)][1..] == [];
      assert Find([Item(K, second)], k) == if k == K then Some(second) else None;
    }
    assert Pair(id, first, second, K).run == run;
  }

  ghost predicate RevivingStore(chosen: Table, below: Table, deep: Table, out: Table, s: Step,
                                before: Placement, after: Placement)
  {
    && chosen == One(2, K, NEW) && below == Pair(1, TOMB, OLD, K) && deep == One(0, A, OLD) && out == One(3, K, NEW)
    && s == Step(0, {chosen}, K, K, [below, chosen], [out], PolicyOf(true), 3)
    && before == map[chosen := 0, below := 1, deep := 2] && after == map[deep := 2, out := 1]
  }

  /**
   * With true bounds, a compaction of the first level can still revive a deleted key: the deeper table
   * that holds it does not overlap the chosen tables, only a table they overlap on the next level, whose
   * tombstone is dropped.
   */
  lemma DroppedTombstoneRevives(chosen: Table, below: Table, deep: Table, out: Table, s: Step,
                                before: Placement, after: Placement)
    requires RevivingStore(chosen, below, deep, out, s, before, after)
    ensures Layered(before) && TrueBounds(before) && Compacts(before, s, after) && UpperClear(before, s)
    ensures Live(IsTomb(), Record(before.Keys, A)) == None
    ensures Live(IsTomb(), Record(after.Keys, A)) == Some(OLD)
    ensures !KeepsMeaning(before.Keys, s.inputs, s.policy, A)
  {
    RevivingRun(chosen, below, deep, out, s, before, after);
    StepPreservesPlainIff(before, s, after, A);
  }

  lemma RevivingRun(chosen: Table, below: Table, deep: Table, out: Table, s: Step, before: Placement, after: Placement)
    requires RevivingStore(chosen, below, deep, out, s, before, after)
    ensures Layered(before) && TrueBounds(before) && Compacts(before, s, after) && UpperClear(before, s)
    ensures s.policy.isDeleted == IsTomb()
    ensures Live(IsTomb(), Record(before.Keys, A)) == None
    ensures Live(IsTomb(), Record(after.Keys, A)) == Some(OLD)
  {
    RevivingCompacts(chosen, below, deep, out, s, before, after);
    FirstLevelIsClear(before, s, after);
    RevivingFinds(chosen, below, deep, out);
    RevivedReads(before, after, chosen, below, deep, out, A);
  }

  lemma RevivedReads(before: Placement, after: Placement, chosen: Table, below: Table, deep: Table, out: Table,
                     key: Key)
    requires before == map[chosen := 0, below := 1, deep := 2] && after == map[deep := 2, out := 1]
    requires out.id > chosen.id > below.id > deep.id
    requires Bounded(chosen) && Bounded(below) && Bounded(deep)
    requires !Has(chosen, key) && !Has(out, key) && Has(below, key) && Has(deep, key)
    ensures TrueBounds(before)
    ensures Record(before.Keys, key) == Find(below.run, key) && Record(after.Keys, key) == Find(deep.run, key)
  {
    ReadsOf(before.Keys, key, below);
    ReadsOf(after.Keys, key, deep);
  }

  lemma RevivingFinds(chosen: Table, below: Table, deep: Table, out: Table)
    requires chosen == One(2, K, NEW) && below == Pair(1, TOMB, OLD, K) && deep == One(0, A, OLD)
    requires out == One(3, K, NEW)
    ensures Bounded(chosen) && Bounded(below) && Bounded(deep)
    ensures !Has(chosen, A) && !Has(out, A)
    ensures Find(below.run, A) == Some(TOMB) && Find(deep.run, A) == Some(OLD)
  {
    OneFinds(2, K, NEW);
    OneFinds(0, A, OLD);
    OneFinds(3, K, NEW);
    PairFinds(1, TOMB, OLD, K);
    LessIrreflexive(K);
  }

  lemma RevivingCompacts(chosen: Table, below: Table, deep: Table, out: Table, s: Step,
                         before: Placement, after: Placement)
    requires RevivingStore(chosen, below, deep, out, s, before, after)
    ensures Layered(before) && Compacts(before, s, after)
  {
    TakesPair(before, s, chosen, below, deep);
    ReplacesPair(before.Keys, s, chosen, below, deep, out);
    CompactsPair(before, s, after, chosen, below, deep, out);
    LayeredTriple(before, chosen, below, deep);
  }

  lemma LayeredTriple(p: Placement, t: Table, u: Table, v: Table)
    requires p.Keys == {t, u, v} && t.id > u.id > v.id && p[t] < p[u] < p[v]
    ensures Layered(p)
  {
    forall x, y | x in p && y in p ensures Apart(p, x, y) { }
  }

  lemma CompactsPair(before: Placement, s: Step, after: Placement, chosen: Table, below: Table, deep: Table, out: Table)
    requires before == map[chosen := 0, below := 1, deep := 2] && after == map[deep := 2, out := 1]
    requires chosen.id > below.id > deep.id && out.id > chosen.id
    requires s.level == 0 && s.inputs == [below, chosen] && s.results == [out]
    requires Takes(before, s) && Replaces(before.Keys, s.inputs, s.results, s.policy, s.firstId)
    ensures Compacts(before, s, after)
  {
    assert Elements(s.inputs) == {below, chosen} && Elements(s.results) == {out};
    assert before - {below, chosen} == map[deep := 2];
    assert (map r | r in Elements(s.results) :: s.level + 1) == map[out := 1];
  }

  lemma ReadsOf(ts: set<Table>, key: Key, t: Table)
    requires UniqueIds(ts) && t in ts && Has(t, key) && forall u :: u in ts && Has(u, key) ==> u.id <= t.id
    ensures Record(ts, key) == Find(t.run, key)
  {
    assert IsHolder(ts, key, t);
    RecordIs(ts, key, t);
  }

  lemma ReplacesPair(all: set<Table>, s: Step, chosen: Table, below: Table, deep: Table, out: Table)
    requires all == {chosen, below, deep}
    requires s == Step(0, {chosen}, K, K, [below, chosen], [out], PolicyOf(true), 3)
    requires chosen == One(2, K, NEW) && below == Pair(1, TOMB, OLD, K) && deep == One(0, A, OLD)
    requires out == One(3, K, NEW)
    ensures Replaces(all, s.inputs, s.results, s.policy, s.firstId)
  {
    OneFinds(2, K, NEW);
    OneFinds(3, K, NEW);
    PairFinds(1, TOMB, OLD, K);
    FlatOne(out);
    forall key ensures Find(Flat([out]), key) == Kept(s.policy.Keep(), key, Newest(Sources(s.inputs), key)) {
      TwoSources(below, chosen, key);
    }
  }

  lemma TakesPair(before: Placement, s: Step, chosen: Table, below: Table, deep: Table)
    requires before == map[chosen := 0, below := 1, deep := 2]
    requires s == Step(0, {chosen}, K, K, [below, chosen], s.results, PolicyOf(true), 3)
    requires chosen == One(2, K, NEW) && below == Pair(1, TOMB, OLD, K) && deep == One(0, A, OLD)
    ensures Takes(before, s)
  {
    LessIrreflexive(K);
    LessAsymmetric(A, K);
    assert Overlaps(below, K, K) && !Overlaps(deep, K, K);
  }

  ghost predicate UnboundedStore(chosen: Table, below: Table, out: Table, s: Step, before: Placement, after: Placement)
  {
    && chosen == One(2, K, TOMB) && below == Pair(1, OLD, OLD, A) && out == Table(3, [], [], [], 0)
    && s == Step(0, {chosen}, K, K, [chosen], [out], PolicyOf(true), 3)
    && before == map[chosen := 0, below := 1] && after == map[below := 1, out := 1]
  }

  /**
   * Bounds read off the sparse index can be too small. Here the next level's table spans one block, so its
   * recorded maximum is its first key; it is not merged, yet it holds the key whose tombstone is dropped.
   */
  lemma UntrueBoundRevives(f: Format, chosen: Table, below: Table, out: Table, s: Step,
                           before: Placement, after: Placement)
    requires f.blockSize > |f.rec(Item(A, OLD))| && UnboundedStore(chosen, below, out, s, before, after)
    ensures Finished(f, below) && Layered(before) && Compacts(before, s, after)
    ensures Live(IsTomb(), Record(before.Keys, K)) == None
    ensures Live(IsTomb(), Record(after.Keys, K)) == Some(OLD)
    ensures !KeepsMeaning(before.Keys, s.inputs, s.policy, K)
  {
    UnboundedRun(f, chosen, below, out, s, before, after);
    StepPreservesPlainIff(before, s, after, K);
  }

  lemma UnboundedRun(f: Format, chosen: Table, below: Table, out: Table, s: Step, before: Placement, after: Placement)
    requires f.blockSize > |f.rec(Item(A, OLD))| && UnboundedStore(chosen, below, out, s, before, after)
    ensures Finished(f, below) && Layered(before) && Compacts(before, s, after) && s.policy.isDeleted == IsTomb()
    ensures Live(IsTomb(), Record(before.Keys, K)) == None
    ensures Live(IsTomb(), Record(after.Keys, K)) == Some(OLD)
  {
    OneFinds(2, K, TOMB);
    PairFinds(1, OLD, OLD, A);
    OneBlock(f, below.run);
    LessAsymmetric(A, K);
    LessIrreflexive(K);
    ReplacesOne(before.Keys, [chosen], out, s.policy, 3);
    MovesOne(before, s, after, below, chosen, out, 1, 0);
    LayeredPair(before, chosen, below);
    ReadsOf(before.Keys, K, chosen);
    ReadsOf(after.Keys, K, below);
  }
}
