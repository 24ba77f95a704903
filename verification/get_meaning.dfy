/** What a compaction does to the reads of `get`, old versions included. */
module GetMeaning {
  import opened Keys
  import opened Options
  import opened Versions
  import opened VersionedKeys
  import opened Runs
  import opened Merge
  import opened StoredVersions
  import opened Compaction
  import opened DiskReads
  import opened CompactionMeaning
  import opened TableAnswers
  import opened GetReads

  /** Keys of a merge's earlier outputs come before those of later ones. */
  lemma {:induction false} OutputsInOrder(tables: seq<Table>, i: nat, j: nat, a: Key, b: Key)
    requires Ascending(Flat(tables)) && i < j < |tables| && Has(tables[i], a) && Has(tables[j], b)
    ensures Less(a, b)
    decreases |tables|
  {
    var n := |tables| - 1;
    var front, last := tables[..n], tables[n].run;
    assert Ascending(Flat(front)) by {
      AscendingParts(Flat(front), last, a);
    }
    if j < n {
      OutputsInOrder(front, i, j, a, b);
    } else {
      FlatFinds(front, a);
      assert front[i] == tables[i];
      FrontBeforeBack(Flat(front), last, a, b);
    }
  }

  lemma FrontBeforeBack(front: Run, back: Run, a: Key, b: Key)
    requires Ascending(front + back) && Find(front, a).Some? && Find(back, b).Some?
    ensures Less(a, b)
  {
    FindHolds(front, a);
    FindHolds(back, b);
    var i :| 0 <= i < |front| && front[i].key == a;
    var j :| 0 <= j < |back| && back[j].key == b;
    assert Less((front + back)[i].key, (front + back)[|front| + j].key);
  }

  /** What the compaction keeps of the inputs' plain record. */
  ghost function KeptPlain(inputs: seq<Table>, policy: Policy, key: Key): Option<Buf>
  {
    Kept(policy.Keep(), key, Record(Elements(inputs), key))
  }

  lemma ResultIds(all: set<Table>, inputs: seq<Table>, results: seq<Table>, policy: Policy, firstId: nat)
    requires Replaces(all, inputs, results, policy, firstId)
    ensures UniqueIds(After(all, inputs, results)) && UniqueIds(Elements(results))
    ensures forall t, u :: t in Elements(results) && u in all - Elements(inputs) ==> u.id < t.id
  {
    FreshIds(all, inputs, results, firstId);
  }

  /** Afterwards the outputs come first, and then the tables outside the inputs. */
  lemma GotAfter(all: set<Table>, inputs: seq<Table>, results: seq<Table>, policy: Policy, firstId: nat, key: Key,
                 older: Older)
    requires Replaces(all, inputs, results, policy, firstId)
    ensures var outputs := Got(Elements(results), key, older);
            Got(After(all, inputs, results), key, older)
            == if outputs.Some? then outputs else Got(all - Elements(inputs), key, older)
  {
    ResultIds(all, inputs, results, policy, firstId);
    AnswerOver(Elements(results), all - Elements(inputs), Reading(older, key));
  }

  /** The output that holds the plain record, if it was kept. */
  lemma KeptHolder(all: set<Table>, inputs: seq<Table>, results: seq<Table>, policy: Policy, firstId: nat, key: Key)
    returns (i: nat)
    requires Replaces(all, inputs, results, policy, firstId) && KeptPlain(inputs, policy, key).Some?
    ensures i < |results| && Find(results[i].run, key) == KeptPlain(inputs, policy, key)
  {
    NewestInput(inputs, key);
    FlatFinds(results, key);
    assert Find(Flat(results), key) == KeptPlain(inputs, policy, key);
    i :| 0 <= i < |results| && Has(results[i], key);
  }

  /** Outputs that hold versions do not come behind it. */
  lemma VersionsBefore(results: seq<Table>, key: Key, snapshot: nat, i: nat, j: nat)
    requires Ascending(Flat(results)) && SortsBehindVersions(key) && i < |results| && j < |results|
    requires Has(results[i], key) && (Has(results[j], key) || HasVersion(results[j], key, snapshot))
    ensures j <= i
  {
    if Has(results[j], key) {
      FlatFinds(results, key);
    } else if i < j {
      var k :| Has(results[j], k) && IsVersionOf(k, key, snapshot);
      VersionsSortFirst(k, key);
      OutputsInOrder(results, i, j, key, k);
      LessAsymmetric(k, key);
    }
  }

  /** So where the plain record is kept, the outputs answer with it. */
  lemma KeptIsGot(all: set<Table>, inputs: seq<Table>, results: seq<Table>, policy: Policy, firstId: nat, key: Key,
                  older: Older, snapshot: nat)
    requires Replaces(all, inputs, results, policy, firstId) && SortsBehindVersions(key)
    requires OnlyVersions(older, snapshot)
    requires KeptPlain(inputs, policy, key).Some?
    ensures Got(Elements(results), key, older) == KeptPlain(inputs, policy, key)
  {
    var i := KeptHolder(all, inputs, results, policy, firstId, key);
    ResultIds(all, inputs, results, policy, firstId);
    var rd := Reading(older, key);
    forall u | u in Elements(results) && rd(u).Some? ensures u.id <= results[i].id {
      var j :| 0 <= j < |results| && results[j] == u;
      VersionsBefore(results, key, snapshot, i, j);
    }
    AnswerIs(Elements(results), rd, results[i]);
  }

  /** What is read before the compaction: from the inputs if the newest table that answers is one, else from outside. */
  ghost predicate InputsAnswer(all: set<Table>, inputs: seq<Table>, key: Key, older: Older)
  {
    Got(Elements(inputs), key, older).Some? && TopIsWithin(all, Elements(inputs), Reading(older, key))
  }

  /**
   * When a compaction leaves what `get` returns for a key alone. If the inputs' plain record is kept and its key
   * sorts behind all versions, it must read as what is read now; if not, then what the outputs answer with must,
   * if they answer; and if they do not, either the inputs are not what is read now, or what lies outside reads
   * the same.
   */
  ghost predicate KeepsAnswer(all: set<Table>, inputs: seq<Table>, results: seq<Table>, policy: Policy, key: Key,
                              older: Older)
  {
    var mine, outside := Got(Elements(inputs), key, older), Got(all - Elements(inputs), key, older);
    var now := Live(policy.isDeleted, if InputsAnswer(all, inputs, key, older) then mine else outside);
    var kept, versions := KeptPlain(inputs, policy, key), Got(Elements(results), key, older);
    if kept.Some? && SortsBehindVersions(key) then Live(policy.isDeleted, kept) == now
    else if versions.Some? then Live(policy.isDeleted, versions) == now
    else !InputsAnswer(all, inputs, key, older) || Live(policy.isDeleted, outside) == now
  }

  /** The condition is exact, whatever versions the tables hold and however the outputs were cut. */
  lemma CompactionPreservesGetIff(all: set<Table>, inputs: seq<Table>, results: seq<Table>, policy: Policy,
                                  firstId: nat, key: Key, older: Older, snapshot: nat)
    requires Replaces(all, inputs, results, policy, firstId) && OnlyVersions(older, snapshot)
    ensures Live(policy.isDeleted, Got(After(all, inputs, results), key, older))
            == Live(policy.isDeleted, Got(all, key, older))
            <==> KeepsAnswer(all, inputs, results, policy, key, older)
  {
    GotAfter(all, inputs, results, policy, firstId, key, older);
    AnswerSplit(all, Elements(inputs), Reading(older, key));
    if KeptPlain(inputs, policy, key).Some? && SortsBehindVersions(key) {
      KeptIsGot(all, inputs, results, policy, firstId, key, older, snapshot);
    }
  }

  /** A version in an output was in an input, and is one the policy keeps. */
  lemma VersionsComeFromInputs(all: set<Table>, inputs: seq<Table>, results: seq<Table>, policy: Policy, firstId: nat,
                               t: Table, key: Key, snapshot: nat)
    requires Replaces(all, inputs, results, policy, firstId) && t in results && HasVersion(t, key, snapshot)
    ensures policy.gcCutoffTxnId <= snapshot && exists u :: u in inputs && HasVersion(u, key, snapshot)
  {
    var k :| Has(t, k) && IsVersionOf(k, key, snapshot);
    var i :| 0 <= i < |results| && results[i] == t;
    FlatFinds(results, k);
    assert Find(Flat(results), k) == Kept(policy.Keep(), k, Newest(Sources(inputs), k));
    var n := NewestFrom(Sources(inputs), k);
    var u := inputs[|inputs| - 1 - n];
    assert Has(u, k) && u in inputs;
  }

  /** While no snapshot is open the outputs hold no version, and answer with the plain record or not at all. */
  lemma NoVersionsKept(all: set<Table>, inputs: seq<Table>, results: seq<Table>, policy: Policy, firstId: nat,
                       key: Key, older: Older, snapshot: nat)
    requires Replaces(all, inputs, results, policy, firstId) && OnlyVersions(older, snapshot)
    requires policy.gcCutoffTxnId > snapshot
    ensures Got(Elements(results), key, older) == KeptPlain(inputs, policy, key)
  {
    ResultIds(all, inputs, results, policy, firstId);
    var ts, rd := Elements(results), Reading(older, key);
    forall t | t in ts ensures older(t, key).None? {
      if HasVersion(t, key, snapshot) {
        VersionsComeFromInputs(all, inputs, results, policy, firstId, t, key, snapshot);
        assert false;
      }
    }
    FlatFinds(results, key);
    NewestInput(inputs, key);
    assert Find(Flat(results), key) == KeptPlain(inputs, policy, key);
    if KeptPlain(inputs, policy, key).Some? {
      var i := KeptHolder(all, inputs, results, policy, firstId, key);
      assert IsTop(ts, rd, results[i]);
      AnswerIs(ts, rd, results[i]);
    } else {
      AnswerNone(ts, rd);
    }
  }

  /** The same condition then speaks of the tables before the compaction alone. */
  ghost predicate KeepsReading(all: set<Table>, inputs: seq<Table>, policy: Policy, key: Key, older: Older)
  {
    var mine, outside := Got(Elements(inputs), key, older), Got(all - Elements(inputs), key, older);
    var now := Live(policy.isDeleted, if InputsAnswer(all, inputs, key, older) then mine else outside);
    var kept := KeptPlain(inputs, policy, key);
    if kept.Some? then Live(policy.isDeleted, kept) == now
    else !InputsAnswer(all, inputs, key, older) || Live(policy.isDeleted, outside) == now
  }

  lemma CompactionWithoutSnapshotsIff(all: set<Table>, inputs: seq<Table>, results: seq<Table>, policy: Policy,
                                      firstId: nat, key: Key, older: Older, snapshot: nat)
    requires Replaces(all, inputs, results, policy, firstId) && OnlyVersions(older, snapshot)
    requires policy.gcCutoffTxnId > snapshot
    ensures Live(policy.isDeleted, Got(After(all, inputs, results), key, older))
            == Live(policy.isDeleted, Got(all, key, older))
            <==> KeepsReading(all, inputs, policy, key, older)
  {
    CompactionPreservesGetIff(all, inputs, results, policy, firstId, key, older, snapshot);
    NoVersionsKept(all, inputs, results, policy, firstId, key, older, snapshot);
  }

  /** Nothing outside the inputs answers the key in any way. */
  ghost predicate OutsideIsSilent(all: set<Table>, inputs: seq<Table>, key: Key, older: Older)
  {
    forall t :: t in all && t !in inputs ==> !Has(t, key) && older(t, key).None?
  }

  /**
   * What is enough: the newest plain holder is an input whenever an input is a holder; a tombstone is dropped
   * only when nothing outside answers; and versions are kept only along with, and before, the plain record.
   */
  ghost predicate KeepsVersionsBelow(all: set<Table>, inputs: seq<Table>, policy: Policy, key: Key, older: Older,
                                     snapshot: nat)
  {
    && (Held(Elements(inputs), key) ==> NewestIsInput(all, inputs, key))
    && (policy.isBottommost && Held(Elements(inputs), key) ==> OutsideIsSilent(all, inputs, key, older))
    && (policy.gcCutoffTxnId <= snapshot && (exists t :: t in inputs && HasVersion(t, key, snapshot)) ==>
          SortsBehindVersions(key) && KeptPlain(inputs, policy, key).Some?)
  }

  /**
   * Compaction preserves meaning. Where no version stands above the newest plain record, as is so while none is on
   * disk, and the above holds, `get` returns after the replacement what it returned before, and there is still no
   * version above. With no snapshot open every version is dropped and the last clause is empty.
   */
  lemma CompactionPreservesGet(all: set<Table>, inputs: seq<Table>, results: seq<Table>, policy: Policy, firstId: nat,
                               key: Key, older: Older, snapshot: nat)
    requires Replaces(all, inputs, results, policy, firstId) && !IsVersionedKey(key) && OnlyVersions(older, snapshot)
    requires NoVersionAbove(all, key, older) && KeepsVersionsBelow(all, inputs, policy, key, older, snapshot)
    ensures NoVersionAbove(After(all, inputs, results), key, older)
    ensures Live(policy.isDeleted, Got(After(all, inputs, results), key, older))
            == Live(policy.isDeleted, Got(all, key, older))
  {
    var after := After(all, inputs, results);
    ResultIds(all, inputs, results, policy, firstId);
    forall t | t in after && older(t, key).Some? ensures exists u :: u in after && Has(u, key) && u.id >= t.id {
      assert HasVersion(t, key, snapshot);
      if t in results {
        VersionsComeFromInputs(all, inputs, results, policy, firstId, t, key, snapshot);
        var i := KeptHolder(all, inputs, results, policy, firstId, key);
        var j :| 0 <= j < |results| && results[j] == t;
        VersionsBefore(results, key, snapshot, i, j);
        assert results[i] in after;
      } else {
        StillBelow(all, inputs, results, policy, firstId, key, older, snapshot, t);
      }
    }
    NoneAboveAgrees(all, key, older, policy.isDeleted);
    NoneAboveAgrees(after, key, older, policy.isDeleted);
    CompactionPreservesPlain(all, inputs, results, policy, firstId, key);
  }

  /** A table outside the inputs that had a plain holder at or above it still has one. */
  lemma StillBelow(all: set<Table>, inputs: seq<Table>, results: seq<Table>, policy: Policy, firstId: nat, key: Key,
                   older: Older, snapshot: nat, t: Table)
    requires Replaces(all, inputs, results, policy, firstId) && !IsVersionedKey(key)
    requires NoVersionAbove(all, key, older) && KeepsVersionsBelow(all, inputs, policy, key, older, snapshot)
    requires t in all && t !in inputs && older(t, key).Some?
    ensures exists u :: u in After(all, inputs, results) && Has(u, key) && u.id >= t.id
  {
    var u :| u in all && Has(u, key) && u.id >= t.id;
    if u in inputs {
      assert u in Elements(inputs);
      RecordNone(Elements(inputs), key);
      var i := KeptHolder(all, inputs, results, policy, firstId, key);
      ResultIds(all, inputs, results, policy, firstId);
      assert results[i] in After(all, inputs, results);
    } else {
      assert u in After(all, inputs, results);
    }
  }
}

/** The same for one step of the leveled compaction. */
module LeveledGets {
  import opened Keys
  import opened Options
  import opened Versions
  import opened VersionedKeys
  import opened Runs
  import opened StoredVersions
  import opened Compaction
  import opened DiskReads
  import opened CompactionMeaning
  import opened TableAnswers
  import opened GetReads
  import opened GetMeaning
  import opened Leveled

  /** A step leaves what `get` returns alone exactly when it keeps the answer, whatever the bounds and levels. */
  lemma StepPreservesGetIff(before: Placement, s: Step, after: Placement, key: Key, older: Older, snapshot: nat)
    requires Compacts(before, s, after) && OnlyVersions(older, snapshot)
    ensures Live(s.policy.isDeleted, Got(after.Keys, key, older))
            == Live(s.policy.isDeleted, Got(before.Keys, key, older))
            <==> KeepsAnswer(before.Keys, s.inputs, s.results, s.policy, key, older)
  {
    StepKeys(before, s, after);
    CompactionPreservesGetIff(before.Keys, s.inputs, s.results, s.policy, s.firstId, key, older, snapshot);
  }

  /** What must be known of versions besides: where tombstones go none lies outside, and none moves alone. */
  ghost predicate VersionsStayBelow(p: Placement, s: Step, key: Key, older: Older, snapshot: nat)
  {
    && (s.policy.isBottommost && Held(Elements(s.inputs), key) ==>
          forall t :: t in p && t !in s.inputs ==> older(t, key).None?)
    && (s.policy.gcCutoffTxnId <= snapshot && (exists t :: t in s.inputs && HasVersion(t, key, snapshot)) ==>
          SortsBehindVersions(key) && KeptPlain(s.inputs, s.policy, key).Some?)
  }

  /** On true bounds, with clear inputs and versions that stay below, `get` reads what it read. */
  lemma StepPreservesGet(before: Placement, s: Step, after: Placement, key: Key, older: Older, snapshot: nat)
    requires Compacts(before, s, after) && !IsVersionedKey(key) && OnlyVersions(older, snapshot)
    requires Layered(before) && TrueBounds(before) && UpperClear(before, s) && BottomClear(before, s)
    requires NoVersionAbove(before.Keys, key, older) && VersionsStayBelow(before, s, key, older, snapshot)
    ensures NoVersionAbove(after.Keys, key, older)
    ensures Live(s.policy.isDeleted, Got(after.Keys, key, older))
            == Live(s.policy.isDeleted, Got(before.Keys, key, older))
  {
    StepKeys(before, s, after);
    if Held(Elements(s.inputs), key) {
      InputsAreNewest(before, s, after, key);
    }
    CompactionPreservesGet(before.Keys, s.inputs, s.results, s.policy, s.firstId, key, older, snapshot);
  }
}

/** A store on which an old version moves above the newer record of its document. */
module VersionExample {
  import opened Keys
  import opened Options
  import opened Versions
  import opened VersionedKeys
  import opened Runs
  import opened Merge
  import opened SSTables
  import opened StoredVersions
  import opened Compaction
  import opened DiskReads
  import opened CompactionMeaning
  import opened TableAnswers
  import opened GetReads
  import opened GetMeaning
  import opened Leveled
  import opened LeveledGets
  import opened LeveledExamples

  const SNAPSHOT: nat := 2

  function OldVersion(): Key
  {
    EncodeVersionedKey(K, 1)
  }

  ghost predicate SplitStore(version: Table, plain: Table, moved: Table, s: Step, before: Placement, after: Placement)
  {
    && version == One(3, OldVersion(), OLD) && plain == One(6, K, NEW) && moved == One(7, OldVersion(), OLD)
    && s == Step(1, {version}, OldVersion(), OldVersion(), [version], [moved], Policy(IsTomb(), true, 1, 1), 7)
    && before == map[plain := 1, version := 1] && after == map[plain := 1, moved := 2]
  }

  /**
   * A snapshot is open at the first write of a document, so that its version was kept; an earlier compaction put
   * version and record into tables of their own, and the record has been rewritten since. When the version's table
   * moves down it gets the highest id, and `get` at the latest point finds the old document in it, which `scan`
   * does not. Bounds are true, the layers in order, and the inputs clear.
   */
  lemma VersionMovesAbove(f: Format, version: Table, plain: Table, moved: Table, s: Step, before: Placement,
                          after: Placement)
    requires SplitStore(version, plain, moved, s, before, after)
    ensures Layered(before) && TrueBounds(before) && UpperClear(before, s) && BottomClear(before, s)
    ensures Compacts(before, s, after) && Record(before.Keys, K) == Record(after.Keys, K) == Some(NEW)
    ensures var older := CodeOlder(f, SNAPSHOT);
            && GetLoop([plain, version], K, older) == Some(NEW)
            && GetLoop([moved, plain], K, older) == Some(OLD) && Lookup([moved, plain], K) == Some(NEW)
            && !KeepsAnswer(before.Keys, s.inputs, s.results, s.policy, K, older)
  {
    SplitIsSound(version, plain, moved, s, before, after);
    SplitRecords(version, plain, moved, s, before, after);
    SplitReads(f, version, plain, moved);
    SplitStacks(version, plain, moved, s, before, after);
    AnswerChanges(before, s, after, K, CodeOlder(f, SNAPSHOT), [plain, version], [moved, plain], f);
  }

  /** Where `get` finds different live documents before and after, the answer is not kept. */
  lemma AnswerChanges(before: Placement, s: Step, after: Placement, key: Key, older: Older, was: seq<Table>,
                      now: seq<Table>, f: Format)
    requires Compacts(before, s, after) && older == CodeOlder(f, SNAPSHOT)
    requires Descending(was) && Elements(was) == before.Keys && Descending(now) && Elements(now) == after.Keys
    requires Live(s.policy.isDeleted, GetLoop(was, key, older)) != Live(s.policy.isDeleted, GetLoop(now, key, older))
    ensures !KeepsAnswer(before.Keys, s.inputs, s.results, s.policy, key, older)
  {
    LoopIsGot(was, key, older);
    LoopIsGot(now, key, older);
    CodeFindsVersions(f, SNAPSHOT);
    StepPreservesGetIff(before, s, after, key, older, SNAPSHOT);
  }

  lemma SplitFinds()
    ensures IsVersionedKey(OldVersion()) && DecodeVersionedKey(OldVersion()) == (K, 1) && OldVersion() != K
    ensures Less(OldVersion(), K) && SortsBehindVersions(K)
  {
    VersionedKeyRoundTrip(K, 1);
    VersionsSortFirst(OldVersion(), K);
  }

  lemma SplitStacks(version: Table, plain: Table, moved: Table, s: Step, before: Placement, after: Placement)
    requires SplitStore(version, plain, moved, s, before, after)
    ensures Descending([plain, version]) && Elements([plain, version]) == before.Keys
    ensures Descending([moved, plain]) && Elements([moved, plain]) == after.Keys
  {
  }

  lemma SplitIsSound(version: Table, plain: Table, moved: Table, s: Step, before: Placement, after: Placement)
    requires SplitStore(version, plain, moved, s, before, after)
    ensures Layered(before) && TrueBounds(before) && UpperClear(before, s) && BottomClear(before, s)
    ensures Compacts(before, s, after)
  {
    SplitFinds();
    OneFinds(3, OldVersion(), OLD);
    OneFinds(6, K, NEW);
    OneFinds(7, OldVersion(), OLD);
    ApartPair(before, plain, version);
    assert !SharesKey(plain, version);
    SplitCompacts(version, plain, moved, s, before, after);
  }

  /** Two tables without a key in common are in order anywhere. */
  lemma ApartPair(p: Placement, t: Table, u: Table)
    requires p.Keys == {t, u} && forall key :: !(Has(t, key) && Has(u, key))
    ensures Layered(p)
  {
    forall x, y | x in p && y in p ensures Apart(p, x, y) { }
  }

  lemma SplitCompacts(version: Table, plain: Table, moved: Table, s: Step, before: Placement, after: Placement)
    requires SplitStore(version, plain, moved, s, before, after)
    ensures Compacts(before, s, after)
  {
    SplitFinds();
    OneFinds(3, OldVersion(), OLD);
    OneFinds(7, OldVersion(), OLD);
    LessIrreflexive(OldVersion());
    ReplacesOne(before.Keys, [version], moved, s.policy, 7);
    MovesOne(before, s, after, plain, version, moved, 1, 1);
  }

  lemma SplitRecords(version: Table, plain: Table, moved: Table, s: Step, before: Placement, after: Placement)
    requires SplitStore(version, plain, moved, s, before, after)
    ensures Record(before.Keys, K) == Record(after.Keys, K) == Some(NEW)
  {
    SplitFinds();
    OneFinds(3, OldVersion(), OLD);
    OneFinds(6, K, NEW);
    OneFinds(7, OldVersion(), OLD);
    ReadsOf(before.Keys, K, plain);
    ReadsOf(after.Keys, K, plain);
  }

  lemma SplitReads(f: Format, version: Table, plain: Table, moved: Table)
    requires version == One(3, OldVersion(), OLD) && plain == One(6, K, NEW) && moved == One(7, OldVersion(), OLD)
    ensures var older := CodeOlder(f, SNAPSHOT);
            && GetLoop([plain, version], K, older) == Some(NEW)
            && GetLoop([moved, plain], K, older) == Some(OLD) && Lookup([moved, plain], K) == Some(NEW)
  {
    SplitFinds();
    OneFinds(6, K, NEW);
    OneFinds(7, OldVersion(), OLD);
    LoneVersion(f.rec, f.blockSize, K, 1, OLD, SNAPSHOT);
    assert [moved, plain][1..] == [plain];
  }
}
