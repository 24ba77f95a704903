/** The newest record on disk of each key. What `get` makes of it, with old versions about, comes later. */
module DiskReads {
  import opened Keys
  import opened Options
  import opened Versions
  import opened VersionedKeys
  import opened Runs
  import opened Merge
  import opened Compaction

  predicate Has(t: Table, key: Key)
  {
    Find(t.run, key).Some?
  }

  ghost predicate UniqueIds(ts: set<Table>)
  {
    forall t, u :: t in ts && u in ts && t.id == u.id ==> t == u
  }

  ghost predicate IsHolder(ts: set<Table>, key: Key, t: Table)
  {
    t in ts && Has(t, key) && forall u :: u in ts && Has(u, key) ==> u.id <= t.id
  }

  /** The newest record stored under the key: that of the holder with the highest id. */
  ghost function Record(ts: set<Table>, key: Key): Option<Buf>
  {
    if exists t :: IsHolder(ts, key, t) then Find(Holder(ts, key).run, key) else None
  }

  ghost function Holder(ts: set<Table>, key: Key): (t: Table)
    requires exists t :: IsHolder(ts, key, t)
    ensures IsHolder(ts, key, t)
  {
    var t :| IsHolder(ts, key, t);
    t
  }

  lemma {:induction false} HolderExists(ts: set<Table>, key: Key)
    requires exists t :: t in ts && Has(t, key)
    ensures exists t :: IsHolder(ts, key, t)
    decreases ts
  {
    var t :| t in ts && Has(t, key);
    var rest := ts - {t};
    if exists u :: u in rest && Has(u, key) {
      HolderExists(rest, key);
      var u :| IsHolder(rest, key, u);
      assert IsHolder(ts, key, if u.id < t.id then t else u);
    } else {
      assert forall u :: u in ts && Has(u, key) ==> u == t || u in rest;
      assert IsHolder(ts, key, t);
    }
  }

  lemma RecordIs(ts: set<Table>, key: Key, t: Table)
    requires UniqueIds(ts) && IsHolder(ts, key, t)
    ensures Record(ts, key) == Find(t.run, key)
  {
    var u := Holder(ts, key);
    assert u.id == t.id;
  }

  lemma RecordNone(ts: set<Table>, key: Key)
    ensures Record(ts, key).None? <==> forall t :: t in ts ==> !Has(t, key)
  {
    if exists t :: t in ts && Has(t, key) {
      HolderExists(ts, key);
    }
  }

  /** The first record stored under the key, over tables in descending id order. */
  function Lookup(stack: seq<Table>, key: Key): Option<Buf>
  {
    if stack == [] then None
    else if Has(stack[0], key) then Find(stack[0].run, key)
    else Lookup(stack[1..], key)
  }

  ghost predicate Descending(stack: seq<Table>)
  {
    forall i, j :: 0 <= i < j < |stack| ==> stack[i].id > stack[j].id
  }

  ghost function Elements(stack: seq<Table>): set<Table>
  {
    set t | t in stack
  }

  /** Reading the sorted tables one by one answers with the newest holder's record. */
  lemma {:induction false} LookupIsRecord(stack: seq<Table>, key: Key)
    requires Descending(stack)
    ensures UniqueIds(Elements(stack))
    ensures Lookup(stack, key) == Record(Elements(stack), key)
  {
    var ts := Elements(stack);
    forall t, u | t in ts && u in ts && t.id == u.id ensures t == u {
      var i :| 0 <= i < |stack| && stack[i] == t;
      var j :| 0 <= j < |stack| && stack[j] == u;
    }
    if stack == [] {
      RecordNone(ts, key);
    } else if Has(stack[0], key) {
      assert IsHolder(ts, key, stack[0]);
      RecordIs(ts, key, stack[0]);
    } else {
      LookupIsRecord(stack[1..], key);
      SkipNonholder(stack, key);
    }
  }

  lemma SkipNonholder(stack: seq<Table>, key: Key)
    requires stack != [] && Descending(stack) && !Has(stack[0], key) && UniqueIds(Elements(stack))
    requires UniqueIds(Elements(stack[1..]))
    ensures Record(Elements(stack), key) == Record(Elements(stack[1..]), key)
  {
    var ts, rest := Elements(stack), Elements(stack[1..]);
    assert forall t :: t in ts <==> t == stack[0] || t in rest;
    RecordNone(ts, key);
    RecordNone(rest, key);
    if Record(rest, key).Some? {
      HolderExists(rest, key);
      var t :| IsHolder(rest, key, t);
      RecordIs(rest, key, t);
      assert IsHolder(ts, key, t);
      RecordIs(ts, key, t);
    }
  }

  /** What a reader gets from a record: nothing when it is a tombstone. */
  function Live(isDeleted: Tombstone, record: Option<Buf>): Option<Buf>
  {
    if record.Some? && isDeleted(record.value) then None else record
  }

  ghost predicate AscendingIds(tables: seq<Table>)
  {
    forall i, j :: 0 <= i < j < |tables| ==> tables[i].id < tables[j].id
  }

  /** The merge's newest version of a key is the record of its highest-numbered input. */
  lemma {:induction false} NewestInput(tables: seq<Table>, key: Key)
    requires AscendingIds(tables)
    ensures Newest(Sources(tables), key) == Record(Elements(tables), key)
  {
    var stack := seq(|tables|, i requires 0 <= i < |tables| => tables[|tables| - 1 - i]);
    assert Elements(stack) == Elements(tables) by {
      forall t | t in tables ensures t in stack {
        var i :| 0 <= i < |tables| && tables[i] == t;
        assert stack[|tables| - 1 - i] == t;
      }
    }
    NewestIsLookup(stack, Sources(tables), key);
    LookupIsRecord(stack, key);
  }

  lemma {:induction false} NewestIsLookup(stack: seq<Table>, sources: seq<Run>, key: Key)
    requires |stack| == |sources| && forall i :: 0 <= i < |stack| ==> sources[i] == stack[i].run
    ensures Newest(sources, key) == Lookup(stack, key)
  {
    if stack != [] {
      NewestIsLookup(stack[1..], sources[1..], key);
    }
  }

  /** The outputs of a merge, as separate tables, hold each key at most once. */
  lemma {:induction false} FlatFinds(tables: seq<Table>, key: Key)
    requires Ascending(Flat(tables))
    ensures forall i :: 0 <= i < |tables| && Has(tables[i], key) ==> Find(tables[i].run, key) == Find(Flat(tables), key)
    ensures forall i, j :: 0 <= i < |tables| && 0 <= j < |tables| && Has(tables[i], key) && Has(tables[j], key) ==>
              i == j
    ensures Find(Flat(tables), key).Some? <==> exists i :: 0 <= i < |tables| && Has(tables[i], key)
  {
    if tables != [] {
      var n := |tables| - 1;
      var before, last := Flat(tables[..n]), tables[n].run;
      assert Flat(tables) == before + last;
      AscendingParts(before, last, key);
      FlatFinds(tables[..n], key);
      FindConcat(before, last, key);
      forall i | 0 <= i < |tables| && Has(tables[i], key)
        ensures Find(tables[i].run, key) == Find(Flat(tables), key)
        ensures i < n ==> Find(before, key).Some?
      {
        if i < n { assert Has(tables[..n][i], key); }
      }
      if Find(before, key).Some? {
        var i :| 0 <= i < n && Has(tables[..n][i], key);
        assert Has(tables[i], key);
      } else if Find(last, key).Some? {
        assert Has(tables[n], key);
      }
      forall i, j | 0 <= i < |tables| && 0 <= j < |tables| && Has(tables[i], key) && Has(tables[j], key)
        ensures i == j
      {
        if i < n && j < n {
          assert Has(tables[..n][i], key) && Has(tables[..n][j], key);
        }
      }
    }
  }

  lemma AscendingParts(a: Run, b: Run, key: Key)
    requires Ascending(a + b)
    ensures Ascending(a) && Ascending(b)
    ensures !(Find(a, key).Some? && Find(b, key).Some?)
  {
    forall i, j | 0 <= i < j < |a| ensures Less(a[i].key, a[j].key) {
      assert Less((a + b)[i].key, (a + b)[j].key);
    }
    forall i, j | 0 <= i < j < |b| ensures Less(b[i].key, b[j].key) {
      assert Less((a + b)[|a| + i].key, (a + b)[|a| + j].key);
    }
    FindHolds(a, key);
    FindHolds(b, key);
    forall i, j | 0 <= i < |a| && 0 <= j < |b| ensures a[i].key != b[j].key {
      assert Less((a + b)[i].key, (a + b)[|a| + j].key);
      LessIrreflexive(a[i].key);
    }
  }
}

/** When replacing tables by their merge leaves the newest plain records as they were, and when it does not. */
module CompactionMeaning {
  import opened Keys
  import opened Options
  import opened Versions
  import opened VersionedKeys
  import opened Runs
  import opened Merge
  import opened Compaction
  import opened DiskReads

  /** `results` may replace `inputs` among `all`: they are their merge, under fresh ids. */
  ghost predicate Replaces(all: set<Table>, inputs: seq<Table>, results: seq<Table>, policy: Policy, firstId: nat)
  {
    && UniqueIds(all) && AscendingIds(inputs) && Elements(inputs) <= all
    && (forall t :: t in all ==> t.id < firstId)
    && Numbered(results, firstId)
    && IsMerge(Sources(inputs), policy.Keep(), Flat(results))
  }

  ghost function After(all: set<Table>, inputs: seq<Table>, results: seq<Table>): set<Table>
  {
    (all - Elements(inputs)) + Elements(results)
  }

  ghost predicate Held(ts: set<Table>, key: Key)
  {
    exists t :: t in ts && Has(t, key)
  }

  /** Of the tables holding the key, no outside one is newer than every input. */
  ghost predicate NewestIsInput(all: set<Table>, inputs: seq<Table>, key: Key)
  {
    forall t :: t in all && t !in inputs && Has(t, key) ==>
      exists u :: u in inputs && Has(u, key) && u.id > t.id
  }

  lemma FreshIds(all: set<Table>, inputs: seq<Table>, results: seq<Table>, firstId: nat)
    requires UniqueIds(all) && Numbered(results, firstId) && forall t :: t in all ==> t.id < firstId
    ensures UniqueIds(After(all, inputs, results))
    ensures forall t :: t in results ==> firstId <= t.id < firstId + |results|
  {
    forall t | t in results ensures firstId <= t.id < firstId + |results| {
      var i :| 0 <= i < |results| && results[i] == t;
    }
    var after := After(all, inputs, results);
    forall t, u | t in after && u in after && t.id == u.id ensures t == u {
      if t in results && u in results {
        var i :| 0 <= i < |results| && results[i] == t;
        var j :| 0 <= j < |results| && results[j] == u;
      }
    }
  }

  lemma ResultHolder(all: set<Table>, inputs: seq<Table>, results: seq<Table>, policy: Policy, firstId: nat, key: Key)
    requires Replaces(all, inputs, results, policy, firstId)
    ensures UniqueIds(After(all, inputs, results))
    ensures Find(Flat(results), key).Some? ==>
              Record(After(all, inputs, results), key) == Find(Flat(results), key)
    ensures Find(Flat(results), key).None? ==>
              Record(After(all, inputs, results), key) == Record(all - Elements(inputs), key)
  {
    var after, outside := After(all, inputs, results), all - Elements(inputs);
    FreshIds(all, inputs, results, firstId);
    FlatFinds(results, key);
    if Find(Flat(results), key).Some? {
      var i :| 0 <= i < |results| && Has(results[i], key);
      forall u | u in after && Has(u, key) ensures u.id <= results[i].id {
        if u in results {
          var j :| 0 <= j < |results| && results[j] == u;
        }
      }
      assert IsHolder(after, key, results[i]);
      RecordIs(after, key, results[i]);
    } else {
      SameHolders(after, outside, key);
    }
  }

  /** Tables that do not hold the key do not matter to its record. */
  lemma SameHolders(a: set<Table>, b: set<Table>, key: Key)
    requires UniqueIds(a) && UniqueIds(b)
    requires forall t :: Has(t, key) ==> (t in a <==> t in b)
    ensures Record(a, key) == Record(b, key)
  {
    RecordNone(a, key);
    RecordNone(b, key);
    if Record(a, key).Some? {
      HolderExists(a, key);
      var t :| IsHolder(a, key, t);
      RecordIs(a, key, t);
      assert IsHolder(b, key, t);
      RecordIs(b, key, t);
    }
  }

  /** Exactly what the newest record of a key is after a compaction. */
  lemma RecordAfter(all: set<Table>, inputs: seq<Table>, results: seq<Table>, policy: Policy, firstId: nat, key: Key)
    requires Replaces(all, inputs, results, policy, firstId)
    ensures var kept := Kept(policy.Keep(), key, Record(Elements(inputs), key));
            Record(After(all, inputs, results), key) ==
            if kept.Some? then kept else Record(all - Elements(inputs), key)
  {
    ResultHolder(all, inputs, results, policy, firstId, key);
    NewestInput(inputs, key);
    assert Find(Flat(results), key) == Kept(policy.Keep(), key, Newest(Sources(inputs), key));
  }

  lemma InputRecord(all: set<Table>, inputs: seq<Table>, key: Key)
    requires UniqueIds(all) && Elements(inputs) <= all
    ensures !Held(Elements(inputs), key) ==> Record(all - Elements(inputs), key) == Record(all, key)
    ensures Held(Elements(inputs), key) && NewestIsInput(all, inputs, key) ==>
              Record(Elements(inputs), key) == Record(all, key)
    ensures Held(Elements(inputs), key) && !NewestIsInput(all, inputs, key) ==>
              exists t, u :: t in all && t !in inputs && Has(t, key) && Record(all, key) == Find(t.run, key)
                          && u in inputs && Has(u, key) && Record(Elements(inputs), key) == Find(u.run, key)
  {
    var ins := Elements(inputs);
    if !Held(ins, key) {
      SameHolders(all, all - ins, key);
    } else {
      HolderExists(ins, key);
      var u :| IsHolder(ins, key, u);
      RecordIs(ins, key, u);
      HolderExists(all, key);
      var t :| IsHolder(all, key, t);
      RecordIs(all, key, t);
      if t in inputs {
        assert t.id == u.id;
        assert forall w :: w in all && w !in inputs && Has(w, key) ==> w.id <= t.id && w != t;
      }
    }
  }

  /**
   * The newest record of a plain key reads after the replacement as it did before, provided its newest
   * holder is an input whenever an input holds it, and the bottommost flag is set only when no table outside
   * the inputs holds one of their keys.
   */
  lemma CompactionPreservesPlain(all: set<Table>, inputs: seq<Table>, results: seq<Table>, policy: Policy, firstId: nat,
                               key: Key)
    requires Replaces(all, inputs, results, policy, firstId) && !IsVersionedKey(key)
    requires Held(Elements(inputs), key) ==> NewestIsInput(all, inputs, key)
    requires policy.isBottommost && Held(Elements(inputs), key) ==> !Held(all - Elements(inputs), key)
    ensures Live(policy.isDeleted, Record(After(all, inputs, results), key))
            == Live(policy.isDeleted, Record(all, key))
  {
    RecordAfter(all, inputs, results, policy, firstId, key);
    InputRecord(all, inputs, key);
    RecordNone(Elements(inputs), key);
    RecordNone(all - Elements(inputs), key);
  }

  /**
   * When a compaction leaves a key's meaning alone, in terms of what is read before it. Where the inputs'
   * record is a tombstone to be dropped, nothing live may lie outside unless it is read already; otherwise
   * the inputs must hold the newest record, or one that reads the same as the newest outside.
   */
  ghost predicate KeepsMeaning(all: set<Table>, inputs: seq<Table>, policy: Policy, key: Key)
  {
    var mine, outside := Record(Elements(inputs), key), Record(all - Elements(inputs), key);
    mine.None? ||
    if policy.isBottommost && policy.isDeleted(mine.value) then
      NewestIsInput(all, inputs, key) ==> Live(policy.isDeleted, outside).None?
    else
      NewestIsInput(all, inputs, key) || Live(policy.isDeleted, mine) == Live(policy.isDeleted, outside)
  }

  /** The newest record is the inputs' or the one outside. */
  lemma RecordBefore(all: set<Table>, inputs: seq<Table>, key: Key)
    requires UniqueIds(all) && Elements(inputs) <= all
    ensures Record(all, key) ==
            if Record(Elements(inputs), key).Some? && NewestIsInput(all, inputs, key) then Record(Elements(inputs), key)
            else Record(all - Elements(inputs), key)
  {
    InputRecord(all, inputs, key);
    RecordNone(Elements(inputs), key);
    if Held(Elements(inputs), key) && !NewestIsInput(all, inputs, key) {
      HolderExists(all, key);
      var t :| IsHolder(all, key, t);
      assert t !in inputs;
      assert IsHolder(all - Elements(inputs), key, t);
      RecordIs(all, key, t);
      RecordIs(all - Elements(inputs), key, t);
    }
  }

  /**
   * The condition is exact: under any policy, on any bounds and whatever the levels, a compaction leaves
   * what the newest record of a plain key reads as if and only if it holds.
   */
  lemma CompactionPreservesPlainIff(all: set<Table>, inputs: seq<Table>, results: seq<Table>, policy: Policy,
                                  firstId: nat, key: Key)
    requires Replaces(all, inputs, results, policy, firstId) && !IsVersionedKey(key)
    ensures Live(policy.isDeleted, Record(After(all, inputs, results), key)) == Live(policy.isDeleted, Record(all, key))
            <==> KeepsMeaning(all, inputs, policy, key)
  {
    RecordAfter(all, inputs, results, policy, firstId, key);
    RecordBefore(all, inputs, key);
  }

  /** Two tables never hold the same document for a key: each version of a key is written once. */
  ghost predicate DistinctDocuments(all: set<Table>)
  {
    forall t, u, key :: t in all && u in all && t != u && Has(t, key) && Has(u, key) ==>
      Find(t.run, key) != Find(u.run, key)
  }

  /**
   * Above the bottom level, and where each version is written once, a compaction leaves the record of every
   * plain key in place if and only if no input key has a newer holder outside the inputs.
   */
  lemma CompactionPreservesRecordsIff(all: set<Table>, inputs: seq<Table>, results: seq<Table>, policy: Policy,
                                      firstId: nat)
    requires Replaces(all, inputs, results, policy, firstId) && !policy.isBottommost && DistinctDocuments(all)
    ensures (forall key :: !IsVersionedKey(key) ==> Record(After(all, inputs, results), key) == Record(all, key))
            <==> (forall key :: !IsVersionedKey(key) && Held(Elements(inputs), key) ==>
                    NewestIsInput(all, inputs, key))
  {
    forall key | !IsVersionedKey(key)
      ensures Record(After(all, inputs, results), key) == Record(all, key)
              <==> (Held(Elements(inputs), key) ==> NewestIsInput(all, inputs, key))
    {
      RecordAfter(all, inputs, results, policy, firstId, key);
      InputRecord(all, inputs, key);
      RecordNone(Elements(inputs), key);
      assert Held(Elements(inputs), key) ==>
        Kept(policy.Keep(), key, Record(Elements(inputs), key)) == Record(Elements(inputs), key);
    }
  }
}

/** Which records a compaction keeps, said of its inputs and outputs. */
module KeptRecords {
  import opened Keys
  import opened Options
  import opened Versions
  import opened VersionedKeys
  import opened Memtable
  import opened Runs
  import opened Merge
  import opened Compaction
  import opened DiskReads
  import opened CompactionMeaning

  /** What the outputs hold under a key is what the newest input holds, if it is kept. */
  lemma OutputRecord(all: set<Table>, inputs: seq<Table>, results: seq<Table>, policy: Policy, firstId: nat, key: Key)
    requires Replaces(all, inputs, results, policy, firstId)
    ensures Held(Elements(results), key) <==> Kept(policy.Keep(), key, Record(Elements(inputs), key)).Some?
    ensures forall t :: t in results && Has(t, key) ==>
              Find(t.run, key) == Record(Elements(inputs), key)
              == Kept(policy.Keep(), key, Record(Elements(inputs), key))
  {
    NewestInput(inputs, key);
    FlatFinds(results, key);
    var kept := Kept(policy.Keep(), key, Record(Elements(inputs), key));
    assert Find(Flat(results), key) == kept;
    forall t | t in results && Has(t, key) ensures Find(t.run, key) == kept {
      var i :| 0 <= i < |results| && results[i] == t;
    }
    if kept.Some? {
      var i :| 0 <= i < |results| && Has(results[i], key);
      assert results[i] in Elements(results);
    }
  }

  /**
   * A plain record is in the outputs exactly when an input holds it, unless the newest input has it as a
   * tombstone and nothing lies deeper; and then the outputs have it from that input.
   */
  lemma PlainIsKeptIff(all: set<Table>, inputs: seq<Table>, results: seq<Table>, policy: Policy, firstId: nat,
                       key: Key, newest: Table)
    requires Replaces(all, inputs, results, policy, firstId) && !IsVersionedKey(key)
    requires IsHolder(Elements(inputs), key, newest)
    ensures Held(Elements(results), key)
            <==> !policy.isDeleted(Find(newest.run, key).value) || !policy.isBottommost
    ensures forall t :: t in results && Has(t, key) ==> Find(t.run, key) == Find(newest.run, key)
  {
    OutputRecord(all, inputs, results, policy, firstId, key);
    RecordIs(Elements(inputs), key, newest);
  }

  /** Some of the tables holds the document's version by that transaction. */
  ghost predicate HoldVersion(ts: seq<Table>, id: Key, txn: nat)
  {
    Held(Elements(ts), EncodeVersionedKey(id, txn))
  }

  /**
   * Versions from the cutoff on are kept, each with the document of the newest input that holds it; older ones
   * are not, and none is made.
   */
  lemma VersionIsKeptIff(all: set<Table>, inputs: seq<Table>, results: seq<Table>, policy: Policy, firstId: nat,
                         id: Key, txn: nat)
    requires Replaces(all, inputs, results, policy, firstId) && txn <= NO_SNAPSHOT
    ensures HoldVersion(results, id, txn) <==> policy.gcCutoffTxnId <= txn && HoldVersion(inputs, id, txn)
    ensures var key := EncodeVersionedKey(id, txn);
            forall t, u :: t in results && Has(t, key) && IsHolder(Elements(inputs), key, u) ==>
              Find(t.run, key) == Find(u.run, key)
  {
    var key := EncodeVersionedKey(id, txn);
    VersionedKeyRoundTrip(id, txn);
    OutputRecord(all, inputs, results, policy, firstId, key);
    RecordNone(Elements(inputs), key);
    forall u | IsHolder(Elements(inputs), key, u) ensures Record(Elements(inputs), key) == Find(u.run, key) {
      RecordIs(Elements(inputs), key, u);
    }
  }

  /** The newest version of the document that a reader at the snapshot may see in the tables. */
  ghost predicate IsNewestFor(ts: seq<Table>, id: Key, txn: nat, snapshot: nat)
  {
    && txn <= snapshot && HoldVersion(ts, id, txn)
    && forall n: nat {:trigger HoldVersion(ts, id, n)} :: n <= snapshot && HoldVersion(ts, id, n) ==> n <= txn
  }

  /**
   * No open snapshot loses a version it reads. The cutoff is the oldest one; for it and every later one, the newest
   * version in the outputs is the newest in the inputs whenever that is not older than the cutoff, and otherwise
   * the outputs have none.
   */
  lemma NewestIsKeptIff(all: set<Table>, inputs: seq<Table>, results: seq<Table>, policy: Policy, firstId: nat,
                        id: Key, txn: nat, snapshot: nat)
    requires Replaces(all, inputs, results, policy, firstId) && snapshot <= NO_SNAPSHOT
    ensures IsNewestFor(results, id, txn, snapshot)
            <==> policy.gcCutoffTxnId <= txn && IsNewestFor(inputs, id, txn, snapshot)
  {
    forall n: nat | n <= snapshot
      ensures HoldVersion(results, id, n) <==> policy.gcCutoffTxnId <= n && HoldVersion(inputs, id, n)
    {
      VersionIsKeptIff(all, inputs, results, policy, firstId, id, n);
    }
  }
}
