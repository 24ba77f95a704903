/** The set of open snapshots, which bounds how far versions may be trimmed. */
module Registry {
  import opened Versions

  ghost predicate IsOldest(snapshots: set<nat>, m: nat)
  {
    && m <= NO_SNAPSHOT
    && (forall s :: s in snapshots ==> m <= s)
    && (m == NO_SNAPSHOT || m in snapshots)
  }

  ghost function Oldest(snapshots: set<nat>): (m: nat)
    ensures IsOldest(snapshots, m)
  {
    if snapshots == {} then NO_SNAPSHOT
    else
      var s :| s in snapshots;
      var rest := Oldest(snapshots - {s});
      assert snapshots == (snapshots - {s}) + {s};
      if s < rest then s else rest
  }

  lemma OldestUnique(snapshots: set<nat>, m: nat)
    requires IsOldest(snapshots, m)
    ensures m == Oldest(snapshots)
  {
    var o := Oldest(snapshots);
    assert IsOldest(snapshots, o);
  }

  class SnapshotRegistry {
    var snapshots: set<nat>

    constructor ()
      ensures snapshots == {}
    {
      snapshots := {};
    }

    method Open(txnId: nat) returns (r: nat)
      modifies this
      ensures r == txnId && snapshots == old(snapshots) + {txnId}
    {
      snapshots := snapshots + {txnId};
      return txnId;
    }

    method Close(txnId: nat)
      modifies this
      ensures snapshots == old(snapshots) - {txnId}
    {
      snapshots := snapshots - {txnId};
    }

    method OldestOpen() returns (min: nat)
      ensures min == Oldest(snapshots)
    {
      min := NO_SNAPSHOT;
      var todo := snapshots;
      while todo != {}
        invariant todo <= snapshots
        invariant IsOldest(snapshots - todo, min)
        decreases todo
      {
        var s :| s in todo;
        if s < min {
          min := s;
        }
        assert snapshots - (todo - {s}) == (snapshots - todo) + {s};
        todo := todo - {s};
      }
      assert snapshots - todo == snapshots;
      OldestUnique(snapshots, min);
    }
  }
}

/**
 * Runs of one collection's in-memory part: writes, two-phase commits, snapshots opening and closing,
 * and rotation of the memtable into the immutable queue.
 */
module SnapshotRuns {
  import opened Keys
  import opened Options
  import opened Versions
  import opened Memtable
  import opened Registry

  datatype Write = Write(key: Key, value: Buf)

  /** A transaction that is published (its id is the committed one) but not yet in the memtable. */
  datatype Batch = Batch(txn: nat, writes: seq<Write>)

  datatype State = State(
    mem: VersionMap,
    imm: seq<VersionMap>,
    snaps: set<nat>,
    nextTxn: nat,
    committed: nat,
    pending: Option<Batch>)

  datatype Step =
    | Upsert(key: Key, value: Buf)
    | Publish(writes: seq<Write>)
    | Apply
    | Open
    | Close(txn: nat)
    | Rotate

  ghost const EMPTY: State := State(map[], [], {}, 1, 0, None)

  /** Writers take turns: a write starts only when the previous commit has been applied. */
  predicate Enabled(st: State, step: Step)
  {
    match step
    case Upsert(_, _) => st.pending.None?
    case Publish(writes) => st.pending.None? && writes != [] && DistinctKeys(writes)
    case Apply => st.pending.Some?
    case _ => true
  }

  predicate DistinctKeys(writes: seq<Write>)
  {
    forall i, j :: 0 <= i < j < |writes| ==> writes[i].key != writes[j].key
  }

  ghost function SetAll(t: VersionMap, writes: seq<Write>, txn: nat, oldest: nat): VersionMap
    decreases |writes|
  {
    if writes == [] then t
    else SetAll(TableSet(t, writes[0].key, txn, writes[0].value, oldest), writes[1..], txn, oldest)
  }

  ghost function Max(a: nat, b: nat): nat
  {
    if a > b then a else b
  }

  ghost function Next(st: State, step: Step): State
    requires Enabled(st, step)
  {
    match step
    case Upsert(key, value) =>
      st.(mem := TableSet(st.mem, key, st.nextTxn, value, Oldest(st.snaps)),
          nextTxn := st.nextTxn + 1,
          committed := Max(st.nextTxn, st.committed))
    case Publish(writes) =>
      st.(nextTxn := st.nextTxn + 1,
          committed := Max(st.nextTxn, st.committed),
          pending := Some(Batch(st.nextTxn, writes)))
    case Apply =>
      st.(mem := SetAll(st.mem, st.pending.value.writes, st.pending.value.txn, Oldest(st.snaps)),
          pending := None)
    case Open => st.(snaps := st.snaps + {st.committed})
    case Close(txn) => st.(snaps := st.snaps - {txn})
    case Rotate => st.(mem := map[], imm := st.imm + [st.mem])
  }

  ghost function ReadStack(imm: seq<VersionMap>, key: Key, snapshot: nat): Option<Buf>
  {
    if imm == [] then None
    else
      var top := TableRead(imm[|imm| - 1], key, snapshot);
      if top.Some? then top else ReadStack(imm[..|imm| - 1], key, snapshot)
  }

  /** The in-memory part of a read: the memtable first, then the immutable queue, newest first. */
  ghost function Read(st: State, key: Key, snapshot: nat): Option<Buf>
  {
    var top := TableRead(st.mem, key, snapshot);
    if top.Some? then top else ReadStack(st.imm, key, snapshot)
  }

  ghost predicate Inv(st: State)
  {
    && st.committed < st.nextTxn <= NO_SNAPSHOT
    && (forall s :: s in st.snaps ==> s <= st.committed)
    && (st.pending.Some? ==> st.pending.value.txn <= st.committed && DistinctKeys(st.pending.value.writes))
  }

  /** Open, and not opened in the middle of a commit that is still to reach the memtable. */
  ghost predicate Settled(st: State, s: nat)
  {
    s in st.snaps && (st.pending.Some? ==> st.pending.value.txn > s)
  }

  ghost predicate IsRun(st: State, steps: seq<Step>)
    decreases |steps|
  {
    steps == [] || (Enabled(st, steps[0]) && IsRun(Next(st, steps[0]), steps[1..]))
  }

  ghost function After(st: State, steps: seq<Step>): State
    requires IsRun(st, steps)
    decreases |steps|
  {
    if steps == [] then st else After(Next(st, steps[0]), steps[1..])
  }

  /** No step of the run closes `s`. */
  predicate KeepsOpen(steps: seq<Step>, s: nat)
  {
    forall i :: 0 <= i < |steps| ==> steps[i] != Close(s)
  }

  /** Transaction ids are 64-bit: the run does not use them up. */
  ghost predicate HasRoom(st: State, steps: seq<Step>)
  {
    st.nextTxn + |steps| <= NO_SNAPSHOT
  }

  lemma {:induction false} SetAllRead(t: VersionMap, writes: seq<Write>, txn: nat, oldest: nat, key: Key, snapshot: nat)
    requires DistinctKeys(writes)
    ensures (forall w :: w in writes ==> w.key != key) ==>
              TableRead(SetAll(t, writes, txn, oldest), key, snapshot) == TableRead(t, key, snapshot)
    ensures txn > snapshot && oldest <= snapshot ==>
              TableRead(SetAll(t, writes, txn, oldest), key, snapshot) == TableRead(t, key, snapshot)
    ensures txn <= snapshot ==> forall w :: w in writes && w.key == key ==>
              TableRead(SetAll(t, writes, txn, oldest), key, snapshot) == Some(w.value)
    decreases |writes|
  {
    if writes != [] {
      var t' := TableSet(t, writes[0].key, txn, writes[0].value, oldest);
      SetThenRead(t, writes[0].key, txn, writes[0].value, oldest, key, snapshot);
      SetAllRead(t', writes[1..], txn, oldest, key, snapshot);
      assert forall w :: w in writes <==> w == writes[0] || w in writes[1..];
      if writes[0].key == key {
        assert forall w :: w in writes[1..] ==> w.key != key;
      }
    }
  }

  /** The documents a plain map holds after some writes. */
  ghost function PutAll(m: map<Key, Buf>, writes: seq<Write>): map<Key, Buf>
    decreases |writes|
  {
    if writes == [] then m else PutAll(m[writes[0].key := writes[0].value], writes[1..])
  }

  /** Every version in the table was committed by then. */
  ghost predicate Committed(t: VersionMap, committed: nat)
  {
    forall key :: key in t ==> t[key] != [] && forall v :: v in t[key] ==> v.txn <= committed
  }

  /** Once everything in a table is committed, later readers see its newest version. */
  lemma CommittedRead(t: VersionMap, committed: nat, key: Key, snapshot: nat)
    requires Committed(t, committed) && committed <= snapshot
    ensures TableRead(t, key, snapshot) == if key in t then Some(t[key][0].value) else None
  {
    if key in t {
      assert t[key][0] in t[key];
    }
  }

  lemma SetKeepsCommitted(t: VersionMap, key: Key, txn: nat, value: Buf, oldest: nat)
    requires Committed(t, txn)
    ensures Committed(TableSet(t, key, txn, value, oldest), txn)
  {
    TrimmedNonempty([Version(txn, value)] + (if key in t then t[key] else []), oldest);
  }

  lemma {:induction false} SetAllKeepsCommitted(t: VersionMap, writes: seq<Write>, txn: nat, oldest: nat)
    requires Committed(t, txn)
    ensures Committed(SetAll(t, writes, txn, oldest), txn)
    decreases |writes|
  {
    if writes != [] {
      SetKeepsCommitted(t, writes[0].key, txn, writes[0].value, oldest);
      SetAllKeepsCommitted(TableSet(t, writes[0].key, txn, writes[0].value, oldest), writes[1..], txn, oldest);
    }
  }

  lemma {:induction false} PutAllHas(m: map<Key, Buf>, writes: seq<Write>, key: Key)
    requires DistinctKeys(writes)
    ensures forall w :: w in writes && w.key == key ==> key in PutAll(m, writes) && PutAll(m, writes)[key] == w.value
    ensures (forall w :: w in writes ==> w.key != key) ==>
              (key in PutAll(m, writes) <==> key in m)
              && (key in m ==> PutAll(m, writes)[key] == m[key])
    decreases |writes|
  {
    if writes != [] {
      PutAllHas(m[writes[0].key := writes[0].value], writes[1..], key);
      assert forall w :: w in writes <==> w == writes[0] || w in writes[1..];
      if writes[0].key == key {
        assert forall w :: w in writes[1..] ==> w.key != key;
      }
    }
  }

  /** One step leaves a settled snapshot settled, and every read at it unchanged. */
  lemma StepKeepsReads(st: State, step: Step, s: nat, key: Key)
    requires Inv(st) && Settled(st, s) && Enabled(st, step) && step != Close(s) && st.nextTxn < NO_SNAPSHOT
    ensures Inv(Next(st, step)) && Settled(Next(st, step), s)
    ensures Read(Next(st, step), key, s) == Read(st, key, s)
  {
    var st' := Next(st, step);
    match step {
      case Upsert(k, v) =>
        SetThenRead(st.mem, k, st.nextTxn, v, Oldest(st.snaps), key, s);
      case Apply =>
        SetAllRead(st.mem, st.pending.value.writes, st.pending.value.txn, Oldest(st.snaps), key, s);
      case Rotate =>
        assert st'.imm[..|st'.imm| - 1] == st.imm;
      case _ =>
    }
  }

  /**
   * Snapshot stability. While `s` stays open, no run of writes, commits, trims, rotations and other
   * snapshots' comings and goings changes what any key reads at `s`.
   */
  lemma {:induction false} SnapshotStable(st: State, steps: seq<Step>, s: nat, key: Key)
    requires Inv(st) && Settled(st, s) && IsRun(st, steps) && KeepsOpen(steps, s) && HasRoom(st, steps)
    ensures Read(After(st, steps), key, s) == Read(st, key, s)
    ensures Settled(After(st, steps), s)
    decreases |steps|
  {
    if steps != [] {
      assert steps[0] != Close(s);
      StepKeepsReads(st, steps[0], s, key);
      SnapshotStable(Next(st, steps[0]), steps[1..], s, key);
    }
  }

  /** Every state a run reaches from the empty collection satisfies the invariant. */
  lemma {:induction false} RunsKeepInv(st: State, steps: seq<Step>)
    requires Inv(st) && IsRun(st, steps) && HasRoom(st, steps)
    ensures Inv(After(st, steps))
    decreases |steps|
  {
    if steps != [] {
      RunsKeepInv(Next(st, steps[0]), steps[1..]);
    }
  }

  /**
   * Exactly when applying a published commit leaves every read at an open snapshot alone: the snapshot
   * precedes the commit, or the commit rewrites each key with the value that already read there.
   */
  lemma ApplyKeepsReadsIff(st: State, s: nat)
    requires Inv(st) && s in st.snaps && st.pending.Some?
    ensures (forall key :: Read(Next(st, Apply), key, s) == Read(st, key, s)) <==>
            (st.pending.value.txn > s
             || forall w :: w in st.pending.value.writes ==> Read(st, w.key, s) == Some(w.value))
  {
    var b := st.pending.value;
    var st' := Next(st, Apply);
    forall key | b.txn > s || forall w :: w in b.writes ==> w.key != key
      ensures Read(st', key, s) == Read(st, key, s)
    {
      SetAllRead(st.mem, b.writes, b.txn, Oldest(st.snaps), key, s);
    }
    forall w | w in b.writes && b.txn <= s
      ensures Read(st', w.key, s) == Some(w.value)
    {
      SetAllRead(st.mem, b.writes, b.txn, Oldest(st.snaps), w.key, s);
    }
  }

  /** An open snapshot at which all reads as it will: settled, or the pending batch already reads the same there. */
  ghost predicate Undisturbed(st: State, s: nat)
  {
    && s in st.snaps
    && (st.pending.None? || st.pending.value.txn > s
        || forall w :: w in st.pending.value.writes ==> Read(st, w.key, s) == Some(w.value))
  }

  /** Until a pending batch is applied no step changes a read. */
  lemma PendingKeepsReads(st: State, step: Step, key: Key, s: nat)
    requires st.pending.Some? && Enabled(st, step) && step != Step.Apply
    ensures Next(st, step).pending == st.pending && Read(Next(st, step), key, s) == Read(st, key, s)
  {
    if step.Rotate? {
      assert (st.imm + [st.mem])[..|st.imm + [st.mem]| - 1] == st.imm;
    }
  }

  lemma UndisturbedNext(st: State, step: Step, s: nat)
    requires Inv(st) && Undisturbed(st, s) && Enabled(st, step) && step != Close(s) && st.nextTxn < NO_SNAPSHOT
    ensures Inv(Next(st, step)) && Undisturbed(Next(st, step), s)
    ensures forall key :: Read(Next(st, step), key, s) == Read(st, key, s)
  {
    if Settled(st, s) {
      forall key ensures Read(Next(st, step), key, s) == Read(st, key, s) {
        StepKeepsReads(st, step, s, key);
      }
    } else if step.Apply? {
      ApplyKeepsReadsIff(st, s);
    } else {
      forall key ensures Read(Next(st, step), key, s) == Read(st, key, s) {
        PendingKeepsReads(st, step, key, s);
      }
    }
  }

  lemma {:induction false} UndisturbedStays(st: State, steps: seq<Step>, s: nat, key: Key)
    requires Inv(st) && Undisturbed(st, s) && IsRun(st, steps) && KeepsOpen(steps, s) && HasRoom(st, steps)
    ensures Read(After(st, steps), key, s) == Read(st, key, s)
    decreases |steps|
  {
    if steps != [] {
      assert steps[0] != Close(s);
      UndisturbedNext(st, steps[0], s);
      UndisturbedStays(Next(st, steps[0]), steps[1..], s, key);
    }
  }

  /** In every run that keeps the snapshot open, each key reads what it reads now. */
  ghost predicate StaysPut(st: State, s: nat)
  {
    forall steps, key :: IsRun(st, steps) && KeepsOpen(steps, s) && HasRoom(st, steps) ==>
      Read(After(st, steps), key, s) == Read(st, key, s)
  }

  /**
   * When a snapshot is stable, exactly. Of an open snapshot, however it was opened, no run that keeps it
   * open changes a read if and only if no batch is pending that it would see, or the batch already reads
   * the same there.
   */
  lemma SnapshotStableIff(st: State, s: nat)
    requires Inv(st) && s in st.snaps && st.nextTxn < NO_SNAPSHOT
    ensures StaysPut(st, s) <==> Undisturbed(st, s)
  {
    if Undisturbed(st, s) {
      forall steps, key | IsRun(st, steps) && KeepsOpen(steps, s) && HasRoom(st, steps)
        ensures Read(After(st, steps), key, s) == Read(st, key, s)
      {
        UndisturbedStays(st, steps, s, key);
      }
    } else {
      ApplyKeepsReadsIff(st, s);
      var steps := [Step.Apply];
      assert steps[1..] == [] && After(Next(st, Step.Apply), []) == Next(st, Step.Apply);
      assert IsRun(st, steps) && KeepsOpen(steps, s) && After(st, steps) == Next(st, Step.Apply);
    }
  }

  /**
   * So a snapshot just opened is stable exactly when no commit stands between publishing its id and writing
   * the memtable, or that commit writes what is read already.
   */
  lemma OpenSettlesIff(st: State)
    requires Inv(st) && st.nextTxn < NO_SNAPSHOT
    ensures StaysPut(Next(st, Open), st.committed)
            <==> (st.pending.None?
                  || forall w :: w in st.pending.value.writes ==> Read(st, w.key, st.committed) == Some(w.value))
  {
    SnapshotStableIff(Next(st, Open), st.committed);
    if st.pending.Some? {
      forall w | w in st.pending.value.writes
        ensures Read(Next(st, Open), w.key, st.committed) == Read(st, w.key, st.committed)
      {
        PendingKeepsReads(st, Open, w.key, st.committed);
      }
    }
  }

  /**
   * The registry is a set of ids. Two readers who open at one id share an entry, and when one of them closes
   * it the next write may take away what the other one read.
   */
  lemma SharedHandle(key: Key, first: Buf, second: Buf)
    ensures var steps, more := [Upsert(key, first), Open, Open], [Close(1), Upsert(key, second)];
            && IsRun(EMPTY, steps) && Read(After(EMPTY, steps), key, 1) == Some(first)
            && IsRun(After(EMPTY, steps), more) && Read(After(After(EMPTY, steps), more), key, 1) == None
  {
    var written := Next(EMPTY, Upsert(key, first));
    var held := Next(Next(written, Open), Open);
    FirstStep(Next(written, Open), Open, []);
    FirstStep(written, Open, [Open]);
    FirstStep(EMPTY, Upsert(key, first), [Open, Open]);
    assert [Open] + [Open] == [Open, Open] && [Upsert(key, first)] + [Open, Open] == [Upsert(key, first), Open, Open];
    assert [Open] + [] == [Open];
    assert written.mem[key] == [Version(1, first)] && held.snaps == {1};
    var freed := Next(held, Close(1));
    var closed := Next(freed, Upsert(key, second));
    FirstStep(freed, Upsert(key, second), []);
    FirstStep(held, Close(1), [Upsert(key, second)]);
    assert [Close(1)] + [Upsert(key, second)] == [Close(1), Upsert(key, second)];
    assert [Upsert(key, second)] + [] == [Upsert(key, second)];
    assert freed.snaps == {} && closed.mem[key] == [Version(2, second)] && closed.imm == [];
    assert [Version(2, second)][1..] == [];
    assert ReadAt(closed.mem[key], 1) == None;
    assert TableRead(closed.mem, key, 1) == None;
    assert Read(closed, key, 1) == None;
    assert After(EMPTY, [Upsert(key, first), Open, Open]) == held;
    assert After(held, [Close(1), Upsert(key, second)]) == After(freed, [Upsert(key, second)]);
    assert After(freed, [Upsert(key, second)]) == closed;
  }

  lemma FirstStep(st: State, step: Step, rest: seq<Step>)
    requires Enabled(st, step) && IsRun(Next(st, step), rest)
    ensures IsRun(st, [step] + rest) && After(st, [step] + rest) == After(Next(st, step), rest)
  {
    assert ([step] + rest)[1..] == rest;
  }

  /** Whatever happens once the entry of `s` is closed, each key reads at `s` what it reads now. */
  ghost predicate HarmlessToClose(st: State, s: nat)
  {
    forall steps, key :: IsRun(Next(st, Close(s)), steps) && HasRoom(st, steps) ==>
      Read(After(Next(st, Close(s)), steps), key, s) == Read(st, key, s)
  }

  /** What the memtable shows a reader at `s`, the queue shows it as well. */
  ghost predicate QueueShows(st: State, s: nat)
  {
    forall key {:trigger TableRead(st.mem, key, s)} :: TableRead(st.mem, key, s).Some? ==>
      ReadStack(st.imm, key, s) == TableRead(st.mem, key, s)
  }

  /** Later writes are newer than `s`, and each key reads at `s` what the queue shows. */
  ghost predicate Detached(st: State, s: nat)
  {
    && Inv(st) && s <= st.committed && (st.pending.Some? ==> st.pending.value.txn > s)
    && QueueShows(st, s)
  }

  /** Trimming takes a reader's version away or leaves it. */
  lemma {:induction false} TrimmedOrSame(vs: seq<Version>, oldest: nat, snapshot: nat)
    ensures ReadAt(Trimmed(vs, oldest), snapshot) in {None, ReadAt(vs, snapshot)}
  {
    if vs != [] && vs[0].txn > oldest {
      TrimmedOrSame(vs[1..], oldest, snapshot);
      assert Trimmed(vs, oldest)[1..] == Trimmed(vs[1..], oldest);
    }
  }

  /** So do newer writes. */
  lemma {:induction false} SetOrSame(t: VersionMap, writes: seq<Write>, txn: nat, oldest: nat, key: Key, snapshot: nat)
    requires txn > snapshot
    ensures TableRead(SetAll(t, writes, txn, oldest), key, snapshot) in {None, TableRead(t, key, snapshot)}
    decreases |writes|
  {
    if writes != [] {
      var k, value := writes[0].key, writes[0].value;
      var vs := [Version(txn, value)] + (if k in t then t[k] else []);
      assert vs[1..] == if k in t then t[k] else [];
      TrimmedOrSame(vs, oldest, snapshot);
      SetOrSame(TableSet(t, k, txn, value, oldest), writes[1..], txn, oldest, key, snapshot);
    }
  }

  lemma DetachedStep(st: State, step: Step, s: nat)
    requires Detached(st, s) && Enabled(st, step) && st.nextTxn < NO_SNAPSHOT
    ensures Detached(Next(st, step), s)
    ensures forall key :: Read(Next(st, step), key, s) == Read(st, key, s)
  {
    var st' := Next(st, step);
    if step.Rotate? {
      assert st'.imm[..|st'.imm| - 1] == st.imm;
    }
    forall key
      ensures TableRead(st'.mem, key, s).Some? ==> ReadStack(st'.imm, key, s) == TableRead(st'.mem, key, s)
      ensures Read(st', key, s) == Read(st, key, s)
    {
      assert TableRead(st.mem, key, s).Some? ==> ReadStack(st.imm, key, s) == TableRead(st.mem, key, s);
      match step {
        case Upsert(k, v) => SetOrSame(st.mem, [Write(k, v)], st.nextTxn, Oldest(st.snaps), key, s);
        case Apply => SetOrSame(st.mem, st.pending.value.writes, st.pending.value.txn, Oldest(st.snaps), key, s);
        case _ =>
      }
    }
  }

  lemma {:induction false} DetachedStays(st: State, steps: seq<Step>, s: nat, key: Key)
    requires Detached(st, s) && IsRun(st, steps) && HasRoom(st, steps)
    ensures Read(After(st, steps), key, s) == Read(st, key, s)
    decreases |steps|
  {
    if steps != [] {
      DetachedStep(st, steps[0], s);
      DetachedStays(Next(st, steps[0]), steps[1..], s, key);
    }
  }

  /** A run that closes every snapshot and then goes on. */
  lemma {:induction false} CloseAll(st: State, rest: seq<Step>) returns (steps: seq<Step>)
    requires IsRun(st.(snaps := {}), rest)
    ensures IsRun(st, steps) && After(st, steps) == After(st.(snaps := {}), rest)
    ensures |steps| == |st.snaps| + |rest|
    decreases |st.snaps|
  {
    if st.snaps == {} {
      assert st == st.(snaps := {});
      steps := rest;
    } else {
      var s :| s in st.snaps;
      var next := Next(st, Close(s));
      assert next.(snaps := {}) == st.(snaps := {});
      var tail := CloseAll(next, rest);
      FirstStep(st, Close(s), tail);
      steps := [Step.Close(s)] + tail;
    }
  }

  /** With no snapshot left, rewriting a key takes its older versions out of the memtable. */
  lemma RewriteTakesAway(st: State, key: Key, s: nat) returns (steps: seq<Step>)
    requires Inv(st) && st.snaps == {} && s <= st.committed && st.nextTxn < NO_SNAPSHOT
    ensures IsRun(st, steps) && |steps| <= 2 && Read(After(st, steps), key, s) == ReadStack(st.imm, key, s)
  {
    var applied := if st.pending.Some? then Next(st, Apply) else st;
    var written := Next(applied, Upsert(key, []));
    var vs := [Version(st.nextTxn, [])] + if key in applied.mem then applied.mem[key] else [];
    assert Trimmed(vs, NO_SNAPSHOT) == [Version(st.nextTxn, [])];
    assert [Version(st.nextTxn, [])][1..] == [];
    assert TableRead(written.mem, key, s) == ReadAt([Version(st.nextTxn, [])], s) == None;
    steps := [Step.Upsert(key, [])];
    FirstStep(applied, Upsert(key, []), []);
    assert [Step.Upsert(key, [])] + [] == steps;
    if st.pending.Some? {
      FirstStep(st, Apply, steps);
      steps := [Step.Apply] + steps;
    }
  }

  /**
   * When sharing is harmless, exactly. Closing the entry of `s` changes nothing for another reader at `s`, in any
   * run that follows, if and only if the immutable queue already shows whatever the memtable shows at `s`.
   */
  lemma CloseIsHarmlessIff(st: State, s: nat)
    requires Inv(st) && Settled(st, s) && st.nextTxn + |st.snaps| + 1 <= NO_SNAPSHOT
    ensures HarmlessToClose(st, s) <==> QueueShows(st, s)
  {
    var closed := Next(st, Close(s));
    if QueueShows(st, s) {
      forall steps, key | IsRun(closed, steps) && HasRoom(st, steps)
        ensures Read(After(closed, steps), key, s) == Read(st, key, s)
      {
        assert Detached(closed, s);
        DetachedStays(closed, steps, s, key);
      }
    } else {
      var key :| TableRead(st.mem, key, s).Some? && ReadStack(st.imm, key, s) != TableRead(st.mem, key, s);
      var rest := RewriteTakesAway(closed.(snaps := {}), key, s);
      var steps := CloseAll(closed, rest);
      assert Read(After(closed, steps), key, s) != Read(st, key, s);
    }
  }

  /**
   * A run in which a snapshot moves: it is opened after a commit publishes its id and before the
   * commit's write reaches the memtable, so the write appears under it.
   */
  lemma TornSnapshot(key: Key, value: Buf)
    ensures var torn := After(EMPTY, [Publish([Write(key, value)]), Open]);
            && Inv(torn) && 1 in torn.snaps && !Settled(torn, 1)
            && Read(torn, key, 1) == None
            && Read(Next(torn, Apply), key, 1) == Some(value)
  {
    var w := [Write(key, value)];
    var steps := [Publish(w), Open];
    var published := Next(EMPTY, steps[0]);
    var torn := Next(published, Open);
    assert steps[1..] == [Open] && steps[1..][1..] == [];
    assert After(EMPTY, steps) == After(published, steps[1..]) == After(torn, []) == torn;
    assert torn.mem == map[] && torn.imm == [] && torn.snaps == {1};
    SetAllRead(torn.mem, w, 1, Oldest(torn.snaps), key, 1);
    assert w[0] in w;
  }
}

/** The collection object itself: its fields change in place exactly as the runs above describe. */
module Collection {
  import opened Keys
  import opened Options
  import opened Versions
  import opened Memtable
  import opened Registry
  import opened SnapshotRuns

  class NovaCollection {
    var memtable: SortedMemtable
    var immutableQueue: seq<SortedMemtable>
    const registry: SnapshotRegistry
    var nextTxnId: nat
    var committedTxnId: nat
    /** The commit between its WAL flush and its writes to the memtable, if there is one. */
    var committing: Option<Batch>

    ghost function Repr(): set<object>
      reads this
    {
      {this, memtable, registry} + set m | m in immutableQueue
    }

    ghost predicate Valid()
      reads this, Repr()
    {
      && memtable.Valid()
      && memtable !in immutableQueue
      && forall i :: 0 <= i < |immutableQueue| ==> immutableQueue[i].Valid()
    }

    ghost function Abs(): State
      reads this, Repr()
      requires Valid()
    {
      State(memtable.Contents(), Tables(immutableQueue), registry.snapshots, nextTxnId, committedTxnId, committing)
    }

    static ghost function Tables(queue: seq<SortedMemtable>): (ts: seq<VersionMap>)
      reads queue
      requires forall i :: 0 <= i < |queue| ==> queue[i].Valid()
      ensures |ts| == |queue|
      ensures forall i :: 0 <= i < |queue| ==> ts[i] == queue[i].Contents()
    {
      seq(|queue|, i requires 0 <= i < |queue| && queue[i].Valid() reads queue => queue[i].Contents())
    }

    constructor ()
      ensures Valid() && fresh(Repr()) && Abs() == EMPTY
    {
      memtable := new SortedMemtable();
      immutableQueue := [];
      registry := new SnapshotRegistry();
      nextTxnId, committedTxnId, committing := 1, 0, None;
    }

    method Upsert(key: Key, value: Buf)
      requires Valid() && Enabled(Abs(), Step.Upsert(key, value))
      modifies this, memtable
      ensures Valid() && Abs() == Next(old(Abs()), Step.Upsert(key, value))
    {
      var txnId := TakeTxnId();
      var oldest := registry.OldestOpen();
      memtable.Set(key, txnId, value, oldest);
    }

    /** The next transaction id, which is the committed one from now on. */
    method TakeTxnId() returns (txnId: nat)
      modifies `nextTxnId, `committedTxnId
      ensures txnId == old(nextTxnId) && nextTxnId == txnId + 1 && committedTxnId == Max(txnId, old(committedTxnId))
    {
      txnId := nextTxnId;
      nextTxnId := nextTxnId + 1;
      committedTxnId := if txnId > committedTxnId then txnId else committedTxnId;
    }

    /** The first half of `commit`: the id becomes the committed one once the WAL is flushed. */
    method Publish(writes: seq<Write>)
      requires Valid() && Enabled(Abs(), Step.Publish(writes))
      modifies this
      ensures Valid() && Abs() == Next(old(Abs()), Step.Publish(writes))
    {
      var txnId := nextTxnId;
      nextTxnId := nextTxnId + 1;
      committing := Some(Batch(txnId, writes));
      committedTxnId := if txnId > committedTxnId then txnId else committedTxnId;
    }

    /** The second half of `commit`: after shipping to the replicas, the writes enter the memtable. */
    method Apply()
      requires Valid() && Enabled(Abs(), Step.Apply)
      modifies this, memtable
      ensures Valid() && Abs() == Next(old(Abs()), Step.Apply)
    {
      var oldest := registry.OldestOpen();
      WriteAll(memtable, committing.value.writes, committing.value.txn, oldest);
      committing := None;
    }

    static method WriteAll(mem: SortedMemtable, writes: seq<Write>, txn: nat, oldest: nat)
      requires mem.Valid()
      modifies mem
      ensures mem.Valid() && mem.Contents() == SetAll(old(mem.Contents()), writes, txn, oldest)
    {
      var i := 0;
      while i < |writes|
        invariant 0 <= i <= |writes| && mem.Valid()
        invariant SetAll(mem.Contents(), writes[i..], txn, oldest) == SetAll(old(mem.Contents()), writes, txn, oldest)
      {
        assert writes[i..][0] == writes[i] && writes[i..][1..] == writes[i + 1..];
        mem.Set(writes[i].key, txn, writes[i].value, oldest);
        i := i + 1;
      }
    }

    method OpenSnapshot() returns (snapshot: nat)
      requires Valid()
      modifies registry
      ensures Valid() && Abs() == Next(old(Abs()), Open) && snapshot == committedTxnId
    {
      snapshot := registry.Open(committedTxnId);
    }

    method CloseSnapshot(snapshot: nat)
      requires Valid()
      modifies registry
      ensures Valid() && Abs() == Next(old(Abs()), Close(snapshot))
    {
      registry.Close(snapshot);
    }

    /** The synchronous start of a background flush: the memtable joins the immutable queue. */
    method Rotate()
      requires Valid()
      modifies this
      ensures Valid() && Abs() == Next(old(Abs()), Step.Rotate)
      ensures immutableQueue == old(immutableQueue) + [old(memtable)] && fresh(memtable)
    {
      var toFlush := memtable;
      memtable := new SortedMemtable();
      immutableQueue := immutableQueue + [toFlush];
    }

    method Get(key: Key, snapshot: nat) returns (r: Option<Buf>)
      requires Valid()
      ensures r == Read(Abs(), key, snapshot)
    {
      r := memtable.Get(key, snapshot);
      if r.None? {
        r := GetImmutable(immutableQueue, Tables(immutableQueue), key, snapshot);
      }
    }

    static method GetImmutable(queue: seq<SortedMemtable>, ghost tables: seq<VersionMap>, key: Key, snapshot: nat)
      returns (r: Option<Buf>)
      requires |tables| == |queue|
      requires forall i :: 0 <= i < |queue| ==> queue[i].Valid() && queue[i].Contents() == tables[i]
      ensures r == ReadStack(tables, key, snapshot)
    {
      r := None;
      var i := |queue|;
      assert tables[..i] == tables;
      while i > 0
        invariant 0 <= i <= |queue| && r == None
        invariant ReadStack(tables, key, snapshot) == ReadStack(tables[..i], key, snapshot)
      {
        i := i - 1;
        r := queue[i].Get(key, snapshot);
        ReadStackTop(tables, i, key, snapshot);
        if r.Some? {
          return;
        }
      }
    }
  }

  lemma ReadStackTop(imm: seq<VersionMap>, i: nat, key: Key, snapshot: nat)
    requires i < |imm|
    ensures ReadStack(imm[..i + 1], key, snapshot)
            == var top := TableRead(imm[i], key, snapshot);
               if top.Some? then top else ReadStack(imm[..i], key, snapshot)
  {
    assert imm[..i + 1][..i] == imm[..i];
  }
}
