/** What a primary ships for its transactions, and what a replica makes of it. */
module Replication {
  import opened Keys
  import opened Options
  import opened Versions
  import opened Memtable
  import opened SnapshotRuns
  import opened Frames

  type Decoder = Buf -> Key

  datatype Replica = Replica(
    mem: VersionMap,
    committed: nat,
    nextTxn: nat,
    seen: set<nat>,
    buffers: map<nat, seq<WalRecord>>)

  ghost const NEW_REPLICA: Replica := Replica(map[], 0, 1, {}, map[])

  const MAX_SEEN: nat := 10_000
  const KEPT_BEHIND: nat := 5000

  /** The positions remembered once `lsn` is: all of them, or when there are too many the recent ones. */
  ghost function Remembered(seen: set<nat>, lsn: nat): set<nat>
  {
    var all := seen + {lsn};
    if |all| > MAX_SEEN then set l | l in all && l + KEPT_BEHIND >= lsn else all
  }

  function WritesOf(rs: seq<WalRecord>, decode: Decoder): (ws: seq<Write>)
    ensures |ws| == |rs|
  {
    seq(|rs|, i requires 0 <= i < |rs| => Write(decode(rs[i].keyBuf), rs[i].docBuf))
  }

  /** `applyReplicaWrites`: all the writes of one transaction, and then it counts as committed. */
  ghost function Applied(st: Replica, rs: seq<WalRecord>, txn: nat, decode: Decoder, oldest: nat): Replica
  {
    st.(mem := SetAll(st.mem, WritesOf(rs, decode), txn, oldest),
        committed := Max(txn, st.committed),
        nextTxn := Max(txn + 1, st.nextTxn))
  }

  function Buffered(buffers: map<nat, seq<WalRecord>>, txn: nat): seq<WalRecord>
  {
    if txn in buffers then buffers[txn] else []
  }

  /** `applyReplicaRecord`. */
  ghost function Received(st: Replica, r: WalRecord, decode: Decoder, oldest: nat): Replica
  {
    if r.lsn in st.seen then st
    else
      var st1 := st.(seen := Remembered(st.seen, r.lsn));
      var txn, size, idx := Or(r.txnId, r.lsn), Or(r.batchSize, 1), Or(r.batchIndex, 1);
      var buf := Buffered(st.buffers, txn) + [r];
      if size == 1 then Applied(st1, [r], txn, decode, oldest)
      else if idx == size then Applied(st1.(buffers := st.buffers - {txn}), buf, txn, decode, oldest)
      else st1.(buffers := st.buffers[txn := buf])
  }

  class ReplicaCollection {
    const memtable: SortedMemtable
    var committedTxnId: nat
    var nextTxnId: nat
    var replicaSeenLsns: set<nat>
    var replicaTxnBuffer: map<nat, seq<WalRecord>>

    constructor ()
      ensures Valid() && State() == NEW_REPLICA && fresh(memtable)
    {
      memtable := new SortedMemtable();
      committedTxnId, nextTxnId, replicaSeenLsns, replicaTxnBuffer := 0, 1, {}, map[];
    }

    ghost predicate Valid()
      reads this, memtable
    {
      memtable.Valid()
    }

    ghost function State(): Replica
      requires Valid()
      reads this, memtable
    {
      Replica(memtable.Contents(), committedTxnId, nextTxnId, replicaSeenLsns, replicaTxnBuffer)
    }

    method ApplyReplicaRecord(r: WalRecord, decode: Decoder, oldest: nat)
      requires Valid()
      modifies this, memtable
      ensures Valid() && State() == Received(old(State()), r, decode, oldest)
    {
      if r.lsn in replicaSeenLsns {
        return;
      }
      Remember(r.lsn);
      var txnId, batchSz, batchIdx := Or(r.txnId, r.lsn), Or(r.batchSize, 1), Or(r.batchIndex, 1);
      if batchSz == 1 {
        ApplyReplicaWrites([r], txnId, decode, oldest);
        return;
      }
      var buf := (if txnId in replicaTxnBuffer then replicaTxnBuffer[txnId] else []) + [r];
      if batchIdx == batchSz {
        replicaTxnBuffer := replicaTxnBuffer - {txnId};
        ApplyReplicaWrites(buf, txnId, decode, oldest);
      } else {
        replicaTxnBuffer := replicaTxnBuffer[txnId := buf];
      }
    }

    method Remember(lsn: nat)
      modifies `replicaSeenLsns
      ensures replicaSeenLsns == Remembered(old(replicaSeenLsns), lsn)
    {
      replicaSeenLsns := replicaSeenLsns + {lsn};
      if |replicaSeenLsns| > MAX_SEEN {
        var all, todo := replicaSeenLsns, replicaSeenLsns;
        while todo != {}
          invariant todo <= all
          invariant replicaSeenLsns == set l | l in all && (l in todo || l + KEPT_BEHIND >= lsn)
          decreases todo
        {
          var l :| l in todo;
          if l < lsn - KEPT_BEHIND {
            replicaSeenLsns := replicaSeenLsns - {l};
          }
          todo := todo - {l};
        }
      }
    }

    method ApplyReplicaWrites(rs: seq<WalRecord>, txnId: nat, decode: Decoder, oldest: nat)
      requires Valid()
      modifies memtable, `committedTxnId, `nextTxnId
      ensures Valid() && State() == Applied(old(State()), rs, txnId, decode, oldest)
    {
      var i := 0;
      ghost var writes := WritesOf(rs, decode);
      while i < |rs|
        invariant 0 <= i <= |rs| && Valid()
        invariant committedTxnId == old(committedTxnId) && nextTxnId == old(nextTxnId)
        invariant SetAll(memtable.Contents(), writes[i..], txnId, oldest)
                  == SetAll(old(memtable.Contents()), writes, txnId, oldest)
      {
        assert writes[i..][0] == writes[i] && writes[i..][1..] == writes[i + 1..];
        memtable.Set(decode(rs[i].keyBuf), txnId, rs[i].docBuf, oldest);
        i := i + 1;
      }
      if txnId > committedTxnId {
        committedTxnId := txnId;
      }
      if txnId >= nextTxnId {
        nextTxnId := txnId + 1;
      }
    }
  }

  /** A primary's transactions, oldest first: the first has id 1. */
  type Transactions = seq<seq<Write>>

  ghost predicate WellFormedTxns(ts: Transactions)
  {
    forall k :: 0 <= k < |ts| ==> ts[k] != [] && DistinctKeys(ts[k])
  }

  /** How many records precede transaction `k`. */
  ghost function Offset(ts: Transactions, k: nat): nat
    requires k <= |ts|
  {
    if k == 0 then 0 else Offset(ts, k - 1) + |ts[k - 1]|
  }

  /** What the primary ships for write `j` of transaction `k`. */
  ghost function Shipped(ts: Transactions, k: nat, j: nat, encode: Key -> Buf): WalRecord
    requires k < |ts| && j < |ts[k]|
  {
    WalRecord(Offset(ts, k) + j, Some(k + 1), Some(|ts[k]|), Some(j + 1), encode(ts[k][j].key), ts[k][j].value)
  }

  ghost function ShippedTo(ts: Transactions, k: nat, j: nat, encode: Key -> Buf): (rs: seq<WalRecord>)
    requires k < |ts| && j <= |ts[k]|
    ensures |rs| == j
  {
    seq(j, i requires 0 <= i < j => Shipped(ts, k, i, encode))
  }

  /** The documents of the primary after its first `k` transactions. */
  ghost function PrimaryAfter(ts: Transactions, k: nat): map<Key, Buf>
    requires k <= |ts|
  {
    if k == 0 then map[] else PutAll(PrimaryAfter(ts, k - 1), ts[k - 1])
  }

  function LookUp(docs: map<Key, Buf>, key: Key): Option<Buf>
  {
    if key in docs then Some(docs[key]) else None
  }

  /** The replica's latest reads are those of the primary after `k` transactions. */
  ghost predicate ReadsAs(st: Replica, docs: map<Key, Buf>)
  {
    Committed(st.mem, st.committed) && forall key :: TableRead(st.mem, key, st.committed) == LookUp(docs, key)
  }

  ghost predicate SeenTo(seen: set<nat>, n: nat)
  {
    && (forall l :: l in seen ==> l < n)
    && forall l: nat :: l < n && l + KEPT_BEHIND + 1 >= n ==> l in seen
  }

  /**
   * The replica after the records of the first `k` transactions and `j` of the next: it reads as the
   * primary did after the `k`, and holds the `j` back.
   */
  ghost predicate InStep(st: Replica, ts: Transactions, k: nat, j: nat, encode: Key -> Buf)
  {
    && k <= |ts| && (if k == |ts| then j == 0 else j < |ts[k]|)
    && st.committed == k && st.nextTxn == k + 1
    && ReadsAs(st, PrimaryAfter(ts, k))
    && st.buffers == (if j == 0 then map[] else map[k + 1 := ShippedTo(ts, k, j, encode)])
    && SeenTo(st.seen, Offset(ts, k) + j)
  }

  /** Every key the primary writes survives its encoding. */
  ghost predicate Inverse(ts: Transactions, encode: Key -> Buf, decode: Decoder)
  {
    forall k, j :: 0 <= k < |ts| && 0 <= j < |ts[k]| ==> decode(encode(ts[k][j].key)) == ts[k][j].key
  }

  lemma SeenNext(seen: set<nat>, n: nat)
    requires SeenTo(seen, n)
    ensures n !in seen && SeenTo(Remembered(seen, n), n + 1)
  {
  }

  /** A whole transaction set in memory reads as it does in the plain map. */
  lemma ReadsNext(mem: VersionMap, docs: map<Key, Buf>, writes: seq<Write>, committed: nat, txn: nat, oldest: nat)
    requires Committed(mem, committed) && txn > committed && DistinctKeys(writes)
    requires forall key :: TableRead(mem, key, committed) == LookUp(docs, key)
    ensures Committed(SetAll(mem, writes, txn, oldest), txn)
    ensures forall key :: TableRead(SetAll(mem, writes, txn, oldest), key, txn) == LookUp(PutAll(docs, writes), key)
  {
    SetAllKeepsCommitted(mem, writes, txn, oldest);
    forall key ensures TableRead(SetAll(mem, writes, txn, oldest), key, txn) == LookUp(PutAll(docs, writes), key) {
      SetAllRead(mem, writes, txn, oldest, key, txn);
      PutAllHas(docs, writes, key);
      CommittedRead(mem, committed, key, txn);
      CommittedRead(mem, committed, key, committed);
      if w :| w in writes && w.key == key {
      } else {
        assert TableRead(mem, key, committed) == LookUp(docs, key);
      }
    }
  }

  lemma ShippedWrites(ts: Transactions, k: nat, encode: Key -> Buf, decode: Decoder)
    requires k < |ts| && Inverse(ts, encode, decode)
    ensures WritesOf(ShippedTo(ts, k, |ts[k]|, encode), decode) == ts[k]
  {
    var ws := WritesOf(ShippedTo(ts, k, |ts[k]|, encode), decode);
    forall i | 0 <= i < |ts[k]| ensures ws[i] == ts[k][i] {
      assert decode(encode(ts[k][i].key)) == ts[k][i].key;
    }
  }

  /** The last record of a transaction: now, and only now, its writes are read. */
  lemma LastRecord(st: Replica, ts: Transactions, k: nat, encode: Key -> Buf, decode: Decoder, oldest: nat)
    requires WellFormedTxns(ts) && Inverse(ts, encode, decode)
    requires k < |ts| && InStep(st, ts, k, |ts[k]| - 1, encode)
    ensures InStep(Received(st, Shipped(ts, k, |ts[k]| - 1, encode), decode, oldest), ts, k + 1, 0, encode)
  {
    var r := Shipped(ts, k, |ts[k]| - 1, encode);
    SeenNext(st.seen, r.lsn);
    LastApplies(st, ts, k, encode, decode, oldest);
    AppliedInStep(st, Remembered(st.seen, r.lsn), ts, k, encode, decode, oldest);
  }

  lemma AppliedInStep(st: Replica, seen: set<nat>, ts: Transactions, k: nat, encode: Key -> Buf, decode: Decoder,
                      oldest: nat)
    requires WellFormedTxns(ts) && Inverse(ts, encode, decode) && k < |ts|
    requires InStep(st, ts, k, |ts[k]| - 1, encode) && SeenTo(seen, Offset(ts, k + 1))
    ensures InStep(Applied(st.(seen := seen, buffers := map[]), ShippedTo(ts, k, |ts[k]|, encode), k + 1, decode,
                           oldest),
                   ts, k + 1, 0, encode)
  {
    AppliedReads(st.mem, ts, k, encode, decode, oldest);
  }

  lemma AppliedReads(mem: VersionMap, ts: Transactions, k: nat, encode: Key -> Buf, decode: Decoder, oldest: nat)
    requires WellFormedTxns(ts) && Inverse(ts, encode, decode) && k < |ts| && Committed(mem, k)
    requires forall key :: TableRead(mem, key, k) == LookUp(PrimaryAfter(ts, k), key)
    ensures var writes := WritesOf(ShippedTo(ts, k, |ts[k]|, encode), decode);
            var after, docs, snapshot := SetAll(mem, writes, k + 1, oldest), PrimaryAfter(ts, k + 1), k + 1;
            Committed(after, snapshot) && forall key :: TableRead(after, key, snapshot) == LookUp(docs, key)
  {
    ShippedWrites(ts, k, encode, decode);
    ReadsNext(mem, PrimaryAfter(ts, k), ts[k], k, k + 1, oldest);
  }

  lemma LastApplies(st: Replica, ts: Transactions, k: nat, encode: Key -> Buf, decode: Decoder, oldest: nat)
    requires k < |ts| && |ts[k]| > 0 && InStep(st, ts, k, |ts[k]| - 1, encode)
    requires Offset(ts, k) + |ts[k]| - 1 !in st.seen
    ensures var r := Shipped(ts, k, |ts[k]| - 1, encode);
            Received(st, r, decode, oldest) ==
            Applied(st.(seen := Remembered(st.seen, r.lsn), buffers := map[]), ShippedTo(ts, k, |ts[k]|, encode), k + 1,
                    decode, oldest)
  {
    var r := Shipped(ts, k, |ts[k]| - 1, encode);
    assert Buffered(st.buffers, k + 1) + [r] == ShippedTo(ts, k, |ts[k]|, encode);
    assert st.buffers - {k + 1} == map[];
    assert |ts[k]| == 1 ==> [r] == ShippedTo(ts, k, 1, encode);
  }

  lemma MiddleRecord(st: Replica, ts: Transactions, k: nat, j: nat, encode: Key -> Buf, decode: Decoder, oldest: nat)
    requires k < |ts| && j + 1 < |ts[k]| && InStep(st, ts, k, j, encode)
    ensures InStep(Received(st, Shipped(ts, k, j, encode), decode, oldest), ts, k, j + 1, encode)
    ensures Received(st, Shipped(ts, k, j, encode), decode, oldest).mem == st.mem
  {
    var r := Shipped(ts, k, j, encode);
    SeenNext(st.seen, r.lsn);
    var buf := Buffered(st.buffers, k + 1) + [r];
    assert buf == ShippedTo(ts, k, j + 1, encode);
    assert st.buffers[k + 1 := buf] == map[k + 1 := buf];
  }

  /**
   * What reaches the replica: the next record, or again one whose position it remembers. With it goes the
   * oldest snapshot open on the replica at the time.
   */
  datatype Delivery = Next(oldest: nat) | Again(k: nat, j: nat, oldest: nat)

  datatype Progress = Progress(st: Replica, k: nat, j: nat)

  ghost const START: Progress := Progress(NEW_REPLICA, 0, 0)

  ghost predicate CanDeliver(p: Progress, ts: Transactions, d: Delivery)
  {
    match d
    case Next(_) => p.k < |ts| && p.j < |ts[p.k]|
    case Again(k, j, _) => k < |ts| && j < |ts[k]| && Offset(ts, k) + j in p.st.seen
  }

  ghost function Deliver(p: Progress, ts: Transactions, d: Delivery, encode: Key -> Buf, decode: Decoder): Progress
    requires CanDeliver(p, ts, d)
  {
    match d
    case Next(oldest) =>
      var st := Received(p.st, Shipped(ts, p.k, p.j, encode), decode, oldest);
      if p.j + 1 == |ts[p.k]| then Progress(st, p.k + 1, 0) else Progress(st, p.k, p.j + 1)
    case Again(k, j, oldest) =>
      p.(st := Received(p.st, Shipped(ts, k, j, encode), decode, oldest))
  }

  ghost predicate IsDelivery(p: Progress, ts: Transactions, ds: seq<Delivery>, encode: Key -> Buf, decode: Decoder)
    decreases |ds|
  {
    ds == [] || (CanDeliver(p, ts, ds[0]) &&
                 IsDelivery(Deliver(p, ts, ds[0], encode, decode), ts, ds[1..], encode, decode))
  }

  ghost function DeliverAll(p: Progress, ts: Transactions, ds: seq<Delivery>, encode: Key -> Buf, decode: Decoder)
    : Progress
    requires IsDelivery(p, ts, ds, encode, decode)
    decreases |ds|
  {
    if ds == [] then p else DeliverAll(Deliver(p, ts, ds[0], encode, decode), ts, ds[1..], encode, decode)
  }

  lemma DeliverKeeps(p: Progress, ts: Transactions, d: Delivery, encode: Key -> Buf, decode: Decoder)
    requires WellFormedTxns(ts) && Inverse(ts, encode, decode) && CanDeliver(p, ts, d)
    requires InStep(p.st, ts, p.k, p.j, encode)
    ensures var q := Deliver(p, ts, d, encode, decode); InStep(q.st, ts, q.k, q.j, encode)
  {
    if d.Next? {
      if p.j + 1 == |ts[p.k]| {
        LastRecord(p.st, ts, p.k, encode, decode, d.oldest);
      } else {
        MiddleRecord(p.st, ts, p.k, p.j, encode, decode, d.oldest);
      }
    }
  }

  lemma {:induction false} DeliveriesKeep(p: Progress, ts: Transactions, ds: seq<Delivery>, encode: Key -> Buf,
                                          decode: Decoder)
    requires WellFormedTxns(ts) && Inverse(ts, encode, decode) && InStep(p.st, ts, p.k, p.j, encode)
    requires IsDelivery(p, ts, ds, encode, decode)
    ensures var q := DeliverAll(p, ts, ds, encode, decode); InStep(q.st, ts, q.k, q.j, encode)
    decreases |ds|
  {
    if ds != [] {
      DeliverKeeps(p, ts, ds[0], encode, decode);
      DeliveriesKeep(Deliver(p, ts, ds[0], encode, decode), ts, ds[1..], encode, decode);
    }
  }

  /**
   * Replica atomicity. After any in-order part of what a primary shipped, with repeats of remembered
   * positions anywhere in it, the replica reads every key as the primary did after the last transaction
   * it has all of; of a transaction it has only part of, nothing can be read.
   */
  lemma ReplicaIsAtomic(ts: Transactions, ds: seq<Delivery>, encode: Key -> Buf, decode: Decoder)
    requires WellFormedTxns(ts) && Inverse(ts, encode, decode) && IsDelivery(START, ts, ds, encode, decode)
    ensures var q := DeliverAll(START, ts, ds, encode, decode);
            q.k <= |ts| && forall key :: TableRead(q.st.mem, key, q.st.committed) == LookUp(PrimaryAfter(ts, q.k), key)
  {
    DeliveriesKeep(START, ts, ds, encode, decode);
  }

  /** The snapshot is open on the replica while these arrive, and so bounds what they trim for. */
  predicate HeldOpen(ds: seq<Delivery>, snapshot: nat)
  {
    forall i :: 0 <= i < |ds| ==> ds[i].oldest <= snapshot
  }

  lemma AppliedKeepsSnapshot(mem: VersionMap, ts: Transactions, k: nat, encode: Key -> Buf, decode: Decoder,
                             oldest: nat, snapshot: nat, key: Key)
    requires WellFormedTxns(ts) && Inverse(ts, encode, decode) && k < |ts| && oldest <= snapshot <= k
    ensures var writes := WritesOf(ShippedTo(ts, k, |ts[k]|, encode), decode);
            TableRead(SetAll(mem, writes, k + 1, oldest), key, snapshot) == TableRead(mem, key, snapshot)
  {
    ShippedWrites(ts, k, encode, decode);
    SetAllRead(mem, ts[k], k + 1, oldest, key, snapshot);
  }

  /** A record that applies its transaction leaves older snapshots alone, if what it trims for is one no later. */
  lemma LastKeepsSnapshot(st: Replica, ts: Transactions, k: nat, encode: Key -> Buf, decode: Decoder, oldest: nat,
                          snapshot: nat, key: Key)
    requires WellFormedTxns(ts) && Inverse(ts, encode, decode)
    requires k < |ts| && InStep(st, ts, k, |ts[k]| - 1, encode) && oldest <= snapshot <= k
    ensures var r := Shipped(ts, k, |ts[k]| - 1, encode);
            TableRead(Received(st, r, decode, oldest).mem, key, snapshot) == TableRead(st.mem, key, snapshot)
  {
    LastApplies(st, ts, k, encode, decode, oldest);
    AppliedKeepsSnapshot(st.mem, ts, k, encode, decode, oldest, snapshot, key);
  }

  lemma DeliverKeepsSnapshot(p: Progress, ts: Transactions, d: Delivery, encode: Key -> Buf, decode: Decoder,
                             snapshot: nat, key: Key)
    requires WellFormedTxns(ts) && Inverse(ts, encode, decode) && CanDeliver(p, ts, d)
    requires InStep(p.st, ts, p.k, p.j, encode) && d.oldest <= snapshot <= p.k
    ensures snapshot <= Deliver(p, ts, d, encode, decode).k
    ensures TableRead(Deliver(p, ts, d, encode, decode).st.mem, key, snapshot) == TableRead(p.st.mem, key, snapshot)
  {
    if d.Next? {
      if p.j + 1 == |ts[p.k]| {
        LastKeepsSnapshot(p.st, ts, p.k, encode, decode, d.oldest, snapshot, key);
      } else {
        MiddleRecord(p.st, ts, p.k, p.j, encode, decode, d.oldest);
      }
    }
  }

  /** No delivery changes a read at a snapshot that is open on the replica. */
  lemma {:induction false} SnapshotKept(p: Progress, ts: Transactions, ds: seq<Delivery>, encode: Key -> Buf,
                                        decode: Decoder, snapshot: nat, key: Key)
    requires WellFormedTxns(ts) && Inverse(ts, encode, decode) && InStep(p.st, ts, p.k, p.j, encode)
    requires IsDelivery(p, ts, ds, encode, decode) && HeldOpen(ds, snapshot) && snapshot <= p.k
    ensures TableRead(DeliverAll(p, ts, ds, encode, decode).st.mem, key, snapshot)
            == TableRead(p.st.mem, key, snapshot)
    decreases |ds|
  {
    if ds != [] {
      var q := Deliver(p, ts, ds[0], encode, decode);
      DeliverKeeps(p, ts, ds[0], encode, decode);
      DeliverKeepsSnapshot(p, ts, ds[0], encode, decode, snapshot, key);
      SnapshotKept(q, ts, ds[1..], encode, decode, snapshot, key);
    }
  }

  /**
   * Snapshots on the replica. A reader who opens one after some deliveries goes on reading what the primary held
   * after the transactions received by then, whatever is delivered while the snapshot stays open.
   */
  lemma ReplicaSnapshotStable(ts: Transactions, ds: seq<Delivery>, more: seq<Delivery>, encode: Key -> Buf,
                              decode: Decoder, key: Key)
    requires WellFormedTxns(ts) && Inverse(ts, encode, decode) && IsDelivery(START, ts, ds, encode, decode)
    requires var p := DeliverAll(START, ts, ds, encode, decode);
             IsDelivery(p, ts, more, encode, decode) && HeldOpen(more, p.st.committed)
    ensures var p := DeliverAll(START, ts, ds, encode, decode);
            && p.k <= |ts| && p.st.committed == p.k
            && TableRead(DeliverAll(p, ts, more, encode, decode).st.mem, key, p.st.committed)
               == LookUp(PrimaryAfter(ts, p.k), key)
  {
    var p := DeliverAll(START, ts, ds, encode, decode);
    DeliveriesKeep(START, ts, ds, encode, decode);
    SnapshotKept(p, ts, more, encode, decode, p.k, key);
  }

  /** The record is one the primary shipped for transaction `a`. */
  ghost predicate IsOf(r: WalRecord, ts: Transactions, a: nat, encode: Key -> Buf)
    requires a < |ts|
  {
    exists j :: 0 <= j < |ts[a]| && r == Shipped(ts, a, j, encode)
  }

  ghost predicate AreOf(rs: seq<WalRecord>, ts: Transactions, a: nat, encode: Key -> Buf)
    requires a < |ts|
  {
    forall i :: 0 <= i < |rs| ==> IsOf(rs[i], ts, a, encode)
  }

  /** What is held back of transaction `a`, under its id. */
  ghost function HeldOf(buffers: map<nat, seq<WalRecord>>, a: nat): seq<WalRecord>
  {
    Buffered(buffers, a + 1)
  }

  /** What is held back of the first `k` transactions was shipped for them. */
  ghost predicate HoldsBack(buffers: map<nat, seq<WalRecord>>, ts: Transactions, k: nat, encode: Key -> Buf)
    requires k <= |ts|
  {
    forall a :: 0 <= a < k ==> AreOf(HeldOf(buffers, a), ts, a, encode)
  }

  /**
   * The replica reads as the primary after `k` transactions, and of those it may still hold records back:
   * repeats of records that are not the last of their transaction, whose positions it had forgotten.
   */
  ghost predicate CaughtUp(st: Replica, ts: Transactions, k: nat, encode: Key -> Buf)
  {
    k <= |ts| && st.committed == k && ReadsAs(st, PrimaryAfter(ts, k)) && HoldsBack(st.buffers, ts, k, encode)
  }

  lemma InStepIsCaughtUp(st: Replica, ts: Transactions, k: nat, j: nat, encode: Key -> Buf)
    requires InStep(st, ts, k, j, encode)
    ensures CaughtUp(st, ts, k, encode)
  {
    forall a | 0 <= a < k ensures AreOf(HeldOf(st.buffers, a), ts, a, encode) {
      assert HeldOf(st.buffers, a) == [];
    }
  }

  /** What the last record of a transaction brings with it: whatever is held back of it, and itself. */
  ghost function Batch(st: Replica, ts: Transactions, a: nat, encode: Key -> Buf): seq<WalRecord>
    requires a < |ts| && ts[a] != []
  {
    (if |ts[a]| == 1 then [] else HeldOf(st.buffers, a)) + [Shipped(ts, a, |ts[a]| - 1, encode)]
  }

  /** Each record holds the document the primary has for its key. */
  ghost predicate AllCurrent(docs: map<Key, Buf>, rs: seq<WalRecord>, decode: Decoder)
  {
    forall i :: 0 <= i < |rs| ==> LookUp(docs, decode(rs[i].keyBuf)) == Some(rs[i].docBuf)
  }

  /** A repeat changes no read: it is remembered, or not the last of its transaction, or brings only what is current. */
  ghost predicate IsHarmless(st: Replica, ts: Transactions, k: nat, a: nat, i: nat, encode: Key -> Buf, decode: Decoder)
    requires a < k <= |ts| && i < |ts[a]|
  {
    || Offset(ts, a) + i in st.seen
    || i + 1 < |ts[a]|
    || AllCurrent(PrimaryAfter(ts, k), Batch(st, ts, a, encode), decode)
  }

  ghost predicate SameReads(before: VersionMap, after: VersionMap, snapshot: nat)
  {
    forall key :: TableRead(after, key, snapshot) == TableRead(before, key, snapshot)
  }

  /** Writes that agree wherever they name one key. */
  ghost predicate Agreeing(ws: seq<Write>)
  {
    forall v, w :: v in ws && w in ws && v.key == w.key ==> v.value == w.value
  }

  lemma {:induction false} SetAgreeing(t: VersionMap, ws: seq<Write>, txn: nat, oldest: nat, key: Key, snapshot: nat)
    requires Agreeing(ws) && txn <= snapshot
    ensures (forall w :: w in ws ==> w.key != key) ==>
              TableRead(SetAll(t, ws, txn, oldest), key, snapshot) == TableRead(t, key, snapshot)
    ensures forall w :: w in ws && w.key == key ==>
              TableRead(SetAll(t, ws, txn, oldest), key, snapshot) == Some(w.value)
    decreases |ws|
  {
    if ws != [] {
      var next := TableSet(t, ws[0].key, txn, ws[0].value, oldest);
      SetThenRead(t, ws[0].key, txn, ws[0].value, oldest, key, snapshot);
      assert ws == [ws[0]] + ws[1..];
      SetAgreeing(next, ws[1..], txn, oldest, key, snapshot);
      if ws[0].key == key && exists w :: w in ws[1..] && w.key == key {
        var w :| w in ws[1..] && w.key == key;
        assert w.value == ws[0].value;
      }
    }
  }

  /** Records of one transaction hold one document for a key. */
  lemma BatchAgrees(rs: seq<WalRecord>, ts: Transactions, a: nat, encode: Key -> Buf, decode: Decoder)
    requires WellFormedTxns(ts) && Inverse(ts, encode, decode) && a < |ts| && AreOf(rs, ts, a, encode)
    ensures Agreeing(WritesOf(rs, decode))
  {
    var ws := WritesOf(rs, decode);
    forall v, w | v in ws && w in ws && v.key == w.key ensures v.value == w.value {
      var i :| 0 <= i < |rs| && ws[i] == v;
      var l :| 0 <= l < |rs| && ws[l] == w;
      assert IsOf(rs[i], ts, a, encode) && IsOf(rs[l], ts, a, encode);
      var j :| 0 <= j < |ts[a]| && rs[i] == Shipped(ts, a, j, encode);
      var m :| 0 <= m < |ts[a]| && rs[l] == Shipped(ts, a, m, encode);
      assert v == ts[a][j] && w == ts[a][m];
    }
  }

  /** Setting old writes again leaves the reads alone exactly when all of them are current. */
  lemma SetAgain(mem: VersionMap, docs: map<Key, Buf>, ws: seq<Write>, txn: nat, oldest: nat, snapshot: nat)
    requires Agreeing(ws) && txn <= snapshot && forall key :: TableRead(mem, key, snapshot) == LookUp(docs, key)
    ensures SameReads(mem, SetAll(mem, ws, txn, oldest), snapshot)
            <==> AreWritten(docs, ws)
    ensures Committed(mem, snapshot) ==> Committed(SetAll(mem, ws, txn, oldest), snapshot)
  {
    if Committed(mem, snapshot) {
      SetAllKeepsBound(mem, ws, txn, snapshot, oldest);
    }
    SetWritten(mem, docs, ws, txn, oldest, snapshot);
  }

  ghost predicate AreWritten(docs: map<Key, Buf>, ws: seq<Write>)
  {
    forall w :: w in ws ==> LookUp(docs, w.key) == Some(w.value)
  }

  lemma SetWritten(mem: VersionMap, docs: map<Key, Buf>, ws: seq<Write>, txn: nat, oldest: nat, snapshot: nat)
    requires Agreeing(ws) && txn <= snapshot && forall key :: TableRead(mem, key, snapshot) == LookUp(docs, key)
    ensures SameReads(mem, SetAll(mem, ws, txn, oldest), snapshot) <==> AreWritten(docs, ws)
  {
    var after := SetAll(mem, ws, txn, oldest);
    forall w | w in ws ensures TableRead(after, w.key, snapshot) == Some(w.value) {
      SetAgreeing(mem, ws, txn, oldest, w.key, snapshot);
    }
    forall key | forall w :: w in ws ==> w.key != key
      ensures TableRead(after, key, snapshot) == TableRead(mem, key, snapshot)
    {
      SetAgreeing(mem, ws, txn, oldest, key, snapshot);
    }
  }

  lemma CurrentWrites(docs: map<Key, Buf>, rs: seq<WalRecord>, decode: Decoder)
    ensures AllCurrent(docs, rs, decode) <==> AreWritten(docs, WritesOf(rs, decode))
  {
    var ws := WritesOf(rs, decode);
    forall i | 0 <= i < |rs| ensures ws[i] in ws && ws[i] == Write(decode(rs[i].keyBuf), rs[i].docBuf) {
    }
  }

  /**
   * A position no longer remembered is taken for new. That leaves every latest read alone exactly when the
   * repeat is harmless; and then the replica is still caught up, perhaps with one more record held back.
   */
  lemma RepeatIsHarmlessIff(st: Replica, ts: Transactions, k: nat, a: nat, i: nat, encode: Key -> Buf, decode: Decoder,
                            oldest: nat)
    requires WellFormedTxns(ts) && Inverse(ts, encode, decode) && CaughtUp(st, ts, k, encode)
    requires a < k && i < |ts[a]|
    ensures var after := Received(st, Shipped(ts, a, i, encode), decode, oldest);
            && after.committed == k
            && (SameReads(st.mem, after.mem, k) <==> IsHarmless(st, ts, k, a, i, encode, decode))
            && (IsHarmless(st, ts, k, a, i, encode, decode) ==> CaughtUp(after, ts, k, encode))
  {
    if Offset(ts, a) + i !in st.seen {
      if i + 1 < |ts[a]| {
        HeldBack(st, ts, k, a, i, encode, decode, oldest);
      } else {
        LastAgain(st, ts, k, a, encode, decode, oldest);
      }
    }
  }

  /** While the replica is in step nothing is held back; a repeat is harmless unless a forgotten last record. */
  lemma RepeatInStepIff(st: Replica, ts: Transactions, k: nat, j: nat, a: nat, i: nat, encode: Key -> Buf,
                        decode: Decoder, oldest: nat)
    requires WellFormedTxns(ts) && Inverse(ts, encode, decode) && InStep(st, ts, k, j, encode)
    requires a < k && i < |ts[a]|
    ensures var after := Received(st, Shipped(ts, a, i, encode), decode, oldest);
            SameReads(st.mem, after.mem, k)
            <==> (Offset(ts, a) + i in st.seen || i + 1 < |ts[a]|
                  || LookUp(PrimaryAfter(ts, k), ts[a][i].key) == Some(ts[a][i].value))
  {
    InStepIsCaughtUp(st, ts, k, j, encode);
    RepeatIsHarmlessIff(st, ts, k, a, i, encode, decode, oldest);
    assert decode(encode(ts[a][i].key)) == ts[a][i].key;
    assert HeldOf(st.buffers, a) == [];
    assert i + 1 == |ts[a]| ==> Batch(st, ts, a, encode) == [Shipped(ts, a, i, encode)];
  }

  /** A repeat that is not the last of its transaction is held back, behind any others. */
  lemma HeldBack(st: Replica, ts: Transactions, k: nat, a: nat, i: nat, encode: Key -> Buf, decode: Decoder,
                 oldest: nat)
    requires CaughtUp(st, ts, k, encode) && a < k && i + 1 < |ts[a]| && Offset(ts, a) + i !in st.seen
    ensures var after := Received(st, Shipped(ts, a, i, encode), decode, oldest);
            && after.mem == st.mem && CaughtUp(after, ts, k, encode)
            && HeldOf(after.buffers, a) == HeldOf(st.buffers, a) + [Shipped(ts, a, i, encode)]
  {
    var r := Shipped(ts, a, i, encode);
    assert IsOf(r, ts, a, encode);
    HoldsOneMore(st.buffers, ts, k, a, r, encode);
    MiddleHeld(st, ts, a, i, encode, decode, oldest);
  }

  lemma MiddleHeld(st: Replica, ts: Transactions, a: nat, i: nat, encode: Key -> Buf, decode: Decoder, oldest: nat)
    requires a < |ts| && i + 1 < |ts[a]| && Offset(ts, a) + i !in st.seen
    ensures var r := Shipped(ts, a, i, encode);
            Received(st, r, decode, oldest)
            == st.(seen := Remembered(st.seen, r.lsn), buffers := st.buffers[a + 1 := HeldOf(st.buffers, a) + [r]])
  {
  }

  lemma HoldsOneMore(buffers: map<nat, seq<WalRecord>>, ts: Transactions, k: nat, a: nat, r: WalRecord,
                     encode: Key -> Buf)
    requires a < k <= |ts| && HoldsBack(buffers, ts, k, encode) && IsOf(r, ts, a, encode)
    ensures AreOf(HeldOf(buffers, a) + [r], ts, a, encode)
    ensures HoldsBack(buffers[a + 1 := HeldOf(buffers, a) + [r]], ts, k, encode)
    ensures HoldsBack(buffers - {a + 1}, ts, k, encode)
  {
    var more, less := buffers[a + 1 := HeldOf(buffers, a) + [r]], buffers - {a + 1};
    assert AreOf(HeldOf(buffers, a), ts, a, encode);
    forall b | 0 <= b < k
      ensures AreOf(HeldOf(more, b), ts, b, encode) && AreOf(HeldOf(less, b), ts, b, encode)
    {
      assert AreOf(HeldOf(buffers, b), ts, b, encode);
    }
  }

  lemma LastAgain(st: Replica, ts: Transactions, k: nat, a: nat, encode: Key -> Buf, decode: Decoder, oldest: nat)
    requires WellFormedTxns(ts) && Inverse(ts, encode, decode) && CaughtUp(st, ts, k, encode) && a < k
    requires Offset(ts, a) + |ts[a]| - 1 !in st.seen
    ensures var after := Received(st, Shipped(ts, a, |ts[a]| - 1, encode), decode, oldest);
            && after.committed == k
            && (SameReads(st.mem, after.mem, k)
                <==> AllCurrent(PrimaryAfter(ts, k), Batch(st, ts, a, encode), decode))
            && (SameReads(st.mem, after.mem, k) ==> CaughtUp(after, ts, k, encode))
  {
    var rs, last := Batch(st, ts, a, encode), Shipped(ts, a, |ts[a]| - 1, encode);
    assert IsOf(last, ts, a, encode);
    HoldsOneMore(st.buffers, ts, k, a, last, encode);
    var rest := LastBrings(st, ts, a, encode, decode, oldest);
    AppliedAgain(st.mem, ts, k, a, rs, encode, decode, oldest);
  }

  /** The last record of a transaction applies its batch, and nothing of it is held back any more. */
  lemma LastBrings(st: Replica, ts: Transactions, a: nat, encode: Key -> Buf, decode: Decoder, oldest: nat)
    returns (rest: map<nat, seq<WalRecord>>)
    requires a < |ts| && ts[a] != [] && Offset(ts, a) + |ts[a]| - 1 !in st.seen
    ensures rest == st.buffers || rest == st.buffers - {a + 1}
    ensures var last := Shipped(ts, a, |ts[a]| - 1, encode);
            Received(st, last, decode, oldest)
            == Applied(st.(seen := Remembered(st.seen, last.lsn), buffers := rest), Batch(st, ts, a, encode), a + 1,
                       decode, oldest)
  {
    rest := if |ts[a]| == 1 then st.buffers else st.buffers - {a + 1};
    assert |ts[a]| == 1 ==> Batch(st, ts, a, encode) == [Shipped(ts, a, |ts[a]| - 1, encode)];
  }

  lemma AppliedAgain(mem: VersionMap, ts: Transactions, k: nat, a: nat, rs: seq<WalRecord>, encode: Key -> Buf,
                     decode: Decoder, oldest: nat)
    requires WellFormedTxns(ts) && Inverse(ts, encode, decode) && a < k <= |ts| && AreOf(rs, ts, a, encode)
    requires Committed(mem, k) && forall key :: TableRead(mem, key, k) == LookUp(PrimaryAfter(ts, k), key)
    ensures var after := SetAll(mem, WritesOf(rs, decode), a + 1, oldest);
            && Committed(after, k)
            && (SameReads(mem, after, k) <==> AllCurrent(PrimaryAfter(ts, k), rs, decode))
  {
    BatchAgrees(rs, ts, a, encode, decode);
    SetRecords(mem, PrimaryAfter(ts, k), rs, decode, a + 1, oldest, k);
  }

  lemma SetRecords(mem: VersionMap, docs: map<Key, Buf>, rs: seq<WalRecord>, decode: Decoder, txn: nat, oldest: nat,
                   snapshot: nat)
    requires Agreeing(WritesOf(rs, decode)) && txn <= snapshot
    requires Committed(mem, snapshot) && forall key :: TableRead(mem, key, snapshot) == LookUp(docs, key)
    ensures var after := SetAll(mem, WritesOf(rs, decode), txn, oldest);
            Committed(after, snapshot) && (SameReads(mem, after, snapshot) <==> AllCurrent(docs, rs, decode))
  {
    SetAgain(mem, docs, WritesOf(rs, decode), txn, oldest, snapshot);
    CurrentWrites(docs, rs, decode);
  }

  lemma {:induction false} SetAllKeepsBound(t: VersionMap, ws: seq<Write>, txn: nat, committed: nat, oldest: nat)
    requires Committed(t, committed) && txn <= committed
    ensures Committed(SetAll(t, ws, txn, oldest), committed)
    decreases |ws|
  {
    if ws != [] {
      var vs := [Version(txn, ws[0].value)] + (if ws[0].key in t then t[ws[0].key] else []);
      TrimmedNonempty(vs, oldest);
      assert Committed(TableSet(t, ws[0].key, txn, ws[0].value, oldest), committed);
      SetAllKeepsBound(TableSet(t, ws[0].key, txn, ws[0].value, oldest), ws[1..], txn, committed, oldest);
    }
  }

  /** A primary that writes one key over and over: first one document, then always another. */
  ghost function Overwrites(n: nat, key: Key, first: Buf, later: Buf): Transactions
    requires n > 0
  {
    seq(n, k requires 0 <= k < n => [Write(key, if k == 0 then first else later)])
  }

  ghost function Nexts(n: nat): seq<Delivery>
  {
    if n == 0 then [] else [Delivery.Next(NO_SNAPSHOT)] + Nexts(n - 1)
  }

  ghost predicate AllSeen(seen: set<nat>, n: nat)
  {
    |seen| == n && forall l: nat :: l in seen <==> l < n
  }

  /** The positions below `n`, as remembered after the last of them. */
  lemma AllRemembered(seen: set<nat>, n: nat)
    requires AllSeen(seen, n)
    ensures n < MAX_SEEN ==> AllSeen(Remembered(seen, n), n + 1)
    ensures n == MAX_SEEN ==> 0 !in Remembered(seen, n)
  {
  }

  lemma OverwritesAre(n: nat, key: Key, first: Buf, later: Buf, k: nat)
    requires n > 0 && k <= n
    ensures var ts := Overwrites(n, key, first, later);
            && WellFormedTxns(ts) && Offset(ts, k) == k
            && (k > 0 ==> PrimaryAfter(ts, k) == map[key := if k == 1 then first else later])
  {
    var ts := Overwrites(n, key, first, later);
    if k > 0 {
      OverwritesAre(n, key, first, later, k - 1);
      var w, docs := Write(key, if k == 1 then first else later), PrimaryAfter(ts, k - 1);
      assert ts[k - 1] == [w] && [w][1..] == [];
      assert PutAll(docs, [w]) == PutAll(docs[key := w.value], []);
    }
  }

  /** Every record in order: each transaction is applied, and each position remembered while there is room. */
  lemma {:induction false} RunsThrough(p: Progress, ts: Transactions, m: nat, encode: Key -> Buf, decode: Decoder)
    requires WellFormedTxns(ts) && Inverse(ts, encode, decode) && InStep(p.st, ts, p.k, 0, encode) && p.j == 0
    requires OneEach(ts) && p.k + m == |ts| <= MAX_SEEN + 1 && SeenInTurn(p.st.seen, p.k)
    ensures IsDelivery(p, ts, Nexts(m), encode, decode)
    ensures var q := DeliverAll(p, ts, Nexts(m), encode, decode);
            InStep(q.st, ts, |ts|, 0, encode) && (|ts| == MAX_SEEN + 1 ==> 0 !in q.st.seen)
    decreases m
  {
    if m > 0 {
      var q := Deliver(p, ts, Delivery.Next(NO_SNAPSHOT), encode, decode);
      DeliverKeeps(p, ts, Delivery.Next(NO_SNAPSHOT), encode, decode);
      NextRemembers(p, ts, encode, decode);
      assert Nexts(m)[1..] == Nexts(m - 1);
      RunsThrough(q, ts, m - 1, encode, decode);
    }
  }

  /** Each transaction has one write, so that its position is its number. */
  ghost predicate OneEach(ts: Transactions)
  {
    (forall k :: 0 <= k < |ts| ==> |ts[k]| == 1) && (forall k :: 0 <= k <= |ts| ==> Offset(ts, k) == k)
  }

  /** What is remembered after the first `k` positions: all of them, until there is one too many. */
  ghost predicate SeenInTurn(seen: set<nat>, k: nat)
  {
    (k <= MAX_SEEN ==> AllSeen(seen, k)) && (k == MAX_SEEN + 1 ==> 0 !in seen)
  }

  lemma NextRemembers(p: Progress, ts: Transactions, encode: Key -> Buf, decode: Decoder)
    requires InStep(p.st, ts, p.k, 0, encode) && p.j == 0 && p.k < |ts| <= MAX_SEEN + 1 && OneEach(ts)
    requires SeenInTurn(p.st.seen, p.k)
    ensures var q := Deliver(p, ts, Delivery.Next(NO_SNAPSHOT), encode, decode);
            SeenInTurn(q.st.seen, q.k) && q.k == p.k + 1 && q.j == 0
  {
    SeenNext(p.st.seen, Offset(ts, p.k));
    AllRemembered(p.st.seen, p.k);
  }

  /**
   * A run in which a repeat does change a read: ten thousand and one transactions on one key, all delivered,
   * and then the first again. Its position is forgotten, and the replica goes back to the first document.
   */
  lemma ForgottenRepeat(n: nat, key: Key, first: Buf, later: Buf, encode: Key -> Buf, decode: Decoder)
    requires n == MAX_SEEN + 1 && first != later && decode(encode(key)) == key
    ensures var ts := Overwrites(n, key, first, later);
            && WellFormedTxns(ts) && IsDelivery(START, ts, Nexts(n), encode, decode)
            && var st := DeliverAll(START, ts, Nexts(n), encode, decode).st;
               var after := Received(st, Shipped(ts, 0, 0, encode), decode, NO_SNAPSHOT);
               && TableRead(st.mem, key, st.committed) == Some(later)
               && !SameReads(st.mem, after.mem, n)
  {
    var ts := Overwrites(n, key, first, later);
    forall k | 0 <= k <= n ensures Offset(ts, k) == k {
      OverwritesAre(n, key, first, later, k);
    }
    OverwritesAre(n, key, first, later, n);
    RunsThrough(START, ts, n, encode, decode);
    var st := DeliverAll(START, ts, Nexts(n), encode, decode).st;
    RepeatInStepIff(st, ts, n, 0, 0, 0, encode, decode, NO_SNAPSHOT);
  }
}
