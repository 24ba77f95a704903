/** Versions of one key, newest first, and what a reader at a snapshot sees in them. */
module Versions {
  import opened Options

  newtype Byte = i: int | 0 <= i < 0x100

  type Buf = seq<Byte>

  /** The value `SnapshotRegistry.oldest` reports when no snapshot is open. */
  const NO_SNAPSHOT: nat := 0xffff_ffff_ffff_ffff

  datatype Version = Version(txn: nat, value: Buf)

  /** The first version a reader at `snapshot` may see. */
  function ReadAt(vs: seq<Version>, snapshot: nat): Option<Buf>
  {
    if vs == [] then None
    else if vs[0].txn <= snapshot then Some(vs[0].value)
    else ReadAt(vs[1..], snapshot)
  }

  /** A write on top of these versions trims no byte away. */
  predicate TrimsNothing(vs: seq<Version>, txn: nat, value: Buf, oldest: nat)
  {
    TotalBytes(Trimmed([Version(txn, value)] + vs, oldest)) == |value| + TotalBytes(vs)
  }

  /** Everything up to and including the first version the oldest snapshot may see. */
  function Trimmed(vs: seq<Version>, oldest: nat): seq<Version>
  {
    if vs == [] then []
    else if vs[0].txn <= oldest then [vs[0]]
    else [vs[0]] + Trimmed(vs[1..], oldest)
  }

  function TotalBytes(vs: seq<Version>): nat
  {
    if vs == [] then 0 else |vs[0].value| + TotalBytes(vs[1..])
  }

  lemma {:induction false} TotalBytesSplit(a: seq<Version>, b: seq<Version>)
    ensures TotalBytes(a + b) == TotalBytes(a) + TotalBytes(b)
  {
    if a == [] {
      assert a + b == b;
    } else {
      assert (a + b)[1..] == a[1..] + b;
      TotalBytesSplit(a[1..], b);
    }
  }

  /** Trimming keeps a prefix, cut after the first version the oldest snapshot may see. */
  lemma {:induction false} TrimmedCut(vs: seq<Version>, oldest: nat, cut: nat)
    requires cut <= |vs|
    requires forall i :: 0 <= i < cut ==> vs[i].txn > oldest
    ensures cut < |vs| && vs[cut].txn <= oldest ==> Trimmed(vs, oldest) == vs[..cut + 1]
    ensures cut == |vs| ==> Trimmed(vs, oldest) == vs
  {
    if cut == 0 {
    } else {
      TrimmedCut(vs[1..], oldest, cut - 1);
      assert vs == [vs[0]] + vs[1..];
      if cut < |vs| {
        assert vs[..cut + 1] == [vs[0]] + vs[1..][..cut];
      }
    }
  }

  lemma {:induction false} ReadAtFirst(vs: seq<Version>, snapshot: nat, k: nat)
    requires k <= |vs|
    requires forall i :: 0 <= i < k ==> vs[i].txn > snapshot
    ensures ReadAt(vs, snapshot) == ReadAt(vs[k..], snapshot)
  {
    if k == 0 {
      assert vs[0..] == vs;
    } else {
      ReadAtFirst(vs[1..], snapshot, k - 1);
      assert vs[1..][k - 1..] == vs[k..];
    }
  }

  /**
   * Trimming for the oldest open snapshot is invisible to every reader at that snapshot or later:
   * the versions it drops lie below the one such a reader stops at.
   */
  lemma {:induction false} TrimInvisible(vs: seq<Version>, oldest: nat, snapshot: nat)
    requires oldest <= snapshot
    ensures ReadAt(Trimmed(vs, oldest), snapshot) == ReadAt(vs, snapshot)
  {
    if vs != [] && vs[0].txn > oldest {
      TrimInvisible(vs[1..], oldest, snapshot);
      assert Trimmed(vs, oldest)[1..] == Trimmed(vs[1..], oldest);
    }
  }

  lemma {:induction false} TrimmedNonempty(vs: seq<Version>, oldest: nat)
    requires vs != []
    ensures Trimmed(vs, oldest) != [] && Trimmed(vs, oldest)[0] == vs[0]
    ensures forall v :: v in Trimmed(vs, oldest) ==> v in vs
  {
    if vs[0].txn > oldest && |vs| > 1 {
      TrimmedNonempty(vs[1..], oldest);
    }
  }
}

/** The in-memory multi-version table of one collection, and the registry of open snapshots. */
module Memtable {
  import opened Keys
  import opened Options
  import opened Versions

  datatype Entry = Entry(key: Key, versions: seq<Version>, totalBytes: int)

  /** A memtable's meaning: for each key, its versions newest first. */
  type VersionMap = map<Key, seq<Version>>

  ghost predicate Ordered(es: seq<Entry>)
  {
    forall i, j :: 0 <= i < j < |es| ==> Less(es[i].key, es[j].key)
  }

  ghost predicate WellFormed(es: seq<Entry>)
  {
    && Ordered(es)
    && forall i :: 0 <= i < |es| ==> es[i].versions != [] && es[i].totalBytes == TotalBytes(es[i].versions)
  }

  ghost function TableOf(es: seq<Entry>): VersionMap
    requires Ordered(es)
  {
    TotalOrder();
    map i | 0 <= i < |es| :: es[i].key := es[i].versions
  }

  ghost function LiveBytes(es: seq<Entry>): nat
  {
    if es == [] then 0 else |es[0].key| + TotalBytes(es[0].versions) + LiveBytes(es[1..])
  }

  /** What a reader at `snapshot` sees of `key`. */
  ghost function TableRead(t: VersionMap, key: Key, snapshot: nat): Option<Buf>
  {
    if key in t then ReadAt(t[key], snapshot) else None
  }

  /** The table after a write: the new version in front, then trimmed for the oldest snapshot. */
  ghost function TableSet(t: VersionMap, key: Key, txn: nat, value: Buf, oldest: nat): VersionMap
  {
    t[key := Trimmed([Version(txn, value)] + (if key in t then t[key] else []), oldest)]
  }

  lemma {:induction false} LiveBytesAt(es: seq<Entry>, k: nat)
    requires k <= |es|
    ensures LiveBytes(es) == LiveBytes(es[..k]) + LiveBytes(es[k..])
  {
    if k == 0 {
      assert es[..0] == [] && es[0..] == es;
    } else {
      LiveBytesAt(es[1..], k - 1);
      assert es[..k][1..] == es[1..][..k - 1] && es[k..] == es[1..][k - 1..];
    }
  }

  lemma LiveBytesInsert(es: seq<Entry>, k: nat, e: Entry)
    requires k <= |es|
    ensures LiveBytes(es[..k] + [e] + es[k..]) == LiveBytes(es) + |e.key| + TotalBytes(e.versions)
  {
    var r := es[..k] + [e] + es[k..];
    LiveBytesAt(es, k);
    LiveBytesAt(r, k);
    assert r[..k] == es[..k] && r[k..] == [e] + es[k..];
    assert ([e] + es[k..])[1..] == es[k..];
  }

  lemma LiveBytesUpdate(es: seq<Entry>, k: nat, e: Entry)
    requires k < |es|
    requires e.key == es[k].key
    ensures LiveBytes(es[k := e]) == LiveBytes(es) - TotalBytes(es[k].versions) + TotalBytes(e.versions)
  {
    LiveBytesAt(es, k);
    LiveBytesAt(es[k := e], k);
    assert es[k := e][..k] == es[..k];
    assert es[k := e][k..] == [e] + es[k + 1..];
    assert es[k..] == [es[k]] + es[k + 1..];
  }

  class SortedMemtable {
    var entries: seq<Entry>
    var byteSize: int
    /** Bytes of every version ever trimmed away. */
    ghost var droppedBytes: nat

    /** `byteSize` lags the live bytes by what was trimmed: a trim is subtracted twice. */
    ghost predicate Valid()
      reads this
    {
      WellFormed(entries) && byteSize == LiveBytes(entries) - droppedBytes
    }

    ghost function Contents(): VersionMap
      reads this
      requires Valid()
    {
      TableOf(entries)
    }

    constructor ()
      ensures Valid() && Contents() == map[] && entries == [] && droppedBytes == 0
    {
      entries := [];
      byteSize := 0;
      droppedBytes := 0;
    }

    method Bisect(key: Key) returns (found: bool, index: nat)
      requires Valid()
      ensures found <==> key in Contents()
      ensures found ==> index < |entries| && entries[index].key == key
      ensures !found ==> index <= |entries|
      ensures !found ==> forall i :: 0 <= i < index ==> Less(entries[i].key, key)
      ensures !found ==> forall i :: index <= i < |entries| ==> Less(key, entries[i].key)
    {
      TotalOrder();
      var lo: int, hi: int := 0, |entries| - 1;
      while lo <= hi
        invariant 0 <= lo <= hi + 1 <= |entries|
        invariant forall i :: 0 <= i < lo ==> Less(entries[i].key, key)
        invariant forall i :: hi < i < |entries| ==> Less(key, entries[i].key)
      {
        var mid := (lo + hi) / 2;
        if Less(entries[mid].key, key) {
          lo := mid + 1;
        } else if Less(key, entries[mid].key) {
          hi := mid - 1;
        } else {
          return true, mid;
        }
      }
      return false, lo;
    }

    /**
     * Writes a version. The table changes at `key` alone; `byteSize` grows by the value, and by the
     * key when it is new, minus twice the bytes trimmed away. So it stays the number of live bytes exactly when
   * nothing is trimmed.
     */
    method Set(key: Key, txn: nat, value: Buf, oldestSnapshot: nat)
      requires Valid()
      modifies this
      ensures Valid()
      ensures Contents() == TableSet(old(Contents()), key, txn, value, oldestSnapshot)
      ensures droppedBytes >= old(droppedBytes)
      ensures byteSize == old(byteSize) + |value| + (if key in old(Contents()) then 0 else |key|)
                          - 2 * (droppedBytes - old(droppedBytes))
      ensures byteSize == LiveBytes(entries) <==>
                && old(byteSize == LiveBytes(entries))
                && (key in old(Contents()) ==> TrimsNothing(old(Contents())[key], txn, value, oldestSnapshot))
    {
      var found, index := Bisect(key);
      if found {
        var e := entries[index];
        var ve := e.(versions := [Version(txn, value)] + e.versions, totalBytes := e.totalBytes + |value|);
        var trimmed, dropped := TrimVersions(ve, oldestSnapshot);
        UpdatedEntries(entries, index, txn, value, oldestSnapshot, trimmed);
        TableHas(entries, index);
        TotalBytesSplit([Version(txn, value)], e.versions);
        SingleVersion(Version(txn, value), oldestSnapshot);
        entries := entries[index := trimmed];
        byteSize := byteSize + (trimmed.totalBytes - e.totalBytes);
        droppedBytes := droppedBytes + dropped;
      } else {
        var e := Entry(key, [Version(txn, value)], |value|);
        InsertedEntries(entries, index, txn, value, oldestSnapshot, e);
        entries := entries[..index] + [e] + entries[index..];
        byteSize := byteSize + |key| + |value|;
      }
    }

    /** Drops what no open snapshot can reach, and already charges it to `byteSize`. */
    method TrimVersions(ve: Entry, oldestSnapshot: nat) returns (r: Entry, ghost dropped: nat)
      requires ve.totalBytes == TotalBytes(ve.versions)
      modifies this`byteSize
      ensures r == Entry(ve.key, Trimmed(ve.versions, oldestSnapshot), TotalBytes(r.versions))
      ensures dropped == TotalBytes(ve.versions) - TotalBytes(r.versions)
      ensures byteSize == old(byteSize) - dropped
    {
      r, dropped := ve, 0;
      if |ve.versions| <= 1 {
        TrimmedSmall(ve.versions, oldestSnapshot);
        return;
      }
      var cutIdx := -1;
      var i := 0;
      while i < |ve.versions|
        invariant 0 <= i <= |ve.versions| && cutIdx == -1
        invariant forall j :: 0 <= j < i ==> ve.versions[j].txn > oldestSnapshot
      {
        if ve.versions[i].txn <= oldestSnapshot {
          cutIdx := i;
          break;
        }
        i := i + 1;
      }
      TrimmedCut(ve.versions, oldestSnapshot, i);
      if cutIdx >= 0 && cutIdx < |ve.versions| - 1 {
        var gone := ve.versions[cutIdx + 1..];
        var kept := ve.versions[..cutIdx + 1];
        assert ve.versions == kept + gone;
        TotalBytesSplit(kept, gone);
        var total := ChargeDropped(gone, ve.totalBytes);
        r := Entry(ve.key, kept, total);
        dropped := TotalBytes(gone);
      } else if cutIdx >= 0 {
        assert ve.versions[..cutIdx + 1] == ve.versions;
      }
    }

    method ChargeDropped(gone: seq<Version>, totalBytes: int) returns (total: int)
      modifies this`byteSize
      ensures total == totalBytes - TotalBytes(gone)
      ensures byteSize == old(byteSize) - TotalBytes(gone)
    {
      total := totalBytes;
      var j := 0;
      while j < |gone|
        invariant 0 <= j <= |gone|
        invariant total == totalBytes - TotalBytes(gone[..j])
        invariant byteSize == old(byteSize) - TotalBytes(gone[..j])
      {
        TotalBytesSplit(gone[..j], [gone[j]]);
        assert gone[..j + 1] == gone[..j] + [gone[j]];
        total := total - |gone[j].value|;
        byteSize := byteSize - |gone[j].value|;
        j := j + 1;
      }
      assert gone[..j] == gone;
    }

    method Get(key: Key, snapshot: nat) returns (r: Option<Buf>)
      requires Valid()
      ensures r == TableRead(Contents(), key, snapshot)
    {
      var found, index := Bisect(key);
      if !found {
        return None;
      }
      var vs := entries[index].versions;
      TotalOrder();
      assert Contents()[key] == vs;
      var i := 0;
      while i < |vs|
        invariant 0 <= i <= |vs|
        invariant forall j :: 0 <= j < i ==> vs[j].txn > snapshot
      {
        if vs[i].txn <= snapshot {
          ReadAtFirst(vs, snapshot, i);
          return Some(vs[i].value);
        }
        i := i + 1;
      }
      ReadAtFirst(vs, snapshot, i);
      return None;
    }
  }

  lemma TrimmedSingle(v: Version, oldest: nat)
    ensures Trimmed([v] + [], oldest) == [v]
  {
    assert [v] + [] == [v];
    assert [v][1..] == [];
  }

  lemma TrimmedSmall(vs: seq<Version>, oldest: nat)
    requires |vs| <= 1
    ensures Trimmed(vs, oldest) == vs
  {
    if vs != [] {
      assert vs == [vs[0]] && vs[1..] == [];
    }
  }

  lemma TableHas(es: seq<Entry>, i: nat)
    requires i < |es| && Ordered(es)
    ensures es[i].key in TableOf(es) && TableOf(es)[es[i].key] == es[i].versions
  {
    forall j | 0 <= j < |es| && es[j].key == es[i].key ensures j == i {
      KeysDiffer(es, i, j);
    }
  }

  lemma KeysDiffer(es: seq<Entry>, i: nat, j: nat)
    requires i < |es| && j < |es| && Ordered(es)
    ensures es[i].key == es[j].key <==> i == j
  {
    LessIrreflexive(es[i].key);
    if i < j {
      assert Less(es[i].key, es[j].key);
    } else if j < i {
      assert Less(es[j].key, es[i].key);
    }
  }

  lemma UpdatedTable(es: seq<Entry>, k: nat, e: Entry)
    requires k < |es| && Ordered(es) && e.key == es[k].key
    ensures Ordered(es[k := e])
    ensures TableOf(es[k := e]) == TableOf(es)[e.key := e.versions]
  {
    var r := es[k := e];
    forall i, j | 0 <= i < j < |r| ensures Less(r[i].key, r[j].key) {
      assert Less(es[i].key, es[j].key);
    }
    var t := TableOf(es)[e.key := e.versions];
    forall i | 0 <= i < |r| ensures r[i].key in t && t[r[i].key] == r[i].versions {
      TableHas(es, i);
      KeysDiffer(es, i, k);
    }
    forall key | key in t ensures exists i :: 0 <= i < |r| && r[i].key == key {
      var i :| 0 <= i < |es| && es[i].key == key;
      assert r[i].key == key;
    }
    SameTable(r, t);
  }

  lemma InsertedOrdered(es: seq<Entry>, k: nat, e: Entry)
    requires k <= |es| && Ordered(es)
    requires forall i :: 0 <= i < k ==> Less(es[i].key, e.key)
    requires forall i :: k <= i < |es| ==> Less(e.key, es[i].key)
    ensures Ordered(es[..k] + [e] + es[k..])
  {
    var r := es[..k] + [e] + es[k..];
    forall i, j | 0 <= i < j < |r| ensures Less(r[i].key, r[j].key) {
      if i < k { assert r[i] == es[i]; } else if i > k { assert r[i] == es[i - 1]; }
      if j < k { assert r[j] == es[j]; } else if j > k { assert r[j] == es[j - 1]; }
    }
  }

  lemma InsertedTable(es: seq<Entry>, k: nat, e: Entry)
    requires k <= |es| && Ordered(es)
    requires Ordered(es[..k] + [e] + es[k..])
    requires e.key !in TableOf(es)
    ensures TableOf(es[..k] + [e] + es[k..]) == TableOf(es)[e.key := e.versions]
  {
    var r := es[..k] + [e] + es[k..];
    var t := TableOf(es)[e.key := e.versions];
    forall i | 0 <= i < |r| ensures r[i].key in t && t[r[i].key] == r[i].versions {
      if i < k {
        assert r[i] == es[i];
        TableHas(es, i);
      } else if i > k {
        assert r[i] == es[i - 1];
        TableHas(es, i - 1);
      }
    }
    forall key | key in t ensures exists i :: 0 <= i < |r| && r[i].key == key {
      if key == e.key {
        assert r[k] == e;
      } else {
        var i :| 0 <= i < |es| && es[i].key == key;
        assert r[if i < k then i else i + 1] == es[i];
      }
    }
    SameTable(r, t);
  }

  lemma UpdatedEntries(es: seq<Entry>, k: nat, txn: nat, value: Buf, oldest: nat, e: Entry)
    requires k < |es| && WellFormed(es)
    requires e == Entry(es[k].key, Trimmed([Version(txn, value)] + es[k].versions, oldest), TotalBytes(e.versions))
    ensures WellFormed(es[k := e])
    ensures es[k].key in TableOf(es)
    ensures TableOf(es[k := e]) == TableSet(TableOf(es), es[k].key, txn, value, oldest)
    ensures LiveBytes(es[k := e]) == LiveBytes(es) - TotalBytes(es[k].versions) + TotalBytes(e.versions)
  {
    TrimmedNonempty([Version(txn, value)] + es[k].versions, oldest);
    UpdatedTable(es, k, e);
    TableHas(es, k);
    LiveBytesUpdate(es, k, e);
  }

  lemma InsertedEntries(es: seq<Entry>, k: nat, txn: nat, value: Buf, oldest: nat, e: Entry)
    requires k <= |es| && WellFormed(es)
    requires e.versions == [Version(txn, value)] && e.totalBytes == |value| && e.key !in TableOf(es)
    requires forall i :: 0 <= i < k ==> Less(es[i].key, e.key)
    requires forall i :: k <= i < |es| ==> Less(e.key, es[i].key)
    ensures WellFormed(es[..k] + [e] + es[k..])
    ensures TableOf(es[..k] + [e] + es[k..]) == TableSet(TableOf(es), e.key, txn, value, oldest)
    ensures LiveBytes(es[..k] + [e] + es[k..]) == LiveBytes(es) + |e.key| + |value|
  {
    SingleVersion(Version(txn, value), oldest);
    InsertedOrdered(es, k, e);
    InsertedSizes(es, k, e);
    InsertedTable(es, k, e);
    LiveBytesInsert(es, k, e);
  }

  lemma SingleVersion(v: Version, oldest: nat)
    ensures TotalBytes([v]) == |v.value|
    ensures Trimmed([v] + [], oldest) == [v]
  {
    TrimmedSingle(v, oldest);
  }

  lemma InsertedSizes(es: seq<Entry>, k: nat, e: Entry)
    requires k <= |es| && WellFormed(es)
    requires e.versions != [] && e.totalBytes == TotalBytes(e.versions)
    requires Ordered(es[..k] + [e] + es[k..])
    ensures WellFormed(es[..k] + [e] + es[k..])
  {
    var r := es[..k] + [e] + es[k..];
    forall i | 0 <= i < |r| ensures r[i].versions != [] && r[i].totalBytes == TotalBytes(r[i].versions) {
      if i < k { assert r[i] == es[i]; } else if i > k { assert r[i] == es[i - 1]; }
    }
  }

  /** A table listed entry by entry, and nothing else, is the meaning of those entries. */
  lemma SameTable(es: seq<Entry>, t: VersionMap)
    requires Ordered(es)
    requires forall i :: 0 <= i < |es| ==> es[i].key in t && t[es[i].key] == es[i].versions
    requires forall key :: key in t ==> exists i :: 0 <= i < |es| && es[i].key == key
    ensures TableOf(es) == t
  {
    assert TableOf(es).Keys == t.Keys;
  }

  /** What a later read sees of a write, at snapshots before and after it. */
  lemma SetThenRead(t: VersionMap, key: Key, txn: nat, value: Buf, oldest: nat, k: Key, snapshot: nat)
    ensures k != key ==> TableRead(TableSet(t, key, txn, value, oldest), k, snapshot) == TableRead(t, k, snapshot)
    ensures txn <= snapshot ==> TableRead(TableSet(t, key, txn, value, oldest), key, snapshot) == Some(value)
    ensures txn > snapshot && oldest <= snapshot ==>
              TableRead(TableSet(t, key, txn, value, oldest), key, snapshot) == TableRead(t, key, snapshot)
  {
    var vs := [Version(txn, value)] + (if key in t then t[key] else []);
    TrimmedNonempty(vs, oldest);
    if txn > snapshot && oldest <= snapshot {
      TrimInvisible(vs, oldest, snapshot);
      assert vs[1..] == if key in t then t[key] else [];
    }
  }

  lemma OneEntry(es: seq<Entry>, key: Key, vs: seq<Version>)
    requires WellFormed(es) && TableOf(es) == map[key := vs]
    ensures LiveBytes(es) == |key| + TotalBytes(vs)
  {
    OneKey(es, key, vs);
    assert LiveBytes(es) == |es[0].key| + TotalBytes(es[0].versions) + LiveBytes(es[1..]);
    assert es[1..] == [];
  }

  lemma OneKey(es: seq<Entry>, key: Key, vs: seq<Version>)
    requires Ordered(es) && TableOf(es) == map[key := vs]
    ensures |es| == 1 && es[0].key == key && es[0].versions == vs
  {
    var t := TableOf(es);
    assert key in t;
    var i :| 0 <= i < |es| && es[i].key == key;
    TableHas(es, i);
    if |es| > 1 {
      var j := if i == 0 then 1 else 0;
      TableHas(es, j);
      KeysDiffer(es, j, i);
    }
  }

  /** Writing a key twice with no snapshot open: the first value is trimmed, and charged twice. */
  method TrimmedTwice(key: Key, first: Buf, second: Buf) returns (m: SortedMemtable)
    ensures fresh(m) && m.Valid() && m.byteSize == LiveBytes(m.entries) - |first|
  {
    m := new SortedMemtable();
    assert m.byteSize == 0;
    m.Set(key, 1, first, NO_SNAPSHOT);
    WrittenOnce(map[], key, 1, first);
    OneEntry(m.entries, key, [Version(1, first)]);
    m.Set(key, 2, second, NO_SNAPSHOT);
    WrittenOnce(map[key := [Version(1, first)]], key, 2, second);
    OneEntry(m.entries, key, [Version(2, second)]);
  }

  /** With no snapshot open a write leaves its own version and no other. */
  lemma WrittenOnce(t: VersionMap, key: Key, txn: nat, value: Buf)
    requires txn <= NO_SNAPSHOT
    ensures TableSet(t, key, txn, value, NO_SNAPSHOT) == t[key := [Version(txn, value)]]
    ensures TotalBytes([Version(txn, value)]) == |value|
  {
    SingleVersion(Version(txn, value), NO_SNAPSHOT);
  }
}
