/** The MANIFEST log: what its entries fold to, and what survives a cut. */
module ManifestLog {
  import opened Options

  /** The level of each live table, by id. */
  type LevelMap = map<nat, nat>

  datatype Listed = Listed(id: nat, level: nat)

  datatype LogEntry =
    | Checkpoint(lsn: nat, sstables: seq<Listed>)
    | Flushed(lsn: nat, sstableId: nat, level: nat)
    | Compacted(removedIds: set<nat>, addedIds: seq<nat>, addedLevel: nat)

  /** A line of the file, as the loader meets it. */
  datatype Line = Good(entry: LogEntry) | Blank | Corrupt

  /** The last line of a file may lack its line end, when the write was cut short. */
  datatype File = Absent | Present(lines: seq<Line>, torn: bool)

  function PlacedAll(m: LevelMap, listed: seq<Listed>): LevelMap
    decreases |listed|
  {
    if listed == [] then m else PlacedAll(m[listed[0].id := listed[0].level], listed[1..])
  }

  function AddedAll(m: LevelMap, ids: seq<nat>, level: nat): LevelMap
    decreases |ids|
  {
    if ids == [] then m else AddedAll(m[ids[0] := level], ids[1..], level)
  }

  function FoldOne(m: LevelMap, e: LogEntry): LevelMap
  {
    match e
    case Checkpoint(_, sstables) => PlacedAll(map[], sstables)
    case Flushed(_, id, level) => m[id := level]
    case Compacted(removedIds, addedIds, level) => AddedAll(m - removedIds, addedIds, level)
  }

  function Fold(m: LevelMap, es: seq<LogEntry>): LevelMap
    decreases |es|
  {
    if es == [] then m else Fold(FoldOne(m, es[0]), es[1..])
  }

  /** The position the write-ahead log continues from: only flush entries raise it. */
  function FoldLsn(lsn: nat, es: seq<LogEntry>): nat
    decreases |es|
  {
    if es == [] then lsn
    else FoldLsn(if es[0].Flushed? && es[0].lsn + 1 > lsn then es[0].lsn + 1 else lsn, es[1..])
  }

  /** The position the last checkpoint names. */
  function CheckpointLsn(lsn: nat, es: seq<LogEntry>): nat
    decreases |es|
  {
    if es == [] then lsn else CheckpointLsn(if es[0].Checkpoint? then es[0].lsn else lsn, es[1..])
  }

  /** The entries before the first corrupt line. */
  function EntriesOf(lines: seq<Line>): seq<LogEntry>
  {
    if lines == [] || lines[0].Corrupt? then []
    else if lines[0].Blank? then EntriesOf(lines[1..])
    else [lines[0].entry] + EntriesOf(lines[1..])
  }

  function FileEntries(f: File): seq<LogEntry>
  {
    if f.Absent? then [] else EntriesOf(f.lines)
  }

  /** Appending a line to the file; what follows a torn line lands on that same line. */
  function Appended(f: File, e: LogEntry): File
  {
    match f
    case Absent => Present([Good(e)], false)
    case Present(lines, torn) =>
      if torn && lines != [] then Present(lines[..|lines| - 1] + [Corrupt], false)
      else Present(lines + [Good(e)], false)
  }

  /** Every line so far can be read back, and the next one will be. */
  predicate IsClean(f: File)
  {
    f.Present? ==> !f.torn && forall l :: l in f.lines ==> !l.Corrupt?
  }

  lemma {:induction false} FoldSnoc(m: LevelMap, es: seq<LogEntry>, e: LogEntry)
    ensures Fold(m, es + [e]) == FoldOne(Fold(m, es), e)
    decreases |es|
  {
    if es == [] {
      assert [e][1..] == [];
    } else {
      assert (es + [e])[1..] == es[1..] + [e];
      FoldSnoc(FoldOne(m, es[0]), es[1..], e);
    }
  }

  lemma {:induction false} EntriesSnoc(lines: seq<Line>, e: LogEntry)
    requires forall l :: l in lines ==> !l.Corrupt?
    ensures EntriesOf(lines + [Good(e)]) == EntriesOf(lines) + [e]
  {
    if lines == [] {
      assert [Good(e)][1..] == [];
    } else {
      assert (lines + [Good(e)])[1..] == lines[1..] + [Good(e)];
      EntriesSnoc(lines[1..], e);
    }
  }

  /** Appending to a clean file appends to its entries, and keeps it clean. */
  lemma AppendsEntry(f: File, e: LogEntry)
    requires IsClean(f)
    ensures IsClean(Appended(f, e)) && FileEntries(Appended(f, e)) == FileEntries(f) + [e]
  {
    if f.Present? {
      EntriesSnoc(f.lines, e);
    } else {
      EntriesSnoc([], e);
      assert [] + [Good(e)] == [Good(e)];
    }
  }

  lemma {:induction false} CorruptEnd(lines: seq<Line>)
    ensures EntriesOf(lines + [Corrupt]) == EntriesOf(lines)
    decreases |lines|
  {
    if lines == [] {
      assert [] + [Corrupt] == [Corrupt];
    } else {
      assert (lines + [Corrupt])[1..] == lines[1..] + [Corrupt];
      CorruptEnd(lines[1..]);
    }
  }

  /** Appending behind a line without its end adds no entry, and costs the one on that line. */
  lemma TornAppend(lines: seq<Line>, last: Line, e: LogEntry)
    ensures FileEntries(Appended(Present(lines + [last], true), e)) == EntriesOf(lines)
  {
    assert (lines + [last])[..|lines + [last]| - 1] == lines;
    CorruptEnd(lines);
  }

  lemma {:induction false} PlacedHas(m: LevelMap, listed: seq<Listed>, id: nat)
    requires forall i, j :: 0 <= i < j < |listed| ==> listed[i].id != listed[j].id
    ensures forall t :: t in listed && t.id == id ==> id in PlacedAll(m, listed) && PlacedAll(m, listed)[id] == t.level
    ensures (forall t :: t in listed ==> t.id != id) ==>
              (id in PlacedAll(m, listed) <==> id in m) && (id in m ==> PlacedAll(m, listed)[id] == m[id])
    decreases |listed|
  {
    if listed != [] {
      PlacedHas(m[listed[0].id := listed[0].level], listed[1..], id);
      assert forall t :: t in listed <==> t == listed[0] || t in listed[1..];
      assert listed[0].id == id ==> forall t :: t in listed[1..] ==> t.id != id;
    }
  }

  lemma {:induction false} AddedHas(m: LevelMap, ids: seq<nat>, level: nat)
    ensures forall id :: id in AddedAll(m, ids, level) <==> id in m || id in ids
    ensures forall id :: id in AddedAll(m, ids, level) ==>
              AddedAll(m, ids, level)[id] == if id in ids then level else m[id]
    decreases |ids|
  {
    if ids != [] {
      AddedHas(m[ids[0] := level], ids[1..], level);
      assert forall id :: id in ids <==> id == ids[0] || id in ids[1..];
    }
  }

  /** The checkpoint of a level map lists every table of it once. */
  ghost predicate Lists(listed: seq<Listed>, m: LevelMap)
  {
    && (forall i, j :: 0 <= i < j < |listed| ==> listed[i].id != listed[j].id)
    && (forall t :: t in listed ==> t.id in m && m[t.id] == t.level)
    && forall id :: id in m ==> Listed(id, m[id]) in listed
  }

  /** A checkpoint folds back to the levels it was written from, whatever came before it. */
  lemma CheckpointRoundTrip(before: LevelMap, lsn: nat, listed: seq<Listed>, m: LevelMap)
    requires Lists(listed, m)
    ensures FoldOne(before, Checkpoint(lsn, listed)) == m
  {
    var r := PlacedAll(map[], listed);
    forall id ensures (id in r <==> id in m) && (id in m ==> r[id] == m[id]) {
      PlacedHas(map[], listed, id);
    }
  }

  /** The recovered position tells of the flush entries in the file, and of nothing else: not of a checkpoint. */
  lemma {:induction false} FoldLsnIff(lsn: nat, es: seq<LogEntry>, n: nat)
    ensures FoldLsn(lsn, es) > n <==> lsn > n || exists e :: e in es && e.Flushed? && e.lsn >= n
    decreases |es|
  {
    if es != [] {
      FoldLsnIff(if es[0].Flushed? && es[0].lsn + 1 > lsn then es[0].lsn + 1 else lsn, es[1..], n);
      assert forall e :: e in es <==> e == es[0] || e in es[1..];
    }
  }

  /** Lines lost at the end lose entries at the end. */
  lemma {:induction false} CutEntries(lines: seq<Line>, i: nat)
    requires i <= |lines|
    ensures EntriesOf(lines[..i]) <= EntriesOf(lines)
    ensures EntriesOf(lines[..i] + [Corrupt]) == EntriesOf(lines[..i])
  {
    if i == 0 {
      assert lines[..0] + [Corrupt] == [Corrupt];
    } else {
      CutEntries(lines[1..], i - 1);
      assert lines[..i][1..] == lines[1..][..i - 1];
      assert (lines[..i] + [Corrupt])[1..] == lines[1..][..i - 1] + [Corrupt];
    }
  }
}

/** The levels of a collection, and the MANIFEST that must agree with them. */
module ManifestStores {
  import opened Options
  import opened ManifestLog

  ghost predicate NoRepeats<T>(s: seq<T>)
  {
    forall i, j :: 0 <= i < j < |s| ==> s[i] != s[j]
  }

  /** The levels hold exactly the tables of the map, each on its level and nowhere else. */
  ghost predicate LevelsAre(levels: seq<seq<nat>>, m: LevelMap)
  {
    && (forall l :: 0 <= l < |levels| ==> NoRepeats(levels[l]))
    && (forall l, id {:trigger id in levels[l]} :: 0 <= l < |levels| && id in levels[l] ==> id in m && m[id] == l)
    && forall id :: id in m ==> m[id] < |levels| && id in levels[m[id]]
  }

  function Without(ids: seq<nat>, gone: set<nat>): seq<nat>
  {
    if ids == [] then []
    else
      var n := |ids| - 1;
      if ids[n] in gone then Without(ids[..n], gone) else Without(ids[..n], gone) + [ids[n]]
  }

  lemma {:induction false} WithoutHas(ids: seq<nat>, gone: set<nat>)
    ensures forall id :: id in Without(ids, gone) <==> id in ids && id !in gone
    ensures NoRepeats(ids) ==> NoRepeats(Without(ids, gone))
  {
    if ids != [] {
      var n := |ids| - 1;
      WithoutHas(ids[..n], gone);
      assert ids == ids[..n] + [ids[n]];
    }
  }

  ghost predicate IsHistory(history: seq<LevelMap>, es: seq<LogEntry>)
  {
    |history| == |es| + 1 && forall i :: 0 <= i <= |es| ==> history[i] == Fold(map[], es[..i])
  }

  lemma HistoryNext(history: seq<LevelMap>, es: seq<LogEntry>, e: LogEntry)
    requires IsHistory(history, es)
    ensures IsHistory(history + [Fold(map[], es + [e])], es + [e])
  {
    var all, after := es + [e], history + [Fold(map[], es + [e])];
    forall i | 0 <= i <= |all| ensures after[i] == Fold(map[], all[..i]) {
      if i <= |es| {
        assert all[..i] == es[..i];
      } else {
        assert all[..i] == all;
      }
    }
  }

  /** Cut the file after any line, or within the next one: it folds to the levels of that moment. */
  lemma CutFoldsToHistory(history: seq<LevelMap>, lines: seq<Line>, i: nat)
    requires IsHistory(history, EntriesOf(lines)) && i <= |lines|
    ensures var n := |EntriesOf(lines[..i])|;
            && n < |history| && Fold(map[], EntriesOf(lines[..i])) == history[n]
            && Fold(map[], EntriesOf(lines[..i] + [Corrupt])) == history[n]
  {
    CutEntries(lines, i);
    var n := |EntriesOf(lines[..i])|;
    assert EntriesOf(lines[..i]) == EntriesOf(lines)[..n];
  }

  /** The tables of the map that can be read and have a level to go to. */
  ghost function Placeable(m: LevelMap, readable: set<nat>, numLevels: nat): LevelMap
  {
    map id | id in m && id in readable && m[id] < numLevels :: m[id]
  }

  lemma PlaceOne(levels: seq<seq<nat>>, active: LevelMap, todo: set<nat>, readable: set<nat>, id: nat)
    requires id in todo && todo <= active.Keys && LevelsAre(levels, Placeable(active - todo, readable, |levels|))
    ensures var m := Placeable(active - (todo - {id}), readable, |levels|);
            if id in readable && active[id] < |levels|
            then LevelsAre(levels[active[id] := levels[active[id]] + [id]], m)
            else LevelsAre(levels, m)
  {
    var before := Placeable(active - todo, readable, |levels|);
    var m := Placeable(active - (todo - {id}), readable, |levels|);
    if id in readable && active[id] < |levels| {
      var l := active[id];
      var after := levels[l := levels[l] + [id]];
      assert m == before[id := l];
      assert id !in before && id !in levels[l];
      AppendedLevel(levels, before, l, id);
    } else {
      assert m == before;
    }
  }

  lemma AppendedLevel(levels: seq<seq<nat>>, m: LevelMap, l: nat, id: nat)
    requires LevelsAre(levels, m) && l < |levels| && id !in m
    ensures LevelsAre(levels[l := levels[l] + [id]], m[id := l])
  {
    var after, m' := levels[l := levels[l] + [id]], m[id := l];
    assert NoRepeats(levels[l]) && id !in levels[l];
    assert forall x :: x in after[l] <==> x == id || x in levels[l];
    forall k, x | 0 <= k < |after| && x in after[k] ensures x in m' && m'[x] == k {
      if x != id { assert x in levels[k]; }
    }
    forall x | x in m' ensures m'[x] < |after| && x in after[m'[x]] {
      if x != id { assert x in levels[m[x]]; }
    }
  }

  /** Every table on the levels below `l`, and the first `i` of level `l`, is listed, once. */
  ghost predicate ListedTo(listed: seq<Listed>, levels: seq<seq<nat>>, l: nat, i: nat)
    requires l <= |levels| && (l < |levels| ==> i <= |levels[l]|) && (l == |levels| ==> i == 0)
  {
    && (forall a, b :: 0 <= a < b < |listed| ==> listed[a].id != listed[b].id)
    && (forall t :: t in listed ==>
          || (t.level < l && t.id in levels[t.level])
          || (t.level == l && l < |levels| && t.id in levels[l][..i]))
    && (forall k, id {:trigger id in levels[k]} :: 0 <= k < l && id in levels[k] ==> Listed(id, k) in listed)
    && (l < |levels| ==> forall j :: 0 <= j < i ==> Listed(levels[l][j], l) in listed)
  }

  lemma ListedNext(listed: seq<Listed>, levels: seq<seq<nat>>, m: LevelMap, l: nat, i: nat)
    requires l < |levels| && i < |levels[l]| && LevelsAre(levels, m) && ListedTo(listed, levels, l, i)
    ensures ListedTo(listed + [Listed(levels[l][i], l)], levels, l, i + 1)
  {
    var id := levels[l][i];
    assert id in levels[l] && NoRepeats(levels[l]);
    assert levels[l][..i + 1] == levels[l][..i] + [id];
    forall a | 0 <= a < |listed| ensures listed[a].id != id {
      var t := listed[a];
      assert t in listed;
      assert t.level < l ==> m[t.id] == t.level;
    }
  }

  lemma ListedAll(listed: seq<Listed>, levels: seq<seq<nat>>, m: LevelMap)
    requires LevelsAre(levels, m) && ListedTo(listed, levels, |levels|, 0)
    ensures Lists(listed, m)
  {
  }

  lemma EmptyLevels(levels: seq<seq<nat>>)
    ensures LevelsAre(levels, map[]) <==> forall l :: 0 <= l < |levels| ==> levels[l] == []
  {
    forall l | 0 <= l < |levels| && levels[l] != [] ensures !LevelsAre(levels, map[]) {
      SomeTable(levels, l);
    }
  }

  lemma SomeTable(levels: seq<seq<nat>>, l: nat)
    requires l < |levels| && levels[l] != []
    ensures !LevelsAre(levels, map[])
  {
    assert levels[l][0] in levels[l];
  }

  lemma FlushedLevels(levels: seq<seq<nat>>, m: LevelMap, id: nat)
    requires LevelsAre(levels, m) && levels != [] && id !in m
    ensures LevelsAre(levels[0 := [id] + levels[0]], m[id := 0])
  {
    var after, m' := levels[0 := [id] + levels[0]], m[id := 0];
    assert NoRepeats(levels[0]);
    assert forall x :: x in after[0] <==> x == id || x in levels[0];
    assert id !in levels[0];
    forall l, x | 0 <= l < |after| && x in after[l] ensures x in m' && m'[x] == l {
      if x != id { assert x in levels[l]; }
    }
    forall x | x in m' ensures m'[x] < |after| && x in after[m'[x]] {
      if x != id { assert x in levels[m[x]]; }
    }
  }

  /** The number behind the greatest of some ids, or zero. */
  ghost predicate IsNextId(next: nat, ids: set<nat>)
  {
    (forall id :: id in ids ==> id < next) && (next > 0 ==> next - 1 in ids)
  }

  class ManifestStore {
    var file: File
    /** The ids of the table files in the directory. */
    var disk: set<nat>
    var levels: seq<seq<nat>>
    var nextSstableId: nat
    var walLsn: nat
    /** The levels after each entry of the file, and before the first. */
    ghost var history: seq<LevelMap>

    ghost function Folded(): LevelMap
      reads this
    {
      Fold(map[], FileEntries(file))
    }

    /** The manifest folds to the levels; every id is on one level only, and below the next one. */
    ghost predicate Agrees()
      reads this
    {
      && IsClean(file) && LevelsAre(levels, Folded())
      && (forall id :: id in Folded() ==> id < nextSstableId)
      && IsHistory(history, FileEntries(file))
    }

    /** No file in the directory has the id of a table yet to come. */
    predicate NewIdsAreFree()
      reads this
    {
      forall id :: id in disk ==> id < nextSstableId
    }

    /** A collection that is new: no manifest, no tables. */
    constructor (numLevels: nat)
      requires numLevels > 0
      ensures Agrees() && file == Absent && disk == {} && |levels| == numLevels && walLsn == 0
      ensures nextSstableId == 0
    {
      file, disk, levels := Absent, {}, seq(numLevels, _ => []);
      nextSstableId, walLsn, history := 0, 0, [map[]];
    }

    /** The entries of the file up to its first corrupt line. */
    method ReadEntries() returns (entries: seq<LogEntry>)
      ensures entries == FileEntries(file)
    {
      entries := [];
      if file.Absent? {
        return;
      }
      var lines, i := file.lines, 0;
      while i < |lines|
        invariant 0 <= i <= |lines| && EntriesOf(lines) == entries + EntriesOf(lines[i..])
      {
        assert lines[i..][1..] == lines[i + 1..];
        if lines[i].Corrupt? {
          return;
        }
        if lines[i].Good? {
          entries := entries + [lines[i].entry];
        }
        i := i + 1;
      }
    }

    method FoldEntries(entries: seq<LogEntry>) returns (active: LevelMap, checkpointLsn: nat)
      modifies `walLsn
      ensures active == Fold(map[], entries) && checkpointLsn == CheckpointLsn(0, entries)
      ensures walLsn == FoldLsn(old(walLsn), entries)
    {
      active, checkpointLsn := map[], 0;
      var i := 0;
      while i < |entries|
        invariant 0 <= i <= |entries|
        invariant Fold(map[], entries) == Fold(active, entries[i..])
        invariant CheckpointLsn(0, entries) == CheckpointLsn(checkpointLsn, entries[i..])
        invariant FoldLsn(old(walLsn), entries) == FoldLsn(walLsn, entries[i..])
      {
        assert entries[i..][1..] == entries[i + 1..];
        active := FoldOne(active, entries[i]);
        match entries[i] {
          case Checkpoint(lsn, _) => checkpointLsn := lsn;
          case Flushed(lsn, _, _) =>
            if lsn + 1 > walLsn {
              walLsn := lsn + 1;
            }
          case _ =>
        }
        i := i + 1;
      }
    }

    /** Puts the tables that can be read on their levels. */
    method PlaceTables(active: LevelMap, readable: set<nat>)
      requires nextSstableId == 0 && forall l :: 0 <= l < |levels| ==> levels[l] == []
      modifies `levels, `nextSstableId
      ensures |levels| == |old(levels)| && LevelsAre(levels, Placeable(active, readable, |levels|))
      ensures IsNextId(nextSstableId, Placeable(active, readable, |levels|).Keys)
    {
      var todo := active.Keys;
      while todo != {}
        invariant todo <= active.Keys && |levels| == |old(levels)|
        invariant LevelsAre(levels, Placeable(active - todo, readable, |levels|))
        invariant IsNextId(nextSstableId, Placeable(active - todo, readable, |levels|).Keys)
        decreases todo
      {
        var id :| id in todo;
        PlaceOne(levels, active, todo, readable, id);
        if id in readable && active[id] < |levels| {
          levels := levels[active[id] := levels[active[id]] + [id]];
          nextSstableId := if id + 1 > nextSstableId then id + 1 else nextSstableId;
        }
        todo := todo - {id};
      }
      assert active - todo == active;
    }

    /** The tables on the levels, as a checkpoint lists them. */
    method ListTables(ghost m: LevelMap) returns (listed: seq<Listed>)
      requires LevelsAre(levels, m)
      ensures Lists(listed, m)
    {
      listed := [];
      var l := 0;
      while l < |levels|
        invariant 0 <= l <= |levels| && ListedTo(listed, levels, l, 0)
      {
        var i := 0;
        while i < |levels[l]|
          invariant 0 <= i <= |levels[l]| && ListedTo(listed, levels, l, i)
        {
          ListedNext(listed, levels, m, l, i);
          listed := listed + [Listed(levels[l][i], l)];
          i := i + 1;
        }
        assert levels[l][..i] == levels[l];
        l := l + 1;
      }
      ListedAll(listed, levels, m);
    }

    /**
     * `boot`, as far as the manifest goes: the levels are folded from its entries, tables it does not name
     * are removed, and it is rewritten as one checkpoint. Without a single entry nothing is rewritten, and
     * tables are taken from the directory only if there is no manifest at all.
     */
    method Boot(numLevels: nat, readable: set<nat>)
      requires numLevels > 0
      modifies this
      ensures |levels| == numLevels && walLsn == FoldLsn(0, FileEntries(old(file)))
      ensures FileEntries(old(file)) == [] ==> file == old(file)
      ensures FileEntries(old(file)) != [] ==>
                && Agrees()
                && Folded() == Placeable(Fold(map[], FileEntries(old(file))), readable, numLevels)
                && FoldLsn(0, FileEntries(file)) == 0
                && disk == old(disk) * Fold(map[], FileEntries(old(file))).Keys
                && IsNextId(nextSstableId, Folded().Keys)
      ensures FileEntries(old(file)) == [] ==>
                disk == old(disk) && IsNextId(nextSstableId, if old(file).Absent? then old(disk) else {})
      ensures NewIdsAreFree() <==>
                if FileEntries(old(file)) == [] then old(file).Absent? || old(disk) == {}
                else forall id :: id in disk ==> exists t :: t in Folded() && id <= t
      ensures Agrees() <==>
                (FileEntries(old(file)) != []
                 || (IsClean(old(file)) && (old(file).Absent? ==> old(disk) * readable == {})))
    {
      levels, nextSstableId, walLsn := seq(numLevels, _ => []), 0, 0;
      var entries := ReadEntries();
      if entries == [] {
        BootEmpty(readable);
        return;
      }
      var active, checkpointLsn := FoldEntries(entries);
      PlaceTables(active, readable);
      disk := disk * active.Keys;
      ghost var m := Placeable(active, readable, numLevels);
      var listed := ListTables(m);
      WriteCheckpoint(checkpointLsn, listed, m);
    }

    /** With no entry to fold: tables are looked for on disk if there is no manifest. */
    method BootEmpty(readable: set<nat>)
      requires FileEntries(file) == [] && levels != [] && forall l :: 0 <= l < |levels| ==> levels[l] == []
      requires nextSstableId == 0
      modifies `levels, `nextSstableId, `history
      ensures |levels| == |old(levels)| && IsNextId(nextSstableId, if file.Absent? then disk else {})
      ensures Agrees() <==> IsClean(file) && (file.Absent? ==> disk * readable == {})
    {
      history := [map[]];
      assert FileEntries(file)[..0] == [] && IsHistory(history, FileEntries(file)) && Folded() == map[];
      if file.Absent? {
        LoadTables(readable);
        assert levels[0] != [] ==> levels[0][0] in levels[0];
        assert levels[0] == [] <==> disk * readable == {};
      }
      EmptyLevels(levels);
      assert Agrees() <==> IsClean(file) && LevelsAre(levels, map[]);
    }

    method WriteCheckpoint(lsn: nat, listed: seq<Listed>, ghost m: LevelMap)
      requires Lists(listed, m)
      modifies `file, `history
      ensures IsClean(file) && Folded() == m && IsHistory(history, FileEntries(file))
      ensures FoldLsn(0, FileEntries(file)) == 0
    {
      var e := Checkpoint(lsn, listed);
      CheckpointRoundTrip(map[], lsn, listed, m);
      file := Present([Good(e)], false);
      assert file.lines[1..] == [] && EntriesOf(file.lines) == [e];
      assert Fold(map[], [e]) == Fold(FoldOne(map[], e), [e][1..]);
      assert [e][1..] == [] && [e][..0] == [] && [e][..1] == [e];
      history := [map[], m];
    }

    /** `loadSSTablesMetadata`: every readable table of the directory goes to level 0. */
    method LoadTables(readable: set<nat>)
      requires levels != [] && nextSstableId == 0 && forall l :: 0 <= l < |levels| ==> levels[l] == []
      modifies `levels, `nextSstableId
      ensures |levels| == |old(levels)| && IsNextId(nextSstableId, disk)
      ensures forall id :: id in levels[0] <==> id in disk * readable
      ensures forall l :: 0 < l < |levels| ==> levels[l] == []
    {
      var todo := disk;
      while todo != {}
        invariant todo <= disk && |levels| == |old(levels)| && IsNextId(nextSstableId, disk - todo)
        invariant forall id :: id in levels[0] <==> id in (disk - todo) * readable
        invariant forall l :: 0 < l < |levels| ==> levels[l] == []
        decreases todo
      {
        var id :| id in todo;
        nextSstableId := if id + 1 > nextSstableId then id + 1 else nextSstableId;
        if id in readable {
          levels := levels[0 := levels[0] + [id]];
        }
        assert disk - (todo - {id}) == disk - todo + {id};
        todo := todo - {id};
      }
      assert disk - todo == disk;
    }

    /** The end of a flush: the new table goes to the front of level 0, then into the manifest. */
    method Flush() returns (id: nat)
      requires Agrees() && levels != []
      modifies this
      ensures Agrees() && id == old(nextSstableId) && nextSstableId == id + 1 && |levels| == |old(levels)|
      ensures Folded() == old(Folded())[id := 0] && disk == old(disk) + {id}
      ensures old(NewIdsAreFree()) ==> id !in old(disk) && NewIdsAreFree()
      ensures FileEntries(file) == old(FileEntries(file)) + [Flushed(old(walLsn), id, 0)]
    {
      id := nextSstableId;
      nextSstableId := nextSstableId + 1;
      disk := disk + {id};
      FlushedLevels(levels, Folded(), id);
      levels := levels[0 := [id] + levels[0]];
      AppendManifest(Flushed(walLsn, id, 0));
    }

    method AppendManifest(e: LogEntry)
      requires IsClean(file) && IsHistory(history, FileEntries(file))
      modifies `file, `history
      ensures IsHistory(history, FileEntries(file)) && history == old(history) + [Folded()]
      ensures IsClean(file) && Folded() == FoldOne(old(Folded()), e)
      ensures FileEntries(file) == old(FileEntries(file)) + [e]
    {
      AppendsEntry(file, e);
      FoldSnoc(map[], FileEntries(file), e);
      HistoryNext(history, FileEntries(file), e);
      file := Appended(file, e);
      history := history + [Folded()];
    }

    /**
     * The end of a compaction: the inputs leave their two levels, the outputs join the lower one. When the last
     * output was just full, one more was begun and dropped, and its id is used up.
     */
    method Compact(level: nat, removed: set<nat>, count: nat, dropped: bool) returns (added: seq<nat>)
      requires Agrees() && level + 1 < |levels|
      requires forall id :: id in removed ==> id in levels[level] || id in levels[level + 1]
      modifies this
      ensures Agrees() && nextSstableId == old(nextSstableId) + count + (if dropped then 1 else 0)
      ensures |levels| == |old(levels)|
      ensures added == Numbers(old(nextSstableId), count) && disk == old(disk) + (set id | id in added) - removed
      ensures old(NewIdsAreFree()) ==> NewIdsAreFree() && forall id :: id in added ==> id !in old(disk)
      ensures Folded() == FoldOne(old(Folded()), Compacted(removed, added, level + 1))
    {
      added := Numbers(nextSstableId, count);
      nextSstableId := nextSstableId + count + if dropped then 1 else 0;
      CompactionFits(levels, Folded(), level, removed, old(nextSstableId), count);
      disk := disk + (set id | id in added);
      levels := AfterCompaction(levels, level, removed, added);
      AppendManifest(Compacted(removed, added, level + 1));
      disk := disk - removed;
    }
  }

  /** The log position survives one boot, in memory, and is lost at the next: the checkpoint does not give it back. */
  method SecondBoot(m: ManifestStore, numLevels: nat, readable: set<nat>) returns (first: nat, second: nat)
    requires numLevels > 0 && FileEntries(m.file) != []
    modifies m
    ensures first == FoldLsn(0, old(FileEntries(m.file))) && second == 0
  {
    m.Boot(numLevels, readable);
    first := m.walLsn;
    m.Boot(numLevels, readable);
    second := m.walLsn;
  }

  /** A store that flushes once at some position, and is booted twice. */
  method LostPosition(lsn: nat) returns (first: nat, second: nat)
    ensures first == lsn + 1 && second == 0
  {
    var m := new ManifestStore(1);
    m.walLsn := lsn;
    var id := m.Flush();
    assert FileEntries(m.file) == [Flushed(lsn, id, 0)];
    first, second := SecondBoot(m, 1, {id});
  }

  /**
   * A manifest whose only line is torn, beside a table: a boot leaves it so and passes the table over, what is appended
   * then is lost with that line, and the next table takes the id of the one that is there.
   */
  method TornManifest(m: ManifestStore, e: LogEntry)
    requires m.file == Present([Corrupt], true) && m.disk == {0}
    modifies m
    ensures !m.Agrees() && m.Folded() == map[] && FileEntries(Appended(m.file, e)) == []
    ensures m.nextSstableId == 0 && m.disk == {0}
  {
    m.Boot(1, {0});
  }

  function Numbers(first: nat, count: nat): (ids: seq<nat>)
    ensures |ids| == count && forall i :: 0 <= i < count ==> ids[i] == first + i
  {
    seq(count, i requires 0 <= i < count => first + i)
  }

  function AfterCompaction(levels: seq<seq<nat>>, level: nat, removed: set<nat>, added: seq<nat>)
    : (after: seq<seq<nat>>)
    requires level + 1 < |levels|
    ensures |after| == |levels|
  {
    levels[level := Without(levels[level], removed)][level + 1 := added + Without(levels[level + 1], removed)]
  }

  lemma AddedBelow(m: LevelMap, removed: set<nat>, added: seq<nat>, level: nat, n: nat)
    requires forall id :: id in m || id in added ==> id < n
    ensures forall id :: id in AddedAll(m - removed, added, level) ==> id < n
  {
    AddedHas(m - removed, added, level);
  }

  lemma CompactionFits(levels: seq<seq<nat>>, m: LevelMap, level: nat, removed: set<nat>, first: nat, count: nat)
    requires LevelsAre(levels, m) && level + 1 < |levels| && forall id :: id in m ==> id < first
    requires forall id :: id in removed ==> id in levels[level] || id in levels[level + 1]
    ensures var added := Numbers(first, count);
            var after := FoldOne(m, Compacted(removed, added, level + 1));
            && LevelsAre(AfterCompaction(levels, level, removed, added), after)
            && forall id :: id in after ==> id < first + count
  {
    CompactedLevels(levels, m, level, removed, Numbers(first, count));
    AddedBelow(m, removed, Numbers(first, count), level + 1, first + count);
  }

  lemma CompactedOn(levels: seq<seq<nat>>, level: nat, removed: set<nat>, added: seq<nat>, l: nat)
    requires level + 1 < |levels| && l < |levels|
    ensures forall id :: id in AfterCompaction(levels, level, removed, added)[l] <==>
              if l == level then id in levels[l] && id !in removed
              else if l == level + 1 then id in added || (id in levels[l] && id !in removed)
              else id in levels[l]
  {
    WithoutHas(levels[level], removed);
    WithoutHas(levels[level + 1], removed);
  }

  lemma CompactedOnce(levels: seq<seq<nat>>, m: LevelMap, level: nat, removed: set<nat>, added: seq<nat>, l: nat)
    requires LevelsAre(levels, m) && level + 1 < |levels| && l < |levels| && NoRepeats(added)
    requires forall id :: id in added ==> id !in m
    ensures NoRepeats(AfterCompaction(levels, level, removed, added)[l])
  {
    assert NoRepeats(levels[l]);
    WithoutHas(levels[l], removed);
    if l == level + 1 {
      var kept := Without(levels[l], removed);
      forall i, j | 0 <= i < |added| && 0 <= j < |kept| ensures added[i] != kept[j] {
        assert kept[j] in kept && added[i] in added;
      }
    }
  }

  lemma CompactedLevels(levels: seq<seq<nat>>, m: LevelMap, level: nat, removed: set<nat>, added: seq<nat>)
    requires LevelsAre(levels, m) && level + 1 < |levels| && NoRepeats(added)
    requires forall id :: id in removed ==> id in levels[level] || id in levels[level + 1]
    requires forall id :: id in added ==> id !in m
    ensures LevelsAre(AfterCompaction(levels, level, removed, added), AddedAll(m - removed, added, level + 1))
  {
    var after, m' := AfterCompaction(levels, level, removed, added), AddedAll(m - removed, added, level + 1);
    AddedHas(m - removed, added, level + 1);
    forall l | 0 <= l < |after| ensures NoRepeats(after[l]) {
      CompactedOnce(levels, m, level, removed, added, l);
    }
    forall l, id | 0 <= l < |after| && id in after[l] ensures id in m' && m'[id] == l {
      CompactedOn(levels, level, removed, added, l);
      assert id !in added ==> id in levels[l];
    }
    forall id | id in m' ensures m'[id] < |after| && id in after[m'[id]] {
      CompactedOn(levels, level, removed, added, m'[id]);
      assert id !in added ==> id in m && id in levels[m[id]];
    }
  }
}
