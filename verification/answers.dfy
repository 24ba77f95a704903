/** Which of many tables answers, when each may answer or not and the newest one that does is taken. */
module TableAnswers {
  import opened Options
  import opened Versions
  import opened Compaction
  import opened DiskReads

  /** What one table answers for a key that is understood. */
  type Reader = Table -> Option<Buf>

  ghost predicate IsTop(ts: set<Table>, rd: Reader, t: Table)
  {
    t in ts && rd(t).Some? && forall u :: u in ts && rd(u).Some? ==> u.id <= t.id
  }

  ghost function Answer(ts: set<Table>, rd: Reader): Option<Buf>
  {
    if exists t :: IsTop(ts, rd, t) then rd(Top(ts, rd)) else None
  }

  ghost function Top(ts: set<Table>, rd: Reader): (t: Table)
    requires exists t :: IsTop(ts, rd, t)
    ensures IsTop(ts, rd, t)
  {
    var t :| IsTop(ts, rd, t);
    t
  }

  lemma {:induction false} TopExists(ts: set<Table>, rd: Reader)
    requires exists t :: t in ts && rd(t).Some?
    ensures exists t :: IsTop(ts, rd, t)
    decreases ts
  {
    var t :| t in ts && rd(t).Some?;
    var rest := ts - {t};
    if exists u :: u in rest && rd(u).Some? {
      TopExists(rest, rd);
      var u :| IsTop(rest, rd, u);
      assert IsTop(ts, rd, if u.id < t.id then t else u);
    } else {
      assert forall u :: u in ts && rd(u).Some? ==> u == t || u in rest;
      assert IsTop(ts, rd, t);
    }
  }

  lemma AnswerIs(ts: set<Table>, rd: Reader, t: Table)
    requires UniqueIds(ts) && IsTop(ts, rd, t)
    ensures Answer(ts, rd) == rd(t)
  {
    assert Top(ts, rd).id == t.id;
  }

  lemma AnswerNone(ts: set<Table>, rd: Reader)
    ensures Answer(ts, rd).None? <==> forall t :: t in ts ==> rd(t).None?
  {
    if exists t :: t in ts && rd(t).Some? {
      TopExists(ts, rd);
    }
  }

  /** The top table, when any table answers. */
  lemma TopOf(ts: set<Table>, rd: Reader) returns (t: Table)
    requires UniqueIds(ts) && Answer(ts, rd).Some?
    ensures IsTop(ts, rd, t) && Answer(ts, rd) == rd(t)
  {
    t := Top(ts, rd);
  }

  /** Newer tables come first. */
  lemma AnswerOver(newer: set<Table>, rest: set<Table>, rd: Reader)
    requires UniqueIds(rest + newer) && forall t, u :: t in newer && u in rest ==> u.id < t.id
    ensures Answer(rest + newer, rd) == if Answer(newer, rd).Some? then Answer(newer, rd) else Answer(rest, rd)
  {
    AnswerNone(newer, rd);
    AnswerNone(rest, rd);
    AnswerNone(rest + newer, rd);
    if Answer(newer, rd).Some? {
      var t := TopOf(newer, rd);
      AnswerIs(rest + newer, rd, t);
    } else if Answer(rest, rd).Some? {
      var t := TopOf(rest, rd);
      AnswerIs(rest + newer, rd, t);
    }
  }

  /** Of the tables that answer, no outside one is newer than every one inside. */
  ghost predicate TopIsWithin(all: set<Table>, within: set<Table>, rd: Reader)
  {
    forall t :: t in all && t !in within && rd(t).Some? ==> exists u :: u in within && rd(u).Some? && u.id > t.id
  }

  lemma AnswerSplit(all: set<Table>, within: set<Table>, rd: Reader)
    requires UniqueIds(all) && within <= all
    ensures Answer(all, rd) ==
            if Answer(within, rd).Some? && TopIsWithin(all, within, rd) then Answer(within, rd)
            else Answer(all - within, rd)
  {
    AnswerNone(within, rd);
    AnswerNone(all - within, rd);
    AnswerNone(all, rd);
    if Answer(all, rd).Some? {
      var t := TopOf(all, rd);
      if t in within {
        AnswerIs(within, rd, t);
        assert forall u :: u in all && u !in within && rd(u).Some? ==> u.id < t.id;
      } else {
        AnswerIs(all - within, rd, t);
        assert forall u :: u in within && rd(u).Some? ==> u.id <= t.id;
      }
    }
  }
}

/**
 * What `get` reads on disk. A table that lacks the plain record is asked for an old version before the next
 * table is tried; so a version can come before a newer plain record in a table further down.
 */
module GetReads {
  import opened Keys
  import opened Options
  import opened Versions
  import opened VersionedKeys
  import opened Runs
  import opened Layout
  import opened SSTables
  import opened StoredVersions
  import opened Compaction
  import opened DiskReads
  import opened TableAnswers

  /** The old version a table answers a key with, at the snapshot of the read. */
  type Older = (Table, Key) -> Option<Buf>

  ghost function Reading(older: Older, key: Key): Reader
  {
    (t: Table) => if Has(t, key) then Find(t.run, key) else older(t, key)
  }

  /** The table loop of `get`. */
  ghost function GetLoop(stack: seq<Table>, key: Key, older: Older): Option<Buf>
  {
    if stack == [] then None
    else if Has(stack[0], key) then Find(stack[0].run, key)
    else if older(stack[0], key).Some? then older(stack[0], key)
    else GetLoop(stack[1..], key, older)
  }

  /** On disk, from the newest table that answers at all. */
  ghost function Got(ts: set<Table>, key: Key, older: Older): Option<Buf>
  {
    Answer(ts, Reading(older, key))
  }

  lemma DescendingIds(stack: seq<Table>)
    requires Descending(stack)
    ensures UniqueIds(Elements(stack))
  {
    LookupIsRecord(stack, []);
  }

  lemma FirstAndRest(stack: seq<Table>)
    requires stack != [] && Descending(stack)
    ensures Elements(stack) == Elements(stack[1..]) + {stack[0]} && Descending(stack[1..])
    ensures forall t :: t in Elements(stack[1..]) ==> t.id < stack[0].id
  {
    assert stack == [stack[0]] + stack[1..];
  }

  /** In descending order the first table that answers is the newest. */
  lemma FirstIsTop(top: Table, rest: set<Table>, rd: Reader)
    requires UniqueIds(rest) && forall t :: t in rest ==> t.id < top.id
    ensures Answer(rest + {top}, rd) == if rd(top).Some? then rd(top) else Answer(rest, rd)
  {
    AnswerNone({top}, rd);
    AnswerOver({top}, rest, rd);
    if rd(top).Some? {
      AnswerIs({top}, rd, top);
    }
  }

  lemma {:induction false} LoopIsGot(stack: seq<Table>, key: Key, older: Older)
    requires Descending(stack)
    ensures UniqueIds(Elements(stack))
    ensures GetLoop(stack, key, older) == Got(Elements(stack), key, older)
  {
    if stack == [] {
      AnswerNone(Elements(stack), Reading(older, key));
    } else {
      FirstAndRest(stack);
      LoopIsGot(stack[1..], key, older);
      FirstIsTop(stack[0], Elements(stack[1..]), Reading(older, key));
    }
    DescendingIds(stack);
  }

  /** The newest table that answers has the plain record, or a version that reads the same as the newest one. */
  ghost predicate VersionsAgree(ts: set<Table>, key: Key, older: Older, isDeleted: Tombstone)
  {
    forall t :: IsTop(ts, Reading(older, key), t) && !Has(t, key) ==>
      Live(isDeleted, older(t, key)) == Live(isDeleted, Record(ts, key))
  }

  /** Exactly then does `get` return what the newest plain record says. */
  lemma GotIff(ts: set<Table>, key: Key, older: Older, isDeleted: Tombstone)
    requires UniqueIds(ts)
    ensures Live(isDeleted, Got(ts, key, older)) == Live(isDeleted, Record(ts, key))
            <==> VersionsAgree(ts, key, older, isDeleted)
  {
    var rd := Reading(older, key);
    AnswerNone(ts, rd);
    RecordNone(ts, key);
    if Got(ts, key, older).Some? {
      var t := TopOf(ts, rd);
      if Has(t, key) {
        assert IsHolder(ts, key, t);
        RecordIs(ts, key, t);
      }
      assert forall u :: IsTop(ts, rd, u) ==> u == t;
    }
  }

  /** No table above the newest holder of the plain record answers with a version. */
  ghost predicate NoVersionAbove(ts: set<Table>, key: Key, older: Older)
  {
    forall t :: t in ts && older(t, key).Some? ==> exists u :: u in ts && Has(u, key) && u.id >= t.id
  }

  lemma NoneAboveAgrees(ts: set<Table>, key: Key, older: Older, isDeleted: Tombstone)
    requires UniqueIds(ts) && NoVersionAbove(ts, key, older)
    ensures VersionsAgree(ts, key, older, isDeleted) && Got(ts, key, older) == Record(ts, key)
  {
    var rd := Reading(older, key);
    AnswerNone(ts, rd);
    RecordNone(ts, key);
    if Got(ts, key, older).Some? {
      var t := TopOf(ts, rd);
      assert forall u :: u in ts && Has(u, key) ==> rd(u).Some? && u.id <= t.id;
      assert Has(t, key);
      assert IsHolder(ts, key, t);
      RecordIs(ts, key, t);
    }
  }

  /** The table holds a version of the document the snapshot may see. */
  ghost predicate HasVersion(t: Table, key: Key, snapshot: nat)
  {
    exists k :: Has(t, k) && IsVersionOf(k, key, snapshot)
  }

  /** Tables answer with versions they hold. */
  ghost predicate OnlyVersions(older: Older, snapshot: nat)
  {
    forall t, key :: older(t, key).Some? ==> HasVersion(t, key, snapshot)
  }

  /** What the code does: the version `readVersionedFromDisk` finds in the table. */
  ghost function CodeOlder(f: Format, snapshot: nat): Older
  {
    (t: Table, key: Key) => if Ascending(t.run) then StoredVersion(f.rec, f.blockSize, t.run, key, snapshot) else None
  }

  lemma CodeFindsVersions(f: Format, snapshot: nat)
    ensures OnlyVersions(CodeOlder(f, snapshot), snapshot)
  {
    forall t: Table, key | CodeOlder(f, snapshot)(t, key).Some? ensures HasVersion(t, key, snapshot) {
      FoundIsStored(f.rec, f.blockSize, t.run, key, snapshot);
      var k :| IsVersionOf(k, key, snapshot) &&
            Find(t.run, k) == StoredVersion(f.rec, f.blockSize, t.run, key, snapshot);
      assert Has(t, k);
    }
  }
}
