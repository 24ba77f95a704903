/** The part of a run a range reader yields. */
module Ranges {
  import opened Keys
  import opened Options
  import opened Versions
  import opened Runs

  predicate Below(key: Key, from: Option<Key>)
  {
    from.Some? && Less(key, from.value)
  }

  predicate Above(key: Key, to: Option<Key>)
  {
    to.Some? && Less(to.value, key)
  }

  predicate Within(key: Key, from: Option<Key>, to: Option<Key>)
  {
    !Below(key, from) && !Above(key, to)
  }

  /** From item `n` on: skips keys below the range and stops at the first one above it. */
  function InRangeFrom(run: Run, n: nat, from: Option<Key>, to: Option<Key>): Run
    decreases |run| - n
  {
    if n >= |run| || Above(run[n].key, to) then []
    else if Below(run[n].key, from) then InRangeFrom(run, n + 1, from, to)
    else [run[n]] + InRangeFrom(run, n + 1, from, to)
  }

  function InRange(run: Run, from: Option<Key>, to: Option<Key>): Run
  {
    InRangeFrom(run, 0, from, to)
  }

  lemma {:induction false} InRangeItems(run: Run, n: nat, from: Option<Key>, to: Option<Key>)
    requires Ascending(run)
    ensures Ascending(InRangeFrom(run, n, from, to))
    ensures forall item :: item in InRangeFrom(run, n, from, to) ==> exists i :: n <= i < |run| && run[i] == item
    decreases |run| - n
  {
    if n < |run| && !Above(run[n].key, to) {
      InRangeItems(run, n + 1, from, to);
      var rest := InRangeFrom(run, n + 1, from, to);
      forall j | 0 <= j < |rest| ensures Less(run[n].key, rest[j].key) {
        assert rest[j] in rest;
        var i :| n + 1 <= i < |run| && run[i] == rest[j];
        assert Less(run[n].key, run[i].key);
      }
    }
  }

  lemma {:induction false} InRangeFinds(run: Run, n: nat, from: Option<Key>, to: Option<Key>, key: Key)
    requires Ascending(run) && n <= |run|
    ensures Find(InRangeFrom(run, n, from, to), key) == if Within(key, from, to) then Find(run[n..], key) else None
    decreases |run| - n
  {
    if n < |run| {
      assert run[n..][0] == run[n] && run[n..][1..] == run[n + 1..];
      if Above(run[n].key, to) {
        if Within(key, from, to) {
          KeysAbove(run, n, to.value, key);
        }
      } else {
        InRangeFinds(run, n + 1, from, to, key);
      }
    }
  }

  lemma KeysAbove(run: Run, n: nat, to: Key, key: Key)
    requires Ascending(run) && n < |run| && Less(to, run[n].key) && !Less(to, key)
    ensures Find(run[n..], key) == None
  {
    FindHolds(run[n..], key);
    forall i | n <= i < |run| ensures run[i].key != key {
      if i > n { LessTransitive(to, run[n].key, run[i].key); }
    }
  }

  /** The whole of what a range reader yields: the run's items within the range, in order. */
  lemma InRangeMeaning(run: Run, from: Option<Key>, to: Option<Key>)
    requires Ascending(run)
    ensures Ascending(InRange(run, from, to))
    ensures forall key :: Find(InRange(run, from, to), key) == if Within(key, from, to) then Find(run, key) else None
  {
    InRangeItems(run, 0, from, to);
    assert run[0..] == run;
    forall key ensures Find(InRange(run, from, to), key) == if Within(key, from, to) then Find(run, key) else None {
      InRangeFinds(run, 0, from, to, key);
    }
  }

  /** Starting further on, but still at or before the range, yields the same. */
  lemma {:induction false} InRangeSkips(run: Run, m: nat, n: nat, from: Option<Key>, to: Option<Key>)
    requires Ascending(run) && m <= n < |run|
    requires from.Some? && LessEq(run[n].key, from.value)
    ensures InRangeFrom(run, n, from, to) == InRangeFrom(run, m, from, to) || Crossed(from, to)
    decreases n - m
  {
    if m < n {
      assert Less(run[m].key, run[n].key);
      if run[n].key != from.value {
        LessTransitive(run[m].key, run[n].key, from.value);
      }
      if Above(run[m].key, to) {
        LessTransitive(to.value, run[m].key, from.value);
      } else {
        InRangeSkips(run, m + 1, n, from, to);
      }
    }
  }

  /** The first record from `n` on that is not good, or the end of the run. */
  ghost function Reach(run: Run, good: Item -> bool, n: nat): (k: nat)
    requires n <= |run|
    ensures n <= k <= |run|
    decreases |run| - n
  {
    if n == |run| || !good(run[n]) then n else Reach(run, good, n + 1)
  }

  ghost predicate IsWhole(run: Run, good: Item -> bool)
  {
    forall i :: 0 <= i < |run| ==> good(run[i])
  }

  lemma {:induction false} AllGood(run: Run, good: Item -> bool, n: nat)
    requires n <= |run| && forall i :: n <= i < |run| ==> good(run[i])
    ensures Reach(run, good, n) == |run|
    decreases |run| - n
  {
    if n < |run| {
      AllGood(run, good, n + 1);
    }
  }

  /** Reading only up to a place yields the first of what is in range. */
  lemma {:induction false} CutIsPrefix(run: Run, k: nat, n: nat, from: Option<Key>, to: Option<Key>)
    requires n <= k <= |run|
    ensures InRangeFrom(run[..k], n, from, to) <= InRangeFrom(run, n, from, to)
    decreases k - n
  {
    if n < k {
      CutIsPrefix(run, k, n + 1, from, to);
    }
  }

  /** The records in range from `n` on, up to the first one that is not good. */
  ghost function ReadableFrom(run: Run, good: Item -> bool, n: nat, from: Option<Key>, to: Option<Key>): Run
    requires n <= |run|
  {
    InRangeFrom(run[..Reach(run, good, n)], n, from, to)
  }

  /** What a reader yields at a record, before what it yields behind it. */
  ghost predicate ReadsOn(here: Run, behind: Run, item: Item, intact: bool, from: Option<Key>, to: Option<Key>)
  {
    here == if !intact || Above(item.key, to) then []
            else if Below(item.key, from) then behind
            else [item] + behind
  }

  /** The same from each record on, with what a reader does at it. */
  ghost predicate AreReadable(rests: seq<Run>, run: Run, good: Item -> bool, from: Option<Key>, to: Option<Key>)
  {
    && |rests| == |run| + 1 && rests[|run|] == []
    && forall n :: 0 <= n < |run| ==> ReadsOn(rests[n], rests[n + 1], run[n], good(run[n]), from, to)
  }

  lemma RestAt(rests: seq<Run>, run: Run, good: Item -> bool, from: Option<Key>, to: Option<Key>, n: nat, key: Key,
               doc: Buf, intact: bool)
    requires AreReadable(rests, run, good, from, to) && n < |run| && key == run[n].key
    requires (intact <==> good(run[n])) && (intact ==> doc == run[n].value)
    ensures rests[n] == if !intact || Above(key, to) then []
                        else if Below(key, from) then rests[n + 1]
                        else [Item(key, doc)] + rests[n + 1]
  {
    assert ReadsOn(rests[n], rests[n + 1], run[n], intact, from, to);
    assert intact ==> run[n] == Item(key, doc);
  }

  ghost function Readables(run: Run, good: Item -> bool, from: Option<Key>, to: Option<Key>): (rests: seq<Run>)
    ensures AreReadable(rests, run, good, from, to)
    ensures |rests| == |run| + 1 && forall n :: 0 <= n <= |run| ==> rests[n] == ReadableFrom(run, good, n, from, to)
  {
    seq(|run| + 1, n requires 0 <= n <= |run| => ReadableFrom(run, good, n, from, to))
  }

  /** They are the first of those in range, and all of them if all are good. */
  lemma ReadableRange(run: Run, good: Item -> bool, n: nat, from: Option<Key>, to: Option<Key>)
    requires n <= |run| && InRangeFrom(run, n, from, to) == InRange(run, from, to)
    ensures ReadableFrom(run, good, n, from, to) <= InRange(run, from, to)
    ensures IsWhole(run, good) ==> ReadableFrom(run, good, n, from, to) == InRange(run, from, to)
  {
    CutIsPrefix(run, Reach(run, good, n), n, from, to);
    if IsWhole(run, good) {
      AllGood(run, good, n);
      assert run[..|run|] == run;
    }
  }

  /** A range whose ends are the wrong way round. */
  predicate Crossed(from: Option<Key>, to: Option<Key>)
  {
    from.Some? && to.Some? && Less(to.value, from.value)
  }

  lemma {:induction false} CrossedIsEmpty(run: Run, n: nat, from: Option<Key>, to: Option<Key>)
    requires Crossed(from, to)
    ensures InRangeFrom(run, n, from, to) == []
    decreases |run| - n
  {
    if n < |run| && !Above(run[n].key, to) {
      LessConnected(run[n].key, to.value);
      if run[n].key != to.value {
        LessTransitive(run[n].key, to.value, from.value);
      }
      CrossedIsEmpty(run, n + 1, from, to);
    }
  }
}

/** The open iterator over one SSTable file that scans and compactions merge. */
module SSTableIterators {
  import opened Keys
  import opened Options
  import opened Versions
  import opened Runs
  import opened Ranges
  import opened Bytes
  import opened Layout
  import opened Blocks
  import opened RecordFormat
  import opened SSTables
  import opened SSTableReader

  class SSTableIterator {
    const c: Codec
    const file: Buf
    const index: SparseIndex
    const fromKey: Option<Key>
    const toKey: Option<Key>
    var key: Option<Key>
    var value: Option<Buf>
    var position: nat
    var indexOffset: nat
    var closed: bool
    ghost const cfg: Config
    ghost const run: Run
    /** What stands in the file where each record was written. */
    ghost const rec: Encoder
    /** Where each record starts, and where the last one ends. */
    ghost const offsets: seq<nat>
    /** What is in range and readable from each record on. */
    ghost const rests: seq<Run>
    /** The number of the record at `position`. */
    ghost var next: nat

    /** What never changes: the file holds the records of the run. */
    ghost predicate Sound()
    {
      && AllToldApart(c, cfg, rec, run) && LaidOut(rec, file, run, offsets)
      && AreReadable(rests, run, Undamaged(c, cfg, rec), fromKey, toKey)
    }

    ghost predicate Valid()
      reads `position, `indexOffset, `closed, `next
    {
      && |offsets| == |run| + 1
      && indexOffset == offsets[|run|]
      && (!closed ==> next <= |run| && position == offsets[next])
    }

    /** What `advance` has still to yield: the records in range up to the first damaged one. */
    ghost function Rest(): Run
      reads `closed, `next
    {
      if closed || next >= |rests| then [] else rests[next]
    }

    /** Opens the file at the block where the range may begin. */
    constructor Open(c: Codec, ghost cfg: Config, file: Buf, index: SparseIndex,
                     fromKey: Option<Key>, toKey: Option<Key>, ghost rec: Encoder,
                     ghost run: Run, ghost bits: Buf, ghost bloomSize: nat, ghost hashCount: nat)
      requires HoldsFile(c, cfg, rec, file, run, bits, bloomSize, hashCount)
      requires index == IndexOf(rec, cfg.blockSize, run)
      ensures Sound() && Valid() && Rest() <= InRange(run, fromKey, toKey)
      ensures IsWhole(run, Undamaged(c, cfg, rec)) ==> Rest() == InRange(run, fromKey, toKey)
    {
      this.c, this.cfg, this.file, this.index, this.run, this.rec := c, cfg, file, index, run, rec;
      this.fromKey, this.toKey := fromKey, toKey;
      key, value, closed := None, None, false;
      var end, start;
      ghost var first, starts, readable;
      end, start, first, starts, readable :=
        StartReading(c, cfg, file, index, fromKey, toKey, rec, run, bits, bloomSize, hashCount);
      indexOffset, position, next, offsets, rests := end, start, first, starts, readable;
    }

    /** Moves to the next record in range, or ends the iteration. */
    method Advance()
      requires Sound() && Valid()
      modifies this
      ensures Valid()
      ensures old(Rest()) == [] ==> key == None && value == None && Rest() == []
      ensures old(Rest()) != [] ==>
                key == Some(old(Rest())[0].key) && value == Some(old(Rest())[0].value) && Rest() == old(Rest())[1..]
    {
      if closed {
        key, value := None, None;
        return;
      }
      var item := NextInRange();
      if item.Some? {
        key, value := Some(item.value.key), Some(item.value.value);
      } else {
        key, value, closed := None, None, true;
      }
    }

    /** Reads on to the first record at or above the range's start; none past its end or behind a damaged one. */
    method NextInRange() returns (item: Option<Item>)
      requires Sound() && Valid() && !closed
      modifies this`position, this`next
      ensures Valid()
      ensures var rest := old(Rest());
              if rest == [] then item == None else item == Some(rest[0]) && Rest() == rest[1..]
    {
      ghost var rest := Rest();
      while position < indexOffset
        invariant Valid() && Rest() == rest
        decreases |run| - next
      {
        var p := ReadNext();
        if p.None? || !p.value.intact {
          return None;
        }
        var above, below := Above(p.value.key, toKey), Below(p.value.key, fromKey);
        if above {
          return None;
        }
        if !below {
          return Some(Item(p.value.key, p.value.doc));
        }
      }
      return None;
    }

    /** Takes apart the record at `position` and moves past it. */
    method ReadNext() returns (p: Option<Parsed>)
      requires Sound() && Valid() && !closed && position < indexOffset
      modifies this`position, this`next
      ensures Valid() && old(next) < |run| && next == old(next) + 1
      ensures p.Some? && old(Rest()) ==
              if !p.value.intact || Above(p.value.key, toKey) then []
              else if Below(p.value.key, fromKey) then Rest()
              else [Item(p.value.key, p.value.doc)] + Rest()
    {
      assert IsToldApart(c, cfg, run[next], rec(run[next]));
      if position + RECORD_HEADER_SIZE > indexOffset {
        return None;
      }
      p := ParseRecord(c, file, position, cfg, run[next], rec(run[next]));
      if p.Some? {
        position := p.value.next;
        RestAt(rests, run, Undamaged(c, cfg, rec), fromKey, toKey, next, p.value.key, p.value.doc, p.value.intact);
      }
      next := next + 1;
    }
  }

  /** Where the records end, and where to begin; and what the file holds from there on. */
  method StartReading(c: Codec, ghost cfg: Config, file: Buf, index: SparseIndex, fromKey: Option<Key>,
                      toKey: Option<Key>, ghost rec: Encoder, ghost run: Run, ghost bits: Buf, ghost bloomSize: nat,
                      ghost hashCount: nat)
    returns (indexOffset: nat, position: nat, ghost next: nat, ghost offsets: seq<nat>, ghost rests: seq<Run>)
    requires HoldsFile(c, cfg, rec, file, run, bits, bloomSize, hashCount)
    requires index == IndexOf(rec, cfg.blockSize, run)
    ensures LaidOut(rec, file, run, offsets) && AreReadable(rests, run, Undamaged(c, cfg, rec), fromKey, toKey)
    ensures |offsets| == |rests| == |run| + 1 && indexOffset == offsets[|run|]
    ensures next <= |run| && position == offsets[next] && rests[next] <= InRange(run, fromKey, toKey)
    ensures IsWhole(run, Undamaged(c, cfg, rec)) ==> rests[next] == InRange(run, fromKey, toKey)
  {
    offsets := Offsets(rec, run);
    rests := Readables(run, Undamaged(c, cfg, rec), fromKey, toKey);
    StoredIsLaidOut(rec, file, run);
    indexOffset := ReadIndexOffset(c, cfg, file, rec, run, bits, bloomSize, hashCount);
    position, next := StartPosition(cfg, index, fromKey, toKey, rec, run);
    ReadableRange(run, Undamaged(c, cfg, rec), next, fromKey, toKey);
  }

  /** The byte position to read from: the block the range may begin in. */
  method StartPosition(ghost cfg: Config, index: SparseIndex, fromKey: Option<Key>, toKey: Option<Key>,
                       ghost rec: Encoder, ghost run: Run)
    returns (position: nat, ghost next: nat)
    requires Ascending(run) && index == IndexOf(rec, cfg.blockSize, run)
    ensures next <= |run| && position == Offset(rec, run, next)
    ensures InRangeFrom(run, next, fromKey, toKey) == InRange(run, fromKey, toKey)
  {
    position := 0;
    ghost var at := -1;
    if fromKey.Some? && fromKey.value != [] && |index| > 0 {
      IndexAscends(rec, cfg.blockSize, run);
      position, at := SparseIndexLookup(index, fromKey.value);
    }
    StartsInTime(rec, cfg.blockSize, run, fromKey, toKey, at);
    next := if at < 0 then 0 else Marks(rec, cfg.blockSize, run)[at];
  }

  ghost function Offsets(rec: Encoder, run: Run): (offsets: seq<nat>)
    ensures |offsets| == |run| + 1
    ensures forall i :: 0 <= i <= |run| ==> offsets[i] == Offset(rec, run, i)
  {
    seq(|run| + 1, i requires 0 <= i <= |run| => Offset(rec, run, i))
  }

  /** The records of a run lie in the file one after another, each where its offset says. */
  ghost predicate LaidOut(rec: Encoder, file: Buf, run: Run, offsets: seq<nat>)
  {
    && |offsets| == |run| + 1
    && (forall i {:trigger rec(run[i])} :: 0 <= i < |run| ==>
          && offsets[i + 1] == offsets[i] + |rec(run[i])| <= |file|
          && offsets[i + 1] <= offsets[|run|]
          && file[offsets[i]..offsets[i + 1]] == rec(run[i]))
    && (forall i :: 0 <= i < |run| ==> offsets[i] < offsets[|run|])
  }

  lemma RecordLaidOut(rec: Encoder, file: Buf, run: Run, i: nat)
    requires i < |run| && DataOf(rec, run) <= file
    ensures var pos, end := Offset(rec, run, i), Offset(rec, run, i + 1);
            && end == pos + |rec(run[i])| <= |file|
            && end <= Offset(rec, run, |run|)
            && file[pos..end] == rec(run[i])
  {
    OffsetStep(rec, run, i);
    DataSlice(rec, run, i, |run|);
    PrefixSlices(file, DataOf(rec, run));
  }

  lemma StoredIsLaidOut(rec: Encoder, file: Buf, run: Run)
    requires DataOf(rec, run) <= file
    ensures LaidOut(rec, file, run, Offsets(rec, run))
    ensures Offset(rec, run, |run|) == |DataOf(rec, run)|
  {
    var offsets := Offsets(rec, run);
    DataSlice(rec, run, |run|, |run|);
    forall i {:trigger rec(run[i])} | 0 <= i < |run|
      ensures offsets[i + 1] == offsets[i] + |rec(run[i])| <= |file|
      ensures offsets[i + 1] <= offsets[|run|]
      ensures file[offsets[i]..offsets[i + 1]] == rec(run[i])
    {
      RecordLaidOut(rec, file, run, i);
    }
    forall i | 0 <= i < |run| ensures offsets[i] < offsets[|run|] {
      OffsetsIncrease(rec, run, i, |run|);
    }
  }

  /** The sparse index never starts a range reader past a key in its range. */
  lemma StartsInTime(rec: Encoder, blockSize: nat, run: Run, from: Option<Key>, to: Option<Key>, at: int)
    requires Ascending(run) && -1 <= at < |IndexOf(rec, blockSize, run)|
    requires at >= 0 ==> from.Some? && LessEq(IndexOf(rec, blockSize, run)[at].0, from.value)
    ensures var n := if at < 0 then 0 else Marks(rec, blockSize, run)[at];
            && n <= |run|
            && Offset(rec, run, n) == BlockStart(IndexOf(rec, blockSize, run), at)
            && InRangeFrom(run, n, from, to) == InRange(run, from, to)
  {
    MarksMatch(rec, blockSize, run);
    assert run[..0] == [] && run[0..] == run;
    if at >= 0 {
      var n := Marks(rec, blockSize, run)[at];
      InRangeSkips(run, 0, n, from, to);
      if Crossed(from, to) {
        CrossedIsEmpty(run, 0, from, to);
        CrossedIsEmpty(run, n, from, to);
      }
    }
  }
}
