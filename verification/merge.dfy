/** The theory of one k-way merge: what the cursors in the heap have in common at every step. */
module Merge {
  import opened Keys
  import opened Options
  import opened Versions
  import opened Runs
  import opened Heap

  /** The value of the first source, in priority order, that holds the key. */
  ghost function Newest(sources: seq<Run>, key: Key): Option<Buf>
  {
    if sources == [] then None
    else if Find(sources[0], key).Some? then Find(sources[0], key)
    else Newest(sources[1..], key)
  }

  ghost predicate AllAscending(sources: seq<Run>)
  {
    forall i {:trigger Ascending(sources[i])} :: 0 <= i < |sources| ==> Ascending(sources[i])
  }

  /** `pos[i]` items of source `i` are consumed; the heap holds a cursor for each source not yet at its end. */
  ghost predicate Frontier(sources: seq<Run>, pos: seq<nat>, heap: multiset<Cursor>)
  {
    && |pos| == |sources|
    && (forall i :: 0 <= i < |pos| ==> pos[i] <= |sources[i]|)
    && (forall c :: c in heap ==> heap[c] == 1 && IsCursor(sources, pos, c))
    && (forall i :: 0 <= i < |pos| && pos[i] < |sources[i]| ==> Cursor(sources[i][pos[i]..], i) in heap)
  }

  ghost predicate IsCursor(sources: seq<Run>, pos: seq<nat>, c: Cursor)
    requires |pos| == |sources|
  {
    && c.priority < |sources|
    && pos[c.priority] < |sources[c.priority]|
    && c.rest == sources[c.priority][pos[c.priority]..]
  }

  /** Every item before the frontier is at or before `last`, every later one at or after it. */
  ghost predicate SplitAt(sources: seq<Run>, pos: seq<nat>, last: Option<Key>)
    requires |pos| == |sources|
  {
    forall i, j :: 0 <= i < |sources| && 0 <= j < |sources[i]| ==>
      if j < pos[i] then last.Some? && LessEq(sources[i][j].key, last.value)
      else last.Some? ==> LessEq(last.value, sources[i][j].key)
  }

  lemma {:induction false} NewestAt(sources: seq<Run>, key: Key, p: nat)
    requires p < |sources|
    requires forall i :: 0 <= i < p ==> Find(sources[i], key).None?
    ensures Find(sources[p], key).Some? ==> Newest(sources, key) == Find(sources[p], key)
  {
    if p > 0 {
      assert sources[1..][p - 1] == sources[p];
      forall i | 0 <= i < p - 1 ensures Find(sources[1..][i], key).None? {
        assert sources[1..][i] == sources[i + 1];
      }
      NewestAt(sources[1..], key, p - 1);
    }
  }

  lemma {:induction false} NewestNone(sources: seq<Run>, key: Key)
    ensures Newest(sources, key).None? <==> forall i :: 0 <= i < |sources| ==> Find(sources[i], key).None?
  {
    if sources != [] {
      NewestNone(sources[1..], key);
      assert forall i :: 0 <= i < |sources[1..]| ==> sources[1..][i] == sources[i + 1];
      if Newest(sources[1..], key).None? && Find(sources[0], key).None? {
        forall i | 0 <= i < |sources| ensures Find(sources[i], key).None? {
          if i > 0 { assert sources[1..][i - 1] == sources[i]; }
        }
      }
    }
  }

  /** Where the key of an unconsumed item is least, every source that holds it has it at its frontier. */
  lemma LeastAtFrontier(sources: seq<Run>, pos: seq<nat>, heap: multiset<Cursor>, top: Cursor, i: nat, j: nat)
    requires AllAscending(sources) && Frontier(sources, pos, heap) && top in heap
    requires forall c :: c in heap ==> AtMost(top, c)
    requires i < |sources| && pos[i] <= j < |sources[i]|
    ensures LessEq(top.Key(), sources[i][j].key)
    ensures sources[i][j].key == top.Key() ==> j == pos[i] && top.priority <= i
  {
    assert IsCursor(sources, pos, top);
    var c := Cursor(sources[i][pos[i]..], i);
    assert AtMost(top, c);
    AtMostIs(top, c);
    if j > pos[i] {
      assert Ascending(sources[i]);
      assert Less(sources[i][pos[i]].key, sources[i][j].key);
      if top.Key() != c.Key() {
        LessTransitive(top.Key(), c.Key(), sources[i][j].key);
      }
      LessIrreflexive(top.Key());
    }
  }

  ghost function Consumed(pos: seq<nat>, i: nat): seq<nat>
    requires i < |pos|
  {
    pos[i := pos[i] + 1]
  }

  /** The heap after `top` is popped, advanced, and pushed back unless it is exhausted. */
  ghost function Requeued(heap: multiset<Cursor>, top: Cursor): multiset<Cursor>
    requires top.rest != []
  {
    var rest := heap - multiset{top};
    if |top.rest| > 1 then rest + multiset{Cursor(top.rest[1..], top.priority)} else rest
  }

  lemma FrontierMoves(sources: seq<Run>, pos: seq<nat>, heap: multiset<Cursor>, top: Cursor)
    requires Frontier(sources, pos, heap) && top in heap
    ensures IsCursor(sources, pos, top)
    ensures Frontier(sources, Consumed(pos, top.priority), Requeued(heap, top))
  {
    var p := top.priority;
    assert IsCursor(sources, pos, top);
    var pos', heap' := Consumed(pos, p), Requeued(heap, top);
    var next := Cursor(top.rest[1..], p);
    assert top.rest[1..] == sources[p][pos'[p]..];
    assert forall c :: c in heap && c.priority == p ==> IsCursor(sources, pos, c) && c.rest == top.rest;
    forall c | c in heap' ensures heap'[c] == 1 && IsCursor(sources, pos', c) {
      if c != next {
        assert c in heap && c != top;
        assert IsCursor(sources, pos, c);
      }
    }
    forall i | 0 <= i < |pos'| && pos'[i] < |sources[i]| ensures Cursor(sources[i][pos'[i]..], i) in heap' {
      if i != p {
        assert Cursor(sources[i][pos[i]..], i) in heap;
      }
    }
  }

  lemma SplitMoves(sources: seq<Run>, pos: seq<nat>, heap: multiset<Cursor>, top: Cursor, last: Option<Key>)
    requires AllAscending(sources) && Frontier(sources, pos, heap) && SplitAt(sources, pos, last) && top in heap
    requires forall c :: c in heap ==> AtMost(top, c)
    ensures IsCursor(sources, pos, top)
    ensures last.Some? ==> LessEq(last.value, top.Key())
    ensures SplitAt(sources, Consumed(pos, top.priority), Some(top.Key()))
  {
    var p := top.priority;
    assert IsCursor(sources, pos, top);
    assert top.rest[0] == sources[p][pos[p]];
    var pos' := Consumed(pos, p);
    forall i, j | 0 <= i < |sources| && 0 <= j < |sources[i]|
      ensures if j < pos'[i] then LessEq(sources[i][j].key, top.Key()) else LessEq(top.Key(), sources[i][j].key)
    {
      if j >= pos[i] {
        LeastAtFrontier(sources, pos, heap, top, i, j);
      } else if last.value != top.Key() && sources[i][j].key != last.value {
        LessTransitive(sources[i][j].key, last.value, top.Key());
      }
    }
  }

  /** A key not seen before comes off the heap with its newest value. */
  lemma PopIsNewest(sources: seq<Run>, pos: seq<nat>, heap: multiset<Cursor>, top: Cursor, last: Option<Key>)
    requires AllAscending(sources) && Frontier(sources, pos, heap) && SplitAt(sources, pos, last) && top in heap
    requires forall c :: c in heap ==> AtMost(top, c)
    requires top.rest != [] && last != Some(top.Key())
    ensures Newest(sources, top.Key()) == Some(top.rest[0].value)
  {
    var p, key := top.priority, top.Key();
    assert IsCursor(sources, pos, top);
    assert top.rest[0] == sources[p][pos[p]];
    SplitMoves(sources, pos, heap, top, last);
    assert Ascending(sources[p]);
    FindAt(sources[p], pos[p]);
    forall i | 0 <= i < p ensures Find(sources[i], key).None? {
      FindHolds(sources[i], key);
      forall j | 0 <= j < |sources[i]| ensures sources[i][j].key != key {
        if j >= pos[i] {
          LeastAtFrontier(sources, pos, heap, top, i, j);
        } else {
          LessAsymmetric(key, last.value);
        }
      }
    }
    NewestAt(sources, key, p);
  }

  /** No source holds a key strictly between the last one popped and the next. */
  lemma NothingBetween(sources: seq<Run>, pos: seq<nat>, heap: multiset<Cursor>, last: Option<Key>, key: Key)
    requires AllAscending(sources) && Frontier(sources, pos, heap) && SplitAt(sources, pos, last)
    requires last.Some? ==> Less(last.value, key)
    requires forall c :: c in heap ==> c.rest != [] && Less(key, c.Key())
    ensures Newest(sources, key) == None
  {
    forall i | 0 <= i < |sources| ensures Find(sources[i], key).None? {
      FindHolds(sources[i], key);
      forall j | 0 <= j < |sources[i]| ensures sources[i][j].key != key {
        if j < pos[i] {
          LessAsymmetric(key, last.value);
          LessIrreflexive(key);
        } else {
          var c := Cursor(sources[i][pos[i]..], i);
          assert c in heap && Less(key, sources[i][pos[i]].key);
          LessIrreflexive(key);
          if j > pos[i] {
            assert Ascending(sources[i]);
            LessTransitive(key, sources[i][pos[i]].key, sources[i][j].key);
          }
        }
      }
    }
    NewestNone(sources, key);
  }

  /** What a consumer of the merge keeps: the items of which it wants the newest version of each key. */
  type Keep = (Key, Buf) -> bool

  ghost function Kept(keep: Keep, key: Key, newest: Option<Buf>): Option<Buf>
  {
    if newest.Some? && keep(key, newest.value) then newest else None
  }

  ghost predicate EndsBy(out: Run, last: Option<Key>)
  {
    forall i {:trigger out[i]} :: 0 <= i < |out| ==> last.Some? && LessEq(out[i].key, last.value)
  }

  /** `out` is the merge of the sources up to and including `last`. */
  ghost predicate MergedTo(sources: seq<Run>, keep: Keep, last: Option<Key>, out: Run)
  {
    && Ascending(out)
    && EndsBy(out, last)
    && forall key :: last.Some? && LessEq(key, last.value) ==>
         Find(out, key) == Kept(keep, key, Newest(sources, key))
  }

  /** `out` is the whole merge: each kept key once, in order, with its newest value. */
  ghost predicate IsMerge(sources: seq<Run>, keep: Keep, out: Run)
  {
    Ascending(out) && forall key :: Find(out, key) == Kept(keep, key, Newest(sources, key))
  }

  ghost function Emitted(keep: Keep, out: Run, item: Item): Run
  {
    if keep(item.key, item.value) then out + [item] else out
  }

  lemma {:induction false} FindPastEnd(out: Run, key: Key, last: Key)
    requires forall i {:trigger out[i]} :: 0 <= i < |out| ==> LessEq(out[i].key, last)
    requires Less(last, key)
    ensures Find(out, key) == None
  {
    FindHolds(out, key);
    forall i | 0 <= i < |out| ensures out[i].key != key {
      LessAsymmetric(last, key);
      LessIrreflexive(key);
    }
  }

  lemma AscendingEmit(out: Run, item: Item, last: Option<Key>)
    requires Ascending(out)
    requires EndsBy(out, last)
    requires last.Some? ==> Less(last.value, item.key)
    ensures Ascending(out + [item])
    ensures forall i {:trigger (out + [item])[i]} :: 0 <= i < |out + [item]| ==> LessEq((out + [item])[i].key, item.key)
  {
    var r := out + [item];
    forall i | 0 <= i < |out| ensures Less(r[i].key, item.key) {
      assert r[i] == out[i];
      if out[i].key != last.value { LessTransitive(out[i].key, last.value, item.key); }
    }
    forall i, j | 0 <= i < j < |r| ensures Less(r[i].key, r[j].key) {
      if j < |out| { assert Less(out[i].key, out[j].key); }
    }
  }

  /** One new key off the heap extends the merge by that key, if it is kept. */
  lemma EmitStep(sources: seq<Run>, keep: Keep, pos: seq<nat>, heap: multiset<Cursor>, top: Cursor,
                 last: Option<Key>, out: Run)
    requires AllAscending(sources) && Frontier(sources, pos, heap) && SplitAt(sources, pos, last) && top in heap
    requires forall c :: c in heap ==> AtMost(top, c)
    requires top.rest != [] && last != Some(top.Key()) && MergedTo(sources, keep, last, out)
    ensures MergedTo(sources, keep, Some(top.Key()), Emitted(keep, out, top.rest[0]))
  {
    var item, key := top.rest[0], top.Key();
    var r := Emitted(keep, out, item);
    SplitMoves(sources, pos, heap, top, last);
    AscendingEmit(out, item, last);
    forall i {:trigger r[i]} | 0 <= i < |r| ensures LessEq(r[i].key, key) {
      if i < |out| {
        assert LessEq((out + [item])[i].key, item.key);
      }
    }
    forall k | LessEq(k, key) ensures Find(r, k) == Kept(keep, k, Newest(sources, k)) {
      FindConcat(out, [item], k);
      if last.Some? && LessEq(k, last.value) {
        NotBeyond(k, last.value, key);
      } else {
        FindNothing(out, k, last);
        if k == key {
          PopIsNewest(sources, pos, heap, top, last);
        } else {
          forall c | c in heap ensures c.rest != [] && Less(k, c.Key()) {
            AtMostIs(top, c);
            if top.Key() != c.Key() { LessTransitive(k, key, c.Key()); }
          }
          if last.Some? { LessConnected(k, last.value); }
          NothingBetween(sources, pos, heap, last, k);
        }
      }
    }
  }

  lemma NotBeyond(k: Key, last: Key, key: Key)
    requires LessEq(k, last) && Less(last, key)
    ensures k != key
  {
    LessAsymmetric(last, key);
    LessIrreflexive(key);
  }

  lemma FindNothing(out: Run, k: Key, last: Option<Key>)
    requires EndsBy(out, last)
    requires last.Some? ==> !LessEq(k, last.value)
    ensures Find(out, k) == None
  {
    if last.Some? {
      LessConnected(k, last.value);
      FindPastEnd(out, k, last.value);
    } else {
      EmptyWhenNone(out, last);
    }
  }

  lemma EmptyWhenNone(out: Run, last: Option<Key>)
    requires EndsBy(out, last)
    ensures last.None? ==> out == []
  {
    if out != [] {
      assert LessEq(out[0].key, out[0].key);
    }
  }

  /** Everything the merge loop keeps true between two steps. */
  ghost predicate Merging(sources: seq<Run>, keep: Keep, pos: seq<nat>, heap: multiset<Cursor>,
                          last: Option<Key>, out: Run)
  {
    Frontier(sources, pos, heap) && SplitAt(sources, pos, last) && MergedTo(sources, keep, last, out)
  }

  /** One turn of the loop: a repeated key is passed over, a new one is emitted if it is kept. */
  lemma MergeStep(sources: seq<Run>, keep: Keep, pos: seq<nat>, heap: multiset<Cursor>, top: Cursor,
                  last: Option<Key>, out: Run)
    requires AllAscending(sources) && Merging(sources, keep, pos, heap, last, out)
    requires top in heap && top.rest != [] && forall c :: c in heap ==> AtMost(top, c)
    ensures IsCursor(sources, pos, top)
    ensures Merging(sources, keep, Consumed(pos, top.priority), Requeued(heap, top), Some(top.Key()),
                    if last == Some(top.Key()) then out else Emitted(keep, out, top.rest[0]))
  {
    FrontierMoves(sources, pos, heap, top);
    SplitMoves(sources, pos, heap, top, last);
    if last != Some(top.Key()) {
      EmitStep(sources, keep, pos, heap, top, last, out);
    }
  }

  lemma NoneConsumed(sources: seq<Run>, pos: seq<nat>)
    requires |pos| == |sources| && SplitAt(sources, pos, None)
    ensures forall i :: 0 <= i < |sources| ==> pos[i] == 0 || sources[i] == []
  {
    forall i | 0 <= i < |sources| && sources[i] != [] ensures pos[i] == 0 {
      assert LessEq(sources[i][0].key, sources[i][0].key);
    }
  }

  /** When the heap is empty the merge is complete. */
  lemma MergeComplete(sources: seq<Run>, keep: Keep, pos: seq<nat>, last: Option<Key>, out: Run)
    requires AllAscending(sources) && Frontier(sources, pos, multiset{}) && SplitAt(sources, pos, last)
    requires MergedTo(sources, keep, last, out)
    ensures IsMerge(sources, keep, out)
  {
    forall k ensures Find(out, k) == Kept(keep, k, Newest(sources, k)) {
      if !(last.Some? && LessEq(k, last.value)) {
        FindNothing(out, k, last);
        if last.Some? {
          LessConnected(k, last.value);
          NothingBetween(sources, pos, multiset{}, last, k);
        } else {
          NoneConsumed(sources, pos);
          assert forall i :: 0 <= i < |sources| ==> sources[i] == [];
          NewestNone(sources, k);
        }
      }
    }
  }

  /** Each source's cursor, in priority order. */
  lemma FrontierStarts(sources: seq<Run>, heap: multiset<Cursor>)
    requires forall c :: c in heap <==>
               c.priority < |sources| && c.rest != [] && c.rest == sources[c.priority]
    requires forall c :: c in heap ==> heap[c] == 1
    ensures var pos := seq(|sources|, _ => 0);
            Frontier(sources, pos, heap) && SplitAt(sources, pos, None)
  {
    var pos: seq<nat> := seq(|sources|, _ => 0);
    forall c | c in heap ensures IsCursor(sources, pos, c) {
      assert sources[c.priority][0..] == sources[c.priority];
    }
    forall i | 0 <= i < |sources| && 0 < |sources[i]| ensures Cursor(sources[i][0..], i) in heap {
      assert sources[i][0..] == sources[i];
    }
  }
}
