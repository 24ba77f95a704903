/** Ascending runs of key-value pairs: what a memtable, an SSTable or a merge yields in order. */
module Runs {
  import opened Keys
  import opened Options
  import opened Versions

  datatype Item = Item(key: Key, value: Buf)

  type Run = seq<Item>

  ghost predicate Ascending(run: Run)
  {
    forall i, j {:trigger Less(run[i].key, run[j].key)} :: 0 <= i < j < |run| ==> Less(run[i].key, run[j].key)
  }

  function Find(run: Run, key: Key): Option<Buf>
  {
    if run == [] then None
    else if run[0].key == key then Some(run[0].value)
    else Find(run[1..], key)
  }

  ghost predicate Holds(run: Run, key: Key)
  {
    exists i :: 0 <= i < |run| && run[i].key == key
  }

  lemma {:induction false} FindHolds(run: Run, key: Key)
    ensures Find(run, key).Some? <==> Holds(run, key)
  {
    if run != [] {
      FindHolds(run[1..], key);
      if Holds(run[1..], key) {
        var i :| 0 <= i < |run[1..]| && run[1..][i].key == key;
        assert run[i + 1].key == key;
      }
      if Holds(run, key) && run[0].key != key {
        var i :| 0 <= i < |run| && run[i].key == key;
        assert run[1..][i - 1].key == key;
      }
    }
  }

  lemma {:induction false} FindAt(run: Run, i: nat)
    requires Ascending(run) && i < |run|
    ensures Find(run, run[i].key) == Some(run[i].value)
  {
    if i > 0 {
      assert Less(run[0].key, run[i].key);
      LessIrreflexive(run[i].key);
      FindAt(run[1..], i - 1);
    }
  }

  lemma {:induction false} FindConcat(a: Run, b: Run, key: Key)
    ensures Find(a + b, key) == if Find(a, key).Some? then Find(a, key) else Find(b, key)
  {
    if a == [] {
      assert a + b == b;
    } else {
      assert (a + b)[1..] == a[1..] + b;
      FindConcat(a[1..], b, key);
    }
  }

  /** Ascending runs are decided by what they find. */
  lemma {:induction false} RunsByFind(a: Run, b: Run)
    requires Ascending(a) && Ascending(b)
    requires forall key :: Find(a, key) == Find(b, key)
    ensures a == b
  {
    EmptyIff(a);
    EmptyIff(b);
    if a != [] {
      HeadIsLeast(a, b);
      HeadIsLeast(b, a);
      LessConnected(a[0].key, b[0].key);
      forall key ensures Find(a[1..], key) == Find(b[1..], key) {
        assert Find(a, key) == Find(b, key);
        if key == a[0].key {
          HeadNotInTail(a);
          HeadNotInTail(b);
        }
      }
      assert Find(a, a[0].key) == Find(b, a[0].key);
      RunsByFind(a[1..], b[1..]);
      assert a == [a[0]] + a[1..] && b == [b[0]] + b[1..];
    }
  }

  lemma EmptyIff(a: Run)
    ensures a == [] <==> forall key :: Find(a, key).None?
  {
    if a != [] {
      assert Find(a, a[0].key).Some?;
    }
  }

  lemma HeadNotInTail(a: Run)
    requires Ascending(a) && a != []
    ensures Find(a[1..], a[0].key) == None
  {
    FindHolds(a[1..], a[0].key);
    if Holds(a[1..], a[0].key) {
      var i :| 0 <= i < |a[1..]| && a[1..][i].key == a[0].key;
      assert Less(a[0].key, a[i + 1].key);
      LessIrreflexive(a[0].key);
    }
  }

  lemma HeadIsLeast(a: Run, b: Run)
    requires Ascending(a) && Ascending(b) && a != [] && b != []
    requires forall key :: Find(a, key) == Find(b, key)
    ensures !Less(a[0].key, b[0].key)
  {
    assert Find(b, a[0].key).Some?;
    FindHolds(b, a[0].key);
    var i :| 0 <= i < |b| && b[i].key == a[0].key;
    LessIrreflexive(b[0].key);
    if Less(a[0].key, b[0].key) {
      if i > 0 {
        assert Less(b[0].key, b[i].key);
        LessTransitive(b[0].key, a[0].key, b[0].key);
      }
    }
  }
}

/** The binary heap that drives every k-way merge. */
module Heap {
  import opened Keys
  import opened Runs

  /** An open iterator: what it still yields, and its rank among the merged sources. */
  datatype Cursor = Cursor(rest: Run, priority: nat)
  {
    function Key(): Key
      requires rest != []
    {
      rest[0].key
    }
  }

  /** Smaller key first, and on equal keys the smaller priority. */
  predicate Before(a: Cursor, b: Cursor)
    requires a.rest != [] && b.rest != []
  {
    if a.Key() != b.Key() then Less(a.Key(), b.Key()) else a.priority < b.priority
  }

  predicate AtMost(a: Cursor, b: Cursor)
  {
    a.rest != [] && b.rest != [] && !Before(b, a)
  }

  lemma AtMostIs(a: Cursor, b: Cursor)
    requires a.rest != [] && b.rest != []
    ensures AtMost(a, b) <==> Less(a.Key(), b.Key()) || (a.Key() == b.Key() && a.priority <= b.priority)
  {
    LessConnected(a.Key(), b.Key());
    LessAsymmetric(a.Key(), b.Key());
  }

  lemma AtMostTransitive(a: Cursor, b: Cursor, c: Cursor)
    requires AtMost(a, b) && AtMost(b, c)
    ensures AtMost(a, c)
  {
    AtMostIs(a, b);
    AtMostIs(b, c);
    AtMostIs(a, c);
    if Less(a.Key(), b.Key()) && Less(b.Key(), c.Key()) {
      LessTransitive(a.Key(), b.Key(), c.Key());
    }
  }

  lemma AtMostTotal(a: Cursor, b: Cursor)
    requires a.rest != [] && b.rest != []
    ensures Before(a, b) ==> AtMost(a, b)
    ensures AtMost(a, a)
  {
    AtMostIs(a, b);
  }

  function Parent(i: int): int
  {
    (i - 1) / 2
  }

  ghost predicate NoneEmpty(h: seq<Cursor>)
  {
    forall i :: 0 <= i < |h| ==> h[i].rest != []
  }

  /** Heap-ordered, but for the cursor at `i`, which may still have to rise. */
  ghost predicate RisingAt(h: seq<Cursor>, i: int)
  {
    && NoneEmpty(h)
    && (forall j :: 0 < j < |h| && j != i ==> AtMost(h[Parent(j)], h[j]))
    && (forall j :: 0 < i < j < |h| && Parent(j) == i ==> AtMost(h[Parent(i)], h[j]))
  }

  /** Heap-ordered, but for the cursor at `i`, which may still have to sink. */
  ghost predicate SinkingAt(h: seq<Cursor>, i: int)
  {
    && NoneEmpty(h)
    && (forall j :: 0 < j < |h| && Parent(j) != i ==> AtMost(h[Parent(j)], h[j]))
    && (forall j :: 0 < i < j < |h| && Parent(j) == i ==> AtMost(h[Parent(i)], h[j]))
  }

  lemma RiseStep(h: seq<Cursor>, i: nat)
    requires 0 < i < |h| && RisingAt(h, i) && Before(h[i], h[Parent(i)])
    ensures RisingAt(h[i := h[Parent(i)]][Parent(i) := h[i]], Parent(i))
  {
    var p := Parent(i);
    var h' := h[i := h[p]][p := h[i]];
    AtMostTotal(h[i], h[p]);
    forall j | 0 < j < |h| && j != p ensures AtMost(h'[Parent(j)], h'[j]) {
      if Parent(j) == p && j != i {
        AtMostTransitive(h[i], h[p], h[j]);
      }
    }
    forall j | 0 < p < j < |h| && Parent(j) == p ensures AtMost(h'[Parent(p)], h'[j]) {
      assert AtMost(h[Parent(p)], h[p]);
      if j != i {
        AtMostTransitive(h[Parent(p)], h[p], h[j]);
      }
    }
  }

  /** `mid` is the lesser of `i` and its left child, `min` the lesser of `mid` and the right child. */
  lemma LeastChild(h: seq<Cursor>, i: nat, mid: nat, min: nat)
    requires i < |h| && mid < |h| && min < |h| && NoneEmpty(h)
    requires if mid == i then 2 * i + 1 < |h| ==> !Before(h[2 * i + 1], h[i])
             else mid == 2 * i + 1 && Before(h[mid], h[i])
    requires if min == mid then 2 * i + 2 < |h| ==> !Before(h[2 * i + 2], h[mid])
             else min == 2 * i + 2 && Before(h[min], h[mid])
    ensures forall j :: 0 < j < |h| && Parent(j) == i ==> AtMost(h[min], h[j])
    ensures AtMost(h[min], h[i])
  {
    AtMostTotal(h[min], h[mid]);
    AtMostTotal(h[mid], h[mid]);
    AtMostTotal(h[mid], h[i]);
    AtMostTotal(h[min], h[min]);
    AtMostTransitive(h[min], h[mid], h[i]);
    forall j | 0 < j < |h| && Parent(j) == i ensures AtMost(h[min], h[j]) {
      assert j == 2 * i + 1 || j == 2 * i + 2;
      if j == 2 * i + 1 {
        AtMostTransitive(h[min], h[mid], h[j]);
      }
    }
  }

  lemma SinkStep(h: seq<Cursor>, i: nat, min: nat)
    requires i < |h| && SinkingAt(h, i)
    requires 0 < min < |h| && Parent(min) == i && AtMost(h[min], h[i])
    requires forall j :: 0 < j < |h| && Parent(j) == i ==> AtMost(h[min], h[j])
    ensures SinkingAt(h[i := h[min]][min := h[i]], min)
  {
    var h' := h[i := h[min]][min := h[i]];
    forall j | 0 < j < |h| && Parent(j) != min ensures AtMost(h'[Parent(j)], h'[j]) {
      if j == min {
        assert h'[j] == h[i] && h'[Parent(j)] == h[min];
      } else if j == i {
        assert AtMost(h[Parent(i)], h[min]);
        assert h'[j] == h[min] && h'[Parent(j)] == h[Parent(j)];
      } else if Parent(j) == i {
        assert h'[j] == h[j] && h'[Parent(j)] == h[min];
      } else {
        assert h'[j] == h[j] && h'[Parent(j)] == h[Parent(j)];
      }
    }
    forall j | 0 < min < j < |h| && Parent(j) == min ensures AtMost(h'[Parent(min)], h'[j]) {
      assert AtMost(h[Parent(j)], h[j]);
      assert h'[j] == h[j] && h'[Parent(min)] == h[min];
    }
  }

  class MergeHeap {
    var heap: seq<Cursor>

    ghost predicate Valid()
      reads this
    {
      && NoneEmpty(heap)
      && forall j :: 0 < j < |heap| ==> AtMost(heap[Parent(j)], heap[j])
    }

    constructor ()
      ensures Valid() && heap == []
    {
      heap := [];
    }

    method Push(c: Cursor)
      requires Valid() && c.rest != []
      modifies this
      ensures Valid() && multiset(heap) == old(multiset(heap)) + multiset{c}
    {
      heap := heap + [c];
      SiftUp(|heap| - 1);
    }

    /** Removes a cursor that no other in the heap comes before. */
    method Pop() returns (top: Cursor)
      requires Valid() && heap != []
      modifies this
      ensures Valid() && multiset(heap) == old(multiset(heap)) - multiset{top}
      ensures top in old(heap)
      ensures forall c :: c in old(heap) ==> AtMost(top, c)
    {
      RootIsLeast();
      ghost var before := heap;
      Swap(0, |heap| - 1);
      top := heap[|heap| - 1];
      assert heap == heap[..|heap| - 1] + [top];
      heap := heap[..|heap| - 1];
      if |heap| > 0 {
        forall j | 0 < j < |heap| && Parent(j) != 0 ensures AtMost(heap[Parent(j)], heap[j]) {
          assert heap[j] == before[j] && heap[Parent(j)] == before[Parent(j)];
        }
        SiftDown(0);
      }
    }

    method Swap(a: nat, b: nat)
      requires a < |heap| && b < |heap|
      modifies this
      ensures heap == old(heap)[a := old(heap)[b]][b := old(heap)[a]]
      ensures multiset(heap) == old(multiset(heap))
    {
      heap := heap[a := heap[b]][b := heap[a]];
    }

    method SiftUp(start: nat)
      requires start < |heap| && RisingAt(heap, start)
      modifies this
      ensures Valid() && multiset(heap) == old(multiset(heap))
    {
      var i: nat := start;
      while i > 0
        invariant 0 <= i < |heap| && RisingAt(heap, i) && multiset(heap) == old(multiset(heap))
      {
        var p := Parent(i);
        if Before(heap[i], heap[p]) {
          RiseStep(heap, i);
          Swap(i, p);
          i := p;
        } else {
          break;
        }
      }
    }

    method SiftDown(start: nat)
      requires start < |heap| && SinkingAt(heap, start)
      modifies this
      ensures Valid() && multiset(heap) == old(multiset(heap))
    {
      var i: nat := start;
      while true
        invariant i < |heap| && SinkingAt(heap, i) && multiset(heap) == old(multiset(heap))
        decreases |heap| - i
      {
        var min := i;
        var l, r := 2 * i + 1, 2 * i + 2;
        if l < |heap| && Before(heap[l], heap[min]) {
          min := l;
        }
        ghost var mid := min;
        if r < |heap| && Before(heap[r], heap[min]) {
          min := r;
        }
        LeastChild(heap, i, mid, min);
        if min == i {
          break;
        }
        SinkStep(heap, i, min);
        Swap(i, min);
        i := min;
      }
    }

    lemma RootIsLeast()
      requires Valid() && heap != []
      ensures forall c :: c in heap ==> AtMost(heap[0], c)
    {
      forall k | 0 <= k < |heap| ensures AtMost(heap[0], heap[k]) {
        RootAtMost(k);
      }
    }

    lemma {:induction false} RootAtMost(k: nat)
      requires Valid() && k < |heap|
      ensures AtMost(heap[0], heap[k])
      decreases k
    {
      if k > 0 {
        RootAtMost(Parent(k));
        AtMostTransitive(heap[0], heap[Parent(k)], heap[k]);
      } else {
        AtMostTotal(heap[0], heap[0]);
      }
    }
  }
}
