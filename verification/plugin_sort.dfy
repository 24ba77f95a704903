/** Plugins, what they depend on, and which of them can load at all. */
module PluginGraph {
  type Id = string

  datatype Plugin = Plugin(id: Id, dependencies: seq<Id>, priority: int)

  type Graph = map<Id, Plugin>

  predicate WellNamed(g: Graph)
  {
    forall id :: id in g ==> g[id].id == id
  }

  predicate Edge(g: Graph, a: Id, b: Id)
  {
    a in g && b in g[a].dependencies
  }

  ghost predicate IsPath(g: Graph, p: seq<Id>)
  {
    p != [] && forall i :: 0 <= i < |p| - 1 ==> Edge(g, p[i], p[i + 1])
  }

  ghost predicate Repeats(p: seq<Id>)
  {
    exists i, j :: 0 <= i < j < |p| && p[i] == p[j]
  }

  /** Following dependencies from `id`, a missing plugin or a cycle is met. */
  ghost predicate Broken(g: Graph, id: Id)
  {
    exists p :: IsPath(g, p) && p[0] == id && (p[|p| - 1] !in g || Repeats(p))
  }

  ghost predicate Reaches(g: Graph, a: Id, b: Id)
  {
    exists p :: IsPath(g, p) && p[0] == a && p[|p| - 1] == b
  }

  /** Each plugin once, with all its direct dependencies before it. */
  ghost predicate DepsFirst(g: Graph, ids: seq<Id>)
  {
    && (forall i :: 0 <= i < |ids| ==> ids[i] in g)
    && (forall i, j :: 0 <= i < j < |ids| ==> ids[i] != ids[j])
    && forall i, d :: 0 <= i < |ids| && d in g[ids[i]].dependencies ==> d in ids[..i]
  }

  lemma ReachesSelf(g: Graph, a: Id)
    ensures Reaches(g, a, a)
  {
    assert IsPath(g, [a]);
  }

  lemma PathCons(g: Graph, a: Id, p: seq<Id>)
    requires IsPath(g, p) && Edge(g, a, p[0])
    ensures IsPath(g, [a] + p)
  {
    var q := [a] + p;
    forall i | 0 <= i < |q| - 1 ensures Edge(g, q[i], q[i + 1]) {
      if i > 0 { assert q[i] == p[i - 1] && q[i + 1] == p[i]; }
    }
  }

  lemma ReachesThrough(g: Graph, a: Id, b: Id, c: Id)
    requires Edge(g, a, b) && Reaches(g, b, c)
    ensures Reaches(g, a, c)
  {
    var p :| IsPath(g, p) && p[0] == b && p[|p| - 1] == c;
    PathCons(g, a, p);
    assert ([a] + p)[|p|] == c;
  }

  lemma BrokenThrough(g: Graph, a: Id, b: Id)
    requires Edge(g, a, b) && Broken(g, b)
    ensures Broken(g, a)
  {
    var p :| IsPath(g, p) && p[0] == b && (p[|p| - 1] !in g || Repeats(p));
    PathCons(g, a, p);
    var q := [a] + p;
    assert q[|q| - 1] == p[|p| - 1];
    if Repeats(p) {
      var i, j :| 0 <= i < j < |p| && p[i] == p[j];
      assert q[i + 1] == q[j + 1];
    }
  }

  lemma MissingIsBroken(g: Graph, id: Id)
    requires id !in g
    ensures Broken(g, id)
  {
    assert IsPath(g, [id]) && [id][0] == id;
  }

  lemma CycleIsBroken(g: Graph, stack: seq<Id>, id: Id)
    requires IsPath(g, stack + [id]) && id in stack
    ensures Broken(g, id)
  {
    var k :| 0 <= k < |stack| && stack[k] == id;
    var p := (stack + [id])[k..];
    forall i | 0 <= i < |p| - 1 ensures Edge(g, p[i], p[i + 1]) {
      assert p[i] == (stack + [id])[k + i] && p[i + 1] == (stack + [id])[k + i + 1];
    }
    assert p[0] == p[|p| - 1] && 0 < |p| - 1;
  }

  /** Paths from a plugin in a dependencies-first list only walk down the list. */
  lemma {:induction false} PathDescends(g: Graph, ids: seq<Id>, p: seq<Id>, i: nat)
    requires DepsFirst(g, ids) && IsPath(g, p) && i < |ids| && p[0] == ids[i]
    ensures forall k :: 1 <= k < |p| ==> p[k] in ids[..i]
    ensures p[|p| - 1] in g && !Repeats(p)
    decreases |p|
  {
    if |p| > 1 {
      assert Edge(g, p[0], p[1]);
      var j :| 0 <= j < i && ids[j] == p[1];
      var q := p[1..];
      forall k | 0 <= k < |q| - 1 ensures Edge(g, q[k], q[k + 1]) {
        assert Edge(g, p[k + 1], p[k + 2]);
      }
      PathDescends(g, ids, q, j);
      forall k | 1 <= k < |p| ensures p[k] in ids[..i] {
        if k > 1 {
          assert p[k] == q[k - 1];
          assert q[k - 1] in ids[..j];
        }
      }
      forall a, b | 0 <= a < b < |p| ensures p[a] != p[b] {
        if a > 0 { assert p[a] == q[a - 1] && p[b] == q[b - 1]; }
      }
    }
  }

  lemma DepsFirstAppend(g: Graph, ids: seq<Id>, id: Id)
    requires DepsFirst(g, ids) && id in g && id !in ids && forall d :: d in g[id].dependencies ==> d in ids
    ensures DepsFirst(g, ids + [id])
  {
    var all := ids + [id];
    forall i, d | 0 <= i < |all| && d in g[all[i]].dependencies ensures d in all[..i] {
      if i < |ids| { assert all[..i] == ids[..i]; } else { assert all[..i] == ids; }
    }
  }

  /** So everything in such a list can load. */
  lemma DepsFirstLoads(g: Graph, ids: seq<Id>, id: Id)
    requires DepsFirst(g, ids) && id in ids
    ensures !Broken(g, id)
  {
    var i :| 0 <= i < |ids| && ids[i] == id;
    forall p | IsPath(g, p) && p[0] == id ensures p[|p| - 1] in g && !Repeats(p) {
      PathDescends(g, ids, p, i);
    }
  }

  /** Whatever a listed plugin depends on, however indirectly, is listed before it. */
  lemma TransitiveBefore(g: Graph, ids: seq<Id>, i: nat, b: Id)
    requires DepsFirst(g, ids) && i < |ids| && Reaches(g, ids[i], b) && b != ids[i]
    ensures b in ids[..i]
  {
    var p :| IsPath(g, p) && p[0] == ids[i] && p[|p| - 1] == b;
    PathDescends(g, ids, p, i);
  }
}

/** The depth-first dependency sort, which keeps going after a plugin fails. */
module PluginSort {
  import opened PluginGraph

  function Ids(plugins: seq<Plugin>): (ids: seq<Id>)
    ensures |ids| == |plugins|
  {
    seq(|plugins|, i requires 0 <= i < |plugins| => plugins[i].id)
  }

  ghost function Elems(ids: seq<Id>): set<Id>
  {
    set id | id in ids
  }

  ghost predicate Distinct(ids: seq<Id>)
  {
    forall i, j :: 0 <= i < j < |ids| ==> ids[i] != ids[j]
  }

  ghost predicate ComesBefore(keys: seq<Id>, a: Id, b: Id)
  {
    exists i, j :: 0 <= i < j < |keys| && keys[i] == a && keys[j] == b
  }

  /** Lower priority numbers first; equal ones in the order the plugins were discovered. */
  ghost predicate Precedes(g: Graph, keys: seq<Id>, a: Id, b: Id)
    requires a in g && b in g
  {
    || g[a].priority < g[b].priority
    || (g[a].priority == g[b].priority && ComesBefore(keys, a, b))
  }

  /** The roots are the keys in the order of priority. */
  ghost predicate IsRootOrder(g: Graph, keys: seq<Id>, roots: seq<Id>)
  {
    && (forall id :: id in roots <==> id in keys)
    && (forall id :: id in roots ==> id in g)
    && Distinct(roots)
    && forall i, j {:trigger roots[i], roots[j]} :: 0 <= i < j < |roots| ==> Precedes(g, keys, roots[i], roots[j])
  }

  ghost predicate NeededBy(g: Graph, roots: seq<Id>, k: nat, id: Id)
    requires k <= |roots|
  {
    exists c :: 0 <= c < k && Reaches(g, roots[c], id)
  }

  /**
   * Of two sorted plugins, the earlier was needed by one of the first `k` roots, and by one no later than
   * the later plugin itself: the priority order is broken only where a dependency demands it.
   */
  ghost predicate FollowsRoots(g: Graph, roots: seq<Id>, k: nat, ids: seq<Id>)
    requires k <= |roots|
  {
    forall i, j, m {:trigger ids[i], ids[j], roots[m]} ::
      0 <= i <= j < |ids| && 0 <= m < |roots| && roots[m] == ids[j] ==>
      NeededBy(g, roots, if m < k then m + 1 else k, ids[i])
  }

  lemma FollowsStep(g: Graph, roots: seq<Id>, k: nat, before: seq<Id>, after: seq<Id>, stuck: set<Id>)
    requires k < |roots| && FollowsRoots(g, roots, k, before) && before <= after
    requires Distinct(after) && Elems(after) <= Elems(roots) && Elems(after) !! stuck
    requires forall i :: |before| <= i < |after| ==> Reaches(g, roots[k], after[i])
    requires forall c :: 0 <= c < k ==> roots[c] in before || roots[c] in stuck
    ensures FollowsRoots(g, roots, k + 1, after)
  {
    forall i, j, m | 0 <= i <= j < |after| && 0 <= m < |roots| && roots[m] == after[j]
      ensures NeededBy(g, roots, if m < k + 1 then m + 1 else k + 1, after[i])
    {
      NewIsLater(roots, k, before, after, stuck, j, m);
      if i >= |before| {
        assert Reaches(g, roots[k], after[i]);
      } else if j < |before| {
        assert NeededBy(g, roots, if m < k then m + 1 else k, before[i]);
        NeededMore(g, roots, if m < k then m + 1 else k, if m < k + 1 then m + 1 else k + 1, before[i]);
      } else {
        assert after[i] in Elems(after);
        var n := Position(roots, after[i]);
        assert NeededBy(g, roots, if n < k then n + 1 else k, before[i]);
        NeededMore(g, roots, if n < k then n + 1 else k, k, before[i]);
        NeededMore(g, roots, k, k + 1, before[i]);
      }
    }
  }

  /** What a root adds to the output was not among the roots before it. */
  lemma NewIsLater(roots: seq<Id>, k: nat, before: seq<Id>, after: seq<Id>, stuck: set<Id>, j: nat, m: nat)
    requires k < |roots| && before <= after && Distinct(after) && Elems(after) !! stuck
    requires forall c :: 0 <= c < k ==> roots[c] in before || roots[c] in stuck
    requires j < |after| && m < |roots| && roots[m] == after[j]
    ensures j >= |before| ==> m >= k
  {
    assert after[j] in Elems(after);
  }

  lemma NeededMore(g: Graph, roots: seq<Id>, k: nat, l: nat, id: Id)
    requires k <= l <= |roots| && NeededBy(g, roots, k, id)
    ensures NeededBy(g, roots, l, id)
  {
  }

  ghost function Position(ids: seq<Id>, id: Id): (i: nat)
    requires id in ids
    ensures i < |ids| && ids[i] == id
  {
    var i :| 0 <= i < |ids| && ids[i] == id;
    i
  }

  lemma IdsAppend(plugins: seq<Plugin>, p: Plugin)
    ensures Ids(plugins + [p]) == Ids(plugins) + [p.id]
    ensures forall id :: id in Ids(plugins + [p]) <==> id in Ids(plugins) || id == p.id
    ensures Elems(Ids(plugins + [p])) == Elems(Ids(plugins)) + {p.id}
  {
    var ids := Ids(plugins) + [p.id];
    assert forall id :: id in ids <==> id in Ids(plugins) || id == p.id;
    assert Ids(plugins + [p]) == ids;
  }

  class DependencySorter {
    ghost const graph: Graph
    var plugins: Graph
    var sorted: seq<Plugin>
    var visited: set<Id>
    var visiting: set<Id>

    constructor (g: Graph)
      ensures graph == plugins == g && sorted == [] && visited == {} && visiting == {}
    {
      graph, plugins, sorted, visited, visiting := g, g, [], {}, {};
    }

    /** `stack` is the chain of visits in progress. */
    ghost predicate Valid(stack: seq<Id>)
      reads this
    {
      && WellNamed(graph)
      && plugins.Keys <= graph.Keys && (forall id :: id in plugins ==> plugins[id] == graph[id])
      && graph.Keys - plugins.Keys <= visiting
      && DepsFirst(graph, Ids(sorted)) && visited == Elems(Ids(sorted))
      && (forall p :: p in sorted ==> p.id in graph && graph[p.id] == p)
      && Elems(stack) <= visiting && visited !! visiting
      && forall id :: id in visiting && id !in stack ==> Broken(graph, id)
    }

    /** What a visit adds to the output is needed by the plugin visited. */
    ghost predicate Grown(before: seq<Plugin>, id: Id)
      reads this
    {
      && before <= sorted
      && forall i :: |before| <= i < |sorted| ==> Reaches(graph, id, sorted[i].id)
    }

    /** `visit`; the answer is false where the source throws. */
    method Visit(id: Id, ghost stack: seq<Id>) returns (ok: bool)
      requires Valid(stack) && IsPath(graph, stack + [id])
      modifies `sorted, `visited, `visiting
      ensures Valid(stack) && Grown(old(sorted), id) && old(visiting) <= visiting && old(visited) <= visited
      ensures ok ==> id in visited && visiting == old(visiting)
      ensures !ok ==> Broken(graph, id) && id in visiting
      decreases graph.Keys - visiting, 1
    {
      if id in visiting {
        if id in stack { CycleIsBroken(graph, stack, id); }
        return false;
      }
      if id in visited {
        return true;
      }
      Begin(id, stack);
      if id !in plugins {
        MissingIsBroken(graph, id);
        Unwind(stack, id);
        return false;
      }
      ok := VisitDependencies(id, stack);
      if ok {
        Finish(id, stack);
        ReachesSelf(graph, id);
      } else {
        Unwind(stack, id);
      }
    }

    method Begin(id: Id, ghost stack: seq<Id>)
      requires Valid(stack) && id !in visiting && id !in visited
      modifies `visiting
      ensures Valid(stack + [id]) && visiting == old(visiting) + {id}
    {
      visiting := visiting + {id};
    }

    lemma Unwind(stack: seq<Id>, id: Id)
      requires Valid(stack + [id]) && Broken(graph, id)
      ensures Valid(stack) && id in visiting
    {
      assert forall x :: x in stack ==> x in stack + [id];
      assert (stack + [id])[|stack|] == id;
    }

    method VisitDependencies(id: Id, ghost stack: seq<Id>) returns (ok: bool)
      requires Valid(stack + [id]) && IsPath(graph, stack + [id]) && id in plugins
      modifies `sorted, `visited, `visiting
      ensures Valid(stack + [id]) && Grown(old(sorted), id) && old(visiting) <= visiting && old(visited) <= visited
      ensures ok ==> visiting == old(visiting) && forall d :: d in graph[id].dependencies ==> d in visited
      ensures !ok ==> Broken(graph, id)
      decreases graph.Keys - visiting, 3
    {
      var deps := plugins[id].dependencies;
      var i := 0;
      while i < |deps|
        invariant 0 <= i <= |deps| && visiting == old(visiting)
        invariant Valid(stack + [id]) && Grown(old(sorted), id) && old(visited) <= visited
        invariant forall j :: 0 <= j < i ==> deps[j] in visited
      {
        var done := VisitDependency(id, deps[i], stack, old(sorted));
        if !done {
          return false;
        }
        i := i + 1;
      }
      return true;
    }

    method VisitDependency(id: Id, d: Id, ghost stack: seq<Id>, ghost first: seq<Plugin>) returns (ok: bool)
      requires Valid(stack + [id]) && IsPath(graph, stack + [id]) && Edge(graph, id, d) && Grown(first, id)
      modifies `sorted, `visited, `visiting
      ensures Valid(stack + [id]) && Grown(first, id) && old(visiting) <= visiting && old(visited) <= visited
      ensures ok ==> visiting == old(visiting) && d in visited
      ensures !ok ==> Broken(graph, id)
      decreases graph.Keys - visiting, 2
    {
      Extended(stack, id, d);
      ok := Visit(d, stack + [id]);
      GrownThrough(first, old(sorted), id, d);
      if !ok {
        BrokenThrough(graph, id, d);
      }
    }

    method Finish(id: Id, ghost stack: seq<Id>)
      requires Valid(stack + [id]) && id in plugins && id !in stack && id !in visited
      requires forall d :: d in graph[id].dependencies ==> d in visited
      modifies `sorted, `visited, `visiting
      ensures Valid(stack) && visiting == old(visiting) - {id} && visited == old(visited) + {id}
      ensures sorted == old(sorted) + [graph[id]]
    {
      visiting := visiting - {id};
      visited := visited + {id};
      sorted := sorted + [plugins[id]];
      IdsAppend(old(sorted), plugins[id]);
      DepsFirstAppend(graph, Ids(old(sorted)), id);
    }

    lemma Extended(stack: seq<Id>, id: Id, d: Id)
      requires IsPath(graph, stack + [id]) && Edge(graph, id, d)
      ensures IsPath(graph, stack + [id] + [d])
    {
    }

    lemma GrownThrough(first: seq<Plugin>, before: seq<Plugin>, id: Id, d: Id)
      requires first <= before && Grown(before, d) && Edge(graph, id, d)
      requires forall i :: |first| <= i < |before| ==> Reaches(graph, id, before[i].id)
      ensures Grown(first, id)
    {
      forall i | |first| <= i < |sorted| ensures Reaches(graph, id, sorted[i].id) {
        if i >= |before| { ReachesThrough(graph, id, d, sorted[i].id); }
      }
    }

    /** The first `k` roots have been visited. */
    ghost predicate Progress(roots: seq<Id>, k: nat)
      requires k <= |roots|
      reads this
    {
      && Valid([]) && (forall c :: 0 <= c < k ==> roots[c] in visited || roots[c] in visiting)
      && FollowsRoots(graph, roots, k, Ids(sorted))
    }

    /** One turn of the root loop: a root that cannot load is taken off the table. */
    method VisitRoot(roots: seq<Id>, k: nat)
      requires k < |roots| && Progress(roots, k) && graph.Keys <= Elems(roots)
      modifies this
      ensures Progress(roots, k + 1)
    {
      var id := roots[k];
      assert IsPath(graph, [] + [id]);
      var ok := Visit(id, []);
      GrownIds(old(sorted), id);
      SortedApart();
      FollowsStep(graph, roots, k, Ids(old(sorted)), Ids(sorted), visiting);
      if !ok {
        Discard(id);
      }
    }

    method Discard(id: Id)
      requires Valid([]) && id in visiting
      modifies `plugins
      ensures Valid([])
    {
      plugins := plugins - {id};
    }

    lemma SortedApart()
      requires Valid([])
      ensures Distinct(Ids(sorted)) && Elems(Ids(sorted)) <= graph.Keys && Elems(Ids(sorted)) !! visiting
    {
    }

    lemma GrownIds(before: seq<Plugin>, id: Id)
      requires Grown(before, id)
      ensures Ids(before) <= Ids(sorted)
      ensures forall i :: |before| <= i < |sorted| ==> Reaches(graph, id, Ids(sorted)[i])
    {
    }

    method VisitRoots(roots: seq<Id>)
      requires Valid([]) && sorted == [] && graph.Keys <= Elems(roots)
      modifies this
      ensures Progress(roots, |roots|)
    {
      var k := 0;
      while k < |roots|
        invariant 0 <= k <= |roots| && Progress(roots, k)
      {
        VisitRoot(roots, k);
        k := k + 1;
      }
    }
  }

  /** The roots: plugins by ascending priority, those of equal priority as they were discovered. */
  method RootOrder(g: Graph, keys: seq<Id>) returns (roots: seq<Id>)
    requires Distinct(keys) && forall id :: id in keys <==> id in g
    ensures IsRootOrder(g, keys, roots)
  {
    roots := [];
    var i := 0;
    while i < |keys|
      invariant 0 <= i <= |keys| && IsRootOrder(g, keys[..i], roots)
    {
      var j := PlaceOf(g, roots, g[keys[i]].priority);
      InsertedRoot(g, keys, i, roots, j);
      roots := roots[..j] + [keys[i]] + roots[j..];
      i := i + 1;
    }
    assert keys[..i] == keys;
  }

  /** Behind the last root that may come before one of this priority. */
  method PlaceOf(g: Graph, roots: seq<Id>, priority: int) returns (j: nat)
    requires forall id :: id in roots ==> id in g
    ensures j <= |roots| && forall l :: j <= l < |roots| ==> g[roots[l]].priority > priority
    ensures j > 0 ==> g[roots[j - 1]].priority <= priority
  {
    j := |roots|;
    while j > 0 && g[roots[j - 1]].priority > priority
      invariant 0 <= j <= |roots|
      invariant forall l :: j <= l < |roots| ==> g[roots[l]].priority > priority
    {
      j := j - 1;
    }
  }

  lemma InsertedRoot(g: Graph, keys: seq<Id>, i: nat, roots: seq<Id>, j: nat)
    requires i < |keys| && Distinct(keys) && (forall id :: id in keys ==> id in g)
    requires IsRootOrder(g, keys[..i], roots) && j <= |roots|
    requires forall l :: j <= l < |roots| ==> g[roots[l]].priority > g[keys[i]].priority
    requires j > 0 ==> g[roots[j - 1]].priority <= g[keys[i]].priority
    ensures IsRootOrder(g, keys[..i + 1], roots[..j] + [keys[i]] + roots[j..])
  {
    var all := roots[..j] + [keys[i]] + roots[j..];
    InsertedElems(keys, i, roots, j);
    forall a, b | 0 <= a < b < |all|
      ensures all[a] != all[b] && Precedes(g, keys[..i + 1], all[a], all[b])
    {
      InsertedPair(g, keys, i, roots, j, a, b);
    }
  }

  lemma InsertedElems(keys: seq<Id>, i: nat, roots: seq<Id>, j: nat)
    requires i < |keys| && j <= |roots| && Distinct(keys) && forall id :: id in roots <==> id in keys[..i]
    ensures forall id :: id in roots[..j] + [keys[i]] + roots[j..] <==> id in keys[..i + 1]
    ensures keys[i] !in keys[..i]
  {
    assert keys[..i + 1] == keys[..i] + [keys[i]];
    assert roots == roots[..j] + roots[j..];
  }

  lemma InsertedPair(g: Graph, keys: seq<Id>, i: nat, roots: seq<Id>, j: nat, a: nat, b: nat)
    requires i < |keys| && keys[i] !in keys[..i] && (forall id :: id in keys ==> id in g)
    requires IsRootOrder(g, keys[..i], roots) && j <= |roots| && a < b <= |roots|
    requires forall l :: j <= l < |roots| ==> g[roots[l]].priority > g[keys[i]].priority
    requires j > 0 ==> g[roots[j - 1]].priority <= g[keys[i]].priority
    ensures var all := roots[..j] + [keys[i]] + roots[j..];
            all[a] in g && all[b] in g && all[a] != all[b] && Precedes(g, keys[..i + 1], all[a], all[b])
  {
    if a == j {
      assert roots[b - 1] in keys[..i];
    } else if b == j {
      assert roots[a] in keys[..i];
      if a < j - 1 { assert Precedes(g, keys[..i], roots[a], roots[j - 1]); }
      BeforeLast(keys, i, roots[a]);
    } else {
      var x, y := if a < j then a else a - 1, if b < j then b else b - 1;
      assert Precedes(g, keys[..i], roots[x], roots[y]);
      StillBefore(keys, i, roots[x], roots[y]);
    }
  }

  lemma BeforeLast(keys: seq<Id>, i: nat, a: Id)
    requires i < |keys| && a in keys[..i]
    ensures ComesBefore(keys[..i + 1], a, keys[i])
  {
    var p :| 0 <= p < i && keys[..i][p] == a;
    assert keys[..i + 1][p] == a && keys[..i + 1][i] == keys[i];
  }

  lemma StillBefore(keys: seq<Id>, i: nat, a: Id, b: Id)
    requires i < |keys|
    ensures ComesBefore(keys[..i], a, b) ==> ComesBefore(keys[..i + 1], a, b)
  {
    if ComesBefore(keys[..i], a, b) {
      var p, q :| 0 <= p < q < i && keys[..i][p] == a && keys[..i][q] == b;
      assert keys[..i + 1][p] == a && keys[..i + 1][q] == b;
    }
  }

  /**
   * `sortDependencies`: exactly the plugins that can load, each once and after everything it depends on,
   * and otherwise by priority. `keys` is the order in which the plugins were discovered.
   */
  method SortDependencies(g: Graph, keys: seq<Id>) returns (sorted: seq<Plugin>, ghost roots: seq<Id>)
    requires WellNamed(g) && Distinct(keys) && forall id :: id in keys <==> id in g
    ensures DepsFirst(g, Ids(sorted)) && forall p :: p in sorted ==> p.id in g && g[p.id] == p
    ensures forall id :: id in Ids(sorted) <==> id in g && !Broken(g, id)
    ensures IsRootOrder(g, keys, roots) && FollowsRoots(g, roots, |roots|, Ids(sorted))
  {
    var order := RootOrder(g, keys);
    roots := order;
    var sorter := new DependencySorter(g);
    sorter.VisitRoots(order);
    sorted := sorter.sorted;
    forall id ensures id in Ids(sorted) <==> id in g && !Broken(g, id) {
      if id in Ids(sorted) {
        DepsFirstLoads(g, Ids(sorted), id);
      } else if id in g {
        var c :| 0 <= c < |order| && order[c] == id;
      }
    }
  }
}
