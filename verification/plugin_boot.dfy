/** Booting plugins in dependency order, and shutting them down in reverse. */
module PluginBoot {
  import opened PluginGraph
  import opened PluginSort

  datatype Status = Pending | Preloaded | Success | Failed | Skipped

  datatype Lifecycle = Enabled | Disabled

  /** What individual plugins do when asked, whatever that is. */
  datatype Behaviour = Behaviour(
    preloads: Id -> bool,
    gated: Id -> bool,
    boots: Id -> bool,
    disables: Id -> bool)

  /** Each plugin once, and its dependencies, where listed at all, before it. */
  ghost predicate DepsEarlier(g: Graph, ids: seq<Id>)
  {
    && (forall i :: 0 <= i < |ids| ==> ids[i] in g)
    && Distinct(ids)
    && forall i, j :: 0 <= i < |ids| && 0 <= j < |ids| && ids[j] in g[ids[i]].dependencies ==> j < i
  }

  ghost predicate Genuine(g: Graph, plugins: seq<Plugin>)
  {
    forall p :: p in plugins ==> p.id in g && g[p.id] == p
  }

  function Without(plugins: seq<Plugin>, id: Id): seq<Plugin>
  {
    if plugins == [] then []
    else
      var n := |plugins| - 1;
      var rest := Without(plugins[..n], id);
      if plugins[n].id == id then rest else rest + [plugins[n]]
  }

  lemma {:induction false} WithoutIds(plugins: seq<Plugin>, id: Id)
    ensures forall x :: x in Ids(Without(plugins, id)) <==> x in Ids(plugins) && x != id
    ensures forall p :: p in Without(plugins, id) ==> p in plugins
  {
    if plugins != [] {
      var n := |plugins| - 1;
      var init, last := plugins[..n], plugins[n];
      WithoutIds(init, id);
      assert plugins == init + [last];
      IdsAppend(init, last);
      IdsAppend(Without(init, id), last);
    }
  }

  lemma {:induction false} WithoutKeepsOrder(g: Graph, plugins: seq<Plugin>, id: Id)
    requires DepsEarlier(g, Ids(plugins))
    ensures DepsEarlier(g, Ids(Without(plugins, id)))
  {
    if plugins != [] {
      var n := |plugins| - 1;
      var init, last := plugins[..n], plugins[n];
      IdsAppend(init, last);
      assert plugins == init + [last];
      EarlierInit(g, Ids(init), last.id);
      WithoutKeepsOrder(g, init, id);
      if last.id != id {
        var kept := Ids(Without(init, id));
        WithoutIds(init, id);
        IdsAppend(Without(init, id), last);
        forall i | 0 <= i < |kept| ensures last.id != kept[i] && last.id !in g[kept[i]].dependencies {
          assert kept[i] in Ids(init);
        }
        EarlierAppend(g, kept, last.id);
      }
    }
  }

  lemma EarlierInit(g: Graph, ids: seq<Id>, last: Id)
    requires DepsEarlier(g, ids + [last])
    ensures DepsEarlier(g, ids) && last in g && last !in g[last].dependencies
    ensures forall id :: id in ids ==> id != last && last !in g[id].dependencies
  {
    var all, n := ids + [last], |ids|;
    assert all[n] == last && forall i :: 0 <= i < n ==> all[i] == ids[i];
    forall id | id in ids ensures id != last && last !in g[id].dependencies {
      var i :| 0 <= i < n && ids[i] == id;
      assert all[i] == id && all[n] == last;
    }
  }

  lemma EarlierAppend(g: Graph, ids: seq<Id>, last: Id)
    requires DepsEarlier(g, ids) && last in g && last !in g[last].dependencies
    requires forall i :: 0 <= i < |ids| ==> last != ids[i] && last !in g[ids[i]].dependencies
    ensures DepsEarlier(g, ids + [last])
  {
  }

  ghost predicate ComesNoLater(ids: seq<Id>, a: Id, b: Id)
  {
    exists p, q :: 0 <= p <= q < |ids| && ids[p] == a && ids[q] == b
  }

  /** Some of the plugins, in the order they have there. */
  ghost predicate InOrderOf(some: seq<Id>, ids: seq<Id>)
  {
    forall i, j {:trigger some[i], some[j]} :: 0 <= i <= j < |some| ==> ComesNoLater(ids, some[i], some[j])
  }

  lemma InOrderAppend(some: seq<Id>, ids: seq<Id>, x: Id)
    requires InOrderOf(some, ids)
    ensures InOrderOf(some, ids + [x]) && InOrderOf(some + [x], ids + [x])
  {
    var all, more := ids + [x], some + [x];
    assert all[|ids|] == x && forall p :: 0 <= p < |ids| ==> all[p] == ids[p];
    forall i, j {:trigger more[i], more[j]} | 0 <= i <= j < |more| ensures ComesNoLater(all, more[i], more[j]) {
      if i < |some| {
        var p, q :| 0 <= p <= q < |ids| && ids[p] == some[i] && ids[q] == some[if j < |some| then j else i];
        assert all[p] == more[i] && all[if j < |some| then q else |ids|] == more[j];
      }
    }
    assert forall i :: 0 <= i < |some| ==> more[i] == some[i];
  }

  lemma InOrderThrough(a: seq<Id>, b: seq<Id>, c: seq<Id>)
    requires InOrderOf(a, b) && InOrderOf(b, c)
    ensures InOrderOf(a, c)
  {
    forall i, j {:trigger a[i], a[j]} | 0 <= i <= j < |a| ensures ComesNoLater(c, a[i], a[j]) {
      var p, q :| 0 <= p <= q < |b| && b[p] == a[i] && b[q] == a[j];
      assert ComesNoLater(c, b[p], b[q]);
    }
  }

  lemma InOrderOfSelf(ids: seq<Id>)
    ensures InOrderOf(ids, ids)
  {
  }

  /** So they follow the roots where all of the plugins do. */
  lemma FollowsInOrder(g: Graph, roots: seq<Id>, some: seq<Id>, ids: seq<Id>)
    requires FollowsRoots(g, roots, |roots|, ids) && InOrderOf(some, ids)
    ensures FollowsRoots(g, roots, |roots|, some)
  {
    forall i, j, m {:trigger some[i], some[j], roots[m]}
      | 0 <= i <= j < |some| && 0 <= m < |roots| && roots[m] == some[j]
      ensures NeededBy(g, roots, m + 1, some[i])
    {
      var p, q :| 0 <= p <= q < |ids| && ids[p] == some[i] && ids[q] == some[j];
      assert NeededBy(g, roots, m + 1, ids[p]);
    }
  }

  lemma {:induction false} WithoutInOrder(plugins: seq<Plugin>, id: Id)
    ensures InOrderOf(Ids(Without(plugins, id)), Ids(plugins))
    decreases |plugins|
  {
    if plugins != [] {
      var n := |plugins| - 1;
      var init, last := plugins[..n], plugins[n];
      assert plugins == init + [last];
      IdsAppend(init, last);
      IdsAppend(Without(init, id), last);
      WithoutInOrder(init, id);
      InOrderAppend(Ids(Without(init, id)), Ids(init), last.id);
    }
  }

  /** What a plugin that was discovered is marked as, after those sorted so far have had their turn to preload. */
  ghost predicate IsMarked(statuses: map<Id, Status>, g: Graph, tried: seq<Id>, preloads: Id -> bool)
  {
    && statuses.Keys == g.Keys
    && forall id :: id in g ==>
         statuses[id] == if id !in tried then Pending else if preloads(id) then Preloaded else Failed
  }

  lemma MarkedNext(statuses: map<Id, Status>, g: Graph, tried: seq<Id>, preloads: Id -> bool, x: Id)
    requires IsMarked(statuses, g, tried, preloads) && x in g
    ensures IsMarked(statuses[x := if preloads(x) then Preloaded else Failed], g, tried + [x], preloads)
  {
  }

  lemma NextInOrder(some: seq<Id>, ids: seq<Id>, k: nat)
    requires k < |ids| && InOrderOf(some, ids[..k])
    ensures InOrderOf(some, ids[..k + 1]) && InOrderOf(some + [ids[k]], ids[..k + 1])
  {
    assert ids[..k + 1] == ids[..k] + [ids[k]];
    InOrderAppend(some, ids[..k], ids[k]);
  }

  function Reversed(ids: seq<Id>): (r: seq<Id>)
    ensures |r| == |ids| && forall i :: 0 <= i < |ids| ==> r[i] == ids[|ids| - 1 - i]
  {
    seq(|ids|, i requires 0 <= i < |ids| => ids[|ids| - 1 - i])
  }

  /** In reverse, a plugin comes before anything it depends on. */
  lemma DependentsFirst(g: Graph, ids: seq<Id>, a: Id, b: Id)
    requires DepsFirst(g, ids) && a in ids && a != b && Reaches(g, a, b)
    ensures ComesBefore(Reversed(ids), a, b)
  {
    var i :| 0 <= i < |ids| && ids[i] == a;
    TransitiveBefore(g, ids, i, b);
    var j :| 0 <= j < i && ids[j] == b;
    assert Reversed(ids)[|ids| - 1 - i] == a && Reversed(ids)[|ids| - 1 - j] == b;
  }

  predicate HasStatus(statuses: map<Id, Status>, id: Id, status: Status)
  {
    id in statuses && statuses[id] == status
  }

  predicate AllSucceeded(statuses: map<Id, Status>, ids: seq<Id>)
  {
    forall d :: d in ids ==> HasStatus(statuses, d, Success)
  }

  /** How a plugin that was preloaded ends up, given how its dependencies did. */
  function Outcome(statuses: map<Id, Status>, p: Plugin, gated: Id -> bool, boots: Id -> bool): Status
  {
    if gated(p.id) || !AllSucceeded(statuses, p.dependencies) then Skipped
    else if boots(p.id) then Success
    else Failed
  }

  predicate IsSettled(statuses: map<Id, Status>, p: Plugin, gated: Id -> bool, boots: Id -> bool)
  {
    HasStatus(statuses, p.id, Outcome(statuses, p, gated, boots))
  }

  /** Who has status success, and who is still to boot, after `k` turns. */
  ghost predicate Tally(statuses: map<Id, Status>, registry: seq<Id>, ids: seq<Id>, k: nat)
    requires k <= |ids|
  {
    && (forall id :: id in registry ==> id in ids && HasStatus(statuses, id, Success))
    && (forall id :: id in statuses && statuses[id] == Success ==> id in registry)
    && (forall id :: id in statuses && statuses[id] == Preloaded ==> IsFrom(ids, k, id))
    && forall i :: k <= i < |ids| ==> HasStatus(statuses, ids[i], Preloaded)
  }

  ghost predicate IsFrom(ids: seq<Id>, k: nat, id: Id)
  {
    exists i :: k <= i < |ids| && ids[i] == id
  }

  lemma TallyStep(statuses: map<Id, Status>, registry: seq<Id>, ids: seq<Id>, k: nat, status: Status)
    requires k < |ids| && Tally(statuses, registry, ids, k) && Distinct(ids) && status != Preloaded
    ensures Tally(statuses[ids[k] := status], if status == Success then registry + [ids[k]] else registry, ids, k + 1)
  {
    var x := ids[k];
    var after := statuses[x := status];
    assert HasStatus(statuses, x, Preloaded);
    assert x !in registry;
    forall id | id in after && after[id] == Preloaded ensures IsFrom(ids, k + 1, id) {
      assert IsFrom(ids, k, id) && id != x;
    }
    forall i | k + 1 <= i < |ids| ensures HasStatus(after, ids[i], Preloaded) {
      assert ids[i] != x && HasStatus(statuses, ids[i], Preloaded);
    }
  }

  /** A plugin boots when it is willing itself and all its direct dependencies boot. */
  ghost predicate BootsByStep(g: Graph, ids: seq<Id>, booted: seq<Id>, gated: Id -> bool, boots: Id -> bool)
    requires DepsEarlier(g, ids)
  {
    && (forall id :: id in booted ==> id in ids)
    && forall id :: id in ids ==>
         (id in booted <==> !gated(id) && boots(id) && forall d :: d in g[id].dependencies ==> d in booted)
  }

  class PluginManager {
    /** The plugins discovered on disk. */
    const graph: Graph
    var registry: seq<Id>
    var states: map<Id, Lifecycle>
    var preloaded: seq<Plugin>
    var statuses: map<Id, Status>

    constructor (g: Graph)
      requires WellNamed(g)
      ensures graph == g && registry == [] && preloaded == [] && statuses == map[] && states == map[]
    {
      graph := g;
      registry, states, preloaded, statuses := [], map[], [], map[];
    }

    /** Between preloading and booting. */
    ghost predicate Waiting()
      reads this
    {
      && registry == [] && Genuine(graph, preloaded) && DepsEarlier(graph, Ids(preloaded))
      && (forall id :: id in Ids(preloaded) ==> HasStatus(statuses, id, Preloaded))
      && forall id :: id in statuses ==> statuses[id] != Success && (statuses[id] == Preloaded ==> id in Ids(preloaded))
    }

    method ExcludePreloadedPlugin(id: Id)
      requires Waiting()
      modifies `preloaded, `statuses
      ensures Waiting() && preloaded == Without(old(preloaded), id)
      ensures statuses == old(statuses)[id := Failed]
      ensures AreLeft(Ids(preloaded), Ids(old(preloaded)), [id])
    {
      WithoutInOrder(preloaded, id);
      WithoutIds(preloaded, id);
      WithoutKeepsOrder(graph, preloaded, id);
      var kept := [];
      var i := 0;
      while i < |preloaded|
        invariant 0 <= i <= |preloaded| && kept == Without(preloaded[..i], id)
      {
        assert preloaded[..i + 1][..i] == preloaded[..i];
        if preloaded[i].id != id {
          kept := kept + [preloaded[i]];
        }
        i := i + 1;
      }
      assert preloaded[..i] == preloaded;
      preloaded := kept;
      statuses := statuses[id := Failed];
    }

    /** Of the plugins tried those that preload, and no others, are waiting to boot, in that order. */
    ghost predicate PreloadedTo(tried: seq<Id>, preloads: Id -> bool)
      reads this
    {
      && Waiting() && InOrderOf(Ids(preloaded), tried) && IsMarked(statuses, graph, tried, preloads)
      && forall id :: id in Ids(preloaded) <==> id in tried && preloads(id)
    }

    /** In the order of the sort, each is tried; those that the sort leaves out stay pending. */
    method PreloadAll(keys: seq<Id>, preloads: Id -> bool) returns (ghost roots: seq<Id>)
      requires WellNamed(graph) && registry == [] && preloaded == [] && statuses == map[]
      requires Distinct(keys) && forall id :: id in keys <==> id in graph
      modifies `preloaded, `statuses
      ensures Waiting()
      ensures forall id :: id in Ids(preloaded) <==> id in graph && !Broken(graph, id) && preloads(id)
      ensures IsRootOrder(graph, keys, roots) && FollowsRoots(graph, roots, |roots|, Ids(preloaded))
      ensures statuses.Keys == graph.Keys
      ensures forall id :: id in graph ==>
                statuses[id] == if Broken(graph, id) then Pending else if preloads(id) then Preloaded else Failed
    {
      statuses := map id | id in keys :: Pending;
      var sorted;
      sorted, roots := SortDependencies(graph, keys);
      PreloadEach(sorted, preloads);
      FollowsInOrder(graph, roots, Ids(preloaded), Ids(sorted));
    }

    method PreloadEach(sorted: seq<Plugin>, preloads: Id -> bool)
      requires DepsFirst(graph, Ids(sorted)) && Genuine(graph, sorted) && PreloadedTo([], preloads)
      modifies `preloaded, `statuses
      ensures PreloadedTo(Ids(sorted), preloads)
    {
      var i := 0;
      while i < |sorted|
        invariant 0 <= i <= |sorted| && PreloadedTo(Ids(sorted)[..i], preloads)
      {
        PreloadNext(sorted, i, preloads);
        i := i + 1;
      }
      assert Ids(sorted)[..i] == Ids(sorted);
    }

    method PreloadNext(sorted: seq<Plugin>, i: nat, preloads: Id -> bool)
      requires i < |sorted| && DepsFirst(graph, Ids(sorted)) && Genuine(graph, sorted)
      requires PreloadedTo(Ids(sorted)[..i], preloads)
      modifies `preloaded, `statuses
      ensures PreloadedTo(Ids(sorted)[..i + 1], preloads)
    {
      assert Ids(sorted)[..i + 1] == Ids(sorted)[..i] + [sorted[i].id];
      PreloadedNext(graph, Ids(sorted), i, Ids(preloaded));
      Preload(sorted[i], Ids(sorted)[..i], preloads);
    }

    method Preload(p: Plugin, ghost tried: seq<Id>, preloads: Id -> bool)
      requires p.id in graph && graph[p.id] == p && PreloadedTo(tried, preloads)
      requires p.id !in tried && DepsEarlier(graph, Ids(preloaded) + [p.id])
      modifies `preloaded, `statuses
      ensures PreloadedTo(tried + [p.id], preloads)
    {
      InOrderAppend(Ids(preloaded), tried, p.id);
      MarkedNext(statuses, graph, tried, preloads, p.id);
      if preloads(p.id) {
        IdsAppend(preloaded, p);
        preloaded := preloaded + [p];
        statuses := statuses[p.id := Preloaded];
      } else {
        statuses := statuses[p.id := Failed];
      }
    }

    /** After the first `k` preloaded plugins have had their turn to boot. */
    ghost predicate Booting(k: nat, gated: Id -> bool, boots: Id -> bool)
      reads this
    {
      && k <= |preloaded| && Genuine(graph, preloaded) && DepsEarlier(graph, Ids(preloaded))
      && DepsFirst(graph, registry)
      && (forall id :: id in registry ==> id in states && states[id] == Enabled)
      && Tally(statuses, registry, Ids(preloaded), k) && InOrderOf(registry, Ids(preloaded)[..k])
      && forall i :: 0 <= i < k ==> IsSettled(statuses, preloaded[i], gated, boots)
    }

    /** `bootAll`: each preloaded plugin in turn, if it is not gated and its dependencies are up. */
    method BootAll(gated: Id -> bool, boots: Id -> bool)
      requires Waiting()
      modifies `registry, `states, `statuses
      ensures DepsFirst(graph, registry)
      ensures forall id :: id in registry <==> HasStatus(statuses, id, Success)
      ensures forall id :: id in registry ==> id in states && states[id] == Enabled
      ensures forall p :: p in preloaded ==> IsSettled(statuses, p, gated, boots)
      ensures DepsEarlier(graph, Ids(preloaded))
      ensures BootsByStep(graph, Ids(preloaded), registry, gated, boots)
      ensures InOrderOf(registry, Ids(preloaded))
    {
      var k := 0;
      assert forall i :: 0 <= i < |preloaded| ==> Ids(preloaded)[i] == preloaded[i].id;
      while k < |preloaded|
        invariant Booting(k, gated, boots)
      {
        Boot(k, gated, boots);
        k := k + 1;
      }
      assert Ids(preloaded)[..k] == Ids(preloaded);
      AllHadTheirTurn(gated, boots);
    }

    lemma AllHadTheirTurn(gated: Id -> bool, boots: Id -> bool)
      requires Booting(|preloaded|, gated, boots)
      ensures BootsByStep(graph, Ids(preloaded), registry, gated, boots)
    {
      var ids := Ids(preloaded);
      forall id | id in ids
        ensures id in registry <==> !gated(id) && boots(id) && forall d :: d in graph[id].dependencies ==> d in registry
      {
        var i :| 0 <= i < |ids| && ids[i] == id;
        var p := preloaded[i];
        assert IsSettled(statuses, p, gated, boots) && graph[id] == p;
        assert AllSucceeded(statuses, p.dependencies) <==> forall d :: d in p.dependencies ==> d in registry;
      }
    }

    method Boot(k: nat, gated: Id -> bool, boots: Id -> bool)
      requires k < |preloaded| && Booting(k, gated, boots)
      modifies `registry, `states, `statuses
      ensures Booting(k + 1, gated, boots)
      ensures registry == old(registry) || registry == old(registry) + [preloaded[k].id]
    {
      var p := preloaded[k];
      if gated(p.id) {
        Settle(k, Skipped, gated, boots);
        return;
      }
      var ready := DependenciesUp(k, gated, boots);
      if !ready {
        Settle(k, Skipped, gated, boots);
      } else if boots(p.id) {
        Settle(k, Success, gated, boots);
      } else {
        Settle(k, Failed, gated, boots);
      }
    }

    /** Record the outcome of the plugin at `k`; one that booted joins the registry. */
    method Settle(k: nat, status: Status, gated: Id -> bool, boots: Id -> bool)
      requires k < |preloaded| && Booting(k, gated, boots)
      requires status == Outcome(statuses, preloaded[k], gated, boots)
      modifies `registry, `states, `statuses
      ensures Booting(k + 1, gated, boots)
      ensures registry == if status == Success then old(registry) + [preloaded[k].id] else old(registry)
    {
      var p := preloaded[k];
      TurnsOver(k, gated, boots);
      TallyStep(statuses, registry, Ids(preloaded), k, status);
      Joins(k, gated, boots);
      NextInOrder(registry, Ids(preloaded), k);
      if status == Success {
        states := states[p.id := Enabled];
        registry := registry + [p.id];
      }
      statuses := statuses[p.id := status];
    }

    /** Recording one outcome leaves the earlier ones right. */
    lemma TurnsOver(k: nat, gated: Id -> bool, boots: Id -> bool)
      requires k < |preloaded| && Booting(k, gated, boots)
      ensures var s := statuses[preloaded[k].id := Outcome(statuses, preloaded[k], gated, boots)];
              forall i :: 0 <= i <= k ==> IsSettled(s, preloaded[i], gated, boots)
    {
      var p, ids := preloaded[k], Ids(preloaded);
      var s := statuses[p.id := Outcome(statuses, p, gated, boots)];
      forall i | 0 <= i <= k ensures IsSettled(s, preloaded[i], gated, boots) {
        assert ids[i] == preloaded[i].id && graph[ids[i]] == preloaded[i] && ids[k] == p.id;
        assert p.id !in preloaded[i].dependencies;
        assert AllSucceeded(s, preloaded[i].dependencies) == AllSucceeded(statuses, preloaded[i].dependencies);
      }
    }

    lemma Joins(k: nat, gated: Id -> bool, boots: Id -> bool)
      requires k < |preloaded| && Booting(k, gated, boots)
      ensures Outcome(statuses, preloaded[k], gated, boots) == Success ==>
                DepsFirst(graph, registry + [preloaded[k].id])
    {
      var p := preloaded[k];
      if Outcome(statuses, p, gated, boots) == Success {
        assert Ids(preloaded)[k] == p.id && graph[p.id] == p && HasStatus(statuses, p.id, Preloaded);
        forall d | d in p.dependencies ensures d in registry {
          assert HasStatus(statuses, d, Success);
        }
        DepsFirstAppend(graph, registry, p.id);
      }
    }

    /** The dependency check accepts a plugin that is still to boot; there is none left here. */
    method DependenciesUp(k: nat, gated: Id -> bool, boots: Id -> bool) returns (ready: bool)
      requires k < |preloaded| && Booting(k, gated, boots)
      ensures ready == AllSucceeded(statuses, preloaded[k].dependencies)
    {
      var deps := preloaded[k].dependencies;
      var i := 0;
      while i < |deps|
        invariant 0 <= i <= |deps|
        invariant forall j :: 0 <= j < i ==> HasStatus(statuses, deps[j], Success)
      {
        DependencyHadItsTurn(k, gated, boots, deps[i]);
        if !HasStatus(statuses, deps[i], Success) && !HasStatus(statuses, deps[i], Preloaded) {
          return false;
        }
        i := i + 1;
      }
      return true;
    }

    lemma DependencyHadItsTurn(k: nat, gated: Id -> bool, boots: Id -> bool, d: Id)
      requires k < |preloaded| && Booting(k, gated, boots) && d in preloaded[k].dependencies
      ensures !HasStatus(statuses, d, Preloaded) && d != preloaded[k].id
    {
      var ids := Ids(preloaded);
      assert ids[k] == preloaded[k].id && graph[ids[k]] == preloaded[k];
      forall j | k <= j < |ids| ensures ids[j] != d {
      }
    }

    /** `shutdownAll`: the last to boot is disabled first; the calls made are returned in order. */
    method ShutdownAll(disables: Id -> bool) returns (called: seq<Id>)
      requires forall id :: id in registry ==> id in states && states[id] == Enabled
      requires Distinct(registry)
      modifies `registry, `states, `statuses
      ensures called == Reversed(old(registry)) && registry == [] && statuses == map[]
      ensures states.Keys == old(states).Keys
      ensures forall id :: id in states ==>
                states[id] == if id in old(registry) && disables(id) then Disabled else old(states)[id]
    {
      var active := Reversed(registry);
      called := [];
      var i := 0;
      while i < |active|
        invariant 0 <= i <= |active| && called == active[..i] && registry == old(registry)
        invariant states.Keys == old(states).Keys
        invariant forall id :: id in states ==>
                    states[id] == if id in active[..i] && disables(id) then Disabled else old(states)[id]
      {
        var id := active[i];
        assert forall j :: 0 <= j < i ==> active[j] != id;
        if states[id] == Enabled {
          called := called + [id];
          if disables(id) {
            states := states[id := Disabled];
          }
        }
        i := i + 1;
      }
      SameElements(registry);
      assert active[..i] == active;
      registry, statuses := [], map[];
    }
  }

  lemma SameElements(ids: seq<Id>)
    ensures forall id :: id in Reversed(ids) <==> id in ids
  {
    forall id | id in ids ensures id in Reversed(ids) {
      var i :| 0 <= i < |ids| && ids[i] == id;
      assert Reversed(ids)[|ids| - 1 - i] == id;
    }
  }

  /** Not excluded, not gated, and does what is asked of it. */
  predicate Willing(id: Id, excluded: seq<Id>, acts: Behaviour)
  {
    acts.preloads(id) && id !in excluded && !acts.gated(id) && acts.boots(id)
  }

  ghost predicate AllReached(g: Graph, id: Id, ids: seq<Id>, gated: Id -> bool, boots: Id -> bool)
  {
    forall b :: Reaches(g, id, b) ==> b in ids && !gated(b) && boots(b)
  }

  lemma {:induction false} BootsIffAllReached(g: Graph, ids: seq<Id>, booted: seq<Id>, gated: Id -> bool,
                                              boots: Id -> bool, k: nat)
    requires DepsEarlier(g, ids) && DepsFirst(g, booted) && BootsByStep(g, ids, booted, gated, boots) && k < |ids|
    ensures ids[k] in booted <==> AllReached(g, ids[k], ids, gated, boots)
    decreases k
  {
    var id := ids[k];
    if id in booted {
      var i :| 0 <= i < |booted| && booted[i] == id;
      forall b | Reaches(g, id, b) ensures b in ids && !gated(b) && boots(b) {
        if b != id { TransitiveBefore(g, booted, i, b); }
        assert b in booted;
      }
    } else if AllReached(g, id, ids, gated, boots) {
      ReachesSelf(g, id);
      forall d | d in g[id].dependencies ensures d in booted {
        ReachesSelf(g, d);
        ReachesThrough(g, id, d, d);
        var j :| 0 <= j < |ids| && ids[j] == d;
        forall b | Reaches(g, d, b) ensures b in ids && !gated(b) && boots(b) {
          ReachesThrough(g, id, d, b);
        }
        BootsIffAllReached(g, ids, booted, gated, boots, j);
      }
    }
  }

  lemma PreloadedNext(g: Graph, sorted: seq<Id>, i: nat, ids: seq<Id>)
    requires DepsFirst(g, sorted) && i < |sorted| && DepsEarlier(g, ids)
    requires forall id :: id in ids ==> id in sorted[..i]
    ensures sorted[i] !in sorted[..i] && DepsEarlier(g, ids + [sorted[i]])
  {
    forall k | 0 <= k < |ids| ensures sorted[i] != ids[k] && sorted[i] !in g[ids[k]].dependencies {
      assert ids[k] in sorted[..i];
      var l :| 0 <= l < i && sorted[l] == ids[k];
      assert sorted[i] !in sorted[..l];
    }
    EarlierAppend(g, ids, sorted[i]);
  }

  lemma {:induction false} BrokenReached(g: Graph, p: seq<Id>)
    requires IsPath(g, p) && Broken(g, p[|p| - 1])
    ensures Broken(g, p[0])
    decreases |p|
  {
    if |p| > 1 {
      var q := p[1..];
      forall i | 0 <= i < |q| - 1 ensures Edge(g, q[i], q[i + 1]) {
        assert Edge(g, p[i + 1], p[i + 2]);
      }
      BrokenReached(g, q);
      assert Edge(g, p[0], p[1]);
      BrokenThrough(g, p[0], p[1]);
    }
  }

  lemma WhoBoots(g: Graph, ids: seq<Id>, booted: seq<Id>, excluded: seq<Id>, acts: Behaviour)
    requires DepsEarlier(g, ids) && DepsFirst(g, booted) && BootsByStep(g, ids, booted, acts.gated, acts.boots)
    requires forall id :: id in ids <==> id in g && !Broken(g, id) && acts.preloads(id) && id !in excluded
    ensures forall id :: id in booted <==>
              id in g && !Broken(g, id) && forall b :: Reaches(g, id, b) ==> Willing(b, excluded, acts)
  {
    forall id
      ensures id in booted <==>
              id in g && !Broken(g, id) && forall b :: Reaches(g, id, b) ==> Willing(b, excluded, acts)
    {
      ReachesSelf(g, id);
      if id in ids {
        var k :| 0 <= k < |ids| && ids[k] == id;
        BootsIffAllReached(g, ids, booted, acts.gated, acts.boots, k);
        forall b | Reaches(g, id, b) ensures b in g && !Broken(g, b) {
          var p :| IsPath(g, p) && p[0] == id && p[|p| - 1] == b;
          if Broken(g, b) { BrokenReached(g, p); }
          if b !in g { MissingIsBroken(g, b); BrokenReached(g, p); }
        }
      }
    }
  }

  /**
   * One life of the plugin system: preload, exclusions, boot, shutdown. Whatever the plugins do, those
   * that boot are exactly those that can load, are willing, and only ever depend on willing ones; each
   * boots after all it depends on, and they are disabled in the opposite order.
   */
  method RunLifecycle(g: Graph, keys: seq<Id>, excluded: seq<Id>, acts: Behaviour)
    returns (booted: seq<Id>, stopped: seq<Id>, ghost roots: seq<Id>)
    requires WellNamed(g) && Distinct(keys) && forall id :: id in keys <==> id in g
    ensures DepsFirst(g, booted) && stopped == Reversed(booted)
    ensures IsRootOrder(g, keys, roots) && FollowsRoots(g, roots, |roots|, booted)
    ensures forall id :: id in booted <==>
              id in g && !Broken(g, id) && forall b :: Reaches(g, id, b) ==> Willing(b, excluded, acts)
  {
    var m := new PluginManager(g);
    roots := m.PreloadAll(keys, acts.preloads);
    ghost var waiting := Ids(m.preloaded);
    ExcludeAll(m, excluded);
    FollowsInOrder(g, roots, Ids(m.preloaded), waiting);
    m.BootAll(acts.gated, acts.boots);
    booted := m.registry;
    FollowsInOrder(g, roots, booted, Ids(m.preloaded));
    WhoBoots(g, Ids(m.preloaded), booted, excluded, acts);
    stopped := m.ShutdownAll(acts.disables);
  }

  /** What is left of some plugins, in their order, without those that are excluded. */
  ghost predicate AreLeft(ids: seq<Id>, all: seq<Id>, excluded: seq<Id>)
  {
    InOrderOf(ids, all) && forall id :: id in ids <==> id in all && id !in excluded
  }

  lemma OneLess(ids: seq<Id>, left: seq<Id>, all: seq<Id>, excluded: seq<Id>, x: Id)
    requires AreLeft(left, all, excluded) && AreLeft(ids, left, [x])
    ensures AreLeft(ids, all, excluded + [x])
  {
    InOrderThrough(ids, left, all);
  }

  method ExcludeAll(m: PluginManager, excluded: seq<Id>)
    requires m.Waiting()
    modifies m`preloaded, m`statuses
    ensures m.Waiting() && AreLeft(Ids(m.preloaded), old(Ids(m.preloaded)), excluded)
  {
    var n := 0;
    ghost var all := Ids(m.preloaded);
    InOrderOfSelf(all);
    while n < |excluded|
      invariant 0 <= n <= |excluded| && m.Waiting() && AreLeft(Ids(m.preloaded), all, excluded[..n])
    {
      ghost var left := Ids(m.preloaded);
      m.ExcludePreloadedPlugin(excluded[n]);
      assert excluded[..n + 1] == excluded[..n] + [excluded[n]];
      OneLess(Ids(m.preloaded), left, all, excluded[..n], excluded[n]);
      n := n + 1;
    }
    assert excluded[..n] == excluded;
  }
}
