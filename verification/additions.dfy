/** What a configuration lacks of an intended one, as single-key additions. */
module Additions {
  import opened Options
  import opened JsonTrees
  import opened MergePreserving
  import opened MergeLaws

  type Path = seq<string>

  datatype Addition = Addition(path: Path, key: string, value: Json)

  /** What one intended property adds to an existing tree. */
  function CollectField(existing: Json, f: Field, path: Path): seq<Addition>
    decreases f, 1
  {
    if !existing.Obj? || !HasKey(existing.fields, f.key) then [Addition(path, f.key, f.value)]
    else if f.value.Obj? && Find(existing.fields, f.key).value.Obj? then
      Collected(Find(existing.fields, f.key).value, f.value, path + [f.key])
    else []
  }

  function CollectFields(existing: Json, fs: seq<Field>, path: Path): seq<Addition>
    decreases fs
  {
    if fs == [] then [] else CollectField(existing, fs[0], path) + CollectFields(existing, fs[1..], path)
  }

  function Collected(existing: Json, intended: Json, path: Path): seq<Addition>
    decreases intended
  {
    if intended.Obj? then CollectFields(existing, intended.fields, path) else []
  }

  /** `collectAdditions`: pushes an addition for each intended key that is absent. */
  method CollectAdditions(existing: Json, intended: Json, path: Path, out: seq<Addition>) returns (after: seq<Addition>)
    ensures after == out + Collected(existing, intended, path)
    decreases intended
  {
    after := out;
    if !intended.Obj? {
      return;
    }
    var fs, i := intended.fields, 0;
    while i < |fs|
      invariant 0 <= i <= |fs| && after == out + CollectFields(existing, fs[..i], path)
    {
      var f := fs[i];
      CollectSnoc(existing, fs, i, path);
      assert after + CollectField(existing, f, path)
          == out + (CollectFields(existing, fs[..i], path) + CollectField(existing, f, path));
      if !existing.Obj? || !HasKey(existing.fields, f.key) {
        after := after + [Addition(path, f.key, f.value)];
      } else if f.value.Obj? && Find(existing.fields, f.key).value.Obj? {
        after := CollectAdditions(Find(existing.fields, f.key).value, f.value, path + [f.key], after);
      }
      i := i + 1;
    }
    assert fs[..i] == fs;
  }

  lemma {:induction false} CollectSnoc(existing: Json, fs: seq<Field>, i: nat, path: Path)
    requires i < |fs|
    ensures CollectFields(existing, fs[..i + 1], path)
            == CollectFields(existing, fs[..i], path) + CollectField(existing, fs[i], path)
  {
    if i == 0 {
      assert fs[..1][1..] == [];
    } else {
      CollectSnoc(existing, fs[1..], i - 1, path);
      assert fs[..i][1..] == fs[1..][..i - 1];
      assert fs[..i + 1][1..] == fs[1..][..i];
    }
  }

  /** One addition carried out: a new last property of the object at the path. */
  function Added(j: Json, path: Path, key: string, value: Json): Json
    decreases |path|, 1
  {
    if !j.Obj? then j
    else if path == [] then Obj(j.fields + [Field(key, value)])
    else Obj(AddedFields(j.fields, path, key, value))
  }

  function AddedFields(fs: seq<Field>, path: Path, key: string, value: Json): (r: seq<Field>)
    requires path != []
    ensures |r| == |fs|
    decreases |path|, 0, |fs|
  {
    if fs == [] then []
    else if fs[0].key == path[0] then [Field(fs[0].key, Added(fs[0].value, path[1..], key, value))] + fs[1..]
    else [fs[0]] + AddedFields(fs[1..], path, key, value)
  }

  function AddedAll(j: Json, adds: seq<Addition>): Json
    decreases |adds|
  {
    if adds == [] then j else AddedAll(Added(j, adds[0].path, adds[0].key, adds[0].value), adds[1..])
  }

  /** The additions made at one path, in order. */
  function Here(adds: seq<Addition>, path: Path): seq<Field>
  {
    if adds == [] then []
    else (if adds[0].path == path then [Field(adds[0].key, adds[0].value)] else []) + Here(adds[1..], path)
  }

  /** All the additions carried out at once, wherever they belong. */
  function Grown(j: Json, path: Path, adds: seq<Addition>): Json
    decreases j
  {
    if j.Obj? then Obj(GrownFields(j.fields, path, adds) + Here(adds, path)) else j
  }

  function GrownFields(fs: seq<Field>, path: Path, adds: seq<Addition>): (r: seq<Field>)
    ensures |r| == |fs|
    decreases fs
  {
    if fs == [] then []
    else [Field(fs[0].key, Grown(fs[0].value, path + [fs[0].key], adds))] + GrownFields(fs[1..], path, adds)
  }

  /** The lists add the same at the path and everywhere below it. */
  ghost predicate AgreeBelow(a: seq<Addition>, b: seq<Addition>, path: Path)
  {
    forall q :: path <= q ==> Here(a, q) == Here(b, q)
  }

  lemma Deeper(path: Path, key: string, q: Path)
    requires path + [key] <= q
    ensures path <= q && |path| < |q| && q[|path|] == key
  {
    assert q[..|path| + 1] == path + [key];
  }

  lemma {:induction false} GrownAgrees(j: Json, path: Path, a: seq<Addition>, b: seq<Addition>)
    requires AgreeBelow(a, b, path)
    ensures Grown(j, path, a) == Grown(j, path, b)
    decreases j
  {
    if j.Obj? {
      FieldsAgree(j.fields, path, a, b);
    }
  }

  lemma {:induction false} FieldsAgree(fs: seq<Field>, path: Path, a: seq<Addition>, b: seq<Addition>)
    requires AgreeBelow(a, b, path)
    ensures GrownFields(fs, path, a) == GrownFields(fs, path, b)
    decreases fs
  {
    if fs != [] {
      forall q | path + [fs[0].key] <= q ensures Here(a, q) == Here(b, q) {
        Deeper(path, fs[0].key, q);
      }
      GrownAgrees(fs[0].value, path + [fs[0].key], a, b);
      FieldsAgree(fs[1..], path, a, b);
    }
  }

  lemma {:induction false} GrownAt(fs: seq<Field>, path: Path, adds: seq<Addition>, i: nat)
    requires i < |fs|
    ensures GrownFields(fs, path, adds)[i] == Field(fs[i].key, Grown(fs[i].value, path + [fs[i].key], adds))
  {
    if i > 0 {
      GrownAt(fs[1..], path, adds, i - 1);
    }
  }

  lemma {:induction false} HereConcat(a: seq<Addition>, b: seq<Addition>, path: Path)
    ensures Here(a + b, path) == Here(a, path) + Here(b, path)
  {
    if a == [] {
      assert a + b == b;
    } else {
      assert (a + b)[1..] == a[1..] + b;
      HereConcat(a[1..], b, path);
    }
  }

  /** Nothing grows where nothing is added. */
  lemma {:induction false} GrownNothing(j: Json, path: Path, adds: seq<Addition>)
    requires forall q :: path <= q ==> Here(adds, q) == []
    ensures Grown(j, path, adds) == j
    decreases j
  {
    if j.Obj? {
      var fs := j.fields;
      forall i | 0 <= i < |fs| ensures GrownFields(fs, path, adds)[i] == fs[i] {
        GrownAt(fs, path, adds, i);
        forall q | path + [fs[i].key] <= q ensures Here(adds, q) == [] {
          Deeper(path, fs[i].key, q);
        }
        GrownNothing(fs[i].value, path + [fs[i].key], adds);
      }
      assert GrownFields(fs, path, adds) == fs;
    }
  }

  /** The intended tree is the existing one with properties added behind those it has, at any depth. */
  ghost predicate Extends(existing: Json, intended: Json)
    decreases existing
  {
    if existing.Obj? && intended.Obj? then
      && |existing.fields| <= |intended.fields|
      && forall i :: 0 <= i < |existing.fields| ==>
           && existing.fields[i].key == intended.fields[i].key
           && Extends(existing.fields[i].value, intended.fields[i].value)
    else existing == intended
  }

  lemma {:induction false} ExtendsSelf(j: Json)
    ensures Extends(j, j)
    decreases j
  {
    if j.Obj? {
      forall i | 0 <= i < |j.fields| ensures Extends(j.fields[i].value, j.fields[i].value) {
        ExtendsSelf(j.fields[i].value);
      }
    }
  }

  lemma {:induction false} MergeExtends(d: Json, u: Json)
    ensures Extends(u, Merge(d, u))
    decreases u
  {
    if d.Obj? && u.Obj? {
      forall i | 0 <= i < |u.fields| ensures Extends(u.fields[i].value, MergeFields(d.fields, u.fields)[i].value) {
        MergedAt(d.fields, u.fields, i);
        ExtendsSelf(u.fields[i].value);
        if HasKey(d.fields, u.fields[i].key) {
          MergeExtends(Find(d.fields, u.fields[i].key).value, u.fields[i].value);
        }
      }
      forall i | 0 <= i < |u.fields| ensures MergeFields(d.fields, u.fields)[i].key == u.fields[i].key {
        MergedAt(d.fields, u.fields, i);
      }
    } else {
      ExtendsSelf(u);
    }
  }

  ghost predicate AllUnder(adds: seq<Addition>, path: Path)
  {
    forall i :: 0 <= i < |adds| ==> path <= adds[i].path
  }

  lemma {:induction false} CollectedUnder(existing: Json, intended: Json, path: Path)
    ensures AllUnder(Collected(existing, intended, path), path)
    decreases intended, 0
  {
    if intended.Obj? {
      CollectFieldsUnder(existing, intended.fields, path);
    }
  }

  lemma {:induction false} CollectFieldsUnder(existing: Json, fs: seq<Field>, path: Path)
    ensures AllUnder(CollectFields(existing, fs, path), path)
    decreases fs, 0
  {
    if fs != [] {
      CollectFieldUnder(existing, fs[0], path);
      CollectFieldsUnder(existing, fs[1..], path);
    }
  }

  /** What a property leads to is added where it is, or below it. */
  lemma {:induction false} CollectFieldUnder(existing: Json, f: Field, path: Path)
    ensures AllUnder(CollectField(existing, f, path), path)
    ensures existing.Obj? && HasKey(existing.fields, f.key) ==>
              AllUnder(CollectField(existing, f, path), path + [f.key])
    decreases f, 0
  {
    if existing.Obj? && HasKey(existing.fields, f.key) && f.value.Obj? && Find(existing.fields, f.key).value.Obj? {
      CollectedUnder(Find(existing.fields, f.key).value, f.value, path + [f.key]);
      forall a | a in CollectField(existing, f, path) ensures path <= a.path {
        Deeper(path, f.key, a.path);
      }
    }
  }

  lemma {:induction false} HereNone(adds: seq<Addition>, path: Path)
    requires forall i :: 0 <= i < |adds| ==> adds[i].path != path
    ensures Here(adds, path) == []
  {
    if adds != [] {
      assert adds[0].path != path;
      HereNone(adds[1..], path);
    }
  }

  /** At the object itself, the properties it lacks are added. */
  lemma {:induction false} HereAtObject(existing: Json, fs: seq<Field>, path: Path)
    requires existing.Obj?
    ensures Here(CollectFields(existing, fs, path), path) == Missing(fs, existing.fields)
    decreases |fs|
  {
    if fs != [] {
      var first := CollectField(existing, fs[0], path);
      HereConcat(first, CollectFields(existing, fs[1..], path), path);
      HereAtObject(existing, fs[1..], path);
      if HasKey(existing.fields, fs[0].key) {
        CollectFieldUnder(existing, fs[0], path);
        HereNone(first, path);
      } else {
        assert first[1..] == [];
      }
    }
  }

  lemma HereBeside(existing: Json, f: Field, path: Path, key: string, q: Path)
    requires path + [key] <= q && f.key != key
    ensures Here(CollectField(existing, f, path), q) == []
  {
    Deeper(path, key, q);
    var adds := CollectField(existing, f, path);
    CollectFieldUnder(existing, f, path);
    forall i | 0 <= i < |adds| ensures adds[i].path != q {
      if existing.Obj? && HasKey(existing.fields, f.key) {
        Deeper(path, f.key, adds[i].path);
      }
    }
    HereNone(adds, q);
  }

  lemma {:induction false} HereBesideAll(existing: Json, fs: seq<Field>, path: Path, key: string, q: Path)
    requires path + [key] <= q && forall i :: 0 <= i < |fs| ==> fs[i].key != key
    ensures Here(CollectFields(existing, fs, path), q) == []
    decreases |fs|
  {
    if fs != [] {
      HereBeside(existing, fs[0], path, key, q);
      HereConcat(CollectField(existing, fs[0], path), CollectFields(existing, fs[1..], path), q);
      HereBesideAll(existing, fs[1..], path, key, q);
    }
  }

  /** Below one of its properties, only that property adds anything. */
  lemma {:induction false} HereBelow(existing: Json, fs: seq<Field>, path: Path, i: nat, q: Path)
    requires DistinctKeys(fs) && i < |fs| && path + [fs[i].key] <= q
    ensures Here(CollectFields(existing, fs, path), q) == Here(CollectField(existing, fs[i], path), q)
    decreases |fs|
  {
    HereConcat(CollectField(existing, fs[0], path), CollectFields(existing, fs[1..], path), q);
    if i == 0 {
      HereBesideAll(existing, fs[1..], path, fs[0].key, q);
    } else {
      HereBeside(existing, fs[0], path, fs[i].key, q);
      HereBelow(existing, fs[1..], path, i - 1, q);
    }
  }

  /** Of an object that extends another, what the other lacks comes last. */
  lemma {:induction false} MissingIsTail(mf: seq<Field>, uf: seq<Field>, i: nat)
    requires DistinctKeys(mf) && i <= |mf| && |uf| <= |mf| && forall j :: 0 <= j < |uf| ==> uf[j].key == mf[j].key
    ensures Missing(mf[i..], uf) == mf[if i < |uf| then |uf| else i..]
    decreases |mf| - i
  {
    if i < |mf| {
      MissingIsTail(mf, uf, i + 1);
      assert mf[i..][1..] == mf[i + 1..];
      if i < |uf| {
        HasAt(uf, i);
      } else if HasKey(uf, mf[i].key) {
        var j := FindWhere(uf, mf[i].key);
      } else {
        assert mf[i..] == [mf[i]] + mf[i + 1..];
      }
    }
  }

  lemma {:induction false} HasAt(fs: seq<Field>, i: nat)
    requires i < |fs|
    ensures HasKey(fs, fs[i].key)
  {
    if i > 0 { HasAt(fs[1..], i - 1); }
  }

  /** Carrying out what was collected, in whatever order, gives the intended tree. */
  lemma {:induction false} GrownIsIntended(u: Json, m: Json, path: Path, adds: seq<Addition>)
    requires Extends(u, m) && WellFormed(m) && AgreeBelow(adds, Collected(u, m, path), path)
    ensures Grown(u, path, adds) == m
    decreases u
  {
    if u.Obj? && m.Obj? {
      var uf, mf := u.fields, m.fields;
      HereAtObject(u, mf, path);
      MissingIsTail(mf, uf, 0);
      assert mf[0..] == mf;
      forall i | 0 <= i < |uf| ensures GrownFields(uf, path, adds)[i] == mf[i] {
        GrownAt(uf, path, adds, i);
        if uf[i].value.Obj? && mf[i].value.Obj? {
          ChildAgrees(u, m, path, adds, i);
          GrownIsIntended(uf[i].value, mf[i].value, path + [uf[i].key], adds);
        }
      }
      assert mf == mf[..|uf|] + mf[|uf|..];
      assert GrownFields(uf, path, adds) == mf[..|uf|];
    }
  }

  lemma ChildAgrees(u: Json, m: Json, path: Path, adds: seq<Addition>, i: nat)
    requires u.Obj? && m.Obj? && Extends(u, m) && WellFormed(m) && AgreeBelow(adds, Collected(u, m, path), path)
    requires i < |u.fields| && u.fields[i].value.Obj? && m.fields[i].value.Obj?
    ensures AgreeBelow(adds, Collected(u.fields[i].value, m.fields[i].value, path + [u.fields[i].key]),
                       path + [u.fields[i].key])
  {
    var key := u.fields[i].key;
    forall q | path + [key] <= q
      ensures Here(adds, q) == Here(Collected(u.fields[i].value, m.fields[i].value, path + [key]), q)
    {
      Deeper(path, key, q);
      HereBelow(u, m.fields, path, i, q);
      KeysOfExtended(u, m, i);
    }
  }

  lemma KeysOfExtended(u: Json, m: Json, i: nat)
    requires u.Obj? && m.Obj? && Extends(u, m) && WellFormed(m) && i < |u.fields|
    ensures Find(u.fields, u.fields[i].key) == Some(u.fields[i].value) && m.fields[i].key == u.fields[i].key
  {
    forall a, b | 0 <= a < b < |u.fields| ensures u.fields[a].key != u.fields[b].key {
      assert m.fields[a].key != m.fields[b].key;
    }
    FindAt(u.fields, i);
  }
}

/** Carrying the additions out one by one, shallow ones first, gives the intended tree. */
module Patching {
  import opened Options
  import opened JsonTrees
  import opened MergePreserving
  import opened MergeLaws
  import opened Additions

  /** The addition is to an object of the tree, under a key the object does not have. */
  ghost predicate InPlace(j: Json, a: Addition)
  {
    At(j, a.path).Some? && At(j, a.path).value.Obj? && !HasKey(At(j, a.path).value.fields, a.key)
  }

  /** Does the second addition go into the value the first one adds? */
  predicate LiesUnder(a: Addition, b: Addition)
  {
    a.path + [a.key] <= b.path
  }

  ghost predicate NoneUnder(adds: seq<Addition>)
  {
    forall a, b :: a in adds && b in adds ==> !LiesUnder(a, b)
  }

  ghost predicate OnceEach(adds: seq<Addition>)
  {
    forall q :: DistinctKeys(Here(adds, q))
  }

  ghost predicate Ready(j: Json, adds: seq<Addition>)
  {
    && WellFormed(j) && NoneUnder(adds) && OnceEach(adds)
    && forall a :: a in adds ==> InPlace(j, a) && WellFormed(a.value)
  }

  /** `additions` sorted by depth; additions at one depth keep their order. */
  function SortByDepth(adds: seq<Addition>): seq<Addition>
  {
    if adds == [] then [] else Inserted(adds[0], SortByDepth(adds[1..]))
  }

  function Inserted(a: Addition, sorted: seq<Addition>): seq<Addition>
  {
    if sorted == [] || |a.path| <= |sorted[0].path| then [a] + sorted else [sorted[0]] + Inserted(a, sorted[1..])
  }

  lemma {:induction false} InsertedHere(a: Addition, sorted: seq<Addition>, q: Path)
    ensures Here(Inserted(a, sorted), q) == Here([a] + sorted, q)
    ensures forall b :: b in Inserted(a, sorted) <==> b == a || b in sorted
  {
    if sorted == [] || |a.path| <= |sorted[0].path| {
    } else {
      InsertedHere(a, sorted[1..], q);
      var rest := sorted[1..];
      assert ([sorted[0]] + Inserted(a, rest))[1..] == Inserted(a, rest);
      assert ([a] + rest)[1..] == rest && ([a] + sorted)[1..] == sorted;
    }
  }

  /** Sorting keeps the additions, and their order at each path. */
  lemma {:induction false} SortedHere(adds: seq<Addition>, q: Path)
    ensures Here(SortByDepth(adds), q) == Here(adds, q)
    ensures forall b :: b in SortByDepth(adds) <==> b in adds
  {
    if adds != [] {
      SortedHere(adds[1..], q);
      var sorted := SortByDepth(adds[1..]);
      InsertedHere(adds[0], sorted, q);
      assert ([adds[0]] + sorted)[1..] == sorted;
    }
  }

  ghost predicate ShallowFirst(adds: seq<Addition>)
  {
    forall i, k :: 0 <= i < k < |adds| ==> |adds[i].path| <= |adds[k].path|
  }

  lemma {:induction false} SortedByDepth(adds: seq<Addition>)
    ensures ShallowFirst(SortByDepth(adds))
  {
    if adds != [] {
      SortedByDepth(adds[1..]);
      InsertedByDepth(adds[0], SortByDepth(adds[1..]));
    }
  }

  lemma {:induction false} InsertedByDepth(a: Addition, s: seq<Addition>)
    requires ShallowFirst(s)
    ensures ShallowFirst(Inserted(a, s))
  {
    if s != [] && |a.path| > |s[0].path| {
      InsertedByDepth(a, s[1..]);
      InsertedHere(a, s[1..], []);
      var r := Inserted(a, s[1..]);
      forall k | 0 <= k < |r| ensures |s[0].path| <= |r[k].path| {
        assert r[k] in r;
      }
    }
  }

  lemma {:induction false} HereHas(adds: seq<Addition>, a: Addition)
    requires a in adds
    ensures HasKey(Here(adds, a.path), a.key)
  {
    if adds[0] != a {
      HereHas(adds[1..], a);
      var rest := Here(adds[1..], a.path);
      if adds[0].path == a.path {
        assert ([Field(adds[0].key, adds[0].value)] + rest)[1..] == rest;
      } else {
        assert Here(adds, a.path) == rest;
      }
    }
  }

  lemma {:induction false} AddedFieldsAt(fs: seq<Field>, path: Path, key: string, value: Json, i: nat)
    requires path != [] && i < |fs| && DistinctKeys(fs)
    ensures AddedFields(fs, path, key, value)[i] ==
              if fs[i].key == path[0] then Field(fs[i].key, Added(fs[i].value, path[1..], key, value)) else fs[i]
    decreases |fs|
  {
    if i > 0 {
      if fs[0].key == path[0] {
        assert fs[i].key != fs[0].key;
      } else {
        AddedFieldsAt(fs[1..], path, key, value, i - 1);
      }
    }
  }

  lemma {:induction false} GrownSnoc(fs: seq<Field>, f: Field, path: Path, adds: seq<Addition>)
    ensures GrownFields(fs + [f], path, adds)
            == GrownFields(fs, path, adds) + [Field(f.key, Grown(f.value, path + [f.key], adds))]
  {
    if fs == [] {
      assert [f][1..] == [];
    } else {
      assert (fs + [f])[1..] == fs[1..] + [f];
      GrownSnoc(fs[1..], f, path, adds);
    }
  }

  /** Beside its path, an addition changes nothing. */
  lemma BesideAgrees(a: Addition, rest: seq<Addition>, path: Path)
    requires !(path <= a.path)
    ensures AgreeBelow([a] + rest, rest, path)
  {
    assert ([a] + rest)[1..] == rest;
  }

  /** Adding first and growing the rest after is growing all of it. */
  lemma {:induction false} AddThenGrow(j: Json, path: Path, r: Path, a: Addition, rest: seq<Addition>)
    requires WellFormed(j) && a.path == path + r && At(j, r).Some? && At(j, r).value.Obj?
    requires forall q :: a.path + [a.key] <= q ==> Here(rest, q) == []
    ensures Grown(Added(j, r, a.key, a.value), path, rest) == Grown(j, path, [a] + rest)
    decreases |r|
  {
    var fs, all := j.fields, [a] + rest;
    assert all[1..] == rest;
    if r == [] {
      assert a.path == path;
      GrownSnoc(fs, Field(a.key, a.value), path, rest);
      GrownNothing(a.value, path + [a.key], rest);
      forall i | 0 <= i < |fs| ensures GrownFields(fs, path, rest)[i] == GrownFields(fs, path, all)[i] {
        GrownAt(fs, path, rest, i);
        GrownAt(fs, path, all, i);
        BesideAgrees(a, rest, path + [fs[i].key]);
        GrownAgrees(fs[i].value, path + [fs[i].key], all, rest);
      }
      assert GrownFields(fs, path, rest) == GrownFields(fs, path, all);
    } else {
      var after := AddedFields(fs, r, a.key, a.value);
      forall i | 0 <= i < |fs| ensures GrownFields(after, path, rest)[i] == GrownFields(fs, path, all)[i] {
        AddedFieldsAt(fs, r, a.key, a.value, i);
        GrownAt(after, path, rest, i);
        GrownAt(fs, path, all, i);
        AddBelow(j, path, r, a, rest, i);
      }
      assert GrownFields(after, path, rest) == GrownFields(fs, path, all);
      assert a.path != path;
    }
  }

  lemma AddBelow(j: Json, path: Path, r: Path, a: Addition, rest: seq<Addition>, i: nat)
    requires WellFormed(j) && a.path == path + r && r != [] && At(j, r).Some? && At(j, r).value.Obj?
    requires forall q :: a.path + [a.key] <= q ==> Here(rest, q) == []
    requires j.Obj? && i < |j.fields|
    ensures var f := j.fields[i];
            Grown(f.value, path + [f.key], [a] + rest) ==
            Grown(if f.key == r[0] then Added(f.value, r[1..], a.key, a.value) else f.value, path + [f.key], rest)
    decreases |r|, 0
  {
    var f := j.fields[i];
    FindAt(j.fields, i);
    if f.key == r[0] {
      assert path + [f.key] + r[1..] == path + r;
      AddThenGrow(f.value, path + [f.key], r[1..], a, rest);
    } else {
      assert a.path[|path|] == r[0];
      if path + [f.key] <= a.path {
        Deeper(path, f.key, a.path);
      }
      BesideAgrees(a, rest, path + [f.key]);
      GrownAgrees(f.value, path + [f.key], [a] + rest, rest);
    }
  }

  lemma FindAdded(fs: seq<Field>, path: Path, key: string, value: Json, k: string)
    requires path != []
    ensures Find(AddedFields(fs, path, key, value), k) ==
              if k == path[0] && HasKey(fs, k) then Some(Added(Find(fs, k).value, path[1..], key, value))
              else Find(fs, k)
    decreases |fs|
  {
    if fs != [] {
      FindAdded(fs[1..], path, key, value, k);
    }
  }

  /** Where there was an object, there still is one after an addition, with at most the added key more. */
  lemma {:induction false} AtAdded(j: Json, a: Addition, path: Path, q: Path)
    requires At(j, q).Some? && At(j, q).value.Obj?
    ensures var after := Added(j, path, a.key, a.value);
            && At(after, q).Some? && At(after, q).value.Obj?
            && forall k :: HasKey(At(after, q).value.fields, k) ==>
                 HasKey(At(j, q).value.fields, k) || (k == a.key && q == path)
    decreases |q|
  {
    var after := Added(j, path, a.key, a.value);
    if path == [] && q == [] {
      forall k ensures HasKey(after.fields, k) ==> HasKey(j.fields, k) || k == a.key {
        FindConcat(j.fields, [Field(a.key, a.value)], k);
      }
    } else if path == [] {
      FindConcat(j.fields, [Field(a.key, a.value)], q[0]);
    } else if q == [] {
      forall k ensures HasKey(after.fields, k) == HasKey(j.fields, k) {
        FindAdded(j.fields, path, a.key, a.value, k);
      }
    } else {
      FindAdded(j.fields, path, a.key, a.value, q[0]);
      if q[0] == path[0] {
        AtAdded(Find(j.fields, q[0]).value, a, path[1..], q[1..]);
        assert q == [q[0]] + q[1..] && path == [path[0]] + path[1..];
      }
    }
  }

  lemma {:induction false} AddedWellFormed(j: Json, path: Path, key: string, value: Json)
    requires WellFormed(j) && WellFormed(value) && At(j, path).Some? && At(j, path).value.Obj?
    requires !HasKey(At(j, path).value.fields, key)
    ensures WellFormed(Added(j, path, key, value))
    decreases |path|
  {
    var fs := j.fields;
    if path == [] {
      forall i | 0 <= i < |fs| ensures fs[i].key != key {
        HasAt(fs, i);
      }
    } else {
      var after := AddedFields(fs, path, key, value);
      forall i | 0 <= i < |fs| ensures after[i].key == fs[i].key && WellFormed(after[i].value) {
        AddedFieldsAt(fs, path, key, value, i);
        FindAt(fs, i);
        if fs[i].key == path[0] {
          AddedWellFormed(fs[i].value, path[1..], key, value);
        }
      }
    }
  }

  lemma ReadyNext(j: Json, adds: seq<Addition>)
    requires Ready(j, adds) && adds != []
    ensures Ready(Added(j, adds[0].path, adds[0].key, adds[0].value), adds[1..])
  {
    var a, rest := adds[0], adds[1..];
    var after := Added(j, a.path, a.key, a.value);
    assert InPlace(j, a);
    AddedWellFormed(j, a.path, a.key, a.value);
    forall q ensures DistinctKeys(Here(rest, q)) {
      assert DistinctKeys(Here(adds, q));
      DistinctTail(a, rest, q);
    }
    forall b | b in rest ensures InPlace(after, b) && WellFormed(b.value) {
      assert b in adds;
      AtAdded(j, a, a.path, b.path);
      if b.path == a.path {
        HereHas(rest, b);
        var i := FindWhere(Here(rest, a.path), b.key);
        assert Here(adds, a.path) == [Field(a.key, a.value)] + Here(rest, a.path);
        assert DistinctKeys(Here(adds, a.path)) && Here(adds, a.path)[0].key != Here(adds, a.path)[i + 1].key;
      }
    }
  }

  lemma DistinctTail(a: Addition, rest: seq<Addition>, q: Path)
    requires DistinctKeys(Here([a] + rest, q))
    ensures DistinctKeys(Here(rest, q))
  {
    var all, tail := Here([a] + rest, q), Here(rest, q);
    assert ([a] + rest)[1..] == rest;
    if a.path != q {
      assert all == tail;
    } else {
      assert all == [Field(a.key, a.value)] + tail;
      forall i, k | 0 <= i < k < |tail| ensures tail[i].key != tail[k].key {
        assert all[i + 1].key != all[k + 1].key;
      }
    }
  }

  lemma {:induction false} NothingUnder(adds: seq<Addition>, a: Addition, q: Path)
    requires a.path + [a.key] <= q && forall b :: b in adds ==> !LiesUnder(a, b)
    ensures Here(adds, q) == []
  {
    if adds != [] {
      assert !LiesUnder(a, adds[0]);
      NothingUnder(adds[1..], a, q);
    }
  }

  /** One by one in any order is the same as all at once. */
  lemma {:induction false} OneByOne(j: Json, adds: seq<Addition>)
    requires Ready(j, adds)
    ensures AddedAll(j, adds) == Grown(j, [], adds)
    decreases |adds|
  {
    if adds == [] {
      GrownNothing(j, [], adds);
    } else {
      var a, rest := adds[0], adds[1..];
      ReadyNext(j, adds);
      OneByOne(Added(j, a.path, a.key, a.value), rest);
      forall q | a.path + [a.key] <= q ensures Here(rest, q) == [] {
        NothingUnder(rest, a, q);
      }
      assert InPlace(j, a) && [] + a.path == a.path;
      AddThenGrow(j, [], a.path, a, rest);
      assert [a] + rest == adds;
    }
  }

  /** A path that leads somewhere leads somewhere all along. */
  lemma {:induction false} AtPrefix(j: Json, path: Path, key: string, q: Path)
    requires path + [key] <= q && At(j, q).Some?
    ensures At(j, path).Some? && At(j, path).value.Obj? && HasKey(At(j, path).value.fields, key)
    decreases |path|
  {
    if path == [] {
      assert q[0] == key;
    } else {
      assert q[0] == path[0] && path[1..] + [key] <= q[1..];
      AtPrefix(Find(j.fields, q[0]).value, path[1..], key, q[1..]);
    }
  }

  /** Everything collected is in its place in the existing tree. */
  lemma {:induction false} CollectedInPlace(u: Json, m: Json, path: Path, a: Addition)
    requires u.Obj? && a in Collected(u, m, path) && WellFormed(m)
    ensures path <= a.path && InPlace(u, a.(path := a.path[|path|..])) && WellFormed(a.value)
    decreases m, 0
  {
    FieldsInPlace(u, m.fields, path, a);
  }

  lemma {:induction false} FieldsInPlace(u: Json, fs: seq<Field>, path: Path, a: Addition)
    requires u.Obj? && a in CollectFields(u, fs, path) && forall i :: 0 <= i < |fs| ==> WellFormed(fs[i].value)
    ensures path <= a.path && InPlace(u, a.(path := a.path[|path|..])) && WellFormed(a.value)
    decreases fs, 0
  {
    var f := fs[0];
    if a in CollectField(u, f, path) {
      if HasKey(u.fields, f.key) {
        var child := Find(u.fields, f.key).value;
        CollectedInPlace(child, f.value, path + [f.key], a);
        Deeper(path, f.key, a.path);
        var r := a.path[|path|..];
        assert r[0] == f.key && r[1..] == a.path[|path| + 1..];
      }
    } else {
      FieldsInPlace(u, fs[1..], path, a);
    }
  }

  lemma NoneUnderAnother(u: Json, m: Json)
    requires u.Obj? && WellFormed(m)
    ensures NoneUnder(Collected(u, m, []))
  {
    var adds := Collected(u, m, []);
    forall a, b | a in adds && b in adds ensures !LiesUnder(a, b) {
      CollectedInPlace(u, m, [], a);
      CollectedInPlace(u, m, [], b);
      assert a.path[0..] == a.path && b.path[0..] == b.path;
      if LiesUnder(a, b) {
        AtPrefix(u, a.path, a.key, b.path);
      }
    }
  }

  /** No key is added twice to one object. */
  lemma {:induction false} CollectedOnce(u: Json, m: Json, path: Path, q: Path)
    requires WellFormed(m)
    ensures DistinctKeys(Here(Collected(u, m, path), q))
    decreases m
  {
    var adds := Collected(u, m, path);
    if !m.Obj? {
    } else if q == path {
      if u.Obj? {
        HereAtObject(u, m.fields, path);
        MissingWellFormed(m.fields, u.fields);
      } else {
        HereAll(u, m.fields, path);
      }
    } else if path <= q {
      var key := q[|path|];
      assert q[..|path| + 1] == path + [key];
      if i :| 0 <= i < |m.fields| && m.fields[i].key == key {
        HereBelow(u, m.fields, path, i, q);
        var f := m.fields[i];
        if u.Obj? && HasKey(u.fields, key) {
          if f.value.Obj? && Find(u.fields, key).value.Obj? {
            CollectedOnce(Find(u.fields, key).value, f.value, path + [key], q);
          }
        }
      } else {
        HereBesideAll(u, m.fields, path, key, q);
      }
    } else {
      CollectedUnder(u, m, path);
      HereNone(adds, q);
    }
  }

  /** Where there is no object yet, every intended property is an addition. */
  lemma {:induction false} HereAll(u: Json, fs: seq<Field>, path: Path)
    requires !u.Obj?
    ensures Here(CollectFields(u, fs, path), path) == fs
    decreases |fs|
  {
    if fs != [] {
      HereAll(u, fs[1..], path);
      HereConcat(CollectField(u, fs[0], path), CollectFields(u, fs[1..], path), path);
      assert CollectField(u, fs[0], path)[1..] == [];
    }
  }

  /**
   * Patch agreement. Where the intended tree extends the existing one, the collected additions, sorted by
   * depth and carried out one after another, give exactly the intended tree.
   */
  lemma PatchGivesIntended(u: Json, m: Json)
    requires WellFormed(u) && WellFormed(m) && Extends(u, m)
    ensures AddedAll(u, SortByDepth(Collected(u, m, []))) == m
  {
    var adds := Collected(u, m, []);
    var sorted := SortByDepth(adds);
    if u.Obj? && m.Obj? {
      ReadyToPatch(u, m);
      forall q ensures Here(sorted, q) == Here(adds, q) {
        SortedHere(adds, q);
      }
      OneByOne(u, sorted);
      GrownIsIntended(u, m, [], sorted);
    }
  }

  lemma ReadyToPatch(u: Json, m: Json)
    requires WellFormed(u) && WellFormed(m) && u.Obj?
    ensures Ready(u, SortByDepth(Collected(u, m, [])))
  {
    var adds := Collected(u, m, []);
    var sorted := SortByDepth(adds);
    NoneUnderAnother(u, m);
    SortedHere(adds, []);
    forall q ensures DistinctKeys(Here(sorted, q)) {
      SortedHere(adds, q);
      CollectedOnce(u, m, [], q);
    }
    forall a | a in sorted ensures InPlace(u, a) && WellFormed(a.value) {
      CollectedInPlace(u, m, [], a);
      assert a.path[0..] == a.path && a.(path := a.path) == a;
    }
  }

  /** For any defaults and any user tree: patching the user's tree with what the merge adds is the merge. */
  lemma DiffPatchAgree(d: Json, u: Json)
    requires WellFormed(d) && WellFormed(u)
    ensures var adds := Collected(u, Merge(d, u), []);
            AddedAll(u, SortByDepth(adds)) == Merge(d, u) && (u.Obj? ==> NoneUnder(adds))
    ensures Collected(u, Merge(d, u), []) == [] <==> Merge(d, u) == u
  {
    MergeWellFormed(d, u);
    MergeExtends(d, u);
    PatchGivesIntended(u, Merge(d, u));
    if u.Obj? {
      NoneUnderAnother(u, Merge(d, u));
    }
    if Merge(d, u) == u {
      NothingToAdd(u, []);
    }
  }

  lemma {:induction false} NothingToAdd(j: Json, path: Path)
    requires WellFormed(j)
    ensures Collected(j, j, path) == []
    decreases j
  {
    if j.Obj? {
      forall i | 0 <= i < |j.fields| ensures CollectField(j, j.fields[i], path) == [] {
        FindAt(j.fields, i);
        NothingToAdd(j.fields[i].value, path + [j.fields[i].key]);
      }
      NoFieldAdds(j, j.fields, path);
    }
  }

  lemma {:induction false} NoFieldAdds(existing: Json, fs: seq<Field>, path: Path)
    requires forall i :: 0 <= i < |fs| ==> CollectField(existing, fs[i], path) == []
    ensures CollectFields(existing, fs, path) == []
    decreases |fs|
  {
    if fs != [] {
      NoFieldAdds(existing, fs[1..], path);
    }
  }
}
