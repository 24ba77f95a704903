/** Merging a user's configuration with the defaults, keeping everything the user wrote. */
module MergePreserving {
  import opened Options
  import opened JsonTrees

  /** What a merge reports. */
  datatype Mutation = MissingKey(path: string) | TypeMismatch(path: string, userTag: string, defaultTag: string)

  const ROOT: string := "root"

  function PathJoin(parent: string, key: string): string
  {
    if parent == ROOT then key else parent + "." + key
  }

  function TypeTag(j: Json): string
  {
    match j
    case Null => "null"
    case Arr(_) => "array"
    case Obj(_) => "object"
    case Bool(_) => "boolean"
    case Num(_) => "number"
    case Str(_) => "string"
  }

  /** What a user's property becomes. */
  function MergeField(df: seq<Field>, f: Field): Field
    decreases f, 1
  {
    Field(f.key, if HasKey(df, f.key) then Merge(Find(df, f.key).value, f.value) else f.value)
  }

  function MergeFields(df: seq<Field>, uf: seq<Field>): (r: seq<Field>)
    ensures |r| == |uf|
    decreases uf
  {
    if uf == [] then [] else [MergeField(df, uf[0])] + MergeFields(df, uf[1..])
  }

  /** The default properties the user does not have. */
  function Missing(df: seq<Field>, uf: seq<Field>): seq<Field>
    decreases |df|
  {
    if df == [] then []
    else if HasKey(uf, df[0].key) then Missing(df[1..], uf)
    else [df[0]] + Missing(df[1..], uf)
  }

  function Merge(d: Json, u: Json): Json
    decreases u
  {
    if d.Obj? && u.Obj? then Obj(MergeFields(d.fields, u.fields) + Missing(d.fields, u.fields)) else u
  }

  function NoteField(df: seq<Field>, f: Field, path: string): seq<Mutation>
    decreases f, 1
  {
    if HasKey(df, f.key) then Notes(Find(df, f.key).value, f.value, PathJoin(path, f.key)) else []
  }

  function NoteFields(df: seq<Field>, uf: seq<Field>, path: string): seq<Mutation>
    decreases uf
  {
    if uf == [] then [] else NoteField(df, uf[0], path) + NoteFields(df, uf[1..], path)
  }

  function NoteMissing(fs: seq<Field>, path: string): seq<Mutation>
  {
    if fs == [] then [] else [MissingKey(PathJoin(path, fs[0].key))] + NoteMissing(fs[1..], path)
  }

  /** What a merge reports: the missing keys it adds, and the types that differ. */
  function Notes(d: Json, u: Json, path: string): seq<Mutation>
    decreases u
  {
    if d.Obj? && u.Obj? then NoteFields(d.fields, u.fields, path) + NoteMissing(Missing(d.fields, u.fields), path)
    else if TypeTag(d) != TypeTag(u) then [TypeMismatch(path, TypeTag(u), TypeTag(d))]
    else []
  }

  predicate AddsKey(notes: seq<Mutation>)
  {
    exists i :: 0 <= i < |notes| && notes[i].MissingKey?
  }

  /**
   * `mergePreserve`. An absent user value is the copied default; objects are merged key by key, the user's
   * keys first; anything else is the user's.
   */
  method MergePreserve(d: Json, u: Option<Json>, path: string, mutations: seq<Mutation>)
    returns (out: Json, after: seq<Mutation>)
    requires WellFormed(d) && (u.Some? ==> WellFormed(u.value))
    ensures u.Some? ==> out == Merge(d, u.value) && after == mutations + Notes(d, u.value, path)
    ensures u.None? ==> out == d && after == mutations + if path == ROOT then [] else [MissingKey(path)]
    decreases if u.Some? then u.value else Null
  {
    after := mutations;
    if u.None? {
      if path != ROOT {
        after := after + [MissingKey(path)];
      }
      return d, after;
    }
    if d.Obj? && u.value.Obj? {
      var fields;
      fields, after := MergeObjects(d.fields, u.value.fields, path, mutations);
      return Obj(fields), after;
    }
    if !(d.Arr? && u.value.Arr?) && TypeTag(d) != TypeTag(u.value) {
      after := after + [TypeMismatch(path, TypeTag(u.value), TypeTag(d))];
    }
    return u.value, after;
  }

  method MergeObjects(df: seq<Field>, uf: seq<Field>, path: string, mutations: seq<Mutation>)
    returns (out: seq<Field>, after: seq<Mutation>)
    requires AllWellFormed(df) && AllWellFormed(uf)
    ensures out == MergeFields(df, uf) + Missing(df, uf)
    ensures after == mutations + (NoteFields(df, uf, path) + NoteMissing(Missing(df, uf), path))
    decreases uf
  {
    out, after := [], mutations;
    var i := 0;
    while i < |uf|
      invariant 0 <= i <= |uf| && out == MergeFields(df, uf[..i])
      invariant after == mutations + NoteFields(df, uf[..i], path)
    {
      var key := uf[i].key;
      MergeSnoc(df, uf, i);
      NoteSnoc(df, uf, i, path);
      ghost var notes := NoteField(df, uf[i], path);
      assert after + notes == mutations + (NoteFields(df, uf[..i], path) + notes);
      if HasKey(df, key) {
        FoundWellFormed(df, key);
        var value;
        value, after := MergePreserve(Find(df, key).value, Some(uf[i].value), PathJoin(path, key), after);
        out := out + [Field(key, value)];
      } else {
        out := out + [uf[i]];
      }
      i := i + 1;
    }
    assert uf[..i] == uf;
    ghost var noted := after;
    out, after := AddMissing(df, uf, path, out, after);
    assert noted + NoteMissing(Missing(df, uf), path)
        == mutations + (NoteFields(df, uf, path) + NoteMissing(Missing(df, uf), path));
  }

  lemma {:induction false} MergeSnoc(df: seq<Field>, uf: seq<Field>, i: nat)
    requires i < |uf|
    ensures MergeFields(df, uf[..i + 1]) == MergeFields(df, uf[..i]) + [MergeField(df, uf[i])]
  {
    if i == 0 {
      assert uf[..1][1..] == [];
    } else {
      MergeSnoc(df, uf[1..], i - 1);
      assert uf[..i][1..] == uf[1..][..i - 1] && uf[..i + 1][1..] == uf[1..][..i];
    }
  }

  lemma {:induction false} NoteSnoc(df: seq<Field>, uf: seq<Field>, i: nat, path: string)
    requires i < |uf|
    ensures NoteFields(df, uf[..i + 1], path) == NoteFields(df, uf[..i], path) + NoteField(df, uf[i], path)
  {
    if i == 0 {
      assert uf[..1][1..] == [];
    } else {
      NoteSnoc(df, uf[1..], i - 1, path);
      assert uf[..i][1..] == uf[1..][..i - 1] && uf[..i + 1][1..] == uf[1..][..i];
    }
  }

  /** The second loop: defaults whose key the result does not have yet. */
  method AddMissing(df: seq<Field>, uf: seq<Field>, path: string, merged: seq<Field>, notes: seq<Mutation>)
    returns (out: seq<Field>, after: seq<Mutation>)
    requires DistinctKeys(df) && merged == MergeFields(df, uf)
    ensures out == merged + Missing(df, uf) && after == notes + NoteMissing(Missing(df, uf), path)
  {
    out, after := merged, notes;
    var i := 0;
    while i < |df|
      invariant 0 <= i <= |df| && out == merged + Missing(df[..i], uf)
      invariant after == notes + NoteMissing(Missing(df[..i], uf), path)
    {
      MissingSnoc(df, uf, i);
      StillMissing(df, uf, i);
      if !HasKey(out, df[i].key) {
        NoteMissingSnoc(Missing(df[..i], uf), df[i], path);
        out, after := out + [df[i]], after + [MissingKey(PathJoin(path, df[i].key))];
      }
      i := i + 1;
    }
    assert df[..i] == df;
  }

  lemma {:induction false} MissingSnoc(df: seq<Field>, uf: seq<Field>, i: nat)
    requires i < |df|
    ensures Missing(df[..i + 1], uf) ==
              if HasKey(uf, df[i].key) then Missing(df[..i], uf) else Missing(df[..i], uf) + [df[i]]
  {
    if i == 0 {
      assert df[..1][1..] == [];
    } else {
      MissingSnoc(df[1..], uf, i - 1);
      assert df[..i][1..] == df[1..][..i - 1];
      assert df[..i + 1][1..] == df[1..][..i];
    }
  }

  lemma {:induction false} NoteMissingSnoc(fs: seq<Field>, f: Field, path: string)
    ensures NoteMissing(fs + [f], path) == NoteMissing(fs, path) + [MissingKey(PathJoin(path, f.key))]
  {
    if fs == [] {
      assert [f][1..] == [];
    } else {
      assert (fs + [f])[1..] == fs[1..] + [f];
      NoteMissingSnoc(fs[1..], f, path);
    }
  }

  lemma StillMissing(df: seq<Field>, uf: seq<Field>, i: nat)
    requires i < |df| && DistinctKeys(df)
    ensures HasKey(MergeFields(df, uf) + Missing(df[..i], uf), df[i].key) <==> HasKey(uf, df[i].key)
  {
    var k := df[i].key;
    FindConcat(MergeFields(df, uf), Missing(df[..i], uf), k);
    FindMerged(df, uf, k);
    FindMissing(df[..i], uf, k);
    if HasKey(df[..i], k) {
      var j := FindWhere(df[..i], k);
    }
  }

  lemma {:induction false} FindConcat(a: seq<Field>, b: seq<Field>, key: string)
    ensures Find(a + b, key) == if HasKey(a, key) then Find(a, key) else Find(b, key)
  {
    if a == [] {
      assert a + b == b;
    } else {
      assert (a + b)[1..] == a[1..] + b;
      FindConcat(a[1..], b, key);
    }
  }

  lemma {:induction false} FindMerged(df: seq<Field>, uf: seq<Field>, key: string)
    ensures HasKey(MergeFields(df, uf), key) <==> HasKey(uf, key)
    ensures HasKey(uf, key) ==>
              Find(MergeFields(df, uf), key) ==
              Some(if HasKey(df, key) then Merge(Find(df, key).value, Find(uf, key).value) else Find(uf, key).value)
  {
    if uf != [] {
      FindMerged(df, uf[1..], key);
    }
  }

  lemma {:induction false} FindMissing(df: seq<Field>, uf: seq<Field>, key: string)
    ensures Find(Missing(df, uf), key) == if HasKey(uf, key) then None else Find(df, key)
    decreases |df|
  {
    if df != [] {
      FindMissing(df[1..], uf, key);
    }
  }

  lemma FoundWellFormed(fs: seq<Field>, key: string)
    requires AllWellFormed(fs) && HasKey(fs, key)
    ensures WellFormed(Find(fs, key).value)
  {
    var i := FindWhere(fs, key);
  }

  /** What a key of the merged object holds. */
  lemma FindMergedObject(df: seq<Field>, uf: seq<Field>, key: string)
    ensures var m := Merge(Obj(df), Obj(uf)).fields;
            Find(m, key) == if !HasKey(uf, key) then Find(df, key)
                            else if HasKey(df, key) then Some(Merge(Find(df, key).value, Find(uf, key).value))
                            else Find(uf, key)
  {
    FindConcat(MergeFields(df, uf), Missing(df, uf), key);
    FindMerged(df, uf, key);
    FindMissing(df, uf, key);
  }
}

/** The laws of the merge. */
module MergeLaws {
  import opened Options
  import opened JsonTrees
  import opened MergePreserving

  lemma {:induction false} MergedAt(df: seq<Field>, uf: seq<Field>, i: nat)
    requires i < |uf|
    ensures MergeFields(df, uf)[i] == MergeField(df, uf[i])
  {
    if i > 0 {
      MergedAt(df, uf[1..], i - 1);
    }
  }

  lemma {:induction false} NothingMissing(df: seq<Field>, uf: seq<Field>)
    requires forall i :: 0 <= i < |df| ==> HasKey(uf, df[i].key)
    ensures Missing(df, uf) == []
    decreases |df|
  {
    if df != [] {
      NothingMissing(df[1..], uf);
    }
  }

  /** Merging keeps trees well formed. */
  lemma {:induction false} MergeWellFormed(d: Json, u: Json)
    requires WellFormed(d) && WellFormed(u)
    ensures WellFormed(Merge(d, u))
    decreases u
  {
    if d.Obj? && u.Obj? {
      var df, uf := d.fields, u.fields;
      var merged, missing := MergeFields(df, uf), Missing(df, uf);
      forall i | 0 <= i < |uf| ensures merged[i].key == uf[i].key && WellFormed(merged[i].value) {
        MergedAt(df, uf, i);
        if HasKey(df, uf[i].key) {
          FoundWellFormed(df, uf[i].key);
          MergeWellFormed(Find(df, uf[i].key).value, uf[i].value);
        }
      }
      MissingWellFormed(df, uf);
      forall i, j | 0 <= i < |merged| && 0 <= j < |missing| ensures merged[i].key != missing[j].key {
        FindAt(uf, i);
      }
    }
  }

  lemma {:induction false} MissingWellFormed(df: seq<Field>, uf: seq<Field>)
    requires AllWellFormed(df)
    ensures AllWellFormed(Missing(df, uf))
    ensures forall j :: 0 <= j < |Missing(df, uf)| ==> !HasKey(uf, Missing(df, uf)[j].key) && Missing(df, uf)[j] in df
    decreases |df|
  {
    if df != [] {
      MissingWellFormed(df[1..], uf);
      assert forall f :: f in df[1..] ==> f.key != df[0].key;
    }
  }

  lemma {:induction false} MergeSelf(d: Json)
    requires WellFormed(d)
    ensures Merge(d, d) == d
    decreases d
  {
    if d.Obj? {
      var df := d.fields;
      forall i | 0 <= i < |df| ensures MergeFields(df, df)[i] == df[i] && HasKey(df, df[i].key) {
        FindAt(df, i);
        MergedAt(df, df, i);
        MergeSelf(df[i].value);
      }
      NothingMissing(df, df);
      assert MergeFields(df, df) == df;
    }
  }

  /** A second merge changes nothing. */
  lemma {:induction false} MergeIdempotent(d: Json, u: Json)
    requires WellFormed(d) && WellFormed(u)
    ensures Merge(d, Merge(d, u)) == Merge(d, u)
    decreases u
  {
    if d.Obj? && u.Obj? {
      var df, uf, mf := d.fields, u.fields, Merge(d, u).fields;
      forall i | 0 <= i < |mf| ensures MergeFields(df, mf)[i] == mf[i] {
        MergedAt(df, mf, i);
        if i < |uf| {
          MergedAt(df, uf, i);
          if HasKey(df, uf[i].key) {
            FoundWellFormed(df, uf[i].key);
            MergeIdempotent(Find(df, uf[i].key).value, uf[i].value);
          }
        } else {
          MissingIsDefault(df, uf, i - |uf|);
        }
      }
      forall i | 0 <= i < |df| ensures HasKey(mf, df[i].key) {
        FindAt(df, i);
        FindMergedObject(df, uf, df[i].key);
      }
      NothingMissing(df, mf);
      assert MergeFields(df, mf) == mf;
    }
  }

  lemma MissingIsDefault(df: seq<Field>, uf: seq<Field>, j: nat)
    requires AllWellFormed(df) && j < |Missing(df, uf)|
    ensures MergeField(df, Missing(df, uf)[j]) == Missing(df, uf)[j]
  {
    MissingWellFormed(df, uf);
    var f := Missing(df, uf)[j];
    var i :| 0 <= i < |df| && df[i] == f;
    FindAt(df, i);
    MergeSelf(f.value);
  }

  lemma {:induction false} SomeNote(df: seq<Field>, uf: seq<Field>, path: string)
    ensures AddsKey(NoteFields(df, uf, path)) <==> exists i :: 0 <= i < |uf| && AddsKey(NoteField(df, uf[i], path))
    decreases |uf|
  {
    if uf != [] {
      SomeNote(df, uf[1..], path);
      AddsConcat(NoteField(df, uf[0], path), NoteFields(df, uf[1..], path));
      if i :| 0 <= i < |uf[1..]| && AddsKey(NoteField(df, uf[1..][i], path)) {
        assert AddsKey(NoteField(df, uf[i + 1], path));
      }
      if i :| 0 <= i < |uf| && AddsKey(NoteField(df, uf[i], path)) {
        if i > 0 { assert AddsKey(NoteField(df, uf[1..][i - 1], path)); }
      }
    }
  }

  lemma AddsConcat(a: seq<Mutation>, b: seq<Mutation>)
    ensures AddsKey(a + b) <==> AddsKey(a) || AddsKey(b)
  {
    if i :| 0 <= i < |b| && b[i].MissingKey? {
      assert (a + b)[|a| + i].MissingKey?;
    }
    if i :| 0 <= i < |a| && a[i].MissingKey? {
      assert (a + b)[i].MissingKey?;
    }
  }

  lemma AddsMissing(fs: seq<Field>, path: string)
    ensures AddsKey(NoteMissing(fs, path)) <==> fs != []
  {
    if fs != [] {
      assert NoteMissing(fs, path)[0].MissingKey?;
    }
  }

  /**
   * A missing key is reported exactly when the merge changed the user's tree: not a byte of it if none
   * is, and what it means if one is.
   */
  lemma {:induction false} ReportedIffChanged(d: Json, u: Json, path: string)
    requires WellFormed(d) && WellFormed(u)
    ensures AddsKey(Notes(d, u, path)) <==> Merge(d, u) != u
    ensures AddsKey(Notes(d, u, path)) <==> Meaning(Merge(d, u)) != Meaning(u)
    decreases u
  {
    if d.Obj? && u.Obj? {
      var df, uf := d.fields, u.fields;
      SomeNote(df, uf, path);
      AddsMissing(Missing(df, uf), path);
      AddsConcat(NoteFields(df, uf, path), NoteMissing(Missing(df, uf), path));
      forall i | 0 <= i < |uf|
        ensures AddsKey(NoteField(df, uf[i], path)) <==> MergeField(df, uf[i]) != uf[i]
        ensures AddsKey(NoteField(df, uf[i], path)) ==> Meaning(Merge(d, u)) != Meaning(u)
      {
        if HasKey(df, uf[i].key) {
          FoundWellFormed(df, uf[i].key);
          ReportedIffChanged(Find(df, uf[i].key).value, uf[i].value, PathJoin(path, uf[i].key));
          FindAt(uf, i);
          if AddsKey(NoteField(df, uf[i], path)) {
            ChangedAt(df, uf, uf[i].key);
          }
        }
      }
      if Missing(df, uf) != [] {
        AddedAt(df, uf);
      } else {
        forall i | 0 <= i < |uf| ensures MergeFields(df, uf)[i] == MergeField(df, uf[i]) {
          MergedAt(df, uf, i);
        }
        Unchanged(df, uf);
      }
    }
  }

  lemma Unchanged(df: seq<Field>, uf: seq<Field>)
    requires Missing(df, uf) == [] && forall i :: 0 <= i < |uf| ==> MergeFields(df, uf)[i] == MergeField(df, uf[i])
    ensures Merge(Obj(df), Obj(uf)) == Obj(uf) <==> forall i :: 0 <= i < |uf| ==> MergeField(df, uf[i]) == uf[i]
  {
    assert MergeFields(df, uf) + [] == MergeFields(df, uf);
    if forall i :: 0 <= i < |uf| ==> MergeField(df, uf[i]) == uf[i] {
      assert MergeFields(df, uf) == uf;
    }
  }

  lemma ChangedAt(df: seq<Field>, uf: seq<Field>, key: string)
    requires HasKey(df, key) && HasKey(uf, key)
    requires Meaning(Merge(Find(df, key).value, Find(uf, key).value)) != Meaning(Find(uf, key).value)
    ensures Meaning(Merge(Obj(df), Obj(uf))) != Meaning(Obj(uf))
  {
    FindMergedObject(df, uf, key);
    FieldMapHas(Merge(Obj(df), Obj(uf)).fields, key);
    FieldMapHas(uf, key);
  }

  lemma AddedAt(df: seq<Field>, uf: seq<Field>)
    requires AllWellFormed(df) && Missing(df, uf) != []
    ensures Meaning(Merge(Obj(df), Obj(uf))) != Meaning(Obj(uf))
  {
    MissingWellFormed(df, uf);
    var key := Missing(df, uf)[0].key;
    FindMissing(df, uf, key);
    FindMergedObject(df, uf, key);
    FieldMapHas(Merge(Obj(df), Obj(uf)).fields, key);
    FieldMapHas(uf, key);
  }

  /** So merging twice reports no new key. */
  lemma SecondMergeAddsNothing(d: Json, u: Json, path: string)
    requires WellFormed(d) && WellFormed(u)
    ensures !AddsKey(Notes(d, Merge(d, u), path))
  {
    MergeWellFormed(d, u);
    MergeIdempotent(d, u);
    ReportedIffChanged(d, Merge(d, u), path);
  }

  /** In the code's own terms: a key was added exactly when the result is not `deepEqual` to the user's tree. */
  lemma ReportedIffNotDeepEqual(d: Json, u: Json, path: string)
    requires WellFormed(d) && WellFormed(u)
    ensures AddsKey(Notes(d, u, path)) <==> !DeepEqual(Merge(d, u), u)
  {
    MergeWellFormed(d, u);
    ReportedIffChanged(d, u, path);
    DeepEqualIff(Merge(d, u), u);
  }

  /** What lies at a path of keys. */
  function At(j: Json, path: seq<string>): Option<Json>
    decreases |path|
  {
    if path == [] then Some(j)
    else if j.Obj? && HasKey(j.fields, path[0]) then At(Find(j.fields, path[0]).value, path[1..])
    else None
  }

  /** What the user has at a path is there after the merge; if it is not an object, just as it was. */
  lemma {:induction false} UserSurvives(d: Json, u: Json, path: seq<string>)
    requires At(u, path).Some?
    ensures At(Merge(d, u), path).Some?
    ensures !At(u, path).value.Obj? ==> At(Merge(d, u), path) == At(u, path)
    ensures At(u, path).value.Obj? ==> At(Merge(d, u), path).value.Obj?
    decreases |path|
  {
    if path != [] && d.Obj? {
      FindMergedObject(d.fields, u.fields, path[0]);
      if HasKey(d.fields, path[0]) {
        UserSurvives(Find(d.fields, path[0]).value, Find(u.fields, path[0]).value, path[1..]);
      }
    }
  }

  /** Where both have an object, every default key is there after the merge: the default's if the user had none. */
  lemma {:induction false} DefaultsPresent(d: Json, u: Json, path: seq<string>, key: string)
    requires At(d, path).Some? && At(d, path).value.Obj? && At(u, path).Some? && At(u, path).value.Obj?
    requires HasKey(At(d, path).value.fields, key)
    ensures At(Merge(d, u), path).Some? && At(Merge(d, u), path).value.Obj?
    ensures HasKey(At(Merge(d, u), path).value.fields, key)
    ensures !HasKey(At(u, path).value.fields, key) ==>
              Find(At(Merge(d, u), path).value.fields, key) == Find(At(d, path).value.fields, key)
    decreases |path|
  {
    if path == [] {
      FindMergedObject(d.fields, u.fields, key);
    } else {
      FindMergedObject(d.fields, u.fields, path[0]);
      DefaultsPresent(Find(d.fields, path[0]).value, Find(u.fields, path[0]).value, path[1..], key);
    }
  }

  /** Nothing else is added: what the merge has at a path comes from the user or the defaults. */
  lemma {:induction false} NothingInvented(d: Json, u: Json, path: seq<string>)
    requires At(Merge(d, u), path).Some?
    ensures At(u, path).Some? || At(d, path).Some?
    ensures At(u, path).None? ==> At(Merge(d, u), path) == At(d, path)
    decreases |path|
  {
    if path != [] && d.Obj? && u.Obj? {
      FindMergedObject(d.fields, u.fields, path[0]);
      if HasKey(d.fields, path[0]) && HasKey(u.fields, path[0]) {
        NothingInvented(Find(d.fields, path[0]).value, Find(u.fields, path[0]).value, path[1..]);
      }
    }
  }
}
