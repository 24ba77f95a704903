/** What the report of a merge names. */
module MergeReports {
  import opened Options
  import opened JsonTrees
  import opened MergePreserving
  import opened MergeLaws

  /** A key the merge adds, or two values of different kinds, by the path of keys that leads there. */
  datatype Finding = AddedAt(path: seq<string>) | DiffersAt(path: seq<string>, user: Json, default: Json)

  function Dotted(path: seq<string>): string
    requires path != []
  {
    if |path| == 1 then path[0] else path[0] + "." + Dotted(path[1..])
  }

  /** Leading keys named `root` are left out, as long as a key follows. */
  function WithoutRoots(path: seq<string>): (rest: seq<string>)
    ensures path != [] ==> rest != []
  {
    if |path| > 1 && path[0] == "root" then WithoutRoots(path[1..]) else path
  }

  /** How a path is named: its keys with dots between them. */
  function NameOfPath(path: seq<string>): string
  {
    if path == [] then "root" else Dotted(WithoutRoots(path))
  }

  function Rendered(prefix: seq<string>, f: Finding): Mutation
  {
    match f
    case AddedAt(path) => MissingKey(NameOfPath(prefix + path))
    case DiffersAt(path, user, default) => TypeMismatch(NameOfPath(prefix + path), TypeTag(user), TypeTag(default))
  }

  function RenderAll(prefix: seq<string>, fs: seq<Finding>): seq<Mutation>
  {
    seq(|fs|, i requires 0 <= i < |fs| => Rendered(prefix, fs[i]))
  }

  predicate SameKind(a: Json, b: Json)
  {
    && (a.Null? <==> b.Null?) && (a.Bool? <==> b.Bool?) && (a.Num? <==> b.Num?)
    && (a.Str? <==> b.Str?) && (a.Arr? <==> b.Arr?) && (a.Obj? <==> b.Obj?)
  }

  /** The merge has something there and the user nothing, but an object to put it in. */
  ghost predicate IsAdded(d: Json, u: Json, path: seq<string>)
  {
    && path != [] && At(Merge(d, u), path).Some? && At(u, path).None?
    && At(u, path[..|path| - 1]).Some? && At(u, path[..|path| - 1]).value.Obj?
  }

  ghost predicate IsFinding(d: Json, u: Json, f: Finding)
  {
    match f
    case AddedAt(path) => IsAdded(d, u, path)
    case DiffersAt(path, user, default) =>
      At(u, path) == Some(user) && At(d, path) == Some(default) && !SameKind(user, default)
  }

  /** The same, one key down. */
  function Deeper(f: Finding): Finding
    requires f.path != []
  {
    match f
    case AddedAt(path) => AddedAt(path[1..])
    case DiffersAt(path, user, default) => DiffersAt(path[1..], user, default)
  }

  function UnderOne(key: string, f: Finding): Finding
  {
    match f
    case AddedAt(path) => AddedAt([key] + path)
    case DiffersAt(path, user, default) => DiffersAt([key] + path, user, default)
  }

  function Under(key: string, fs: seq<Finding>): seq<Finding>
  {
    seq(|fs|, i requires 0 <= i < |fs| => UnderOne(key, fs[i]))
  }

  function FieldFindings(df: seq<Field>, f: Field): seq<Finding>
    decreases f, 1
  {
    if HasKey(df, f.key) then Under(f.key, Findings(Find(df, f.key).value, f.value)) else []
  }

  function FieldsFindings(df: seq<Field>, uf: seq<Field>): seq<Finding>
    decreases uf
  {
    if uf == [] then [] else FieldFindings(df, uf[0]) + FieldsFindings(df, uf[1..])
  }

  function AddedFindings(fs: seq<Field>): seq<Finding>
  {
    seq(|fs|, i requires 0 <= i < |fs| => AddedAt([fs[i].key]))
  }

  function Findings(d: Json, u: Json): seq<Finding>
    decreases u
  {
    if d.Obj? && u.Obj? then FieldsFindings(d.fields, u.fields) + AddedFindings(Missing(d.fields, u.fields))
    else if SameKind(d, u) then []
    else [DiffersAt([], u, d)]
  }

  ghost predicate DistinctPaths(fs: seq<Finding>)
  {
    forall i, j :: 0 <= i < j < |fs| ==> fs[i].path != fs[j].path
  }

  lemma {:induction false} DottedSnoc(path: seq<string>, key: string)
    requires path != []
    ensures Dotted(path + [key]) == Dotted(path) + "." + key
  {
    assert (path + [key])[1..] == path[1..] + [key];
    if |path| > 1 {
      DottedSnoc(path[1..], key);
      assert path[0] + "." + (Dotted(path[1..]) + "." + key) == path[0] + "." + Dotted(path[1..]) + "." + key;
    } else {
      assert path + [key] == [path[0], key] && Dotted([key]) == key;
    }
  }

  /** The name of a longer path has a dot in it. */
  lemma {:induction false} DottedHasDot(path: seq<string>)
    requires |path| > 1
    ensures '.' in Dotted(path) && Dotted(path) != "root"
  {
    assert Dotted(path)[|path[0]|] == '.';
  }

  lemma {:induction false} JoinedName(path: seq<string>, key: string)
    ensures PathJoin(NameOfPath(path), key) == NameOfPath(path + [key])
    decreases |path|
  {
    if path == [] {
      assert [] + [key] == [key];
    } else if path[0] == "root" {
      assert (path + [key])[1..] == path[1..] + [key];
      JoinedName(path[1..], key);
    } else {
      assert WithoutRoots(path + [key]) == path + [key] && WithoutRoots(path) == path;
      DottedSnoc(path, key);
      if |path| > 1 {
        DottedHasDot(path);
      }
    }
  }

  lemma RenderConcat(prefix: seq<string>, a: seq<Finding>, b: seq<Finding>)
    ensures RenderAll(prefix, a + b) == RenderAll(prefix, a) + RenderAll(prefix, b)
  {
  }

  lemma RenderUnder(prefix: seq<string>, key: string, fs: seq<Finding>)
    ensures RenderAll(prefix, Under(key, fs)) == RenderAll(prefix + [key], fs)
  {
    forall i | 0 <= i < |fs| ensures Rendered(prefix, UnderOne(key, fs[i])) == Rendered(prefix + [key], fs[i]) {
      assert prefix + ([key] + fs[i].path) == prefix + [key] + fs[i].path;
    }
  }

  /** The kinds of two values are told apart by their names. */
  lemma TagsTellKinds(a: Json, b: Json)
    ensures TypeTag(a) == TypeTag(b) <==> SameKind(a, b)
  {
    assert "null"[0] == 'n' && "number"[0] == 'n' && "null"[2] != "number"[2];
    assert "array"[0] == 'a' && "object"[0] == 'o' && "boolean"[0] == 'b' && "string"[0] == 's';
  }

  lemma {:induction false} AddedRendered(fs: seq<Field>, prefix: seq<string>)
    ensures NoteMissing(fs, NameOfPath(prefix)) == RenderAll(prefix, AddedFindings(fs))
  {
    if fs != [] {
      AddedRendered(fs[1..], prefix);
      JoinedName(prefix, fs[0].key);
      assert AddedFindings(fs) == [AddedAt([fs[0].key])] + AddedFindings(fs[1..]);
      RenderConcat(prefix, [AddedAt([fs[0].key])], AddedFindings(fs[1..]));
    }
  }

  lemma {:induction false} FieldsRendered(df: seq<Field>, uf: seq<Field>, prefix: seq<string>)
    ensures NoteFields(df, uf, NameOfPath(prefix)) == RenderAll(prefix, FieldsFindings(df, uf))
    decreases uf
  {
    if uf != [] {
      var f := uf[0];
      if HasKey(df, f.key) {
        JoinedName(prefix, f.key);
        FindingsRendered(Find(df, f.key).value, f.value, prefix + [f.key]);
        RenderUnder(prefix, f.key, Findings(Find(df, f.key).value, f.value));
      }
      FieldsRendered(df, uf[1..], prefix);
      RenderConcat(prefix, FieldFindings(df, f), FieldsFindings(df, uf[1..]));
    }
  }

  lemma {:induction false} FindingsRendered(d: Json, u: Json, prefix: seq<string>)
    ensures Notes(d, u, NameOfPath(prefix)) == RenderAll(prefix, Findings(d, u))
    decreases u
  {
    if d.Obj? && u.Obj? {
      var missing := Missing(d.fields, u.fields);
      FieldsRendered(d.fields, u.fields, prefix);
      AddedRendered(missing, prefix);
      RenderConcat(prefix, FieldsFindings(d.fields, u.fields), AddedFindings(missing));
    } else {
      TagsTellKinds(d, u);
      assert prefix + [] == prefix;
    }
  }

  lemma UnderHas(key: string, fs: seq<Finding>, f: Finding)
    ensures f in Under(key, fs) <==> f.path != [] && f.path[0] == key && Deeper(f) in fs
  {
    if f in Under(key, fs) {
      var i :| 0 <= i < |fs| && UnderOne(key, fs[i]) == f;
      assert f.path[1..] == fs[i].path;
      assert fs[i] == Deeper(f);
    }
    if f.path != [] && f.path[0] == key && Deeper(f) in fs {
      var i :| 0 <= i < |fs| && fs[i] == Deeper(f);
      assert UnderOne(key, fs[i]) == f;
      assert Under(key, fs)[i] == f;
    }
  }

  lemma FirstIsAlone(fs: seq<Field>)
    requires fs != [] && DistinctKeys(fs)
    ensures !HasKey(fs[1..], fs[0].key)
  {
    HasKeyIff(fs[1..], fs[0].key);
    assert forall i :: 0 <= i < |fs[1..]| ==> fs[1..][i].key != fs[0].key;
  }

  lemma {:induction false} FieldsHave(df: seq<Field>, uf: seq<Field>, f: Finding)
    requires DistinctKeys(uf)
    ensures f in FieldsFindings(df, uf)
            <==> f.path != [] && HasKey(uf, f.path[0]) && HasKey(df, f.path[0])
                 && Deeper(f) in Findings(Find(df, f.path[0]).value, Find(uf, f.path[0]).value)
    decreases |uf|
  {
    if uf != [] {
      FieldsHave(df, uf[1..], f);
      if HasKey(df, uf[0].key) {
        UnderHas(uf[0].key, Findings(Find(df, uf[0].key).value, uf[0].value), f);
      }
      FirstIsAlone(uf);
    }
  }

  lemma AddedHave(df: seq<Field>, uf: seq<Field>, f: Finding)
    requires AllWellFormed(df)
    ensures f in AddedFindings(Missing(df, uf))
            <==> f.AddedAt? && |f.path| == 1 && HasKey(df, f.path[0]) && !HasKey(uf, f.path[0])
  {
    var missing := Missing(df, uf);
    MissingWellFormed(df, uf);
    if f in AddedFindings(missing) {
      var i :| 0 <= i < |missing| && AddedAt([missing[i].key]) == f;
      FindAt(missing, i);
      FindMissing(df, uf, missing[i].key);
    }
    if f.AddedAt? && |f.path| == 1 && HasKey(df, f.path[0]) && !HasKey(uf, f.path[0]) {
      FindMissing(df, uf, f.path[0]);
      var i := FindWhere(missing, f.path[0]);
      assert f.path == [missing[i].key] && AddedFindings(missing)[i] == f;
    }
  }

  lemma AtUnder(fs: seq<Field>, path: seq<string>)
    requires path != []
    ensures At(Obj(fs), path) == if HasKey(fs, path[0]) then At(Find(fs, path[0]).value, path[1..]) else None
  {
  }

  lemma AddedHere(df: seq<Field>, uf: seq<Field>, key: string)
    ensures IsAdded(Obj(df), Obj(uf), [key]) <==> HasKey(df, key) && !HasKey(uf, key)
  {
    FindMergedObject(df, uf, key);
    AtUnder(uf, [key]);
    AtUnder(Merge(Obj(df), Obj(uf)).fields, [key]);
    assert [key][..0] == [];
  }

  /** What lies one key down. */
  lemma AddedBelow(df: seq<Field>, uf: seq<Field>, path: seq<string>)
    requires |path| > 1
    ensures IsAdded(Obj(df), Obj(uf), path)
            <==> HasKey(df, path[0]) && HasKey(uf, path[0])
                 && IsAdded(Find(df, path[0]).value, Find(uf, path[0]).value, path[1..])
  {
    var front, rest := path[..|path| - 1], path[1..];
    FindMergedObject(df, uf, path[0]);
    AtUnder(uf, path);
    AtUnder(uf, front);
    AtUnder(Merge(Obj(df), Obj(uf)).fields, path);
    assert front[0] == path[0] && front[1..] == rest[..|rest| - 1];
  }

  lemma {:induction false} FindingsHave(d: Json, u: Json, f: Finding)
    requires WellFormed(d) && WellFormed(u)
    ensures f in Findings(d, u) <==> IsFinding(d, u, f)
    decreases u
  {
    if d.Obj? && u.Obj? {
      var df, uf := d.fields, u.fields;
      FieldsHave(df, uf, f);
      AddedHave(df, uf, f);
      if f.path != [] {
        if f.AddedAt? {
          if |f.path| > 1 {
            AddedBelow(df, uf, f.path);
          } else {
            AddedHere(df, uf, f.path[0]);
            assert f.path == [f.path[0]];
          }
        }
        if HasKey(df, f.path[0]) && HasKey(uf, f.path[0]) {
          FoundWellFormed(df, f.path[0]);
          FoundWellFormed(uf, f.path[0]);
          var i := FindWhere(uf, f.path[0]);
          FindingsHave(Find(df, f.path[0]).value, uf[i].value, Deeper(f));
        }
      }
    } else if f.AddedAt? {
      assert Merge(d, u) == u;
    }
  }

  lemma DistinctConcat(a: seq<Finding>, b: seq<Finding>)
    requires DistinctPaths(a) && DistinctPaths(b) && forall f, g :: f in a && g in b ==> f.path != g.path
    ensures DistinctPaths(a + b)
  {
  }

  lemma {:induction false} FieldsDistinct(df: seq<Field>, uf: seq<Field>)
    requires AllWellFormed(df) && AllWellFormed(uf)
    ensures DistinctPaths(FieldsFindings(df, uf))
    decreases uf
  {
    if uf != [] {
      var here, rest := FieldFindings(df, uf[0]), FieldsFindings(df, uf[1..]);
      FieldsDistinct(df, uf[1..]);
      FirstIsAlone(uf);
      if HasKey(df, uf[0].key) {
        FoundWellFormed(df, uf[0].key);
        FindingsDistinct(Find(df, uf[0].key).value, uf[0].value);
        UnderDistinct(uf[0].key, Findings(Find(df, uf[0].key).value, uf[0].value));
      }
      forall f, g | f in here && g in rest ensures f.path != g.path {
        UnderHas(uf[0].key, Findings(Find(df, uf[0].key).value, uf[0].value), f);
        FieldsHave(df, uf[1..], g);
      }
      DistinctConcat(here, rest);
    }
  }

  lemma UnderDistinct(key: string, fs: seq<Finding>)
    requires DistinctPaths(fs)
    ensures DistinctPaths(Under(key, fs))
  {
    var us := Under(key, fs);
    forall i, j | 0 <= i < j < |fs| ensures us[i].path != us[j].path {
      assert us[i].path[1..] == fs[i].path && us[j].path[1..] == fs[j].path;
    }
  }

  lemma {:induction false} FindingsDistinct(d: Json, u: Json)
    requires WellFormed(d) && WellFormed(u)
    ensures DistinctPaths(Findings(d, u))
    decreases u
  {
    if d.Obj? && u.Obj? {
      var df, uf := d.fields, u.fields;
      var added := AddedFindings(Missing(df, uf));
      FieldsDistinct(df, uf);
      MissingWellFormed(df, uf);
      forall i, j | 0 <= i < j < |added| ensures added[i].path != added[j].path {
        assert added[i].path[0] != added[j].path[0];
      }
      forall f, g | f in FieldsFindings(df, uf) && g in added ensures f.path != g.path {
        FieldsHave(df, uf, f);
        AddedHave(df, uf, g);
      }
      DistinctConcat(FieldsFindings(df, uf), added);
    }
  }

  /**
   * The report is exact. It names, each once, the paths of keys at which the merge has something and the user
   * nothing but an object to put it in, and those at which user and defaults have values of different kinds.
   */
  lemma ReportIsExact(d: Json, u: Json) returns (fs: seq<Finding>)
    requires WellFormed(d) && WellFormed(u)
    ensures Notes(d, u, ROOT) == RenderAll([], fs) && DistinctPaths(fs)
    ensures forall f :: f in fs <==> IsFinding(d, u, f)
  {
    fs := Findings(d, u);
    FindingsRendered(d, u, []);
    FindingsDistinct(d, u);
    forall f ensures f in fs <==> IsFinding(d, u, f) {
      FindingsHave(d, u, f);
    }
  }

  lemma FindingOf(fs: seq<Finding>, note: Mutation) returns (f: Finding)
    requires note in RenderAll([], fs)
    ensures f in fs && Rendered([], f) == note
  {
    var i :| 0 <= i < |fs| && Rendered([], fs[i]) == note;
    f := fs[i];
  }

  lemma IsRendered(fs: seq<Finding>, f: Finding)
    requires f in fs
    ensures Rendered([], f) in RenderAll([], fs)
  {
    var i :| 0 <= i < |fs| && fs[i] == f;
    assert RenderAll([], fs)[i] == Rendered([], f);
  }

  lemma NoPrefix(f: Finding)
    ensures Rendered([], f) == match f
                               case AddedAt(path) => MissingKey(NameOfPath(path))
                               case DiffersAt(path, user, default) =>
                                 TypeMismatch(NameOfPath(path), TypeTag(user), TypeTag(default))
  {
    assert [] + f.path == f.path;
  }

  /** So these, and no others, are the missing keys it reports. */
  lemma MissingKeysReported(d: Json, u: Json, name: string)
    requires WellFormed(d) && WellFormed(u)
    ensures MissingKey(name) in Notes(d, u, ROOT) <==> exists path :: IsAdded(d, u, path) && NameOfPath(path) == name
  {
    var fs := ReportIsExact(d, u);
    if MissingKey(name) in Notes(d, u, ROOT) {
      var f := FindingOf(fs, MissingKey(name));
      NoPrefix(f);
      assert IsAdded(d, u, f.path);
    }
    if path :| IsAdded(d, u, path) && NameOfPath(path) == name {
      NoPrefix(AddedAt(path));
      assert IsFinding(d, u, AddedAt(path));
      IsRendered(fs, AddedAt(path));
    }
  }

  /** Both sides have a value there, and the values are of different kinds, which are called so. */
  ghost predicate IsMismatch(d: Json, u: Json, path: seq<string>, userTag: string, defaultTag: string)
  {
    && At(u, path).Some? && At(d, path).Some? && !SameKind(At(u, path).value, At(d, path).value)
    && userTag == TypeTag(At(u, path).value) && defaultTag == TypeTag(At(d, path).value)
  }

  /** And these the mismatches, the user's kind first. */
  lemma MismatchesReported(d: Json, u: Json, name: string, userTag: string, defaultTag: string)
    requires WellFormed(d) && WellFormed(u)
    ensures TypeMismatch(name, userTag, defaultTag) in Notes(d, u, ROOT)
            <==> exists path :: IsMismatch(d, u, path, userTag, defaultTag) && NameOfPath(path) == name
  {
    var fs := ReportIsExact(d, u);
    var note := TypeMismatch(name, userTag, defaultTag);
    if note in Notes(d, u, ROOT) {
      var f := FindingOf(fs, note);
      NoPrefix(f);
      assert IsFinding(d, u, f);
      assert IsMismatch(d, u, f.path, userTag, defaultTag);
    }
    if path :| IsMismatch(d, u, path, userTag, defaultTag) && NameOfPath(path) == name {
      MismatchIsNoted(d, u, fs, path, userTag, defaultTag);
    }
  }

  lemma MismatchIsNoted(d: Json, u: Json, fs: seq<Finding>, path: seq<string>, userTag: string, defaultTag: string)
    requires IsMismatch(d, u, path, userTag, defaultTag) && forall f :: IsFinding(d, u, f) ==> f in fs
    ensures TypeMismatch(NameOfPath(path), userTag, defaultTag) in RenderAll([], fs)
  {
    var f := DiffersAt(path, At(u, path).value, At(d, path).value);
    NoPrefix(f);
    assert IsFinding(d, u, f);
    IsRendered(fs, f);
  }
}
