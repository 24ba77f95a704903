/** The tree a text in tokens stands for, and what becomes of it when a property is put in. */
module ReadText {
  import opened Options
  import opened JsonTrees
  import opened Additions
  import opened TextScanning
  import opened ScanningLaws
  import opened KeyLookup
  import opened KeyLookupLaws
  import opened SurgicalWrite
  import opened PrintedText
  import opened InsertedText
  import opened GraftedText

  type TextValue = KeyLookupLaws.Value

  /** How quoted keys, bare keys, and strings, numbers and words are read. */
  datatype Reader = Reader(key: KeyParser, word: string -> Option<string>, scalar: string -> Option<Json>)

  function ReadName(rd: Reader, n: Name): Option<string>
  {
    if n.InQuotes? then rd.key(NameText(n)) else rd.word(n.word)
  }

  function ReadValue(rd: Reader, v: TextValue): Option<Json>
    decreases v
  {
    if !v.Braced? then rd.scalar(ValueText(v))
    else if v.bracket == '{' then
      var fs := ReadFields(rd, v.tokens);
      if fs.None? then None else Some(Obj(fs.value))
    else
      var items := ReadItems(rd, v.tokens);
      if items.None? then None else Some(Arr(items.value))
  }

  function Joined<T>(a: Option<seq<T>>, b: Option<seq<T>>): Option<seq<T>>
  {
    if a.None? || b.None? then None else Some(a.value + b.value)
  }

  lemma JoinedLaws<T>(a: Option<seq<T>>, b: Option<seq<T>>, c: Option<seq<T>>)
    ensures Joined(a, Joined(b, c)) == Joined(Joined(a, b), c)
    ensures Joined(a, Some([])) == a == Joined(Some([]), a)
  {
    if a.Some? {
      assert a.value + [] == a.value && [] + a.value == a.value;
      if b.Some? && c.Some? {
        assert a.value + (b.value + c.value) == a.value + b.value + c.value;
      }
    }
  }

  function ReadFields(rd: Reader, ts: seq<Token>): Option<seq<Field>>
    decreases ts
  {
    if ts == [] then Some([]) else Joined(ReadField(rd, ts[0]), ReadFields(rd, ts[1..]))
  }

  function ReadField(rd: Reader, t: Token): Option<seq<Field>>
    decreases t
  {
    match t
    case Gap(_) => Some([])
    case Comma => Some([])
    case Item(_) => None
    case Property(name, _, _, v) =>
      var key, value := ReadName(rd, name), ReadValue(rd, v);
      if key.None? || value.None? then None else Some([Field(key.value, value.value)])
  }

  function ReadItems(rd: Reader, ts: seq<Token>): Option<seq<Json>>
    decreases ts
  {
    if ts == [] then Some([]) else Joined(ReadItem(rd, ts[0]), ReadItems(rd, ts[1..]))
  }

  function ReadItem(rd: Reader, t: Token): Option<seq<Json>>
    decreases t
  {
    match t
    case Gap(_) => Some([])
    case Comma => Some([])
    case Item(v) =>
      var value := ReadValue(rd, v);
      if value.None? then None else Some([value.value])
    case Property(_, _, _, _) => None
  }

  /** White space behind a number or a word means nothing. */
  ghost predicate IgnoresBlanks(rd: Reader)
  {
    forall word, back {:trigger rd.scalar(word + back)} :: word != "" && AllBlank(back) ==>
      rd.scalar(word + back) == rd.scalar(word)
  }

  lemma {:induction false} FieldsConcat(rd: Reader, a: seq<Token>, b: seq<Token>)
    ensures ReadFields(rd, a + b) == Joined(ReadFields(rd, a), ReadFields(rd, b))
    decreases |a|
  {
    if a == [] {
      assert a + b == b;
      JoinedLaws(ReadFields(rd, b), None, None);
    } else {
      assert (a + b)[1..] == a[1..] + b && (a + b)[0] == a[0];
      FieldsConcat(rd, a[1..], b);
      JoinedLaws(ReadField(rd, a[0]), ReadFields(rd, a[1..]), ReadFields(rd, b));
    }
  }

  lemma {:induction false} ItemsConcat(rd: Reader, a: seq<Token>, b: seq<Token>)
    ensures ReadItems(rd, a + b) == Joined(ReadItems(rd, a), ReadItems(rd, b))
    decreases |a|
  {
    if a == [] {
      assert a + b == b;
      JoinedLaws(ReadItems(rd, b), None, None);
    } else {
      assert (a + b)[1..] == a[1..] + b && (a + b)[0] == a[0];
      ItemsConcat(rd, a[1..], b);
      JoinedLaws(ReadItem(rd, a[0]), ReadItems(rd, a[1..]), ReadItems(rd, b));
    }
  }

  lemma {:induction false} BlanksRead(rd: Reader, s: string)
    ensures ReadFields(rd, Blanks(s)) == Some([]) && ReadItems(rd, Blanks(s)) == Some([])
  {
    if s != "" {
      BlanksRead(rd, s[1..]);
      JoinedLaws<Field>(Some([]), None, None);
      JoinedLaws<Json>(Some([]), None, None);
    }
  }

  lemma OneField(rd: Reader, t: Token)
    ensures ReadFields(rd, [t]) == ReadField(rd, t)
  {
    assert [t][1..] == [] && ReadFields(rd, []) == Some([]);
    JoinedLaws(ReadField(rd, t), None, None);
  }

  lemma OneItem(rd: Reader, t: Token)
    ensures ReadItems(rd, [t]) == ReadItem(rd, t)
  {
    assert [t][1..] == [] && ReadItems(rd, []) == Some([]);
    JoinedLaws(ReadItem(rd, t), None, None);
  }

  /** Moving printed text in does not change what it stands for. */
  lemma {:induction false} MovedReads(rd: Reader, v: TextValue, indent: string)
    ensures ReadValue(rd, MovedValue(v, indent)) == ReadValue(rd, v)
    decreases v
  {
    if v.Braced? {
      MovedTokensRead(rd, v.tokens, indent);
    }
  }

  lemma {:induction false} MovedTokensRead(rd: Reader, ts: seq<Token>, indent: string)
    ensures ReadFields(rd, MovedTokens(ts, indent)) == ReadFields(rd, ts)
    ensures ReadItems(rd, MovedTokens(ts, indent)) == ReadItems(rd, ts)
    decreases ts
  {
    if ts != [] {
      MovedTokenReads(rd, ts[0], indent);
      MovedTokensRead(rd, ts[1..], indent);
      FieldsConcat(rd, MovedToken(ts[0], indent), MovedTokens(ts[1..], indent));
      ItemsConcat(rd, MovedToken(ts[0], indent), MovedTokens(ts[1..], indent));
    }
  }

  lemma {:induction false} MovedTokenReads(rd: Reader, t: Token, indent: string)
    ensures ReadFields(rd, MovedToken(t, indent)) == ReadField(rd, t)
    ensures ReadItems(rd, MovedToken(t, indent)) == ReadItem(rd, t)
    decreases t
  {
    match t {
      case Gap(p) =>
        var blanks := if p == Plain('\n') then Blanks(indent) else [];
        BlanksRead(rd, indent);
        OneField(rd, t);
        OneItem(rd, t);
        FieldsConcat(rd, [t], blanks);
        ItemsConcat(rd, [t], blanks);
      case Comma =>
        OneField(rd, t);
        OneItem(rd, t);
      case Item(v) =>
        MovedReads(rd, v, indent);
        OneField(rd, Item(MovedValue(v, indent)));
        OneItem(rd, Item(MovedValue(v, indent)));
      case Property(name, a, b, v) =>
        MovedReads(rd, v, indent);
        var moved := Property(name, MovedPieces(a, indent), MovedPieces(b, indent), MovedValue(v, indent));
        OneField(rd, moved);
        OneItem(rd, moved);
    }
  }

  /** Adding tokens that stand for one property to those of the object at a path adds the property there. */
  lemma {:induction false} GraftReads(rd: Reader, i: nat, ts: seq<Token>, path: seq<string>, more: seq<Token>, f: Field)
    requires ObjectAt(rd.key, Some((i, ts)), path).Some? && ReadFields(rd, ts).Some?
    requires ReadFields(rd, more) == Some([f])
    ensures ReadFields(rd, Grafted(rd.key, ts, path, more)).Some?
    ensures Obj(ReadFields(rd, Grafted(rd.key, ts, path, more)).value)
            == Added(Obj(ReadFields(rd, ts).value), path, f.key, f.value)
    decreases |path|, |ts| + 1
  {
    if path == [] {
      FieldsConcat(rd, ts, more);
      assert Field(f.key, f.value) == f;
    } else {
      var p, inner := PathSteps(rd.key, i, ts, path);
      GraftUnderReads(rd, ts, i + 1, path, more, p, inner, f);
    }
  }

  lemma {:induction false} GraftUnderReads(rd: Reader, ts: seq<Token>, j: nat, path: seq<string>, more: seq<Token>,
                                           p: nat, inner: seq<Token>, f: Field)
    requires path != [] && FirstNamed(rd.key, ts, j, path[0]) == Some((p, Braced('{', inner)))
    requires ObjectAt(rd.key, Some((p, inner)), path[1..]).Some? && ReadFields(rd, ts).Some?
    requires ReadFields(rd, more) == Some([f])
    ensures ReadFields(rd, GraftedUnder(rd.key, ts, path, more))
            == Some(AddedFields(ReadFields(rd, ts).value, path, f.key, f.value))
    decreases |path|, |ts|
  {
    var grafted, fs := GraftedUnder(rd.key, ts, path, more), ReadFields(rd, ts).value;
    if LeadsOn(rd.key, ts[0], path[0]) {
      var t := GraftedToken(rd.key, ts[0], path, more);
      assert ts[0].value == Braced('{', inner) && grafted[0] == t && grafted[1..] == ts[1..];
      assert ReadField(rd, ts[0]).Some? && ReadValue(rd, ts[0].value).Some?;
      GraftReads(rd, p, inner, path[1..], more, f);
      FirstFieldReads(rd, ts[0], t, ts[1..], path, f);
      assert ts == [ts[0]] + ts[1..] && grafted == [t] + ts[1..];
    } else {
      GraftUnderReads(rd, ts[1..], j + |TokenText(ts[0])|, path, more, p, inner, f);
      assert grafted[0] == ts[0] && grafted[1..] == GraftedUnder(rd.key, ts[1..], path, more);
      PassedFields(rd, ts, path, f);
    }
  }

  lemma FirstFieldReads(rd: Reader, t: Token, grafted: Token, rest: seq<Token>, path: seq<string>, f: Field)
    requires path != [] && LeadsOn(rd.key, t, path[0]) && grafted.Property? && grafted.name == t.name
    requires ReadFields(rd, [t] + rest).Some? && ReadValue(rd, t.value).Some?
    requires ReadValue(rd, grafted.value) == Some(Added(ReadValue(rd, t.value).value, path[1..], f.key, f.value))
    ensures ReadFields(rd, [grafted] + rest)
            == Some(AddedFields(ReadFields(rd, [t] + rest).value, path, f.key, f.value))
  {
    var value, after, others := ReadValue(rd, t.value).value, ReadValue(rd, grafted.value).value, ReadFields(rd, rest);
    assert ([t] + rest)[1..] == rest && ([grafted] + rest)[1..] == rest;
    assert ReadField(rd, t) == Some([Field(path[0], value)]);
    assert ReadField(rd, grafted) == Some([Field(path[0], after)]);
    var fs := [Field(path[0], value)] + others.value;
    assert fs[1..] == others.value && fs[0] == Field(path[0], value);
  }

  lemma PassedFields(rd: Reader, ts: seq<Token>, path: seq<string>, f: Field)
    requires path != [] && ts != [] && ReadFields(rd, ts).Some?
    requires ts[0].Property? ==> NameOf(rd.key, ts[0]).Some? && NameOf(rd.key, ts[0]).value != path[0]
    ensures AddedFields(ReadFields(rd, ts).value, path, f.key, f.value)
            == ReadField(rd, ts[0]).value + AddedFields(ReadFields(rd, ts[1..]).value, path, f.key, f.value)
  {
    var first, rest := ReadField(rd, ts[0]).value, ReadFields(rd, ts[1..]).value;
    if ts[0].Property? {
      assert (first + rest)[1..] == rest && first[0].key != path[0];
    } else {
      assert first + rest == rest;
    }
  }
}
