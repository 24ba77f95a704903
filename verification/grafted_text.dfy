/** An object's text after something is put into an object inside it. */
module GraftedText {
  import opened Options
  import opened TextScanning
  import opened ScanningLaws
  import opened KeyLookup
  import opened KeyLookupLaws
  import opened SurgicalWrite
  import opened PrintedText
  import opened InsertedText
  import JsonTrees

  /** The tokens with more put behind those of the object at a path, where it leads to one. */
  function Grafted(parseKey: KeyParser, ts: seq<Token>, path: seq<string>, more: seq<Token>): seq<Token>
    decreases |path|, |ts| + 1
  {
    if path == [] then ts + more else GraftedUnder(parseKey, ts, path, more)
  }

  function GraftedUnder(parseKey: KeyParser, ts: seq<Token>, path: seq<string>, more: seq<Token>): seq<Token>
    requires path != []
    decreases |path|, |ts|
  {
    if ts == [] || (ts[0].Property? && NameOf(parseKey, ts[0]).None?) then ts
    else if ts[0].Property? && NameOf(parseKey, ts[0]).value == path[0] then
      [GraftedToken(parseKey, ts[0], path, more)] + ts[1..]
    else [ts[0]] + GraftedUnder(parseKey, ts[1..], path, more)
  }

  function GraftedToken(parseKey: KeyParser, t: Token, path: seq<string>, more: seq<Token>): Token
    requires path != [] && t.Property?
    decreases |path|, 0
  {
    if t.value.Braced? && t.value.bracket == '{' then
      Property(t.name, t.afterKey, t.beforeValue, Braced('{', Grafted(parseKey, t.value.tokens, path[1..], more)))
    else t
  }

  /** The text up to where the object at the path ends, and the text from there on. */
  function FrontText(parseKey: KeyParser, ts: seq<Token>, path: seq<string>): string
    decreases |path|, |ts| + 1
  {
    if path == [] then TokensText(ts) else FrontUnder(parseKey, ts, path)
  }

  function FrontUnder(parseKey: KeyParser, ts: seq<Token>, path: seq<string>): string
    requires path != []
    decreases |path|, |ts|
  {
    if ts == [] then ""
    else if LeadsOn(parseKey, ts[0], path[0]) then
      KeyText(ts[0]) + (['{'] + FrontText(parseKey, ts[0].value.tokens, path[1..]))
    else TokenText(ts[0]) + FrontUnder(parseKey, ts[1..], path)
  }

  function BackText(parseKey: KeyParser, ts: seq<Token>, path: seq<string>): string
    decreases |path|, |ts| + 1
  {
    if path == [] then "" else BackUnder(parseKey, ts, path)
  }

  function BackUnder(parseKey: KeyParser, ts: seq<Token>, path: seq<string>): string
    requires path != []
    decreases |path|, |ts|
  {
    if ts == [] then ""
    else if LeadsOn(parseKey, ts[0], path[0]) then
      BackText(parseKey, ts[0].value.tokens, path[1..]) + (['}'] + TokensText(ts[1..]))
    else BackUnder(parseKey, ts[1..], path)
  }

  /** A property of that name with an object for its value. */
  predicate LeadsOn(parseKey: KeyParser, t: Token, key: string)
  {
    t.Property? && NameOf(parseKey, t) == Some(key) && t.value.Braced? && t.value.bracket == '{'
  }

  /** The texts with and without the new part. */
  ghost predicate Splits(whole: string, grafted: string, front: string, more: string, back: string)
  {
    whole == front + back && grafted == front + (more + back)
  }

  lemma SplitsBehind(head: string, whole: string, grafted: string, front: string, more: string, back: string)
    requires Splits(whole, grafted, front, more, back)
    ensures Splits(head + whole, head + grafted, head + front, more, back)
  {
  }

  lemma SplitsBefore(whole: string, grafted: string, front: string, more: string, back: string, tail: string)
    requires Splits(whole, grafted, front, more, back)
    ensures Splits(whole + tail, grafted + tail, front, more, back + tail)
  {
  }

  /** The text of a property whose value is an object, and of what follows it. */
  lemma SplitsWithin(key: string, inner: string, grafted: string, front: string, more: string, back: string,
                     rest: string)
    requires Splits(inner, grafted, front, more, back)
    ensures Splits((key + (['{'] + (inner + ['}']))) + rest, (key + (['{'] + (grafted + ['}']))) + rest,
                   key + (['{'] + front), more, back + (['}'] + rest))
  {
    SplitsBefore(inner, grafted, front, more, back, ['}']);
    SplitsBehind(['{'], inner + ['}'], grafted + ['}'], front, more, back + ['}']);
    SplitsBehind(key, ['{'] + (inner + ['}']), ['{'] + (grafted + ['}']), ['{'] + front, more, back + ['}']);
    SplitsBefore(key + (['{'] + (inner + ['}'])), key + (['{'] + (grafted + ['}'])), key + (['{'] + front), more,
                 back + ['}'], rest);
    assert back + ['}'] + rest == back + (['}'] + rest);
  }

  lemma FirstTokenText(t: Token, ts: seq<Token>)
    ensures TokensText([t] + ts) == TokenText(t) + TokensText(ts)
  {
    assert ([t] + ts)[1..] == ts;
  }

  /** The object that a first key of a path leads to. */
  lemma PathSteps(parseKey: KeyParser, i: nat, ts: seq<Token>, path: seq<string>) returns (p: nat, inner: seq<Token>)
    requires path != [] && ObjectAt(parseKey, Some((i, ts)), path).Some?
    ensures FirstNamed(parseKey, ts, i + 1, path[0]) == Some((p, Braced('{', inner)))
    ensures ObjectAt(parseKey, Some((i, ts)), path) == ObjectAt(parseKey, Some((p, inner)), path[1..])
  {
    var found := FirstNamed(parseKey, ts, i + 1, path[0]);
    var within := Within(parseKey, Some((i, ts)), path[0]);
    if within.None? {
      NothingAt(parseKey, path[1..]);
    }
    assert found.Some? && found.value.1.Braced? && found.value.1.bracket == '{';
    p, inner := found.value.0, found.value.1.tokens;
  }

  lemma NothingAt(parseKey: KeyParser, path: seq<string>)
    ensures ObjectAt(parseKey, None, path) == None
  {
  }

  /** What is put into the object at the path is put into the text where that object ends. */
  lemma {:induction false} GraftText(parseKey: KeyParser, i: nat, ts: seq<Token>, path: seq<string>, more: seq<Token>)
    requires ObjectAt(parseKey, Some((i, ts)), path).Some?
    ensures Splits(TokensText(ts), TokensText(Grafted(parseKey, ts, path, more)), FrontText(parseKey, ts, path),
                   TokensText(more), BackText(parseKey, ts, path))
    decreases |path|, |ts| + 1
  {
    if path == [] {
      TokensConcat(ts, more);
      assert TokensText(more) + "" == TokensText(more) && TokensText(ts) + "" == TokensText(ts);
    } else {
      var p, inner := PathSteps(parseKey, i, ts, path);
      GraftUnderText(parseKey, ts, i + 1, path, more, p, inner);
    }
  }

  lemma {:induction false} GraftUnderText(parseKey: KeyParser, ts: seq<Token>, j: nat, path: seq<string>,
                                          more: seq<Token>, p: nat, inner: seq<Token>)
    requires path != [] && FirstNamed(parseKey, ts, j, path[0]) == Some((p, Braced('{', inner)))
    requires ObjectAt(parseKey, Some((p, inner)), path[1..]).Some?
    ensures Splits(TokensText(ts), TokensText(GraftedUnder(parseKey, ts, path, more)), FrontUnder(parseKey, ts, path),
                   TokensText(more), BackUnder(parseKey, ts, path))
    decreases |path|, |ts|
  {
    if LeadsOn(parseKey, ts[0], path[0]) {
      GraftText(parseKey, p, inner, path[1..], more);
      var t := GraftedToken(parseKey, ts[0], path, more);
      assert ts[0].value == Braced('{', inner) && KeyText(t) == KeyText(ts[0]);
      assert TokenText(ts[0]) == KeyText(ts[0]) + (['{'] + (TokensText(inner) + ['}']));
      assert TokenText(t) == KeyText(ts[0]) + (['{'] + (TokensText(t.value.tokens) + ['}']));
      assert TokensText(ts) == TokenText(ts[0]) + TokensText(ts[1..]);
      FirstTokenText(t, ts[1..]);
      SplitsWithin(KeyText(ts[0]), TokensText(inner), TokensText(t.value.tokens), FrontText(parseKey, inner, path[1..]),
                   TokensText(more), BackText(parseKey, inner, path[1..]), TokensText(ts[1..]));
    } else {
      GraftUnderText(parseKey, ts[1..], j + |TokenText(ts[0])|, path, more, p, inner);
      FirstTokenText(ts[0], GraftedUnder(parseKey, ts[1..], path, more));
      SplitsBehind(TokenText(ts[0]), TokensText(ts[1..]), TokensText(GraftedUnder(parseKey, ts[1..], path, more)),
                   FrontUnder(parseKey, ts[1..], path), TokensText(more), BackUnder(parseKey, ts[1..], path));
    }
  }

  /** Where that is. */
  lemma {:induction false} FrontEnds(parseKey: KeyParser, i: nat, ts: seq<Token>, path: seq<string>, k: nat,
                                     us: seq<Token>)
    requires ObjectAt(parseKey, Some((i, ts)), path) == Some((k, us))
    ensures i + |FrontText(parseKey, ts, path)| == k + |TokensText(us)|
    decreases |path|, |ts| + 1
  {
    if path != [] {
      var p, inner := PathSteps(parseKey, i, ts, path);
      FrontEndsUnder(parseKey, ts, i + 1, path, p, inner, k, us);
    }
  }

  lemma {:induction false} FrontEndsUnder(parseKey: KeyParser, ts: seq<Token>, j: nat, path: seq<string>, p: nat,
                                          inner: seq<Token>, k: nat, us: seq<Token>)
    requires path != [] && FirstNamed(parseKey, ts, j, path[0]) == Some((p, Braced('{', inner)))
    requires ObjectAt(parseKey, Some((p, inner)), path[1..]) == Some((k, us))
    ensures j + |FrontUnder(parseKey, ts, path)| == k + |TokensText(us)| + 1
    decreases |path|, |ts|
  {
    if LeadsOn(parseKey, ts[0], path[0]) {
      FrontEnds(parseKey, p, inner, path[1..], k, us);
    } else {
      FrontEndsUnder(parseKey, ts[1..], j + |TokenText(ts[0])|, path, p, inner, k, us);
    }
  }

  /** Something put in between two parts of what stands in a text. */
  lemma StandsBetween(text: string, i: nat, a: string, b: string, more: string)
    requires StandsAt(text, i, a + b)
    ensures i + |a| <= |text| && StandsAt(Spliced(text, i + |a|, more), i, a + (more + b))
  {
    var s, out, now := a + b, Spliced(text, i + |a|, more), a + (more + b);
    forall k | 0 <= k < |now| ensures out[i + k] == now[k] {
      if k < |a| {
        assert text[i + k] == s[k];
      } else if k >= |a| + |more| {
        assert text[i + (k - |more|)] == s[k - |more|];
      }
    }
  }

  lemma AroundSplits(g: string, whole: string, grafted: string, front: string, more: string, back: string)
    requires Splits(whole, grafted, front, more, back)
    ensures g + (['{'] + (whole + ['}'])) == (g + (['{'] + front)) + (back + ['}'])
    ensures g + (['{'] + (grafted + ['}'])) == (g + (['{'] + front)) + (more + (back + ['}']))
  {
    SplitsBefore(whole, grafted, front, more, back, ['}']);
    SplitsBehind(['{'], whole + ['}'], grafted + ['}'], front, more, back + ['}']);
    SplitsBehind(g, ['{'] + (whole + ['}']), ['{'] + (grafted + ['}']), ['{'] + front, more, back + ['}']);
  }

  /** The text of the outer object, behind some gaps, with tokens put in where the inner object ends. */
  lemma GraftStands(parseKey: KeyParser, text: string, before: seq<Piece>, ts: seq<Token>, path: seq<string>,
                    more: seq<Token>, k: nat, us: seq<Token>)
    requires StandsAt(text, 0, GapText(before) + ValueText(Braced('{', ts)))
    requires ObjectAt(parseKey, Some((|GapText(before)|, ts)), path) == Some((k, us))
    ensures RangeOfObject(k, us).end <= |text|
    ensures StandsAt(Spliced(text, RangeOfObject(k, us).end, TokensText(more)), 0,
                     GapText(before) + ValueText(Braced('{', Grafted(parseKey, ts, path, more))))
  {
    var g := GapText(before);
    var front, back := FrontText(parseKey, ts, path), BackText(parseKey, ts, path);
    GraftText(parseKey, |g|, ts, path, more);
    FrontEnds(parseKey, |g|, ts, path, k, us);
    var grafted := Grafted(parseKey, ts, path, more);
    AroundSplits(g, TokensText(ts), TokensText(grafted), front, TokensText(more), back);
    StandsBetween(text, 0, g + (['{'] + front), back + ['}'], TokensText(more));
  }

  /** The tokens are still proper where those of the inner object are. */
  lemma {:induction false} GraftIsProper(parseKey: KeyParser, i: nat, ts: seq<Token>, path: seq<string>,
                                         more: seq<Token>, k: nat, us: seq<Token>)
    requires ObjectAt(parseKey, Some((i, ts)), path) == Some((k, us)) && AreTokens(ts, true)
    requires AreTokens(us, true) ==> AreTokens(us + more, true)
    ensures AreTokens(us, true) && AreTokens(Grafted(parseKey, ts, path, more), true)
    decreases |path|, |ts| + 1
  {
    if path != [] {
      var p, inner := PathSteps(parseKey, i, ts, path);
      GraftUnderIsProper(parseKey, ts, i + 1, path, more, p, inner, k, us);
    }
  }

  lemma {:induction false} GraftUnderIsProper(parseKey: KeyParser, ts: seq<Token>, j: nat, path: seq<string>,
                                              more: seq<Token>, p: nat, inner: seq<Token>, k: nat, us: seq<Token>)
    requires path != [] && FirstNamed(parseKey, ts, j, path[0]) == Some((p, Braced('{', inner)))
    requires ObjectAt(parseKey, Some((p, inner)), path[1..]) == Some((k, us)) && AreTokens(ts, true)
    requires AreTokens(us, true) ==> AreTokens(us + more, true)
    ensures AreTokens(us, true) && AreTokens(GraftedUnder(parseKey, ts, path, more), true)
    ensures var grafted := GraftedUnder(parseKey, ts, path, more);
            grafted != [] && (grafted[0].Comma? <==> ts[0].Comma?)
    decreases |path|, |ts|
  {
    var grafted := GraftedUnder(parseKey, ts, path, more);
    if LeadsOn(parseKey, ts[0], path[0]) {
      assert ts[0].value == Braced('{', inner) && IsToken(ts[0], true) && IsValue(ts[0].value);
      GraftIsProper(parseKey, p, inner, path[1..], more, k, us);
      assert grafted[1..] == ts[1..];
    } else {
      GraftUnderIsProper(parseKey, ts[1..], j + |TokenText(ts[0])|, path, more, p, inner, k, us);
      assert grafted[1..] == GraftedUnder(parseKey, ts[1..], path, more);
    }
  }

  /** How far something behind the place has moved. */
  function Pushed(at: nat, place: nat, more: seq<Token>): nat
  {
    if at <= place then at else at + |TokensText(more)|
  }

  lemma GraftLength(parseKey: KeyParser, i: nat, ts: seq<Token>, path: seq<string>, more: seq<Token>)
    requires ObjectAt(parseKey, Some((i, ts)), path).Some?
    ensures |TokensText(Grafted(parseKey, ts, path, more))| == |TokensText(ts)| + |TokensText(more)|
  {
    GraftText(parseKey, i, ts, path, more);
  }

  /**
   * What each key leads to afterwards: the key on the path to the object with more in it, and every other one to what
   * it led to, where it was or pushed along.
   */
  lemma {:induction false} FirstNamedGrafted(parseKey: KeyParser, ts: seq<Token>, j: nat, path: seq<string>,
                                             more: seq<Token>, p: nat, inner: seq<Token>, key: string)
    requires path != [] && FirstNamed(parseKey, ts, j, path[0]) == Some((p, Braced('{', inner)))
    requires ObjectAt(parseKey, Some((p, inner)), path[1..]).Some?
    ensures FirstNamed(parseKey, GraftedUnder(parseKey, ts, path, more), j, key)
            == if key == path[0] then Some((p, Braced('{', Grafted(parseKey, inner, path[1..], more))))
               else
                 var found := FirstNamed(parseKey, ts, j, key);
                 if found.None? then None else Some((Pushed(found.value.0, p, more), found.value.1))
    decreases |ts|
  {
    var grafted := GraftedUnder(parseKey, ts, path, more);
    if LeadsOn(parseKey, ts[0], path[0]) {
      var t := GraftedToken(parseKey, ts[0], path, more);
      GraftLength(parseKey, p, inner, path[1..], more);
      assert grafted[0] == t && grafted[1..] == ts[1..] && KeyText(t) == KeyText(ts[0]);
      assert NameOf(parseKey, t) == NameOf(parseKey, ts[0]) == Some(path[0]);
      assert ts[0].value == Braced('{', inner) && t.value == Braced('{', Grafted(parseKey, inner, path[1..], more));
      assert |TokenText(t)| == |TokenText(ts[0])| + |TokensText(more)|;
      var next := j + |TokenText(ts[0])|;
      FirstNamedShifted(parseKey, ts[1..], next, |TokensText(more)|, key);
      NamedWithin(parseKey, ts[1..], next, key);
    } else {
      var next := j + |TokenText(ts[0])|;
      FirstNamedGrafted(parseKey, ts[1..], next, path, more, p, inner, key);
      assert grafted[0] == ts[0] && grafted[1..] == GraftedUnder(parseKey, ts[1..], path, more);
      NamedWithin(parseKey, ts[1..], next, path[0]);
    }
  }

  lemma {:induction false} FirstNamedShifted(parseKey: KeyParser, ts: seq<Token>, j: nat, gap: nat, key: string)
    ensures FirstNamed(parseKey, ts, j + gap, key)
            == var found := FirstNamed(parseKey, ts, j, key);
               if found.None? then None else Some((found.value.0 + gap, found.value.1))
    decreases |ts|
  {
    if ts != [] {
      FirstNamedShifted(parseKey, ts[1..], j + |TokenText(ts[0])|, gap, key);
    }
  }

  /** Where a key's value lies within the text. */
  lemma {:induction false} NamedWithin(parseKey: KeyParser, ts: seq<Token>, j: nat, key: string)
    ensures var found := FirstNamed(parseKey, ts, j, key);
            found.Some? ==> j < found.value.0 && found.value.0 + |ValueText(found.value.1)| <= j + |TokensText(ts)|
    decreases |ts|
  {
    if ts != [] {
      NamedWithin(parseKey, ts[1..], j + |TokenText(ts[0])|, key);
    }
  }

  /** The path leads to the object with more in it, where it was. */
  lemma {:induction false} GraftIsFound(parseKey: KeyParser, i: nat, ts: seq<Token>, path: seq<string>,
                                        more: seq<Token>, k: nat, us: seq<Token>)
    requires ObjectAt(parseKey, Some((i, ts)), path) == Some((k, us))
    ensures ObjectAt(parseKey, Some((i, Grafted(parseKey, ts, path, more))), path) == Some((k, us + more))
    decreases |path|
  {
    if path != [] {
      var p, inner := PathSteps(parseKey, i, ts, path);
      FirstNamedGrafted(parseKey, ts, i + 1, path, more, p, inner, path[0]);
      GraftIsFound(parseKey, p, inner, path[1..], more, k, us);
    }
  }

  /** The object at a path lies within the outer one. */
  lemma {:induction false} ObjectInside(parseKey: KeyParser, i: nat, ts: seq<Token>, path: seq<string>, k: nat,
                                        us: seq<Token>)
    requires ObjectAt(parseKey, Some((i, ts)), path) == Some((k, us))
    ensures i <= k && k + |TokensText(us)| <= i + |TokensText(ts)|
    ensures path != [] ==> i < k
    decreases |path|
  {
    if path != [] {
      var p, inner := PathSteps(parseKey, i, ts, path);
      NamedWithin(parseKey, ts, i + 1, path[0]);
      ObjectInside(parseKey, p, inner, path[1..], k, us);
    }
  }

  /** The values of two keys lie apart. */
  lemma {:induction false} NamedApart(parseKey: KeyParser, ts: seq<Token>, j: nat, a: string, b: string)
    requires a != b && FirstNamed(parseKey, ts, j, a).Some? && FirstNamed(parseKey, ts, j, b).Some?
    ensures var x, y := FirstNamed(parseKey, ts, j, a).value, FirstNamed(parseKey, ts, j, b).value;
            x.0 + |ValueText(x.1)| <= y.0 || y.0 + |ValueText(y.1)| <= x.0
    decreases |ts|
  {
    var next := j + |TokenText(ts[0])|;
    if ts[0].Property? && NameOf(parseKey, ts[0]).value == a {
      NamedWithin(parseKey, ts[1..], next, b);
    } else if ts[0].Property? && NameOf(parseKey, ts[0]).value == b {
      NamedWithin(parseKey, ts[1..], next, a);
    } else {
      NamedApart(parseKey, ts[1..], next, a, b);
    }
  }

  lemma {:induction false} ObjectShifted(parseKey: KeyParser, i: nat, ts: seq<Token>, path: seq<string>, gap: nat,
                                         k: nat, us: seq<Token>)
    requires ObjectAt(parseKey, Some((i, ts)), path) == Some((k, us))
    ensures ObjectAt(parseKey, Some((i + gap, ts)), path) == Some((k + gap, us))
    decreases |path|
  {
    if path != [] {
      var p, inner := PathSteps(parseKey, i, ts, path);
      FirstNamedShifted(parseKey, ts, i + 1, gap, path[0]);
      ObjectShifted(parseKey, p, inner, path[1..], gap, k, us);
    }
  }

  /** What is below another key comes wholly before the place, or behind it. */
  lemma BesidePlaces(parseKey: KeyParser, i: nat, ts: seq<Token>, path: seq<string>, k: nat, us: seq<Token>,
                     q: seq<string>, m: nat, ws: seq<Token>)
    returns (p: nat, inner: seq<Token>, r: nat, other: seq<Token>)
    requires ObjectAt(parseKey, Some((i, ts)), path) == Some((k, us)) && path != []
    requires ObjectAt(parseKey, Some((i, ts)), q) == Some((m, ws)) && q != [] && q[0] != path[0]
    ensures FirstNamed(parseKey, ts, i + 1, path[0]) == Some((p, Braced('{', inner)))
    ensures FirstNamed(parseKey, ts, i + 1, q[0]) == Some((r, Braced('{', other)))
    ensures ObjectAt(parseKey, Some((p, inner)), path[1..]) == Some((k, us))
    ensures ObjectAt(parseKey, Some((r, other)), q[1..]) == Some((m, ws))
    ensures if r <= p then m <= k + |TokensText(us)| else m > k + |TokensText(us)|
  {
    p, inner := PathSteps(parseKey, i, ts, path);
    r, other := PathSteps(parseKey, i, ts, q);
    NamedApart(parseKey, ts, i + 1, path[0], q[0]);
    ObjectInside(parseKey, p, inner, path[1..], k, us);
    ObjectInside(parseKey, r, other, q[1..], m, ws);
  }

  lemma BesideIsKept(parseKey: KeyParser, i: nat, ts: seq<Token>, path: seq<string>, more: seq<Token>, k: nat,
                     us: seq<Token>, q: seq<string>, m: nat, ws: seq<Token>)
    requires ObjectAt(parseKey, Some((i, ts)), path) == Some((k, us)) && path != []
    requires ObjectAt(parseKey, Some((i, ts)), q) == Some((m, ws)) && q != [] && q[0] != path[0]
    ensures ObjectAt(parseKey, Some((i, Grafted(parseKey, ts, path, more))), q)
            == Some((Pushed(m, k + |TokensText(us)|, more), ws))
  {
    var p, inner, r, other := BesidePlaces(parseKey, i, ts, path, k, us, q, m, ws);
    FirstNamedGrafted(parseKey, ts, i + 1, path, more, p, inner, q[0]);
    if r > p {
      ObjectShifted(parseKey, r, other, q[1..], |TokensText(more)|, m, ws);
    }
  }

  /**
   * Every object is found again: one on the way to the place with more in it, every other as it was; and where it was,
   * or pushed along if it comes behind the place.
   */
  lemma {:induction false} ObjectsKept(parseKey: KeyParser, i: nat, ts: seq<Token>, path: seq<string>, more: seq<Token>,
                                       k: nat, us: seq<Token>, q: seq<string>, m: nat, ws: seq<Token>)
    requires ObjectAt(parseKey, Some((i, ts)), path) == Some((k, us))
    requires ObjectAt(parseKey, Some((i, ts)), q) == Some((m, ws))
    ensures ObjectAt(parseKey, Some((i, Grafted(parseKey, ts, path, more))), q)
            == Some((Pushed(m, k + |TokensText(us)|, more),
                     if q <= path then Grafted(parseKey, ws, path[|q|..], more) else ws))
    decreases |q|
  {
    ObjectInside(parseKey, i, ts, path, k, us);
    if q == [] {
      assert path[0..] == path;
    } else if path == [] {
      var p, inner := PathSteps(parseKey, i, ts, q);
      FirstNamedConcat(parseKey, ts, more, i + 1, q[0]);
      ObjectInside(parseKey, i, ts, q, m, ws);
    } else if q[0] != path[0] {
      BesideIsKept(parseKey, i, ts, path, more, k, us, q, m, ws);
    } else {
      var p, inner := PathSteps(parseKey, i, ts, path);
      FirstNamedGrafted(parseKey, ts, i + 1, path, more, p, inner, q[0]);
      ObjectsKept(parseKey, p, inner, path[1..], more, k, us, q[1..], m, ws);
      assert q <= path <==> q[1..] <= path[1..];
      assert q <= path ==> path[|q|..] == path[1..][|q[1..]|..];
    }
  }
}
