/** Texts whose commas and comments leave no doubt, and what keeps them so. */
module NeatText {
  import opened Options
  import opened JsonTrees
  import opened TextScanning
  import opened ScanningLaws
  import opened KeyLookup
  import opened KeyLookupLaws
  import opened SurgicalWrite
  import opened PrintedText
  import opened InsertedText
  import opened GraftedText
  import opened ReadText

  /** Commas as JSON5 has them at every depth, and no comment behind the last entry of an object. */
  predicate IsNeat(v: TextValue)
    decreases v
  {
    v.Braced? ==>
      IsList(v.tokens, false) && (v.bracket == '{' ==> !EndsInNote(v.tokens)) && AllNeat(v.tokens)
  }

  predicate AllNeat(ts: seq<Token>)
    decreases ts
  {
    ts == [] || (IsNeatToken(ts[0]) && AllNeat(ts[1..]))
  }

  predicate IsNeatToken(t: Token)
    decreases t
  {
    match t
    case Item(v) => IsNeat(v)
    case Property(_, _, _, v) => IsNeat(v)
    case _ => true
  }

  lemma {:induction false} NeatConcat(a: seq<Token>, b: seq<Token>)
    ensures AllNeat(a + b) <==> AllNeat(a) && AllNeat(b)
    decreases |a|
  {
    if a == [] {
      assert a + b == b;
    } else {
      assert (a + b)[1..] == a[1..] + b && (a + b)[0] == a[0];
      NeatConcat(a[1..], b);
    }
  }

  lemma {:induction false} BlanksNeat(s: string)
    ensures AllNeat(Blanks(s))
  {
    if s != "" {
      BlanksNeat(s[1..]);
    }
  }

  lemma OneNeat(t: Token)
    ensures AllNeat([t]) <==> IsNeatToken(t)
  {
    assert [t][1..] == [];
  }

  predicate NoNotes(ts: seq<Token>)
  {
    forall k :: 0 <= k < |ts| && ts[k].Gap? ==> ts[k].piece.Plain?
  }

  lemma {:induction false} NoNoteAtEnd(ts: seq<Token>)
    requires NoNotes(ts)
    ensures !EndsInNote(ts)
    decreases |ts|
  {
    if ts != [] && ts[|ts| - 1].Gap? {
      NoNoteAtEnd(ts[..|ts| - 1]);
    }
  }

  lemma {:induction false} PrintedNoNotes(ts: seq<Token>, indent: string)
    requires ArePrinted(ts)
    ensures NoNotes(MovedTokens(ts, indent))
    decreases |ts|
  {
    if ts != [] {
      PrintedNoNotes(ts[1..], indent);
      BlanksEnd(indent);
    }
  }

  /** Moved in, printed text is as neat as before. */
  lemma {:induction false} MovedNeat(v: TextValue, indent: string)
    requires IsNeat(v) && IsPrinted(v)
    ensures IsNeat(MovedValue(v, indent))
    decreases v
  {
    if v.Braced? {
      MovedAllNeat(v.tokens, indent);
      MovedList(v.tokens, indent, false);
      PrintedNoNotes(v.tokens, indent);
      NoNoteAtEnd(MovedTokens(v.tokens, indent));
    }
  }

  lemma {:induction false} MovedAllNeat(ts: seq<Token>, indent: string)
    requires AllNeat(ts) && ArePrinted(ts)
    ensures AllNeat(MovedTokens(ts, indent))
    decreases ts
  {
    if ts != [] {
      MovedTokenNeat(ts[0], indent);
      MovedAllNeat(ts[1..], indent);
      NeatConcat(MovedToken(ts[0], indent), MovedTokens(ts[1..], indent));
    }
  }

  lemma {:induction false} MovedTokenNeat(t: Token, indent: string)
    requires IsNeatToken(t) && IsPrintedToken(t)
    ensures AllNeat(MovedToken(t, indent))
    decreases t
  {
    match t {
      case Gap(p) =>
        BlanksNeat(if p == Plain('\n') then indent else "");
        OneNeat(t);
        NeatConcat([t], if p == Plain('\n') then Blanks(indent) else []);
      case Comma =>
        OneNeat(t);
      case Item(v) =>
        MovedNeat(v, indent);
        OneNeat(MovedToken(t, indent)[0]);
      case Property(_, _, _, v) =>
        MovedNeat(v, indent);
        OneNeat(MovedToken(t, indent)[0]);
    }
  }

  lemma {:induction false} MovedList(ts: seq<Token>, indent: string, open: bool)
    ensures IsList(MovedTokens(ts, indent), open) <==> IsList(ts, open)
    decreases |ts|
  {
    if ts != [] {
      var here, rest := MovedToken(ts[0], indent), MovedTokens(ts[1..], indent);
      var next := if ts[0].Gap? then open else !ts[0].Comma?;
      MovedTokenList(ts[0], indent, open);
      MovedList(ts[1..], indent, next);
      ListConcat(here, rest, open);
      assert ts == [ts[0]] + ts[1..] && [ts[0]][1..] == [];
      ListConcat([ts[0]], ts[1..], open);
    }
  }

  lemma MovedTokenList(t: Token, indent: string, open: bool)
    ensures IsOpen(MovedToken(t, indent), open) == if t.Gap? then open else !t.Comma?
    ensures IsList(MovedToken(t, indent), open) <==> IsList([t], open)
  {
    assert [t][1..] == [] && MovedToken(t, indent)[..1] + MovedToken(t, indent)[1..] == MovedToken(t, indent);
    BlanksOpen(indent, open);
    if t == Gap(Plain('\n')) {
      ListConcat([t], Blanks(indent), open);
    } else {
      assert MovedToken(t, indent)[1..] == [];
    }
  }

  /** The value of a new property is neat, and stands for what it was printed from. */
  lemma EntryNeat(name: Name, v: TextValue, back: string)
    requires IsNeat(v)
    ensures AllNeat(Entry(name, v, back)) && NoNotes(Entry(name, v, back))
  {
    BlanksNeat(back);
    BlanksEnd(back);
    if v.Bare? {
      OneNeat(Spaced(name, Bare(v.word + back)));
    } else {
      OneNeat(Spaced(name, v));
      NeatConcat([Spaced(name, v)], Blanks(back));
    }
  }

  lemma {:induction false} EndsBehind(a: seq<Token>, t: Token, b: seq<Token>)
    requires t.Property? && NoNotes(b)
    ensures !EndsInNote(a + ([t] + b))
    decreases |b|
  {
    var all := a + ([t] + b);
    if b != [] && b[|b| - 1].Gap? {
      assert all[..|all| - 1] == a + ([t] + b[..|b| - 1]) && all[|all| - 1] == b[|b| - 1];
      EndsBehind(a, t, b[..|b| - 1]);
    } else if b == [] {
      assert all[|all| - 1] == t;
    } else {
      assert all[|all| - 1] == b[|b| - 1];
    }
  }

  lemma PropertyNeat(name: Name, v: TextValue, front: string, back: string)
    requires IsNeat(v)
    ensures AllNeat(PropertyTokens(name, v, front, back))
    ensures forall a: seq<Token> :: !EndsInNote(a + PropertyTokens(name, v, front, back))
  {
    var entry := Entry(name, v, back);
    EntryNeat(name, v, back);
    BlanksNeat(front);
    NeatConcat(Blanks(front), entry);
    forall a: seq<Token> ensures !EndsInNote(a + PropertyTokens(name, v, front, back)) {
      assert a + PropertyTokens(name, v, front, back) == (a + Blanks(front)) + ([entry[0]] + entry[1..]);
      EndsBehind(a + Blanks(front), entry[0], entry[1..]);
    }
  }

  /** An object to which a property is added stays neat. */
  lemma NewIsNeat(ts: seq<Token>, name: Name, v: TextValue, indent: string)
    requires IsNeat(Braced('{', ts)) && IsNeat(v) && IsPrinted(v)
    ensures IsNeat(Braced('{', ts + NewTokens(ts, name, v, indent)))
  {
    var front, back := "\n" + indent + "    ", "\n" + indent;
    var put := PropertyTokens(name, MovedValue(v, indent + "    "), front, back);
    MovedNeat(v, indent + "    ");
    PropertyNeat(name, MovedValue(v, indent + "    "), front, back);
    ClearEnd(ts);
    ListStaysIff(ts, name, v, indent);
    NeatBehind(ts, if PutsComma(ts) then [Comma] else [], put);
  }

  lemma NeatBehind(ts: seq<Token>, comma: seq<Token>, put: seq<Token>)
    requires AllNeat(ts) && AllNeat(put) && (comma == [] || comma == [Comma])
    requires forall a: seq<Token> :: !EndsInNote(a + put)
    ensures AllNeat(ts + (comma + put)) && !EndsInNote(ts + (comma + put))
  {
    OneNeat(Comma);
    NeatConcat(comma, put);
    NeatConcat(ts, comma + put);
    assert ts + (comma + put) == (ts + comma) + put;
  }

  /** Tokens of the same kinds make a list alike. */
  lemma {:induction false} GraftIsNeat(parseKey: KeyParser, i: nat, ts: seq<Token>, path: seq<string>,
                                       more: seq<Token>, k: nat, us: seq<Token>)
    requires ObjectAt(parseKey, Some((i, ts)), path) == Some((k, us)) && IsNeat(Braced('{', ts))
    requires IsNeat(Braced('{', us)) ==> IsNeat(Braced('{', us + more))
    ensures IsNeat(Braced('{', us)) && IsNeat(Braced('{', Grafted(parseKey, ts, path, more)))
    decreases |path|, |ts| + 1
  {
    if path != [] {
      var p, inner := PathSteps(parseKey, i, ts, path);
      GraftUnderIsNeat(parseKey, ts, i + 1, path, more, p, inner, k, us);
      SameKinds(parseKey, ts, path, more, false);
      SameEnd(parseKey, ts, path, more);
    }
  }

  lemma {:induction false} GraftUnderIsNeat(parseKey: KeyParser, ts: seq<Token>, j: nat, path: seq<string>,
                                            more: seq<Token>, p: nat, inner: seq<Token>, k: nat, us: seq<Token>)
    requires path != [] && FirstNamed(parseKey, ts, j, path[0]) == Some((p, Braced('{', inner)))
    requires ObjectAt(parseKey, Some((p, inner)), path[1..]) == Some((k, us)) && AllNeat(ts)
    requires IsNeat(Braced('{', us)) ==> IsNeat(Braced('{', us + more))
    ensures IsNeat(Braced('{', us)) && AllNeat(GraftedUnder(parseKey, ts, path, more))
    decreases |path|, |ts|
  {
    var grafted := GraftedUnder(parseKey, ts, path, more);
    if LeadsOn(parseKey, ts[0], path[0]) {
      assert ts[0].value == Braced('{', inner) && IsNeatToken(ts[0]);
      GraftIsNeat(parseKey, p, inner, path[1..], more, k, us);
      assert grafted[1..] == ts[1..];
    } else {
      GraftUnderIsNeat(parseKey, ts[1..], j + |TokenText(ts[0])|, path, more, p, inner, k, us);
      assert grafted[1..] == GraftedUnder(parseKey, ts[1..], path, more);
    }
  }

  lemma {:induction false} SameKinds(parseKey: KeyParser, ts: seq<Token>, path: seq<string>, more: seq<Token>,
                                     open: bool)
    requires path != []
    ensures IsList(GraftedUnder(parseKey, ts, path, more), open) <==> IsList(ts, open)
    decreases |ts|
  {
    var grafted := GraftedUnder(parseKey, ts, path, more);
    if ts == [] || (ts[0].Property? && NameOf(parseKey, ts[0]).None?) {
    } else if ts[0].Property? && NameOf(parseKey, ts[0]).value == path[0] {
      assert grafted[1..] == ts[1..];
    } else {
      SameKinds(parseKey, ts[1..], path, more, if ts[0].Gap? then open else !ts[0].Comma?);
      assert grafted[1..] == GraftedUnder(parseKey, ts[1..], path, more);
    }
  }

  /** The grafted tokens are as many, and of the rest none is another. */
  lemma {:induction false} SameTokens(parseKey: KeyParser, ts: seq<Token>, path: seq<string>, more: seq<Token>)
    requires path != []
    ensures var grafted := GraftedUnder(parseKey, ts, path, more);
            |grafted| == |ts| && forall k :: 0 <= k < |ts| ==>
              grafted[k] == ts[k] || (grafted[k].Property? && ts[k].Property?)
    decreases |ts|
  {
    if ts == [] || (ts[0].Property? && NameOf(parseKey, ts[0]).None?) {
    } else if ts[0].Property? && NameOf(parseKey, ts[0]).value == path[0] {
    } else {
      SameTokens(parseKey, ts[1..], path, more);
    }
  }

  lemma SameEnd(parseKey: KeyParser, ts: seq<Token>, path: seq<string>, more: seq<Token>)
    requires path != []
    ensures EndsInNote(GraftedUnder(parseKey, ts, path, more)) <==> EndsInNote(ts)
  {
    SameTokens(parseKey, ts, path, more);
    SameEnds(ts, GraftedUnder(parseKey, ts, path, more));
  }

  lemma {:induction false} SameEnds(a: seq<Token>, b: seq<Token>)
    requires |a| == |b| && forall k :: 0 <= k < |a| ==> b[k] == a[k] || (b[k].Property? && a[k].Property?)
    ensures EndsInNote(a) <==> EndsInNote(b)
    decreases |a|
  {
    if a != [] {
      SameEnds(a[..|a| - 1], b[..|b| - 1]);
    }
  }
}

/** The patched text stands for the intended tree. */
module PatchedTexts {
  import opened Options
  import opened JsonTrees
  import opened MergeLaws
  import opened Additions
  import opened Patching
  import opened TextScanning
  import opened ScanningLaws
  import opened KeyLookup
  import opened KeyLookupLaws
  import opened SurgicalWrite
  import opened PrintedText
  import opened InsertedText
  import opened GraftedText
  import opened ReadText
  import opened NeatText

  /** The text is an object, with white space and comments around it. */
  ghost predicate IsText(text: string, before: seq<Piece>, ts: seq<Token>, behind: seq<Piece>)
  {
    && AllGaps(before) && AllGaps(behind) && AreTokens(ts, true)
    && text == GapText(before) + ValueText(Braced('{', ts)) + GapText(behind)
  }

  /** The library prints the addition properly: neatly, and so that it stands for what it was printed from. */
  ghost predicate PrintsWell(lib: Json5, rd: Reader, a: Addition, name: Name, v: TextValue)
  {
    Prints(lib, a.key, a.value, name, v) && IsNeat(v) && ReadValue(rd, v) == Some(a.value)
  }

  /** What the text stands for is read with the library's keys. */
  ghost predicate Fits(lib: Json5, rd: Reader)
  {
    && rd.key == lib.parseKey && IgnoresBlanks(rd)
    && forall text :: rd.scalar(text).Some? ==> !rd.scalar(text).value.Obj?
  }

  lemma EntryReads(rd: Reader, name: Name, v: TextValue, back: string, key: string, value: Json)
    requires IgnoresBlanks(rd) && AllBlank(back) && IsValue(v)
    requires ReadName(rd, name) == Some(key) && ReadValue(rd, v) == Some(value)
    ensures ReadFields(rd, Entry(name, v, back)) == Some([Field(key, value)])
  {
    if v.Bare? {
      assert ReadValue(rd, Bare(v.word + back)) == rd.scalar(v.word + back) == rd.scalar(v.word);
      OneField(rd, Spaced(name, Bare(v.word + back)));
    } else {
      OneField(rd, Spaced(name, v));
      BlanksRead(rd, back);
      FieldsConcat(rd, [Spaced(name, v)], Blanks(back));
      JoinedLaws(ReadField(rd, Spaced(name, v)), None, None);
    }
  }

  lemma NewReads(lib: Json5, rd: Reader, ts: seq<Token>, a: Addition, name: Name, v: TextValue, indent: string)
    requires Fits(lib, rd) && PrintsWell(lib, rd, a, name, v) && IsIndent(indent)
    ensures ReadFields(rd, NewTokens(ts, name, v, indent)) == Some([Field(a.key, a.value)])
  {
    var moved, front, back := MovedValue(v, indent + "    "), "\n" + indent + "    ", "\n" + indent;
    var f := Some([Field(a.key, a.value)]);
    MovedReads(rd, v, indent + "    ");
    MovedIsValue(v, indent + "    ");
    EntryReads(rd, name, moved, back, a.key, a.value);
    BlanksRead(rd, front);
    FieldsConcat(rd, Blanks(front), Entry(name, moved, back));
    JoinedLaws(f, None, None);
    var put := PropertyTokens(name, moved, front, back);
    OneField(rd, Comma);
    FieldsConcat(rd, if PutsComma(ts) then [Comma] else [], put);
  }

  lemma SplicedTail(s: string, tail: string, at: nat, more: string, after: string)
    requires at <= |s| && |after| == |s| + |more| && StandsAt(Spliced(s + tail, at, more), 0, after)
    ensures Spliced(s + tail, at, more) == after + tail
  {
    var out := Spliced(s + tail, at, more);
    forall k | 0 <= k < |out| ensures out[k] == (after + tail)[k] {
      if k < |after| {
        assert out[0 + k] == after[k];
      } else {
        assert out[k] == (s + tail)[k - |more|];
      }
    }
  }

  /** One addition carried out in the text. */
  lemma PatchOnce(lib: Json5, rd: Reader, text: string, before: seq<Piece>, ts: seq<Token>, behind: seq<Piece>,
                  a: Addition, name: Name, v: TextValue)
    returns (k: nat, us: seq<Token>, put: seq<Token>)
    requires IsText(text, before, ts, behind) && rd.key == lib.parseKey && Prints(lib, a.key, a.value, name, v)
    requires ObjectAt(rd.key, Some((|GapText(before)|, ts)), a.path).Some?
    ensures ObjectAt(rd.key, Some((|GapText(before)|, ts)), a.path) == Some((k, us))
    ensures exists indent :: IsIndent(indent) && put == NewTokens(us, name, v, indent)
    ensures var r := RangeOfPath(lib.parseKey, text, a.path);
            && r.Some?
            && IsText(WithProperty(lib, text, r.value, a.key, a.value), before, Grafted(rd.key, ts, a.path, put),
                      behind)
  {
    var g := |GapText(before)|;
    var there := ObjectAt(rd.key, Some((g, ts)), a.path).value;
    k, us := there.0, there.1;
    TextStands(text, before, ts, behind);
    PathIsFound(rd.key, text, before, ts, a.path);
    var indent := Indent(text, LineStart(text, k));
    put := NewTokens(us, name, v, indent);
    IndentIsIndent(text, LineStart(text, k));
    WithPropertyIs(lib, text, k, us, a.key, a.value, name, v);
    NewIsProper(lib, us, a.key, a.value, name, v, indent);
    GraftedIsText(rd.key, text, before, ts, behind, a.path, put, k, us);
  }

  /** In the patched text every path leads to the object it led to, where that was or pushed along. */
  lemma PathsAfterPatch(lib: Json5, rd: Reader, text: string, before: seq<Piece>, ts: seq<Token>, behind: seq<Piece>,
                        a: Addition, name: Name, v: TextValue, q: seq<string>, m: nat, ws: seq<Token>)
    returns (k: nat, us: seq<Token>, put: seq<Token>)
    requires IsText(text, before, ts, behind) && rd.key == lib.parseKey && Prints(lib, a.key, a.value, name, v)
    requires ObjectAt(rd.key, Some((|GapText(before)|, ts)), a.path).Some?
    requires ObjectAt(rd.key, Some((|GapText(before)|, ts)), q) == Some((m, ws))
    ensures ObjectAt(rd.key, Some((|GapText(before)|, ts)), a.path) == Some((k, us))
    ensures var r := RangeOfPath(lib.parseKey, text, a.path);
            && r == Some(RangeOfObject(k, us))
            && RangeOfPath(lib.parseKey, WithProperty(lib, text, r.value, a.key, a.value), q)
               == Some(RangeOfObject(Pushed(m, k + |TokensText(us)|, put),
                                     if q <= a.path then Grafted(rd.key, ws, a.path[|q|..], put) else ws))
  {
    var g := |GapText(before)|;
    k, us, put := PatchOnce(lib, rd, text, before, ts, behind, a, name, v);
    var out := WithProperty(lib, text, RangeOfPath(lib.parseKey, text, a.path).value, a.key, a.value);
    TextStands(text, before, ts, behind);
    PathIsFound(rd.key, text, before, ts, a.path);
    TextStands(out, before, Grafted(rd.key, ts, a.path, put), behind);
    PathIsFound(rd.key, out, before, Grafted(rd.key, ts, a.path, put), q);
    ObjectsKept(rd.key, g, ts, a.path, put, k, us, q, m, ws);
  }

  lemma TextStands(text: string, before: seq<Piece>, ts: seq<Token>, behind: seq<Piece>)
    requires IsText(text, before, ts, behind)
    ensures StandsAt(text, 0, GapText(before) + ValueText(Braced('{', ts)))
  {
  }

  lemma GraftedIsText(parseKey: KeyParser, text: string, before: seq<Piece>, ts: seq<Token>, behind: seq<Piece>,
                      path: seq<string>, put: seq<Token>, k: nat, us: seq<Token>)
    requires IsText(text, before, ts, behind)
    requires ObjectAt(parseKey, Some((|GapText(before)|, ts)), path) == Some((k, us))
    requires AreTokens(us, true) ==> AreTokens(us + put, true)
    ensures RangeOfObject(k, us).end <= |text|
    ensures IsText(Spliced(text, RangeOfObject(k, us).end, TokensText(put)), before, Grafted(parseKey, ts, path, put),
                   behind)
  {
    var g := GapText(before);
    var after := Grafted(parseKey, ts, path, put);
    TextStands(text, before, ts, behind);
    GraftStands(parseKey, text, before, ts, path, put, k, us);
    GraftIsProper(parseKey, |g|, ts, path, put, k, us);
    ObjectInside(parseKey, |g|, ts, path, k, us);
    GraftLength(parseKey, |g|, ts, path, put);
    SplicedTail(g + ValueText(Braced('{', ts)), GapText(behind), RangeOfObject(k, us).end, TokensText(put),
                g + ValueText(Braced('{', after)));
  }

  /** And the tree it stands for. */
  lemma PatchReads(lib: Json5, rd: Reader, g: nat, ts: seq<Token>, a: Addition, name: Name, v: TextValue, k: nat,
                   us: seq<Token>, indent: string)
    requires Fits(lib, rd) && PrintsWell(lib, rd, a, name, v) && IsIndent(indent)
    requires ObjectAt(rd.key, Some((g, ts)), a.path) == Some((k, us))
    requires IsNeat(Braced('{', ts)) && ReadFields(rd, ts).Some?
    ensures var after := Grafted(rd.key, ts, a.path, NewTokens(us, name, v, indent));
            && IsNeat(Braced('{', after)) && ReadFields(rd, after).Some?
            && Obj(ReadFields(rd, after).value) == Added(Obj(ReadFields(rd, ts).value), a.path, a.key, a.value)
  {
    var put := NewTokens(us, name, v, indent);
    NewReads(lib, rd, us, a, name, v, indent);
    GraftReads(rd, g, ts, a.path, put, Field(a.key, a.value));
    if IsNeat(Braced('{', us)) {
      NewIsNeat(us, name, v, indent);
    }
    GraftIsNeat(rd.key, g, ts, a.path, put, k, us);
  }

  ghost predicate IsPrintable(lib: Json5, rd: Reader, a: Addition)
  {
    exists name, v :: PrintsWell(lib, rd, a, name, v)
  }

  ghost predicate PrintsAll(lib: Json5, rd: Reader, adds: seq<Addition>)
  {
    forall a :: a in adds ==> IsPrintable(lib, rd, a)
  }

  /** Each addition's path leads to an object of the text. */
  ghost predicate AllLead(rd: Reader, g: nat, ts: seq<Token>, adds: seq<Addition>)
  {
    forall a {:trigger a in adds} :: a in adds ==> ObjectAt(rd.key, Some((g, ts)), a.path).Some?
  }

  lemma StillLead(rd: Reader, g: nat, ts: seq<Token>, path: seq<string>, put: seq<Token>, k: nat, us: seq<Token>,
                  adds: seq<Addition>)
    requires ObjectAt(rd.key, Some((g, ts)), path) == Some((k, us)) && AllLead(rd, g, ts, adds)
    ensures AllLead(rd, g, Grafted(rd.key, ts, path, put), adds)
  {
    forall a {:trigger a in adds} | a in adds
      ensures ObjectAt(rd.key, Some((g, Grafted(rd.key, ts, path, put))), a.path).Some?
    {
      var there := ObjectAt(rd.key, Some((g, ts)), a.path).value;
      ObjectsKept(rd.key, g, ts, path, put, k, us, a.path, there.0, there.1);
    }
  }

  /** A neat text, and one that stands for a tree. */
  ghost predicate Stands(rd: Reader, text: string, before: seq<Piece>, ts: seq<Token>, behind: seq<Piece>)
  {
    IsText(text, before, ts, behind) && IsNeat(Braced('{', ts)) && ReadFields(rd, ts).Some?
  }

  function TreeOf(rd: Reader, ts: seq<Token>): Json
    requires ReadFields(rd, ts).Some?
  {
    Obj(ReadFields(rd, ts).value)
  }

  lemma PatchStep(lib: Json5, rd: Reader, text: string, before: seq<Piece>, ts: seq<Token>, behind: seq<Piece>,
                  a: Addition, rest: seq<Addition>)
    returns (out: string, next: seq<Token>)
    requires Stands(rd, text, before, ts, behind) && Fits(lib, rd)
    requires PrintsAll(lib, rd, [a] + rest) && AllLead(rd, |GapText(before)|, ts, [a] + rest)
    ensures RangeOfPath(lib.parseKey, text, a.path).Some?
    ensures out == WithProperty(lib, text, RangeOfPath(lib.parseKey, text, a.path).value, a.key, a.value)
    ensures Stands(rd, out, before, next, behind) && AllLead(rd, |GapText(before)|, next, rest)
    ensures PrintsAll(lib, rd, rest)
    ensures TreeOf(rd, next) == Added(TreeOf(rd, ts), a.path, a.key, a.value)
  {
    var g := |GapText(before)|;
    assert a in [a] + rest && IsPrintable(lib, rd, a) && forall b :: b in rest ==> b in [a] + rest;
    var name, v :| PrintsWell(lib, rd, a, name, v);
    var k, us, put := PatchOnce(lib, rd, text, before, ts, behind, a, name, v);
    var indent :| IsIndent(indent) && put == NewTokens(us, name, v, indent);
    next := Grafted(rd.key, ts, a.path, put);
    PatchReads(lib, rd, g, ts, a, name, v, k, us, indent);
    StillLead(rd, g, ts, a.path, put, k, us, rest);
    out := WithProperty(lib, text, RangeOfPath(lib.parseKey, text, a.path).value, a.key, a.value);
  }

  /**
   * All additions carried out in the text. If it is neat and every path leads to an object in it, the patch does not
   * give up, and the patched text is a neat one that stands for the tree with the additions made.
   */
  lemma {:induction false} PatchIsWritten(lib: Json5, rd: Reader, text: string, before: seq<Piece>, ts: seq<Token>,
                                          behind: seq<Piece>, adds: seq<Addition>)
    returns (after: seq<Token>)
    requires Stands(rd, text, before, ts, behind) && Fits(lib, rd)
    requires PrintsAll(lib, rd, adds) && AllLead(rd, |GapText(before)|, ts, adds)
    ensures PatchedText(lib, text, adds).Some?
    ensures Stands(rd, PatchedText(lib, text, adds).value, before, after, behind)
    ensures TreeOf(rd, after) == AddedAll(TreeOf(rd, ts), adds)
    decreases |adds|
  {
    if adds == [] {
      after := ts;
    } else {
      assert adds == [adds[0]] + adds[1..];
      var out, next := PatchStep(lib, rd, text, before, ts, behind, adds[0], adds[1..]);
      after := PatchIsWritten(lib, rd, out, before, next, behind, adds[1..]);
    }
  }

  /** Every key of an object, at any depth, is quoted. */
  predicate AllQuoted(ts: seq<Token>)
    decreases ts
  {
    ts == [] ||
    (AllQuoted(ts[1..])
     && (ts[0].Property? ==> ts[0].name.InQuotes? && (ts[0].value.Braced? ==> AllQuoted(ts[0].value.tokens))))
  }

  /** Then the text's properties are found as the tree's. */
  lemma {:induction false} QuotedIsFound(lib: Json5, rd: Reader, ts: seq<Token>, j: nat, key: string)
    requires Fits(lib, rd) && AllQuoted(ts) && ReadFields(rd, ts).Some? && HasKey(ReadFields(rd, ts).value, key)
    ensures var found := FirstNamed(rd.key, ts, j, key);
            && found.Some? && ReadValue(rd, found.value.1) == Find(ReadFields(rd, ts).value, key)
            && (found.value.1.Braced? ==> AllQuoted(found.value.1.tokens))
    decreases |ts|
  {
    FirstRead(rd, ts, key);
    if !(ts[0].Property? && ReadName(rd, ts[0].name) == Some(key)) {
      QuotedIsFound(lib, rd, ts[1..], j + |TokenText(ts[0])|, key);
    }
  }

  lemma FirstRead(rd: Reader, ts: seq<Token>, key: string)
    requires ReadFields(rd, ts).Some? && HasKey(ReadFields(rd, ts).value, key)
    ensures ts != [] && ReadFields(rd, ts[1..]).Some?
    ensures ts[0].Property? ==> ReadName(rd, ts[0].name).Some? && ReadValue(rd, ts[0].value).Some?
    ensures Find(ReadFields(rd, ts).value, key)
            == if ts[0].Property? && ReadName(rd, ts[0].name).value == key then ReadValue(rd, ts[0].value)
               else Find(ReadFields(rd, ts[1..]).value, key)
  {
    var first, rest := ReadField(rd, ts[0]).value, ReadFields(rd, ts[1..]).value;
    if ts[0].Property? {
      assert (first + rest)[0] == first[0] && (first + rest)[1..] == rest;
    } else {
      assert first + rest == rest;
    }
  }

  /** And so are its objects. */
  lemma {:induction false} QuotedLeads(lib: Json5, rd: Reader, i: nat, ts: seq<Token>, path: seq<string>)
    requires Fits(lib, rd) && AllQuoted(ts) && ReadFields(rd, ts).Some?
    requires At(TreeOf(rd, ts), path).Some? && At(TreeOf(rd, ts), path).value.Obj?
    ensures ObjectAt(rd.key, Some((i, ts)), path).Some?
    decreases |path|
  {
    if path != [] {
      QuotedIsFound(lib, rd, ts, i + 1, path[0]);
      var found := FirstNamed(rd.key, ts, i + 1, path[0]).value;
      assert At(TreeOf(rd, ts), path) == At(ReadValue(rd, found.1).value, path[1..]);
      assert ReadValue(rd, found.1).value.Obj?;
      assert found.1.Braced? && found.1.bracket == '{';
      QuotedLeads(lib, rd, found.0, found.1.tokens, path[1..]);
    }
  }

  /** The library reads a neat text as the tree it stands for. */
  ghost predicate ReadsNeatTexts(lib: Json5, rd: Reader)
  {
    forall text, before, ts, behind {:trigger Stands(rd, text, before, ts, behind)} ::
      Stands(rd, text, before, ts, behind) && WellFormed(TreeOf(rd, ts)) ==> lib.parse(text) == Some(TreeOf(rd, ts))
  }

  /** What a patch of a neat, quoted text can be asked to do. */
  ghost predicate CanPatch(lib: Json5, rd: Reader, existing: Json, data: Json)
  {
    && existing.Obj? && WellFormed(existing) && WellFormed(data) && Extends(existing, data)
    && PrintsAll(lib, rd, Collected(existing, data, []))
  }

  lemma SortedLead(lib: Json5, rd: Reader, g: nat, ts: seq<Token>, data: Json)
    requires Fits(lib, rd) && AllQuoted(ts) && ReadFields(rd, ts).Some? && CanPatch(lib, rd, TreeOf(rd, ts), data)
    ensures var sorted := SortByDepth(Collected(TreeOf(rd, ts), data, []));
            PrintsAll(lib, rd, sorted) && AllLead(rd, g, ts, sorted)
  {
    var adds := Collected(TreeOf(rd, ts), data, []);
    SortedHere(adds, []);
    forall a {:trigger a in adds} | a in adds ensures ObjectAt(rd.key, Some((g, ts)), a.path).Some? {
      CollectedInPlace(TreeOf(rd, ts), data, [], a);
      assert a.path[0..] == a.path && a.(path := a.path) == a;
      QuotedLeads(lib, rd, g, ts, a.path);
    }
  }

  /**
   * The surgical write succeeds. Where a file is neat and its keys quoted, and the data has only properties more, the
   * patched text reads back to the data: the file is never written anew, and nothing of it is lost.
   */
  lemma PatchSucceeds(lib: Json5, rd: Reader, text: string, before: seq<Piece>, ts: seq<Token>, behind: seq<Piece>,
                      data: Json)
    requires Stands(rd, text, before, ts, behind) && AllQuoted(ts)
    requires Fits(lib, rd) && ReadsNeatTexts(lib, rd) && CanPatch(lib, rd, TreeOf(rd, ts), data)
    ensures lib.parse(text) == Some(TreeOf(rd, ts))
    ensures ReadsAs(lib, PatchFor(lib, text, TreeOf(rd, ts), data), data)
  {
    var existing := TreeOf(rd, ts);
    var adds := Collected(existing, data, []);
    PatchGivesIntended(existing, data);
    if adds == [] {
      DeepEqualIff(existing, data);
    } else {
      SortedLead(lib, rd, |GapText(before)|, ts, data);
      var after := PatchIsWritten(lib, rd, text, before, ts, behind, SortByDepth(adds));
      assert TreeOf(rd, after) == data;
    }
  }
}
