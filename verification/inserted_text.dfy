/** What the text of an object is after a property is put in. */
module InsertedText {
  import opened Options
  import opened JsonTrees
  import opened TextScanning
  import opened ScanningLaws
  import opened KeyLookup
  import opened KeyLookupLaws
  import opened SurgicalWrite
  import opened PrintedText

  /** A property or an item, or a comma: what is not a gap. */
  predicate HasCode(ts: seq<Token>)
  {
    exists k :: 0 <= k < |ts| && !ts[k].Gap?
  }

  /** Is an entry still without the comma that must come before a next one? */
  function IsOpen(ts: seq<Token>, open: bool): bool
  {
    if ts == [] then open
    else IsOpen(ts[1..], if ts[0].Gap? then open else !ts[0].Comma?)
  }

  /** Just one comma between any two entries, none before the first, and at most one behind the last. */
  predicate IsList(ts: seq<Token>, open: bool)
  {
    ts == [] ||
    (match ts[0]
     case Gap(_) => IsList(ts[1..], open)
     case Comma => open && IsList(ts[1..], false)
     case _ => !open && IsList(ts[1..], true))
  }

  lemma {:induction false} ListConcat(a: seq<Token>, b: seq<Token>, open: bool)
    ensures IsOpen(a + b, open) == IsOpen(b, IsOpen(a, open))
    ensures IsList(a + b, open) <==> IsList(a, open) && IsList(b, IsOpen(a, open))
    decreases |a|
  {
    if a == [] {
      assert a + b == b;
    } else {
      assert (a + b)[1..] == a[1..] + b && (a + b)[0] == a[0];
      ListConcat(a[1..], b, if a[0].Gap? then open else !a[0].Comma?);
    }
  }

  /** The last character that is no white space. */
  function LastSolid(s: string): Option<char>
  {
    if s == "" then None
    else if IsBlank(s[|s| - 1]) then LastSolid(s[..|s| - 1])
    else Some(s[|s| - 1])
  }

  lemma {:induction false} SolidConcat(a: string, b: string)
    ensures LastSolid(a + b) == if LastSolid(b).Some? then LastSolid(b) else LastSolid(a)
    decreases |b|
  {
    if b == "" {
      assert a + b == a;
    } else {
      assert (a + b)[..|a + b| - 1] == a + b[..|b| - 1];
      SolidConcat(a, b[..|b| - 1]);
    }
  }

  /** Does the text so far look as if it ended in a comma? A comma does, and a line comment that ends in one. */
  function LooksClosed(ts: seq<Token>): bool
  {
    if ts == [] then false
    else
      var t := ts[|ts| - 1];
      match t
      case Gap(Plain(_)) => LooksClosed(ts[..|ts| - 1])
      case Gap(LineNote(body)) => LastSolid(body) == Some(',')
      case Comma => true
      case _ => false
  }

  lemma SolidChar(c: char)
    ensures LastSolid([c]) == if IsBlank(c) then None else Some(c)
  {
    assert [c][..0] == "";
  }

  lemma {:induction false} SolidWord(word: string)
    requires word != "" && !IsBlank(word[0]) && forall k :: 0 <= k < |word| ==> word[k] != ','
    ensures LastSolid(word).Some? && LastSolid(word) != Some(',')
    decreases |word|
  {
    if IsBlank(word[|word| - 1]) {
      SolidWord(word[..|word| - 1]);
    }
  }

  /** A value does not end in a comma. */
  lemma ValueSolid(v: KeyLookupLaws.Value)
    requires IsValue(v)
    ensures LastSolid(ValueText(v)).Some? && LastSolid(ValueText(v)) != Some(',')
  {
    match v {
      case Braced(bracket, tokens) =>
        assert ValueText(v) == ([bracket] + TokensText(tokens)) + [ClosingOf(bracket)];
        SolidChar(ClosingOf(bracket));
        SolidConcat([bracket] + TokensText(tokens), [ClosingOf(bracket)]);
      case Text(quote, raw) =>
        assert ValueText(v) == ([quote] + raw) + [quote];
        SolidChar(quote);
        SolidConcat([quote] + raw, [quote]);
      case Bare(word) => SolidWord(word);
    }
  }

  lemma GapSolid(p: Piece)
    requires IsGap(p)
    ensures var s := LastSolid(Written(p, '{', '}'));
            match p
            case Plain(_) => s == None
            case LineNote(body) => s.Some? && (s == Some(',') <==> LastSolid(body) == Some(','))
            case _ => s == Some('/')
  {
    match p {
      case Plain(c) => SolidChar(c);
      case LineNote(body) =>
        SolidChar('\n');
        SolidConcat("//" + body, ['\n']);
        SolidConcat("//", body);
        assert LastSolid("//") == Some('/');
      case BlockNote(body) =>
        assert "/*" + body + "*/" == ("/*" + body + "*") + ['/'];
        SolidChar('/');
        SolidConcat("/*" + body + "*", ['/']);
      case _ =>
    }
  }

  lemma TokenSolid(t: Token, inObject: bool)
    requires IsToken(t, inObject) && !t.Gap? && !t.Comma?
    ensures LastSolid(TokenText(t)).Some? && LastSolid(TokenText(t)) != Some(',')
  {
    ValueSolid(t.value);
    if t.Property? {
      SolidConcat(KeyText(t), ValueText(t.value));
    }
  }

  lemma {:induction false} AreTokensAt(ts: seq<Token>, inObject: bool, k: nat)
    requires AreTokens(ts, inObject) && k < |ts|
    ensures IsToken(ts[k], inObject)
  {
    if k > 0 {
      AreTokensAt(ts[1..], inObject, k - 1);
    }
  }

  /** How the text of some tokens ends: in a comma exactly when it looks so. */
  lemma {:induction false} TokensSolid(ts: seq<Token>, inObject: bool)
    requires forall k :: 0 <= k < |ts| ==> IsToken(ts[k], inObject)
    ensures LastSolid(TokensText(ts)) == Some(',') <==> LooksClosed(ts)
    decreases |ts|
  {
    if ts != [] {
      var n := |ts| - 1;
      assert ts == ts[..n] + [ts[n]];
      TokensConcat(ts[..n], [ts[n]]);
      OneToken(ts[n]);
      SolidConcat(TokensText(ts[..n]), TokenText(ts[n]));
      match ts[n] {
        case Gap(p) =>
          GapSolid(p);
          TokensSolid(ts[..n], inObject);
        case Comma => SolidChar(',');
        case _ => TokenSolid(ts[n], inObject);
      }
    }
  }

  /** The scan for a first entry stops at one exactly when there is one. */
  lemma {:induction false} CodeIsMet(text: string, j: nat, ts: seq<Token>, end: nat)
    requires AreTokens(ts, true) && StandsAt(text, j, TokensText(ts))
    requires j + |TokensText(ts)| == end && IsAt(text, end, '}')
    ensures j <= |text| && (Skipped(text, j) < end <==> HasCode(ts))
    decreases |ts|
  {
    if ts == [] {
      assert Skipped(text, j) == end;
    } else {
      StandsSplit(text, j, TokenText(ts[0]), TokensText(ts[1..]));
      match ts[0] {
        case Gap(p) =>
          GapIsSkipped(text, j, p);
          CodeIsMet(text, j + |TokenText(ts[0])|, ts[1..], end);
          CodeBehind(ts);
        case Comma =>
          StandsChar(text, j, ',');
          assert !ts[0].Gap?;
        case Property(name, _, _, _) =>
          PropertyParts(text, j, ts[0]);
          NameStops(text, j, name);
          assert !ts[0].Gap?;
      }
    }
  }

  lemma CodeBehind(ts: seq<Token>)
    requires ts != [] && ts[0].Gap?
    ensures HasCode(ts) <==> HasCode(ts[1..])
  {
    if k :| 0 <= k < |ts| && !ts[k].Gap? {
      assert !ts[1..][k - 1].Gap?;
    }
    if k :| 0 <= k < |ts[1..]| && !ts[1..][k].Gap? {
      assert !ts[k + 1].Gap?;
    }
  }

  lemma NameStops(text: string, j: nat, name: Name)
    requires IsName(name) && StandsAt(text, j, NameText(name))
    ensures j < |text| && Skipped(text, j) == j && NameText(name) != ""
  {
    assert text[j + 0] == NameText(name)[0];
  }

  /** Going back from the closing brace one finds the last solid character, or the opening brace. */
  lemma {:induction false} LastIsFound(text: string, from: nat, s: string)
    requires from < |text| && StandsAt(text, from + 1, s)
    ensures text[LastCode(text, from, from + |s|)] == if LastSolid(s).Some? then LastSolid(s).value else text[from]
    decreases |s|
  {
    if s != "" {
      var n := |s| - 1;
      assert text[from + 1 + n] == s[n];
      assert s == s[..n] + [s[n]];
      StandsSplit(text, from + 1, s[..n], [s[n]]);
      LastIsFound(text, from, s[..n]);
    }
  }

  /** Is a comma put before the new property? */
  predicate PutsComma(ts: seq<Token>)
  {
    HasCode(ts) && !LooksClosed(ts)
  }

  lemma CommaIsPut(text: string, i: nat, ts: seq<Token>)
    requires AreTokens(ts, true) && StandsAt(text, i, ValueText(Braced('{', ts)))
    ensures IsObjectRange(text, RangeOfObject(i, ts))
    ensures CommaFor(text, RangeOfObject(i, ts)) == if PutsComma(ts) then "," else ""
  {
    BracedParts(text, i, Braced('{', ts));
    CodeIsMet(text, i + 1, ts, RangeOfObject(i, ts).end);
    LastIsComma(text, i, TokensText(ts));
    EndsSolid(ts);
  }

  lemma LastIsComma(text: string, from: nat, s: string)
    requires from < |text| && text[from] == '{' && StandsAt(text, from + 1, s)
    ensures text[LastCode(text, from, from + |s|)] == ',' <==> LastSolid(s) == Some(',')
  {
    LastIsFound(text, from, s);
  }

  lemma EndsSolid(ts: seq<Token>)
    requires AreTokens(ts, true)
    ensures LastSolid(TokensText(ts)) == Some(',') <==> LooksClosed(ts)
  {
    forall k | 0 <= k < |ts| ensures IsToken(ts[k], true) {
      AreTokensAt(ts, true, k);
    }
    TokensSolid(ts, true);
  }

  predicate AllBlank(s: string)
  {
    forall k :: 0 <= k < |s| ==> IsBlank(s[k])
  }

  /** A property, and the white space behind it. */
  function Entry(name: Name, v: KeyLookupLaws.Value, back: string): seq<Token>
  {
    if v.Bare? then [Spaced(name, Bare(v.word + back))] else [Spaced(name, v)] + Blanks(back)
  }

  function Spaced(name: Name, v: KeyLookupLaws.Value): Token
  {
    Property(name, [], [Plain(' ')], v)
  }

  lemma SpacedText(name: Name, v: KeyLookupLaws.Value)
    ensures TokenText(Spaced(name, v)) == NameText(name) + ": " + ValueText(v)
  {
    assert Written(Plain(' '), '{', '}') == [' '] && [Plain(' ')][1..] == [] && GapText([]) == "";
    assert GapText([Plain(' ')]) == [' '] + "" == [' '];
    assert "" + ([':'] + [' ']) == ": ";
    assert KeyText(Spaced(name, v)) == NameText(name) + ": ";
  }

  lemma EntryText(name: Name, v: KeyLookupLaws.Value, back: string)
    requires AllBlank(back)
    ensures TokensText(Entry(name, v, back)) == NameText(name) + ": " + ValueText(v) + back
  {
    if v.Bare? {
      SpacedText(name, Bare(v.word + back));
      OneToken(Spaced(name, Bare(v.word + back)));
    } else {
      SpacedText(name, v);
      OneToken(Spaced(name, v));
      BlanksAreTokens(back, true);
      TokensConcat([Spaced(name, v)], Blanks(back));
    }
  }

  lemma SpacedProper(name: Name, v: KeyLookupLaws.Value)
    requires IsName(name) && IsValue(v)
    ensures AreTokens([Spaced(name, v)], true)
  {
    assert [Plain(' ')][1..] == [] && AllGaps([Plain(' ')]);
    OneIsTokens(Spaced(name, v), true);
  }

  lemma EntryProper(name: Name, v: KeyLookupLaws.Value, back: string)
    requires AllBlank(back) && IsName(name) && IsValue(v)
    ensures AreTokens(Entry(name, v, back), true)
  {
    if v.Bare? {
      assert IsValue(Bare(v.word + back));
      SpacedProper(name, Bare(v.word + back));
    } else {
      SpacedProper(name, v);
      BlanksAreTokens(back, true);
      AreTokensConcat([Spaced(name, v)], Blanks(back), true);
    }
  }

  /** A property on a line of its own, and the closing brace behind it on the next. */
  function PropertyTokens(name: Name, v: KeyLookupLaws.Value, front: string, back: string): seq<Token>
  {
    Blanks(front) + Entry(name, v, back)
  }

  lemma PropertyIsProper(name: Name, v: KeyLookupLaws.Value, front: string, back: string)
    requires AllBlank(front) && AllBlank(back) && IsName(name) && IsValue(v)
    ensures AreTokens(PropertyTokens(name, v, front, back), true)
    ensures TokensText(PropertyTokens(name, v, front, back)) == front + (NameText(name) + ": " + ValueText(v) + back)
  {
    BlanksAreTokens(front, true);
    BlanksEnd(front);
    EntryText(name, v, back);
    EntryProper(name, v, back);
    TokensConcat(Blanks(front), Entry(name, v, back));
    AreTokensConcat(Blanks(front), Entry(name, v, back), true);
  }

  /** The library prints the key between quotes, reads it back, and prints the value as one. */
  ghost predicate Prints(lib: Json5, key: string, value: JsonTrees.Json, name: Name, v: KeyLookupLaws.Value)
  {
    && lib.stringifyKey(key) == NameText(name) && name.InQuotes? && IsName(name)
    && lib.parseKey(NameText(name)) == Some(key)
    && lib.stringify(value) == ValueText(v) && IsValue(v) && IsPrinted(v)
  }

  /** What is put into an object that stands at `i`: a comma where one is due, and the property. */
  function NewTokens(ts: seq<Token>, name: Name, v: KeyLookupLaws.Value, indent: string): seq<Token>
  {
    (if PutsComma(ts) then [Comma] else []) +
    PropertyTokens(name, MovedValue(v, indent + "    "), "\n" + indent + "    ", "\n" + indent)
  }

  lemma {:induction false} IndentIsIndent(text: string, i: nat)
    ensures IsIndent(Indent(text, i))
    decreases |text| - i
  {
    if i < |text| && (text[i] == ' ' || text[i] == '\t') {
      IndentIsIndent(text, i + 1);
    }
  }

  lemma PrintedProperty(lib: Json5, key: string, value: JsonTrees.Json, name: Name, v: KeyLookupLaws.Value,
                        indent: string)
    requires Prints(lib, key, value, name, v) && IsIndent(indent)
    ensures var put := PropertyTokens(name, MovedValue(v, indent + "    "), "\n" + indent + "    ", "\n" + indent);
            AreTokens(put, true) && TokensText(put) == PropertyText(lib, key, value, indent)
  {
    var front, back, deeper := "\n" + indent + "    ", "\n" + indent, indent + "    ";
    MovedIsValue(v, deeper);
    MovedValueText(v, deeper);
    PropertyIsProper(name, MovedValue(v, deeper), front, back);
    PropertyLines(indent, NameText(name), Reindented(ValueText(v), deeper));
  }

  lemma PropertyLines(indent: string, x: string, y: string)
    ensures ("\n" + indent + "    ") + (x + ": " + y + ("\n" + indent))
            == "\n" + indent + "    " + x + ": " + y + "\n" + indent
  {
  }

  lemma NewIsProper(lib: Json5, ts: seq<Token>, key: string, value: JsonTrees.Json, name: Name,
                    v: KeyLookupLaws.Value, indent: string)
    requires Prints(lib, key, value, name, v) && IsIndent(indent) && AreTokens(ts, true)
    ensures AreTokens(ts + NewTokens(ts, name, v, indent), true)
    ensures TokensText(NewTokens(ts, name, v, indent))
            == (if PutsComma(ts) then "," else "") + PropertyText(lib, key, value, indent)
  {
    var put := PropertyTokens(name, MovedValue(v, indent + "    "), "\n" + indent + "    ", "\n" + indent);
    PrintedProperty(lib, key, value, name, v, indent);
    if PutsComma(ts) {
      OneIsTokens(Comma, true);
      OneToken(Comma);
      AreTokensConcat([Comma], put, true);
      TokensConcat([Comma], put);
    } else {
      assert [] + put == put;
    }
    if EndsBare(ts) {
      assert !ts[|ts| - 1].Gap?;
    }
    AreTokensConcat(ts, NewTokens(ts, name, v, indent), true);
  }

  /** Text put in just before a closing brace. */
  lemma StandsSpliced(text: string, i: nat, inner: string, more: string)
    requires StandsAt(text, i, ['{'] + (inner + ['}']))
    ensures i + |inner| + 1 <= |text|
    ensures StandsAt(Spliced(text, i + |inner| + 1, more), i, ['{'] + ((inner + more) + ['}']))
  {
    var was, out, at := ['{'] + (inner + ['}']), Spliced(text, i + |inner| + 1, more), i + |inner| + 1;
    var now := ['{'] + ((inner + more) + ['}']);
    forall k | 0 <= k < |now| ensures out[i + k] == now[k] {
      if k < |inner| + 1 {
        assert text[i + k] == was[k] == now[k];
      } else if k < |inner| + 1 + |more| {
        assert now[k] == more[k - |inner| - 1];
      } else {
        assert text[at + 0] == was[|inner| + 1];
      }
    }
  }

  lemma WithPropertyIs(lib: Json5, text: string, i: nat, ts: seq<Token>, key: string, value: JsonTrees.Json,
                       name: Name, v: KeyLookupLaws.Value)
    requires AreTokens(ts, true) && StandsAt(text, i, ValueText(Braced('{', ts))) && Prints(lib, key, value, name, v)
    ensures var r := RangeOfObject(i, ts);
            && IsObjectRange(text, r)
            && WithProperty(lib, text, r, key, value)
               == Spliced(text, r.end, TokensText(NewTokens(ts, name, v, Indent(text, LineStart(text, i)))))
  {
    CommaIsPut(text, i, ts);
    IndentIsIndent(text, LineStart(text, i));
    NewIsProper(lib, ts, key, value, name, v, Indent(text, LineStart(text, i)));
  }

  /**
   * A property put into an object. Where an object is written in the text, there is afterwards, at the same place,
   * the same object with the new property behind all the others: its tokens, a comma where one is put, and the
   * property as the library prints it, moved in.
   */
  lemma InsertedIsWritten(lib: Json5, text: string, i: nat, ts: seq<Token>, key: string, value: JsonTrees.Json,
                          name: Name, v: KeyLookupLaws.Value)
    requires AreTokens(ts, true) && StandsAt(text, i, ValueText(Braced('{', ts))) && Prints(lib, key, value, name, v)
    ensures var r := RangeOfObject(i, ts);
            && IsObjectRange(text, r)
            && var put := NewTokens(ts, name, v, Indent(text, LineStart(text, i)));
            && AreTokens(ts + put, true)
            && WithProperty(lib, text, r, key, value) == Spliced(text, r.end, TokensText(put))
            && StandsAt(WithProperty(lib, text, r, key, value), i, ValueText(Braced('{', ts + put)))
  {
    WithPropertyIs(lib, text, i, ts, key, value, name, v);
    var indent := Indent(text, LineStart(text, i));
    var put := NewTokens(ts, name, v, indent);
    IndentIsIndent(text, LineStart(text, i));
    NewIsProper(lib, ts, key, value, name, v, indent);
    PutStands(text, i, ts, put);
  }

  /** Tokens put in before the closing brace stand there behind the others. */
  lemma PutStands(text: string, i: nat, ts: seq<Token>, put: seq<Token>)
    requires StandsAt(text, i, ValueText(Braced('{', ts)))
    ensures RangeOfObject(i, ts).end <= |text|
    ensures StandsAt(Spliced(text, RangeOfObject(i, ts).end, TokensText(put)), i, ValueText(Braced('{', ts + put)))
  {
    TokensConcat(ts, put);
    StandsSpliced(text, i, TokensText(ts), TokensText(put));
  }

  lemma {:induction false} BlanksOpen(s: string, open: bool)
    ensures IsOpen(Blanks(s), open) == open && IsList(Blanks(s), open)
  {
    if s != "" {
      BlanksOpen(s[1..], open);
    }
  }

  lemma OneOpen(t: Token, open: bool)
    requires t.Property?
    ensures IsOpen([t], open) && (IsList([t], open) <==> !open)
  {
    assert [t][1..] == [];
  }

  lemma PropertyOpens(name: Name, v: KeyLookupLaws.Value, front: string, back: string, open: bool)
    ensures var put := PropertyTokens(name, v, front, back); IsOpen(put, open) && (IsList(put, open) <==> !open)
  {
    var entry := Entry(name, v, back);
    BlanksOpen(front, open);
    BlanksOpen(back, true);
    OneOpen(entry[0], open);
    if !v.Bare? {
      ListConcat([entry[0]], Blanks(back), open);
    }
    ListConcat(Blanks(front), entry, open);
  }

  /** The new property stands behind just one comma exactly when a comma is put where one was missing. */
  lemma ListStaysIff(ts: seq<Token>, name: Name, v: KeyLookupLaws.Value, indent: string)
    ensures var after := ts + NewTokens(ts, name, v, indent);
            && IsOpen(after, false)
            && (IsList(after, false) <==> IsList(ts, false) && (IsOpen(ts, false) <==> PutsComma(ts)))
  {
    var put := PropertyTokens(name, MovedValue(v, indent + "    "), "\n" + indent + "    ", "\n" + indent);
    var open := IsOpen(ts, false);
    ListConcat(ts, NewTokens(ts, name, v, indent), false);
    PropertyOpens(name, MovedValue(v, indent + "    "), "\n" + indent + "    ", "\n" + indent, open);
    if PutsComma(ts) {
      PropertyOpens(name, MovedValue(v, indent + "    "), "\n" + indent + "    ", "\n" + indent, false);
      assert [Comma][1..] == [];
      ListConcat([Comma], put, open);
    } else {
      assert [] + put == put;
    }
  }

  /** A comment stands behind the last entry. */
  predicate EndsInNote(ts: seq<Token>)
  {
    ts != [] && var t := ts[|ts| - 1]; t.Gap? && (if t.piece.Plain? then EndsInNote(ts[..|ts| - 1]) else true)
  }

  /** Without one, the comma is put just where one is missing. */
  lemma {:induction false} ClearEnd(ts: seq<Token>)
    requires !EndsInNote(ts)
    ensures IsOpen(ts, false) <==> PutsComma(ts)
    decreases |ts|
  {
    if ts != [] {
      var n := |ts| - 1;
      assert ts == ts[..n] + [ts[n]] && [ts[n]][1..] == [];
      ListConcat(ts[..n], [ts[n]], false);
      if ts[n].Gap? {
        ClearEnd(ts[..n]);
        CodeBefore(ts);
      } else {
        assert !ts[n].Gap?;
      }
    }
  }

  lemma CodeBefore(ts: seq<Token>)
    requires ts != [] && ts[|ts| - 1].Gap?
    ensures HasCode(ts) <==> HasCode(ts[..|ts| - 1])
  {
    var n := |ts| - 1;
    if k :| 0 <= k < |ts| && !ts[k].Gap? {
      assert !ts[..n][k].Gap?;
    }
    if k :| 0 <= k < n && !ts[..n][k].Gap? {
      assert !ts[k].Gap?;
    }
  }

  /** A comment behind the last comma: a second comma is put, and the patched text is not JSON5. */
  lemma NoteMisleads(name: Name, first: KeyLookupLaws.Value, v: KeyLookupLaws.Value, indent: string)
    ensures var ts := [Spaced(name, first), Comma, Gap(LineNote("note"))];
            IsList(ts, false) && !IsList(ts + NewTokens(ts, name, v, indent), false)
  {
    var note := Gap(LineNote("note"));
    var ts := [Spaced(name, first), Comma, note];
    assert ts[1..] == [Comma, note] && [Comma, note][1..] == [note] && [note][1..] == [];
    assert note.Gap? && !IsOpen([], false) && IsOpen([note], false) == IsOpen([note][1..], false);
    assert IsList([note], false) && !IsOpen([note], false);
    assert IsList([Comma, note], true) && !IsOpen([Comma, note], true);
    assert IsList(ts, false) && !IsOpen(ts, false);
    assert "note"[3] == 'e' && LastSolid("note") == Some('e') && ts[2] == note && !LooksClosed(ts);
    assert !ts[0].Gap?;
    ListStaysIff(ts, name, v, indent);
  }

  /** The names of all the properties can be read. */
  predicate AllNamed(parseKey: KeyParser, ts: seq<Token>)
  {
    ts == [] || ((ts[0].Property? ==> NameOf(parseKey, ts[0]).Some?) && AllNamed(parseKey, ts[1..]))
  }

  /** What is found in the first part stays where it was; behind it one looks on in the second. */
  lemma {:induction false} FirstNamedConcat(parseKey: KeyParser, a: seq<Token>, b: seq<Token>, i: nat, key: string)
    ensures FirstNamed(parseKey, a + b, i, key)
            == if FirstNamed(parseKey, a, i, key).Some? || !AllNamed(parseKey, a) then FirstNamed(parseKey, a, i, key)
               else FirstNamed(parseKey, b, i + |TokensText(a)|, key)
    decreases |a|
  {
    if a == [] {
      assert a + b == b;
    } else {
      assert (a + b)[1..] == a[1..] + b && (a + b)[0] == a[0];
      FirstNamedConcat(parseKey, a[1..], b, i + |TokenText(a[0])|, key);
    }
  }

  lemma {:induction false} BlanksNamed(parseKey: KeyParser, s: string, i: nat, key: string)
    ensures AllNamed(parseKey, Blanks(s)) && FirstNamed(parseKey, Blanks(s), i, key) == None
  {
    if s != "" {
      BlanksNamed(parseKey, s[1..], i + 1, key);
      assert Written(Plain(s[0]), '{', '}') == [s[0]];
    }
  }

  /** The new property's value: as printed, but that a bare word takes the white space behind it. */
  function NewValue(v: KeyLookupLaws.Value, indent: string): KeyLookupLaws.Value
  {
    var moved := MovedValue(v, indent + "    ");
    if moved.Bare? then Bare(moved.word + ("\n" + indent)) else moved
  }

  lemma EntryNamed(parseKey: KeyParser, name: Name, v: KeyLookupLaws.Value, back: string, i: nat, key: string)
    requires name.InQuotes? && parseKey(NameText(name)).Some?
    ensures FirstNamed(parseKey, Entry(name, v, back), i, key)
            == if parseKey(NameText(name)).value == key
               then Some((i + |NameText(name)| + 2, if v.Bare? then Bare(v.word + back) else v)) else None
  {
    var entry := Entry(name, v, back);
    var first := entry[0];
    assert Written(Plain(' '), '{', '}') == [' '] && [Plain(' ')][1..] == [] && GapText([]) == "";
    assert |KeyText(first)| == |NameText(name)| + 2;
    if v.Bare? {
      assert entry[1..] == [];
    } else {
      assert entry[1..] == Blanks(back);
      BlanksNamed(parseKey, back, i + |TokenText(first)|, key);
    }
  }

  lemma NewNamed(parseKey: KeyParser, ts: seq<Token>, name: Name, v: KeyLookupLaws.Value, indent: string, i: nat,
                 key: string)
    requires name.InQuotes? && parseKey(NameText(name)).Some? && IsIndent(indent)
    ensures FirstNamed(parseKey, NewTokens(ts, name, v, indent), i, key)
            == if parseKey(NameText(name)).value == key
               then Some((i + (if PutsComma(ts) then 1 else 0) + |"\n" + indent + "    "| + |NameText(name)| + 2,
                          NewValue(v, indent)))
               else None
  {
    var moved, front, back := MovedValue(v, indent + "    "), "\n" + indent + "    ", "\n" + indent;
    var at := i + if PutsComma(ts) then 1 else 0;
    BlanksNamed(parseKey, front, at, key);
    BlanksAreTokens(front, true);
    EntryNamed(parseKey, name, moved, back, at + |front|, key);
    FirstNamedConcat(parseKey, Blanks(front), Entry(name, moved, back), at, key);
    var put := PropertyTokens(name, moved, front, back);
    if PutsComma(ts) {
      assert ([Comma] + put)[1..] == put && TokenText(Comma) == [','];
    } else {
      assert [] + put == put;
    }
  }

  /**
   * Lookups after an insertion. Every property found before is found where it was, with the value it had; the new
   * one is found under its key, where the object had none and no key that cannot be read.
   */
  lemma LookupsAfter(parseKey: KeyParser, ts: seq<Token>, name: Name, v: KeyLookupLaws.Value, indent: string, i: nat,
                     key: string)
    requires name.InQuotes? && parseKey(NameText(name)).Some? && IsIndent(indent)
    ensures var before, after := FirstNamed(parseKey, ts, i, key),
                                 FirstNamed(parseKey, ts + NewTokens(ts, name, v, indent), i, key);
            && (before.Some? ==> after == before)
            && (before.None? && after.Some? ==> parseKey(NameText(name)).value == key && AllNamed(parseKey, ts))
            && (before.None? && parseKey(NameText(name)).value == key && AllNamed(parseKey, ts) ==>
                  after.Some? && after.value.0 >= i + |TokensText(ts)| && after.value.1 == NewValue(v, indent))
  {
    FirstNamedConcat(parseKey, ts, NewTokens(ts, name, v, indent), i, key);
    NewNamed(parseKey, ts, name, v, indent, i + |TokensText(ts)|, key);
  }

  /**
   * So in the new text the lookup finds each property where it was, and the new one behind them; there stands the
   * value as it was printed.
   */
  lemma InsertedIsFound(lib: Json5, text: string, i: nat, ts: seq<Token>, key: string, value: JsonTrees.Json,
                        name: Name, v: KeyLookupLaws.Value, k: string)
    requires AreTokens(ts, true) && StandsAt(text, i, ValueText(Braced('{', ts))) && Prints(lib, key, value, name, v)
    ensures IsObjectRange(text, RangeOfObject(i, ts))
    ensures var indent := Indent(text, LineStart(text, i));
            var out, end := WithProperty(lib, text, RangeOfObject(i, ts), key, value),
                            RangeOfObject(i, ts + NewTokens(ts, name, v, indent)).end;
            && IsAt(out, end, '}')
            && var before, after := FirstNamed(lib.parseKey, ts, i + 1, k),
                                    ValueStart(lib.parseKey, out, i + 1, end, k);
            && (before.Some? ==> after == Some(before.value.0))
            && (before.None? ==> (after.Some? <==> k == key && AllNamed(lib.parseKey, ts)))
            && (before.None? && after.Some? ==> StandsAt(out, after.value, ValueText(NewValue(v, indent))))
  {
    InsertedIsWritten(lib, text, i, ts, key, value, name, v);
    IndentIsIndent(text, LineStart(text, i));
    FoundAfter(lib.parseKey, WithProperty(lib, text, RangeOfObject(i, ts), key, value), i, ts, key, name, v,
               Indent(text, LineStart(text, i)), k);
  }

  lemma FoundAfter(parseKey: KeyParser, out: string, i: nat, ts: seq<Token>, key: string, name: Name,
                   v: KeyLookupLaws.Value, indent: string, k: string)
    requires name.InQuotes? && parseKey(NameText(name)) == Some(key) && IsIndent(indent)
    requires var after := ts + NewTokens(ts, name, v, indent);
             AreTokens(after, true) && StandsAt(out, i, ValueText(Braced('{', after)))
    ensures var end := RangeOfObject(i, ts + NewTokens(ts, name, v, indent)).end;
            && IsAt(out, end, '}')
            && var before, after := FirstNamed(parseKey, ts, i + 1, k), ValueStart(parseKey, out, i + 1, end, k);
            && (before.Some? ==> after == Some(before.value.0))
            && (before.None? ==> (after.Some? <==> k == key && AllNamed(parseKey, ts)))
            && (before.None? && after.Some? ==> StandsAt(out, after.value, ValueText(NewValue(v, indent))))
  {
    KeyLeads(parseKey, out, i, ts + NewTokens(ts, name, v, indent), k);
    LookupsAfter(parseKey, ts, name, v, indent, i + 1, k);
  }
}
