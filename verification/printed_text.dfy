/** What the library prints, and how it is moved in to where it is put. */
module PrintedText {
  import opened Options
  import opened TextScanning
  import opened ScanningLaws
  import opened KeyLookup
  import opened KeyLookupLaws
  import opened SurgicalWrite

  predicate IsIndent(s: string)
  {
    forall k :: 0 <= k < |s| ==> s[k] == ' ' || s[k] == '\t'
  }

  predicate OneLine(s: string)
  {
    forall k :: 0 <= k < |s| ==> s[k] != '\n'
  }

  function BlankPieces(s: string): seq<Piece>
  {
    if s == "" then [] else [Plain(s[0])] + BlankPieces(s[1..])
  }

  function Blanks(s: string): seq<Token>
  {
    if s == "" then [] else [Gap(Plain(s[0]))] + Blanks(s[1..])
  }

  lemma {:induction false} GapsConcat(a: seq<Piece>, b: seq<Piece>)
    ensures GapText(a + b) == GapText(a) + GapText(b)
    ensures AllGaps(a + b) <==> AllGaps(a) && AllGaps(b)
    decreases |a|
  {
    if a == [] {
      assert a + b == b;
    } else {
      assert (a + b)[1..] == a[1..] + b;
      GapsConcat(a[1..], b);
    }
  }

  lemma {:induction false} TokensConcat(a: seq<Token>, b: seq<Token>)
    ensures TokensText(a + b) == TokensText(a) + TokensText(b)
    decreases |a|
  {
    if a == [] {
      assert a + b == b;
    } else {
      assert (a + b)[1..] == a[1..] + b;
      TokensConcat(a[1..], b);
    }
  }

  /** A property with a bare word for its value: a comma must follow, if anything does. */
  predicate EndsBare(ts: seq<Token>)
  {
    ts != [] && ts[|ts| - 1].Property? && ts[|ts| - 1].value.Bare?
  }

  lemma {:induction false} AreTokensConcat(a: seq<Token>, b: seq<Token>, inObject: bool)
    requires AreTokens(a, inObject) && AreTokens(b, inObject)
    requires EndsBare(a) && b != [] ==> b[0].Comma?
    ensures AreTokens(a + b, inObject)
    decreases |a|
  {
    if a == [] {
      assert a + b == b;
    } else {
      assert (a + b)[1..] == a[1..] + b;
      AreTokensConcat(a[1..], b, inObject);
    }
  }

  lemma {:induction false} BlankPiecesAreGaps(s: string)
    requires forall k :: 0 <= k < |s| ==> IsBlank(s[k])
    ensures AllGaps(BlankPieces(s)) && GapText(BlankPieces(s)) == s
  {
    if s != "" {
      BlankPiecesAreGaps(s[1..]);
      assert Written(Plain(s[0]), '{', '}') == [s[0]] && s == [s[0]] + s[1..];
    }
  }

  lemma {:induction false} BlanksAreTokens(s: string, inObject: bool)
    requires forall k :: 0 <= k < |s| ==> IsBlank(s[k])
    ensures AreTokens(Blanks(s), inObject) && TokensText(Blanks(s)) == s
  {
    if s != "" {
      BlanksAreTokens(s[1..], inObject);
      assert TokenText(Gap(Plain(s[0]))) == [s[0]] && s == [s[0]] + s[1..];
    }
  }

  /** Each line but the first moved in. */
  function MovedPieces(ps: seq<Piece>, indent: string): seq<Piece>
  {
    if ps == [] then []
    else [ps[0]] + (if ps[0] == Plain('\n') then BlankPieces(indent) else []) + MovedPieces(ps[1..], indent)
  }

  function MovedValue(v: Value, indent: string): Value
    decreases v
  {
    if v.Braced? then Braced(v.bracket, MovedTokens(v.tokens, indent)) else v
  }

  function MovedTokens(ts: seq<Token>, indent: string): (r: seq<Token>)
    ensures ts != [] ==> r != [] && (r[0].Comma? <==> ts[0].Comma?)
    decreases ts
  {
    if ts == [] then [] else MovedToken(ts[0], indent) + MovedTokens(ts[1..], indent)
  }

  function MovedToken(t: Token, indent: string): (ts: seq<Token>)
    ensures ts != [] && (ts[0].Comma? <==> t.Comma?)
    decreases t
  {
    match t
    case Gap(p) => [Gap(p)] + if p == Plain('\n') then Blanks(indent) else []
    case Comma => [Comma]
    case Item(value) => [Item(MovedValue(value, indent))]
    case Property(name, afterKey, beforeValue, value) =>
      [Property(name, MovedPieces(afterKey, indent), MovedPieces(beforeValue, indent), MovedValue(value, indent))]
  }

  predicate AllPlain(ps: seq<Piece>)
  {
    ps == [] || (ps[0].Plain? && AllPlain(ps[1..]))
  }

  /** No comments, and new lines only between tokens. */
  predicate IsPrinted(v: Value)
  {
    match v
    case Braced(bracket, tokens) => bracket != '\n' && ArePrinted(tokens)
    case Text(_, raw) => OneLine(ValueText(v))
    case Bare(word) => OneLine(word)
  }

  predicate ArePrinted(ts: seq<Token>)
  {
    ts == [] || (IsPrintedToken(ts[0]) && ArePrinted(ts[1..]))
  }

  predicate IsPrintedToken(t: Token)
  {
    match t
    case Gap(p) => p.Plain?
    case Comma => true
    case Item(value) => IsPrinted(value)
    case Property(name, afterKey, beforeValue, value) =>
      OneLine(NameText(name)) && AllPlain(afterKey) && AllPlain(beforeValue) && IsPrinted(value)
  }

  lemma {:induction false} ReindentedConcat(a: string, b: string, indent: string)
    ensures Reindented(a + b, indent) == Reindented(a, indent) + Reindented(b, indent)
    decreases |a|
  {
    if a == "" {
      assert a + b == b;
    } else {
      assert (a + b)[1..] == a[1..] + b;
      ReindentedConcat(a[1..], b, indent);
    }
  }

  lemma {:induction false} ReindentedLine(s: string, indent: string)
    requires OneLine(s)
    ensures Reindented(s, indent) == s
  {
    if s != "" {
      ReindentedLine(s[1..], indent);
      assert s == [s[0]] + s[1..];
    }
  }

  lemma ReindentedChar(c: char, indent: string)
    ensures Reindented([c], indent) == [c] + if c == '\n' then indent else ""
  {
    assert [c][1..] == "";
  }

  lemma MovedGap(c: char, rest: seq<Piece>, indent: string)
    requires IsIndent(indent)
    ensures var here := if c == '\n' then BlankPieces(indent) else [];
            && GapText([Plain(c)] + here + rest) == Reindented([c], indent) + GapText(rest)
            && (IsBlank(c) && AllGaps(rest) ==> AllGaps([Plain(c)] + here + rest))
  {
    var here := if c == '\n' then BlankPieces(indent) else [];
    BlankPiecesAreGaps(indent);
    ReindentedChar(c, indent);
    var all := [Plain(c)] + (here + rest);
    assert [Plain(c)] + here + rest == all && all[0] == Plain(c) && all[1..] == here + rest;
    GapsConcat(here, rest);
    assert Written(Plain(c), '{', '}') == [c];
    assert GapText(all) == [c] + (GapText(here) + GapText(rest));
    if c != '\n' {
      assert GapText(here) == "";
    }
  }

  lemma {:induction false} MovedGaps(ps: seq<Piece>, indent: string)
    requires AllPlain(ps) && IsIndent(indent)
    ensures GapText(MovedPieces(ps, indent)) == Reindented(GapText(ps), indent)
    ensures AllGaps(ps) ==> AllGaps(MovedPieces(ps, indent))
    decreases |ps|
  {
    if ps != [] {
      MovedGaps(ps[1..], indent);
      ReindentedConcat([ps[0].c], GapText(ps[1..]), indent);
      MovedGap(ps[0].c, MovedPieces(ps[1..], indent), indent);
      assert ps[0] == Plain(ps[0].c) && Written(ps[0], '{', '}') == [ps[0].c];
    }
  }

  lemma {:induction false} MovedValueText(v: Value, indent: string)
    requires IsPrinted(v) && IsIndent(indent)
    ensures ValueText(MovedValue(v, indent)) == Reindented(ValueText(v), indent)
    decreases v
  {
    match v {
      case Braced(bracket, tokens) =>
        var inner := TokensText(tokens);
        MovedTokensText(tokens, indent);
        ReindentedConcat([bracket], inner + [ClosingOf(bracket)], indent);
        ReindentedConcat(inner, [ClosingOf(bracket)], indent);
        ReindentedChar(bracket, indent);
        ReindentedChar(ClosingOf(bracket), indent);
      case Text(_, _) => ReindentedLine(ValueText(v), indent);
      case Bare(word) => ReindentedLine(word, indent);
    }
  }

  lemma {:induction false} MovedTokensText(ts: seq<Token>, indent: string)
    requires ArePrinted(ts) && IsIndent(indent)
    ensures TokensText(MovedTokens(ts, indent)) == Reindented(TokensText(ts), indent)
    decreases ts
  {
    if ts != [] {
      MovedTokenText(ts[0], indent);
      MovedTokensText(ts[1..], indent);
      TokensConcat(MovedToken(ts[0], indent), MovedTokens(ts[1..], indent));
      ReindentedConcat(TokenText(ts[0]), TokensText(ts[1..]), indent);
    }
  }

  lemma {:induction false} MovedTokenText(t: Token, indent: string)
    requires IsPrintedToken(t) && IsIndent(indent)
    ensures TokensText(MovedToken(t, indent)) == Reindented(TokenText(t), indent)
    decreases t
  {
    match t {
      case Gap(p) =>
        ReindentedChar(p.c, indent);
        BlanksAreTokens(indent, true);
        var blanks := if p.c == '\n' then Blanks(indent) else [];
        TokensConcat([Gap(p)], blanks);
        OneToken(Gap(p));
      case Comma =>
        OneToken(Comma);
        ReindentedChar(',', indent);
      case Item(value) =>
        OneToken(Item(MovedValue(value, indent)));
        MovedValueText(value, indent);
      case Property(name, afterKey, beforeValue, value) =>
        var a, b := MovedPieces(afterKey, indent), MovedPieces(beforeValue, indent);
        OneToken(Property(name, a, b, MovedValue(value, indent)));
        MovedValueText(value, indent);
        MovedKeyText(name, afterKey, beforeValue, indent);
        ReindentedConcat(KeyText(t), ValueText(value), indent);
    }
  }

  lemma OneToken(t: Token)
    ensures TokensText([t]) == TokenText(t)
  {
    assert [t][1..] == [] && TokensText([]) == "";
  }

  lemma ReindentedKey(x: string, y: string, z: string, indent: string)
    requires OneLine(x)
    ensures Reindented(x + (y + ([':'] + z)), indent) == x + (Reindented(y, indent) + ([':'] + Reindented(z, indent)))
  {
    ReindentedLine(x, indent);
    ReindentedChar(':', indent);
    ReindentedConcat(x, y + ([':'] + z), indent);
    ReindentedConcat(y, [':'] + z, indent);
    ReindentedConcat([':'], z, indent);
  }

  lemma MovedKeyText(name: Name, afterKey: seq<Piece>, beforeValue: seq<Piece>, indent: string)
    requires OneLine(NameText(name)) && AllPlain(afterKey) && AllPlain(beforeValue) && IsIndent(indent)
    ensures var a, b := MovedPieces(afterKey, indent), MovedPieces(beforeValue, indent);
            NameText(name) + (GapText(a) + ([':'] + GapText(b)))
            == Reindented(NameText(name) + (GapText(afterKey) + ([':'] + GapText(beforeValue))), indent)
  {
    MovedGaps(afterKey, indent);
    MovedGaps(beforeValue, indent);
    ReindentedKey(NameText(name), GapText(afterKey), GapText(beforeValue), indent);
  }

  /** A printed value that is moved in is still a value. */
  lemma {:induction false} MovedIsValue(v: Value, indent: string)
    requires IsValue(v) && IsPrinted(v) && IsIndent(indent)
    ensures IsValue(MovedValue(v, indent))
    decreases v
  {
    if v.Braced? {
      MovedAreTokens(v.tokens, v.bracket == '{', indent);
    }
  }

  lemma {:induction false} MovedAreTokens(ts: seq<Token>, inObject: bool, indent: string)
    requires AreTokens(ts, inObject) && ArePrinted(ts) && IsIndent(indent)
    ensures AreTokens(MovedTokens(ts, indent), inObject)
    decreases ts
  {
    if ts != [] {
      var here, rest := MovedToken(ts[0], indent), MovedTokens(ts[1..], indent);
      MovedIsToken(ts[0], inObject, indent);
      MovedAreTokens(ts[1..], inObject, indent);
      assert |ts| > 1 ==> ts[1..] != [] && ts[1..][0] == ts[1];
      AreTokensConcat(here, rest, inObject);
    }
  }

  lemma {:induction false} MovedIsToken(t: Token, inObject: bool, indent: string)
    requires IsToken(t, inObject) && IsPrintedToken(t) && IsIndent(indent)
    ensures AreTokens(MovedToken(t, indent), inObject)
    ensures EndsBare(MovedToken(t, indent)) <==> t.Property? && t.value.Bare?
    decreases t
  {
    match t {
      case Gap(p) =>
        BlanksAreTokens(indent, inObject);
        var blanks := if p.c == '\n' then Blanks(indent) else [];
        AreTokensConcat([Gap(p)], blanks, inObject);
        BlanksEnd(indent);
      case Comma =>
        OneIsTokens(Comma, inObject);
      case Item(value) =>
        MovedIsValue(value, indent);
        OneIsTokens(Item(MovedValue(value, indent)), inObject);
      case Property(name, afterKey, beforeValue, value) =>
        MovedIsValue(value, indent);
        MovedGaps(afterKey, indent);
        MovedGaps(beforeValue, indent);
        OneIsTokens(MovedToken(t, indent)[0], inObject);
    }
  }

  lemma OneIsTokens(t: Token, inObject: bool)
    requires IsToken(t, inObject)
    ensures AreTokens([t], inObject)
  {
    assert [t][1..] == [];
  }

  lemma {:induction false} BlanksEnd(s: string)
    ensures !EndsBare(Blanks(s)) && |Blanks(s)| == |s|
    ensures forall k :: 0 <= k < |s| ==> Blanks(s)[k] == Gap(Plain(s[k]))
  {
    if s != "" {
      BlanksEnd(s[1..]);
    }
  }
}
