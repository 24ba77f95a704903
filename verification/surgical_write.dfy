/** Finding one's way in JSON5 text: white space, comments, strings and matching braces. */
module TextScanning {
  import opened Options

  predicate IsAt(text: string, i: int, c: char)
  {
    0 <= i < |text| && text[i] == c
  }

  predicate IsBlank(c: char)
  {
    c == ' ' || c == '\t' || c == '\n' || c == '\r'
  }

  predicate StartsLineComment(text: string, i: int)
  {
    IsAt(text, i, '/') && IsAt(text, i + 1, '/')
  }

  predicate StartsBlockComment(text: string, i: int)
  {
    IsAt(text, i, '/') && IsAt(text, i + 1, '*')
  }

  predicate EndsBlockComment(text: string, i: int)
  {
    IsAt(text, i, '*') && IsAt(text, i + 1, '/')
  }

  predicate IsQuote(text: string, i: int)
  {
    IsAt(text, i, '"') || IsAt(text, i, '\'')
  }

  /** The first line end from `i` on, or the end of the text. */
  function LineEnd(text: string, i: nat): (e: nat)
    requires i <= |text|
    ensures i <= e <= |text|
    decreases |text| - i
  {
    if i == |text| || text[i] == '\n' then i else LineEnd(text, i + 1)
  }

  /** Behind the first comment end from `i` on, or the end of the text. */
  function BlockEnd(text: string, i: nat): (e: nat)
    requires i <= |text|
    ensures i <= e <= |text|
    decreases |text| - i
  {
    if i == |text| then i else if EndsBlockComment(text, i) then i + 2 else BlockEnd(text, i + 1)
  }

  /** Behind the first unescaped quote from `i` on, or the end of the text. */
  function QuoteEnd(text: string, quote: char, i: nat): (e: nat)
    ensures e <= |text| && (i < |text| ==> i < e)
    decreases |text| - i
  {
    if i >= |text| then |text|
    else if text[i] == '\\' then QuoteEnd(text, quote, i + 2)
    else if text[i] == quote then i + 1
    else QuoteEnd(text, quote, i + 1)
  }

  /** Behind all white space and comments from `i` on. */
  function Skipped(text: string, i: nat): (e: nat)
    requires i <= |text|
    ensures i <= e <= |text|
    decreases |text| - i
  {
    if i == |text| then i
    else if IsBlank(text[i]) then Skipped(text, i + 1)
    else if StartsLineComment(text, i) then Skipped(text, LineEnd(text, i + 2))
    else if StartsBlockComment(text, i) then Skipped(text, BlockEnd(text, i + 2))
    else i
  }

  method SkipWsAndComments(text: string, start: nat) returns (i: nat)
    requires start <= |text|
    ensures i == Skipped(text, start)
    ensures i < |text| ==> !IsBlank(text[i]) && !StartsLineComment(text, i) && !StartsBlockComment(text, i)
  {
    i := start;
    while i < |text|
      invariant start <= i <= |text| && Skipped(text, start) == Skipped(text, i)
    {
      if IsBlank(text[i]) {
        i := i + 1;
      } else if StartsLineComment(text, i) {
        i := SkipToLineEnd(text, i + 2);
      } else if StartsBlockComment(text, i) {
        i := SkipToBlockEnd(text, i + 2);
      } else {
        break;
      }
    }
  }

  method SkipToLineEnd(text: string, start: nat) returns (i: nat)
    requires start <= |text|
    ensures i == LineEnd(text, start)
    ensures (forall k :: start <= k < i ==> text[k] != '\n') && (i < |text| ==> text[i] == '\n')
  {
    i := start;
    while i < |text| && text[i] != '\n'
      invariant start <= i <= |text| && LineEnd(text, start) == LineEnd(text, i)
      invariant forall k :: start <= k < i ==> text[k] != '\n'
    {
      i := i + 1;
    }
  }

  method SkipToBlockEnd(text: string, start: nat) returns (i: nat)
    requires start <= |text|
    ensures i == BlockEnd(text, start)
  {
    i := start;
    while i < |text| && !EndsBlockComment(text, i)
      invariant start <= i <= |text| && BlockEnd(text, start) == BlockEnd(text, i)
    {
      i := i + 1;
    }
    i := if i + 2 < |text| then i + 2 else |text|;
  }

  /** `matchString`: from an opening quote to behind the closing one. */
  method MatchString(text: string, start: nat) returns (r: nat)
    requires start <= |text|
    ensures r == if IsQuote(text, start) then QuoteEnd(text, text[start], start + 1) else start
  {
    if !IsQuote(text, start) {
      return start;
    }
    var quote, i := text[start], start + 1;
    while i < |text|
      invariant start < i && QuoteEnd(text, quote, start + 1) == QuoteEnd(text, quote, i)
    {
      if text[i] == '\\' {
        i := i + 2;
        continue;
      }
      if text[i] == quote {
        return i + 1;
      }
      i := i + 1;
    }
    return |text|;
  }

  /** Where the bracket opened `depth` levels ago is closed; brackets in strings and comments do not count. */
  function Matching(text: string, open: char, close: char, i: nat, depth: int): Option<nat>
    requires i <= |text|
    decreases |text| - i
  {
    if i == |text| then None
    else if IsQuote(text, i) then Matching(text, open, close, QuoteEnd(text, text[i], i + 1), depth)
    else if StartsLineComment(text, i) then Matching(text, open, close, LineEnd(text, i + 2), depth)
    else if StartsBlockComment(text, i) then Matching(text, open, close, BlockEnd(text, i + 2), depth)
    else if text[i] == open then Matching(text, open, close, i + 1, depth + 1)
    else if text[i] == close then (if depth == 1 then Some(i) else Matching(text, open, close, i + 1, depth - 1))
    else Matching(text, open, close, i + 1, depth)
  }

  lemma {:induction false} MatchingIsClose(text: string, open: char, close: char, i: nat, depth: int)
    requires i <= |text|
    ensures var m := Matching(text, open, close, i, depth); m.Some? ==> i <= m.value < |text| && text[m.value] == close
    decreases |text| - i
  {
    if i < |text| {
      if IsQuote(text, i) {
        MatchingIsClose(text, open, close, QuoteEnd(text, text[i], i + 1), depth);
      } else if StartsLineComment(text, i) {
        MatchingIsClose(text, open, close, LineEnd(text, i + 2), depth);
      } else if StartsBlockComment(text, i) {
        MatchingIsClose(text, open, close, BlockEnd(text, i + 2), depth);
      } else {
        MatchingIsClose(text, open, close, i + 1, if text[i] == open then depth + 1 else depth);
        MatchingIsClose(text, open, close, i + 1, depth - 1);
      }
    }
  }

  predicate IsBracket(c: char)
  {
    c == '{' || c == '}' || c == '[' || c == ']'
  }

  function ClosingOf(open: char): char
  {
    if open == '{' then '}' else ']'
  }

  /** Skipping white space and comments does not pass any bracket. */
  lemma {:induction false} SkippingKeepsMatch(text: string, open: char, close: char, i: nat, depth: int)
    requires i <= |text| && IsBracket(open) && IsBracket(close)
    ensures Matching(text, open, close, Skipped(text, i), depth) == Matching(text, open, close, i, depth)
    decreases |text| - i
  {
    if i < |text| {
      if IsBlank(text[i]) {
        SkippingKeepsMatch(text, open, close, i + 1, depth);
      } else if StartsLineComment(text, i) {
        SkippingKeepsMatch(text, open, close, LineEnd(text, i + 2), depth);
      } else if StartsBlockComment(text, i) {
        SkippingKeepsMatch(text, open, close, BlockEnd(text, i + 2), depth);
      }
    }
  }

  /** `findMatching`: the bracket that closes the one at `openIdx`; none is the source's -1. */
  method FindMatching(text: string, openIdx: nat) returns (r: Option<nat>)
    requires openIdx < |text|
    ensures text[openIdx] == '{' || text[openIdx] == '[' ==>
              r == Matching(text, text[openIdx], ClosingOf(text[openIdx]), openIdx, 0)
              && (r.Some? ==> openIdx < r.value < |text| && text[r.value] == ClosingOf(text[openIdx]))
    ensures text[openIdx] != '{' && text[openIdx] != '[' ==> r.None?
  {
    var open := text[openIdx];
    if open != '{' && open != '[' {
      return None;
    }
    var close, depth, i := ClosingOf(open), 0, openIdx;
    MatchingIsClose(text, open, close, openIdx, 0);
    while i < |text|
      invariant openIdx <= i <= |text|
      invariant Matching(text, open, close, openIdx, 0) == Matching(text, open, close, i, depth)
    {
      if IsQuote(text, i) {
        i := MatchString(text, i);
      } else if StartsLineComment(text, i) || StartsBlockComment(text, i) {
        SkippingKeepsMatch(text, open, close, i, depth);
        i := SkipWsAndComments(text, i);
      } else {
        if text[i] == open {
          depth := depth + 1;
        } else if text[i] == close {
          depth := depth - 1;
          if depth == 0 {
            return Some(i);
          }
        }
        i := i + 1;
      }
    }
    return None;
  }
}

/** What the scanners find in well-formed text. */
module ScanningLaws {
  import opened Options
  import opened TextScanning

  /** The body of a string as it is written between quotes. */
  function Escaped(body: string, quote: char): string
  {
    if body == "" then ""
    else (if body[0] == '\\' || body[0] == quote then ['\\', body[0]] else [body[0]]) + Escaped(body[1..], quote)
  }

  /** The string stands in the text at this place. */
  ghost predicate StandsAt(text: string, i: nat, s: string)
  {
    i + |s| <= |text| && forall k :: 0 <= k < |s| ==> text[i + k] == s[k]
  }

  lemma StandsSplit(text: string, i: nat, a: string, b: string)
    requires StandsAt(text, i, a + b)
    ensures StandsAt(text, i, a) && StandsAt(text, i + |a|, b)
  {
    var s := a + b;
    forall k | 0 <= k < |a| ensures text[i + k] == a[k] {
      assert s[k] == a[k];
    }
    forall k | 0 <= k < |b| ensures text[i + |a| + k] == b[k] {
      assert s[|a| + k] == b[k];
    }
  }

  lemma StandsChar(text: string, i: nat, c: char)
    requires StandsAt(text, i, [c])
    ensures i < |text| && text[i] == c
  {
    assert [c][0] == c;
  }

  /** What may stand between quotes: any text in which each backslash escapes a character, and no quote is bare. */
  predicate IsRaw(raw: string, quote: char)
    decreases |raw|
  {
    if raw == "" then true
    else if raw[0] == '\\' then |raw| > 1 && IsRaw(raw[2..], quote)
    else raw[0] != quote && IsRaw(raw[1..], quote)
  }

  /** The end of a string is its own closing quote, whatever escapes stand before it. */
  lemma {:induction false} RawIsMatched(text: string, quote: char, i: nat, raw: string)
    requires quote != '\\' && IsRaw(raw, quote) && StandsAt(text, i, raw + [quote])
    ensures QuoteEnd(text, quote, i) == i + |raw| + 1
    decreases |raw|
  {
    StandsSplit(text, i, raw, [quote]);
    if raw == "" {
      StandsChar(text, i, quote);
    } else {
      var n := if raw[0] == '\\' then 2 else 1;
      assert raw + [quote] == raw[..n] + (raw[n..] + [quote]);
      StandsSplit(text, i, raw[..n], raw[n..] + [quote]);
      assert text[i + 0] == raw[..n][0];
      RawIsMatched(text, quote, i + n, raw[n..]);
    }
  }

  lemma {:induction false} EscapedIsRaw(body: string, quote: char)
    requires quote != '\\'
    ensures IsRaw(Escaped(body, quote), quote)
    decreases |body|
  {
    if body != "" {
      var first := if body[0] == '\\' || body[0] == quote then ['\\', body[0]] else [body[0]];
      assert Escaped(body, quote)[|first|..] == Escaped(body[1..], quote);
      EscapedIsRaw(body[1..], quote);
    }
  }

  /** However many quotes and backslashes a string holds, its end is found at its own closing quote. */
  lemma EscapedIsMatched(text: string, quote: char, i: nat, body: string)
    requires quote != '\\' && StandsAt(text, i, Escaped(body, quote) + [quote])
    ensures QuoteEnd(text, quote, i) == i + |Escaped(body, quote)| + 1
  {
    EscapedIsRaw(body, quote);
    RawIsMatched(text, quote, i, Escaped(body, quote));
  }

  /** Text between two brackets, as a scanner should see it. */
  datatype Piece =
    | Plain(c: char)
    | Quoted(quote: char, raw: string)
    | LineNote(body: string)
    | BlockNote(body: string)
    | Group(pieces: seq<Piece>)

  function Written(p: Piece, open: char, close: char): string
  {
    match p
    case Plain(c) => [c]
    case Quoted(quote, raw) => [quote] + raw + [quote]
    case LineNote(body) => "//" + body + "\n"
    case BlockNote(body) => "/*" + body + "*/"
    case Group(pieces) => [open] + AllWritten(pieces, open, close) + [close]
  }

  function AllWritten(ps: seq<Piece>, open: char, close: char): string
  {
    if ps == [] then "" else Written(ps[0], open, close) + AllWritten(ps[1..], open, close)
  }

  /** No comment end before the one behind the body, not even one that the body's last star would be part of. */
  predicate IsBlockBody(body: string)
  {
    forall i :: 0 <= i < |body| ==> !(body[i] == '*' && (body + "*/")[i + 1] == '/')
  }

  predicate IsProper(p: Piece, open: char, close: char)
  {
    match p
    case Plain(c) => c != open && c != close && c != '"' && c != '\'' && c != '/'
    case Quoted(quote, raw) => (quote == '"' || quote == '\'') && IsRaw(raw, quote)
    case LineNote(body) => forall i :: 0 <= i < |body| ==> body[i] != '\n'
    case BlockNote(body) => IsBlockBody(body)
    case Group(pieces) => AllProper(pieces, open, close)
  }

  predicate AllProper(ps: seq<Piece>, open: char, close: char)
  {
    ps == [] || (IsProper(ps[0], open, close) && AllProper(ps[1..], open, close))
  }

  lemma {:induction false} LineEndAt(text: string, i: nat, body: string)
    requires StandsAt(text, i, body + "\n") && forall k :: 0 <= k < |body| ==> body[k] != '\n'
    ensures LineEnd(text, i) == i + |body| && text[i + |body|] == '\n'
    decreases |body|
  {
    if body == "" {
      assert (body + "\n")[0] == '\n';
    } else {
      assert body + "\n" == [body[0]] + (body[1..] + "\n");
      StandsSplit(text, i, [body[0]], body[1..] + "\n");
      StandsChar(text, i, body[0]);
      LineEndAt(text, i + 1, body[1..]);
    }
  }

  lemma {:induction false} BlockEndAt(text: string, i: nat, body: string)
    requires StandsAt(text, i, body + "*/") && IsBlockBody(body)
    ensures BlockEnd(text, i) == i + |body| + 2
    decreases |body|
  {
    if body == "" {
      assert ("" + "*/")[0] == '*' && ("" + "*/")[1] == '/';
    } else {
      var rest := body[1..] + "*/";
      assert body + "*/" == [body[0]] + rest;
      StandsSplit(text, i, [body[0]], rest);
      StandsChar(text, i, body[0]);
      assert text[i + 1 + 0] == rest[0] == (body + "*/")[1];
      forall k | 0 <= k < |body[1..]| ensures !(body[1..][k] == '*' && rest[k + 1] == '/') {
        assert body[k + 1] == body[1..][k] && (body + "*/")[k + 2] == rest[k + 1];
      }
      BlockEndAt(text, i + 1, body[1..]);
    }
  }

  ghost predicate AreBrackets(open: char, close: char)
  {
    (open == '{' || open == '[') && close == ClosingOf(open)
  }

  /** A piece inside the brackets is passed at the depth it was met. */
  lemma {:induction false} PieceIsPassed(text: string, i: nat, p: Piece, open: char, close: char, depth: nat)
    requires AreBrackets(open, close) && IsProper(p, open, close) && depth > 0
    requires StandsAt(text, i, Written(p, open, close))
    ensures Matching(text, open, close, i, depth)
            == Matching(text, open, close, i + |Written(p, open, close)|, depth)
    decreases p
  {
    match p {
      case Plain(c) =>
        StandsChar(text, i, c);
      case Quoted(quote, raw) =>
        QuotedIsPassed(text, i, quote, raw, open, close, depth);
      case LineNote(body) =>
        NoteIsPassed(text, i, "//", body, "\n");
        LineEndAt(text, i + 2, body);
      case BlockNote(body) =>
        NoteIsPassed(text, i, "/*", body, "*/");
        BlockEndAt(text, i + 2, body);
      case Group(pieces) =>
        GroupParts(text, i, pieces, open, close);
        PiecesArePassed(text, i + 1, pieces, open, close, depth + 1);
    }
  }

  lemma QuotedIsPassed(text: string, i: nat, quote: char, raw: string, open: char, close: char, depth: nat)
    requires (quote == '"' || quote == '\'') && IsRaw(raw, quote)
    requires StandsAt(text, i, Written(Quoted(quote, raw), open, close))
    ensures Matching(text, open, close, i, depth)
            == Matching(text, open, close, i + |Written(Quoted(quote, raw), open, close)|, depth)
  {
    assert Written(Quoted(quote, raw), open, close) == [quote] + (raw + [quote]);
    StandsSplit(text, i, [quote], raw + [quote]);
    StandsChar(text, i, quote);
    RawIsMatched(text, quote, i + 1, raw);
  }

  lemma NoteIsPassed(text: string, i: nat, start: string, body: string, end: string)
    requires |start| == 2 && StandsAt(text, i, start + body + end)
    ensures IsAt(text, i, start[0]) && IsAt(text, i + 1, start[1]) && StandsAt(text, i + 2, body + end)
  {
    assert start + body + end == start + (body + end);
    StandsSplit(text, i, start, body + end);
    assert text[i + 0] == start[0] && text[i + 1] == start[1];
  }

  lemma GroupParts(text: string, i: nat, ps: seq<Piece>, open: char, close: char)
    requires StandsAt(text, i, Written(Group(ps), open, close))
    ensures IsAt(text, i, open) && StandsAt(text, i + 1, AllWritten(ps, open, close))
    ensures IsAt(text, i + 1 + |AllWritten(ps, open, close)|, close)
  {
    var inner := AllWritten(ps, open, close);
    assert Written(Group(ps), open, close) == [open] + (inner + [close]);
    StandsSplit(text, i, [open], inner + [close]);
    StandsSplit(text, i + 1, inner, [close]);
    StandsChar(text, i, open);
    StandsChar(text, i + 1 + |inner|, close);
  }

  lemma {:induction false} PiecesArePassed(text: string, i: nat, ps: seq<Piece>, open: char, close: char, depth: nat)
    requires AreBrackets(open, close) && AllProper(ps, open, close) && depth > 0
    requires StandsAt(text, i, AllWritten(ps, open, close))
    ensures Matching(text, open, close, i, depth)
            == Matching(text, open, close, i + |AllWritten(ps, open, close)|, depth)
    decreases ps
  {
    if ps != [] {
      StandsSplit(text, i, Written(ps[0], open, close), AllWritten(ps[1..], open, close));
      PieceIsPassed(text, i, ps[0], open, close, depth);
      PiecesArePassed(text, i + |Written(ps[0], open, close)|, ps[1..], open, close, depth);
    }
  }

  /** Whatever is nested between two brackets, in strings, comments or groups, the right one is found. */
  lemma GroupIsMatched(text: string, i: nat, ps: seq<Piece>, open: char, close: char)
    requires AreBrackets(open, close) && AllProper(ps, open, close)
    requires StandsAt(text, i, Written(Group(ps), open, close))
    ensures Matching(text, open, close, i, 0) == Some(i + |Written(Group(ps), open, close)| - 1)
  {
    GroupParts(text, i, ps, open, close);
    PiecesArePassed(text, i + 1, ps, open, close, 1);
  }
}

/** Patching a hand-written JSON5 file key by key, and what becomes of the file. */
module SurgicalWrite {
  import opened Options
  import opened JsonTrees
  import opened Additions
  import opened Patching
  import opened TextScanning
  import opened KeyLookup

  /** The JSON5 library. */
  datatype Json5 = Json5(
    parse: string -> Option<Json>,
    parseKey: KeyParser,
    stringify: Json -> string,
    stringifyKey: string -> string)

  /** `a` survives in `b`: its characters are there in order, at the positions `f`. */
  ghost predicate IsEmbedding(f: seq<nat>, a: string, b: string)
  {
    && |f| == |a|
    && (forall i :: 0 <= i < |f| ==> f[i] < |b| && b[f[i]] == a[i])
    && forall i, j :: 0 <= i < j < |f| ==> f[i] < f[j]
  }

  ghost predicate Survives(a: string, b: string)
  {
    exists f :: IsEmbedding(f, a, b)
  }

  lemma SurvivesItself(a: string)
    ensures Survives(a, a)
  {
    assert IsEmbedding(seq(|a|, i requires 0 <= i < |a| => i), a, a);
  }

  lemma SurvivesBoth(a: string, b: string, c: string)
    requires Survives(a, b) && Survives(b, c)
    ensures Survives(a, c)
  {
    var f :| IsEmbedding(f, a, b);
    var g :| IsEmbedding(g, b, c);
    var h := seq(|a|, i requires 0 <= i < |a| => g[f[i]]);
    assert IsEmbedding(h, a, c);
  }

  /** The text with something put in at one place. */
  function Spliced(text: string, at: nat, insertion: string): string
    requires at <= |text|
  {
    text[..at] + insertion + text[at..]
  }

  lemma InsertionSurvives(text: string, at: nat, insertion: string)
    requires at <= |text|
    ensures Survives(text, Spliced(text, at, insertion))
  {
    var f := seq(|text|, i requires 0 <= i < |text| => if i < at then i else i + |insertion|);
    var b := Spliced(text, at, insertion);
    forall i | 0 <= i < |f| ensures f[i] < |b| && b[f[i]] == text[i] {
    }
    assert IsEmbedding(f, text, b);
  }

  function LineStart(text: string, i: nat): (start: nat)
    requires i <= |text|
    ensures start <= i && (start == 0 || text[start - 1] == '\n') && forall k :: start <= k < i ==> text[k] != '\n'
  {
    if i == 0 || text[i - 1] == '\n' then i else LineStart(text, i - 1)
  }

  /** The blanks and tabs from `i` on. */
  function Indent(text: string, i: nat): string
    decreases |text| - i
  {
    if i < |text| && (text[i] == ' ' || text[i] == '\t') then [text[i]] + Indent(text, i + 1) else ""
  }

  /** `indentOfLine`: the blanks and tabs its line starts with. */
  method IndentOfLine(text: string, index: nat) returns (indent: string)
    requires index < |text|
    ensures indent == Indent(text, LineStart(text, index))
  {
    var lineStart := index;
    while lineStart > 0 && text[lineStart - 1] != '\n'
      invariant 0 <= lineStart <= index && LineStart(text, lineStart) == LineStart(text, index)
    {
      lineStart := lineStart - 1;
    }
    var i := lineStart;
    indent := "";
    while i < |text| && (text[i] == ' ' || text[i] == '\t')
      invariant lineStart <= i <= |text| && indent + Indent(text, i) == Indent(text, lineStart)
    {
      assert indent + Indent(text, i) == indent + [text[i]] + Indent(text, i + 1);
      indent := indent + [text[i]];
      i := i + 1;
    }
  }

  /** Every line but the first, moved in. */
  function Reindented(s: string, indent: string): string
  {
    if s == "" then "" else [s[0]] + (if s[0] == '\n' then indent else "") + Reindented(s[1..], indent)
  }

  /** The last character before the closing brace that is not white space. */
  function LastCode(text: string, from: nat, j: nat): (e: nat)
    requires from <= j < |text|
    ensures from <= e <= j
  {
    if j > from && IsBlank(text[j]) then LastCode(text, from, j - 1) else j
  }

  function PropertyText(lib: Json5, key: string, value: Json, indent: string): string
  {
    "\n" + indent + "    " + lib.stringifyKey(key) + ": "
    + Reindented(lib.stringify(value), indent + "    ") + "\n" + indent
  }

  /** A comma is needed behind the last of some entries, unless there is one. */
  function CommaFor(text: string, r: Range): string
    requires IsObjectRange(text, r)
  {
    if Skipped(text, r.start + 1) < r.end && text[LastCode(text, r.start, r.end - 1)] != ',' then "," else ""
  }

  /** One property more, put in just before the closing brace of an object, and indented as its line is. */
  function WithProperty(lib: Json5, text: string, r: Range, key: string, value: Json): string
    requires IsObjectRange(text, r)
  {
    var indent := Indent(text, LineStart(text, r.start));
    Spliced(text, r.end, CommaFor(text, r) + PropertyText(lib, key, value, indent))
  }

  method InsertKeyIntoObject(lib: Json5, text: string, r: Range, key: string, value: Json) returns (out: string)
    requires IsObjectRange(text, r)
    ensures out == WithProperty(lib, text, r, key, value) && Survives(text, out)
  {
    var baseIndent := IndentOfLine(text, r.start);
    var comma := NeededComma(text, r);
    InsertionSurvives(text, r.end, comma + PropertyText(lib, key, value, baseIndent));
    out := Spliced(text, r.end, comma + PropertyText(lib, key, value, baseIndent));
  }

  method NeededComma(text: string, r: Range) returns (comma: string)
    requires IsObjectRange(text, r)
    ensures comma == CommaFor(text, r)
  {
    var hasEntries := ObjectHasEntries(text, r);
    if !hasEntries {
      return "";
    }
    var j := r.end - 1;
    while j > r.start && IsBlank(text[j])
      invariant r.start <= j < r.end && LastCode(text, r.start, r.end - 1) == LastCode(text, r.start, j)
    {
      j := j - 1;
    }
    return if text[j] != ',' then "," else "";
  }

  method ObjectHasEntries(text: string, r: Range) returns (b: bool)
    requires IsObjectRange(text, r)
    ensures b == (Skipped(text, r.start + 1) < r.end)
  {
    var i := SkipWsAndComments(text, r.start + 1);
    return i < r.end;
  }

  /** Each addition in turn goes into the object its path leads to in the text so far. */
  function PatchedText(lib: Json5, text: string, adds: seq<Addition>): Option<string>
    decreases |adds|
  {
    if adds == [] then Some(text)
    else
      var r := RangeOfPath(lib.parseKey, text, adds[0].path);
      if r.None? then None
      else PatchedText(lib, WithProperty(lib, text, r.value, adds[0].key, adds[0].value), adds[1..])
  }

  function PatchFor(lib: Json5, text: string, existing: Json, intended: Json): Option<string>
  {
    var adds := Collected(existing, intended, []);
    if adds == [] then (if DeepEqual(existing, intended) then Some(text) else None)
    else PatchedText(lib, text, SortByDepth(adds))
  }

  /** `trySurgicalPatch`: every edit puts something in, so the old text survives whole, comments and all. */
  method TrySurgicalPatch(lib: Json5, text: string, existing: Json, intended: Json) returns (patched: Option<string>)
    ensures patched == PatchFor(lib, text, existing, intended)
    ensures patched.Some? ==> Survives(text, patched.value)
  {
    SurvivesItself(text);
    var additions := CollectAdditions(existing, intended, [], []);
    assert additions == Collected(existing, intended, []);
    if |additions| == 0 {
      return if DeepEqual(existing, intended) then Some(text) else None;
    }
    patched := PatchAll(lib, text, SortByDepth(additions));
  }

  method PatchAll(lib: Json5, text: string, sorted: seq<Addition>) returns (patched: Option<string>)
    ensures patched == PatchedText(lib, text, sorted)
    ensures patched.Some? ==> Survives(text, patched.value)
  {
    var current, i := text, 0;
    SurvivesItself(text);
    while i < |sorted|
      invariant 0 <= i <= |sorted| && Survives(text, current)
      invariant PatchedText(lib, current, sorted[i..]) == PatchedText(lib, text, sorted)
    {
      assert sorted[i..][1..] == sorted[i + 1..];
      var range := FindObjectRangeForPath(lib.parseKey, current, sorted[i].path);
      if range.None? {
        return None;
      }
      var next := InsertKeyIntoObject(lib, current, range.value, sorted[i].key, sorted[i].value);
      SurvivesBoth(text, current, next);
      current := next;
      i := i + 1;
    }
    return Some(current);
  }

  datatype WriteMode = Noop | Surgical | Wholesale

  function WholesaleText(lib: Json5, data: Json): string
  {
    lib.stringify(data) + "\n"
  }

  /**
   * The data to be written means the same when printed and read back; a last line end means nothing; and
   * what is read has no key twice in an object.
   */
  ghost predicate Faithful(lib: Json5, data: Json)
  {
    && ReadsAs(lib, Some(WholesaleText(lib, data)), data)
    && (forall text :: lib.parse(text).Some? ==> lib.parse(text + "\n") == lib.parse(text))
    && forall text :: lib.parse(text).Some? ==> WellFormed(lib.parse(text).value)
  }

  predicate EndsLine(text: string)
  {
    text != "" && text[|text| - 1] == '\n'
  }

  /** There is a patched text, and it reads back to what is intended. */
  ghost predicate ReadsAs(lib: Json5, patched: Option<string>, data: Json)
  {
    patched.Some? && lib.parse(patched.value).Some? && Meaning(lib.parse(patched.value).value) == Meaning(data)
  }

  /** The surgical part: the patched text with a line end, if it reads back right. */
  method CheckPatch(lib: Json5, text: string, patched: string, data: Json) returns (out: Option<string>)
    requires Faithful(lib, data) && WellFormed(data) && Survives(text, patched)
    ensures out.Some? <==> ReadsAs(lib, Some(patched), data)
    ensures out.Some? ==> ReadsAs(lib, out, data) && Survives(text, out.value)
  {
    var parsed := lib.parse(patched);
    if parsed.None? {
      return None;
    }
    DeepEqualIff(parsed.value, data);
    if !DeepEqual(parsed.value, data) {
      return None;
    }
    InsertionSurvives(patched, |patched|, "\n");
    SurvivesBoth(text, patched, Spliced(patched, |patched|, "\n"));
    assert Spliced(patched, |patched|, "\n") == patched + "\n";
    return Some(if EndsLine(patched) then patched else patched + "\n");
  }

  /**
   * `writeJson5Preserving`. Whatever the file held, it then reads back to the intended data. It is left
   * alone if it did so already; a surgical write keeps all of the old text; only otherwise is the text new.
   */
  method WriteJson5Preserving(lib: Json5, existingText: Option<string>, data: Json)
    returns (mode: WriteMode, file: string)
    requires Faithful(lib, data) && WellFormed(data)
    ensures lib.parse(file).Some? && Meaning(lib.parse(file).value) == Meaning(data)
    ensures mode.Noop? ==> existingText == Some(file)
    ensures mode.Surgical? ==> existingText.Some? && Survives(existingText.value, file)
    ensures mode.Surgical? <==>
              existingText.Some? && lib.parse(existingText.value).Some? && !mode.Noop?
              && ReadsAs(lib, PatchFor(lib, existingText.value, lib.parse(existingText.value).value, data), data)
    ensures mode.Wholesale? ==> file == WholesaleText(lib, data)
    ensures mode.Noop? <==> existingText.Some? && lib.parse(existingText.value).Some?
                            && Meaning(lib.parse(existingText.value).value) == Meaning(data)
  {
    if existingText.None? || lib.parse(existingText.value).None? {
      return Wholesale, WholesaleText(lib, data);
    }
    var text := existingText.value;
    var existing := lib.parse(text).value;
    DeepEqualIff(existing, data);
    if DeepEqual(existing, data) {
      return Noop, text;
    }
    var patched := TrySurgicalPatch(lib, text, existing, data);
    if patched.Some? {
      var checked := CheckPatch(lib, text, patched.value, data);
      if checked.Some? {
        return Surgical, checked.value;
      }
    }
    return Wholesale, WholesaleText(lib, data);
  }
}
