/** Finding a property, and the object at a path, in JSON5 text. */
module KeyLookup {
  import opened Options
  import opened TextScanning

  /** How the JSON5 library reads a quoted key. */
  type KeyParser = string -> Option<string>

  datatype Range = Range(start: nat, end: nat)

  /** An object's braces in the text. */
  predicate IsObjectRange(text: string, r: Range)
  {
    r.start < r.end < |text| && text[r.start] == '{' && text[r.end] == '}'
  }

  /** Where a number or a bare word ends: at a comma, a brace, or the end of the object. */
  function BareEnd(text: string, i: nat, objectEnd: nat): (e: nat)
    requires i <= |text| && objectEnd < |text|
    ensures i <= e <= |text|
    decreases |text| - i
  {
    if i >= objectEnd || text[i] == ',' || text[i] == '}' then i else BareEnd(text, i + 1, objectEnd)
  }

  /** Behind the value that starts at `i`; none when its bracket is never closed. */
  function ValueEnd(text: string, i: nat, objectEnd: nat): (e: Option<nat>)
    requires i <= |text| && objectEnd < |text|
    ensures e.Some? ==> i <= e.value <= |text|
  {
    if IsAt(text, i, '{') || IsAt(text, i, '[') then
      MatchingIsClose(text, text[i], ClosingOf(text[i]), i, 0);
      var close := Matching(text, text[i], ClosingOf(text[i]), i, 0);
      if close.None? then None else Some(close.value + 1)
    else if IsQuote(text, i) then Some(QuoteEnd(text, text[i], i + 1))
    else Some(BareEnd(text, i, objectEnd))
  }

  /** What a quoted key leads to: what it parses to, and where its value starts. */
  function KeyAt(parseKey: KeyParser, text: string, i: nat): (k: Option<(string, nat)>)
    requires IsQuote(text, i)
    ensures k.Some? ==> i < k.value.1 <= |text|
  {
    var keyEnd := QuoteEnd(text, text[i], i + 1);
    var parsed := parseKey(text[i..keyEnd]);
    if parsed.None? || !IsAt(text, Skipped(text, keyEnd), ':') then None
    else Some((parsed.value, Skipped(text, Skipped(text, keyEnd) + 1)))
  }

  /** Where the value of the key starts, looking from `i` on in the object that ends at `objectEnd`. */
  function ValueStart(parseKey: KeyParser, text: string, i: nat, objectEnd: nat, key: string): (start: Option<nat>)
    requires i <= |text| && objectEnd < |text|
    ensures start.Some? ==> i < start.value <= |text|
    decreases |text| - i
  {
    if i >= objectEnd || Skipped(text, i) >= objectEnd then None
    else
      var j := Skipped(text, i);
      if text[j] == ',' then ValueStart(parseKey, text, j + 1, objectEnd, key)
      else if !IsQuote(text, j) then None
      else
        var k := KeyAt(parseKey, text, j);
        if k.None? then None
        else if k.value.0 == key then Some(k.value.1)
        else
          var behind := ValueEnd(text, k.value.1, objectEnd);
          if behind.None? then None else ValueStart(parseKey, text, behind.value, objectEnd, key)
  }

  function RangeFrom(text: string, start: nat): (r: Option<Range>)
    requires start <= |text|
    ensures r.Some? ==> r.value.start == start && IsObjectRange(text, r.value)
  {
    if !IsAt(text, start, '{') then None
    else
      MatchingIsClose(text, '{', '}', start, 0);
      var close := Matching(text, '{', '}', start, 0);
      if close.None? then None else Some(Range(start, close.value))
  }

  /** The braces of the object at a path of keys. */
  function RangeOfPath(parseKey: KeyParser, text: string, path: seq<string>): (r: Option<Range>)
    ensures r.Some? ==> IsObjectRange(text, r.value)
  {
    RangeAlong(parseKey, text, RangeFrom(text, Skipped(text, 0)), path)
  }

  function RangeAlong(parseKey: KeyParser, text: string, outer: Option<Range>, path: seq<string>): (r: Option<Range>)
    requires outer.Some? ==> IsObjectRange(text, outer.value)
    ensures r.Some? ==> IsObjectRange(text, r.value)
    decreases |path|
  {
    if outer.None? || path == [] then outer
    else RangeAlong(parseKey, text, RangeUnder(parseKey, text, outer, path[0]), path[1..])
  }

  /** The braces of the object under a key of an object. */
  function RangeUnder(parseKey: KeyParser, text: string, outer: Option<Range>, key: string): (r: Option<Range>)
    requires outer.Some? ==> IsObjectRange(text, outer.value)
    ensures r.Some? ==> IsObjectRange(text, r.value)
  {
    if outer.None? then None
    else
      var start := ValueStart(parseKey, text, outer.value.start + 1, outer.value.end, key);
      if start.None? then None else RangeFrom(text, Skipped(text, start.value))
  }

  /** `findKeyValueStart`: where the value of a quoted key of the object starts. */
  method FindKeyValueStart(parseKey: KeyParser, text: string, r: Range, key: string) returns (start: Option<nat>)
    requires IsObjectRange(text, r)
    ensures start == ValueStart(parseKey, text, r.start + 1, r.end, key)
  {
    var i := r.start + 1;
    while i < r.end
      invariant r.start < i <= |text|
      invariant ValueStart(parseKey, text, i, r.end, key) == ValueStart(parseKey, text, r.start + 1, r.end, key)
      decreases |text| - i
    {
      i := SkipWsAndComments(text, i);
      if i >= r.end {
        break;
      }
      if text[i] == ',' {
        i := i + 1;
        continue;
      }
      if !IsQuote(text, i) {
        break;
      }
      var found := ReadKey(parseKey, text, i);
      if found.None? {
        return None;
      }
      if found.value.0 == key {
        return Some(found.value.1);
      }
      var behind := SkipValue(text, found.value.1, r.end);
      if behind.None? {
        return None;
      }
      i := behind.value;
    }
    return None;
  }

  /** A quoted key, and where its value starts; none when it does not parse, or no colon follows. */
  method ReadKey(parseKey: KeyParser, text: string, keyStart: nat) returns (k: Option<(string, nat)>)
    requires IsQuote(text, keyStart)
    ensures k == KeyAt(parseKey, text, keyStart)
  {
    var keyEnd := MatchString(text, keyStart);
    var parsedKey := parseKey(text[keyStart..keyEnd]);
    if parsedKey.None? {
      return None;
    }
    var i := SkipWsAndComments(text, keyEnd);
    if !IsAt(text, i, ':') {
      return None;
    }
    i := SkipWsAndComments(text, i + 1);
    return Some((parsedKey.value, i));
  }

  method SkipValue(text: string, start: nat, objectEnd: nat) returns (behind: Option<nat>)
    requires start <= |text| && objectEnd < |text|
    ensures behind == ValueEnd(text, start, objectEnd)
  {
    if IsAt(text, start, '{') || IsAt(text, start, '[') {
      var close := FindMatching(text, start);
      return if close.None? then None else Some(close.value + 1);
    }
    if IsQuote(text, start) {
      var end := MatchString(text, start);
      return Some(end);
    }
    var i := start;
    while i < objectEnd && text[i] != ',' && text[i] != '}'
      invariant start <= i <= |text| && BareEnd(text, i, objectEnd) == BareEnd(text, start, objectEnd)
    {
      i := i + 1;
    }
    return Some(i);
  }

  /** `findObjectRangeForPath`: the braces of the object at a path of keys. */
  method FindObjectRangeForPath(parseKey: KeyParser, text: string, path: seq<string>) returns (r: Option<Range>)
    ensures r == RangeOfPath(parseKey, text, path)
  {
    var start := SkipWsAndComments(text, 0);
    r := RangeAt(text, start);
    var i := 0;
    while i < |path|
      invariant 0 <= i <= |path| && (r.Some? ==> IsObjectRange(text, r.value))
      invariant RangeAlong(parseKey, text, r, path[i..]) == RangeOfPath(parseKey, text, path)
    {
      if r.None? {
        return;
      }
      assert path[i..][1..] == path[i + 1..];
      r := EnterKey(parseKey, text, r.value, path[i]);
      i := i + 1;
    }
  }

  method EnterKey(parseKey: KeyParser, text: string, outer: Range, key: string) returns (r: Option<Range>)
    requires IsObjectRange(text, outer)
    ensures r == RangeUnder(parseKey, text, Some(outer), key)
  {
    var valueStart := FindKeyValueStart(parseKey, text, outer, key);
    if valueStart.None? {
      return None;
    }
    var vs := SkipWsAndComments(text, valueStart.value);
    r := RangeAt(text, vs);
  }

  method RangeAt(text: string, start: nat) returns (r: Option<Range>)
    requires start <= |text|
    ensures r == RangeFrom(text, start)
  {
    if !IsAt(text, start, '{') {
      return None;
    }
    var end := FindMatching(text, start);
    return if end.None? then None else Some(Range(start, end.value));
  }
}

/** What the lookup finds in the text of an object: exactly the property, and the object, that is written there. */
module KeyLookupLaws {
  import opened Options
  import opened TextScanning
  import opened ScanningLaws
  import opened KeyLookup

  /** An object or an array by its opening bracket, a string, or a number or word. */
  datatype Value =
    | Braced(bracket: char, tokens: seq<Token>)
    | Text(quote: char, raw: string)
    | Bare(word: string)

  /** The text between two brackets, token by token: properties in an object, items in an array. */
  datatype Token =
    | Gap(piece: Piece)
    | Comma
    | Item(value: Value)
    | Property(name: Name, afterKey: seq<Piece>, beforeValue: seq<Piece>, value: Value)

  /** A property's key, between quotes or as a bare word. */
  datatype Name = InQuotes(quote: char, raw: string) | Word(word: string)

  function ValueText(v: Value): string
  {
    match v
    case Braced(bracket, tokens) => [bracket] + (TokensText(tokens) + [ClosingOf(bracket)])
    case Text(quote, raw) => QuotedText(quote, raw)
    case Bare(word) => word
  }

  function QuotedText(quote: char, raw: string): string
  {
    [quote] + (raw + [quote])
  }

  function NameText(n: Name): string
  {
    match n
    case InQuotes(quote, raw) => QuotedText(quote, raw)
    case Word(word) => word
  }

  /** A property's text up to its value. */
  function KeyText(t: Token): string
    requires t.Property?
  {
    NameText(t.name) + (GapText(t.afterKey) + ([':'] + GapText(t.beforeValue)))
  }

  function GapText(ps: seq<Piece>): string
  {
    AllWritten(ps, '{', '}')
  }

  function TokenText(t: Token): string
  {
    match t
    case Gap(p) => Written(p, '{', '}')
    case Comma => [',']
    case Item(value) => ValueText(value)
    case Property(_, _, _, value) => KeyText(t) + ValueText(value)
  }

  function TokensText(ts: seq<Token>): string
  {
    if ts == [] then "" else TokenText(ts[0]) + TokensText(ts[1..])
  }

  /** White space, or a comment. */
  predicate IsGap(p: Piece)
  {
    match p
    case Plain(c) => IsBlank(c)
    case LineNote(_) => IsProper(p, '{', '}')
    case BlockNote(_) => IsProper(p, '{', '}')
    case _ => false
  }

  predicate AllGaps(ps: seq<Piece>)
  {
    ps == [] || (IsGap(ps[0]) && AllGaps(ps[1..]))
  }

  predicate IsQuoteMark(c: char)
  {
    c == '"' || c == '\''
  }

  /** A character that means nothing to any of the scanners. */
  predicate IsInert(c: char)
  {
    !IsBracket(c) && !IsQuoteMark(c) && c != '/' && c != ','
  }

  predicate IsValue(v: Value)
  {
    match v
    case Braced(bracket, tokens) => (bracket == '{' || bracket == '[') && AreTokens(tokens, bracket == '{')
    case Text(quote, raw) => IsQuoteMark(quote) && IsRaw(raw, quote)
    case Bare(word) => word != "" && !IsBlank(word[0]) && forall k :: 0 <= k < |word| ==> IsInert(word[k])
  }

  predicate IsName(n: Name)
  {
    match n
    case InQuotes(quote, raw) => IsQuoteMark(quote) && IsRaw(raw, quote)
    case Word(word) =>
      word != "" && forall k :: 0 <= k < |word| ==> IsInert(word[k]) && !IsBlank(word[k]) && word[k] != ':'
  }

  predicate IsToken(t: Token, inObject: bool)
  {
    match t
    case Gap(p) => IsGap(p)
    case Comma => true
    case Item(value) => !inObject && IsValue(value)
    case Property(name, afterKey, beforeValue, value) =>
      inObject && IsName(name) && AllGaps(afterKey) && AllGaps(beforeValue) && IsValue(value)
  }

  /** Proper tokens, with a comma right behind the bare word of each property but a last one. */
  predicate AreTokens(ts: seq<Token>, inObject: bool)
  {
    ts == [] || (IsToken(ts[0], inObject) && AreTokens(ts[1..], inObject)
                 && (ts[0].Property? && ts[0].value.Bare? && |ts| > 1 ==> ts[1].Comma?))
  }

  /** What the lookup reads a property's key as: a bare word it does not read. */
  function NameOf(parseKey: KeyParser, t: Token): Option<string>
    requires t.Property?
  {
    if t.name.InQuotes? then parseKey(NameText(t.name)) else None
  }

  /**
   * Where the value of the first property of that name starts, and what it is; none if there is no such
   * property, or if a key before it cannot be read.
   */
  function FirstNamed(parseKey: KeyParser, ts: seq<Token>, i: nat, key: string): Option<(nat, Value)>
  {
    if ts == [] || (ts[0].Property? && NameOf(parseKey, ts[0]).None?) then None
    else if ts[0].Property? && NameOf(parseKey, ts[0]).value == key then Some((i + |KeyText(ts[0])|, ts[0].value))
    else FirstNamed(parseKey, ts[1..], i + |TokenText(ts[0])|, key)
  }

  /** Where the object at a path starts, and its tokens. */
  function ObjectAt(parseKey: KeyParser, there: Option<(nat, seq<Token>)>, path: seq<string>): Option<(nat, seq<Token>)>
    decreases |path|
  {
    if there.None? || path == [] then there else ObjectAt(parseKey, Within(parseKey, there, path[0]), path[1..])
  }

  /** The object under a key of an object, if there is one. */
  function Within(parseKey: KeyParser, outer: Option<(nat, seq<Token>)>, key: string): Option<(nat, seq<Token>)>
  {
    if outer.None? then None
    else
      var found := FirstNamed(parseKey, outer.value.1, outer.value.0 + 1, key);
      if found.Some? && found.value.1.Braced? && found.value.1.bracket == '{'
      then Some((found.value.0, found.value.1.tokens)) else None
  }

  lemma GapIsSkipped(text: string, i: nat, p: Piece)
    requires IsGap(p) && StandsAt(text, i, Written(p, '{', '}'))
    ensures Skipped(text, i) == Skipped(text, i + |Written(p, '{', '}')|)
  {
    match p {
      case Plain(c) =>
        StandsChar(text, i, c);
      case LineNote(body) =>
        NoteIsPassed(text, i, "//", body, "\n");
        LineEndAt(text, i + 2, body);
      case BlockNote(body) =>
        NoteIsPassed(text, i, "/*", body, "*/");
        BlockEndAt(text, i + 2, body);
      case _ =>
    }
  }

  lemma {:induction false} GapsAreSkipped(text: string, i: nat, ps: seq<Piece>)
    requires AllGaps(ps) && StandsAt(text, i, GapText(ps))
    ensures Skipped(text, i) == Skipped(text, i + |GapText(ps)|)
    decreases |ps|
  {
    if ps != [] {
      StandsSplit(text, i, Written(ps[0], '{', '}'), GapText(ps[1..]));
      GapIsSkipped(text, i, ps[0]);
      GapsAreSkipped(text, i + |Written(ps[0], '{', '}')|, ps[1..]);
    }
  }

  lemma QuotedEnds(text: string, i: nat, quote: char, raw: string)
    requires IsQuoteMark(quote) && IsRaw(raw, quote) && StandsAt(text, i, QuotedText(quote, raw))
    ensures IsQuote(text, i) && text[i] == quote && QuoteEnd(text, quote, i + 1) == i + |QuotedText(quote, raw)|
    ensures text[i..i + |QuotedText(quote, raw)|] == QuotedText(quote, raw)
  {
    StandsSplit(text, i, [quote], raw + [quote]);
    StandsChar(text, i, quote);
    RawIsMatched(text, quote, i + 1, raw);
  }

  /** The parts of a property in the text. */
  lemma PropertyParts(text: string, i: nat, t: Token)
    requires t.Property? && StandsAt(text, i, TokenText(t))
    ensures var colon := i + |NameText(t.name)| + |GapText(t.afterKey)|;
            && StandsAt(text, i, NameText(t.name))
            && StandsAt(text, i + |NameText(t.name)|, GapText(t.afterKey))
            && IsAt(text, colon, ':') && StandsAt(text, colon + 1, GapText(t.beforeValue))
            && colon + 1 + |GapText(t.beforeValue)| == i + |KeyText(t)|
            && StandsAt(text, i + |KeyText(t)|, ValueText(t.value))
  {
    var q, a, b := NameText(t.name), GapText(t.afterKey), GapText(t.beforeValue);
    StandsSplit(text, i, KeyText(t), ValueText(t.value));
    StandsSplit(text, i, q, a + ([':'] + b));
    StandsSplit(text, i + |q|, a, [':'] + b);
    StandsSplit(text, i + |q| + |a|, [':'], b);
    StandsChar(text, i + |q| + |a|, ':');
  }

  lemma ValueStops(text: string, i: nat, v: Value)
    requires IsValue(v) && StandsAt(text, i, ValueText(v))
    ensures i < |text| && Skipped(text, i) == i
  {
    assert ValueText(v) != "" && text[i + 0] == ValueText(v)[0];
  }

  /** Behind its key, a property's gaps lead to the colon and from there to the value. */
  lemma GapsLead(text: string, i: nat, t: Token)
    requires t.Property? && IsToken(t, true) && StandsAt(text, i, TokenText(t))
    ensures var keyEnd, v := i + |NameText(t.name)|, i + |KeyText(t)|;
            && keyEnd <= |text| && IsAt(text, Skipped(text, keyEnd), ':')
            && Skipped(text, Skipped(text, keyEnd) + 1) == v < |text|
  {
    PropertyParts(text, i, t);
    var keyEnd := i + |NameText(t.name)|;
    GapToColon(text, keyEnd, t.afterKey);
    GapToValue(text, keyEnd + |GapText(t.afterKey)| + 1, t.beforeValue, t.value);
  }

  lemma GapToColon(text: string, i: nat, ps: seq<Piece>)
    requires AllGaps(ps) && StandsAt(text, i, GapText(ps)) && IsAt(text, i + |GapText(ps)|, ':')
    ensures Skipped(text, i) == i + |GapText(ps)|
  {
    GapsAreSkipped(text, i, ps);
  }

  lemma GapToValue(text: string, i: nat, ps: seq<Piece>, v: Value)
    requires AllGaps(ps) && IsValue(v)
    requires StandsAt(text, i, GapText(ps)) && StandsAt(text, i + |GapText(ps)|, ValueText(v))
    ensures Skipped(text, i) == i + |GapText(ps)| < |text|
  {
    GapsAreSkipped(text, i, ps);
    ValueStops(text, i + |GapText(ps)|, v);
  }

  /** A property's quoted key is read, and its value found. */
  lemma KeyIsRead(parseKey: KeyParser, text: string, i: nat, t: Token)
    requires t.Property? && t.name.InQuotes? && IsToken(t, true) && StandsAt(text, i, TokenText(t))
    ensures IsQuote(text, i) && Skipped(text, i) == i
    ensures KeyAt(parseKey, text, i)
            == if NameOf(parseKey, t).None? then None else Some((NameOf(parseKey, t).value, i + |KeyText(t)|))
  {
    GapsLead(text, i, t);
    NameIsRead(parseKey, text, i, t);
    KeyReads(parseKey, text, i, i + |NameText(t.name)|, NameOf(parseKey, t), i + |KeyText(t)|);
  }

  lemma KeyReads(parseKey: KeyParser, text: string, i: nat, keyEnd: nat, name: Option<string>, v: nat)
    requires IsQuote(text, i) && i <= keyEnd == QuoteEnd(text, text[i], i + 1) <= |text|
    requires parseKey(text[i..keyEnd]) == name
    requires IsAt(text, Skipped(text, keyEnd), ':') && Skipped(text, Skipped(text, keyEnd) + 1) == v
    ensures Skipped(text, i) == i
    ensures KeyAt(parseKey, text, i) == if name.None? then None else Some((name.value, v))
  {
  }

  lemma NameIsRead(parseKey: KeyParser, text: string, i: nat, t: Token)
    requires t.Property? && t.name.InQuotes? && IsToken(t, true) && StandsAt(text, i, TokenText(t))
    ensures var keyEnd := i + |NameText(t.name)|;
            && IsQuote(text, i) && QuoteEnd(text, text[i], i + 1) == keyEnd <= |text|
            && parseKey(text[i..keyEnd]) == NameOf(parseKey, t)
  {
    PropertyParts(text, i, t);
    QuotedEnds(text, i, t.name.quote, t.name.raw);
  }

  lemma {:induction false} BareIsPassed(text: string, i: nat, word: string, objectEnd: nat)
    requires StandsAt(text, i, word) && forall k :: 0 <= k < |word| ==> IsInert(word[k])
    requires i + |word| <= objectEnd < |text|
    requires i + |word| < objectEnd ==> text[i + |word|] == ','
    ensures BareEnd(text, i, objectEnd) == i + |word|
    decreases |word|
  {
    if word != "" {
      assert text[i + 0] == word[0];
      assert word == [word[0]] + word[1..];
      StandsSplit(text, i, [word[0]], word[1..]);
      BareIsPassed(text, i + 1, word[1..], objectEnd);
    }
  }

  lemma BracedParts(text: string, i: nat, v: Value)
    requires v.Braced? && StandsAt(text, i, ValueText(v))
    ensures IsAt(text, i, v.bracket) && StandsAt(text, i + 1, TokensText(v.tokens))
    ensures IsAt(text, i + 1 + |TokensText(v.tokens)|, ClosingOf(v.bracket))
    ensures i + 2 + |TokensText(v.tokens)| == i + |ValueText(v)|
  {
    var inner, close := TokensText(v.tokens), ClosingOf(v.bracket);
    StandsSplit(text, i, [v.bracket], inner + [close]);
    StandsSplit(text, i + 1, inner, [close]);
    StandsChar(text, i, v.bracket);
    StandsChar(text, i + 1 + |inner|, close);
  }

  /** A scan for a bracket passes a whole value at the depth it met it. */
  lemma {:induction false} ValueIsPassed(text: string, i: nat, v: Value, open: char, depth: nat)
    requires AreBrackets(open, ClosingOf(open)) && depth > 0 && IsValue(v) && StandsAt(text, i, ValueText(v))
    ensures Matching(text, open, ClosingOf(open), i, depth)
            == Matching(text, open, ClosingOf(open), i + |ValueText(v)|, depth)
    decreases v
  {
    match v {
      case Braced(bracket, tokens) =>
        BracedParts(text, i, v);
        TokensArePassed(text, i + 1, tokens, bracket == '{', open, if bracket == open then depth + 1 else depth);
      case Text(quote, raw) =>
        QuotedEnds(text, i, quote, raw);
      case Bare(word) =>
        WordIsPassed(text, i, word, open, depth);
    }
  }

  lemma {:induction false} WordIsPassed(text: string, i: nat, word: string, open: char, depth: nat)
    requires AreBrackets(open, ClosingOf(open)) && StandsAt(text, i, word)
    requires forall k :: 0 <= k < |word| ==> IsInert(word[k])
    ensures Matching(text, open, ClosingOf(open), i, depth)
            == Matching(text, open, ClosingOf(open), i + |word|, depth)
    decreases |word|
  {
    if word != "" {
      assert text[i + 0] == word[0];
      assert word == [word[0]] + word[1..];
      StandsSplit(text, i, [word[0]], word[1..]);
      WordIsPassed(text, i + 1, word[1..], open, depth);
    }
  }

  lemma {:induction false} TokensArePassed(text: string, i: nat, ts: seq<Token>, inObject: bool, open: char, depth: nat)
    requires AreBrackets(open, ClosingOf(open)) && depth > 0
    requires AreTokens(ts, inObject) && StandsAt(text, i, TokensText(ts))
    ensures Matching(text, open, ClosingOf(open), i, depth)
            == Matching(text, open, ClosingOf(open), i + |TokensText(ts)|, depth)
    decreases ts
  {
    if ts != [] {
      StandsSplit(text, i, TokenText(ts[0]), TokensText(ts[1..]));
      TokenIsPassed(text, i, ts[0], inObject, open, depth);
      TokensArePassed(text, i + |TokenText(ts[0])|, ts[1..], inObject, open, depth);
    }
  }

  lemma {:induction false} TokenIsPassed(text: string, i: nat, t: Token, inObject: bool, open: char, depth: nat)
    requires AreBrackets(open, ClosingOf(open)) && depth > 0
    requires IsToken(t, inObject) && StandsAt(text, i, TokenText(t))
    ensures Matching(text, open, ClosingOf(open), i, depth)
            == Matching(text, open, ClosingOf(open), i + |TokenText(t)|, depth)
    decreases t
  {
    match t {
      case Gap(p) =>
        GapIsPassed(text, i, p, open, depth);
      case Comma =>
        StandsChar(text, i, ',');
      case Item(value) =>
        ValueIsPassed(text, i, value, open, depth);
      case Property(_, _, _, value) =>
        KeyIsPassed(text, i, t, open, depth);
        PropertyParts(text, i, t);
        ValueIsPassed(text, i + |KeyText(t)|, value, open, depth);
    }
  }

  lemma NameIsPassed(text: string, i: nat, n: Name, open: char, depth: nat)
    requires AreBrackets(open, ClosingOf(open)) && depth > 0 && IsName(n) && StandsAt(text, i, NameText(n))
    ensures Matching(text, open, ClosingOf(open), i, depth)
            == Matching(text, open, ClosingOf(open), i + |NameText(n)|, depth)
  {
    match n {
      case InQuotes(quote, raw) => QuotedEnds(text, i, quote, raw);
      case Word(word) => WordIsPassed(text, i, word, open, depth);
    }
  }

  lemma KeyIsPassed(text: string, i: nat, t: Token, open: char, depth: nat)
    requires AreBrackets(open, ClosingOf(open)) && depth > 0
    requires t.Property? && IsToken(t, true) && StandsAt(text, i, TokenText(t))
    ensures i + |KeyText(t)| <= |text|
    ensures Matching(text, open, ClosingOf(open), i, depth)
            == Matching(text, open, ClosingOf(open), i + |KeyText(t)|, depth)
  {
    PropertyParts(text, i, t);
    NameIsPassed(text, i, t.name, open, depth);
    var keyEnd := i + |NameText(t.name)|;
    GapsArePassed(text, keyEnd, t.afterKey, open, depth);
    GapsArePassed(text, keyEnd + |GapText(t.afterKey)| + 1, t.beforeValue, open, depth);
  }

  /** Gaps hold no groups, so how those would be written does not matter. */
  lemma GapIsPassed(text: string, i: nat, p: Piece, open: char, depth: nat)
    requires AreBrackets(open, ClosingOf(open)) && depth > 0 && IsGap(p) && StandsAt(text, i, Written(p, '{', '}'))
    ensures Matching(text, open, ClosingOf(open), i, depth)
            == Matching(text, open, ClosingOf(open), i + |Written(p, '{', '}')|, depth)
  {
    assert Written(p, '{', '}') == Written(p, open, ClosingOf(open)) && IsProper(p, open, ClosingOf(open));
    PieceIsPassed(text, i, p, open, ClosingOf(open), depth);
  }

  lemma {:induction false} GapsArePassed(text: string, i: nat, ps: seq<Piece>, open: char, depth: nat)
    requires AreBrackets(open, ClosingOf(open)) && depth > 0 && AllGaps(ps) && StandsAt(text, i, GapText(ps))
    ensures Matching(text, open, ClosingOf(open), i, depth)
            == Matching(text, open, ClosingOf(open), i + |GapText(ps)|, depth)
    decreases |ps|
  {
    if ps != [] {
      StandsSplit(text, i, Written(ps[0], '{', '}'), GapText(ps[1..]));
      GapIsPassed(text, i, ps[0], open, depth);
      GapsArePassed(text, i + |Written(ps[0], '{', '}')|, ps[1..], open, depth);
    }
  }

  /** The bracket that closes an object or array is found, whatever is inside. */
  lemma BracedIsMatched(text: string, i: nat, v: Value)
    requires v.Braced? && IsValue(v) && StandsAt(text, i, ValueText(v))
    ensures Matching(text, v.bracket, ClosingOf(v.bracket), i, 0) == Some(i + |ValueText(v)| - 1)
  {
    BracedParts(text, i, v);
    TokensArePassed(text, i + 1, v.tokens, v.bracket == '{', v.bracket, 1);
  }

  lemma ValueEnds(text: string, i: nat, v: Value, objectEnd: nat)
    requires IsValue(v) && StandsAt(text, i, ValueText(v)) && i + |ValueText(v)| <= objectEnd < |text|
    requires v.Bare? && i + |ValueText(v)| < objectEnd ==> text[i + |ValueText(v)|] == ','
    ensures ValueEnd(text, i, objectEnd) == Some(i + |ValueText(v)|)
  {
    match v {
      case Braced(_, _) =>
        BracedParts(text, i, v);
        BracedIsMatched(text, i, v);
      case Text(quote, raw) =>
        QuotedEnds(text, i, quote, raw);
      case Bare(word) =>
        assert text[i + 0] == word[0] && IsInert(word[0]);
        BareIsPassed(text, i, word, objectEnd);
    }
  }

  /** What follows a bare word in an object is a comma, or the closing brace. */
  lemma CommaFollows(text: string, i: nat, ts: seq<Token>)
    requires ts != [] && AreTokens(ts, true) && StandsAt(text, i, TokensText(ts))
    requires ts[0].Property? && ts[0].value.Bare? && |ts| > 1
    ensures IsAt(text, i + |TokenText(ts[0])|, ',')
  {
    StandsSplit(text, i, TokenText(ts[0]), TokensText(ts[1..]));
    assert TokensText(ts[1..]) == [','] + TokensText(ts[1..][1..]);
    StandsSplit(text, i + |TokenText(ts[0])|, [','], TokensText(ts[1..][1..]));
    StandsChar(text, i + |TokenText(ts[0])|, ',');
  }

  /** The value of a first property ends where the next token starts. */
  lemma PropertyEnds(text: string, i: nat, ts: seq<Token>, objectEnd: nat)
    requires ts != [] && ts[0].Property? && AreTokens(ts, true) && StandsAt(text, i, TokensText(ts))
    requires i + |TokensText(ts)| == objectEnd && IsAt(text, objectEnd, '}')
    ensures i + |KeyText(ts[0])| <= |text|
    ensures ValueEnd(text, i + |KeyText(ts[0])|, objectEnd) == Some(i + |TokenText(ts[0])|)
  {
    assert |TokensText(ts)| >= |TokenText(ts[0])| && StandsAt(text, i, TokenText(ts[0])) by {
      StandsSplit(text, i, TokenText(ts[0]), TokensText(ts[1..]));
    }
    PropertyParts(text, i, ts[0]);
    if ts[0].value.Bare? && |ts| > 1 {
      CommaFollows(text, i, ts);
    }
    ValueEnds(text, i + |KeyText(ts[0])|, ts[0].value, objectEnd);
  }

  /** A property of another name is passed; one whose key cannot be read ends the lookup. */
  lemma PropertyIsPassed(parseKey: KeyParser, text: string, i: nat, objectEnd: nat, key: string, name: Option<string>,
                         v: nat, next: nat)
    requires i < objectEnd < |text| && Skipped(text, i) == i && IsQuote(text, i)
    requires KeyAt(parseKey, text, i) == if name.None? then None else Some((name.value, v))
    requires v <= |text| && ValueEnd(text, v, objectEnd) == Some(next)
    ensures next <= |text|
    ensures ValueStart(parseKey, text, i, objectEnd, key)
            == if name.None? then None
               else if name.value == key then Some(v) else ValueStart(parseKey, text, next, objectEnd, key)
  {
  }

  lemma GapLeads(parseKey: KeyParser, text: string, i: nat, p: Piece, objectEnd: nat, key: string)
    requires IsGap(p) && StandsAt(text, i, Written(p, '{', '}')) && i + |Written(p, '{', '}')| <= objectEnd
    requires IsAt(text, objectEnd, '}')
    ensures ValueStart(parseKey, text, i, objectEnd, key)
            == ValueStart(parseKey, text, i + |Written(p, '{', '}')|, objectEnd, key)
  {
    GapIsSkipped(text, i, p);
    assert Skipped(text, objectEnd) == objectEnd;
    assert |Written(p, '{', '}')| > 0;
  }

  /** Where a lookup goes from each place in the text. */
  type Lookup = nat -> Option<nat>

  ghost predicate PassesGaps(lookup: Lookup, text: string, objectEnd: nat)
  {
    forall i: nat, p {:trigger StandsAt(text, i, Written(p, '{', '}'))} ::
      IsGap(p) && StandsAt(text, i, Written(p, '{', '}')) && i + |Written(p, '{', '}')| <= objectEnd ==>
        lookup(i) == lookup(i + |Written(p, '{', '}')|)
  }

  ghost predicate PassesCommas(lookup: Lookup, text: string, objectEnd: nat)
  {
    forall i: nat {:trigger StandsAt(text, i, [','])} :: i < objectEnd && StandsAt(text, i, [',']) ==>
      lookup(i) == lookup(i + 1)
  }

  /** It gets from a property to its value, or behind it if the name is another. */
  ghost predicate StopsAtKey(parseKey: KeyParser, lookup: Lookup, text: string, objectEnd: nat, key: string)
  {
    forall i: nat, ts {:trigger StartsWithProperty(text, i, ts, objectEnd)} ::
      StartsWithProperty(text, i, ts, objectEnd) ==> StepsOver(parseKey, lookup, i, ts[0], key)
  }

  ghost predicate StepsOver(parseKey: KeyParser, lookup: Lookup, i: nat, t: Token, key: string)
    requires t.Property?
  {
    var name := NameOf(parseKey, t);
    lookup(i) == if name.None? then None
                 else if name.value == key then Some(i + |KeyText(t)|) else lookup(i + |TokenText(t)|)
  }

  ghost predicate StartsWithProperty(text: string, i: nat, ts: seq<Token>, objectEnd: nat)
  {
    && ts != [] && ts[0].Property? && AreTokens(ts, true) && StandsAt(text, i, TokensText(ts))
    && i + |TokensText(ts)| == objectEnd
  }

  function Looking(parseKey: KeyParser, text: string, objectEnd: nat, key: string): Lookup
    requires objectEnd < |text|
  {
    (i: nat) => if i <= |text| then ValueStart(parseKey, text, i, objectEnd, key) else None
  }

  lemma LookingPasses(parseKey: KeyParser, text: string, objectEnd: nat, key: string)
    requires IsAt(text, objectEnd, '}')
    ensures var lookup := Looking(parseKey, text, objectEnd, key);
            PassesGaps(lookup, text, objectEnd) && PassesCommas(lookup, text, objectEnd)
  {
    var lookup := Looking(parseKey, text, objectEnd, key);
    forall i: nat, p | IsGap(p) && StandsAt(text, i, Written(p, '{', '}')) && i + |Written(p, '{', '}')| <= objectEnd
      ensures lookup(i) == lookup(i + |Written(p, '{', '}')|)
    {
      GapLeads(parseKey, text, i, p, objectEnd, key);
    }
    forall i: nat | i < objectEnd && StandsAt(text, i, [',']) ensures lookup(i) == lookup(i + 1) {
      CommaIsPassed(parseKey, text, i, objectEnd, key);
    }
  }

  lemma LookingStops(parseKey: KeyParser, text: string, objectEnd: nat, key: string)
    requires IsAt(text, objectEnd, '}')
    ensures StopsAtKey(parseKey, Looking(parseKey, text, objectEnd, key), text, objectEnd, key)
  {
    var lookup := Looking(parseKey, text, objectEnd, key);
    forall i: nat, ts | StartsWithProperty(text, i, ts, objectEnd) ensures StepsOver(parseKey, lookup, i, ts[0], key) {
      PropertyLeads(parseKey, text, i, ts, objectEnd, key);
    }
  }

  lemma {:induction false} FirstIsFound(parseKey: KeyParser, lookup: Lookup, text: string, i: nat, ts: seq<Token>,
                                        objectEnd: nat, key: string)
    requires PassesGaps(lookup, text, objectEnd) && PassesCommas(lookup, text, objectEnd)
    requires StopsAtKey(parseKey, lookup, text, objectEnd, key) && lookup(objectEnd) == None
    requires AreTokens(ts, true) && StandsAt(text, i, TokensText(ts)) && i + |TokensText(ts)| == objectEnd
    ensures var found := FirstNamed(parseKey, ts, i, key);
            lookup(i) == if found.None? then None else Some(found.value.0)
    decreases |ts|
  {
    if ts != [] {
      StandsSplit(text, i, TokenText(ts[0]), TokensText(ts[1..]));
      FirstIsFound(parseKey, lookup, text, i + |TokenText(ts[0])|, ts[1..], objectEnd, key);
      assert ts[0].Property? ==> StartsWithProperty(text, i, ts, objectEnd);
    }
  }

  /** The lookup finds the first property of the name, and nothing when there is none. */
  lemma PropertyIsFound(parseKey: KeyParser, text: string, i: nat, ts: seq<Token>, objectEnd: nat, key: string)
    requires AreTokens(ts, true) && StandsAt(text, i, TokensText(ts))
    requires i + |TokensText(ts)| == objectEnd && IsAt(text, objectEnd, '}')
    ensures var found := FirstNamed(parseKey, ts, i, key);
            ValueStart(parseKey, text, i, objectEnd, key) == if found.None? then None else Some(found.value.0)
  {
    LookingPasses(parseKey, text, objectEnd, key);
    LookingStops(parseKey, text, objectEnd, key);
    FirstIsFound(parseKey, Looking(parseKey, text, objectEnd, key), text, i, ts, objectEnd, key);
  }

  /** At a bare word for a key the lookup gives up. */
  lemma WordStops(parseKey: KeyParser, text: string, i: nat, t: Token, objectEnd: nat, key: string)
    requires t.Property? && t.name.Word? && IsToken(t, true) && StandsAt(text, i, TokenText(t)) && objectEnd < |text|
    ensures i < |text| && ValueStart(parseKey, text, i, objectEnd, key) == None
  {
    PropertyParts(text, i, t);
    assert text[i + 0] == t.name.word[0];
  }

  lemma PropertyLeads(parseKey: KeyParser, text: string, i: nat, ts: seq<Token>, objectEnd: nat, key: string)
    requires ts != [] && AreTokens(ts, true) && StandsAt(text, i, TokensText(ts))
    requires i + |TokensText(ts)| == objectEnd && IsAt(text, objectEnd, '}') && ts[0].Property?
    ensures i + |TokenText(ts[0])| <= |text|
    ensures ValueStart(parseKey, text, i, objectEnd, key)
            == if NameOf(parseKey, ts[0]).None? then None
               else if NameOf(parseKey, ts[0]).value == key then Some(i + |KeyText(ts[0])|)
               else ValueStart(parseKey, text, i + |TokenText(ts[0])|, objectEnd, key)
  {
    var v, next := i + |KeyText(ts[0])|, i + |TokenText(ts[0])|;
    StandsSplit(text, i, TokenText(ts[0]), TokensText(ts[1..]));
    if ts[0].name.Word? {
      WordStops(parseKey, text, i, ts[0], objectEnd, key);
      return;
    }
    KeyIsRead(parseKey, text, i, ts[0]);
    PropertyEnds(text, i, ts, objectEnd);
    PropertyIsPassed(parseKey, text, i, objectEnd, key, NameOf(parseKey, ts[0]), v, next);
  }

  lemma CommaIsPassed(parseKey: KeyParser, text: string, i: nat, objectEnd: nat, key: string)
    requires i < objectEnd < |text| && StandsAt(text, i, [','])
    ensures ValueStart(parseKey, text, i, objectEnd, key) == ValueStart(parseKey, text, i + 1, objectEnd, key)
  {
    StandsChar(text, i, ',');
    assert Skipped(text, i) == i;
  }

  /** What a name leads to is written in the text where it was found. */
  lemma {:induction false} FoundStands(parseKey: KeyParser, text: string, i: nat, ts: seq<Token>, key: string)
    requires AreTokens(ts, true) && StandsAt(text, i, TokensText(ts))
    ensures var found := FirstNamed(parseKey, ts, i, key);
            found.Some? ==> IsValue(found.value.1) && StandsAt(text, found.value.0, ValueText(found.value.1))
    decreases |ts|
  {
    if ts != [] {
      StandsSplit(text, i, TokenText(ts[0]), TokensText(ts[1..]));
      if ts[0].Property? && NameOf(parseKey, ts[0]) == Some(key) {
        PropertyParts(text, i, ts[0]);
      } else {
        FoundStands(parseKey, text, i + |TokenText(ts[0])|, ts[1..], key);
      }
    }
  }

  /** The braces of an object in the text. */
  lemma ObjectRange(text: string, i: nat, v: Value)
    requires IsValue(v) && StandsAt(text, i, ValueText(v))
    ensures i < |text| && Skipped(text, i) == i
    ensures RangeFrom(text, i)
            == if v.Braced? && v.bracket == '{' then Some(RangeOfObject(i, v.tokens)) else None
  {
    ValueStops(text, i, v);
    match v {
      case Braced(_, _) =>
        BracedParts(text, i, v);
        BracedIsMatched(text, i, v);
      case Text(quote, raw) =>
        QuotedEnds(text, i, quote, raw);
      case Bare(word) =>
        assert text[i + 0] == word[0] && IsInert(word[0]);
    }
  }

  /**
   * Path lookup is exact. In any text that is an object behind some gaps, a path leads to the braces of the
   * object that is written at it, and to nothing when there is none.
   */
  lemma PathIsFound(parseKey: KeyParser, text: string, before: seq<Piece>, ts: seq<Token>, path: seq<string>)
    requires AllGaps(before) && AreTokens(ts, true)
    requires StandsAt(text, 0, GapText(before) + ValueText(Braced('{', ts)))
    ensures var there := ObjectAt(parseKey, Some((|GapText(before)|, ts)), path);
            RangeOfPath(parseKey, text, path) == RangeOfFound(there) && ObjectStands(text, there)
  {
    var start := |GapText(before)|;
    StandsSplit(text, 0, GapText(before), ValueText(Braced('{', ts)));
    GapsAreSkipped(text, 0, before);
    ObjectRange(text, start, Braced('{', ts));
    assert RangeFrom(text, start) == RangeOfFound(Some((start, ts)));
    PathLeads(parseKey, text, Some((start, ts)), path);
  }

  lemma {:induction false} PathLeads(parseKey: KeyParser, text: string, from: Option<(nat, seq<Token>)>,
                                     path: seq<string>)
    requires ObjectStands(text, from)
    ensures RangeOfFound(from).Some? ==> IsObjectRange(text, RangeOfFound(from).value)
    ensures RangeAlong(parseKey, text, RangeOfFound(from), path) == RangeOfFound(ObjectAt(parseKey, from, path))
    ensures ObjectStands(text, ObjectAt(parseKey, from, path))
    decreases |path|
  {
    if from.Some? {
      BracedParts(text, from.value.0, Braced('{', from.value.1));
      if path != [] {
        UnderIsFound(parseKey, text, from, path[0]);
        PathLeads(parseKey, text, Within(parseKey, from, path[0]), path[1..]);
      }
    }
  }

  /** An object's place in the text: where it starts, and its tokens. */
  ghost predicate ObjectStands(text: string, there: Option<(nat, seq<Token>)>)
  {
    there.Some? ==>
      AreTokens(there.value.1, true) && StandsAt(text, there.value.0, ValueText(Braced('{', there.value.1)))
  }

  function RangeOfFound(there: Option<(nat, seq<Token>)>): Option<Range>
  {
    if there.None? then None else Some(RangeOfObject(there.value.0, there.value.1))
  }

  lemma UnderIsFound(parseKey: KeyParser, text: string, outer: Option<(nat, seq<Token>)>, key: string)
    requires ObjectStands(text, outer)
    ensures outer.Some? ==> IsObjectRange(text, RangeOfObject(outer.value.0, outer.value.1))
    ensures ObjectStands(text, Within(parseKey, outer, key))
    ensures RangeUnder(parseKey, text, RangeOfFound(outer), key) == RangeOfFound(Within(parseKey, outer, key))
  {
    if outer.Some? {
      KeyLeads(parseKey, text, outer.value.0, outer.value.1, key);
      var found := FirstNamed(parseKey, outer.value.1, outer.value.0 + 1, key);
      if found.Some? {
        FoundRange(text, found.value.0, found.value.1);
      }
    }
  }

  lemma FoundRange(text: string, start: nat, v: Value)
    requires IsValue(v) && StandsAt(text, start, ValueText(v))
    ensures start <= |text|
    ensures var there := if v.Braced? && v.bracket == '{' then Some((start, v.tokens)) else None;
            RangeFrom(text, Skipped(text, start)) == RangeOfFound(there) && ObjectStands(text, there)
  {
    ObjectRange(text, start, v);
  }

  function RangeOfObject(start: nat, ts: seq<Token>): Range
  {
    Range(start, start + |TokensText(ts)| + 1)
  }

  /** One key of an object leads to its value. */
  lemma KeyLeads(parseKey: KeyParser, text: string, i: nat, ts: seq<Token>, key: string)
    requires AreTokens(ts, true) && StandsAt(text, i, ValueText(Braced('{', ts)))
    ensures IsObjectRange(text, RangeOfObject(i, ts))
    ensures var found, start :=
              FirstNamed(parseKey, ts, i + 1, key), ValueStart(parseKey, text, i + 1, RangeOfObject(i, ts).end, key);
            if found.None? then start.None?
            else && start == Some(found.value.0) && IsValue(found.value.1)
                 && StandsAt(text, found.value.0, ValueText(found.value.1))
  {
    BracedParts(text, i, Braced('{', ts));
    PropertyIsFound(parseKey, text, i + 1, ts, RangeOfObject(i, ts).end, key);
    FoundStands(parseKey, text, i + 1, ts, key);
  }
}
