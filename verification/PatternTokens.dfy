/** How a pattern's text is cut into elements. */
module PatternTokens {
  import opened Wrappers
  import opened PatternLanguage

  /** A pattern may be bogus: a set that is not closed, or a backslash with nothing behind it. */
  datatype Error = UnmatchedBrace | TrailingBackslash

  datatype Result<+T> = Ok(value: T) | Err(error: Error)

  datatype Range = Range(lo: int, up: int, closing: nat)

  datatype Piece<+T> = Piece(part: T, length: nat)

  // ----- Numeric ranges: "[n..m]" or "{n..m}", both numbers optional -----

  function LeadingDigits(s: string): (n: nat)
    ensures n <= |s| && (forall i :: 0 <= i < n ==> IsDigit(s[i])) && (n < |s| ==> !IsDigit(s[n]))
  {
    if s == [] || !IsDigit(s[0]) then 0 else 1 + LeadingDigits(s[1..])
  }

  function OptionalNumber(s: string): int {
    var n := LeadingDigits(s);
    if n == 0 then -1 else NumberOf(s[..n])
  }

  /** The range that starts with the bracket at the head of s, and where its closing bracket is. */
  function RangeAt(s: string, closing: char): (r: Option<Range>)
    requires s != []
    ensures r.Some? ==> 3 <= r.value.closing < |s|
  {
    var dots := 1 + LeadingDigits(s[1..]);
    if dots + 1 < |s| && s[dots] == '.' && s[dots + 1] == '.' then
      var end := dots + 2 + LeadingDigits(s[dots + 2..]);
      if end < |s| && s[end] == closing then
        Some(Range(OptionalNumber(s[1..]), OptionalNumber(s[dots + 2..]), end))
      else None
    else None
  }

  // ----- Literal strings -----

  /**
   The literal at the head of s and its length in the text.  It stops before '?', '{', '*', and
   right at a '[' that opens a numeric range, which it contains but does not move past.
   */
  function LiteralAt(s: string): (r: Result<Piece<string>>)
    ensures r.Ok? ==> r.value.length <= |s|
  {
    if s == [] || s[0] == '?' || s[0] == '{' || s[0] == '*' then Ok(Piece([], 0))
    else if s[0] == '\\' && |s| == 1 then Err(TrailingBackslash)
    else
      var skip := if s[0] == '\\' then 1 else 0;
      if s[skip] == '[' && RangeAt(s[skip..], ']').Some? then Ok(Piece([s[skip]], skip))
      else
        match LiteralAt(s[skip + 1..])
        case Err(e) => Err(e)
        case Ok(rest) => Ok(Piece([s[skip]] + rest.part, skip + 1 + rest.length))
  }

  // ----- Sets: "{a-z_}" or "{^a-z_}" -----

  /** The character pairs up to the closing brace, which is an ordinary character if it comes first. */
  function SetBody(s: string, first: bool): (r: Result<Piece<string>>)
    ensures r.Ok? ==> r.value.length < |s|
    decreases |s|
  {
    if s == [] then Err(UnmatchedBrace)
    else if s[0] == '}' && !first then Ok(Piece([], 0))
    else if |s| >= 3 && s[1] == '-' && s[2] != '}' then
      match SetBody(s[3..], false)
      case Err(e) => Err(e)
      case Ok(rest) => Ok(Piece([s[0], s[2]] + rest.part, 3 + rest.length))
    else
      match SetBody(s[1..], false)
      case Err(e) => Err(e)
      case Ok(rest) => Ok(Piece([s[0], s[0]] + rest.part, 1 + rest.length))
  }

  function SetAt(s: string): (r: Result<Piece<Elem>>)
    requires s != []
    ensures r.Ok? ==> 0 < r.value.length <= |s|
  {
    var negated := |s| > 1 && s[1] == '^';
    var start := if negated then 2 else 1;
    match SetBody(s[start..], true)
    case Err(e) => Err(e)
    case Ok(body) => Ok(Piece(if negated then NegSet(body.part) else CharSet(body.part), start + body.length + 1))
  }

  // ----- The whole text -----

  function LiteralElem(s: string): (r: Result<Piece<Elem>>)
    ensures r.Ok? ==> r.value.length <= |s| && r.value.part.LiteralString?
  {
    match LiteralAt(s)
    case Err(e) => Err(e)
    case Ok(p) => Ok(Piece(LiteralString(p.part), p.length))
  }

  /** The next element.  Brackets open a numeric range only behind a literal string. */
  function NextElem(s: string, dotted: bool, afterLiteral: bool): (r: Result<Piece<Elem>>)
    requires s != []
    ensures r.Ok? ==> r.value.length <= |s|
    ensures r.Ok? && r.value.length == 0 ==> !afterLiteral && r.value.part.LiteralString?
  {
    if s[0] == '?' then Ok(Piece(if dotted then CommonChar else AnyChar, 1))
    else if s[0] == '[' then
      var range := RangeAt(s, ']');
      if afterLiteral && range.Some? then Ok(Piece(NumRange(range.value.lo, range.value.up), range.value.closing))
      else LiteralElem(s)
    else if s[0] == '{' then
      var range := RangeAt(s, '}');
      if range.Some? then Ok(Piece(NumRange(range.value.lo, range.value.up), range.value.closing + 1))
      else SetAt(s)
    else if s[0] == '*' then
      if |s| > 1 && s[1] == '*' then Ok(Piece(AnySeq, 2))
      else Ok(Piece(if dotted then CommonSeq else AnySeq, 1))
    else LiteralElem(s)
  }

  /** All elements of s.  An element may leave the cursor where it was, but then the next one does not. */
  function Tokens(s: string, dotted: bool, afterLiteral: bool): Result<seq<Elem>>
    decreases |s|, !afterLiteral
  {
    if s == [] then Ok([])
    else
      match NextElem(s, dotted, afterLiteral)
      case Err(e) => Err(e)
      case Ok(p) =>
        match Tokens(s[p.length..], dotted, p.part.LiteralString?)
        case Err(e) => Err(e)
        case Ok(rest) => Ok([p.part] + rest)
  }

  /** The elements that substring matching looks for: anything may precede and follow. */
  function Padded(elems: seq<Elem>): seq<Elem> {
    var p := if elems == [] || elems[|elems| - 1] != AnySeq then elems + [AnySeq] else elems;
    if p[0] != AnySeq then [AnySeq] + p else p
  }

  function Compile(text: string, dotted: bool, full: bool): Result<seq<Elem>> {
    match Tokens(text, dotted, false)
    case Err(e) => Err(e)
    case Ok(elems) => Ok((if full then elems else Padded(elems)) + [End])
  }

  lemma {:induction false} TokensHaveNoEnd(s: string, dotted: bool, afterLiteral: bool)
    requires Tokens(s, dotted, afterLiteral).Ok?
    ensures var elems := Tokens(s, dotted, afterLiteral).value;
      forall i :: 0 <= i < |elems| ==> elems[i] != End
    decreases |s|, !afterLiteral
  {
    if s == [] {
    } else {
      var p := NextElem(s, dotted, afterLiteral).value;
      TokensHaveNoEnd(s[p.length..], dotted, p.part.LiteralString?);
    }
  }

  // ----- Patterns without wildcards -----

  predicate HasTwoDots(s: string) {
    exists i, j :: 0 <= i < |s| && 0 <= j < |s| && j == i + 1 && s[i] == '.' && s[j] == '.'
  }

  predicate ContainsWildcards(s: string) {
    '?' in s || '*' in s || '\\' in s || '{' in s || HasTwoDots(s)
  }

  predicate IsDoubleDot(s: string, i: nat) {
    i + 2 <= |s| && s[i..i + 2] == ".."
  }

  /** Which texts are said to hold wildcards: those with one of four characters, or with two dots in a row. */
  lemma WildcardsAre(s: string)
    ensures ContainsWildcards(s) <==>
      (exists i :: 0 <= i < |s| && s[i] in {'?', '*', '\\', '{'}) || (exists i: nat :: IsDoubleDot(s, i))
  {
    if HasTwoDots(s) {
      var i, j :| 0 <= i < |s| && 0 <= j < |s| && j == i + 1 && s[i] == '.' && s[j] == '.';
      assert IsDoubleDot(s, i);
    }
    if i: nat :| IsDoubleDot(s, i) {
      assert s[i..i + 2][0] == s[i] && s[i..i + 2][1] == s[i + 1];
    }
  }

  lemma NoDotsNoRange(s: string)
    requires s != [] && !HasTwoDots(s)
    ensures RangeAt(s, ']').None?
  {
  }

  lemma TailIsPlain(s: string)
    requires s != [] && !ContainsWildcards(s)
    ensures !ContainsWildcards(s[1..])
    ensures s[0] != '?' && s[0] != '{' && s[0] != '*' && s[0] != '\\'
  {
    var t := s[1..];
    assert forall i :: 0 <= i < |t| ==> t[i] == s[i + 1];
  }

  /** A character that is not special belongs to the literal. */
  lemma LiteralGoesOn(s: string)
    requires s != [] && s[0] != '?' && s[0] != '{' && s[0] != '*' && s[0] != '\\'
    requires (s[0] == '[' ==> RangeAt(s, ']').None?) && LiteralAt(s[1..]).Ok?
    ensures var rest := LiteralAt(s[1..]).value; LiteralAt(s) == Ok(Piece([s[0]] + rest.part, 1 + rest.length))
  {
    assert s[0..] == s;
  }

  lemma PlainNext(s: string)
    requires s != [] && s[0] != '?' && s[0] != '{' && s[0] != '*' && s[0] != '\\' && RangeAt(s, ']').None?
    requires LiteralAt(s[1..]) == Ok(Piece(s[1..], |s| - 1))
    ensures LiteralAt(s) == Ok(Piece(s, |s|))
  {
    LiteralGoesOn(s);
    assert s == [s[0]] + s[1..];
  }

  lemma {:induction false} PlainLiteral(s: string)
    requires !ContainsWildcards(s)
    ensures LiteralAt(s) == Ok(Piece(s, |s|))
    decreases |s|
  {
    if s == [] {
    } else {
      NoDotsNoRange(s);
      TailIsPlain(s);
      PlainLiteral(s[1..]);
      PlainNext(s);
    }
  }

  lemma LiteralLanguage(text: string, line: string)
    ensures InLanguage([LiteralString(text), End], line) <==> line == text
    ensures InLanguage([End], line) <==> line == []
  {
    EndChangesNothing([LiteralString(text)], line);
    EndChangesNothing([], line);
    assert [LiteralString(text)] + [End] == [LiteralString(text), End];
    assert [] + [End] == [End];
    var p := [LiteralString(text)];
    if line == text {
      assert line[..|line|] == line && line[|line|..] == [];
      assert FitsAt(p, line, [], |line|);
    }
    if Fits(p, line, []) {
      var i :| 0 <= i <= |line| && FitsAt(p, line, [], i);
      assert p[1..] == [] && Fits([], line[i..], []);
      assert line[..i] == line;
    }
  }

  /** A text that is one literal from end to end. */
  lemma OneLiteral(s: string, literal: string, dotted: bool)
    requires s != [] && s[0] != '?' && s[0] != '{' && s[0] != '*' && LiteralAt(s) == Ok(Piece(literal, |s|))
    ensures Tokens(s, dotted, false) == Ok([LiteralString(literal)])
  {
    assert NextElem(s, dotted, false) == Ok(Piece(LiteralString(literal), |s|));
    assert s[|s|..] == [];
    assert Tokens(s[|s|..], dotted, true) == Ok([]);
    assert [LiteralString(literal)] + [] == [LiteralString(literal)];
  }

  /** A pattern without wildcards matches exactly the equal string. */
  lemma PlainPatternMatchesItself(text: string, dotted: bool, line: string)
    requires !ContainsWildcards(text)
    ensures Compile(text, dotted, true).Ok?
    ensures InLanguage(Compile(text, dotted, true).value, line) <==> line == text
  {
    LiteralLanguage(text, line);
    if text == [] {
      var none: seq<Elem> := [];
      assert none + [End] == [End];
    } else {
      PlainLiteral(text);
      OneLiteral(text, text, dotted);
      assert [LiteralString(text)] + [End] == [LiteralString(text), End];
    }
  }
}
