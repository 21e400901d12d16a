/**
 What a pattern's text means, construct by construct, as laws about the lines it matches: each
 says what the language of a text is in terms of the language of the text behind its first
 construct, whatever the elements in between.
 */
module PatternLaws {
  import opened Wrappers
  import opened PatternLanguage
  import opened PatternTokens
  import opened PatternEscapes

  predicate IsPattern(text: string, dotted: bool) {
    Compile(text, dotted, true).Ok?
  }

  /** The pattern matches the whole line. */
  ghost predicate Accepts(text: string, dotted: bool, line: string) {
    Compile(text, dotted, true).Ok? && InLanguage(Compile(text, dotted, true).value, line)
  }

  /** The empty pattern matches the empty line. */
  lemma NothingMatchesNothing(dotted: bool, line: string)
    ensures Accepts("", dotted, line) <==> line == ""
  {
    LiteralLanguage("", line);
    var none: seq<Elem> := [];
    assert none + [End] == [End];
  }

  // ----- Elements other than literals -----

  /** The same for a text that stands behind a literal or not: a bracket opens a numeric range only if it does. */
  ghost predicate AcceptsBehind(u: string, dotted: bool, behind: bool, line: string) {
    Tokens(u, dotted, behind).Ok? && InLanguage(Tokens(u, dotted, behind).value + [End], line)
  }

  lemma ElementInFront(e: Elem, rest: seq<Elem>, line: string)
    ensures InLanguage([e] + rest + [End], line) <==>
      exists i :: 0 <= i <= |line| && Denotes(e, line[..i], line[i..]) && InLanguage(rest + [End], line[i..])
  {
    var elems := [e] + rest + [End];
    assert elems[1..] == rest + [End];
    LanguageSplits(elems, line);
    forall i | 0 <= i <= |line|
      ensures HoldsAt(elems, line, i) <==> Denotes(e, line[..i], line[i..]) && InLanguage(rest + [End], line[i..])
    {
    }
  }

  /** The first element takes a part of the line, and the text behind it matches the rest. */
  lemma FirstElement(text: string, dotted: bool, behind: bool, e: Elem, m: nat, line: string)
    requires text != [] && m <= |text| && NextElem(text, dotted, behind) == Ok(Piece(e, m))
    requires Tokens(text[m..], dotted, e.LiteralString?).Ok?
    ensures Tokens(text, dotted, behind).Ok?
    ensures AcceptsBehind(text, dotted, behind, line) <==>
      exists i :: 0 <= i <= |line| && Denotes(e, line[..i], line[i..])
        && AcceptsBehind(text[m..], dotted, e.LiteralString?, line[i..])
  {
    var rest := Tokens(text[m..], dotted, e.LiteralString?).value;
    assert Tokens(text, dotted, behind) == Ok([e] + rest);
    ElementInFront(e, rest, line);
    forall i | 0 <= i <= |line|
      ensures AcceptsBehind(text[m..], dotted, e.LiteralString?, line[i..]) <==> InLanguage(rest + [End], line[i..])
    {
    }
  }

  /** "**" matches any part of the line. */
  lemma DoubleStarLaw(u: string, dotted: bool, line: string)
    requires IsPattern(u, dotted)
    ensures IsPattern("**" + u, dotted)
    ensures Accepts("**" + u, dotted, line) <==> exists i :: 0 <= i <= |line| && Accepts(u, dotted, line[i..])
  {
    assert ("**" + u)[2..] == u;
    FirstElement("**" + u, dotted, false, AnySeq, 2, line);
  }

  /** "*" matches any part of the line, in dotted mode only one without dots. */
  lemma StarLaw(u: string, dotted: bool, line: string)
    requires IsPattern(u, dotted) && !StartsWith(u, '*')
    ensures IsPattern("*" + u, dotted)
    ensures Accepts("*" + u, dotted, line) <==>
      exists i :: 0 <= i <= |line| && (dotted ==> '.' !in line[..i]) && Accepts(u, dotted, line[i..])
  {
    assert ("*" + u)[1..] == u;
    FirstElement("*" + u, dotted, false, if dotted then CommonSeq else AnySeq, 1, line);
  }

  /** A construct that stands for one character. */
  lemma OneCharacter(text: string, dotted: bool, e: Elem, m: nat, line: string)
    requires text != [] && m <= |text| && NextElem(text, dotted, false) == Ok(Piece(e, m))
    requires e.AnyChar? || e.CommonChar? || e.CharSet? || e.NegSet?
    requires IsPattern(text[m..], dotted)
    ensures IsPattern(text, dotted)
    ensures Accepts(text, dotted, line) <==>
      line != [] && Denotes(e, line[..1], line[1..]) && Accepts(text[m..], dotted, line[1..])
  {
    FirstElement(text, dotted, false, e, m, line);
  }

  /** "?" matches one character, in dotted mode any but a dot. */
  lemma QuestionLaw(u: string, dotted: bool, line: string)
    requires IsPattern(u, dotted)
    ensures IsPattern("?" + u, dotted)
    ensures Accepts("?" + u, dotted, line) <==>
      line != [] && (dotted ==> line[0] != '.') && Accepts(u, dotted, line[1..])
  {
    assert ("?" + u)[1..] == u;
    OneCharacter("?" + u, dotted, if dotted then CommonChar else AnyChar, 1, line);
  }

  // ----- Sets -----

  /** c is among the characters and ranges that body lists: X or A-Z, one after another. */
  predicate Lists(body: string, c: char) {
    if body == [] then false
    else if |body| >= 3 && body[1] == '-' then body[0] <= c <= body[2] || Lists(body[3..], c)
    else c == body[0] || Lists(body[1..], c)
  }

  /** A set closes at the first brace behind its first character. */
  predicate IsSetBody(body: string) {
    body != [] && '}' !in body[1..]
  }

  lemma {:induction false} SetBodyLists(body: string, u: string, first: bool)
    requires '}' !in (if first && body != [] then body[1..] else body) && (first ==> body != [])
    ensures var r := SetBody(body + "}" + u, first);
      r.Ok? && r.value.length == |body| && forall c :: InRanges(c, r.value.part) <==> Lists(body, c)
    decreases |body|
  {
    var s := body + "}" + u;
    if body == [] {
      assert s[0] == '}';
    } else if |body| >= 3 && body[1] == '-' {
      assert body[2] == body[1..][1];
      assert s[3..] == body[3..] + "}" + u;
      assert '}' !in body[3..] by { assert forall i :: 0 <= i < |body[3..]| ==> body[3..][i] == body[1..][i + 2]; }
      SetBodyLists(body[3..], u, false);
      PairsInFront(body[0], body[2], SetBody(s[3..], false).value.part);
    } else {
      assert s[1..] == body[1..] + "}" + u;
      SetBodyLists(body[1..], u, false);
      PairsInFront(body[0], body[0], SetBody(s[1..], false).value.part);
    }
  }

  lemma PairsInFront(lo: char, up: char, ranges: string)
    ensures forall c :: InRanges(c, [lo, up] + ranges) <==> lo <= c <= up || InRanges(c, ranges)
  {
    assert ([lo, up] + ranges)[2..] == ranges;
  }

  /** The set that a body stands for. */
  lemma SetElem(body: string, u: string, dotted: bool) returns (ranges: string)
    requires IsSetBody(body) && body[0] != '^' && !IsRangeTo(body + "}" + u, '}')
    ensures NextElem("{" + body + "}" + u, dotted, false) == Ok(Piece(CharSet(ranges), |body| + 2))
    ensures forall c :: InRanges(c, ranges) <==> Lists(body, c)
  {
    var text := "{" + body + "}" + u;
    assert text == ['{'] + (body + "}" + u);
    RangeByParts('{', body + "}" + u, '}');
    SetBodyLists(body, u, true);
    assert text[1..] == body + "}" + u && text[1] == body[0];
    ranges := SetBody(text[1..], true).value.part;
  }

  lemma SetElement(text: string, dotted: bool, e: Elem, m: nat, ranges: string, body: string, line: string)
    requires text != [] && m <= |text| && NextElem(text, dotted, false) == Ok(Piece(e, m))
    requires e == CharSet(ranges) || e == NegSet(ranges)
    requires IsPattern(text[m..], dotted) && forall c :: InRanges(c, ranges) <==> Lists(body, c)
    ensures IsPattern(text, dotted)
    ensures Accepts(text, dotted, line) <==>
      line != [] && (Lists(body, line[0]) <==> e.CharSet?) && Accepts(text[m..], dotted, line[1..])
  {
    OneCharacter(text, dotted, e, m, line);
  }

  /** A set, unless what the braces hold makes a numeric range, matches one character that it lists. */
  lemma SetLaw(body: string, u: string, dotted: bool, line: string)
    requires IsSetBody(body) && body[0] != '^' && !IsRangeTo(body + "}" + u, '}') && IsPattern(u, dotted)
    ensures IsPattern("{" + body + "}" + u, dotted)
    ensures Accepts("{" + body + "}" + u, dotted, line) <==>
      line != [] && Lists(body, line[0]) && Accepts(u, dotted, line[1..])
  {
    var text := "{" + body + "}" + u;
    var ranges := SetElem(body, u, dotted);
    assert text[|body| + 2..] == u;
    SetElement(text, dotted, CharSet(ranges), |body| + 2, ranges, body, line);
  }

  lemma NegatedSetElem(body: string, u: string, dotted: bool) returns (ranges: string)
    requires IsSetBody(body)
    ensures NextElem("{^" + body + "}" + u, dotted, false) == Ok(Piece(NegSet(ranges), |body| + 3))
    ensures forall c :: InRanges(c, ranges) <==> Lists(body, c)
  {
    var text := "{^" + body + "}" + u;
    SetBodyLists(body, u, true);
    assert text[2..] == body + "}" + u && text[1] == '^';
    assert LeadingDigits(text[1..]) == 0;
    ranges := SetBody(text[2..], true).value.part;
  }

  /** With '^' in front, one that it does not list. */
  lemma NegatedSetLaw(body: string, u: string, dotted: bool, line: string)
    requires IsSetBody(body) && IsPattern(u, dotted)
    ensures IsPattern("{^" + body + "}" + u, dotted)
    ensures Accepts("{^" + body + "}" + u, dotted, line) <==>
      line != [] && !Lists(body, line[0]) && Accepts(u, dotted, line[1..])
  {
    var text := "{^" + body + "}" + u;
    var ranges := NegatedSetElem(body, u, dotted);
    assert text[|body| + 3..] == u;
    SetElement(text, dotted, NegSet(ranges), |body| + 3, ranges, body, line);
  }

  lemma {:induction false} OpenSetBody(v: string, first: bool)
    requires '}' !in v
    ensures SetBody(v, first).Err?
    decreases |v|
  {
    if v == [] {
    } else if |v| >= 3 && v[1] == '-' {
      OpenSetBody(v[3..], false);
    } else {
      OpenSetBody(v[1..], false);
    }
  }

  /** A brace that is not closed makes no pattern. */
  lemma OpenBraceLaw(v: string, dotted: bool)
    requires '}' !in v
    ensures !IsPattern("{" + v, dotted)
  {
    var text := "{" + v;
    assert text[1..] == v;
    OpenSetBody(v, true);
    if v != [] {
      assert text[2..] == v[1..];
      OpenSetBody(v[1..], true);
    }
    assert RangeAt(text, '}').None? by {
      assert forall k :: 1 <= k < |text| ==> text[k] == v[k - 1];
    }
  }

  // ----- Numbers -----

  predicate AreDigits(s: string) {
    forall i :: 0 <= i < |s| ==> IsDigit(s[i])
  }

  /** n digits stand at the head of the line, no more and no fewer, and make a number within the bounds written. */
  predicate IsNumberBetween(line: string, n: nat, lo: string, up: string)
    requires AreDigits(lo) && AreDigits(up) && n <= |line|
  {
    && n > 0 && AreDigits(line[..n]) && (n < |line| ==> !IsDigit(line[n]))
    && (lo == "" || NumberOf(lo) <= NumberOf(line[..n]))
    && (up == "" || NumberOf(line[..n]) <= NumberOf(up))
  }

  /** The bound that a string of digits sets; none, if there are no digits. */
  function Bound(s: string): int
    requires AreDigits(s)
  {
    if s == "" then -1 else NumberOf(s)
  }

  lemma BoundInFront(digits: string, rest: string)
    requires AreDigits(digits) && (rest != [] ==> !IsDigit(rest[0]))
    ensures LeadingDigits(digits + rest) == |digits| && OptionalNumber(digits + rest) == Bound(digits)
  {
    LeadingDigitsAre(digits + rest, |digits|);
    assert (digits + rest)[..|digits|] == digits;
  }

  lemma RangeFromParts(s: string, n: nat, m: nat, closing: char)
    requires n + m + 3 < |s| && n == LeadingDigits(s[1..]) && m == LeadingDigits(s[n + 3..])
    requires s[n + 1] == '.' && s[n + 2] == '.' && s[n + m + 3] == closing
    ensures RangeAt(s, closing) == Some(Range(OptionalNumber(s[1..]), OptionalNumber(s[n + 3..]), n + m + 3))
  {
  }

  lemma RangeInText(s: string, lo: string, v: string, up: string, w: string, closing: char)
    requires AreDigits(lo) && AreDigits(up) && !IsDigit(closing) && |s| > |lo| + |up| + 3
    requires s[1..] == lo + v && StartsWith(v, '.') && s[|lo| + 1] == '.' && s[|lo| + 2] == '.'
    requires s[|lo| + 3..] == up + w && StartsWith(w, closing) && s[|lo| + |up| + 3] == closing
    ensures RangeAt(s, closing) == Some(Range(Bound(lo), Bound(up), |lo| + |up| + 3))
  {
    BoundInFront(lo, v);
    BoundInFront(up, w);
    RangeFromParts(s, |lo|, |up|, closing);
  }

  lemma RangeText(opening: char, lo: string, up: string, closing: char, u: string)
    requires AreDigits(lo) && AreDigits(up) && !IsDigit(closing)
    ensures RangeAt([opening] + lo + ".." + up + [closing] + u, closing)
         == Some(Range(Bound(lo), Bound(up), |lo| + |up| + 3))
  {
    var s := [opening] + lo + ".." + up + [closing] + u;
    RangeInText(s, lo, ".." + up + [closing] + u, up, [closing] + u, closing);
  }

  /** A number takes a maximal run of digits. */
  lemma FirstNumber(lo: string, up: string, line: string, i: nat)
    requires AreDigits(lo) && AreDigits(up) && i <= |line|
    ensures var e := NumRange(Bound(lo), Bound(up));
      Denotes(e, line[..i], line[i..]) <==> IsNumberBetween(line, i, lo, up)
  {
    assert i < |line| ==> line[i..][0] == line[i];
  }

  lemma RangeIsNext(text: string, dotted: bool, r: Range)
    requires text != []
    requires (text[0] == '[' && RangeAt(text, ']') == Some(r)) || (text[0] == '{' && RangeAt(text, '}') == Some(r))
    ensures NextElem(text, dotted, true)
         == Ok(Piece(NumRange(r.lo, r.up), if text[0] == '[' then r.closing else r.closing + 1))
    ensures text[0] == '{' ==> NextElem(text, dotted, false) == NextElem(text, dotted, true)
  {
  }

  /** A range that is next in the text. */
  lemma NumberInFront(text: string, dotted: bool, behind: bool, lo: string, up: string, m: nat, line: string)
    requires AreDigits(lo) && AreDigits(up) && text != [] && m <= |text|
    requires NextElem(text, dotted, behind) == Ok(Piece(NumRange(Bound(lo), Bound(up)), m))
    requires IsPattern(text[m..], dotted)
    ensures Tokens(text, dotted, behind).Ok?
    ensures AcceptsBehind(text, dotted, behind, line) <==>
      exists n :: 0 <= n <= |line| && IsNumberBetween(line, n, lo, up) && Accepts(text[m..], dotted, line[n..])
  {
    var e := NumRange(Bound(lo), Bound(up));
    FirstElement(text, dotted, behind, e, m, line);
    forall i | 0 <= i <= |line|
      ensures Denotes(e, line[..i], line[i..]) <==> IsNumberBetween(line, i, lo, up)
    {
      FirstNumber(lo, up, line, i);
    }
  }

  /** A numeric range in braces matches all the digits at the head of the line, if their number is within it. */
  lemma BracedRangeLaw(lo: string, up: string, u: string, dotted: bool, line: string)
    requires AreDigits(lo) && AreDigits(up) && IsPattern(u, dotted)
    ensures var text := "{" + lo + ".." + up + "}" + u;
      && IsPattern(text, dotted)
      && (Accepts(text, dotted, line) <==>
            exists n :: 0 <= n <= |line| && IsNumberBetween(line, n, lo, up) && Accepts(u, dotted, line[n..]))
  {
    var text := ['{'] + lo + ".." + up + ['}'] + u;
    RangeText('{', lo, up, '}', u);
    RangeIsNext(text, dotted, Range(Bound(lo), Bound(up), |lo| + |up| + 3));
    assert text[|lo| + |up| + 4..] == u;
    NumberInFront(text, dotted, false, lo, up, |lo| + |up| + 4, line);
  }

  // ----- Literal characters -----

  lemma LiteralIsNext(text: string, dotted: bool, literal: string, m: nat)
    requires BeginsLiteral(text) && LiteralAt(text) == Ok(Piece(literal, m))
    ensures NextElem(text, dotted, false) == Ok(Piece(LiteralString(literal), m))
  {
  }

  /** A literal at the head of the pattern must be at the head of the line. */
  lemma FirstLiteral(text: string, dotted: bool, literal: string, m: nat, line: string)
    requires BeginsLiteral(text) && m <= |text| && LiteralAt(text) == Ok(Piece(literal, m))
    requires Tokens(text[m..], dotted, true).Ok?
    ensures IsPattern(text, dotted)
    ensures Accepts(text, dotted, line) <==>
      literal <= line && AcceptsBehind(text[m..], dotted, true, line[|literal|..])
  {
    LiteralIsNext(text, dotted, literal, m);
    FirstElement(text, dotted, false, LiteralString(literal), m, line);
    if literal <= line {
      assert line[..|literal|] == literal;
    }
  }

  predicate BeginsLiteral(u: string) {
    u != [] && u[0] != '?' && u[0] != '{' && u[0] != '*'
  }

  /** A pattern begins with a literal, which may be empty. */
  lemma LeadingLiteral(u: string, dotted: bool, line: string) returns (literal: string, n: nat)
    requires IsPattern(u, dotted)
    ensures n <= |u| && LiteralAt(u) == Ok(Piece(literal, n)) && Tokens(u[n..], dotted, true).Ok?
    ensures Accepts(u, dotted, line) <==> literal <= line && AcceptsBehind(u[n..], dotted, true, line[|literal|..])
  {
    if BeginsLiteral(u) {
      literal, n := LiteralAt(u).value.part, LiteralAt(u).value.length;
      FirstLiteral(u, dotted, literal, n, line);
    } else {
      literal, n := "", 0;
      assert u[0..] == u && line[0..] == line;
      assert Tokens(u, dotted, true) == Tokens(u, dotted, false);
    }
  }

  lemma PrefixInTail(c: char, literal: string, line: string)
    requires line != [] && line[0] == c
    ensures [c] + literal <= line <==> literal <= line[1..]
    ensures literal <= line[1..] ==> line[|literal| + 1..] == line[1..][|literal|..]
  {
    assert line == [c] + line[1..];
  }

  /** A literal that begins with c. */
  lemma FirstLiteralFrom(text: string, c: char, literal: string, m: nat, dotted: bool, line: string)
    requires BeginsLiteral(text) && m <= |text| && LiteralAt(text) == Ok(Piece([c] + literal, m))
    requires Tokens(text[m..], dotted, true).Ok?
    ensures IsPattern(text, dotted)
    ensures Accepts(text, dotted, line) <==>
      && line != [] && line[0] == c
      && literal <= line[1..] && AcceptsBehind(text[m..], dotted, true, line[1..][|literal|..])
  {
    FirstLiteral(text, dotted, [c] + literal, m, line);
    if line != [] && line[0] == c {
      PrefixInTail(c, literal, line);
    }
  }

  /** A text whose literal begins with c and goes on with that of u. */
  lemma CharacterInFront(text: string, skip: nat, c: char, u: string, dotted: bool, line: string)
    requires BeginsLiteral(text) && skip <= |text| && text[skip..] == u && IsPattern(u, dotted) && LiteralAt(u).Ok?
    requires var p := LiteralAt(u).value; LiteralAt(text) == Ok(Piece([c] + p.part, skip + p.length))
    ensures IsPattern(text, dotted)
    ensures Accepts(text, dotted, line) <==> line != [] && line[0] == c && Accepts(u, dotted, line[1..])
  {
    var literal, n := LeadingLiteral(u, dotted, if line == [] then [] else line[1..]);
    DropTwice(text, skip, n);
    FirstLiteralFrom(text, c, literal, skip + n, dotted, line);
  }

  lemma DropTwice(s: string, a: nat, b: nat)
    requires a + b <= |s|
    ensures s[a..][b..] == s[a + b..]
  {
  }

  lemma LiteralIsOk(u: string, dotted: bool)
    requires IsPattern(u, dotted)
    ensures LiteralAt(u).Ok?
  {
    var _, _ := LeadingLiteral(u, dotted, []);
  }

  /** An ordinary character matches itself, and so does a bracket that opens no numeric range. */
  lemma CharacterLaw(c: char, u: string, dotted: bool, line: string)
    requires c != '?' && c != '*' && c != '{' && c != '\\' && (c == '[' ==> !IsRange(u)) && IsPattern(u, dotted)
    ensures IsPattern([c] + u, dotted)
    ensures Accepts([c] + u, dotted, line) <==> line != [] && line[0] == c && Accepts(u, dotted, line[1..])
  {
    var text := [c] + u;
    assert text[1..] == u;
    LiteralIsOk(u, dotted);
    RangeByParts(c, u, ']');
    LiteralGoesOn(text);
    CharacterInFront(text, 1, c, u, dotted, line);
  }

  /** Behind a backslash any character matches itself, but for a bracket that opens a numeric range. */
  lemma BackslashLaw(c: char, u: string, dotted: bool, line: string)
    requires (c == '[' ==> !IsRange(u)) && IsPattern(u, dotted)
    ensures IsPattern(['\\', c] + u, dotted)
    ensures Accepts(['\\', c] + u, dotted, line) <==> line != [] && line[0] == c && Accepts(u, dotted, line[1..])
  {
    var text := ['\\', c] + u;
    assert text[2..] == u;
    LiteralIsOk(u, dotted);
    RangeByParts(c, u, ']');
    BackslashQuotes(c, u);
    CharacterInFront(text, 2, c, u, dotted, line);
  }

  /** A backslash at the very end makes no pattern. */
  lemma TrailingBackslashLaw(dotted: bool)
    ensures !IsPattern("\\", dotted)
  {
  }

  lemma RangeBehind(text: string, lo: string, up: string, m: nat, dotted: bool, line: string)
    requires AreDigits(lo) && AreDigits(up) && text != [] && text[0] == '[' && m <= |text|
    requires RangeAt(text, ']') == Some(Range(Bound(lo), Bound(up), m)) && IsPattern(text[m..], dotted)
    ensures Tokens(text, dotted, true).Ok?
    ensures AcceptsBehind(text, dotted, true, line) <==>
      exists n :: 0 <= n <= |line| && IsNumberBetween(line, n, lo, up) && Accepts(text[m..], dotted, line[n..])
  {
    RangeIsNext(text, dotted, Range(Bound(lo), Bound(up), m));
    NumberInFront(text, dotted, true, lo, up, m, line);
  }

  /** A numeric range behind a literal, and what follows its closing bracket. */
  lemma RangeBehindLiteral(lo: string, up: string, u: string, dotted: bool, line: string)
    requires AreDigits(lo) && AreDigits(up) && IsPattern("]" + u, dotted)
    ensures var text := ['['] + lo + ".." + up + [']'] + u;
      && Tokens(text, dotted, true).Ok?
      && (AcceptsBehind(text, dotted, true, line) <==>
            exists n :: 0 <= n <= |line| && IsNumberBetween(line, n, lo, up) && Accepts("]" + u, dotted, line[n..]))
  {
    var text, m := ['['] + lo + ".." + up + [']'] + u, |lo| + |up| + 3;
    RangeText('[', lo, up, ']', u);
    assert text[m..] == "]" + u;
    RangeBehind(text, lo, up, m, dotted, line);
  }

  /** A bracketed numeric range matches the brackets, and between them all the digits, if their number is within it. */
  lemma BracketedRangeLaw(lo: string, up: string, u: string, dotted: bool, escaped: bool, line: string)
    requires AreDigits(lo) && AreDigits(up) && IsPattern("]" + u, dotted)
    ensures var text := (if escaped then "\\[" else "[") + lo + ".." + up + "]" + u;
      && IsPattern(text, dotted)
      && (Accepts(text, dotted, line) <==>
            && line != [] && line[0] == '['
            && exists n :: 0 <= n <= |line[1..]| && IsNumberBetween(line[1..], n, lo, up)
                 && Accepts("]" + u, dotted, line[1..][n..]))
  {
    var range := ['['] + lo + ".." + up + [']'] + u;
    var text := (if escaped then "\\[" else "[") + lo + ".." + up + "]" + u;
    var skip := if escaped then 1 else 0;
    assert text[skip..] == range;
    RangeText('[', lo, up, ']', u);
    assert LiteralAt(text) == Ok(Piece("[", skip));
    RangeBehindLiteral(lo, up, u, dotted, if line == [] then [] else line[1..]);
    FirstLiteral(text, dotted, "[", skip, line);
  }
}
