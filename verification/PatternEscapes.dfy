/** What a backslash does in a pattern. */
module PatternEscapes {
  import opened Wrappers
  import opened PatternLanguage
  import opened PatternTokens

  // ----- What one backslash does -----

  /** The literal c and then that of r, after a backslash. */
  function After(c: char, r: Result<Piece<string>>): Result<Piece<string>> {
    match r
    case Err(e) => Err(e)
    case Ok(p) => Ok(Piece([c] + p.part, 2 + p.length))
  }

  /**
   A backslash makes an ordinary character of the next one, whatever follows, with a single
   exception: a bracket that opens a numeric range ends the literal, and the range is in force.
   */
  lemma BackslashQuotes(c: char, u: string)
    ensures LiteralAt(['\\', c] + u) == After(c, LiteralAt(u)) <==> !(c == '[' && RangeAt([c] + u, ']').Some?)
    ensures c == '[' && RangeAt([c] + u, ']').Some? ==> LiteralAt(['\\', c] + u) == Ok(Piece([c], 1))
  {
    var s := ['\\', c] + u;
    assert s[1..] == [c] + u && s[2..] == u;
  }

  // ----- Quoting all characters that are special -----

  predicate IsSpecial(c: char) {
    c == '?' || c == '*' || c == '{' || c == '\\' || c == '['
  }

  function Quote(c: char): string {
    if IsSpecial(c) then ['\\', c] else [c]
  }

  /** t with a backslash before every special character. */
  function Quoted(t: string): string {
    if t == [] then [] else Quote(t[0]) + Quoted(t[1..])
  }

  /** A numeric range opens at the head of t. */
  predicate OpensRange(t: string) {
    t != [] && t[0] == '[' && RangeAt(t, ']').Some?
  }

  predicate HoldsRange(t: string) {
    exists i :: 0 <= i < |t| && OpensRange(t[i..])
  }

  /** Exactly the string t matches the pattern. */
  ghost predicate MatchesOnly(pattern: string, dotted: bool, t: string) {
    && Compile(pattern, dotted, true).Ok?
    && forall line :: InLanguage(Compile(pattern, dotted, true).value, line) <==> line == t
  }

  lemma QuotedTail(t: string)
    requires t != []
    ensures var n := |Quote(t[0])|; Quoted(t)[..n] == Quote(t[0]) && Quoted(t)[n..] == Quoted(t[1..])
  {
  }

  /** Quoting keeps ordinary characters where they are. */
  lemma QuotedHead(t: string, c: char)
    requires !IsSpecial(c)
    ensures StartsWith(Quoted(t), c) <==> StartsWith(t, c)
    ensures StartsWith(t, c) ==> Quoted(t)[1..] == Quoted(t[1..])
  {
    if t != [] {
      QuotedTail(t);
    }
  }

  predicate StartsWith(t: string, c: char) {
    t != [] && t[0] == c
  }

  lemma {:induction false} QuotedConcat(a: string, b: string)
    ensures Quoted(a + b) == Quoted(a) + Quoted(b)
  {
    if a == [] {
      assert a + b == b;
    } else {
      assert (a + b)[0] == a[0] && (a + b)[1..] == a[1..] + b;
      QuotedConcat(a[1..], b);
    }
  }

  lemma {:induction false} QuotedOrdinary(t: string)
    requires forall i :: 0 <= i < |t| ==> !IsSpecial(t[i])
    ensures Quoted(t) == t
  {
    if t == [] {
    } else {
      QuotedOrdinary(t[1..]);
      assert t == [t[0]] + t[1..];
    }
  }

  lemma LeadingDigitsAre(s: string, n: nat)
    requires n <= |s| && (forall i :: 0 <= i < n ==> IsDigit(s[i])) && (n < |s| ==> !IsDigit(s[n]))
    ensures LeadingDigits(s) == n
  {
  }

  lemma QuotedDigits(t: string)
    ensures LeadingDigits(Quoted(t)) == LeadingDigits(t)
    ensures var n := LeadingDigits(t); Quoted(t)[..n] == t[..n] && Quoted(t)[n..] == Quoted(t[n..])
  {
    var n := LeadingDigits(t);
    var a, b := t[..n], t[n..];
    assert t == a + b;
    QuotedConcat(a, b);
    QuotedOrdinary(a);
    if b != [] {
      QuotedTail(b);
    }
    LeadingDigitsAre(a + Quoted(b), n);
  }

  /** A range, part by part: digits, two dots, digits, and the closing bracket. */
  predicate IsRangeTo(u: string, closing: char) {
    var v := u[LeadingDigits(u)..];
    StartsWith(v, '.') && StartsWith(v[1..], '.') && StartsWith(v[2..][LeadingDigits(v[2..])..], closing)
  }

  predicate IsRange(u: string) {
    IsRangeTo(u, ']')
  }

  lemma RangeByParts(c: char, u: string, closing: char)
    ensures RangeAt([c] + u, closing).Some? <==> IsRangeTo(u, closing)
  {
    var s := [c] + u;
    assert s[1..] == u;
    var n := LeadingDigits(u);
    var v := u[n..];
    assert s[n + 1..] == v;
    if StartsWith(v, '.') && StartsWith(v[1..], '.') {
      assert s[n + 3..] == v[2..];
    }
  }

  lemma RangeBehindBracket(t: string, k: nat)
    requires k < |t| && OpensRange(t[k..])
    ensures IsRange(t[k + 1..])
  {
    assert t[k..] == ['['] + t[k + 1..];
    RangeByParts('[', t[k + 1..], ']');
  }

  lemma IsRangeQuoted(u: string)
    ensures IsRange(Quoted(u)) <==> IsRange(u)
  {
    QuotedDigits(u);
    var v := u[LeadingDigits(u)..];
    QuotedHead(v, '.');
    if StartsWith(v, '.') {
      QuotedHead(v[1..], '.');
      if StartsWith(v[1..], '.') {
        assert v[1..][1..] == v[2..] && Quoted(v)[1..][1..] == Quoted(v)[2..];
        QuotedDigits(v[2..]);
        QuotedHead(v[2..][LeadingDigits(v[2..])..], ']');
      }
    }
  }

  /** Quoting what is behind a bracket neither opens nor closes a range. */
  lemma RangeQuoted(t: string)
    requires t != []
    ensures RangeAt([t[0]] + Quoted(t[1..]), ']').Some? <==> RangeAt(t, ']').Some?
  {
    assert t == [t[0]] + t[1..];
    RangeByParts(t[0], t[1..], ']');
    RangeByParts(t[0], Quoted(t[1..]), ']');
    IsRangeQuoted(t[1..]);
  }

  lemma TailHoldsRange(t: string)
    requires t != [] && HoldsRange(t[1..])
    ensures HoldsRange(t)
  {
    var i :| 0 <= i < |t[1..]| && OpensRange(t[1..][i..]);
    assert t[1..][i..] == t[i + 1..];
  }

  lemma OrdinaryNext(c: char, u: string)
    requires !IsSpecial(c) && LiteralAt(u).Ok?
    ensures var rest := LiteralAt(u).value; LiteralAt([c] + u) == Ok(Piece([c] + rest.part, 1 + rest.length))
  {
    assert ([c] + u)[1..] == u;
    LiteralGoesOn([c] + u);
  }

  lemma SpecialNext(c: char, u: string)
    requires LiteralAt(u).Ok? && !(c == '[' && RangeAt([c] + u, ']').Some?)
    ensures var rest := LiteralAt(u).value; LiteralAt(['\\', c] + u) == Ok(Piece([c] + rest.part, 2 + rest.length))
  {
    BackslashQuotes(c, u);
  }

  lemma RangeStaysShut(t: string)
    requires t != [] && !OpensRange(t)
    ensures !(t[0] == '[' && RangeAt([t[0]] + Quoted(t[1..]), ']').Some?)
  {
    RangeQuoted(t);
  }

  lemma QuotedSpecialNext(t: string, u: string)
    requires t != [] && IsSpecial(t[0]) && u == Quoted(t[1..]) && !OpensRange(t) && LiteralAt(u).Ok?
    ensures var rest := LiteralAt(u).value;
      LiteralAt(['\\', t[0]] + u) == Ok(Piece([t[0]] + rest.part, 2 + rest.length))
  {
    RangeStaysShut(t);
    SpecialNext(t[0], u);
  }

  /** One more character in front of a literal. */
  lemma QuotedLiteralNext(t: string)
    requires t != [] && !OpensRange(t) && LiteralAt(Quoted(t[1..])).Ok?
    ensures var rest := LiteralAt(Quoted(t[1..])).value;
      LiteralAt(Quoted(t)) == Ok(Piece([t[0]] + rest.part, |Quote(t[0])| + rest.length))
  {
    var u := Quoted(t[1..]);
    if IsSpecial(t[0]) {
      assert Quoted(t) == ['\\', t[0]] + u;
      QuotedSpecialNext(t, u);
    } else {
      assert Quoted(t) == [t[0]] + u;
      OrdinaryNext(t[0], u);
    }
  }

  lemma {:induction false} QuotedLiteral(t: string)
    requires !HoldsRange(t)
    ensures LiteralAt(Quoted(t)) == Ok(Piece(t, |Quoted(t)|))
    decreases |t|
  {
    if t == [] {
    } else {
      assert t[0..] == t;
      if HoldsRange(t[1..]) {
        TailHoldsRange(t);
      }
      QuotedLiteral(t[1..]);
      QuotedLiteralNext(t);
      assert t == [t[0]] + t[1..];
    }
  }

  /** The quoted text up to the k-th character, a bracket that opens a range, is one literal of length m. */
  ghost predicate LiteralUpTo(t: string, k: nat, m: nat) {
    && k < |t| && OpensRange(t[k..]) && 0 < m < |Quoted(t)|
    && LiteralAt(Quoted(t)) == Ok(Piece(t[..k + 1], m))
    && Quoted(t)[m..] == ['['] + Quoted(t[k + 1..])
  }

  lemma RangeAtHead(t: string)
    requires OpensRange(t)
    ensures LiteralUpTo(t, 0, 1)
  {
    QuotedTail(t);
    RangeQuoted(t);
    BackslashQuotes(t[0], Quoted(t[1..]));
    assert t[0..] == t && t[..1] == ['['];
  }

  lemma TailSlices(t: string, k: nat)
    requires k + 1 < |t|
    ensures [t[0]] + t[1..][..k + 1] == t[..k + 2] && t[1..][k..] == t[k + 1..] && t[1..][k + 1..] == t[k + 2..]
  {
  }

  lemma RangeInTail(t: string, k: nat, m: nat)
    requires t != [] && !OpensRange(t) && LiteralUpTo(t[1..], k, m)
    ensures LiteralUpTo(t, k + 1, |Quote(t[0])| + m)
  {
    var n, u := |Quote(t[0])|, t[1..];
    QuotedTail(t);
    QuotedLiteralNext(t);
    TailSlices(t, k);
    assert Quoted(t)[n..][m..] == Quoted(t)[n + m..];
  }

  lemma HoldsRangeInTail(t: string)
    requires HoldsRange(t) && !OpensRange(t)
    ensures HoldsRange(t[1..])
  {
    var i :| 0 <= i < |t| && OpensRange(t[i..]);
    assert t[0..] == t && t[i..] == t[1..][i - 1..];
  }

  lemma {:induction false} QuotedUpToRange(t: string)
    requires HoldsRange(t)
    ensures exists k, m :: LiteralUpTo(t, k, m)
    decreases |t|
  {
    if OpensRange(t) {
      RangeAtHead(t);
    } else {
      HoldsRangeInTail(t);
      QuotedUpToRange(t[1..]);
      var k, m :| LiteralUpTo(t[1..], k, m);
      RangeInTail(t, k, m);
    }
  }

  /** What follows a range is a literal that begins with its closing bracket. */
  lemma ClosingLiteral(s: string, dotted: bool)
    requires StartsWith(s, ']') && Tokens(s, dotted, false).Ok?
    ensures var elems := Tokens(s, dotted, false).value;
      elems != [] && elems[0].LiteralString? && StartsWith(elems[0].text, ']')
  {
    assert NextElem(s, dotted, false) == LiteralElem(s);
  }

  /** A pattern that begins with a literal and a range does not match the text of a range behind that literal. */
  lemma RangeTextIsNotMatched(elems: seq<Elem>, text: string, t: string)
    requires |elems| >= 3 && elems[0] == LiteralString(text) && elems[1].NumRange?
    requires elems[2].LiteralString? && StartsWith(elems[2].text, ']')
    requires |text| <= |t| && IsRange(t[|text|..])
    ensures !InLanguage(elems, t)
  {
    OnlySplit(elems, t, |text|);
    RangeIsNoNumber(elems[1..], t[|text|..]);
  }

  lemma RangeIsNoNumber(elems: seq<Elem>, u: string)
    requires |elems| >= 2 && elems[0].NumRange?
    requires elems[1].LiteralString? && StartsWith(elems[1].text, ']')
    requires IsRange(u)
    ensures !InLanguage(elems, u)
  {
    var n := LeadingDigits(u);
    if n == 0 {
      assert forall i :: 0 < i <= |u| ==> u[..i][0] == u[0];
      NoSplit(elems, u);
    } else {
      NumberTakesAllDigits(elems[0], u, n);
      OnlySplit(elems, u, n);
      var v := u[n..];
      assert forall i :: 0 < i <= |v| ==> v[..i][0] == v[0];
      NoSplit(elems[1..], v);
    }
  }

  lemma TokensFirst(s: string, dotted: bool, afterLiteral: bool, e: Elem, m: nat)
    requires s != [] && m <= |s| && NextElem(s, dotted, afterLiteral) == Ok(Piece(e, m))
    requires Tokens(s, dotted, afterLiteral).Ok?
    ensures Tokens(s[m..], dotted, e.LiteralString?).Ok?
    ensures Tokens(s, dotted, afterLiteral).value == [e] + Tokens(s[m..], dotted, e.LiteralString?).value
  {
  }

  /** Behind a literal, a range is cut into its number and a literal that begins with its closing bracket. */
  lemma RangeTokensFirst(r: string, dotted: bool)
    requires OpensRange(r) && Tokens(r, dotted, true).Ok?
    ensures var elems := Tokens(r, dotted, true).value;
      |elems| >= 2 && elems[0].NumRange? && elems[1].LiteralString? && StartsWith(elems[1].text, ']')
  {
    var range := RangeAt(r, ']').value;
    TokensFirst(r, dotted, true, NumRange(range.lo, range.up), range.closing);
    ClosingLiteral(r[range.closing..], dotted);
  }

  lemma LiteralTokenFirst(s: string, dotted: bool, text: string, m: nat)
    requires s != [] && s[0] != '?' && s[0] != '{' && s[0] != '*' && s[0] != '['
    requires LiteralAt(s) == Ok(Piece(text, m)) && Tokens(s, dotted, false).Ok?
    ensures m <= |s| && Tokens(s[m..], dotted, true).Ok?
    ensures Tokens(s, dotted, false).value == [LiteralString(text)] + Tokens(s[m..], dotted, true).value
  {
    TokensFirst(s, dotted, false, LiteralString(text), m);
  }

  lemma QuotedRangeTokens(t: string, dotted: bool, k: nat, m: nat)
    requires LiteralUpTo(t, k, m) && Tokens(Quoted(t), dotted, false).Ok?
    ensures var elems := Tokens(Quoted(t), dotted, false).value;
      && |elems| >= 3 && elems[0] == LiteralString(t[..k + 1]) && elems[1].NumRange?
      && elems[2].LiteralString? && StartsWith(elems[2].text, ']')
  {
    var s := Quoted(t);
    QuotedTail(t);
    LiteralTokenFirst(s, dotted, t[..k + 1], m);
    QuotedRangeOpens(t[k..], t[k + 1..]);
    RangeTokensFirst(s[m..], dotted);
  }

  lemma QuotedRangeOpens(t: string, u: string)
    requires OpensRange(t) && u == t[1..]
    ensures OpensRange(['['] + Quoted(u))
  {
    RangeQuoted(t);
  }

  lemma QuotedRangeIsNotMatched(t: string, dotted: bool)
    requires HoldsRange(t) && Compile(Quoted(t), dotted, true).Ok?
    ensures !InLanguage(Compile(Quoted(t), dotted, true).value, t)
  {
    QuotedUpToRange(t);
    var k, m :| LiteralUpTo(t, k, m);
    QuotedRangeTokens(t, dotted, k, m);
    RangeBehindBracket(t, k);
    RangeTextIsNotMatched(Compile(Quoted(t), dotted, true).value, t[..k + 1], t);
  }

  /** Quoting a text makes a pattern for that text, and for nothing else, exactly if it holds no numeric range. */
  lemma QuotedMatchesOnlyItself(t: string, dotted: bool)
    ensures MatchesOnly(Quoted(t), dotted, t) <==> !HoldsRange(t)
  {
    if HoldsRange(t) {
      if Compile(Quoted(t), dotted, true).Ok? {
        QuotedRangeIsNotMatched(t, dotted);
      }
    } else if t == [] {
      var none: seq<Elem> := [];
      assert none + [End] == [End];
      forall line ensures InLanguage([End], line) <==> line == [] {
        LiteralLanguage([], line);
      }
    } else {
      QuotedLiteral(t);
      QuotedTail(t);
      OneLiteral(Quoted(t), t, dotted);
      assert [LiteralString(t)] + [End] == [LiteralString(t), End];
      forall line ensures InLanguage([LiteralString(t), End], line) <==> line == t {
        LiteralLanguage(t, line);
      }
    }
  }

  // ----- Escaping every character -----

  /** s with a backslash before every character. */
  function Escaped(s: string): string {
    if s == [] then [] else ['\\', s[0]] + Escaped(s[1..])
  }

  lemma {:induction false} EscapedLiteral(s: string)
    ensures LiteralAt(Escaped(s)) == Ok(Piece(s, |Escaped(s)|))
  {
    if s == [] {
    } else {
      var t := Escaped(s);
      assert t[1..][1..] == t[2..] == Escaped(s[1..]);
      EscapedLiteral(s[1..]);
      assert LeadingDigits(t[2..]) == 0;
      assert RangeAt(t[1..], ']').None?;
      assert [s[0]] + s[1..] == s;
    }
  }

  /** A pattern in which every character is escaped matches exactly the unescaped string. */
  lemma EscapedPatternMatchesText(text: string, dotted: bool, line: string)
    ensures Compile(Escaped(text), dotted, true).Ok?
    ensures InLanguage(Compile(Escaped(text), dotted, true).value, line) <==> line == text
  {
    LiteralLanguage(text, line);
    if text == [] {
      var none: seq<Elem> := [];
      assert none + [End] == [End];
    } else {
      EscapedLiteral(text);
      OneLiteral(Escaped(text), text, dotted);
      assert [LiteralString(text)] + [End] == [LiteralString(text), End];
    }
  }

  /**
   Escaping an opening bracket alone does not take away its special meaning: the text \[1..2]
   is a numeric range in brackets, and does not match the string [1..2].
   */
  lemma EscapedBracketStillOpensRange(dotted: bool)
    ensures Compile("\\[1..2]", dotted, true) == Ok([LiteralString("["), NumRange(1, 2), LiteralString("]"), End])
    ensures !InLanguage([LiteralString("["), NumRange(1, 2), LiteralString("]"), End], "[1..2]")
  {
    EscapedBracketTokens(dotted);
    assert [LiteralString("["), NumRange(1, 2), LiteralString("]")] + [End]
        == [LiteralString("["), NumRange(1, 2), LiteralString("]"), End];
    RangeLineIsNotMatched();
  }

  lemma EscapedBracketTokens(dotted: bool)
    ensures Tokens("\\[1..2]", dotted, false) == Ok([LiteralString("["), NumRange(1, 2), LiteralString("]")])
  {
    var s := "\\[1..2]";
    assert s[1..] == "[1..2]";
    EscapedBracketLiteral(dotted);
    RangeTokens(dotted);
    var range := [NumRange(1, 2), LiteralString("]")];
    assert [LiteralString("[")] + range == [LiteralString("["), NumRange(1, 2), LiteralString("]")];
  }

  lemma EscapedBracketLiteral(dotted: bool)
    ensures NextElem("\\[1..2]", dotted, false) == Ok(Piece(LiteralString("["), 1))
  {
    assert "\\[1..2]"[1..] == "[1..2]";
    RangeOneTwo();
  }

  lemma RangeTokens(dotted: bool)
    ensures Tokens("[1..2]", dotted, true) == Ok([NumRange(1, 2), LiteralString("]")])
  {
    var r := "[1..2]";
    RangeOneTwo();
    assert r[5..] == "]";
    assert NextElem(r, dotted, true) == Ok(Piece(NumRange(1, 2), 5));
    PlainLiteral("]");
    OneLiteral("]", "]", dotted);
    assert [NumRange(1, 2)] + [LiteralString("]")] == [NumRange(1, 2), LiteralString("]")];
  }

  lemma RangeOneTwo()
    ensures RangeAt("[1..2]", ']') == Some(Range(1, 2, 5))
  {
    var r := "[1..2]";
    assert r[1..][1..] == "..2]" && LeadingDigits("..2]") == 0;
    assert r[4..][1..] == "]" && LeadingDigits("]") == 0;
    assert LeadingDigits(r[1..]) == 1 && LeadingDigits(r[4..]) == 1;
    assert r[1..][..1] == "1" && r[4..][..1] == "2";
    assert "1"[..0] == [] && "2"[..0] == [];
    assert NumberOf("1") == 1 && NumberOf("2") == 2;
  }

  lemma RangeLineIsNotMatched()
    ensures !InLanguage([LiteralString("["), NumRange(1, 2), LiteralString("]"), End], "[1..2]")
  {
    var p, w := [LiteralString("["), NumRange(1, 2), LiteralString("]"), End], "[1..2]";
    OnlySplit(p, w, 1);
    var q, v := p[1..], w[1..];
    NumberTakesAllDigits(q[0], v, 1);
    OnlySplit(q, v, 1);
    var t, u := q[1..], v[1..];
    assert forall i :: 1 <= i <= |u| ==> u[..i][0] == '.';
    NoSplit(t, u);
  }
}
