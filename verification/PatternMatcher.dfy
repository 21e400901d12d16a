/** The pattern matcher, in case-sensitive mode: cutting a pattern into elements, and matching lines. */
module PatternMatcher {
  import opened Wrappers
  import opened PatternLanguage
  import opened PatternTokens

  predicate EndsWith(s: string, ending: string) {
    |s| >= |ending| && s[|s| - |ending|..] == ending
  }

  /** A pattern that ends in a literal matches only lines that end in it. */
  lemma {:induction false} LastLiteral(elems: seq<Elem>, w: string)
    requires |elems| >= 2 && elems[|elems| - 1] == End && elems[|elems| - 2].LiteralString? && InLanguage(elems, w)
    ensures EndsWith(w, elems[|elems| - 2].text)
    decreases |elems|
  {
    LanguageSplits(elems, w);
    var i :| 0 <= i <= |w| && HoldsAt(elems, w, i);
    if |elems| == 2 {
      LanguageSplits(elems[1..], w[i..]);
    } else {
      LastLiteral(elems[1..], w[i..]);
    }
  }

  lemma EndMatchesNothing()
    ensures InLanguage([End], [])
  {
    assert HoldsAt([End], [], 0);
    LanguageSplits([End], []);
  }

  /** "**" and then END: any line. */
  lemma AnySeqAtEnd(w: string)
    ensures InLanguage([AnySeq, End], w)
  {
    EndMatchesNothing();
    assert [AnySeq, End][1..] == [End] && w[|w|..] == [];
    assert HoldsAt([AnySeq, End], w, |w|);
    LanguageSplits([AnySeq, End], w);
  }

  /** "**", a literal and END: any line that ends in the literal. */
  lemma AnySeqLiteralAtEnd(text: string, w: string)
    ensures InLanguage([AnySeq, LiteralString(text), End], w) <==> EndsWith(w, text)
  {
    var p := [AnySeq, LiteralString(text), End];
    if EndsWith(w, text) {
      var i := |w| - |text|;
      EndMatchesNothing();
      assert p[1..] == [LiteralString(text), End] && p[1..][1..] == [End] && text[|text|..] == [];
      LanguageSplits(p[1..], text);
      assert HoldsAt(p[1..], text, |text|);
      LanguageSplits(p, w);
      assert HoldsAt(p, w, i);
    }
    if InLanguage(p, w) {
      LastLiteral(p, w);
    }
  }

  class PatternMatcher {
    var pattern: seq<Elem>

    /** END closes the pattern and occurs nowhere else. */
    ghost predicate Valid()
      reads this
    {
      && pattern != [] && pattern[|pattern| - 1] == End
      && forall i :: 0 <= i < |pattern| - 1 ==> pattern[i] != End
    }

    constructor ()
      ensures pattern == []
    {
      pattern := [];
    }

    // ----- Setting the pattern -----

    /** On success the cursor has moved on to the closing bracket, on failure it has not moved. */
    method ParseNumRange(text: string, str: nat, closing: char) returns (ok: bool, pos: nat, lo: int, up: int)
      requires str < |text|
      ensures match RangeAt(text[str..], closing)
              case None => !ok && pos == str
              case Some(r) => ok && pos == str + r.closing && lo == r.lo && up == r.up
    {
      ok, pos, lo, up := false, str, -1, -1;
      assert text[str..][1..] == text[str + 1..];
      var s := str + 1;
      var n := DigitRun(text[s..]);
      if n > 0 {
        lo := NumberOf(text[s..][..n]);
      }
      s := s + n;
      if s + 1 >= |text| || text[s] != '.' || text[s + 1] != '.' {
        return;
      }
      s := s + 2;
      assert text[str..][s - str..] == text[s..];
      n := DigitRun(text[s..]);
      if n > 0 {
        up := NumberOf(text[s..][..n]);
      }
      s := s + n;
      if s == |text| || text[s] != closing {
        return;
      }
      ok, pos := true, s;
    }

    /** A piece of text that continues one already read. */
    static function Continued(part: string, length: nat, r: Result<Piece<string>>): Result<Piece<string>> {
      match r
      case Err(e) => Err(e)
      case Ok(p) => Ok(Piece(part + p.part, length + p.length))
    }

    /** One turn of the literal loop: a character, possibly escaped, after which the literal may have to stop. */
    method ReadLiteralChar(text: string, start: nat) returns (r: Result<char>, s: nat, more: bool)
      requires start < |text| && text[start] != '?' && text[start] != '{' && text[start] != '*'
      ensures r.Err? ==> LiteralAt(text[start..]) == Err(r.error)
      ensures r.Ok? ==> start <= s <= |text| && (more ==> start < s)
      ensures r.Ok? ==>
        LiteralAt(text[start..]) == Continued([r.value], s - start, Unread(text, s, more))
    {
      s, more := start, true;
      if text[s] == '\\' {
        s := s + 1;
        if s == |text| {
          return Err(TrailingBackslash), s, false;
        }
      }
      r := Ok(text[s]);
      LiteralStep(text, start, s);
      if text[s] == '[' {
        var isRange, _, _, _ := ParseNumRange(text, s, ']');
        if isRange {
          ContinuedByNothing([text[s]], s - start);
          more := false;
          return;
        }
      }
      s := s + 1;
    }

    /** Where a literal stops: at the end of the text, or at a wildcard. */
    static lemma LiteralStops(u: string)
      requires u == [] || u[0] == '?' || u[0] == '{' || u[0] == '*'
      ensures LiteralAt(u) == Ok(Piece("", 0))
    {
    }

    /** What is still to be read of a literal: nothing if it had to stop. */
    static function Unread(text: string, s: nat, more: bool): Result<Piece<string>>
      requires s <= |text|
    {
      if more then LiteralAt(text[s..]) else Ok(Piece("", 0))
    }

    /** One turn of the loop: a character is added to the literal. */
    method ExtendLiteral(text: string, start: nat, at: nat, was: string, ghost whole: Result<Piece<string>>)
        returns (r: Result<string>, s: nat, more: bool)
      requires start <= at < |text| && text[at] != '?' && text[at] != '{' && text[at] != '*'
      requires whole == Continued(was, at - start, LiteralAt(text[at..]))
      ensures r.Err? ==> whole == Err(r.error)
      ensures r.Ok? ==> at <= s <= |text| && (more ==> at < s)
      ensures r.Ok? ==> whole == Continued(r.value, s - start, Unread(text, s, more))
    {
      var c;
      c, s, more := ReadLiteralChar(text, at);
      if c.Err? {
        return Err(c.error), s, more;
      }
      ghost var rest := Unread(text, s, more);
      assert LiteralAt(text[at..]) == Continued([c.value], s - at, rest);
      AppendPiece(was, [c.value], s - start, s - at, rest);
      r := Ok(was + [c.value]);
    }

    /** The loop over the characters of a literal. */
    method ReadLiteral(text: string, start: nat) returns (r: Result<string>, s: nat)
      requires start < |text|
      ensures start <= s
      ensures LiteralAt(text[start..]) == if r.Ok? then Ok(Piece(r.value, s - start)) else Err(r.error)
    {
      s := start;
      var literal, more := "", true;
      ghost var whole := LiteralAt(text[start..]);
      NothingContinued(whole);
      while more && s < |text| && text[s] != '?' && text[s] != '{' && text[s] != '*'
        invariant start <= s <= |text|
        invariant whole == Continued(literal, s - start, Unread(text, s, more))
        decreases more, |text| - s
      {
        r, s, more := ExtendLiteral(text, start, s, literal, whole);
        if r.Err? {
          return r, start;
        }
        literal := r.value;
      }
      if more {
        LiteralStops(text[s..]);
      }
      ContinuedByNothing(literal, s - start);
      r := Ok(literal);
    }

    method ParseLiteralString(text: string, start: nat) returns (r: Result<Elem>, s: nat)
      requires start < |text|
      ensures match LiteralElem(text[start..])
              case Err(e) => r == Err(e)
              case Ok(p) => r == Ok(p.part) && s == start + p.length
    {
      var literal;
      literal, s := ReadLiteral(text, start);
      r := if literal.Ok? then Ok(LiteralString(literal.value)) else Err(literal.error);
    }

    /** The literal at `start`, whose first character proper is at `pos`. */
    static lemma LiteralStep(text: string, start: nat, pos: nat)
      requires start <= pos < |text| && text[start] != '?' && text[start] != '{' && text[start] != '*'
      requires pos == if text[start] == '\\' then start + 1 else start
      ensures LiteralAt(text[start..]) ==
        if text[pos] == '[' && RangeAt(text[pos..], ']').Some? then Ok(Piece([text[pos]], pos - start))
        else Continued([text[pos]], pos + 1 - start, LiteralAt(text[pos + 1..]))
    {
      assert text[start..][pos - start..] == text[pos..];
      assert text[start..][pos - start + 1..] == text[pos + 1..];
    }

    static lemma NothingContinued(r: Result<Piece<string>>)
      ensures Continued("", 0, r) == r
    {
      if r.Ok? {
        assert "" + r.value.part == r.value.part;
      }
    }

    static lemma ContinuedByNothing(part: string, length: nat)
      ensures Continued(part, length, Ok(Piece("", 0))) == Ok(Piece(part, length))
    {
      assert part + "" == part;
    }

    static lemma AppendPiece(was: string, more: string, length: nat, step: nat, r: Result<Piece<string>>)
      requires step <= length
      ensures Continued(was, length - step, Continued(more, step, r)) == Continued(was + more, length, r)
    {
      if r.Ok? {
        assert was + (more + r.value.part) == was + more + r.value.part;
      }
    }

    /** One turn of the set loop: a range "A-Z" or a single character, as a pair. */
    method ReadSetChar(text: string, start: nat, first: bool) returns (pair: string, s: nat)
      requires start < |text| && (text[start] != '}' || first)
      ensures start < s <= |text|
      ensures SetBody(text[start..], first) == Continued(pair, s - start, SetBody(text[s..], false))
    {
      assert text[start..][1..] == text[start + 1..];
      assert start + 3 <= |text| ==> text[start..][3..] == text[start + 3..];
      if start + 2 < |text| && text[start + 1] == '-' && text[start + 2] != '}' {
        return [text[start], text[start + 2]], start + 3;
      } else {
        return [text[start], text[start]], start + 1;
      }
    }

    method ParseSet(text: string, start: nat) returns (r: Result<Elem>, s: nat)
      requires start < |text| && text[start] == '{'
      ensures match SetAt(text[start..])
              case Err(e) => r == Err(e)
              case Ok(p) => r == Ok(p.part) && s == start + p.length
    {
      s := start + 1;
      var negated := s < |text| && text[s] == '^';
      if negated {
        s := s + 1;
      }
      assert text[start..][s - start..] == text[s..];
      var ok, chars, end := ReadSetBody(text, s);
      if !ok {
        return Err(UnmatchedBrace), end;
      }
      s := end + 1;
      r := Ok(if negated then NegSet(chars) else CharSet(chars));
    }

    /** The set loop: reads characters and ranges up to the closing brace. */
    method ReadSetBody(text: string, sbeg: nat) returns (ok: bool, chars: string, s: nat)
      requires sbeg <= |text|
      ensures sbeg <= s
      ensures SetBody(text[sbeg..], true) == if ok then Ok(Piece(chars, s - sbeg)) else Err(UnmatchedBrace)
    {
      s, chars := sbeg, "";
      ghost var whole := SetBody(text[s..], true);
      NothingContinued(whole);
      while s < |text| && (text[s] != '}' || s == sbeg)
        invariant sbeg <= s <= |text|
        invariant whole == Continued(chars, s - sbeg, SetBody(text[s..], s == sbeg))
        decreases |text| - s
      {
        ghost var before := s;
        var pair;
        pair, s := ReadSetChar(text, s, s == sbeg);
        AppendPiece(chars, pair, s - sbeg, s - before, SetBody(text[s..], false));
        chars := chars + pair;
      }
      ok := s < |text|;
      if ok {
        ContinuedByNothing(chars, s - sbeg);
      }
    }

    /** One turn of the tokenizing loop. */
    method ParseElem(text: string, start: nat, dotted: bool, afterLiteral: bool) returns (r: Result<Elem>, s: nat)
      requires start < |text|
      ensures match NextElem(text[start..], dotted, afterLiteral)
              case Err(e) => r == Err(e)
              case Ok(p) => r == Ok(p.part) && s == start + p.length
    {
      match text[start]
      case '?' =>
        return Ok(if dotted then CommonChar else AnyChar), start + 1;
      case '[' =>
        if afterLiteral {
          var ok, pos, lo, up := ParseNumRange(text, start, ']');
          if ok {
            return Ok(NumRange(lo, up)), pos;
          }
        }
        r, s := ParseLiteralString(text, start);
      case '{' =>
        var ok, pos, lo, up := ParseNumRange(text, start, '}');
        if ok {
          return Ok(NumRange(lo, up)), pos + 1;
        }
        r, s := ParseSet(text, start);
      case '*' =>
        if start + 1 < |text| && text[start + 1] == '*' {
          return Ok(AnySeq), start + 2;
        } else {
          return Ok(if dotted then CommonSeq else AnySeq), start + 1;
        }
      case _ =>
        r, s := ParseLiteralString(text, start);
    }

    /** Elements that continue those already read. */
    static function Extended(elems: seq<Elem>, r: Result<seq<Elem>>): Result<seq<Elem>> {
      match r
      case Err(e) => Err(e)
      case Ok(rest) => Ok(elems + rest)
    }

    static lemma ExtendByOne(elems: seq<Elem>, e: Elem, r: Result<seq<Elem>>)
      ensures Extended(elems, Extended([e], r)) == Extended(elems + [e], r)
    {
      if r.Ok? {
        assert elems + ([e] + r.value) == elems + [e] + r.value;
      }
    }

    static lemma ExtendNothing(elems: seq<Elem>, r: Result<seq<Elem>>)
      ensures Extended([], r) == r && Extended(elems, Ok([])) == Ok(elems)
    {
      assert elems + [] == elems;
      if r.Ok? {
        assert [] + r.value == r.value;
      }
    }

    static lemma TokensFromNext(s: string, dotted: bool, afterLiteral: bool)
      requires s != []
      ensures match NextElem(s, dotted, afterLiteral)
              case Err(e) => Tokens(s, dotted, afterLiteral) == Err(e)
              case Ok(p) =>
                Tokens(s, dotted, afterLiteral)
                == Extended([p.part], Tokens(s[p.length..], dotted, p.part.LiteralString?))
    {
    }

    method ReadElem(text: string, start: nat, dotted: bool, afterLiteral: bool) returns (r: Result<Elem>, s: nat)
      requires start < |text|
      ensures r.Err? ==> Tokens(text[start..], dotted, afterLiteral) == Err(r.error)
      ensures r.Ok? ==> start <= s <= |text| && (s == start ==> r.value.LiteralString? && !afterLiteral)
      ensures r.Ok? ==>
        Tokens(text[start..], dotted, afterLiteral)
        == Extended([r.value], Tokens(text[s..], dotted, r.value.LiteralString?))
    {
      r, s := ParseElem(text, start, dotted, afterLiteral);
      TokensFromNext(text[start..], dotted, afterLiteral);
      if r.Ok? {
        assert text[start..][s - start..] == text[s..];
      }
    }

    /** The tokenizing loop. */
    method Tokenize(text: string, dotted: bool) returns (r: Result<seq<Elem>>)
      ensures r == Tokens(text, dotted, false)
    {
      var s, afterLiteral := 0, false;
      var elems: seq<Elem> := [];
      ghost var rest := Tokens(text, dotted, false);
      assert text[0..] == text;
      ExtendNothing([], rest);
      while s < |text|
        invariant s <= |text|
        invariant afterLiteral <==> elems != [] && elems[|elems| - 1].LiteralString?
        invariant rest == Tokens(text[s..], dotted, afterLiteral)
        invariant Tokens(text, dotted, false) == Extended(elems, rest)
        decreases |text| - s, !afterLiteral
      {
        var e;
        e, s := ReadElem(text, s, dotted, afterLiteral);
        if e.Err? {
          return Err(e.error);
        }
        afterLiteral := e.value.LiteralString?;
        rest := Tokens(text[s..], dotted, afterLiteral);
        ExtendByOne(elems, e.value, rest);
        elems := elems + [e.value];
      }
      ExtendNothing(elems, rest);
      r := Ok(elems);
    }

    /** Sets the pattern; a bogus one is reported. */
    method SetPattern(text: string, dotted: bool, full: bool) returns (error: Option<Error>)
      modifies this
      ensures match Compile(text, dotted, full)
              case Err(e) => error == Some(e)
              case Ok(elems) => error == None && pattern == elems && Valid()
    {
      var tokens := Tokenize(text, dotted);
      if tokens.Err? {
        return Some(tokens.error);
      }
      TokensHaveNoEnd(text, dotted, false);
      pattern := tokens.value;
      if !full {
        if pattern == [] || pattern[|pattern| - 1] != AnySeq {
          pattern := pattern + [AnySeq];
        }
        if pattern[0] != AnySeq {
          pattern := [AnySeq] + pattern;
        }
      }
      pattern := pattern + [End];
      error := None;
    }

    // ----- Matching -----

    /** The characters of s that a number takes: all its leading digits. */
    method DigitRun(s: string) returns (n: nat)
      ensures n <= |s| && (forall i :: 0 <= i < n ==> IsDigit(s[i])) && (n < |s| ==> !IsDigit(s[n]))
    {
      n := 0;
      while n < |s| && IsDigit(s[n])
        invariant n <= |s| && forall i :: 0 <= i < n ==> IsDigit(s[i])
      {
        n := n + 1;
      }
    }

    /**
     One step for an element that takes a fixed number of characters: how many, or none if the
     line cannot match.
     */
    method Take(e: Elem, s: string) returns (ok: bool, n: nat)
      requires !e.AnySeq? && !e.CommonSeq? && !e.End?
      ensures ok ==> n <= |s| && Denotes(e, s[..n], s[n..])
      ensures ok ==> forall i :: 0 <= i <= |s| && Denotes(e, s[..i], s[i..]) ==> i == n
      ensures !ok ==> forall i :: 0 <= i <= |s| ==> !Denotes(e, s[..i], s[i..])
    {
      match e
      case LiteralString(text) =>
        ok, n := text <= s, |text|;
      case AnyChar =>
        ok, n := s != [], 1;
      case CommonChar =>
        ok, n := s != [] && s[0] != '.', 1;
      case CharSet(ranges) =>
        ok, n := s != [] && InRanges(s[0], ranges), 1;
      case NegSet(ranges) =>
        ok, n := s != [] && !InRanges(s[0], ranges), 1;
      case NumRange(_, _) =>
        if s == [] || !IsDigit(s[0]) {
          return false, 0;
        }
        n := DigitRun(s);
        ok := WithinBounds(e, NumberOf(s[..n]));
        NumberTakesAllDigits(e, s, n);
    }

    /** Matches the rest of the line against the pattern from its k-th element on. */
    method DoMatch(line: string, k0: nat) returns (b: bool)
      requires Valid() && k0 < |pattern|
      ensures b <==> InLanguage(pattern[k0..], line)
      decreases |pattern| - k0
    {
      var s, k := line, k0;
      while true
        invariant k0 <= k < |pattern|
        invariant InLanguage(pattern[k..], s) <==> InLanguage(pattern[k0..], line)
        decreases |pattern| - k
      {
        var e := pattern[k];
        assert pattern[k..][1..] == pattern[k + 1..];
        if e.End? {
          LanguageSplits(pattern[k..], s);
          if s == [] {
            assert HoldsAt(pattern[k..], s, 0);
          }
          return s == [];
        } else if e.AnySeq? {
          if k == |pattern| - 2 {
            assert pattern[k..] == [AnySeq, End];
            AnySeqAtEnd(s);
            return true;
          }
          if k == |pattern| - 3 && pattern[k + 1].LiteralString? {
            assert pattern[k..] == [AnySeq, pattern[k + 1], End];
            AnySeqLiteralAtEnd(pattern[k + 1].text, s);
            return EndsWith(s, pattern[k + 1].text);
          }
          b := SkipAny(s, k);
          return;
        } else if e.CommonSeq? {
          b := SkipCommon(s, k);
          return;
        } else {
          var ok, n := Take(e, s);
          if !ok {
            NoSplit(pattern[k..], s);
            return false;
          }
          OnlySplit(pattern[k..], s, n);
          s := s[n..];
        }
        k := k + 1;
      }
    }

    /** "**" in general: tries the rest of the pattern at every later position. */
    method SkipAny(s: string, k: nat) returns (b: bool)
      requires Valid() && k + 1 < |pattern| && pattern[k] == AnySeq
      ensures b <==> InLanguage(pattern[k..], s)
      decreases |pattern| - k, 0
    {
      LanguageSplits(pattern[k..], s);
      assert pattern[k..][1..] == pattern[k + 1..];
      var j := 0;
      while true
        invariant j <= |s|
        invariant forall i :: 0 <= i < j ==> !HoldsAt(pattern[k..], s, i)
        decreases |s| - j
      {
        b := DoMatch(s[j..], k + 1);
        assert b <==> HoldsAt(pattern[k..], s, j);
        if b {
          return true;
        }
        if j == |s| {
          return false;
        }
        j := j + 1;
      }
    }

    /** "*": the same, but it cannot skip a dot. */
    method SkipCommon(s: string, k: nat) returns (b: bool)
      requires Valid() && k + 1 < |pattern| && pattern[k] == CommonSeq
      ensures b <==> InLanguage(pattern[k..], s)
      decreases |pattern| - k, 0
    {
      LanguageSplits(pattern[k..], s);
      assert pattern[k..][1..] == pattern[k + 1..];
      var j := 0;
      while true
        invariant j <= |s| && '.' !in s[..j]
        invariant forall i :: 0 <= i < j ==> !HoldsAt(pattern[k..], s, i)
        decreases |s| - j
      {
        b := DoMatch(s[j..], k + 1);
        assert b <==> HoldsAt(pattern[k..], s, j);
        if b {
          return true;
        }
        if j == |s| || s[j] == '.' {
          assert forall i :: j < i <= |s| ==> s[..i][j] == s[j];
          return false;
        }
        j := j + 1;
      }
    }

    /** The two-character shortcut and the full match together decide membership. */
    method Matches(line: string) returns (b: bool)
      requires Valid()
      ensures b <==> InLanguage(pattern, line)
    {
      if |pattern| >= 2 {
        var e := pattern[|pattern| - 2];
        if e.LiteralString? {
          var p, l := |e.text|, |line|;
          assert l >= p >= 2 ==> line[l - p..][p - 1] == line[l - 1] && line[l - p..][p - 2] == line[l - 2];
          if p >= 2 && l >= 2 && (line[l - 1] != e.text[p - 1] || line[l - 2] != e.text[p - 2]) {
            if InLanguage(pattern, line) {
              LastLiteral(pattern, line);
              assert false;
            }
            return false;
          }
        }
      }
      b := DoMatch(line, 0);
      assert pattern[0..] == pattern;
    }
  }
}
