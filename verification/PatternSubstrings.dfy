/** Substring matching, with and without numeric ranges. */
module PatternSubstrings {
  import opened Wrappers
  import opened PatternLanguage
  import opened PatternTokens

  // ----- Substring matching -----

  /** Some part of the line fits the elements, in its place in the line. */
  ghost predicate FitsWithin(elems: seq<Elem>, line: string) {
    exists i, j :: 0 <= i <= j <= |line| && Fits(elems, line[i..j], line[j..])
  }

  lemma SurroundedFits(elems: seq<Elem>, line: string)
    ensures InLanguage([AnySeq] + (elems + [AnySeq]), line) <==> FitsWithin(elems, line)
  {
    AnySeqSkips(elems + [AnySeq], line, []);
    forall i | 0 <= i <= |line|
      ensures Fits(elems + [AnySeq], line[i..], []) <==>
        exists j :: i <= j <= |line| && Fits(elems, line[i..j], line[j..])
    {
      FitsConcat(elems, [AnySeq], line[i..], []);
      forall j | i <= j <= |line|
        ensures line[i..][..j - i] == line[i..j] && line[i..][j - i..] + [] == line[j..]
      {
      }
      if k :| 0 <= k <= |line[i..]| && Fits(elems, line[i..][..k], line[i..][k..] + []) {
        assert Fits(elems, line[i..i + k], line[i + k..]);
      }
      if j :| i <= j <= |line| && Fits(elems, line[i..j], line[j..]) {
        OneAnySeq(line[i..][j - i..], []);
        assert Fits(elems, line[i..][..j - i], line[i..][j - i..] + []);
      }
    }
    if i, j :| 0 <= i <= j <= |line| && Fits(elems, line[i..j], line[j..]) {
      assert Fits(elems + [AnySeq], line[i..], []);
    }
    if i :| 0 <= i <= |line| && Fits(elems + [AnySeq], line[i..], []) {
      var j :| i <= j <= |line| && Fits(elems, line[i..j], line[j..]);
    }
  }

  lemma FrontAnySeq(p: seq<Elem>, w: string)
    requires p != [] && p[0] == AnySeq
    ensures Fits([AnySeq] + p, w, []) <==> Fits(p, w, [])
  {
    assert p == [AnySeq] + p[1..];
    AnySeqTwice(p[1..], w, []);
  }

  lemma BackAnySeq(p: seq<Elem>, w: string)
    requires p != [] && p[|p| - 1] == AnySeq
    ensures Fits(p + [AnySeq], w, []) <==> Fits(p, w, [])
  {
    var x := p[..|p| - 1];
    assert p == x + [AnySeq] && p + [AnySeq] == x + ([AnySeq] + [AnySeq]);
    FitsConcat(x, [AnySeq], w, []);
    FitsConcat(x, [AnySeq] + [AnySeq], w, []);
    forall i | 0 <= i <= |w|
      ensures Fits([AnySeq], w[i..], []) && Fits([AnySeq] + [AnySeq], w[i..], [])
    {
      OneAnySeq(w[i..], []);
      FrontAnySeq([AnySeq], w[i..]);
    }
  }

  /** Substring matching: a line is accepted exactly when some part of it fits, in its place. */
  lemma PaddedMatchesWithin(elems: seq<Elem>, line: string)
    ensures InLanguage(Padded(elems) + [End], line) <==> FitsWithin(elems, line)
  {
    EndChangesNothing(Padded(elems), line);
    SurroundedFits(elems, line);
    var p := if elems == [] || elems[|elems| - 1] != AnySeq then elems + [AnySeq] else elems;
    AnySeqSkips(elems + [AnySeq], line, []);
    AnySeqSkips(p, line, []);
    if p == elems {
      forall i | 0 <= i <= |line|
        ensures Fits(elems + [AnySeq], line[i..], []) <==> Fits(p, line[i..], [])
      {
        BackAnySeq(elems, line[i..]);
      }
    }
    if p[0] == AnySeq {
      FrontAnySeq(p, line);
    }
  }

  /** Without numeric ranges: exactly when the pattern matches some substring in full. */
  lemma SubstringModeMatchesSubstrings(text: string, dotted: bool, line: string)
    requires Tokens(text, dotted, false).Ok? && Unbounded(Tokens(text, dotted, false).value)
    ensures InLanguage(Compile(text, dotted, false).value, line) <==>
      exists i, j :: 0 <= i <= j <= |line| && InLanguage(Compile(text, dotted, true).value, line[i..j])
  {
    var elems := Tokens(text, dotted, false).value;
    PaddedMatchesWithin(elems, line);
    forall i, j | 0 <= i <= j <= |line|
      ensures Fits(elems, line[i..j], line[j..]) <==> InLanguage(elems + [End], line[i..j])
    {
      RestChangesNothing(elems, line[i..j], line[j..], []);
      EndChangesNothing(elems, line[i..j]);
    }
  }

  // ----- With numeric ranges -----

  /** The tokens of a pattern contain no END. */
  ghost predicate Unended(elems: seq<Elem>) {
    forall i :: 0 <= i < |elems| ==> !elems[i].End?
  }

  lemma NumberAlone(e: Elem, v: string, rest: string)
    requires e.NumRange? && Fits([e], v, rest)
    ensures Denotes(e, v, rest)
  {
    var k :| 0 <= k <= |v| && FitsAt([e], v, rest, k);
    assert [e][1..] == [] && Fits([], v[k..], rest) && k == |v|;
    assert v[..k] == v && v[k..] + rest == rest;
  }

  lemma DenotesBefore(e: Elem, w: string, rest: string)
    ensures Denotes(e, w, rest) ==> Denotes(e, w, [])
    ensures Denotes(e, w, []) && !e.End? && (rest == [] || !IsDigit(rest[0])) ==> Denotes(e, w, rest)
  {
  }

  /** What fits in its place fits by itself. */
  lemma {:induction false} FitsAlone(elems: seq<Elem>, w: string, rest: string)
    requires Fits(elems, w, rest)
    ensures Fits(elems, w, [])
    decreases |elems|
  {
    if elems == [] {
    } else {
      var i :| 0 <= i <= |w| && FitsAt(elems, w, rest, i);
      FitsAlone(elems[1..], w[i..], rest);
      assert w[i..] + [] == w[i..];
      if w[i..] == [] {
        DenotesBefore(elems[0], w[..i], rest);
      }
      assert FitsAt(elems, w, [], i);
    }
  }

  /** What fits by itself fits in front of anything but a digit. */
  lemma {:induction false} FitsBefore(elems: seq<Elem>, w: string, rest: string)
    requires Unended(elems) && Fits(elems, w, []) && (rest == [] || !IsDigit(rest[0]))
    ensures Fits(elems, w, rest)
    decreases |elems|
  {
    if elems == [] {
    } else {
      var i :| 0 <= i <= |w| && FitsAt(elems, w, [], i);
      FitsBefore(elems[1..], w[i..], rest);
      assert w[i..] + [] == w[i..];
      if w[i..] == [] {
        DenotesBefore(elems[0], w[..i], rest);
      }
      assert FitsAt(elems, w, rest, i);
    }
  }

  /** A pattern that ends in a number looks at one thing behind it: whether the digits go on. */
  lemma FitsUpToNumber(a: seq<Elem>, number: Elem, w: string, rest: string)
    requires Unended(a) && number.NumRange?
    ensures Fits(a + [number], w, rest) <==> Fits(a + [number], w, []) && (rest == [] || !IsDigit(rest[0]))
  {
    if Fits(a + [number], w, rest) {
      FitsAlone(a + [number], w, rest);
      FitsConcat(a, [number], w, rest);
      var i :| 0 <= i <= |w| && Fits(a, w[..i], w[i..] + rest) && Fits([number], w[i..], rest);
      NumberAlone(number, w[i..], rest);
    }
    if Fits(a + [number], w, []) && (rest == [] || !IsDigit(rest[0])) {
      FitsBefore(a + [number], w, rest);
    }
  }

  /**
   line[i..j] matches the pattern a, number, b by itself, with the number ending at k, where the
   line does not go on with a digit.
   */
  ghost predicate FoundAt(a: seq<Elem>, number: Elem, b: seq<Elem>, line: string, i: nat, k: nat, j: nat)
    requires i <= k <= j <= |line|
  {
    && InLanguage(a + [number] + [End], line[i..k]) && InLanguage(b + [End], line[k..j])
    && (k == |line| || !IsDigit(line[k]))
  }

  lemma FoundAtFits(a: seq<Elem>, number: Elem, b: seq<Elem>, line: string, i: nat, k: nat, j: nat)
    requires Unended(a) && number.NumRange? && Unbounded(b) && i <= k <= j <= |line|
    ensures FoundAt(a, number, b, line, i, k, j) <==>
      Fits(a + [number], line[i..k], line[k..]) && Fits(b, line[k..j], line[j..])
  {
    FitsUpToNumber(a, number, line[i..k], line[k..]);
    EndChangesNothing(a + [number], line[i..k]);
    EndChangesNothing(b, line[k..j]);
    RestChangesNothing(b, line[k..j], line[j..], []);
  }

  /** With b behind the last number: a part of the line fits exactly if such a match is found in it. */
  lemma FitsWithinNumbers(a: seq<Elem>, number: Elem, b: seq<Elem>, line: string)
    requires Unended(a) && number.NumRange? && Unbounded(b)
    ensures FitsWithin(a + [number] + b, line) <==>
      exists i, k, j :: 0 <= i <= k <= j <= |line| && FoundAt(a, number, b, line, i, k, j)
  {
    if FitsWithin(a + [number] + b, line) {
      var i, j :| 0 <= i <= j <= |line| && Fits(a + [number] + b, line[i..j], line[j..]);
      FitsParts(a, number, b, line, i, j);
    }
    if i, k, j :| 0 <= i <= k <= j <= |line| && FoundAt(a, number, b, line, i, k, j) {
      FitsParts(a, number, b, line, i, j);
      assert Fits(a + [number] + b, line[i..j], line[j..]);
    }
  }

  lemma FitsParts(a: seq<Elem>, number: Elem, b: seq<Elem>, line: string, i: nat, j: nat)
    requires Unended(a) && number.NumRange? && Unbounded(b) && i <= j <= |line|
    ensures Fits(a + [number] + b, line[i..j], line[j..]) <==>
      exists k :: i <= k <= j && FoundAt(a, number, b, line, i, k, j)
  {
    var w, rest := line[i..j], line[j..];
    FitsConcat(a + [number], b, w, rest);
    forall x | 0 <= x <= |w|
      ensures Fits(a + [number], w[..x], w[x..] + rest) && Fits(b, w[x..], rest) <==>
        FoundAt(a, number, b, line, i, i + x, j)
    {
      FoundAtFits(a, number, b, line, i, i + x, j);
      assert w[..x] == line[i..i + x] && w[x..] == line[i + x..j] && w[x..] + rest == line[i + x..];
    }
    if k :| i <= k <= j && FoundAt(a, number, b, line, i, k, j) {
      var x := k - i;
      assert Fits(a + [number], w[..x], w[x..] + rest) && Fits(b, w[x..], rest);
    }
  }

  /** A pattern with numbers has a last one. */
  lemma {:induction false} LastNumber(elems: seq<Elem>) returns (a: seq<Elem>, number: Elem, b: seq<Elem>)
    requires Unended(elems) && !Unbounded(elems)
    ensures elems == a + [number] + b && Unended(a) && number.NumRange? && Unbounded(b)
    decreases |elems|
  {
    var tail := elems[1..];
    if Unbounded(tail) {
      a, number, b := [], elems[0], tail;
    } else {
      a, number, b := LastNumber(tail);
      a := [elems[0]] + a;
      assert elems == [elems[0]] + tail;
    }
  }

  /** Whatever the pattern, a line that is accepted has a substring that the pattern matches in full. */
  lemma AcceptedLineHasMatch(text: string, dotted: bool, line: string)
    requires Tokens(text, dotted, false).Ok? && InLanguage(Compile(text, dotted, false).value, line)
    ensures exists i, j :: 0 <= i <= j <= |line| && InLanguage(Compile(text, dotted, true).value, line[i..j])
  {
    var elems := Tokens(text, dotted, false).value;
    PaddedMatchesWithin(elems, line);
    var i, j :| 0 <= i <= j <= |line| && Fits(elems, line[i..j], line[j..]);
    FitsAlone(elems, line[i..j], line[j..]);
    EndChangesNothing(elems, line[i..j]);
  }

  /**
   The converse needs a match in which the pattern's last number does not end inside a run of
   digits of the line. The parts before and behind that end are matched by themselves.
   */
  lemma SubstringModeWithNumbers(text: string, dotted: bool, line: string)
      returns (a: seq<Elem>, number: Elem, b: seq<Elem>)
    requires Tokens(text, dotted, false).Ok? && !Unbounded(Tokens(text, dotted, false).value)
    ensures Tokens(text, dotted, false).value == a + [number] + b && number.NumRange? && Unbounded(b)
    ensures InLanguage(Compile(text, dotted, false).value, line) <==>
      exists i, k, j :: 0 <= i <= k <= j <= |line| && FoundAt(a, number, b, line, i, k, j)
  {
    var elems := Tokens(text, dotted, false).value;
    TokensHaveNoEnd(text, dotted, false);
    a, number, b := LastNumber(elems);
    PaddedMatchesWithin(elems, line);
    FitsWithinNumbers(a, number, b, line);
  }

  /** If the number is the pattern's last element: exactly when a substring matches that no digit follows. */
  lemma SubstringModeWithNumberLast(text: string, dotted: bool, line: string)
    requires Tokens(text, dotted, false).Ok?
    requires var elems := Tokens(text, dotted, false).value; elems != [] && elems[|elems| - 1].NumRange?
    ensures InLanguage(Compile(text, dotted, false).value, line) <==>
      exists i, j :: 0 <= i <= j <= |line| && (j == |line| || !IsDigit(line[j]))
        && InLanguage(Compile(text, dotted, true).value, line[i..j])
  {
    var elems := Tokens(text, dotted, false).value;
    TokensHaveNoEnd(text, dotted, false);
    PaddedMatchesWithin(elems, line);
    var a, number := elems[..|elems| - 1], elems[|elems| - 1];
    assert elems == a + [number];
    forall i, j | 0 <= i <= j <= |line|
      ensures Fits(elems, line[i..j], line[j..]) <==>
        (j == |line| || !IsDigit(line[j])) && InLanguage(elems + [End], line[i..j])
    {
      FitsUpToNumber(a, number, line[i..j], line[j..]);
      EndChangesNothing(elems, line[i..j]);
    }
  }

  lemma TwelveMatchesTwelve()
    ensures InLanguage([NumRange(12, 12), End], "12")
  {
    var p, w := [NumRange(12, 12)], "12";
    assert w[..1] == "1" && "1"[..0] == [] && NumberOf("1") == 1;
    assert w[..2] == w && w[2..] == [];
    NumberTakesAllDigits(NumRange(12, 12), w, 2);
    assert FitsAt(p, w, [], 2);
    EndChangesNothing(p, w);
    assert p + [End] == [NumRange(12, 12), End];
  }

  /** With one, not: a number is taken whole, so {12..12} matches 12 but is not found in 123. */
  lemma NumberIsNotFoundInsideNumber()
    ensures InLanguage([NumRange(12, 12), End], "123"[0..2])
    ensures !FitsWithin([NumRange(12, 12)], "123")
  {
    var p, line := [NumRange(12, 12)], "123";
    assert line[0..2] == "12";
    TwelveMatchesTwelve();
    forall i, j | 0 <= i <= j <= |line|
      ensures !Fits(p, line[i..j], line[j..])
    {
      if Fits(p, line[i..j], line[j..]) {
        NumberAlone(p[0], line[i..j], line[j..]);
        NumbersInside123(i, j);
      }
    }
  }

  lemma NumbersInside123(i: nat, j: nat)
    requires i <= j <= 3
    ensures !Denotes(NumRange(12, 12), "123"[i..j], "123"[j..])
  {
    var line := "123";
    assert j < 3 ==> line[j..][0] == line[j] && IsDigit(line[j]);
    if i < 3 {
      NumbersEndingIn123(i);
    }
  }

  lemma NumbersEndingIn123(i: nat)
    requires i < 3
    ensures NumberOf("123"[i..3]) != 12
  {
    assert "123"[i..3][|"123"[i..3]| - 1] == '3';
    assert Spelled("123"[i..3]) % 10 == 3;
  }
}
