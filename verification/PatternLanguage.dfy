/** The elements of a tokenized pattern, and the strings they stand for. */
module PatternLanguage {

  datatype Elem =
    | LiteralString(text: string)
    | AnyChar
    | CommonChar                     // any character except '.'
    | CharSet(ranges: string)        // every two characters are the ends of a range
    | NegSet(ranges: string)
    | NumRange(from: int, to: int)   // a negative bound is none
    | AnySeq                         // any string at all
    | CommonSeq                      // any string without a '.'
    | End

  predicate IsDigit(c: char) {
    '0' <= c <= '9'
  }

  /** The number that a string of digits spells. */
  function Spelled(s: string): nat
    requires forall i :: 0 <= i < |s| ==> IsDigit(s[i])
  {
    if s == [] then 0
    else
      assert IsDigit(s[|s| - 1]);
      Spelled(s[..|s| - 1]) * 10 + (s[|s| - 1] - '0') as nat
  }

  const LONG_MAX: nat := 0x7FFF_FFFF_FFFF_FFFF

  /** That number as a long, with what is too large for one cut down to the largest. */
  function NumberOf(s: string): nat
    requires forall i :: 0 <= i < |s| ==> IsDigit(s[i])
  {
    if Spelled(s) > LONG_MAX then LONG_MAX else Spelled(s)
  }

  predicate InRanges(c: char, ranges: string) {
    |ranges| >= 2 && (ranges[0] <= c <= ranges[1] || InRanges(c, ranges[2..]))
  }

  predicate WithinBounds(e: Elem, n: int)
    requires e.NumRange?
  {
    (e.from < 0 || e.from <= n) && (e.to < 0 || n <= e.to)
  }

  /** e stands for w, when w is followed by rest.  Only a number looks at what follows: it takes all digits. */
  ghost predicate Denotes(e: Elem, w: string, rest: string) {
    match e
    case LiteralString(text) => w == text
    case AnyChar => |w| == 1
    case CommonChar => |w| == 1 && w[0] != '.'
    case CharSet(ranges) => |w| == 1 && InRanges(w[0], ranges)
    case NegSet(ranges) => |w| == 1 && !InRanges(w[0], ranges)
    case NumRange(_, _) =>
      && w != [] && (forall i :: 0 <= i < |w| ==> IsDigit(w[i])) && (rest == [] || !IsDigit(rest[0]))
      && WithinBounds(e, NumberOf(w))
    case AnySeq => true
    case CommonSeq => '.' !in w
    case End => w == [] && rest == []
  }

  /** w is a concatenation of strings that the elements stand for, in a line that goes on with rest. */
  ghost predicate Fits(elems: seq<Elem>, w: string, rest: string)
    decreases |elems|
  {
    if elems == [] then w == []
    else exists i :: 0 <= i <= |w| && FitsAt(elems, w, rest, i)
  }

  /** The first element stands for the first i characters of w, the other elements for the remaining ones. */
  ghost predicate FitsAt(elems: seq<Elem>, w: string, rest: string, i: nat)
    requires elems != [] && i <= |w|
    decreases |elems|, 0
  {
    Denotes(elems[0], w[..i], w[i..] + rest) && Fits(elems[1..], w[i..], rest)
  }

  /** The language of a pattern: what a whole line must be. */
  ghost predicate InLanguage(elems: seq<Elem>, line: string) {
    Fits(elems, line, [])
  }

  // ----- Laws -----

  /** A pattern made of two parts splits the string in two. */
  lemma {:induction false} FitsConcat(a: seq<Elem>, b: seq<Elem>, w: string, rest: string)
    ensures Fits(a + b, w, rest) <==>
      exists i :: 0 <= i <= |w| && Fits(a, w[..i], w[i..] + rest) && Fits(b, w[i..], rest)
    decreases |a|
  {
    if a == [] {
      assert a + b == b && w[0..] == w;
      if Fits(b, w, rest) {
        assert Fits(a, w[..0], w[0..] + rest);
      }
    } else {
      assert (a + b)[1..] == a[1..] + b;
      forall i | 0 <= i <= |w|
        ensures FitsAt(a + b, w, rest, i) <==>
          Denotes(a[0], w[..i], w[i..] + rest) &&
          exists j :: i <= j <= |w| && Fits(a[1..], w[i..j], w[j..] + rest) && Fits(b, w[j..], rest)
      {
        FitsConcat(a[1..], b, w[i..], rest);
        forall j | i <= j <= |w|
          ensures w[i..][..j - i] == w[i..j] && w[i..][j - i..] == w[j..]
        {
        }
        if j :| 0 <= j <= |w[i..]| && Fits(a[1..], w[i..][..j], w[i..][j..] + rest) && Fits(b, w[i..][j..], rest) {
          assert Fits(a[1..], w[i..i + j], w[i + j..] + rest);
        }
      }
      forall j | 0 <= j <= |w|
        ensures Fits(a, w[..j], w[j..] + rest) <==>
          exists i :: 0 <= i <= j && Denotes(a[0], w[..i], w[i..] + rest) && Fits(a[1..], w[i..j], w[j..] + rest)
      {
        forall i | 0 <= i <= j
          ensures FitsAt(a, w[..j], w[j..] + rest, i) <==>
            Denotes(a[0], w[..i], w[i..] + rest) && Fits(a[1..], w[i..j], w[j..] + rest)
        {
          assert w[..j][..i] == w[..i] && w[..j][i..] == w[i..j];
          assert w[i..j] + (w[j..] + rest) == w[i..] + rest;
        }
      }
    }
  }

  lemma OnlyEnd(w: string)
    ensures Fits([End], w, []) <==> w == []
  {
    if j :| 0 <= j <= |w| && FitsAt([End], w, [], j) {
      assert w[j..] + [] == w[j..] && w == w[..j] + w[j..];
    }
    if w == [] {
      assert FitsAt([End], w, [], 0);
    }
  }

  lemma EndChangesNothing(elems: seq<Elem>, line: string)
    ensures InLanguage(elems + [End], line) <==> Fits(elems, line, [])
  {
    FitsConcat(elems, [End], line, []);
    forall i | 0 <= i <= |line| ensures Fits([End], line[i..], []) <==> i == |line| {
      OnlyEnd(line[i..]);
    }
    assert line[..|line|] == line && line[|line|..] + [] == [];
  }

  /** Without numbers (and END) what follows makes no difference. */
  ghost predicate Unbounded(elems: seq<Elem>) {
    forall i :: 0 <= i < |elems| ==> !elems[i].NumRange? && !elems[i].End?
  }

  lemma {:induction false} RestChangesNothing(elems: seq<Elem>, w: string, rest: string, rest': string)
    requires Unbounded(elems)
    ensures Fits(elems, w, rest) <==> Fits(elems, w, rest')
    decreases |elems|
  {
    if elems == [] {
    } else {
      forall i | 0 <= i <= |w|
        ensures FitsAt(elems, w, rest, i) <==> FitsAt(elems, w, rest', i)
      {
        RestChangesNothing(elems[1..], w[i..], rest, rest');
      }
    }
  }

  /** A leading "**" skips any number of characters. */
  lemma AnySeqSkips(elems: seq<Elem>, w: string, rest: string)
    ensures Fits([AnySeq] + elems, w, rest) <==> exists i :: 0 <= i <= |w| && Fits(elems, w[i..], rest)
  {
    var p := [AnySeq] + elems;
    assert p[1..] == elems;
    forall i | 0 <= i <= |w|
      ensures FitsAt(p, w, rest, i) <==> Fits(elems, w[i..], rest)
    {
    }
  }

  /** A second "**" next to the first adds nothing. */
  lemma AnySeqTwice(elems: seq<Elem>, w: string, rest: string)
    ensures Fits([AnySeq] + ([AnySeq] + elems), w, rest) <==> Fits([AnySeq] + elems, w, rest)
  {
    AnySeqSkips([AnySeq] + elems, w, rest);
    AnySeqSkips(elems, w, rest);
    if i :| 0 <= i <= |w| && Fits([AnySeq] + elems, w[i..], rest) {
      AnySeqSkips(elems, w[i..], rest);
      var j :| 0 <= j <= |w[i..]| && Fits(elems, w[i..][j..], rest);
      assert w[i..][j..] == w[i + j..];
    }
    if Fits([AnySeq] + elems, w, rest) {
      assert w[0..] == w;
    }
  }

  lemma OneAnySeq(w: string, rest: string)
    ensures Fits([AnySeq], w, rest)
  {
    assert FitsAt([AnySeq], w, rest, |w|);
  }

  // ----- Deciding membership from the left -----

  ghost predicate HoldsAt(elems: seq<Elem>, w: string, i: nat)
    requires elems != [] && i <= |w|
  {
    Denotes(elems[0], w[..i], w[i..]) && InLanguage(elems[1..], w[i..])
  }

  lemma LanguageSplits(elems: seq<Elem>, w: string)
    requires elems != []
    ensures InLanguage(elems, w) <==> exists i :: 0 <= i <= |w| && HoldsAt(elems, w, i)
  {
    forall i | 0 <= i <= |w|
      ensures FitsAt(elems, w, [], i) <==> HoldsAt(elems, w, i)
    {
      assert w[i..] + [] == w[i..];
    }
    assert InLanguage(elems, w) == Fits(elems, w, []);
  }

  /** An element that can only take n characters. */
  lemma OnlySplit(elems: seq<Elem>, w: string, n: nat)
    requires elems != [] && n <= |w|
    requires forall i :: 0 <= i <= |w| && Denotes(elems[0], w[..i], w[i..]) ==> i == n
    ensures InLanguage(elems, w) <==> HoldsAt(elems, w, n)
  {
    LanguageSplits(elems, w);
  }

  lemma NoSplit(elems: seq<Elem>, w: string)
    requires elems != []
    requires forall i :: 0 <= i <= |w| ==> !Denotes(elems[0], w[..i], w[i..])
    ensures !InLanguage(elems, w)
  {
    LanguageSplits(elems, w);
  }

  /** A number takes all digits at the head of the line, or nothing. */
  lemma NumberTakesAllDigits(e: Elem, s: string, n: nat)
    requires e.NumRange? && 0 < n <= |s|
    requires (forall i :: 0 <= i < n ==> IsDigit(s[i])) && (n < |s| ==> !IsDigit(s[n]))
    ensures forall i :: 0 <= i <= |s| && Denotes(e, s[..i], s[i..]) ==> i == n
    ensures Denotes(e, s[..n], s[n..]) <==> WithinBounds(e, NumberOf(s[..n]))
  {
    assert forall i :: 0 <= i < n ==> s[i..][0] == s[i];
    assert forall i :: n < i <= |s| ==> s[..i][n] == s[n];
  }
}
