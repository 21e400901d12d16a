/** Printing and parsing 128-bit numbers, as functions between numbers and text. */
module Numerals {
  import opened Wrappers
  import opened Bits
  import opened Limbs

  // ----- Printing -----

  function DigitChar(c: nat): char
    requires c < 37
  {
    if c > 9 then ('A' as int + (c - 10)) as char else ('0' as int + c) as char
  }

  /** The digits of x, most significant first; none for zero. */
  function Numeral(x: nat, radix: nat): string
    requires 2 <= radix <= 37
    decreases x
  {
    if x == 0 then ""
    else
      Smaller(x, radix);
      Numeral(Quotient(x, radix), radix) + [DigitChar(x % radix)]
  }

  /** Printing goes from the last digit to the first. */
  lemma LastDigit(x: nat, radix: nat, after: string)
    requires 2 <= radix <= 37 && x > 0
    ensures Numeral(x, radix) + after == Numeral(Quotient(x, radix), radix) + ([DigitChar(x % radix)] + after)
  {
    Smaller(x, radix);
    Regroup(Numeral(Quotient(x, radix), radix), [DigitChar(x % radix)], after);
  }

  lemma Regroup(a: string, b: string, c: string)
    ensures (a + b) + c == a + (b + c)
  {
  }

  lemma Smaller(x: nat, radix: nat)
    requires x > 0 && radix >= 2
    ensures Quotient(x, radix) <= x / 2 < x
  {
    var q := Quotient(x, radix);
    DivMod(x, radix);
    assert q * radix == q * (radix - 2) + 2 * q;
    assert q * (radix - 2) >= 0;
  }

  function Text(x: nat, radix: nat): string {
    if x == 0 then "0"
    else if radix < 2 || radix > 37 then "(invalid radix)"
    else Numeral(x, radix)
  }

  /** A number of n bits has at most n digits. */
  lemma {:induction false} NumeralIsShort(x: nat, radix: nat, n: nat)
    requires 2 <= radix <= 37 && x < Pow2(n)
    ensures |Numeral(x, radix)| <= n
    decreases x
  {
    if x == 0 {
    } else {
      Smaller(x, radix);
      NumeralIsShort(Quotient(x, radix), radix, n - 1);
    }
  }

  /** So the 255 characters of the buffer are enough. */
  lemma NumeralFitsBuffer(x: nat, radix: nat)
    requires 2 <= radix <= 37 && x < MODULUS
    ensures |Numeral(x, radix)| <= 128
  {
    LimbIs64Bits();
    NumeralIsShort(x, radix, 128);
  }

  /** What digit a character printed by toString is. */
  function DigitValue(c: char): nat {
    if c < 'A' then (if '0' <= c then c as nat - '0' as nat else 0) else c as nat - 'A' as nat + 10
  }

  /** The number that a string of digits denotes. */
  function Denoted(s: string, radix: nat): nat {
    if s == "" then 0 else Denoted(s[..|s| - 1], radix) * radix + DigitValue(s[|s| - 1])
  }

  lemma DenotedNext(s: string, c: char, radix: nat)
    ensures Denoted(s + [c], radix) == Denoted(s, radix) * radix + DigitValue(c)
  {
    assert (s + [c])[..|s|] == s;
  }

  /** All characters of s are digits or letters from A on, and stand for less than the radix. */
  ghost predicate AreDigits(s: string, radix: nat)
  {
    forall i :: 0 <= i < |s| ==> ('0' <= s[i] <= '9' || 'A' <= s[i]) && DigitValue(s[i]) < radix
  }

  lemma PrintedDigit(c: nat, radix: nat)
    requires c < radix <= 37
    ensures DigitValue(DigitChar(c)) == c && AreDigits([DigitChar(c)], radix)
  {
  }

  lemma AreDigitsConcat(a: string, b: string, radix: nat)
    requires radix <= 37 && AreDigits(a, radix) && AreDigits(b, radix)
    ensures AreDigits(a + b, radix)
  {
  }

  lemma NumeralUnfolds(x: nat, radix: nat) returns (q: nat, c: nat)
    requires 2 <= radix <= 37 && x > 0
    ensures q < x && c < radix && x == q * radix + c
    ensures Numeral(x, radix) == Numeral(q, radix) + [DigitChar(c)]
  {
    Smaller(x, radix);
    q, c := Quotient(x, radix), x % radix;
    DivMod(x, radix);
  }

  /** The canonical numeral: it denotes the number, all its digits are below the radix, and the first is not zero. */
  lemma {:induction false} NumeralIsCanonical(x: nat, radix: nat)
    requires 2 <= radix <= 37 && x > 0
    ensures var s := Numeral(x, radix);
      s != "" && Denoted(s, radix) == x && AreDigits(s, radix) && DigitValue(s[0]) != 0
    decreases x
  {
    var q, c := NumeralUnfolds(x, radix);
    var s := Numeral(q, radix);
    if q == 0 {
      assert s == "";
    } else {
      NumeralIsCanonical(q, radix);
    }
    DenotedNext(s, DigitChar(c), radix);
    PrintedDigit(c, radix);
    AreDigitsConcat(s, [DigitChar(c)], radix);
  }

  // ----- Parsing -----

  /** The digit tests of set(), with the bounds that the source uses. */
  function DigitOf(c: char, radix: nat): (d: Option<nat>)
    requires radix == 8 || radix == 10 || radix == 16
    ensures d.Some? ==> d.value <= 16
  {
    if '0' <= c <= '9' then
      if radix == 8 && c >= '9' then None else Some(c as nat - '0' as nat)
    else if 'a' <= c && c as int <= 'a' as int + radix - 10 then Some(c as nat - 'a' as nat + 10)
    else if 'A' <= c && c as int <= 'A' as int + radix - 10 then Some(c as nat - 'A' as nat + 10)
    else None
  }

  predicate IsDigitOf(c: char, radix: nat) {
    ('0' <= c <= '9' && c as nat - '0' as nat < radix) || (radix == 16 && ('a' <= c <= 'f' || 'A' <= c <= 'F'))
  }

  /** The first character beyond the digits of the radix. */
  predicate IsOneTooMany(c: char, radix: nat) {
    || (radix == 8 && c == '8')
    || (radix == 10 && (c == 'a' || c == 'A'))
    || (radix == 16 && (c == 'g' || c == 'G'))
  }

  /** The tests let through the digits of the radix, and exactly one more of each kind. */
  lemma OneDigitTooMany(c: char, radix: nat)
    requires radix == 8 || radix == 10 || radix == 16
    ensures DigitOf(c, radix).Some? && DigitOf(c, radix).value < radix <==> IsDigitOf(c, radix)
    ensures DigitOf(c, radix).Some? && DigitOf(c, radix).value >= radix <==> IsOneTooMany(c, radix)
  {
  }

  /** Reads digits up to the first character that is none. */
  function ParseDigits(s: string, radix: nat, v: nat): nat
    requires radix == 8 || radix == 10 || radix == 16
    decreases |s|
  {
    if s == "" then v
    else
      match DigitOf(s[0], radix)
      case None => v
      case Some(n) => ParseDigits(s[1..], radix, ((v * radix) % MODULUS + n) % MODULUS)
  }

  function ParseUnsigned(s: string): nat {
    if s == "" || s[0] != '0' then ParseDigits(s, 10, 0)
    else if |s| > 1 && s[1] == 'x' then ParseDigits(s[2..], 16, 0)
    else ParseDigits(s[1..], 8, 0)
  }

  /** The value that set() gives to a text. */
  function Parse(s: string): int {
    if s != "" && s[0] == '-' then (0 - ParseUnsigned(s[1..])) % MODULUS else ParseUnsigned(s)
  }

  /** The octal text 08 is read as the number 8. */
  lemma EightIsReadInOctal()
    ensures Parse("08") == 8
  {
    assert "08"[1..] == "8" && "8"[1..] == "";
    assert ParseDigits("8", 8, 0) == ParseDigits("", 8, 8);
  }

  // ----- What set() makes of any text -----

  /** set() takes all of s as digits. */
  predicate AreRead(s: string, radix: nat)
    requires radix == 8 || radix == 10 || radix == 16
  {
    forall i :: 0 <= i < |s| ==> DigitOf(s[i], radix).Some?
  }

  /** The number that they make, however large. */
  function ReadValue(s: string, radix: nat): nat
    requires radix == 8 || radix == 10 || radix == 16
    requires AreRead(s, radix)
  {
    if s == "" then 0 else ReadValue(s[..|s| - 1], radix) * radix + DigitOf(s[|s| - 1], radix).value
  }

  /** set() stops in front of s. */
  predicate StopsAt(s: string, radix: nat)
    requires radix == 8 || radix == 10 || radix == 16
  {
    s == "" || DigitOf(s[0], radix).None?
  }

  lemma AccumulateModulo(v: nat, radix: nat, n: nat)
    ensures (((v % MODULUS) * radix) % MODULUS + n) % MODULUS == (v * radix + n) % MODULUS
  {
    var k, r := Split(v, MODULUS);
    TimesSum(k, r, radix);
    AddMultiple(r * radix, k * radix, MODULUS);
    PlusModulo(v * radix, n);
  }

  lemma TimesSum(k: nat, r: nat, radix: nat)
    ensures (k * MODULUS + r) * radix == r * radix + (k * radix) * MODULUS
  {
  }

  lemma PlusModulo(x: nat, n: nat)
    ensures (x % MODULUS + n) % MODULUS == (x + n) % MODULUS
  {
    var q, r := Split(x, MODULUS);
    AddMultiple(r + n, q, MODULUS);
  }

  lemma ReadValueNext(a: string, c: char, radix: nat)
    requires radix == 8 || radix == 10 || radix == 16
    requires AreRead(a, radix) && DigitOf(c, radix).Some?
    ensures AreRead(a + [c], radix)
    ensures ReadValue(a + [c], radix) == ReadValue(a, radix) * radix + DigitOf(c, radix).value
  {
    assert (a + [c])[..|a|] == a;
  }

  lemma {:induction false} DigitsAreRead(a: string, b: string, rest: string, radix: nat)
    requires radix == 8 || radix == 10 || radix == 16
    requires AreRead(a, radix) && AreRead(b, radix) && StopsAt(rest, radix)
    ensures AreRead(a + b, radix)
    ensures ParseDigits(b + rest, radix, ReadValue(a, radix) % MODULUS) == ReadValue(a + b, radix) % MODULUS
    decreases |b|
  {
    if b == "" {
      assert a + b == a && b + rest == rest;
    } else {
      var c := a + [b[0]];
      ReadValueNext(a, b[0], radix);
      assert (b + rest)[1..] == b[1..] + rest && a + b == c + b[1..];
      AccumulateModulo(ReadValue(a, radix), radix, DigitOf(b[0], radix).value);
      DigitsAreRead(c, b[1..], rest, radix);
    }
  }

  lemma WholeTextIsRead(digits: string, rest: string, radix: nat)
    requires radix == 8 || radix == 10 || radix == 16
    requires AreRead(digits, radix) && StopsAt(rest, radix)
    ensures ParseDigits(digits + rest, radix, 0) == ReadValue(digits, radix) % MODULUS
  {
    assert "" + digits == digits;
    DigitsAreRead("", digits, rest, radix);
  }

  /** Digits up to the first character that is none make a number modulo 2^128: decimal ones, if the first is no 0. */
  lemma DecimalTextLaw(digits: string, rest: string)
    requires AreRead(digits, 10) && digits != "" && digits[0] != '0' && StopsAt(rest, 10)
    ensures Parse(digits + rest) == ReadValue(digits, 10) % MODULUS
  {
    WholeTextIsRead(digits, rest, 10);
  }

  /** Hexadecimal ones behind 0x. */
  lemma HexadecimalTextLaw(digits: string, rest: string)
    requires AreRead(digits, 16) && StopsAt(rest, 16)
    ensures Parse("0x" + digits + rest) == ReadValue(digits, 16) % MODULUS
  {
    WholeTextIsRead(digits, rest, 16);
    assert ("0x" + digits + rest)[2..] == digits + rest;
  }

  /** Octal ones behind any other 0. */
  lemma OctalTextLaw(digits: string, rest: string)
    requires AreRead(digits, 8) && StopsAt(rest, 8) && (digits == "" && rest != "" ==> rest[0] != 'x')
    ensures Parse("0" + digits + rest) == ReadValue(digits, 8) % MODULUS
  {
    WholeTextIsRead(digits, rest, 8);
    var text := "0" + digits + rest;
    assert text[1..] == digits + rest;
    assert digits != "" ==> text[1] == digits[0];
  }

  /** A text that does not begin like a number is read as zero. */
  lemma OtherTextLaw(text: string)
    requires text == "" || (text[0] != '-' && DigitOf(text[0], 10).None?)
    ensures Parse(text) == 0
  {
  }

  /** A minus sign in front negates, modulo 2^128; a second one makes zero. */
  lemma MinusLaw(text: string)
    ensures text != "" && text[0] == '-' ==> Parse("-" + text) == 0
    ensures text == "" || text[0] != '-' ==> Parse("-" + text) == (MODULUS - Parse(text)) % MODULUS
  {
    assert ("-" + text)[1..] == text;
    ParseIsBelow(text);
  }

  lemma {:induction false} ParseDigitsIsBelow(s: string, radix: nat, v: nat)
    requires (radix == 8 || radix == 10 || radix == 16) && v < MODULUS
    ensures ParseDigits(s, radix, v) < MODULUS
    decreases |s|
  {
    if s == "" || DigitOf(s[0], radix).None? {
    } else {
      ParseDigitsIsBelow(s[1..], radix, ((v * radix) % MODULUS + DigitOf(s[0], radix).value) % MODULUS);
    }
  }

  lemma ParseIsBelow(text: string)
    ensures ParseUnsigned(text) < MODULUS
  {
    ParseDigitsIsBelow(text, 10, 0);
    if |text| > 0 {
      ParseDigitsIsBelow(text[1..], 8, 0);
    }
    if |text| > 1 {
      ParseDigitsIsBelow(text[2..], 16, 0);
    }
  }

  /** Letters count from ten, and their case makes no difference. */
  lemma LettersAreDigits(i: nat, radix: nat)
    requires (radix == 8 || radix == 10 || radix == 16) && i < 26
    ensures var upper, lower := ('A' as int + i) as char, ('a' as int + i) as char;
      && DigitOf(upper, radix) == DigitOf(lower, radix)
      && (DigitOf(upper, radix).Some? ==> DigitOf(upper, radix).value == 10 + i)
  {
  }

  // ----- Round trips -----

  lemma PrintedDigitIsRead(c: nat, radix: nat)
    requires radix == 8 || radix == 10 || radix == 16
    requires c < radix
    ensures DigitOf(DigitChar(c), radix) == Some(c)
  {
  }

  lemma ReadDigit(q: nat, radix: nat, c: nat, x: nat)
    requires radix > 0 && c < radix && x == q * radix + c && x < MODULUS
    ensures ((q * radix) % MODULUS + c) % MODULUS == x
  {
    DivUnique(q * radix, MODULUS, 0, q * radix);
    DivUnique(x, MODULUS, 0, x);
  }

  lemma ParseDigit(c: nat, radix: nat, rest: string, v: nat)
    requires radix == 8 || radix == 10 || radix == 16
    requires c < radix
    ensures ParseDigits([DigitChar(c)] + rest, radix, v)
         == ParseDigits(rest, radix, ((v * radix) % MODULUS + c) % MODULUS)
  {
    PrintedDigitIsRead(c, radix);
    assert ([DigitChar(c)] + rest)[1..] == rest;
  }

  /** Reading a printed number and then more digits: the number is in the accumulator by then. */
  lemma {:induction false} ParsePrinted(x: nat, radix: nat, rest: string)
    requires radix == 8 || radix == 10 || radix == 16
    requires x < MODULUS
    ensures ParseDigits(Numeral(x, radix) + rest, radix, 0) == ParseDigits(rest, radix, x)
    decreases x
  {
    if x == 0 {
      assert "" + rest == rest;
    } else {
      Smaller(x, radix);
      var q, c := Quotient(x, radix), x % radix;
      DivMod(x, radix);
      var digit := [DigitChar(c)];
      assert Numeral(x, radix) + rest == Numeral(q, radix) + (digit + rest);
      ParsePrinted(q, radix, digit + rest);
      ParseDigit(c, radix, rest, q);
      ReadDigit(q, radix, c, x);
    }
  }

  lemma ParseNumeral(x: nat, radix: nat)
    requires radix == 8 || radix == 10 || radix == 16
    requires x < MODULUS
    ensures ParseDigits(Text(x, radix), radix, 0) == x
  {
    if x > 0 {
      ParsePrinted(x, radix, "");
      assert Numeral(x, radix) + "" == Numeral(x, radix);
    } else {
      assert "0"[1..] == "";
    }
  }

  lemma DecimalParses(x: nat)
    requires x < MODULUS
    ensures Parse(Text(x, 10)) == x
  {
    ParseNumeral(x, 10);
    if x > 0 {
      NumeralIsCanonical(x, 10);
    } else {
      assert "0"[1..] == "";
    }
  }

  lemma HexadecimalParses(x: nat)
    requires x < MODULUS
    ensures Parse("0x" + Text(x, 16)) == x
  {
    ParseNumeral(x, 16);
    var hex := "0x" + Text(x, 16);
    assert hex[2..] == Text(x, 16);
  }

  lemma OctalParses(x: nat)
    requires x < MODULUS
    ensures Parse("0" + Text(x, 8)) == x
  {
    ParseNumeral(x, 8);
    var octal := "0" + Text(x, 8);
    if x > 0 {
      NumeralIsCanonical(x, 8);
    }
    assert octal[1..] == Text(x, 8) && octal[1] == Text(x, 8)[0];
  }

  /** set(toString(10)), set("0x" + toString(16)) and set("0" + toString(8)) give every number back. */
  lemma PrintedNumbersParse(x: nat)
    requires x < MODULUS
    ensures Parse(Text(x, 10)) == x
    ensures Parse("0x" + Text(x, 16)) == x
    ensures Parse("0" + Text(x, 8)) == x
  {
    DecimalParses(x);
    HexadecimalParses(x);
    OctalParses(x);
  }
}
