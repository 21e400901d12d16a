/** 64-bit arithmetic, and what the two limbs of a 128-bit number make of it. */
module Limbs {
  import opened Bits

  const LIMB: nat := 0x1_0000_0000_0000_0000

  const MODULUS: nat := 0x1_0000_0000_0000_0000_0000_0000_0000_0000

  /** A uint64_t. */
  type Limb = x: nat | x < LIMB witness 0

  lemma HalfLimbIs32Bits()
    ensures Pow2(32) == 0x1_0000_0000
  {
    assert Pow2(8) == 256;
    Pow2Sum(8, 8);
    Pow2Sum(16, 16);
  }

  lemma LimbIs64Bits()
    ensures Pow2(64) == LIMB && Pow2(128) == MODULUS
  {
    HalfLimbIs32Bits();
    Pow2Sum(32, 32);
    Pow2Sum(64, 64);
  }

  function Add64(a: Limb, b: Limb): Limb { (a + b) % LIMB }

  function Neg64(a: Limb): Limb { if a == 0 then 0 else LIMB - a }

  function Not64(a: Limb): Limb { LIMB - 1 - a }

  function Dec64(a: Limb): Limb { if a == 0 then LIMB - 1 else a - 1 }

  function Shl64(a: Limb, n: nat): Limb { (a * Pow2(n)) % LIMB }

  function Shr64(a: Limb, n: nat): Limb {
    Quotient(a, Pow2(n))
  }

  /** Division of naturals; it never grows. */
  function Quotient(a: nat, m: nat): (q: nat)
    requires m > 0
    ensures q <= a && q == a / m
  {
    ShrinkByDivision(a, m);
    a / m
  }

  function And64(a: Limb, b: Limb): Limb {
    AndAtMost(a, b);
    And(a, b)
  }

  function Or64(a: Limb, b: Limb): Limb {
    LimbIs64Bits();
    OrBelow(a, b, 64);
    Or(a, b)
  }

  lemma ShrinkByDivision(a: nat, m: nat)
    requires m > 0
    ensures 0 <= a / m <= a
  {
    var q := a / m;
    DivMod(a, m);
    MulAtLeast(m, q);
  }

  lemma {:induction false} AndAtMost(a: nat, b: nat)
    ensures And(a, b) <= a
    decreases a
  {
    if a == 0 || b == 0 {
    } else {
      AndAtMost(a / 2, b / 2);
    }
  }

  lemma {:induction false} OrBelow(a: nat, b: nat, n: nat)
    requires a < Pow2(n) && b < Pow2(n)
    ensures Or(a, b) < Pow2(n)
    decreases n
  {
    if n == 0 || a == 0 || b == 0 {
    } else {
      OrBelow(a / 2, b / 2, n - 1);
    }
  }

  lemma {:induction false} OrCommutes(a: nat, b: nat)
    ensures Or(a, b) == Or(b, a)
    decreases a + b
  {
    if a == 0 || b == 0 {
    } else {
      OrCommutes(a / 2, b / 2);
    }
  }

  // ----- Two limbs -----

  function Join(hi: Limb, lo: Limb): nat {
    hi * LIMB + lo
  }

  lemma JoinBelow(hi: Limb, lo: Limb)
    ensures Join(hi, lo) < MODULUS
    ensures Join(hi, lo) / LIMB == hi && Join(hi, lo) % LIMB == lo
  {
    assert hi * LIMB <= (LIMB - 1) * LIMB;
    DivUnique(Join(hi, lo), LIMB, hi, lo);
  }

  /** Numbers compare as their limbs do, high limb first. */
  lemma JoinOrder(ahi: Limb, alo: Limb, bhi: Limb, blo: Limb)
    ensures Join(ahi, alo) < Join(bhi, blo) <==> ahi < bhi || (ahi == bhi && alo < blo)
    ensures Join(ahi, alo) == Join(bhi, blo) <==> ahi == bhi && alo == blo
  {
    var d := bhi - ahi;
    assert bhi * LIMB == ahi * LIMB + d * LIMB;
    MulAtLeast(d, LIMB);
  }

  lemma JoinIsRemainder(hi: Limb, lo: Limb, k: nat, x: nat)
    requires x == k * MODULUS + Join(hi, lo)
    ensures x % MODULUS == Join(hi, lo)
  {
    JoinBelow(hi, lo);
    DivUnique(x, MODULUS, k, Join(hi, lo));
  }

  /** Adding limbs with the carry that the source computes. */
  lemma AddJoin(ahi: Limb, alo: Limb, bhi: Limb, blo: Limb)
    ensures var lo := Add64(alo, blo);
      var h := Add64(ahi, bhi);
      var hi := if lo < alo then Add64(h, 1) else h;
      Join(hi, lo) == (Join(ahi, alo) + Join(bhi, blo)) % MODULUS
  {
    var lo := Add64(alo, blo);
    var c := if lo < alo then 1 else 0;
    assert alo + blo == c * LIMB + lo by {
      if alo + blo < LIMB {
        DivUnique(alo + blo, LIMB, 0, alo + blo);
      } else {
        DivUnique(alo + blo, LIMB, 1, alo + blo - LIMB);
      }
    }
    var h := Add64(ahi, bhi);
    var hi := if c == 1 then Add64(h, 1) else h;
    DivMod(ahi + bhi, LIMB);
    var k := (ahi + bhi) / LIMB;
    var m := if h + c < LIMB then 0 else 1;
    assert h + c == m * LIMB + hi by {
      if h + c < LIMB {
        DivUnique(h + c, LIMB, 0, h + c);
      } else {
        DivUnique(h + c, LIMB, 1, 0);
      }
    }
    assert ahi + bhi + c == (k + m) * LIMB + hi;
    CarryOut(ahi, bhi, c, k + m, hi, alo, blo, lo);
    JoinIsRemainder(hi, lo, k + m, Join(ahi, alo) + Join(bhi, blo));
  }

  /** The carry of ++ is a low limb that became zero. */
  lemma IncrementJoin(hi: Limb, lo: Limb)
    ensures Join(if Add64(lo, 1) == 0 then Add64(hi, 1) else hi, Add64(lo, 1)) == (Join(hi, lo) + 1) % MODULUS
  {
    AddJoin(hi, lo, 0, 1);
    DivUnique(hi, LIMB, 0, hi);
    if lo == LIMB - 1 {
      DivUnique(LIMB, LIMB, 1, 0);
    } else {
      DivUnique(lo + 1, LIMB, 0, lo + 1);
    }
  }

  lemma CarryOut(ahi: nat, bhi: nat, c: nat, k: nat, hi: nat, alo: nat, blo: nat, lo: nat)
    requires ahi + bhi + c == k * LIMB + hi && alo + blo == c * LIMB + lo
    ensures (ahi * LIMB + alo) + (bhi * LIMB + blo) == k * MODULUS + (hi * LIMB + lo)
  {
    assert (ahi + bhi + c) * LIMB == ahi * LIMB + bhi * LIMB + c * LIMB;
    assert (k * LIMB + hi) * LIMB == k * LIMB * LIMB + hi * LIMB;
    assert k * LIMB * LIMB == k * MODULUS;
  }

  lemma NegJoin(hi: Limb, lo: Limb)
    ensures var r := if lo == 0 then Join(Neg64(hi), 0) else Join(Not64(hi), Neg64(lo));
      r == (MODULUS - Join(hi, lo)) % MODULUS
  {
    JoinBelow(hi, lo);
    if lo == 0 && hi == 0 {
      DivUnique(MODULUS, MODULUS, 1, 0);
    } else {
      assert (LIMB - hi) * LIMB == MODULUS - hi * LIMB;
      assert (LIMB - 1 - hi) * LIMB == MODULUS - hi * LIMB - LIMB;
      var r := MODULUS - Join(hi, lo);
      assert r == if lo == 0 then Join(Neg64(hi), 0) else Join(Not64(hi), Neg64(lo));
      DivUnique(r, MODULUS, 0, r);
    }
  }

  // ----- Shifts -----

  lemma SplitLimb(n: nat)
    requires n <= 64
    ensures Pow2(64 - n) * Pow2(n) == Pow2(n) * Pow2(64 - n) == LIMB && Pow2(64) == LIMB
  {
    Pow2Sum(64 - n, n);
    Pow2Sum(n, 64 - n);
    LimbIs64Bits();
  }

  /** The limbs that <<= computes for 0 < n < 64. */
  function ShlHigh(hi: Limb, lo: Limb, n: nat): Limb
    requires 0 < n < 64
  {
    Or64(Shl64(hi, n), Shr64(And64(lo, Not64(Dec64(Shl64(1, 64 - n)))), 64 - n))
  }

  lemma OneShifted(n: nat)
    requires n < 64
    ensures Pow2(n) < LIMB && Shl64(1, n) == Pow2(n)
  {
    LimbIs64Bits();
    Pow2Monotone(n, 63);
    assert Pow2(64) == 2 * Pow2(63);
    DivUnique(Pow2(n), LIMB, 0, Pow2(n));
  }

  /** A left shift keeps the low bits. */
  lemma ShlLimb(x: Limb, n: nat)
    requires n <= 64
    ensures Shl64(x, n) == (x % Pow2(64 - n)) * Pow2(n)
  {
    SplitLimb(n);
    ScaleDivision(x, Pow2(64 - n), Pow2(n));
  }

  /** The high bits of the low limb, moved to the bottom. */
  lemma HighBitsMoved(lo: Limb, n: nat)
    requires 0 < n < 64
    ensures Shr64(And64(lo, Not64(Dec64(Shl64(1, 64 - n)))), 64 - n) == lo / Pow2(64 - n)
  {
    var p := Pow2(64 - n);
    LimbIs64Bits();
    OneShifted(64 - n);
    AndHighMask(lo, 64 - n, 64);
    MultipleMod(lo / p, p);
  }

  lemma ShlHighEquals(hi: Limb, lo: Limb, n: nat)
    requires 0 < n < 64
    ensures var p, q := Pow2(64 - n), Pow2(n);
      ShlHigh(hi, lo, n) == (hi % p) * q + lo / p && Shl64(lo, n) == (lo % p) * q
  {
    ShlLimb(hi, n);
    ShlLimb(lo, n);
    HighBitsMoved(lo, n);
    SplitLimb(n);
    OrHighLow(hi % Pow2(64 - n), lo, n, Pow2(64 - n));
  }

  /** Both limbs split at the cut, and the limbs of the result in terms of the pieces. */
  lemma ShlHighIs(hi: Limb, lo: Limb, n: nat, p: nat, q: nat) returns (a: nat, b: nat, c: nat, d: nat)
    requires 0 < n < 64 && p == Pow2(64 - n) && q == Pow2(n)
    ensures hi == a * p + b && lo == c * p + d
    ensures ShlHigh(hi, lo, n) == b * q + c && Shl64(lo, n) == d * q
  {
    ShlHighEquals(hi, lo, n);
    a, b := Split(hi, p);
    c, d := Split(lo, p);
  }

  lemma ShlJoin(hi: Limb, lo: Limb, n: nat)
    requires 0 < n < 64
    ensures Join(ShlHigh(hi, lo, n), Shl64(lo, n)) == (Join(hi, lo) * Pow2(n)) % MODULUS
  {
    var a, b, c, d := ShlHighIs(hi, lo, n, Pow2(64 - n), Pow2(n));
    SplitLimb(n);
    ShlParts(hi, lo, a, b, c, d, Pow2(64 - n), Pow2(n), ShlHigh(hi, lo, n), Shl64(lo, n));
  }

  lemma ShlParts(hi: Limb, lo: Limb, a: nat, b: nat, c: nat, d: nat, p: nat, q: nat, h: Limb, l: Limb)
    requires hi == a * p + b && lo == c * p + d && p * q == LIMB && h == b * q + c && l == d * q
    ensures Join(h, l) == (Join(hi, lo) * q) % MODULUS
  {
    ShlLimbs(hi, lo, a, b, c, d, p, q);
    JoinIsRemainder(h, l, a, Join(hi, lo) * q);
  }

  lemma ShlLimbs(hi: nat, lo: nat, a: nat, b: nat, c: nat, d: nat, p: nat, q: nat)
    requires hi == a * p + b && lo == c * p + d && p * q == LIMB
    ensures (hi * LIMB + lo) * q == a * MODULUS + ((b * q + c) * LIMB + d * q)
  {
    assert hi * q == a * LIMB + b * q by {
      assert (a * p + b) * q == a * (p * q) + b * q;
    }
    assert lo * q == c * LIMB + d * q by {
      assert (c * p + d) * q == c * (p * q) + d * q;
    }
    assert (hi * LIMB + lo) * q == (hi * q) * LIMB + lo * q;
  }

  /** A shift by 64 or more drops the high limb. */
  lemma ShlFarJoin(hi: Limb, lo: Limb, n: nat)
    requires 64 <= n
    ensures Join(Shl64(lo, n - 64), 0) == (Join(hi, lo) * Pow2(n)) % MODULUS
  {
    var r := Pow2(n - 64);
    Pow2Sum(64, n - 64);
    LimbIs64Bits();
    var a, b := Split(lo * r, LIMB);
    ShlFarLimbs(hi, lo, r, a, b);
    JoinIsRemainder(b, 0, hi * r + a, Join(hi, lo) * (LIMB * r));
  }

  lemma ShlFarLimbs(hi: nat, lo: nat, r: nat, a: nat, b: nat)
    requires lo * r == a * LIMB + b
    ensures (hi * LIMB + lo) * (LIMB * r) == (hi * r + a) * MODULUS + b * LIMB
  {
    assert (hi * LIMB + lo) * (LIMB * r) == (hi * r) * MODULUS + (lo * r) * LIMB by {
      assert (hi * LIMB + lo) * r == hi * r * LIMB + lo * r;
    }
  }

  /** A shift by 128 or more leaves nothing. */
  lemma ShlAllJoin(v: nat, n: nat)
    requires 128 <= n
    ensures (v * Pow2(n)) % MODULUS == 0
  {
    Pow2Sum(128, n - 128);
    LimbIs64Bits();
    assert v * (MODULUS * Pow2(n - 128)) == (v * Pow2(n - 128)) * MODULUS;
    MultipleMod(v * Pow2(n - 128), MODULUS);
  }

  /** The low limb that >>= computes for 0 < n < 64. */
  function ShrLow(hi: Limb, lo: Limb, n: nat): Limb
    requires 0 < n < 64
  {
    Or64(Shr64(lo, n), Shl64(And64(hi, Dec64(Shl64(1, n))), 64 - n))
  }

  lemma ProductBelow(b: nat, q: nat, p: nat)
    requires b < q
    ensures b * p + p <= q * p
  {
    assert (q - b) * p == q * p - b * p;
    MulAtLeast(q - b, p);
  }

  /** The low bits of the high limb, moved to the top. */
  lemma LowBitsMoved(hi: Limb, n: nat)
    requires 0 < n < 64
    ensures Shl64(And64(hi, Dec64(Shl64(1, n))), 64 - n) == (hi % Pow2(n)) * Pow2(64 - n)
  {
    SplitLimb(n);
    OneShifted(n);
    AndLowMask(hi, n);
    MovedBelow(hi % Pow2(n), Pow2(n), Pow2(64 - n));
  }

  lemma MovedBelow(b: nat, q: nat, p: nat)
    requires b < q && p * q == LIMB && p > 0
    ensures (b * p) % LIMB == b * p
  {
    ProductBelow(b, q, p);
    DivUnique(b * p, LIMB, 0, b * p);
  }

  lemma ShrLowEquals(hi: Limb, lo: Limb, n: nat)
    requires 0 < n < 64
    ensures ShrLow(hi, lo, n) == (hi % Pow2(n)) * Pow2(64 - n) + lo / Pow2(n)
  {
    var q, k, b := Pow2(n), 64 - n, hi % Pow2(n);
    LowBitsMoved(hi, n);
    SplitLimb(n);
    OrHighLow(b, lo, k, q);
    assert Shr64(lo, n) == lo / q;
  }

  lemma ShrLowIs(hi: Limb, lo: Limb, n: nat, p: nat, q: nat) returns (a: nat, b: nat, c: nat, d: nat)
    requires 0 < n < 64 && p == Pow2(64 - n) && q == Pow2(n)
    ensures hi == a * q + b && lo == c * q + d && d < q
    ensures ShrLow(hi, lo, n) == b * p + c && Shr64(hi, n) == a
  {
    ShrLowEquals(hi, lo, n);
    a, b := Split(hi, q);
    c, d := Split(lo, q);
  }

  lemma OrHighLow(b: nat, lo: nat, k: nat, q: nat)
    requires q > 0 && lo < q * Pow2(k)
    ensures Or(b * Pow2(k), lo / q) == b * Pow2(k) + lo / q
    ensures Or(lo / q, b * Pow2(k)) == b * Pow2(k) + lo / q
  {
    MultipleMod(b, Pow2(k));
    QuotientBelow(lo, q, Pow2(k));
    OrCommutes(lo / q, b * Pow2(k));
    OrDisjoint(b * Pow2(k), lo / q, k);
  }

  lemma ShrJoin(hi: Limb, lo: Limb, n: nat)
    requires 0 < n < 64
    ensures Join(Shr64(hi, n), ShrLow(hi, lo, n)) == Join(hi, lo) / Pow2(n)
  {
    var a, b, c, d := ShrLowIs(hi, lo, n, Pow2(64 - n), Pow2(n));
    SplitLimb(n);
    ShrLimbs(hi, lo, a, b, c, d, Pow2(64 - n), Pow2(n));
  }

  lemma ShrLimbs(hi: nat, lo: nat, a: nat, b: nat, c: nat, d: nat, p: nat, q: nat)
    requires hi == a * q + b && lo == c * q + d && p * q == LIMB && d < q
    ensures (hi * LIMB + lo) / q == a * LIMB + (b * p + c)
  {
    assert b * LIMB == (b * p) * q;
    assert hi * LIMB == (a * LIMB) * q + (b * p) * q;
    assert hi * LIMB + lo == (a * LIMB + (b * p + c)) * q + d;
    DivUnique(hi * LIMB + lo, q, a * LIMB + (b * p + c), d);
  }

  lemma ShrFarJoin(hi: Limb, lo: Limb, n: nat)
    requires 64 <= n
    ensures Shr64(hi, n - 64) == Join(hi, lo) / Pow2(n)
  {
    Pow2Sum(64, n - 64);
    LimbIs64Bits();
    JoinBelow(hi, lo);
    DivDiv(Join(hi, lo), LIMB, Pow2(n - 64));
  }

  lemma ShrAllJoin(hi: Limb, lo: Limb, n: nat)
    requires 128 <= n
    ensures Join(hi, lo) / Pow2(n) == 0
  {
    JoinBelow(hi, lo);
    Pow2Monotone(128, n);
    LimbIs64Bits();
    DivUnique(Join(hi, lo), Pow2(n), 0, Join(hi, lo));
  }

  // ----- Single bits -----

  /** The n-th bit of a number. */
  predicate BitOf(v: nat, n: nat) {
    Quotient(v, Pow2(n)) % 2 == 1
  }

  lemma BitOfLimb(x: Limb, n: nat)
    requires n < 64
    ensures And64(x, Shl64(1, n)) != 0 <==> BitOf(x, n)
  {
    OneShifted(n);
    AndBit(x, n);
  }

  lemma BitOfLow(hi: Limb, lo: Limb, n: nat)
    requires n < 64
    ensures BitOf(Join(hi, lo), n) <==> BitOf(lo, n)
  {
    var p, q := Pow2(63 - n), Pow2(n);
    SplitLimb(n);
    LowBitsAreLo(hi, lo, p, q);
  }

  lemma LowBitsAreLo(hi: nat, lo: nat, p: nat, q: nat)
    requires q > 0 && (2 * p) * q == LIMB
    ensures ((hi * LIMB + lo) / q) % 2 == (lo / q) % 2
  {
    EvenMultiple(hi, p, q);
    AddMultiple(lo, 2 * (hi * p), q);
    EvenAddend(lo / q, hi * p);
  }

  lemma EvenAddend(x: nat, k: nat)
    ensures (x + 2 * k) % 2 == x % 2
  {
  }

  lemma EvenMultiple(hi: nat, p: nat, q: nat)
    requires (2 * p) * q == LIMB
    ensures hi * LIMB == (2 * (hi * p)) * q
  {
    assert (2 * (hi * p)) * q == hi * ((2 * p) * q);
  }

  lemma BitOfHigh(hi: Limb, lo: Limb, n: nat)
    requires 64 <= n
    ensures BitOf(Join(hi, lo), n) <==> BitOf(hi, n - 64)
  {
    ShrFarJoin(hi, lo, n);
  }

  /** Setting bit n of one limb sets it in the number. */
  lemma SetBitJoin(hi: Limb, lo: Limb, n: nat)
    requires n < 128
    ensures var v := Join(hi, lo);
      var w := if n < 64 then Join(hi, Or64(lo, Shl64(1, n))) else Join(Or64(hi, Shl64(1, n - 64)), lo);
      w == if BitOf(v, n) then v else v + Pow2(n)
  {
    if n < 64 {
      SetBitLimb(lo, n);
      BitOfLow(hi, lo, n);
    } else {
      SetBitLimb(hi, n - 64);
      BitOfHigh(hi, lo, n);
      Pow2Sum(64, n - 64);
      LimbIs64Bits();
      Distribute(LIMB, hi, Pow2(n - 64));
    }
  }

  lemma SetBitLimb(x: Limb, n: nat)
    requires n < 64
    ensures Or64(x, Shl64(1, n)) == if BitOf(x, n) then x else x + Pow2(n)
  {
    OneShifted(n);
    if BitOf(x, n) {
      OrBitAgain(x, n);
    } else {
      OrBit(x, n);
    }
  }

  // ----- Multiplication by shifting and adding -----

  lemma ModDifference(x: nat, y: nat)
    requires x < MODULUS && y < MODULUS
    ensures (x + (MODULUS - y) % MODULUS) % MODULUS == (x - y) % MODULUS
  {
  }

  lemma ModSum(x: nat, y: nat)
    ensures (x % MODULUS + y % MODULUS) % MODULUS == (x + y) % MODULUS
  {
  }

  /** One more bit of the multiplier. */
  lemma LowBits(t: nat, i: nat)
    ensures t % Pow2(i + 1) == (if BitOf(t, i) then Pow2(i) else 0) + t % Pow2(i)
    ensures t / Pow2(i + 1) == (t / Pow2(i)) / 2
  {
    DivDiv(t, Pow2(i), 2);
    assert Pow2(i + 1) == Pow2(i) * 2;
  }

  lemma MulStep(a: nat, t: nat, i: nat)
    ensures (a * (t % Pow2(i + 1))) % MODULUS ==
      if BitOf(t, i) then ((a * (t % Pow2(i))) % MODULUS + (a * Pow2(i)) % MODULUS) % MODULUS
      else (a * (t % Pow2(i))) % MODULUS
  {
    LowBits(t, i);
    if BitOf(t, i) {
      Distribute(a, Pow2(i), t % Pow2(i));
      ModSum(a * (t % Pow2(i)), a * Pow2(i));
    }
  }

  lemma Distribute(a: nat, x: nat, y: nat)
    ensures a * (x + y) == a * x + a * y
  {
  }

  lemma OddIsBitZero(hi: Limb, lo: Limb)
    ensures And64(lo, 1) != 0 <==> BitOf(Join(hi, lo), 0)
  {
    BitOfLow(hi, lo, 0);
    AndBit(lo, 0);
  }

  lemma BitOfShifted(t: nat, i: nat)
    ensures BitOf(Quotient(t, Pow2(i)), 0) <==> BitOf(t, i)
  {
    var q := Quotient(t, Pow2(i));
    DivUnique(q, 1, q, 0);
  }

  /** The product of a and the i low bits of t. */
  ghost function Product(a: nat, t: nat, i: nat): nat {
    (a * (t % Pow2(i))) % MODULUS
  }

  lemma ProductRound(a: nat, t: nat, i: nat)
    ensures Product(a, t, i + 1) ==
      if BitOf(Quotient(t, Pow2(i)), 0) then (Product(a, t, i) + (a * Pow2(i)) % MODULUS) % MODULUS
      else Product(a, t, i)
    ensures Quotient(t, Pow2(i + 1)) == Quotient(Quotient(t, Pow2(i)), 2)
  {
    MulStep(a, t, i);
    BitOfShifted(t, i);
    LowBits(t, i);
  }

  lemma ProductStart(a: nat, t: nat)
    ensures Product(a, t, 0) == 0 && Quotient(t, Pow2(0)) == t
  {
    DivUnique(t, 1, t, 0);
    assert a * 0 == 0;
  }

  lemma ProductEnd(a: nat, t: nat)
    requires t < MODULUS
    ensures Product(a, t, 128) == (a * t) % MODULUS
  {
    LimbIs64Bits();
    DivUnique(t, MODULUS, 0, t);
  }

  // ----- Long division, bit by bit -----

  /** The prefix of d that ends before its j lowest bits. */
  ghost function Prefix(d: nat, j: nat): nat {
    Quotient(d, Pow2(j))
  }

  /** Bringing down the next bit. */
  lemma NextPrefix(d: nat, j: nat)
    requires j > 0
    ensures Prefix(d, j - 1) == 2 * Prefix(d, j) + (if BitOf(d, j - 1) then 1 else 0)
  {
    DivDiv(d, Pow2(j - 1), 2);
  }

  lemma WholePrefix(d: nat)
    ensures Prefix(d, 0) == d
    ensures d < MODULUS ==> Prefix(d, 128) == 0
  {
    DivUnique(d, 1, d, 0);
    if d < MODULUS {
      LimbIs64Bits();
      DivUnique(d, Pow2(128), 0, d);
    }
  }

  /** While bits remain, a prefix of a 128-bit number can be doubled without overflow. */
  lemma PrefixDoubles(d: nat, j: nat)
    requires d < MODULUS && j > 0
    ensures 2 * Prefix(d, j) + 1 <= d + 1 && 2 * Prefix(d, j) + 1 < MODULUS
  {
    DivDiv(d, 2, Pow2(j - 1));
    ShrinkByDivision(d / 2, Pow2(j - 1));
  }

  lemma ShlByOne(v: nat)
    requires 2 * v < MODULUS
    ensures (v * Pow2(1)) % MODULUS == 2 * v
  {
    assert Pow2(1) == 2;
  }

  /** Setting the lowest bit of a number that has been doubled. */
  lemma SetLowest(hi: Limb, lo: Limb, v: nat)
    requires Join(hi, lo) == 2 * v
    ensures Join(hi, Or64(lo, 1)) == 2 * v + 1
  {
    assert lo % 2 == 0;
    assert Pow2(0) == 1 && lo / 1 == lo;
    OrBit(lo, 0);
  }

  /**
   The state of a long division of d by s before the b lowest bits are brought down: k is the
   quotient so far, q the same in its final place, r the remainder so far.
   */
  ghost predicate LongDivision(d: nat, s: nat, b: nat, k: nat, q: nat, r: nat) {
    && d < MODULUS && 0 < s
    && Prefix(d, b) == k * s + r && q == k * Pow2(b)
    && r < 2 * s && (r >= s ==> k % 2 == 0)
  }

  lemma DivisionStarts(d: nat, s: nat, b: nat, r: nat)
    requires d < MODULUS && 0 < s && r == Prefix(d, b) && r < 2 * s
    ensures LongDivision(d, s, b, 0, 0, r)
  {
    assert 0 * s == 0 && 0 * Pow2(b) == 0;
  }

  lemma DivisionBringsDown(d: nat, s: nat, b: nat, k: nat, q: nat, r: nat)
    requires b > 0 && LongDivision(d, s, b, k, q, r) && r < s
    ensures 2 * r + 1 < MODULUS
    ensures LongDivision(d, s, b - 1, 2 * k, q, 2 * r + if BitOf(d, b - 1) then 1 else 0)
  {
    NextPrefix(d, b);
    PrefixDoubles(d, b);
    assert (2 * k) * s == 2 * (k * s);
    assert k * (2 * Pow2(b - 1)) == (2 * k) * Pow2(b - 1);
    assert k * s >= 0;
  }

  lemma DivisionSubtracts(d: nat, s: nat, b: nat, k: nat, q: nat, r: nat)
    requires LongDivision(d, s, b, k, q, r) && r >= s
    ensures !BitOf(q, b)
    ensures LongDivision(d, s, b, k + 1, q + Pow2(b), r - s)
  {
    MultipleMod(k, Pow2(b));
    assert (k + 1) * s == k * s + s;
    assert (k + 1) * Pow2(b) == k * Pow2(b) + Pow2(b);
  }

  lemma DivisionDone(d: nat, s: nat, k: nat, q: nat, r: nat)
    requires LongDivision(d, s, 0, k, q, r) && r < s
    ensures d / s == q && d % s == r
  {
    WholePrefix(d);
    DivUnique(d, s, k, r);
  }

  lemma SubtractWithin(x: nat, y: nat)
    requires y <= x < MODULUS
    ensures (x - y) % MODULUS == x - y
  {
    DivUnique(x - y, MODULUS, 0, x - y);
  }
}
