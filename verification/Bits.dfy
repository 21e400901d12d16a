/** Powers of two and bitwise operations on natural numbers. */
module Bits {

  function Pow2(n: nat): (p: nat)
    ensures p > 0
  {
    if n == 0 then 1 else 2 * Pow2(n - 1)
  }

  function And(a: nat, b: nat): nat
    decreases a
  {
    if a == 0 || b == 0 then 0
    else 2 * And(a / 2, b / 2) + (if a % 2 == 1 && b % 2 == 1 then 1 else 0)
  }

  function Or(a: nat, b: nat): nat
    decreases a + b
  {
    if a == 0 then b
    else if b == 0 then a
    else 2 * Or(a / 2, b / 2) + (if a % 2 == 1 || b % 2 == 1 then 1 else 0)
  }

  // ----- Division -----

  lemma MulAtLeast(d: int, m: nat)
    ensures d >= 1 ==> d * m >= m
    ensures d <= -1 ==> d * m + m <= 0
  {
    if d >= 1 {
      assert d * m == (d - 1) * m + m;
    }
    if d <= -1 {
      assert (-d) * m == (-d - 1) * m + m;
    }
  }

  /** Quotient and remainder are determined by their equation. */
  lemma DivUnique(x: nat, m: nat, q: nat, r: nat)
    requires m > 0 && x == q * m + r && r < m
    ensures x / m == q && x % m == r
  {
    var k, l := x / m, x % m;
    var d := q - k;
    assert d * m == l - r;
    MulAtLeast(d, m);
  }

  lemma DivMod(x: nat, m: nat)
    requires m > 0
    ensures x == (x / m) * m + x % m && x % m < m
  {
  }

  lemma Split(x: nat, m: nat) returns (d: nat, r: nat)
    requires m > 0
    ensures d == x / m && r == x % m && x == d * m + r && r < m
  {
    d, r := x / m, x % m;
  }

  /** Dividing by 2m is halving and dividing by m. */
  lemma Halve(x: nat, m: nat)
    requires m > 0
    ensures x / (2 * m) == (x / 2) / m && x % (2 * m) == 2 * ((x / 2) % m) + x % 2
  {
    var h := x / 2;
    DivMod(h, m);
    assert x == (h / m) * (2 * m) + (2 * (h % m) + x % 2);
    DivUnique(x, 2 * m, h / m, 2 * (h % m) + x % 2);
  }

  /** Dividing by a product is dividing twice. */
  lemma DivDiv(x: nat, a: nat, b: nat)
    requires a > 0 && b > 0
    ensures a * b > 0 && x / (a * b) == (x / a) / b && x % (a * b) == ((x / a) % b) * a + x % a
  {
    var q, r := Split(x, a);
    var h, u := Split(q, b);
    Nested(x, a, b, h, u, r);
    DivUnique(x, a * b, h, u * a + r);
  }

  lemma Nested(x: nat, a: nat, b: nat, h: nat, u: nat, r: nat)
    requires x == (h * b + u) * a + r && u < b && r < a
    ensures a * b > 0 && x == h * (a * b) + (u * a + r) && u * a + r < a * b
  {
    assert (h * b + u) * a == h * (a * b) + u * a;
    assert (b - u) * a == a * b - u * a;
    MulAtLeast(b - u, a);
  }

  /** A multiple of m added to x does not change the remainder. */
  lemma AddMultiple(x: nat, k: nat, m: nat)
    requires m > 0
    ensures (x + k * m) % m == x % m && (x + k * m) / m == x / m + k
  {
    DivMod(x, m);
    assert x + k * m == (x / m + k) * m + x % m;
    DivUnique(x + k * m, m, x / m + k, x % m);
  }

  lemma {:induction false} Pow2Sum(a: nat, b: nat)
    ensures Pow2(a + b) == Pow2(a) * Pow2(b)
    decreases a
  {
    if a == 0 {
    } else {
      Pow2Sum(a - 1, b);
      TwiceProduct(Pow2(a - 1), Pow2(b));
    }
  }

  // ----- Bitwise operations as arithmetic -----

  lemma AndStep(a: nat, b: nat)
    ensures And(a, b) == 2 * And(a / 2, b / 2) + (if a % 2 == 1 && b % 2 == 1 then 1 else 0)
  {
  }

  /** Masking with n ones takes the remainder. */
  lemma {:induction false} AndLowMask(x: nat, n: nat)
    ensures And(x, Pow2(n) - 1) == x % Pow2(n)
    decreases n
  {
    if n == 0 {
    } else {
      AndLowMask(x / 2, n - 1);
      var p := Pow2(n - 1);
      Halve(x, p);
      AndOdd(x, p - 1, (x / 2) % p);
    }
  }

  lemma AndOdd(x: nat, h: nat, r: nat)
    requires And(x / 2, h) == r
    ensures And(x, 2 * h + 1) == 2 * r + x % 2
  {
    AndStep(x, 2 * h + 1);
    assert (2 * h + 1) / 2 == h && (2 * h + 1) % 2 == 1;
  }

  /** Masking with zeros below position n, and ones from there up to position w, clears the low bits. */
  lemma {:induction false} AndHighMask(x: nat, n: nat, w: nat)
    requires n <= w && x < Pow2(w)
    ensures Pow2(n) <= Pow2(w) && And(x, Pow2(w) - Pow2(n)) == x / Pow2(n) * Pow2(n)
    decreases n
  {
    Pow2Monotone(n, w);
    if n == 0 {
      AndLowMask(x, w);
      DivUnique(x, Pow2(w), 0, x);
    } else {
      var p, h := Pow2(n - 1), Pow2(w - 1);
      Pow2Monotone(n - 1, w - 1);
      AndHighMask(x / 2, n - 1, w - 1);
      Halve(x, p);
      EvenMask(x, h - p, (x / 2) / p, p);
    }
  }

  lemma TwiceProduct(q: nat, p: nat)
    ensures 2 * (q * p) == q * (2 * p) == (2 * q) * p
  {
  }

  lemma EvenMask(x: nat, m: nat, q: nat, p: nat)
    requires And(x / 2, m) == q * p
    ensures And(x, 2 * m) == q * (2 * p)
  {
    AndStep(x, 2 * m);
    assert (2 * m) / 2 == m && (2 * m) % 2 == 0;
    TwiceProduct(q, p);
  }

  lemma {:induction false} Pow2Monotone(a: nat, b: nat)
    requires a <= b
    ensures Pow2(a) <= Pow2(b)
    decreases b - a
  {
    if a >= b {
    } else {
      Pow2Monotone(a, b - 1);
    }
  }

  /** Numbers without a common bit, one below position n and one from there on: or is plus. */
  lemma {:induction false} OrDisjoint(a: nat, b: nat, n: nat)
    requires a % Pow2(n) == 0 && b < Pow2(n)
    ensures Or(a, b) == a + b
    decreases n
  {
    if n == 0 || a == 0 || b == 0 {
    } else {
      Halve(a, Pow2(n - 1));
      OrDisjoint(a / 2, b / 2, n - 1);
    }
  }

  /** Testing one bit. */
  lemma {:induction false} AndBit(x: nat, n: nat)
    ensures And(x, Pow2(n)) == (x / Pow2(n)) % 2 * Pow2(n)
    decreases n
  {
    if x == 0 {
      assert 0 / Pow2(n) == 0;
    } else if n == 0 {
      assert And(x / 2, 0) == 0;
      assert x / 1 == x;
    } else {
      AndBit(x / 2, n - 1);
      Halve(x, Pow2(n - 1));
      var b := (x / Pow2(n)) % 2;
      TwiceProduct(b, Pow2(n - 1));
    }
  }

  /** Setting a bit that is clear. */
  lemma {:induction false} OrBit(x: nat, n: nat)
    requires (x / Pow2(n)) % 2 == 0
    ensures Or(x, Pow2(n)) == x + Pow2(n)
    decreases n
  {
    if x == 0 {
    } else {
      if n == 0 {
        assert x / 1 == x;
        assert Or(x / 2, 0) == x / 2;
      } else {
        Halve(x, Pow2(n - 1));
        OrBit(x / 2, n - 1);
      }
    }
  }

  /** Setting a bit that is set already. */
  lemma {:induction false} OrBitAgain(x: nat, n: nat)
    requires (x / Pow2(n)) % 2 == 1
    ensures Or(x, Pow2(n)) == x
    decreases n
  {
    DivUnique(0, Pow2(n), 0, 0);
    if x > 0 && n == 0 {
      assert x / 1 == x;
      assert Or(x / 2, 0) == x / 2;
    } else if x > 0 {
      Halve(x, Pow2(n - 1));
      OrBitAgain(x / 2, n - 1);
    }
  }

  /** Scaling both sides of a division. */
  lemma ScaleDivision(x: nat, p: nat, q: nat)
    requires p > 0 && q > 0
    ensures p * q > 0 && (x * q) / (p * q) == x / p && (x * q) % (p * q) == (x % p) * q
  {
    var d, r := x / p, x % p;
    DivMod(x, p);
    assert x * q == d * (p * q) + r * q by {
      assert (d * p + r) * q == d * p * q + r * q;
    }
    assert r * q < p * q by {
      assert (p - r) * q >= q by { MulAtLeast(p - r, q); }
      assert (p - r) * q == p * q - r * q;
    }
    DivUnique(x * q, p * q, d, r * q);
  }

  lemma QuotientBelow(x: nat, p: nat, q: nat)
    requires p > 0 && x < p * q
    ensures x / p < q
  {
    var d := x / p;
    DivMod(x, p);
    assert d * p == q * p + (d - q) * p;
    MulAtLeast(d - q, p);
  }

  lemma MultipleMod(k: nat, q: nat)
    requires q > 0
    ensures (k * q) % q == 0 && (k * q) / q == k
  {
    DivUnique(k * q, q, k, 0);
  }
}
