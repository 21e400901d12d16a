/** 128-bit unsigned integers as two 64-bit limbs that operations update in place. */
module Uint128 {
  import opened Wrappers
  import opened Bits
  import opened Limbs
  import opened Numerals

  class Uint128 {
    var lo: Limb
    var hi: Limb

    ghost function Value(): (v: nat)
      reads this
      ensures v < MODULUS
    {
      JoinBelow(hi, lo);
      Join(hi, lo)
    }

    constructor (hi: Limb, lo: Limb)
      ensures this.hi == hi && this.lo == lo && Value() == Join(hi, lo)
    {
      this.hi, this.lo := hi, lo;
    }

    constructor Copy(a: Uint128)
      ensures hi == a.hi && lo == a.lo && Value() == a.Value()
    {
      lo, hi := a.lo, a.hi;
    }

    method Assign(a: Uint128)
      modifies this
      ensures Value() == old(a.Value())
    {
      lo, hi := a.lo, a.hi;
    }

    predicate IsZero()
      reads this
      ensures IsZero() <==> Value() == 0
    {
      JoinOrder(0, 0, hi, lo);
      !(hi != 0 || lo != 0)
    }

    predicate Less(b: Uint128)
      reads this, b
      ensures Less(b) <==> Value() < b.Value()
    {
      JoinOrder(hi, lo, b.hi, b.lo);
      hi < b.hi || (hi == b.hi && lo < b.lo)
    }

    // ----- Addition and subtraction; an operand may be the receiver itself -----

    method AddAssign(b: Uint128)
      modifies this
      ensures Value() == (old(Value()) + old(b.Value())) % MODULUS
    {
      AddJoin(hi, lo, b.hi, b.lo);
      var oldLo := lo;
      lo := Add64(lo, b.lo);
      hi := Add64(hi, b.hi);
      if lo < oldLo {
        hi := Add64(hi, 1);
      }
    }

    method Negated() returns (r: Uint128)
      ensures fresh(r) && r.Value() == (MODULUS - Value()) % MODULUS
    {
      NegJoin(hi, lo);
      if lo == 0 {
        r := new Uint128(Neg64(hi), 0);
      } else {
        r := new Uint128(Not64(hi), Neg64(lo));
      }
    }

    method SubAssign(b: Uint128)
      modifies this
      ensures Value() == (old(Value()) - old(b.Value())) % MODULUS
    {
      ModDifference(Value(), b.Value());
      var minusB := b.Negated();
      AddAssign(minusB);
    }

    method Increment()
      modifies this
      ensures Value() == (old(Value()) + 1) % MODULUS
    {
      IncrementJoin(hi, lo);
      lo := Add64(lo, 1);
      if lo == 0 {
        hi := Add64(hi, 1);
      }
    }

    // ----- Shifts and bits -----

    method ShrAssign(n: nat)
      modifies this
      ensures Value() == old(Value()) / Pow2(n)
    {
      if n >= 128 {
        ShrAllJoin(hi, lo, n);
        lo, hi := 0, 0;
        return;
      }
      if n >= 64 {
        ShrFarJoin(hi, lo, n);
        lo := Shr64(hi, n - 64);
        hi := 0;
        return;
      }
      if n != 0 {
        ShrJoin(hi, lo, n);
        lo := Shr64(lo, n);
        var mask := Dec64(Shl64(1, n));
        lo := Or64(lo, Shl64(And64(hi, mask), 64 - n));
        hi := Shr64(hi, n);
      }
    }

    method ShlAssign(n: nat)
      modifies this
      ensures Value() == (old(Value()) * Pow2(n)) % MODULUS
    {
      if n >= 128 {
        ShlAllJoin(Join(hi, lo), n);
        lo, hi := 0, 0;
        return;
      }
      if n >= 64 {
        ShlFarJoin(hi, lo, n);
        hi := Shl64(lo, n - 64);
        lo := 0;
        return;
      }
      if n != 0 {
        ShlJoin(hi, lo, n);
        hi := Shl64(hi, n);
        var mask := Not64(Dec64(Shl64(1, 64 - n)));
        hi := Or64(hi, Shr64(And64(lo, mask), 64 - n));
        lo := Shl64(lo, n);
      }
    }

    predicate Bit(n: nat)
      reads this
      ensures Bit(n) <==> n < 128 && BitOf(Value(), n)
    {
      if n < 64 then
        BitOfLow(hi, lo, n);
        BitOfLimb(lo, n);
        And64(lo, Shl64(1, n)) != 0
      else if n < 128 then
        BitOfHigh(hi, lo, n);
        BitOfLimb(hi, n - 64);
        And64(hi, Shl64(1, n - 64)) != 0
      else false
    }

    method SetBit(n: nat)
      modifies this
      ensures Value() == old(Value()) + if n < 128 && !BitOf(old(Value()), n) then Pow2(n) else 0
    {
      if n >= 128 {
        return;
      }
      SetBitJoin(hi, lo, n);
      if n < 64 {
        lo := Or64(lo, Shl64(1, n));
      } else {
        hi := Or64(hi, Shl64(1, n - 64));
      }
    }

    // ----- Multiplication -----

    /** The body of the multiplication loop: adds a << i if the multiplier t has its low bit set, and shifts t. */
    method MulRound(a: Uint128, t: Uint128, i: nat)
      requires a != this && t != this && a != t
      modifies this, t
      ensures t.Value() == Quotient(old(t.Value()), 2)
      ensures Value() ==
        if BitOf(old(t.Value()), 0) then (old(Value()) + (a.Value() * Pow2(i)) % MODULUS) % MODULUS else old(Value())
    {
      OddIsBitZero(t.hi, t.lo);
      if And64(t.lo, 1) != 0 {
        var shifted := new Uint128.Copy(a);
        shifted.ShlAssign(i);
        AddAssign(shifted);
      }
      assert Pow2(1) == 2;
      t.ShrAssign(1);
    }

    method MulAssign(b: Uint128)
      modifies this
      ensures Value() == (old(Value()) * old(b.Value())) % MODULUS
    {
      if b.IsZero() {
        lo, hi := 0, 0;
        return;
      }
      if b.hi == 0 && b.lo == 1 {
        return;
      }
      var a := new Uint128.Copy(this);
      var t := new Uint128.Copy(b);
      ghost var x, y := Value(), b.Value();
      lo, hi := 0, 0;
      ProductStart(x, y);
      for i := 0 to 128
        invariant a.Value() == x && t.Value() == Quotient(y, Pow2(i)) && Value() == Product(x, y, i)
        invariant fresh(a) && fresh(t) && a != t
      {
        ProductRound(x, y, i);
        MulRound(a, t, i);
      }
      ProductEnd(x, y);
    }

    // ----- Division -----

    /** A uint32_t that counts down, past zero. */
    static function Dec32(b: nat): nat { if b == 0 then 0xFFFF_FFFF else b - 1 }

    static function Inc32(b: nat): nat { if b == 0xFFFF_FFFF then 0 else b + 1 }

    /** r <<= 1, and then the bit of dd below. */
    method BringDown(dd: Uint128, b: nat)
      requires dd != this && b < 128 && 2 * Value() + 1 < MODULUS
      modifies this
      ensures Value() == 2 * old(Value()) + if BitOf(dd.Value(), b) then 1 else 0
    {
      ghost var v := Value();
      ShlByOne(v);
      ShlAssign(1);
      if dd.Bit(b) {
        SetLowest(hi, lo, v);
        lo := Or64(lo, 1);
      }
    }

    /** The first loop: takes down leading bits of dd until they make up at least ds. */
    static method LeadingBits(dd: Uint128, ds: Uint128) returns (r: Uint128, b: nat)
      requires 0 < ds.Value() <= dd.Value()
      ensures fresh(r) && b < 128
      ensures r.Value() == Prefix(dd.Value(), b) && ds.Value() <= r.Value() < 2 * ds.Value()
    {
      r := new Uint128(0, 0);
      b := 127;
      ghost var j: nat := 128;
      WholePrefix(dd.Value());
      while r.Less(ds)
        invariant fresh(r) && j <= 128 && b == Dec32(j)
        invariant r.Value() == Prefix(dd.Value(), j) && r.Value() < 2 * ds.Value()
        decreases j
      {
        NextPrefix(dd.Value(), j);
        PrefixDoubles(dd.Value(), j);
        r.BringDown(dd, b);
        b := Dec32(b);
        j := j - 1;
      }
      b := Inc32(b);
    }

    /** The second loop: subtracts ds where it fits, and takes down the remaining bits. */
    static method SubtractAndShift(dd: Uint128, ds: Uint128, r: Uint128, start: nat) returns (q: Uint128)
      requires dd != r && ds != r && start < 128
      requires 0 < ds.Value() <= r.Value() < 2 * ds.Value() && r.Value() == Prefix(dd.Value(), start)
      modifies r
      ensures fresh(q) && q.Value() == dd.Value() / ds.Value() && r.Value() == dd.Value() % ds.Value()
    {
      q := new Uint128(0, 0);
      var b := start;
      ghost var d, s := dd.Value(), ds.Value();
      ghost var k: nat := 0;
      DivisionStarts(d, s, b, r.Value());
      while true
        invariant fresh(q) && b < 128 && dd.Value() == d && ds.Value() == s
        invariant LongDivision(d, s, b, k, q.Value(), r.Value())
        decreases b, r.Value()
      {
        if r.Less(ds) {
          if b == 0 {
            break;
          }
          DivisionBringsDown(d, s, b, k, q.Value(), r.Value());
          b := b - 1;
          r.BringDown(dd, b);
          k := 2 * k;
        } else {
          DivisionSubtracts(d, s, b, k, q.Value(), r.Value());
          SubtractWithin(r.Value(), s);
          r.SubAssign(ds);
          q.SetBit(b);
          k := k + 1;
        }
      }
      DivisionDone(d, s, k, q.Value(), r.Value());
    }

    /**
     Quotient and remainder by shifting and subtracting.  The remainder may be stored in the
     receiver, or in the divisor.  Division by zero fails.
     */
    method Div(ds: Uint128, remainder: Uint128) returns (ok: bool, q: Uint128)
      modifies remainder
      ensures ok <==> old(ds.Value()) != 0
      ensures ok ==>
        && fresh(q) && q.Value() == old(Value()) / old(ds.Value())
        && remainder.Value() == old(Value()) % old(ds.Value())
      ensures !ok ==> remainder.Value() == old(remainder.Value())
    {
      if ds.IsZero() {
        return false, this;
      }
      var dd := new Uint128.Copy(this);
      if dd.Less(ds) {
        DivUnique(Value(), ds.Value(), 0, Value());
        remainder.Assign(this);
        q := new Uint128(0, 0);
        return true, q;
      }
      var r, b := LeadingBits(dd, ds);
      q := SubtractAndShift(dd, ds, r, b);
      remainder.Assign(r);
      ok := true;
    }

    method DivAssign(b: Uint128) returns (ok: bool)
      modifies this
      ensures ok <==> old(b.Value()) != 0
      ensures ok ==> Value() == old(Value()) / old(b.Value())
      ensures !ok ==> Value() == old(Value())
    {
      var dummy := new Uint128(0, 0);
      var q;
      ok, q := Div(b, dummy);
      if ok {
        Assign(q);
      }
    }

    /** The remainder overwrites the receiver, which is also the dividend. */
    method ModAssign(b: Uint128) returns (ok: bool)
      modifies this
      ensures ok <==> old(b.Value()) != 0
      ensures ok ==> Value() == old(Value()) % old(b.Value())
      ensures !ok ==> Value() == old(Value())
    {
      var q;
      ok, q := Div(b, this);
    }

    // ----- Printing and parsing -----

    /** ii.div(radix, r), and r as an unsigned int. */
    method DigitOff(radix: Uint128, r: Uint128) returns (q: Uint128, c: nat)
      requires r != this && r != radix && 2 <= radix.Value() <= 37
      modifies r
      ensures fresh(q) && q.Value() == Quotient(Value(), radix.Value()) && c == Value() % radix.Value()
    {
      var _, quotient := Div(radix, r);
      q := quotient;
      JoinOrder(r.hi, r.lo, 0, 37);
      c := r.lo % 0x1_0000_0000;
    }

    static method PutDigit(sz: array<char>, i: nat, c: nat)
      requires sz.Length == 256 && i < 255 && c < 37
      modifies sz
      ensures sz[i..255] == [DigitChar(c)] + old(sz[i + 1..255])
    {
      sz[i] := DigitChar(c);
    }

    /** Digits are written from the end of the buffer; the result is what lies before its terminator. */
    method ToString(radix: nat) returns (s: string)
      ensures s == Text(Value(), radix)
      ensures Value() == 0 ==> s == "0"
      ensures Value() > 0 && 2 <= radix <= 37 ==>
        s != "" && Denoted(s, radix) == Value() && AreDigits(s, radix) && DigitValue(s[0]) != 0
      ensures Value() > 0 && (radix < 2 || radix > 37) ==> s == "(invalid radix)"
    {
      if IsZero() {
        return "0";
      }
      if radix < 2 || radix > 37 {
        return "(invalid radix)";
      }
      var sz := new char[256];
      var ii := new Uint128.Copy(this);
      var aux := new Uint128(0, radix);
      var r := new Uint128(0, 0);
      var i: nat := 255;
      ghost var x := Value();
      NumeralFitsBuffer(x, radix);
      while !ii.IsZero() && i != 0
        invariant fresh(sz) && fresh(ii) && fresh(r) && fresh(aux) && r != aux && ii != r && ii != aux
        invariant i <= 255 && Value() == x && aux.Value() == radix
        invariant Numeral(x, radix) == Numeral(ii.Value(), radix) + sz[i..255]
        decreases ii.Value()
      {
        ghost var v := ii.Value();
        Smaller(v, radix);
        LastDigit(v, radix, sz[i..255]);
        var c;
        ii, c := ii.DigitOff(aux, r);
        i := i - 1;
        PutDigit(sz, i, c);
      }
      s := sz[i..255];
      NumeralIsCanonical(x, radix);
    }

    /** Sets the receiver from decimal text, octal after "0", hexadecimal after "0x". */
    method Set(sz: string)
      modifies this
      ensures Value() == Parse(sz)
    {
      hi, lo := 0, 0;
      if sz == "" {
        return;
      }
      var radix, i, minus := 10, 0, false;
      if sz[i] == '-' {
        i := i + 1;
        minus := true;
      }
      if i < |sz| && sz[i] == '0' {
        radix := 8;
        i := i + 1;
        if i < |sz| && sz[i] == 'x' {
          radix := 16;
          i := i + 1;
        }
      }
      assert ParseUnsigned(if minus then sz[1..] else sz) == ParseDigits(sz[i..], radix, 0);
      ReadDigits(sz, i, radix);
      if minus {
        var zero := new Uint128(0, 0);
        zero.SubAssign(this);
        Assign(zero);
      }
    }

    /** The loop of set(): multiplies and adds until a character is no digit. */
    method ReadDigits(sz: string, start: nat, radix: nat)
      requires start <= |sz| && (radix == 8 || radix == 10 || radix == 16)
      modifies this
      ensures Value() == ParseDigits(sz[start..], radix, old(Value()))
    {
      var i := start;
      while i < |sz|
        invariant start <= i <= |sz|
        invariant ParseDigits(sz[start..], radix, old(Value())) == ParseDigits(sz[i..], radix, Value())
        decreases |sz| - i
      {
        assert sz[i..][1..] == sz[i + 1..];
        var n := DigitOf(sz[i], radix);
        if n.None? {
          return;
        }
        var factor := new Uint128(0, radix);
        MulAssign(factor);
        var digit := new Uint128(0, n.value);
        AddAssign(digit);
        i := i + 1;
      }
    }
  }
}
