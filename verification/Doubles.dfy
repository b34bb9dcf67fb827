// Doubles as two words, and the double that C makes of an integer.
module Doubles {
  import opened Arith
  import opened ByteNumbers
  import opened Decimal

  // The fields of a double given by its high and low words, without the sign.
  function Fraction(d0: Word, d1: Word): nat {
    d0 % 0x10_0000 * 0x1_0000_0000 + d1
  }

  function BiasedExponent(d0: Word): nat {
    d0 / 0x10_0000 % 0x800
  }

  predicate Finite(d0: Word) {
    BiasedExponent(d0) < 0x7FF
  }

  predicate Negative(d0: Word) {
    d0 >= 0x8000_0000
  }

  // |d| == Significand * 2^UnitExponent
  function Significand(d0: Word, d1: Word): nat {
    if BiasedExponent(d0) > 0 then 0x10_0000_0000_0000 + Fraction(d0, d1) else Fraction(d0, d1)
  }

  function UnitExponent(d0: Word): int {
    if BiasedExponent(d0) > 0 then BiasedExponent(d0) - 1075 else -1074
  }

  lemma ExponentField(d0: Word)
    ensures d0 % 0x8000_0000 / 0x10_0000 == d0 / 0x10_0000 % 0x800
  {
  }

  lemma FieldsWithoutSign(d0: Word)
    ensures d0 % 0x8000_0000 == 0x10_0000 * BiasedExponent(d0) + d0 % 0x10_0000
  {
    ExponentField(d0);
    var x := d0 % 0x8000_0000;
    assert x % 0x10_0000 == d0 % 0x10_0000;
  }

  // From each double to the next it is one unit, from the largest subnormal to the smallest normal one too.
  lemma NextDouble(d0: Word, d1: Word)
    requires d0 < 0x7FEF_FFFF || (d0 == 0x7FEF_FFFF && d1 < 0xFFFF_FFFF)
    ensures var e0: Word := if d1 == 0xFFFF_FFFF then d0 + 1 else d0;
            var e1: Word := if d1 == 0xFFFF_FFFF then 0 else d1 + 1;
            var up := UnitExponent(e0) - UnitExponent(d0);
            0 <= up <= 1 && Significand(e0, e1) * (if up == 1 then 2 else 1) == Significand(d0, d1) + 1
  {
    if d1 == 0xFFFF_FFFF {
      NextFields(d0);
    }
  }

  lemma NextFields(d0: Word)
    requires d0 < 0x7FEF_FFFF
    ensures if d0 % 0x10_0000 == 0xF_FFFF
            then (d0 + 1) % 0x10_0000 == 0 && BiasedExponent(d0 + 1) == BiasedExponent(d0) + 1
            else (d0 + 1) % 0x10_0000 == d0 % 0x10_0000 + 1 && BiasedExponent(d0 + 1) == BiasedExponent(d0)
  {
  }

  // The unit of the subnormal doubles.
  lemma SmallestDouble()
    ensures Significand(0, 1) == 1 && UnitExponent(0) == -1074
    ensures Significand(0x3FF0_0000, 0) == Pow(2, 52) && UnitExponent(0x3FF0_0000) == -52
  {
    Power53();
  }

  // ---- integers as doubles ----

  function Magnitude(i: int): nat {
    if i < 0 then -i else i
  }

  function BitLength(n: nat): nat {
    if n == 0 then 0 else 1 + BitLength(n / 2)
  }

  // The unit in which the 53 bits of the significand count a larger integer.
  function UnitOf(n: nat): (u: nat)
    ensures u > 0
  {
    var w := BitLength(n);
    if w <= 53 then 1 else (PowPositive(2, w - 53); Pow(2, w - 53))
  }

  // Of a positive integer, in its unit; rounding may carry into one more bit.
  function RoundedSignificand(n: nat): nat {
    if BitLength(n) <= 53 then n * Pow(2, 53 - BitLength(n)) else RoundHalfEven(n, UnitOf(n))
  }

  // (double)i, as 64 bits; a carry goes into the exponent.
  function FromInteger(i: Int64): (x: nat)
    ensures x < U64_MOD
  {
    var n := Magnitude(i);
    if n == 0 then 0
    else
      ConvertedFits(n);
      (if i < 0 then 0x8000_0000_0000_0000 else 0)
         + (BitLength(n) + 1022) * 0x10_0000_0000_0000 + RoundedSignificand(n) - 0x10_0000_0000_0000
  }

  // An integer that has a double: what is below its highest 53 bits is zero.
  predicate FitsDouble(i: int) {
    Magnitude(i) % UnitOf(Magnitude(i)) == 0
  }

  // The finite double denotes the integer.
  ghost predicate Denotes(d0: Word, d1: Word, i: int) {
    && (Negative(d0) ==> i <= 0) && (!Negative(d0) ==> i >= 0)
    && Significand(d0, d1) * Pow(2, Up(UnitExponent(d0))) == Magnitude(i) * Pow(2, Up(-UnitExponent(d0)))
  }

  lemma {:induction false} BitLengthBounds(n: nat)
    requires n > 0
    ensures BitLength(n) > 0 && Pow(2, BitLength(n) - 1) <= n < Pow(2, BitLength(n))
  {
    if n > 1 {
      BitLengthBounds(n / 2);
    } else {
      assert Pow(2, 0) == 1 && Pow(2, 1) == 2;
    }
  }

  lemma BitLengthFits(n: nat, b: nat)
    requires n < Pow(2, b)
    ensures BitLength(n) <= b
  {
    if n > 0 && BitLength(n) > b {
      BitLengthBounds(n);
      PowMonotone(2, b, BitLength(n) - 1);
    }
  }

  lemma Power53()
    ensures Pow(2, 52) == 0x10_0000_0000_0000 && Pow(2, 53) == 0x20_0000_0000_0000
    ensures Pow(2, 64) == 0x1_0000_0000_0000_0000
  {
    assert Pow(2, 13) == 0x2000;
    PowAdd(2, 13, 13);
    PowAdd(2, 26, 26);
    PowAdd(2, 52, 12);
    assert Pow(2, 12) == 0x1000 && Pow(2, 53) == 2 * Pow(2, 52);
  }

  lemma SignificandBounds(n: nat)
    requires n > 0
    ensures 0x10_0000_0000_0000 <= RoundedSignificand(n) <= 0x20_0000_0000_0000
    ensures BitLength(n) <= 53 ==> RoundedSignificand(n) < 0x20_0000_0000_0000
  {
    hide Pow, RoundHalfEven, BitLength;
    var w := BitLength(n);
    BitLengthBounds(n);
    Power53();
    if w <= 53 {
      var p := Pow(2, 53 - w);
      PowPositive(2, 53 - w);
      PowAdd(2, w, 53 - w);
      PowAdd(2, w - 1, 53 - w);
      MulMonotone(p, Pow(2, w - 1), n);
      MulMonotone(p, n + 1, Pow(2, w));
      Distribute(p, n, 1);
      MulCommute(p, Pow(2, w - 1));
      MulCommute(p, Pow(2, w));
      MulCommute(p, n);
    } else {
      var u := UnitOf(n);
      PowAdd(2, 52, w - 53);
      PowAdd(2, 53, w - 53);
      QuotientBounds(n, u, 0x10_0000_0000_0000, 0x20_0000_0000_0000);
      RoundUpOrDown(n, u);
    }
  }

  lemma RoundUpOrDown(n: nat, u: nat)
    requires u > 0
    ensures n / u <= RoundHalfEven(n, u) <= n / u + 1
    ensures RoundHalfEven(n, u) * u == n <==> n % u == 0
  {
    var q := n / u;
    assert n == u * q + n % u;
    MulCommute(u, q);
    MulCommute(u, q + 1);
    Distribute(u, q, 1);
  }

  lemma QuotientBounds(n: nat, u: nat, a: nat, b: nat)
    requires u > 0 && a * u <= n < b * u
    ensures a <= n / u < b
  {
    var q := n / u;
    assert n == u * q + n % u;
    if q >= b {
      MulMonotone(u, b, q);
      MulCommute(u, b);
    }
    if q < a {
      MulMonotone(u, q + 1, a);
      MulCommute(u, a);
      Distribute(u, q, 1);
    }
  }

  lemma ConvertedFits(n: nat)
    requires 0 < n < U64_MOD
    ensures 0 < BitLength(n) <= 64 && 0x10_0000_0000_0000 <= RoundedSignificand(n) <= 0x20_0000_0000_0000
  {
    hide Pow, RoundedSignificand;
    Power53();
    SignificandBounds(n);
    BitLengthFits(n, 64);
    BitLengthBounds(n);
  }

  // The fields of what a conversion makes.
  lemma ConvertedFields(i: Int64)
    requires i != 0
    ensures var d0, d1, n := FromInteger(i) / U32_MOD, FromInteger(i) % U32_MOD, Magnitude(i);
            && Finite(d0) && (Negative(d0) <==> i < 0)
            && (if RoundedSignificand(n) < 0x20_0000_0000_0000
                then Significand(d0, d1) == RoundedSignificand(n) && UnitExponent(d0) == BitLength(n) - 53
                else Significand(d0, d1) == 0x10_0000_0000_0000 && UnitExponent(d0) == BitLength(n) - 52)
  {
    hide Pow, RoundedSignificand, BitLength;
    var n := Magnitude(i);
    ConvertedFits(n);
    FieldsOf(i < 0, BitLength(n) + 1022, RoundedSignificand(n) - 0x10_0000_0000_0000);
  }

  lemma FieldsOf(neg: bool, biased: nat, fraction: nat)
    requires 0 < biased < 0x7FE && fraction <= 0x10_0000_0000_0000
    ensures var x := (if neg then 0x8000_0000_0000_0000 else 0) + biased * 0x10_0000_0000_0000 + fraction;
            && x < U64_MOD && (Negative(x / U32_MOD) <==> neg)
            && (if fraction < 0x10_0000_0000_0000
                then BiasedExponent(x / U32_MOD) == biased && Fraction(x / U32_MOD, x % U32_MOD) == fraction
                else BiasedExponent(x / U32_MOD) == biased + 1 && Fraction(x / U32_MOD, x % U32_MOD) == 0)
  {
  }

  // The double is the integer, rounded half to even to its highest 53 bits.
  lemma ConvertedIsNearest(i: Int64)
    requires i != 0
    ensures var d0, d1, n := FromInteger(i) / U32_MOD, FromInteger(i) % U32_MOD, Magnitude(i);
            && (BitLength(n) <= 53 ==> Denotes(d0, d1, i))
            && (BitLength(n) > 53 ==>
                  UnitExponent(d0) > 0
                  && Significand(d0, d1) * Pow(2, UnitExponent(d0)) == RoundHalfEven(n, UnitOf(n)) * UnitOf(n))
  {
    hide BitLength, RoundHalfEven, Significand, UnitExponent, Pow;
    var n := Magnitude(i);
    var w := BitLength(n);
    ConvertedFields(i);
    SignificandBounds(n);
    Power53();
    FirstPowers();
    if w > 53 {
      PowAdd(2, 1, w - 53);
      MulAssoc(0x10_0000_0000_0000, 2, UnitOf(n));
    }
  }

  // An integer survives the conversion exactly where nothing is set below its highest 53 bits.
  lemma ConvertedIff(i: Int64)
    ensures Denotes(FromInteger(i) / U32_MOD, FromInteger(i) % U32_MOD, i) <==> FitsDouble(i)
  {
    hide BitLength, RoundHalfEven, Significand, UnitExponent, Pow;
    if i == 0 {
      ZeroConverted();
    } else {
      var n := Magnitude(i);
      ConvertedFields(i);
      ConvertedIsNearest(i);
      FirstPowers();
      RoundUpOrDown(n, UnitOf(n));
    }
  }

  lemma ZeroConverted()
    ensures FromInteger(0) == 0 && Denotes(0, 0, 0) && FitsDouble(0)
  {
    hide BitLength, UnitOf, Pow, Significand, UnitExponent;
    ZeroFields();
    ZeroModulo(UnitOf(0));
  }

  lemma ZeroFields()
    ensures Significand(0, 0) == 0 && !Negative(0)
  {
  }

  lemma ZeroModulo(u: nat)
    requires u > 0
    ensures 0 % u == 0
  {
    DivModUnique(0, u, 0, 0);
  }
}
