// A double as text: dtoa in mode 2 with its special cases, and the layout of what it returns.
module FormatDouble {
  import opened Arith
  import opened BignumShift
  import opened Decimal
  import opened PowersOfFive
  import opened Doubles
  import opened FixedDigits
  import opened GFmt
  import opened Reading

  const INF: seq<Byte> := [105, 110, 102]
  const NAN: seq<Byte> := [110, 97, 110]

  // m * 10^e == n * 10^f
  ghost predicate SameDecimal(m: int, e: int, n: int, f: int) {
    m * Pow(10, Up(e - f)) == n * Pow(10, Up(f - e))
  }

  // x is m * 2^e rounded half to even to p significant digits; 10^k is the power of ten below m * 2^e.
  ghost predicate IsRounded(x: Number, m: nat, e: int, k: int, p: nat) {
    HasExponent(m, e, k)
    && SameDecimal(x.mant, x.exp, RoundHalfEven(Num(m, e, p - 1 - k), Den(e, p - 1 - k)), k + 1 - p)
  }

  // ---- the decimal exponent of a double ----

  lemma {:induction false} TenAboveEight(n: nat)
    ensures Pow(10, n) >= Pow(2, 3 * n) > 0
  {
    if n > 0 {
      TenAboveEight(n - 1);
      SmallPowers();
      PowAdd(2, 3, 3 * n - 3);
    }
  }

  // A power of ten below 2^b.
  lemma TenBelow(n: nat, b: nat)
    requires Pow(10, n) < Pow(2, b)
    ensures 3 * n < b
  {
    TenAboveEight(n);
    if 3 * n >= b {
      PowMonotone(2, b, 3 * n);
    }
  }

  lemma FiftyThree()
    ensures Pow(2, 53) == 0x20_0000_0000_0000
  {
    SmallPowers();
    PowAdd(2, 32, 21);
    assert Pow(2, 21) == 0x20_0000;
  }

  lemma ExponentAbove(m: nat, e: int, k: nat)
    requires 0 < m < 0x20_0000_0000_0000 && e <= 971 && HasExponent(m, e, k)
    ensures k < 342
  {
    hide Pow;
    FiftyThree();
    PowPositive(2, Up(-e));
    PowPositive(2, Up(e));
    PowAdd(2, 53, Up(e));
    PowMonotone(2, 53 + Up(e), 1024);
    FirstPowers();
    MulMonotone(Pow(10, k), 1, Pow(2, Up(-e)));
    MulCommute(Pow(10, k), Pow(2, Up(-e)));
    MulMonotone(Pow(2, Up(e)), m + 1, Pow(2, 53));
    MulCommute(m + 1, Pow(2, Up(e)));
    Distribute(Pow(2, Up(e)), m, 1);
    MulCommute(m, Pow(2, Up(e)));
    MulCommute(Pow(2, 53), Pow(2, Up(e)));
    TenBelow(k, 1024);
  }

  lemma ExponentBelow(m: nat, e: int, k: int)
    requires 0 < m && e >= -1074 && k < 0 && HasExponent(m, e, k)
    ensures k > -360
  {
    hide Pow;
    var n := -k - 1;
    PowPositive(2, Up(e));
    PowPositive(10, n);
    PowMonotone(2, Up(-e), 1074);
    FirstPowers();
    PowAdd(10, 1, n);
    assert Up(-k) == n + 1 && Up(k) == 0;
    MulMonotone(Pow(10, n + 1), 1, Pow(2, Up(e)));
    MulCommute(Pow(10, n + 1), Pow(2, Up(e)));
    MulMonotone(Pow(2, Up(e)) * Pow(10, n + 1), 1, m);
    MulCommute(Pow(2, Up(e)) * Pow(10, n + 1), m);
    TenBelow(n, 1074);
  }

  lemma DoubleExponent(d0: Word, d1: Word, k: int)
    requires Finite(d0) && Significand(d0, d1) > 0 && HasExponent(Significand(d0, d1), UnitExponent(d0), k)
    ensures -360 < k < 342
  {
    hide HasExponent;
    if k >= 0 {
      ExponentAbove(Significand(d0, d1), UnitExponent(d0), k);
    } else {
      ExponentBelow(Significand(d0, d1), UnitExponent(d0), k);
    }
  }

  // ---- from digits to the rounded number ----

  lemma ScaledDecimal(v: int, r: int, z: nat, c: nat, e: int, f: int)
    requires v * Pow(10, c) == r && e - f == c - z
    ensures SameDecimal(v * Pow(10, z), e, r, f)
  {
    hide Pow;
    PowAdd(10, z, Up(e - f));
    PowAdd(10, c, Up(f - e));
    MulAssoc(v, Pow(10, z), Pow(10, Up(e - f)));
    MulAssoc(v, Pow(10, c), Pow(10, Up(f - e)));
    assert z + Up(e - f) == c + Up(f - e);
  }

  lemma RoundedReads(m: nat, e: int, k: int, p: nat, s: seq<Byte>, decpt: int, z: nat, neg: bool)
    requires Rounded(m, e, k, p, s, decpt) && HasExponent(m, e, k)
    ensures IsRounded(Number(neg, DecValue(s) * Pow(10, z), decpt - |s| - z), m, e, k, p)
  {
    hide Pow, Num, Den, RoundHalfEven, HasExponent, DecValue, SameDecimal;
    ScaledDecimal(DecValue(s), RoundHalfEven(Num(m, e, p - 1 - k), Den(e, p - 1 - k)), z, p - |s| + decpt - k - 1,
                  decpt - |s| - z, k + 1 - p);
  }

  // dtoa(d, 2, ndigits), whose sign is returned apart.
  method DoubleDigits(powers: Powers, d0: Word, d1: Word, k: int, kCheck: bool, ndigits: nat)
    returns (s: seq<Byte>, decpt: int, sign: bool)
    requires powers.Valid() && ndigits > 0
    requires var m, e := Significand(d0, d1), UnitExponent(d0);
             Finite(d0) && m > 0 ==> HasExponent(m, e, k) || (kCheck && HasExponent(m, e, k - 1))
    modifies powers
    ensures powers.Valid() && sign == Negative(d0)
    ensures !Finite(d0) ==> decpt == NOT_FINITE && s == if Fraction(d0, d1) == 0 then INF else NAN
    ensures Finite(d0) ==> decpt != NOT_FINITE && -400 < decpt < 400 && s != [] && IsDigits(s) && |s| <= ndigits
    ensures Finite(d0) && Significand(d0, d1) == 0 ==> s == [48] && decpt == 1
    ensures Finite(d0) && Significand(d0, d1) > 0 ==> s[0] > 48 && s[|s| - 1] > 48
    ensures var m, e := Significand(d0, d1), UnitExponent(d0);
            Finite(d0) && m > 0 ==>
              var k' := if HasExponent(m, e, k) then k else k - 1;
              Rounded(m, e, k', ndigits, s, decpt) && HasExponent(m, e, k')
  {
    hide HasExponent, Rounded;
    sign := d0 >= 0x8000_0000;
    if d0 / 0x10_0000 % 0x800 == 0x7FF {
      return if d1 == 0 && d0 % 0x10_0000 == 0 then INF else NAN, NOT_FINITE, sign;
    }
    if d1 == 0 && d0 % 0x8000_0000 == 0 {
      ZeroSignificand(d0);
      return [48], 1, sign;
    }
    FieldsWithoutSign(d0);
    NonZeroSignificand(d0, d1);
    ghost var m, e := Significand(d0, d1), UnitExponent(d0);
    ghost var k' := if HasExponent(m, e, k) then k else k - 1;
    DoubleExponent(d0, d1, k');
    var buf := new Byte[ndigits + 1](_ => 0);
    var len;
    len, decpt := Mode2(powers, d0, d1, k, kCheck, ndigits, buf);
    s := buf[..len];
    RoundedShape(m, e, k', ndigits, s, decpt);
  }

  lemma ZeroSignificand(d0: Word)
    requires d0 % 0x8000_0000 == 0
    ensures Significand(d0, 0) == 0 && Finite(d0)
  {
  }

  lemma NonZeroSignificand(d0: Word, d1: Word)
    requires d1 != 0 || BiasedExponent(d0) > 0 || d0 % 0x10_0000 != 0
    ensures Significand(d0, d1) > 0
  {
  }

  lemma RoundedShape(m: nat, e: int, k: int, p: nat, s: seq<Byte>, decpt: int)
    requires Rounded(m, e, k, p, s, decpt)
    ensures s != [] && IsDigits(s) && |s| <= p && k + 1 <= decpt <= k + 2 && s[0] > 48 && s[|s| - 1] > 48
  {
  }

  // fpconv_g_fmt.  The text of a finite double reads back as that double, rounded half to even to as
  // many digits as the precision says, and its sign; with the precisions that can be configured it
  // fits into 32 bytes with its terminating zero.  It has an exponent exactly where the number is below 10^-4
  // or at least 10^precision.
  method Format(powers: Powers, d0: Word, d1: Word, k: int, kCheck: bool, precision: nat) returns (b: seq<Byte>)
    requires powers.Valid() && precision > 0
    requires var m, e := Significand(d0, d1), UnitExponent(d0);
             Finite(d0) && m > 0 ==> HasExponent(m, e, k) || (kCheck && HasExponent(m, e, k - 1))
    modifies powers
    ensures powers.Valid()
    ensures !Finite(d0) ==>
              b == (if Negative(d0) then [45] else [])
                   + (if Fraction(d0, d1) == 0 then [105, 110, 102] else [110, 97, 110])
    ensures Finite(d0) ==> ReadNumber(b).Some? && ReadNumber(b).value.neg == Negative(d0)
    ensures Finite(d0) && Significand(d0, d1) == 0 ==>
              ReadNumber(b).value.mant == 0 && b == if Negative(d0) then [45, 48] else [48]
    ensures Finite(d0) && Significand(d0, d1) > 0 ==> Shaped(b, precision)
    ensures var m, e := Significand(d0, d1), UnitExponent(d0);
            Finite(d0) && m > 0 ==>
              IsRounded(ReadNumber(b).value, m, e, if HasExponent(m, e, k) then k else k - 1, precision)
    ensures precision <= 14 ==> |b| <= 21
  {
    hide HasExponent, Rounded, IsRounded, ReadNumber, DecValue, Significand, UnitExponent, Shaped;
    var s, decpt, sign := DoubleDigits(powers, d0, d1, k, kCheck, precision);
    b := Layout(s, decpt, sign, precision);
    ghost var m, e := Significand(d0, d1), UnitExponent(d0);
    if Finite(d0) {
      if m > 0 {
        RoundedReads(m, e, if HasExponent(m, e, k) then k else k - 1, precision, s, decpt,
                     AddedZeros(s, decpt, precision), sign);
      } else {
        ZeroDigit();
      }
    }
  }

  lemma ZeroDigit()
    ensures DecValue([48]) == 0
  {
    DecSnoc([], 48);
    assert [] + [48] == [48];
  }
}
