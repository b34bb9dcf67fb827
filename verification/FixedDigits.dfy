// dtoa in mode 2 on its bignum path: a double to at most ndigits correctly rounded digits.
module FixedDigits {
  import opened Arith
  import opened Bignum
  import opened BignumShift
  import opened Decimal
  import opened Doubles
  import opened Dtoa
  import opened DigitLoop
  import opened PowersOfFive

  // ---- equal fractions ----

  // a / b == c / d
  ghost predicate SameFraction(a: nat, b: nat, c: nat, d: nat) {
    a * d == c * b
  }

  lemma SameFractionOrder(a: nat, b: nat, c: nat, d: nat, f: nat)
    requires b > 0 && d > 0 && SameFraction(a, b, c, d)
    ensures a < f * b <==> c < f * d
  {
    if a < f * b && c >= f * d {
      FractionOrder(a, b, c, d, f);
    }
    if c < f * d && a >= f * b {
      FractionOrder(c, d, a, b, f);
    }
  }

  lemma FractionOrder(a: nat, b: nat, c: nat, d: nat, f: nat)
    requires b > 0 && d > 0 && a < f * b && c >= f * d
    ensures a * d < c * b
  {
    MulMonotone(d, a + 1, f * b);
    Distribute(d, a, 1);
    MulMonotone(b, f * d, c);
    MulCommute(d, a);
    MulCommute(b, c);
    MulAssoc(f, b, d);
    MulAssoc(f, d, b);
    MulCommute(b, d);
    MulCommute(d, f * b);
    MulCommute(b, f * d);
  }

  lemma SameFractionTimes(a: nat, b: nat, c: nat, d: nat, f: nat)
    requires SameFraction(a, b, c, d)
    ensures SameFraction(a * f, b, c * f, d)
  {
    MulAssoc(a, f, d);
    MulCommute(f, d);
    MulAssoc(a, d, f);
    MulAssoc(c, f, b);
    MulCommute(f, b);
    MulAssoc(c, b, f);
  }

  lemma TenExponents(t: int, j: nat)
    ensures Pow(10, Up(t + j)) * Pow(10, Up(-t)) == Pow(10, Up(t)) * Pow(10, j) * Pow(10, Up(-t - j))
  {
    hide Pow;
    PowAdd(10, Up(t + j), Up(-t));
    PowAdd(10, Up(t), j);
    PowAdd(10, Up(t) + j, Up(-t - j));
    assert Up(t + j) + Up(-t) == Up(t) + j + Up(-t - j);
  }

  // Multiplying m * 2^e * 10^t by 10^j.
  lemma TenfoldFraction(m: nat, e: int, t: int, j: nat)
    ensures SameFraction(Num(m, e, t + j), Den(e, t + j), Num(m, e, t) * Pow(10, j), Den(e, t))
  {
    hide Pow;
    TenExponents(t, j);
    Regroup(m, Pow(2, Up(e)), Pow(10, Up(t + j)), Pow(2, Up(-e)), Pow(10, Up(-t)));
    RegroupTimes(m, Pow(2, Up(e)), Pow(10, Up(t)), Pow(10, j), Pow(2, Up(-e)), Pow(10, Up(-t - j)));
  }

  lemma Regroup(m: int, a: int, b: int, c: int, d: int)
    ensures (m * (a * b)) * (c * d) == (m * (a * c)) * (b * d)
  {
    MulAssoc(m, a * b, c * d);
    MulAssoc(m, a * c, b * d);
    Regroup4(a, b, c, d);
  }

  lemma Regroup4(a: int, b: int, c: int, d: int)
    ensures (a * b) * (c * d) == (a * c) * (b * d)
  {
    MulAssoc(a, b, c * d);
    MulAssoc(b, c, d);
    MulCommute(b, c);
    MulAssoc(c, b, d);
    MulAssoc(a, c, b * d);
  }

  lemma RegroupTimes(m: int, a: int, b: int, f: int, c: int, d: int)
    ensures (m * (a * b)) * f * (c * d) == (m * (a * c)) * (b * f * d)
  {
    MulAssoc(m * (a * b), f, c * d);
    MulCommute(f, c * d);
    MulAssoc(m * (a * b), c * d, f);
    Regroup(m, a, b, c, d);
    MulAssoc(m * (a * c), b * d, f);
    MulAssoc(b, d, f);
    MulCommute(d, f);
    MulAssoc(b, f, d);
  }

  // Moving trailing zero bits of the significand into the exponent.
  lemma SameDouble(m: nat, e: int, s: nat, t: int)
    ensures SameFraction(Num(m * Pow(2, s), e, t), Den(e, t), Num(m, e + s, t), Den(e + s, t))
  {
    hide Pow;
    var p, q := Pow(10, Up(t)), Pow(10, Up(-t));
    PowAdd(2, s, Up(e));
    PowAdd(2, s + Up(e), Up(-e - s));
    PowAdd(2, Up(e + s), Up(-e));
    assert s + Up(e) + Up(-e - s) == Up(e + s) + Up(-e);
    Regroup(m * Pow(2, s), Pow(2, Up(e)), p, Pow(2, Up(-e - s)), q);
    MulAssoc(m, Pow(2, s), Pow(2, Up(e)) * Pow(2, Up(-e - s)));
    MulAssoc(Pow(2, s), Pow(2, Up(e)), Pow(2, Up(-e - s)));
    Regroup(m, Pow(2, Up(e + s)), p, Pow(2, Up(-e)), q);
  }

  // ---- the two sides of the division ----

  // Powers of five and two on either side stand for m * 2^e / 10^k.
  lemma PreparedFraction(m: nat, e: int, k: int, b2: nat, s2: nat)
    requires b2 + Up(-e) + Up(k) == s2 + Up(e) + Up(-k)
    ensures SameFraction(m * Pow(5, Up(-k)) * Pow(2, b2), Pow(5, Up(k)) * Pow(2, s2), Num(m, e, -k), Den(e, -k))
  {
    hide Pow;
    PowBase(2, 5, Up(k));
    PowBase(2, 5, Up(-k));
    PowAdd(2, b2, Up(-e));
    PowAdd(2, b2 + Up(-e), Up(k));
    PowAdd(2, s2, Up(e));
    PowAdd(2, s2 + Up(e), Up(-k));
    Gather(m, Pow(5, Up(-k)), Pow(2, b2), Pow(2, Up(-e)), Pow(2, Up(k)), Pow(5, Up(k)));
    Gather'(m, Pow(5, Up(-k)), Pow(2, s2), Pow(2, Up(e)), Pow(2, Up(-k)), Pow(5, Up(k)));
  }

  lemma Gather(m: int, f: int, p: int, u: int, a: int, c: int)
    ensures (m * f * p) * (u * (a * c)) == (m * f * c) * (p * u * a)
  {
    calc {
      (m * f * p) * (u * (a * c));
      { MulAssoc(u, a, c); MulAssoc(m * f, p, (u * a) * c); MulAssoc(p, u * a, c); MulAssoc(p, u, a); }
      (m * f) * ((p * u * a) * c);
      { MulCommute(p * u * a, c); MulAssoc(m * f, c, p * u * a); }
      (m * f * c) * (p * u * a);
    }
  }

  lemma Gather'(m: int, f: int, q: int, w: int, d: int, c: int)
    ensures (m * (w * (d * f))) * (c * q) == (m * f * c) * (q * w * d)
  {
    calc {
      (m * (w * (d * f))) * (c * q);
      { MulAssoc(w, d, f); MulCommute(w * d, f); MulAssoc(m, f, w * d); }
      ((m * f) * (w * d)) * (c * q);
      { Regroup4(m * f, w * d, c, q); MulCommute(w * d, q); MulAssoc(q, w, d); }
      (m * f * c) * (q * w * d);
    }
  }

  // ---- the algorithm ----

  // digits, with the point before the decpt-th, is m * 2^e rounded to nd significant digits,
  // ties to even, without trailing zeros; 10^k is the power of ten below m * 2^e.
  ghost predicate Rounded(m: nat, e: int, k: int, nd: nat, digits: seq<Byte>, decpt: int) {
    && 0 < |digits| <= nd && IsDigits(digits)
    && digits[0] > 48 && digits[|digits| - 1] > 48
    && k + 1 <= decpt <= k + 2
    && DecValue(digits) * Pow(10, nd - |digits| + decpt - k - 1)
       == RoundHalfEven(Num(m, e, nd - 1 - k), Den(e, nd - 1 - k))
  }

  // The exponents of two and five on either side, common factors of two taken out.
  method Exponents(e: int, k: int) returns (b2: nat, b5: nat, s2: nat, s5: nat)
    ensures b2 + Up(-e) + Up(k) == s2 + Up(e) + Up(-k)
    ensures b5 == Up(-k) && s5 == Up(k)
  {
    b2, s2, b5, s5 := 0, 0, 0, 0;
    if e <= 0 {
      s2 := -e;
    } else {
      b2 := e;
    }
    if k >= 0 {
      s5, s2 := k, s2 + k;
    } else {
      b2, b5 := b2 - k, -k;
    }
    if b2 > 0 && s2 > 0 {
      var i := if b2 < s2 then b2 else s2;
      b2, s2 := b2 - i, s2 - i;
    }
  }

  // b * 5^n, when there is anything to multiply.
  method TimesPow5(powers: Powers, b: Bigint, n: nat) returns (r: Bigint)
    requires powers.Valid() && b.Valid() && b.Value() > 0 && {b, b.x} !! powers.Repr()
    modifies powers, b, b.x
    ensures powers.Valid()
    ensures Owned(b, r) && r.Valid() && {r, r.x} !! powers.Repr()
    ensures fresh(powers.Repr() - old(powers.Repr()))
    ensures r.Value() == old(b.Value()) * Pow(5, n) > 0
  {
    ProductPositive(b.Value(), 5, n);
    r := b;
    if n > 0 {
      r := powers.Pow5Mult(b, n);
    }
  }

  lemma ProductPositive(v: nat, b: nat, n: nat)
    requires v > 0 && b > 0
    ensures v * Pow(b, n) > 0 && (n == 0 ==> v * Pow(b, n) == v)
  {
    PowPositive(b, n);
    MulMonotone(v, 1, Pow(b, n));
  }

  // b * 2^n, when there is anything to shift.
  method TimesPow2(b: Bigint, n: nat) returns (r: Bigint)
    requires b.Valid() && b.Value() > 0
    ensures Owned(b, r) && r.Valid()
    ensures r.Value() == b.Value() * Pow(2, n) > 0
  {
    ProductPositive(b.Value(), 2, n);
    r := b;
    if n > 0 {
      r := LShift(b, n);
    }
  }

  method One() returns (b: Bigint)
    ensures fresh(b) && fresh(b.x) && b.Valid() && b.Value() == 1
  {
    b := new Bigint(1);
    b.x[0], b.wds := 1, 1;
    OneWord(b.x[..1]);
  }

  method Fives(powers: Powers, b0: Bigint, b5: nat, s5: nat) returns (b: Bigint, S: Bigint)
    requires powers.Valid() && b0.Valid() && b0.Value() > 0 && {b0, b0.x} !! powers.Repr()
    modifies powers, b0, b0.x
    ensures powers.Valid()
    ensures Owned(b0, b) && fresh(S) && fresh(S.x) && b.Valid() && S.Valid() && Apart(b, S)
    ensures {b, b.x} !! powers.Repr()
    ensures b.Value() == old(b0.Value()) * Pow(5, b5) > 0 && S.Value() == Pow(5, s5) > 0
  {
    hide Pow;
    b := TimesPow5(powers, b0, b5);
    S := One();
    S := TimesPow5(powers, S, s5);
  }

  // Both sides shifted alike, so that S gets four leading zero bits.
  method Twos(b0: Bigint, S0: Bigint, b2: nat, s2: nat) returns (b: Bigint, S: Bigint, i: nat)
    requires b0.Valid() && S0.Valid() && b0.Value() > 0 && S0.Value() > 0 && Apart(b0, S0)
    ensures Owned(b0, b) && Owned(S0, S) && b.Valid() && S.Valid() && Apart(b, S) && Aligned(S.Value())
    ensures b.Value() == b0.Value() * Pow(2, b2 + i) > 0
    ensures S.Value() == S0.Value() * Pow(2, s2 + i) > 0
  {
    hide Pow, Aligned;
    i := DShift(S0, s2);
    b := TimesPow2(b0, b2 + i);
    S := TimesPow2(S0, s2 + i);
  }

  // Bignums b and S with b / S == m * 2^e / 10^k, S with four leading zero bits.
  method Prepare(powers: Powers, b0: Bigint, e: int, k: int) returns (b: Bigint, S: Bigint)
    requires powers.Valid() && b0.Valid() && b0.Value() > 0 && {b0, b0.x} !! powers.Repr()
    modifies powers, b0, b0.x
    ensures powers.Valid()
    ensures Owned(b0, b) && fresh(S) && fresh(S.x) && b.Valid() && S.Valid() && Apart(b, S)
    ensures {b, b.x} !! powers.Repr()
    ensures b.Value() > 0 && Aligned(S.Value()) && S.Value() > 0
    ensures SameFraction(b.Value(), S.Value(), Num(old(b0.Value()), e, -k), Den(e, -k))
  {
    hide Num, Den, SameFraction, Aligned, Pow;
    ghost var m := b0.Value();
    var b2, b5, s2, s5 := Exponents(e, k);
    var b1, S1 := Fives(powers, b0, b5, s5);
    var i;
    b, S, i := Twos(b1, S1, b2, s2);
    PreparedFraction(m, e, k, b2 + i, s2 + i);
  }

  // b / S is m * 2^e / 10^k, for the k that was estimated; one more factor of ten corrects an
  // estimate that was one too large.
  lemma EstimateTooLarge(m: nat, e: int, k: int, vb: nat, vs: nat)
    requires vs > 0 && SameFraction(vb, vs, Num(m, e, -k), Den(e, -k))
    requires HasExponent(m, e, k) || HasExponent(m, e, k - 1)
    ensures HasExponent(m, e, k) <==> vb >= vs
    ensures HasExponent(m, e, k) ==> vb < 10 * vs
    ensures !HasExponent(m, e, k) ==> vs <= 10 * vb < 10 * vs
    ensures !HasExponent(m, e, k) ==> SameFraction(vb * 10, vs, Num(m, e, 1 - k), Den(e, 1 - k))
  {
    hide Num, Den;
    SameFractionOrder(vb, vs, Num(m, e, -k), Den(e, -k), 1);
    SameFractionOrder(vb, vs, Num(m, e, -k), Den(e, -k), 10);
    TenfoldFraction(m, e, -k, 1);
    assert Pow(10, 1) == 10;
    SameFractionTimes(vb, vs, Num(m, e, -k), Den(e, -k), 10);
    SameFractionChain(vb * 10, vs, Num(m, e, -k) * 10, Den(e, -k), Num(m, e, 1 - k), Den(e, 1 - k));
    SameFractionOrder(vb * 10, vs, Num(m, e, 1 - k), Den(e, 1 - k), 1);
    SameFractionOrder(vb * 10, vs, Num(m, e, 1 - k), Den(e, 1 - k), 10);
  }

  lemma SameFractionChain(a: nat, b: nat, c: nat, d: nat, e: nat, f: nat)
    requires b > 0 && d > 0 && f > 0 && SameFraction(a, b, c, d) && SameFraction(e, f, c, d)
    ensures SameFraction(a, b, e, f)
  {
    Regroup3(a, d, f);
    Regroup3(c, b, f);
    Regroup3(e, d, b);
    if a * f != e * b {
      assert (a * f) * d == (e * b) * d;
      MulCancel(a * f, e * b, d);
    }
  }

  lemma Regroup3(a: int, b: int, c: int)
    ensures (a * b) * c == (a * c) * b
  {
    MulAssoc(a, b, c);
    MulCommute(b, c);
    MulAssoc(a, c, b);
  }

  lemma MulCancel(a: int, b: int, d: nat)
    requires d > 0 && a * d == b * d
    ensures a == b
  {
    MulCommute(a, d);
    MulCommute(b, d);
    if a < b {
      MulMonotone(d, a + 1, b);
      Distribute(d, a, 1);
    } else if b < a {
      MulMonotone(d, b + 1, a);
      Distribute(d, b, 1);
    }
  }

  // The digits of b / S, scaled by 10^(nd - 1), round like those of the double.
  lemma DigitsOfDouble(m: nat, e: int, k: int, nd: nat, vb: nat, vs: nat)
    requires nd > 0 && vs > 0 && SameFraction(vb, vs, Num(m, e, -k), Den(e, -k))
    ensures RoundHalfEven(vb * Pow(10, nd - 1), vs) == RoundHalfEven(Num(m, e, nd - 1 - k), Den(e, nd - 1 - k))
  {
    hide Num, Den, RoundHalfEven, Pow;
    var n, d, p := Num(m, e, -k), Den(e, -k), Pow(10, nd - 1);
    SameFractionTimes(vb, vs, n, d, p);
    RoundHalfEvenCross(vb * p, vs, n * p, d);
    TenfoldFraction(m, e, -k, nd - 1);
    assert -k + (nd - 1) == nd - 1 - k;
    RoundHalfEvenCross(Num(m, e, nd - 1 - k), Den(e, nd - 1 - k), n * p, d);
  }

  // k_check: multiply by ten if the estimate turns out one too large.
  method CorrectEstimate(b0: Bigint, S: Bigint, k: int, kCheck: bool, ghost m: nat, ghost e: int)
    returns (b: Bigint, k': int)
    requires b0.Valid() && S.Valid() && Apart(b0, S) && b0.Value() > 0 && S.Value() > 0
    requires SameFraction(b0.Value(), S.Value(), Num(m, e, -k), Den(e, -k))
    requires HasExponent(m, e, k) || (kCheck && HasExponent(m, e, k - 1))
    modifies b0, b0.x
    ensures Owned(b0, b) && b.Valid() && Apart(b, S) && S.Value() <= b.Value() < 10 * S.Value()
    ensures k' == if HasExponent(m, e, k) then k else k - 1
    ensures SameFraction(b.Value(), S.Value(), Num(m, e, -k'), Den(e, -k'))
  {
    hide Num, Den, SameFraction, HasExponent;
    EstimateTooLarge(m, e, k, b0.Value(), S.Value());
    b, k' := b0, k;
    if kCheck {
      var c := Cmp(b, S);
      if c < 0 {
        k' := k - 1;
        assert -k' == 1 - k;
        b := MultAdd(b, 10, 0);
      }
    }
  }

  // From b * 2^e and an estimate k of its decimal exponent.
  method Convert(powers: Powers, b0: Bigint, e: int, k: int, kCheck: bool, ilim: nat, buf: array<Byte>)
    returns (len: nat, decpt: int)
    requires powers.Valid() && b0.Valid() && b0.Value() > 0 && {b0, b0.x} !! powers.Repr()
    requires 0 < ilim < buf.Length
    requires HasExponent(b0.Value(), e, k) || (kCheck && HasExponent(b0.Value(), e, k - 1))
    modifies powers, b0, b0.x, buf
    ensures powers.Valid() && len <= ilim
    ensures var m := old(b0.Value());
            Rounded(m, e, if HasExponent(m, e, k) then k else k - 1, ilim, buf[..len], decpt)
  {
    hide Num, Den, SameFraction, HasExponent, Aligned, RoundHalfEven, Pow;
    ghost var m := b0.Value();
    var b, S := Prepare(powers, b0, e, k);
    var k';
    b, k' := CorrectEstimate(b, S, k, kCheck, m, e);
    DigitsOfDouble(m, e, k', ilim, b.Value(), S.Value());
    var carry;
    len, carry := Digits(b, S, buf, ilim);
    decpt := k' + 1 + carry;
  }

  // dtoa(d, 2, ndigits): the double with high word d0 and low word d1, its sign aside.  The
  // estimate k of the decimal exponent, and whether it may be one too large, come from
  // floating-point arithmetic that is not modelled.
  method Mode2(powers: Powers, d0: Word, d1: Word, k: int, kCheck: bool, ndigits: int, buf: array<Byte>)
    returns (len: nat, decpt: int)
    requires powers.Valid() && Significand(d0, d1) > 0
    requires 1 < buf.Length && ndigits < buf.Length
    requires var m, e := Significand(d0, d1), UnitExponent(d0);
             HasExponent(m, e, k) || (kCheck && HasExponent(m, e, k - 1))
    modifies powers, buf
    ensures powers.Valid() && len < buf.Length && buf[len] == 0
    ensures var m, e, nd: nat := Significand(d0, d1), UnitExponent(d0), if ndigits <= 0 then 1 else ndigits;
            Rounded(m, e, if HasExponent(m, e, k) then k else k - 1, nd, buf[..len], decpt)
  {
    hide Num, Den, HasExponent, Significand, UnitExponent, Rounded;
    var b, be, bbits := D2B(d0, d1);
    ghost var m, e := b.Value(), UnitExponent(d0);
    ExponentIsBits(d0, be, bbits);
    SameExponent(m, e, be, k);
    SameExponent(m, e, be, k - 1);
    var ilim: nat := if ndigits <= 0 then 1 else ndigits;
    var i := if BiasedExponent(d0) > 0 then BiasedExponent(d0) as int - 1023 else bbits + be - 1;
    var j := bbits - i - 1;
    len, decpt := Convert(powers, b, -j, k, kCheck, ilim, buf);
    ghost var digits := buf[..len];
    SameRounding(m, e, be, if HasExponent(m, be, k) then k else k - 1, ilim, digits, decpt);
    buf[len] := 0;
    assert buf[..len] == digits;
  }

  lemma ExponentIsBits(d0: Word, be: int, bbits: int)
    requires BiasedExponent(d0) > 0 ==> bbits == 53 - (be - UnitExponent(d0))
    ensures BiasedExponent(d0) > 0 ==> bbits - (BiasedExponent(d0) as int - 1023) - 1 == -be
  {
  }

  lemma SameExponent(m: nat, e: int, be: int, k: int)
    requires be >= e
    ensures HasExponent(m * Pow(2, be - e), e, k) <==> HasExponent(m, be, k)
  {
    hide Num, Den, Pow;
    var s := be - e;
    SameDouble(m, e, s, -k);
    SameFractionOrder(Num(m * Pow(2, s), e, -k), Den(e, -k), Num(m, be, -k), Den(be, -k), 1);
    SameFractionOrder(Num(m * Pow(2, s), e, -k), Den(e, -k), Num(m, be, -k), Den(be, -k), 10);
  }

  lemma SameRounding(m: nat, e: int, be: int, k: int, nd: nat, digits: seq<Byte>, decpt: int)
    requires be >= e && Rounded(m, be, k, nd, digits, decpt)
    ensures Rounded(m * Pow(2, be - e), e, k, nd, digits, decpt)
  {
    hide Num, Den, RoundHalfEven;
    var s, t := be - e, nd - 1 - k;
    SameDouble(m, e, s, t);
    RoundHalfEvenCross(Num(m * Pow(2, s), e, t), Den(e, t), Num(m, be, t), Den(be, t));
  }
}
