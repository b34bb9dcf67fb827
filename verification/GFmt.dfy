// Laying out the digits of a double as text: plain, with leading zeros, or with an exponent.
module GFmt {
  import opened Arith
  import opened Decimal
  import opened Reading

  // (-1)^neg * mant * 10^exp
  datatype Number = Number(neg: bool, mant: int, exp: int)

  const MINUS: Byte := 45
  const PLUS: Byte := 43
  const POINT: Byte := 46
  const LETTER_E: Byte := 101

  predicate IsDigit(c: Byte) {
    48 <= c <= 57
  }

  // ---- what a text denotes: an independent reader ----

  function DigitRun(t: seq<Byte>): (n: nat)
    ensures n <= |t|
  {
    if t != [] && IsDigit(t[0]) then 1 + DigitRun(t[1..]) else 0
  }

  datatype Parts = Parts(whole: seq<Byte>, frac: seq<Byte>, rest: seq<Byte>)

  // digits[.digits]
  function SplitMantissa(u: seq<Byte>): Parts {
    var n := DigitRun(u);
    var r := u[n..];
    if r != [] && r[0] == POINT then
      var f := DigitRun(r[1..]);
      Parts(u[..n], r[1..1 + f], r[1 + f..])
    else Parts(u[..n], [], r)
  }

  // [e(+|-)digits]
  function ReadExponent(v: seq<Byte>): Option<int> {
    if v == [] then Some(0)
    else if |v| >= 3 && v[0] == LETTER_E && (v[1] == PLUS || v[1] == MINUS) && DigitRun(v[2..]) == |v| - 2 then
      Some(if v[1] == MINUS then -DecValue(v[2..]) else DecValue(v[2..]))
    else None
  }

  // Behind the sign.
  function MantissaOf(t: seq<Byte>): Parts {
    SplitMantissa(if t != [] && t[0] == MINUS then t[1..] else t)
  }

  // [-]digits[.digits][e(+|-)digits]
  function ReadNumber(t: seq<Byte>): Option<Number> {
    var neg := t != [] && t[0] == MINUS;
    var p := SplitMantissa(if neg then t[1..] else t);
    var x := ReadExponent(p.rest);
    if p.whole == [] || x.None? then None
    else Some(Number(neg, DecValue(p.whole + p.frac), x.value - |p.frac|))
  }

  lemma {:induction false} DigitRunIs(d: seq<Byte>, rest: seq<Byte>)
    requires IsDigits(d) && (rest == [] || !IsDigit(rest[0]))
    ensures DigitRun(d + rest) == |d|
  {
    if d == [] {
      assert d + rest == rest;
    } else {
      assert (d + rest)[1..] == d[1..] + rest;
      DigitRunIs(d[1..], rest);
    }
  }

  function Sign(neg: bool): seq<Byte> {
    if neg then [MINUS] else []
  }

  function Tail(frac: seq<Byte>, exp: seq<Byte>): seq<Byte> {
    (if frac == [] then [] else [POINT] + frac) + exp
  }

  function ExponentText(xneg: bool, x: seq<Byte>): seq<Byte> {
    if x == [] then [] else [LETTER_E, if xneg then MINUS else PLUS] + x
  }

  lemma MantissaSplits(int_: seq<Byte>, frac: seq<Byte>, e: seq<Byte>)
    requires IsDigits(int_) && IsDigits(frac) && (e == [] || e[0] == LETTER_E)
    ensures SplitMantissa(int_ + Tail(frac, e)) == Parts(int_, frac, e)
  {
    var u, r := int_ + Tail(frac, e), Tail(frac, e);
    DigitRunIs(int_, r);
    assert u[..|int_|] == int_ && u[|int_|..] == r;
    if frac != [] {
      assert r[1..] == frac + e;
      DigitRunIs(frac, e);
      assert r[1..1 + |frac|] == frac && r[1 + |frac|..] == e;
    }
  }

  // Reading back what was laid out from a mantissa and, perhaps, an exponent.
  lemma ReadParts(neg: bool, int_: seq<Byte>, frac: seq<Byte>, xneg: bool, x: seq<Byte>)
    requires int_ != [] && IsDigits(int_) && IsDigits(frac) && IsDigits(x)
    ensures ReadNumber(Sign(neg) + (int_ + Tail(frac, ExponentText(xneg, x))))
         == Some(Number(neg, DecValue(int_ + frac), (if xneg then -DecValue(x) else DecValue(x)) - |frac|))
  {
    hide *;
    var e := ExponentText(xneg, x);
    var u := int_ + Tail(frac, e);
    ExponentReads(xneg, x);
    MantissaSplits(int_, frac, e);
    NoSign(int_, Tail(frac, e));
    StripSign(neg, u);
    ReadAssembled(neg, u, Sign(neg) + u, Parts(int_, frac, e), if xneg then -DecValue(x) else DecValue(x));
  }

  // What the reader takes, in bytes: a minus sign, digits, a point and digits, the letter e and an exponent.
  lemma NumberInBytes(neg: bool, a: seq<Byte>, f: seq<Byte>, xneg: bool, x: seq<Byte>)
    requires a != [] && IsDigits(a) && IsDigits(f) && IsDigits(x)
    ensures var point: seq<Byte> := if f == [] then [] else [46] + f;
            var e: seq<Byte> := if x == [] then [] else [101, if xneg then 45 else 43] + x;
            ReadNumber((if neg then [45] else []) + (a + (point + e)))
            == Some(Number(neg, DecValue(a + f), (if xneg then -DecValue(x) else DecValue(x)) - |f|))
  {
    hide ReadNumber, DecValue, IsDigits;
    ReadParts(neg, a, f, xneg, x);
  }

  lemma PartsBack(neg: bool, int_: seq<Byte>, frac: seq<Byte>, xneg: bool, x: seq<Byte>)
    requires int_ != [] && IsDigits(int_) && IsDigits(frac) && IsDigits(x)
    ensures MantissaOf(Sign(neg) + (int_ + Tail(frac, ExponentText(xneg, x))))
         == Parts(int_, frac, ExponentText(xneg, x))
  {
    hide *;
    var e := ExponentText(xneg, x);
    ExponentReads(xneg, x);
    MantissaSplits(int_, frac, e);
    NoSign(int_, Tail(frac, e));
    StripSign(neg, int_ + Tail(frac, e));
    MantissaIs(Sign(neg) + (int_ + Tail(frac, e)), neg, int_ + Tail(frac, e));
  }

  lemma MantissaIs(t: seq<Byte>, neg: bool, u: seq<Byte>)
    requires t != [] && (t[0] == MINUS <==> neg) && (if neg then t[1..] else t) == u
    ensures MantissaOf(t) == SplitMantissa(u)
  {
    hide SplitMantissa;
  }

  // x.mant * 10^x.exp < 10^k, its sign aside
  ghost predicate Below(x: Number, k: int) {
    x.mant * Pow(10, Up(x.exp - k)) < Pow(10, Up(k - x.exp))
  }

  // An exponent stands where the number is below 10^-4 or at least 10^precision, and only there.  It has
  // two digits at least and one digit ahead of the point; without it, zeros ahead are one at most; no
  // zeros end the fraction.
  ghost predicate Shaped(b: seq<Byte>, precision: int) {
    ReadNumber(b).Some? &&
    var x, p := ReadNumber(b).value, MantissaOf(b);
    && (p.rest != [] <==> Below(x, -4) || !Below(x, precision))
    && (p.rest != [] ==>
          && |p.whole| == 1 && p.whole[0] > 48
          && |p.rest| >= 4 && (|p.rest| > 4 ==> p.rest[2] > 48))
    && (p.rest == [] ==> p.whole == [48] || (p.whole != [] && p.whole[0] > 48))
    && (p.frac != [] ==> p.frac[|p.frac| - 1] > 48)
  }

  lemma BelowIff(s: seq<Byte>, decpt: int, z: nat, neg: bool, k: int)
    requires s != [] && IsDigits(s) && s[0] > 48
    ensures Below(Number(neg, DecValue(s) * Pow(10, z), decpt - |s| - z), k) <==> decpt <= k
  {
    hide DecValue, Pow;
    var v, e := DecValue(s), decpt - |s| - z;
    var a := Up(e - k);
    DecBounds(s);
    MulAssoc(v, Pow(10, z), Pow(10, a));
    PowAdd(10, z, a);
    BelowPower(v, |s|, z + a, Up(k - e));
  }

  lemma BelowPower(v: nat, n: nat, q: nat, c: nat)
    requires n > 0 && Pow(10, n - 1) <= v < Pow(10, n)
    ensures n + q <= c ==> v * Pow(10, q) < Pow(10, c)
    ensures c <= n - 1 + q ==> v * Pow(10, q) >= Pow(10, c)
  {
    hide Pow;
    PowPositive(10, q);
    PowAdd(10, n, q);
    PowAdd(10, n - 1, q);
    Scaled(v, Pow(10, n), Pow(10, q));
    ScaledUp(Pow(10, n - 1), v, Pow(10, q));
    if n + q <= c {
      PowMonotone(10, n + q, c);
    }
    if c <= n - 1 + q {
      PowMonotone(10, c, n - 1 + q);
    }
  }

  lemma ScaledUp(v: int, w: int, p: nat)
    requires v <= w
    ensures v * p <= w * p
  {
    MulMonotone(p, v, w);
    MulCommute(p, v);
    MulCommute(p, w);
  }

  lemma Scaled(v: int, w: int, p: nat)
    requires v < w && p > 0
    ensures v * p < w * p
  {
    MulMonotone(p, v + 1, w);
    Distribute(p, v, 1);
    MulCommute(p, v);
    MulCommute(p, w);
  }

  lemma NoSign(d: seq<Byte>, rest: seq<Byte>)
    requires d != [] && IsDigits(d)
    ensures (d + rest)[0] != MINUS
  {
  }

  lemma ReadAssembled(neg: bool, u: seq<Byte>, t: seq<Byte>, p: Parts, x: int)
    requires t != [] && (t[0] == MINUS <==> neg) && (if neg then t[1..] else t) == u
    requires SplitMantissa(u) == p && ReadExponent(p.rest) == Some(x) && p.whole != []
    ensures ReadNumber(t) == Some(Number(neg, DecValue(p.whole + p.frac), x - |p.frac|))
  {
    hide SplitMantissa, ReadExponent, DecValue;
  }

  lemma StripSign(neg: bool, u: seq<Byte>)
    requires u != [] && u[0] != MINUS
    ensures var t := Sign(neg) + u;
            (t[0] == MINUS <==> neg) && (if neg then t[1..] else t) == u
  {
    assert neg ==> (Sign(neg) + u)[1..] == u;
    assert !neg ==> Sign(neg) + u == u;
  }

  lemma ExponentReads(xneg: bool, x: seq<Byte>)
    requires IsDigits(x)
    ensures var e := ExponentText(xneg, x);
            && (e == [] || e[0] == LETTER_E)
            && ReadExponent(e) == Some(if xneg then -DecValue(x) else DecValue(x))
  {
    var e := ExponentText(xneg, x);
    if x != [] {
      assert e[2..] == x && x + [] == x;
      DigitRunIs(x, []);
    }
  }

  // ---- the layout ----

  // The first digit of what is left: lo < 10^j scaled by 10^(n - j), over 10^(n - 1).
  lemma ExponentDigit(lo: nat, j: nat, n: nat)
    requires 0 < j <= n && lo < Pow(10, j)
    ensures var p, c, k := Pow(10, j - 1), Pow(10, n - j), Pow(10, n - 1);
            p > 0 && k > 0 && lo * c / k == lo / p && 0 <= lo / p < 10
            && (lo * c - lo / p * k) * 10 == lo % p * Pow(10, n - j + 1)
  {
    hide Pow;
    PowPositive(10, j - 1);
    PowPositive(10, n - j);
    PowAdd(10, j - 1, n - j);
    PowAdd(10, 1, n - j);
    PowAdd(10, 1, j - 1);
    FirstPowers();
    DigitArith(lo, Pow(10, j - 1), Pow(10, n - j));
  }

  lemma DigitArith(lo: nat, p: nat, c: nat)
    requires p > 0 && c > 0 && lo < 10 * p
    ensures p * c > 0 && lo * c / (p * c) == lo / p && 0 <= lo / p < 10
    ensures (lo * c - lo / p * (p * c)) * 10 == lo % p * (10 * c)
  {
    var q, r := lo / p, lo % p;
    assert lo == p * q + r;
    if q >= 10 {
      MulMonotone(p, 10, q);
    }
    MulCommute(p, q);
    Distribute(c, q * p, r);
    MulCommute(c, lo);
    MulCommute(c, q * p);
    MulAssoc(q, p, c);
    MulMonotone(c, r + 1, p);
    Distribute(c, r, 1);
    MulMonotone(c, 0, r);
    MulCommute(c, r);
    MulCommute(c, p);
    MulMonotone(p, 1, c);
    DivModUnique(lo * c, p * c, q, r * c);
    MulAssoc(r, c, 10);
    MulCommute(c, 10);
  }

  // The exponent, in two digits at least: k is the power of ten of the first digit, and the rest
  // is scaled up instead of k down.
  method ExponentDigits(d: nat) returns (x: seq<Byte>)
    ensures IsDigits(x) && |x| >= 2 && DecValue(x) == d
    ensures d < 1000 ==> |x| <= 3
    ensures |x| > 2 ==> x[0] > 48
  {
    var j, k, rest := 2, 10, d;
    assert Pow(10, 2) == 100 && Pow(10, 1) == 10 && Pow(10, 0) == 1;
    while 10 * k <= d
      invariant j >= 2 && k == Pow(10, j - 1) > 0
      invariant (d < 1000 ==> j <= 3) && (j > 2 ==> k <= d)
      decreases d - k
    {
      j, k := j + 1, k * 10;
    }
    hide *;
    x := [];
    ghost var n, lo := j, d;
    NoDigitYet(d, n, k);
    while j > 0
      invariant 0 <= j <= n && |x| == n - j && DigitsSoFar(d, n, j, k, lo, rest, x)
    {
      NextDigit(d, n, j, k, lo, rest, x);
      var i := rest / k;
      x := x + [48 + i];
      lo := lo % Pow(10, j - 1);
      j := j - 1;
      rest := (rest - i * k) * 10;
    }
    AllDigits(d, n, k, lo, rest, x);
  }

  // x are the first n - j of n digits of d, and lo is what they leave; the first is zero only if it must be.
  ghost predicate DigitsSoFar(d: nat, n: nat, j: nat, k: int, lo: int, rest: int, x: seq<Byte>) {
    && j <= n && |x| == n - j && IsDigits(x) && n > 0 && k == Pow(10, n - 1) > 0
    && 0 <= lo < Pow(10, j) && rest == lo * Pow(10, n - j) && d == DecValue(x) * Pow(10, j) + lo
    && (n > 2 ==> if x == [] then k <= d else x[0] > 48)
  }

  lemma NoDigitYet(d: nat, n: nat, k: int)
    requires n >= 2 && k == Pow(10, n - 1) > 0 && d < 10 * k && (n > 2 ==> k <= d)
    ensures DigitsSoFar(d, n, n, k, d, d, [])
  {
    assert Pow(10, n) == 10 * Pow(10, n - 1) && Pow(10, 0) == 1;
  }

  lemma NextDigit(d: nat, n: nat, j: nat, k: int, lo: int, rest: int, x: seq<Byte>)
    requires j > 0 && DigitsSoFar(d, n, j, k, lo, rest, x)
    ensures k > 0 && Pow(10, j - 1) > 0 && 0 <= rest / k < 10
    ensures DigitsSoFar(d, n, j - 1, k, lo % Pow(10, j - 1), (rest - rest / k * k) * 10, x + [48 + rest / k])
  {
    hide DecValue;
    ExponentDigit(lo, j, n);
    var i := rest / k;
    DecSnoc(x, 48 + i);
    TenTimes(j);
    ExponentValue(d, DecValue(x), lo, Pow(10, j - 1));
    hide Pow;
    AtLeastOne(rest, k);
    if x == [] {
      FirstPowers();
      EmptyValue();
    }
  }

  lemma TenTimes(j: nat)
    requires j > 0
    ensures Pow(10, j) == 10 * Pow(10, j - 1)
  {
  }

  lemma AllDigits(d: nat, n: nat, k: int, lo: int, rest: int, x: seq<Byte>)
    requires DigitsSoFar(d, n, 0, k, lo, rest, x)
    ensures IsDigits(x) && |x| == n && DecValue(x) == d && (n > 2 ==> x[0] > 48)
  {
    hide DecValue;
    FirstPowers();
  }

  lemma AtLeastOne(a: nat, k: nat)
    requires k > 0
    ensures a >= k ==> a / k >= 1
  {
    assert a == k * (a / k) + a % k;
  }

  lemma ExponentValue(d: int, v: int, lo: nat, p: nat)
    requires p > 0 && d == v * (10 * p) + lo
    ensures d == (10 * v + lo / p) * p + lo % p
  {
    MulAssoc(v, 10, p);
    MulCommute(v, 10);
    MulCommute(p, lo / p);
    assert lo == p * (lo / p) + lo % p;
    Distribute(p, 10 * v, lo / p);
    MulCommute(p, 10 * v);
    MulCommute(p, 10 * v + lo / p);
  }

  // d.ddde+xx
  method LayoutExponent(s: seq<Byte>, decpt0: int, b0: seq<Byte>, ghost sign: bool) returns (b: seq<Byte>)
    requires s != [] && IsDigits(s) && b0 == Sign(sign)
    ensures ReadNumber(b) == Some(Number(sign, DecValue(s), decpt0 - |s|))
    ensures -999 < decpt0 < 1000 ==> |b| <= |b0| + |s| + 6
    ensures MantissaOf(b).whole == [s[0]] && MantissaOf(b).frac == s[1..]
    ensures var e := MantissaOf(b).rest; |e| >= 4 && (|e| > 4 ==> e[2] > 48)
  {
    hide *;
    var decpt := decpt0;
    b := b0 + [s[0]];
    if |s| > 1 {
      b := b + [POINT];
      b := b + s[1..];
    }
    b := b + [LETTER_E];
    decpt := decpt - 1;
    if decpt < 0 {
      b := b + [MINUS];
      decpt := -decpt;
    } else {
      b := b + [PLUS];
    }
    var x := ExponentDigits(decpt);
    b := b + x;
    ExponentLayout(sign, s, b0, decpt0 < 1, x, b);
    Digits1(s);
    ReadParts(sign, [s[0]], s[1..], decpt0 < 1, x);
    PartsBack(sign, [s[0]], s[1..], decpt0 < 1, x);
    ExponentTextIs(decpt0 < 1, x);
  }

  lemma ExponentTextIs(xneg: bool, x: seq<Byte>)
    requires x != []
    ensures |ExponentText(xneg, x)| == |x| + 2 && ExponentText(xneg, x)[2] == x[0]
  {
  }

  lemma Digits1(s: seq<Byte>)
    requires s != [] && IsDigits(s)
    ensures IsDigits([s[0]]) && IsDigits(s[1..]) && [s[0]] + s[1..] == s
  {
  }

  lemma ExponentLayout(sign: bool, s: seq<Byte>, b0: seq<Byte>, xneg: bool, x: seq<Byte>, b: seq<Byte>)
    requires s != [] && b0 == Sign(sign) && x != []
    requires b == (if |s| > 1 then b0 + [s[0]] + [POINT] + s[1..] else b0 + [s[0]])
                  + [LETTER_E] + [if xneg then MINUS else PLUS] + x
    ensures b == Sign(sign) + ([s[0]] + Tail(s[1..], ExponentText(xneg, x)))
  {
  }

  // 0.000ddd
  method LayoutSmall(s: seq<Byte>, decpt0: int, b0: seq<Byte>, ghost sign: bool) returns (b: seq<Byte>)
    requires s != [] && IsDigits(s) && b0 == Sign(sign) && decpt0 <= 0
    ensures ReadNumber(b) == Some(Number(sign, DecValue(s), decpt0 - |s|))
    ensures |b| == |b0| + |s| + 2 - decpt0
    ensures var p := MantissaOf(b);
            p.whole == [48] && p.rest == [] && p.frac != [] && p.frac[|p.frac| - 1] == s[|s| - 1]
  {
    hide *;
    var decpt := decpt0;
    b := b0 + [48];
    b := b + [POINT];
    ghost var zeros := [];
    while decpt < 0
      invariant decpt0 <= decpt <= 0 && |zeros| == decpt - decpt0
      invariant (forall i :: 0 <= i < |zeros| ==> zeros[i] == 48) && b == b0 + [48, POINT] + zeros
    {
      b := b + [48];
      zeros := zeros + [48];
      decpt := decpt + 1;
    }
    b := b + s;
    SmallReads(sign, zeros, s);
    SmallLayout(b0, zeros, s, b);
    assert (zeros + s)[|zeros + s| - 1] == s[|s| - 1];
  }

  lemma SmallLayout(b0: seq<Byte>, zeros: seq<Byte>, s: seq<Byte>, b: seq<Byte>)
    requires b == b0 + [48, POINT] + zeros + s
    ensures b == b0 + ([48] + ([POINT] + (zeros + s)))
  {
  }

  lemma SmallReads(sign: bool, zeros: seq<Byte>, s: seq<Byte>)
    requires s != [] && IsDigits(s) && forall i :: 0 <= i < |zeros| ==> zeros[i] == 48
    ensures ReadNumber(Sign(sign) + ([48] + ([POINT] + (zeros + s))))
         == Some(Number(sign, DecValue(s), -|zeros| - |s|))
    ensures MantissaOf(Sign(sign) + ([48] + ([POINT] + (zeros + s)))) == Parts([48], zeros + s, [])
  {
    hide *;
    var frac := zeros + s;
    SmallDigits(zeros, s);
    ReadParts(sign, [48], frac, false, []);
    PartsBack(sign, [48], frac, false, []);
    ZeroAhead(zeros);
    DecLeadingZeros([48] + zeros, s);
    assert [48] + zeros + s == [48] + frac;
    FractionTail(frac);
    EmptyValue();
  }

  lemma SmallDigits(zeros: seq<Byte>, s: seq<Byte>)
    requires s != [] && IsDigits(s) && forall i :: 0 <= i < |zeros| ==> zeros[i] == 48
    ensures IsDigits(zeros + s) && IsDigits([48]) && IsDigits([])
  {
  }

  lemma ZeroAhead(zeros: seq<Byte>)
    requires forall i :: 0 <= i < |zeros| ==> zeros[i] == 48
    ensures forall i :: 0 <= i < |[48] + zeros| ==> ([48] + zeros)[i] == 48
  {
  }

  lemma FractionTail(frac: seq<Byte>)
    requires frac != []
    ensures Tail(frac, ExponentText(false, [])) == [POINT] + frac && ExponentText(false, []) == []
  {
  }

  lemma EmptyValue()
    ensures DecValue([]) == 0
  {
  }

  // ddd.ddd or ddd000
  method LayoutPlain(s: seq<Byte>, decpt0: int, b0: seq<Byte>, ghost sign: bool) returns (b: seq<Byte>)
    requires s != [] && IsDigits(s) && b0 == Sign(sign) && decpt0 > 0
    ensures var z := if decpt0 > |s| then decpt0 - |s| else 0;
            ReadNumber(b) == Some(Number(sign, DecValue(s) * Pow(10, z), decpt0 - |s| - z))
    ensures |b| <= |b0| + (if decpt0 > |s| then decpt0 else |s| + 1)
    ensures var p := MantissaOf(b);
            && p.whole != [] && p.whole[0] == s[0] && p.rest == []
            && (p.frac != [] ==> p.frac[|p.frac| - 1] == s[|s| - 1])
    ensures decpt0 == |s| ==> b == b0 + s
  {
    hide *;
    var decpt := decpt0;
    b := b0;
    PlainEmpty(s, decpt0);
    var i := 0;
    while i < |s|
      invariant i <= |s| && decpt == decpt0 - i && b == b0 + Plain(s, decpt0, i)
    {
      b := b + [s[i]];
      i := i + 1;
      decpt := decpt - 1;
      if decpt == 0 && i < |s| {
        b := b + [POINT];
      }
      PlainStep(s, decpt0, i - 1);
    }
    ghost var zeros: seq<Byte> := [];
    while decpt > 0
      invariant |zeros| == (if decpt0 > |s| then decpt0 - |s| - decpt else 0) && decpt0 - |s| >= decpt
      invariant decpt >= 0 || decpt0 < |s|
      invariant (forall j :: 0 <= j < |zeros| ==> zeros[j] == 48) && b == b0 + (Plain(s, decpt0, |s|) + zeros)
    {
      b := b + [48];
      zeros := zeros + [48];
      decpt := decpt - 1;
    }
    PlainReads(sign, s, decpt0, zeros);
    PlainWhole(s, decpt0, zeros);
  }

  lemma PlainWhole(s: seq<Byte>, d: int, zeros: seq<Byte>)
    requires d > 0
    ensures d == |s| && zeros == [] ==> Plain(s, d, |s|) + zeros == s
  {
  }

  lemma PlainEmpty(s: seq<Byte>, d: int)
    requires d > 0
    ensures Plain(s, d, 0) == []
  {
  }

  lemma PlainStep(s: seq<Byte>, d: int, i: nat)
    requires d > 0 && i < |s|
    ensures Plain(s, d, i + 1) == Plain(s, d, i) + [s[i]] + if i + 1 == d && d < |s| then [POINT] else []
  {
  }

  lemma PlainReads(sign: bool, s: seq<Byte>, d: int, zeros: seq<Byte>)
    requires s != [] && IsDigits(s) && d > 0 && forall j :: 0 <= j < |zeros| ==> zeros[j] == 48
    requires |zeros| == if d > |s| then d - |s| else 0
    ensures ReadNumber(Sign(sign) + (Plain(s, d, |s|) + zeros))
         == Some(Number(sign, DecValue(s) * Pow(10, |zeros|), d - |s| - |zeros|))
    ensures var p := MantissaOf(Sign(sign) + (Plain(s, d, |s|) + zeros));
            && p.whole != [] && p.whole[0] == s[0] && p.rest == []
            && (p.frac != [] ==> p.frac[|p.frac| - 1] == s[|s| - 1])
    ensures |Plain(s, d, |s|) + zeros| <= if d > |s| then d else |s| + 1
  {
    hide *;
    var whole, frac := if d < |s| then s[..d] else s + zeros, if d < |s| then s[d..] else [];
    PlainParts(s, d, zeros, whole, frac);
    ReadParts(sign, whole, frac, false, []);
    PartsBack(sign, whole, frac, false, []);
    NoExponent();
    DecTrailingZeros(s + zeros, |s|);
    assert (s + zeros)[..|s|] == s;
  }

  lemma NoExponent()
    ensures ExponentText(false, []) == []
  {
  }

  lemma PlainParts(s: seq<Byte>, d: int, zeros: seq<Byte>, whole: seq<Byte>, frac: seq<Byte>)
    requires s != [] && IsDigits(s) && d > 0 && forall j :: 0 <= j < |zeros| ==> zeros[j] == 48
    requires |zeros| == if d > |s| then d - |s| else 0
    requires whole == (if d < |s| then s[..d] else s + zeros) && frac == if d < |s| then s[d..] else []
    ensures whole != [] && IsDigits(whole) && IsDigits(frac) && IsDigits([]) && DecValue([]) == 0
    ensures whole + frac == s + zeros
    ensures |Plain(s, d, |s|) + zeros| <= if d > |s| then d else |s| + 1
    ensures Plain(s, d, |s|) + zeros == whole + Tail(frac, ExponentText(false, []))
  {
    hide DecValue, IsDigits;
    PlainDigits(s, zeros, whole, frac, d);
    EmptyValue();
    assert ExponentText(false, []) == [];
    assert s[..|s|] == s;
    if d < |s| {
      assert Plain(s, d, |s|) == s[..d] + [POINT] + s[d..];
      assert Tail(frac, []) == [POINT] + frac;
    }
  }

  lemma PlainDigits(s: seq<Byte>, zeros: seq<Byte>, whole: seq<Byte>, frac: seq<Byte>, d: int)
    requires s != [] && IsDigits(s) && d > 0 && forall j :: 0 <= j < |zeros| ==> zeros[j] == 48
    requires whole == (if d < |s| then s[..d] else s + zeros) && frac == if d < |s| then s[d..] else []
    ensures whole != [] && IsDigits(whole) && IsDigits(frac) && IsDigits([])
  {
  }

  function AddedZeros(s: seq<Byte>, decpt: int, precision: int): nat {
    if 0 < decpt <= precision && decpt > |s| then decpt - |s| else 0
  }

  // The decimal point that marks an infinity or NaN.
  const NOT_FINITE: int := 9999

  // fpconv_g_fmt for the digits s of a finite number, the point before the decpt-th of them:
  // the text denotes exactly the number that digits, point and sign denote.
  method Layout(s: seq<Byte>, decpt: int, sign: bool, precision: int) returns (b: seq<Byte>)
    requires decpt != NOT_FINITE ==> s != [] && IsDigits(s) && |s| <= precision
    ensures decpt == NOT_FINITE ==> b == Sign(sign) + s
    ensures decpt != NOT_FINITE ==>
              var z := AddedZeros(s, decpt, precision);
              ReadNumber(b) == Some(Number(sign, DecValue(s) * Pow(10, z), decpt - |s| - z))
    ensures precision <= 14 && -999 < decpt < 1000 ==> |b| <= 21
    ensures decpt != NOT_FINITE && s[0] > 48 && s[|s| - 1] > 48 ==> Shaped(b, precision)
    ensures s == [48] && decpt == 1 ==> b == Sign(sign) + s
  {
    hide DecValue, ReadNumber, MantissaOf, Below;
    if decpt != NOT_FINITE && s[0] > 48 {
      BelowIff(s, decpt, AddedZeros(s, decpt, precision), sign, -4);
      BelowIff(s, decpt, AddedZeros(s, decpt, precision), sign, precision);
    }
    b := if sign then [MINUS] else [];
    if decpt == NOT_FINITE {
      b := b + s;
    } else if decpt <= -4 || decpt > precision {
      b := LayoutExponent(s, decpt, b, sign);
    } else if decpt <= 0 {
      b := LayoutSmall(s, decpt, b, sign);
    } else {
      b := LayoutPlain(s, decpt, b, sign);
    }
  }

  // The first i digits, with the point where it belongs.
  function Plain(s: seq<Byte>, d: int, i: nat): seq<Byte>
    requires 0 < d && i <= |s|
  {
    if i < d || d >= |s| then s[..i] else s[..d] + [POINT] + s[d..i]
  }

  lemma {:induction false} DecLeadingZeros(zeros: seq<Byte>, s: seq<Byte>)
    requires forall i :: 0 <= i < |zeros| ==> zeros[i] == 48
    ensures DecValue(zeros + s) == DecValue(s)
    decreases |zeros| + |s|
  {
    var t := zeros + s;
    if s != [] {
      assert t[..|t| - 1] == zeros + s[..|s| - 1];
      DecLeadingZeros(zeros, s[..|s| - 1]);
    } else if zeros != [] {
      assert t[..|t| - 1] == zeros[..|zeros| - 1] + [];
      DecLeadingZeros(zeros[..|zeros| - 1], []);
    }
  }
}
