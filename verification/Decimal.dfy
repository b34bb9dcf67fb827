// Decimal numerals, rounding to nearest with ties to even, and the exact rational m * 2^e.
module Decimal {
  import opened Arith

  ghost predicate IsDigits(s: seq<Byte>) {
    forall i :: 0 <= i < |s| ==> 48 <= s[i] <= 57
  }

  // The number that a string of decimal digits denotes.
  function DecValue(s: seq<Byte>): int {
    if s == [] then 0 else 10 * DecValue(s[..|s| - 1]) + s[|s| - 1] - 48
  }

  lemma DecSnoc(s: seq<Byte>, c: Byte)
    ensures DecValue(s + [c]) == 10 * DecValue(s) + c - 48
  {
    assert (s + [c])[..|s|] == s;
  }

  lemma {:induction false} DecBounds(s: seq<Byte>)
    requires IsDigits(s)
    ensures 0 <= DecValue(s) < Pow(10, |s|)
    ensures s != [] && s[0] > 48 ==> DecValue(s) >= Pow(10, |s| - 1)
  {
    if |s| == 1 {
      assert s[..0] == [];
      assert Pow(10, 1) == 10 && Pow(10, 0) == 1;
    } else if s != [] {
      DecBounds(s[..|s| - 1]);
    }
  }

  // Trailing zeros scale.
  lemma {:induction false} DecTrailingZeros(s: seq<Byte>, n: nat)
    requires n <= |s| && forall i :: n <= i < |s| ==> s[i] == 48
    ensures DecValue(s) == DecValue(s[..n]) * Pow(10, |s| - n)
    decreases |s| - n
  {
    if n == |s| {
      assert s[..n] == s;
    } else {
      var t := s[..|s| - 1];
      DecTrailingZeros(t, n);
      assert t[..n] == s[..n];
      MulAssoc(10, DecValue(s[..n]), Pow(10, |t| - n));
      MulCommute(10, DecValue(s[..n]));
      MulAssoc(DecValue(s[..n]), 10, Pow(10, |t| - n));
    }
  }

  // A run of nines is one short of a power of ten.
  lemma {:induction false} DecTrailingNines(s: seq<Byte>, n: nat)
    requires n <= |s| && forall i :: n <= i < |s| ==> s[i] == 57
    ensures DecValue(s) + 1 == (DecValue(s[..n]) + 1) * Pow(10, |s| - n)
    decreases |s| - n
  {
    if n == |s| {
      assert s[..n] == s;
    } else {
      var t := s[..|s| - 1];
      DecTrailingNines(t, n);
      assert t[..n] == s[..n];
      MulCommute(10, DecValue(s[..n]) + 1);
      MulAssoc(10, DecValue(s[..n]) + 1, Pow(10, |t| - n));
      MulAssoc(DecValue(s[..n]) + 1, 10, Pow(10, |t| - n));
    }
  }

  // The decimal text of a number.
  function NatText(n: nat): (s: seq<Byte>)
    ensures s != [] && forall i :: 0 <= i < |s| ==> 48 <= s[i] <= 57
    ensures s[0] == 48 <==> n == 0
  {
    if n < 10 then [48 + n] else NatText(n / 10) + [48 + n % 10]
  }

  // ---- rounding ----

  function RoundHalfEven(num: nat, den: nat): nat
    requires den > 0
  {
    var q, r := num / den, num % den;
    if 2 * r > den || (2 * r == den && q % 2 == 1) then q + 1 else q
  }

  // It is the nearest integer, the even one of two; and there is only one such integer.
  lemma RoundHalfEvenNearest(num: nat, den: nat, n: nat)
    requires den > 0
    ensures n == RoundHalfEven(num, den) <==>
            var d: int := den;
            && -d <= 2 * (num - n * d) <= d
            && (2 * (num - n * d) == d || 2 * (num - n * d) == -d ==> n % 2 == 0)
  {
    var q, r := num / den, num % den;
    assert num == den * q + r;
    MulCommute(den, q);
    var t := n - q;
    Distribute(den, q, t);
    MulCommute(den, n);
    assert num - n * den == r - den * t;
    if t >= 2 {
      MulMonotone(den, 2, t);
    } else if t <= -1 {
      MulMonotone(den, t, -1);
    }
  }

  // Scaling numerator and denominator changes nothing.
  lemma RoundHalfEvenScaled(num: nat, den: nat, c: nat)
    requires den > 0 && c > 0
    ensures den * c > 0 && RoundHalfEven(num * c, den * c) == RoundHalfEven(num, den)
  {
    var q, r := num / den, num % den;
    assert num == den * q + r;
    MulMonotone(c, 1, den);
    MulCommute(c, den);
    MulCommute(c, r);
    MulMonotone(c, r + 1, den);
    Distribute(c, r, 1);
    MulMonotone(c, 0, r);
    Distribute(c, den * q, r);
    MulCommute(c, num);
    MulAssoc(c, den, q);
    MulCommute(den * c, q);
    DivModUnique(num * c, den * c, q, r * c);
    if 2 * r > den {
      MulMonotone(c, den + 1, 2 * r);
      Distribute(c, den, 1);
      Distribute(c, r, r);
    } else {
      MulMonotone(c, 2 * r, den);
      Distribute(c, r, r);
      if 2 * r < den {
        MulMonotone(c, 2 * r + 1, den);
        Distribute(c, 2 * r, 1);
      }
    }
  }

  // Equal fractions round alike.
  lemma RoundHalfEvenCross(a: nat, b: nat, c: nat, d: nat)
    requires b > 0 && d > 0 && a * d == c * b
    ensures RoundHalfEven(a, b) == RoundHalfEven(c, d)
  {
    RoundHalfEvenScaled(a, b, d);
    RoundHalfEvenScaled(c, d, b);
    MulCommute(b, d);
  }

  // ---- the rational m * 2^e * 10^t as a fraction ----

  function Up(t: int): nat {
    if t > 0 then t else 0
  }

  function Num(m: nat, e: int, t: int): nat {
    m * (Pow(2, Up(e)) * Pow(10, Up(t)))
  }

  function Den(e: int, t: int): (d: nat)
    ensures d > 0
  {
    PowPositive(2, Up(-e));
    PowPositive(10, Up(-t));
    MulMonotone(Pow(2, Up(-e)), 1, Pow(10, Up(-t)));
    Pow(2, Up(-e)) * Pow(10, Up(-t))
  }

  // 10^k <= m * 2^e < 10^(k + 1)
  ghost predicate HasExponent(m: nat, e: int, k: int) {
    Den(e, -k) <= Num(m, e, -k) < 10 * Den(e, -k)
  }
}
