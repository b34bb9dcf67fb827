// Powers, bitwise operations on naturals, little-endian numerals and subset sizes.  Everything here is
// shared vocabulary: the modules that model the C sources state their results in these terms.
module Arith {

  type Byte = b: int | 0 <= b < 256

  const U32_MOD: nat := 0x1_0000_0000
  const U64_MOD: nat := 0x1_0000_0000_0000_0000

  function Pow(b: nat, e: nat): nat {
    if e == 0 then 1 else b * Pow(b, e - 1)
  }

  lemma FirstPowers()
    ensures Pow(2, 0) == 1 && Pow(2, 1) == 2 && Pow(10, 0) == 1 && Pow(10, 1) == 10
  {
  }

  lemma WordSizes()
    ensures U32_MOD == Pow(2, 32) && U64_MOD == Pow(2, 64)
  {
    assert Pow(2, 8) == 0x100;
    PowAdd(2, 8, 8);
    PowAdd(2, 16, 16);
    PowAdd(2, 32, 32);
  }

  lemma {:induction false} PowPositive(b: nat, e: nat)
    requires b > 0
    ensures Pow(b, e) > 0
  {
    if e > 0 {
      PowPositive(b, e - 1);
    }
  }

  lemma {:induction false} PowAdd(b: nat, m: nat, n: nat)
    ensures Pow(b, m + n) == Pow(b, m) * Pow(b, n)
  {
    if m > 0 {
      PowAdd(b, m - 1, n);
      MulAssoc(b, Pow(b, m - 1), Pow(b, n));
    }
  }

  lemma MulAssoc(a: int, b: int, c: int)
    ensures (a * b) * c == a * (b * c)
  {
  }

  lemma MulCommute(a: int, b: int)
    ensures a * b == b * a
  {
  }

  lemma MulNegate(a: int, b: int)
    ensures a * -b == -(a * b)
  {
  }

  lemma Distribute(a: int, b: int, c: int)
    ensures a * (b + c) == a * b + a * c
  {
  }

  lemma MulMonotone(a: nat, b: int, c: int)
    requires b <= c
    ensures a * b <= a * c
  {
  }

  lemma {:induction false} PowSquared(b: nat, n: nat)
    ensures Pow(Pow(b, 2), n) == Pow(b, 2 * n)
  {
    if n > 0 {
      PowSquared(b, n - 1);
      PowAdd(b, 2, 2 * (n - 1));
    }
  }

  lemma {:induction false} PowBase(a: nat, b: nat, n: nat)
    ensures Pow(a * b, n) == Pow(a, n) * Pow(b, n)
  {
    if n > 0 {
      PowBase(a, b, n - 1);
      var p, q := Pow(a, n - 1), Pow(b, n - 1);
      calc {
        (a * b) * (p * q);
        { MulAssoc(a, b, p * q); MulAssoc(b, p, q); MulAssoc(p, b, q); MulAssoc(a, p, b * q); }
        (a * p) * (b * q);
      }
    }
  }

  lemma {:induction false} PowMonotone(b: nat, m: nat, n: nat)
    requires b > 0 && m <= n
    ensures Pow(b, m) <= Pow(b, n)
    decreases n - m
  {
    if m < n {
      PowMonotone(b, m, n - 1);
      MulMonotone(Pow(b, n - 1), 1, b);
    }
  }

  // ---- bitwise or, written on naturals ----

  function BitOr(a: nat, b: nat): nat
    decreases a + b
  {
    if a == 0 && b == 0 then 0
    else (if a % 2 == 1 || b % 2 == 1 then 1 else 0) + 2 * BitOr(a / 2, b / 2)
  }

  // Or-ing a multiple of 2^k with a value below 2^k is addition.
  lemma {:induction false} BitOrDisjoint(h: nat, k: nat, lo: nat)
    requires lo < Pow(2, k)
    ensures BitOr(h * Pow(2, k), lo) == h * Pow(2, k) + lo
    decreases k
  {
    if k == 0 {
      BitOrZero(h);
    } else {
      var p := Pow(2, k - 1);
      assert h * Pow(2, k) == 2 * (h * p);
      BitOrDisjoint(h, k - 1, lo / 2);
    }
  }

  lemma {:induction false} BitOrZero(h: nat)
    ensures BitOr(h, 0) == h
  {
    if h > 0 {
      BitOrZero(h / 2);
    }
  }

  function BitAnd(a: nat, b: nat): nat
    decreases a
  {
    if a == 0 then 0 else (if a % 2 == 1 && b % 2 == 1 then 1 else 0) + 2 * BitAnd(a / 2, b / 2)
  }

  lemma {:induction false} BitAndBelow(a: nat, b: nat)
    ensures BitAnd(a, b) <= b
    decreases a
  {
    if a > 0 {
      BitAndBelow(a / 2, b / 2);
    }
  }

  // ---- little-endian numerals in base 2^32 ----

  type Word = w: int | 0 <= w < 0x1_0000_0000

  // 2^(32 * n)
  function Radix(n: nat): nat {
    Pow(0x1_0000_0000, n)
  }

  function Val(s: seq<Word>): nat {
    if s == [] then 0 else s[0] + 0x1_0000_0000 * Val(s[1..])
  }

  lemma {:induction false} ValConcat(s: seq<Word>, t: seq<Word>)
    ensures Val(s + t) == Val(s) + Radix(|s|) * Val(t)
  {
    if s == [] {
      assert s + t == t;
    } else {
      assert (s + t)[1..] == s[1..] + t;
      ValConcat(s[1..], t);
      MulAssoc(0x1_0000_0000, Radix(|s| - 1), Val(t));
    }
  }

  lemma ValSnoc(s: seq<Word>, w: Word)
    ensures Val(s + [w]) == Val(s) + Radix(|s|) * w
  {
    ValConcat(s, [w]);
    assert Val([w]) == w by {
      assert [w][1..] == [];
    }
  }

  lemma ValSnocZero(s: seq<Word>)
    ensures Val(s + [0]) == Val(s)
  {
    ValSnoc(s, 0);
  }

  // Zero words on top change nothing.
  lemma {:induction false} ValPadded(s: seq<Word>, zeros: seq<Word>)
    requires forall i :: 0 <= i < |zeros| ==> zeros[i] == 0
    ensures Val(s + zeros) == Val(s)
  {
    if zeros == [] {
      assert s + zeros == s;
    } else {
      var n := |zeros| - 1;
      ValPadded(s, zeros[..n]);
      assert s + zeros == (s + zeros[..n]) + [0];
      ValSnocZero(s + zeros[..n]);
    }
  }

  // Storing a number as a low word and a carry into the next place.
  lemma SplitWord(r: int, z: int)
    ensures r * (z % 0x1_0000_0000) + (0x1_0000_0000 * r) * (z / 0x1_0000_0000) == r * z
  {
    var l, h := z % 0x1_0000_0000, z / 0x1_0000_0000;
    MulAssoc(0x1_0000_0000, r, h);
    Distribute(r, l, 0x1_0000_0000 * h);
    assert 0x1_0000_0000 * (r * h) == r * (0x1_0000_0000 * h);
    assert z == l + 0x1_0000_0000 * h;
  }

  // Extending a prefix by one word.
  lemma ValPrefix(s: seq<Word>, i: nat)
    requires i < |s|
    ensures Val(s[..i + 1]) == Val(s[..i]) + Radix(i) * s[i]
  {
    assert s[..i + 1] == s[..i] + [s[i]];
    ValSnoc(s[..i], s[i]);
  }

  lemma ValFull(s: seq<Word>)
    ensures Val(s[..|s|]) == Val(s)
  {
    assert s[..|s|] == s;
  }

  lemma ValSplit(s: seq<Word>, i: nat)
    requires i <= |s|
    ensures Val(s) == Val(s[..i]) + Radix(i) * Val(s[i..])
  {
    assert s == s[..i] + s[i..];
    ValConcat(s[..i], s[i..]);
  }

  lemma {:induction false} ValBound(s: seq<Word>)
    ensures Val(s) < Radix(|s|)
  {
    if s != [] {
      ValBound(s[1..]);
    }
  }

  lemma ValTop(s: seq<Word>)
    requires s != []
    ensures Radix(|s| - 1) * s[|s| - 1] <= Val(s) < Radix(|s| - 1) * s[|s| - 1] + Radix(|s| - 1)
  {
    var n := |s| - 1;
    ValPrefix(s, n);
    assert s[..n + 1] == s;
    ValBound(s[..n]);
  }

  // A numeral whose top word is not zero needs all its words.
  lemma ValTopNonzero(s: seq<Word>)
    requires s != [] && s[|s| - 1] != 0
    ensures Radix(|s| - 1) <= Val(s)
  {
    ValTop(s);
    MulMonotone(Radix(|s| - 1), 1, s[|s| - 1]);
  }

  lemma {:induction false} ValZeros(s: seq<Word>)
    requires forall i :: 0 <= i < |s| ==> s[i] == 0
    ensures Val(s) == 0
  {
    if s != [] {
      ValZeros(s[1..]);
    }
  }

  lemma {:induction false} ValZeroInverse(s: seq<Word>)
    requires Val(s) == 0
    ensures forall i :: 0 <= i < |s| ==> s[i] == 0
  {
    if s != [] {
      ValZeroInverse(s[1..]);
      forall i | 0 <= i < |s| ensures s[i] == 0 {
        if i > 0 {
          assert s[i] == s[1..][i - 1];
        }
      }
    }
  }

  // The value determines the quotient and the remainder.
  lemma DivModUnique(n: int, d: int, q: int, r: int)
    requires d > 0 && n == q * d + r && 0 <= r < d
    ensures n / d == q && n % d == r
  {
    var e := n / d - q;
    assert e * d == r - n % d by {
      assert n == (n / d) * d + n % d;
      assert (n / d - q) * d == (n / d) * d - q * d;
    }
    if e >= 1 {
      MulMonotone(d, 1, e);
    } else if e <= -1 {
      MulMonotone(d, e, -1);
    }
  }

  lemma {:induction false} SubsetSize<T>(a: set<T>, b: set<T>)
    requires a <= b
    ensures |a| <= |b|
  {
    if x :| x in a {
      SubsetSize(a - {x}, b - {x});
    }
  }
}
