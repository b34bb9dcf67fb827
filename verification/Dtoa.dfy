// Printing a double to a given number of decimal digits by long division of bignums.
module Dtoa {
  import opened Arith
  import opened Bignum
  import opened BignumShift
  import opened Doubles

  // ---- taking a double apart ----

  // The significand with its trailing zero bits shifted out, as two words.
  method StripZeros(d1: Word, z0: Word) returns (k: nat, x0: Word, z: Word)
    requires z0 as int * 0x1_0000_0000 + d1 > 0
    ensures z0 as int * 0x1_0000_0000 + d1 == (x0 as int + 0x1_0000_0000 * (z as int)) * Pow(2, k)
  {
    z := z0;
    if d1 != 0 {
      var y;
      k, y := LoZeroBits(d1);
      if k != 0 {
        SplitLow(z, d1, y, k);
        x0, z := ShiftPair(z, 32 - k, y);
      } else {
        assert Pow(2, 0) == 1;
        x0 := y;
      }
    } else {
      k, x0 := LoZeroBits(z);
      ShiftWhole(z, x0, k);
      k, z := k + 32, 0;
    }
  }

  method StoreWords(x0: Word, x1: Word) returns (b: Bigint)
    ensures fresh(b) && fresh(b.x) && b.Valid() && b.wds > 0
    ensures b.Value() == x0 as int + 0x1_0000_0000 * (x1 as int)
  {
    SmallPowers();
    b := new Bigint(1);
    b.x[0], b.x[1] := x0, x1;
    b.wds := if x1 != 0 then 2 else 1;
    OneWord(b.x[..1]);
    TwoWords(b.x[..2]);
  }

  // A bignum b and an exponent e with |d| == b * 2^e; bits is the length of b for a normal d.
  method D2B(d0: Word, d1: Word) returns (b: Bigint, e: int, bits: int)
    requires Significand(d0, d1) > 0
    ensures fresh(b) && fresh(b.x) && b.Valid()
    ensures e >= UnitExponent(d0) && b.Value() > 0
    ensures Significand(d0, d1) == b.Value() * Pow(2, e - UnitExponent(d0))
    ensures BiasedExponent(d0) > 0 ==> bits == 53 - (e - UnitExponent(d0))
  {
    var z: Word := d0 % 0x10_0000;
    var de := d0 % 0x8000_0000 / 0x10_0000;
    ExponentField(d0);
    if de != 0 {
      z := z + 0x10_0000;
    }
    var k, x0;
    k, x0, z := StripZeros(d1, z);
    b := StoreWords(x0, z);
    if de != 0 {
      e := de as int - 1075 + k as int;
      bits := 53 - k as int;
    } else {
      e := k as int - 1074;
      var h := HiZeroBits(b.x[b.wds - 1]);
      bits := 32 * (b.wds as int) - (h as int);
    }
  }

  lemma ShiftWhole(z: Word, x: Word, k: nat)
    requires z == x * Pow(2, k)
    ensures z as int * 0x1_0000_0000 == x * Pow(2, k + 32)
  {
    SmallPowers();
    PowAdd(2, k, 32);
    MulAssoc(x, Pow(2, k), 0x1_0000_0000);
  }

  lemma OneWord(s: seq<Word>)
    requires |s| == 1
    ensures Val(s) == s[0]
  {
    assert s == [] + [s[0]];
    ValSnoc([], s[0]);
  }

  lemma TwoWords(s: seq<Word>)
    requires |s| == 2
    ensures Val(s) == s[0] as int + 0x1_0000_0000 * (s[1] as int)
  {
    assert s[1..] == [s[1]];
    OneWord([s[1]]);
  }

  // Shifting out the zero bits of the low word.
  lemma SplitLow(z: Word, d1: Word, y: Word, k: nat)
    requires 0 < k < 32 && d1 == y * Pow(2, k)
    ensures y < Pow(2, 32 - k)
    ensures z as int * 0x1_0000_0000 + d1 == (z * Pow(2, 32 - k) + y) * Pow(2, k)
  {
    var p, h := Pow(2, k), Pow(2, 32 - k);
    PowAdd(2, 32 - k, k);
    SmallPowers();
    PowPositive(2, k);
    if y >= h {
      MulMonotone(p, h, y);
      MulCommute(p, h);
      MulCommute(p, y);
    }
    MulAssoc(z, h, p);
    Distribute(p, z * h, y);
    MulCommute(p, z * h);
    MulCommute(p, y);
    MulCommute(p, z * h + y);
  }

  // ---- aligning the divisor ----

  // The top word has exactly four leading zero bits.
  ghost predicate Aligned(v: nat) {
    exists m: nat :: AlignedAt(v, m)
  }

  ghost predicate AlignedAt(v: nat, m: nat) {
    0x800_0000 * Radix(m) <= v < 0x1000_0000 * Radix(m)
  }

  // The further shift that aligns b once it is shifted by p2.
  method DShift(b: Bigint, p2: nat) returns (rv: nat)
    requires b.Valid() && b.Value() > 0
    ensures rv < 32 && Aligned(b.Value() * Pow(2, p2 + rv))
  {
    TopOfPositive(b.x[..b.wds]);
    var h := HiZeroBits(b.x[b.wds - 1]);
    var r: int := h as int - 4;
    if p2 > 0 {
      r := r - p2 as int;
    }
    rv := r % 32;
    AlignedByShift(b.x[..b.wds], h, p2, rv);
  }

  lemma TopOfPositive(s: seq<Word>)
    requires Val(s) > 0 && (|s| > 1 ==> s[|s| - 1] > 0)
    ensures s != [] && s[|s| - 1] > 0
  {
    if |s| == 1 {
      OneWord(s);
    }
  }

  lemma AlignedByShift(s: seq<Word>, h: nat, p2: nat, rv: nat)
    requires s != [] && h < 32 && 0x8000_0000 <= s[|s| - 1] * Pow(2, h) < 0x1_0000_0000
    requires rv == (h as int - 4 - p2 as int) % 32
    ensures Aligned(Val(s) * Pow(2, p2 + rv))
  {
    var n, t: int, p, r := |s| - 1, s[|s| - 1], Pow(2, h), Radix(|s| - 1);
    hide Val, Pow, Radix;
    var j := (p2 + rv + 4 - h) / 32;
    assert p2 + rv + 4 == h + 32 * j;
    ValTop(s);
    TopScaled(t, h);
    ScaledTop(Val(s), r, t, p);
    SmallPowers();
    PowAdd(2, p2 + rv, 4);
    PowAdd(2, h, 32 * j);
    RadixIsPower(j);
    PowAdd(0x1_0000_0000, n, j);
    var w, v := Val(s) * Pow(2, p2 + rv), Val(s);
    calc {
      w * 16;
      { MulAssoc(v, Pow(2, p2 + rv), 16); }
      v * (p * Radix(j));
      { MulAssoc(v, p, Radix(j)); }
      (v * p) * Radix(j);
    }
    PowPositive(0x1_0000_0000, j);
    Sandwich(v * p, r, Radix(j), w * 16);
    assert AlignedAt(w, n + j);
  }

  // A word below 2^32 / p leaves room for the words below it.
  lemma TopScaled(t: int, h: nat)
    requires 0 <= t && h < 32 && t * Pow(2, h) < 0x1_0000_0000
    ensures (t + 1) * Pow(2, h) <= 0x1_0000_0000
  {
    var p, q := Pow(2, h), Pow(2, 32 - h);
    PowAdd(2, h, 32 - h);
    SmallPowers();
    PowPositive(2, h);
    MulCommute(p, t);
    if t >= q {
      MulMonotone(p, q, t);
    }
    MulMonotone(p, t + 1, q);
    MulCommute(p, t + 1);
  }

  lemma ScaledTop(v: nat, r: nat, t: int, p: nat)
    requires r * t <= v < r * t + r && p > 0
    requires 0x8000_0000 <= t * p && (t + 1) * p <= 0x1_0000_0000
    ensures 0x8000_0000 * r <= v * p < 0x1_0000_0000 * r
  {
    MulMonotone(p, r * t, v);
    MulMonotone(p, v + 1, r * (t + 1));
    Distribute(p, v, 1);
    Distribute(r, t, 1);
    MulAssoc(r, t, p);
    MulAssoc(r, t + 1, p);
    MulCommute(p, v);
    MulCommute(p, r * t);
    MulCommute(p, r * (t + 1));
    MulMonotone(r, 0x8000_0000, t * p);
    MulMonotone(r, (t + 1) * p, 0x1_0000_0000);
  }

  lemma Sandwich(v: nat, r: nat, c: nat, w: nat)
    requires 0x8000_0000 * r <= v < 0x1_0000_0000 * r && w == v * c && c > 0
    ensures 0x8000_0000 * (r * c) <= w < 0x1_0000_0000 * (r * c)
  {
    MulMonotone(c, 0x8000_0000 * r, v);
    MulMonotone(c, v + 1, 0x1_0000_0000 * r);
    Distribute(c, v, 1);
    MulCommute(c, v);
    MulCommute(c, r);
    MulAssoc(c, 0x8000_0000, r);
    MulAssoc(c, 0x1_0000_0000, r);
  }

  lemma AlignedTop(s: seq<Word>)
    requires Aligned(Val(s)) && (|s| > 1 ==> s[|s| - 1] > 0)
    ensures s != [] && 0x800_0000 <= s[|s| - 1] < 0x1000_0000
  {
    var m: nat :| AlignedAt(Val(s), m);
    PowPositive(0x1_0000_0000, m);
    TopOfPositive(s);
    NormalLength(s, m);
    NormalLength(s, m + 1);
    ValTop(s);
    var t: int := s[m];
    MulCommute(Radix(m), t);
    if t >= 0x1000_0000 {
      MulMonotone(Radix(m), 0x1000_0000, t);
    } else if t < 0x800_0000 {
      MulMonotone(Radix(m), t + 1, 0x800_0000);
      Distribute(Radix(m), t, 1);
    }
  }
}
