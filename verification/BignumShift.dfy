// Shifts, bit counts and increments of bignums.
module BignumShift {
  import opened Arith
  import opened Bignum

  // ---- bit counts ----

  // One test of hi0bits: shift up by j bits if the j bits on top are zero.
  method ShiftUpIfClear(ghost x0: Word, x: Word, k: nat, j: nat, d: nat, top: nat) returns (x': Word, k': nat)
    requires d == Pow(2, j) && d * top == 0x1_0000_0000 && x == x0 * Pow(2, k)
    ensures k' == (if x / top == 0 then k + j else k) && x' == x0 * Pow(2, k')
    ensures x > 0 && top <= x * d ==> top <= x'
  {
    if x / top == 0 {
      PowAdd(2, k, j);
      MulAssoc(x0, Pow(2, k), Pow(2, j));
      MulMonotone(d, x + 1, top);
      Distribute(d, x, 1);
      MulCommute(d, x);
      x', k' := x * d, k + j;
    } else {
      x', k' := x, k;
    }
  }

  lemma SmallPowers()
    ensures Pow(2, 0) == 1 && Pow(2, 1) == 2 && Pow(2, 2) == 4 && Pow(2, 3) == 8 && Pow(2, 4) == 16
    ensures Pow(2, 8) == 0x100 && Pow(2, 16) == 0x1_0000 && Pow(2, 32) == 0x1_0000_0000
  {
    assert Pow(2, 4) == 16;
    PowAdd(2, 4, 4);
    PowAdd(2, 8, 8);
    PowAdd(2, 16, 16);
  }

  // The number of leading zero bits of a word.
  method HiZeroBits(x0: Word) returns (k: nat)
    ensures x0 == 0 ==> k == 32
    ensures x0 > 0 ==> k < 32 && 0x8000_0000 <= x0 * Pow(2, k) < 0x1_0000_0000
  {
    SmallPowers();
    var x := x0;
    x, k := ShiftUpIfClear(x0, x, 0, 16, 0x1_0000, 0x1_0000);
    x, k := ShiftUpIfClear(x0, x, k, 8, 0x100, 0x100_0000);
    x, k := ShiftUpIfClear(x0, x, k, 4, 0x10, 0x1000_0000);
    x, k := ShiftUpIfClear(x0, x, k, 2, 4, 0x4000_0000);
    if x / 0x8000_0000 == 0 {
      if x / 0x4000_0000 == 0 {
        return 32;
      }
      x, k := ShiftUpIfClear(x0, x, k, 1, 2, 0x8000_0000);
    }
  }

  // One test of lo0bits: shift the j low bits out if they are zero.
  method ShiftDownIfClear(ghost y: Word, x: Word, k: nat, j: nat, d: nat) returns (x': Word, k': nat)
    requires d == Pow(2, j) > 0 && y == x * Pow(2, k)
    requires x > 0 ==> x % (d * d) != 0
    ensures k' == (if x % d == 0 then k + j else k) && y == x' * Pow(2, k')
    ensures if x > 0 then x' > 0 && x' % d != 0 else x' == 0
  {
    if x % d == 0 {
      ShiftOut(x, d, k, j);
      x', k' := x / d, k + j;
    } else {
      x', k' := x, k;
    }
  }

  lemma ShiftOut(x: nat, d: nat, k: nat, j: nat)
    requires d == Pow(2, j) > 0 && x % d == 0
    ensures x * Pow(2, k) == (x / d) * Pow(2, k + j)
    ensures x / d % d == 0 ==> x % (d * d) == 0
  {
    var q := x / d;
    MulCommute(d, q);
    assert x == q * d;
    PowAdd(2, k, j);
    MulAssoc(q, d, Pow(2, k));
    MulCommute(d, Pow(2, k));
    if q % d == 0 {
      DoublyDivisible(x, q, d);
    }
  }

  lemma DoublyDivisible(x: nat, q: nat, d: nat)
    requires d > 0 && x == q * d && q % d == 0
    ensures x % (d * d) == 0
  {
    var t := q / d;
    assert q == d * t;
    MulCommute(d, t);
    MulAssoc(t, d, d);
    assert d * d > 0;
    DivModUnique(x, d * d, t, 0);
  }

  // The number of trailing zero bits, which are shifted out; a zero word is left alone.
  method LoZeroBits(y: Word) returns (k: nat, x: Word)
    ensures y == 0 ==> k == 32 && x == 0
    ensures y > 0 ==> k < 32 && x % 2 == 1 && y == x * Pow(2, k)
  {
    SmallPowers();
    x := y;
    if x % 8 != 0 {
      if x % 2 != 0 {
        return 0, y;
      }
      if x / 2 % 2 != 0 {
        return 1, x / 2;
      }
      return 2, x / 4;
    }
    x, k := ShiftDownIfClear(y, x, 0, 16, 0x1_0000);
    x, k := ShiftDownIfClear(y, x, k, 8, 0x100);
    x, k := ShiftDownIfClear(y, x, k, 4, 0x10);
    x, k := ShiftDownIfClear(y, x, k, 2, 4);
    if x % 2 == 0 {
      x, k := ShiftDownIfClear(y, x, k, 1, 2);
      if x == 0 {
        return 32, y;
      }
    }
  }

  // ---- lshift ----

  // The first i words of t hold those of x times p = 2^k, up to the bits shifted out.
  ghost predicate ShiftedUp(x: seq<Word>, t: seq<Word>, i: nat, p: nat, z: nat) {
    i <= |x| && i <= |t| && z < p && Val(t[..i]) + Radix(i) * z == Val(x[..i]) * p
  }

  lemma ShiftArith(x: int, p: int, h: int, z: int)
    requires p * h == 0x1_0000_0000 && p > 0 && h > 0 && 0 <= z < p && 0 <= x < 0x1_0000_0000
    ensures x * p % 0x1_0000_0000 == x % h * p
    ensures (x * p + z) % 0x1_0000_0000 == x % h * p + z
    ensures 0 <= x / h == (x * p + z) / 0x1_0000_0000 < p
  {
    var q, lo := x / h, x % h;
    assert x == h * q + lo;
    calc {
      x * p;
      { Distribute(p, h * q, lo); MulCommute(p, x); }
      p * (h * q) + p * lo;
      { MulAssoc(p, h, q); MulCommute(p, lo); }
      0x1_0000_0000 * q + lo * p;
    }
    MulMonotone(p, lo + 1, h);
    Distribute(p, lo, 1);
    MulCommute(p, lo);
    MulMonotone(p, 0, lo);
    DivModUnique(x * p, 0x1_0000_0000, q, lo * p);
    DivModUnique(x * p + z, 0x1_0000_0000, q, lo * p + z);
    QuotientBound(x, h, p);
  }

  lemma QuotientBound(x: int, h: int, p: int)
    requires h > 0 && 0 <= x < p * h
    ensures 0 <= x / h < p
  {
    MulCommute(h, p);
    assert x == h * (x / h) + x % h;
    if x / h >= p {
      MulMonotone(h, p, x / h);
    }
  }

  // x << k | z is the low word of x * 2^k + z, and x >> (32 - k) its high word.
  lemma ShiftWord(x: Word, k: nat, z: nat)
    requires 0 < k < 32 && z < Pow(2, k)
    ensures var y: nat := x * Pow(2, k) + z;
            Pow(2, 32 - k) > 0
            && BitOr(x * Pow(2, k) % 0x1_0000_0000, z) == y % 0x1_0000_0000
            && 0 <= x / Pow(2, 32 - k) == y / 0x1_0000_0000 < Pow(2, k)
  {
    PowAdd(2, k, 32 - k);
    SmallPowers();
    PowPositive(2, 32 - k);
    PowPositive(2, k);
    ShiftArith(x, Pow(2, k), Pow(2, 32 - k), z);
    BitOrDisjoint(x % Pow(2, 32 - k), k, z);
  }

  // One word of either shift loop: the word to store, and the bits to hand on.
  method ShiftPair(x: Word, k: nat, z: Word) returns (w: Word, z': Word)
    requires 0 < k < 32 && z < Pow(2, k)
    ensures var y: nat := x as int * Pow(2, k) + z;
            w == y % 0x1_0000_0000 && z' == y / 0x1_0000_0000 < Pow(2, k) && (x > 0 ==> y > 0)
  {
    ShiftWord(x, k, z);
    if x > 0 {
      PowPositive(2, k);
      MulMonotone(Pow(2, k), 1, x);
      MulCommute(Pow(2, k), x);
    }
    w := BitOr(x as int * Pow(2, k) % 0x1_0000_0000, z);
    z' := x / Pow(2, 32 - k);
  }

  lemma ShiftedUpStart(x: seq<Word>, t: seq<Word>, k: nat)
    ensures ShiftedUp(x, t, 0, Pow(2, k), 0)
  {
    PowPositive(2, k);
  }

  lemma ShiftedUpCarry(x: seq<Word>, t: seq<Word>, i: nat, p: nat, z: nat)
    requires ShiftedUp(x, t, i, p, z)
    ensures z < p
  {
  }

  lemma ShiftedUpStep(x: seq<Word>, t: seq<Word>, i: nat, p: nat, z: nat, y: nat, w: Word, z': Word)
    requires ShiftedUp(x, t, i, p, z) && i < |x| && i < |t|
    requires y == x[i] * p + z && w == y % 0x1_0000_0000 && z' == y / 0x1_0000_0000 < p && (x[i] > 0 ==> y > 0)
    ensures ShiftedUp(x, t[i := w], i + 1, p, z')
    ensures x[i] > 0 && z' == 0 ==> w > 0
  {
    var t' := t[i := w];
    assert t'[..i] == t[..i];
    ValPrefix(t', i);
    ValPrefix(x, i);
    CarryStep(Val(t[..i]), Radix(i), z, Val(x[..i]), p, 0, x[i], y);
  }

  // The shift loop of lshift: to[n..] receives from[..w] shifted by k bits.
  method ShiftUpWords(to: array<Word>, n: nat, from: array<Word>, w: nat, k: nat) returns (z: Word)
    requires 0 < w <= from.Length && n + w <= to.Length && to != from && 0 < k < 32
    modifies to
    ensures ShiftedUp(from[..w], to[n..n + w], w, Pow(2, k), z)
    ensures from[w - 1] > 0 && z == 0 ==> to[n + w - 1] > 0
    ensures to[..n] == old(to[..n])
  {
    hide *;
    ghost var s, t := from[..w], to[n..n + w];
    ShiftedUpStart(s, t, k);
    z := 0;
    var i := 0;
    while i == 0 || i < w
      invariant i <= w && from[..w] == s && to[n..n + w] == t && to[..n] == old(to[..n])
      invariant ShiftedUp(s, t, i, Pow(2, k), z)
      invariant i > 0 && s[i - 1] > 0 && z == 0 ==> t[i - 1] > 0
      decreases w - i
    {
      ghost var before := z;
      assert from[i] == s[i];
      ShiftedUpCarry(s, t, i, Pow(2, k), z);
      to[n + i], z := ShiftPair(from[i], k, z);
      ShiftedUpStep(s, t, i, Pow(2, k), before, s[i] as int * Pow(2, k) + before, to[n + i], z);
      t := t[i := to[n + i]];
      i := i + 1;
    }
  }

  // Behind zeros, with the bits shifted out of the top word in a word of their own.
  method ShiftOnto(to: array<Word>, n: nat, from: array<Word>, w: nat, k: nat, ghost zeros: seq<Word>)
    returns (wds: nat)
    requires 0 < w <= from.Length && n == k / 32 && n + w + 1 <= to.Length && to != from
             && from[w - 1] > 0 && k % 32 > 0
    requires to[..n] == zeros && forall u :: 0 <= u < n ==> zeros[u] == 0
    modifies to
    ensures 0 < wds <= to.Length && to[wds - 1] > 0
    ensures Val(to[..wds]) == Val(from[..w]) * Pow(2, k)
  {
    hide Val, Pow, ShiftedUp;
    ghost var x := from[..w];
    var z := ShiftUpWords(to, n, from, w, k % 32);
    ghost var low := to[n..n + w];
    ShiftedUpEnd(x, zeros, low, k, z);
    to[n + w] := z;
    ThreePieces(to[..], n, w, zeros, low, z);
    wds := if z > 0 then n + w + 1 else n + w;
    assert to[..][..wds] == to[..wds];
  }

  lemma ThreePieces(t: seq<Word>, n: nat, w: nat, zeros: seq<Word>, low: seq<Word>, z: Word)
    requires n + w < |t| && t[..n] == zeros && t[n..n + w] == low && t[n + w] == z
    ensures t[..n + w] == zeros + low && t[..n + w + 1] == zeros + low + [z]
  {
  }

  // k / 32 zero words, then the words of from shifted by k % 32 bits.
  method ShiftInto(to: array<Word>, from: array<Word>, w: nat, k: nat) returns (wds: nat)
    requires 0 < w <= from.Length && k / 32 + w + 1 <= to.Length && to != from && from[w - 1] > 0
    modifies to
    ensures 0 < wds <= to.Length && to[wds - 1] > 0
    ensures Val(to[..wds]) == Val(from[..w]) * Pow(2, k)
  {
    var n := k / 32;
    for j := 0 to n
      invariant forall u :: 0 <= u < j ==> to[u] == 0
    {
      to[j] := 0;
    }
    ghost var zeros := to[..n];
    if k % 32 > 0 {
      wds := ShiftOnto(to, n, from, w, k, zeros);
    } else {
      forall j | 0 <= j < w {
        to[n + j] := from[j];
      }
      wds := n + w;
      assert to[..n + w] == zeros + from[..w];
      CopiedUpEnd(from[..w], zeros, k);
    }
  }

  // b * 2^k, in a new block.
  method LShift(b: Bigint, k: nat) returns (r: Bigint)
    requires b.Valid() && b.Value() > 0
    ensures fresh(r) && fresh(r.x) && r.Valid()
    ensures r.Value() == b.Value() * Pow(2, k)
  {
    var n1, k1 := k / 32 + b.wds + 1, b.k;
    var i := b.x.Length;
    while n1 > i
      invariant i == Pow(2, k1) > 0
      decreases n1 - i
    {
      i := i * 2;
      k1 := k1 + 1;
    }
    r := new Bigint(k1);
    assert b.x[b.wds - 1] > 0 by {
      if b.wds == 1 && b.x[0] == 0 {
        ValZeros(b.x[..1]);
      }
    }
    r.wds := ShiftInto(r.x, b.x, b.wds, k);
  }

  lemma {:induction false} RadixIsPower(n: nat)
    ensures Radix(n) == Pow(2, 32 * n)
  {
    SmallPowers();
    if n > 0 {
      RadixIsPower(n - 1);
      PowAdd(2, 32, 32 * (n - 1));
    }
  }

  lemma ShiftsCompose(v: int, n: nat, k: nat)
    requires n == k / 32
    ensures Radix(n) * (v * Pow(2, k % 32)) == v * Pow(2, k)
  {
    RadixIsPower(n);
    PowAdd(2, 32 * n, k % 32);
    var r, p := Pow(2, 32 * n), Pow(2, k % 32);
    MulCommute(v, p);
    MulAssoc(r, p, v);
    MulCommute(r * p, v);
  }

  lemma CopiedUpEnd(x: seq<Word>, zeros: seq<Word>, k: nat)
    requires k == 32 * |zeros| && forall u :: 0 <= u < |zeros| ==> zeros[u] == 0
    ensures Val(zeros + x) == Val(x) * Pow(2, k)
  {
    ZerosBelow(zeros, x);
    RadixIsPower(|zeros|);
    MulCommute(Val(x), Pow(2, k));
  }

  lemma ShiftedUpAll(x: seq<Word>, low: seq<Word>, p: nat, z: Word)
    requires |low| == |x| && ShiftedUp(x, low, |x|, p, z)
    ensures Val(low + [z]) == Val(x) * p
    ensures z == 0 ==> Val(low) == Val(x) * p
  {
    ValFull(x);
    ValFull(low);
    ValSnoc(low, z);
    if z == 0 {
      ValSnocZero(low);
    }
  }

  lemma ShiftedUpEnd(x: seq<Word>, zeros: seq<Word>, low: seq<Word>, k: nat, z: Word)
    requires |zeros| == k / 32 && |low| == |x| && ShiftedUp(x, low, |x|, Pow(2, k % 32), z)
    requires forall u :: 0 <= u < |zeros| ==> zeros[u] == 0
    ensures Val(zeros + low + [z]) == Val(x) * Pow(2, k)
    ensures z == 0 ==> Val(zeros + low) == Val(x) * Pow(2, k)
  {
    ShiftedUpAll(x, low, Pow(2, k % 32), z);
    ShiftsCompose(Val(x), |zeros|, k);
    ZerosBelow(zeros, low);
    ZerosBelow(zeros, low + [z]);
    assert zeros + low + [z] == zeros + (low + [z]);
  }

  lemma ZerosBelow(zeros: seq<Word>, t: seq<Word>)
    requires forall u :: 0 <= u < |zeros| ==> zeros[u] == 0
    ensures Val(zeros + t) == Radix(|zeros|) * Val(t)
  {
    ValConcat(zeros, t);
    ValZeros(zeros);
  }

  // ---- increment ----

  // Adds one to the first w words; the carry is 1 if every word overflowed to zero.
  method IncrementWords(x: array<Word>, w: nat) returns (carry: Word)
    requires 0 < w <= x.Length
    modifies x
    ensures carry <= 1 && Val(x[..w]) + Radix(w) * carry == old(Val(x[..w])) + 1
    ensures carry == 0 && old(x[w - 1]) > 0 ==> x[w - 1] > 0
  {
    ghost var s := x[..w];
    var i := 0;
    while i == 0 || i < w
      invariant i <= w && x[i..w] == s[i..]
      invariant Val(x[..w][..i]) + Radix(i) == Val(s[..i]) + 1
      decreases w - i
    {
      ghost var before := x[..w];
      assert before[i] == x[i..w][0] == s[i..][0] == s[i];
      assert x[i..w] == before[i..];
      if x[i] < 0xffff_ffff {
        x[i] := x[i] + 1;
        IncrementEnds(s, before, i);
        assert x[..w] == before[i := s[i] + 1];
        assert before[w - 1] == before[i..][w - 1 - i] == s[w - 1];
        return 0;
      }
      x[i] := 0;
      IncrementStep(s, before, i);
      assert x[..w] == before[i := 0];
      assert x[i + 1..w] == before[i..][1..];
      i := i + 1;
    }
    ValFull(s);
    ValFull(x[..w]);
    return 1;
  }

  lemma IncrementStep(s: seq<Word>, x: seq<Word>, i: nat)
    requires i < |s| == |x| && x[i..] == s[i..] && s[i] == 0xffff_ffff
    requires Val(x[..i]) + Radix(i) == Val(s[..i]) + 1
    ensures Val(x[i := 0][..i + 1]) + Radix(i + 1) == Val(s[..i + 1]) + 1
  {
    ValPrefix(x[i := 0], i);
    ValPrefix(s, i);
    assert x[i := 0][..i] == x[..i];
    Distribute(Radix(i), 0xffff_ffff, 1);
  }

  method Increment(b: Bigint) returns (r: Bigint)
    requires b.Valid() && b.wds > 0
    modifies b, b.x
    ensures Owned(b, r) && r.Valid() && r.Value() == old(b.Value()) + 1
  {
    hide Val;
    var w := b.wds;
    var carry := IncrementWords(b.x, w);
    r := b;
    if carry > 0 {
      if w >= b.x.Length {
        r := new Bigint(b.k + 1);
        Copy(r, b);
      }
      r.x[w] := carry;
      assert r.x[..w + 1] == b.x[..][..w] + [carry];
      ValSnoc(b.x[..][..w], carry);
      r.wds := w + 1;
    }
  }

  lemma IncrementEnds(s: seq<Word>, x: seq<Word>, i: nat)
    requires i < |s| == |x| && x[i..] == s[i..] && s[i] < 0xffff_ffff
    requires Val(x[..i]) + Radix(i) == Val(s[..i]) + 1
    ensures Val(x[i := s[i] + 1]) == Val(s) + 1
  {
    var x' := x[i := s[i] + 1];
    ValSplit(x', i + 1);
    ValSplit(s, i + 1);
    assert x'[i + 1..] == s[i + 1..] by {
      assert x'[i + 1..] == x[i..][1..];
    }
    ValPrefix(x', i);
    ValPrefix(s, i);
    assert x'[..i] == x[..i];
    Distribute(Radix(i), s[i], 1);
  }

  // ---- rshift and any_on ----

  // t[..i] and the bits y still held back are x[..i + 1] without its low bits.
  ghost predicate ShiftedDown(x: seq<Word>, t: seq<Word>, i: nat, p: nat, y: nat, low: nat) {
    && i <= |t| && i < |x|
    && (Val(t[..i]) + Radix(i) * y) * p + low == Val(x[..i + 1])
  }

  lemma ShiftedDownStep(x: seq<Word>, t: seq<Word>, i: nat, p: nat, h: nat, y: nat, low: nat, z: nat)
    requires ShiftedDown(x, t, i, p, y, low) && i < |t| && i + 1 < |x|
    requires p * h == 0x1_0000_0000 && z == x[i + 1] * h + y
    ensures ShiftedDown(x, t[i := z % 0x1_0000_0000], i + 1, p, z / 0x1_0000_0000, low)
  {
    var t' := t[i := z % 0x1_0000_0000];
    assert t'[..i] == t[..i];
    ValPrefix(t', i);
    ValPrefix(x, i + 1);
    DownArith(Val(t[..i]), Radix(i), y, p, h, x[i + 1], z);
  }

  lemma DownArith(lo: int, r: int, y: int, p: int, h: int, x: int, z: int)
    requires p * h == 0x1_0000_0000 && z == x * h + y
    ensures (lo + r * (z % 0x1_0000_0000) + (0x1_0000_0000 * r) * (z / 0x1_0000_0000)) * p
         == (lo + r * y) * p + (0x1_0000_0000 * r) * x
  {
    SplitWord(r, z);
    Distribute(r, x * h, y);
    Distribute(p, lo + r * y, r * (x * h));
    calc {
      p * (r * (x * h));
      { MulCommute(x, h); MulAssoc(p, r, h * x); MulCommute(p, r); MulAssoc(r, p, h * x); MulAssoc(p, h, x); }
      r * (0x1_0000_0000 * x);
      { MulAssoc(r, 0x1_0000_0000, x); MulCommute(r, 0x1_0000_0000); }
      (0x1_0000_0000 * r) * x;
    }
    MulCommute(p, lo + r * y);
    MulCommute(p, lo + r * y + r * (x * h));
  }

  // The loop of rshift: each word below the top is made of the bits y of the word read last and
  // of the next one.  The word read is never behind the word written.
  method ShiftDownLoop(x: array<Word>, n: nat, w: nat, k: nat, y0: Word, ghost low: nat) returns (i: nat, y: Word)
    requires n < w <= x.Length && 0 < k < 32 && y0 < Pow(2, 32 - k)
    requires Pow(2, k) * Pow(2, 32 - k) == 0x1_0000_0000
    requires ShiftedDown(x[n..w], x[..], 0, Pow(2, k), y0, low)
    modifies x
    ensures n + i + 1 == w && y < Pow(2, 32 - k)
    ensures ShiftedDown(old(x[n..w]), x[..], i, Pow(2, k), y, low)
    ensures i > 0 && old(x[w - 1]) > 0 && y == 0 ==> x[i - 1] > 0
  {
    hide *;
    ghost var s, p, h := x[n..w], Pow(2, k), Pow(2, 32 - k);
    i, y := 0, y0;
    while n + i + 1 < w
      invariant n + i + 1 <= w && (forall j :: i < j < w - n ==> x[n + j] == s[j]) && y < h
      invariant ShiftedDown(s, x[..], i, p, y, low)
      invariant i > 0 && s[i] > 0 && y == 0 ==> x[i - 1] > 0
    {
      ghost var before := x[..];
      ShiftedDownStep(s, before, i, p, h, y, low, s[i + 1] * h + y);
      var word: Word;
      word, y := ShiftPair(x[n + i + 1], 32 - k, y);
      x[i] := word;
      assert x[..] == before[i := word];
      i := i + 1;
    }
  }

  // Words n.. of x move down by n words and k bits, in place.
  method ShiftDownWords(x: array<Word>, n: nat, w: nat, k: nat) returns (w': nat)
    requires n < w <= x.Length && 0 < k < 32 && (w > 1 ==> x[w - 1] > 0)
    modifies x
    ensures w' <= w - n && (w' > 1 ==> x[w' - 1] > 0) && (w' == 0 ==> x[0] == 0)
    ensures 0 <= old(Val(x[n..w])) - Val(x[..w']) * Pow(2, k) < Pow(2, k)
  {
    ghost var s, p, h := x[n..w], Pow(2, k), Pow(2, 32 - k);
    PowAdd(2, k, 32 - k);
    SmallPowers();
    PowPositive(2, k);
    FirstDown(s, x[..], p, h);
    var i, y := ShiftDownLoop(x, n, w, k, x[n] / Pow(2, k), s[0] % p);
    ghost var before := x[..];
    x[i] := y;
    w' := if y != 0 then i + 1 else i;
    ShiftedDownEnd(s, before, i, p, y, s[0] % p);
    assert x[..i + 1] == before[..i] + [y] && x[..i] == before[..i];
  }

  lemma FirstDown(s: seq<Word>, t: seq<Word>, p: nat, h: nat)
    requires s != [] && p > 0 && p * h == 0x1_0000_0000
    ensures 0 <= s[0] / p < h
    ensures ShiftedDown(s, t, 0, p, s[0] / p, s[0] % p)
  {
    ValPrefix(s, 0);
    MulCommute(p, h);
    MulCommute(p, s[0] / p);
    QuotientBound(s[0], p, h);
  }

  lemma ShiftedDownEnd(s: seq<Word>, t: seq<Word>, i: nat, p: nat, y: Word, low: nat)
    requires i + 1 == |s| && ShiftedDown(s, t, i, p, y, low)
    ensures Val(t[..i] + [y]) * p + low == Val(s)
    ensures y == 0 ==> Val(t[..i]) * p + low == Val(s)
  {
    ValSnoc(t[..i], y);
    ValFull(s);
    assert y == 0 ==> Radix(i) * y == 0;
  }

  // b / 2^k, rounded down, in place.
  method RShift(b: Bigint, k: nat)
    requires b.Valid()
    modifies b, b.x
    ensures b.Valid() && Pow(2, k) > 0 && b.Value() == old(b.Value()) / Pow(2, k)
  {
    var n, w := k / 32, b.wds;
    ghost var s := b.x[..w];
    PowPositive(2, k);
    if n < w {
      if k % 32 > 0 {
        w := ShiftDownWords(b.x, n, w, k % 32);
      } else {
        forall i | 0 <= i < w - n {
          b.x[i] := b.x[n + i];
        }
        w := w - n;
        assert b.x[..w] == s[n..];
      }
      DownUnique(s, n, k, Val(b.x[..w]));
    } else {
      DownToZero(s, k);
      w := 0;
    }
    b.wds := w;
    if w == 0 {
      b.x[0] := 0;
    }
  }

  lemma DownUnique(s: seq<Word>, n: nat, k: nat, v: nat)
    requires n == k / 32 && n < |s|
    requires 0 <= Val(s[n..]) - v * Pow(2, k % 32) < Pow(2, k % 32)
    ensures Pow(2, k) > 0 && Val(s) / Pow(2, k) == v
  {
    hide Val, Pow, Radix;
    var p, r := Pow(2, k % 32), Radix(n);
    PowPositive(2, k);
    RadixIsPower(n);
    PowAdd(2, k % 32, 32 * n);
    ValSplit(s, n);
    ValBound(s[..n]);
    assert k % 32 + 32 * n == k;
    DownQuotient(Val(s), Val(s[..n]), r, p, v, Val(s[n..]) - v * p);
  }

  lemma DownQuotient(total: int, lo: int, r: int, p: int, v: int, low: int)
    requires 0 <= lo < r && 0 <= low < p && total == lo + r * (v * p + low)
    ensures p * r > 0 && total / (p * r) == v
  {
    Distribute(r, v * p, low);
    MulCommute(r, v * p);
    MulAssoc(v, p, r);
    MulMonotone(r, low + 1, p);
    Distribute(r, low, 1);
    MulMonotone(r, 0, low);
    MulCommute(r, p);
    MulMonotone(r, 1, p);
    DivModUnique(total, p * r, v, lo + r * low);
  }

  lemma DownToZero(s: seq<Word>, k: nat)
    requires |s| <= k / 32
    ensures Pow(2, k) > 0 && Val(s) / Pow(2, k) == 0
  {
    ValBound(s);
    RadixIsPower(|s|);
    PowMonotone(2, 32 * |s|, k);
    DivModUnique(Val(s), Pow(2, k), 0, Val(s));
  }

  // Is any of the k low bits set?
  method AnyOn(b: Bigint, k: nat) returns (any: bool)
    requires b.Valid()
    ensures any <==> b.Value() % Pow2(k) != 0
  {
    var n, nwds := k / 32, b.wds;
    ghost var s := b.x[..nwds];
    LowBits(s, k);
    if n > nwds {
      n := nwds;
    } else if n < nwds && k % 32 > 0 {
      var x2 := b.x[n];
      var x1 := ClearLow(x2, Pow2(k % 32));
      if x1 != x2 {
        return true;
      }
    }
    while n > 0
      invariant 0 <= n <= |s| && forall i :: n <= i < |s| && i < k / 32 ==> s[i] == 0
    {
      n := n - 1;
      if b.x[n] != 0 {
        return true;
      }
    }
    return false;
  }

  function Pow2(k: nat): (p: nat)
    ensures p > 0
  {
    PowPositive(2, k);
    Pow(2, k)
  }

  // x >> k << k.
  function ClearLow(x: nat, p: nat): (r: nat)
    requires p > 0
    ensures r <= x
    ensures r == x <==> x % p == 0
  {
    assert x == p * (x / p) + x % p;
    MulCommute(p, x / p);
    x / p * p
  }

  // The low k bits are clear just when the words below bit k are and the straddling word's are.
  lemma LowBits(s: seq<Word>, k: nat)
    ensures Val(s) % Pow2(k) == 0 <==>
            && (forall i :: 0 <= i < |s| && i < k / 32 ==> s[i] == 0)
            && (k / 32 < |s| ==> s[k / 32] % Pow2(k % 32) == 0)
  {
    var n, p := k / 32, Pow2(k % 32);
    var low := if n <= |s| then s[..n] else s;
    RadixIsPower(|low|);
    ValBound(low);
    if n >= |s| {
      assert low == s;
      PowMonotone(2, 32 * |s|, k);
      DivModUnique(Val(s), Pow2(k), 0, Val(s));
    } else {
      var e := s[n] % p;
      LowBitsArith(s, n, k, p);
      MulMonotone(Radix(n), if e > 0 then 1 else 0, e);
      PowPositive(2, 32 * n);
    }
    if Val(low) == 0 {
      ValZeroInverse(low);
    } else if forall i :: 0 <= i < |low| ==> low[i] == 0 {
      ValZeros(low);
    }
    assert forall i :: 0 <= i < |low| ==> low[i] == s[i];
  }

  // The words from n on are a multiple of p and the low bits of word n.
  lemma WordLowBits(s: seq<Word>, p: nat, h: nat) returns (m: nat)
    requires s != [] && p > 0 && p * h == 0x1_0000_0000
    ensures Val(s) == p * m + s[0] % p
  {
    var q, t := s[0] / p, Val(s[1..]);
    MulAssoc(p, h, t);
    Distribute(p, q, h * t);
    assert s[0] == p * q + s[0] % p;
    assert h * t >= 0;
    m := q + h * t;
  }

  lemma LowBitsArith(s: seq<Word>, n: nat, k: nat, p: nat)
    requires n == k / 32 < |s| && p == Pow2(k % 32)
    ensures Val(s) % Pow2(k) == Val(s[..n]) + Radix(n) * (s[n] % p)
  {
    PowAdd(2, k % 32, 32 - k % 32);
    SmallPowers();
    var m := WordLowBits(s[n..], p, Pow2(32 - k % 32));
    ValSplit(s, n);
    ValBound(s[..n]);
    RadixIsPower(n);
    PowAdd(2, 32 * n, k % 32);
    RemainderBelow(Val(s[..n]), Radix(n), p, m, s[n] % p);
  }

  lemma RemainderBelow(lo: nat, r: nat, p: nat, m: nat, e: nat)
    requires lo < r && e < p
    ensures r * p > 0 && (lo + r * (p * m + e)) % (r * p) == lo + r * e
  {
    Distribute(r, p * m, e);
    MulAssoc(r, p, m);
    MulCommute(r * p, m);
    MulMonotone(r, e + 1, p);
    Distribute(r, e, 1);
    MulMonotone(r, 0, e);
    DivModUnique(lo + r * (p * m + e), r * p, m, lo + r * e);
  }
}
