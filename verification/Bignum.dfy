// Multiple-precision integers: little-endian arrays of 32-bit words that are updated in
// place by carry and borrow loops, and that move to a larger array when they outgrow theirs.
module Bignum {
  import opened Arith

  // What a 64-bit unsigned expression holds.
  function U64(d: int): (r: nat) {
    d % 0x1_0000_0000_0000_0000
  }

  class Bigint {
    const k: nat
    const x: array<Word>
    var wds: nat
    var sign: bool

    // wds words are in use and the top one is not zero; zero is one zero word or none.
    ghost predicate Valid()
      reads this, x
    {
      && x.Length == Pow(2, k) > 0
      && wds <= x.Length
      && (wds > 1 ==> x[wds - 1] != 0)
      && (wds == 0 ==> x[0] == 0)
    }

    ghost function Value(): nat
      reads this, x
      requires wds <= x.Length
    {
      Val(x[..wds])
    }

    // Balloc: the words of a new block hold anything.
    constructor (k: nat)
      ensures fresh(x) && x.Length == Pow(2, k) && this.k == k && wds == 0 && !sign
    {
      PowPositive(2, k);
      this.k := k;
      x := new Word[Pow(2, k)];
      wds := 0;
      sign := false;
    }
  }

  // No two bignums share storage.
  ghost predicate Apart(a: Bigint, b: Bigint) {
    a != b && a.x != b.x
  }

  // A method that consumes b gives back b itself or a new block.
  twostate predicate Owned(b: Bigint, new r: Bigint) {
    r == b || (fresh(r) && fresh(r.x))
  }

  // ---- facts about lengths ----

  lemma NormalLength(s: seq<Word>, n: nat)
    requires s != [] && (|s| > 1 ==> s[|s| - 1] != 0)
    ensures n > 0 && Val(s) < Radix(n) ==> |s| <= n
    ensures Val(s) >= Radix(n) ==> |s| > n
  {
    if n > 0 && |s| > n {
      ValTopNonzero(s);
      PowMonotone(0x1_0000_0000, n, |s| - 1);
    }
    if |s| <= n {
      ValBound(s);
      PowMonotone(0x1_0000_0000, |s|, n);
    }
  }

  // ---- one word of each loop ----

  lemma CarryStep(lo: int, r: nat, carry: int, v: int, m: int, a: int, w: int, y: int)
    requires lo + r * carry == v * m + a
    requires y == w * m + carry && y >= 0
    ensures lo + r * (y % 0x1_0000_0000) + (0x1_0000_0000 * r) * (y / 0x1_0000_0000) == (v + r * w) * m + a
  {
    SplitWord(r, y);
    Distribute(r, w * m, carry);
    MulAssoc(r, w, m);
    Distribute(m, v, r * w);
  }

  // 64-bit unsigned subtraction leaves the borrow in bit 32.
  lemma BorrowBit(d: int)
    requires -0x1_0000_0000 <= d < 0x1_0000_0000
    ensures U64(d) / 0x1_0000_0000 % 2 == (if d < 0 then 1 else 0)
    ensures U64(d) % 0x1_0000_0000 == (if d < 0 then d + 0x1_0000_0000 else d)
  {
  }

  // ---- multadd ----

  // The first i words of x hold those of x0 times m plus a, up to the carry.
  ghost predicate Multiplied(x0: seq<Word>, x: seq<Word>, i: nat, m: nat, a: nat, carry: nat) {
    && i <= |x| == |x0|
    && x[i..] == x0[i..]
    && Val(x[..i]) + Radix(i) * carry == Val(x0[..i]) * m + a
  }

  lemma MultipliedStep(x0: seq<Word>, x: seq<Word>, i: nat, m: nat, a: nat, carry: nat, y: nat)
    requires Multiplied(x0, x, i, m, a, carry) && i < |x|
    requires y == x[i] * m + carry
    ensures Multiplied(x0, x[i := y % 0x1_0000_0000], i + 1, m, a, y / 0x1_0000_0000)
  {
    var x' := x[i := y % 0x1_0000_0000];
    assert x[i] == x[i..][0] == x0[i..][0] == x0[i];
    assert x'[..i] == x[..i];
    ValPrefix(x', i);
    ValPrefix(x0, i);
    CarryStep(Val(x[..i]), Radix(i), carry, Val(x0[..i]), m, a, x0[i], y);
    assert x'[i + 1..] == x0[i + 1..] by {
      assert x'[i + 1..] == x[i..][1..];
    }
  }

  // x * m + carry stays below 2^63, and its upper half is a carry again.
  lemma CarryBound(w: Word, m: nat, carry: nat)
    requires m < 0x8000_0000 && carry < 0x8000_0000
    ensures 0 <= w * m + carry < 0x8000_0000_0000_0000
    ensures (w * m + carry) / 0x1_0000_0000 < 0x8000_0000
    ensures m > 0 && w > 0 ==> w * m + carry > 0
  {
    MulMonotone(m, w, 0xffff_ffff);
    if m > 0 {
      MulMonotone(w, 1, m);
    }
  }

  // The carry loop of multadd; it looks at one word at least.
  method MulAddWords(x: array<Word>, n: nat, m: nat, a: nat) returns (carry: nat)
    requires n <= x.Length && 0 < x.Length && 0 < m < 0x8000_0000 && a < 0x8000_0000
    modifies x
    ensures carry < 0x8000_0000
    ensures Multiplied(old(x[..]), x[..], if n == 0 then 1 else n, m, a, carry)
    ensures n > 0 && old(x[n - 1]) > 0 && carry == 0 ==> x[n - 1] > 0
  {
    var i: nat := 0;
    carry := a;
    ghost var x0 := x[..];
    while i == 0 || i < n
      invariant 0 <= i <= (if n == 0 then 1 else n) && carry < 0x8000_0000
      invariant Multiplied(x0, x[..], i, m, a, carry)
      invariant i > 0 && x0[i - 1] > 0 && carry == 0 ==> x[i - 1] > 0
      decreases (if n == 0 then 1 else n) - i
    {
      ghost var before := x[..];
      assert x[i] == before[i] == x0[i] by { assert before[i..][0] == x0[i..][0]; }
      CarryBound(x[i], m, carry);
      var y: nat := x[i] * m + carry;
      MultipliedStep(x0, before, i, m, a, carry, y);
      carry := y / 0x1_0000_0000;
      x[i] := y % 0x1_0000_0000;
      assert x[..] == before[i := y % 0x1_0000_0000];
      i := i + 1;
    }
  }

  // b * m + a, in place while the carry fits.
  method MultAdd(b: Bigint, m: nat, a: nat) returns (r: Bigint)
    requires b.Valid() && 0 < m < 0x8000_0000 && a < 0x8000_0000
    requires b.wds == 0 ==> a == 0
    modifies b, b.x
    ensures Owned(b, r) && r.Valid()
    ensures r.Value() == old(b.Value()) * m + a
  {
    var wds := b.wds;
    ghost var x0 := b.x[..];
    var carry := MulAddWords(b.x, wds, m, a);
    r := b;
    if wds == 0 {
      ZeroWord(x0, b.x[..], m, carry);
    } else if carry > 0 {
      if wds >= b.x.Length {
        r := new Bigint(b.k + 1);
        Copy(r, b);
      }
      r.x[wds] := carry;
      assert r.x[..wds + 1] == b.x[..][..wds] + [carry];
      ValSnoc(b.x[..][..wds], carry);
      r.wds := wds + 1;
    }
  }

  lemma ZeroWord(x0: seq<Word>, x: seq<Word>, m: nat, carry: nat)
    requires |x0| > 0 && x0[0] == 0 && Multiplied(x0, x, 1, m, 0, carry)
    ensures x[0] == 0 && carry == 0
  {
    ValPrefix(x0, 0);
    ValPrefix(x, 0);
  }

  // Bcopy.
  method Copy(to: Bigint, from: Bigint)
    requires from.wds <= from.x.Length && from.wds <= to.x.Length && Apart(to, from)
    modifies to, to.x
    ensures to.wds == from.wds && to.sign == from.sign
    ensures to.x[..to.wds] == from.x[..from.wds]
  {
    to.sign := from.sign;
    to.wds := from.wds;
    forall i | 0 <= i < from.wds {
      to.x[i] := from.x[i];
    }
  }

  // ---- mult ----

  // Row j of the product: y times the first i words of a, added into c0 from word j on.
  ghost predicate RowDone(c0: seq<Word>, c: seq<Word>, a: seq<Word>, j: nat, i: nat, y: nat, carry: nat) {
    && j + i <= |c| == |c0| && i <= |a|
    && c[j + i..] == c0[j + i..]
    && Val(c[..j + i]) + Radix(j + i) * carry == Val(c0[..j + i]) + Radix(j) * (Val(a[..i]) * y)
  }

  lemma RowStep(c0: seq<Word>, c: seq<Word>, a: seq<Word>, j: nat, i: nat, y: nat, carry: nat, z: nat)
    requires RowDone(c0, c, a, j, i, y, carry) && i < |a| && j + i < |c|
    requires z == a[i] * y + c[j + i] + carry
    ensures RowDone(c0, c[j + i := z % 0x1_0000_0000], a, j, i + 1, y, z / 0x1_0000_0000)
  {
    var n := j + i;
    var l: Word, h := z % 0x1_0000_0000, z / 0x1_0000_0000;
    var c' := c[n := l];
    assert c[n] == c[n..][0] == c0[n..][0] == c0[n];
    assert c'[..n] == c[..n];
    assert c'[n + 1..] == c0[n + 1..] by {
      assert c'[n + 1..] == c[n..][1..];
    }
    ValPrefix(c', n);
    ValPrefix(c0, n);
    ValPrefix(a, i);
    PowAdd(0x1_0000_0000, j, i);
    RowArith(Val(c[..n]), Radix(n), carry, Val(c0[..n]), Radix(j), Val(a[..i]), y, a[i], c0[n], Radix(i), z);
  }

  lemma RowArith(lo: int, r: int, carry: int, base: int, p: int, va: int, y: int, ai: int, cn: int, ri: int, z: int)
    requires lo + r * carry == base + p * (va * y)
    requires z == ai * y + cn + carry && r == p * ri
    ensures lo + r * (z % 0x1_0000_0000) + (0x1_0000_0000 * r) * (z / 0x1_0000_0000)
         == (base + r * cn) + p * ((va + ri * ai) * y)
  {
    SplitWord(r, z);
    Distribute(r, ai * y + cn, carry);
    Distribute(r, ai * y, cn);
    Distribute(y, va, ri * ai);
    Distribute(p, va * y, (ri * ai) * y);
    MulAssoc(ri, ai, y);
    MulAssoc(p, ri, ai * y);
  }

  // word * word + word + carry fits in 64 bits, exactly.
  lemma ProductBound(u: Word, v: Word, w: Word, carry: Word)
    ensures 0 <= u * v + w + carry < 0x1_0000_0000_0000_0000
  {
    MulMonotone(v, u, 0xffff_ffff);
  }

  // Once the last carry is stored the whole row has been added.
  lemma RowEnd(c0: seq<Word>, c: seq<Word>, a: seq<Word>, j: nat, y: Word, carry: Word)
    requires RowDone(c0, c, a, j, |a|, y, carry) && j + |a| < |c|
    requires forall t :: j + |a| <= t < |c| ==> c0[t] == 0
    ensures Val(c[j + |a| := carry]) == Val(c0) + Radix(j) * (Val(a) * y)
  {
    var n := j + |a|;
    var c' := c[n := carry];
    assert a[..|a|] == a;
    assert c'[..n] == c[..n];
    ValPrefix(c', n);
    ValSplit(c', n + 1);
    ValSplit(c0, n);
    forall t | n < t < |c| ensures c'[t] == 0 {
      assert c'[t] == c[n..][t - n] == c0[n..][t - n];
    }
    ValZeros(c'[n + 1..]);
    ValZeros(c0[n..]);
  }

  lemma RowAbove(c0: seq<Word>, c: seq<Word>, a: seq<Word>, j: nat, y: nat, carry: nat)
    requires RowDone(c0, c, a, j, |a|, y, carry)
    ensures j + |a| <= |c| == |c0| && c[j + |a|..] == c0[j + |a|..]
  {
    hide Val, Radix;
  }

  lemma RowStart(c: seq<Word>, a: seq<Word>, j: nat, y: Word)
    requires j + |a| <= |c|
    ensures RowDone(c, c, a, j, 0, y, 0)
  {
  }

  // The inner loop of mult: one row of the schoolbook product.
  method AddRow(c: array<Word>, wc: nat, a: array<Word>, wa: nat, j: nat, y: Word)
    requires 0 < wa <= a.Length && j + wa < wc <= c.Length && a != c
    requires forall t :: j + wa <= t < wc ==> c[t] == 0
    modifies c
    ensures Val(c[..wc]) == old(Val(c[..wc])) + Radix(j) * (Val(a[..wa]) * y)
    ensures forall t :: j + wa < t < wc ==> c[t] == 0
  {
    hide Val, Radix, RowDone;
    ghost var c0, sa := c[..wc], a[..wa];
    var carry: Word := 0;
    var i := 0;
    RowStart(c0, sa, j, y);
    while i == 0 || i < wa
      invariant i <= wa && RowDone(c0, c[..wc], sa, j, i, y, carry)
      decreases wa - i
    {
      ghost var before := c[..wc];
      assert a[i] == sa[i] && c[j + i] == before[j + i];
      ProductBound(a[i], y, c[j + i], carry);
      var z: nat := a[i] as int * y + c[j + i] + carry;
      RowStep(c0, before, sa, j, i, y, carry, z);
      carry := z / 0x1_0000_0000;
      c[j + i] := z % 0x1_0000_0000;
      assert c[..wc] == before[j + i := z % 0x1_0000_0000];
      i := i + 1;
    }
    ghost var before := c[..wc];
    RowEnd(c0, before, sa, j, y, carry);
    RowAbove(c0, before, sa, j, y, carry);
    c[j + wa] := carry;
    assert c[..wc] == before[j + wa := carry];
    forall t | j + wa < t < wc ensures c[t] == 0 {
      assert c[t] == before[j + wa..][t - j - wa] == c0[j + wa..][t - j - wa];
    }
  }

  // Dropping leading zero words.
  method Trim(x: array<Word>, n: nat) returns (w: nat)
    requires n <= x.Length
    ensures w <= n && Val(x[..w]) == Val(x[..n])
    ensures w > 0 ==> x[w - 1] != 0
    ensures w == 0 && n > 0 ==> x[0] == 0
  {
    w := n;
    while w > 0 && x[w - 1] == 0
      invariant w <= n && Val(x[..w]) == Val(x[..n]) && (w == 0 && n > 0 ==> x[0] == 0)
    {
      ValPrefix(x[..], w - 1);
      assert x[..][..w] == x[..w] && x[..][..w - 1] == x[..w - 1];
      w := w - 1;
    }
  }

  method Mult(a0: Bigint, b0: Bigint) returns (c: Bigint)
    requires a0.Valid() && b0.Valid() && a0.wds > 0 && b0.wds > 0
    ensures fresh(c) && fresh(c.x) && c.Valid()
    ensures c.Value() == a0.Value() * b0.Value()
  {
    var a, b := a0, b0;
    if a.wds < b.wds {
      a, b := b, a;
    }
    var k, wa, wb := a.k, a.wds, b.wds;
    var wc := wa + wb;
    if wc > a.x.Length {
      k := k + 1;
    }
    c := new Bigint(k);
    ghost var va, vb := a.Value(), b.Value();
    MultWords(c.x, wc, a.x, wa, b.x, wb);
    MulCommute(va, vb);
    assert a.Value() == va && b.Value() == vb;
    wc := Trim(c.x, wc);
    c.wds := wc;
  }

  // The outer loop of mult.
  method MultWords(c: array<Word>, wc: nat, a: array<Word>, wa: nat, b: array<Word>, wb: nat)
    requires 0 < wa <= a.Length && wb <= b.Length && wc == wa + wb <= c.Length
    requires c != a && c != b
    modifies c
    ensures Val(c[..wc]) == Val(a[..wa]) * Val(b[..wb])
  {
    for t := 0 to wc
      invariant forall u :: 0 <= u < t ==> c[u] == 0
    {
      c[t] := 0;
    }
    ValZeros(c[..wc]);
    ghost var va, sb := Val(a[..wa]), b[..wb];
    for j := 0 to wb
      invariant b[..wb] == sb && Val(a[..wa]) == va
      invariant forall t :: wa + j <= t < wc ==> c[t] == 0
      invariant Val(c[..wc]) == va * Val(sb[..j])
    {
      var y := b[j];
      ValPrefix(sb, j);
      RowValue(va, Val(sb[..j]), Radix(j), sb[j]);
      if y != 0 {
        AddRow(c, wc, a, wa, j, y);
      }
    }
    assert sb[..wb] == sb;
  }

  lemma RowValue(a: nat, b: nat, r: nat, y: nat)
    ensures a * b + r * (a * y) == a * (b + r * y)
  {
    assert r * (a * y) == a * (r * y) by {
      MulAssoc(r, a, y);
      MulAssoc(a, r, y);
    }
  }

  // ---- cmp ----

  method Cmp(a: Bigint, b: Bigint) returns (c: int)
    requires a.Valid() && b.Valid()
    requires (a.wds == 0 ==> b.Value() > 0) && (b.wds == 0 ==> a.Value() > 0)
    ensures c < 0 <==> a.Value() < b.Value()
    ensures c == 0 <==> a.Value() == b.Value()
  {
    var i, j := a.wds, b.wds;
    if i != j {
      if i < j {
        LongerIsLarger(a.x[..i], b.x[..j]);
      } else {
        LongerIsLarger(b.x[..j], a.x[..i]);
      }
      return i - j;
    }
    ghost var sa, sb := a.x[..j], b.x[..j];
    while true
      invariant 0 < j <= |sa| && sa[j..] == sb[j..]
      decreases j
    {
      j := j - 1;
      ComparePrefix(sa, sb, j);
      if a.x[j] != b.x[j] {
        return if a.x[j] < b.x[j] then -1 else 1;
      }
      assert sa[j..] == [sa[j]] + sa[j + 1..] && sb[j..] == [sb[j]] + sb[j + 1..];
      if j == 0 {
        break;
      }
    }
    return 0;
  }

  // Numerals that agree above word j are ordered by word j, if it differs.
  lemma ComparePrefix(a: seq<Word>, b: seq<Word>, j: nat)
    requires j < |a| == |b| && a[j + 1..] == b[j + 1..]
    ensures a[j] < b[j] ==> Val(a) < Val(b)
    ensures a[j] > b[j] ==> Val(a) > Val(b)
    ensures j == 0 && a[j] == b[j] ==> Val(a) == Val(b)
  {
    ValSplit(a, j + 1);
    ValSplit(b, j + 1);
    ValPrefix(a, j);
    ValPrefix(b, j);
    ValBound(a[..j]);
    ValBound(b[..j]);
    if a[j] < b[j] {
      TopDecides(Val(a[..j]), Val(b[..j]), Radix(j), a[j], b[j]);
    } else if a[j] > b[j] {
      TopDecides(Val(b[..j]), Val(a[..j]), Radix(j), b[j], a[j]);
    }
  }

  lemma TopDecides(lo: nat, lo': nat, r: nat, x: int, y: int)
    requires lo < r && x < y
    ensures lo + r * x < lo' + r * y
  {
    MulMonotone(r, x + 1, y);
    Distribute(r, x, 1);
  }

  lemma LongerIsLarger(s: seq<Word>, t: seq<Word>)
    requires |s| < |t| && (|t| > 1 ==> t[|t| - 1] != 0)
    requires s == [] ==> Val(t) > 0
    ensures Val(s) < Val(t)
  {
    if s != [] {
      ValBound(s);
      ValTopNonzero(t);
      PowMonotone(0x1_0000_0000, |s|, |t| - 1);
    }
  }

  // ---- diff ----

  // The first i words of c hold those of a minus those of b, up to the borrow.
  ghost predicate Subtracted(a: seq<Word>, b: seq<Word>, c: seq<Word>, i: nat, borrow: nat) {
    && i <= |a| == |b| == |c| && borrow <= 1
    && Val(c[..i]) == Val(a[..i]) - Val(b[..i]) + Radix(i) * borrow
  }

  // One word of the borrow loops: d is the exact difference.
  lemma BorrowStep(lo: int, r: int, borrow: int, hi: int, d: int)
    requires lo == hi + r * borrow && -0x1_0000_0000 <= d < 0x1_0000_0000
    ensures lo + r * (U64(d) % 0x1_0000_0000)
         == (hi + r * (d + borrow)) + (0x1_0000_0000 * r) * (U64(d) / 0x1_0000_0000 % 2)
  {
    BorrowBit(d);
    Distribute(r, d, borrow);
    if d < 0 {
      Distribute(r, d, 0x1_0000_0000);
      MulCommute(r, 0x1_0000_0000);
    }
  }

  lemma SubtractedStep(a: seq<Word>, b: seq<Word>, c: seq<Word>, i: nat, borrow: nat)
    requires Subtracted(a, b, c, i, borrow) && i < |a|
    ensures var y := U64(a[i] as int - b[i] - borrow);
            Subtracted(a, b, c[i := y % 0x1_0000_0000], i + 1, y / 0x1_0000_0000 % 2)
  {
    var d := a[i] as int - b[i] - borrow;
    var c' := c[i := U64(d) % 0x1_0000_0000];
    assert c'[..i] == c[..i];
    ValPrefix(c', i);
    ValPrefix(a, i);
    ValPrefix(b, i);
    BorrowStep(Val(c[..i]), Radix(i), borrow, Val(a[..i]) - Val(b[..i]), d);
    Distribute(Radix(i), a[i], -(b[i] as int));
    MulNegate(Radix(i), b[i]);
  }

  function Zeros(n: nat): (z: seq<Word>)
    ensures |z| == n && forall i :: 0 <= i < n ==> z[i] == 0
  {
    seq(n, i => 0)
  }

  // The subtrahend seen at the length of the minuend.
  function Padded(b: seq<Word>, n: nat): (p: seq<Word>)
    requires |b| <= n
    ensures |p| == n
  {
    b + Zeros(n - |b|)
  }

  lemma PaddedValue(b: seq<Word>, n: nat)
    requires |b| <= n
    ensures Val(Padded(b, n)) == Val(b)
  {
    ValPadded(b, Zeros(n - |b|));
  }

  // Without a borrow out of the top word the difference is exact.
  lemma SubtractedStart(a: seq<Word>, b: seq<Word>, c: seq<Word>)
    requires |a| == |b| == |c|
    ensures Subtracted(a, b, c, 0, 0)
  {
  }

  lemma SubtractedEnd(a: seq<Word>, b: seq<Word>, c: seq<Word>, borrow: nat)
    requires Subtracted(a, b, c, |a|, borrow) && Val(a) >= Val(b)
    ensures Val(c) == Val(a) - Val(b)
  {
    ValFull(a);
    ValFull(b);
    ValFull(c);
    ValBound(c);
    NoBorrow(Val(c), Val(a) - Val(b), Radix(|a|), borrow);
  }

  lemma NoBorrow(v: int, d: nat, r: nat, borrow: nat)
    requires v == d + r * borrow && v < r
    ensures v == d
  {
    if borrow > 0 {
      MulMonotone(r, 1, borrow);
    }
  }

  // The two borrow loops of diff: the words both have, then the rest of the longer one.
  method SubtractWords(c: array<Word>, a: array<Word>, wa: nat, b: array<Word>, wb: nat)
    requires 0 < wb <= wa <= a.Length && wb <= b.Length && wa <= c.Length && c != a && c != b
    requires Val(a[..wa]) >= Val(b[..wb])
    modifies c
    ensures Val(c[..wa]) == Val(a[..wa]) - Val(b[..wb])
  {
    hide Val, Subtracted;
    ghost var sa, sb := a[..wa], Padded(b[..wb], wa);
    PaddedValue(b[..wb], wa);
    SubtractedStart(sa, sb, c[..wa]);
    var i, borrow: nat := 0, 0;
    while i == 0 || i < wb
      invariant i <= wb && a[..wa] == sa && Padded(b[..wb], wa) == sb
      invariant Subtracted(sa, sb, c[..wa], i, borrow)
      decreases wb - i
    {
      ghost var before := c[..wa];
      assert a[i] == sa[i] && b[i] == sb[i];
      SubtractedStep(sa, sb, before, i, borrow);
      var y := U64(a[i] as int - b[i] - borrow);
      borrow := y / 0x1_0000_0000 % 2;
      c[i] := y % 0x1_0000_0000;
      assert c[..wa] == before[i := y % 0x1_0000_0000];
      i := i + 1;
    }
    while i < wa
      invariant wb <= i <= wa && a[..wa] == sa
      invariant Subtracted(sa, sb, c[..wa], i, borrow)
    {
      ghost var before := c[..wa];
      assert a[i] == sa[i] && sb[i] == 0;
      SubtractedStep(sa, sb, before, i, borrow);
      var y := U64(a[i] as int - borrow);
      borrow := y / 0x1_0000_0000 % 2;
      c[i] := y % 0x1_0000_0000;
      assert c[..wa] == before[i := y % 0x1_0000_0000];
      i := i + 1;
    }
    SubtractedEnd(sa, sb, c[..wa], borrow);
  }

  // |a - b|, with the sign of a - b.
  method Diff(a0: Bigint, b0: Bigint) returns (c: Bigint)
    requires a0.Valid() && b0.Valid() && a0.wds > 0 && b0.wds > 0
    ensures fresh(c) && fresh(c.x) && c.Valid() && c.wds > 0
    ensures c.sign <==> a0.Value() < b0.Value()
    ensures c.Value() == if c.sign then b0.Value() - a0.Value() else a0.Value() - b0.Value()
  {
    var a, b := a0, b0;
    var i := Cmp(a, b);
    if i == 0 {
      c := new Bigint(0);
      c.wds := 1;
      c.x[0] := 0;
      assert c.x[..1] == [0];
      assert Val([0]) == 0 by { ValZeros([0]); }
      return;
    }
    if i < 0 {
      a, b := b, a;
    }
    if a.wds < b.wds {
      LongerIsLarger(a.x[..a.wds], b.x[..b.wds]);
    }
    c := new Bigint(a.k);
    c.sign := i < 0;
    c.wds := SubtractInto(c.x, a, b);
  }

  method SubtractInto(c: array<Word>, a: Bigint, b: Bigint) returns (w: nat)
    requires 0 < b.wds <= a.wds <= a.x.Length <= c.Length && b.wds <= b.x.Length && c != a.x && c != b.x
    requires a.Value() > b.Value()
    modifies c
    ensures 0 < w <= a.wds && c[w - 1] != 0
    ensures Val(c[..w]) == a.Value() - b.Value()
  {
    SubtractWords(c, a.x, a.wds, b.x, b.wds);
    w := Trim(c, a.wds);
  }

  // ---- quorem ----

  // The first i words of b hold those of b0 minus q times those of s, up to carry and borrow.
  ghost predicate Reduced(b0: seq<Word>, s: seq<Word>, b: seq<Word>, i: nat, q: nat, carry: nat, borrow: nat) {
    && i <= |s| == |b| == |b0| && borrow <= 1
    && b[i..] == b0[i..]
    && Val(b[..i]) == Val(b0[..i]) - Val(s[..i]) * q + Radix(i) * (carry + borrow)
  }

  lemma ReducedStep(b0: seq<Word>, s: seq<Word>, b: seq<Word>, i: nat, q: nat, carry: nat, borrow: nat)
    requires Reduced(b0, s, b, i, q, carry, borrow) && i < |s|
    ensures var ys: nat := s[i] * q + carry;
            var y := U64(b[i] as int - ys % 0x1_0000_0000 - borrow);
            Reduced(b0, s, b[i := y % 0x1_0000_0000], i + 1, q, ys / 0x1_0000_0000, y / 0x1_0000_0000 % 2)
  {
    var ys: nat := s[i] * q + carry;
    var d := b[i] as int - ys % 0x1_0000_0000 - borrow;
    var b' := b[i := U64(d) % 0x1_0000_0000];
    assert b[i] == b[i..][0] == b0[i..][0] == b0[i];
    assert b'[..i] == b[..i];
    assert b'[i + 1..] == b0[i + 1..] by {
      assert b'[i + 1..] == b[i..][1..];
    }
    ValPrefix(b', i);
    ValPrefix(b0, i);
    ValPrefix(s, i);
    ReduceArith(Val(b[..i]), Radix(i), carry, borrow, Val(b0[..i]), Val(s[..i]), q, s[i], b0[i], ys, d);
  }

  lemma ReduceArith(lo: int, r: int, carry: int, borrow: int, hb: int, hs: int,
                    q: int, si: int, bi: int, ys: nat, d: int)
    requires lo == hb - hs * q + r * (carry + borrow)
    requires ys == si * q + carry && d == bi - ys % 0x1_0000_0000 - borrow && -0x1_0000_0000 <= d < 0x1_0000_0000
    ensures lo + r * (U64(d) % 0x1_0000_0000)
         == (hb + r * bi) - (hs + r * si) * q
            + (0x1_0000_0000 * r) * (ys / 0x1_0000_0000 + U64(d) / 0x1_0000_0000 % 2)
  {
    var l := ys % 0x1_0000_0000;
    BorrowStep(lo, r, borrow, lo - r * borrow, d);
    SplitWord(r, ys);
    Distribute(r, carry, borrow);
    Distribute(r, si * q, carry);
    MulAssoc(r, si, q);
    Distribute(q, hs, r * si);
    Distribute(r, bi, -l);
    MulNegate(r, l);
    Distribute(0x1_0000_0000 * r, ys / 0x1_0000_0000, U64(d) / 0x1_0000_0000 % 2);
  }

  lemma ReducedEnd(b0: seq<Word>, s: seq<Word>, b: seq<Word>, q: nat, carry: nat, borrow: nat)
    requires Reduced(b0, s, b, |s|, q, carry, borrow) && Val(b0) >= Val(s) * q
    ensures Val(b) == Val(b0) - Val(s) * q
  {
    ValFull(b0);
    ValFull(s);
    ValFull(b);
    ValBound(b);
    NoBorrow(Val(b), Val(b0) - Val(s) * q, Radix(|s|), carry + borrow);
  }

  lemma WordTimesDigit(w: Word, q: Word, carry: Word)
    ensures 0 <= w * q + carry < 0x1_0000_0000_0000_0000
    ensures (w * q + carry) / 0x1_0000_0000 < 0x1_0000_0000
  {
    MulMonotone(q, w, 0xffff_ffff);
  }

  // Both loops of quorem; the second runs with q = 1.
  method ReduceWords(b: array<Word>, s: array<Word>, n: nat, q: Word)
    requires 0 < n <= b.Length && n <= s.Length && b != s
    requires Val(b[..n]) >= Val(s[..n]) * q
    modifies b
    ensures Val(b[..n]) == old(Val(b[..n])) - Val(s[..n]) * q
  {
    ghost var b0, ss := b[..n], s[..n];
    var carry: Word, borrow: nat := 0, 0;
    var i := 0;
    while i == 0 || i < n
      invariant i <= n && s[..n] == ss
      invariant Reduced(b0, ss, b[..n], i, q, carry, borrow)
      decreases n - i
    {
      ghost var before := b[..n];
      assert s[i] == ss[i] && b[i] == before[i];
      WordTimesDigit(s[i], q, carry);
      var ys: nat := s[i] as int * q + carry;
      ReducedStep(b0, ss, before, i, q, carry, borrow);
      carry := ys / 0x1_0000_0000;
      var y := U64(b[i] as int - ys % 0x1_0000_0000 - borrow);
      borrow := y / 0x1_0000_0000 % 2;
      b[i] := y % 0x1_0000_0000;
      assert b[..n] == before[i := y % 0x1_0000_0000];
      i := i + 1;
    }
    ReducedEnd(b0, ss, b[..n], q, carry, borrow);
  }

  // One top word of b over one more than the top word of s: never too large, low by one at most.
  lemma QuotientEstimate(b: seq<Word>, s: seq<Word>)
    requires |b| == |s| > 0 && 0x800_0000 <= s[|s| - 1] < 0x1000_0000
    ensures var q := b[|b| - 1] / (s[|s| - 1] as int + 1);
            Val(s) * q <= Val(b) < Val(s) * q + 2 * Val(s)
  {
    var n := |s| - 1;
    var r, bt: int, st: int := Radix(n), b[n], s[n];
    var q := bt / (st + 1);
    ValTop(b);
    ValTop(s);
    EstimateArith(bt, st, q);
    calc {
      Val(s) * q;
    <= { MulMonotone(q, Val(s), r * st + r); MulCommute(q, Val(s)); MulCommute(q, r * st + r); }
      (r * st + r) * q;
    == { Distribute(r, st, 1); MulAssoc(r, st + 1, q); }
      r * ((st + 1) * q);
    <= { MulMonotone(r, (st + 1) * q, bt); }
      r * bt;
    }
    calc {
      Val(b);
    <
      r * bt + r;
    == { Distribute(r, bt, 1); }
      r * (bt + 1);
    <= { MulMonotone(r, bt + 1, st * (q + 2)); }
      r * (st * (q + 2));
    == { MulAssoc(r, st, q + 2); }
      (r * st) * (q + 2);
    <= { MulMonotone(q + 2, r * st, Val(s)); MulCommute(q + 2, r * st); MulCommute(q + 2, Val(s)); }
      Val(s) * (q + 2);
    == { Distribute(Val(s), q, 2); }
      Val(s) * q + Val(s) * 2;
    }
  }

  lemma EstimateArith(bt: int, st: int, q: int)
    requires 0 <= bt < 0x1_0000_0000 && 0x800_0000 <= st && q == bt / (st + 1)
    ensures 0 <= q < 32
    ensures (st + 1) * q <= bt
    ensures bt + 1 <= st * (q + 2)
  {
    assert bt == (st + 1) * q + bt % (st + 1);
    Distribute(q, st, 1);
    Distribute(st, q, 2);
    MulCommute(st, q);
  }

  // Dropping the zero words that a subtraction leaves on top; n is the index of the top word.
  method DropTop(b: Bigint, n: nat)
    requires b.wds == n + 1 <= b.x.Length == Pow(2, b.k)
    modifies b
    ensures b.Valid() && b.Value() == old(b.Value()) && b.wds <= n + 1
  {
    if b.x[n] == 0 {
      var m := n;
      ValPrefix(b.x[..], n);
      assert b.x[..][..n + 1] == b.x[..n + 1] && b.x[..][..n] == b.x[..n];
      while m > 1 && b.x[m - 1] == 0
        invariant m <= n && (n > 0 ==> m > 0) && Val(b.x[..m]) == Val(b.x[..n])
      {
        ValPrefix(b.x[..], m - 1);
        assert b.x[..][..m] == b.x[..m] && b.x[..][..m - 1] == b.x[..m - 1];
        m := m - 1;
      }
      b.wds := m;
    }
  }

  // b -= q * S, renormalised: what quorem does once with its estimate and once more with 1.
  method ReduceBy(b: Bigint, S: Bigint, q: Word)
    requires b.Valid() && S.Valid() && Apart(b, S) && 0 < b.wds == S.wds
    requires b.Value() >= S.Value() * q
    modifies b, b.x
    ensures b.Valid() && b.wds <= S.wds
    ensures b.Value() == old(b.Value()) - S.Value() * q
  {
    ReduceWords(b.x, S.x, S.wds, q);
    DropTop(b, S.wds - 1);
  }

  lemma QuotientCorrected(vb: nat, vs: nat, q: nat, r: nat, again: bool)
    requires vs * q <= vb < vs * q + 2 * vs
    requires again <==> vb - vs * q >= vs
    requires r == vb - vs * q - (if again then vs else 0)
    ensures vs > 0 && vb / vs == (if again then q + 1 else q) && vb % vs == r
  {
    Distribute(vs, q, 1);
    MulCommute(vs, q);
    MulCommute(vs, q + 1);
    DivModUnique(vb, vs, if again then q + 1 else q, r);
  }

  lemma ShorterQuotient(vb: nat, vs: nat)
    requires vb < vs
    ensures vb / vs == 0 && vb % vs == vb
  {
    DivModUnique(vb, vs, 0, vb);
  }

  // The first half of quorem: take away the estimated multiple.
  method ReduceByEstimate(b: Bigint, S: Bigint) returns (q: Word)
    requires b.Valid() && S.Valid() && Apart(b, S)
    requires 0 < S.wds && b.wds == S.wds && 0x800_0000 <= S.x[S.wds - 1] < 0x1000_0000
    modifies b, b.x
    ensures b.Valid() && b.wds <= S.wds && q < 32
    ensures b.Value() == old(b.Value()) - S.Value() * q < 2 * S.Value()
  {
    q := EstimateQuotient(b.x[S.wds - 1], S.x[S.wds - 1], b.x[..S.wds], S.x[..S.wds]);
    if q > 0 {
      ReduceBy(b, S, q);
    }
  }

  method EstimateQuotient(bt: Word, st: Word, ghost b: seq<Word>, ghost s: seq<Word>) returns (q: Word)
    requires |b| == |s| > 0 && bt == b[|b| - 1] && st == s[|s| - 1] && 0x800_0000 <= st < 0x1000_0000
    ensures q < 32
    ensures Val(s) * q <= Val(b) < Val(s) * q + 2 * Val(s)
  {
    QuotientEstimate(b, s);
    var divisor: Word := st + 1;
    EstimateArith(bt, st, bt / divisor);
    q := bt / divisor;
  }

  // The second half: the estimate was low by one if the remainder still holds S.
  method ReduceOnce(b: Bigint, S: Bigint) returns (again: bool)
    requires b.Valid() && S.Valid() && Apart(b, S) && b.wds <= S.wds && S.Value() > 0
    modifies b, b.x
    ensures b.Valid() && b.wds <= S.wds
    ensures again <==> old(b.Value()) >= S.Value()
    ensures b.Value() == old(b.Value()) - (if again then S.Value() else 0)
  {
    var c := Cmp(b, S);
    again := c >= 0;
    if again {
      if b.wds < S.wds {
        LongerIsLarger(b.x[..b.wds], S.x[..S.wds]);
        assert false;
      }
      ReduceBy(b, S, 1);
    }
  }

  // The quotient of b and S, when it fits a word; b keeps the remainder.
  method QuoRem(b: Bigint, S: Bigint) returns (q: Word)
    requires b.Valid() && S.Valid() && Apart(b, S)
    requires 0 < S.wds && b.wds <= S.wds && 0x800_0000 <= S.x[S.wds - 1] < 0x1000_0000
    modifies b, b.x
    ensures b.Valid() && b.wds <= S.wds && S.Value() > 0
    ensures q == old(b.Value()) / S.Value()
    ensures b.Value() == old(b.Value()) % S.Value()
  {
    TopPositive(S.x[..S.wds]);
    if b.wds < S.wds {
      LongerIsLarger(b.x[..b.wds], S.x[..S.wds]);
      ShorterQuotient(b.Value(), S.Value());
      return 0;
    }
    var estimate := ReduceByEstimate(b, S);
    var again := ReduceOnce(b, S);
    QuotientCorrected(old(b.Value()), S.Value(), estimate, b.Value(), again);
    q := if again then estimate + 1 else estimate;
  }

  lemma TopPositive(s: seq<Word>)
    requires s != [] && s[|s| - 1] > 0
    ensures Val(s) > 0
  {
    ValTopNonzero(s);
    PowPositive(0x1_0000_0000, |s| - 1);
  }
}
