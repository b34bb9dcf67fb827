// The long division that emits the digits, and the rounding of the last one.
module DigitLoop {
  import opened Arith
  import opened Bignum
  import opened BignumShift
  import opened Decimal
  import opened Dtoa

  // n digits s have been taken off num / den, which leaves rem.
  ghost predicate Divided(num: nat, den: nat, s: seq<Byte>, rem: nat) {
    && s != [] && IsDigits(s) && s[0] > 48
    && rem < den
    && num * Pow(10, |s| - 1) == DecValue(s) * den + rem
  }

  lemma DividedFirst(num: nat, den: nat)
    requires 0 < den <= num < 10 * den
    ensures 0 < num / den < 10 && Divided(num, den, [48 + num / den], num % den)
  {
    var q := num / den;
    assert num == den * q + num % den;
    MulCommute(den, q);
    if q >= 10 {
      MulMonotone(den, 10, q);
    } else if q <= 0 {
      MulMonotone(den, q, 0);
    }
    DecSnoc([], 48 + q);
    assert [] + [48 + q] == [48 + q];
    assert Pow(10, 0) == 1;
  }

  lemma DigitBound(rem: nat, den: nat)
    requires rem < den
    ensures 0 <= 10 * rem / den < 10
    ensures 10 * rem == den * (10 * rem / den) + 10 * rem % den
  {
    var q := 10 * rem / den;
    if q >= 10 {
      MulMonotone(den, 10, q);
    }
  }

  lemma DivisionStep(num: int, p: int, v: int, den: int, rem: int, q: int, r: int)
    requires num * p == v * den + rem && 10 * rem == den * q + r
    ensures num * (10 * p) == (10 * v + q) * den + r
  {
    MulAssoc(num, 10, p);
    MulAssoc(10, num, p);
    MulAssoc(10, v, den);
    MulCommute(den, q);
    Distribute(den, 10 * v, q);
    MulCommute(den, 10 * v);
    MulCommute(den, 10 * v + q);
  }

  lemma DividedNext(num: nat, den: nat, s: seq<Byte>, rem: nat)
    requires Divided(num, den, s, rem)
    ensures 0 <= 10 * rem / den < 10
    ensures Divided(num, den, s + [48 + 10 * rem / den], 10 * rem % den)
    ensures rem > 0 && 10 * rem % den == 0 ==> 10 * rem / den > 0
  {
    DigitBound(rem, den);
    var q := 10 * rem / den;
    DecSnoc(s, 48 + q);
    DivisionStep(num, Pow(10, |s| - 1), DecValue(s), den, rem, q, 10 * rem % den);
    assert Pow(10, |s|) == 10 * Pow(10, |s| - 1);
  }

  // The dividend stays short enough for a one-word quotient.
  lemma DividendShort(b: seq<Word>, s: seq<Word>)
    requires |b| > 1 ==> b[|b| - 1] != 0
    requires s != [] && 0 < s[|s| - 1] < 0x1000_0000 && Val(b) < 10 * Val(s)
    ensures |b| <= |s|
  {
    var n := |s| - 1;
    ValTop(s);
    MulMonotone(Radix(n), s[n] as int + 1, 0x1000_0000);
    Distribute(Radix(n), s[n], 1);
    if b != [] {
      NormalLength(b, |s|);
    }
  }

  // v is num itself, or ten times the remainder after the digits s: what to divide next.
  ghost predicate Pending(num: nat, den: nat, s: seq<Byte>, v: nat) {
    if s == [] then v == num >= den else v % 10 == 0 && Divided(num, den, s, v / 10)
  }

  lemma PendingAtFirst(num: nat, den: nat, s: seq<Byte>)
    requires s == [] && num >= den
    ensures Pending(num, den, s, num)
  {
  }

  lemma DividedPending(num: nat, den: nat, s: seq<Byte>, rem: nat)
    requires Divided(num, den, s, rem)
    ensures Pending(num, den, s, 10 * rem) && 10 * rem < 10 * den
  {
  }

  // One digit: the quotient goes into the buffer, the remainder stays in b.
  method EmitDigit(b: Bigint, S: Bigint, buf: array<Byte>, i: nat, ghost num: nat) returns (dig: Byte)
    requires b.Valid() && S.Valid() && Apart(b, S) && i < buf.Length
    requires Aligned(S.Value()) && b.Value() < 10 * S.Value() && Pending(num, S.Value(), buf[..i], b.Value())
    modifies b, b.x, buf
    ensures b.Valid() && Divided(num, S.Value(), buf[..i + 1], b.Value()) && dig == buf[i]
    ensures b.Value() == 0 && old(b.Value()) > 0 ==> dig > 48
  {
    ghost var v, den := b.Value(), S.Value();
    AlignedTop(S.x[..S.wds]);
    DividendShort(b.x[..b.wds], S.x[..S.wds]);
    if i == 0 {
      DividedFirst(num, den);
    } else {
      DividedNext(num, den, buf[..i], v / 10);
    }
    var q := QuoRem(b, S);
    dig := 48 + q;
    buf[i] := dig;
    assert buf[..i + 1] == old(buf[..i]) + [dig];
  }

  // The test for a remainder of zero.
  lemma ZeroTest(b: Bigint)
    requires b.Valid()
    ensures b.x[0] == 0 && b.wds <= 1 <==> b.Value() == 0
  {
    if b.wds == 1 {
      OneWord(b.x[..1]);
    } else if b.wds > 1 {
      TopPositive(b.x[..b.wds]);
    }
  }

  // Digits until the remainder is zero or ilim of them are there.
  method Generate(b0: Bigint, S: Bigint, buf: array<Byte>, ilim: nat) returns (b: Bigint, n: nat)
    requires b0.Valid() && S.Valid() && Apart(b0, S) && 0 < ilim < buf.Length
    requires Aligned(S.Value()) && S.Value() <= b0.Value() < 10 * S.Value()
    modifies b0, b0.x, buf
    ensures Owned(b0, b) && b.Valid() && 1 <= n <= ilim
    ensures Divided(old(b0.Value()), S.Value(), buf[..n], b.Value())
    ensures b.Value() > 0 ==> n == ilim
    ensures b.Value() == 0 ==> buf[n - 1] > 48
  {
    hide Divided, Pending;
    ghost var num := b0.Value();
    b, n := b0, 0;
    PendingAtFirst(num, S.Value(), buf[..0]);
    while true
      invariant Owned(b0, b) && b.Valid() && Apart(b, S) && n < ilim
      invariant 0 < b.Value() < 10 * S.Value()
      invariant Pending(num, S.Value(), buf[..n], b.Value())
      decreases ilim - n
    {
      var dig := EmitDigit(b, S, buf, n, num);
      n := n + 1;
      ZeroTest(b);
      if b.x[0] == 0 && b.wds <= 1 {
        return;
      }
      if n >= ilim {
        return;
      }
      DividedPending(num, S.Value(), buf[..n], b.Value());
      b := MultAdd(b, 10, 0);
    }
  }

  // Adding one in the last place, in place: nines at the end go away, and if there is nothing
  // but nines the digits become a one in the next place.
  method RoundOff(buf: array<Byte>, n: nat) returns (len: nat, carry: nat)
    requires 0 < n <= buf.Length && IsDigits(buf[..n]) && buf[0] > 48
    modifies buf
    ensures 0 < len <= n && carry <= 1 && IsDigits(buf[..len]) && buf[0] > 48 && buf[len - 1] > 48
    ensures DecValue(buf[..len]) * Pow(10, n - len + carry) == old(DecValue(buf[..n])) + 1
  {
    ghost var d := buf[..n];
    var s := n - 1;
    while buf[s] == 57
      invariant s < n && buf[..n] == d && forall i :: s < i < n ==> buf[i] == 57
      decreases s
    {
      if s == 0 {
        AllNines(d);
        buf[0] := 49;
        assert buf[..1] == [49];
        return 1, 1;
      }
      s := s - 1;
    }
    NinesAfter(d, s);
    buf[s] := buf[s] + 1;
    assert buf[..s + 1] == d[..s] + [d[s] + 1];
    return s + 1, 0;
  }

  lemma AllNines(d: seq<Byte>)
    requires d != [] && forall i :: 0 <= i < |d| ==> d[i] == 57
    ensures DecValue([49]) * Pow(10, |d|) == DecValue(d) + 1
  {
    DecTrailingNines(d, 0);
    assert d[..0] == [] && [] + [49] == [49];
    DecSnoc([], 49);
  }

  lemma NinesAfter(d: seq<Byte>, s: nat)
    requires s < |d| && d[s] < 57 && forall i :: s < i < |d| ==> d[i] == 57
    ensures DecValue(d[..s] + [d[s] + 1]) * Pow(10, |d| - s - 1) == DecValue(d) + 1
  {
    hide DecValue, Pow;
    DecTrailingNines(d, s + 1);
    assert d[..s + 1] == d[..s] + [d[s]];
    DecSnoc(d[..s], d[s]);
    DecSnoc(d[..s], d[s] + 1);
    assert DecValue(d[..s] + [d[s] + 1]) == DecValue(d[..s + 1]) + 1;
  }

  method TrimZeros(buf: array<Byte>, n: nat) returns (len: nat)
    requires 0 < n <= buf.Length && IsDigits(buf[..n]) && buf[0] > 48
    ensures 0 < len <= n && buf[len - 1] > 48
    ensures DecValue(buf[..len]) * Pow(10, n - len) == DecValue(buf[..n])
  {
    var s := n - 1;
    while buf[s] == 48
      invariant s < n && forall i :: s < i < n ==> buf[i] == 48
      decreases s
    {
      s := s - 1;
    }
    len := s + 1;
    DecTrailingZeros(buf[..n], len);
    assert buf[..n][..len] == buf[..len];
  }

  lemma DecParity(s: seq<Byte>)
    requires s != []
    ensures DecValue(s) % 2 == s[|s| - 1] % 2
  {
  }

  // What the digits so far and the remainder say about rounding.
  lemma DividedRounds(num: nat, den: nat, s: seq<Byte>, rem: nat)
    requires Divided(num, den, s, rem)
    ensures DecValue(s) >= 0
    ensures RoundHalfEven(num * Pow(10, |s| - 1), den)
         == DecValue(s) + (if 2 * rem > den || (2 * rem == den && s[|s| - 1] % 2 == 1) then 1 else 0)
  {
    DecBounds(s);
    DecParity(s);
    DivModUnique(num * Pow(10, |s| - 1), den, DecValue(s), rem);
  }

  // An exact division needs no more digits.
  lemma DividedExactly(num: nat, den: nat, s: seq<Byte>, n: nat)
    requires Divided(num, den, s, 0) && |s| <= n
    ensures DecValue(s) * Pow(10, n - |s|) == RoundHalfEven(num * Pow(10, n - 1), den)
  {
    var p, q, v := Pow(10, |s| - 1), Pow(10, n - |s|), DecValue(s);
    DecBounds(s);
    PowAdd(10, |s| - 1, n - |s|);
    MulAssoc(num, p, q);
    MulAssoc(v, den, q);
    MulCommute(den, q);
    MulAssoc(v, q, den);
    MulMonotone(v, 0, q);
    DivModUnique(num * Pow(10, n - 1), den, v * q, 0);
  }

  // The digits of b / S rounded to ilim places, trailing zeros dropped; a carry out of the first
  // place is reported.
  method Digits(b0: Bigint, S: Bigint, buf: array<Byte>, ilim: nat) returns (len: nat, carry: nat)
    requires b0.Valid() && S.Valid() && Apart(b0, S) && 0 < ilim < buf.Length
    requires Aligned(S.Value()) && S.Value() <= b0.Value() < 10 * S.Value()
    modifies b0, b0.x, buf
    ensures 0 < len <= ilim && carry <= 1
    ensures IsDigits(buf[..len]) && buf[0] > 48 && buf[len - 1] > 48
    ensures DecValue(buf[..len]) * Pow(10, ilim - len + carry)
         == RoundHalfEven(old(b0.Value()) * Pow(10, ilim - 1), S.Value())
  {
    ghost var num, den := b0.Value(), S.Value();
    var b, n := Generate(b0, S, buf, ilim);
    ZeroTest(b);
    if b.x[0] == 0 && b.wds <= 1 {
      DividedExactly(num, den, buf[..n], ilim);
      return n, 0;
    }
    DividedRounds(num, den, buf[..n], b.Value());
    len, carry := RoundLast(b, S, buf, n);
  }

  // The digit to come next decides: half of S or more, and exactly half goes to the even digit.
  method RoundLast(b0: Bigint, S: Bigint, buf: array<Byte>, n: nat) returns (len: nat, carry: nat)
    requires b0.Valid() && S.Valid() && b0.Value() > 0 && S.Value() > 0
    requires 0 < n <= buf.Length && IsDigits(buf[..n]) && buf[0] > 48
    modifies buf
    ensures 0 < len <= n && carry <= 1
    ensures IsDigits(buf[..len]) && buf[0] > 48 && buf[len - 1] > 48
    ensures DecValue(buf[..len]) * Pow(10, n - len + carry)
         == old(DecValue(buf[..n])) + (if 2 * b0.Value() > S.Value()
              || (2 * b0.Value() == S.Value() && old(buf[n - 1]) % 2 == 1) then 1 else 0)
  {
    assert Pow(2, 1) == 2;
    var dig := buf[n - 1];
    var b := LShift(b0, 1);
    var j := Cmp(b, S);
    if j > 0 || (j == 0 && dig % 2 == 1) {
      len, carry := RoundOff(buf, n);
    } else {
      carry := 0;
      len := TrimZeros(buf, n);
      assert forall i :: 0 <= i < len ==> buf[i] == buf[..n][i];
    }
  }
}
