// The varint readers and writers of lua_pb.h: a bounded loop, two unrolled readers that are
// used when they cannot run past the end, and two unrolled writers.
module Varint {
  import opened Arith
  import opened Reading

  // ---- what a varint is ----

  // The varint at the front of s, of k bytes at most, and its length.
  function Read(s: seq<Byte>, k: nat): (r: Option<(nat, nat)>)
    ensures r.Some? ==> 0 < r.value.1 <= |s| && r.value.1 <= k
    decreases k
  {
    if k == 0 || s == [] then None
    else if s[0] < 128 then Some((s[0], 1))
    else match Read(s[1..], k - 1)
      case None => None
      case Some((v, n)) => Some((s[0] - 128 + 128 * v, n + 1))
  }

  // The shortest encoding.
  function Write(n: nat): (s: seq<Byte>)
    ensures s != []
  {
    if n < 128 then [n] else [n % 128 + 128] + Write(n / 128)
  }

  lemma {:induction false} ReadWrite(n: nat, k: nat, rest: seq<Byte>)
    requires k > 0 && n < Pow(128, k)
    ensures Read(Write(n) + rest, k) == Some((n, |Write(n)|))
    decreases k
  {
    if n >= 128 {
      assert (Write(n) + rest)[1..] == Write(n / 128) + rest;
      ReadWrite(n / 128, k - 1, rest);
    }
  }

  // What either writer puts out, the readers give back.
  lemma WrittenIsRead(n: nat, rest: seq<Byte>)
    requires n < U64_MOD
    ensures Read(Write(n) + rest, 10) == Some((n, |Write(n)|))
  {
    hide Read, Write, Pow;
    SmallPowers128();
    ReadWrite(n, 10, rest);
  }

  // ---- the readers ----

  class Slice {
    const data: seq<Byte>
    var p: nat

    ghost predicate Valid()
      reads this
    {
      p <= |data|
    }

    ghost function Rest(): seq<Byte>
      reads this
      requires Valid()
    {
      data[p..]
    }

    constructor (data: seq<Byte>)
      ensures Valid() && this.data == data && p == 0
    {
      this.data, p := data, 0;
    }

    // n is the length of the varint and v its low 32 bits; n is 0 and the cursor stays where
    // there is none.
    method ReadVarint32() returns (n: nat, v: nat)
      requires Valid()
      modifies this
      ensures Valid() && Answers(old(Rest()), n, v, U32_MOD) && p == old(p) + n
    {
      n, v := Dispatch32(data[p..]);
      p := p + n;
    }

    method ReadVarint64() returns (n: nat, v: nat)
      requires Valid()
      modifies this
      ensures Valid() && Answers(old(Rest()), n, v, U64_MOD) && p == old(p) + n
    {
      n, v := Dispatch64(data[p..]);
      p := p + n;
    }
  }

  // A reader's result: the varint modulo m and its length, or 0 where there is none.
  ghost predicate Answers(s: seq<Byte>, n: nat, v: nat, m: nat)
    requires m > 0
    ensures Answers(s, n, v, m) ==> n <= |s|
  {
    match Read(s, 10)
    case None => n == 0
    case Some((x, len)) => n == len && v == x % m
  }

  method Dispatch32(s: seq<Byte>) returns (n: nat, v: nat)
    ensures Answers(s, n, v, U32_MOD)
  {
    if s == [] { return 0, 0; }
    if s[0] < 128 { return 1, s[0]; }
    if |s| >= 10 || s[|s| - 1] < 128 {
      n, v := Fallback32(s);
    } else {
      n, v := Slow(s);
      LowWord(s, n, v);
      v := U32(v);
    }
  }

  method Dispatch64(s: seq<Byte>) returns (n: nat, v: nat)
    ensures Answers(s, n, v, U64_MOD)
  {
    if s == [] { return 0, 0; }
    if s[0] < 128 { return 1, s[0]; }
    if |s| >= 10 || s[|s| - 1] < 128 {
      n, v := Fallback64(s);
    } else {
      n, v := Slow(s);
    }
  }

  lemma LowWord(s: seq<Byte>, n: nat, v: nat)
    requires Answers(s, n, v, U64_MOD)
    ensures Answers(s, n, U32(v), U32_MOD)
  {
    hide Read;
    var r := Read(s, 10);
    if r.Some? {
      assert r.value.0 == U64_MOD * (r.value.0 / U64_MOD) + r.value.0 % U64_MOD;
    }
  }

  // ---- reading on from the middle ----

  // The rest of the varint from byte i of k, where the bytes before it stand for w and the next
  // one has weight p.
  function Scan(s: seq<Byte>, i: nat, k: nat, w: nat, p: nat): (r: Option<(nat, nat)>)
    decreases k - i
  {
    if i >= k || i >= |s| then None
    else if s[i] < 128 then Some((Plus(w, p, s[i]), i + 1))
    else Scan(s, i + 1, k, Plus(w, p, s[i] - 128), 128 * p)
  }

  // w + p * c
  function Plus(w: nat, p: nat, c: nat): (r: nat)
    ensures r == w + p * c
  {
    MulMonotone(p, 0, c);
    w + p * c
  }

  lemma {:induction false} ScanIsRead(s: seq<Byte>, i: nat, k: nat, w: nat, p: nat)
    requires i <= |s| && i <= k
    ensures Scan(s, i, k, w, p) == match Read(s[i..], k - i)
                                   case None => None
                                   case Some((x, n)) => Some((Plus(w, p, x), n + i))
    decreases k - i
  {
    if i < k && i < |s| && s[i] >= 128 {
      assert s[i..][1..] == s[i + 1..];
      ScanIsRead(s, i + 1, k, Plus(w, p, s[i] - 128), 128 * p);
      var r := Read(s[i + 1..], k - i - 1);
      if r.Some? {
        ScanArith(w, p, s[i] - 128, r.value.0);
      }
    }
  }

  lemma ScanArith(w: int, p: int, c: int, x: int)
    ensures w + p * (c + 128 * x) == w + p * c + 128 * p * x
  {
    Distribute(p, c, 128 * x);
    MulAssoc(p, 128, x);
    MulCommute(p, 128);
  }

  // The varint of s is what Scan finds from byte i on.
  ghost predicate At(s: seq<Byte>, i: nat, w: nat, p: nat) {
    Read(s, 10) == Scan(s, i, 10, w, p)
  }

  lemma AtStart(s: seq<Byte>)
    ensures At(s, 0, 0, 1)
  {
    assert s[0..] == s;
    ScanIsRead(s, 0, 10, 0, 1);
  }

  // The next byte ends the varint or adds seven bits to it.
  lemma Step(s: seq<Byte>, i: nat, w: nat, p: nat)
    requires At(s, i, w, p) && i < |s| && i < 10
    ensures s[i] < 128 ==> Read(s, 10) == Some((w + p * s[i], i + 1))
    ensures s[i] >= 128 ==> At(s, i + 1, Plus(w, p, s[i] - 128), 128 * p)
  {
  }

  lemma Ended(s: seq<Byte>, i: nat, w: nat, p: nat, v: nat, m: nat)
    requires At(s, i, w, p) && (i >= |s| || i >= 10) && m > 0
    ensures Answers(s, 0, v, m)
  {
  }

  lemma Ended32(s: seq<Byte>, w: nat, v: nat)
    requires At(s, 10, w, 128 * 0x8000_0000_0000_0000)
    ensures Answers(s, 0, v, U32_MOD)
  {
    hide At, Answers;
    Ended(s, 10, w, 128 * 0x8000_0000_0000_0000, v, U32_MOD);
  }

  lemma Found(s: seq<Byte>, n: nat, w: nat, v: nat, m: nat)
    requires Read(s, 10) == Some((w, n)) && m > 0 && v == w % m
    ensures Answers(s, n, v, m)
  {
  }

  // ---- the bounded loop ----

  // Ten bytes at most, and never past the end.
  method Slow(s: seq<Byte>) returns (n: nat, v: nat)
    ensures Answers(s, n, v, U64_MOD)
  {
    v := 0;
    var i: nat := 0;
    ghost var w: nat := 0;
    AtStart(s);
    while i < |s| && i < 10
      invariant i <= 10 && Collected(s, i, w, v)
    {
      var b: nat := s[i];
      CollectNext(s, i, w, v);
      v := OrBits(v, b % 128, i);
      w := Plus(w, Pow(128, i), b % 128);
      i := i + 1;
      if b < 128 { return i, v; }
    }
    Ended(s, i, w, Pow(128, i), v, U64_MOD);
    return 0, v;
  }

  // i bytes read, which stand for w.
  ghost predicate Collected(s: seq<Byte>, i: nat, w: nat, v: nat) {
    w < Pow(128, i) && v == w % U64_MOD && At(s, i, w, Pow(128, i))
  }

  lemma CollectNext(s: seq<Byte>, i: nat, w: nat, v: nat)
    requires Collected(s, i, w, v) && i < |s| && i < 10
    ensures var v', w' := OrBits(v, s[i] % 128, i), Plus(w, Pow(128, i), s[i] % 128);
            if s[i] < 128 then Answers(s, i + 1, v', U64_MOD) else Collected(s, i + 1, w', v')
  {
    hide Pow, Read, At, OrBits, Answers;
    var b: nat := s[i];
    var c: nat := if b < 128 then b else b - 128;
    SevenBits(s[i]);
    PowNext(i);
    Step(s, i, w, Pow(128, i));
    OrSevenBits(w, c, i);
    BelowMod(w, v);
    if b < 128 {
      Found(s, i + 1, Plus(w, Pow(128, i), c), OrBits(v, c, i), U64_MOD);
    }
  }

  lemma SevenBits(b: Byte)
    ensures b % 128 == if b < 128 then b else b - 128
  {
  }

  lemma PowNext(i: nat)
    ensures Pow(128, i + 1) == 128 * Pow(128, i)
  {
  }

  lemma BelowMod(w: nat, v: nat)
    requires w < U64_MOD && v == w % U64_MOD
    ensures v == w
  {
  }

  // v |= c << 7 * i, in 64 bits.
  function OrBits(v: nat, c: nat, i: nat): nat {
    BitOr(c * Pow(2, 7 * i) % U64_MOD, v)
  }

  // ---- the unrolled readers ----

  // There is a byte, it is not the last of the varint, and the varint ends within the slice or ten
  // bytes are there.
  ghost predicate FastCase(s: seq<Byte>) {
    s != [] && s[0] >= 128 && (|s| >= 10 || s[|s| - 1] < 128)
  }

  // 32-bit unsigned arithmetic.
  function U32(x: int): nat {
    x % 0x1_0000_0000
  }

  // Adds each byte whole and takes its continuation bit away afterwards.  Every index is within s.
  method Fallback32(s: seq<Byte>) returns (n: nat, v: nat)
    requires FastCase(s)
    ensures Answers(s, n, v, U32_MOD)
  {
    hide *;
    InSlice(s);
    AtOne(s);
    var b: nat := s[0];
    v := U32(b - 0x80);
    ghost var w: nat := b - 0x80;
    b := s[1];
    v := U32(v + U32(b * 0x80));
    Byte32(s, 1, w, 0x80);
    if b < 128 { return 2, v; }
    v := U32(v - 0x80 * 0x80);
    w := w + 0x80 * (b - 0x80);
    b := s[2];
    v := U32(v + U32(b * 0x4000));
    Byte32(s, 2, w, 0x4000);
    if b < 128 { return 3, v; }
    v := U32(v - 0x80 * 0x4000);
    w := w + 0x4000 * (b - 0x80);
    b := s[3];
    v := U32(v + U32(b * 0x20_0000));
    Byte32(s, 3, w, 0x20_0000);
    if b < 128 { return 4, v; }
    v := U32(v - 0x80 * 0x20_0000);
    w := w + 0x20_0000 * (b - 0x80);
    b := s[4];
    v := U32(v + U32(b * 0x1000_0000));
    Byte32(s, 4, w, 0x1000_0000);
    if b < 128 { return 5, v; }
    v := U32(v - 0x80 * 0x1000_0000);
    w := w + 0x1000_0000 * (b - 0x80);
    n := HighBytes(s, w, v);
  }

  // Bytes six to ten do not reach the low 32 bits.
  method HighBytes(s: seq<Byte>, ghost w: nat, ghost v: nat) returns (n: nat)
    requires FastCase(s) && At(s, 5, w, 0x8_0000_0000) && |s| > 5
    requires v == U32(w)
    ensures Answers(s, n, v, U32_MOD)
  {
    hide *;
    InSlice(s);
    High32(s, 5, w, v, 0x8);
    if s[5] < 128 { return 6; }
    ghost var w6 := w + 0x8_0000_0000 * (s[5] as int - 0x80);
    High32(s, 6, w6, v, 0x400);
    if s[6] < 128 { return 7; }
    ghost var w7 := w6 + 0x400_0000_0000 * (s[6] as int - 0x80);
    High32(s, 7, w7, v, 0x2_0000);
    if s[7] < 128 { return 8; }
    ghost var w8 := w7 + 0x2_0000_0000_0000 * (s[7] as int - 0x80);
    High32(s, 8, w8, v, 0x100_0000);
    if s[8] < 128 { return 9; }
    ghost var w9 := w8 + 0x100_0000_0000_0000 * (s[8] as int - 0x80);
    High32(s, 9, w9, v, 0x8000_0000);
    if s[9] < 128 { return 10; }
    Ended32(s, w9 + 0x8000_0000_0000_0000 * (s[9] as int - 0x80), v);
    return 0;
  }

  // A varint that has started in the fast case goes on within the slice.
  lemma InSlice(s: seq<Byte>)
    requires FastCase(s)
    ensures s != [] && s[0] >= 128
    ensures forall i :: 0 <= i < 9 && i < |s| && s[i] >= 128 ==> i + 1 < |s|
  {
  }

  lemma AtOne(s: seq<Byte>)
    requires s != [] && s[0] >= 128
    ensures At(s, 1, s[0] - 128, 128)
  {
    hide At;
    AtStart(s);
    Step(s, 0, 0, 1);
  }

  lemma U32Add(a: nat, c: nat)
    ensures U32(U32(a) + U32(c)) == U32(a + c)
  {
    assert a == 0x1_0000_0000 * (a / 0x1_0000_0000) + U32(a);
    assert c == 0x1_0000_0000 * (c / 0x1_0000_0000) + U32(c);
  }

  lemma U32Sub(a: nat, c: nat)
    ensures U32(U32(a) - c) == U32(a - c)
  {
    assert a == 0x1_0000_0000 * (a / 0x1_0000_0000) + U32(a);
  }

  lemma U32Multiple(a: int, k: int)
    ensures U32(a + 0x1_0000_0000 * k) == U32(a)
  {
  }

  // Adding a byte whole; taking its continuation bit away again.
  lemma Add32(w: nat, b: nat, scale: nat)
    requires b < 256
    ensures U32(U32(w) + U32(b * scale)) == U32(w + scale * b)
    ensures U32(U32(w + scale * b) - 0x80 * scale) == U32(w + scale * (b - 0x80))
  {
    hide U32;
    MulCommute(b, scale);
    MulMonotone(scale, 0, b);
    U32Add(w, scale * b);
    U32Sub(w + scale * b, 0x80 * scale);
    Distribute(scale, b, -128);
  }

  // Byte i of the unrolled 32-bit reader.
  lemma Byte32(s: seq<Byte>, i: nat, w: nat, scale: nat)
    requires At(s, i, w, scale) && i < |s| && i < 10
    ensures var b: nat := s[i];
            var v := U32(U32(w) + U32(b * scale));
            if b < 128 then Answers(s, i + 1, v, U32_MOD)
            else && At(s, i + 1, Plus(w, scale, b - 0x80), 128 * scale)
                 && U32(v - 0x80 * scale) == U32(Plus(w, scale, b - 0x80))
  {
    Step(s, i, w, scale);
    hide At, Read;
    var b: nat := s[i];
    Add32(w, b, scale);
    if b < 128 {
      Found(s, i + 1, w + scale * b, U32(w + scale * b), U32_MOD);
    }
  }

  // Byte i where its weight is a multiple of 2^32.
  lemma High32(s: seq<Byte>, i: nat, w: nat, v: nat, t: nat)
    requires At(s, i, w, 0x1_0000_0000 * t) && i < |s| && i < 10 && v == U32(w)
    ensures var b: nat := s[i];
            if b < 128 then Answers(s, i + 1, v, U32_MOD)
            else && At(s, i + 1, Plus(w, 0x1_0000_0000 * t, b - 0x80), 128 * (0x1_0000_0000 * t))
                 && v == U32(Plus(w, 0x1_0000_0000 * t, b - 0x80))
  {
    Step(s, i, w, 0x1_0000_0000 * t);
    var b: nat := s[i];
    hide At, Read, U32;
    var c := if b < 128 then b else b - 0x80;
    MulAssoc(0x1_0000_0000, t, c);
    U32Multiple(w, t * c);
    if b < 128 {
      FoundHigh(s, i + 1, w + 0x1_0000_0000 * t * c, v);
    }
  }

  lemma FoundHigh(s: seq<Byte>, n: nat, w: nat, v: nat)
    requires Read(s, 10) == Some((w, n)) && v == U32(w)
    ensures Answers(s, n, v, U32_MOD)
  {
  }

  // Three parts of 28 bits, each in 32-bit arithmetic, put together at the end.
  method Fallback64(s: seq<Byte>) returns (n: nat, v: nat)
    requires FastCase(s)
    ensures Answers(s, n, v, U64_MOD)
  {
    hide *;
    InSlice(s);
    PartOne(s);
    var b: nat := s[0];
    var n1: nat := b - 0x80;
    b := s[1];
    Byte64(s, 1, 0, 1, n1, 0x80);
    n1 := U32(n1 + U32(b * 0x80));
    if b < 128 { v := Join(n1, 0, 0); Joined1(s, 2, n1, 0x4000); return 2, v; }
    n1 := U32(n1 - 0x80 * 0x80);
    b := s[2];
    Byte64(s, 2, 0, 1, n1, 0x4000);
    n1 := U32(n1 + U32(b * 0x4000));
    if b < 128 { v := Join(n1, 0, 0); Joined1(s, 3, n1, 0x20_0000); return 3, v; }
    n1 := U32(n1 - 0x80 * 0x4000);
    b := s[3];
    Byte64(s, 3, 0, 1, n1, 0x20_0000);
    n1 := U32(n1 + U32(b * 0x20_0000));
    if b < 128 { v := Join(n1, 0, 0); Joined1(s, 4, n1, 0x1000_0000); return 4, v; }
    n1 := U32(n1 - 0x80 * 0x20_0000);
    n, v := MiddleBytes(s, n1);
  }

  method MiddleBytes(s: seq<Byte>, n1: nat) returns (n: nat, v: nat)
    requires FastCase(s) && Partly(s, 4, 0, 1, n1, 0x1000_0000)
    requires |s| > 4
    ensures Answers(s, n, v, U64_MOD)
  {
    hide *;
    InSlice(s);
    var b: nat := s[4];
    var n2: nat := U32(U32(b));
    PartTwo(s, n1);
    Byte64(s, 4, n1, 0x1000_0000, 0, 1);
    if b < 128 { v := Join(n1, n2, 0); Joined2(s, 5, n1, n2, 0x80); return 5, v; }
    n2 := U32(n2 - 0x80);
    b := s[5];
    Byte64(s, 5, n1, 0x1000_0000, n2, 0x80);
    n2 := U32(n2 + U32(b * 0x80));
    if b < 128 { v := Join(n1, n2, 0); Joined2(s, 6, n1, n2, 0x4000); return 6, v; }
    n2 := U32(n2 - 0x80 * 0x80);
    b := s[6];
    Byte64(s, 6, n1, 0x1000_0000, n2, 0x4000);
    n2 := U32(n2 + U32(b * 0x4000));
    if b < 128 { v := Join(n1, n2, 0); Joined2(s, 7, n1, n2, 0x20_0000); return 7, v; }
    n2 := U32(n2 - 0x80 * 0x4000);
    b := s[7];
    Byte64(s, 7, n1, 0x1000_0000, n2, 0x20_0000);
    n2 := U32(n2 + U32(b * 0x20_0000));
    if b < 128 { v := Join(n1, n2, 0); Joined2(s, 8, n1, n2, 0x1000_0000); return 8, v; }
    n2 := U32(n2 - 0x80 * 0x20_0000);
    n, v := LastBytes(s, n1, n2);
  }

  method LastBytes(s: seq<Byte>, n1: nat, n2: nat) returns (n: nat, v: nat)
    requires FastCase(s) && n1 < 0x1000_0000 && Partly(s, 8, n1, 0x1000_0000, n2, 0x1000_0000)
    requires |s| > 8
    ensures Answers(s, n, v, U64_MOD)
  {
    hide *;
    InSlice(s);
    ghost var low := n1 + 0x1000_0000 * n2;
    var b: nat := s[8];
    var n3: nat := U32(U32(b));
    PartThree(s, n1, n2);
    Byte64(s, 8, low, 0x100_0000_0000_0000, 0, 1);
    if b < 128 { v := Join(n1, n2, n3); Joined3(s, 9, n1, n2, n3, 0x80); return 9, v; }
    n3 := U32(n3 - 0x80);
    b := s[9];
    Byte64(s, 9, low, 0x100_0000_0000_0000, n3, 0x80);
    n3 := U32(n3 + U32(b * 0x80));
    if b < 128 { v := Join(n1, n2, n3); Joined3(s, 10, n1, n2, n3, 0x4000); return 10, v; }
    n, v := 0, 0;
    Ended64(s, low, U32(n3 - 0x80 * 0x80), v);
  }

  function Join(n1: nat, n2: nat, n3: nat): nat {
    BitOr(n3 * 0x100_0000_0000_0000 % U64_MOD, BitOr(n2 * 0x1000_0000, n1))
  }

  // Before byte i, n is read of the part that starts at weight base.
  ghost predicate Partly(s: seq<Byte>, i: nat, low: nat, base: nat, n: nat, scale: nat) {
    At(s, i, Plus(low, base, n), base * scale) && n < scale
  }

  // The varint ends before byte i and n is that whole part.
  ghost predicate Wholly(s: seq<Byte>, i: nat, low: nat, base: nat, n: nat, bound: nat) {
    Read(s, 10) == Some((Plus(low, base, n), i)) && n < bound
  }

  // Byte i of the unrolled 64-bit reader.
  lemma Byte64(s: seq<Byte>, i: nat, low: nat, base: nat, n: nat, scale: nat)
    requires Partly(s, i, low, base, n, scale) && i < |s| && i < 10 && scale <= 0x20_0000
    ensures var b: nat := s[i];
            var n' := U32(n + U32(b * scale));
            if b < 128 then Wholly(s, i + 1, low, base, n', 128 * scale)
            else Partly(s, i + 1, low, base, U32(n' - 0x80 * scale), 128 * scale)
  {
    var b: nat := s[i];
    hide At, Read, U32, Plus;
    Step(s, i, Plus(low, base, n), base * scale);
    PartFits(n, b, scale);
    PartArith(low, base, n, scale, if b < 128 then b else b - 0x80);
    MulSwap(128, base, scale);
  }

  lemma MulSwap(a: nat, b: nat, c: nat)
    ensures a * (b * c) == b * (a * c)
  {
    MulAssoc(a, b, c);
    MulAssoc(b, a, c);
    MulCommute(a, b);
  }

  lemma PartFits(n: nat, b: nat, scale: nat)
    requires n < scale <= 0x20_0000 && b < 256
    ensures var n' := U32(n + U32(b * scale));
            if b < 128 then n' == n + scale * b < 128 * scale
            else U32(n' - 0x80 * scale) == n + scale * (b - 0x80) < 128 * scale
  {
    hide U32;
    U32Below(n);
    Add32(n, b, scale);
    PartBelow(n, if b < 128 then b else b - 0x80, scale);
  }

  lemma U32Below(n: nat)
    requires n < 0x1_0000_0000
    ensures U32(n) == n
  {
  }

  lemma PartBelow(n: nat, c: nat, scale: nat)
    requires n < scale <= 0x20_0000 && c < 128
    ensures U32(n + scale * c) == n + scale * c < 128 * scale
  {
    MulMonotone(scale, c, 127);
    MulMonotone(scale, 0, c);
  }

  lemma PartArith(low: int, base: int, n: int, scale: int, c: int)
    ensures low + base * n + base * scale * c == low + base * (n + scale * c)
  {
    Distribute(base, n, scale * c);
    MulAssoc(base, scale, c);
  }

  lemma Joined(s: seq<Byte>, n: nat, n1: nat, n2: nat, n3: nat)
    requires Read(s, 10) == Some((n1 + 0x1000_0000 * n2 + 0x100_0000_0000_0000 * n3, n))
    requires n1 < 0x1000_0000 && n2 < 0x1000_0000
    ensures Answers(s, n, Join(n1, n2, n3), U64_MOD)
  {
    hide Read, BitOr, Pow;
    assert Pow(2, 28) == 0x1000_0000 && Pow(2, 56) == 0x100_0000_0000_0000 by { PowersOfTwo(); }
    BitOrDisjoint(n2, 28, n1);
    BitOrDisjoint(n3 % 256, 56, n2 * 0x1000_0000 + n1);
    TopByte(n3, n2 * 0x1000_0000 + n1);
  }

  lemma Joined1(s: seq<Byte>, n: nat, n1: nat, bound: nat)
    requires bound <= 0x1000_0000 && Wholly(s, n, 0, 1, n1, bound)
    ensures Answers(s, n, Join(n1, 0, 0), U64_MOD)
  {
    hide Read, Join, Answers;
    Joined(s, n, n1, 0, 0);
  }

  lemma Joined2(s: seq<Byte>, n: nat, n1: nat, n2: nat, bound: nat)
    requires n1 < 0x1000_0000
    requires bound <= 0x1000_0000 && Wholly(s, n, n1, 0x1000_0000, n2, bound)
    ensures Answers(s, n, Join(n1, n2, 0), U64_MOD)
  {
    hide Read, Join, Answers;
    Joined(s, n, n1, n2, 0);
  }

  lemma Joined3(s: seq<Byte>, n: nat, n1: nat, n2: nat, n3: nat, bound: nat)
    requires n1 < 0x1000_0000 && n2 < 0x1000_0000
    requires Wholly(s, n, n1 + 0x1000_0000 * n2, 0x100_0000_0000_0000, n3, bound)
    ensures Answers(s, n, Join(n1, n2, n3), U64_MOD)
  {
    hide Read, Join, Answers;
    Joined(s, n, n1, n2, n3);
  }

  lemma PartOne(s: seq<Byte>)
    requires FastCase(s)
    ensures Partly(s, 1, 0, 1, s[0] - 0x80, 0x80)
  {
    AtOne(s);
    hide At;
  }

  lemma PartTwo(s: seq<Byte>, n1: nat)
    requires Partly(s, 4, 0, 1, n1, 0x1000_0000)
    ensures n1 < 0x1000_0000 && Partly(s, 4, n1, 0x1000_0000, 0, 1)
  {
    hide At;
  }

  lemma PartThree(s: seq<Byte>, n1: nat, n2: nat)
    requires Partly(s, 8, n1, 0x1000_0000, n2, 0x1000_0000)
    ensures n2 < 0x1000_0000 && Partly(s, 8, n1 + 0x1000_0000 * n2, 0x100_0000_0000_0000, 0, 1)
  {
    hide At;
  }

  lemma Ended64(s: seq<Byte>, low: nat, n: nat, v: nat)
    requires Partly(s, 10, low, 0x100_0000_0000_0000, n, 0x4000)
    ensures Answers(s, 0, v, U64_MOD)
  {
    hide Read;
    Ended(s, 10, Plus(low, 0x100_0000_0000_0000, n), 0x40_0000_0000_0000_0000, v, U64_MOD);
  }

  lemma PowersOfTwo()
    ensures Pow(2, 28) == 0x1000_0000 && Pow(2, 56) == 0x100_0000_0000_0000 && Pow(2, 63) == 0x8000_0000_0000_0000
  {
    assert Pow(2, 14) == 0x4000;
    PowAdd(2, 14, 14);
    PowAdd(2, 28, 28);
    assert Pow(2, 7) == 0x80;
    PowAdd(2, 56, 7);
  }

  lemma TopByte(c: nat, w: nat)
    requires w < 0x100_0000_0000_0000
    ensures c * 0x100_0000_0000_0000 % U64_MOD == c % 256 * 0x100_0000_0000_0000
    ensures (w + 0x100_0000_0000_0000 * c) % U64_MOD == c % 256 * 0x100_0000_0000_0000 + w
  {
    assert c == 256 * (c / 256) + c % 256;
  }

  // ---- the writers ----

  // value is encoded by s and what n is still to be.
  ghost predicate Emitted(value: nat, s: seq<Byte>, n: nat) {
    Write(value) == s + Write(n)
  }

  lemma EmitStart(value: nat)
    ensures Emitted(value, [], value)
  {
  }

  // Seven bits go out: the last ones, or with the continuation bit.
  lemma Emit(value: nat, s: seq<Byte>, n: nat)
    requires Emitted(value, s, n)
    ensures if n / 0x80 == 0 then Write(value) == s + [n % 0x80]
            else Emitted(value, s + [n % 0x80 + 0x80], n / 0x80)
  {
    if n / 0x80 != 0 {
      assert s + Write(n) == s + [n % 0x80 + 0x80] + Write(n / 0x80);
    }
  }

  lemma EmitLast(value: nat, s: seq<Byte>, n: nat)
    requires Emitted(value, s, n) && n < 0x80
    ensures Write(value) == s + [n] && n % 0x80 == n
  {
  }

  // At most 5 bytes.
  method Write32(value: nat) returns (s: seq<Byte>)
    requires value < 0x1_0000_0000
    ensures s == Write(value) && |s| <= 5
  {
    hide *;
    var n: nat, p: nat := value, 0;
    s := [];
    EmitStart(value);
    Emit(value, s, n);
    p, n := n % 0x80, n / 0x80;
    if n == 0 { s := s + [p]; return; }
    s := s + [p + 0x80];
    Emit(value, s, n);
    p, n := n % 0x80, n / 0x80;
    if n == 0 { s := s + [p]; return; }
    s := s + [p + 0x80];
    Emit(value, s, n);
    p, n := n % 0x80, n / 0x80;
    if n == 0 { s := s + [p]; return; }
    s := s + [p + 0x80];
    Emit(value, s, n);
    p, n := n % 0x80, n / 0x80;
    if n == 0 { s := s + [p]; return; }
    s := s + [p + 0x80];
    EmitLast(value, s, n);
    p := n;
    s := s + [p];
  }

  // At most 10 bytes.
  method Write64(value: nat) returns (s: seq<Byte>)
    requires value < 0x1_0000_0000_0000_0000
    ensures s == Write(value) && |s| <= 10
  {
    hide *;
    var n: nat, p: nat := value, 0;
    s := [];
    EmitStart(value);
    Emit(value, s, n);
    p, n := n % 0x80, n / 0x80;
    if n == 0 { s := s + [p]; return; }
    s := s + [p + 0x80];
    Emit(value, s, n);
    p, n := n % 0x80, n / 0x80;
    if n == 0 { s := s + [p]; return; }
    s := s + [p + 0x80];
    Emit(value, s, n);
    p, n := n % 0x80, n / 0x80;
    if n == 0 { s := s + [p]; return; }
    s := s + [p + 0x80];
    Emit(value, s, n);
    p, n := n % 0x80, n / 0x80;
    if n == 0 { s := s + [p]; return; }
    s := s + [p + 0x80];
    Emit(value, s, n);
    p, n := n % 0x80, n / 0x80;
    if n == 0 { s := s + [p]; return; }
    s := s + [p + 0x80];
    Emit(value, s, n);
    p, n := n % 0x80, n / 0x80;
    if n == 0 { s := s + [p]; return; }
    s := s + [p + 0x80];
    Emit(value, s, n);
    p, n := n % 0x80, n / 0x80;
    if n == 0 { s := s + [p]; return; }
    s := s + [p + 0x80];
    Emit(value, s, n);
    p, n := n % 0x80, n / 0x80;
    if n == 0 { s := s + [p]; return; }
    s := s + [p + 0x80];
    Emit(value, s, n);
    p, n := n % 0x80, n / 0x80;
    if n == 0 { s := s + [p]; return; }
    s := s + [p + 0x80];
    EmitLast(value, s, n);
    p := n % 0x80;
    s := s + [p];
  }

  lemma SmallPowers128()
    ensures Pow(128, 0) == 1 && Pow(128, 9) == 0x8000_0000_0000_0000 && Pow(128, 10) == 0x40_0000_0000_0000_0000
  {
    assert Pow(128, 1) == 0x80 && Pow(128, 2) == 0x4000;
    assert Pow(128, 3) == 0x20_0000 && Pow(128, 4) == 0x1000_0000;
    assert Pow(128, 5) == 0x8_0000_0000 && Pow(128, 6) == 0x400_0000_0000;
    assert Pow(128, 7) == 0x2_0000_0000_0000 && Pow(128, 8) == 0x100_0000_0000_0000;
  }

  lemma {:induction false} SevenBitPowers(n: nat)
    ensures Pow(128, n) == Pow(2, 7 * n)
  {
    assert Pow(2, 7) == 128;
    if n > 0 {
      SevenBitPowers(n - 1);
      PowAdd(2, 7, 7 * (n - 1));
    }
  }

  // Or-ing in seven more bits, modulo 2^64.
  lemma OrSevenBits(w: nat, c: nat, i: nat)
    requires i < 10 && w < Pow(128, i) && c < 128
    ensures w < U64_MOD
    ensures OrBits(w, c, i) == Plus(w, Pow(128, i), c) % U64_MOD
    ensures Plus(w, Pow(128, i), c) < Pow(128, i + 1)
  {
    SmallPowers128();
    assert Pow(2, 7) == 128 && Pow(128, i + 1) == 128 * Pow(128, i);
    SevenBitPowers(i);
    PowMonotone(128, i, 9);
    SevenBitsFit(w, c, Pow(128, i));
    if i < 9 {
      PowMonotone(128, i + 1, 9);
      OrBelow(w, c, i, Pow(128, i));
    } else {
      OrTop(w, c);
    }
  }

  lemma OrBelow(w: nat, c: nat, i: nat, p: nat)
    requires p == Pow(2, 7 * i) && w < p && c * p == p * c && w + p * c < U64_MOD
    ensures OrBits(w, c, i) == (w + p * c) % U64_MOD
  {
    hide Pow, BitOr;
    BitOrDisjoint(c, 7 * i, w);
  }

  lemma OrTop(w: nat, c: nat)
    requires Pow(2, 63) == 0x8000_0000_0000_0000 && w < 0x8000_0000_0000_0000
    ensures OrBits(w, c, 9) == (w + 0x8000_0000_0000_0000 * c) % U64_MOD
  {
    hide Pow, BitOr;
    BitOrDisjoint(c % 2, 63, w);
    TopBit(c, w);
  }

  lemma SevenBitsFit(w: nat, c: nat, p: nat)
    requires w < p && c < 128
    ensures c * p == p * c >= 0 && w + p * c < 128 * p
  {
    MulMonotone(p, c + 1, 128);
    Distribute(p, c, 1);
    MulMonotone(p, 0, c);
  }

  lemma TopBit(c: nat, w: nat)
    requires w < 0x8000_0000_0000_0000
    ensures c * 0x8000_0000_0000_0000 % U64_MOD == c % 2 * 0x8000_0000_0000_0000
    ensures (w + 0x8000_0000_0000_0000 * c) % U64_MOD == c % 2 * 0x8000_0000_0000_0000 + w
  {
    assert c == 2 * (c / 2) + c % 2;
  }
}
