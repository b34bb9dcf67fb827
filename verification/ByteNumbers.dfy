// Little-endian numbers of a fixed width in bytes, unsigned and in two's complement.
module ByteNumbers {
  import opened Arith

  type Int64 = i: int | -0x8000_0000_0000_0000 <= i < 0x8000_0000_0000_0000

  // x in k bytes, lowest first.
  function LeBytes(x: nat, k: nat): (s: seq<Byte>)
    ensures |s| == k
  {
    if k == 0 then [] else [x % 256] + LeBytes(x / 256, k - 1)
  }

  function LeValue(s: seq<Byte>): nat {
    if s == [] then 0 else s[0] + 256 * LeValue(s[1..])
  }

  lemma {:induction false} LeRoundTrip(x: nat, k: nat)
    requires x < Pow(256, k)
    ensures LeValue(LeBytes(x, k)) == x
  {
    if k > 0 {
      LeRoundTrip(x / 256, k - 1);
      assert LeBytes(x, k)[1..] == LeBytes(x / 256, k - 1);
    }
  }

  lemma {:induction false} LeBack(s: seq<Byte>)
    ensures LeBytes(LeValue(s), |s|) == s && LeValue(s) < Pow(256, |s|)
  {
    if s != [] {
      LeBack(s[1..]);
      assert s == [s[0]] + s[1..];
    }
  }

  // Storing a signed number of modulus m and reading it back.
  function ToTwos(i: int, m: nat): nat
    requires m > 0
  {
    i % m
  }

  function FromTwos(x: nat, m: nat): int {
    if x < m / 2 then x else x - m
  }

  // A signed number survives exactly where it fits.
  lemma TwosRoundTrip(i: int, m: nat)
    requires m > 0 && m % 2 == 0
    ensures FromTwos(ToTwos(i, m), m) == i <==> -(m / 2) <= i < m / 2
  {
    if 0 <= i < m {
      DivModUnique(i, m, 0, i);
    } else if 0 <= i + m < m {
      DivModUnique(i, m, -1, i + m);
    }
  }

  lemma BytePowers()
    ensures Pow(256, 1) == 0x100 && Pow(256, 2) == 0x1_0000 && Pow(256, 4) == 0x1_0000_0000
    ensures Pow(256, 8) == 0x1_0000_0000_0000_0000
  {
    assert Pow(256, 1) == 0x100 && Pow(256, 2) == 0x1_0000;
    PowAdd(256, 2, 2);
    PowAdd(256, 4, 4);
  }

  lemma LeFits(x: nat, k: nat)
    requires (k == 1 && x < 0x100) || (k == 2 && x < 0x1_0000) || (k == 4 && x < 0x1_0000_0000)
             || (k == 8 && x < 0x1_0000_0000_0000_0000)
    ensures LeValue(LeBytes(x, k)) == x
  {
    hide LeBytes, LeValue, Pow;
    BytePowers();
    LeRoundTrip(x, k);
  }
}
