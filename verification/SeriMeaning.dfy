// The stream of lua_seri.c in bytes and numbers.
module SeriMeaning {
  import opened Arith
  import opened Reading
  import opened ByteNumbers
  import opened SeriFormat
  import opened Seri

  lemma PlainBytes()
    ensures NilBytes() == [0] && BooleanBytes(false) == [1] && BooleanBytes(true) == [9]
  {
  }

  lemma OpaqueBytes(bits: seq<Byte>)
    requires |bits| == 8
    ensures RealBytes(bits) == [66] + bits && PointerBytes(bits) == [3] + bits
  {
  }

  // As few bytes as the value needs, lowest first; negative ones in two's complement.
  lemma IntegerInBytes(v: Int64)
    ensures v == 0 ==> IntegerBytes(v) == [2]
    ensures 0 < v < 0x100 ==> IntegerBytes(v) == [10, v]
    ensures 0x100 <= v < 0x1_0000 ==> IntegerBytes(v) == [18, v % 0x100, v / 0x100]
    ensures 0x1_0000 <= v < 0x8000_0000 ==> IntegerBytes(v) == [34] + LeBytes(v, 4)
    ensures -0x8000_0000 <= v < 0 ==> IntegerBytes(v) == [34] + LeBytes(v + 0x1_0000_0000, 4)
    ensures v < -0x8000_0000 ==> IntegerBytes(v) == [50] + LeBytes(v + 0x1_0000_0000_0000_0000, 8)
    ensures v >= 0x8000_0000 ==> IntegerBytes(v) == [50] + LeBytes(v, 8)
  {
    if v < 0 {
      if v >= -0x8000_0000 {
        DivModUnique(v, U32_MOD, -1, v + U32_MOD);
      }
      DivModUnique(v, U64_MOD, -1, v + U64_MOD);
    } else {
      DivModUnique(v, U64_MOD, 0, v);
    }
    if 0 < v < 0x1_0000 {
      SmallBytes(v);
    }
  }

  lemma SmallBytes(v: nat)
    requires v < 0x1_0000
    ensures v < 0x100 ==> LeBytes(v, 1) == [v]
    ensures LeBytes(v, 2) == [v % 0x100, v / 0x100]
  {
    assert LeBytes(v / 0x100, 1) == [v / 0x100] + LeBytes(v / 0x100 / 0x100, 0);
  }

  lemma StringInBytes(s: Text)
    ensures |s| < 32 ==> StringBytes(s) == [4 + 8 * |s|] + s
    ensures 32 <= |s| < 0x1_0000 ==> StringBytes(s) == [21] + LeBytes(|s|, 2) + s
    ensures |s| >= 0x1_0000 ==> StringBytes(s) == [37] + LeBytes(|s|, 4) + s
  {
    hide LeBytes;
  }

  // A table: the number of its items, up to 30 in the first byte.
  lemma HeaderInBytes(size: Int64)
    requires size >= 0
    ensures HeaderBytes(size) == if size < 31 then [6 + 8 * size] else [254] + IntegerBytes(size)
  {
    hide IntegerBytes;
  }

  // Eight bytes that are not a number: the exponent is all ones and the fraction is not zero.
  lemma NaNInWords(bits: seq<Byte>)
    requires |bits| == 8
    ensures var low, high := LeValue(bits[..4]), LeValue(bits[4..]);
            IsNaN(Real(bits)) <==> high / 0x10_0000 % 0x800 == 0x7FF && (low != 0 || high % 0x10_0000 != 0)
  {
    hide LeValue;
    FourBytes(bits[..4]);
    FourBytes(bits[4..]);
    HighFields(bits[4], bits[5], bits[6], bits[7]);
  }

  lemma FourBytes(s: seq<Byte>)
    requires |s| == 4
    ensures LeValue(s) == s[0] as int + 0x100 * (s[1] as int) + 0x1_0000 * (s[2] as int) + 0x100_0000 * (s[3] as int)
  {
    assert s[1..][1..] == s[2..] && s[2..][1..] == s[3..] && s[3..][1..] == [];
    assert LeValue(s[3..]) == s[3] as int;
    assert LeValue(s[2..]) == s[2] as int + 0x100 * LeValue(s[3..]);
    assert LeValue(s[1..]) == s[1] as int + 0x100 * LeValue(s[2..]);
  }

  lemma HighFields(a: nat, b: nat, c: nat, d: nat)
    requires a < 0x100 && b < 0x100 && c < 0x100 && d < 0x100
    ensures var high := a + 0x100 * b + 0x1_0000 * c + 0x100_0000 * d;
            && (high / 0x10_0000 % 0x800 == 0x7FF <==> d % 128 == 127 && c >= 240)
            && (c >= 240 ==> (high % 0x10_0000 == 0 <==> a == 0 && b == 0 && c == 240))
  {
    var high := a + 0x100 * b + 0x1_0000 * c + 0x100_0000 * d;
    assert high / 0x10_0000 == 16 * d + c / 16;
    assert high % 0x10_0000 == a + 0x100 * b + 0x1_0000 * (c % 16);
  }

  // Bytes that start no value.
  lemma Refused(s: seq<Byte>)
    requires s != []
    requires || s[0] % 8 == 7
             || (s[0] % 8 == 2 && (s[0] / 8 == 3 || s[0] / 8 == 5 || s[0] / 8 == 7 || s[0] / 8 > 8))
             || (s[0] % 8 == 5 && s[0] / 8 != 2 && s[0] / 8 != 4)
    ensures DecodeOne(s) == None
  {
  }

  // n tables, one inside the other.
  function Nested(n: nat): Value
    requires n > 0
  {
    Table(if n == 1 then map[] else map[Int(1) := Nested(n - 1)])
  }

  lemma {:induction false} NestingLimit(n: nat, depth: nat)
    requires n > 0
    ensures Packable(Nested(n), depth) <==> depth + n <= 33
  {
    if n == 1 {
      NothingPacked(depth);
    } else {
      NestingLimit(n - 1, depth + 1);
      OneItemPacked(Nested(n - 1), depth);
    }
  }

  lemma NothingPacked(depth: nat)
    ensures Packable(Table(map[]), depth) <==> depth <= 32
  {
  }

  lemma OneItemPacked(v: Value, depth: nat)
    ensures Packable(Table(map[Int(1) := v]), depth) <==> depth + 1 <= 32 && Packable(v, depth + 1)
  {
    var m := map[Int(1) := v];
    assert m[Int(1)] == v;
  }
}
