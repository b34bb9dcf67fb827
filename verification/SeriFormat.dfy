// The stream format of lua_seri.c: what the unpacker makes of any bytes, as functions on what is
// left of the stream, and the bytes the packer writes for values other than tables.
module SeriFormat {
  import opened Arith
  import opened Reading
  import opened ByteNumbers

  const TYPE_NIL: nat := 0
  const TYPE_BOOLEAN: nat := 1
  const TYPE_NUMBER: nat := 2
  const TYPE_USERDATA: nat := 3
  const TYPE_SHORT_STRING: nat := 4
  const TYPE_LONG_STRING: nat := 5
  const TYPE_TABLE: nat := 6

  const NUMBER_ZERO: nat := 0
  const NUMBER_BYTE: nat := 1
  const NUMBER_WORD: nat := 2
  const NUMBER_DWORD: nat := 4
  const NUMBER_QWORD: nat := 6
  const NUMBER_REAL: nat := 8

  const MAX_COOKIE: nat := 32

  type Eight = s: seq<Byte> | |s| == 8 witness [0, 0, 0, 0, 0, 0, 0, 0]
  type Text = s: seq<Byte> | |s| < 0x8000_0000

  // A Lua value.  Reals and light userdata are eight opaque bytes; Other is what cannot be packed:
  // functions, full userdata and threads.
  datatype Value =
    | Nil
    | Bool(b: bool)
    | Int(i: Int64)
    | Real(bits: Eight)
    | Pointer(bits: Eight)
    | Str(s: Text)
    | Table(m: map<Value, Value>)
    | Other

  // A binary64 that is not a number: the exponent is all ones and the fraction is not zero.
  predicate IsNaN(v: Value) {
    && v.Real? && v.bits[7] % 128 == 127 && v.bits[6] >= 240
    && !(v.bits[6] == 240 && forall j :: 0 <= j < 6 ==> v.bits[j] == 0)
  }

  function Combine(t: nat, cookie: nat): Byte
    requires t < 8 && cookie < 32
  {
    t + 8 * cookie
  }

  // t[k] = v
  function RawSet(m: map<Value, Value>, k: Value, v: Value): map<Value, Value> {
    if v == Nil then m - {k} else m[k := v]
  }

  // ---- unpacking ----

  // One value and the bytes it takes; None for an invalid stream.
  function DecodeOne(s: seq<Byte>): (r: Option<(Value, nat)>)
    ensures r.Some? ==> 0 < r.value.1 <= |s|
    decreases |s|, 0
  {
    if s == [] then None else Shift(DecodeValue(s[1..], s[0] % 8, s[0] / 8), 1)
  }

  function DecodeValue(s: seq<Byte>, t: nat, cookie: nat): (r: Option<(Value, nat)>)
    requires cookie < 32
    ensures r.Some? ==> r.value.1 <= |s|
    decreases |s|, 4
  {
    if t == TYPE_NIL then Some((Nil, 0))
    else if t == TYPE_BOOLEAN then Some((Bool(cookie != 0), 0))
    else if t == TYPE_NUMBER then
      if cookie == NUMBER_REAL then (if |s| < 8 then None else Some((Real(s[..8]), 8)))
      else match DecodeInteger(s, cookie)
        case None => None
        case Some((i, n)) => Some((Int(i), n))
    else if t == TYPE_USERDATA then (if |s| < 8 then None else Some((Pointer(s[..8]), 8)))
    else if t == TYPE_SHORT_STRING then DecodeString(s, cookie)
    else if t == TYPE_LONG_STRING then
      if cookie == 2 then (if |s| < 2 then None else Shift(DecodeString(s[2..], LeValue(s[..2])), 2))
      else if cookie == 4 then (if |s| < 4 then None else Shift(DecodeString(s[4..], LeValue(s[..4])), 4))
      else None
    else if t == TYPE_TABLE then
      match DecodeTable(s, cookie)
      case None => None
      case Some((m, n)) => Some((Table(m), n))
    else None
  }

  function DecodeInteger(s: seq<Byte>, cookie: nat): (r: Option<(Int64, nat)>)
    ensures r.Some? ==> r.value.1 <= |s|
  {
    if cookie == NUMBER_ZERO then Some((0, 0))
    else if cookie == NUMBER_BYTE then (if |s| < 1 then None else Some((LeValue(s[..1]) % 0x100, 1)))
    else if cookie == NUMBER_WORD then (if |s| < 2 then None else Some((LeValue(s[..2]) % 0x1_0000, 2)))
    else if cookie == NUMBER_DWORD then
      if |s| < 4 then None else Some((FromTwos(LeValue(s[..4]) % 0x1_0000_0000, 0x1_0000_0000), 4))
    else if cookie == NUMBER_QWORD then
      if |s| < 8 then None else Some((FromTwos(LeValue(s[..8]) % U64_MOD, U64_MOD), 8))
    else None
  }

  function DecodeString(s: seq<Byte>, len: nat): (r: Option<(Value, nat)>)
    ensures r.Some? ==> r.value.1 <= |s|
  {
    if |s| < len || len >= 0x8000_0000 then None else Some((Str(s[..len]), len))
  }

  // The number of array items is in the cookie, or in an integer that follows.
  function DecodeTable(s: seq<Byte>, cookie: nat): (r: Option<(map<Value, Value>, nat)>)
    requires cookie < 32
    ensures r.Some? ==> r.value.1 <= |s|
    decreases |s|, 3
  {
    if cookie == MAX_COOKIE - 1 then
      if s == [] || s[0] % 8 != TYPE_NUMBER || s[0] / 8 == NUMBER_REAL then None
      else match DecodeInteger(s[1..], s[0] / 8)
        case None => None
        case Some((x, n)) =>
          Shift(DecodeArray(s[1 + n..], 1, FromTwos(ToTwos(x, 0x1_0000_0000), 0x1_0000_0000), map[]), 1 + n)
    else DecodeArray(s, 1, cookie, map[])
  }

  // Items i to size, and then the pairs.
  function DecodeArray(s: seq<Byte>, i: Int64, size: int, m: map<Value, Value>): (r: Option<(map<Value, Value>, nat)>)
    requires size < 0x8000_0000
    ensures r.Some? ==> r.value.1 <= |s|
    decreases |s|, 2
  {
    if i > size then DecodeHash(s, m)
    else match DecodeOne(s)
      case None => None
      case Some((v, n)) => Shift(DecodeArray(s[n..], i + 1, size, RawSet(m, Int(i), v)), n)
  }

  // Pairs up to a nil.
  function DecodeHash(s: seq<Byte>, m: map<Value, Value>): (r: Option<(map<Value, Value>, nat)>)
    ensures r.Some? ==> r.value.1 <= |s|
    decreases |s|, 1
  {
    match DecodeOne(s)
    case None => None
    case Some((k, n)) =>
      if k == Nil then Some((m, n))
      else match DecodeOne(s[n..])
        case None => None
        case Some((v, n2)) =>
          if IsNaN(k) then None else Shift(DecodeHash(s[n + n2..], RawSet(m, k, v)), n + n2)
  }

  // A whole stream.
  function DecodeAll(s: seq<Byte>): Option<seq<Value>>
    decreases |s|
  {
    if s == [] then Some([])
    else match DecodeOne(s)
      case None => None
      case Some((v, n)) =>
        match DecodeAll(s[n..])
        case None => None
        case Some(vs) => Some([v] + vs)
  }

  // ---- the bytes of values other than tables ----

  function NilBytes(): seq<Byte> { [Combine(TYPE_NIL, 0)] }

  function BooleanBytes(b: bool): seq<Byte> { [Combine(TYPE_BOOLEAN, if b then 1 else 0)] }

  function RealBytes(bits: Eight): seq<Byte> { [Combine(TYPE_NUMBER, NUMBER_REAL)] + bits }

  function PointerBytes(bits: Eight): seq<Byte> { [Combine(TYPE_USERDATA, 0)] + bits }

  // As few bytes as the value needs.
  function IntegerBytes(v: Int64): seq<Byte> {
    if v == 0 then [Combine(TYPE_NUMBER, NUMBER_ZERO)]
    else if !(-0x8000_0000 <= v < 0x8000_0000) then
      [Combine(TYPE_NUMBER, NUMBER_QWORD)] + LeBytes(ToTwos(v, U64_MOD), 8)
    else if v < 0 then [Combine(TYPE_NUMBER, NUMBER_DWORD)] + LeBytes(ToTwos(v, U32_MOD), 4)
    else if v < 0x100 then [Combine(TYPE_NUMBER, NUMBER_BYTE)] + LeBytes(v, 1)
    else if v < 0x1_0000 then [Combine(TYPE_NUMBER, NUMBER_WORD)] + LeBytes(v, 2)
    else [Combine(TYPE_NUMBER, NUMBER_DWORD)] + LeBytes(v, 4)
  }

  function StringBytes(s: Text): seq<Byte> {
    if |s| < MAX_COOKIE then [Combine(TYPE_SHORT_STRING, |s|)] + s
    else if |s| < 0x1_0000 then [Combine(TYPE_LONG_STRING, 2)] + LeBytes(|s|, 2) + s
    else [Combine(TYPE_LONG_STRING, 4)] + LeBytes(|s|, 4) + s
  }

  // In front of the items of a table.
  function HeaderBytes(size: Int64): seq<Byte>
    requires size >= 0
  {
    if size >= MAX_COOKIE - 1 then [Combine(TYPE_TABLE, MAX_COOKIE - 1)] + IntegerBytes(size)
    else [Combine(TYPE_TABLE, size)]
  }

  // ---- what stands for a value ----

  // Whatever follows e, the unpacker takes exactly e and makes v of it.
  ghost predicate IsEncoding(e: seq<Byte>, v: Value) {
    forall rest: seq<Byte> :: DecodeOne(e + rest) == Some((v, |e|))
  }

  lemma OneFrom(t: nat, cookie: nat, s: seq<Byte>)
    requires t < 8 && cookie < 32
    ensures DecodeOne([Combine(t, cookie)] + s) == Shift(DecodeValue(s, t, cookie), 1)
  {
    hide DecodeValue, Shift;
    assert ([Combine(t, cookie)] + s)[1..] == s;
  }

  lemma NilEncoded()
    ensures IsEncoding(NilBytes(), Nil)
  {
    hide DecodeOne, Combine;
    forall rest: seq<Byte>
      ensures DecodeOne(NilBytes() + rest) == Some((Nil, 1))
    {
      OneFrom(TYPE_NIL, 0, rest);
    }
  }

  lemma BooleanEncoded(b: bool)
    ensures IsEncoding(BooleanBytes(b), Bool(b))
  {
    hide DecodeOne, Combine;
    forall rest: seq<Byte>
      ensures DecodeOne(BooleanBytes(b) + rest) == Some((Bool(b), 1))
    {
      OneFrom(TYPE_BOOLEAN, if b then 1 else 0, rest);
    }
  }

  lemma RealEncoded(bits: Eight)
    ensures IsEncoding(RealBytes(bits), Real(bits))
  {
    hide DecodeOne, Combine;
    forall rest: seq<Byte>
      ensures DecodeOne(RealBytes(bits) + rest) == Some((Real(bits), 9))
    {
      assert RealBytes(bits) + rest == [Combine(TYPE_NUMBER, NUMBER_REAL)] + (bits + rest);
      OneFrom(TYPE_NUMBER, NUMBER_REAL, bits + rest);
      assert (bits + rest)[..8] == bits;
    }
  }

  lemma PointerEncoded(bits: Eight)
    ensures IsEncoding(PointerBytes(bits), Pointer(bits))
  {
    hide DecodeOne, Combine;
    forall rest: seq<Byte>
      ensures DecodeOne(PointerBytes(bits) + rest) == Some((Pointer(bits), 9))
    {
      assert PointerBytes(bits) + rest == [Combine(TYPE_USERDATA, 0)] + (bits + rest);
      OneFrom(TYPE_USERDATA, 0, bits + rest);
      assert (bits + rest)[..8] == bits;
    }
  }

  // The bytes of an integer after its first, which says how many there are.
  lemma IntegerParts(v: Int64) returns (cookie: nat, e: seq<Byte>)
    ensures cookie < 32 && cookie != NUMBER_REAL
    ensures IntegerBytes(v) == [Combine(TYPE_NUMBER, cookie)] + e
    ensures forall rest: seq<Byte> :: DecodeInteger(e + rest, cookie) == Some((v, |e|))
  {
    hide LeBytes, LeValue, DecodeInteger, ToTwos, FromTwos;
    if v == 0 {
      cookie, e := NUMBER_ZERO, [];
    } else if !(-0x8000_0000 <= v < 0x8000_0000) {
      cookie, e := NUMBER_QWORD, LeBytes(ToTwos(v, U64_MOD), 8);
    } else if v < 0 {
      cookie, e := NUMBER_DWORD, LeBytes(ToTwos(v, U32_MOD), 4);
    } else if v < 0x100 {
      cookie, e := NUMBER_BYTE, LeBytes(v, 1);
    } else if v < 0x1_0000 {
      cookie, e := NUMBER_WORD, LeBytes(v, 2);
    } else {
      cookie, e := NUMBER_DWORD, LeBytes(v, 4);
    }
    forall rest: seq<Byte>
      ensures DecodeInteger(e + rest, cookie) == Some((v, |e|))
    {
      NumberDecoded(v, cookie, e, rest);
    }
  }

  lemma NumberDecoded(v: Int64, cookie: nat, e: seq<Byte>, rest: seq<Byte>)
    requires || (cookie == NUMBER_ZERO && v == 0 && e == [])
             || (cookie == NUMBER_BYTE && 0 <= v < 0x100 && e == LeBytes(v, 1))
             || (cookie == NUMBER_WORD && 0 <= v < 0x1_0000 && e == LeBytes(v, 2))
             || (cookie == NUMBER_DWORD && 0 <= v < 0x8000_0000 && e == LeBytes(v, 4))
             || (cookie == NUMBER_DWORD && -0x8000_0000 <= v < 0x8000_0000 && e == LeBytes(ToTwos(v, U32_MOD), 4))
             || (cookie == NUMBER_QWORD && e == LeBytes(ToTwos(v, U64_MOD), 8))
    ensures DecodeInteger(e + rest, cookie) == Some((v, |e|))
  {
    hide LeBytes, LeValue;
    assert (e + rest)[..|e|] == e;
    if cookie == NUMBER_BYTE {
      LeFits(v, 1);
    } else if cookie == NUMBER_WORD {
      LeFits(v, 2);
    } else if cookie == NUMBER_DWORD {
      if v >= 0 {
        LeFits(v, 4);
      }
      LeFits(ToTwos(v, U32_MOD), 4);
      TwosRoundTrip(v, U32_MOD);
    } else if cookie == NUMBER_QWORD {
      LeFits(ToTwos(v, U64_MOD), 8);
      TwosRoundTrip(v, U64_MOD);
    }
  }

  lemma IntegerEncoded(v: Int64)
    ensures IsEncoding(IntegerBytes(v), Int(v))
  {
    hide DecodeOne, IntegerBytes, DecodeInteger, Combine;
    var cookie, e := IntegerParts(v);
    forall rest: seq<Byte>
      ensures DecodeOne(IntegerBytes(v) + rest) == Some((Int(v), |IntegerBytes(v)|))
    {
      assert IntegerBytes(v) + rest == [Combine(TYPE_NUMBER, cookie)] + (e + rest);
      OneFrom(TYPE_NUMBER, cookie, e + rest);
    }
  }

  lemma StringEncoded(s: Text)
    ensures IsEncoding(StringBytes(s), Str(s))
  {
    hide DecodeOne, LeBytes, LeValue;
    if |s| >= MAX_COOKIE {
      LeFits(|s|, if |s| < 0x1_0000 then 2 else 4);
    }
    forall rest: seq<Byte>
      ensures DecodeOne(StringBytes(s) + rest) == Some((Str(s), |StringBytes(s)|))
    {
      StringDecoded(s, rest);
    }
  }

  lemma StringDecoded(s: Text, rest: seq<Byte>)
    requires |s| >= MAX_COOKIE ==> var k := if |s| < 0x1_0000 then 2 else 4; LeValue(LeBytes(|s|, k)) == |s|
    ensures DecodeOne(StringBytes(s) + rest) == Some((Str(s), |StringBytes(s)|))
  {
    hide DecodeOne, DecodeTable, DecodeInteger, LeBytes, LeValue, Combine;
    assert (s + rest)[..|s|] == s;
    if |s| < MAX_COOKIE {
      assert StringBytes(s) + rest == [Combine(TYPE_SHORT_STRING, |s|)] + (s + rest);
      OneFrom(TYPE_SHORT_STRING, |s|, s + rest);
    } else {
      LongStringDecoded(s, if |s| < 0x1_0000 then 2 else 4, rest);
    }
  }

  lemma LongStringDecoded(s: Text, k: nat, rest: seq<Byte>)
    requires (k == 2 || k == 4) && LeValue(LeBytes(|s|, k)) == |s|
    ensures DecodeOne([Combine(TYPE_LONG_STRING, k)] + LeBytes(|s|, k) + s + rest) == Some((Str(s), 1 + k + |s|))
  {
    hide DecodeOne, DecodeTable, DecodeInteger, LeBytes, LeValue, Combine;
    assert (s + rest)[..|s|] == s;
    var x := LeBytes(|s|, k) + (s + rest);
    assert [Combine(TYPE_LONG_STRING, k)] + LeBytes(|s|, k) + s + rest == [Combine(TYPE_LONG_STRING, k)] + x;
    OneFrom(TYPE_LONG_STRING, k, x);
    assert x[..k] == LeBytes(|s|, k) && x[k..] == s + rest;
  }
}
