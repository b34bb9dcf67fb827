// What lua_cjson.c makes of any text: tokens, numbers, values, as functions on what is left of it.
module JsonText {
  import opened Arith
  import opened Reading
  import opened ByteNumbers
  import opened JsonString

  const MAX_DEPTH: nat := 1000

  function MaxDepth(): (n: nat)
    ensures n == MAX_DEPTH
  {
    MAX_DEPTH
  }

  // Nil is the absence of a value, Null the null pointer that stands for it in a table; Other is
  // what cannot be encoded.
  datatype Json = Nil | Null | Bool(b: bool) | Int(i: Int64) | Str(s: seq<Byte>) | Table(m: map<Json, Json>) | Other

  datatype Token =
    | ObjBegin | ObjEnd | ArrBegin | ArrEnd | Colon | Comma | End | Error
    | StringToken(s: seq<Byte>) | IntegerToken(i: Int64) | BooleanToken(b: bool) | NullToken

  // ---- numbers ----

  function DigitValue(c: Byte, base: nat): Option<nat> {
    match HexValue(c)
    case None => None
    case Some(d) => if d < base then Some(d) else None
  }

  // The digits at the front of s, after some that make acc, and how many there are.
  function ScanDigits(s: seq<Byte>, base: nat, acc: nat): (r: (nat, nat))
    ensures r.1 <= |s|
    decreases s
  {
    if s == [] || DigitValue(s[0], base) == None then (acc, 0)
    else var (v, n) := ScanDigits(s[1..], base, acc * base + DigitValue(s[0], base).value); (v, n + 1)
  }

  function Clamp(v: int): Int64 {
    if v < -0x8000_0000_0000_0000 then -0x8000_0000_0000_0000
    else if v >= 0x8000_0000_0000_0000 then 0x7FFF_FFFF_FFFF_FFFF
    else v
  }

  predicate IsHexPrefix(s: seq<Byte>) {
    |s| >= 3 && s[0] == 48 && (s[1] == 120 || s[1] == 88) && HexValue(s[2]) != None
  }

  // strtoll with base 0 on digits without a sign: hexadecimal, octal or decimal by their prefix.
  function Unsigned(s: seq<Byte>): (r: Option<(nat, nat)>)
    ensures r.Some? ==> 0 < r.value.1 <= |s|
  {
    if IsHexPrefix(s) then var (v, n) := ScanDigits(s[2..], 16, 0); Some((v, n + 2))
    else
      var (v, n) := ScanDigits(s, if s != [] && s[0] == 48 then 8 else 10, 0);
      if n == 0 then None else Some((v, n))
  }

  function Strtoll(s: seq<Byte>): (r: Option<(Int64, nat)>)
    ensures r.Some? ==> 0 < r.value.1 <= |s|
  {
    if s == [] then None
    else if s[0] == 45 then
      match Unsigned(s[1..])
      case None => None
      case Some((v, n)) => Some((Clamp(0 - v), n + 1))
    else
      var k := if s[0] == 43 then 1 else 0;
      match Unsigned(s[k..])
      case None => None
      case Some((v, n)) => Some((Clamp(v), n + k))
  }

  // A point or an exponent makes it a float, which is not read here.
  function NumberToken(s: seq<Byte>): (r: (Token, nat))
    ensures r.1 <= |s| && (r.1 == 0 ==> r.0 == Error)
  {
    match Strtoll(s)
    case None => (Error, 0)
    case Some((i, n)) =>
      if n < |s| && (s[n] == 46 || s[n] == 101 || s[n] == 69) then (Error, 0) else (IntegerToken(i), n)
  }

  // ---- tokens ----

  function TrueText(): seq<Byte> { [116, 114, 117, 101] }

  function FalseText(): seq<Byte> { [102, 97, 108, 115, 101] }

  function NullText(): seq<Byte> { [110, 117, 108, 108] }

  predicate IsSpace(c: Byte) { c == 32 || c == 9 || c == 10 || c == 13 }

  function SkipSpace(s: seq<Byte>): (n: nat)
    ensures n <= |s| && (n < |s| ==> !IsSpace(s[n])) && forall i :: 0 <= i < n ==> IsSpace(s[i])
  {
    if s != [] && IsSpace(s[0]) then 1 + SkipSpace(s[1..]) else 0
  }

  // The token at the front of s, which is not white space.  The text ends at a zero byte.
  function TokenAt(s: seq<Byte>): (r: (Token, nat))
    ensures r.1 <= |s| && (r.1 == 0 ==> r.0 == End || r.0 == Error)
  {
    if s == [] || s[0] == 0 then (End, 0)
    else
      var c := s[0];
      if c == 123 then (ObjBegin, 1)
      else if c == 125 then (ObjEnd, 1)
      else if c == 91 then (ArrBegin, 1)
      else if c == 93 then (ArrEnd, 1)
      else if c == 44 then (Comma, 1)
      else if c == 58 then (Colon, 1)
      else if c == QUOTE then
        match StringBody(s[1..])
        case None => (Error, 0)
        case Some((b, n)) => (StringToken(b), n + 1)
      else if c == 45 || 48 <= c <= 57 || c == 43 then NumberToken(s)
      else if TrueText() <= s then (BooleanToken(true), 4)
      else if FalseText() <= s then (BooleanToken(false), 5)
      else if NullText() <= s then (NullToken, 4)
      else (Error, 0)
  }

  // The next token, and the bytes up to its end.
  function NextToken(s: seq<Byte>): (r: (Token, nat))
    ensures r.1 <= |s| && (r.1 == 0 ==> r.0 == End || r.0 == Error)
  {
    var k := SkipSpace(s);
    var (t, n) := TokenAt(s[k..]);
    (t, k + n)
  }

  // ---- values ----

  function MadeTable(r: Option<(map<Json, Json>, nat)>): Option<(Json, nat)> {
    match r
    case None => None
    case Some((m, n)) => Some((Table(m), n))
  }

  // The value at the front of s, inside depth tables, and the bytes it takes; None for a parse error.
  function ParseValue(s: seq<Byte>, depth: nat): (r: Option<(Json, nat)>)
    ensures r.Some? ==> 0 < r.value.1 <= |s|
    decreases |s|, 0
  {
    var (t, n) := NextToken(s);
    match t
    case StringToken(x) => Some((Str(x), n))
    case IntegerToken(i) => Some((Int(i), n))
    case BooleanToken(b) => Some((Bool(b), n))
    case NullToken => Some((Null, n))
    case ObjBegin => Shift(MadeTable(ParseObject(s[n..], depth + 1)), n)
    case ArrBegin => Shift(MadeTable(ParseArray(s[n..], depth + 1)), n)
    case _ => None
  }

  // Behind the opening brace.
  function ParseObject(s: seq<Byte>, depth: nat): (r: Option<(map<Json, Json>, nat)>)
    ensures r.Some? ==> 0 < r.value.1 <= |s|
    decreases |s|, 2
  {
    if depth > MAX_DEPTH then None
    else
      var (t, n) := NextToken(s);
      if t == ObjEnd then Some((map[], n)) else ParseMembers(s, map[], depth)
  }

  // One member and the rest of them.
  function ParseMembers(s: seq<Byte>, m: map<Json, Json>, depth: nat): (r: Option<(map<Json, Json>, nat)>)
    ensures r.Some? ==> 0 < r.value.1 <= |s|
    decreases |s|, 1
  {
    var (key, n) := NextToken(s);
    if !key.StringToken? then None
    else
      var (colon, n2) := NextToken(s[n..]);
      if colon != Colon then None
      else match ParseValue(s[n + n2..], depth)
        case None => None
        case Some((v, n3)) => AfterMember(s[n + n2 + n3..], m[Str(key.s) := v], depth, n + n2 + n3)
  }

  function AfterMember(s: seq<Byte>, m: map<Json, Json>, depth: nat, k: nat): (r: Option<(map<Json, Json>, nat)>)
    ensures r.Some? ==> k < r.value.1 <= k + |s|
    decreases |s|, 2
  {
    var (t, n) := NextToken(s);
    if t == ObjEnd then Some((m, k + n))
    else if t == Comma then Shift(ParseMembers(s[n..], m, depth), k + n)
    else None
  }

  // Behind the opening bracket.
  function ParseArray(s: seq<Byte>, depth: nat): (r: Option<(map<Json, Json>, nat)>)
    ensures r.Some? ==> 0 < r.value.1 <= |s|
    decreases |s|, 2
  {
    if depth > MAX_DEPTH then None
    else
      var (t, n) := NextToken(s);
      if t == ArrEnd then Some((map[], n)) else ParseItems(s, 1, map[], depth)
  }

  // Item i and the rest of them.
  function ParseItems(s: seq<Byte>, i: Int64, m: map<Json, Json>, depth: nat): (r: Option<(map<Json, Json>, nat)>)
    ensures r.Some? ==> 0 < r.value.1 <= |s|
    decreases |s|, 1
  {
    match ParseValue(s, depth)
    case None => None
    case Some((v, n)) => AfterItem(s[n..], i, m[Int(i) := v], depth, n)
  }

  function AfterItem(s: seq<Byte>, i: Int64, m: map<Json, Json>, depth: nat, k: nat)
    : (r: Option<(map<Json, Json>, nat)>)
    ensures r.Some? ==> k < r.value.1 <= k + |s|
    decreases |s|, 2
  {
    var (t, n) := NextToken(s);
    if t == ArrEnd then Some((m, k + n))
    else if t == Comma && i < 0x7FFF_FFFF then Shift(ParseItems(s[n..], i + 1, m, depth), k + n)
    else None
  }

  // A whole text.  Two-byte encodings are refused by their zero bytes.
  function Decode(text: seq<Byte>): Option<Json> {
    if |text| >= 2 && (text[0] == 0 || text[1] == 0) then None
    else match ParseValue(text + [0], 0)
      case None => None
      case Some((v, n)) => if NextToken((text + [0])[n..]).0 == End then Some(v) else None
  }
}
