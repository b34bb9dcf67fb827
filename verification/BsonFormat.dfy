// BSON documents as lua_bson.cpp reads them, and the boundaries that its index finds.
module BsonFormat {
  import opened Arith
  import opened Reading
  import opened ByteNumbers

  const REAL: nat := 1
  const STRING: nat := 2
  const DOCUMENT: nat := 3
  const ARRAY: nat := 4
  const BINARY: nat := 5
  const OBJECTID: nat := 7
  const BOOLEAN: nat := 8
  const DATE: nat := 9
  const NULL: nat := 10
  const REGEX: nat := 11
  const DBPOINTER: nat := 12
  const JSCODE: nat := 13
  const SYMBOL: nat := 14
  const CODEWS: nat := 15
  const INT32: nat := 16
  const TIMESTAMP: nat := 17
  const INT64: nat := 18
  const MAXKEY: nat := 127
  const MINKEY: nat := 255

  type Bits = s: seq<Byte> | |s| == 8 witness [0, 0, 0, 0, 0, 0, 0, 0]

  datatype Key = Name(s: seq<Byte>) | Index(i: int)

  // What Lua gets.  The types Lua does not have are strings of a zero, the type and the content.
  datatype Value =
    Number(bits: Bits) | Integer(i: Int64) | Bool(b: bool) | Str(s: seq<Byte>) | Table(m: map<Key, Value>)

  function Object(bt: Byte, content: seq<Byte>): Value {
    Str([0, bt] + content)
  }

  // ---- primitive reads ----

  function Int32At(t: seq<Byte>): (i: Int64)
    requires |t| >= 4
  {
    FromTwos(LeValue(t[..4]) % U32_MOD, U32_MOD)
  }

  // A length of at least low, with more bytes beside it, that fits; its value.
  function Length(t: seq<Byte>, low: int, more: int): (r: Option<nat>)
    requires low >= 0
    ensures r.Some? ==> |t| >= 4 && r.value == Int32At(t) >= low && r.value + more <= |t|
  {
    if |t| < 4 || Int32At(t) < low || Int32At(t) + more > |t| then None else Some(Int32At(t))
  }

  // Up to a zero byte, and the bytes with it.
  function CString(t: seq<Byte>): (r: Option<(seq<Byte>, nat)>)
    ensures r.Some? ==> r.value.1 == |r.value.0| + 1 <= |t|
  {
    if t == [] then None
    else if t[0] == 0 then Some(([], 1))
    else match CString(t[1..])
      case None => None
      case Some((s, n)) => Some(([t[0]] + s, n + 1))
  }

  // strtol in base 10, plus one, in an int.
  function ArrayIndex(key: seq<Byte>): int {
    FromTwos(ToTwos(Strtol(key) + 1, U32_MOD), U32_MOD)
  }

  function Strtol(key: seq<Byte>): int {
    if key == [] then 0
    else if key[0] == 32 || 9 <= key[0] <= 13 then Strtol(key[1..])
    else if key[0] == 45 then Saturate(0 - Digits(key[1..], 0))
    else Saturate(Digits(if key[0] == 43 then key[1..] else key, 0))
  }

  function Saturate(i: int): Int64 {
    if i < -0x8000_0000_0000_0000 then -0x8000_0000_0000_0000
    else if i >= 0x8000_0000_0000_0000 then 0x7FFF_FFFF_FFFF_FFFF
    else i
  }

  function Digits(s: seq<Byte>, acc: nat): nat
    decreases s
  {
    if s == [] || !(48 <= s[0] <= 57) then acc else Digits(s[1..], 10 * acc + (s[0] - 48))
  }

  // date / 1000 in C, as a uint32_t.
  function Seconds(date: int): nat {
    ToTwos(if date >= 0 then date / 1000 else -((-date) / 1000), U32_MOD)
  }

  // ---- decoding ----

  // The value of type bt at the front of t, and its length; None where unpack_dict raises an error.
  function DecodeValue(bt: Byte, t: seq<Byte>): (r: Option<(Value, nat)>)
    ensures r.Some? ==> r.value.1 <= |t|
    decreases |t|, 1
  {
    if bt == REAL then (if |t| < 8 then None else Some((Number(t[..8]), 8)))
    else if bt == BOOLEAN then (if |t| < 1 then None else Some((Bool(t[0] != 0), 1)))
    else if bt == STRING then
      match Length(t, 1, 4)
      case None => None
      case Some(sz) => Some((Str(t[4..3 + sz]), 4 + sz))
    else if bt == DOCUMENT || bt == ARRAY then
      match DecodeDocument(t, bt == ARRAY)
      case None => None
      case Some((m, n)) => Some((Table(m), n))
    else if bt == BINARY then
      match Length(t, 0, 5)
      case None => None
      case Some(sz) => Some((Object(bt, t[4..5 + sz]), 5 + sz))
    else if bt == OBJECTID then (if |t| < 12 then None else Some((Object(bt, t[..12]), 12)))
    else if bt == DATE then
      if |t| < 8 then None
      else Some((Object(bt, LeBytes(Seconds(FromTwos(LeValue(t[..8]) % U64_MOD, U64_MOD)), 4)), 8))
    else if bt == MINKEY || bt == MAXKEY || bt == NULL then Some((Object(bt, []), 0))
    else if bt == REGEX then
      match CString(t)
      case None => None
      case Some((a, n)) =>
        match CString(t[n..])
        case None => None
        case Some((b, k)) => Some((Object(bt, a + [0] + b + [0]), n + k))
    else if bt == INT32 then (if |t| < 4 then None else Some((Integer(Int32At(t)), 4)))
    else if bt == TIMESTAMP then (if |t| < 8 then None else Some((Object(bt, t[..8]), 8)))
    else if bt == INT64 then
      (if |t| < 8 then None else Some((Integer(FromTwos(LeValue(t[..8]) % U64_MOD, U64_MOD)), 8)))
    else if bt == DBPOINTER then
      match Length(t, 0, 16)
      case None => None
      case Some(sz) => Some((Object(bt, t[..16 + sz]), 16 + sz))
    else if bt == JSCODE || bt == SYMBOL then
      match Length(t, 0, 4)
      case None => None
      case Some(sz) => Some((Object(bt, t[..4 + sz]), 4 + sz))
    else if bt == CODEWS then
      match Length(t, 4, 0)
      case None => None
      case Some(sz) => Some((Object(bt, t[..sz]), sz))
    else None
  }

  // A length, fields and a zero byte.
  function DecodeDocument(t: seq<Byte>, isArray: bool): (r: Option<(map<Key, Value>, nat)>)
    ensures r.Some? ==> 5 <= r.value.1 <= |t|
    decreases |t|, 0
  {
    match Length(t, 5, 0)
    case None => None
    case Some(sz) =>
      if t[sz - 1] != 0 then None
      else match DecodeFields(t[4..sz - 1], isArray)
        case None => None
        case Some(m) => Some((m, sz))
  }

  // The fields of a document; of several with one key, the last counts.
  function DecodeFields(t: seq<Byte>, isArray: bool): Option<map<Key, Value>>
    decreases |t|, 0
  {
    if t == [] then Some(map[])
    else match CString(t[1..])
      case None => None
      case Some((key, k)) =>
        match DecodeValue(t[0], t[1 + k..])
        case None => None
        case Some((v, n)) => Put(FieldKey(key, isArray), v, DecodeFields(t[1 + k + n..], isArray))
  }

  // One entry in front of others, which count if they have its key.
  function Put(key: Key, v: Value, rest: Option<map<Key, Value>>): Option<map<Key, Value>> {
    match rest
    case None => None
    case Some(m) => Some(map[key := v] + m)
  }

  function FieldKey(key: seq<Byte>, isArray: bool): Key {
    if isArray then Index(ArrayIndex(key)) else Name(key)
  }

  // ---- indexing ----

  // The types that can be replaced in place, by their size; 0 for the others.
  function FieldSize(bt: Byte): nat {
    if bt == INT64 || bt == TIMESTAMP || bt == DATE || bt == REAL then 8
    else if bt == BOOLEAN then 1
    else if bt == OBJECTID then 12
    else if bt == INT32 then 4
    else 0
  }

  // How far lmakeindex moves over a value; None where it raises an error.
  function SkipValue(bt: Byte, t: seq<Byte>): (r: Option<nat>)
    ensures r.Some? ==> r.value <= |t|
  {
    if FieldSize(bt) > 0 then (if |t| < FieldSize(bt) then None else Some(FieldSize(bt)))
    else if bt == JSCODE || bt == SYMBOL || bt == STRING then Moved(Length(t, 0, 4), 4)
    else if bt == CODEWS || bt == ARRAY || bt == DOCUMENT then Moved(Length(t, 4, 0), 0)
    else if bt == BINARY then Moved(Length(t, 0, 5), 5)
    else if bt == MINKEY || bt == MAXKEY || bt == NULL then Some(0)
    else if bt == REGEX then
      match CString(t)
      case None => None
      case Some((_, n)) =>
        match CString(t[n..])
        case None => None
        case Some((_, k)) => Some(n + k)
    else if bt == DBPOINTER then Moved(Length(t, 0, 16), 16)
    else None
  }

  function Moved(sz: Option<nat>, more: nat): Option<nat> {
    match sz
    case None => None
    case Some(n) => Some(n + more)
  }

  datatype Entry = Entry(bt: Byte, offset: nat)

  // The index of the fields t, which start at an offset.
  function IndexFields(t: seq<Byte>, offset: nat): (r: Option<map<seq<Byte>, Entry>>)
    decreases |t|
  {
    if t == [] then Some(map[])
    else match CString(t[1..])
      case None => None
      case Some((key, k)) =>
        match SkipValue(t[0], t[1 + k..])
        case None => None
        case Some(n) => AddEntry(key, t[0], offset + 1 + k, IndexFields(t[1 + k + n..], offset + 1 + k + n))
  }

  function AddEntry(key: seq<Byte>, bt: Byte, offset: nat, rest: Option<map<seq<Byte>, Entry>>)
    : Option<map<seq<Byte>, Entry>> {
    match rest
    case None => None
    case Some(m) => Some((if FieldSize(bt) > 0 then map[key := Entry(bt, offset)] else map[]) + m)
  }

  // Where the decoder reads a value, the index moves by the same length.
  lemma SameLength(bt: Byte, t: seq<Byte>)
    requires DecodeValue(bt, t).Some?
    ensures SkipValue(bt, t) == Some(DecodeValue(bt, t).value.1)
  {
    hide DecodeFields, LeValue, LeBytes, Seconds;
  }

  // ---- the decoder sees only the bytes it takes ----

  lemma LengthLocal(t: seq<Byte>, u: seq<Byte>, low: int, more: int)
    requires low >= 0 && Length(t, low, more).Some? && low + more >= 4
    requires Length(t, low, more).value + more <= |u| && more >= 0
    requires u[..Length(t, low, more).value + more] == t[..Length(t, low, more).value + more]
    ensures Length(u, low, more) == Length(t, low, more)
  {
    var n := Length(t, low, more).value + more;
    assert u[..4] == u[..n][..4] && t[..4] == t[..n][..4];
  }

  lemma {:induction false} CStringLocal(t: seq<Byte>, u: seq<Byte>)
    requires CString(t).Some? && CString(t).value.1 <= |u| && u[..CString(t).value.1] == t[..CString(t).value.1]
    ensures CString(u) == CString(t)
    decreases t
  {
    var n := CString(t).value.1;
    assert u[0] == u[..n][0] && t[0] == t[..n][0];
    if t[0] != 0 {
      assert u[1..][..n - 1] == u[..n][1..] && t[1..][..n - 1] == t[..n][1..];
      CStringLocal(t[1..], u[1..]);
    }
  }

  lemma Parts(t: seq<Byte>, u: seq<Byte>, n: nat, a: nat, b: nat)
    requires n <= |t| && n <= |u| && t[..n] == u[..n] && a <= b <= n
    ensures t[a..b] == u[a..b]
  {
    assert t[a..b] == t[..n][a..b] && u[a..b] == u[..n][a..b];
  }

  // A value depends on its own bytes alone.
  lemma ValueLocal(bt: Byte, t: seq<Byte>, u: seq<Byte>)
    requires DecodeValue(bt, t).Some? && DecodeValue(bt, t).value.1 <= |u|
    requires u[..DecodeValue(bt, t).value.1] == t[..DecodeValue(bt, t).value.1]
    ensures DecodeValue(bt, u) == DecodeValue(bt, t)
  {
    hide DecodeDocument, LeValue, LeBytes, Seconds, FromTwos, Length;
    var n := DecodeValue(bt, t).value.1;
    if bt == BOOLEAN {
      assert t[0] == t[..n][0] && u[0] == u[..n][0];
    } else if bt == STRING {
      LengthLocal(t, u, 1, 4);
      Parts(t, u, n, 4, n - 1);
    } else if bt == DOCUMENT || bt == ARRAY {
      DocumentLocal(t, u, bt == ARRAY);
    } else if bt == BINARY {
      LengthLocal(t, u, 0, 5);
      Parts(t, u, n, 4, n);
    } else if bt == REGEX {
      RegexLocal(t, u, n);
    } else if bt == INT32 {
      Int32Local(t, u);
    } else if bt == DBPOINTER {
      LengthLocal(t, u, 0, 16);
    } else if bt == JSCODE || bt == SYMBOL {
      LengthLocal(t, u, 0, 4);
    } else if bt == CODEWS {
      LengthLocal(t, u, 4, 0);
    }
  }

  lemma Int32Local(t: seq<Byte>, u: seq<Byte>)
    requires |t| >= 4 && |u| >= 4 && t[..4] == u[..4]
    ensures Int32At(t) == Int32At(u)
  {
  }

  lemma DocumentLocal(t: seq<Byte>, u: seq<Byte>, isArray: bool)
    requires DecodeDocument(t, isArray).Some? && DecodeDocument(t, isArray).value.1 <= |u|
    requires u[..DecodeDocument(t, isArray).value.1] == t[..DecodeDocument(t, isArray).value.1]
    ensures DecodeDocument(u, isArray) == DecodeDocument(t, isArray)
  {
    hide DecodeFields, Length;
    var n := DecodeDocument(t, isArray).value.1;
    LengthLocal(t, u, 5, 0);
    Parts(t, u, n, 4, n - 1);
    assert t[n - 1] == t[..n][n - 1] && u[n - 1] == u[..n][n - 1];
  }

  lemma RegexLocal(t: seq<Byte>, u: seq<Byte>, n: nat)
    requires DecodeValue(REGEX, t).Some? && n == DecodeValue(REGEX, t).value.1 <= |u| && u[..n] == t[..n]
    ensures DecodeValue(REGEX, u) == DecodeValue(REGEX, t)
  {
    hide CString;
    var k := CString(t).value.1;
    assert u[..k] == u[..n][..k] && t[..k] == t[..n][..k];
    CStringLocal(t, u);
    assert u[k..][..n - k] == u[..n][k..] && t[k..][..n - k] == t[..n][k..];
    CStringLocal(t[k..], u[k..]);
  }

  lemma {:induction false} CStringIs(a: seq<Byte>, rest: seq<Byte>)
    requires NoZero(a)
    ensures CString(a + ([0] + rest)) == Some((a, |a| + 1))
    decreases a
  {
    var t := a + ([0] + rest);
    if a != [] {
      assert t[1..] == a[1..] + ([0] + rest);
      CStringIs(a[1..], rest);
      assert [a[0]] + a[1..] == a;
    }
  }
}
