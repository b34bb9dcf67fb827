// lua_bson.cpp: encoding a table as a document, into a buffer that grows by doubling and whose
// lengths are written once the bytes they count are there.
module BsonEncode {
  import opened Arith
  import opened Reading
  import opened ByteNumbers
  import opened BsonFormat
  import opened Bson

  const DEFAULT_CAP: nat := 64
  const MAX_DEPTH: nat := 128
  const SIZE_LIMIT: nat := 0x8000_0000

  // ---- the buffer ----

  class Buffer {
    var ptr: array<Byte>
    var size: nat
    var cap: nat

    ghost predicate Valid()
      reads this
    {
      size <= cap == ptr.Length && cap >= DEFAULT_CAP
    }

    ghost function Text(): seq<Byte>
      reads this, ptr
      requires Valid()
    {
      ptr[..size]
    }

    constructor ()
      ensures Valid() && Text() == [] && fresh(ptr)
    {
      ptr, size, cap := new Byte[DEFAULT_CAP](_ => 0), 0, DEFAULT_CAP;
    }

    method Reserve(sz: nat)
      requires Valid()
      modifies this
      ensures Valid() && (ptr == old(ptr) || fresh(ptr)) && Text() == old(Text()) && size == old(size)
      ensures size + sz <= cap
    {
      if size + sz <= cap { return; }
      var newCap := cap * 2;
      while newCap <= size + sz
        invariant newCap >= 2 * DEFAULT_CAP
        decreases size + sz - newCap
      {
        newCap := newCap * 2;
      }
      var larger := new Byte[newCap](_ => 0);
      forall i | 0 <= i < size {
        larger[i] := ptr[i];
      }
      ptr, cap := larger, newCap;
    }

    // The bytes at the end.
    method Append(e: seq<Byte>)
      requires Valid()
      modifies this, ptr
      ensures Valid() && (ptr == old(ptr) || fresh(ptr)) && Text() == old(Text()) + e
    {
      Reserve(|e|);
      forall i | 0 <= i < |e| {
        ptr[size + i] := e[i];
      }
      size := size + |e|;
      assert ptr[..size] == old(Text()) + e;
    }

    // A string with its zero.
    method WriteString(s: seq<Byte>)
      requires Valid()
      modifies this, ptr
      ensures Valid() && (ptr == old(ptr) || fresh(ptr)) && Text() == old(Text()) + (s + [0])
    {
      Append(s + [0]);
    }

    method WriteInt32(v: int)
      requires Valid()
      modifies this, ptr
      ensures Valid() && (ptr == old(ptr) || fresh(ptr)) && Text() == old(Text()) + LeBytes(ToTwos(v, U32_MOD), 4)
    {
      Append(LeBytes(ToTwos(v, U32_MOD), 4));
    }

    method WriteInt64(v: int)
      requires Valid()
      modifies this, ptr
      ensures Valid() && (ptr == old(ptr) || fresh(ptr)) && Text() == old(Text()) + LeBytes(ToTwos(v, U64_MOD), 8)
    {
      Append(LeBytes(ToTwos(v, U64_MOD), 8));
    }

    // Four bytes of anything, for a length that is not known yet.
    method ReserveLength() returns (off: nat)
      requires Valid()
      modifies this
      ensures Valid() && (ptr == old(ptr) || fresh(ptr)) && off == old(size)
      ensures size == off + 4 && Text()[..off] == old(Text())
    {
      off := size;
      Reserve(4);
      size := size + 4;
    }

    method WriteLength(v: int, off: nat)
      requires Valid() && off + 4 <= size
      modifies ptr
      ensures Valid() && Text() == Patched(old(Text()), off, LeBytes(ToTwos(v, U32_MOD), 4))
    {
      ghost var text := Text();
      var e := LeBytes(ToTwos(v, U32_MOD), 4);
      forall i | 0 <= i < 4 {
        ptr[off + i] := e[i];
      }
      assert ptr[..size] == Patched(text, off, e);
    }
  }

  // ---- what is encoded ----

  // A string that stands for a type Lua does not have.
  predicate IsTagged(s: seq<Byte>) {
    |s| > 1 && s[0] == 0
  }

  // A regular expression: two strings, each with its zero.
  predicate RegexShape(s: seq<Byte>) {
    |s| >= 4 && exists j :: 2 <= j < |s| - 1 && s[j] == 0
  }

  // What the encoder takes for granted: documents are keyed by strings, and the scan of a regular
  // expression finds a zero.
  ghost predicate Lua(v: Value) {
    match v
    case Str(s) => IsTagged(s) && s[1] == REGEX ==> RegexShape(s)
    case Table(m) => forall k | k in m :: k.Name? && Lua(m[k])
    case _ => true
  }

  predicate TaggedEncodable(s: seq<Byte>)
    requires IsTagged(s)
  {
    var bt := s[1];
    || bt == BINARY || bt == JSCODE || bt == DBPOINTER || bt == SYMBOL || bt == CODEWS || bt == REGEX
    || bt == MINKEY || bt == MAXKEY || bt == NULL
    || (bt == OBJECTID && |s| == 14) || (bt == DATE && |s| == 6) || (bt == TIMESTAMP && |s| == 10)
  }

  // What the encoder accepts; a table is packed at this depth.
  ghost predicate Encodable(v: Value, depth: nat) {
    match v
    case Str(s) => IsTagged(s) ==> TaggedEncodable(s)
    case Table(m) => depth <= MAX_DEPTH && forall k | k in m :: Encodable(m[k], depth + 1)
    case _ => true
  }

  // The content of a tagged string is what its type asks for.
  ghost predicate TaggedProper(s: seq<Byte>)
    requires IsTagged(s)
  {
    var bt, t := s[1], s[2..];
    && (bt == BINARY ==> t != [])
    && (bt == MINKEY || bt == MAXKEY || bt == NULL ==> t == [])
    && (bt == JSCODE || bt == SYMBOL ==> |t| >= 4 && 0 <= Int32At(t) == |t| - 4)
    && (bt == DBPOINTER ==> |t| >= 4 && 0 <= Int32At(t) == |t| - 16)
    && (bt == CODEWS ==> |t| >= 4 && Int32At(t) == |t|)
    && (bt == REGEX ==> exists a, b :: NoZero(a) && NoZero(b) && t == a + [0] + (b + [0]))
  }

  // At any depth.
  ghost predicate TagsProper(v: Value) {
    match v
    case Str(s) => IsTagged(s) ==> TaggedProper(s)
    case Table(m) => forall k | k in m :: TagsProper(m[k])
    case _ => true
  }

  // No name at any depth holds a zero byte.
  ghost predicate NamesProper(v: Value) {
    match v
    case Table(m) => forall k | k in m :: (k.Name? ==> NoZero(k.s)) && NamesProper(m[k])
    case _ => true
  }

  ghost predicate Proper(v: Value) {
    TagsProper(v) && NamesProper(v)
  }

  // ---- the bytes of values ----

  // The encoder's bytes of a tagged string, without its type.
  function TaggedBytes(s: seq<Byte>): seq<Byte>
    requires IsTagged(s) && TaggedEncodable(s) && (s[1] == REGEX ==> RegexShape(s))
  {
    var bt, t := s[1], s[2..];
    if bt == BINARY then LeBytes(ToTwos(|t| - 1, U32_MOD), 4) + t
    else if bt == DATE then LeBytes(LeValue(t) * 1000, 8)
    else if bt == MINKEY || bt == MAXKEY || bt == NULL then []
    else if bt == REGEX then
      var n := |t| - 1;
      var i := TailLength(t[..n]);
      t[..n - i - 1] + [0] + (t[n - i..n] + [0])
    else t
  }

  // How many bytes there are behind the last zero.
  function TailLength(t: seq<Byte>): (i: nat)
    ensures i <= |t| && (i < |t| ==> t[|t| - 1 - i] == 0)
    ensures (exists j :: 0 <= j < |t| && t[j] == 0) ==> i < |t|
    ensures forall j :: |t| - i <= j < |t| ==> t[j] != 0
  {
    if t == [] || t[|t| - 1] == 0 then 0 else 1 + TailLength(t[..|t| - 1])
  }

  function StringBytes(s: seq<Byte>): seq<Byte> {
    LeBytes(ToTwos(|s| + 1, U32_MOD), 4) + (s + [0])
  }

  // e is read as v of type bt.
  ghost predicate IsValue(bt: Byte, e: seq<Byte>, v: Value) {
    DecodeValue(bt, e) == Some((v, |e|))
  }

  // A length in front of the bytes it counts.
  lemma LengthAhead(n: nat, t: seq<Byte>, low: nat, more: nat)
    requires n < SIZE_LIMIT && low <= n && n + more <= 4 + |t|
    ensures var e := LeBytes(ToTwos(n, U32_MOD), 4) + t;
            e[4..] == t && Length(e, low, more) == Some(n)
  {
    hide LeBytes, LeValue;
    var b := LeBytes(ToTwos(n, U32_MOD), 4);
    assert (b + t)[..4] == b;
    LeFits(n, 4);
    TwosRoundTrip(n, U32_MOD);
  }

  lemma StringIsValue(s: seq<Byte>)
    requires |s| + 1 < SIZE_LIMIT
    ensures IsValue(STRING, StringBytes(s), Str(s))
  {
    hide LeBytes, Length;
    LengthAhead(|s| + 1, s + [0], 1, 4);
    var e := StringBytes(s);
    assert e[4..4 + |s|] == e[4..][..|s|] == s;
  }

  lemma IntegerIsValue(i: Int64)
    ensures -0x8000_0000 <= i < 0x8000_0000 ==> IsValue(INT32, LeBytes(ToTwos(i, U32_MOD), 4), Integer(i))
    ensures IsValue(INT64, LeBytes(ToTwos(i, U64_MOD), 8), Integer(i))
  {
    StoredIsRead(INT64, Integer(i));
    StoredIsRead(INT32, Integer(i));
    StoredInteger(INT32, Integer(i));
  }

  lemma TaggedIsValue(s: seq<Byte>)
    requires IsTagged(s) && TaggedEncodable(s) && (s[1] == REGEX ==> RegexShape(s)) && TaggedProper(s)
    requires s[1] == BINARY ==> |s| < SIZE_LIMIT
    ensures IsValue(s[1], TaggedBytes(s), Str(s))
  {
    hide LeBytes, LeValue, Length, DecodeDocument, Seconds, FromTwos, Int32At, RegexShape;
    var bt, t := s[1], s[2..];
    assert [0, bt] + t == s;
    assert t[..|t|] == t;
    if bt == BINARY {
      LengthAhead(|t| - 1, t, 0, 5);
      assert TaggedBytes(s)[4..4 + |t|] == TaggedBytes(s)[4..] == t;
    } else if bt == OBJECTID || bt == DATE || bt == TIMESTAMP {
      StoredIsRead(bt, Str(s));
    } else if bt == REGEX {
      RegexIsValue(s);
    } else if bt == JSCODE || bt == SYMBOL || bt == DBPOINTER || bt == CODEWS {
      BlockIsValue(bt, t);
    }
  }

  lemma BlockIsValue(bt: Byte, t: seq<Byte>)
    requires |t| >= 4
    requires ((bt == JSCODE || bt == SYMBOL) && 0 <= Int32At(t) == |t| - 4)
             || (bt == DBPOINTER && 0 <= Int32At(t) == |t| - 16)
             || (bt == CODEWS && Int32At(t) == |t|)
    ensures IsValue(bt, t, Object(bt, t))
  {
    hide Int32At;
    assert t[..|t|] == t;
  }

  lemma {:induction false} TailLengthIs(h: seq<Byte>, b: seq<Byte>)
    requires NoZero(b)
    ensures TailLength(h + [0] + b) == |b|
    decreases b
  {
    var t := h + [0] + b;
    if b != [] {
      var c := b[..|b| - 1];
      assert t[..|t| - 1] == h + [0] + c;
      TailLengthIs(h, c);
    }
  }

  lemma RegexIsValue(s: seq<Byte>)
    requires IsTagged(s) && s[1] == REGEX && RegexShape(s) && TaggedEncodable(s) && TaggedProper(s)
    ensures IsValue(REGEX, TaggedBytes(s), Str(s))
  {
    hide IsValue, RegexShape;
    var a, b :| NoZero(a) && NoZero(b) && s[2..] == a + [0] + (b + [0]);
    assert [0, REGEX] + s[2..] == s;
    RegexBytes(s, a, b);
    TwoStrings(a, b);
  }

  lemma RegexBytes(s: seq<Byte>, a: seq<Byte>, b: seq<Byte>)
    requires IsTagged(s) && s[1] == REGEX && RegexShape(s) && TaggedEncodable(s)
    requires NoZero(b) && s[2..] == a + [0] + (b + [0])
    ensures TaggedBytes(s) == s[2..]
  {
    hide TailLength, RegexShape, TaggedEncodable;
    var t := s[2..];
    var n := |t| - 1;
    assert t[..n] == a + [0] + b;
    TailLengthIs(a, b);
    assert t[..|a|] == a && t[|a| + 1..n] == b;
  }

  lemma TwoStrings(a: seq<Byte>, b: seq<Byte>)
    requires NoZero(a) && NoZero(b)
    ensures var t := a + [0] + (b + [0]); IsValue(REGEX, t, Object(REGEX, t))
  {
    hide CString;
    var t := a + [0] + (b + [0]);
    assert t == a + ([0] + (b + [0]));
    CStringIs(a, b + [0]);
    assert t[|a| + 1..] == b + ([0] + []);
    CStringIs(b, []);
    assert a + [0] + b + [0] == t;
  }

  // ---- fields one after the other ----

  lemma {:induction false} FieldAdded(t: seq<Byte>, bt: Byte, kb: seq<Byte>, key: seq<Byte>, vb: seq<Byte>, v: Value)
    requires DecodeFields(t, false).Some? && IsField(bt, kb, key, vb, v)
    ensures DecodeFields(t + Field(bt, kb, vb), false) == Some(DecodeFields(t, false).value[Name(key) := v])
    decreases |t|
  {
    hide *;
    if t == [] {
      OneFieldOnly(bt, kb, key, vb, v);
      assert t + Field(bt, kb, vb) == Field(bt, kb, vb);
    } else {
      var bt0, kb0, key0, vb0, v0, rest := FirstField(t);
      FieldAdded(rest, bt, kb, key, vb, v);
      FieldsOf(bt0, kb0, key0, vb0, v0, rest);
      FieldsOf(bt0, kb0, key0, vb0, v0, rest + Field(bt, kb, vb));
      assert t + Field(bt, kb, vb) == Field(bt0, kb0, vb0) + (rest + Field(bt, kb, vb));
      PutParts(Name(key0), v0, DecodeFields(rest, false));
      PutParts(Name(key0), v0, DecodeFields(rest + Field(bt, kb, vb), false));
      LaterMaps(Name(key0), v0, DecodeFields(rest, false).value, Name(key), v);
    }
  }

  lemma OneFieldOnly(bt: Byte, kb: seq<Byte>, key: seq<Byte>, vb: seq<Byte>, v: Value)
    requires IsField(bt, kb, key, vb, v)
    ensures DecodeFields([], false) == Some(map[])
    ensures DecodeFields(Field(bt, kb, vb), false) == Some(map[Name(key) := v])
  {
    FieldsOf(bt, kb, key, vb, v, []);
    assert Field(bt, kb, vb) + [] == Field(bt, kb, vb);
    assert map[Name(key) := v] + map[] == map[Name(key) := v];
  }

  lemma DocumentIs(t: seq<Byte>, m: map<Key, Value>)
    requires DecodeFields(t, false) == Some(m) && |t| + 5 < SIZE_LIMIT
    ensures DecodeDocument(LeBytes(ToTwos(|t| + 5, U32_MOD), 4) + t + [0], false) == Some((m, |t| + 5))
  {
    hide LeBytes, Length, DecodeFields;
    var e := LeBytes(ToTwos(|t| + 5, U32_MOD), 4) + t + [0];
    assert e == LeBytes(ToTwos(|t| + 5, U32_MOD), 4) + (t + [0]);
    LengthAhead(|t| + 5, t + [0], 5, 0);
    assert e[4..|e| - 1] == t;
  }

  // ---- encoding ----

  // The type byte of a field, in the numbers of the BSON specification.
  function TypeWritten(v: Value): Byte {
    match v
    case Number(_) => 1
    case Table(_) => 3
    case Bool(_) => 8
    case Integer(i) => if -0x8000_0000 <= i < 0x8000_0000 then 16 else 18
    case Str(s) => if |s| > 1 && s[0] == 0 then s[1] else 2
  }

  // append_one: one field, which is read as the key and the value.
  method AppendOne(b: Buffer, key: seq<Byte>, v: Value, depth: nat)
    returns (ok: bool, ghost bt: Byte, ghost vb: seq<Byte>)
    requires b.Valid() && Lua(v)
    modifies b, b.ptr
    ensures b.Valid() && (b.ptr == old(b.ptr) || fresh(b.ptr))
    ensures ok <==> Encodable(v, depth + 1)
    ensures ok ==> b.Text() == old(b.Text()) + Field(bt, key + [0], vb)
    ensures ok && |b.Text()| < SIZE_LIMIT && Proper(v) ==> IsValue(bt, vb, v)
    ensures bt == TypeWritten(v) && (v.Integer? ==> |vb| == if bt == 16 then 4 else 8)
    decreases v, 1
  {
    hide LeBytes, TaggedBytes, IsValue, TaggedProper, RegexShape, Field;
    bt, vb := 0, [];
    ghost var before := b.Text();
    match v
    case Integer(i) =>
      IntegerIsValue(i);
      if -0x8000_0000 <= i < 0x8000_0000 {
        AppendKey(b, INT32, key);
        b.WriteInt32(i);
        bt, vb := INT32, LeBytes(ToTwos(i, U32_MOD), 4);
      } else {
        AppendKey(b, INT64, key);
        b.WriteInt64(i);
        bt, vb := INT64, LeBytes(ToTwos(i, U64_MOD), 8);
      }
      FieldParts(before, bt, key, vb);
      ok := true;
    case Number(bits) =>
      AppendKey(b, REAL, key);
      b.Append(bits);
      bt, vb := REAL, bits;
      PlainIsValue(bits, true);
      FieldParts(before, bt, key, vb);
      ok := true;
    case Bool(x) =>
      AppendKey(b, BOOLEAN, key);
      b.Append([if x then 1 else 0]);
      bt, vb := BOOLEAN, [if x then 1 else 0];
      PlainIsValue([0, 0, 0, 0, 0, 0, 0, 0], x);
      FieldParts(before, bt, key, vb);
      ok := true;
    case Str(s) =>
      if IsTagged(s) {
        ok, bt, vb := AppendTagged(b, key, s);
      } else {
        AppendKey(b, STRING, key);
        WriteText(b, s);
        bt, vb := STRING, StringBytes(s);
        FieldParts(before, bt, key, vb);
        if |b.Text()| < SIZE_LIMIT {
          FieldIsLong(before, bt, key, vb);
          StringIsValue(s);
        }
        ok := true;
      }
    case Table(m) =>
      AppendKey(b, DOCUMENT, key);
      bt := DOCUMENT;
      ok, vb := PackDict(b, v, depth + 1);
      FieldParts(before, bt, key, vb);
      if ok && |b.Text()| < SIZE_LIMIT && Proper(v) {
        FieldIsLong(before, bt, key, vb);
        NestedIsValue(vb, m);
      }
  }

  method AppendKey(b: Buffer, bt: Byte, key: seq<Byte>)
    requires b.Valid()
    modifies b, b.ptr
    ensures b.Valid() && (b.ptr == old(b.ptr) || fresh(b.ptr)) && b.Text() == old(b.Text()) + [bt] + (key + [0])
  {
    b.Append([bt]);
    b.WriteString(key);
  }

  lemma FieldParts(before: seq<Byte>, bt: Byte, key: seq<Byte>, vb: seq<Byte>)
    ensures before + [bt] + (key + [0]) + vb == before + Field(bt, key + [0], vb)
  {
  }

  lemma FieldIsLong(before: seq<Byte>, bt: Byte, key: seq<Byte>, vb: seq<Byte>)
    ensures |before + Field(bt, key + [0], vb)| > |vb|
  {
  }

  lemma PlainIsValue(bits: Bits, x: bool)
    ensures IsValue(REAL, bits, Number(bits)) && IsValue(BOOLEAN, [if x then 1 else 0], Bool(x))
  {
    assert bits[..8] == bits;
  }

  lemma NestedIsValue(vb: seq<Byte>, m: map<Key, Value>)
    requires DecodeDocument(vb, false) == Some((m, |vb|))
    ensures IsValue(DOCUMENT, vb, Table(m))
  {
    hide DecodeDocument;
  }

  method AppendTagged(b: Buffer, key: seq<Byte>, s: seq<Byte>) returns (ok: bool, ghost bt: Byte, ghost vb: seq<Byte>)
    requires b.Valid() && IsTagged(s) && (s[1] == REGEX ==> RegexShape(s))
    modifies b, b.ptr
    ensures b.Valid() && (b.ptr == old(b.ptr) || fresh(b.ptr))
    ensures ok <==> TaggedEncodable(s)
    ensures bt == s[1]
    ensures ok ==> b.Text() == old(b.Text()) + Field(bt, key + [0], vb)
    ensures ok && |b.Text()| < SIZE_LIMIT && TaggedProper(s) ==> IsValue(bt, vb, Str(s))
  {
    hide LeBytes, LeValue, IsValue, TaggedProper, TailLength, RegexShape, Field;
    ghost var before := b.Text();
    bt, vb := s[1], [];
    AppendKey(b, s[1], key);
    if s[1] == BINARY {
      WriteBinary(b, s[2..]);
    } else if s[1] == OBJECTID {
      if |s| != 14 { return false, bt, vb; }
      b.Append(s[2..]);
    } else if s[1] == JSCODE || s[1] == DBPOINTER || s[1] == SYMBOL || s[1] == CODEWS {
      b.Append(s[2..]);
    } else if s[1] == DATE {
      if |s| != 6 { return false, bt, vb; }
      WriteDate(b, s[2..]);
    } else if s[1] == TIMESTAMP {
      if |s| != 10 { return false, bt, vb; }
      b.Append(s[2..]);
    } else if s[1] == REGEX {
      WriteRegex(b, s);
    } else if s[1] == MINKEY || s[1] == MAXKEY || s[1] == NULL {
      assert b.Text() + [] == b.Text();
    } else {
      return false, bt, vb;
    }
    vb := TaggedBytes(s);
    TaggedField(before, key, s);
    ok := true;
  }

  lemma TaggedField(before: seq<Byte>, key: seq<Byte>, s: seq<Byte>)
    requires IsTagged(s) && TaggedEncodable(s) && (s[1] == REGEX ==> RegexShape(s))
    ensures var text := before + [s[1]] + (key + [0]) + TaggedBytes(s);
            && text == before + Field(s[1], key + [0], TaggedBytes(s))
            && (|text| < SIZE_LIMIT && TaggedProper(s) ==> IsValue(s[1], TaggedBytes(s), Str(s)))
  {
    hide TaggedBytes, TaggedProper, TaggedEncodable, RegexShape, IsValue, Field;
    FieldParts(before, s[1], key, TaggedBytes(s));
    FieldIsLong(before, s[1], key, TaggedBytes(s));
    var text := before + [s[1]] + (key + [0]) + TaggedBytes(s);
    if |text| < SIZE_LIMIT && TaggedProper(s) {
      TaggedIsShort(s);
      TaggedIsValue(s);
    }
  }

  lemma TaggedIsShort(s: seq<Byte>)
    requires IsTagged(s) && TaggedEncodable(s) && (s[1] == REGEX ==> RegexShape(s)) && |TaggedBytes(s)| < SIZE_LIMIT
    ensures s[1] == BINARY ==> |s| < SIZE_LIMIT
  {
  }

  // The zero is counted.
  method WriteText(b: Buffer, s: seq<Byte>)
    requires b.Valid()
    modifies b, b.ptr
    ensures b.Valid() && (b.ptr == old(b.ptr) || fresh(b.ptr)) && b.Text() == old(b.Text()) + StringBytes(s)
  {
    hide LeBytes;
    ghost var before := b.Text();
    var off := b.ReserveLength();
    b.WriteString(s);
    b.WriteLength(|s| + 1, off);
    assert b.Text() == before + StringBytes(s);
  }

  // The subtype is not counted.
  method WriteBinary(b: Buffer, content: seq<Byte>)
    requires b.Valid()
    modifies b, b.ptr
    ensures b.Valid() && (b.ptr == old(b.ptr) || fresh(b.ptr))
    ensures b.Text() == old(b.Text()) + (LeBytes(ToTwos(|content| - 1, U32_MOD), 4) + content)
  {
    hide LeBytes;
    ghost var before := b.Text();
    var length := b.ReserveLength();
    ghost var gap := b.Text()[length..];
    b.Append(content);
    b.WriteLength(|content| - 1, length);
    assert b.Text() == before + (LeBytes(ToTwos(|content| - 1, U32_MOD), 4) + content);
  }

  method WriteDate(b: Buffer, t: seq<Byte>)
    requires b.Valid() && |t| == 4
    modifies b, b.ptr
    ensures b.Valid() && (b.ptr == old(b.ptr) || fresh(b.ptr))
    ensures b.Text() == old(b.Text()) + LeBytes(LeValue(t) * 1000, 8)
  {
    hide LeBytes, LeValue;
    LeBack(t);
    BytePowers();
    b.WriteInt64(LeValue(t) * 1000);
    DivModUnique(LeValue(t) * 1000, U64_MOD, 0, LeValue(t) * 1000);
  }

  // Two strings: what is before the last zero but one, and what is behind it.
  method WriteRegex(b: Buffer, s: seq<Byte>)
    requires b.Valid() && IsTagged(s) && s[1] == REGEX && RegexShape(s) && TaggedEncodable(s)
    modifies b, b.ptr
    ensures b.Valid() && (b.ptr == old(b.ptr) || fresh(b.ptr))
    ensures b.Text() == old(b.Text()) + TaggedBytes(s)
  {
    ghost var before := b.Text();
    hide TailLength, RegexShape, TaggedEncodable;
    var t := s[2..];
    var len := |t| - 1;
    HasZero(s);
    var i := LastZero(t, len);
    b.WriteString(t[..len - i - 1]);
    b.WriteString(t[len - i..len]);
    Joined(before, t[..len - i - 1] + [0], t[len - i..len] + [0]);
  }

  method LastZero(t: seq<Byte>, len: nat) returns (i: nat)
    requires len <= |t|
    ensures i == TailLength(t[..len])
  {
    hide TailLength;
    i := 0;
    while i < len && t[len - i - 1] != 0
      invariant i <= len && TailLength(t[..len]) == i + TailLength(t[..len - i])
    {
      TailStep(t, len - i);
      i := i + 1;
    }
    TailStops(t, len - i);
  }

  lemma TailStep(t: seq<Byte>, n: nat)
    requires 0 < n <= |t| && t[n - 1] != 0
    ensures TailLength(t[..n]) == 1 + TailLength(t[..n - 1])
  {
    assert t[..n][..n - 1] == t[..n - 1];
  }

  lemma TailStops(t: seq<Byte>, n: nat)
    requires n <= |t| && (n == 0 || t[n - 1] == 0)
    ensures TailLength(t[..n]) == 0
  {
  }

  lemma Joined(a: seq<Byte>, b: seq<Byte>, c: seq<Byte>)
    ensures a + b + c == a + (b + c)
  {
  }

  lemma HasZero(s: seq<Byte>)
    requires RegexShape(s)
    ensures var t := s[2..]; TailLength(t[..|t| - 1]) < |t| - 1
  {
    var t := s[2..];
    var j :| 2 <= j < |s| - 1 && s[j] == 0;
    assert t[..|t| - 1][j - 2] == 0;
  }

  // pack_simple_dict: the keys come in any order, the length is written at the end.
  method PackDict(b: Buffer, v: Value, depth: nat) returns (ok: bool, ghost e: seq<Byte>)
    requires b.Valid() && Lua(v) && v.Table?
    modifies b, b.ptr
    ensures b.Valid() && (b.ptr == old(b.ptr) || fresh(b.ptr))
    ensures ok <==> Encodable(v, depth)
    ensures ok ==> b.Text() == old(b.Text()) + e
    ensures ok && |b.Text()| < SIZE_LIMIT && Proper(v) ==> DecodeDocument(e, false) == Some((v.m, |e|))
    decreases v, 0
  {
    hide Lua, Encodable, Proper, DecodeFields, DecodeDocument, LeBytes, Field, IsValue, IsField, Patched, ToTwos, Done;
    e := [];
    EncodableDict(v.m, depth);
    if depth > MAX_DEPTH { return false, e; }
    ghost var before := b.Text();
    var length := b.ReserveLength();
    ghost var head := b.Text();
    ghost var fields: seq<Byte> := [];
    var todo := v.m.Keys;
    NothingDone(v.m);
    assert head + fields == head;
    while todo != {}
      invariant todo <= v.m.Keys && b.Valid() && (b.ptr == old(b.ptr) || fresh(b.ptr))
      invariant b.Text() == head + fields
      invariant forall k | k in v.m && k !in todo :: Encodable(v.m[k], depth + 1)
      invariant |b.Text()| < SIZE_LIMIT && Proper(v) ==> DecodeFields(fields, false) == Some(Done(v.m, todo))
      decreases |todo|
    {
      ghost var was := todo;
      var k :| k in todo;
      todo := todo - {k};
      assert todo + {k} == was;
      LuaEntry(v, k);
      ghost var bt, vb;
      ok, bt, vb := AppendOne(b, k.s, v.m[k], depth);
      if !ok { return false, e; }
      if |b.Text()| < SIZE_LIMIT && Proper(v) {
        ProperField(v, k, bt, vb);
        FieldAdded(fields, bt, k.s + [0], k.s, vb, v.m[k]);
        OneMore(v.m, todo, k);
      }
      Joined(head, fields, Field(bt, k.s + [0], vb));
      fields := fields + Field(bt, k.s + [0], vb);
    }
    b.Append([0]);
    ghost var n := b.size - length;
    b.WriteLength(b.size - length, length);
    ok := true;
    e := LeBytes(ToTwos(|fields| + 5, U32_MOD), 4) + fields + [0];
    LengthPatched(before, head, fields, LeBytes(ToTwos(|fields| + 5, U32_MOD), 4));
    if |b.Text()| < SIZE_LIMIT && Proper(v) {
      AllDone(v.m);
      DocumentIs(fields, v.m);
    }
  }

  // The entries of the keys that are done.
  function Done(m: map<Key, Value>, todo: set<Key>): map<Key, Value> {
    map k | k in m && k !in todo :: m[k]
  }

  lemma NothingDone(m: map<Key, Value>)
    ensures DecodeFields([], false) == Some(Done(m, m.Keys))
  {
  }

  lemma OneMore(m: map<Key, Value>, todo: set<Key>, k: Key)
    requires k in m && k !in todo
    ensures Done(m, todo + {k})[k := m[k]] == Done(m, todo)
  {
  }

  lemma AllDone(m: map<Key, Value>)
    ensures Done(m, {}) == m
  {
  }

  lemma EncodableDict(m: map<Key, Value>, depth: nat)
    ensures Encodable(Table(m), depth) <==> depth <= MAX_DEPTH && forall k | k in m :: Encodable(m[k], depth + 1)
  {
  }

  lemma LuaEntry(v: Value, k: Key)
    requires Lua(v) && v.Table? && k in v.m
    ensures k.Name? && Lua(v.m[k])
  {
  }

  lemma ProperField(v: Value, k: Key, bt: Byte, vb: seq<Byte>)
    requires Proper(v) && v.Table? && k in v.m && k.Name?
    requires Proper(v.m[k]) ==> IsValue(bt, vb, v.m[k])
    ensures IsField(bt, k.s + [0], k.s, vb, v.m[k])
  {
    hide DecodeValue, CString;
    assert k.s + [0] == k.s + ([0] + []);
    CStringIs(k.s, []);
  }

  lemma LengthPatched(before: seq<Byte>, head: seq<Byte>, fields: seq<Byte>, e: seq<Byte>)
    requires |head| == |before| + 4 && head[..|before|] == before && |e| == 4
    ensures Patched(head + fields + [0], |before|, e) == before + (e + fields + [0])
  {
  }

  // No name in a decoded value holds a zero, so a name that does never comes back.
  lemma DecodedValueNames(bt: Byte, t: seq<Byte>)
    requires DecodeValue(bt, t).Some?
    ensures NamesProper(DecodeValue(bt, t).value.0)
    decreases |t|, 1
  {
    hide Length, LeValue, LeBytes, Seconds, FromTwos, CString, DecodeDocument;
    if bt == DOCUMENT || bt == ARRAY {
      DecodedNames(t, bt == ARRAY);
    }
  }

  lemma DecodedNames(t: seq<Byte>, isArray: bool)
    requires DecodeDocument(t, isArray).Some?
    ensures NamesProper(Table(DecodeDocument(t, isArray).value.0))
    decreases |t|, 0
  {
    hide DecodeFields, NamesProper;
    var sz := Length(t, 5, 0).value;
    DecodedFieldNames(t[4..sz - 1], isArray);
  }

  lemma {:induction false} DecodedFieldNames(t: seq<Byte>, isArray: bool)
    requires DecodeFields(t, isArray).Some?
    ensures NamesProper(Table(DecodeFields(t, isArray).value))
    decreases |t|, 0
  {
    hide DecodeValue, CString;
    if t != [] {
      var (key, k) := CString(t[1..]).value;
      var (v, n) := DecodeValue(t[0], t[1 + k..]).value;
      CStringHasNone(t[1..]);
      DecodedValueNames(t[0], t[1 + k..]);
      DecodedFieldNames(t[1 + k + n..], isArray);
      PutNames(FieldKey(key, isArray), v, DecodeFields(t[1 + k + n..], isArray).value);
    }
  }

  lemma PutNames(key: Key, v: Value, m: map<Key, Value>)
    requires (key.Name? ==> NoZero(key.s)) && NamesProper(v) && NamesProper(Table(m))
    ensures NamesProper(Table(map[key := v] + m))
  {
  }

  lemma {:induction false} CStringHasNone(t: seq<Byte>)
    requires CString(t).Some?
    ensures NoZero(CString(t).value.0)
    decreases t
  {
    if t[0] != 0 {
      CStringHasNone(t[1..]);
    }
  }

  // encode_bson.  Below 2^31 bytes, and if tagged strings are what their types ask for, decoding gives
  // the map back exactly where no name at any depth holds a zero; for other tagged strings or sizes, only there.
  method Encode(v: Value) returns (r: Option<seq<Byte>>)
    requires Lua(v) && v.Table?
    ensures r.Some? <==> Encodable(v, 0)
    ensures r.Some? && |r.value| < 0x8000_0000 && TagsProper(v) ==>
              (DecodeDocument(r.value, false) == Some((v.m, |r.value|)) <==> NamesProper(v))
    ensures r.Some? && DecodeDocument(r.value, false) == Some((v.m, |r.value|)) ==> NamesProper(v)
  {
    hide Lua, Encodable, TagsProper, NamesProper, DecodeDocument;
    var b := new Buffer();
    var ok, e := PackDict(b, v, 0);
    if !ok { return None; }
    assert [] + e == e;
    if DecodeDocument(e, false) == Some((v.m, |e|)) {
      DecodedNames(e, false);
    }
    return Some(b.ptr[..b.size]);
  }
}
