// lua_bson.cpp: decoding a document, indexing its fields of fixed size, and replacing one of them
// in place.
module Bson {
  import opened Arith
  import opened Reading
  import opened ByteNumbers
  import opened Doubles
  import opened BsonFormat

  // ---- a document as fields ----

  // The bytes of one field: its type, its key with a zero byte, its value.
  function Field(bt: Byte, kb: seq<Byte>, vb: seq<Byte>): (h: seq<Byte>)
    ensures |h| == 1 + |kb| + |vb|
  {
    [bt] + kb + vb
  }

  // kb is a key with its zero byte, vb a value of type bt.
  ghost predicate IsField(bt: Byte, kb: seq<Byte>, key: seq<Byte>, vb: seq<Byte>, v: Value) {
    CString(kb) == Some((key, |kb|)) && DecodeValue(bt, vb) == Some((v, |vb|))
  }

  lemma FieldInside(bt: Byte, kb: seq<Byte>, key: seq<Byte>, vb: seq<Byte>, v: Value, rest: seq<Byte>)
    requires IsField(bt, kb, key, vb, v)
    ensures var t := Field(bt, kb, vb) + rest;
            && t[0] == bt && CString(t[1..]) == Some((key, |kb|))
            && DecodeValue(bt, t[1 + |kb|..]) == Some((v, |vb|)) && t[1 + |kb| + |vb|..] == rest
  {
    hide CString, DecodeValue;
    var t := Field(bt, kb, vb) + rest;
    assert t[1..] == kb + (vb + rest) && t[1 + |kb|..] == vb + rest;
    assert (kb + (vb + rest))[..|kb|] == kb == kb[..|kb|];
    CStringLocal(kb, kb + (vb + rest));
    assert (vb + rest)[..|vb|] == vb == vb[..|vb|];
    ValueLocal(bt, vb, vb + rest);
  }

  lemma FieldsOf(bt: Byte, kb: seq<Byte>, key: seq<Byte>, vb: seq<Byte>, v: Value, rest: seq<Byte>)
    requires IsField(bt, kb, key, vb, v)
    ensures DecodeFields(Field(bt, kb, vb) + rest, false) == Put(Name(key), v, DecodeFields(rest, false))
  {
    FieldInside(bt, kb, key, vb, v, rest);
    hide CString, DecodeValue, Put, Field, IsField;
  }

  lemma IndexOf(bt: Byte, kb: seq<Byte>, key: seq<Byte>, vb: seq<Byte>, v: Value, rest: seq<Byte>, offset: nat)
    requires IsField(bt, kb, key, vb, v)
    ensures IndexFields(Field(bt, kb, vb) + rest, offset) ==
            AddEntry(key, bt, offset + 1 + |kb|, IndexFields(rest, offset + 1 + |kb| + |vb|))
    ensures FieldSize(bt) > 0 ==> FieldSize(bt) == |vb|
  {
    hide *;
    FieldInside(bt, kb, key, vb, v, rest);
    var t := Field(bt, kb, vb) + rest;
    SameLength(bt, t[1 + |kb|..]);
    SizeOfField(bt, t[1 + |kb|..], |vb|);
    IndexUnfold(t, offset, key, |kb|, |vb|, rest);
  }

  lemma IndexUnfold(t: seq<Byte>, offset: nat, key: seq<Byte>, k: nat, n: nat, rest: seq<Byte>)
    requires t != [] && CString(t[1..]) == Some((key, k)) && 1 + k + n <= |t| && t[1 + k + n..] == rest
    requires SkipValue(t[0], t[1 + k..]) == Some(n)
    ensures IndexFields(t, offset) == AddEntry(key, t[0], offset + 1 + k, IndexFields(rest, offset + 1 + k + n))
  {
    hide CString, SkipValue, AddEntry;
  }

  lemma SizeOfField(bt: Byte, t: seq<Byte>, n: nat)
    requires SkipValue(bt, t) == Some(n)
    ensures FieldSize(bt) > 0 ==> FieldSize(bt) == n
  {
  }

  // Fields that can be decoded start with one.
  lemma FirstField(t: seq<Byte>)
    returns (bt: Byte, kb: seq<Byte>, key: seq<Byte>, vb: seq<Byte>, v: Value, rest: seq<Byte>)
    requires t != [] && DecodeFields(t, false).Some?
    ensures IsField(bt, kb, key, vb, v) && t == Field(bt, kb, vb) + rest && DecodeFields(rest, false).Some?
  {
    hide CString, DecodeValue;
    bt := t[0];
    var k := CString(t[1..]).value.1;
    key := CString(t[1..]).value.0;
    v := DecodeValue(bt, t[1 + k..]).value.0;
    var n := DecodeValue(bt, t[1 + k..]).value.1;
    kb, vb, rest := t[1..][..k], t[1 + k..][..n], t[1 + k + n..];
    assert kb[..k] == kb && vb[..n] == vb;
    CStringLocal(t[1..], kb);
    ValueLocal(bt, t[1 + k..], vb);
  }

  // A document that can be decoded can be indexed, along the same boundaries.
  lemma {:induction false} DecodableIsIndexable(t: seq<Byte>, offset: nat)
    requires DecodeFields(t, false).Some?
    ensures IndexFields(t, offset).Some?
    decreases |t|
  {
    hide *;
    if t == [] {
      NoEntries(offset);
    } else {
      var bt, kb, key, vb, v, rest := FirstField(t);
      IndexOf(bt, kb, key, vb, v, rest, offset);
      DecodableIsIndexable(rest, offset + 1 + |kb| + |vb|);
      EntryParts(key, bt, offset + 1 + |kb|, IndexFields(rest, offset + 1 + |kb| + |vb|));
    }
  }

  lemma NoEntries(offset: nat)
    ensures IndexFields([], offset) == Some(map[])
  {
  }

  lemma EntryParts(key: seq<Byte>, bt: Byte, offset: nat, rest: Option<map<seq<Byte>, Entry>>)
    ensures var r := AddEntry(key, bt, offset, rest);
            && r.Some? == rest.Some?
            && (r.Some? ==> forall x :: x in rest.value ==> x in r.value && r.value[x] == rest.value[x])
            && (r.Some? ==> forall x :: x in r.value && x !in rest.value ==>
                                          x == key && FieldSize(bt) > 0 && r.value[x] == Entry(bt, offset))
  {
    hide FieldSize;
  }

  // ---- replacing bytes replaces one entry ----

  // t with patch from o on.
  function Patched(t: seq<Byte>, o: nat, patch: seq<Byte>): (u: seq<Byte>)
    requires o + |patch| <= |t|
    ensures |u| == |t|
  {
    t[..o] + patch + t[o + |patch|..]
  }

  // What the patched fields decode to.  The index knows the last field of a key that has a fixed
  // size: only a later field with that key, of another size, can hide the new value.
  ghost predicate Updated(t: seq<Byte>, o: nat, key: seq<Byte>, patch: seq<Byte>, v: Value)
    requires o + |patch| <= |t| && DecodeFields(t, false).Some?
  {
    && DecodeFields(t[o + |patch|..], false).Some?
    && var m := DecodeFields(t, false).value;
       DecodeFields(Patched(t, o, patch), false) ==
       Some(if Name(key) in DecodeFields(t[o + |patch|..], false).value then m else m[Name(key) := v])
  }

  lemma {:induction false} PatchFields(t: seq<Byte>, offset: nat, key: seq<Byte>, patch: seq<Byte>, v: Value)
    requires DecodeFields(t, false).Some? && IndexFields(t, offset).Some? && key in IndexFields(t, offset).value
    requires var e := IndexFields(t, offset).value[key];
             DecodeValue(e.bt, patch) == Some((v, |patch|)) && |patch| == FieldSize(e.bt)
    ensures var e := IndexFields(t, offset).value[key];
            e.offset >= offset && e.offset - offset + |patch| <= |t| && Updated(t, e.offset - offset, key, patch, v)
    decreases |t|
  {
    hide *;
    HasFields(t, offset, key);
    var bt, kb, key0, vb, v0, rest := FirstField(t);
    IndexOf(bt, kb, key0, vb, v0, rest, offset);
    var next := offset + 1 + |kb| + |vb|;
    EntryParts(key0, bt, offset + 1 + |kb|, IndexFields(rest, next));
    if key in IndexFields(rest, next).value {
      PatchFields(rest, next, key, patch, v);
      PatchLater(bt, kb, key0, vb, v0, rest, IndexFields(rest, next).value[key].offset - next, key, patch, v);
    } else {
      PatchHere(bt, kb, key, vb, v0, rest, patch, v);
    }
  }

  lemma HasFields(t: seq<Byte>, offset: nat, key: seq<Byte>)
    requires IndexFields(t, offset).Some? && key in IndexFields(t, offset).value
    ensures t != []
  {
  }

  // The first field is the one.
  lemma PatchHere(bt: Byte, kb: seq<Byte>, key: seq<Byte>, vb: seq<Byte>, v0: Value, rest: seq<Byte>,
                  patch: seq<Byte>, v: Value)
    requires IsField(bt, kb, key, vb, v0) && DecodeFields(rest, false).Some? && |patch| == |vb|
    requires DecodeValue(bt, patch) == Some((v, |patch|)) && DecodeFields(Field(bt, kb, vb) + rest, false).Some?
    ensures Updated(Field(bt, kb, vb) + rest, 1 + |kb|, key, patch, v)
  {
    hide *;
    var m := DecodeFields(rest, false).value;
    FieldsOf(bt, kb, key, vb, v0, rest);
    OtherValue(bt, kb, key, vb, v0, patch, v);
    FieldsOf(bt, kb, key, patch, v, rest);
    PutParts(Name(key), v0, DecodeFields(rest, false));
    HereMaps(Name(key), v0, v, m);
    PatchedHere(bt, kb, vb, rest, patch);
    UpdatedFrom(Field(bt, kb, vb) + rest, 1 + |kb|, key, patch, v, map[Name(key) := v0] + m, m);
  }

  lemma OtherValue(bt: Byte, kb: seq<Byte>, key: seq<Byte>, vb: seq<Byte>, v0: Value, patch: seq<Byte>, v: Value)
    requires IsField(bt, kb, key, vb, v0) && DecodeValue(bt, patch) == Some((v, |patch|))
    ensures IsField(bt, kb, key, patch, v)
  {
  }

  lemma PatchedHere(bt: Byte, kb: seq<Byte>, vb: seq<Byte>, rest: seq<Byte>, patch: seq<Byte>)
    requires |patch| == |vb|
    ensures var t := Field(bt, kb, vb) + rest;
            Patched(t, 1 + |kb|, patch) == Field(bt, kb, patch) + rest && t[1 + |kb| + |patch|..] == rest
  {
  }

  lemma PutParts(key: Key, v: Value, rest: Option<map<Key, Value>>)
    ensures Put(key, v, rest).Some? == rest.Some?
    ensures rest.Some? ==> Put(key, v, rest).value == map[key := v] + rest.value
  {
  }

  lemma HereMaps(key: Key, v0: Value, v: Value, m: map<Key, Value>)
    ensures key in m ==> Put(key, v, Some(m)) == Some(map[key := v0] + m)
    ensures key !in m ==> Put(key, v, Some(m)) == Some((map[key := v0] + m)[key := v])
  {
    if key in m {
      assert map[key := v] + m == map[key := v0] + m;
    } else {
      assert map[key := v] + m == (map[key := v0] + m)[key := v];
    }
  }

  // The field is further on, at o from behind the first.
  lemma PatchLater(bt: Byte, kb: seq<Byte>, key0: seq<Byte>, vb: seq<Byte>, v0: Value, rest: seq<Byte>,
                   o: nat, key: seq<Byte>, patch: seq<Byte>, v: Value)
    requires IsField(bt, kb, key0, vb, v0) && DecodeFields(rest, false).Some?
    requires o + |patch| <= |rest| && Updated(rest, o, key, patch, v)
             && DecodeFields(Field(bt, kb, vb) + rest, false).Some?
    ensures Updated(Field(bt, kb, vb) + rest, 1 + |kb| + |vb| + o, key, patch, v)
  {
    hide *;
    var m, later := UpdatedParts(rest, o, key, patch, v);
    FieldsOf(bt, kb, key0, vb, v0, rest);
    FieldsOf(bt, kb, key0, vb, v0, Patched(rest, o, patch));
    PutParts(Name(key0), v0, DecodeFields(rest, false));
    PutParts(Name(key0), v0, DecodeFields(Patched(rest, o, patch), false));
    LaterMaps(Name(key0), v0, m, Name(key), v);
    PatchedLater(Field(bt, kb, vb), rest, o, patch);
    UpdatedFrom(Field(bt, kb, vb) + rest, 1 + |kb| + |vb| + o, key, patch, v, map[Name(key0) := v0] + m, later);
  }

  lemma PatchedLater(h: seq<Byte>, rest: seq<Byte>, o: nat, patch: seq<Byte>)
    requires o + |patch| <= |rest|
    ensures Patched(h + rest, |h| + o, patch) == h + Patched(rest, o, patch)
    ensures (h + rest)[|h| + o + |patch|..] == rest[o + |patch|..]
  {
  }

  lemma LaterMaps(key0: Key, v0: Value, m: map<Key, Value>, key: Key, v: Value)
    ensures map[key0 := v0] + m[key := v] == (map[key0 := v0] + m)[key := v]
  {
  }

  lemma UpdatedParts(t: seq<Byte>, o: nat, key: seq<Byte>, patch: seq<Byte>, v: Value)
      returns (m: map<Key, Value>, later: map<Key, Value>)
    requires o + |patch| <= |t| && DecodeFields(t, false).Some? && Updated(t, o, key, patch, v)
    ensures DecodeFields(t, false) == Some(m) && DecodeFields(t[o + |patch|..], false) == Some(later)
    ensures DecodeFields(Patched(t, o, patch), false) == Some(if Name(key) in later then m else m[Name(key) := v])
  {
    hide DecodeFields, Patched;
    m, later := DecodeFields(t, false).value, DecodeFields(t[o + |patch|..], false).value;
  }

  lemma UpdatedFrom(t: seq<Byte>, o: nat, key: seq<Byte>, patch: seq<Byte>, v: Value,
                    m: map<Key, Value>, later: map<Key, Value>)
    requires o + |patch| <= |t|
    requires DecodeFields(t, false) == Some(m) && DecodeFields(t[o + |patch|..], false) == Some(later)
    requires DecodeFields(Patched(t, o, patch), false) == Some(if Name(key) in later then m else m[Name(key) := v])
    ensures Updated(t, o, key, patch, v)
  {
    hide DecodeFields, Patched;
  }

  // ---- what lreplace writes ----

  // What an argument becomes for a field of type bt: luaL_checknumber takes integers and strings for
  // doubles.  What lua_stringtonumber makes of a string is a parameter.
  function Argument(bt: Byte, arg: Value, fromText: seq<Byte> -> Option<Bits>): Value {
    if bt != REAL then arg
    else match arg
      case Integer(i) => Number(LeBytes(FromInteger(i), 8))
      case Str(s) => if fromText(s).Some? then Number(fromText(s).value) else arg
      case _ => arg
  }

  // The bytes for a new value; None for a type that does not fit.
  function ReplaceBytes(bt: Byte, arg: Value): (r: Option<seq<Byte>>)
    ensures r.Some? ==> |r.value| == FieldSize(bt)
  {
    if bt == REAL then (if arg.Number? then Some(arg.bits) else None)
    else if bt == BOOLEAN then Some([if arg == Bool(false) then 0 else 1])
    else if bt == OBJECTID then (if IsObject(bt, arg) && |arg.s| == 14 then Some(arg.s[2..]) else None)
    else if bt == DATE then
      (if IsObject(bt, arg) && |arg.s| == 6 then Some(LeBytes(LeValue(arg.s[2..]) * 1000, 8)) else None)
    else if bt == TIMESTAMP then (if IsObject(bt, arg) && |arg.s| == 10 then Some(arg.s[2..]) else None)
    else if bt == INT32 then (if arg.Integer? then Some(LeBytes(ToTwos(arg.i, U32_MOD), 4)) else None)
    else if bt == INT64 then (if arg.Integer? then Some(LeBytes(ToTwos(arg.i, U64_MOD), 8)) else None)
    else None
  }

  predicate IsObject(bt: Byte, arg: Value) {
    arg.Str? && |arg.s| >= 6 && arg.s[0] == 0 && arg.s[1] == bt
  }

  // The value that is then read: an integer is cut to 32 bits without a check, and anything but
  // false is true.
  function Stored(bt: Byte, arg: Value): Value {
    if bt == BOOLEAN then Bool(arg != Bool(false))
    else if bt == INT32 && arg.Integer? then Integer(FromTwos(ToTwos(arg.i, U32_MOD), U32_MOD))
    else arg
  }

  lemma StoredIsRead(bt: Byte, arg: Value)
    requires ReplaceBytes(bt, arg).Some?
    ensures DecodeValue(bt, ReplaceBytes(bt, arg).value) == Some((Stored(bt, arg), FieldSize(bt)))
  {
    hide LeBytes, LeValue, DecodeDocument, Seconds;
    var e := ReplaceBytes(bt, arg).value;
    assert e[..|e|] == e;
    if bt == OBJECTID || bt == TIMESTAMP {
      ObjectAgain(bt, arg);
    } else if bt == DATE {
      ObjectAgain(bt, arg);
      DateIsRead(arg.s[2..]);
    } else if bt == INT32 {
      LeFits(ToTwos(arg.i, U32_MOD), 4);
    } else if bt == INT64 {
      LeFits(ToTwos(arg.i, U64_MOD), 8);
      TwosRoundTrip(arg.i, U64_MOD);
    }
  }

  lemma ObjectAgain(bt: Byte, arg: Value)
    requires IsObject(bt, arg)
    ensures Object(bt, arg.s[2..]) == arg
  {
    assert [0, bt] + arg.s[2..] == arg.s;
  }

  // Seconds are stored as milliseconds.
  lemma DateIsRead(s: seq<Byte>)
    requires |s| == 4
    ensures var e := LeBytes(LeValue(s) * 1000, 8);
            LeBytes(Seconds(FromTwos(LeValue(e[..8]) % U64_MOD, U64_MOD)), 4) == s
  {
    hide LeBytes, LeValue;
    BytePowers();
    LeBack(s);
    var x := LeValue(s);
    var e := LeBytes(x * 1000, 8);
    assert e[..8] == e;
    LeFits(x * 1000, 8);
    assert FromTwos(x * 1000 % U64_MOD, U64_MOD) == x * 1000;
    assert Seconds(x * 1000) == x;
  }

  lemma StoredInteger(bt: Byte, arg: Value)
    requires ReplaceBytes(bt, arg).Some?
    ensures Stored(bt, arg) == arg <==>
            (bt == INT32 ==> -0x8000_0000 <= arg.i < 0x8000_0000) && (bt == BOOLEAN ==> arg.Bool?)
  {
    if bt == INT32 {
      TwosRoundTrip(arg.i, U32_MOD);
    }
  }

  // As Lua compares values: a float can equal an integer.
  ghost predicate SameValue(x: Value, y: Value) {
    x == y || (x.Number? && y.Integer? && var w := LeValue(x.bits) % U64_MOD; Denotes(w / U32_MOD, w % U32_MOD, y.i))
  }

  // What has been stored is the argument exactly where an integer fits the 32 bits or the double of
  // its field, and a boolean and a double are one.
  lemma StoredIff(bt: Byte, arg: Value, fromText: seq<Byte> -> Option<Bits>)
    requires ReplaceBytes(bt, Argument(bt, arg, fromText)).Some?
    ensures SameValue(Stored(bt, Argument(bt, arg, fromText)), arg) <==>
            && (bt == INT32 ==> -0x8000_0000 <= arg.i < 0x8000_0000)
            && (bt == BOOLEAN ==> arg.Bool?)
            && (bt == REAL ==> arg.Number? || (arg.Integer? && FitsDouble(arg.i)))
  {
    hide LeBytes, LeValue, FitsDouble, Denotes, FromInteger;
    StoredInteger(bt, Argument(bt, arg, fromText));
    if bt == REAL && arg.Integer? {
      BytePowers();
      LeRoundTrip(FromInteger(arg.i), 8);
      DivModUnique(FromInteger(arg.i), U64_MOD, 0, FromInteger(arg.i));
      ConvertedIff(arg.i);
    }
  }

  // ---- index entries in one integer ----

  const TYPE_SHIFT: nat := 5

  // bt | offset << 5
  function EntryId(e: Entry): nat {
    BitOr(e.offset * Pow(2, TYPE_SHIFT), e.bt)
  }

  lemma EntryIdBack(e: Entry)
    requires e.bt < 32 && e.offset < 0x400_0000
    ensures EntryId(e) < 0x8000_0000 && EntryId(e) % 32 == e.bt && EntryId(e) / 32 == e.offset
  {
    hide BitOr;
    assert Pow(2, 5) == 32;
    BitOrDisjoint(e.offset, 5, e.bt);
  }

  // Every entry is a field of a fixed size within the document.
  lemma {:induction false} EntriesFit(t: seq<Byte>, offset: nat, key: seq<Byte>)
    requires DecodeFields(t, false).Some? && IndexFields(t, offset).Some? && key in IndexFields(t, offset).value
    ensures var e := IndexFields(t, offset).value[key];
            0 < FieldSize(e.bt) && offset <= e.offset && e.offset + FieldSize(e.bt) <= offset + |t|
    decreases |t|
  {
    hide *;
    HasFields(t, offset, key);
    var bt, kb, key0, vb, v0, rest := FirstField(t);
    IndexOf(bt, kb, key0, vb, v0, rest, offset);
    EntryParts(key0, bt, offset + 1 + |kb|, IndexFields(rest, offset + 1 + |kb| + |vb|));
    if key in IndexFields(rest, offset + 1 + |kb| + |vb|).value {
      EntriesFit(rest, offset + 1 + |kb| + |vb|, key);
    }
  }

  // ---- patching keeps the index, and distinct keys hide nothing ----

  lemma {:induction false} PatchKeepsIndex(t: seq<Byte>, offset: nat, key: seq<Byte>, patch: seq<Byte>, v: Value)
    requires DecodeFields(t, false).Some? && IndexFields(t, offset).Some? && key in IndexFields(t, offset).value
    requires var e := IndexFields(t, offset).value[key];
             DecodeValue(e.bt, patch) == Some((v, |patch|)) && |patch| == FieldSize(e.bt)
    ensures var e := IndexFields(t, offset).value[key];
            && e.offset >= offset && e.offset - offset + |patch| <= |t|
            && IndexFields(Patched(t, e.offset - offset, patch), offset) == IndexFields(t, offset)
    decreases |t|
  {
    hide *;
    HasFields(t, offset, key);
    var bt, kb, key0, vb, v0, rest := FirstField(t);
    IndexOf(bt, kb, key0, vb, v0, rest, offset);
    var next := offset + 1 + |kb| + |vb|;
    EntryParts(key0, bt, offset + 1 + |kb|, IndexFields(rest, next));
    if key in IndexFields(rest, next).value {
      PatchKeepsIndex(rest, next, key, patch, v);
      var o := IndexFields(rest, next).value[key].offset - next;
      PatchedLater(Field(bt, kb, vb), rest, o, patch);
      IndexOf(bt, kb, key0, vb, v0, Patched(rest, o, patch), offset);
    } else {
      PatchedHere(bt, kb, vb, rest, patch);
      OtherValue(bt, kb, key, vb, v0, patch, v);
      IndexOf(bt, kb, key, patch, v, rest, offset);
    }
  }

  // No key comes twice.
  ghost predicate DistinctKeys(t: seq<Byte>)
    requires DecodeFields(t, false).Some?
    decreases |t|
  {
    t == [] ||
    var k := CString(t[1..]).value.1;
    var n := DecodeValue(t[0], t[1 + k..]).value.1;
    var rest := t[1 + k + n..];
    Name(CString(t[1..]).value.0) !in DecodeFields(rest, false).value && DistinctKeys(rest)
  }

  lemma DistinctUnfold(bt: Byte, kb: seq<Byte>, key: seq<Byte>, vb: seq<Byte>, v: Value, rest: seq<Byte>)
    requires IsField(bt, kb, key, vb, v)
    requires DecodeFields(Field(bt, kb, vb) + rest, false).Some? && DistinctKeys(Field(bt, kb, vb) + rest)
    ensures DecodeFields(rest, false).Some? && Name(key) !in DecodeFields(rest, false).value && DistinctKeys(rest)
  {
    hide CString, DecodeValue, DecodeFields, Field, Put;
    FieldInside(bt, kb, key, vb, v, rest);
    FieldsOf(bt, kb, key, vb, v, rest);
    PutParts(Name(key), v, DecodeFields(rest, false));
  }

  lemma {:induction false} DistinctLater(t: seq<Byte>, offset: nat, key: seq<Byte>, l: nat)
    requires DecodeFields(t, false).Some? && DistinctKeys(t)
    requires IndexFields(t, offset).Some? && key in IndexFields(t, offset).value
    requires l == FieldSize(IndexFields(t, offset).value[key].bt)
    ensures var o := IndexFields(t, offset).value[key].offset - offset;
            && 0 <= o && o + l <= |t| && DecodeFields(t[o + l..], false).Some?
            && Name(key) !in DecodeFields(t[o + l..], false).value
    decreases |t|
  {
    hide *;
    HasFields(t, offset, key);
    var bt, kb, key0, vb, v0, rest := FirstField(t);
    IndexOf(bt, kb, key0, vb, v0, rest, offset);
    var next := offset + 1 + |kb| + |vb|;
    EntryParts(key0, bt, offset + 1 + |kb|, IndexFields(rest, next));
    DistinctUnfold(bt, kb, key0, vb, v0, rest);
    if key in IndexFields(rest, next).value {
      DistinctLater(rest, next, key, l);
      DropMore(Field(bt, kb, vb), rest, IndexFields(rest, next).value[key].offset - next + l);
    } else {
      DropMore(Field(bt, kb, vb), rest, 0);
      assert rest[0..] == rest;
    }
  }

  lemma DropMore(h: seq<Byte>, rest: seq<Byte>, o: nat)
    requires o <= |rest|
    ensures (h + rest)[|h| + o..] == rest[o..]
  {
  }
}
