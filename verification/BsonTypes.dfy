// What the types of BSON are in numbers, and which keys an array gets (lua_bson.cpp).
module BsonTypes {
  import opened Arith
  import opened Reading
  import opened ByteNumbers
  import opened Decimal
  import opened Doubles
  import opened BsonFormat
  import opened Bson
  import opened BsonEncode

  // ---- values by their types ----

  lemma FixedTypes(t: seq<Byte>)
    ensures DecodeValue(1, t) == if |t| < 8 then None else Some((Number(t[..8]), 8))
    ensures DecodeValue(7, t) == if |t| < 12 then None else Some((Str([0, 7] + t[..12]), 12))
    ensures DecodeValue(8, t) == if |t| < 1 then None else Some((Bool(t[0] != 0), 1))
    ensures DecodeValue(17, t) == if |t| < 8 then None else Some((Str([0, 17] + t[..8]), 8))
  {
    hide Length, CString, DecodeDocument, LeValue, LeBytes, Seconds, FromTwos, Int32At;
  }

  lemma EmptyTypes(t: seq<Byte>)
    ensures DecodeValue(10, t) == Some((Str([0, 10]), 0)) && DecodeValue(127, t) == Some((Str([0, 127]), 0))
    ensures DecodeValue(255, t) == Some((Str([0, 255]), 0))
  {
    hide Length, CString, DecodeDocument, LeValue, LeBytes, Seconds, FromTwos, Int32At;
    assert [0, 10] + [] == [0, 10] && [0, 127] + [] == [0, 127] && [0, 255] + [] == [0, 255];
  }

  lemma UnknownTypes(bt: Byte, t: seq<Byte>)
    requires bt == 0 || bt == 6 || 18 < bt < 127 || 127 < bt < 255
    ensures DecodeValue(bt, t) == None
  {
  }

  lemma DateType(s: seq<Byte>, rest: seq<Byte>)
    requires |s| == 4
    ensures DecodeValue(9, LeBytes(LeValue(s) * 1000, 8) + rest) == Some((Str([0, 9] + s), 8))
  {
    hide DecodeValue, LeBytes, LeValue, Seconds;
    StoredIsRead(9, Str([0, 9] + s));
    assert ([0, 9] + s)[2..] == s;
    TakenWithRest(9, LeBytes(LeValue(s) * 1000, 8), rest);
  }

  // Milliseconds are cut to seconds, towards zero.
  lemma DateRead(x: Int64, rest: seq<Byte>)
    ensures var seconds := if x >= 0 then x / 1000 else -((-(x as int)) / 1000);
            DecodeValue(9, LeBytes(x % 0x1_0000_0000_0000_0000, 8) + rest)
            == Some((Str([0, 9] + LeBytes(seconds % 0x1_0000_0000, 4)), 8))
  {
    hide LeBytes, LeValue;
    var w := x % 0x1_0000_0000_0000_0000;
    LeFits(w, 8);
    assert (LeBytes(w, 8) + rest)[..8] == LeBytes(w, 8);
    TwosRoundTrip(x, U64_MOD);
    DivModUnique(w, U64_MOD, 0, w);
  }

  // Types that Lua gets as they are: a length and what it counts, with the length where it counts itself;
  // a pointer has twelve bytes more.
  lemma BlockTypes(bt: Byte, p: seq<Byte>, rest: seq<Byte>)
    requires |p| + 4 < 0x8000_0000 && 12 <= bt <= 15 && (bt == 12 ==> |p| >= 12)
    ensures var n := if bt == 12 then |p| - 12 else if bt == 15 then |p| + 4 else |p|;
            DecodeValue(bt, LeBytes(n, 4) + p + rest) == Some((Str([0, bt] + (LeBytes(n, 4) + p)), |p| + 4))
  {
    hide DecodeValue, LeBytes, LeValue, Int32At;
    var n := if bt == 12 then |p| - 12 else if bt == 15 then |p| + 4 else |p|;
    LengthRead(n, p);
    BlockIsValue(bt, LeBytes(n, 4) + p);
    TakenWithRest(bt, LeBytes(n, 4) + p, rest);
  }

  lemma LengthRead(n: nat, p: seq<Byte>)
    requires n < 0x8000_0000
    ensures Int32At(LeBytes(n, 4) + p) == n
  {
    hide LeBytes, LeValue;
    LeFits(n, 4);
    assert (LeBytes(n, 4) + p)[..4] == LeBytes(n, 4);
  }

  lemma RegexType(a: seq<Byte>, b: seq<Byte>, rest: seq<Byte>)
    requires NoZero(a) && NoZero(b)
    ensures var t := a + [0] + (b + [0]); DecodeValue(11, t + rest) == Some((Str([0, 11] + t), |t|))
  {
    hide DecodeValue, NoZero;
    TwoStrings(a, b);
    TakenWithRest(11, a + [0] + (b + [0]), rest);
  }

  lemma IntegerTypes(i: Int64, rest: seq<Byte>)
    ensures -0x8000_0000 <= i < 0x8000_0000 ==>
              DecodeValue(16, LeBytes(i % 0x1_0000_0000, 4) + rest) == Some((Integer(i), 4))
    ensures DecodeValue(18, LeBytes(i % 0x1_0000_0000_0000_0000, 8) + rest) == Some((Integer(i), 8))
  {
    hide DecodeValue, LeBytes;
    IntegerIsValue(i);
    TakenWithRest(16, LeBytes(i % 0x1_0000_0000, 4), rest);
    TakenWithRest(18, LeBytes(i % 0x1_0000_0000_0000_0000, 8), rest);
  }

  // A value is read alike whatever follows it.
  lemma TakenWithRest(bt: Byte, e: seq<Byte>, rest: seq<Byte>)
    ensures DecodeValue(bt, e).Some? && DecodeValue(bt, e).value.1 == |e| ==>
              DecodeValue(bt, e + rest) == DecodeValue(bt, e)
  {
    hide DecodeValue;
    if DecodeValue(bt, e).Some? && DecodeValue(bt, e).value.1 == |e| {
      assert (e + rest)[..|e|] == e == e[..|e|];
      ValueLocal(bt, e, e + rest);
    }
  }

  // Text, with its length and a zero, which are counted.
  lemma TextType(s: seq<Byte>, rest: seq<Byte>)
    requires |s| + 1 < 0x8000_0000
    ensures DecodeValue(2, LeBytes(|s| + 1, 4) + (s + [0]) + rest) == Some((Str(s), |s| + 5))
  {
    hide DecodeValue, LeBytes;
    DivModUnique(|s| + 1, U32_MOD, 0, |s| + 1);
    StringIsValue(s);
    TakenWithRest(2, StringBytes(s), rest);
  }

  lemma DocumentTypes(t: seq<Byte>)
    ensures DecodeValue(3, t).Some? <==> DecodeDocument(t, false).Some?
    ensures DecodeValue(4, t).Some? <==> DecodeDocument(t, true).Some?
    ensures var r := DecodeDocument(t, false); r.Some? ==> DecodeValue(3, t) == Some((Table(r.value.0), r.value.1))
    ensures var r := DecodeDocument(t, true); r.Some? ==> DecodeValue(4, t) == Some((Table(r.value.0), r.value.1))
  {
    hide DecodeDocument;
  }

  // A document has its length ahead and a zero at its end, with the fields between them.
  lemma DocumentFrame(t: seq<Byte>, isArray: bool)
    requires DecodeDocument(t, isArray).Some?
    ensures var (m, n) := DecodeDocument(t, isArray).value;
            5 <= n <= |t| && Int32At(t) == n && t[n - 1] == 0 && DecodeFields(t[4..n - 1], isArray) == Some(m)
  {
    hide DecodeFields, Int32At;
  }

  // Binary data has a subtype ahead, which is not counted.
  lemma BinaryType(p: seq<Byte>, rest: seq<Byte>)
    requires 0 < |p| < 0x7FFF_FFFE
    ensures DecodeValue(5, LeBytes(|p| - 1, 4) + p + rest) == Some((Str([0, 5] + p), |p| + 4))
  {
    hide DecodeValue, LeBytes, TaggedBytes, RegexShape;
    DivModUnique(|p| - 1, U32_MOD, 0, |p| - 1);
    var s := [0, 5] + p;
    assert s[2..] == p;
    BinaryBytes(s);
    TaggedIsValue(s);
    TakenWithRest(5, TaggedBytes(s), rest);
  }

  lemma BinaryBytes(s: seq<Byte>)
    requires |s| > 2 && s[0] == 0 && s[1] == 5
    ensures IsTagged(s) && TaggedEncodable(s) && TaggedProper(s) && s[1] != REGEX
    ensures TaggedBytes(s) == LeBytes(ToTwos(|s| - 3, U32_MOD), 4) + s[2..]
  {
    hide LeBytes, LeValue, TailLength;
  }

  // ---- which fields can be replaced, and by what ----

  lemma ReplaceableTypes(bt: Byte)
    ensures FieldSize(bt) == if bt == 1 || bt == 9 || bt == 17 || bt == 18 then 8
                             else if bt == 8 then 1 else if bt == 7 then 12 else if bt == 16 then 4 else 0
  {
  }

  lemma ReplacedBy(bt: Byte, arg: Value, fromText: seq<Byte> -> Option<Bits>)
    ensures ReplaceBytes(bt, Argument(bt, arg, fromText)).Some? <==>
              || bt == 8
              || ((bt == 16 || bt == 18) && arg.Integer?)
              || (bt == 1 && (arg.Number? || arg.Integer? || (arg.Str? && fromText(arg.s).Some?)))
              || ((bt == 7 || bt == 9 || bt == 17) && arg.Str?
                  && |arg.s| == (if bt == 7 then 14 else if bt == 9 then 6 else 10) && arg.s[0] == 0 && arg.s[1] == bt)
  {
    hide LeBytes, LeValue;
  }

  // ---- nesting ----

  // n documents, one inside the other.
  function Nested(n: nat): Value
    requires n > 0
  {
    Table(if n == 1 then map[] else map[Name([97]) := Nested(n - 1)])
  }

  lemma {:induction false} NestingLimit(n: nat, depth: nat)
    requires n > 0
    ensures Encodable(Nested(n), depth) <==> depth + n <= 129
  {
    var m := Nested(n).m;
    EncodableDict(m, depth);
    if n > 1 {
      NestingLimit(n - 1, depth + 1);
      assert m[Name([97])] == Nested(n - 1);
    }
    hide Encodable, Nested;
  }

  // ---- arrays ----

  lemma {:induction false} DigitsOnto(s: seq<Byte>, t: seq<Byte>, acc: nat)
    requires forall i :: 0 <= i < |s| ==> 48 <= s[i] <= 57
    ensures BsonFormat.Digits(s + t, acc) == BsonFormat.Digits(t, BsonFormat.Digits(s, acc))
  {
    if s == [] {
      assert s + t == t;
    } else {
      assert (s + t)[1..] == s[1..] + t;
      DigitsOnto(s[1..], t, 10 * acc + (s[0] - 48));
    }
  }

  lemma {:induction false} DigitsBack(n: nat)
    ensures BsonFormat.Digits(NatText(n), 0) == n
  {
    if n >= 10 {
      DigitsBack(n / 10);
      DigitsOnto(NatText(n / 10), [48 + n % 10], 0);
    }
  }

  // The name of an item is its place from 0, and Lua counts from 1, in 32 bits; strtol stops at its limits.
  lemma AnyIndexOf(n: nat)
    ensures var index := if n < 0x7FFF_FFFF_FFFF_FFFF then n + 1 else 0x8000_0000_0000_0000;
            ArrayIndex(NatText(n)) == FromTwos(index % 0x1_0000_0000, 0x1_0000_0000)
    ensures n <= 0x8000_0000_0000_0000 ==>
              ArrayIndex([45] + NatText(n)) == FromTwos((1 - n) % 0x1_0000_0000, 0x1_0000_0000)
  {
    hide NatText;
    DigitsBack(n);
    assert ([45] + NatText(n))[1..] == NatText(n);
  }

  lemma ArrayIndexOf(i: nat)
    ensures i < 0x7FFF_FFFF ==> ArrayIndex(NatText(i)) == i + 1
  {
    hide NatText, ArrayIndex;
    AnyIndexOf(i);
    if i < 0x7FFF_FFFF {
      TwosRoundTrip(i + 1, U32_MOD);
    }
  }

  // A field of an array: its type, its bytes and its value.
  datatype Item = Item(bt: Byte, bytes: seq<Byte>, value: Value)

  ghost predicate IsItem(x: Item) {
    DecodeValue(x.bt, x.bytes) == Some((x.value, |x.bytes|))
  }

  // Items named by their places from i on.
  function ItemFields(items: seq<Item>, i: nat): seq<Byte>
    decreases |items|
  {
    if items == [] then [] else [items[0].bt] + (NatText(i) + [0]) + items[0].bytes + ItemFields(items[1..], i + 1)
  }

  // The keys are i + 1 to i + n, each with the value of its item.
  ghost predicate IsArray(m: map<Key, Value>, items: seq<Item>, i: nat) {
    && (forall k :: k in m <==> k.Index? && i < k.i <= i + |items|)
    && forall j :: 0 <= j < |items| ==> Index(i + 1 + j) in m && m[Index(i + 1 + j)] == items[j].value
  }

  lemma {:induction false} ArrayFields(items: seq<Item>, i: nat)
    requires (forall j :: 0 <= j < |items| ==> IsItem(items[j])) && i + |items| <= 0x7FFF_FFFF
    ensures DecodeFields(ItemFields(items, i), true).Some?
    ensures IsArray(DecodeFields(ItemFields(items, i), true).value, items, i)
    decreases |items|
  {
    hide *;
    if items == [] {
      NoItems(items, i);
    } else {
      ArrayFields(items[1..], i + 1);
      FirstItem(items, i);
      AddItem(items, i, DecodeFields(ItemFields(items[1..], i + 1), true).value);
      PutParts(Index(i + 1), items[0].value, DecodeFields(ItemFields(items[1..], i + 1), true));
    }
  }

  lemma NoItems(items: seq<Item>, i: nat)
    requires items == []
    ensures DecodeFields(ItemFields(items, i), true) == Some(map[]) && IsArray(map[], items, i)
  {
  }

  lemma FirstItem(items: seq<Item>, i: nat)
    requires items != [] && IsItem(items[0]) && i < 0x7FFF_FFFF
    ensures DecodeFields(ItemFields(items, i), true)
         == Put(Index(i + 1), items[0].value, DecodeFields(ItemFields(items[1..], i + 1), true))
  {
    hide CString, DecodeValue, NatText, ArrayIndex, Put, Field, DecodeFields;
    var x, rest := items[0], ItemFields(items[1..], i + 1);
    NameRead(i);
    ArrayIndexOf(i);
    FieldInside(x.bt, NatText(i) + [0], NatText(i), x.bytes, x.value, rest);
    ItemIsField(x, i);
    FieldUnfolds(Field(x.bt, NatText(i) + [0], x.bytes) + rest, NatText(i), |NatText(i)| + 1, x.value, |x.bytes|, rest);
  }

  lemma ItemIsField(x: Item, i: nat)
    ensures Field(x.bt, NatText(i) + [0], x.bytes) == [x.bt] + (NatText(i) + [0]) + x.bytes
  {
  }

  lemma FieldUnfolds(t: seq<Byte>, key: seq<Byte>, k: nat, v: Value, n: nat, rest: seq<Byte>)
    requires t != [] && CString(t[1..]) == Some((key, k)) && 1 + k + n <= |t| && t[1 + k + n..] == rest
    requires DecodeValue(t[0], t[1 + k..]) == Some((v, n))
    ensures DecodeFields(t, true) == Put(Index(ArrayIndex(key)), v, DecodeFields(rest, true))
  {
    hide CString, DecodeValue, ArrayIndex, Put;
  }

  lemma NameRead(i: nat)
    ensures CString(NatText(i) + [0]) == Some((NatText(i), |NatText(i)| + 1))
  {
    hide NatText, CString;
    CStringIs(NatText(i), []);
    assert NatText(i) + [0] == NatText(i) + ([0] + []);
  }

  lemma AddItem(items: seq<Item>, i: nat, m: map<Key, Value>)
    requires items != [] && IsArray(m, items[1..], i + 1)
    ensures IsArray(map[Index(i + 1) := items[0].value] + m, items, i)
  {
    var r := map[Index(i + 1) := items[0].value] + m;
    forall j | 0 <= j < |items|
      ensures Index(i + 1 + j) in r && r[Index(i + 1 + j)] == items[j].value
    {
      if j > 0 {
        assert items[j] == items[1..][j - 1] && Index(i + 2 + (j - 1)) in m;
      }
    }
  }

  // An array document: its length, fields named "0", "1" and so on, and a zero.
  lemma ArrayDocument(items: seq<Item>)
    requires (forall j :: 0 <= j < |items| ==> IsItem(items[j])) && |ItemFields(items, 0)| + 5 < 0x8000_0000
    ensures var fields := ItemFields(items, 0);
            var t := LeBytes(|fields| + 5, 4) + fields + [0];
            && DecodeDocument(t, true).Some? && DecodeDocument(t, true).value.1 == |t|
            && IsArray(DecodeDocument(t, true).value.0, items, 0)
  {
    hide LeBytes, LeValue, DecodeFields, IsArray, ItemFields;
    var fields := ItemFields(items, 0);
    ItemsAreLong(items, 0);
    ArrayFields(items, 0);
    var e := LeBytes(|fields| + 5, 4);
    var t := e + fields + [0];
    LeFits(|fields| + 5, 4);
    assert t[..4] == e && t[4..|t| - 1] == fields;
  }

  lemma {:induction false} ItemsAreLong(items: seq<Item>, i: nat)
    ensures |ItemFields(items, i)| >= |items|
    decreases |items|
  {
    if items != [] {
      ItemsAreLong(items[1..], i + 1);
    }
  }
}
