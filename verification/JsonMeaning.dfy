// What JSON text means and which tables become JSON, in bytes and numbers (lua_cjson.c).
module JsonMeaning {
  import opened Arith
  import opened Reading
  import opened ByteNumbers
  import opened Decimal
  import opened JsonString
  import opened JsonText
  import opened JsonPieces
  import opened JsonEncode

  // ---- escapes ----

  lemma HexDigits(d: nat)
    requires d < 16
    ensures HexDigit(d) == [48, 49, 50, 51, 52, 53, 54, 55, 56, 57, 97, 98, 99, 100, 101, 102][d]
    ensures HexValue(HexDigit(d)) == Some(d) && (d >= 10 ==> HexValue(HexDigit(d) - 32) == Some(d))
  {
  }

  // \uXXXX
  function UnitEscape(u: nat): (e: seq<Byte>)
    requires u < 0x1_0000
    ensures |e| == 6
  {
    [92, 117, HexDigit(u / 0x1000), HexDigit(u / 0x100 % 16), HexDigit(u / 0x10 % 16), HexDigit(u % 16)]
  }

  lemma UnitValue(u: nat, t: seq<Byte>)
    requires u < 0x1_0000
    ensures Hex4((UnitEscape(u) + t)[2..]) == Some(u)
    ensures (UnitEscape(u) + t)[6..] == t && (UnitEscape(u) + t)[0] == 92 && (UnitEscape(u) + t)[1] == 117
  {
    hide HexDigit, HexValue;
    HexDigits(u / 0x1000);
    HexDigits(u / 0x100 % 16);
    HexDigits(u / 0x10 % 16);
    HexDigits(u % 16);
    FourDigits(u);
  }

  lemma FourDigits(u: nat)
    ensures u == 0x1000 * (u / 0x1000) + 0x100 * (u / 0x100 % 16) + 0x10 * (u / 0x10 % 16) + u % 16
  {
    var a, b, c := u / 0x10, u / 0x100, u / 0x1000;
    assert u == 0x10 * a + u % 0x10;
    assert b == a / 0x10 && c == b / 0x10;
    assert a == 0x10 * b + a % 0x10 && b == 0x10 * c + b % 0x10;
  }

  // A code unit outside the surrogates stands for itself.
  lemma UnitRead(u: nat, t: seq<Byte>)
    requires u < 0x1_0000 && !(0xD800 <= u < 0xE000)
    ensures StringBody(UnitEscape(u) + t) == Cons(Utf8(u), 6, StringBody(t))
  {
    hide StringBody, Hex4, Utf8, UnitEscape;
    UnitValue(u, t);
    BodyUnfolds(UnitEscape(u) + t);
  }

  lemma UnitMeaning(u: nat, rest: seq<Byte>)
    requires u < 0x1_0000 && !(0xD800 <= u < 0xE000)
    ensures var r := StringBody(UnitEscape(u) + ([34] + rest));
            r.Some? && r.value.1 == 7 && 1 <= |r.value.0| <= 4 && FromUtf8(r.value.0) == u
  {
    hide StringBody, Utf8, FromUtf8, UnitEscape;
    UnitRead(u, [34] + rest);
    ClosingQuote(rest);
    Utf8Back(u);
    assert Utf8(u) + [] == Utf8(u);
  }

  // The pair of a code point beyond the first plane, as section 2.1 of RFC 2781 has it.
  lemma ScalarOfPair(c: nat)
    requires 0x1_0000 <= c < 0x11_0000
    ensures var high, low := 0xD800 + (c - 0x1_0000) / 0x400, 0xDC00 + (c - 0x1_0000) % 0x400;
            IsHigh(high) && IsLow(low) && Scalar(high, low) == c
  {
  }

  lemma PairRead(c: nat, t: seq<Byte>)
    requires 0x1_0000 <= c < 0x11_0000
    ensures var high, low := 0xD800 + (c - 0x1_0000) / 0x400, 0xDC00 + (c - 0x1_0000) % 0x400;
            StringBody(UnitEscape(high) + (UnitEscape(low) + t)) == Cons(Utf8(c), 12, StringBody(t))
  {
    var high, low := 0xD800 + (c - 0x1_0000) / 0x400, 0xDC00 + (c - 0x1_0000) % 0x400;
    ScalarOfPair(c);
    hide *;
    var u := UnitEscape(low) + t;
    var s := UnitEscape(high) + u;
    UnitValue(high, u);
    UnitValue(low, t);
    TwoUnits(s, u);
    PairUnescaped(s, high, low);
    assert s[12..] == u[6..];
    BodyUnfolds(s);
  }

  lemma TwoUnits(s: seq<Byte>, u: seq<Byte>)
    requires |s| >= 6 && s[6..] == u && |u| >= 6
    ensures |s| >= 12 && s[6] == u[0] && s[7] == u[1] && s[8..] == u[2..]
  {
  }

  lemma PairUnescaped(s: seq<Byte>, high: nat, low: nat)
    requires |s| >= 12 && s[0] == 92 && s[1] == 117 && s[6] == 92 && s[7] == 117 && IsHigh(high) && IsLow(low)
    requires Hex4(s[2..]) == Some(high) && Hex4(s[8..]) == Some(low)
    ensures UnicodeEscape(s) == Some((Utf8(Scalar(high, low)), 12))
    ensures s[0] == BACKSLASH && s[1] == LOWER_U && s[0] != QUOTE
  {
    hide Hex4, Utf8, Scalar;
  }

  lemma PairMeaning(c: nat, rest: seq<Byte>)
    requires 0x1_0000 <= c < 0x11_0000
    ensures var high, low := 0xD800 + (c - 0x1_0000) / 0x400, 0xDC00 + (c - 0x1_0000) % 0x400;
            var r := StringBody(UnitEscape(high) + (UnitEscape(low) + ([34] + rest)));
            r.Some? && r.value.1 == 13 && 1 <= |r.value.0| <= 4 && FromUtf8(r.value.0) == c
  {
    hide StringBody, Utf8, FromUtf8, UnitEscape;
    PairRead(c, [34] + rest);
    ClosingQuote(rest);
    Utf8Back(c);
    assert Utf8(c) + [] == Utf8(c);
  }

  // A surrogate alone is an error.
  lemma LoneSurrogate(u: nat, t: seq<Byte>)
    requires 0xD800 <= u < 0xE000 && (u < 0xDC00 ==> t == [] || t[0] != 92)
    ensures StringBody(UnitEscape(u) + t) == None
  {
    hide Hex4, Utf8, UnitEscape, Cons;
    UnitValue(u, t);
    var s := UnitEscape(u) + t;
    assert |s| >= 8 ==> s[6] == t[0];
    assert UnicodeEscape(s) == None;
    hide UnicodeEscape;
  }

  // The letters behind a backslash.
  lemma LetterRead(letter: Byte, t: seq<Byte>)
    requires letter != 117
    ensures var c: Byte := if letter == 34 || letter == 47 || letter == 92 then letter
                           else if letter == 98 then 8 else if letter == 116 then 9 else if letter == 110 then 10
                           else if letter == 102 then 12 else if letter == 114 then 13 else 0;
            StringBody([92, letter] + t) == if c == 0 then None else Cons([c], 2, StringBody(t))
  {
    hide UnicodeEscape, Cons;
    assert ([92, letter] + t)[2..] == t;
  }

  lemma PlainRead(c: Byte, t: seq<Byte>)
    requires c != 0 && c != 34 && c != 92
    ensures StringBody([c] + t) == Cons([c], 1, StringBody(t))
  {
    hide UnicodeEscape, Cons;
    assert ([c] + t)[1..] == t;
  }

  // How each byte is written.
  lemma EscapesWritten(c: Byte)
    ensures c == 34 || c == 47 || c == 92 ==> Escaped(c) == [92, c]
    ensures Escaped(8) == [92, 98] && Escaped(9) == [92, 116] && Escaped(10) == [92, 110]
    ensures Escaped(12) == [92, 102] && Escaped(13) == [92, 114]
    ensures (c < 32 && c != 8 && c != 9 && c != 10 && c != 12 && c != 13) || c == 127 ==> Escaped(c) == UnitEscape(c)
    ensures c >= 32 && c != 34 && c != 47 && c != 92 && c != 127 ==> Escaped(c) == [c]
  {
  }

  // ---- tokens ----

  lemma WordsInBytes(rest: seq<Byte>)
    ensures NextToken([116, 114, 117, 101] + rest) == (BooleanToken(true), 4)
    ensures NextToken([102, 97, 108, 115, 101] + rest) == (BooleanToken(false), 5)
    ensures NextToken([110, 117, 108, 108] + rest) == (NullToken, 4)
  {
    hide NextToken, NumberToken, StringBody;
    NoSpace([116, 114, 117, 101] + rest);
    NoSpace([102, 97, 108, 115, 101] + rest);
    NoSpace([110, 117, 108, 108] + rest);
  }

  lemma SpaceSkipped(c: Byte, s: seq<Byte>)
    requires c == 9 || c == 10 || c == 13 || c == 32
    ensures NextToken([c] + s) == (NextToken(s).0, NextToken(s).1 + 1)
  {
    hide TokenAt;
    var t, k := [c] + s, SkipSpace(s);
    assert t[1..] == s;
    assert t[k + 1..] == s[k..];
  }

  // No other byte starts a token or is passed over.
  lemma NoToken(c: Byte, s: seq<Byte>)
    requires c != 0 && c != 9 && c != 10 && c != 13 && c != 32 && c != 34 && c != 43 && c != 44 && c != 45 && c != 58
    requires !(48 <= c <= 57) && c != 91 && c != 93 && c != 102 && c != 110 && c != 116 && c != 123 && c != 125
    ensures NextToken([c] + s) == (Error, 0)
  {
    hide NextToken, NumberToken, StringBody;
    NoSpace([c] + s);
  }

  lemma {:induction false} PlainBody(s: seq<Byte>, rest: seq<Byte>)
    requires forall i :: 0 <= i < |s| ==> s[i] != 0 && s[i] != 34 && s[i] != 92
    ensures StringBody(s + ([34] + rest)) == Some((s, |s| + 1))
  {
    hide StringBody;
    if s == [] {
      ClosingQuote(rest);
      assert s + ([34] + rest) == [34] + rest;
    } else {
      PlainBody(s[1..], rest);
      PlainRead(s[0], s[1..] + ([34] + rest));
      assert [s[0]] + (s[1..] + ([34] + rest)) == s + ([34] + rest);
      assert [s[0]] + s[1..] == s;
    }
  }

  lemma StringInBytes(s: seq<Byte>, rest: seq<Byte>)
    requires forall i :: 0 <= i < |s| ==> s[i] != 0 && s[i] != 34 && s[i] != 92
    ensures NextToken([34] + (s + ([34] + rest))) == (StringToken(s), |s| + 2)
  {
    hide NextToken, NumberToken, StringBody, TrueText, FalseText, NullText;
    var t := [34] + (s + ([34] + rest));
    NoSpace(t);
    assert t[1..] == s + ([34] + rest);
    PlainBody(s, rest);
  }

  // ---- integers ----

  function BaseText(n: nat, base: nat): (s: seq<Byte>)
    requires 2 <= base <= 16
    ensures s != [] && HexValue(s[0]) != None
    decreases n
  {
    if n < base then [HexDigit(n)] else BaseText(n / base, base) + [HexDigit(n % base)]
  }

  lemma {:induction false} ScanBase(n: nat, base: nat, t: seq<Byte>)
    requires 2 <= base <= 16
    ensures ScanDigits(BaseText(n, base) + t, base, 0)
         == (ScanDigits(t, base, n).0, |BaseText(n, base)| + ScanDigits(t, base, n).1)
    decreases n
  {
    hide *;
    BaseTextIs(n, base);
    if n < base {
      ScanHex(n, t, base, 0);
    } else {
      var e, d := BaseText(n / base, base), n % base;
      assert BaseText(n, base) + t == e + ([HexDigit(d)] + t);
      ScanBase(n / base, base, [HexDigit(d)] + t);
      ScanHex(d, t, base, n / base);
      QuotientBack(n, base);
    }
  }

  lemma BaseTextIs(n: nat, base: nat)
    requires 2 <= base <= 16
    ensures n < base ==> BaseText(n, base) == [HexDigit(n)]
    ensures n >= base ==> n % base < base && 0 <= n / base < n
                          && BaseText(n, base) == BaseText(n / base, base) + [HexDigit(n % base)]
  {
    hide HexDigit;
  }

  lemma QuotientBack(n: nat, base: nat)
    requires base > 0
    ensures n / base * base + n % base == n
  {
    MulCommute(n / base, base);
  }

  lemma ScanHex(d: nat, t: seq<Byte>, base: nat, acc: nat)
    requires d < base <= 16
    ensures ScanDigits([HexDigit(d)] + t, base, acc)
         == (ScanDigits(t, base, acc * base + d).0, 1 + ScanDigits(t, base, acc * base + d).1)
  {
    HexDigits(d);
    hide HexDigit, HexValue;
    assert ([HexDigit(d)] + t)[1..] == t;
  }

  // 0x and hexadecimal digits; 0 and octal digits.
  lemma PrefixedRead(n: nat, rest: seq<Byte>)
    requires Follows(rest)
    ensures Unsigned([48, 120] + (BaseText(n, 16) + rest)) == Some((n, 2 + |BaseText(n, 16)|))
    ensures Unsigned([48, 88] + (BaseText(n, 16) + rest)) == Some((n, 2 + |BaseText(n, 16)|))
    ensures Unsigned([48] + (BaseText(n, 8) + rest)) == Some((n, 1 + |BaseText(n, 8)|))
  {
    hide ScanDigits, HexValue, BaseText;
    ScanBase(n, 16, rest);
    ScanStops(rest, 16, n);
    assert ([48, 120] + (BaseText(n, 16) + rest))[2..] == BaseText(n, 16) + rest;
    assert ([48, 88] + (BaseText(n, 16) + rest))[2..] == BaseText(n, 16) + rest;
    ScanBase(n, 8, rest);
    ScanStops(rest, 8, n);
    ScanHexZero(BaseText(n, 8) + rest);
    OctalIsNoHex(n, rest);
  }

  lemma ScanHexZero(t: seq<Byte>)
    ensures ScanDigits([48] + t, 8, 0) == (ScanDigits(t, 8, 0).0, 1 + ScanDigits(t, 8, 0).1)
  {
    ScanHex(0, t, 8, 0);
  }

  lemma OctalIsNoHex(n: nat, rest: seq<Byte>)
    ensures !IsHexPrefix([48] + (BaseText(n, 8) + rest))
  {
    OctalDigits(n);
    assert ([48] + (BaseText(n, 8) + rest))[1] == BaseText(n, 8)[0];
  }

  lemma {:induction false} OctalDigits(n: nat)
    ensures BaseText(n, 8)[0] < 56
  {
    if n >= 8 {
      OctalDigits(n / 8);
    }
  }

  // A plus sign is passed over.
  lemma PlusRead(n: nat, rest: seq<Byte>)
    requires Follows(rest) && n < 0x8000_0000_0000_0000
    ensures Strtoll([43] + (NatText(n) + rest)) == Some((n, 1 + |NatText(n)|))
  {
    hide Unsigned, NatText;
    UnsignedBack(n, rest);
    assert ([43] + (NatText(n) + rest))[1..] == NatText(n) + rest;
  }

  // A point or an exponent behind the digits is an error, as floats are not read.
  lemma FloatRefused(n: nat, c: Byte, t: seq<Byte>)
    requires n > 0 && (c == 46 || c == 69 || c == 101)
    ensures NextToken(NatText(n) + ([c] + t)) == (Error, 0)
  {
    hide NextToken, StringBody, TrueText, FalseText, NullText, NatText, ScanDigits;
    var s := NatText(n) + ([c] + t);
    NoSpace(s);
    ScanNat(n, [c] + t);
    DigitsStop([c] + t, n);
  }

  lemma DigitsStop(t: seq<Byte>, acc: nat)
    requires t != [] && (t[0] == 46 || t[0] == 69 || t[0] == 101)
    ensures ScanDigits(t, 10, acc) == (acc, 0)
  {
  }

  // A number that does not fit is the nearest one that does.
  lemma OutOfRange(n: nat, rest: seq<Byte>)
    requires Follows(rest)
    ensures var r := Strtoll(NatText(n) + rest);
            r.Some? && r.value.0 == if n < 0x8000_0000_0000_0000 then n else 0x7FFF_FFFF_FFFF_FFFF
    ensures var r := Strtoll([45] + (NatText(n) + rest));
            r.Some? && r.value.0 == if n <= 0x8000_0000_0000_0000 then -(n as int) else -0x8000_0000_0000_0000
  {
    hide Unsigned, NatText;
    UnsignedBack(n, rest);
    assert (NatText(n) + rest)[0..] == NatText(n) + rest;
    assert ([45] + (NatText(n) + rest))[1..] == NatText(n) + rest;
  }

  // ---- which tables are encoded ----

  function Places(n: nat): set<Json>
    requires n < 0x7FFF_FFFF
  {
    if n == 0 then {} else Places(n - 1) + {Int(n)}
  }

  lemma {:induction false} PlacesAre(n: nat)
    requires n < 0x7FFF_FFFF
    ensures |Places(n)| == n && forall k :: k in Places(n) <==> k.Int? && 1 <= k.i <= n
  {
    if n > 0 {
      PlacesAre(n - 1);
    }
  }

  lemma FilledSize(m: map<Json, Json>, n: nat)
    requires FilledTo(m, n)
    ensures |m| == n
  {
    hide Places;
    PlacesAre(n);
    assert m.Keys == Places(n);
    assert |m| == |m.Keys|;
  }

  // Every sequence is.
  lemma SequenceEncoded(m: map<Json, Json>, n: nat, depth: nat)
    requires FilledTo(m, n) && depth + 1 <= 1000 && forall k | k in m :: Encodable(m[k], depth + 1)
    ensures Encodable(Table(m), depth)
  {
    FilledSize(m, n);
  }

  // A table of positive integer keys, the largest of them n, is refused exactly where n is above 10 and
  // more than half of the places up to n are empty.
  lemma SparseRefused(m: map<Json, Json>, n: nat, depth: nat)
    requires AllPositive(m) && IsMax(m, n) && depth + 1 <= 1000 && forall k | k in m :: Encodable(m[k], depth + 1)
    ensures Encodable(Table(m), depth) <==> !(n > 10 && n > 2 * |m|)
  {
    if n > 0 {
      assert Int(n) in m;
    }
  }

  // Any other table is an object, and is refused exactly for a key that is neither a string nor an integer.
  lemma ObjectEncoded(m: map<Json, Json>, depth: nat)
    requires !AllPositive(m) && depth + 1 <= 1000 && forall k | k in m :: Encodable(m[k], depth + 1)
    ensures Encodable(Table(m), depth) <==> forall k | k in m :: k.Str? || k.Int?
  {
  }

  lemma KeyWritten(k: Json, rest: seq<Byte>)
    requires Follows(rest)
    ensures k.Str? ==> KeyText(k) == k.s
    ensures k.Int? ==> Strtoll(KeyText(k) + rest) == Some((k.i, |KeyText(k)|))
  {
    hide DecimalText, Strtoll;
    if k.Int? {
      StrtollBack(k.i, rest);
    }
  }

  // ---- whole texts ----

  // More than a value is refused; a zero byte ends the text.
  lemma TextEnds(e: seq<Byte>, w: Json, c: Byte, t: seq<Byte>)
    requires Parses(e, w, 0) && |e| >= 2 && (c == 0 || c == 44 || c == 93 || c == 125)
    ensures Decode(e + ([c] + t)) == if c == 0 then Some(w) else None
  {
    hide ParseValue, NumberToken, StringBody;
    var rest := [c] + t + [0];
    assert ValueAt(e, w, 0, rest);
    assert e + ([c] + t) + [0] == e + rest && (e + rest)[|e|..] == rest;
    NoSpace(rest);
  }

  // So are texts in encodings of two or four bytes.
  lemma WideTextRefused(t: seq<Byte>)
    requires |t| >= 2 && (t[0] == 0 || t[1] == 0)
    ensures Decode(t) == None
  {
  }

  // ---- nesting ----

  // n tables, one inside the other.
  function Nested(n: nat): Json
    requires n > 0
  {
    Table(if n == 1 then map[] else map[Int(1) := Nested(n - 1)])
  }

  lemma {:induction false} NestingEncoded(n: nat, depth: nat)
    requires n > 0
    ensures Encodable(Nested(n), depth) <==> depth + n <= 1000
  {
    if n > 1 {
      NestingEncoded(n - 1, depth + 1);
      OneItemEncoded(Nested(n - 1), depth);
    } else {
      NothingEncoded(depth);
    }
  }

  lemma OneItemEncoded(v: Json, depth: nat)
    ensures Encodable(Table(map[Int(1) := v]), depth) <==> depth + 1 <= 1000 && Encodable(v, depth + 1)
  {
    var m := map[Int(1) := v];
    assert m[Int(1)] == v && |m| == 1;
  }

  lemma NothingEncoded(depth: nat)
    ensures Encodable(Table(map[]), depth) <==> depth + 1 <= 1000
  {
  }

  // n opening brackets and as many closing ones.
  function Brackets(n: nat): seq<Byte> {
    if n == 0 then [] else [91] + Brackets(n - 1) + [93]
  }

  lemma {:induction false} NestingRead(n: nat, depth: nat, rest: seq<Byte>)
    requires n > 0
    ensures ParseValue(Brackets(n) + rest, depth) == if depth + n <= 1000 then Some((Nested(n), 2 * n)) else None
    decreases n
  {
    hide *;
    var t := Brackets(n - 1) + ([93] + rest);
    BracketsUnfold(n, rest);
    PunctuationToken(91, ArrBegin, t);
    assert ([91] + t)[1..] == t;
    OpenBracket([91] + t, depth);
    PunctuationToken(93, ArrEnd, rest);
    if n == 1 {
      NothingInside(t, depth + 1);
    } else {
      NestingRead(n - 1, depth + 1, [93] + rest);
      BracketsUnfold(n - 1, [93] + rest);
      PunctuationToken(91, ArrBegin, Brackets(n - 2) + ([93] + ([93] + rest)));
      assert t[2 * (n - 1)..] == [93] + rest;
      OneInside(t, depth + 1, n, rest);
    }
    NestedIs(n);
    ArrayMade(t, depth + 1, n);
  }

  lemma TooDeep(s: seq<Byte>, depth: nat)
    requires depth > 1000
    ensures ParseObject(s, depth) == None && ParseArray(s, depth) == None
  {
  }

  // A text nested deeper than 1000 is refused.
  lemma NestingDecoded(n: nat)
    requires n > 0
    ensures Decode(Brackets(n)) == if n <= 1000 then Some(Nested(n)) else None
  {
    hide Nested, ParseValue;
    NestingRead(n, 0, [0]);
    BracketsUnfold(n, []);
    assert Brackets(n) + [] == Brackets(n);
    if n > 1 {
      BracketsUnfold(n - 1, [93] + []);
    }
    BracketsLength(n);
    assert (Brackets(n) + [0])[2 * n..] == [0];
    NoSpace([0]);
  }

  lemma BracketsUnfold(n: nat, rest: seq<Byte>)
    requires n > 0
    ensures Brackets(n) + rest == [91] + (Brackets(n - 1) + ([93] + rest)) && |Brackets(n - 1)| == 2 * (n - 1)
    ensures n == 1 ==> Brackets(n - 1) + ([93] + rest) == [93] + rest
  {
    BracketsLength(n - 1);
  }

  lemma {:induction false} BracketsLength(n: nat)
    ensures |Brackets(n)| == 2 * n
  {
    if n > 0 {
      BracketsLength(n - 1);
    }
  }

  lemma NestedIs(n: nat)
    requires n > 0
    ensures Nested(n) == Table(if n == 1 then map[] else map[Int(1) := Nested(n - 1)])
  {
  }

  lemma NothingInside(t: seq<Byte>, depth: nat)
    requires NextToken(t) == (ArrEnd, 1)
    ensures ParseArray(t, depth) == if depth <= 1000 then Some((map[], 1)) else None
  {
    hide NextToken, ParseItems;
  }

  lemma OneInside(t: seq<Byte>, depth: nat, n: nat, rest: seq<Byte>)
    requires n > 1 && |t| >= 2 * (n - 1) && t[2 * (n - 1)..] == [93] + rest && NextToken(t).0 == ArrBegin
    requires NextToken([93] + rest) == (ArrEnd, 1)
    requires ParseValue(t, depth) == if depth + (n - 1) <= 1000 then Some((Nested(n - 1), 2 * (n - 1))) else None
    ensures ParseArray(t, depth)
         == if depth + (n - 1) <= 1000 then Some((map[Int(1) := Nested(n - 1)], 2 * (n - 1) + 1)) else None
  {
    hide NextToken, ParseValue, ParseItems, Nested;
    if ParseValue(t, depth).Some? {
      OnlyItem(t, depth, 2 * (n - 1), Nested(n - 1), rest);
    } else {
      NoItem(t, depth);
    }
  }

  lemma OnlyItem(t: seq<Byte>, depth: nat, k: nat, v: Json, rest: seq<Byte>)
    requires k <= |t| && ParseValue(t, depth) == Some((v, k)) && t[k..] == [93] + rest
    requires NextToken([93] + rest) == (ArrEnd, 1)
    ensures ParseItems(t, 1, map[], depth) == Some((map[Int(1) := v], k + 1))
  {
    hide NextToken, ParseValue;
    assert map[][Int(1) := v] == map[Int(1) := v];
  }

  lemma NoItem(t: seq<Byte>, depth: nat)
    requires ParseValue(t, depth) == None
    ensures ParseItems(t, 1, map[], depth) == None
  {
    hide ParseValue;
  }

  lemma ArrayMade(t: seq<Byte>, depth: nat, n: nat)
    requires n > 0
    requires ParseArray(t, depth) == if depth + (n - 1) <= 1000
                                     then Some((if n == 1 then map[] else map[Int(1) := Nested(n - 1)], 2 * n - 1))
                                     else None
    ensures Shift(MadeTable(ParseArray(t, depth)), 1)
         == if depth + (n - 1) <= 1000
            then Some((Table(if n == 1 then map[] else map[Int(1) := Nested(n - 1)]), 2 * n))
            else None
  {
    hide ParseArray, Nested;
  }
}
