// Pieces of JSON text, and how they are read back whatever follows them.
module JsonPieces {
  import opened Arith
  import opened Reading
  import opened ByteNumbers
  import opened Decimal
  import opened JsonString
  import opened JsonText

  // What may follow a value: a comma, a closing bracket or brace, or the end of the text.
  predicate Follows(rest: seq<Byte>) {
    rest != [] && (rest[0] == 44 || rest[0] == 93 || rest[0] == 125 || rest[0] == 0)
  }

  ghost predicate ValueAt(e: seq<Byte>, w: Json, depth: nat, rest: seq<Byte>) {
    ParseValue(e + rest, depth) == Some((w, |e|))
  }

  // e is read as w inside depth tables.
  ghost predicate Parses(e: seq<Byte>, w: Json, depth: nat) {
    e != [] && NoZero(e) && forall rest :: Follows(rest) ==> ValueAt(e, w, depth, rest)
  }

  // ---- tokens ----

  function TokenValue(t: Token): Json
    requires t.StringToken? || t.IntegerToken? || t.BooleanToken? || t.NullToken?
  {
    match t
    case StringToken(s) => Str(s)
    case IntegerToken(i) => Int(i)
    case BooleanToken(b) => Bool(b)
    case NullToken => Null
  }

  ghost predicate TokenIs(e: seq<Byte>, t: Token, rest: seq<Byte>) {
    NextToken(e + rest) == (t, |e|)
  }

  // A value of one token.
  lemma OneToken(e: seq<Byte>, t: Token, depth: nat)
    requires t.StringToken? || t.IntegerToken? || t.BooleanToken? || t.NullToken?
    requires e != [] && NoZero(e) && forall rest :: Follows(rest) ==> TokenIs(e, t, rest)
    ensures Parses(e, TokenValue(t), depth)
  {
    hide NextToken;
    forall rest | Follows(rest)
      ensures ValueAt(e, TokenValue(t), depth, rest)
    {
      assert TokenIs(e, t, rest);
    }
  }

  lemma NoSpace(s: seq<Byte>)
    requires s != [] && !IsSpace(s[0])
    ensures NextToken(s) == TokenAt(s)
  {
    hide TokenAt;
    assert s[0..] == s;
  }

  lemma PunctuationToken(c: Byte, t: Token, rest: seq<Byte>)
    requires (c == 123 && t == ObjBegin) || (c == 125 && t == ObjEnd) || (c == 91 && t == ArrBegin)
             || (c == 93 && t == ArrEnd) || (c == 44 && t == Comma) || (c == 58 && t == Colon)
    ensures NextToken([c] + rest) == (t, 1)
  {
    hide NextToken, NumberToken, StringBody, TrueText, FalseText, NullText;
    NoSpace([c] + rest);
  }

  lemma QuotedToken(s: seq<Byte>, rest: seq<Byte>)
    ensures TokenIs(Quoted(s), StringToken(s), rest)
  {
    hide NextToken, NumberToken, StringBody, TrueText, FalseText, NullText, EscapedAll;
    var t := Quoted(s) + rest;
    NoSpace(t);
    assert t[1..] == EscapedAll(s) + ([QUOTE] + rest);
    QuotedBack(s, rest);
  }

  lemma {:induction false} EscapedNoZero(s: seq<Byte>)
    ensures NoZero(EscapedAll(s))
  {
    if s != [] {
      EscapedNoZero(s[1..]);
    }
  }

  lemma StringParses(s: seq<Byte>, depth: nat)
    ensures Parses(Quoted(s), Str(s), depth)
  {
    hide TokenIs, EscapedAll, Parses;
    EscapedNoZero(s);
    forall rest | Follows(rest)
      ensures TokenIs(Quoted(s), StringToken(s), rest)
    {
      QuotedToken(s, rest);
    }
    OneToken(Quoted(s), StringToken(s), depth);
  }

  lemma WordToken(e: seq<Byte>, t: Token, rest: seq<Byte>)
    requires (e == TrueText() && t == BooleanToken(true)) || (e == FalseText() && t == BooleanToken(false))
             || (e == NullText() && t == NullToken)
    ensures TokenIs(e, t, rest)
  {
    hide NextToken, NumberToken, StringBody;
    NoSpace(e + rest);
  }

  lemma WordParses(e: seq<Byte>, t: Token, depth: nat)
    requires (e == TrueText() && t == BooleanToken(true)) || (e == FalseText() && t == BooleanToken(false))
             || (e == NullText() && t == NullToken)
    ensures Parses(e, TokenValue(t), depth)
  {
    hide TokenIs, Parses;
    forall rest | Follows(rest)
      ensures TokenIs(e, t, rest)
    {
      WordToken(e, t, rest);
    }
    OneToken(e, t, depth);
  }

  // ---- integers ----

  function DecimalText(i: Int64): (s: seq<Byte>)
    ensures s != [] && NoZero(s)
  {
    if i < 0 then [45] + NatText(-(i as int)) else NatText(i)
  }

  lemma {:induction false} ScanNat(n: nat, t: seq<Byte>)
    ensures ScanDigits(NatText(n) + t, 10, 0) == (ScanDigits(t, 10, n).0, |NatText(n)| + ScanDigits(t, 10, n).1)
  {
    if n < 10 {
      ScanOne(48 + n, t, 10, 0);
    } else {
      var d: Byte := 48 + n % 10;
      assert NatText(n) + t == NatText(n / 10) + ([d] + t);
      ScanNat(n / 10, [d] + t);
      ScanOne(d, t, 10, n / 10);
      assert n / 10 * 10 + n % 10 == n;
    }
  }

  lemma ScanOne(c: Byte, t: seq<Byte>, base: nat, acc: nat)
    requires 48 <= c <= 57 && c - 48 < base
    ensures ScanDigits([c] + t, base, acc) ==
            (ScanDigits(t, base, acc * base + (c - 48)).0, 1 + ScanDigits(t, base, acc * base + (c - 48)).1)
  {
    assert ([c] + t)[1..] == t;
  }

  lemma ScanStops(rest: seq<Byte>, base: nat, acc: nat)
    requires Follows(rest)
    ensures ScanDigits(rest, base, acc) == (acc, 0)
  {
  }

  lemma UnsignedBack(n: nat, rest: seq<Byte>)
    requires Follows(rest)
    ensures Unsigned(NatText(n) + rest) == Some((n, |NatText(n)|))
  {
    hide ScanDigits;
    var s := NatText(n) + rest;
    if n == 0 {
      assert s == [48] + rest;
      ScanOne(48, rest, 8, 0);
      ScanStops(rest, 8, 0);
    } else {
      ScanNat(n, rest);
      ScanStops(rest, 10, n);
    }
  }

  lemma StrtollBack(i: Int64, rest: seq<Byte>)
    requires Follows(rest)
    ensures Strtoll(DecimalText(i) + rest) == Some((i, |DecimalText(i)|))
  {
    hide Unsigned, NatText;
    if i < 0 {
      var n: nat := -(i as int);
      UnsignedBack(n, rest);
      assert ([45] + NatText(n) + rest)[1..] == NatText(n) + rest;
    } else {
      UnsignedBack(i, rest);
      assert (NatText(i) + rest)[0..] == NatText(i) + rest;
    }
  }

  lemma IntegerIsToken(i: Int64, rest: seq<Byte>)
    requires Follows(rest)
    ensures TokenIs(DecimalText(i), IntegerToken(i), rest)
  {
    hide NextToken, StringBody, Strtoll, NatText, TrueText, FalseText, NullText;
    NoSpace(DecimalText(i) + rest);
    StrtollBack(i, rest);
  }

  lemma IntegerParses(i: Int64, depth: nat)
    ensures Parses(DecimalText(i), Int(i), depth)
  {
    hide TokenIs, DecimalText, Parses;
    forall rest | Follows(rest)
      ensures TokenIs(DecimalText(i), IntegerToken(i), rest)
    {
      IntegerIsToken(i, rest);
    }
    OneToken(DecimalText(i), IntegerToken(i), depth);
  }

  // At most a sign and 19 digits.
  lemma {:induction false} NatTextLength(n: nat, k: nat)
    requires n < Pow(10, k) && k > 0
    ensures |NatText(n)| <= k
  {
    if n >= 10 {
      NatTextLength(n / 10, k - 1);
    }
  }

  lemma DecimalLength(i: Int64)
    ensures |DecimalText(i)| <= 20
  {
    hide NatText;
    assert Pow(10, 5) == 10_0000;
    PowAdd(10, 5, 5);
    PowAdd(10, 10, 5);
    PowAdd(10, 15, 4);
    assert Pow(10, 4) == 1_0000;
    NatTextLength(if i < 0 then -(i as int) else i, 19);
  }

  // ---- arrays ----

  ghost predicate ItemsAt(e: seq<Byte>, i: Int64, m: map<Json, Json>, depth: nat, rest: seq<Byte>) {
    ParseItems(e + rest, 1, map[], depth) == AfterItem(rest, i, m, depth, |e|)
  }

  // e is items 1 to i with commas between them.
  ghost predicate Items(e: seq<Byte>, i: Int64, m: map<Json, Json>, depth: nat) {
    NoZero(e) && forall rest :: Follows(rest) ==> ItemsAt(e, i, m, depth, rest)
  }

  lemma FirstItem(e: seq<Byte>, w: Json, depth: nat)
    requires Parses(e, w, depth)
    ensures Items(e, 1, map[Int(1) := w], depth)
  {
    hide ParseValue, AfterItem, Follows, NoZero;
    forall rest | Follows(rest)
      ensures ItemsAt(e, 1, map[Int(1) := w], depth, rest)
    {
      assert ValueAt(e, w, depth, rest);
      assert (e + rest)[|e|..] == rest;
    }
  }

  lemma NextItem(e: seq<Byte>, i: Int64, m: map<Json, Json>, x: seq<Byte>, w: Json, depth: nat)
    requires Items(e, i, m, depth) && Parses(x, w, depth) && 1 <= i < 0x7FFF_FFFF
    ensures Items(e + [44] + x, i + 1, m[Int(i + 1) := w], depth)
  {
    hide ParseItems, AfterItem, ValueAt, ItemsAt;
    forall rest | Follows(rest)
      ensures ItemsAt(e + [44] + x, i + 1, m[Int(i + 1) := w], depth, rest)
    {
      CommaItem(e, i, m, x, w, depth, rest);
    }
  }

  lemma CommaItem(e: seq<Byte>, i: Int64, m: map<Json, Json>, x: seq<Byte>, w: Json, depth: nat, rest: seq<Byte>)
    requires ItemsAt(e, i, m, depth, [44] + (x + rest)) && ValueAt(x, w, depth, rest) && 1 <= i < 0x7FFF_FFFF
    ensures ItemsAt(e + [44] + x, i + 1, m[Int(i + 1) := w], depth, rest)
  {
    hide ParseValue, NextToken, Follows;
    var s := [44] + (x + rest);
    var m' := m[Int(i + 1) := w];
    PunctuationToken(44, Comma, x + rest);
    assert s[1..] == x + rest && (x + rest)[|x|..] == rest;
    assert e + [44] + x + rest == e + s;
    assert AfterItem(s, i, m, depth, |e|) == Shift(ParseItems(x + rest, i + 1, m, depth), |e| + 1);
    assert ParseItems(x + rest, i + 1, m, depth) == AfterItem(rest, i + 1, m', depth, |x|);
    AfterItemShift(rest, i + 1, m', depth, |x|, |e| + 1);
  }

  lemma AfterItemShift(s: seq<Byte>, i: Int64, m: map<Json, Json>, depth: nat, a: nat, b: nat)
    ensures Shift(AfterItem(s, i, m, depth, a), b) == AfterItem(s, i, m, depth, b + a)
  {
    hide ParseItems, NextToken;
  }

  lemma ArrayParses(e: seq<Byte>, i: Int64, m: map<Json, Json>, depth: nat)
    requires Items(e, i, m, depth + 1) && depth + 1 <= MAX_DEPTH
    ensures Parses([91] + e + [93], Table(m), depth)
  {
    hide ParseValue, ItemsAt;
    forall rest | Follows(rest)
      ensures ValueAt([91] + e + [93], Table(m), depth, rest)
    {
      ArrayAt(e, i, m, depth, rest);
    }
  }

  lemma ArrayAt(e: seq<Byte>, i: Int64, m: map<Json, Json>, depth: nat, rest: seq<Byte>)
    requires ItemsAt(e, i, m, depth + 1, [93] + rest) && depth + 1 <= MAX_DEPTH
    ensures ValueAt([91] + e + [93], Table(m), depth, rest)
  {
    hide ParseValue, ParseArray, ParseItems;
    var s := e + ([93] + rest);
    assert [91] + e + [93] + rest == [91] + s && ([91] + s)[1..] == s;
    PunctuationToken(93, ArrEnd, rest);
    PunctuationToken(91, ArrBegin, s);
    hide NextToken;
    assert AfterItem([93] + rest, i, m, depth + 1, |e|) == Some((m, |e| + 1));
    ArrayOfItems(s, m, |e| + 1, depth + 1);
    OpenBracket([91] + s, depth);
  }

  lemma ArrayOfItems(s: seq<Byte>, m: map<Json, Json>, n: nat, depth: nat)
    requires ParseItems(s, 1, map[], depth) == Some((m, n)) && depth <= MAX_DEPTH
    ensures ParseArray(s, depth) == Some((m, n))
  {
    hide NextToken;
    NoValueAtEnd(s, depth);
  }

  lemma NoValueAtEnd(s: seq<Byte>, depth: nat)
    ensures NextToken(s).0 == ArrEnd ==> ParseValue(s, depth) == None
  {
    hide NextToken;
  }

  lemma OpenBracket(s: seq<Byte>, depth: nat)
    requires NextToken(s) == (ArrBegin, 1) && s != []
    ensures ParseValue(s, depth) == Shift(MadeTable(ParseArray(s[1..], depth + 1)), 1)
  {
    hide NextToken, ParseArray;
  }

  // ---- objects ----

  ghost predicate MembersAt(e: seq<Byte>, m: map<Json, Json>, depth: nat, rest: seq<Byte>) {
    ParseMembers(e + rest, map[], depth) == AfterMember(rest, m, depth, |e|)
  }

  // e is members that make m, with commas between them.
  ghost predicate Members(e: seq<Byte>, m: map<Json, Json>, depth: nat) {
    NoZero(e) && forall rest :: Follows(rest) ==> MembersAt(e, m, depth, rest)
  }

  // A key, a colon and a value.
  function MemberText(key: seq<Byte>, x: seq<Byte>): seq<Byte> {
    key + [58] + x
  }

  // key is the text of a string, however its quotes came about.
  ghost predicate IsKey(key: seq<Byte>, s: seq<Byte>) {
    key != [] && NoZero(key) && forall rest :: TokenIs(key, StringToken(s), rest)
  }

  lemma OneMember(key: seq<Byte>, s: seq<Byte>, x: seq<Byte>, w: Json, m: map<Json, Json>, depth: nat, rest: seq<Byte>)
    requires TokenIs(key, StringToken(s), [58] + (x + rest)) && ValueAt(x, w, depth, rest) && key != []
    ensures ParseMembers(MemberText(key, x) + rest, m, depth) ==
            AfterMember(rest, m[Str(s) := w], depth, |MemberText(key, x)|)
  {
    hide *;
    var t := key + ([58] + (x + rest));
    MemberSlices(key, x, rest);
    TokenAtKey(key, s, [58] + (x + rest));
    PunctuationToken(58, Colon, x + rest);
    ValueParsed(x, w, depth, rest);
    MembersUnfold(t, m, depth, s, |key|, 1, w, |x|);
  }

  lemma MemberSlices(key: seq<Byte>, x: seq<Byte>, rest: seq<Byte>)
    ensures var t := key + ([58] + (x + rest));
            && MemberText(key, x) + rest == t && |MemberText(key, x)| == |key| + 1 + |x|
            && t[|key|..] == [58] + (x + rest) && t[|key| + 1..] == x + rest && t[|key| + 1 + |x|..] == rest
  {
  }

  lemma TokenAtKey(key: seq<Byte>, s: seq<Byte>, rest: seq<Byte>)
    requires TokenIs(key, StringToken(s), rest)
    ensures NextToken(key + rest) == (StringToken(s), |key|)
  {
    hide NextToken;
  }

  lemma ValueParsed(x: seq<Byte>, w: Json, depth: nat, rest: seq<Byte>)
    requires ValueAt(x, w, depth, rest)
    ensures ParseValue(x + rest, depth) == Some((w, |x|))
  {
    hide ParseValue;
  }

  lemma MembersUnfold(t: seq<Byte>, m: map<Json, Json>, depth: nat, key: seq<Byte>, n: nat, n2: nat, v: Json, n3: nat)
    requires 0 < n && n + n2 + n3 <= |t|
    requires NextToken(t) == (StringToken(key), n) && NextToken(t[n..]) == (Colon, n2)
    requires ParseValue(t[n + n2..], depth) == Some((v, n3))
    ensures ParseMembers(t, m, depth) == AfterMember(t[n + n2 + n3..], m[Str(key) := v], depth, n + n2 + n3)
  {
    hide NextToken, ParseValue, AfterMember;
  }

  lemma KeyAt(key: seq<Byte>, s: seq<Byte>, rest: seq<Byte>)
    requires IsKey(key, s)
    ensures TokenIs(key, StringToken(s), rest) && key != []
  {
    hide TokenIs;
  }

  lemma FirstMember(key: seq<Byte>, s: seq<Byte>, x: seq<Byte>, w: Json, depth: nat)
    requires IsKey(key, s) && Parses(x, w, depth)
    ensures Members(MemberText(key, x), map[Str(s) := w], depth)
  {
    hide ParseMembers, AfterMember, ValueAt, Follows, TokenIs;
    forall rest | Follows(rest)
      ensures MembersAt(MemberText(key, x), map[Str(s) := w], depth, rest)
    {
      KeyAt(key, s, [58] + (x + rest));
      OneMember(key, s, x, w, map[], depth, rest);
    }
  }

  lemma NextMember(e: seq<Byte>, m: map<Json, Json>, key: seq<Byte>, s: seq<Byte>, x: seq<Byte>, w: Json, depth: nat)
    requires Members(e, m, depth) && IsKey(key, s) && Parses(x, w, depth)
    ensures Members(e + [44] + MemberText(key, x), m[Str(s) := w], depth)
  {
    hide ParseMembers, AfterMember, ValueAt, MembersAt, TokenIs;
    forall rest | Follows(rest)
      ensures MembersAt(e + [44] + MemberText(key, x), m[Str(s) := w], depth, rest)
    {
      KeyAt(key, s, [58] + (x + rest));
      CommaMember(e, m, key, s, x, w, depth, rest);
    }
  }

  lemma CommaMember(e: seq<Byte>, m: map<Json, Json>, key: seq<Byte>, s: seq<Byte>, x: seq<Byte>, w: Json, depth: nat,
                    rest: seq<Byte>)
    requires MembersAt(e, m, depth, [44] + (MemberText(key, x) + rest))
    requires TokenIs(key, StringToken(s), [58] + (x + rest)) && ValueAt(x, w, depth, rest) && key != []
    ensures MembersAt(e + [44] + MemberText(key, x), m[Str(s) := w], depth, rest)
  {
    hide *;
    var y := MemberText(key, x);
    PunctuationToken(44, Comma, y + rest);
    OneMember(key, s, x, w, m, depth, rest);
    CommaSlices(e, y, rest);
    MembersAtIs(e, m, depth, [44] + (y + rest));
    CommaUnfolds([44] + (y + rest), m, depth, |e|);
    AfterMemberShift(rest, m[Str(s) := w], depth, |y|, |e| + 1);
    MembersAtIs(e + [44] + y, m[Str(s) := w], depth, rest);
  }

  lemma CommaSlices(e: seq<Byte>, y: seq<Byte>, rest: seq<Byte>)
    ensures e + [44] + y + rest == e + ([44] + (y + rest)) && ([44] + (y + rest))[1..] == y + rest
    ensures |e + [44] + y| == |e| + 1 + |y|
  {
  }

  lemma MembersAtIs(e: seq<Byte>, m: map<Json, Json>, depth: nat, rest: seq<Byte>)
    ensures MembersAt(e, m, depth, rest) == (ParseMembers(e + rest, map[], depth) == AfterMember(rest, m, depth, |e|))
  {
    hide ParseMembers, AfterMember;
  }

  lemma CommaUnfolds(t: seq<Byte>, m: map<Json, Json>, depth: nat, k: nat)
    requires NextToken(t) == (Comma, 1) && t != []
    ensures AfterMember(t, m, depth, k) == Shift(ParseMembers(t[1..], m, depth), k + 1)
  {
    hide NextToken, ParseMembers;
  }

  lemma AfterMemberShift(s: seq<Byte>, m: map<Json, Json>, depth: nat, a: nat, b: nat)
    ensures Shift(AfterMember(s, m, depth, a), b) == AfterMember(s, m, depth, b + a)
  {
    hide ParseMembers, NextToken;
  }

  lemma ObjectParses(e: seq<Byte>, m: map<Json, Json>, depth: nat)
    requires Members(e, m, depth + 1) && depth + 1 <= MAX_DEPTH
    ensures Parses([123] + e + [125], Table(m), depth)
  {
    hide ParseValue, MembersAt;
    forall rest | Follows(rest)
      ensures ValueAt([123] + e + [125], Table(m), depth, rest)
    {
      ObjectAt(e, m, depth, rest);
    }
  }

  lemma ObjectAt(e: seq<Byte>, m: map<Json, Json>, depth: nat, rest: seq<Byte>)
    requires MembersAt(e, m, depth + 1, [125] + rest) && depth + 1 <= MAX_DEPTH
    ensures ValueAt([123] + e + [125], Table(m), depth, rest)
  {
    hide ParseValue, ParseObject, ParseMembers;
    var s := e + ([125] + rest);
    assert [123] + e + [125] + rest == [123] + s && ([123] + s)[1..] == s;
    PunctuationToken(125, ObjEnd, rest);
    PunctuationToken(123, ObjBegin, s);
    hide NextToken;
    assert AfterMember([125] + rest, m, depth + 1, |e|) == Some((m, |e| + 1));
    ObjectOfMembers(s, m, |e| + 1, depth + 1);
    OpenBrace([123] + s, depth);
  }

  lemma ObjectOfMembers(s: seq<Byte>, m: map<Json, Json>, n: nat, depth: nat)
    requires ParseMembers(s, map[], depth) == Some((m, n)) && depth <= MAX_DEPTH
    ensures ParseObject(s, depth) == Some((m, n))
  {
    hide NextToken, ParseValue;
  }

  lemma OpenBrace(s: seq<Byte>, depth: nat)
    requires NextToken(s) == (ObjBegin, 1) && s != []
    ensures ParseValue(s, depth) == Shift(MadeTable(ParseObject(s[1..], depth + 1)), 1)
  {
    hide NextToken, ParseObject;
  }

  lemma EmptyObjectParses(depth: nat)
    requires depth + 1 <= MAX_DEPTH
    ensures Parses([123, 125], Table(map[]), depth)
  {
    hide ParseValue;
    forall rest | Follows(rest)
      ensures ValueAt([123, 125], Table(map[]), depth, rest)
    {
      var s := [125] + rest;
      assert [123, 125] + rest == [123] + s && ([123] + s)[1..] == s;
      PunctuationToken(125, ObjEnd, rest);
      PunctuationToken(123, ObjBegin, s);
      OpenBrace([123] + s, depth);
    }
  }

  // A whole text.
  lemma WholeText(e: seq<Byte>, w: Json)
    requires Parses(e, w, 0)
    ensures Decode(e) == Some(w)
  {
    hide ParseValue;
    assert ValueAt(e, w, 0, [0]);
    assert (e + [0])[|e|..] == [0];
    NoSpace([0]);
  }
}
