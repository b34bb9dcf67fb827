// The decoder of lua_cjson.c: a cursor over a text that ends in a zero byte, a depth, and a buffer
// for strings that is as large as the text and therefore never checked.
module JsonDecode {
  import opened Arith
  import opened Reading
  import opened ByteNumbers
  import opened StringBuffer
  import opened JsonString
  import opened JsonText
  import JsonPieces

  class Parser {
    const data: seq<Byte>
    var ptr: nat
    const tmp: StrBuf
    var currentDepth: nat

    ghost predicate Valid()
      reads this, tmp
    {
      && data != [] && data[|data| - 1] == 0 && ptr < |data|
      && tmp.Valid() && tmp.size >= |data|
    }

    constructor (text: seq<Byte>)
      ensures Valid() && data == text + [0] && ptr == 0 && currentDepth == 0 && fresh(tmp) && fresh(tmp.buf)
    {
      data, ptr, currentDepth := text + [0], 0, 0;
      tmp := new StrBuf(|text|);
    }

    // Four hexadecimal digits from p.  The first that is none ends it, so it never passes the zero.
    method DecodeHex4(p: nat) returns (r: Option<nat>)
      requires Valid() && p < |data|
      ensures r == Hex4(data[p..])
    {
      var d0 := HexValue(data[p]);
      if d0 == None { return None; }
      var d1 := HexValue(data[p + 1]);
      if d1 == None { return None; }
      var d2 := HexValue(data[p + 2]);
      if d2 == None { return None; }
      var d3 := HexValue(data[p + 3]);
      if d3 == None { return None; }
      return Some(0x1000 * d0.value + 0x100 * d1.value + 0x10 * d2.value + d3.value);
    }

    // The cursor is at a backslash and a u.  The bytes appended are fewer than the bytes read.
    method AppendUnicodeEscape() returns (ok: bool)
      requires Valid() && ptr + 1 < |data| && data[ptr] == BACKSLASH && data[ptr + 1] == LOWER_U
      requires tmp.length < ptr
      modifies this`ptr, tmp`length, tmp.buf
      ensures Valid() && ok == UnicodeEscape(old(data[ptr..])).Some?
      ensures ok ==> var (b, n) := UnicodeEscape(old(data[ptr..])).value;
                     tmp.Text() == old(tmp.Text()) + b && ptr == old(ptr) + n && tmp.length < ptr
    {
      hide Hex4, Utf8;
      ghost var s := data[ptr..];
      HexStops(data, ptr + 2);
      var codepoint := DecodeHex4(ptr + 2);
      assert data[ptr + 2..] == s[2..];
      if codepoint == None { return false; }
      var u := codepoint.value;
      var escapeLen: nat := 6;
      if IsHigh(u) || IsLow(u) {
        if IsLow(u) { return false; }
        if data[ptr + 6] != BACKSLASH { return false; }
        if data[ptr + 7] != LOWER_U { return false; }
        HexStops(data, ptr + 8);
        var low := DecodeHex4(ptr + 8);
        assert data[ptr + 8..] == s[8..];
        if low == None { return false; }
        if !IsLow(low.value) { return false; }
        u := Scalar(u, low.value);
        escapeLen := 12;
      }
      tmp.AppendMemUnsafe(Utf8(u));
      ptr := ptr + escapeLen;
      return true;
    }

    // The cursor is at the opening quote.
    method NextStringToken() returns (t: Token)
      requires Valid() && data[ptr] == QUOTE
      modifies this`ptr, tmp`length, tmp.buf
      ensures Valid()
      ensures match StringBody(old(data[ptr + 1..]))
              case None => t == Error
              case Some((s, n)) => t == StringToken(s) && ptr == old(ptr) + 1 + n
    {
      hide StringBody, UnicodeEscape, StringFrom;
      ptr := ptr + 1;
      tmp.Reset();
      ghost var start := ptr;
      StringFromStart(data, ptr);
      while data[ptr] != QUOTE
        invariant Valid() && start <= ptr && tmp.length < ptr
        invariant StringFrom(data, start, tmp.Text(), ptr)
        decreases |data| - ptr
      {
        ghost var p := ptr;
        ghost var before := tmp.Text();
        var ch := data[ptr];
        if ch == 0 {
          StringFails(data, start, before, p);
          return Error;
        }
        if ch == BACKSLASH {
          ch := data[ptr + 1];
          if ch == LOWER_U {
            StringUnicode(data, start, before, p);
            var ok := AppendUnicodeEscape();
            if !ok { return Error; }
            continue;
          }
          ch := Unescaped(ch);
          if ch == 0 {
            StringFails(data, start, before, p);
            return Error;
          }
          ptr := ptr + 1;
        }
        StringOne(data, start, before, p);
        tmp.AppendCharUnsafe(ch);
        ptr := ptr + 1;
      }
      StringEnds(data, start, tmp.Text(), ptr);
      ptr := ptr + 1;
      tmp.EnsureNull();
      var s := tmp.String();
      return StringToken(s);
    }

    method NextNumberToken() returns (t: Token)
      requires Valid()
      modifies this`ptr
      ensures Valid()
      ensures t == NumberToken(old(data[ptr..])).0 && (t != Error ==> ptr == old(ptr) + NumberToken(old(data[ptr..])).1)
    {
      hide Strtoll;
      var r := Strtoll(data[ptr..]);
      if r == None { return Error; }
      var (i, n) := r.value;
      StrtollStops(data, ptr);
      if data[ptr + n] == 46 || data[ptr + n] == 101 || data[ptr + n] == 69 { return Error; }
      ptr := ptr + n;
      return IntegerToken(i);
    }

    // Positioned behind the token, unless it is an error.
    method NextToken() returns (t: Token)
      requires Valid()
      modifies this`ptr, tmp`length, tmp.buf
      ensures Valid() && Current(data, old(ptr), t, ptr)
    {
      hide StringBody, NumberToken, SkipSpace, Current, Skipped, SpaceDone;
      ghost var start := ptr;
      SpaceStart(data, start);
      while IsSpace(data[ptr])
        invariant Valid() && Skipped(data, start, ptr)
        decreases |data| - ptr
      {
        SpaceNext(data, start, ptr);
        ptr := ptr + 1;
      }
      SpaceEnd(data, start, ptr);
      ghost var p := ptr;
      var c := data[ptr];
      var entry := Ch2Token(c);
      if entry.Some? {
        t := entry.value;
        if t != Error && t != End {
          ptr := ptr + 1;
        }
      } else if c == QUOTE {
        t := NextStringToken();
      } else if c == 45 || 48 <= c <= 57 {
        t := NextNumberToken();
      } else if TrueText() <= data[ptr..] {
        WordStops(data, ptr, TrueText());
        ptr := ptr + 4;
        t := BooleanToken(true);
      } else if FalseText() <= data[ptr..] {
        WordStops(data, ptr, FalseText());
        ptr := ptr + 5;
        t := BooleanToken(false);
      } else if NullText() <= data[ptr..] {
        WordStops(data, ptr, NullText());
        ptr := ptr + 4;
        t := NullToken;
      } else if c == 43 {
        t := NextNumberToken();
      } else {
        t := Error;
      }
      AtToken(data, start, p, t, ptr);
    }

    // The token has been read, from p.
    method ProcessValue(t: Token, ghost p: nat) returns (r: Option<Json>)
      requires Valid() && Current(data, p, t, ptr)
      modifies this`ptr, this`currentDepth, tmp`length, tmp.buf
      ensures Valid() && IsRead(data, p, old(currentDepth), r, ptr)
      ensures r.Some? ==> currentDepth == old(currentDepth)
      decreases |data| - p, 0
    {
      hide *;
      ghost var depth := currentDepth;
      ghost var q := ptr;
      ScalarRead(data, p, depth, t, q);
      CurrentBounds(data, p, t, q);
      match t
      case StringToken(s) => return Some(Str(s));
      case IntegerToken(i) => return Some(Int(i));
      case BooleanToken(b) => return Some(Bool(b));
      case NullToken => return Some(Null);
      case ObjBegin =>
        var m := ParseObjectContext();
        ObjectRead(data, p, depth, q, m, ptr);
        if m == None { return None; }
        return Some(Table(m.value));
      case ArrBegin =>
        var m := ParseArrayContext();
        ArrayRead(data, p, depth, q, m, ptr);
        if m == None { return None; }
        return Some(Table(m.value));
      case _ => return None;
    }

    method ParseObjectContext() returns (r: Option<map<Json, Json>>)
      requires Valid()
      modifies this`ptr, this`currentDepth, tmp`length, tmp.buf
      ensures Valid() && TableIsRead(data, old(ptr), ParseObject(old(data[ptr..]), old(currentDepth) + 1), r, ptr)
      ensures r.Some? ==> currentDepth == old(currentDepth)
      decreases |data| - ptr, 2
    {
      hide JsonText.NextToken, ParseObject, ParseArray, Current, TableIsRead, IsRead;
      hide MembersFrom, AfterMemberFrom, ItemsFrom, AfterItemFrom;
      ghost var start := ptr;
      currentDepth := currentDepth + 1;
      ghost var depth := currentDepth;
      TooDeep(data, start, depth, ptr);
      if currentDepth > MaxDepth() { return None; }
      var t := NextToken();
      ObjectStart(data, start, depth, t, ptr);
      if t == ObjEnd {
        currentDepth := currentDepth - 1;
        return Some(map[]);
      }
      var m: map<Json, Json> := map[];
      ghost var p := start;
      while true
        invariant Valid() && currentDepth == depth && start <= p && Current(data, p, t, ptr)
        invariant MembersFrom(data, start, p, m, depth)
        decreases |data| - p
      {
        CurrentBounds(data, p, t, ptr);
        if !t.StringToken? {
          KeyMissing(data, start, p, m, depth, t, ptr);
          return None;
        }
        var key := t.s;
        ghost var q := ptr;
        t := NextToken();
        if t != Colon {
          ColonMissing(data, start, p, m, depth, key, q, t, ptr);
          return None;
        }
        ghost var q2 := ptr;
        t := NextToken();
        CurrentBounds(data, q, Colon, q2);
        var v := ProcessValue(t, q2);
        ghost var q3 := ptr;
        MemberRead(data, start, p, m, depth, key, q, q2, v, q3);
        if v == None { return None; }
        m := m[Str(key) := v.value];
        t := NextToken();
        MemberAfter(data, start, q3, m, depth, t, ptr);
        if t == ObjEnd {
          currentDepth := currentDepth - 1;
          return Some(m);
        }
        if t != Comma { return None; }
        p := ptr;
        t := NextToken();
      }
    }

    method ParseArrayContext() returns (r: Option<map<Json, Json>>)
      requires Valid()
      modifies this`ptr, this`currentDepth, tmp`length, tmp.buf
      ensures Valid() && TableIsRead(data, old(ptr), ParseArray(old(data[ptr..]), old(currentDepth) + 1), r, ptr)
      ensures r.Some? ==> currentDepth == old(currentDepth)
      decreases |data| - ptr, 2
    {
      hide JsonText.NextToken, ParseObject, ParseArray, Current, TableIsRead, IsRead;
      hide MembersFrom, AfterMemberFrom, ItemsFrom, AfterItemFrom;
      ghost var start := ptr;
      currentDepth := currentDepth + 1;
      ghost var depth := currentDepth;
      TooDeep(data, start, depth, ptr);
      if currentDepth > MaxDepth() { return None; }
      var t := NextToken();
      ArrayStart(data, start, depth, t, ptr);
      if t == ArrEnd {
        currentDepth := currentDepth - 1;
        return Some(map[]);
      }
      var m: map<Json, Json> := map[];
      var i: Int64 := 1;
      ghost var p := start;
      while true
        invariant Valid() && currentDepth == depth && start <= p && Current(data, p, t, ptr)
        invariant 1 <= i <= 0x7FFF_FFFF && ItemsFrom(data, start, p, i, m, depth)
        decreases |data| - p
      {
        var v := ProcessValue(t, p);
        ghost var q := ptr;
        ItemRead(data, start, p, i, m, depth, v, q);
        if v == None { return None; }
        m := m[Int(i) := v.value];
        t := NextToken();
        ItemAfter(data, start, q, i, m, depth, t, ptr);
        if t == ArrEnd {
          currentDepth := currentDepth - 1;
          return Some(m);
        }
        if t != Comma || i == 0x7FFF_FFFF { return None; }
        p := ptr;
        i := i + 1;
        t := NextToken();
      }
    }
  }

  // The table of single characters; None for what needs more.
  function Ch2Token(c: Byte): Option<Token> {
    if c == 123 then Some(ObjBegin)
    else if c == 125 then Some(ObjEnd)
    else if c == 91 then Some(ArrBegin)
    else if c == 93 then Some(ArrEnd)
    else if c == 44 then Some(Comma)
    else if c == 58 then Some(Colon)
    else if c == 0 then Some(End)
    else if c == 102 || c == 105 || c == 73 || c == 110 || c == 78 || c == 116 || c == QUOTE
            || c == 43 || c == 45 || 48 <= c <= 57 then None
    else Some(Error)
  }

  // ---- nothing is read behind the zero ----

  lemma HexStops(data: seq<Byte>, p: nat)
    requires data != [] && data[|data| - 1] == 0 && p < |data|
    ensures Hex4(data[p..]).Some? ==> p + 4 < |data|
  {
  }

  lemma {:induction false} ScanStops(s: seq<Byte>, base: nat, acc: nat)
    requires s != [] && s[|s| - 1] == 0
    ensures ScanDigits(s, base, acc).1 < |s|
    decreases s
  {
    if DigitValue(s[0], base) != None {
      ScanStops(s[1..], base, acc * base + DigitValue(s[0], base).value);
    }
  }

  lemma StrtollStops(data: seq<Byte>, p: nat)
    requires data != [] && data[|data| - 1] == 0 && p < |data| && Strtoll(data[p..]).Some?
    ensures p + Strtoll(data[p..]).value.1 < |data|
  {
    var s := data[p..];
    hide ScanDigits;
    UnsignedStops(s);
    if s[0] == 45 || s[0] == 43 {
      UnsignedStops(s[1..]);
    }
    assert s[0..] == s;
  }

  lemma UnsignedStops(s: seq<Byte>)
    requires s != [] && s[|s| - 1] == 0
    ensures Unsigned(s).Some? ==> Unsigned(s).value.1 < |s|
  {
    hide ScanDigits;
    if IsHexPrefix(s) {
      ScanStops(s[2..], 16, 0);
    }
    ScanStops(s, if s[0] == 48 then 8 else 10, 0);
  }

  lemma WordStops(data: seq<Byte>, p: nat, word: seq<Byte>)
    requires data != [] && data[|data| - 1] == 0 && p < |data| && word <= data[p..]
    requires word != [] && word[|word| - 1] != 0
    ensures p + |word| < |data|
  {
    assert data[p..][|word| - 1] == word[|word| - 1];
  }

  // ---- strings ----

  // What has been read from start to p is acc.
  ghost predicate StringFrom(data: seq<Byte>, start: nat, acc: seq<Byte>, p: nat) {
    start <= p <= |data| && StringBody(data[start..]) == Cons(acc, p - start, StringBody(data[p..]))
  }

  lemma StringFromStart(data: seq<Byte>, start: nat)
    requires start <= |data|
    ensures StringFrom(data, start, [], start)
  {
    hide StringBody;
    var r := StringBody(data[start..]);
    if r.Some? {
      assert [] + r.value.0 == r.value.0;
    }
  }

  lemma StringFails(data: seq<Byte>, start: nat, acc: seq<Byte>, p: nat)
    requires StringFrom(data, start, acc, p) && p < |data|
    requires data[p] == 0
             || (data[p] == BACKSLASH && p + 1 < |data| && data[p + 1] != LOWER_U && Unescaped(data[p + 1]) == 0)
    ensures StringBody(data[start..]) == None
  {
    var s := data[p..];
    assert s[0] == data[p];
    assert p + 1 < |data| ==> s[1] == data[p + 1];
    assert StringBody(s) == None;
  }

  lemma StringUnicode(data: seq<Byte>, start: nat, acc: seq<Byte>, p: nat)
    requires StringFrom(data, start, acc, p) && p + 1 < |data| && data[p] == BACKSLASH && data[p + 1] == LOWER_U
    ensures UnicodeEscape(data[p..]) == None ==> StringBody(data[start..]) == None
    ensures UnicodeEscape(data[p..]).Some? ==>
              var (b, n) := UnicodeEscape(data[p..]).value;
              StringFrom(data, start, acc + b, p + n)
  {
    var s := data[p..];
    assert s[0] == data[p] && s[1] == data[p + 1];
    hide UnicodeEscape;
    if UnicodeEscape(s).Some? {
      var n := UnicodeEscape(s).value.1;
      assert s[n..] == data[p + n..];
      ConsTwice(acc, p - start, UnicodeEscape(s).value.0, n, StringBody(s[n..]));
    }
  }

  lemma StringOne(data: seq<Byte>, start: nat, acc: seq<Byte>, p: nat)
    requires StringFrom(data, start, acc, p) && p < |data| && data[p] != 0 && data[p] != QUOTE
    ensures data[p] != BACKSLASH ==> StringFrom(data, start, acc + [data[p]], p + 1)
    ensures data[p] == BACKSLASH && p + 1 < |data| && data[p + 1] != LOWER_U && Unescaped(data[p + 1]) != 0 ==>
              StringFrom(data, start, acc + [Unescaped(data[p + 1])], p + 2)
  {
    hide UnicodeEscape;
    var s := data[p..];
    assert s[0] == data[p] && s[1..] == data[p + 1..];
    if data[p] != BACKSLASH {
      ConsTwice(acc, p - start, [data[p]], 1, StringBody(s[1..]));
    } else if p + 1 < |data| && data[p + 1] != LOWER_U && Unescaped(data[p + 1]) != 0 {
      assert s[1] == data[p + 1] && s[2..] == data[p + 2..];
      ConsTwice(acc, p - start, [Unescaped(data[p + 1])], 2, StringBody(s[2..]));
    }
  }

  lemma ConsTwice(a: seq<Byte>, n: nat, b: seq<Byte>, k: nat, r: Option<(seq<Byte>, nat)>)
    ensures Cons(a, n, Cons(b, k, r)) == Cons(a + b, n + k, r)
  {
    if r.Some? {
      assert a + (b + r.value.0) == a + b + r.value.0;
    }
  }

  lemma StringEnds(data: seq<Byte>, start: nat, acc: seq<Byte>, p: nat)
    requires StringFrom(data, start, acc, p) && p < |data| && data[p] == QUOTE
    ensures StringBody(data[start..]) == Some((acc, p - start + 1))
  {
    var s := data[p..];
    assert s[0] == QUOTE && StringBody(s) == Some(([], 1));
    assert acc + [] == acc;
  }

  // ---- tokens ----

  ghost predicate Lexed(data: seq<Byte>, p: nat, t: Token, q: nat) {
    p <= q <= |data| && NextToken(data[p..]) == (t, q - p)
  }

  // t is the token from p, and ends at q unless it is an error.
  ghost predicate Current(data: seq<Byte>, p: nat, t: Token, q: nat) {
    p <= |data| && if t == Error then NextToken(data[p..]).0 == Error else Lexed(data, p, t, q)
  }

  ghost predicate Skipped(data: seq<Byte>, start: nat, p: nat) {
    start <= p <= |data| && SkipSpace(data[start..]) == p - start + SkipSpace(data[p..])
  }

  // The token is at p.
  ghost predicate SpaceDone(data: seq<Byte>, start: nat, p: nat) {
    start <= p <= |data| && NextToken(data[start..]) == (TokenAt(data[p..]).0, p - start + TokenAt(data[p..]).1)
  }

  lemma SpaceStart(data: seq<Byte>, start: nat)
    requires start <= |data|
    ensures Skipped(data, start, start)
  {
  }

  lemma SpaceNext(data: seq<Byte>, start: nat, p: nat)
    requires Skipped(data, start, p) && p < |data| && IsSpace(data[p])
    ensures Skipped(data, start, p + 1) && (|data| > 0 && data[|data| - 1] == 0 ==> p + 1 < |data|)
  {
    assert data[p..][1..] == data[p + 1..];
  }

  lemma SpaceEnd(data: seq<Byte>, start: nat, p: nat)
    requires Skipped(data, start, p) && p < |data| && !IsSpace(data[p])
    ensures SpaceDone(data, start, p)
  {
    hide TokenAt;
    assert SkipSpace(data[p..]) == 0;
    assert data[start..][p - start..] == data[p..];
  }

  lemma AtToken(data: seq<Byte>, start: nat, p: nat, t: Token, q: nat)
    requires SpaceDone(data, start, p) && TokenAt(data[p..]).0 == t && (t != Error ==> q == p + TokenAt(data[p..]).1)
    ensures Current(data, start, t, q)
  {
    hide TokenAt, NextToken;
  }

  lemma CurrentBounds(data: seq<Byte>, p: nat, t: Token, q: nat)
    requires Current(data, p, t, q)
    ensures t != Error ==> p <= q <= |data|
    ensures t != Error && t != End ==> p < q
  {
    hide NextToken;
  }

  // ---- values ----

  // r is the value at p inside depth tables, up to q.
  ghost predicate IsRead(data: seq<Byte>, p: nat, depth: nat, r: Option<Json>, q: nat) {
    && p <= |data|
    && match r
       case None => ParseValue(data[p..], depth) == None
       case Some(v) => p < q <= |data| && ParseValue(data[p..], depth) == Some((v, q - p))
  }

  ghost predicate TableIsRead(data: seq<Byte>, p: nat, d: Option<(map<Json, Json>, nat)>,
                              r: Option<map<Json, Json>>, q: nat) {
    match r
    case None => d == None
    case Some(m) => p < q <= |data| && d == Some((m, q - p))
  }

  lemma ScalarRead(data: seq<Byte>, p: nat, depth: nat, t: Token, q: nat)
    requires Current(data, p, t, q)
    ensures t.StringToken? ==> IsRead(data, p, depth, Some(Str(t.s)), q)
    ensures t.IntegerToken? ==> IsRead(data, p, depth, Some(Int(t.i)), q)
    ensures t.BooleanToken? ==> IsRead(data, p, depth, Some(Bool(t.b)), q)
    ensures t.NullToken? ==> IsRead(data, p, depth, Some(Null), q)
    ensures t.ObjEnd? || t.ArrEnd? || t.Colon? || t.Comma? || t.End? || t.Error? ==> IsRead(data, p, depth, None, q)
  {
    hide NextToken, ParseObject, ParseArray;
  }

  lemma ObjectRead(data: seq<Byte>, p: nat, depth: nat, q: nat, m: Option<map<Json, Json>>, q2: nat)
    requires Current(data, p, ObjBegin, q) && q <= |data|
    requires TableIsRead(data, q, ParseObject(data[q..], depth + 1), m, q2)
    ensures IsRead(data, p, depth, if m == None then None else Some(Table(m.value)), q2)
  {
    hide NextToken, ParseObject, ParseArray;
    assert data[p..][q - p..] == data[q..];
  }

  lemma ArrayRead(data: seq<Byte>, p: nat, depth: nat, q: nat, m: Option<map<Json, Json>>, q2: nat)
    requires Current(data, p, ArrBegin, q) && q <= |data|
    requires TableIsRead(data, q, ParseArray(data[q..], depth + 1), m, q2)
    ensures IsRead(data, p, depth, if m == None then None else Some(Table(m.value)), q2)
  {
    hide NextToken, ParseObject, ParseArray;
    assert data[p..][q - p..] == data[q..];
  }

  lemma TooDeep(data: seq<Byte>, p: nat, depth: nat, q: nat)
    requires p <= |data| && depth > 0
    ensures depth > MAX_DEPTH ==> TableIsRead(data, p, ParseObject(data[p..], depth), None, q)
    ensures depth > MAX_DEPTH ==> TableIsRead(data, p, ParseArray(data[p..], depth), None, q)
  {
    hide NextToken, ParseMembers, ParseItems;
  }

  // ---- objects ----

  // Reading the object from start comes to reading members from p.
  ghost predicate MembersFrom(data: seq<Byte>, start: nat, p: nat, m: map<Json, Json>, depth: nat) {
    start <= p <= |data| && ParseObject(data[start..], depth) == Shift(ParseMembers(data[p..], m, depth), p - start)
  }

  ghost predicate AfterMemberFrom(data: seq<Byte>, start: nat, q: nat, m: map<Json, Json>, depth: nat) {
    start < q <= |data| && ParseObject(data[start..], depth) == AfterMember(data[q..], m, depth, q - start)
  }

  lemma ObjectStart(data: seq<Byte>, start: nat, depth: nat, t: Token, q: nat)
    requires Current(data, start, t, q) && depth <= MAX_DEPTH
    ensures t == ObjEnd ==> TableIsRead(data, start, ParseObject(data[start..], depth), Some(map[]), q)
    ensures t != ObjEnd ==> MembersFrom(data, start, start, map[], depth)
  {
    hide NextToken, ParseMembers;
  }

  lemma KeyMissing(data: seq<Byte>, start: nat, p: nat, m: map<Json, Json>, depth: nat, t: Token, q: nat)
    requires MembersFrom(data, start, p, m, depth) && Current(data, p, t, q) && !t.StringToken?
    ensures TableIsRead(data, start, ParseObject(data[start..], depth), None, q)
  {
    hide NextToken, ParseValue, ParseObject;
  }

  lemma ColonMissing(data: seq<Byte>, start: nat, p: nat, m: map<Json, Json>, depth: nat, key: seq<Byte>,
                     q: nat, t: Token, q2: nat)
    requires MembersFrom(data, start, p, m, depth) && Current(data, p, StringToken(key), q)
             && Current(data, q, t, q2) && t != Colon
    ensures TableIsRead(data, start, ParseObject(data[start..], depth), None, q2)
  {
    hide NextToken, ParseValue, ParseObject;
    assert data[p..][q - p..] == data[q..];
  }

  lemma MemberRead(data: seq<Byte>, start: nat, p: nat, m: map<Json, Json>, depth: nat, key: seq<Byte>, q: nat, q2: nat,
                   v: Option<Json>, q3: nat)
    requires MembersFrom(data, start, p, m, depth) && Current(data, p, StringToken(key), q)
             && Current(data, q, Colon, q2)
    requires IsRead(data, q2, depth, v, q3)
    ensures p < q < q2 && (v == None ==> TableIsRead(data, start, ParseObject(data[start..], depth), None, q3))
    ensures v.Some? ==> q2 < q3 && AfterMemberFrom(data, start, q3, m[Str(key) := v.value], depth)
  {
    hide NextToken, ParseValue, ParseObject, AfterMember;
    var s := data[p..];
    assert s[q - p..] == data[q..] && s[q2 - p..] == data[q2..];
    if v.Some? {
      assert s[q3 - p..] == data[q3..];
      JsonPieces.MembersUnfold(s, m, depth, key, q - p, q2 - q, v.value, q3 - q2);
      JsonPieces.AfterMemberShift(data[q3..], m[Str(key) := v.value], depth, q3 - p, p - start);
    } else {
      ValueMissing(s, m, depth, key, q - p, q2 - q);
    }
  }

  lemma ValueMissing(s: seq<Byte>, m: map<Json, Json>, depth: nat, key: seq<Byte>, n: nat, n2: nat)
    requires 0 < n && n + n2 <= |s|
    requires NextToken(s) == (StringToken(key), n) && NextToken(s[n..]) == (Colon, n2)
    requires ParseValue(s[n + n2..], depth) == None
    ensures ParseMembers(s, m, depth) == None
  {
    hide NextToken, ParseValue, AfterMember;
  }

  lemma MemberAfter(data: seq<Byte>, start: nat, q: nat, m: map<Json, Json>, depth: nat, t: Token, q2: nat)
    requires AfterMemberFrom(data, start, q, m, depth) && Current(data, q, t, q2)
    ensures t == ObjEnd ==> TableIsRead(data, start, ParseObject(data[start..], depth), Some(m), q2)
    ensures t == Comma ==> q < q2 && MembersFrom(data, start, q2, m, depth)
    ensures t != ObjEnd && t != Comma ==> TableIsRead(data, start, ParseObject(data[start..], depth), None, q2)
  {
    hide NextToken, ParseMembers, ParseObject, AfterMember;
    AfterMembersUnfold(data[q..], m, depth, q - start);
    if t != Error {
      assert data[q..][q2 - q..] == data[q2..];
    }
  }

  lemma AfterMembersUnfold(s: seq<Byte>, m: map<Json, Json>, depth: nat, k: nat)
    ensures NextToken(s).0 == ObjEnd ==> AfterMember(s, m, depth, k) == Some((m, k + NextToken(s).1))
    ensures NextToken(s).0 == Comma ==>
              AfterMember(s, m, depth, k) == Shift(ParseMembers(s[NextToken(s).1..], m, depth), k + NextToken(s).1)
    ensures NextToken(s).0 != ObjEnd && NextToken(s).0 != Comma ==> AfterMember(s, m, depth, k) == None
  {
    hide NextToken, ParseMembers;
  }

  // ---- arrays ----

  ghost predicate ItemsFrom(data: seq<Byte>, start: nat, p: nat, i: Int64, m: map<Json, Json>, depth: nat) {
    start <= p <= |data| && ParseArray(data[start..], depth) == Shift(ParseItems(data[p..], i, m, depth), p - start)
  }

  ghost predicate AfterItemFrom(data: seq<Byte>, start: nat, q: nat, i: Int64, m: map<Json, Json>, depth: nat) {
    start < q <= |data| && ParseArray(data[start..], depth) == AfterItem(data[q..], i, m, depth, q - start)
  }

  lemma ArrayStart(data: seq<Byte>, start: nat, depth: nat, t: Token, q: nat)
    requires Current(data, start, t, q) && depth <= MAX_DEPTH
    ensures t == ArrEnd ==> TableIsRead(data, start, ParseArray(data[start..], depth), Some(map[]), q)
    ensures t != ArrEnd ==> ItemsFrom(data, start, start, 1, map[], depth)
  {
    hide NextToken, ParseItems;
  }

  lemma ItemRead(data: seq<Byte>, start: nat, p: nat, i: Int64, m: map<Json, Json>, depth: nat, v: Option<Json>, q: nat)
    requires ItemsFrom(data, start, p, i, m, depth) && IsRead(data, p, depth, v, q)
    ensures v == None ==> TableIsRead(data, start, ParseArray(data[start..], depth), None, q)
    ensures v.Some? ==> p < q && AfterItemFrom(data, start, q, i, m[Int(i) := v.value], depth)
  {
    hide ParseValue, ParseArray, AfterItem;
    if v.Some? {
      assert data[p..][q - p..] == data[q..];
      JsonPieces.AfterItemShift(data[q..], i, m[Int(i) := v.value], depth, q - p, p - start);
    }
  }

  lemma ItemAfter(data: seq<Byte>, start: nat, q: nat, i: Int64, m: map<Json, Json>, depth: nat, t: Token, q2: nat)
    requires AfterItemFrom(data, start, q, i, m, depth) && Current(data, q, t, q2)
    ensures t == ArrEnd ==> TableIsRead(data, start, ParseArray(data[start..], depth), Some(m), q2)
    ensures t == Comma && i < 0x7FFF_FFFF ==> q < q2 && ItemsFrom(data, start, q2, i + 1, m, depth)
    ensures t != ArrEnd && (t != Comma || i >= 0x7FFF_FFFF) ==>
              TableIsRead(data, start, ParseArray(data[start..], depth), None, q2)
  {
    hide NextToken, ParseItems, ParseArray, AfterItem;
    AfterItemUnfolds(data[q..], i, m, depth, q - start);
    if t != Error {
      assert data[q..][q2 - q..] == data[q2..];
    }
  }

  lemma AfterItemUnfolds(s: seq<Byte>, i: Int64, m: map<Json, Json>, depth: nat, k: nat)
    ensures NextToken(s).0 == ArrEnd ==> AfterItem(s, i, m, depth, k) == Some((m, k + NextToken(s).1))
    ensures NextToken(s).0 == Comma && i < 0x7FFF_FFFF ==>
              AfterItem(s, i, m, depth, k)
              == Shift(ParseItems(s[NextToken(s).1..], i + 1, m, depth), k + NextToken(s).1)
    ensures NextToken(s).0 != ArrEnd && !(NextToken(s).0 == Comma && i < 0x7FFF_FFFF) ==>
              AfterItem(s, i, m, depth, k) == None
  {
    hide NextToken, ParseItems;
  }

  // json_decode
  method Decode(text: seq<Byte>) returns (r: Option<Json>)
    ensures r == JsonText.Decode(text)
  {
    hide NextToken, ParseValue;
    if |text| >= 2 && (text[0] == 0 || text[1] == 0) { return None; }
    var json := new Parser(text);
    var t := json.NextToken();
    var v := json.ProcessValue(t, 0);
    assert json.data[0..] == json.data;
    if v == None { return None; }
    t := json.NextToken();
    if t != End { return None; }
    return v;
  }
}
