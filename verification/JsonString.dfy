// JSON strings as lua_cjson.c writes and reads them: escapes on the way out; escapes, UTF-16
// surrogate pairs and UTF-8 on the way in.
module JsonString {
  import opened Arith
  import opened Reading

  const QUOTE: Byte := 34
  const BACKSLASH: Byte := 92
  const SLASH: Byte := 47
  const LOWER_U: Byte := 117
  const DELETE: Byte := 127

  // ---- escaping ----

  function HexDigit(d: nat): Byte
    requires d < 16
  {
    if d < 10 then 48 + d else 87 + d
  }

  // The letter that stands for c after a backslash; 0 where there is none.
  function EscapeLetter(c: Byte): Byte {
    if c == QUOTE || c == BACKSLASH || c == SLASH then c
    else if c == 8 then 98
    else if c == 9 then 116
    else if c == 10 then 110
    else if c == 12 then 102
    else if c == 13 then 114
    else 0
  }

  function Escaped(c: Byte): (e: seq<Byte>)
    ensures 1 <= |e| <= 6
  {
    if EscapeLetter(c) != 0 then [BACKSLASH, EscapeLetter(c)]
    else if c < 32 || c == DELETE then [BACKSLASH, LOWER_U, 48, 48, HexDigit(c / 16), HexDigit(c % 16)]
    else [c]
  }

  function EscapedAll(s: seq<Byte>): (e: seq<Byte>)
    ensures |s| <= |e| <= 6 * |s|
  {
    if s == [] then [] else Escaped(s[0]) + EscapedAll(s[1..])
  }

  // A string with its quotes.
  function Quoted(s: seq<Byte>): (e: seq<Byte>)
    ensures |e| <= 6 * |s| + 2
  {
    [QUOTE] + EscapedAll(s) + [QUOTE]
  }

  // ---- reading an escape ----

  function HexValue(c: Byte): Option<nat> {
    if 48 <= c <= 57 then Some(c - 48)
    else if 97 <= c <= 102 then Some(c - 87)
    else if 65 <= c <= 70 then Some(c - 55)
    else None
  }

  function Hex4(s: seq<Byte>): (r: Option<nat>)
    ensures r.Some? ==> |s| >= 4 && r.value < 0x1_0000
  {
    if |s| < 4 || HexValue(s[0]) == None || HexValue(s[1]) == None || HexValue(s[2]) == None || HexValue(s[3]) == None
    then None
    else Some(0x1000 * HexValue(s[0]).value + 0x100 * HexValue(s[1]).value
              + 0x10 * HexValue(s[2]).value + HexValue(s[3]).value)
  }

  // Section 3 of RFC 3629, up to the four-byte form.
  function Utf8(c: nat): (u: seq<Byte>)
    requires c < 0x20_0000
    ensures 1 <= |u| <= 4
  {
    if c < 0x80 then [c]
    else if c < 0x800 then [0xC0 + c / 0x40, 0x80 + c % 0x40]
    else if c < 0x1_0000 then [0xE0 + c / 0x1000, 0x80 + c / 0x40 % 0x40, 0x80 + c % 0x40]
    else [0xF0 + c / 0x4_0000, 0x80 + c / 0x1000 % 0x40, 0x80 + c / 0x40 % 0x40, 0x80 + c % 0x40]
  }

  predicate IsHigh(u: nat) { 0xD800 <= u < 0xDC00 }

  predicate IsLow(u: nat) { 0xDC00 <= u < 0xE000 }

  // The scalar value of a surrogate pair.
  function Scalar(high: nat, low: nat): (c: nat)
    requires IsHigh(high) && IsLow(low)
    ensures 0x1_0000 <= c < 0x11_0000
  {
    0x1_0000 + 0x400 * (high - 0xD800) + (low - 0xDC00)
  }

  // What the escape \uXXXX at the front of s stands for, and its length: one code unit, or a
  // surrogate pair that takes two escapes.  Lone surrogates are errors.
  function UnicodeEscape(s: seq<Byte>): (r: Option<(seq<Byte>, nat)>)
    requires |s| >= 2
    ensures r.Some? ==> 1 <= |r.value.0| <= 4 <= r.value.1 <= |s|
  {
    match Hex4(s[2..])
    case None => None
    case Some(u) =>
      if IsLow(u) then None
      else if !IsHigh(u) then Some((Utf8(u), 6))
      else if |s| < 8 || s[6] != BACKSLASH || s[7] != LOWER_U then None
      else match Hex4(s[8..])
        case None => None
        case Some(low) => if IsLow(low) then Some((Utf8(Scalar(u, low)), 12)) else None
  }

  // What a backslash and this letter stand for; 0 for an error.
  function Unescaped(letter: Byte): Byte {
    if letter == QUOTE || letter == BACKSLASH || letter == SLASH then letter
    else if letter == 98 then 8
    else if letter == 116 then 9
    else if letter == 110 then 10
    else if letter == 102 then 12
    else if letter == 114 then 13
    else 0
  }

  // ---- reading a string ----

  function Cons(b: seq<Byte>, n: nat, r: Option<(seq<Byte>, nat)>): Option<(seq<Byte>, nat)> {
    match r
    case None => None
    case Some((s, k)) => Some((b + s, n + k))
  }

  // From behind the opening quote: the string, and the bytes up to and with the closing quote.
  // A string takes at least as many bytes as it has.
  function StringBody(s: seq<Byte>): (r: Option<(seq<Byte>, nat)>)
    ensures r.Some? ==> |r.value.0| < r.value.1 <= |s|
    decreases |s|
  {
    if s == [] || s[0] == 0 then None
    else if s[0] == QUOTE then Some(([], 1))
    else if s[0] == BACKSLASH then
      if |s| < 2 then None
      else if s[1] == LOWER_U then
        match UnicodeEscape(s)
        case None => None
        case Some((b, n)) => Cons(b, n, StringBody(s[n..]))
      else if Unescaped(s[1]) == 0 then None
      else Cons([Unescaped(s[1])], 2, StringBody(s[2..]))
    else Cons([s[0]], 1, StringBody(s[1..]))
  }

  // ---- writing and reading undo each other ----

  lemma HexBack(d: nat)
    requires d < 16
    ensures HexValue(HexDigit(d)) == Some(d)
  {
  }

  lemma ControlBack(c: Byte, t: seq<Byte>)
    requires c < 128
    ensures UnicodeEscape([BACKSLASH, LOWER_U, 48, 48, HexDigit(c / 16), HexDigit(c % 16)] + t) == Some(([c], 6))
  {
    HexBack(c / 16);
    HexBack(c % 16);
    hide HexDigit, HexValue;
    var s := [BACKSLASH, LOWER_U, 48, 48, HexDigit(c / 16), HexDigit(c % 16)] + t;
    var h := s[2..];
    assert h[0] == 48 && h[1] == 48 && h[2] == HexDigit(c / 16) && h[3] == HexDigit(c % 16);
    ZeroDigit();
    assert Hex4(h) == Some(0x10 * (c / 16) + c % 16);
  }

  lemma ZeroDigit()
    ensures HexValue(48) == Some(0)
  {
  }

  // One byte.
  lemma EscapedBack(c: Byte, t: seq<Byte>)
    ensures StringBody(Escaped(c) + t) == Cons([c], |Escaped(c)|, StringBody(t))
  {
    hide StringBody, UnicodeEscape, HexDigit;
    BodyUnfolds(Escaped(c) + t);
    if EscapeLetter(c) != 0 {
      assert ([BACKSLASH, EscapeLetter(c)] + t)[2..] == t;
    } else if c < 32 || c == DELETE {
      ControlBack(c, t);
      assert ([BACKSLASH, LOWER_U, 48, 48, HexDigit(c / 16), HexDigit(c % 16)] + t)[6..] == t;
    } else {
      assert ([c] + t)[1..] == t;
    }
  }

  lemma BodyUnfolds(s: seq<Byte>)
    requires s != [] && s[0] != 0 && s[0] != QUOTE
    ensures s[0] != BACKSLASH ==> StringBody(s) == Cons([s[0]], 1, StringBody(s[1..]))
    ensures s[0] == BACKSLASH && |s| >= 2 && s[1] != LOWER_U && Unescaped(s[1]) != 0 ==>
              StringBody(s) == Cons([Unescaped(s[1])], 2, StringBody(s[2..]))
    ensures s[0] == BACKSLASH && |s| >= 2 && s[1] == LOWER_U && UnicodeEscape(s).Some? ==>
              StringBody(s)
              == Cons(UnicodeEscape(s).value.0, UnicodeEscape(s).value.1, StringBody(s[UnicodeEscape(s).value.1..]))
  {
    hide UnicodeEscape;
  }

  // Any bytes survive, whatever follows the closing quote.
  lemma {:induction false} QuotedBack(s: seq<Byte>, rest: seq<Byte>)
    ensures StringBody(EscapedAll(s) + ([QUOTE] + rest)) == Some((s, |EscapedAll(s)| + 1))
  {
    hide StringBody, Escaped;
    if s == [] {
      ClosingQuote(rest);
      assert EscapedAll(s) + ([QUOTE] + rest) == [QUOTE] + rest;
    } else {
      QuotedBack(s[1..], rest);
      var t := EscapedAll(s[1..]) + ([QUOTE] + rest);
      EscapedBack(s[0], t);
      assert EscapedAll(s) + ([QUOTE] + rest) == Escaped(s[0]) + t;
      assert [s[0]] + s[1..] == s;
    }
  }

  lemma ClosingQuote(rest: seq<Byte>)
    ensures StringBody([QUOTE] + rest) == Some(([], 1))
  {
  }

  // ---- code points ----

  // The code point of a UTF-8 sequence: what the lead byte keeps, and six bits from each other byte.
  function FromUtf8(u: seq<Byte>): int
    requires 1 <= |u| <= 4
  {
    var lead: nat := u[0];
    if |u| == 1 then lead
    else if |u| == 2 then SixBits(lead - 0xC0, u[1..])
    else if |u| == 3 then SixBits(lead - 0xE0, u[1..])
    else SixBits(lead - 0xF0, u[1..])
  }

  function SixBits(c: int, u: seq<Byte>): int
    decreases u
  {
    if u == [] then c else var b: nat := u[0]; SixBits(0x40 * c + (b - 0x80), u[1..])
  }

  lemma Utf8Back(c: nat)
    requires c < 0x20_0000
    ensures FromUtf8(Utf8(c)) == c
  {
    assert c / 0x40 / 0x40 == c / 0x1000 && c / 0x1000 / 0x40 == c / 0x4_0000;
    var u := Utf8(c);
    if |u| == 2 {
      assert u[1..] == [0x80 + c % 0x40];
      SixBitsOnto(c / 0x40, c % 0x40, []);
    } else if |u| == 3 {
      assert u[1..] == [0x80 + c / 0x40 % 0x40] + [0x80 + c % 0x40];
      SixBitsOnto(c / 0x1000, c / 0x40 % 0x40, [0x80 + c % 0x40]);
      SixBitsOnto(c / 0x40, c % 0x40, []);
    } else if |u| == 4 {
      assert u[1..] == [0x80 + c / 0x1000 % 0x40] + ([0x80 + c / 0x40 % 0x40] + [0x80 + c % 0x40]);
      SixBitsOnto(c / 0x4_0000, c / 0x1000 % 0x40, [0x80 + c / 0x40 % 0x40] + [0x80 + c % 0x40]);
      SixBitsOnto(c / 0x1000, c / 0x40 % 0x40, [0x80 + c % 0x40]);
      SixBitsOnto(c / 0x40, c % 0x40, []);
    }
  }

  lemma SixBitsOnto(c: int, six: nat, rest: seq<Byte>)
    requires six < 0x40
    ensures SixBits(c, [0x80 + six] + rest) == SixBits(0x40 * c + six, rest)
    ensures [0x80 + six] + [] == [0x80 + six] && SixBits(c, []) == c
  {
    assert ([0x80 + six] + rest)[1..] == rest;
  }

  // The number of bytes a lead byte announces; the others are continuation bytes.
  lemma Utf8Shape(c: nat)
    requires c < 0x20_0000
    ensures var u := Utf8(c);
            && (|u| == 1 <==> u[0] < 0x80) && (|u| == 2 ==> 0xC0 <= u[0] < 0xE0)
            && (|u| == 3 ==> 0xE0 <= u[0] < 0xF0) && (|u| == 4 ==> 0xF0 <= u[0] < 0xF8)
            && forall i :: 1 <= i < |u| ==> 0x80 <= u[i] < 0xC0
  {
  }

  // Each scalar value beyond the first plane has one surrogate pair.
  lemma ScalarUnique(high: nat, low: nat, high2: nat, low2: nat)
    requires IsHigh(high) && IsLow(low) && IsHigh(high2) && IsLow(low2) && Scalar(high, low) == Scalar(high2, low2)
    ensures high == high2 && low == low2
  {
  }
}
