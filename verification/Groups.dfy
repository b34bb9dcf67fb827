// Skipping protobuf values (lua_pb.h): a group is skipped by reading it to its matching end
// tag, which skips the values inside, so the two functions call each other.
module Groups {
  import opened Arith
  import opened Reading
  import opened Varint

  const T_VARINT: nat := 0
  const T_64BIT: nat := 1
  const T_BYTES: nat := 2
  const T_GSTART: nat := 3
  const T_GEND: nat := 4
  const T_32BIT: nat := 5

  function TypeOfTag(tag: nat): nat { tag % 8 }

  function NumberOfTag(tag: nat): nat { tag / 8 }

  // ---- what the functions compute, on what is left of the slice ----

  // The varint at the front of s, and its length.
  function Next(s: seq<Byte>): (r: Option<(nat, nat)>)
    ensures r.Some? ==> 0 < r.value.1 <= |s|
  {
    Read(s, 10)
  }

  // Up to the first byte without a continuation bit, however many there are; 0 where there is none.
  function VarintLen(s: seq<Byte>): (n: nat)
    ensures n <= |s|
  {
    if s == [] then 0
    else if s[0] < 128 then 1
    else var n := VarintLen(s[1..]); if n == 0 then 0 else n + 1
  }

  function BytesLen(s: seq<Byte>): (n: nat)
    ensures n <= |s|
  {
    match Next(s)
    case None => 0
    case Some((x, n)) => if |s| - n < x % U64_MOD then 0 else n + x % U64_MOD
  }

  // How many bytes the value of a field with this tag takes; 0 for a failure.
  function SkipLen(s: seq<Byte>, tag: nat): (n: nat)
    ensures n <= |s|
    decreases |s|, 1
  {
    var t := TypeOfTag(tag);
    if t == T_VARINT then VarintLen(s)
    else if t == T_64BIT then (if |s| < 8 then 0 else 8)
    else if t == T_BYTES then BytesLen(s)
    else if t == T_32BIT then (if |s| < 4 then 0 else 4)
    else if t == T_GSTART then
      match GroupScan(s, tag)
      case None => 0
      case Some((_, n)) => n
    else 0
  }

  // The length of the group's body, and that with its end tag.  A value that cannot be skipped is
  // passed over without its bytes: the next tag is read where that value should have started.
  function GroupScan(s: seq<Byte>, tag: nat): (r: Option<(nat, nat)>)
    ensures r.Some? ==> r.value.0 < r.value.1 <= |s|
    decreases |s|, 0
  {
    match Next(s)
    case None => None
    case Some((x, count)) =>
      var t := x % U32_MOD;
      if TypeOfTag(t) == T_GEND then
        if NumberOfTag(t) == NumberOfTag(tag) then Some((0, count)) else None
      else
        var k := count + SkipLen(s[count..], t);
        match GroupScan(s[k..], tag)
        case None => None
        case Some((body, all)) => Some((k + body, k + all))
  }

  // ---- the methods ----

  method SkipVarint(s: Slice) returns (ret: nat)
    requires s.Valid()
    modifies s
    ensures s.Valid() && ret == VarintLen(old(s.Rest())) && s.p == old(s.p) + ret
  {
    var p: nat := s.p;
    while p < |s.data| && s.data[p] >= 128
      invariant s.p == old(s.p) <= p <= |s.data|
      invariant VarintLen(s.data[s.p..]) ==
                var n := VarintLen(s.data[p..]); if n == 0 then 0 else p - s.p + n
    {
      assert s.data[p..][1..] == s.data[p + 1..];
      p := p + 1;
    }
    if p >= |s.data| { return 0; }
    p := p + 1;
    ret := p - s.p;
    s.p := p;
  }

  method SkipSlice(s: Slice, len: nat) returns (ret: nat)
    requires s.Valid()
    modifies s
    ensures s.Valid() && ret == (if |old(s.Rest())| < len then 0 else len) && s.p == old(s.p) + ret
  {
    if s.p + len > |s.data| { return 0; }
    s.p := s.p + len;
    return len;
  }

  method SkipBytes(s: Slice) returns (ret: nat)
    requires s.Valid()
    modifies s
    ensures s.Valid() && ret == BytesLen(old(s.Rest())) && s.p == old(s.p) + ret
  {
    hide Read;
    var p := s.p;
    var n, x := s.ReadVarint64();
    if n == 0 { return 0; }
    if |s.data| - s.p < x {
      s.p := p;
      return 0;
    }
    s.p := s.p + x;
    return s.p - p;
  }

  // On failure the cursor is where it was.
  method SkipValue(s: Slice, tag: nat) returns (ret: nat)
    requires s.Valid()
    modifies s
    ensures s.Valid() && ret == SkipLen(old(s.Rest()), tag) && s.p == old(s.p) + ret
    decreases |s.data| - s.p, 1
  {
    var p := s.p;
    ret := 0;
    var t := TypeOfTag(tag);
    if t == T_VARINT {
      ret := SkipVarint(s);
    } else if t == T_64BIT {
      ret := SkipSlice(s, 8);
    } else if t == T_BYTES {
      ret := SkipBytes(s);
    } else if t == T_32BIT {
      ret := SkipSlice(s, 4);
    } else if t == T_GSTART {
      var lo, hi;
      ret, lo, hi := ReadGroup(s, tag);
    }
    if ret == 0 { s.p := p; }
  }

  // The body is data[lo..hi].
  method ReadGroup(s: Slice, tag: nat) returns (ret: nat, lo: nat, hi: nat)
    requires s.Valid() && TypeOfTag(tag) == T_GSTART
    modifies s
    ensures s.Valid() && s.p == old(s.p) + ret
    ensures match GroupScan(old(s.Rest()), tag)
            case None => ret == 0
            case Some((body, all)) => ret == all && lo == old(s.p) && hi == lo + body
    decreases |s.data| - s.p, 0
  {
    hide GroupScan, SkipLen, ScansOn, Answers, TypeOfTag, NumberOfTag;
    var p := s.p;
    lo, hi := 0, 0;
    ScansOnStart(s.data, p, tag);
    while true
      invariant s.Valid() && p == old(s.p) <= s.p
      invariant ScansOn(s.data, p, s.p, tag)
      decreases |s.data| - s.p
    {
      ghost var q := s.p;
      var count, newtag := s.ReadVarint32();
      if count == 0 {
        ScansOnEnd(s.data, p, q, tag, newtag);
        break;
      }
      ScansOnStep(s.data, p, q, tag, count, newtag);
      if TypeOfTag(newtag) == T_GEND {
        if NumberOfTag(newtag) != NumberOfTag(tag) { break; }
        return s.p - p, p, s.p - count;
      }
      var skipped := SkipValue(s, newtag);
    }
    s.p := p;
    return 0, 0, 0;
  }

  // One tag of a group.
  lemma ScanStep(s: seq<Byte>, tag: nat, t: nat, count: nat)
    requires Tagged(s, t, count)
    ensures TypeOfTag(t) == T_GEND && NumberOfTag(t) == NumberOfTag(tag) ==> GroupScan(s, tag) == Some((0, count))
    ensures TypeOfTag(t) == T_GEND && NumberOfTag(t) != NumberOfTag(tag) ==> GroupScan(s, tag) == None
    ensures TypeOfTag(t) != T_GEND ==>
              var k := count + SkipLen(s[count..], t);
              GroupScan(s, tag) == ShiftBoth(GroupScan(s[k..], tag), k)
  {
    hide Next, SkipLen, TypeOfTag, NumberOfTag;
  }

  ghost predicate Tagged(s: seq<Byte>, t: nat, count: nat)
    ensures Tagged(s, t, count) ==> 0 < count <= |s|
  {
    var r := Next(s);
    r.Some? && r.value.1 == count && r.value.0 % U32_MOD == t
  }

  function ShiftBoth(r: Option<(nat, nat)>, k: nat): Option<(nat, nat)> {
    match r
    case None => None
    case Some((body, all)) => Some((k + body, k + all))
  }

  // Scanning from p comes to scanning from q.
  ghost predicate ScansOn(data: seq<Byte>, p: nat, q: nat, tag: nat) {
    p <= q <= |data| && GroupScan(data[p..], tag) == ShiftBoth(GroupScan(data[q..], tag), q - p)
  }

  lemma ScansOnStart(data: seq<Byte>, p: nat, tag: nat)
    requires p <= |data|
    ensures ScansOn(data, p, p, tag)
  {
    hide GroupScan;
  }

  lemma ScansOnEnd(data: seq<Byte>, p: nat, q: nat, tag: nat, v: nat)
    requires ScansOn(data, p, q, tag) && Answers(data[q..], 0, v, U32_MOD)
    ensures GroupScan(data[p..], tag) == None
  {
    hide Read;
  }

  lemma ScansOnStep(data: seq<Byte>, p: nat, q: nat, tag: nat, count: nat, t: nat)
    requires ScansOn(data, p, q, tag) && Answers(data[q..], count, t, U32_MOD) && count > 0
    ensures TypeOfTag(t) == T_GEND ==>
              GroupScan(data[p..], tag) ==
              if NumberOfTag(t) == NumberOfTag(tag) then Some((q - p, q - p + count)) else None
    ensures TypeOfTag(t) != T_GEND ==> ScansOn(data, p, q + count + SkipLen(data[q + count..], t), tag)
  {
    hide Read, SkipLen, GroupScan, TypeOfTag, NumberOfTag;
    ScanStep(data[q..], tag, t, count);
    assert data[q..][count..] == data[q + count..];
    var k := count + SkipLen(data[q + count..], t);
    assert data[q..][k..] == data[q + k..];
  }

  // ---- encoded messages ----

  // Any encoding a writer may choose: varints need not be the shortest.
  datatype Value =
    | VarintValue(bytes: seq<Byte>)
    | Fixed64(bytes: seq<Byte>)
    | Bytes(len: seq<Byte>, payload: seq<Byte>)
    | Group(body: Fields, close: seq<Byte>)
    | Fixed32(bytes: seq<Byte>)

  datatype Fields = Done | More(key: seq<Byte>, number: nat, value: Value, rest: Fields)

  function WireType(v: Value): nat {
    match v
    case VarintValue(_) => T_VARINT
    case Fixed64(_) => T_64BIT
    case Bytes(_, _) => T_BYTES
    case Group(_, _) => T_GSTART
    case Fixed32(_) => T_32BIT
  }

  // All of b is one varint, x modulo m.
  ghost predicate Denotes(b: seq<Byte>, x: nat, m: nat)
    requires m > 0
  {
    var r := Next(b);
    r.Some? && r.value.1 == |b| && r.value.0 % m == x
  }

  ghost predicate WellFormed(v: Value, number: nat) {
    match v
    case VarintValue(b) => b != [] && VarintLen(b) == |b|
    case Fixed64(b) => |b| == 8
    case Bytes(len, payload) => Denotes(len, |payload|, U64_MOD)
    case Group(body, close) => WellFormedFields(body) && Denotes(close, 8 * number + T_GEND, U32_MOD)
    case Fixed32(b) => |b| == 4
  }

  ghost predicate WellFormedFields(f: Fields) {
    match f
    case Done => true
    case More(key, number, v, rest) =>
      Denotes(key, 8 * number + WireType(v), U32_MOD) && WellFormed(v, number) && WellFormedFields(rest)
  }

  function Encode(v: Value): seq<Byte> {
    match v
    case VarintValue(b) => b
    case Fixed64(b) => b
    case Bytes(len, payload) => len + payload
    case Group(body, close) => EncodeFields(body) + close
    case Fixed32(b) => b
  }

  function EncodeFields(f: Fields): seq<Byte> {
    match f
    case Done => []
    case More(key, _, v, rest) => key + (Encode(v) + EncodeFields(rest))
  }

  // ---- a value is skipped exactly ----

  lemma {:induction false} ReadExtends(s: seq<Byte>, k: nat, t: seq<Byte>)
    requires Read(s, k).Some?
    ensures Read(s + t, k) == Read(s, k)
    decreases k
  {
    if s[0] >= 128 {
      assert (s + t)[1..] == s[1..] + t;
      ReadExtends(s[1..], k - 1, t);
    }
  }

  lemma {:induction false} VarintLenExtends(s: seq<Byte>, t: seq<Byte>)
    requires VarintLen(s) > 0
    ensures VarintLen(s + t) == VarintLen(s)
  {
    if s[0] >= 128 {
      assert (s + t)[1..] == s[1..] + t;
      VarintLenExtends(s[1..], t);
    }
  }

  lemma NextExtends(s: seq<Byte>, t: seq<Byte>)
    requires Next(s).Some?
    ensures Next(s + t) == Next(s)
  {
    hide Read;
    ReadExtends(s, 10, t);
  }

  // Skipping succeeds, and so does every skip on the way.
  ghost predicate Clean(s: seq<Byte>, tag: nat)
    decreases |s|, 1
  {
    SkipLen(s, tag) > 0 && (TypeOfTag(tag) == T_GSTART ==> CleanBody(s, tag))
  }

  ghost predicate CleanBody(s: seq<Byte>, tag: nat)
    decreases |s|, 0
  {
    match Next(s)
    case None => false
    case Some((x, count)) =>
      var t := x % U32_MOD;
      if TypeOfTag(t) == T_GEND then NumberOfTag(t) == NumberOfTag(tag)
      else Clean(s[count..], t) && CleanBody(s[count + SkipLen(s[count..], t)..], tag)
  }

  lemma CleanOutside(s: seq<Byte>, tag: nat)
    ensures Clean(s, tag) == (SkipLen(s, tag) > 0 && (TypeOfTag(tag) == T_GSTART ==> CleanBody(s, tag)))
  {
  }

  lemma CleanStep(s: seq<Byte>, tag: nat, t: nat, count: nat)
    requires Tagged(s, t, count)
    ensures TypeOfTag(t) == T_GEND ==> CleanBody(s, tag) == (NumberOfTag(t) == NumberOfTag(tag))
    ensures TypeOfTag(t) != T_GEND ==>
              CleanBody(s, tag) == (Clean(s[count..], t) && CleanBody(s[count + SkipLen(s[count..], t)..], tag))
  {
    hide Next, SkipLen, TypeOfTag, NumberOfTag, Clean;
  }

  // Whatever follows, pb_skipvalue takes the value and no more.
  lemma {:induction false} SkipsValue(v: Value, number: nat, rest: seq<Byte>)
    requires WellFormed(v, number)
    ensures SkipLen(Encode(v) + rest, 8 * number + WireType(v)) == |Encode(v)| > 0
    ensures Clean(Encode(v) + rest, 8 * number + WireType(v))
    decreases v
  {
    hide Next, GroupScan, EncodeFields, Clean, CleanBody;
    CleanOutside(Encode(v) + rest, 8 * number + WireType(v));
    match v
    case VarintValue(b) =>
      VarintLenExtends(b, rest);
    case Fixed64(b) =>
    case Bytes(len, payload) =>
      assert Encode(v) + rest == len + (payload + rest);
      NextExtends(len, payload + rest);
    case Group(body, close) =>
      assert Encode(v) + rest == EncodeFields(body) + (close + rest);
      ScansBody(body, close, rest, 8 * number + T_GSTART);
    case Fixed32(b) =>
  }

  // Whatever follows, pb_readgroup finds the body up to the end tag that matches.
  lemma {:induction false} ScansBody(f: Fields, close: seq<Byte>, rest: seq<Byte>, tag: nat)
    requires WellFormedFields(f) && Denotes(close, 8 * NumberOfTag(tag) + T_GEND, U32_MOD)
    ensures GroupScan(EncodeFields(f) + (close + rest), tag) == Some((|EncodeFields(f)|, |EncodeFields(f)| + |close|))
    ensures CleanBody(EncodeFields(f) + (close + rest), tag)
    decreases f
  {
    hide Next, GroupScan, SkipLen, Clean, CleanBody;
    match f
    case Done =>
      NextExtends(close, rest);
      assert EncodeFields(f) + (close + rest) == close + rest;
      ScanStep(close + rest, tag, 8 * NumberOfTag(tag) + T_GEND, |close|);
      CleanStep(close + rest, tag, 8 * NumberOfTag(tag) + T_GEND, |close|);
    case More(key, number, v, more) =>
      var tail := EncodeFields(more) + (close + rest);
      SkipsValue(v, number, tail);
      ScansBody(more, close, rest, tag);
      NextExtends(key, Encode(v) + tail);
      ScansField(key, 8 * number + WireType(v), Encode(v), tail, tag);
      assert EncodeFields(f) + (close + rest) == key + (Encode(v) + tail);
  }

  // One field in front of a body.
  lemma ScansField(key: seq<Byte>, t: nat, v: seq<Byte>, tail: seq<Byte>, tag: nat)
    requires Tagged(key + (v + tail), t, |key|) && TypeOfTag(t) != T_GEND
    requires SkipLen(v + tail, t) == |v| && Clean(v + tail, t)
    ensures GroupScan(key + (v + tail), tag) == ShiftBoth(GroupScan(tail, tag), |key| + |v|)
    ensures CleanBody(tail, tag) ==> CleanBody(key + (v + tail), tag)
  {
    hide *;
    var s := key + (v + tail);
    assert s[|key|..] == v + tail && s[|key| + |v|..] == tail;
    ScanStep(s, tag, t, |key|);
    CleanStep(s, tag, t, |key|);
  }

  // ---- and what is skipped is a value ----

  lemma {:induction false} ReadPrefix(s: seq<Byte>, k: nat)
    requires Read(s, k).Some?
    ensures Read(s[..Read(s, k).value.1], k) == Read(s, k)
    decreases k
  {
    if s[0] >= 128 {
      var n := Read(s, k).value.1;
      assert s[..n][1..] == s[1..][..n - 1];
      ReadPrefix(s[1..], k - 1);
    }
  }

  lemma {:induction false} VarintLenPrefix(s: seq<Byte>)
    requires VarintLen(s) > 0
    ensures VarintLen(s[..VarintLen(s)]) == VarintLen(s)
  {
    if s[0] >= 128 {
      var n := VarintLen(s);
      assert s[..n][1..] == s[1..][..n - 1];
      VarintLenPrefix(s[1..]);
    }
  }

  lemma NextPrefix(s: seq<Byte>)
    requires Next(s).Some?
    ensures Next(s[..Next(s).value.1]) == Next(s)
  {
    hide Read;
    ReadPrefix(s, 10);
  }

  // A clean skip takes an encoded value.
  lemma {:induction false} Parse(s: seq<Byte>, tag: nat) returns (v: Value)
    requires Clean(s, tag)
    ensures WellFormed(v, NumberOfTag(tag)) && WireType(v) == TypeOfTag(tag)
    ensures Encode(v) == s[..SkipLen(s, tag)]
    decreases |s|, 1
  {
    hide Next, GroupScan, EncodeFields, WellFormedFields, CleanBody;
    var n := SkipLen(s, tag);
    var t := TypeOfTag(tag);
    if t == T_VARINT {
      VarintLenPrefix(s);
      v := VarintValue(s[..n]);
    } else if t == T_64BIT {
      v := Fixed64(s[..8]);
    } else if t == T_32BIT {
      v := Fixed32(s[..4]);
    } else if t == T_BYTES {
      NextPrefix(s);
      var len := Next(s).value.1;
      v := Bytes(s[..len], s[len..n]);
    } else {
      var f, close := ParseBody(s, tag);
      v := Group(f, close);
    }
  }

  lemma {:induction false} ParseBody(s: seq<Byte>, tag: nat) returns (f: Fields, close: seq<Byte>)
    requires CleanBody(s, tag) && GroupScan(s, tag).Some?
    ensures WellFormedFields(f) && Denotes(close, 8 * NumberOfTag(tag) + T_GEND, U32_MOD)
    ensures EncodeFields(f) + close == s[..GroupScan(s, tag).value.1]
    decreases |s|, 0
  {
    hide *;
    var t, count := FirstTag(s, tag);
    ScanStep(s, tag, t, count);
    CleanStep(s, tag, t, count);
    TagParts(t);
    if TypeOfTag(t) == T_GEND {
      f, close := Done, s[..count];
      NoFields();
      assert [] + s[..count] == s[..count];
    } else {
      var n := SkipLen(s[count..], t);
      CleanIsPositive(s[count..], t);
      var v := Parse(s[count..], t);
      assert s[count..][n..] == s[count + n..];
      Shifted(GroupScan(s[count + n..], tag), count + n);
      var rest;
      rest, close := ParseBody(s[count + n..], tag);
      f := More(s[..count], NumberOfTag(t), v, rest);
      OneField(s[..count], NumberOfTag(t), v, rest);
      ThreeParts(s, count, n, GroupScan(s[count + n..], tag).value.1);
      assert EncodeFields(f) + close == s[..count] + (Encode(v) + (EncodeFields(rest) + close));
    }
  }

  lemma FirstTag(s: seq<Byte>, tag: nat) returns (t: nat, count: nat)
    requires CleanBody(s, tag)
    ensures Tagged(s, t, count) && Denotes(s[..count], t, U32_MOD)
  {
    hide Next;
    NextPrefix(s);
    t, count := Next(s).value.0 % U32_MOD, Next(s).value.1;
  }

  lemma Shifted(r: Option<(nat, nat)>, k: nat)
    ensures ShiftBoth(r, k).Some? == r.Some?
    ensures r.Some? ==> ShiftBoth(r, k).value == (k + r.value.0, k + r.value.1)
  {
  }

  lemma NoFields()
    ensures WellFormedFields(Done) && EncodeFields(Done) == []
  {
  }

  lemma OneField(key: seq<Byte>, number: nat, v: Value, rest: Fields)
    requires Denotes(key, 8 * number + WireType(v), U32_MOD) && WellFormed(v, number) && WellFormedFields(rest)
    ensures WellFormedFields(More(key, number, v, rest))
    ensures EncodeFields(More(key, number, v, rest)) == key + (Encode(v) + EncodeFields(rest))
  {
    hide Denotes, WellFormed;
  }

  lemma CleanIsPositive(s: seq<Byte>, tag: nat)
    requires Clean(s, tag)
    ensures SkipLen(s, tag) > 0
  {
    hide SkipLen;
  }

  lemma TagParts(t: nat)
    ensures t == 8 * NumberOfTag(t) + TypeOfTag(t)
  {
  }

  lemma ThreeParts(s: seq<Byte>, a: nat, b: nat, c: nat)
    requires a + b + c <= |s|
    ensures s[..a] + (s[a..][..b] + s[a + b..][..c]) == s[..a + b + c]
  {
  }

  // Skipping is clean exactly where an encoded value of that type is next.
  lemma CleanIffEncoded(s: seq<Byte>, tag: nat)
    ensures Clean(s, tag) <==>
            exists v :: WellFormed(v, NumberOfTag(tag)) && WireType(v) == TypeOfTag(tag) && Encode(v) <= s
  {
    hide *;
    TagParts(tag);
    if Clean(s, tag) {
      var v := Parse(s, tag);
    }
    if v :| WellFormed(v, NumberOfTag(tag)) && WireType(v) == TypeOfTag(tag) && Encode(v) <= s {
      assert s == Encode(v) + s[|Encode(v)|..];
      SkipsValue(v, NumberOfTag(tag), s[|Encode(v)|..]);
    }
  }

  // Where every skip on the way succeeds there is a group, and what follows it does not matter.
  lemma CleanGroupExtends(s: seq<Byte>, tag: nat, more: seq<Byte>)
    requires CleanBody(s, tag)
    ensures GroupScan(s, tag).Some? && GroupScan(s + more, tag) == GroupScan(s, tag) && CleanBody(s + more, tag)
  {
    hide *;
    CleanBodyScans(s, tag);
    var f, close := ParseBody(s, tag);
    var n := GroupScan(s, tag).value.1;
    GroupInside(s, tag);
    assert s == EncodeFields(f) + (close + s[n..]);
    assert s + more == EncodeFields(f) + (close + (s[n..] + more));
    ScansBody(f, close, s[n..], tag);
    ScansBody(f, close, s[n..] + more, tag);
  }

  lemma GroupInside(s: seq<Byte>, tag: nat)
    ensures GroupScan(s, tag).Some? ==> GroupScan(s, tag).value.1 <= |s|
  {
  }

  lemma {:induction false} CleanBodyScans(s: seq<Byte>, tag: nat)
    requires CleanBody(s, tag)
    ensures GroupScan(s, tag).Some?
    decreases |s|
  {
    hide *;
    var t, count := FirstTag(s, tag);
    ScanStep(s, tag, t, count);
    CleanStep(s, tag, t, count);
    if TypeOfTag(t) != T_GEND {
      var n := SkipLen(s[count..], t);
      CleanIsPositive(s[count..], t);
      CleanBodyScans(s[count + n..], tag);
      Shifted(GroupScan(s[count + n..], tag), count + n);
    }
  }

  // Where a skip inside fails, the group is still read, and what follows decides how far: field 1
  // with 12 bytes missing, whose length reads as the end tag of group 1.
  lemma FailedSkipIsPassedOver()
    ensures GroupScan([0x0A, 0x0C], 0x0B) == Some((1, 2)) && !CleanBody([0x0A, 0x0C], 0x0B)
    ensures GroupScan([0x0A, 0x0C] + seq(12, _ => 0), 0x0B) == None
  {
    var z: seq<Byte> := seq(12, _ => 0);
    PassedOver();
    NotPassedOver(z);
  }

  lemma PassedOver()
    ensures GroupScan([0x0A, 0x0C], 0x0B) == Some((1, 2)) && !CleanBody([0x0A, 0x0C], 0x0B)
  {
    hide Next, BytesLen, GroupScan, CleanBody;
    var s: seq<Byte> := [0x0A, 0x0C];
    SmallTag(0x0A, [0x0C]);
    SmallTag(0x0C, []);
    SmallLength([]);
    assert s == [0x0A] + [0x0C] && s[1..] == [0x0C] + [] && [0x0C] + [] == [0x0C];
    ScanStep(s, 0x0B, 0x0A, 1);
    CleanStep(s, 0x0B, 0x0A, 1);
    ScanStep([0x0C], 0x0B, 0x0C, 1);
  }

  lemma NotPassedOver(z: seq<Byte>)
    requires |z| == 12
    ensures GroupScan([0x0A, 0x0C] + z, 0x0B) == None
  {
    hide Next, BytesLen, GroupScan;
    var s := [0x0A, 0x0C] + z;
    SmallTag(0x0A, [0x0C] + z);
    SmallLength(z);
    assert s == [0x0A] + ([0x0C] + z) && s[1..] == [0x0C] + z && s[14..] == [];
    ScanStep(s, 0x0B, 0x0A, 1);
    NothingLeft(0x0B);
  }

  lemma NothingLeft(tag: nat)
    ensures GroupScan([], tag) == None
  {
  }

  lemma SmallTag(b: Byte, rest: seq<Byte>)
    requires b < 128
    ensures Tagged([b] + rest, b, 1)
  {
  }

  lemma SmallLength(rest: seq<Byte>)
    ensures BytesLen([0x0C] + rest) == if |rest| < 12 then 0 else 13
  {
  }
}
