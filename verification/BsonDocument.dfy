// lua_bson.cpp: reading documents through a cursor, and the document whose bytes are patched in
// place.
module BsonDocument {
  import opened Arith
  import opened Reading
  import opened ByteNumbers
  import opened BsonFormat
  import opened Bson

  // ---- the reader ----

  class Reader {
    const data: seq<Byte>
    var ptr: nat
    var size: nat

    ghost predicate Valid()
      reads this
    {
      ptr + size <= |data|
    }

    ghost function Rest(): (s: seq<Byte>)
      reads this
      requires Valid()
      ensures |s| == size
    {
      data[ptr..][..size]
    }

    constructor (data: seq<Byte>, ptr: nat, size: nat)
      requires ptr + size <= |data|
      ensures Valid() && this.data == data && this.ptr == ptr && this.size == size && Rest() == data[ptr..][..size]
    {
      this.data, this.ptr, this.size := data, ptr, size;
    }

    // None for a size that is negative or too large.
    method ReadBytes(sz: int) returns (r: Option<seq<Byte>>)
      requires Valid()
      modifies this
      ensures Valid() && r.Some? == (0 <= sz <= old(size))
      ensures if r.Some? then r.value == old(Rest())[..sz] && Rest() == old(Rest())[sz..] && ptr == old(ptr) + sz
              else Rest() == old(Rest()) && ptr == old(ptr)
    {
      if sz < 0 || size < sz { return None; }
      r := Some(data[ptr..][..sz]);
      ghost var s := Rest();
      assert s[..sz] == data[ptr..][..sz] && s[sz..] == data[ptr + sz..][..size - sz];
      ptr := ptr + sz;
      size := size - sz;
    }

    method ReadByte() returns (r: Option<Byte>)
      requires Valid()
      modifies this
      ensures Valid() && r.Some? == (old(size) > 0)
      ensures if r.Some? then r.value == old(Rest())[0] && Rest() == old(Rest())[1..] && ptr == old(ptr) + 1
              else Rest() == old(Rest()) && ptr == old(ptr)
    {
      var b := ReadBytes(1);
      if b == None { return None; }
      return Some(b.value[0]);
    }

    method ReadInt32() returns (r: Option<Int64>)
      requires Valid()
      modifies this
      ensures Valid() && r.Some? == (old(size) >= 4)
      ensures if r.Some? then r.value == Int32At(old(Rest())) && Rest() == old(Rest())[4..] && ptr == old(ptr) + 4
              else Rest() == old(Rest()) && ptr == old(ptr)
    {
      var b := ReadBytes(4);
      if b == None { return None; }
      return Some(FromTwos(LeValue(b.value) % U32_MOD, U32_MOD));
    }

    method ReadInt64() returns (r: Option<Int64>)
      requires Valid()
      modifies this
      ensures Valid() && r.Some? == (old(size) >= 8)
      ensures if r.Some? then r.value == FromTwos(LeValue(old(Rest())[..8]) % U64_MOD, U64_MOD)
              && Rest() == old(Rest())[8..]
              else Rest() == old(Rest())
    {
      var b := ReadBytes(8);
      if b == None { return None; }
      return Some(FromTwos(LeValue(b.value) % U64_MOD, U64_MOD));
    }

    method ReadCString() returns (r: Option<seq<Byte>>)
      requires Valid()
      modifies this
      ensures Valid()
      ensures match CString(old(Rest()))
              case None => r == None
              case Some((s, n)) => r == Some(s) && Rest() == old(Rest())[n..] && ptr == old(ptr) + n
    {
      ghost var s := Rest();
      var i: nat := 0;
      CStringFromStart(s);
      while true
        invariant Valid() && s == Rest() && ptr == old(ptr) && i <= size && CStringFrom(s, i)
        decreases size - i
      {
        if i == size {
          CStringMissing(s);
          return None;
        }
        assert data[ptr + i] == s[i];
        if data[ptr + i] == 0 {
          break;
        }
        CStringNext(s, i);
        i := i + 1;
      }
      CStringEnds(s, i);
      r := Some(data[ptr..][..i]);
      assert s[..i] == data[ptr..][..i] && s[i + 1..] == data[ptr + i + 1..][..size - i - 1];
      ptr := ptr + i + 1;
      size := size - (i + 1);
    }
  }

  // No zero before i.
  ghost predicate CStringFrom(s: seq<Byte>, i: nat) {
    && i <= |s|
    && CString(s) == match CString(s[i..])
                     case None => None
                     case Some((b, n)) => Some((s[..i] + b, i + n))
  }

  lemma CStringFromStart(s: seq<Byte>)
    ensures CStringFrom(s, 0)
  {
    hide CString;
    assert s[0..] == s;
    var r := CString(s);
    if r.Some? {
      assert s[..0] + r.value.0 == r.value.0;
    }
  }

  lemma CStringMissing(s: seq<Byte>)
    requires CStringFrom(s, |s|)
    ensures CString(s) == None
  {
  }

  lemma CStringNext(s: seq<Byte>, i: nat)
    requires CStringFrom(s, i) && i < |s| && s[i] != 0
    ensures CStringFrom(s, i + 1)
  {
    var t := s[i..];
    assert t[0] == s[i] && t[1..] == s[i + 1..];
    var r := CString(t[1..]);
    if r.Some? {
      assert s[..i] + ([t[0]] + r.value.0) == s[..i + 1] + r.value.0;
    }
  }

  lemma CStringEnds(s: seq<Byte>, i: nat)
    requires CStringFrom(s, i) && i < |s| && s[i] == 0
    ensures CString(s) == Some((s[..i], i + 1))
  {
    assert s[i..][0] == 0;
    assert s[..i] + [] == s[..i];
  }

  // ---- indexing ----

  // Over a value that is not indexed; the size of one that is.
  method SkipOver(br: Reader, bt: Byte) returns (ok: bool, fieldSize: nat)
    requires br.Valid()
    modifies br
    ensures br.Valid() && (ok ==> fieldSize == FieldSize(bt))
    ensures FieldSize(bt) > 0 ==> ok && br.Rest() == old(br.Rest()) && br.ptr == old(br.ptr)
    ensures FieldSize(bt) == 0 ==>
              Took(old(br.Rest()), br.Rest(), Skipped(bt, old(br.Rest())), if ok then Some(()) else None)
    ensures FieldSize(bt) == 0 && ok ==> br.ptr == old(br.ptr) + SkipValue(bt, old(br.Rest())).value
  {
    hide CString, Int32At;
    fieldSize := FieldSize(bt);
    if fieldSize > 0 { return true, fieldSize; }
    if bt == JSCODE || bt == SYMBOL || bt == STRING {
      ok := SkipBlock(br, 0, 0);
    } else if bt == CODEWS || bt == ARRAY || bt == DOCUMENT {
      ok := SkipBlock(br, 4, -4);
    } else if bt == BINARY {
      ok := SkipBlock(br, 0, 1);
    } else if bt == MINKEY || bt == MAXKEY || bt == NULL {
      ok := true;
    } else if bt == REGEX {
      var a := br.ReadCString();
      if a == None { return false, 0; }
      var b := br.ReadCString();
      ok := b.Some?;
    } else if bt == DBPOINTER {
      ok := SkipBlock(br, 0, 12);
    } else {
      ok := false;
    }
  }

  function Skipped(bt: Byte, t: seq<Byte>): Option<((), nat)> {
    match SkipValue(bt, t)
    case None => None
    case Some(n) => Some(((), n))
  }

  // A length sz and sz + more bytes.
  method SkipBlock(br: Reader, low: int, more: int) returns (ok: bool)
    requires br.Valid() && low >= 0 && low + more >= 0
    modifies br
    ensures br.Valid()
    ensures var sz := Length(old(br.Rest()), low, 4 + more);
            && ok == sz.Some?
            && (ok ==> br.ptr == old(br.ptr) + 4 + sz.value + more
                       && br.Rest() == old(br.Rest())[4 + sz.value + more..])
  {
    var sz := br.ReadInt32();
    if sz == None { return false; }
    if sz.value < low { return false; }
    var b := br.ReadBytes(sz.value + more);
    ok := b.Some?;
  }

  // Entries found so far, with those to come.
  function Joined(acc: map<seq<Byte>, Entry>, r: Option<map<seq<Byte>, Entry>>): Option<map<seq<Byte>, Entry>> {
    match r
    case None => None
    case Some(m) => Some(acc + m)
  }

  function Ids(m: map<seq<Byte>, Entry>): map<seq<Byte>, int> {
    map k | k in m :: EntryId(m[k])
  }

  lemma JoinedEntry(acc: map<seq<Byte>, Entry>, key: seq<Byte>, bt: Byte, offset: nat,
                    rest: Option<map<seq<Byte>, Entry>>)
    ensures FieldSize(bt) > 0 ==>
              Joined(acc, AddEntry(key, bt, offset, rest)) == Joined(acc[key := Entry(bt, offset)], rest)
    ensures FieldSize(bt) == 0 ==> Joined(acc, AddEntry(key, bt, offset, rest)) == Joined(acc, rest)
    ensures Ids(acc[key := Entry(bt, offset)]) == Ids(acc)[key := EntryId(Entry(bt, offset))]
  {
    hide FieldSize, EntryId;
    if rest.Some? {
      assert acc + (map[key := Entry(bt, offset)] + rest.value) == acc[key := Entry(bt, offset)] + rest.value;
      assert map[] + rest.value == rest.value;
    }
  }

  // ---- decoding ----

  method ReadObject(br: Reader, bt: Byte, n: nat) returns (r: Option<Value>)
    requires br.Valid()
    modifies br
    ensures br.Valid() && r.Some? == (|old(br.Rest())| >= n)
    ensures r.Some? ==> r.value == Object(bt, old(br.Rest())[..n]) && br.Rest() == old(br.Rest())[n..]
  {
    var b := br.ReadBytes(n);
    if b == None { return None; }
    return Some(Object(bt, b.value));
  }

  // The length and what it counts, as they stand.
  method ReadBlock(br: Reader, bt: Byte, low: int, more: int) returns (r: Option<Value>)
    requires br.Valid() && low >= 0 && low + more >= 0
    modifies br
    ensures br.Valid()
    ensures var sz := Length(old(br.Rest()), low, 4 + more);
            && r.Some? == sz.Some?
            && (r.Some? ==> r.value == Object(bt, old(br.Rest())[..4 + sz.value + more])
                            && br.Rest() == old(br.Rest())[4 + sz.value + more..])
  {
    var p := br.ptr;
    ghost var s := br.Rest();
    ghost var size := br.size;
    var ok := SkipBlock(br, low, more);
    if !ok { return None; }
    assert br.data[p..br.ptr] == s[..br.ptr - p];
    return Some(Object(bt, br.data[p..br.ptr]));
  }

  method ReadValue(br: Reader, bt: Byte) returns (r: Option<Value>)
    requires br.Valid()
    modifies br
    ensures br.Valid() && Took(old(br.Rest()), br.Rest(), DecodeValue(bt, old(br.Rest())), r)
    decreases br.size, 1
  {
    hide DecodeDocument, CString, Int32At, LeValue, LeBytes, Seconds;
    if bt == REAL {
      var b := br.ReadBytes(8);
      if b == None { return None; }
      return Some(Number(b.value));
    } else if bt == BOOLEAN {
      var b := br.ReadByte();
      if b == None { return None; }
      return Some(Bool(b.value != 0));
    } else if bt == STRING {
      r := ReadString(br);
    } else if bt == DOCUMENT || bt == ARRAY {
      var m := UnpackDict(br, bt == ARRAY);
      if m == None { return None; }
      return Some(Table(m.value));
    } else if bt == BINARY {
      r := ReadBinary(br);
    } else if bt == OBJECTID {
      r := ReadObject(br, bt, 12);
    } else if bt == DATE {
      var date := br.ReadInt64();
      if date == None { return None; }
      return Some(Object(bt, LeBytes(Seconds(date.value), 4)));
    } else if bt == MINKEY || bt == MAXKEY || bt == NULL {
      return Some(Object(bt, []));
    } else if bt == REGEX {
      var a := br.ReadCString();
      if a == None { return None; }
      var b := br.ReadCString();
      if b == None { return None; }
      return Some(Object(bt, a.value + [0] + b.value + [0]));
    } else if bt == INT32 {
      var i := br.ReadInt32();
      if i == None { return None; }
      return Some(Integer(i.value));
    } else if bt == TIMESTAMP {
      r := ReadObject(br, bt, 8);
    } else if bt == INT64 {
      var i := br.ReadInt64();
      if i == None { return None; }
      return Some(Integer(i.value));
    } else if bt == DBPOINTER {
      r := ReadBlock(br, bt, 0, 12);
    } else if bt == JSCODE || bt == SYMBOL {
      r := ReadBlock(br, bt, 0, 0);
    } else if bt == CODEWS {
      r := ReadBlock(br, bt, 4, -4);
    } else {
      return None;
    }
  }

  method ReadString(br: Reader) returns (r: Option<Value>)
    requires br.Valid()
    modifies br
    ensures br.Valid() && Took(old(br.Rest()), br.Rest(), DecodeValue(STRING, old(br.Rest())), r)
  {
    hide Int32At;
    ghost var s := br.Rest();
    var sz := br.ReadInt32();
    if sz == None { return None; }
    if sz.value <= 0 { return None; }
    var b := br.ReadBytes(sz.value);
    if b == None { return None; }
    assert b.value[..sz.value - 1] == s[4..3 + sz.value];
    return Some(Str(b.value[..sz.value - 1]));
  }

  method ReadBinary(br: Reader) returns (r: Option<Value>)
    requires br.Valid()
    modifies br
    ensures br.Valid() && Took(old(br.Rest()), br.Rest(), DecodeValue(BINARY, old(br.Rest())), r)
  {
    hide Int32At;
    ghost var s := br.Rest();
    var sz := br.ReadInt32();
    if sz == None { return None; }
    var subtype := br.ReadByte();
    if subtype == None { return None; }
    var b := br.ReadBytes(sz.value);
    if b == None { return None; }
    assert [subtype.value] + b.value == s[4..5 + sz.value];
    return Some(Object(BINARY, [subtype.value] + b.value));
  }

  method UnpackDict(br: Reader, isArray: bool) returns (r: Option<map<Key, Value>>)
    requires br.Valid()
    modifies br
    ensures br.Valid() && Took(old(br.Rest()), br.Rest(), DecodeDocument(old(br.Rest()), isArray), r)
    decreases br.size, 0
  {
    hide DecodeFields, Int32At;
    ghost var s := br.Rest();
    var sz := br.ReadInt32();
    if sz == None { return None; }
    var bytes := br.ReadBytes(sz.value - 5);
    if bytes == None { return None; }
    var t := new Reader(bytes.value, 0, |bytes.value|);
    assert bytes.value[0..][..|bytes.value|] == bytes.value == s[4..sz.value - 1];
    var end := br.ReadByte();
    if end == None { return None; }
    if end.value != 0 { return None; }
    r := UnpackFields(t, isArray);
  }

  // Entries read so far, with those to come.
  function Merged(acc: map<Key, Value>, r: Option<map<Key, Value>>): Option<map<Key, Value>> {
    match r
    case None => None
    case Some(m) => Some(acc + m)
  }

  method UnpackFields(t: Reader, isArray: bool) returns (r: Option<map<Key, Value>>)
    requires t.Valid()
    modifies t
    ensures t.Valid() && r == DecodeFields(old(t.Rest()), isArray)
    decreases t.size, 0
  {
    hide DecodeFields, DecodeValue, CString, FieldKey, Took, Merged;
    ghost var s := t.Rest();
    var m: map<Key, Value> := map[];
    MergedStart(s, isArray);
    while t.size != 0
      invariant t.Valid() && t.size <= old(t.size)
      invariant DecodeFields(s, isArray) == Merged(m, DecodeFields(t.Rest(), isArray))
      decreases t.size
    {
      ghost var u := t.Rest();
      var bt := t.ReadByte();
      var key := t.ReadCString();
      if key == None {
        KeyMissing(u, isArray, m);
        return None;
      }
      ghost var k := CString(u[1..]).value.1;
      var v := ReadValue(t, bt.value);
      FieldRead(u, isArray, m, key.value, k, t.Rest(), v);
      if v == None { return None; }
      m := m[FieldKey(key.value, isArray) := v.value];
    }
    MergedEnd(m, t.Rest(), isArray);
    return Some(m);
  }

  lemma MergedStart(s: seq<Byte>, isArray: bool)
    ensures DecodeFields(s, isArray) == Merged(map[], DecodeFields(s, isArray))
  {
    hide DecodeFields;
    var r := DecodeFields(s, isArray);
    if r.Some? {
      assert map[] + r.value == r.value;
    }
  }

  lemma MergedEnd(m: map<Key, Value>, s: seq<Byte>, isArray: bool)
    requires s == []
    ensures Merged(m, DecodeFields(s, isArray)) == Some(m)
  {
    assert m + map[] == m;
  }

  lemma KeyMissing(u: seq<Byte>, isArray: bool, m: map<Key, Value>)
    requires u != [] && CString(u[1..]) == None
    ensures Merged(m, DecodeFields(u, isArray)) == None
  {
  }

  lemma FieldRead(u: seq<Byte>, isArray: bool, m: map<Key, Value>, key: seq<Byte>, k: nat,
                  after: seq<Byte>, v: Option<Value>)
    requires u != [] && CString(u[1..]) == Some((key, k)) && 1 + k <= |u|
    requires Took(u[1..][k..], after, DecodeValue(u[0], u[1..][k..]), v)
    ensures v == None ==> Merged(m, DecodeFields(u, isArray)) == None
    ensures v.Some? ==> |after| < |u|
                        && Merged(m, DecodeFields(u, isArray))
                           == Merged(m[FieldKey(key, isArray) := v.value], DecodeFields(after, isArray))
  {
    hide CString, DecodeValue, FieldKey, Merged, Put;
    assert u[1..][k..] == u[1 + k..];
    if v.Some? {
      var n := DecodeValue(u[0], u[1 + k..]).value.1;
      assert u[1 + k..][n..] == u[1 + k + n..];
      MergedPut(m, FieldKey(key, isArray), v.value, DecodeFields(after, isArray));
    } else {
      MergedNone(m);
    }
  }

  lemma MergedNone(m: map<Key, Value>)
    ensures Merged(m, None) == None
  {
  }

  lemma MergedPut(m: map<Key, Value>, key: Key, v: Value, rest: Option<map<Key, Value>>)
    ensures Merged(m, Put(key, v, rest)) == Merged(m[key := v], rest)
  {
    if rest.Some? {
      assert m + (map[key := v] + rest.value) == m[key := v] + rest.value;
    }
  }

  lemma JoinedStart(t: seq<Byte>)
    ensures Ids(map[]) == map[] && IndexFields(t, 4) == Joined(map[], IndexFields(t, 4))
  {
    hide IndexFields;
    var r := IndexFields(t, 4);
    if r.Some? {
      assert map[] + r.value == r.value;
    }
  }

  lemma JoinedEnd(acc: map<seq<Byte>, Entry>, s: seq<Byte>, offset: nat)
    requires s == []
    ensures Joined(acc, IndexFields(s, offset)) == Some(acc)
  {
    assert acc + map[] == acc;
  }

  lemma NoKey(s: seq<Byte>, offset: nat, acc: map<seq<Byte>, Entry>)
    requires s != [] && CString(s[1..]) == None
    ensures Joined(acc, IndexFields(s, offset)) == None
  {
  }

  lemma NoSkip(s: seq<Byte>, offset: nat, key: seq<Byte>, k: nat, acc: map<seq<Byte>, Entry>)
    requires s != [] && CString(s[1..]) == Some((key, k)) && 1 + k <= |s|
    requires FieldSize(s[0]) == 0 && Skipped(s[0], s[1 + k..]) == None
    ensures Joined(acc, IndexFields(s, offset)) == None
  {
    hide SkipValue, CString;
  }

  lemma FixedEntry(s: seq<Byte>, offset: nat, key: seq<Byte>, k: nat, n: nat, acc: map<seq<Byte>, Entry>)
    requires s != [] && CString(s[1..]) == Some((key, k)) && 1 + k <= |s| && n == FieldSize(s[0]) > 0
    ensures 1 + k + n > |s| ==> Joined(acc, IndexFields(s, offset)) == None
    ensures 1 + k + n <= |s| ==>
              Joined(acc, IndexFields(s, offset)) ==
              Joined(acc[key := Entry(s[0], offset + 1 + k)], IndexFields(s[1 + k + n..], offset + 1 + k + n))
    ensures Ids(acc[key := Entry(s[0], offset + 1 + k)]) == Ids(acc)[key := EntryId(Entry(s[0], offset + 1 + k))]
  {
    hide CString, SkipValue, FieldSize, EntryId, Ids, Joined, AddEntry, IndexFields;
    if 1 + k + n <= |s| {
      FixedSkip(s[0], s[1 + k..]);
      IndexUnfold(s, offset, key, k, n, s[1 + k + n..]);
      JoinedEntry(acc, key, s[0], offset + 1 + k, IndexFields(s[1 + k + n..], offset + 1 + k + n));
    } else {
      FixedSkip(s[0], s[1 + k..]);
      NoFixed(s, offset, key, k, acc);
      JoinedEntry(acc, key, s[0], offset + 1 + k, None);
    }
  }

  lemma FixedSkip(bt: Byte, t: seq<Byte>)
    requires FieldSize(bt) > 0
    ensures SkipValue(bt, t) == if |t| < FieldSize(bt) then None else Some(FieldSize(bt))
  {
  }

  lemma NoFixed(s: seq<Byte>, offset: nat, key: seq<Byte>, k: nat, acc: map<seq<Byte>, Entry>)
    requires s != [] && CString(s[1..]) == Some((key, k)) && 1 + k <= |s| && SkipValue(s[0], s[1 + k..]) == None
    ensures Joined(acc, IndexFields(s, offset)) == None
  {
    hide CString, SkipValue;
  }

  lemma SkippedEntry(s: seq<Byte>, offset: nat, key: seq<Byte>, k: nat, after: seq<Byte>, acc: map<seq<Byte>, Entry>)
    requires s != [] && CString(s[1..]) == Some((key, k)) && 1 + k <= |s| && FieldSize(s[0]) == 0
    requires Took(s[1 + k..], after, Skipped(s[0], s[1 + k..]), Some(()))
    ensures SkipValue(s[0], s[1 + k..]).Some?
    ensures var n := SkipValue(s[0], s[1 + k..]).value;
            |after| < |s| && Joined(acc, IndexFields(s, offset)) == Joined(acc, IndexFields(after, offset + 1 + k + n))
  {
    hide CString, FieldSize, SkipValue, Joined, AddEntry;
    var n := SkipValue(s[0], s[1 + k..]).value;
    assert s[1 + k..][n..] == s[1 + k + n..];
    IndexUnfold(s, offset, key, k, n, after);
    JoinedEntry(acc, key, s[0], offset + 1 + k, IndexFields(after, offset + 1 + k + n));
  }

  // ---- the document ----

  // The fields of a document, between its length and its zero.
  function Inner(doc: seq<Byte>): seq<Byte>
    requires |doc| >= 5
  {
    doc[4..|doc| - 1]
  }

  // The bytes are one document, as ldecode takes them.
  ghost predicate Decodable(doc: seq<Byte>) {
    5 <= |doc| < 0x400_0000 && Int32At(doc) == |doc| && doc[|doc| - 1] == 0 && DecodeFields(Inner(doc), false).Some?
  }

  lemma DecodableIff(doc: seq<Byte>)
    requires 5 <= |doc| < 0x400_0000 && Int32At(doc) == |doc|
    ensures Decodable(doc) <==> DecodeDocument(doc, false).Some?
    ensures Decodable(doc) ==> DecodeDocument(doc, false) == Some((DecodeFields(Inner(doc), false).value, |doc|))
  {
    hide DecodeFields, Int32At;
  }

  // The map that decoding gives after a replacement: what follows the replaced bytes counts more.
  ghost function Replaced(doc: seq<Byte>, key: seq<Byte>, e: Entry, v: Value): map<Key, Value>
    requires Decodable(doc) && 4 <= e.offset && e.offset + FieldSize(e.bt) <= |doc| - 1
    requires DecodeFields(Inner(doc)[e.offset - 4 + FieldSize(e.bt)..], false).Some?
  {
    var m := DecodeFields(Inner(doc), false).value;
    if Name(key) in DecodeFields(Inner(doc)[e.offset - 4 + FieldSize(e.bt)..], false).value then m
    else m[Name(key) := v]
  }

  // A well-formed replacement of an indexed field.
  lemma PatchDocument(doc: seq<Byte>, key: seq<Byte>, e: Entry, patch: seq<Byte>, v: Value)
    requires Decodable(doc) && IndexFields(Inner(doc), 4).Some? && key in IndexFields(Inner(doc), 4).value
    requires e == IndexFields(Inner(doc), 4).value[key]
             && DecodeValue(e.bt, patch) == Some((v, |patch|)) && |patch| == FieldSize(e.bt)
    ensures e.bt < 32 && 4 <= e.offset && e.offset + |patch| <= |doc| - 1
    ensures DecodeFields(Inner(doc)[e.offset - 4 + FieldSize(e.bt)..], false).Some?
    ensures var doc' := Patched(doc, e.offset, patch);
            && Decodable(doc') && IndexFields(Inner(doc'), 4) == IndexFields(Inner(doc), 4)
            && DecodeFields(Inner(doc'), false) == Some(Replaced(doc, key, e, v))
    ensures DistinctKeys(Inner(doc)) ==>
              Replaced(doc, key, e, v) == DecodeFields(Inner(doc), false).value[Name(key) := v]
  {
    hide DecodeFields, IndexFields, DecodeValue, Int32At, DistinctKeys;
    var t := Inner(doc);
    EntriesFit(t, 4, key);
    PatchFields(t, 4, key, patch, v);
    PatchKeepsIndex(t, 4, key, patch, v);
    var m, later := UpdatedParts(t, e.offset - 4, key, patch, v);
    InnerPatched(doc, e.offset, patch);
    if DistinctKeys(t) {
      DistinctLater(t, 4, key, |patch|);
    }
  }

  lemma InnerPatched(doc: seq<Byte>, o: nat, patch: seq<Byte>)
    requires |doc| >= 5 && 4 <= o && o + |patch| <= |doc| - 1
    ensures var doc' := Patched(doc, o, patch);
            && Inner(doc') == Patched(Inner(doc), o - 4, patch)
            && doc'[|doc'| - 1] == doc[|doc| - 1] && Int32At(doc') == Int32At(doc)
  {
    hide LeValue, FromTwos;
    var doc' := Patched(doc, o, patch);
    assert doc'[..4] == doc[..4];
  }

  class Document {
    const bytes: array<Byte>
    var ids: Option<map<seq<Byte>, int>>

    // The length the bytes announce is theirs, and offsets fit an index entry.
    ghost predicate Valid()
      reads this, bytes
    {
      5 <= bytes.Length < 0x400_0000 && Int32At(bytes[..]) == bytes.Length
    }

    // The document can be decoded, and the index, if there is one, is that of its fields.
    ghost predicate Indexed()
      reads this, bytes
    {
      && Decodable(bytes[..])
      && (ids.Some? ==> IndexFields(Inner(bytes[..]), 4).Some?
                        && ids.value == Ids(IndexFields(Inner(bytes[..]), 4).value))
    }

    constructor (text: seq<Byte>)
      requires 5 <= |text| < 0x400_0000 && Int32At(text) == |text|
      ensures Valid() && bytes[..] == text && ids == None && fresh(bytes)
    {
      bytes := new Byte[|text|](i requires 0 <= i < |text| => text[i]);
      ids := None;
      new;
      assert bytes[..] == text;
    }

    // ldecode
    method Decode() returns (r: Option<map<Key, Value>>)
      requires Valid()
      ensures match DecodeDocument(bytes[..], false)
              case None => r == None
              case Some((m, n)) => r == Some(m)
    {
      hide DecodeDocument, Int32At;
      var br := new Reader(bytes[..], 0, bytes.Length);
      assert bytes[..][0..][..bytes.Length] == bytes[..];
      r := UnpackDict(br, false);
    }

    // lmakeindex
    method MakeIndex() returns (ok: bool)
      requires Valid()
      modifies this`ids
      ensures ok == IndexFields(Inner(bytes[..]), 4).Some?
      ensures ids == if ok then Some(Ids(IndexFields(Inner(bytes[..]), 4).value)) else old(ids)
    {
      hide IndexFields, SkipValue, FieldSize, CString, Took, Joined, Ids, EntryId, Int32At, Skipped;
      var br := new Reader(bytes[..], 4, bytes.Length - 5);
      ghost var t := Inner(bytes[..]);
      assert br.Rest() == t;
      var index: map<seq<Byte>, int> := map[];
      ghost var acc: map<seq<Byte>, Entry> := map[];
      JoinedStart(t);
      while br.size != 0
        invariant br.Valid() && br.data == bytes[..] && fresh(br) && ids == old(ids)
        invariant index == Ids(acc) && IndexFields(t, 4) == Joined(acc, IndexFields(br.Rest(), br.ptr))
        decreases br.size
      {
        ghost var s := br.Rest();
        ghost var offset := br.ptr;
        var bt := br.ReadByte();
        var key := br.ReadCString();
        if key == None {
          NoKey(s, offset, acc);
          return false;
        }
        ghost var k := CString(s[1..]).value.1;
        ghost var u := br.Rest();
        assert u == s[1..][k..] == s[1 + k..];
        var ok2, fieldSize := SkipOver(br, bt.value);
        if !ok2 {
          TookFailed(u, br.Rest(), Skipped(bt.value, u));
          NoSkip(s, offset, key.value, k, acc);
          return false;
        }
        if fieldSize > 0 {
          var id := EntryId(Entry(bt.value, br.ptr));
          var b := br.ReadBytes(fieldSize);
          FixedEntry(s, offset, key.value, k, fieldSize, acc);
          if b == None { return false; }
          assert s[1 + k..][fieldSize..] == s[1 + k + fieldSize..];
          acc := acc[key.value := Entry(bt.value, offset + 1 + k)];
          index := index[key.value := id];
        } else {
          SkippedEntry(s, offset, key.value, k, br.Rest(), acc);
        }
      }
      JoinedEnd(acc, br.Rest(), br.ptr);
      ids := Some(index);
      return true;
    }

    // lreplace: on success, decoding gives the old map with this key updated, where keys are
    // distinct; and the index stays right, so that there can be more replacements.
    method Replace(key: seq<Byte>, arg: Value, fromText: seq<Byte> -> Option<Bits>) returns (ok: bool)
      requires Indexed()
      modifies bytes
      ensures Indexed()
      ensures ok <==> ids.Some? && key in ids.value &&
                      var bt := IndexFields(Inner(old(bytes[..])), 4).value[key].bt;
                      ReplaceBytes(bt, Argument(bt, arg, fromText)).Some?
      ensures !ok ==> bytes[..] == old(bytes[..])
      ensures ok ==>
                var e := IndexFields(Inner(old(bytes[..])), 4).value[key];
                var v := Stored(e.bt, Argument(e.bt, arg, fromText));
                && 4 <= e.offset && e.offset + FieldSize(e.bt) <= bytes.Length - 1
                && DecodeFields(Inner(old(bytes[..]))[e.offset - 4 + FieldSize(e.bt)..], false).Some?
                && DecodeDocument(bytes[..], false) == Some((Replaced(old(bytes[..]), key, e, v), bytes.Length))
                && (DistinctKeys(Inner(old(bytes[..]))) ==>
                      DecodeDocument(bytes[..], false) ==
                      Some((DecodeFields(Inner(old(bytes[..])), false).value[Name(key) := v], bytes.Length)))
    {
      hide Decodable, IndexFields, DecodeFields, DecodeDocument, Ids, EntryId, FieldSize, ReplaceBytes, Stored,
           Argument;
      hide DecodeValue, Inner, Replaced, DistinctKeys, Patched;
      ok := false;
      ghost var doc := bytes[..];
      DecodableSize(doc);
      if ids == None { return; }
      ghost var index := IndexFields(Inner(doc), 4).value;
      IdsOf(index, key);
      if key !in ids.value { return; }
      var id := ids.value[key];
      ghost var e := index[key];
      EntryFits(doc, key);
      EntryIdBack(e);
      var bt: Byte := id % 32;
      var offset := id / 32;
      var x := Argument(bt, arg, fromText);
      var content := ReplaceBytes(bt, x);
      if content == None { return; }
      StoredIsRead(bt, x);
      PatchDocument(doc, key, e, content.value, Stored(bt, x));
      WriteAt(bytes, offset, content.value);
      DecodableSize(bytes[..]);
      DecodableIff(bytes[..]);
      ok := true;
    }
  }

  method WriteAt(bytes: array<Byte>, offset: nat, content: seq<Byte>)
    requires offset + |content| <= bytes.Length
    modifies bytes
    ensures bytes[..] == Patched(old(bytes[..]), offset, content)
  {
    var i: nat := 0;
    while i < |content|
      invariant i <= |content|
      invariant bytes[..] == Patched(old(bytes[..]), offset, content[..i])
    {
      ghost var before := bytes[..];
      bytes[offset + i] := content[i];
      assert bytes[..] == before[offset + i := content[i]];
      i := i + 1;
    }
    assert content[..|content|] == content;
  }

  lemma DecodableSize(doc: seq<Byte>)
    requires Decodable(doc)
    ensures 5 <= |doc| < 0x400_0000 && Int32At(doc) == |doc| && DecodeFields(Inner(doc), false).Some?
  {
  }

  lemma IdsOf(m: map<seq<Byte>, Entry>, key: seq<Byte>)
    ensures key in Ids(m) <==> key in m
    ensures key in m ==> Ids(m)[key] == EntryId(m[key])
  {
    hide EntryId;
  }

  lemma EntryFits(doc: seq<Byte>, key: seq<Byte>)
    requires Decodable(doc) && IndexFields(Inner(doc), 4).Some? && key in IndexFields(Inner(doc), 4).value
    ensures var e := IndexFields(Inner(doc), 4).value[key];
            e.bt < 32 && 4 <= e.offset && e.offset + FieldSize(e.bt) <= |doc| - 1 < 0x400_0000
  {
    hide IndexFields, DecodeFields;
    EntriesFit(Inner(doc), 4, key);
  }
}
