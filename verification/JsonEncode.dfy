// The encoder of lua_cjson.c, writing into a string buffer.
module JsonEncode {
  import opened Arith
  import opened Reading
  import opened ByteNumbers
  import opened StringBuffer
  import opened JsonString
  import opened JsonText
  import opened JsonPieces

  const SPARSE_RATIO: nat := 2
  const SPARSE_SAFE: nat := 10
  const NUMBER_ROOM: nat := 32

  // What Lua guarantees of a value, and C integers that hold its keys and sizes.
  ghost predicate Lua(v: Json) {
    match v
    case Table(m) =>
      && |m| < 0x3FFF_FFFF
      && forall k | k in m :: k != Nil && (k.Int? ==> k.i < 0x7FFF_FFFF) && m[k] != Nil && Lua(m[k])
    case _ => true
  }

  // ---- arrays and objects ----

  ghost predicate AllPositive(m: map<Json, Json>) {
    forall k | k in m :: k.Int? && k.i >= 1
  }

  ghost predicate IsMax(m: map<Json, Json>, n: nat) {
    (n == 0 ==> m == map[]) && (n > 0 ==> n < 0x7FFF_FFFF && Int(n) in m) && forall k | k in m :: k.Int? && k.i <= n
  }

  predicate TooSparse(items: nat, max: int) {
    max > items * SPARSE_RATIO && max > SPARSE_SAFE
  }

  predicate IsKeyType(k: Json) {
    k.Str? || k.Int?
  }

  // The key a member is written under.
  function KeyText(k: Json): seq<Byte>
    requires IsKeyType(k)
  {
    if k.Str? then k.s else DecimalText(k.i)
  }

  // What the encoder accepts inside depth tables.
  ghost predicate Encodable(v: Json, depth: nat) {
    match v
    case Other => false
    case Table(m) =>
      && depth + 1 <= MAX_DEPTH
      && (if AllPositive(m) then forall k | k in m :: !TooSparse(|m|, k.i) else forall k | k in m :: IsKeyType(k))
      && forall k | k in m :: Encodable(m[k], depth + 1)
    case _ => true
  }

  // ---- what is read back ----

  // The keys are 1 to n.
  ghost predicate FilledTo(m: map<Json, Json>, n: nat) {
    n < 0x7FFF_FFFF && forall x :: x in m <==> x.Int? && 1 <= x.i <= n
  }

  // w is what can be read back of v: missing items and nil are read as null, and integer keys of
  // an object as strings.
  ghost predicate Reads(v: Json, w: Json) {
    match v
    case Nil => w == Null
    case Table(m) =>
      && w.Table?
      && if m != map[] && AllPositive(m) then
           && (exists n :: IsMax(m, n) && FilledTo(w.m, n))
           && (forall x | x in w.m :: if x in m then Reads(m[x], w.m[x]) else w.m[x] == Null)
         else
           && (forall k | k in m :: IsKeyType(k) && Str(KeyText(k)) in w.m)
           && (forall x | x in w.m :: exists k :: k in m && x == Str(KeyText(k)) && Reads(m[k], w.m[x]))
    case _ => w == v
  }

  // Every table in v is a sequence 1..n or has only string keys, and there is no nil.
  ghost predicate Faithful(v: Json) {
    && v != Nil
    && (v.Table? ==>
          && ((forall k | k in v.m :: k.Str?) || (exists n :: FilledTo(v.m, n)))
          && forall k | k in v.m :: Faithful(v.m[k]))
  }

  // A value comes back as it was exactly where it is faithful.
  lemma {:induction false} FaithfulIff(v: Json, w: Json)
    requires Lua(v) && Reads(v, w)
    ensures w == v <==> Faithful(v)
    decreases v
  {
    if v.Table? {
      if v.m != map[] && AllPositive(v.m) {
        ArrayFaithful(v, w);
      } else {
        ObjectFaithful(v, w);
      }
    }
  }

  lemma {:induction false} ArrayFaithful(v: Json, w: Json)
    requires Lua(v) && Reads(v, w) && v.Table? && v.m != map[] && AllPositive(v.m)
    ensures w == v <==> Faithful(v)
    decreases v, 0
  {
    var n :| IsMax(v.m, n) && FilledTo(w.m, n);
    forall k | k in v.m
      ensures k in w.m && (w.m[k] == v.m[k] <==> Faithful(v.m[k]))
    {
      FaithfulIff(v.m[k], w.m[k]);
    }
    hide Reads, Lua;
    if Faithful(v) {
      FilledAlike(v.m, w.m, n);
      assert w.m == v.m;
    }
  }

  lemma FilledAlike(m: map<Json, Json>, w: map<Json, Json>, n: nat)
    requires IsMax(m, n) && FilledTo(w, n) && m != map[]
    requires (forall k | k in m :: k.Str?) || (exists n2 :: FilledTo(m, n2))
    ensures w.Keys == m.Keys
  {
    assert Int(n) in m;
    var n2: nat :| FilledTo(m, n2);
    assert Int(n).i <= n2;
    assert n2 > 0 ==> Int(n2) in m;
  }

  lemma {:induction false} ObjectFaithful(v: Json, w: Json)
    requires Lua(v) && Reads(v, w) && v.Table? && (v.m == map[] || !AllPositive(v.m))
    ensures w == v <==> Faithful(v)
    decreases v, 1
  {
    hide Reads, Lua;
    if Faithful(v) {
      StringKeys(v.m);
      assert w.Table? by { IsTable(v, w); }
      forall x | x in w.m
        ensures x in v.m && w.m[x] == v.m[x]
      {
        var k := KeyOf(v, w, x);
        FaithfulIff(v.m[k], w.m[x]);
      }
      forall k | k in v.m
        ensures k in w.m
      {
        IsKeyOf(v, w, k);
      }
      assert w.m == v.m;
    }
    if w == v {
      ObjectBack(v);
    }
  }

  lemma IsTable(v: Json, w: Json)
    requires Reads(v, w) && v.Table?
    ensures w.Table?
  {
  }

  lemma KeyOf(v: Json, w: Json, x: Json) returns (k: Json)
    requires Lua(v) && Reads(v, w) && v.Table? && w.Table? && x in w.m && (v.m == map[] || !AllPositive(v.m))
    ensures k in v.m && IsKeyType(k) && x == Str(KeyText(k)) && Reads(v.m[k], w.m[x]) && Lua(v.m[k])
  {
    k :| k in v.m && x == Str(KeyText(k)) && Reads(v.m[k], w.m[x]);
  }

  lemma IsKeyOf(v: Json, w: Json, k: Json)
    requires Reads(v, w) && v.Table? && w.Table? && k in v.m && (v.m == map[] || !AllPositive(v.m))
    ensures IsKeyType(k) && Str(KeyText(k)) in w.m
  {
  }

  lemma StringKeys(m: map<Json, Json>)
    requires m == map[] || !AllPositive(m)
    requires (forall k | k in m :: k.Str?) || (exists n :: FilledTo(m, n))
    ensures forall k | k in m :: k.Str?
  {
    if n :| FilledTo(m, n) {
      assert AllPositive(m);
    }
  }

  lemma {:induction false} ObjectBack(v: Json)
    requires Lua(v) && Reads(v, v) && v.Table? && (v.m == map[] || !AllPositive(v.m))
    ensures Faithful(v)
    decreases v, 0
  {
    assert forall x | x in v.m :: x.Str?;
    forall x | x in v.m
      ensures Faithful(v.m[x])
    {
      var k :| k in v.m && x == Str(KeyText(k)) && Reads(v.m[k], v.m[x]);
      assert k == x;
      FaithfulIff(v.m[x], v.m[x]);
    }
  }

  // ---- writing ----

  // The worst case is six bytes for each, and so the unchecked appends stay in the buffer.
  method AppendString(json: StrBuf, str: seq<Byte>)
    requires json.Valid()
    modifies json, json.buf
    ensures json.Valid() && (json.buf == old(json.buf) || fresh(json.buf))
    ensures json.Text() == old(json.Text()) + Quoted(str)
  {
    hide EscapedAll, Escaped;
    json.EnsureEmptyLength(|str| * 6 + 2);
    ghost var before := json.Text();
    json.AppendCharUnsafe(QUOTE);
    var i: nat := 0;
    assert EscapedAll([]) == [] && str[..0] == [] by { NothingEscaped(); }
    while i < |str|
      invariant i <= |str| && json.Valid() && (json.buf == old(json.buf) || fresh(json.buf))
      invariant json.Text() == before + ([QUOTE] + EscapedAll(str[..i]))
      invariant json.EmptyLength() >= 6 * (|str| - i) + 1
    {
      var e := Escaped(str[i]);
      EscapedSnoc(str, i);
      ghost var text := json.Text();
      if |e| > 1 {
        json.AppendString(e);
      } else {
        IsPlain(str[i]);
        json.AppendCharUnsafe(str[i]);
      }
      Joined3(before, [QUOTE], EscapedAll(str[..i]), e);
      i := i + 1;
    }
    assert str[..i] == str;
    ghost var text := json.Text();
    json.AppendCharUnsafe(QUOTE);
    Enclosed(before, QUOTE, EscapedAll(str), QUOTE);
  }

  lemma Joined3(a: seq<Byte>, b: seq<Byte>, c: seq<Byte>, d: seq<Byte>)
    ensures a + (b + c) + d == a + (b + (c + d))
  {
  }

  lemma NothingEscaped()
    ensures EscapedAll([]) == []
  {
  }

  lemma IsPlain(c: Byte)
    ensures |Escaped(c)| == 1 ==> Escaped(c) == [c]
  {
  }

  lemma {:induction false} EscapedConcat(s: seq<Byte>, t: seq<Byte>)
    ensures EscapedAll(s + t) == EscapedAll(s) + EscapedAll(t)
  {
    hide Escaped;
    if s == [] {
      assert s + t == t;
    } else {
      assert (s + t)[1..] == s[1..] + t;
      EscapedConcat(s[1..], t);
    }
  }

  lemma EscapedSnoc(s: seq<Byte>, i: nat)
    requires i < |s|
    ensures EscapedAll(s[..i + 1]) == EscapedAll(s[..i]) + Escaped(s[i])
  {
    assert s[..i + 1] == s[..i] + [s[i]];
    EscapedConcat(s[..i], [s[i]]);
    hide Escaped;
    assert [s[i]][1..] == [];
  }

  method AppendInteger(json: StrBuf, i: Int64)
    requires json.Valid()
    modifies json, json.buf
    ensures json.Valid() && (json.buf == old(json.buf) || fresh(json.buf))
    ensures json.Text() == old(json.Text()) + DecimalText(i)
  {
    hide DecimalText;
    DecimalLength(i);
    json.EnsureEmptyLength(NUMBER_ROOM);
    json.AppendMemUnsafe(DecimalText(i));
  }

  // lua_array_length: -1 for an object; fails for an array with too many holes.  The keys come in
  // any order.
  method ArrayLength(m: map<Json, Json>) returns (ok: bool, len: int)
    requires Lua(Table(m))
    ensures !ok ==> AllPositive(m) && exists k :: k in m && k.Int? && TooSparse(|m|, k.i)
    ensures ok && len == -1 ==> !AllPositive(m)
    ensures ok && len != -1 ==> len >= 0 && IsMax(m, len) && AllPositive(m) && forall k | k in m :: !TooSparse(|m|, k.i)
  {
    hide *;
    var max: int, items: nat := 0, 0;
    var todo := m.Keys;
    NothingSeen(m);
    while todo != {}
      invariant todo <= m.Keys && items + |todo| == |m| && max >= 0 && Seen(m, todo, max)
      decreases |todo|
    {
      var k :| k in todo;
      SeeNext(m, todo, max, k);
      todo := todo - {k};
      if k.Int? && k.i >= 1 {
        if k.i > max {
          max := k.i;
        }
        items := items + 1;
      } else {
        NotAllPositive(m, k);
        return true, -1;
      }
    }
    AllSeen(m, max);
    if TooSparse(items, max) { return false, 0; }
    return true, max;
  }

  // The keys but those to do are integers from 1, and max is the largest.
  ghost predicate Seen(m: map<Json, Json>, todo: set<Json>, max: nat) {
    && (max == 0 ==> todo == m.Keys) && (max > 0 ==> max < 0x7FFF_FFFF && Int(max) in m)
    && forall k | k in m && k !in todo :: k.Int? && 1 <= k.i <= max
  }

  lemma NothingSeen(m: map<Json, Json>)
    ensures Seen(m, m.Keys, 0) && |m.Keys| == |m|
  {
  }

  lemma SeeNext(m: map<Json, Json>, todo: set<Json>, max: nat, k: Json)
    requires Lua(Table(m)) && Seen(m, todo, max) && k in todo && k in m
    ensures k.Int? && k.i >= 1 ==> Seen(m, todo - {k}, if k.i > max then k.i else max)
  {
  }

  lemma NotAllPositive(m: map<Json, Json>, k: Json)
    requires k in m && !(k.Int? && k.i >= 1)
    ensures !AllPositive(m)
  {
  }

  lemma AllSeen(m: map<Json, Json>, max: nat)
    requires Seen(m, {}, max)
    ensures IsMax(m, max) && AllPositive(m)
    ensures TooSparse(|m|, max) ==> exists k :: k in m && k.Int? && TooSparse(|m|, k.i)
    ensures !TooSparse(|m|, max) ==> forall k | k in m :: !TooSparse(|m|, k.i)
  {
    if max == 0 {
      assert m.Keys == {};
    } else if TooSparse(|m|, max) {
      assert Int(max) in m;
    }
  }

  function At(m: map<Json, Json>, i: Int64): Json {
    if Int(i) in m then m[Int(i)] else Nil
  }

  // json_append_data: the text is read back as w, and w is what can be read back of v.  It fails
  // exactly where v cannot be encoded.
  method AppendData(json: StrBuf, v: Json, depth: nat) returns (ok: bool, ghost e: seq<Byte>, ghost w: Json)
    requires json.Valid() && Lua(v)
    modifies json, json.buf
    ensures json.Valid() && (json.buf == old(json.buf) || fresh(json.buf))
    ensures ok <==> Encodable(v, depth)
    ensures ok ==> json.Text() == old(json.Text()) + e && Parses(e, w, depth) && Reads(v, w)
    ensures ok && v == Table(map[]) ==> e == [123, 125]
    decreases v.Table?, v, 2
  {
    hide Parses, Lua, DecimalText, Quoted, TrueText, FalseText, NullText, IsMax, AllPositive, TooSparse;
    e, w := [], v;
    match v
    case Str(s) =>
      AppendString(json, s);
      StringParses(s, depth);
      return true, Quoted(s), v;
    case Int(i) =>
      AppendInteger(json, i);
      IntegerParses(i, depth);
      return true, DecimalText(i), v;
    case Bool(b) =>
      ok, e := true, if b then TrueText() else FalseText();
      if b {
        json.AppendMem(TrueText());
      } else {
        json.AppendMem(FalseText());
      }
      WordParses(e, BooleanToken(b), depth);
    case Nil =>
      json.AppendMem(NullText());
      WordParses(NullText(), NullToken, depth);
      return true, NullText(), Null;
    case Null =>
      json.AppendMem(NullText());
      WordParses(NullText(), NullToken, depth);
      return true, NullText(), Null;
    case Table(m) =>
      ok, e, w := AppendTable(json, v, depth + 1);
    case Other =>
      ok := false;
  }

  method AppendTable(json: StrBuf, v: Json, depth: nat) returns (ok: bool, ghost e: seq<Byte>, ghost w: Json)
    requires json.Valid() && Lua(v) && v.Table? && depth > 0
    modifies json, json.buf
    ensures json.Valid() && (json.buf == old(json.buf) || fresh(json.buf))
    ensures ok <==> Encodable(v, depth - 1)
    ensures ok ==> json.Text() == old(json.Text()) + e && Parses(e, w, depth - 1) && Reads(v, w)
    ensures ok && v.m == map[] ==> e == [123, 125]
    decreases v.Table?, v, 1
  {
    hide *;
    e, w := [], v;
    EncodableTable(v.m, depth);
    LuaTable(v);
    if depth > MaxDepth() { return false, e, w; }
    var len: int;
    ok, len := ArrayLength(v.m);
    if !ok { return; }
    if len > 0 {
      NotEmpty(v.m, len);
      ok, e, w := AppendArray(json, v, len, depth);
    } else {
      if len == 0 { IsEmpty(v.m); }
      ok, e, w := AppendObject(json, v, depth);
    }
  }

  lemma LuaTable(v: Json)
    requires Lua(v) && v.Table?
    ensures Lua(Table(v.m)) && Table(v.m) == v
  {
  }

  lemma NotEmpty(m: map<Json, Json>, n: int)
    requires n > 0 && IsMax(m, n)
    ensures m != map[]
  {
    assert Int(n) in m;
  }

  lemma IsEmpty(m: map<Json, Json>)
    requires IsMax(m, 0)
    ensures m == map[]
  {
  }

  // All entries can be encoded at this depth.
  ghost predicate EntriesEncodable(m: map<Json, Json>, depth: nat) {
    forall k | k in m :: Encodable(m[k], depth)
  }

  lemma EncodableTable(m: map<Json, Json>, depth: nat)
    requires depth > 0
    ensures Encodable(Table(m), depth - 1) ==> depth <= MAX_DEPTH && EntriesEncodable(m, depth)
    ensures Encodable(Table(m), depth - 1) && AllPositive(m) ==> forall k | k in m :: !TooSparse(|m|, k.i)
    ensures Encodable(Table(m), depth - 1) && !AllPositive(m) ==> forall k | k in m :: IsKeyType(k)
    ensures depth <= MAX_DEPTH && EntriesEncodable(m, depth) && AllPositive(m)
            && (forall k | k in m :: !TooSparse(|m|, k.i)) ==>
              Encodable(Table(m), depth - 1)
    ensures depth <= MAX_DEPTH && EntriesEncodable(m, depth) && !AllPositive(m)
            && (forall k | k in m :: IsKeyType(k)) ==>
              Encodable(Table(m), depth - 1)
  {
    hide TooSparse, AllPositive, IsKeyType;
  }

  // ---- arrays ----

  // Items 1 to i have been written and are read back as acc.
  ghost predicate ArrayRead(m: map<Json, Json>, acc: map<Json, Json>, i: int, depth: nat) {
    && (forall x :: x in acc <==> x.Int? && 1 <= x.i <= i)
    && (forall x | x in acc :: if x in m then Reads(m[x], acc[x]) else acc[x] == Null)
    && (forall k | k in m && k.Int? && k.i <= i :: Encodable(m[k], depth))
  }

  method AppendArray(json: StrBuf, v: Json, n: int, depth: nat) returns (ok: bool, ghost e: seq<Byte>, ghost w: Json)
    requires json.Valid() && Lua(v) && v.Table? && n > 0 && IsMax(v.m, n) && AllPositive(v.m) && 0 < depth <= MAX_DEPTH
    modifies json, json.buf
    ensures json.Valid() && (json.buf == old(json.buf) || fresh(json.buf))
    ensures ok <==> EntriesEncodable(v.m, depth)
    ensures ok ==> json.Text() == old(json.Text()) + e && Parses(e, w, depth - 1) && Reads(v, w)
    decreases v.Table?, v, 0
  {
    hide *;
    e, w := [], v;
    MaxBound(v.m, n);
    ghost var before := json.Text();
    json.AppendChar(91);
    ghost var body: seq<Byte>, acc: map<Json, Json> := [], map[];
    NothingRead(v.m, depth);
    var comma := false;
    var i := 1;
    assert before + [91] == before + ([91] + body);
    while i <= n
      invariant 1 <= i <= n + 1 && comma == (i > 1)
      invariant json.Valid() && (json.buf == old(json.buf) || fresh(json.buf))
      invariant json.Text() == before + ([91] + body) && ArrayRead(v.m, acc, i - 1, depth)
      invariant if i == 1 then body == [] && acc == map[] else Items(body, i - 1, acc, depth)
    {
      if comma {
        json.AppendChar(44);
      } else {
        comma := true;
      }
      LuaItem(v, i);
      ghost var x, y;
      ok, x, y := AppendData(json, At(v.m, i), depth);
      if !ok {
        ItemFails(v.m, i, depth);
        return;
      }
      if i == 1 {
        FirstItem(x, y, depth);
        assert before + ([91] + body) + x == before + ([91] + x);
        body := x;
      } else {
        NextItem(body, i - 1, acc, x, y, depth);
        Joined(before, body, x);
        body := body + [44] + x;
      }
      ArrayReadNext(v.m, acc, i, y, depth);
      acc := acc[Int(i) := y];
      i := i + 1;
    }
    json.AppendChar(93);
    Enclosed(before, 91, body, 93);
    ArrayParses(body, n, acc, depth - 1);
    ArrayReadAll(v, acc, n, depth);
    return true, [91] + body + [93], Table(acc);
  }

  lemma MaxBound(m: map<Json, Json>, n: int)
    requires n > 0 && IsMax(m, n)
    ensures n < 0x7FFF_FFFF
  {
  }

  lemma NothingRead(m: map<Json, Json>, depth: nat)
    ensures AllPositive(m) ==> ArrayRead(m, map[], 0, depth)
  {
  }

  lemma LuaItem(v: Json, i: Int64)
    requires Lua(v) && v.Table?
    ensures Lua(At(v.m, i))
    ensures At(v.m, i).Table? ==> Int(i) in v.m && At(v.m, i) == v.m[Int(i)]
  {
  }

  lemma ItemFails(m: map<Json, Json>, i: Int64, depth: nat)
    requires !Encodable(At(m, i), depth)
    ensures !EntriesEncodable(m, depth)
  {
  }

  lemma ArrayReadNext(m: map<Json, Json>, acc: map<Json, Json>, i: Int64, y: Json, depth: nat)
    requires i >= 1 && ArrayRead(m, acc, i - 1, depth) && Reads(At(m, i), y) && Encodable(At(m, i), depth)
    ensures ArrayRead(m, acc[Int(i) := y], i, depth)
  {
    hide Reads, Encodable;
    NilIsNull(y);
    forall k | k in m && k.Int? && k.i <= i
      ensures Encodable(m[k], depth)
    {
      if k.i == i {
        assert k == Int(i);
      }
    }
    forall x | x in acc[Int(i) := y]
      ensures if x in m then Reads(m[x], acc[Int(i) := y][x]) else acc[Int(i) := y][x] == Null
    {
      if x != Int(i) {
        assert x in acc;
      }
    }
  }

  lemma NilIsNull(y: Json)
    ensures Reads(Nil, y) ==> y == Null
  {
  }

  lemma ArrayReadAll(v: Json, acc: map<Json, Json>, n: nat, depth: nat)
    requires v.Table? && IsMax(v.m, n) && AllPositive(v.m) && n > 0 && ArrayRead(v.m, acc, n, depth)
    ensures Reads(v, Table(acc)) && EntriesEncodable(v.m, depth)
  {
    assert FilledTo(acc, n);
    assert Int(n) in v.m;
  }

  lemma Joined(before: seq<Byte>, body: seq<Byte>, x: seq<Byte>)
    ensures forall c: Byte :: before + ([c] + body) + [44] + x == before + ([c] + (body + [44] + x))
  {
  }

  lemma Enclosed(before: seq<Byte>, a: Byte, body: seq<Byte>, b: Byte)
    ensures before + ([a] + body) + [b] == before + ([a] + body + [b])
  {
  }

  // ---- objects ----

  // The members but those to do have been written and are read back as acc.
  ghost predicate ObjectRead(m: map<Json, Json>, acc: map<Json, Json>, todo: set<Json>, depth: nat) {
    && (forall k | k in m && k !in todo :: IsKeyType(k) && Str(KeyText(k)) in acc && Encodable(m[k], depth))
    && (forall x | x in acc :: exists k :: k in m && k !in todo && x == Str(KeyText(k)) && Reads(m[k], acc[x]))
  }

  // The order of lua_next is any order.
  method AppendObject(json: StrBuf, v: Json, depth: nat) returns (ok: bool, ghost e: seq<Byte>, ghost w: Json)
    requires json.Valid() && Lua(v) && v.Table? && (v.m == map[] || !AllPositive(v.m)) && 0 < depth <= MAX_DEPTH
    modifies json, json.buf
    ensures json.Valid() && (json.buf == old(json.buf) || fresh(json.buf))
    ensures ok <==> EntriesEncodable(v.m, depth) && forall k | k in v.m :: IsKeyType(k)
    ensures ok ==> json.Text() == old(json.Text()) + e && Parses(e, w, depth - 1) && Reads(v, w)
    ensures ok && v.m == map[] ==> e == [123, 125]
    decreases v.Table?, v, 0
  {
    hide *;
    e, w := [], v;
    ghost var before := json.Text();
    json.AppendChar(123);
    ghost var body: seq<Byte>, acc: map<Json, Json> := [], map[];
    var todo := v.m.Keys;
    NoMemberRead(v.m, depth);
    var comma := false;
    assert before + [123] == before + ([123] + body);
    while todo != {}
      invariant todo <= v.m.Keys
      invariant json.Valid() && (json.buf == old(json.buf) || fresh(json.buf))
      invariant json.Text() == before + ([123] + body) && ObjectRead(v.m, acc, todo, depth)
      invariant if comma then Members(body, acc, depth) else body == [] && acc == map[] && todo == v.m.Keys
      invariant v.m == map[] ==> !comma
      decreases |todo|
    {
      var k :| k in todo;
      ghost var was := comma;
      if comma {
        json.AppendChar(44);
      } else {
        comma := true;
      }
      LuaMember(v, k);
      if !IsKeyType(k) { return false, e, w; }
      ghost var key := AppendKey(json, k);
      ghost var x, y;
      ok, x, y := AppendData(json, v.m[k], depth);
      if !ok {
        MemberFails(v.m, k, depth);
        return;
      }
      if was {
        NextMember(body, acc, key, KeyText(k), x, y, depth);
        MemberJoined(before, body, key, x);
        body := body + [44] + MemberText(key, x);
      } else {
        FirstMember(key, KeyText(k), x, y, depth);
        MemberFirst(before, key, x);
        body := MemberText(key, x);
      }
      ObjectReadNext(v.m, acc, todo, k, y, depth);
      todo := todo - {k};
      acc := acc[Str(KeyText(k)) := y];
    }
    json.AppendChar(125);
    Enclosed(before, 123, body, 125);
    ObjectReadAll(v, acc, depth);
    if comma {
      ObjectParses(body, acc, depth - 1);
    } else {
      EmptyObjectParses(depth - 1);
      assert [123] + body + [125] == [123, 125];
    }
    return true, [123] + body + [125], Table(acc);
  }

  // A key and its colon.
  method AppendKey(json: StrBuf, k: Json) returns (ghost key: seq<Byte>)
    requires json.Valid() && IsKeyType(k)
    modifies json, json.buf
    ensures json.Valid() && (json.buf == old(json.buf) || fresh(json.buf))
    ensures json.Text() == old(json.Text()) + key + [58] && IsKey(key, KeyText(k))
  {
    hide DecimalText, EscapedAll, IsKey;
    ghost var before := json.Text();
    key := Quoted(KeyText(k));
    QuotedIsKey(KeyText(k));
    if k.Int? {
      json.AppendChar(QUOTE);
      AppendInteger(json, k.i);
      json.AppendMem([QUOTE, 58]);
      PlainDecimal(k.i);
      assert before + [QUOTE] + DecimalText(k.i) + [QUOTE, 58]
           == before + ([QUOTE] + DecimalText(k.i) + [QUOTE]) + [58];
    } else {
      AppendString(json, k.s);
      json.AppendChar(58);
    }
  }

  lemma QuotedIsKey(s: seq<Byte>)
    ensures IsKey(Quoted(s), s)
  {
    hide TokenIs, EscapedAll;
    EscapedNoZero(s);
    forall rest: seq<Byte>
      ensures TokenIs(Quoted(s), StringToken(s), rest)
    {
      QuotedToken(s, rest);
    }
  }

  lemma {:induction false} PlainAll(s: seq<Byte>)
    requires forall i :: 0 <= i < |s| ==> s[i] == 45 || 48 <= s[i] <= 57
    ensures EscapedAll(s) == s
  {
    hide Escaped;
    if s != [] {
      PlainAll(s[1..]);
      PlainOne(s[0]);
      assert [s[0]] + s[1..] == s;
    }
  }

  lemma PlainOne(c: Byte)
    requires c == 45 || 48 <= c <= 57
    ensures Escaped(c) == [c]
  {
  }

  lemma PlainDecimal(i: Int64)
    ensures EscapedAll(DecimalText(i)) == DecimalText(i)
  {
    hide EscapedAll;
    PlainAll(DecimalText(i));
  }

  lemma NoMemberRead(m: map<Json, Json>, depth: nat)
    ensures ObjectRead(m, map[], m.Keys, depth)
  {
  }

  lemma LuaMember(v: Json, k: Json)
    requires Lua(v) && v.Table? && k in v.m
    ensures Lua(v.m[k])
  {
  }

  lemma MemberFails(m: map<Json, Json>, k: Json, depth: nat)
    requires k in m && !Encodable(m[k], depth)
    ensures !EntriesEncodable(m, depth)
  {
  }

  lemma MemberJoined(before: seq<Byte>, body: seq<Byte>, key: seq<Byte>, x: seq<Byte>)
    ensures before + ([123] + body) + [44] + key + [58] + x == before + ([123] + (body + [44] + MemberText(key, x)))
  {
  }

  lemma MemberFirst(before: seq<Byte>, key: seq<Byte>, x: seq<Byte>)
    ensures before + ([123] + []) + key + [58] + x == before + ([123] + MemberText(key, x))
  {
  }

  lemma ObjectReadNext(m: map<Json, Json>, acc: map<Json, Json>, todo: set<Json>, k: Json, y: Json, depth: nat)
    requires ObjectRead(m, acc, todo, depth) && k in m && k in todo && IsKeyType(k)
    requires Reads(m[k], y) && Encodable(m[k], depth)
    ensures ObjectRead(m, acc[Str(KeyText(k)) := y], todo - {k}, depth)
  {
    hide Reads, Encodable, KeyText;
    var acc' := acc[Str(KeyText(k)) := y];
    forall x | x in acc'
      ensures exists k2 :: k2 in m && k2 !in todo - {k} && x == Str(KeyText(k2)) && Reads(m[k2], acc'[x])
    {
      if x == Str(KeyText(k)) {
        assert Reads(m[k], acc'[x]);
      } else {
        var k2 :| k2 in m && k2 !in todo && x == Str(KeyText(k2)) && Reads(m[k2], acc[x]);
        assert Reads(m[k2], acc'[x]);
      }
    }
  }

  lemma ObjectReadAll(v: Json, acc: map<Json, Json>, depth: nat)
    requires v.Table? && (v.m == map[] || !AllPositive(v.m)) && ObjectRead(v.m, acc, {}, depth)
    ensures Reads(v, Table(acc)) && EntriesEncodable(v.m, depth) && forall k | k in v.m :: IsKeyType(k)
  {
  }

  lemma EmptyEncodable(v: Json)
    ensures v == Table(map[]) ==> Encodable(v, 0)
  {
  }

  // json_encode fails exactly where the value cannot be encoded, and json_decode gives the value
  // back exactly where it is faithful.
  method Encode(v: Json) returns (r: Option<seq<Byte>>)
    requires Lua(v)
    ensures r.Some? <==> Encodable(v, 0)
    ensures r.Some? ==> exists w :: Decode(r.value) == Some(w) && Reads(v, w)
    ensures r.Some? ==> (Decode(r.value) == Some(v) <==> Faithful(v))
    ensures v == Table(map[]) ==> r == Some([123, 125])
  {
    hide *;
    var json := new StrBuf(0);
    EmptyEncodable(v);
    var ok, e, w := AppendData(json, v, 0);
    if !ok { return None; }
    WholeText(e, w);
    FaithfulIff(v, w);
    assert [] + e == e;
    var s := json.String();
    return Some(s);
  }
}
