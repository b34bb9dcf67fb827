// lua_seri.c: packing Lua values into a stream and unpacking them.  How a table is written depends
// on the border that lua_rawlen reports and on the order of lua_next; both are arbitrary here.
module Seri {
  import opened Arith
  import opened Reading
  import opened SeriBlocks
  import opened SeriFormat
  import opened ByteNumbers

  const MAX_DEPTH: nat := 32

  // ---- what Lua guarantees of a value ----

  // Keys and entries are not nil, and keys are numbers if they are floats.
  ghost predicate Lua(v: Value) {
    match v
    case Table(m) =>
      && |m| < 0x7FFF_FFFF
      && forall k | k in m :: k != Nil && !IsNaN(k) && m[k] != Nil && Lua(k) && Lua(m[k])
    case _ => true
  }

  function At(m: map<Value, Value>, i: Int64): Value {
    if Int(i) in m then m[Int(i)] else Nil
  }

  // What the length of a table may be: any n after which an item is missing.
  ghost predicate Border(m: map<Value, Value>, n: nat) {
    n < 0x7FFF_FFFF && (n == 0 || Int(n) in m) && Int(n + 1) !in m
  }

  // lua_rawlen.  Nothing is promised but that it is a border.
  method Rawlen(m: map<Value, Value>) returns (n: nat)
    requires |m| < 0x7FFF_FFFF
    ensures Border(m, n)
  {
    n := 0;
    ghost var seen: set<Value> := {};
    while Int(n + 1) in m
      invariant n <= |m| && (n == 0 || Int(n) in m)
      invariant seen <= m.Keys && |seen| == n && forall k | k in seen :: k.Int? && k.i <= n
      decreases |m| - n
    {
      seen := seen + {Int(n + 1)};
      n := n + 1;
      SubsetSize(seen, m.Keys);
      assert |m.Keys| == |m|;
    }
  }

  // Nothing in it that cannot be packed, and no value inside more than 32 tables.
  ghost predicate Packable(v: Value, depth: nat) {
    && depth <= MAX_DEPTH && v != Other
    && (v.Table? ==> forall k | k in v.m :: Packable(k, depth + 1) && Packable(v.m[k], depth + 1))
  }

  // ---- packing ----

  method WbNil(wb: WriteBlock)
    requires wb.Valid()
    modifies wb.Repr
    ensures wb.Valid() && fresh(wb.Repr - old(wb.Repr)) && wb.text == old(wb.text) + NilBytes()
  {
    wb.Push([Combine(TYPE_NIL, 0)]);
  }

  method WbBoolean(wb: WriteBlock, b: bool)
    requires wb.Valid()
    modifies wb.Repr
    ensures wb.Valid() && fresh(wb.Repr - old(wb.Repr)) && wb.text == old(wb.text) + BooleanBytes(b)
  {
    wb.Push([Combine(TYPE_BOOLEAN, if b then 1 else 0)]);
  }

  // A type byte and what belongs to it.
  method WbTagged(wb: WriteBlock, n: Byte, e: seq<Byte>)
    requires wb.Valid()
    modifies wb.Repr
    ensures wb.Valid() && fresh(wb.Repr - old(wb.Repr)) && wb.text == old(wb.text) + ([n] + e)
  {
    hide *;
    ghost var before := wb.text;
    wb.Push([n]);
    wb.Push(e);
    assert before + [n] + e == before + ([n] + e);
  }

  // (int32_t)v
  function ToInt32(v: int): int {
    FromTwos(ToTwos(v, U32_MOD), U32_MOD)
  }

  method WbInteger(wb: WriteBlock, v: Int64)
    requires wb.Valid()
    modifies wb.Repr
    ensures wb.Valid() && fresh(wb.Repr - old(wb.Repr)) && wb.text == old(wb.text) + IntegerBytes(v)
  {
    hide WriteBlock.Valid, LeBytes;
    TwosRoundTrip(v, U32_MOD);
    if v == 0 {
      wb.Push([Combine(TYPE_NUMBER, NUMBER_ZERO)]);
    } else if v != ToInt32(v) {
      WbTagged(wb, Combine(TYPE_NUMBER, NUMBER_QWORD), LeBytes(ToTwos(v, U64_MOD), 8));
    } else if v < 0 {
      WbTagged(wb, Combine(TYPE_NUMBER, NUMBER_DWORD), LeBytes(ToTwos(v, U32_MOD), 4));
    } else if v < 0x100 {
      WbTagged(wb, Combine(TYPE_NUMBER, NUMBER_BYTE), LeBytes(v, 1));
    } else if v < 0x1_0000 {
      WbTagged(wb, Combine(TYPE_NUMBER, NUMBER_WORD), LeBytes(v, 2));
    } else {
      WbTagged(wb, Combine(TYPE_NUMBER, NUMBER_DWORD), LeBytes(v, 4));
    }
  }

  method WbString(wb: WriteBlock, s: Text)
    requires wb.Valid()
    modifies wb.Repr
    ensures wb.Valid() && fresh(wb.Repr - old(wb.Repr)) && wb.text == old(wb.text) + StringBytes(s)
  {
    hide WriteBlock.Valid, LeBytes, Combine, StringBytes;
    ghost var before := wb.text;
    if |s| < MAX_COOKIE {
      wb.Push([Combine(TYPE_SHORT_STRING, |s|)]);
      if |s| > 0 {
        wb.Push(s);
      }
      ShortParts(before, s);
    } else {
      if |s| < 0x1_0000 {
        WbTagged(wb, Combine(TYPE_LONG_STRING, 2), LeBytes(|s|, 2));
      } else {
        WbTagged(wb, Combine(TYPE_LONG_STRING, 4), LeBytes(|s|, 4));
      }
      wb.Push(s);
      LongParts(before, s);
    }
  }

  lemma ShortParts(before: seq<Byte>, s: Text)
    requires |s| < MAX_COOKIE
    ensures before + [Combine(TYPE_SHORT_STRING, |s|)] + s == before + StringBytes(s)
    ensures |s| == 0 ==> before + [Combine(TYPE_SHORT_STRING, |s|)] == before + StringBytes(s)
  {
    hide Combine;
    Assoc(before, [Combine(TYPE_SHORT_STRING, |s|)], s);
  }

  lemma LongParts(before: seq<Byte>, s: Text)
    requires |s| >= MAX_COOKIE
    ensures var k := if |s| < 0x1_0000 then 2 else 4;
            before + ([Combine(TYPE_LONG_STRING, k)] + LeBytes(|s|, k)) + s == before + StringBytes(s)
  {
    hide LeBytes, Combine;
    var k := if |s| < 0x1_0000 then 2 else 4;
    Assoc(before, [Combine(TYPE_LONG_STRING, k)] + LeBytes(|s|, k), s);
  }

  lemma Assoc(a: seq<Byte>, b: seq<Byte>, c: seq<Byte>)
    ensures a + b + c == a + (b + c)
  {
  }

  // pack_one.  There is an encoding of v, and it is what has been written, exactly where v can be packed.
  method PackOne(wb: WriteBlock, v: Value, depth: nat) returns (ok: bool, ghost e: seq<Byte>)
    requires wb.Valid() && Lua(v)
    modifies wb.Repr
    ensures wb.Valid() && fresh(wb.Repr - old(wb.Repr))
    ensures ok <==> Packable(v, depth)
    ensures ok ==> wb.text == old(wb.text) + e && IsEncoding(e, v)
    decreases v.Table?, v, 2
  {
    hide WriteBlock.Valid, IsEncoding, Lua, IntegerBytes, StringBytes, RealBytes, PointerBytes, BooleanBytes, NilBytes;
    e := [];
    if depth > MAX_DEPTH { return false, e; }
    match v
    case Nil =>
      WbNil(wb);
      NilEncoded();
      return true, NilBytes();
    case Int(i) =>
      WbInteger(wb, i);
      IntegerEncoded(i);
      return true, IntegerBytes(i);
    case Real(bits) =>
      WbReal(wb, bits);
      RealEncoded(bits);
      return true, RealBytes(bits);
    case Bool(b) =>
      WbBoolean(wb, b);
      BooleanEncoded(b);
      return true, BooleanBytes(b);
    case Str(s) =>
      WbString(wb, s);
      StringEncoded(s);
      return true, StringBytes(s);
    case Pointer(bits) =>
      WbPointer(wb, bits);
      PointerEncoded(bits);
      return true, PointerBytes(bits);
    case Table(_) =>
      ok, e := WbTable(wb, v, depth + 1);
    case Other =>
      return false, e;
  }

  method WbReal(wb: WriteBlock, bits: Eight)
    requires wb.Valid()
    modifies wb.Repr
    ensures wb.Valid() && fresh(wb.Repr - old(wb.Repr)) && wb.text == old(wb.text) + RealBytes(bits)
  {
    WbTagged(wb, Combine(TYPE_NUMBER, NUMBER_REAL), bits);
  }

  method WbPointer(wb: WriteBlock, bits: Eight)
    requires wb.Valid()
    modifies wb.Repr
    ensures wb.Valid() && fresh(wb.Repr - old(wb.Repr)) && wb.text == old(wb.text) + PointerBytes(bits)
  {
    WbTagged(wb, Combine(TYPE_USERDATA, 0), bits);
  }

  // All keys and entries can be packed at this depth.
  ghost predicate Inside(m: map<Value, Value>, depth: nat) {
    forall k | k in m :: Packable(k, depth) && Packable(m[k], depth)
  }

  method WbTable(wb: WriteBlock, v: Value, depth: nat) returns (ok: bool, ghost e: seq<Byte>)
    requires wb.Valid() && Lua(v) && v.Table?
    modifies wb.Repr
    ensures wb.Valid() && fresh(wb.Repr - old(wb.Repr))
    ensures ok <==> Inside(v.m, depth)
    ensures ok ==> wb.text == old(wb.text) + e && IsEncoding(e, v)
    decreases v.Table?, v, 1
  {
    hide *;
    ghost var before := wb.text;
    var size: nat;
    ghost var items: seq<Byte>, pairs: seq<Byte>, front: map<Value, Value>;
    ok, size, items, front := WbTableArray(wb, v, depth);
    e := [];
    if !ok { return; }
    ok, pairs := WbTableHash(wb, v, depth, size, front);
    if !ok { return; }
    WbNil(wb);
    TableEncoded(size, items, front, pairs, v.m);
    e := HeaderBytes(size) + items + pairs + NilBytes();
    FourParts(before, HeaderBytes(size), items, pairs, NilBytes());
  }

  lemma FourParts(t: seq<Byte>, a: seq<Byte>, b: seq<Byte>, c: seq<Byte>, d: seq<Byte>)
    ensures t + (a + b) + c + d == t + (a + b + c + d)
  {
  }

  // ---- the array part ----

  predicate InArray(k: Value, size: nat) {
    k.Int? && 1 <= k.i <= size
  }

  function ArrayOf(m: map<Value, Value>, size: nat): map<Value, Value> {
    map k | k in m && InArray(k, size) :: m[k]
  }

  // The array keys and their entries can be packed.
  ghost predicate ArrayPackable(m: map<Value, Value>, size: nat, depth: nat) {
    forall k | k in m && InArray(k, size) :: Packable(k, depth) && Packable(m[k], depth)
  }

  method WbTableArray(wb: WriteBlock, v: Value, depth: nat)
      returns (ok: bool, size: nat, ghost items: seq<Byte>, ghost front: map<Value, Value>)
    requires wb.Valid() && Lua(v) && v.Table?
    modifies wb.Repr
    ensures wb.Valid() && fresh(wb.Repr - old(wb.Repr)) && size < 0x7FFF_FFFF
    ensures !ok ==> !Inside(v.m, depth)
    ensures ok ==> wb.text == old(wb.text) + (HeaderBytes(size) + items)
    ensures ok ==> Items(items, size, size + 1, front) && front == ArrayOf(v.m, size) && ArrayPackable(v.m, size, depth)
    decreases v.Table?, v, 0
  {
    hide *;
    LuaTable(v);
    size := Rawlen(v.m);
    IsSize(v.m, size);
    WbHeader(wb, size);
    ghost var before := wb.text;
    items, front := [], map[];
    ItemsStart(v.m, size, depth);
    var i: nat := 1;
    while i <= size
      invariant 1 <= i <= size + 1
      invariant wb.Valid() && fresh(wb.Repr - old(wb.Repr)) && wb.text == before + items
      invariant Items(items, size, i, front) && front == ArrayOf(v.m, i - 1) && ArrayPackable(v.m, i - 1, depth)
    {
      var item := At(v.m, i);
      LuaItem(v, i);
      ghost var e;
      ghost var text := wb.text;
      ok, e := PackOne(wb, item, depth);
      if !ok {
        ItemFails(v.m, size, i, depth);
        return;
      }
      ItemsNext(items, size, i, front, e, item);
      ArrayNext(v.m, i, depth);
      assert before + items + e == before + (items + e);
      items, front := items + e, RawSet(front, Int(i), item);
      i := i + 1;
    }
    ok := true;
    assert before + items == old(wb.text) + (HeaderBytes(size) + items);
  }

  method WbHeader(wb: WriteBlock, size: nat)
    requires wb.Valid() && size < 0x7FFF_FFFF
    modifies wb.Repr
    ensures wb.Valid() && fresh(wb.Repr - old(wb.Repr)) && wb.text == old(wb.text) + HeaderBytes(size)
  {
    hide WriteBlock.Valid, IntegerBytes;
    ghost var before := wb.text;
    if size >= MAX_COOKIE - 1 {
      wb.Push([Combine(TYPE_TABLE, MAX_COOKIE - 1)]);
      WbInteger(wb, size);
      assert wb.text == before + HeaderBytes(size);
    } else {
      wb.Push([Combine(TYPE_TABLE, size)]);
    }
  }

  lemma LuaTable(v: Value)
    requires Lua(v) && v.Table?
    ensures |v.m| < 0x7FFF_FFFF && forall k | k in v.m :: v.m[k] != Nil
  {
  }

  lemma IsSize(m: map<Value, Value>, n: nat)
    requires Border(m, n)
    ensures n < 0x7FFF_FFFF && (n > 0 ==> Int(n) in m)
  {
  }

  lemma LuaItem(v: Value, i: Int64)
    requires Lua(v) && v.Table?
    ensures Lua(At(v.m, i))
    ensures At(v.m, i).Table? ==> Int(i) in v.m && At(v.m, i) == v.m[Int(i)]
  {
  }

  lemma ItemFails(m: map<Value, Value>, size: nat, i: nat, depth: nat)
    requires 1 <= i <= size < 0x7FFF_FFFF && Int(size) in m && !Packable(At(m, i), depth)
    ensures !Inside(m, depth)
  {
    if Int(i) !in m {
      assert !Packable(m[Int(size)], depth);
    }
  }

  lemma ArrayNext(m: map<Value, Value>, i: nat, depth: nat)
    requires 1 <= i < 0x7FFF_FFFF && ArrayPackable(m, i - 1, depth) && Packable(At(m, i), depth)
    requires forall k | k in m :: m[k] != Nil
    ensures ArrayPackable(m, i, depth)
    ensures RawSet(ArrayOf(m, i - 1), Int(i), At(m, i)) == ArrayOf(m, i)
  {
    forall k | k in m && InArray(k, i)
      ensures Packable(k, depth) && Packable(m[k], depth)
    {
      if k.i == i {
        assert k == Int(i);
      } else {
        assert InArray(k, i - 1);
      }
    }
  }

  // ---- the hash part ----

  // The entries there are once all keys but those to do have been written.
  function Written(m: map<Value, Value>, size: nat, todo: set<Value>): map<Value, Value> {
    map k | k in m && (InArray(k, size) || k !in todo) :: m[k]
  }

  ghost predicate WrittenPackable(m: map<Value, Value>, todo: set<Value>, depth: nat) {
    forall k | k in m && k !in todo :: Packable(k, depth) && Packable(m[k], depth)
  }

  // The order of lua_next is any order.
  method WbTableHash(wb: WriteBlock, v: Value, depth: nat, size: nat, ghost front: map<Value, Value>)
      returns (ok: bool, ghost pairs: seq<Byte>)
    requires wb.Valid() && Lua(v) && v.Table?
    requires front == ArrayOf(v.m, size) && ArrayPackable(v.m, size, depth)
    modifies wb.Repr
    ensures wb.Valid() && fresh(wb.Repr - old(wb.Repr))
    ensures ok <==> Inside(v.m, depth)
    ensures ok ==> wb.text == old(wb.text) + pairs && Pairs(pairs, front, v.m)
    decreases v.Table?, v, 0
  {
    hide *;
    var todo := v.m.Keys;
    pairs := [];
    PairsStart(v.m, size, depth);
    while todo != {}
      invariant todo <= v.m.Keys
      invariant wb.Valid() && fresh(wb.Repr - old(wb.Repr)) && wb.text == old(wb.text) + pairs
      invariant Pairs(pairs, front, Written(v.m, size, todo)) && WrittenPackable(v.m, todo, depth)
      decreases |todo|
    {
      ghost var was := todo;
      var k :| k in todo;
      todo := todo - {k};
      assert todo + {k} == was;
      IsInArray(k, size);
      if k.Int? {
        if k.i > 0 && k.i <= size {
          ArrayKey(v.m, size, todo, k, depth);
          continue;
        }
      }
      LuaPair(v, k);
      ghost var e, f;
      ok, e := PackOne(wb, k, depth);
      if !ok {
        PairFails(v.m, k, depth);
        return;
      }
      ok, f := PackOne(wb, v.m[k], depth);
      if !ok {
        PairFails(v.m, k, depth);
        return;
      }
      HashKey(v.m, size, todo, k, depth);
      PairsNext(pairs, front, Written(v.m, size, todo + {k}), e, k, f, v.m[k]);
      assert old(wb.text) + pairs + e + f == old(wb.text) + (pairs + e + f);
      pairs := pairs + e + f;
    }
    ok := true;
    AllWritten(v.m, size, depth);
  }

  lemma IsInArray(k: Value, size: nat)
    ensures InArray(k, size) <==> k.Int? && 1 <= k.i <= size
  {
  }

  lemma LuaPair(v: Value, k: Value)
    requires Lua(v) && v.Table? && k in v.m
    ensures Lua(k) && Lua(v.m[k]) && k != Nil && !IsNaN(k) && v.m[k] != Nil
  {
  }

  lemma PairFails(m: map<Value, Value>, k: Value, depth: nat)
    requires k in m && !(Packable(k, depth) && Packable(m[k], depth))
    ensures !Inside(m, depth)
  {
  }

  lemma PairsStart(m: map<Value, Value>, size: nat, depth: nat)
    ensures Pairs([], ArrayOf(m, size), Written(m, size, m.Keys)) && WrittenPackable(m, m.Keys, depth)
  {
    hide DecodeHash;
    assert ArrayOf(m, size) == Written(m, size, m.Keys);
    forall rest: seq<Byte>
      ensures HashAt([], ArrayOf(m, size), ArrayOf(m, size), rest)
    {
      assert [] + rest == rest;
    }
  }

  lemma ArrayKey(m: map<Value, Value>, size: nat, todo: set<Value>, k: Value, depth: nat)
    requires k in m && k !in todo && InArray(k, size) && ArrayPackable(m, size, depth)
    requires WrittenPackable(m, todo + {k}, depth)
    ensures Written(m, size, todo) == Written(m, size, todo + {k}) && WrittenPackable(m, todo, depth)
  {
  }

  lemma HashKey(m: map<Value, Value>, size: nat, todo: set<Value>, k: Value, depth: nat)
    requires k in m && k !in todo && !InArray(k, size) && m[k] != Nil
    requires Packable(k, depth) && Packable(m[k], depth) && WrittenPackable(m, todo + {k}, depth)
    ensures RawSet(Written(m, size, todo + {k}), k, m[k]) == Written(m, size, todo) && WrittenPackable(m, todo, depth)
  {
  }

  lemma AllWritten(m: map<Value, Value>, size: nat, depth: nat)
    ensures Written(m, size, {}) == m
    ensures WrittenPackable(m, {}, depth) ==> Inside(m, depth)
  {
  }

  // ---- how the parts are read back ----

  // e is items 1 to i - 1 of size, which make acc.
  ghost predicate Items(e: seq<Byte>, size: nat, i: nat, acc: map<Value, Value>) {
    && 1 <= i <= size + 1 < 0x8000_0000
    && forall rest: seq<Byte> :: DecodeArray(e + rest, 1, size, map[]) == Shift(DecodeArray(rest, i, size, acc), |e|)
  }

  // e is pairs that make acc of m.
  ghost predicate Pairs(e: seq<Byte>, m: map<Value, Value>, acc: map<Value, Value>) {
    forall rest: seq<Byte> :: HashAt(e, m, acc, rest)
  }

  ghost predicate HashAt(e: seq<Byte>, m: map<Value, Value>, acc: map<Value, Value>, rest: seq<Byte>) {
    DecodeHash(e + rest, m) == Shift(DecodeHash(rest, acc), |e|)
  }

  lemma HashAtIs(e: seq<Byte>, m: map<Value, Value>, acc: map<Value, Value>, rest: seq<Byte>)
    ensures HashAt(e, m, acc, rest) == (DecodeHash(e + rest, m) == Shift(DecodeHash(rest, acc), |e|))
  {
    hide DecodeHash, Shift;
  }

  lemma ItemsStart(m: map<Value, Value>, size: nat, depth: nat)
    requires size < 0x7FFF_FFFF
    ensures Items([], size, 1, map[]) && ArrayOf(m, 0) == map[] && ArrayPackable(m, 0, depth)
  {
    hide DecodeArray;
    forall rest: seq<Byte>
      ensures DecodeArray([] + rest, 1, size, map[]) == Shift(DecodeArray(rest, 1, size, map[]), 0)
    {
      assert [] + rest == rest;
    }
  }

  lemma ItemsNext(e: seq<Byte>, size: nat, i: nat, acc: map<Value, Value>, x: seq<Byte>, v: Value)
    requires Items(e, size, i, acc) && i <= size && IsEncoding(x, v)
    ensures Items(e + x, size, i + 1, RawSet(acc, Int(i), v))
  {
    hide DecodeOne, DecodeArray, RawSet;
    forall rest: seq<Byte>
      ensures DecodeArray(e + x + rest, 1, size, map[]) ==
              Shift(DecodeArray(rest, i + 1, size, RawSet(acc, Int(i), v)), |e + x|)
    {
      assert e + x + rest == e + (x + rest);
      ArrayStep(x + rest, i, size, acc, v, |x|);
      assert (x + rest)[|x|..] == rest;
    }
  }

  lemma ArrayStep(s: seq<Byte>, i: nat, size: nat, m: map<Value, Value>, v: Value, n: nat)
    requires DecodeOne(s) == Some((v, n)) && i <= size < 0x7FFF_FFFF
    ensures n <= |s| && DecodeArray(s, i, size, m) == Shift(DecodeArray(s[n..], i + 1, size, RawSet(m, Int(i), v)), n)
  {
    hide DecodeOne, RawSet, Shift;
  }

  lemma Decodes(e: seq<Byte>, v: Value, rest: seq<Byte>)
    requires IsEncoding(e, v)
    ensures DecodeOne(e + rest) == Some((v, |e|))
  {
    hide DecodeOne;
  }

  lemma PairsAt(e: seq<Byte>, m: map<Value, Value>, acc: map<Value, Value>, rest: seq<Byte>)
    requires Pairs(e, m, acc)
    ensures DecodeHash(e + rest, m) == Shift(DecodeHash(rest, acc), |e|)
  {
    hide DecodeHash, Shift;
    assert HashAt(e, m, acc, rest);
  }

  lemma Regroup(a: seq<Byte>, b: seq<Byte>, c: seq<Byte>, d: seq<Byte>)
    ensures a + b + c + d == a + (b + (c + d)) && |a + b + c| == |a| + (|b| + |c|)
  {
  }

  lemma PairsNext(e: seq<Byte>, m: map<Value, Value>, acc: map<Value, Value>,
                  x: seq<Byte>, k: Value, y: seq<Byte>, v: Value)
    requires Pairs(e, m, acc) && IsEncoding(x, k) && IsEncoding(y, v) && k != Nil && !IsNaN(k)
    ensures Pairs(e + x + y, m, RawSet(acc, k, v))
  {
    hide DecodeOne, DecodeHash, RawSet, IsNaN, IsEncoding, Shift, HashAt;
    forall rest: seq<Byte>
      ensures HashAt(e + x + y, m, RawSet(acc, k, v), rest)
    {
      PairDecoded(x + (y + rest), x, k, y + rest, y, v, rest, acc);
      ShiftTwice(DecodeHash(rest, RawSet(acc, k, v)), |x| + |y|, |e|);
      PairsAt(e, m, acc, x + (y + rest));
      Regroup(e, x, y, rest);
      HashAtIs(e + x + y, m, RawSet(acc, k, v), rest);
    }
  }

  lemma DecodesFrom(s: seq<Byte>, e: seq<Byte>, v: Value, t: seq<Byte>)
    requires IsEncoding(e, v) && s == e + t
    ensures |e| <= |s| && s[|e|..] == t && DecodeOne(s) == Some((v, |e|))
  {
    hide DecodeOne, IsEncoding;
    Decodes(e, v, t);
  }

  // s is x, which stands for k, and t; t is y, which stands for v, and rest.
  lemma PairDecoded(s: seq<Byte>, x: seq<Byte>, k: Value, t: seq<Byte>, y: seq<Byte>, v: Value, rest: seq<Byte>,
                    m: map<Value, Value>)
    requires s == x + t && t == y + rest && IsEncoding(x, k) && IsEncoding(y, v) && k != Nil && !IsNaN(k)
    ensures DecodeHash(s, m) == Shift(DecodeHash(rest, RawSet(m, k, v)), |x| + |y|)
  {
    hide *;
    DecodesFrom(s, x, k, t);
    DecodesFrom(t, y, v, rest);
    HashStep(s, t, rest, m, k, |x|, v, |y|);
  }

  lemma HashStep(s: seq<Byte>, t: seq<Byte>, rest: seq<Byte>, m: map<Value, Value>, k: Value, n: nat, v: Value, n2: nat)
    requires n <= |s| && t == s[n..] && n2 <= |t| && rest == t[n2..]
    requires DecodeOne(s) == Some((k, n)) && k != Nil && !IsNaN(k) && DecodeOne(t) == Some((v, n2))
    ensures DecodeHash(s, m) == Shift(DecodeHash(rest, RawSet(m, k, v)), n + n2)
  {
    hide DecodeOne, RawSet, IsNaN, Shift;
    assert rest == s[n + n2..];
  }

  lemma HashEnd(s: seq<Byte>, m: map<Value, Value>)
    ensures DecodeHash(NilBytes() + s, m) == Some((m, 1))
  {
    NilEncoded();
    assert DecodeOne(NilBytes() + s) == Some((Nil, 1));
    hide DecodeOne;
  }

  lemma TableEncoded(size: nat, items: seq<Byte>, front: map<Value, Value>, pairs: seq<Byte>, m: map<Value, Value>)
    requires size < 0x7FFF_FFFF && Items(items, size, size + 1, front) && Pairs(pairs, front, m)
    ensures IsEncoding(HeaderBytes(size) + items + pairs + NilBytes(), Table(m))
  {
    hide DecodeOne, DecodeArray, DecodeHash, HeaderBytes, Items, Pairs, NilBytes;
    var e := HeaderBytes(size) + items + pairs + NilBytes();
    forall rest: seq<Byte>
      ensures DecodeOne(e + rest) == Some((Table(m), |e|))
    {
      var r1 := pairs + (NilBytes() + rest);
      BodyDecoded(size, items, front, pairs, m, rest);
      HeaderDecoded(size, items + r1, m, |items| + |pairs| + 1);
      assert e + rest == HeaderBytes(size) + (items + r1);
    }
  }

  lemma BodyDecoded(size: nat, items: seq<Byte>, front: map<Value, Value>, pairs: seq<Byte>, m: map<Value, Value>,
                    rest: seq<Byte>)
    requires Items(items, size, size + 1, front) && Pairs(pairs, front, m)
    ensures |NilBytes()| == 1
    ensures DecodeArray(items + (pairs + (NilBytes() + rest)), 1, size, map[]) == Some((m, |items| + |pairs| + 1))
  {
    hide DecodeOne, DecodeArray, DecodeHash, Pairs;
    var r1 := pairs + (NilBytes() + rest);
    HashEnd(rest, m);
    PairsAt(pairs, front, m, NilBytes() + rest);
    ArrayEnd(r1, size, front);
    assert DecodeArray(items + r1, 1, size, map[]) == Shift(DecodeArray(r1, size + 1, size, front), |items|);
  }

  lemma ArrayEnd(s: seq<Byte>, size: nat, m: map<Value, Value>)
    requires size < 0x7FFF_FFFF
    ensures DecodeArray(s, size + 1, size, m) == DecodeHash(s, m)
  {
    hide DecodeHash;
  }

  lemma HeaderDecoded(size: nat, s: seq<Byte>, m: map<Value, Value>, n: nat)
    requires size < 0x7FFF_FFFF && DecodeArray(s, 1, size, map[]) == Some((m, n))
    ensures DecodeOne(HeaderBytes(size) + s) == Some((Table(m), |HeaderBytes(size)| + n))
  {
    hide DecodeOne, DecodeArray, IntegerBytes, DecodeInteger;
    if size < MAX_COOKIE - 1 {
      OneFrom(TYPE_TABLE, size, s);
    } else {
      var cookie, e := IntegerParts(size);
      var b := Combine(TYPE_NUMBER, cookie);
      assert HeaderBytes(size) + s == [Combine(TYPE_TABLE, MAX_COOKIE - 1)] + ([b] + (e + s));
      OneFrom(TYPE_TABLE, MAX_COOKIE - 1, [b] + (e + s));
      var t := [b] + (e + s);
      assert t[1..] == e + s && t[1 + |e|..] == s;
      NumberByte(cookie);
      LongHeaderDecoded(size, t, |e|, m, n);
    }
  }

  lemma LongHeaderDecoded(size: nat, t: seq<Byte>, k: nat, m: map<Value, Value>, n: nat)
    requires t != [] && t[0] % 8 == TYPE_NUMBER && t[0] / 8 != NUMBER_REAL && size < 0x7FFF_FFFF
    requires 1 + k <= |t| && DecodeInteger(t[1..], t[0] / 8) == Some((size, k))
    requires DecodeArray(t[1 + k..], 1, size, map[]) == Some((m, n))
    ensures DecodeTable(t, MAX_COOKIE - 1) == Some((m, 1 + k + n))
  {
    hide DecodeArray, DecodeInteger, DecodeTable, ToInt32;
    ToInt32Same(size);
    LongTable(t, size, k);
  }

  lemma NumberByte(cookie: nat)
    requires cookie < 32
    ensures Combine(TYPE_NUMBER, cookie) % 8 == TYPE_NUMBER && Combine(TYPE_NUMBER, cookie) / 8 == cookie
  {
  }

  lemma LongTable(t: seq<Byte>, x: Int64, n: nat)
    requires t != [] && t[0] % 8 == TYPE_NUMBER && t[0] / 8 != NUMBER_REAL
    requires DecodeInteger(t[1..], t[0] / 8) == Some((x, n))
    ensures ToInt32(x) < 0x8000_0000 && 1 + n <= |t|
    ensures DecodeTable(t, MAX_COOKIE - 1) == Shift(DecodeArray(t[1 + n..], 1, ToInt32(x), map[]), 1 + n)
  {
    hide DecodeArray, DecodeInteger, Shift;
  }

  lemma ToInt32Same(size: nat)
    requires size < 0x7FFF_FFFF
    ensures ToInt32(size) == size
  {
    TwosRoundTrip(size, U32_MOD);
  }

  // ---- a list of values ----

  // e is values[..n], whatever follows.
  ghost predicate Listed(e: seq<Byte>, values: seq<Value>) {
    forall rest: seq<Byte> :: DecodeAll(e + rest) == Prepend(values, DecodeAll(rest))
  }

  function Prepend(values: seq<Value>, r: Option<seq<Value>>): Option<seq<Value>> {
    match r
    case None => None
    case Some(vs) => Some(values + vs)
  }

  lemma ListedNone()
    ensures Listed([], [])
  {
    hide DecodeAll;
    forall rest: seq<Byte>
      ensures DecodeAll([] + rest) == Prepend([], DecodeAll(rest))
    {
      assert [] + rest == rest;
      if DecodeAll(rest).Some? {
        assert [] + DecodeAll(rest).value == DecodeAll(rest).value;
      }
    }
  }

  lemma ListedNext(e: seq<Byte>, values: seq<Value>, x: seq<Byte>, v: Value)
    requires Listed(e, values) && IsEncoding(x, v)
    ensures Listed(e + x, values + [v])
  {
    hide DecodeOne, DecodeAll, IsEncoding;
    forall rest: seq<Byte>
      ensures DecodeAll(e + x + rest) == Prepend(values + [v], DecodeAll(rest))
    {
      assert e + x + rest == e + (x + rest);
      AllStep(x, v, rest);
      if DecodeAll(rest).Some? {
        assert values + ([v] + DecodeAll(rest).value) == values + [v] + DecodeAll(rest).value;
      }
    }
  }

  lemma AllStep(x: seq<Byte>, v: Value, rest: seq<Byte>)
    requires IsEncoding(x, v)
    ensures DecodeAll(x + rest) == Prepend([v], DecodeAll(rest))
  {
    Decodes(x, v, rest);
    hide DecodeOne, IsEncoding;
    assert (x + rest)[|x|..] == rest;
  }

  lemma ListedAll(e: seq<Byte>, values: seq<Value>)
    requires Listed(e, values)
    ensures DecodeAll(e) == Some(values)
  {
    assert DecodeAll([]) == Some([]);
    hide DecodeAll;
    assert e + [] == e && values + [] == values;
    assert DecodeAll(e + []) == Prepend(values, DecodeAll([]));
  }

  // luaseri_pack: the stream unpacks to the values that were packed.  It fails exactly where one
  // of them cannot be packed.
  method Pack(values: seq<Value>) returns (r: Option<seq<Byte>>)
    requires forall i :: 0 <= i < |values| ==> Lua(values[i])
    ensures r.Some? <==> forall i :: 0 <= i < |values| ==> Packable(values[i], 0)
    ensures r.Some? ==> DecodeAll(r.value) == Some(values)
  {
    hide *;
    var wb := new WriteBlock();
    ListedNone();
    var i: nat := 0;
    while i < |values|
      invariant i <= |values| && wb.Valid() && fresh(wb.Repr)
      invariant Listed(wb.text, values[..i]) && forall j :: 0 <= j < i ==> Packable(values[j], 0)
    {
      ghost var text := wb.text;
      var ok, e := PackOne(wb, values[i], 0);
      if !ok { return None; }
      ListedNext(text, values[..i], e, values[i]);
      assert values[..i + 1] == values[..i] + [values[i]];
      i := i + 1;
    }
    assert values[..i] == values;
    ListedAll(wb.text, values);
    var buffer := wb.Flatten();
    return Some(buffer[..]);
  }

  // ---- unpacking ----

  method GetInteger(rb: ReadBlock, cookie: nat) returns (r: Option<Int64>)
    requires rb.Valid()
    modifies rb
    ensures rb.Valid() && Took(old(rb.Rest()), rb.Rest(), DecodeInteger(old(rb.Rest()), cookie), r)
  {
    hide LeValue;
    if cookie == NUMBER_ZERO { return Some(0); }
    if cookie == NUMBER_BYTE {
      var b := rb.Read(1);
      if b == None { return None; }
      return Some(LeValue(b.value) % 0x100);
    }
    if cookie == NUMBER_WORD {
      var b := rb.Read(2);
      if b == None { return None; }
      return Some(LeValue(b.value) % 0x1_0000);
    }
    if cookie == NUMBER_DWORD {
      var b := rb.Read(4);
      if b == None { return None; }
      return Some(FromTwos(LeValue(b.value) % 0x1_0000_0000, 0x1_0000_0000));
    }
    if cookie == NUMBER_QWORD {
      var b := rb.Read(8);
      if b == None { return None; }
      return Some(FromTwos(LeValue(b.value) % U64_MOD, U64_MOD));
    }
    return None;
  }

  method GetEight(rb: ReadBlock) returns (r: Option<Eight>)
    requires rb.Valid()
    modifies rb
    ensures rb.Valid()
    ensures if |old(rb.Rest())| < 8 then r == None
            else r == Some(old(rb.Rest())[..8]) && rb.Rest() == old(rb.Rest())[8..]
  {
    var b := rb.Read(8);
    if b == None { return None; }
    return Some(b.value);
  }

  method GetLongString(rb: ReadBlock, cookie: nat) returns (r: Option<Value>)
    requires rb.Valid() && cookie < 32
    modifies rb
    ensures rb.Valid() && Took(old(rb.Rest()), rb.Rest(), DecodeValue(old(rb.Rest()), TYPE_LONG_STRING, cookie), r)
  {
    hide DecodeTable, DecodeInteger, DecodeString, LeValue;
    if cookie != 2 && cookie != 4 { return None; }
    var b := rb.Read(cookie);
    if b == None { return None; }
    r := GetBuffer(rb, LeValue(b.value));
  }

  method GetBuffer(rb: ReadBlock, len: nat) returns (r: Option<Value>)
    requires rb.Valid()
    modifies rb
    ensures rb.Valid() && Took(old(rb.Rest()), rb.Rest(), DecodeString(old(rb.Rest()), len), r)
  {
    if len >= 0x8000_0000 { return None; }
    var b := rb.Read(len);
    if b == None { return None; }
    return Some(Str(b.value));
  }

  method UnpackOne(rb: ReadBlock) returns (r: Option<Value>)
    requires rb.Valid()
    modifies rb
    ensures rb.Valid() && Took(old(rb.Rest()), rb.Rest(), DecodeOne(old(rb.Rest())), r)
    decreases |rb.Rest()|, 0
  {
    hide DecodeValue;
    var b := rb.Read(1);
    if b == None { return None; }
    r := PushValue(rb, b.value[0] % 8, b.value[0] / 8);
  }

  method PushValue(rb: ReadBlock, t: nat, cookie: nat) returns (r: Option<Value>)
    requires rb.Valid() && cookie < 32
    modifies rb
    ensures rb.Valid() && Took(old(rb.Rest()), rb.Rest(), DecodeValue(old(rb.Rest()), t, cookie), r)
    decreases |rb.Rest()|, 4
  {
    hide DecodeTable, DecodeInteger, DecodeString, LeValue;
    if t == TYPE_NIL { return Some(Nil); }
    if t == TYPE_BOOLEAN { return Some(Bool(cookie != 0)); }
    if t == TYPE_NUMBER {
      if cookie == NUMBER_REAL {
        var b := GetEight(rb);
        if b == None { return None; }
        return Some(Real(b.value));
      }
      var i := GetInteger(rb, cookie);
      if i == None { return None; }
      return Some(Int(i.value));
    }
    if t == TYPE_USERDATA {
      var b := GetEight(rb);
      if b == None { return None; }
      return Some(Pointer(b.value));
    }
    if t == TYPE_SHORT_STRING {
      r := GetBuffer(rb, cookie);
      return;
    }
    if t == TYPE_LONG_STRING {
      r := GetLongString(rb, cookie);
      return;
    }
    if t == TYPE_TABLE {
      var m := UnpackTable(rb, cookie);
      if m == None { return None; }
      return Some(Table(m.value));
    }
    return None;
  }

  method UnpackTable(rb: ReadBlock, cookie: nat) returns (r: Option<map<Value, Value>>)
    requires rb.Valid() && cookie < 32
    modifies rb
    ensures rb.Valid() && Took(old(rb.Rest()), rb.Rest(), DecodeTable(old(rb.Rest()), cookie), r)
    decreases |rb.Rest()|, 3
  {
    hide DecodeArray, DecodeInteger;
    var size: int := cookie;
    if cookie == MAX_COOKIE - 1 {
      var b := rb.Read(1);
      if b == None { return None; }
      var type0 := b.value[0];
      if type0 % 8 != TYPE_NUMBER || type0 / 8 == NUMBER_REAL { return None; }
      var x := GetInteger(rb, type0 / 8);
      if x == None { return None; }
      size := ToInt32(x.value);
    }
    r := UnpackItems(rb, size);
  }

  method UnpackItems(rb: ReadBlock, size: int) returns (r: Option<map<Value, Value>>)
    requires rb.Valid() && size < 0x8000_0000
    modifies rb
    ensures rb.Valid() && Took(old(rb.Rest()), rb.Rest(), DecodeArray(old(rb.Rest()), 1, size, map[]), r)
    decreases |rb.Rest()|, 2
  {
    hide DecodeOne, DecodeArray, DecodeHash, RawSet, Took, ItemsFrom;
    ghost var s := rb.Rest();
    var m: map<Value, Value> := map[];
    var i: Int64 := 1;
    ghost var k: nat := 0;
    ItemsFromStart(s, size);
    while i <= size
      invariant 1 <= i && (i == 1 || i <= size + 1) && rb.Valid() && k <= |s| && rb.Rest() == s[k..]
      invariant ItemsFrom(s, k, i, size, m)
      decreases size - i
    {
      var v := UnpackOne(rb);
      ghost var n := ItemsFromStep(s, k, i, size, m, rb.Rest(), v);
      if v == None {
        TookNone(s, rb.Rest(), DecodeArray(s, 1, size, map[]));
        return None;
      }
      k := k + n;
      m := RawSet(m, Int(i), v.value);
      i := i + 1;
    }
    r := UnpackPairs(rb, m);
    ItemsFromEnd(s, k, i, size, m, rb.Rest(), r);
  }

  // Reading the items from the start comes to reading items i and on from k.
  ghost predicate ItemsFrom(s: seq<Byte>, k: nat, i: Int64, size: int, m: map<Value, Value>) {
    && size < 0x8000_0000 && k <= |s|
    && DecodeArray(s, 1, size, map[]) == Shift(DecodeArray(s[k..], i, size, m), k)
  }

  lemma ItemsFromStart(s: seq<Byte>, size: int)
    requires size < 0x8000_0000
    ensures s[0..] == s && ItemsFrom(s, 0, 1, size, map[])
  {
    hide DecodeArray;
  }

  lemma ItemsFromStep(s: seq<Byte>, k: nat, i: Int64, size: int, m: map<Value, Value>,
                      after: seq<Byte>, v: Option<Value>)
      returns (n: nat)
    requires ItemsFrom(s, k, i, size, m) && k <= |s| && i <= size && Took(s[k..], after, DecodeOne(s[k..]), v)
    ensures v == None ==> DecodeArray(s, 1, size, map[]) == None
    ensures v.Some? ==>
              k + n <= |s| && after == s[k + n..] && ItemsFrom(s, k + n, i + 1, size, RawSet(m, Int(i), v.value))
    ensures v.Some? ==> n > 0
  {
    ArrayUnfolds(s[k..], i, size, m);
    hide DecodeOne, DecodeArray, RawSet;
    n := 0;
    if v.Some? {
      n := DecodeOne(s[k..]).value.1;
      assert s[k..][n..] == s[k + n..];
    }
  }

  lemma ArrayUnfolds(s: seq<Byte>, i: Int64, size: int, m: map<Value, Value>)
    requires i <= size < 0x8000_0000
    ensures DecodeOne(s) == None ==> DecodeArray(s, i, size, m) == None
    ensures DecodeOne(s).Some? ==>
              var d := DecodeOne(s).value;
              DecodeArray(s, i, size, m) == Shift(DecodeArray(s[d.1..], i + 1, size, RawSet(m, Int(i), d.0)), d.1)
  {
    hide DecodeOne, RawSet, Shift;
  }

  lemma ItemsFromEnd(s: seq<Byte>, k: nat, i: Int64, size: int, m: map<Value, Value>, after: seq<Byte>,
                     r: Option<map<Value, Value>>)
    requires ItemsFrom(s, k, i, size, m) && k <= |s| && i > size && Took(s[k..], after, DecodeHash(s[k..], m), r)
    ensures Took(s, after, DecodeArray(s, 1, size, map[]), r)
  {
    assert DecodeArray(s[k..], i, size, m) == DecodeHash(s[k..], m);
    hide DecodeArray, DecodeHash;
    if r.Some? {
      var n := DecodeHash(s[k..], m).value.1;
      assert s[k..][n..] == s[k + n..];
    }
  }

  method UnpackPairs(rb: ReadBlock, m0: map<Value, Value>) returns (r: Option<map<Value, Value>>)
    requires rb.Valid()
    modifies rb
    ensures rb.Valid() && Took(old(rb.Rest()), rb.Rest(), DecodeHash(old(rb.Rest()), m0), r)
    decreases |rb.Rest()|, 1
  {
    hide DecodeOne, DecodeHash, RawSet, Took, PairsRead, IsNaN;
    ghost var s := rb.Rest();
    var m := m0;
    ghost var j: nat := 0;
    PairsReadStart(s, m0);
    while true
      invariant rb.Valid() && j <= |s| && rb.Rest() == s[j..]
      invariant PairsRead(s, j, m0, m)
      decreases |s| - j
    {
      var k := UnpackOne(rb);
      ghost var n := KeyRead(s, j, m0, m, rb.Rest(), k);
      if k == None { return None; }
      if k.value == Nil { return Some(m); }
      var v := UnpackOne(rb);
      ghost var n2 := ValueRead(s, j, n, m0, m, k.value, rb.Rest(), v);
      if v == None { return None; }
      if IsNaN(k.value) { return None; }
      m := RawSet(m, k.value, v.value);
      j := j + n + n2;
    }
  }

  // Reading the pairs from the start comes to reading them from j.
  ghost predicate PairsRead(s: seq<Byte>, j: nat, m0: map<Value, Value>, m: map<Value, Value>) {
    j <= |s| && DecodeHash(s, m0) == Shift(DecodeHash(s[j..], m), j)
  }

  lemma PairsReadStart(s: seq<Byte>, m: map<Value, Value>)
    ensures s[0..] == s && PairsRead(s, 0, m, m)
  {
    hide DecodeHash;
  }

  lemma KeyRead(s: seq<Byte>, j: nat, m0: map<Value, Value>, m: map<Value, Value>, after: seq<Byte>, k: Option<Value>)
      returns (n: nat)
    requires PairsRead(s, j, m0, m) && j <= |s| && Took(s[j..], after, DecodeOne(s[j..]), k)
    ensures k == None ==> Took(s, after, DecodeHash(s, m0), None)
    ensures k == Some(Nil) ==> Took(s, after, DecodeHash(s, m0), Some(m))
    ensures k.Some? ==> n > 0 && j + n <= |s| && after == s[j + n..] && DecodeOne(s[j..]) == Some((k.value, n))
  {
    HashUnfolds(s[j..], m);
    hide DecodeOne, DecodeHash, IsNaN, RawSet;
    n := 0;
    if k.Some? {
      n := DecodeOne(s[j..]).value.1;
      assert s[j..][n..] == s[j + n..];
    }
  }

  lemma ValueRead(s: seq<Byte>, j: nat, n: nat, m0: map<Value, Value>, m: map<Value, Value>, k: Value,
                  after: seq<Byte>, v: Option<Value>) returns (n2: nat)
    requires PairsRead(s, j, m0, m) && j + n <= |s| && DecodeOne(s[j..]) == Some((k, n)) && k != Nil
    requires Took(s[j + n..], after, DecodeOne(s[j + n..]), v)
    ensures v == None || IsNaN(k) ==> Took(s, after, DecodeHash(s, m0), None)
    ensures v.Some? && !IsNaN(k) ==>
              j + n + n2 <= |s| && after == s[j + n + n2..] && PairsRead(s, j + n + n2, m0, RawSet(m, k, v.value))
  {
    hide DecodeOne, DecodeHash, IsNaN, RawSet, Shift;
    HashUnfolds(s[j..], m);
    Drops(s, j, n, 0);
    n2 := 0;
    ShiftNone<map<Value, Value>>(j);
    if v.Some? {
      n2 := DecodeOne(s[j + n..]).value.1;
      Drops(s, j, n, n2);
      ShiftTwice(DecodeHash(s[j + n + n2..], RawSet(m, k, v.value)), n + n2, j);
    }
  }

  lemma Drops(s: seq<Byte>, j: nat, n: nat, n2: nat)
    requires j + n + n2 <= |s|
    ensures s[j..][n..] == s[j + n..] && s[j + n..][n2..] == s[j + n + n2..] && s[j..][n + n2..] == s[j + n + n2..]
  {
  }

  lemma HashUnfolds(s: seq<Byte>, m: map<Value, Value>)
    ensures DecodeOne(s) == None ==> DecodeHash(s, m) == None
    ensures forall k, n :: DecodeOne(s) == Some((k, n)) && k == Nil ==> DecodeHash(s, m) == Some((m, n))
    ensures forall k, n :: DecodeOne(s) == Some((k, n)) && k != Nil ==>
              n <= |s| && DecodeHash(s, m) == AfterKey(s[n..], n, k, m)
  {
    hide DecodeOne, RawSet, Shift, IsNaN;
  }

  function AfterKey(s: seq<Byte>, n: nat, k: Value, m: map<Value, Value>): Option<(map<Value, Value>, nat)> {
    match DecodeOne(s)
    case None => None
    case Some((v, n2)) => if IsNaN(k) then None else Shift(DecodeHash(s[n2..], RawSet(m, k, v)), n + n2)
  }

  // luaseri_unpack
  method Unpack(stream: seq<Byte>) returns (r: Option<seq<Value>>)
    ensures r == DecodeAll(stream)
  {
    hide DecodeAll, DecodeOne, DecodeValue, Took;
    var rb := new ReadBlock(stream);
    var values: seq<Value> := [];
    AllStart(stream);
    while true
      invariant rb.Valid() && fresh(rb) && DecodeAll(stream) == Prepend(values, DecodeAll(rb.Rest()))
      decreases |rb.Rest()|
    {
      ghost var s := rb.Rest();
      var b := rb.Read(1);
      if b == None {
        AllEnd(s, values);
        return Some(values);
      }
      var v := PushValue(rb, b.value[0] % 8, b.value[0] / 8);
      AllNext(s, rb.Rest(), values, v);
      if v == None { return None; }
      values := values + [v.value];
    }
  }

  lemma AllStart(s: seq<Byte>)
    ensures DecodeAll(s) == Prepend([], DecodeAll(s))
  {
    hide DecodeAll;
    if DecodeAll(s).Some? {
      assert [] + DecodeAll(s).value == DecodeAll(s).value;
    }
  }

  lemma AllEnd(s: seq<Byte>, values: seq<Value>)
    requires s == []
    ensures Prepend(values, DecodeAll(s)) == Some(values)
  {
    assert values + [] == values;
  }

  lemma AllNext(s: seq<Byte>, after: seq<Byte>, values: seq<Value>, v: Option<Value>)
    requires s != [] && Took(s[1..], after, DecodeValue(s[1..], s[0] % 8, s[0] / 8), v)
    ensures v == None ==> Prepend(values, DecodeAll(s)) == None
    ensures v.Some? ==> |after| < |s| && Prepend(values, DecodeAll(s)) == Prepend(values + [v.value], DecodeAll(after))
  {
    AllUnfolds(s);
    hide DecodeAll, DecodeValue;
    if v.Some? {
      var n := DecodeValue(s[1..], s[0] % 8, s[0] / 8).value.1;
      assert s[1..][n..] == s[1 + n..];
      if DecodeAll(after).Some? {
        assert values + ([v.value] + DecodeAll(after).value) == values + [v.value] + DecodeAll(after).value;
      }
    }
  }

  lemma AllUnfolds(s: seq<Byte>)
    requires s != []
    ensures DecodeOne(s) == None ==> DecodeAll(s) == None
    ensures DecodeOne(s).Some? ==>
              var d := DecodeOne(s).value;
              DecodeAll(s) == Prepend([d.0], DecodeAll(s[d.1..]))
  {
    hide DecodeOne;
  }
}
