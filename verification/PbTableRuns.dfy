// Whole runs of the table of lua_pb.h against a finite map.
module PbTableRuns {
  import opened Arith
  import opened Reading
  import opened PbTable

  datatype Op<V> = Put(key: int, value: V) | Look(key: int) | Remove(key: int)

  function ValueOr<V>(m: map<int, V>, key: int, zero: V): V {
    if key in m then m[key] else zero
  }

  function Apply<V>(m: map<int, V>, op: Op<V>): map<int, V> {
    match op
    case Put(k, v) => m[k := v]
    case Look(k) => m
    case Remove(k) => m - {k}
  }

  // The map after a run from an empty one.
  function After<V>(ops: seq<Op<V>>): map<int, V> {
    if ops == [] then map[] else Apply(After(ops[..|ops| - 1]), ops[|ops| - 1])
  }

  // Nothing was removed but key 0, which has its own slot.
  predicate KeepsOthers<V>(ops: seq<Op<V>>) {
    forall i :: 0 <= i < |ops| && ops[i].Remove? ==> ops[i].key == 0
  }

  method Lookup<V>(t: Table<V>, key: int) returns (v: V)
    requires t.Valid()
    ensures v == if key == 0 then t.ZeroPayload() else ValueOr(t.M, key, t.zero)
  {
    var slot := t.Get(key);
    v := if slot.Some? then t.hash[slot.value].payload else t.zero;
  }

  // A map that agrees with the table on every key but 0, whose payload may be lost, unless it is exact.
  ghost predicate Refines<V>(m: map<int, V>, tm: map<int, V>, z: V, zero: V, exact: bool) {
    && 0 !in tm
    && (forall k :: k != 0 ==> ValueOr(tm, k, zero) == ValueOr(m, k, zero))
    && (z == ValueOr(m, 0, zero) || (!exact && z == zero))
  }

  lemma TableMapHasNoZero<V>(t: Table<V>)
    requires t.Valid()
    ensures 0 !in t.M
  {
  }

  // pb_settable, and the caller's store through the entry.
  method Assign<V>(t: Table<V>, k: int, v: V)
    requires t.Valid()
    modifies t, t.hash
    ensures t.Valid() && (t.hash == old(t.hash) || fresh(t.hash)) && (old(t.NoHoles()) ==> t.NoHoles())
    ensures t.M == if k == 0 then old(t.M) else old(t.M)[k := v]
    ensures k == 0 ==> t.ZeroPayload() == v
    ensures k != 0 ==> t.ZeroPayload() == old(t.ZeroPayload()) || (t.ZeroPayload() == t.zero && !old(t.NoHoles()))
  {
    hide TableOk, Holds, EmptiesAreZero, Tight, HasHole, Entered, Cleared;
    var slot := t.Set(k);
    t.Store(slot, v);
  }

  method Discard<V>(t: Table<V>, k: int)
    requires t.Valid()
    modifies t, t.hash
    ensures t.Valid() && t.hash == old(t.hash) && t.M == old(t.M) - {k}
    ensures t.ZeroPayload() == if k == 0 then t.zero else old(t.ZeroPayload())
    ensures k == 0 && old(t.NoHoles()) ==> t.NoHoles()
  {
    TableMapHasNoZero(t);
    hide TableOk, Holds, EmptiesAreZero, Tight;
    var slot := t.Get(k);
    if slot.Some? {
      t.Clear(slot.value);
    }
  }

  lemma RefinesApply<V>(m: map<int, V>, tm: map<int, V>, z: V, zero: V, exact: bool, op: Op<V>,
                        tm': map<int, V>, z': V, exact': bool)
    requires Refines(m, tm, z, zero, exact) && (exact' ==> exact)
    requires tm' == match op
                    case Put(k, v) => (if k == 0 then tm else tm[k := v])
                    case Look(k) => tm
                    case Remove(k) => tm - {k}
    requires op.key == 0 && op.Put? ==> z' == op.value
    requires op.key == 0 && op.Remove? ==> z' == zero
    requires op.key != 0 || op.Look? ==> z' == z || (z' == zero && !exact')
    ensures Refines(Apply(m, op), tm', z', zero, exact')
  {
    forall k | k != 0
      ensures ValueOr(tm', k, zero) == ValueOr(Apply(m, op), k, zero)
    {
      assert ValueOr(tm, k, zero) == ValueOr(m, k, zero);
    }
  }

  method Perform<V>(t: Table<V>, op: Op<V>, ghost m: map<int, V>, ghost exact: bool, ghost exact': bool)
    returns (out: Option<V>)
    requires t.Valid() && Refines(m, t.M, t.ZeroPayload(), t.zero, exact)
    requires exact' == (exact && (op.Remove? ==> op.key == 0)) && (exact ==> t.NoHoles())
    modifies t, t.hash
    ensures t.Valid() && t.size == t.hash.Length && (t.hash == old(t.hash) || fresh(t.hash)) && (exact' ==> t.NoHoles())
    ensures out.Some? <==> op.Look?
    ensures op.Look? ==> out.value == ValueOr(m, op.key, t.zero) || (op.key == 0 && !exact && out.value == t.zero)
    ensures Refines(Apply(m, op), t.M, t.ZeroPayload(), t.zero, exact')
  {
    hide TableOk, Holds, EmptiesAreZero, Tight;
    ghost var tm, z := t.M, t.ZeroPayload();
    out := None;
    match op {
      case Put(k, v) => Assign(t, k, v);
      case Look(k) =>
        var v := Lookup(t, k);
        out := Some(v);
      case Remove(k) => Discard(t, k);
    }
    RefinesApply(m, tm, z, t.zero, exact, op, t.M, t.ZeroPayload(), exact');
  }

  // What a look-up gets: the value in the map, zero if the key is absent; key 0 may be lost to zero
  // once another key was removed.
  ghost predicate Answered<V>(ops: seq<Op<V>>, i: nat, zero: V, out: Option<V>)
    requires i < |ops|
  {
    && (out.Some? <==> ops[i].Look?)
    && (ops[i].Look? ==>
          || out.value == ValueOr(After(ops[..i]), ops[i].key, zero)
          || (ops[i].key == 0 && !KeepsOthers(ops[..i]) && out.value == zero))
  }

  // Every run from an empty table answers like a map.
  method Run<V>(zero: V, ops: seq<Op<V>>) returns (out: seq<Option<V>>)
    ensures |out| == |ops|
    ensures forall i :: 0 <= i < |ops| ==> Answered(ops, i, zero, out[i])
  {
    hide Refines, TableOk, Holds, EmptiesAreZero, Tight, KeepsOthers, After, Answered;
    var t := new Table<V>(zero);
    out := [];
    RunStart(zero, ops, t.M, t.ZeroPayload());
    for i := 0 to |ops|
      invariant t.Valid() && t.size == t.hash.Length && fresh(t) && fresh(t.hash) && t.zero == zero
      invariant KeepsOthers(ops[..i]) ==> t.NoHoles()
      invariant Refines(After(ops[..i]), t.M, t.ZeroPayload(), zero, KeepsOthers(ops[..i]))
      invariant |out| == i && forall j :: 0 <= j < i ==> Answered(ops, j, zero, out[j])
    {
      RunStep(ops, i);
      var o := Perform(t, ops[i], After(ops[..i]), KeepsOthers(ops[..i]), KeepsOthers(ops[..i + 1]));
      AnsweredNow(ops, i, zero, o);
      out := out + [o];
    }
  }

  lemma AnsweredNow<V>(ops: seq<Op<V>>, i: nat, zero: V, o: Option<V>)
    requires i < |ops| && (o.Some? <==> ops[i].Look?)
    requires ops[i].Look? ==> o.value == ValueOr(After(ops[..i]), ops[i].key, zero)
                              || (ops[i].key == 0 && !KeepsOthers(ops[..i]) && o.value == zero)
    ensures Answered(ops, i, zero, o)
  {
  }

  lemma RunStart<V>(zero: V, ops: seq<Op<V>>, tm: map<int, V>, z: V)
    requires tm == map[] && z == zero
    ensures KeepsOthers(ops[..0]) && Refines(After(ops[..0]), tm, z, zero, KeepsOthers(ops[..0]))
  {
  }

  lemma RunStep<V>(ops: seq<Op<V>>, i: nat)
    requires i < |ops|
    ensures After(ops[..i + 1]) == Apply(After(ops[..i]), ops[i])
    ensures KeepsOthers(ops[..i + 1]) == (KeepsOthers(ops[..i]) && (ops[i].Remove? ==> ops[i].key == 0))
  {
    var p, q := ops[..i], ops[..i + 1];
    assert q[..i] == p && q[i] == ops[i];
    assert forall j :: 0 <= j < i ==> q[j] == p[j];
    if KeepsOthers(q) {
      assert forall j :: 0 <= j < i ==> p[j].Remove? ==> q[j].key == 0;
    }
  }

  // ---- key 0 and removal ----

  lemma BitAndOdd(x: nat, m: nat)
    ensures BitAnd(x, 2 * m + 1) == x % 2 + 2 * BitAnd(x / 2, m)
  {
    if x == 0 {
      assert BitAnd(0, m) == 0;
    } else {
      BitAndUnfolds(x, 2 * m + 1, m);
    }
  }

  lemma BitAndUnfolds(x: nat, y: nat, m: nat)
    requires x > 0 && y / 2 == m && y % 2 == 1
    ensures BitAnd(x, y) == x % 2 + 2 * BitAnd(x / 2, m)
  {
  }

  lemma BitAndSeven(x: nat)
    ensures BitAnd(x, 7) == x % 8
  {
    hide BitAnd;
    BitAndOdd(x, 3);
    BitAndOdd(x / 2, 1);
    BitAndOdd(x / 2 / 2, 0);
    BitAndBelow(x / 2 / 2 / 2, 0);
    ModEight(x, x / 2, x / 2 / 2, x / 2 / 2 / 2);
  }

  lemma ModEight(x: nat, y: nat, z: nat, w: nat)
    requires y == x / 2 && z == y / 2 && w == z / 2
    ensures x % 8 == x % 2 + 2 * (y % 2 + 2 * (z % 2))
  {
    assert x == 8 * w + 4 * (z % 2) + 2 * (y % 2) + x % 2;
  }

  lemma SmallHash(k: int)
    requires 0 < k < 1000
    ensures HashBits(k) % 8 == k % 8
  {
    assert HashBits(k) == k * 2654435761 == 8 * (k * 331804470) + k;
  }

  lemma SmallMainPosition(k: int)
    requires 0 < k < 1000 && k % 8 != 0
    ensures MainPosition(k, 8) == k % 8
  {
    hide HashBits, BitAnd;
    SmallHash(k);
    BitAndSeven(HashBits(k));
  }

  // A table with v under key 0 and the keys 1 to n at home.
  function Filled(v: int, n: nat): (es: seq<Entry<int>>)
    ensures |es| == 8
  {
    seq(8, i => if i == 0 then Entry(0, 0, v) else if i <= n then Entry(0, i, i) else Entry(0, 0, 0))
  }

  // The same after key 9 came to slot 7, behind key 1.
  function WithNine(v: int): (es: seq<Entry<int>>)
    ensures |es| == 8
  {
    Filled(v, 6)[1 := Entry(6, 1, 1)][7 := Entry(0, 9, 9)]
  }

  // And after it left again.
  function HoleAbove(v: int): (es: seq<Entry<int>>)
    ensures |es| == 8
  {
    Empty(WithNine(v), 7, 0)
  }

  // The keys 1 to n, each holding itself.
  function Selves(n: nat): map<int, int> {
    if n == 0 then map[] else Selves(n - 1)[n := n]
  }

  lemma {:induction false} SelvesBelow(n: nat, k: int)
    ensures k in Selves(n) <==> 0 < k <= n
  {
    if n > 0 {
      SelvesBelow(n - 1, k);
    }
  }

  lemma ZeroIsFilled(v: int)
    ensures Cleared(8, 0)[0 := Entry(0, 0, v)] == Filled(v, 0)
  {
  }

  lemma NextAtHome(v: int, n: nat, es: seq<Entry<int>>, lf: nat, slot: nat)
    requires 0 < n < 7 && Entered(Filled(v, n - 1), 8, n, 0, es, lf) && slot < |es| && es[slot].key == n
    ensures |es| == 8 && lf == 8 && es[slot := es[slot].(payload := n)] == Filled(v, n)
  {
    hide MainPosition, FindFree;
    SmallMainPosition(n);
    assert Filled(v, n - 1)[n].key == 0;
  }

  lemma NineCollides(v: int, es: seq<Entry<int>>, lf: nat, slot: nat)
    requires Entered(Filled(v, 6), 8, 9, 0, es, lf) && slot < |es| && es[slot].key == 9
    ensures |es| == 8 && lf == 7 && es[slot := es[slot].(payload := 9)] == WithNine(v)
  {
    hide MainPosition;
    SmallMainPosition(9);
    SmallMainPosition(1);
    assert FindFree(Filled(v, 6), 8) == 7;
    assert Filled(v, 6)[1].key == 1;
    hide FindFree;
    assert es == Chain(Filled(v, 6), 1, 7, 9, 0);
  }

  lemma NineIsAt(v: int, slot: nat)
    requires slot < 8 && WithNine(v)[slot].key == 9
    ensures slot == 7
  {
  }

  lemma HoleAboveIsFull(v: int)
    ensures FindFree(HoleAbove(v), 7) == 0
  {
    var es := HoleAbove(v);
    assert FindFree(es, 1) == 0 && FindFree(es, 2) == FindFree(es, 1) && FindFree(es, 3) == FindFree(es, 2);
    assert FindFree(es, 4) == FindFree(es, 3) && FindFree(es, 5) == FindFree(es, 4);
    assert FindFree(es, 6) == FindFree(es, 5) && FindFree(es, 7) == FindFree(es, 6);
  }

  lemma TenGrows(v: int, es: seq<Entry<int>>, lf: nat)
    requires Entered(HoleAbove(v), 7, 10, 0, es, lf)
    ensures |es| != 8 && HasHole(HoleAbove(v))
  {
    hide MainPosition, FindFree;
    HoleAboveIsFull(v);
    SmallMainPosition(10);
    assert HoleAbove(v)[7].key == 0 && HoleAbove(v)[2].key == 2;
  }

  method PutZero(t: Table<int>, v: int)
    requires t.Valid() && t.size == 0 && t.zero == 0
    modifies t, t.hash
    ensures t.Valid() && fresh(t.hash) && t.hash[..] == Filled(v, 0) && t.lastfree == 8 && t.M == map[]
  {
    hide TableOk, Holds, EmptiesAreZero, Tight, HasHole, Filled, Entered, MustGrow;
    var slot := t.Set(0);
    t.Store(slot, v);
    ZeroIsFilled(v);
  }

  method PutHome(t: Table<int>, n: nat, ghost v: int)
    requires t.Valid() && t.zero == 0 && 0 < n < 7 && t.hash[..] == Filled(v, n - 1) && t.lastfree == 8 && n !in t.M
    modifies t, t.hash
    ensures t.Valid() && (t.hash == old(t.hash) || fresh(t.hash)) && t.hash[..] == Filled(v, n) && t.lastfree == 8
    ensures t.M == old(t.M)[n := n]
  {
    hide TableOk, Holds, EmptiesAreZero, Tight, HasHole, Filled, Entered, MustGrow;
    var slot := t.Set(n);
    NextAtHome(v, n, t.hash[..], t.lastfree, slot);
    t.Store(slot, n);
  }

  method PutAndRemoveNine(t: Table<int>, ghost v: int)
    requires t.Valid() && t.zero == 0 && t.hash[..] == Filled(v, 6) && t.lastfree == 8 && 9 !in t.M
    modifies t, t.hash
    ensures t.Valid() && (t.hash == old(t.hash) || fresh(t.hash)) && t.hash[..] == HoleAbove(v) && t.lastfree == 7
    ensures t.M == old(t.M)
  {
    hide TableOk, Holds, EmptiesAreZero, Tight, HasHole, Filled, Entered, MustGrow;
    var slot := t.Set(9);
    NineCollides(v, t.hash[..], t.lastfree, slot);
    t.Store(slot, 9);
    var found := t.Get(9);
    NineIsAt(v, found.value);
    t.Clear(found.value);
  }

  // That growth keeps what key 0 holds is false after a removal.  On a new table: key 0 gets v, the keys
  // 1 to 6 go home, 9 comes and goes, and 10 makes the table grow, where the empty slot 7 overwrites slot 0.
  method RemovalLosesKeyZero(v: int) returns (before: int, after: int, t: Table<int>)
    ensures before == v && after == 0
    ensures t.Valid() && t.M == Selves(6)[10 := 10] && t.ZeroPayload() == 0
  {
    hide TableOk, Holds, EmptiesAreZero, Tight, HasHole, Filled, Entered, MustGrow;
    t := new Table<int>(0);
    PutZero(t, v);
    for n := 1 to 7
      invariant t.Valid() && fresh(t) && fresh(t.hash) && t.zero == 0
                && t.hash[..] == Filled(v, n - 1) && t.lastfree == 8
      invariant t.M == Selves(n - 1)
    {
      SelvesBelow(n - 1, n);
      PutHome(t, n, v);
    }
    SelvesBelow(6, 9);
    SelvesBelow(6, 10);
    PutAndRemoveNine(t, v);
    before := Lookup(t, 0);
    HoleAboveZero(v);
    var slot := t.Set(10);
    TenGrows(v, t.hash[..], t.lastfree);
    t.Store(slot, 10);
    after := Lookup(t, 0);
  }

  lemma HoleAboveZero(v: int)
    ensures HoleAbove(v)[0].payload == v
  {
  }
}
