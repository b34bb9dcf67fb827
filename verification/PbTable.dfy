// The hash table of lua_pb.h: a chained scatter table whose slots are linked by relative
// offsets, with Brent's displacement of a key that sits outside its main position.
module PbTable {
  import opened Arith
  import opened Reading

  // next is the distance to the next slot of the chain, zero at its end; key 0 marks an empty slot.
  datatype Entry<V> = Entry(next: int, key: int, payload: V)

  // size_t arithmetic.
  function HashBits(key: int): nat {
    key % 0x1_0000_0000_0000_0000 * 2654435761 % 0x1_0000_0000_0000_0000
  }

  // The main position of a key: a multiplicative hash, masked; slot 0 belongs to key 0.
  function MainPosition(key: int, size: nat): (m: nat)
    requires size > 1
    ensures m < size && (key != 0 ==> m > 0)
  {
    BitAndBelow(HashBits(key), size - 1);
    var h := BitAnd(HashBits(key), size - 1);
    if key != 0 && h == 0 then 1 else h
  }

  // ---- chains ----

  ghost predicate Linked<V>(es: seq<Entry<V>>) {
    forall i :: 0 <= i < |es| && es[i].next != 0 ==> 0 < i + es[i].next < |es|
  }

  // b is n links behind a.
  ghost predicate Path<V>(es: seq<Entry<V>>, a: nat, b: nat, n: nat)
    requires Linked(es)
    decreases n
  {
    a < |es| && if n == 0 then a == b else es[a].next != 0 && Path(es, a + es[a].next, b, n - 1)
  }

  ghost predicate Reaches<V>(es: seq<Entry<V>>, a: nat, b: nat)
    requires Linked(es)
  {
    exists n: nat :: Path(es, a, b, n)
  }

  // Every link leads up into the part of the table that was given out by lastfree, down in rank
  // (so that there is no cycle), and no slot has two predecessors.
  ghost predicate ChainsOk<V>(es: seq<Entry<V>>, lastfree: nat, rank: seq<nat>) {
    && Linked(es) && |rank| == |es| > 1 && 0 < lastfree <= |es|
    && es[0].key == 0 && es[0].next == 0
    && (forall i :: 0 <= i < |es| && es[i].next != 0 ==>
          lastfree <= i + es[i].next && rank[i + es[i].next] < rank[i])
    && (forall i, j :: (0 <= i < |es| && 0 <= j < |es| && es[i].next != 0 && es[j].next != 0
          && i + es[i].next == j + es[j].next) ==> i == j)
  }

  // The key in slot i is behind its main position, where no key of another chain sits.
  ghost predicate KeyOk<V>(es: seq<Entry<V>>, i: nat)
    requires Linked(es) && |es| > 1 && i < |es|
  {
    var m := MainPosition(es[i].key, |es|);
    Reaches(es, m, i) && (es[m].key == 0 || MainPosition(es[m].key, |es|) == m)
  }

  ghost predicate KeysOk<V>(es: seq<Entry<V>>)
    requires Linked(es) && |es| > 1
  {
    && (forall i :: 0 <= i < |es| && es[i].key != 0 ==> KeyOk(es, i))
    && (forall i, j :: 0 <= i < |es| && 0 <= j < |es| && es[i].key != 0 && es[i].key == es[j].key ==> i == j)
  }

  ghost predicate TableOk<V>(es: seq<Entry<V>>, lastfree: nat, rank: seq<nat>) {
    ChainsOk(es, lastfree, rank) && KeysOk(es)
  }

  // ---- the three ways in which a key enters a table ----

  // The main position is empty.
  function Place<V>(es: seq<Entry<V>>, mp: nat, key: int, zero: V): seq<Entry<V>>
    requires mp < |es|
  {
    es[mp := Entry(es[mp].next, key, zero)]
  }

  // The main position holds a key of its own chain: the new key goes to f, behind it.
  function Chain<V>(es: seq<Entry<V>>, mp: nat, f: nat, key: int, zero: V): seq<Entry<V>>
    requires mp < |es| && f < |es|
  {
    es[mp := es[mp].(next := f - mp)]
      [f := Entry(if es[mp].next != 0 then mp - f + es[mp].next else 0, key, zero)]
  }

  // The main position holds a key of another chain: that key moves to f, on its predecessor.
  function Displace<V>(es: seq<Entry<V>>, on: nat, mp: nat, f: nat, key: int, zero: V): seq<Entry<V>>
    requires on < |es| && mp < |es| && f < |es|
  {
    es[on := es[on].(next := f - on)]
      [f := es[mp].(next := if es[mp].next != 0 then mp - f + es[mp].next else 0)]
      [mp := Entry(0, key, zero)]
  }

  ghost predicate FreeSlot<V>(es: seq<Entry<V>>, f: nat, lastfree: nat) {
    0 < f < |es| && f < lastfree && es[f].key == 0 && es[f].next == 0
  }

  ghost predicate NewKeyFor<V>(es: seq<Entry<V>>, key: int, mp: nat) {
    && key != 0 && |es| > 1 && mp == MainPosition(key, |es|)
    && forall i :: 0 <= i < |es| ==> es[i].key != key
  }

  lemma {:induction false} PathSameLinks<V>(es: seq<Entry<V>>, es': seq<Entry<V>>, a: nat, b: nat, n: nat)
    requires Linked(es) && Linked(es') && |es| == |es'| && Path(es, a, b, n)
    requires forall i :: 0 <= i < |es| ==> es[i].next == es'[i].next
    ensures Path(es', a, b, n)
    decreases n
  {
    if n > 0 {
      PathSameLinks(es, es', a + es[a].next, b, n - 1);
    }
  }

  lemma PlaceOk<V>(es: seq<Entry<V>>, lastfree: nat, rank: seq<nat>, mp: nat, key: int, zero: V)
    requires TableOk(es, lastfree, rank) && NewKeyFor(es, key, mp) && es[mp].key == 0
    ensures TableOk(Place(es, mp, key, zero), lastfree, rank)
  {
    hide MainPosition;
    var es' := Place(es, mp, key, zero);
    forall i | 0 <= i < |es| && es'[i].key != 0
      ensures KeyOk(es', i)
    {
      if i == mp {
        assert Path(es', mp, mp, 0);
      } else {
        var m := MainPosition(es[i].key, |es|);
        assert KeyOk(es, i);
        var n: nat :| Path(es, m, i, n);
        PathSameLinks(es, es', m, i, n);
      }
    }
  }

  // Nothing leads to a slot below lastfree.
  lemma {:induction false} ChainKeepsPath<V>(es: seq<Entry<V>>, es': seq<Entry<V>>, lastfree: nat, rank: seq<nat>,
                                             mp: nat, f: nat, key: int, zero: V, a: nat, b: nat, n: nat)
    returns (n': nat)
    requires ChainsOk(es, lastfree, rank) && mp < |es| && mp != f && FreeSlot(es, f, lastfree) && a != f
    requires es' == Chain(es, mp, f, key, zero) && Linked(es') && Path(es, a, b, n)
    ensures Path(es', a, b, n')
    decreases n
  {
    if n == 0 {
      n' := 0;
    } else {
      var c := a + es[a].next;
      n' := ChainKeepsPath(es, es', lastfree, rank, mp, f, key, zero, c, b, n - 1);
      if a == mp {
        assert Path(es', f, b, n' + 1);
        n' := n' + 2;
      } else {
        n' := n' + 1;
      }
    }
  }

  // Links lead up, so they stay where they may lead when lastfree goes down.
  lemma LowerLastFree<V>(es: seq<Entry<V>>, lf: nat, rank: seq<nat>, f: nat)
    requires TableOk(es, lf, rank) && 0 < f <= lf
    ensures TableOk(es, f, rank) && |rank| == |es|
  {
  }

  // Ranks with room between any two.
  function Doubled(rank: seq<nat>, f: nat, v: nat): (r: seq<nat>)
    ensures |r| == |rank|
    ensures forall i :: 0 <= i < |rank| ==> r[i] == if i == f then v else 2 * rank[i] + 1
  {
    seq(|rank|, i requires 0 <= i < |rank| => if i == f then v else 2 * rank[i] + 1)
  }

  lemma ChainedLink<V>(es: seq<Entry<V>>, lastfree: nat, rank: seq<nat>, mp: nat, f: nat, key: int, zero: V, i: nat)
    requires ChainsOk(es, lastfree, rank) && 0 < mp < |es| && mp != f && FreeSlot(es, f, lastfree) && i < |es|
    requires Chain(es, mp, f, key, zero)[i].next != 0
    ensures var c, r := i + Chain(es, mp, f, key, zero)[i].next, Doubled(rank, f, 2 * rank[mp]);
            && f <= c < |es| && 0 < c && r[c] < r[i]
            && (if i == mp then c == f else
                  var j := if i == f then mp else i;
                  es[j].next != 0 && c == j + es[j].next && c != f)
  {
  }

  lemma ChainLinksOk<V>(es: seq<Entry<V>>, lastfree: nat, rank: seq<nat>, mp: nat, f: nat, key: int, zero: V)
    requires ChainsOk(es, lastfree, rank) && 0 < mp < |es| && mp != f && FreeSlot(es, f, lastfree)
    ensures ChainsOk(Chain(es, mp, f, key, zero), f, Doubled(rank, f, 2 * rank[mp]))
  {
    var es', r := Chain(es, mp, f, key, zero), Doubled(rank, f, 2 * rank[mp]);
    assert es'[0].key == 0 && es'[0].next == 0;
    hide Chain;
    forall i | 0 <= i < |es| && es'[i].next != 0
      ensures var c := i + es'[i].next;
              && f <= c < |es| && 0 < c && r[c] < r[i]
              && (if i == mp then c == f else
                    var j := if i == f then mp else i;
                    es[j].next != 0 && c == j + es[j].next && c != f)
    {
      ChainedLink(es, lastfree, rank, mp, f, key, zero, i);
    }
  }

  lemma ChainOk<V>(es: seq<Entry<V>>, lastfree: nat, rank: seq<nat>, mp: nat, f: nat, key: int, zero: V)
    requires TableOk(es, lastfree, rank) && NewKeyFor(es, key, mp) && FreeSlot(es, f, lastfree)
    requires es[mp].key != 0 && MainPosition(es[mp].key, |es|) == mp
    ensures TableOk(Chain(es, mp, f, key, zero), f, Doubled(rank, f, 2 * rank[mp]))
  {
    hide MainPosition;
    var es' := Chain(es, mp, f, key, zero);
    ChainLinksOk(es, lastfree, rank, mp, f, key, zero);
    forall i | 0 <= i < |es| && es'[i].key != 0
      ensures KeyOk(es', i)
    {
      if i == f {
        assert Path(es', f, f, 0);
        assert Path(es', mp, f, 1);
      } else {
        assert es'[i].key == es[i].key;
        var m := MainPosition(es[i].key, |es|);
        assert KeyOk(es, i);
        var n: nat :| Path(es, m, i, n);
        var n' := ChainKeepsPath(es, es', lastfree, rank, mp, f, key, zero, m, i, n);
      }
    }
  }

  ghost predicate Displaceable<V>(es: seq<Entry<V>>, lastfree: nat, rank: seq<nat>, on: nat, mp: nat, f: nat) {
    && ChainsOk(es, lastfree, rank) && FreeSlot(es, f, lastfree)
    && on < |es| && 0 < mp < |es| && on != mp && mp != f && on != f
    && es[on].next != 0 && on + es[on].next == mp
  }

  // Paths that do not end or start at the displaced slot go past it through f.
  lemma {:induction false} DisplaceKeepsPath<V>(es: seq<Entry<V>>, es': seq<Entry<V>>, lastfree: nat, rank: seq<nat>,
                                                on: nat, mp: nat, f: nat, key: int, zero: V, a: nat, b: nat, n: nat)
    returns (n': nat)
    requires Displaceable(es, lastfree, rank, on, mp, f) && a != f && a != mp && b != mp
    requires es' == Displace(es, on, mp, f, key, zero) && Linked(es') && Path(es, a, b, n)
    ensures Path(es', a, b, n')
    decreases n
  {
    if n == 0 {
      n' := 0;
    } else {
      var c := a + es[a].next;
      if c == mp {
        assert a == on && n > 1;
        var d := mp + es[mp].next;
        n' := DisplaceKeepsPath(es, es', lastfree, rank, on, mp, f, key, zero, d, b, n - 2);
        assert Path(es', f, b, n' + 1);
        n' := n' + 2;
      } else {
        n' := DisplaceKeepsPath(es, es', lastfree, rank, on, mp, f, key, zero, c, b, n - 1);
        n' := n' + 1;
      }
    }
  }

  // The displaced key is reached at f from where it was reached at mp.
  lemma {:induction false} DisplaceMovesPath<V>(es: seq<Entry<V>>, es': seq<Entry<V>>, lastfree: nat, rank: seq<nat>,
                                                on: nat, mp: nat, f: nat, key: int, zero: V, a: nat, n: nat)
    returns (n': nat)
    requires Displaceable(es, lastfree, rank, on, mp, f) && a != f && a != mp
    requires es' == Displace(es, on, mp, f, key, zero) && Linked(es') && Path(es, a, mp, n)
    ensures Path(es', a, f, n')
    decreases n
  {
    var c := a + es[a].next;
    if c == mp {
      assert a == on && Path(es', f, f, 0);
      n' := 1;
    } else {
      n' := DisplaceMovesPath(es, es', lastfree, rank, on, mp, f, key, zero, c, n - 1);
      n' := n' + 1;
    }
  }

  // Where the link of slot i leads afterwards: all but one lead where a link led before.
  lemma DisplacedLink<V>(es: seq<Entry<V>>, lastfree: nat, rank: seq<nat>,
                         on: nat, mp: nat, f: nat, key: int, zero: V, i: nat)
    requires Displaceable(es, lastfree, rank, on, mp, f) && i < |es|
    requires Displace(es, on, mp, f, key, zero)[i].next != 0
    ensures var c, r := i + Displace(es, on, mp, f, key, zero)[i].next, rank[f := rank[mp]];
            && f <= c < |es| && 0 < c && r[c] < r[i]
            && (if i == on then c == f else
                  var j := if i == f then mp else i;
                  es[j].next != 0 && c == j + es[j].next && c != f && c != mp)
  {
    assert rank[mp] < rank[on];
  }

  lemma DisplaceLinksOk<V>(es: seq<Entry<V>>, lastfree: nat, rank: seq<nat>,
                           on: nat, mp: nat, f: nat, key: int, zero: V)
    requires Displaceable(es, lastfree, rank, on, mp, f)
    ensures ChainsOk(Displace(es, on, mp, f, key, zero), f, rank[f := rank[mp]])
  {
    var es' := Displace(es, on, mp, f, key, zero);
    assert es'[0].key == 0 && es'[0].next == 0 && es'[mp].next == 0 by {
      assert on != 0;
    }
    hide Displace;
    forall i | 0 <= i < |es| && es'[i].next != 0
      ensures var c, r := i + es'[i].next, rank[f := rank[mp]];
              && f <= c < |es| && 0 < c && r[c] < r[i]
              && (if i == on then c == f else
                    var j := if i == f then mp else i;
                    es[j].next != 0 && c == j + es[j].next && c != f && c != mp)
    {
      DisplacedLink(es, lastfree, rank, on, mp, f, key, zero, i);
    }
  }

  lemma DisplaceOk<V>(es: seq<Entry<V>>, lastfree: nat, rank: seq<nat>, on: nat, mp: nat, f: nat, key: int, zero: V)
    requires TableOk(es, lastfree, rank) && NewKeyFor(es, key, mp) && Displaceable(es, lastfree, rank, on, mp, f)
    requires es[mp].key != 0 && MainPosition(es[mp].key, |es|) != mp
    ensures TableOk(Displace(es, on, mp, f, key, zero), f, rank[f := rank[mp]])
  {
    hide MainPosition;
    var es' := Displace(es, on, mp, f, key, zero);
    DisplaceLinksOk(es, lastfree, rank, on, mp, f, key, zero);
    forall i | 0 <= i < |es| && es'[i].key != 0
      ensures KeyOk(es', i)
    {
      DisplacedKeyOk(es, es', lastfree, rank, on, mp, f, key, zero, i);
    }
  }

  lemma DisplacedKeyOk<V>(es: seq<Entry<V>>, es': seq<Entry<V>>, lastfree: nat, rank: seq<nat>,
                          on: nat, mp: nat, f: nat, key: int, zero: V, i: nat)
    requires TableOk(es, lastfree, rank) && NewKeyFor(es, key, mp) && Displaceable(es, lastfree, rank, on, mp, f)
    requires es[mp].key != 0 && MainPosition(es[mp].key, |es|) != mp
    requires es' == Displace(es, on, mp, f, key, zero) && Linked(es') && i < |es| && es'[i].key != 0
    ensures KeyOk(es', i)
  {
    hide MainPosition;
    if i == mp {
      assert Path(es', mp, mp, 0);
    } else {
      var j := if i == f then mp else i;
      assert es'[i].key == es[j].key;
      var m := MainPosition(es[j].key, |es|);
      assert KeyOk(es, j);
      var n: nat :| Path(es, m, j, n);
      if i == f {
        var n' := DisplaceMovesPath(es, es', lastfree, rank, on, mp, f, key, zero, m, n);
      } else {
        var n' := DisplaceKeepsPath(es, es', lastfree, rank, on, mp, f, key, zero, m, i, n);
      }
    }
  }

  // ---- emptying a slot keeps its link ----

  function Empty<V>(es: seq<Entry<V>>, i: nat, zero: V): seq<Entry<V>>
    requires i < |es|
  {
    es[i := Entry(es[i].next, 0, zero)]
  }

  lemma EmptyOk<V>(es: seq<Entry<V>>, lastfree: nat, rank: seq<nat>, i: nat, zero: V)
    requires TableOk(es, lastfree, rank) && i < |es|
    ensures TableOk(Empty(es, i, zero), lastfree, rank)
  {
    hide MainPosition;
    var es' := Empty(es, i, zero);
    forall j | 0 <= j < |es| && es'[j].key != 0
      ensures KeyOk(es', j)
    {
      var m := MainPosition(es[j].key, |es|);
      assert KeyOk(es, j);
      var n: nat :| Path(es, m, j, n);
      PathSameLinks(es, es', m, j, n);
    }
  }

  // ---- what the table holds ----

  ghost predicate Holds<V>(es: seq<Entry<V>>, m: map<int, V>) {
    && 0 !in m
    && (forall i :: 0 <= i < |es| && es[i].key != 0 ==> es[i].key in m && m[es[i].key] == es[i].payload)
    && (forall k :: k in m ==> exists i :: 0 <= i < |es| && es[i].key == k)
  }

  // The state in which no slot was ever emptied: links join live slots only, and all slots given
  // out by lastfree are live.
  ghost predicate Tight<V>(es: seq<Entry<V>>, lastfree: nat) {
    forall i :: 0 < i < |es| ==> (es[i].key == 0 ==> es[i].next == 0 && i < lastfree)
  }

  ghost predicate EmptiesAreZero<V>(es: seq<Entry<V>>, zero: V) {
    forall i :: 0 < i < |es| && es[i].key == 0 ==> es[i].payload == zero
  }

  ghost predicate HasHole<V>(es: seq<Entry<V>>) {
    exists i :: 0 < i < |es| && es[i].key == 0
  }

  lemma HoldsAt<V>(es: seq<Entry<V>>, m: map<int, V>, es': seq<Entry<V>>, m': map<int, V>, at: nat -> nat)
    requires Holds(es, m) && 0 !in m' && |es'| == |es|
    requires forall i :: 0 <= i < |es| && es'[i].key != 0 ==> es'[i].key in m' && m'[es'[i].key] == es'[i].payload
    requires forall i :: 0 <= i < |es| && es[i].key in m' ==> at(i) < |es| && es'[at(i)].key == es[i].key
    requires forall k :: k in m' && k !in m ==> exists i :: 0 <= i < |es'| && es'[i].key == k
    ensures Holds(es', m')
  {
    forall k | k in m' ensures exists i :: 0 <= i < |es'| && es'[i].key == k {
      if k in m {
        var i :| 0 <= i < |es| && es[i].key == k;
        assert es'[at(i)].key == k;
      }
    }
  }

  // A new key, in each of the three ways in which it comes in.
  lemma PlaceHolds<V>(es: seq<Entry<V>>, m: map<int, V>, key: int, zero: V, mp: nat)
    requires Holds(es, m) && key != 0 && key !in m && mp < |es| && es[mp].key == 0
    ensures Holds(Place(es, mp, key, zero), m[key := zero])
  {
    assert Place(es, mp, key, zero)[mp].key == key;
    HoldsAt(es, m, Place(es, mp, key, zero), m[key := zero], i => i);
  }

  lemma ChainHolds<V>(es: seq<Entry<V>>, m: map<int, V>, key: int, zero: V, mp: nat, f: nat)
    requires Holds(es, m) && key != 0 && key !in m && mp < |es| && f < |es| && mp != f && es[f].key == 0
    ensures Holds(Chain(es, mp, f, key, zero), m[key := zero])
  {
    assert Chain(es, mp, f, key, zero)[f].key == key;
    HoldsAt(es, m, Chain(es, mp, f, key, zero), m[key := zero], i => i);
  }

  lemma DisplaceHolds<V>(es: seq<Entry<V>>, m: map<int, V>, key: int, zero: V, on: nat, mp: nat, f: nat)
    requires Holds(es, m) && key != 0 && key !in m && on < |es| && mp < |es| && f < |es|
    requires mp != f && es[f].key == 0 && on != mp && on != f && es[mp].key != 0
    ensures Holds(Displace(es, on, mp, f, key, zero), m[key := zero])
  {
    assert Displace(es, on, mp, f, key, zero)[mp].key == key;
    HoldsAt(es, m, Displace(es, on, mp, f, key, zero), m[key := zero], i => if i == mp then f else i);
  }

  lemma EmptyHolds<V>(es: seq<Entry<V>>, m: map<int, V>, i: nat, zero: V)
    requires Holds(es, m) && i < |es|
    requires forall j, k :: 0 <= j < |es| && 0 <= k < |es| && es[j].key != 0 && es[j].key == es[k].key ==> j == k
    ensures Holds(Empty(es, i, zero), m - {es[i].key})
  {
    HoldsAt(es, m, Empty(es, i, zero), m - {es[i].key}, j => j);
  }

  lemma StoreHolds<V>(es: seq<Entry<V>>, m: map<int, V>, i: nat, v: V)
    requires Holds(es, m) && i < |es|
    requires forall j, k :: 0 <= j < |es| && 0 <= k < |es| && es[j].key != 0 && es[j].key == es[k].key ==> j == k
    ensures Holds(es[i := es[i].(payload := v)], if es[i].key == 0 then m else m[es[i].key := v])
  {
    HoldsAt(es, m, es[i := es[i].(payload := v)], if es[i].key == 0 then m else m[es[i].key := v], j => j);
  }

  // Everything at once, for the two ways of resolving a collision.
  ghost predicate Collision<V>(es: seq<Entry<V>>, lf: nat, mp: nat, f: nat, key: int) {
    && FreeSlot(es, f, lf) && NoFreeSlot(es, f, lf) && NewKeyFor(es, key, mp) && es[mp].key != 0
  }

  ghost predicate NoFreeSlot<V>(es: seq<Entry<V>>, f: nat, lf: nat) {
    forall i :: f < i < lf && i < |es| ==> es[i].key != 0 || es[i].next != 0
  }

  // The free slot that the downward search finds, or 0.
  function FindFree<V>(es: seq<Entry<V>>, lf: nat): (f: nat)
    ensures f == 0 || FreeSlot(es, f, lf)
    ensures NoFreeSlot(es, f, lf)
  {
    if lf <= 1 then 0
    else if lf <= |es| && es[lf - 1].key == 0 && es[lf - 1].next == 0 then lf - 1
    else FindFree(es, lf - 1)
  }

  // A new key leads to growth.
  predicate MustGrow<V>(es: seq<Entry<V>>, lf: nat, key: int)
    requires |es| > 1
  {
    es[MainPosition(key, |es|)].key != 0 && FindFree(es, lf) == 0
  }

  // How the slots and lastfree change when a new key finds a place.
  ghost predicate InsertedAs<V>(es: seq<Entry<V>>, lf: nat, key: int, zero: V, es': seq<Entry<V>>, lf': nat)
    requires |es| > 1
  {
    var mp, f := MainPosition(key, |es|), FindFree(es, lf);
    if es[mp].key == 0 then es' == Place(es, mp, key, zero) && lf' == lf
    else
      && f < |es| && lf' == f
      && (if MainPosition(es[mp].key, |es|) == mp then es' == Chain(es, mp, f, key, zero)
          else exists on :: 0 <= on < |es| && es' == Displace(es, on, mp, f, key, zero))
  }

  // The same for any key, where there may be growth instead.
  ghost predicate Entered<V>(es: seq<Entry<V>>, lf: nat, key: int, zero: V, es': seq<Entry<V>>, lf': nat)
    requires |es| > 1
  {
    && (|es'| != |es| <==> key != 0 && MustGrow(es, lf, key))
    && (key == 0 ==> es' == es[0 := es[0].(payload := zero)] && lf' == lf)
    && (key != 0 && |es'| == |es| ==> InsertedAs(es, lf, key, zero, es', lf'))
  }

  function Cleared<V>(n: nat, zero: V): seq<Entry<V>> {
    seq(n, _ => Entry(0, 0, zero))
  }

  // A table that grows is full, unless slots were emptied.
  lemma NoFreeSlotIsFull<V>(es: seq<Entry<V>>, lf: nat, rank: seq<nat>, m: map<int, V>)
    requires TableOk(es, lf, rank) && Holds(es, m) && NoFreeSlot(es, 0, lf)
    ensures Tight(es, lf) ==> !HasHole(es) && |m| + 1 >= |es|
  {
    if Tight(es, lf) {
      FullTable(es, m);
    }
  }

  lemma KeyIsNew<V>(es: seq<Entry<V>>, m: map<int, V>, key: int)
    requires Holds(es, m) && key != 0 && key !in m && |es| > 1
    ensures NewKeyFor(es, key, MainPosition(key, |es|))
  {
  }

  // es' is a table with one more key, in slot s.
  ghost predicate Extended<V>(es: seq<Entry<V>>, lf: nat, m: map<int, V>, es': seq<Entry<V>>, f: nat, rank': seq<nat>,
                              s: nat, key: int, zero: V)
  {
    && |es'| == |es| && TableOk(es', f, rank') && Holds(es', m[key := zero])
    && (EmptiesAreZero(es, zero) ==> EmptiesAreZero(es', zero))
    && (Tight(es, lf) ==> Tight(es', f))
    && s < |es'| && es'[s].key == key && es'[s].payload == zero && es'[0] == es[0]
  }

  lemma ChainExtends<V>(es: seq<Entry<V>>, lf: nat, rank: seq<nat>, m: map<int, V>, mp: nat, f: nat, key: int, zero: V)
    requires TableOk(es, lf, rank) && Holds(es, m) && Collision(es, lf, mp, f, key)
    requires MainPosition(es[mp].key, |es|) == mp
    ensures Extended(es, lf, m, Chain(es, mp, f, key, zero), f, Doubled(rank, f, 2 * rank[mp]), f, key, zero)
  {
    hide MainPosition, Path;
    ChainOk(es, lf, rank, mp, f, key, zero);
    ChainHolds(es, m, key, zero, mp, f);
  }

  lemma DisplaceExtends<V>(es: seq<Entry<V>>, lf: nat, rank: seq<nat>, m: map<int, V>,
                           on: nat, mp: nat, f: nat, key: int, zero: V)
    requires TableOk(es, lf, rank) && Holds(es, m) && Collision(es, lf, mp, f, key)
    requires MainPosition(es[mp].key, |es|) != mp
    requires on < |es| && on != mp && es[on].next != 0 && on + es[on].next == mp
    ensures Extended(es, lf, m, Displace(es, on, mp, f, key, zero), f, rank[f := rank[mp]], mp, key, zero)
  {
    hide MainPosition, Path;
    DisplaceOk(es, lf, rank, on, mp, f, key, zero);
    DisplaceHolds(es, m, key, zero, on, mp, f);
  }

  // ---- counting ----

  lemma {:induction false} KeysOfFullPart<V>(es: seq<Entry<V>>, m: map<int, V>, n: nat) returns (s: set<int>)
    requires 0 < n <= |es| && Holds(es, m)
    requires forall i :: 0 < i < n ==> es[i].key != 0
    requires forall j, k :: 0 <= j < |es| && 0 <= k < |es| && es[j].key != 0 && es[j].key == es[k].key ==> j == k
    ensures |s| == n - 1 && s <= m.Keys
    ensures forall k :: k in s ==> exists i :: 0 < i < n && es[i].key == k
  {
    s := {};
    if n > 1 {
      s := KeysOfFullPart(es, m, n - 1);
      s := s + {es[n - 1].key};
    }
  }

  // When slot 0 alone is empty there are as many keys as other slots.
  lemma FullTable<V>(es: seq<Entry<V>>, m: map<int, V>)
    requires Holds(es, m) && |es| > 1 && forall i :: 0 < i < |es| ==> es[i].key != 0
    requires forall j, k :: 0 <= j < |es| && 0 <= k < |es| && es[j].key != 0 && es[j].key == es[k].key ==> j == k
    ensures |m| >= |es| - 1
  {
    var s := KeysOfFullPart(es, m, |es|);
    SubsetSize(s, m.Keys);
  }

  // The key is in some slot that the links lead to.
  ghost predicate Ahead<V>(es: seq<Entry<V>>, a: nat, key: int)
    requires Linked(es)
  {
    exists s: nat :: s < |es| && es[s].key == key && Reaches(es, a, s)
  }

  lemma KeyIsAhead<V>(es: seq<Entry<V>>, m: map<int, V>, key: int)
    requires Linked(es) && |es| > 1 && KeysOk(es) && Holds(es, m) && key != 0
    ensures key in m ==> Ahead(es, MainPosition(key, |es|), key)
  {
    hide MainPosition;
    if key in m {
      var s :| 0 <= s < |es| && es[s].key == key;
      assert KeyOk(es, s);
    }
  }

  lemma NextIsAhead<V>(es: seq<Entry<V>>, a: nat, key: int)
    requires Linked(es) && a < |es| && es[a].key != key
    ensures Ahead(es, a, key) ==> es[a].next != 0 && Ahead(es, a + es[a].next, key)
  {
    if Ahead(es, a, key) {
      var s: nat :| s < |es| && es[s].key == key && Reaches(es, a, s);
      var n: nat :| Path(es, a, s, n);
      assert Path(es, a + es[a].next, s, n - 1);
    }
  }

  // A new entry at f goes between the one at mp and the next.
  method LinkBehind<V>(hash: array<Entry<V>>, mp: nat, f: nat, key: int, zero: V)
    requires mp < hash.Length && f < hash.Length && mp != f && hash[f].next == 0
    modifies hash
    ensures hash[..] == Chain(old(hash[..]), mp, f, key, zero)
  {
    if hash[mp].next != 0 {
      hash[f] := hash[f].(next := mp - f + hash[mp].next);
    }
    hash[mp] := hash[mp].(next := f - mp);
    hash[f] := Entry(hash[f].next, key, zero);
  }

  // The entry at mp moves to f, with its link made relative to f, and a new one takes its place.
  method MoveEntry<V>(hash: array<Entry<V>>, on: nat, mp: nat, f: nat, key: int, zero: V)
    requires on < hash.Length && mp < hash.Length && f < hash.Length && on != mp && mp != f && on != f
    modifies hash
    ensures hash[..] == Displace(old(hash[..]), on, mp, f, key, zero)
  {
    hash[on] := hash[on].(next := f - on);
    hash[f] := hash[mp];
    if hash[mp].next != 0 {
      hash[f] := hash[f].(next := hash[f].next + (mp - f));
      hash[mp] := hash[mp].(next := 0);
    }
    hash[mp] := Entry(hash[mp].next, key, zero);
  }

  // ---- the table ----

  class Table<V> {
    const zero: V
    var size: nat
    var lastfree: nat
    var hasZero: bool
    var hash: array<Entry<V>>
    ghost var rank: seq<nat>
    // The keys other than 0 and their payloads.
    ghost var M: map<int, V>

    ghost predicate Valid()
      reads this, hash
    {
      && size == hash.Length
      && (size == 0 ==> M == map[] && !hasZero)
      && (size > 0 ==> ValidFrom(lastfree))
    }

    // Links lead to slots from lf on.
    ghost predicate ValidFrom(lf: nat)
      reads this, hash
    {
      && size == hash.Length >= 8 && TableOk(hash[..], lf, rank) && Holds(hash[..], M)
      && EmptiesAreZero(hash[..], zero) && (!hasZero ==> hash[0].payload == zero)
    }

    // What key 0 holds; an absent key 0 and one that holds zeros are alike.
    ghost function ZeroPayload(): V
      reads this, hash
      requires size == hash.Length
    {
      if size == 0 then zero else hash[0].payload
    }

    ghost predicate Present(key: int)
      reads this
    {
      if key == 0 then hasZero else key in M
    }

    // No slot was emptied since the last growth, or every chain was rebuilt since.
    ghost predicate NoHoles()
      reads this, hash
    {
      Tight(hash[..], lastfree)
    }

    // A collision is certain to find a free slot.
    ghost predicate Roomy()
      reads this, hash
    {
      size > 0 && NoHoles() && |M| + 1 < size
    }

    constructor (zero: V)
      ensures Valid() && fresh(hash) && size == 0 && M == map[] && NoHoles() && this.zero == zero
    {
      this.zero := zero;
      size, lastfree, hasZero, rank, M := 0, 0, false, [], map[];
      hash := new Entry<V>[0];
    }

    // The search for a free slot; lastfree never moves up again.
    method ScanFree() returns (f: nat)
      requires Valid() && size > 0
      modifies this`lastfree
      ensures ValidFrom(old(lastfree)) && (f == 0 ==> Valid())
      ensures f == FindFree(hash[..], old(lastfree)) && (f > 0 ==> lastfree == f)
    {
      f := 0;
      while lastfree > 1
        invariant 1 <= lastfree <= old(lastfree) && f == 0
        invariant FindFree(hash[..], lastfree) == FindFree(hash[..], old(lastfree))
        decreases lastfree
      {
        lastfree := lastfree - 1;
        if hash[lastfree].key == 0 && hash[lastfree].next == 0 {
          f := lastfree;
          break;
        }
      }
    }

    // The slot that links to the one at mp, from the main position of the key in it.
    method Predecessor(mp: nat) returns (on: nat)
      requires Valid() && 0 < mp < size && hash[mp].key != 0 && MainPosition(hash[mp].key, size) != mp
      ensures on < size && on != mp && hash[on].next != 0 && on + hash[on].next == mp
    {
      on := MainPosition(hash[mp].key, size);
      assert KeyOk(hash[..], mp);
      ghost var n: nat :| Path(hash[..], on, mp, n);
      while on + hash[on].next != mp
        invariant on < size && on != mp && Path(hash[..], on, mp, n)
        decreases rank[on]
      {
        on := on + hash[on].next;
        n := n - 1;
      }
    }

    method Get(key: int) returns (slot: Option<nat>)
      requires Valid()
      ensures key != 0 ==> (slot.Some? <==> key in M)
      ensures slot.Some? ==> slot.value < size && hash[slot.value].key == key
      ensures key != 0 && slot.Some? ==> hash[slot.value].payload == M[key]
      ensures key == 0 ==> (slot.Some? <==> hasZero)
      ensures key == 0 && slot.Some? ==> slot.value == 0
      ensures key == 0 && slot.None? ==> ZeroPayload() == zero
    {
      if size == 0 {
        return None;
      }
      if key == 0 {
        return if hasZero then Some(0) else None;
      }
      KeyIsAhead(hash[..], M, key);
      slot := Walk(MainPosition(key, size), key);
    }

    // Along the links from entry until the key turns up.
    method Walk(entry0: nat, key: int) returns (slot: Option<nat>)
      requires Valid() && entry0 < size && key != 0 && (key in M ==> Ahead(hash[..], entry0, key))
      ensures slot.Some? <==> key in M
      ensures slot.Some? ==> slot.value < size && hash[slot.value].key == key && hash[slot.value].payload == M[key]
    {
      hide KeysOk, Ahead;
      var entry: nat := entry0;
      ghost var es := hash[..];
      while hash[entry].key != key
        invariant entry < size && (key in M ==> Ahead(es, entry, key))
        decreases rank[entry]
      {
        assert es[entry] == hash[entry];
        NextIsAhead(es, entry, key);
        LinkGoesDown(es, lastfree, rank, entry);
        if hash[entry].next == 0 {
          return None;
        }
        entry := entry + hash[entry].next;
      }
      assert es[entry] == hash[entry];
      return Some(entry);
    }

    // A free main position.
    method PlaceKey(mp: nat, key: int)
      requires Valid() && size > 0 && NewKeyFor(hash[..], key, mp) && hash[mp].key == 0
      modifies this`M, hash
      ensures Valid() && M == old(M)[key := zero]
      ensures hash[..] == Place(old(hash[..]), mp, key, zero)
      ensures old(NoHoles()) ==> NoHoles()
    {
      hide MainPosition;
      ghost var es := hash[..];
      PlaceOk(es, lastfree, rank, mp, key, zero);
      PlaceHolds(es, M, key, zero, mp);
      M := M[key := zero];
      hash[mp] := Entry(hash[mp].next, key, zero);
      assert hash[..] == Place(es, mp, key, zero);
    }

    // A taken main position: the new key, or the one in its way, goes to the free slot f.
    method Collide(mp: nat, f: nat, key: int, ghost lf: nat) returns (slot: nat)
      requires lastfree == f && ValidFrom(lf) && Collision(hash[..], lf, mp, f, key)
      modifies this`M, this`rank, hash
      ensures Valid() && M == old(M)[key := zero]
      ensures slot < size && hash[slot].key == key && hash[slot].payload == zero && hash[0] == old(hash[0])
      ensures old(Tight(hash[..], lf)) ==> NoHoles()
      ensures f == FindFree(old(hash[..]), lf) ==> InsertedAs(old(hash[..]), lf, key, zero, hash[..], lastfree)
    {
      var on := MainPosition(hash[mp].key, size);
      if on != mp {
        slot := DisplaceKey(mp, f, key, lf);
      } else {
        slot := ChainKey(mp, f, key, lf);
      }
    }

    method ChainKey(mp: nat, f: nat, key: int, ghost lf: nat) returns (slot: nat)
      requires lastfree == f && ValidFrom(lf) && Collision(hash[..], lf, mp, f, key)
      requires MainPosition(hash[mp].key, size) == mp
      modifies this`M, this`rank, hash
      ensures Valid() && M == old(M)[key := zero]
      ensures slot < size && hash[slot].key == key && hash[slot].payload == zero && hash[0] == old(hash[0])
      ensures old(Tight(hash[..], lf)) ==> NoHoles()
      ensures hash[..] == Chain(old(hash[..]), mp, f, key, zero)
    {
      ghost var es := hash[..];
      ChainExtends(es, lf, rank, M, mp, f, key, zero);
      hide MainPosition, TableOk, Holds, Tight, EmptiesAreZero;
      M := M[key := zero];
      rank := Doubled(rank, f, 2 * rank[mp]);
      LinkBehind(hash, mp, f, key, zero);
      slot := f;
    }

    method DisplaceKey(mp: nat, f: nat, key: int, ghost lf: nat) returns (slot: nat)
      requires lastfree == f && ValidFrom(lf) && Collision(hash[..], lf, mp, f, key)
      requires MainPosition(hash[mp].key, size) != mp
      modifies this`M, this`rank, hash
      ensures Valid() && M == old(M)[key := zero]
      ensures slot < size && hash[slot].key == key && hash[slot].payload == zero && hash[0] == old(hash[0])
      ensures old(Tight(hash[..], lf)) ==> NoHoles()
      ensures exists on :: 0 <= on < size && hash[..] == Displace(old(hash[..]), on, mp, f, key, zero)
    {
      hide MainPosition, TableOk, Holds, Tight, EmptiesAreZero;
      ghost var es := hash[..];
      LowerLastFree(es, lf, rank, f);
      var on := Predecessor(mp);
      DisplaceExtends(es, lf, rank, M, on, mp, f, key, zero);
      M := M[key := zero];
      rank := rank[f := rank[mp]];
      MoveEntry(hash, on, mp, f, key, zero);
      slot := mp;
    }

    // Writing the payload through an entry that was handed out.
    method Store(i: nat, v: V)
      requires Valid() && i < size && (hash[i].key != 0 || (i == 0 && hasZero))
      modifies this`M, hash
      ensures Valid() && hash[..] == old(hash[..][i := hash[i].(payload := v)])
      ensures M == if hash[i].key == 0 then old(M) else old(M)[hash[i].key := v]
      ensures ZeroPayload() == if hash[i].key == 0 then v else old(ZeroPayload())
      ensures old(NoHoles()) ==> NoHoles()
    {
      ghost var es := hash[..];
      StoreHolds(es, M, i, v);
      StoreOk(es, lastfree, rank, i, v);
      M := if hash[i].key == 0 then M else M[hash[i].key := v];
      hash[i] := hash[i].(payload := v);
      assert hash[..] == es[i := es[i].(payload := v)];
    }

    // What pb_delfield does to an entry: no key, no payload, but the link stays.
    method Clear(i: nat)
      requires Valid() && i < size && (hash[i].key != 0 || i == 0)
      modifies this`M, hash
      ensures Valid() && M == old(M) - {old(hash[i].key)}
      ensures hash[..] == Empty(old(hash[..]), i, zero)
      ensures ZeroPayload() == if i == 0 then zero else old(ZeroPayload())
      ensures i == 0 && old(NoHoles()) ==> NoHoles()
    {
      ghost var es := hash[..];
      EmptyOk(es, lastfree, rank, i, zero);
      EmptyHolds(es, M, i, zero);
      M := M - {hash[i].key};
      hash[i] := Entry(hash[i].next, 0, zero);
      assert hash[..] == Empty(es, i, zero);
    }

    // The slot for a key that is not there yet, with a zero payload.
    method NewKey(key: int) returns (slot: nat)
      requires Valid() && key !in M
      modifies this, hash
      ensures Valid() && (hash == old(hash) || fresh(hash)) && size >= old(size)
      ensures M == if key == 0 then old(M) else old(M)[key := zero]
      ensures slot < size && hash[slot].key == key && hash[slot].payload == zero && (key == 0 ==> slot == 0 && hasZero)
      ensures size != old(size) && old(NoHoles()) ==> !old(HasHole(hash[..]))
      ensures old(Roomy()) ==> size == old(size)
      ensures old(NoHoles()) ==> NoHoles()
      ensures ZeroPayload() ==
              if key == 0 || (size != old(size) && old(HasHole(hash[..]))) then zero else old(ZeroPayload())
      ensures old(size) > 0 ==> Entered(old(hash[..]), old(lastfree), key, zero, hash[..], lastfree)
      ensures old(size) == 0 && key == 0 ==> hash[..] == Cleared(8, zero) && lastfree == 8
      decreases if Roomy() then 0 else 2, 1
    {
      hide MainPosition, TableOk, Holds, EmptiesAreZero;
      if size == 0 {
        Resize(size * 2);
      }
      if key == 0 {
        slot := TakeZero();
      } else {
        slot := Insert(key);
      }
    }

    // The entry of a key, new if need be.
    method Set(key: int) returns (slot: nat)
      requires Valid()
      modifies this, hash
      ensures Valid() && (hash == old(hash) || fresh(hash))
      ensures M == if key == 0 || key in old(M) then old(M) else old(M)[key := zero]
      ensures slot < size && hash[slot].key == key && (key == 0 ==> slot == 0 && hasZero)
      ensures key != 0 ==> hash[slot].payload == M[key]
      ensures old(NoHoles()) ==> NoHoles()
      ensures size != old(size) && old(NoHoles()) ==> !old(HasHole(hash[..]))
      ensures ZeroPayload() == if size != old(size) && old(HasHole(hash[..])) then zero else old(ZeroPayload())
      ensures old(Present(key)) ==> hash[..] == old(hash[..]) && lastfree == old(lastfree)
      ensures !old(Present(key)) && old(size) > 0 ==>
                Entered(old(hash[..]), old(lastfree), key, zero, hash[..], lastfree)
      ensures old(size) == 0 && key == 0 ==> hash[..] == Cleared(8, zero) && lastfree == 8
    {
      var found := Get(key);
      if found.Some? {
        slot := found.value;
      } else {
        slot := NewKey(key);
      }
    }

    method TakeZero() returns (slot: nat)
      requires Valid() && size > 0
      modifies this`hasZero, hash
      ensures Valid() && slot == 0 && hasZero && hash[0].key == 0
      ensures hash[..] == old(hash[..][0 := hash[0].(payload := zero)])
      ensures old(NoHoles()) ==> NoHoles()
    {
      slot := 0;
      hasZero := true;
      ghost var es := hash[..];
      StoreHolds(es, M, 0, zero);
      StoreOk(es, lastfree, rank, 0, zero);
      hash[0] := hash[0].(payload := zero);
      assert hash[..] == es[0 := es[0].(payload := zero)];
    }

    // Without a free slot for a key that collides the table grows; after that there is room, so
    // this happens once.
    method Insert(key: int) returns (slot: nat)
      requires Valid() && size > 0 && key != 0 && key !in M
      modifies this, hash
      ensures Valid() && (hash == old(hash) || fresh(hash)) && size >= old(size) && M == old(M)[key := zero]
      ensures slot < size && hash[slot].key == key && hash[slot].payload == zero
      ensures size != old(size) <==> old(MustGrow(hash[..], lastfree, key))
      ensures size == old(size) ==> InsertedAs(old(hash[..]), old(lastfree), key, zero, hash[..], lastfree)
      ensures size != old(size) && old(NoHoles()) ==> !old(HasHole(hash[..]))
      ensures old(Roomy()) ==> size == old(size)
      ensures old(NoHoles()) ==> NoHoles()
      ensures ZeroPayload() == if size != old(size) && old(HasHole(hash[..])) then zero else old(ZeroPayload())
      decreases if Roomy() then 0 else 2, 0
    {
      var mp := MainPosition(key, size);
      KeyIsNew(hash[..], M, key);
      hide MainPosition, TableOk, Holds, EmptiesAreZero, Tight, HasHole, FindFree;
      if hash[mp].key != 0 {
        ghost var lf := lastfree;
        var f := ScanFree();
        if f == 0 {
          NoFreeSlotIsFull(hash[..], lf, rank, M);
          Resize(size * 2);
          slot := Insert(key);
        } else {
          slot := Collide(mp, f, key, lf);
        }
      } else {
        PlaceKey(mp, key);
        slot := mp;
      }
    }

    // One slot of the old table in the new one, empty slots under key 0.
    method Reinsert(olde: Entry<V>)
      requires Valid() && olde.key !in M && NoHoles() && |M| + 1 < size
      modifies this, hash
      ensures Valid() && (hash == old(hash) || fresh(hash)) && hash.Length == size == old(size) && NoHoles()
      ensures M == if olde.key == 0 then old(M) else old(M)[olde.key := olde.payload]
      ensures ZeroPayload() == if olde.key == 0 then olde.payload else old(ZeroPayload())
      decreases 0, 2
    {
      hide MainPosition, TableOk, Holds, EmptiesAreZero, Tight, HasHole;
      var newe := NewKey(olde.key);
      Store(newe, olde.payload);
    }

    // Every slot of the old table goes into a new one of at least the size asked for.
    method Resize(request: nat)
      requires Valid() && request >= 2 * size
      modifies this
      ensures Valid() && fresh(hash) && M == old(M) && Roomy()
      ensures size >= 8 && size >= request
      ensures old(size) == 0 && request <= 8 ==> hash[..] == Cleared(8, zero) && lastfree == 8
      ensures ZeroPayload() == if old(HasHole(hash[..])) then zero else old(ZeroPayload())
      decreases 1
    {
      hide MainPosition, TableOk, Holds, EmptiesAreZero, Tight, HasHole;
      var newsize := 8;
      while newsize < request
        invariant newsize >= 8 && (request <= 8 ==> newsize == 8)
      {
        newsize := newsize * 2;
      }
      var nt := Rehashed(newsize);
      size, lastfree, hasZero, hash, rank, M := nt.size, nt.lastfree, nt.hasZero, nt.hash, nt.rank, nt.M;
    }

    method Rehashed(newsize: nat) returns (nt: Table<V>)
      requires Valid() && newsize >= 8 && newsize >= 2 * size
      ensures fresh(nt) && fresh(nt.hash) && nt.Valid() && nt.Roomy()
              && nt.M == M && nt.size == newsize && nt.zero == zero
      ensures nt.ZeroPayload() == if HasHole(hash[..]) then zero else ZeroPayload()
      ensures size == 0 ==> nt.hash[..] == Cleared(newsize, zero) && nt.lastfree == newsize
      decreases 0, 4
    {
      hide MainPosition, TableOk, Holds, EmptiesAreZero, Tight, HasHole;
      nt := new Table<V>(zero);
      nt.Reset(newsize);
      nt.ReinsertAll(hash[..], lastfree, rank, M);
    }

    // The rehashing loop, over the slots of the old table.
    method ReinsertAll(olds: seq<Entry<V>>, ghost lf: nat, ghost rk: seq<nat>, ghost all: map<int, V>)
      requires Valid() && NoHoles() && M == map[] && size == hash.Length && ZeroPayload() == zero
               && size >= 8 && size >= 2 * |olds|
      requires olds == [] ==> all == map[]
      requires olds != [] ==> TableOk(olds, lf, rk) && Holds(olds, all) && EmptiesAreZero(olds, zero)
      modifies this, hash
      ensures Valid() && NoHoles() && (olds == [] || |M| < |olds|) && M == all
              && size == old(size) && (hash == old(hash) || fresh(hash))
      ensures ZeroPayload() == if olds == [] || HasHole(olds) then zero else olds[0].payload
      ensures olds == [] ==> hash[..] == old(hash[..]) && lastfree == old(lastfree)
      decreases 0, 3
    {
      hide *;
      PrefixStart(olds, zero, M);
      for i := 0 to |olds|
        invariant Valid() && NoHoles() && hash.Length == size == old(size) && (hash == old(hash) || fresh(hash))
        invariant PrefixHolds(olds, zero, i, M, ZeroPayload())
        invariant olds == [] ==> hash[..] == old(hash[..]) && lastfree == old(lastfree)
      {
        PrefixStep(olds, zero, lf, rk, all, i, M, ZeroPayload());
        Reinsert(olds[i]);
      }
      PrefixEnd(olds, zero, all, M, ZeroPayload());
    }

    // A freshly cleared array of slots.
    method Reset(n: nat)
      requires n >= 8
      modifies this
      ensures Valid() && fresh(hash) && size == n && M == map[] && NoHoles() && ZeroPayload() == zero
      ensures hash[..] == Cleared(n, zero) && lastfree == n
    {
      hash := new Entry<V>[n](_ => Entry(0, 0, zero));
      size, lastfree, hasZero, rank, M := n, n, false, seq(n, _ => 0), map[];
      ClearedOk(hash[..], rank, zero);
    }
  }

  lemma ClearedOk<V>(es: seq<Entry<V>>, rank: seq<nat>, zero: V)
    requires |es| == |rank| > 1 && forall i :: 0 <= i < |es| ==> es[i] == Entry(0, 0, zero)
    ensures TableOk(es, |es|, rank) && Holds(es, map[]) && EmptiesAreZero(es, zero) && Tight(es, |es|)
  {
  }

  // The first i slots have been copied into a table with contents m and payload z under key 0.
  ghost predicate PrefixHolds<V>(es: seq<Entry<V>>, zero: V, i: nat, m: map<int, V>, z: V) {
    && i <= |es| && Holds(es[..i], m)
    && (if i == 0 then |m| == 0 else |m| < i)
    && z == if i == 0 || HasHole(es[..i]) then zero else es[0].payload
  }

  lemma PrefixStart<V>(es: seq<Entry<V>>, zero: V, m: map<int, V>)
    requires m == map[]
    ensures PrefixHolds(es, zero, 0, m, zero)
  {
  }

  lemma HoleInPrefix<V>(es: seq<Entry<V>>, i: nat)
    requires i < |es|
    ensures HasHole(es[..i + 1]) <==> HasHole(es[..i]) || (i > 0 && es[i].key == 0)
  {
    var p, q := es[..i], es[..i + 1];
    if HasHole(p) {
      var j :| 0 < j < |p| && p[j].key == 0;
      assert q[j].key == 0;
    }
    if i > 0 && es[i].key == 0 {
      assert q[i].key == 0;
    }
    if HasHole(q) {
      var j :| 0 < j < |q| && q[j].key == 0;
      assert j < i ==> p[j].key == 0;
    }
  }

  lemma PrefixKeyIsNew<V>(es: seq<Entry<V>>, i: nat, m: map<int, V>)
    requires i < |es| && Holds(es[..i], m)
    requires forall j, k :: 0 <= j < |es| && 0 <= k < |es| && es[j].key != 0 && es[j].key == es[k].key ==> j == k
    ensures es[i].key !in m
  {
    assert forall j :: 0 <= j < i ==> es[..i][j] == es[j];
  }

  lemma PrefixGrows<V>(es: seq<Entry<V>>, i: nat, m: map<int, V>)
    requires i < |es| && Holds(es[..i], m) && es[i].key !in m
    ensures Holds(es[..i + 1], if es[i].key == 0 then m else m[es[i].key := es[i].payload])
  {
    var m' := if es[i].key == 0 then m else m[es[i].key := es[i].payload];
    var p, q := es[..i], es[..i + 1];
    assert forall j :: 0 <= j < i ==> q[j] == p[j];
    forall k | k in m' ensures exists j :: 0 <= j < |q| && q[j].key == k {
      if k in m {
        var j :| 0 <= j < |p| && p[j].key == k;
        assert q[j].key == k;
      } else {
        assert q[i].key == k;
      }
    }
  }

  lemma PrefixStep<V>(es: seq<Entry<V>>, zero: V, lf: nat, rank: seq<nat>, all: map<int, V>,
                      i: nat, m: map<int, V>, z: V)
    requires TableOk(es, lf, rank) && Holds(es, all) && EmptiesAreZero(es, zero)
    requires i < |es| && PrefixHolds(es, zero, i, m, z)
    ensures es[i].key !in m && |m| + 1 < 2 * |es| && |m| < |es|
    ensures PrefixHolds(es, zero, i + 1, if es[i].key == 0 then m else m[es[i].key := es[i].payload],
                        if es[i].key == 0 then es[i].payload else z)
  {
    assert es[0].key == 0;
    PrefixKeyIsNew(es, i, m);
    PrefixGrows(es, i, m);
    HoleInPrefix(es, i);
    hide MainPosition, KeyOk, HasHole, ChainsOk, Holds;
  }

  lemma PrefixEnd<V>(es: seq<Entry<V>>, zero: V, all: map<int, V>, m: map<int, V>, z: V)
    requires (if es == [] then all == map[] else Holds(es, all)) && PrefixHolds(es, zero, |es|, m, z)
    ensures m == all && |m| <= |es| && (|es| > 0 ==> |m| < |es|)
    ensures z == if HasHole(es) then zero else if es == [] then zero else es[0].payload
  {
    assert es[..|es|] == es;
    forall k | k in m || k in all ensures k in m && k in all && m[k] == all[k] {
      var i :| 0 <= i < |es| && es[i].key == k;
    }
  }

  lemma StoreOk<V>(es: seq<Entry<V>>, lastfree: nat, rank: seq<nat>, i: nat, v: V)
    requires TableOk(es, lastfree, rank) && i < |es|
    ensures TableOk(es[i := es[i].(payload := v)], lastfree, rank)
  {
    hide MainPosition;
    var es' := es[i := es[i].(payload := v)];
    forall j | 0 <= j < |es| && es'[j].key != 0
      ensures KeyOk(es', j)
    {
      var m := MainPosition(es[j].key, |es|);
      assert KeyOk(es, j);
      var n: nat :| Path(es, m, j, n);
      PathSameLinks(es, es', m, j, n);
    }
  }

  lemma LinkGoesDown<V>(es: seq<Entry<V>>, lastfree: nat, rank: seq<nat>, a: nat)
    requires ChainsOk(es, lastfree, rank) && a < |es|
    ensures es[a].next != 0 ==> 0 < a + es[a].next < |es| && rank[a + es[a].next] < rank[a]
  {
  }
}
