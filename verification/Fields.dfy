// The fields of a message type in lua_pb.h: one pool of fields, and two indexes, by name and by
// tag number, that may disagree about a field.  The indexes are maps here (PbTable proves that the
// hash table is one).
module Fields {

  class Field {
    const name: int
    const number: int

    constructor (name: int, number: int)
      ensures this.name == name && this.number == number
    {
      this.name, this.number := name, number;
    }
  }

  // ---- two indexes ----

  type Index = map<int, Field>

  // Each entry has the key of its field.
  ghost predicate Keyed(names: Index, tags: Index) {
    (forall n :: n in names ==> names[n].name == n) && (forall k :: k in tags ==> tags[k].number == k)
  }

  predicate HasName(names: Index, f: Field) {
    f.name in names && names[f.name] == f
  }

  predicate HasTag(tags: Index, f: Field) {
    f.number in tags && tags[f.number] == f
  }

  ghost function Values(m: Index): set<Field> {
    set k | k in m :: m[k]
  }

  // What can be got at, by either index.
  ghost function Reachable(names: Index, tags: Index): set<Field> {
    Values(names) + Values(tags)
  }

  lemma NamesReachable(names: Index, tags: Index)
    ensures Values(names) <= Reachable(names, tags) && Values(tags) <= Reachable(names, tags)
  {
  }

  lemma ReachableIff(names: Index, tags: Index, f: Field)
    requires Keyed(names, tags)
    ensures f in Reachable(names, tags) <==> HasName(names, f) || HasTag(tags, f)
  {
  }

  // What a new field under this name and number makes unreachable.
  ghost function Lost(names: Index, tags: Index, name: int, number: int): set<Field> {
    (if name in names && !HasTag(tags, names[name]) then {names[name]} else {}) +
    (if number in tags && !HasName(names, tags[number]) then {tags[number]} else {})
  }

  lemma SameAgain(names: Index, tags: Index, name: int, number: int)
    requires Keyed(names, tags) && name in names && number in tags && names[name] == tags[number]
    ensures names[name].name == name && names[name].number == number
    ensures names[name := names[name]] == names && tags[number := names[name]] == tags
  {
  }

  lemma LostParts(names: Index, tags: Index, name: int, number: int)
    requires !(name in names && number in tags && names[name] == tags[number])
    ensures var a := name in names && !HasTag(tags, names[name]);
            var b := number in tags && !HasName(names, tags[number]);
            && (a && b ==> names[name] != tags[number]
                           && Lost(names, tags, name, number) == {names[name], tags[number]})
            && (a && !b ==> Lost(names, tags, name, number) == {names[name]})
            && (!a && b ==> Lost(names, tags, name, number) == {tags[number]})
            && (!a && !b ==> Lost(names, tags, name, number) == {})
  {
  }

  lemma NewReachable(names: Index, tags: Index, f: Field)
    requires Keyed(names, tags) && f !in Reachable(names, tags)
    requires !(f.name in names && f.number in tags && names[f.name] == tags[f.number])
    ensures var names', tags' := names[f.name := f], tags[f.number := f];
            && Keyed(names', tags')
            && Reachable(names', tags') == Reachable(names, tags) - Lost(names, tags, f.name, f.number) + {f}
            && Lost(names, tags, f.name, f.number) <= Reachable(names, tags)
  {
    var names', tags' := names[f.name := f], tags[f.number := f];
    var lost := Lost(names, tags, f.name, f.number);
    forall g: Field
      ensures g in Reachable(names', tags') <==> g == f || (g in Reachable(names, tags) && g !in lost)
    {
      ReachableIff(names, tags, g);
      ReachableIff(names', tags', g);
      ReachableIff(names, tags, f);
    }
  }

  lemma NewCount(names: Index, tags: Index, f: Field)
    requires Keyed(names, tags) && f !in Reachable(names, tags)
    requires !(f.name in names && f.number in tags && names[f.name] == tags[f.number])
    ensures |Reachable(names[f.name := f], tags[f.number := f])| ==
            |Reachable(names, tags)| - |Lost(names, tags, f.name, f.number)| + 1
  {
    hide Reachable, Lost;
    NewReachable(names, tags, f);
    var r, lost := Reachable(names, tags), Lost(names, tags, f.name, f.number);
    assert |r - lost| == |r| - |lost|;
  }

  lemma DeletedReachable(names: Index, tags: Index, f: Field)
    requires Keyed(names, tags)
    ensures var names' := if HasName(names, f) then names - {f.name} else names;
            var tags' := if HasTag(tags, f) then tags - {f.number} else tags;
            Keyed(names', tags') && Reachable(names', tags') == Reachable(names, tags) - {f}
  {
    var names' := if HasName(names, f) then names - {f.name} else names;
    var tags' := if HasTag(tags, f) then tags - {f.number} else tags;
    forall g: Field
      ensures g in Reachable(names', tags') <==> g in Reachable(names, tags) && g != f
    {
      ReachableIff(names, tags, g);
      ReachableIff(names', tags', g);
    }
  }

  // The fields of the entries that are done with.
  ghost function Freed(m: Index, todo: set<int>): set<Field> {
    set k | k in m && k !in todo :: m[k]
  }

  // The tags that are left are those of fields that have not been freed by name.
  ghost predicate FreedByName(names: Index, tags0: Index, tags: Index, todo: set<int>) {
    tags == map k | k in tags0 && tags0[k] !in Freed(names, todo) :: tags0[k]
  }

  lemma FreedMore(m: Index, todo: set<int>, k: int)
    requires k in m && k !in todo && forall i, j :: i in m && j in m && m[i] == m[j] ==> i == j
    ensures m[k] !in Freed(m, todo + {k}) && Freed(m, todo) == Freed(m, todo + {k}) + {m[k]}
  {
    forall g | g in Freed(m, todo)
      ensures g in Freed(m, todo + {k}) || g == m[k]
    {
      var i :| i in m && i !in todo && m[i] == g;
      assert i == k || i !in todo + {k};
    }
  }

  lemma NonEmpty(s: set<int>)
    requires s != {}
    ensures exists k :: k in s
  {
    if forall k :: k !in s {
      NoElements(s);
    }
  }

  lemma NoElements(s: set<int>)
    requires forall k :: k !in s
    ensures s == {}
  {
    forall k | k in s
      ensures false
    {
    }
  }

  lemma NothingFreed(m: Index)
    ensures Freed(m, m.Keys) == {} && Freed(m, {}) == Values(m)
  {
    forall f | f in Values(m)
      ensures f in Freed(m, {})
    {
      var k :| k in m && m[k] == f;
    }
  }

  lemma FreedStart(names: Index, tags: Index)
    ensures FreedByName(names, tags, tags, names.Keys)
  {
    NothingFreed(names);
    assert tags == map k | k in tags && tags[k] !in Freed(names, names.Keys) :: tags[k];
  }

  lemma FreedNext(names: Index, tags0: Index, tags: Index, todo: set<int>, n: int)
    requires Keyed(names, tags0) && n in names && n !in todo && FreedByName(names, tags0, tags, todo + {n})
    ensures var f := names[n];
            && f in Values(names) && f !in Freed(names, todo + {n})
            && Freed(names, todo) == Freed(names, todo + {n}) + {f}
            && FreedByName(names, tags0, if HasTag(tags, f) then tags - {f.number} else tags, todo)
  {
    hide Freed;
    var f := names[n];
    FreedMore(names, todo, n);
    var tags' := if HasTag(tags, f) then tags - {f.number} else tags;
    var want := map k | k in tags0 && tags0[k] !in Freed(names, todo) :: tags0[k];
    forall k
      ensures k in tags' <==> k in want
    {
    }
    assert tags' == want;
  }

  // Then the names and the tags that are left have nothing in common, and nothing is missing.
  lemma AllByName(names: Index, tags0: Index, tags: Index)
    requires Keyed(names, tags0) && FreedByName(names, tags0, tags, {})
    ensures Keyed(names, tags) && Values(names) !! Values(tags)
    ensures Reachable(names, tags0) == Values(names) + Values(tags)
  {
    NothingFreed(names);
    forall f: Field
      ensures f in Reachable(names, tags0) <==> f in Values(names) || f in Values(tags)
    {
      ReachableIff(names, tags0, f);
      if HasTag(tags0, f) && f !in Values(names) {
        assert tags[f.number] == f;
      }
    }
  }

  // ---- the pool ----

  // Freeing what is not live would be a double free.
  class FieldPool {
    var live: set<Field>

    constructor ()
      ensures live == {}
    {
      live := {};
    }

    method Alloc(name: int, number: int) returns (f: Field)
      modifies this
      ensures fresh(f) && f.name == name && f.number == number && f !in old(live) && live == old(live) + {f}
    {
      f := new Field(name, number);
      live := live + {f};
    }

    method Free(f: Field)
      requires f in live
      modifies this
      ensures live == old(live) - {f}
    {
      live := live - {f};
    }
  }

  // ---- a type ----

  class MessageType {
    const pool: FieldPool
    var names: Index
    var tags: Index
    var fieldCount: int

    // Every field that can be reached is live, and they are counted.
    ghost predicate Valid()
      reads this, pool
    {
      && Keyed(names, tags) && Reachable(names, tags) <= pool.live
      && fieldCount == |Reachable(names, tags)|
    }

    constructor (pool: FieldPool)
      ensures Valid() && this.pool == pool && names == map[] && tags == map[]
    {
      this.pool := pool;
      names, tags, fieldCount := map[], map[], 0;
    }

    // pb_newfield: a field that an index loses to the new one is freed if the other index does not
    // have it.
    method NewField(name: int, number: int) returns (f: Field)
      requires Valid()
      modifies this, pool
      ensures Valid() && f.name == name && f.number == number
      ensures names == old(names)[name := f] && tags == old(tags)[number := f]
      ensures if old(name in names && number in tags && names[name] == tags[number])
              then f == old(names)[name] && pool.live == old(pool.live)
              else fresh(f) && pool.live == old(pool.live) - Lost(old(names), old(tags), name, number) + {f}
    {
      hide Reachable, Keyed, Lost, Values;
      if name in names && number in tags && names[name] == tags[number] {
        f := names[name];
        SameAgain(names, tags, name, number);
        return;
      }
      f := AddField(name, number);
    }

    method AddField(name: int, number: int) returns (f: Field)
      requires Valid() && !(name in names && number in tags && names[name] == tags[number])
      modifies this, pool
      ensures Valid() && f.name == name && f.number == number
      ensures names == old(names)[name := f] && tags == old(tags)[number := f]
      ensures fresh(f) && pool.live == old(pool.live) - Lost(old(names), old(tags), name, number) + {f}
    {
      hide Reachable, Keyed, Lost, Values;
      f := pool.Alloc(name, number);
      NewReachable(names, tags, f);
      NewCount(names, tags, f);
      FreeLost(name, number);
      fieldCount := fieldCount + 1;
      names, tags := names[name := f], tags[number := f];
    }

    // The two entries are about to be overwritten.
    method FreeLost(name: int, number: int)
      requires Keyed(names, tags) && Reachable(names, tags) <= pool.live
      requires !(name in names && number in tags && names[name] == tags[number])
      modifies this`fieldCount, pool
      ensures pool.live == old(pool.live) - Lost(names, tags, name, number)
      ensures fieldCount == old(fieldCount) - |Lost(names, tags, name, number)|
    {
      hide Reachable, Keyed, Lost;
      NamesReachable(names, tags);
      LostParts(names, tags, name, number);
      if name in names && !HasTag(tags, names[name]) {
        pool.Free(names[name]);
        fieldCount := fieldCount - 1;
      }
      if number in tags && !HasName(names, tags[number]) {
        pool.Free(tags[number]);
        fieldCount := fieldCount - 1;
      }
    }

    // pb_delfield
    method DelField(f: Field)
      requires Valid()
      modifies this, pool
      ensures Valid()
      ensures names == if HasName(old(names), f) then old(names) - {f.name} else old(names)
      ensures tags == if HasTag(old(tags), f) then old(tags) - {f.number} else old(tags)
      ensures pool.live == if f in Reachable(old(names), old(tags)) then old(pool.live) - {f} else old(pool.live)
    {
      hide Reachable;
      ReachableIff(names, tags, f);
      DeletedReachable(names, tags, f);
      var count := 0;
      var hadName, hadTag := HasName(names, f), HasTag(tags, f);
      if hadName {
        names := names - {f.name};
        count := count + 1;
      }
      if hadTag {
        tags := tags - {f.number};
        count := count + 1;
      }
      if count > 0 {
        pool.Free(f);
        fieldCount := fieldCount - 1;
      }
    }

    // pb_deltype: every field is freed, and none twice, whatever the order of the entries.
    method DelType()
      requires Valid()
      modifies this, pool
      ensures Valid() && names == map[] && tags == map[] && fieldCount == 0
      ensures pool.live == old(pool.live) - Reachable(old(names), old(tags))
    {
      hide Reachable, Keyed, FreedByName, Values;
      NamesReachable(names, tags);
      FreeNames();
      AllByName(names, old(tags), tags);
      FreeTags();
      names, tags, fieldCount := map[], map[], 0;
      NoneReachable();
    }

    // The fields under a name, which lose their tags.
    method FreeNames()
      requires Keyed(names, tags) && Values(names) <= pool.live
      modifies this`tags, pool
      ensures FreedByName(names, old(tags), tags, {}) && pool.live == old(pool.live) - Values(names)
    {
      hide Freed, FreedByName, Keyed, Values;
      var todo := names.Keys;
      NothingFreed(names);
      FreedStart(names, tags);
      while todo != {}
        invariant todo <= names.Keys
        invariant FreedByName(names, old(tags), tags, todo)
        invariant pool.live == old(pool.live) - Freed(names, todo)
        decreases |todo|
      {
        NonEmpty(todo);
        var n :| n in todo;
        ghost var was := todo;
        todo := todo - {n};
        assert todo + {n} == was;
        var f := names[n];
        FreedNext(names, old(tags), tags, todo, n);
        if HasTag(tags, f) {
          tags := tags - {f.number};
        }
        pool.Free(f);
      }
    }

    // What the names have left.
    method FreeTags()
      requires Keyed(names, tags) && Values(tags) <= pool.live
      modifies pool
      ensures pool.live == old(pool.live) - Values(tags)
    {
      hide Freed;
      var todo := tags.Keys;
      NothingFreed(tags);
      while todo != {}
        invariant todo <= tags.Keys && pool.live == old(pool.live) - Freed(tags, todo)
        decreases |todo|
      {
        NonEmpty(todo);
        var k :| k in todo;
        ghost var was := todo;
        todo := todo - {k};
        assert todo + {k} == was;
        FreedMore(tags, todo, k);
        pool.Free(tags[k]);
      }
    }
  }

  lemma NoneReachable()
    ensures Reachable(map[], map[]) == {} && Keyed(map[], map[])
  {
  }
}
