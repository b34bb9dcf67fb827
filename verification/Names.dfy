// The interned names of lua_pb.h: a hash table of linked entries with reference counts, and a
// lookup through a small cache that is never told about changes.
module Names {
  import opened Arith

  const HASH_STEP: nat := 32
  const REFERENCE_MOD: nat := 0x1_0000
  const TABLE_LIMIT: nat := 536870899
  const MIN_TABLE_SIZE: nat := 16
  const CACHE_SIZE: nat := 53

  // ---- hashing ----

  function Mix(h: bv32, b: Byte): bv32 {
    h ^ ((h << 5) + (h >> 2) + (b as bv32))
  }

  // From the end in steps, so that a long name costs no more than a short one.
  function HashFrom(s: seq<Byte>, len: nat, step: nat, h: bv32): bv32
    requires len <= |s| && step > 0
    decreases len
  {
    if len < step then h else HashFrom(s, len - step, step, Mix(h, s[len - 1]))
  }

  function CalcHash(s: seq<Byte>): bv32 {
    HashFrom(s, |s|, |s| / HASH_STEP + 1, (|s| % U32_MOD) as bv32)
  }

  // Up to 31 bytes, each counts; of longer names, one in every |s| / 32 + 1.
  lemma HashSteps(s: seq<Byte>, b: Byte, h: bv32)
    ensures CalcHash(s) == HashFrom(s, |s|, |s| / 32 + 1, (|s| % 0x1_0000_0000) as bv32)
    ensures HashFrom([b], 1, 1, h) == h ^ ((h << 5) + (h >> 2) + (b as bv32))
  {
  }

  method CalculateHash(s: seq<Byte>) returns (h: bv32)
    ensures h == CalcHash(s)
  {
    var len := |s|;
    h := (len % U32_MOD) as bv32;
    var step := len / HASH_STEP + 1;
    while len >= step
      invariant 0 <= len <= |s| && HashFrom(s, len, step, h) == CalcHash(s)
    {
      h := Mix(h, s[len - 1]);
      len := len - step;
    }
  }

  // hash & (size - 1)
  function Bucket(hash: bv32, size: nat): (b: nat)
    requires size > 0
    ensures b < size
  {
    BitAndBelow(hash as nat, size - 1);
    BitAnd(hash as nat, size - 1)
  }

  // ---- entries ----

  class NameEntry {
    var next: NameEntry?
    const hash: bv32
    const text: seq<Byte>
    var refcount: nat

    constructor (text: seq<Byte>, hash: bv32)
      ensures this.text == text && this.hash == hash && refcount == 0 && next == null
    {
      this.text, this.hash := text, hash;
      next, refcount := null, 0;
    }
  }

  function ListAt(s: seq<NameEntry>, i: nat): NameEntry? {
    if i < |s| then s[i] else null
  }

  // s is the list from head on.
  ghost predicate Linked(head: NameEntry?, s: seq<NameEntry>)
    reads s`next
  {
    head == ListAt(s, 0) && forall i :: 0 <= i < |s| ==> s[i].next == ListAt(s, i + 1)
  }

  // ---- the cache ----

  datatype CacheSlot = CacheSlot(name: nat, hash: bv32)

  class Cache {
    const slots: array2<CacheSlot>
    var hash: bv32

    constructor ()
      ensures fresh(slots) && slots.Length0 == CACHE_SIZE && slots.Length1 == 2
    {
      slots := new CacheSlot[CACHE_SIZE, 2]((i, j) => CacheSlot(0, 0));
      hash := 0;
    }
  }

  // ---- the table ----

  // Each entry is in the chain of its bucket, once.
  ghost predicate Placed(chains: seq<seq<NameEntry>>, entries: set<NameEntry>) {
    && (forall b, e :: 0 <= b < |chains| && e in chains[b] ==> e in entries && Bucket(e.hash, |chains|) == b)
    && (forall e :: e in entries ==> |chains| > 0 && e in chains[Bucket(e.hash, |chains|)])
    && (forall b :: 0 <= b < |chains| ==> Distinct(chains[b]))
  }

  ghost predicate Distinct(s: seq<NameEntry>) {
    forall i, j :: 0 <= i < j < |s| ==> s[i] != s[j]
  }

  // Stored hashes are right, and no name is there twice.
  ghost predicate Named(entries: set<NameEntry>) {
    && (forall e :: e in entries ==> |e.text| < 0x1_0000 && e.hash == CalcHash(e.text))
    && (forall e, f :: e in entries && f in entries && e.text == f.text ==> e == f)
  }

  // r is the entry of this name, or there is none.
  ghost predicate IsEntry(entries: set<NameEntry>, text: seq<Byte>, r: NameEntry?) {
    if r == null then forall e :: e in entries ==> e.text != text else r in entries && r.text == text
  }

  class NameTable {
    var hash: array<NameEntry?>
    var size: nat
    var count: nat
    ghost var chains: seq<seq<NameEntry>>
    ghost var entries: set<NameEntry>

    ghost predicate Valid()
      reads this, hash, entries
    {
      && hash.Length == size == |chains| && count == |entries|
      && Placed(chains, entries) && Named(entries)
      && forall b :: 0 <= b < size ==> Linked(hash[b], chains[b])
    }

    constructor ()
      ensures Valid() && entries == {} && fresh(hash)
    {
      hash := new NameEntry?[0];
      size, count := 0, 0;
      chains, entries := [], {};
    }

    // pbN_getname
    method GetName(text: seq<Byte>, h: bv32) returns (r: NameEntry?)
      requires Valid()
      ensures r != null ==> r in entries && r.text == text && r.hash == h
      ensures r == null ==> forall e :: e in entries ==> !(e.text == text && e.hash == h)
    {
      hide Bucket, CalcHash, Named, Placed;
      NoChains(chains, entries);
      if size == 0 { return null; }
      var b := Bucket(h, size);
      ghost var chain := chains[b];
      Apart(chains, entries, b);
      var entry := hash[b];
      ghost var k: nat := 0;
      while entry != null
        invariant k <= |chain| && entry == ListAt(chain, k)
        invariant forall i :: 0 <= i < k ==> !(chain[i].hash == h && chain[i].text == text)
        decreases |chain| - k
      {
        if entry.hash == h && |entry.text| == |text| && entry.text == text {
          return entry;
        }
        entry := entry.next;
        k := k + 1;
      }
      NotInChain(chains, entries, text, h);
      return null;
    }

    // Without a cache.
    method Lookup(text: seq<Byte>) returns (r: NameEntry?)
      requires Valid()
      ensures IsEntry(entries, text, r)
    {
      hide CalcHash, Placed, Linked;
      var h := CalculateHash(text);
      r := GetName(text, h);
    }

    // pb_name: whatever the cache holds, the result is what a lookup without it gives.
    method Name(text: seq<Byte>, pointer: nat, cache: Cache) returns (r: NameEntry?)
      requires Valid() && cache.slots.Length0 == CACHE_SIZE && cache.slots.Length1 == 2
      modifies cache, cache.slots
      ensures IsEntry(entries, text, r)
    {
      hide CalcHash, Placed, Linked, Distinct;
      var i := pointer * 2654435761 % U64_MOD % CACHE_SIZE;
      var j := 0;
      r := null;
      if cache.slots[i, 0].name == pointer {
        cache.hash := cache.slots[i, 0].hash;
        r := GetName(text, cache.hash);
      } else if cache.slots[i, 1].name == pointer {
        j := 1;
        cache.hash := cache.slots[i, 1].hash;
        r := GetName(text, cache.hash);
      } else {
        cache.slots[i, 1] := cache.slots[i, 0];
        cache.slots[i, 0] := cache.slots[i, 0].(name := pointer);
      }
      if r == null {
        cache.hash := CalculateHash(text);
        cache.slots[i, j] := cache.slots[i, j].(hash := cache.hash);
        r := GetName(text, cache.slots[i, j].hash);
      }
    }

    // pbN_newname
    method NewEntry(text: seq<Byte>, h: bv32) returns (r: NameEntry?)
      requires Valid() && |text| < 0x1_0000 && h == CalcHash(text) && IsEntry(entries, text, null)
      modifies this, hash, entries
      ensures Valid() && (hash == old(hash) || fresh(hash))
      ensures forall e :: e in old(entries) ==> e.refcount == old(e.refcount)
      ensures r == null ==> entries == old(entries) && |entries| > 0x1000_0000
      ensures r != null ==> fresh(r) && r.text == text && r.refcount == 0 && entries == old(entries) + {r}
    {
      if count >= size {
        var ok := Resize(size * 2);
        if !ok { return null; }
      }
      r := Insert(text, h);
    }

    // pbN_resize: every entry moves to its bucket in a larger table.
    method Resize(wanted: nat) returns (ok: bool)
      requires Valid()
      modifies this, hash, entries
      ensures Valid() && entries == old(entries) && (hash == old(hash) || fresh(hash))
      ensures forall e :: e in entries ==> e.refcount == old(e.refcount)
      ensures ok <==> wanted <= LargestTable()
      ensures ok ==> size >= wanted && size > 0
    {
      hide Placed, Named, Linked, Bucket;
      var newSize := NewTableSize(wanted);
      if newSize < wanted { return false; }
      var target := new NameEntry?[newSize](_ => null);
      ghost var newChains: seq<seq<NameEntry>> := seq(newSize, _ => []);
      ghost var moved: set<NameEntry> := {};
      NothingMoved(chains, entries, newChains);
      EmptyLinked();
      var i := 0;
      while i < size
        invariant 0 <= i <= size && fresh(target) && target.Length == newSize == |newChains|
        invariant hash == old(hash) && size == old(size)
                && chains == old(chains) && entries == old(entries) && count == old(count)
        invariant hash.Length == size == |chains| && Placed(chains, entries)
        invariant forall e :: e in entries ==> e.refcount == old(e.refcount)
        invariant forall b :: i <= b < size ==> Linked(hash[b], chains[b])
        invariant forall b :: 0 <= b < newSize ==> Linked(target[b], newChains[b])
        invariant Placed(newChains, moved) && Moved(chains, entries, moved, i, 0)
      {
        newChains, moved := MoveChain(i, target, newChains, moved);
        ChainMoved(chains, entries, moved, i);
        i := i + 1;
      }
      AllMoved(chains, entries, moved);
      hash, size, chains := target, newSize, newChains;
      return true;
    }

    method NewTableSize(wanted: nat) returns (newSize: nat)
      ensures newSize > 0 && (newSize >= wanted <==> wanted <= LargestTable())
    {
      newSize := MIN_TABLE_SIZE;
      ghost var k: nat := 4;
      TablePowers();
      TableExponent(k);
      while newSize < TABLE_LIMIT && newSize < wanted
        invariant k <= 29 && newSize == Pow(2, k) && newSize > 0
        invariant newSize <= LargestTable() && (newSize < LargestTable() ==> k <= 28 && newSize < TABLE_LIMIT)
        decreases 29 - k
      {
        newSize := newSize * 2;
        k := k + 1;
        TableExponent(k);
      }
    }

    method MoveChain(i: nat, target: array<NameEntry?>,
                     ghost newChains0: seq<seq<NameEntry>>, ghost moved0: set<NameEntry>)
        returns (ghost newChains: seq<seq<NameEntry>>, ghost moved: set<NameEntry>)
      requires hash.Length == size == |chains| && i < size && Placed(chains, entries) && Linked(hash[i], chains[i])
      requires target != hash && target.Length == |newChains0| > 0
      requires forall b :: 0 <= b < target.Length ==> Linked(target[b], newChains0[b])
      requires Placed(newChains0, moved0) && Moved(chains, entries, moved0, i, 0)
      requires forall b :: i < b < size ==> Linked(hash[b], chains[b])
      modifies target, entries
      ensures |newChains| == target.Length && forall b :: 0 <= b < target.Length ==> Linked(target[b], newChains[b])
      ensures Placed(newChains, moved) && Moved(chains, entries, moved, i, |chains[i]|)
      ensures forall b :: i < b < size ==> Linked(hash[b], chains[b])
      ensures forall e :: e in entries ==> e.refcount == old(e.refcount)
    {
      hide Placed, Named, Linked, Bucket, Moved;
      newChains, moved := newChains0, moved0;
      ghost var chain := chains[i];
      var entry := hash[i];
      ghost var k: nat := 0;
      assert chain[0..] == chain;
      LinkedHead(entry, chain);
      while entry != null
        invariant k <= |chain| && entry == ListAt(chain, k) && Linked(entry, chain[k..])
        invariant |newChains| == target.Length && forall b :: 0 <= b < target.Length ==> Linked(target[b], newChains[b])
        invariant Placed(newChains, moved) && Moved(chains, entries, moved, i, k)
        invariant forall b :: i < b < size ==> Linked(hash[b], chains[b])
        invariant forall e :: e in entries ==> e.refcount == old(e.refcount)
        decreases |chain| - k
      {
        MoveOne(chains, entries, newChains, moved, i, k);
        LinkedTail(entry, chain, k);
        var next := entry.next;
        var b := Bucket(entry.hash, target.Length);
        entry.next := target[b];
        Pushed(entry, newChains[b]);
        target[b] := entry;
        newChains := newChains[b := [entry] + newChains[b]];
        moved := moved + {entry};
        entry := next;
        k := k + 1;
      }
    }

    // pbN_delname
    method DeleteEntry(name: NameEntry)
      requires Valid() && name in entries
      modifies this, hash, entries
      ensures Valid() && hash == old(hash) && entries == old(entries) - {name}
      ensures forall e :: e in entries ==> e.refcount == old(e.refcount)
    {
      hide Placed, Named, Bucket, Distinct, Linked;
      ghost var k := PlaceOf(chains, entries, name);
      var b := Bucket(name.hash, size);
      ghost var chain := chains[b];
      DeletePlaced(chains, entries, name, k);
      DeleteNamed(entries, name);
      Apart(chains, entries, b);
      LinksOf(hash[b], chain);
      if hash[b] == name {
        FirstOf(chain, k);
        hash[b] := name.next;
      } else {
        var prev := hash[b];
        ghost var j: nat := 0;
        while prev.next != name
          invariant j < k && prev == chain[j]
          decreases k - j
        {
          prev := prev.next;
          j := j + 1;
        }
        OnlyBefore(chain, j, k);
        assert prev in chain;
        prev.next := name.next;
      }
      Spliced(hash[b], chain, k);
      assert forall b2 :: 0 <= b2 < size && b2 != b ==> Linked(hash[b2], chains[b2]);
      chains := chains[b := chain[..k] + chain[k + 1..]];
      entries := entries - {name};
      count := count - 1;
    }

    method Insert(text: seq<Byte>, h: bv32) returns (r: NameEntry)
      requires Valid() && size > 0 && |text| < 0x1_0000 && h == CalcHash(text) && IsEntry(entries, text, null)
      modifies this, hash
      ensures Valid() && hash == old(hash)
      ensures fresh(r) && r.text == text && r.refcount == 0 && entries == old(entries) + {r}
    {
      hide Bucket, CalcHash, Named, Placed, Linked;
      var b := Bucket(h, size);
      r := new NameEntry(text, h);
      InsertPlaced(chains, entries, r);
      InsertNamed(entries, r);
      r.next := hash[b];
      Pushed(r, chains[b]);
      hash[b] := r;
      chains := chains[b := [r] + chains[b]];
      entries := entries + {r};
      count := count + 1;
    }

    // pb_newname: one more reference to the name, which is there afterwards.  The counter has 16 bits.
    method NewName(text: seq<Byte>) returns (r: NameEntry?)
      requires Valid() && |text| < 0x1_0000
      modifies this, hash, entries
      ensures Valid() && (hash == old(hash) || fresh(hash))
      ensures r == null ==> entries == old(entries) && |entries| > 0x1000_0000
      ensures r != null ==> r.text == text && entries == old(entries) + {r}
      ensures r != null ==> r.refcount == if r in old(entries) then (old(r.refcount) + 1) % REFERENCE_MOD else 1
      ensures forall e :: e in old(entries) && e != r ==> e.refcount == old(e.refcount)
    {
      hide CalcHash, Placed, Linked;
      var h := CalculateHash(text);
      r := GetName(text, h);
      NoneNamed(entries, text, h);
      if r == null {
        r := NewEntry(text, h);
      }
      if r != null {
        r.refcount := (r.refcount + 1) % REFERENCE_MOD;
      }
    }

    // pb_delname: one reference less; the last one takes the name away.
    method DelName(name: NameEntry)
      requires Valid() && name in entries
      modifies this, hash, entries
      ensures Valid() && hash == old(hash)
      ensures entries == if old(name.refcount) <= 1 then old(entries) - {name} else old(entries)
      ensures forall e :: e in entries ==> e.refcount == old(e.refcount) - (if e == name then 1 else 0)
    {
      hide CalcHash, Placed, Linked;
      if name.refcount <= 1 {
        DeleteEntry(name);
        return;
      }
      name.refcount := name.refcount - 1;
    }
  }

  lemma NoneNamed(entries: set<NameEntry>, text: seq<Byte>, h: bv32)
    requires Named(entries) && |text| < 0x1_0000 && h == CalcHash(text)
    ensures (forall e :: e in entries ==> !(e.text == text && e.hash == h)) ==> IsEntry(entries, text, null)
  {
    hide CalcHash;
  }

  lemma NoChains(chains: seq<seq<NameEntry>>, entries: set<NameEntry>)
    requires Placed(chains, entries)
    ensures chains == [] ==> entries == {}
  {
  }

  lemma NotInChain(chains: seq<seq<NameEntry>>, entries: set<NameEntry>, text: seq<Byte>, h: bv32)
    requires Placed(chains, entries) && chains != []
    requires forall i :: 0 <= i < |chains[Bucket(h, |chains|)]| ==>
                           !(chains[Bucket(h, |chains|)][i].hash == h && chains[Bucket(h, |chains|)][i].text == text)
    ensures forall e :: e in entries ==> !(e.text == text && e.hash == h)
  {
    hide Bucket;
  }

  lemma InsertPlaced(chains: seq<seq<NameEntry>>, entries: set<NameEntry>, r: NameEntry)
    requires Placed(chains, entries) && chains != [] && r !in entries
    ensures var b := Bucket(r.hash, |chains|);
            r !in chains[b] && Placed(chains[b := [r] + chains[b]], entries + {r})
  {
    hide Bucket, Distinct;
    var b := Bucket(r.hash, |chains|);
    PushDistinct(r, chains[b]);
  }

  lemma PushDistinct(r: NameEntry, s: seq<NameEntry>)
    requires Distinct(s) && r !in s
    ensures Distinct([r] + s)
  {
  }

  lemma InsertNamed(entries: set<NameEntry>, r: NameEntry)
    requires Named(entries) && IsEntry(entries, r.text, null) && |r.text| < 0x1_0000 && r.hash == CalcHash(r.text)
    ensures Named(entries + {r}) && r !in entries
  {
    hide CalcHash;
  }

  lemma Pushed(r: NameEntry, s: seq<NameEntry>)
    requires Linked(r.next, s)
    ensures Linked(r, [r] + s)
  {
    var list := [r] + s;
    forall i | 0 <= i < |list|
      ensures list[i].next == ListAt(list, i + 1)
    {
      if i > 0 {
        assert list[i] == s[i - 1] && s[i - 1].next == ListAt(s, i) == ListAt(list, i + 1);
      }
    }
  }

  // ---- what moving keeps ----

  function LargestTable(): nat { 0x2000_0000 }

  lemma TablePowers()
    ensures Pow(2, 4) == MIN_TABLE_SIZE && Pow(2, 29) == LargestTable() && Pow(2, 28) < TABLE_LIMIT
  {
    assert Pow(2, 4) == 16;
    PowAdd(2, 4, 4);
    PowAdd(2, 8, 8);
    PowAdd(2, 16, 8);
    PowAdd(2, 24, 4);
    assert Pow(2, 1) == 2;
    PowAdd(2, 28, 1);
  }

  lemma TableExponent(k: nat)
    requires k <= 29
    ensures 0 < Pow(2, k) <= LargestTable() && (Pow(2, k) < LargestTable() ==> k <= 28 && Pow(2, k) < TABLE_LIMIT)
    ensures k < 29 ==> Pow(2, k + 1) == 2 * Pow(2, k)
  {
    TablePowers();
    PowPositive(2, k);
    PowMonotone(2, k, 29);
    if k < 29 {
      PowMonotone(2, k, 28);
    }
  }

  // The entries of the first i chains and of k in the next have moved.
  ghost predicate Moved(chains: seq<seq<NameEntry>>, entries: set<NameEntry>, moved: set<NameEntry>, i: nat, k: nat) {
    && moved <= entries && (i < |chains| ==> k <= |chains[i]|) && (|chains| == 0 ==> entries == {})
    && forall e :: e in entries && |chains| > 0 ==>
                     (e in moved <==> Bucket(e.hash, |chains|) < i ||
                                      (Bucket(e.hash, |chains|) == i && i < |chains| && e in chains[i][..k]))
  }

  lemma NothingMoved(chains: seq<seq<NameEntry>>, entries: set<NameEntry>, newChains: seq<seq<NameEntry>>)
    requires Placed(chains, entries) && forall b :: 0 <= b < |newChains| ==> newChains[b] == []
    ensures Placed(newChains, {}) && Moved(chains, entries, {}, 0, 0)
  {
    hide Bucket;
  }

  lemma EmptyLinked()
    ensures Linked(null, [])
  {
  }

  lemma ChainMoved(chains: seq<seq<NameEntry>>, entries: set<NameEntry>, moved: set<NameEntry>, i: nat)
    requires i < |chains| && Placed(chains, entries) && Moved(chains, entries, moved, i, |chains[i]|)
    ensures Moved(chains, entries, moved, i + 1, 0)
  {
    hide Bucket;
    assert chains[i][..|chains[i]|] == chains[i];
    assert i + 1 < |chains| ==> chains[i + 1][..0] == [];
  }

  lemma AllMoved(chains: seq<seq<NameEntry>>, entries: set<NameEntry>, moved: set<NameEntry>)
    requires Placed(chains, entries) && Moved(chains, entries, moved, |chains|, 0)
    ensures moved == entries
  {
    hide Bucket;
  }

  // The k-th entry of chain i is next.
  lemma MoveOne(chains: seq<seq<NameEntry>>, entries: set<NameEntry>,
                newChains: seq<seq<NameEntry>>, moved: set<NameEntry>, i: nat, k: nat)
    requires i < |chains| && k < |chains[i]| && newChains != []
    requires Placed(chains, entries) && Placed(newChains, moved) && Moved(chains, entries, moved, i, k)
    ensures var e := chains[i][k];
            && e in entries && e !in chains[i][k + 1..] && (forall b :: i < b < |chains| ==> e !in chains[b])
            && (forall b :: 0 <= b < |newChains| ==> e !in newChains[b])
            && Moved(chains, entries, moved + {e}, i, k + 1)
            && Placed(newChains[Bucket(e.hash, |newChains|) := [e] + newChains[Bucket(e.hash, |newChains|)]],
                      moved + {e})
  {
    hide Bucket;
    var e := chains[i][k];
    assert chains[i][..k + 1] == chains[i][..k] + [e];
    assert e in chains[i];
    InsertPlaced(newChains, moved, e);
  }

  lemma LinkedHead(head: NameEntry?, s: seq<NameEntry>)
    requires Linked(head, s)
    ensures head == ListAt(s, 0)
  {
  }

  lemma LinkedTail(head: NameEntry?, s: seq<NameEntry>, k: nat)
    requires k < |s| && Linked(head, s[k..]) && head == s[k]
    ensures head.next == ListAt(s, k + 1) && Linked(head.next, s[k + 1..])
  {
    var t, u := s[k..], s[k + 1..];
    assert t[0].next == ListAt(t, 1) == ListAt(u, 0) == ListAt(s, k + 1);
    forall i | 0 <= i < |u|
      ensures u[i].next == ListAt(u, i + 1)
    {
      assert u[i] == t[i + 1] && t[i + 1].next == ListAt(t, i + 2) == ListAt(u, i + 1);
    }
  }

  // ---- what deleting keeps ----

  lemma PlaceOf(chains: seq<seq<NameEntry>>, entries: set<NameEntry>, name: NameEntry) returns (k: nat)
    requires Placed(chains, entries) && name in entries
    ensures |chains| > 0
    ensures k < |chains[Bucket(name.hash, |chains|)]| && chains[Bucket(name.hash, |chains|)][k] == name
  {
    hide Bucket;
    k :| k < |chains[Bucket(name.hash, |chains|)]| && chains[Bucket(name.hash, |chains|)][k] == name;
  }

  lemma DeletePlaced(chains: seq<seq<NameEntry>>, entries: set<NameEntry>, name: NameEntry, k: nat)
    requires Placed(chains, entries) && name in entries && |chains| > 0
    requires k < |chains[Bucket(name.hash, |chains|)]| && chains[Bucket(name.hash, |chains|)][k] == name
    ensures var b := Bucket(name.hash, |chains|);
            Placed(chains[b := chains[b][..k] + chains[b][k + 1..]], entries - {name})
  {
    hide Bucket;
    var b := Bucket(name.hash, |chains|);
    var chain := chains[b];
    var left := chain[..k] + chain[k + 1..];
    forall e
      ensures e in left <==> e in chain && e != name
    {
      if e in chain && e != name {
        var j :| 0 <= j < |chain| && chain[j] == e;
        assert if j < k then left[j] == e else left[j - 1] == e;
      }
    }
  }

  lemma DeleteNamed(entries: set<NameEntry>, name: NameEntry)
    requires Named(entries)
    ensures Named(entries - {name})
  {
    hide CalcHash;
  }

  // Only chain b holds what chain b holds, once.
  lemma Apart(chains: seq<seq<NameEntry>>, entries: set<NameEntry>, b: nat)
    requires Placed(chains, entries) && b < |chains|
    ensures forall e :: e in chains[b] ==> e in entries
    ensures forall e, b2 :: e in chains[b] && 0 <= b2 < |chains| && b2 != b ==> e !in chains[b2]
    ensures forall i, j :: 0 <= i < j < |chains[b]| ==> chains[b][i] != chains[b][j]
  {
    hide Bucket;
  }

  lemma LinksOf(head: NameEntry?, s: seq<NameEntry>)
    requires Linked(head, s)
    ensures head == ListAt(s, 0) && forall i :: 0 <= i < |s| ==> s[i].next == ListAt(s, i + 1)
  {
  }

  lemma FirstOf(s: seq<NameEntry>, k: nat)
    requires k < |s| && s[0] == s[k] && forall i, j :: 0 <= i < j < |s| ==> s[i] != s[j]
    ensures k == 0
  {
  }

  lemma OnlyBefore(s: seq<NameEntry>, j: nat, k: nat)
    requires j < k < |s| && ListAt(s, j + 1) == s[k] && forall i, j :: 0 <= i < j < |s| ==> s[i] != s[j]
    ensures j + 1 == k
  {
  }

  lemma Spliced(head: NameEntry?, s: seq<NameEntry>, k: nat)
    requires k < |s|
    requires head == if k == 0 then ListAt(s, 1) else s[0]
    requires forall i :: 0 <= i < |s| && i + 1 != k ==> s[i].next == ListAt(s, i + 1)
    requires k > 0 ==> s[k - 1].next == ListAt(s, k + 1)
    ensures Linked(head, s[..k] + s[k + 1..])
  {
    var left := s[..k] + s[k + 1..];
    forall i | 0 <= i < |left|
      ensures left[i].next == ListAt(left, i + 1)
    {
      if i < k {
        assert left[i] == s[i];
      } else {
        assert left[i] == s[i + 1];
      }
    }
  }
}
