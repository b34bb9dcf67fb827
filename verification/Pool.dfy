// The page allocator of lua_pb.h.  A free slot holds the link to the next free slot in its first
// word; what a live slot holds is up to its owner.  The last word of a page links the pages.
module Pool {
  import opened Arith
  import opened Reading

  const POOL_SIZE: nat := 4096
  const WORD: nat := 8

  datatype Address = Address(page: nat, offset: nat)

  type Link = Option<Address>

  // ---- slots ----

  predicate SlotSize(size: nat) {
    WORD < size < POOL_SIZE / 4
  }

  predicate IsOffset(offset: int, size: nat)
    requires size > 0
  {
    offset >= 0 && offset % size == 0 && offset + size <= POOL_SIZE - WORD
  }

  predicate IsSlot(a: Address, pages: nat, size: nat)
    requires size > 0
  {
    a.page < pages && IsOffset(a.offset, size)
  }

  function PageLink(page: nat): Address {
    Address(page, POOL_SIZE - WORD)
  }

  // Do n bytes from a and m bytes from b share one?
  predicate Overlap(a: Address, n: nat, b: Address, m: nat) {
    a.page == b.page && a.offset < b.offset + m && b.offset < a.offset + n
  }

  lemma MultiplesApart(a: nat, b: nat, s: nat)
    requires s > 0 && a % s == 0 && b % s == 0 && a < b
    ensures a + s <= b
  {
    assert a == s * (a / s) && b == s * (b / s);
    var i, j := a / s, b / s;
    if i >= j {
      MulMonotone(s, j, i);
    }
    MulMonotone(s, i + 1, j);
    Distribute(s, i, 1);
  }

  lemma MultipleBelow(a: nat, s: nat)
    requires s > 0 && a % s == 0 && a >= s
    ensures (a - s) % s == 0
  {
    assert a == s * (a / s);
    Distribute(s, a / s, -1);
    DivModUnique(a - s, s, a / s - 1, 0);
  }

  // The offset where pb_poolalloc starts is that of the last slot.
  lemma LastOffset(s: nat)
    requires SlotSize(s)
    ensures var last := ((POOL_SIZE - WORD) / s - 1) * s;
            IsOffset(last, s) && forall o: int :: IsOffset(o, s) ==> o <= last
  {
    var n := (POOL_SIZE - WORD) / s;
    assert POOL_SIZE - WORD == s * n + (POOL_SIZE - WORD) % s;
    assert n >= 1;
    MulCommute(s, n - 1);
    Distribute(s, n, -1);
    DivModUnique((n - 1) * s, s, n - 1, 0);
    MulMonotone(s, 0, n - 1);
    forall o: int | IsOffset(o, s)
      ensures o <= (n - 1) * s
    {
      if (n - 1) * s < o {
        MultiplesApart((n - 1) * s, o, s);
      }
    }
  }

  // Two slots share no byte with each other, nor with the word that links the pages.
  lemma SlotsDisjoint(a: Address, b: Address, pages: nat, s: nat)
    requires SlotSize(s) && IsSlot(a, pages, s) && IsSlot(b, pages, s) && a != b
    ensures !Overlap(a, s, b, s)
  {
    if a.page == b.page {
      if a.offset < b.offset {
        MultiplesApart(a.offset, b.offset, s);
      } else {
        MultiplesApart(b.offset, a.offset, s);
      }
    }
  }

  lemma SlotClearOfLinks(a: Address, page: nat, pages: nat, s: nat)
    requires SlotSize(s) && IsSlot(a, pages, s)
    ensures !Overlap(a, s, PageLink(page), WORD)
  {
  }

  // ---- the lists ----

  // free is the list from head on, as memory has it.
  ghost predicate FreeList(head: Link, free: seq<Address>, words: map<Address, Link>) {
    && head == ListAt(free, 0)
    && forall i :: 0 <= i < |free| ==> free[i] in words && words[free[i]] == ListAt(free, i + 1)
  }

  // The i-th of a list, if there is one.
  function ListAt(free: seq<Address>, i: nat): Link {
    if i < |free| then Some(free[i]) else None
  }

  ghost predicate PageList(head: Link, pages: nat, words: map<Address, Link>) {
    && head == (if pages == 0 then None else Some(Address(pages - 1, 0)))
    && forall p: nat :: p < pages ==>
          PageLink(p) in words && words[PageLink(p)] == if p == 0 then None else Some(Address(p - 1, 0))
  }

  ghost predicate Distinct(free: seq<Address>) {
    forall i, j :: 0 <= i < j < |free| ==> free[i] != free[j]
  }

  // Every slot is free or live, and none is both.
  ghost predicate Partition(free: seq<Address>, live: set<Address>, pages: nat, size: nat)
    requires size > 0
  {
    && Distinct(free) && (forall a :: a in free ==> a !in live)
    && forall a: Address :: a in free || a in live <==> IsSlot(a, pages, size)
  }

  // ---- the pool ----

  class Pool {
    const objSize: nat
    var words: map<Address, Link>
    var freed: Link
    var pages: Link
    var pageCount: nat
    ghost var free: seq<Address>
    ghost var live: set<Address>

    ghost predicate Valid()
      reads this
    {
      && SlotSize(objSize)
      && FreeList(freed, free, words) && PageList(pages, pageCount, words)
      && Partition(free, live, pageCount, objSize)
    }

    constructor (objSize: nat)
      requires SlotSize(objSize)
      ensures Valid() && live == {} && this.objSize == objSize
    {
      this.objSize := objSize;
      words, freed, pages, pageCount := map[], None, None, 0;
      free, live := [], {};
    }

    // The result is a slot that was not live, and shares no byte with one that is.
    method Alloc() returns (obj: Address)
      requires Valid()
      modifies this
      ensures Valid() && IsSlot(obj, pageCount, objSize)
      ensures obj !in old(live) && live == old(live) + {obj}
      ensures forall a :: a in old(live) ==> !Overlap(obj, objSize, a, objSize)
    {
      if freed == None {
        obj := NewPage();
      } else {
        obj := freed.value;
        TakeFree(free, live, pageCount, objSize);
        PopFree(freed, free, words);
        freed := words[obj];
        free := free[1..];
        live := live + {obj};
      }
      AllDisjoint(obj, live, pageCount, objSize);
    }

    method NewPage() returns (obj: Address)
      requires Valid() && freed == None
      modifies this
      ensures Valid() && obj == Address(old(pageCount), 0) && pageCount == old(pageCount) + 1
      ensures obj !in old(live) && live == old(live) + {obj}
    {
      hide Partition, IsOffset, FreeList, PageList, Above, IsSlot;
      EmptyFree(freed, free, words);
      var page := pageCount;
      var offset: int := ((POOL_SIZE - WORD) / objSize - 1) * objSize;
      LastOffset(objSize);
      PageStart(free, live, page, objSize, offset);
      while offset > 0
        invariant offset >= 0 && offset % objSize == 0 && offset + objSize <= POOL_SIZE - WORD
        invariant pages == old(pages) && pageCount == page && live == old(live)
        invariant FreeList(freed, free, words) && PageList(pages, page, words)
        invariant Above(free, live, page, objSize, offset)
      {
        var entry := Address(page, offset);
        PageStep(free, live, page, objSize, offset);
        PushFree(freed, free, words, entry);
        KeepPages(pages, page, words, entry, freed);
        words := words[entry := freed];
        freed := Some(entry);
        free := [entry] + free;
        offset := offset - objSize;
      }
      PageDone(free, live, page, objSize);
      KeepFree(freed, free, words, page, pages);
      PushPage(pages, page, words);
      words := words[PageLink(page) := pages];
      pages := Some(Address(page, 0));
      pageCount := pageCount + 1;
      obj := Address(page, 0);
      live := live + {obj};
    }

    // The object must be live; it is the next to be handed out.
    method Free(obj: Address)
      requires Valid() && obj in live
      modifies this
      ensures Valid() && live == old(live) - {obj} && freed == Some(obj)
    {
      ReturnLive(free, live, pageCount, objSize, obj);
      PushFree(freed, free, words, obj);
      KeepPages(pages, pageCount, words, obj, freed);
      words := words[obj := freed];
      freed := Some(obj);
      free := [obj] + free;
      live := live - {obj};
    }

    // The owner of an object may leave anything in its bytes.
    method Write(obj: Address, after: map<Address, Link>)
      requires Valid() && obj in live && after.Keys == words.Keys
      requires forall a :: a in words && !Overlap(a, WORD, obj, objSize) ==> after[a] == words[a]
      modifies this`words
      ensures Valid() && words == after
    {
      hide Overlap, IsSlot, Distinct, Partition, PageList, FreeList;
      WriteApart(free, live, pageCount, objSize, obj);
      WriteKeeps(freed, free, pages, pageCount, words, after);
      words := after;
    }

    // pb_freepool: every page is released, and none twice.
    method FreePool() returns (released: seq<nat>)
      requires Valid()
      modifies this
      ensures Valid() && live == {} && pageCount == 0
      ensures |released| == old(pageCount) && forall i :: 0 <= i < |released| ==> released[i] == old(pageCount) - 1 - i
    {
      released := [];
      var page := pages;
      while page != None
        invariant |released| <= pageCount && PageList(pages, pageCount, words)
        invariant page == if |released| == pageCount then None else Some(Address(pageCount - 1 - |released|, 0))
        invariant forall i :: 0 <= i < |released| ==> released[i] == pageCount - 1 - i
        decreases pageCount - |released|
      {
        var next := words[PageLink(page.value.page)];
        released := released + [page.value.page];
        page := next;
      }
      words, freed, pages, pageCount := map[], None, None, 0;
      free, live := [], {};
    }
  }

  // ---- what each step keeps ----

  lemma AllDisjoint(obj: Address, live: set<Address>, pages: nat, s: nat)
    requires SlotSize(s) && obj in live && forall a :: a in live ==> IsSlot(a, pages, s)
    ensures forall a :: a in live && a != obj ==> !Overlap(obj, s, a, s)
  {
    forall a | a in live && a != obj
      ensures !Overlap(obj, s, a, s)
    {
      SlotsDisjoint(obj, a, pages, s);
    }
  }

  lemma TakeFree(free: seq<Address>, live: set<Address>, pages: nat, s: nat)
    requires s > 0 && free != [] && Partition(free, live, pages, s)
    ensures Partition(free[1..], live + {free[0]}, pages, s) && IsSlot(free[0], pages, s) && free[0] !in live
  {
    hide IsSlot;
    assert forall a :: a in free <==> a == free[0] || a in free[1..];
  }

  lemma ReturnLive(free: seq<Address>, live: set<Address>, pages: nat, s: nat, obj: Address)
    requires s > 0 && obj in live && Partition(free, live, pages, s)
    ensures Partition([obj] + free, live - {obj}, pages, s) && obj !in free
  {
    hide IsSlot;
    assert forall a :: a in [obj] + free <==> a == obj || a in free;
  }

  // The slots of the new page above an offset are free.
  ghost predicate Above(free: seq<Address>, live: set<Address>, page: nat, s: nat, offset: int)
    requires s > 0
  {
    && offset + s <= POOL_SIZE - WORD && Distinct(free) && (forall a :: a in live ==> a.page < page)
    && (forall a :: a in free ==> a.page == page && a.offset > offset)
    && (forall a: Address :: a in live <==> IsSlot(a, page, s))
    && (forall o: int :: o > offset ==> (IsOffset(o, s) <==> o >= 0 && Address(page, o) in free))
  }

  lemma PageStart(free: seq<Address>, live: set<Address>, page: nat, s: nat, last: int)
    requires SlotSize(s) && free == [] && Partition(free, live, page, s)
    requires IsOffset(last, s) && forall o: int :: IsOffset(o, s) ==> o <= last
    ensures last >= 0 && last % s == 0 && last + s <= POOL_SIZE - WORD && Above(free, live, page, s, last)
  {
  }

  lemma PageStep(free: seq<Address>, live: set<Address>, page: nat, s: nat, offset: nat)
    requires SlotSize(s) && offset > 0 && offset % s == 0 && Above(free, live, page, s, offset)
    ensures offset >= s && (offset - s) % s == 0 && Address(page, offset) !in free
    ensures Above([Address(page, offset)] + free, live, page, s, offset - s)
  {
    MultiplesApart(0, offset, s);
    MultipleBelow(offset, s);
    hide IsSlot;
    var free' := [Address(page, offset)] + free;
    assert forall a :: a in free' <==> a == Address(page, offset) || a in free;
    forall o: int | o > offset - s
      ensures IsOffset(o, s) <==> o >= 0 && Address(page, o) in free'
    {
      if o < offset && IsOffset(o, s) {
        MultiplesApart(o, offset, s);
      }
    }
  }

  lemma PageDone(free: seq<Address>, live: set<Address>, page: nat, s: nat)
    requires SlotSize(s) && Above(free, live, page, s, 0)
    ensures Partition(free, live + {Address(page, 0)}, page + 1, s)
    ensures Address(page, 0) !in live && forall a :: a in free ==> a.offset + s <= POOL_SIZE - WORD
  {
    assert IsOffset(0, s);
    forall a | a in free
      ensures IsOffset(a.offset, s)
    {
      assert Address(page, a.offset) == a;
    }
    hide IsOffset;
    forall a: Address
      ensures a in free || a in live + {Address(page, 0)} <==> IsSlot(a, page + 1, s)
    {
      if a.page == page {
        assert Address(page, a.offset) == a;
      }
    }
  }

  // ---- what each write keeps ----

  lemma PushFree(head: Link, free: seq<Address>, words: map<Address, Link>, obj: Address)
    requires FreeList(head, free, words) && obj !in free
    ensures FreeList(Some(obj), [obj] + free, words[obj := head])
  {
    var list := [obj] + free;
    forall i | 0 <= i < |list|
      ensures list[i] in words[obj := head] && words[obj := head][list[i]] == ListAt(list, i + 1)
    {
      if i > 0 {
        assert list[i] == free[i - 1];
        assert free[i - 1] in words && words[free[i - 1]] == ListAt(free, i) == ListAt(list, i + 1);
      }
    }
  }

  lemma WriteKeeps(head: Link, free: seq<Address>, pages: Link, pageCount: nat,
                   words: map<Address, Link>, after: map<Address, Link>)
    requires FreeList(head, free, words) && PageList(pages, pageCount, words) && after.Keys == words.Keys
    requires forall a :: a in free && a in words ==> after[a] == words[a]
    requires forall p: nat :: PageLink(p) in words ==> after[PageLink(p)] == words[PageLink(p)]
    ensures FreeList(head, free, after) && PageList(pages, pageCount, after)
  {
  }

  lemma EmptyFree(head: Link, free: seq<Address>, words: map<Address, Link>)
    requires FreeList(head, free, words) && head == None
    ensures free == []
  {
  }

  lemma PopFree(head: Link, free: seq<Address>, words: map<Address, Link>)
    requires FreeList(head, free, words) && free != []
    ensures free[0] in words && head == Some(free[0]) && FreeList(words[free[0]], free[1..], words)
  {
    var rest := free[1..];
    assert free[0] in words && words[free[0]] == ListAt(free, 1) == ListAt(rest, 0);
    forall i | 0 <= i < |rest|
      ensures rest[i] in words && words[rest[i]] == ListAt(rest, i + 1)
    {
      assert rest[i] == free[i + 1];
      assert free[i + 1] in words && words[free[i + 1]] == ListAt(free, i + 2) == ListAt(rest, i + 1);
    }
  }

  lemma KeepPages(head: Link, pages: nat, words: map<Address, Link>, a: Address, v: Link)
    requires PageList(head, pages, words) && a.offset < POOL_SIZE - WORD
    ensures PageList(head, pages, words[a := v])
  {
  }

  lemma PushPage(head: Link, pages: nat, words: map<Address, Link>)
    requires PageList(head, pages, words)
    ensures PageList(Some(Address(pages, 0)), pages + 1, words[PageLink(pages) := head])
  {
  }

  lemma KeepFree(head: Link, free: seq<Address>, words: map<Address, Link>, page: nat, v: Link)
    requires FreeList(head, free, words) && forall a :: a in free ==> a.offset < POOL_SIZE - WORD
    ensures FreeList(head, free, words[PageLink(page) := v])
  {
  }

  lemma WriteApart(free: seq<Address>, live: set<Address>, pages: nat, s: nat, obj: Address)
    requires SlotSize(s) && obj in live && Partition(free, live, pages, s)
    ensures forall a :: a in free ==> !Overlap(a, WORD, obj, s)
    ensures forall p: nat :: !Overlap(PageLink(p), WORD, obj, s)
  {
    forall a | a in free
      ensures !Overlap(a, WORD, obj, s)
    {
      SlotsDisjoint(a, obj, pages, s);
    }
    forall p: nat
      ensures !Overlap(PageLink(p), WORD, obj, s)
    {
      SlotClearOfLinks(obj, p, pages, s);
    }
  }
}
