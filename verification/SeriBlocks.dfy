// The buffers of lua_seri.c: output goes to a chain of 128-byte blocks that is flattened at the
// end, input is a cursor over one string.
module SeriBlocks {
  import opened Arith
  import opened Reading

  const BLOCK_SIZE: nat := 128

  class Block {
    const buffer: array<Byte>
    var next: Block?

    constructor ()
      ensures fresh(buffer) && buffer.Length == BLOCK_SIZE && next == null
    {
      buffer := new Byte[BLOCK_SIZE](_ => 0);
      next := null;
    }
  }

  class WriteBlock {
    var head: Block
    var current: Block
    var len: nat
    var ptr: nat
    ghost var chain: seq<Block>
    ghost var text: seq<Byte>

    ghost var Repr: set<object>

    // Every block but the last is full, and the blocks in order hold the text.
    ghost predicate Valid()
      reads this, chain, Repr
    {
      && Repr == Owned(this, chain)
      && |chain| > 0 && head == chain[0] && current == chain[|chain| - 1]
      && Linked(chain)
      && ptr <= BLOCK_SIZE && len == |text| == BLOCK_SIZE * (|chain| - 1) + ptr
      && (forall i :: 0 <= i < |chain| - 1 ==> chain[i].buffer[..] == text[BLOCK_SIZE * i..][..BLOCK_SIZE])
      && current.buffer[..ptr] == text[BLOCK_SIZE * (|chain| - 1)..]
    }

    constructor ()
      ensures Valid() && text == [] && fresh(Repr)
    {
      var b := new Block();
      head, current, len, ptr := b, b, 0, 0;
      chain, text := [b], [];
      new;
      Repr := Owned(this, chain);
    }

    // However long, across as many new blocks as it takes.
    method Push(buf: seq<Byte>)
      requires Valid()
      modifies Repr
      ensures Valid() && text == old(text) + buf && fresh(Repr - old(Repr))
    {
      hide Valid, Owned;
      CurrentIsOwn();
      if ptr == BLOCK_SIZE {
        NewBlock();
      }
      var rest := buf;
      assert text + rest == old(text) + buf;
      while ptr > BLOCK_SIZE - |rest|
        invariant Valid() && ptr < BLOCK_SIZE && text + rest == old(text) + buf
        invariant fresh(Repr - old(Repr))
        decreases |rest|
      {
        CurrentIsOwn();
        var copy := BLOCK_SIZE - ptr;
        assert text + rest == text + rest[..copy] + rest[copy..];
        Fill(rest[..copy]);
        rest := rest[copy..];
        CurrentIsOwn();
        NewBlock();
      }
      CurrentIsOwn();
      Fill(rest);
    }

    lemma CurrentIsOwn()
      requires Valid()
      ensures this in Repr && current in Repr && current.buffer in Repr
      ensures ptr <= BLOCK_SIZE
    {
      assert current in chain;
    }

    method NewBlock()
      requires Valid() && ptr == BLOCK_SIZE
      modifies this, current
      ensures Valid() && ptr == 0 && text == old(text) && fresh(Repr - old(Repr))
    {
      hide Owned;
      var b := new Block();
      current.next := b;
      chain := chain + [b];
      current := b;
      ptr := 0;
      OwnedGrows(this, old(chain), b);
      Repr := Owned(this, chain);
    }

    // memcpy into the current block.
    method Fill(chunk: seq<Byte>)
      requires Valid() && ptr + |chunk| <= BLOCK_SIZE
      modifies this, current.buffer
      ensures Valid() && text == old(text) + chunk && chain == old(chain) && ptr == old(ptr) + |chunk|
      ensures Repr == old(Repr)
    {
      forall i | 0 <= i < |chunk| {
        current.buffer[ptr + i] := chunk[i];
      }
      ghost var last := BLOCK_SIZE * (|chain| - 1);
      text := text + chunk;
      len := len + |chunk|;
      ptr := ptr + |chunk|;
      assert current.buffer[..ptr] == old(current.buffer[..ptr]) + chunk;
      assert text[last..] == old(text[last..]) + chunk;
      forall i | 0 <= i < |chain| - 1
        ensures chain[i].buffer[..] == text[BLOCK_SIZE * i..][..BLOCK_SIZE]
      {
        assert chain[i].buffer[..] == old(chain[i].buffer[..]);
        assert text[BLOCK_SIZE * i..][..BLOCK_SIZE] == old(text)[BLOCK_SIZE * i..][..BLOCK_SIZE];
      }
    }

    lemma FollowLink(i: nat)
      requires Valid() && i < |chain|
      ensures chain[i].next == if i + 1 < |chain| then chain[i + 1] else null
    {
    }

    // Walks the chain and copies it into one buffer.
    method Flatten() returns (buffer: array<Byte>)
      requires Valid()
      ensures buffer[..] == text
    {
      buffer := new Byte[len](_ => 0);
      var left: nat := len;
      var at: nat := 0;
      var b: Block? := head;
      ghost var i: nat := 0;
      while left > 0
        invariant left + at == len && at == BLOCK_SIZE * i && i <= |chain|
        invariant Valid() && fresh(buffer) && buffer.Length == len
        invariant b == if i < |chain| then chain[i] else null
        invariant buffer[..at] == text[..at]
      {
        if left >= BLOCK_SIZE {
          Copy(b.buffer, buffer, at, BLOCK_SIZE);
          Extended(buffer[..], text, at, BLOCK_SIZE);
          at := at + BLOCK_SIZE;
          left := left - BLOCK_SIZE;
          FollowLink(i);
          b := b.next;
          i := i + 1;
        } else {
          Copy(b.buffer, buffer, at, left);
          Extended(buffer[..], text, at, left);
          break;
        }
      }
    }
  }

  ghost function Owned(w: WriteBlock, chain: seq<Block>): set<object> {
    {w} + (set b: Block | b in chain :: b as object) + (set b: Block | b in chain :: b.buffer as object)
  }

  lemma OwnedGrows(w: WriteBlock, chain: seq<Block>, b: Block)
    ensures Owned(w, chain + [b]) == Owned(w, chain) + {b, b.buffer}
  {
    forall x | x in chain
      ensures x in chain + [b]
    {
    }
    assert b in chain + [b];
  }

  // The links follow the chain, and no two blocks share anything.
  ghost predicate Linked(chain: seq<Block>)
    reads chain
  {
    && (forall i :: 0 <= i < |chain| ==> chain[i].buffer.Length == BLOCK_SIZE)
    && (forall i, j :: 0 <= i < j < |chain| ==> chain[i] != chain[j] && chain[i].buffer != chain[j].buffer)
    && (forall i :: 0 <= i < |chain| ==> chain[i].next == if i + 1 < |chain| then chain[i + 1] else null)
  }

  method Copy(from: array<Byte>, to: array<Byte>, at: nat, n: nat)
    requires from != to && n <= from.Length && at + n <= to.Length
    modifies to
    ensures to[..at] == old(to[..at]) && to[at..][..n] == from[..n]
  {
    forall i | 0 <= i < n {
      to[at + i] := from[i];
    }
  }

  lemma Extended(s: seq<Byte>, text: seq<Byte>, at: nat, n: nat)
    requires at + n <= |s| && at + n <= |text|
    requires s[..at] == text[..at] && s[at..][..n] == text[at..][..n]
    ensures s[..at + n] == text[..at + n]
  {
    assert s[..at + n] == s[..at] + s[at..][..n];
    assert text[..at + n] == text[..at] + text[at..][..n];
  }

  // The cursor of the reader.
  class ReadBlock {
    const buffer: seq<Byte>
    var len: nat
    var ptr: nat

    ghost predicate Valid()
      reads this
    {
      ptr + len == |buffer|
    }

    ghost function Rest(): seq<Byte>
      requires Valid()
      reads this
    {
      buffer[ptr..]
    }

    constructor (buffer: seq<Byte>)
      ensures Valid() && Rest() == buffer
    {
      this.buffer, len, ptr := buffer, |buffer|, 0;
    }

    method Read(sz: nat) returns (r: Option<seq<Byte>>)
      requires Valid()
      modifies this
      ensures Valid()
      ensures if |old(Rest())| < sz then r == None && Rest() == old(Rest())
              else r == Some(old(Rest())[..sz]) && Rest() == old(Rest())[sz..]
    {
      if len < sz { return None; }
      var p := ptr;
      ptr := ptr + sz;
      len := len - sz;
      assert buffer[p..][..sz] == buffer[p..ptr];
      return Some(buffer[p..p + sz]);
    }
  }
}
