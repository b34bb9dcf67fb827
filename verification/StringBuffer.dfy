// The growing string buffer of lua_cjson (strbuf.h, strbuf.c), with its exponential growth.
module StringBuffer {
  import opened Arith

  const DEFAULT_SIZE: nat := 1023
  const GROWTH: nat := 2

  class StrBuf {
    var buf: array<Byte>
    var size: nat
    var length: nat
    var reallocs: nat

    // There is always room for a terminator.
    ghost predicate Valid()
      reads this
    {
      buf.Length == size && length < size
    }

    ghost function Text(): seq<Byte>
      reads this, buf
      requires Valid()
    {
      buf[..length]
    }

    constructor (len: nat)
      ensures Valid() && fresh(buf) && Text() == [] && size == (if len == 0 then DEFAULT_SIZE else len + 1)
    {
      size := if len == 0 then DEFAULT_SIZE else len + 1;
      buf := new Byte[if len == 0 then DEFAULT_SIZE else len + 1](_ => 0);
      length, reallocs := 0, 0;
    }

    method Reset()
      requires Valid()
      modifies this`length
      ensures Valid() && Text() == []
    {
      length := 0;
    }

    function EmptyLength(): (n: nat)
      reads this
      requires Valid()
    {
      size - length - 1
    }

    // The least size, doubling, that holds len bytes and a terminator; or exactly that to shrink.
    method CalculateNewSize(len: nat) returns (newSize: nat)
      requires Valid() && len > 0
      ensures newSize > len
      ensures if size > len + 1 then newSize == len + 1 else exists k: nat :: newSize == size * Pow(GROWTH, k)
      ensures size <= len + 1 ==> newSize == size || newSize < 2 * (len + 1)
    {
      var reqSize := len + 1;
      if size > reqSize { return reqSize; }
      newSize := size;
      ghost var k: nat := 0;
      assert Pow(GROWTH, 0) == 1;
      while newSize < reqSize
        invariant newSize > 0 && newSize == size * Pow(GROWTH, k)
        invariant newSize == size || newSize < 2 * reqSize
        decreases reqSize - newSize
      {
        newSize := newSize * GROWTH;
        assert Pow(GROWTH, k + 1) == GROWTH * Pow(GROWTH, k);
        MulAssoc(size, GROWTH, Pow(GROWTH, k));
        MulAssoc(GROWTH, size, Pow(GROWTH, k));
        MulCommute(size, GROWTH);
        k := k + 1;
      }
    }

    // realloc: the text is kept.
    method Resize(len: nat)
      requires Valid() && len > 0 && len >= length
      modifies this
      ensures Valid() && fresh(buf) && Text() == old(Text()) && size > len
    {
      var newSize := CalculateNewSize(len);
      var larger := new Byte[newSize](_ => 0);
      forall i | 0 <= i < length {
        larger[i] := buf[i];
      }
      size := newSize;
      buf := larger;
      reallocs := reallocs + 1;
    }

    method EnsureEmptyLength(len: nat)
      requires Valid()
      modifies this
      ensures Valid() && (buf == old(buf) || fresh(buf)) && Text() == old(Text())
      ensures EmptyLength() >= len && size >= old(size)
    {
      if len > EmptyLength() {
        Resize(length + len);
      }
    }

    // Nothing here looks at the size: the caller must know that there is room.
    method AppendCharUnsafe(c: Byte)
      requires Valid() && EmptyLength() >= 1
      modifies this`length, buf
      ensures Valid() && Text() == old(Text()) + [c]
    {
      buf[length] := c;
      length := length + 1;
      assert buf[..length] == old(buf[..length]) + [c];
    }

    method AppendMemUnsafe(c: seq<Byte>)
      requires Valid() && EmptyLength() >= |c|
      modifies this`length, buf
      ensures Valid() && Text() == old(Text()) + c
    {
      forall i | 0 <= i < |c| {
        buf[length + i] := c[i];
      }
      length := length + |c|;
      assert buf[..length] == old(buf[..length]) + c;
    }

    method AppendChar(c: Byte)
      requires Valid()
      modifies this, buf
      ensures Valid() && (buf == old(buf) || fresh(buf)) && Text() == old(Text()) + [c] && size >= old(size)
    {
      EnsureEmptyLength(1);
      AppendCharUnsafe(c);
    }

    method AppendMem(c: seq<Byte>)
      requires Valid()
      modifies this, buf
      ensures Valid() && (buf == old(buf) || fresh(buf)) && Text() == old(Text()) + c && size >= old(size)
    {
      EnsureEmptyLength(|c|);
      AppendMemUnsafe(c);
    }

    // One character at a time, growing whenever there is no space left.
    method AppendString(str: seq<Byte>)
      requires Valid()
      modifies this, buf
      ensures Valid() && (buf == old(buf) || fresh(buf)) && Text() == old(Text()) + str && size >= old(size)
      ensures old(EmptyLength()) >= |str| ==> buf == old(buf) && size == old(size)
    {
      var space := EmptyLength();
      var i: nat := 0;
      while i < |str|
        invariant i <= |str| && Valid() && space == EmptyLength() && size >= old(size)
        invariant buf == old(buf) || fresh(buf)
        invariant Text() == old(Text()) + str[..i]
        invariant old(EmptyLength()) >= |str| ==> buf == old(buf) && size == old(size) && length == old(length) + i
      {
        if space < 1 {
          Resize(length + 1);
          space := EmptyLength();
        }
        ghost var before := Text();
        buf[length] := str[i];
        length := length + 1;
        space := space - 1;
        assert Text() == before + [str[i]];
        assert str[..i + 1] == str[..i] + [str[i]];
        i := i + 1;
      }
    }

    method String() returns (s: seq<Byte>)
      requires Valid()
      ensures s == Text()
    {
      return buf[..length];
    }

    method EnsureNull()
      requires Valid()
      modifies buf
      ensures Valid() && Text() == old(Text()) && buf[length] == 0
    {
      buf[length] := 0;
    }
  }
}
