// The output buffer of lua_pb.h, which starts inside the object and moves to the heap, and the
// length prefix that is put in front of what has already been written.
module PbBuffer {
  import opened Arith
  import opened Varint
  import opened Groups

  const SSO_SIZE: nat := 16
  const HALF_MAX: nat := 2147483597

  class Buffer {
    var buff: array<Byte>
    var size: nat

    ghost predicate Valid()
      reads this
    {
      size <= buff.Length && buff.Length >= SSO_SIZE
    }

    ghost function Text(): seq<Byte>
      reads this, buff
      requires Valid()
    {
      buff[..size]
    }

    constructor ()
      ensures Valid() && Text() == [] && fresh(buff)
    {
      buff, size := new Byte[SSO_SIZE](_ => 0), 0;
    }

    // Room for len more bytes; it grows by halves, and gives up only beyond 2^31.
    method Prepare(len: nat) returns (ok: bool)
      requires Valid()
      modifies this`buff
      ensures Valid() && (buff == old(buff) || fresh(buff)) && Text() == old(Text())
      ensures ok ==> size + len <= buff.Length
      ensures size + len <= 2147483597 ==> ok
      ensures !ok ==> buff == old(buff)
    {
      if size + len <= buff.Length { return true; }
      var expected := size + len;
      var newSize := SSO_SIZE;
      while newSize < HALF_MAX && newSize < expected
        invariant newSize >= SSO_SIZE
        decreases expected - newSize
      {
        newSize := newSize + newSize / 2;
      }
      if newSize < expected { return false; }
      var larger := new Byte[newSize](_ => 0);
      forall i | 0 <= i < size {
        larger[i] := buff[i];
      }
      buff := larger;
      return true;
    }

    method AddSlice(s: seq<Byte>) returns (n: nat)
      requires Valid()
      modifies this, buff
      ensures Valid() && (buff == old(buff) || fresh(buff))
      ensures (Text() == old(Text()) + s && n == |s|) || (Text() == old(Text()) && n == 0 && size + |s| > 2147483597)
    {
      var ok := Prepare(|s|);
      if !ok { return 0; }
      forall i | 0 <= i < |s| {
        buff[size + i] := s[i];
      }
      size := size + |s|;
      assert buff[..size] == old(Text()) + s;
      return |s|;
    }

    // pb_addlength: what has been written from len on moves up, and its length goes in front.
    method AddLength(len: nat) returns (n: nat)
      requires Valid() && size < U64_MOD
      modifies this, buff
      ensures Valid() && (buff == old(buff) || fresh(buff))
      ensures n == 0 ==> Text() == old(Text()) && (len > size || size + 10 > 2147483597)
      ensures n > 0 ==> len <= old(size) && n == |Write(old(size) - len)|
      ensures n > 0 ==> Text() == old(Text())[..len] + (Write(old(size) - len) + old(Text())[len..])
    {
      if size < len { return 0; }
      var prefix := Write64(size - len);
      var ok := Prepare(|prefix|);
      if !ok { return 0; }
      n := |prefix|;
      InsertAt(len, prefix);
    }

    method InsertAt(len: nat, prefix: seq<Byte>)
      requires Valid() && len <= size && size + |prefix| <= buff.Length
      modifies this`size, buff
      ensures Valid() && Text() == old(Text())[..len] + (prefix + old(Text())[len..])
    {
      ghost var text := Text();
      MoveUp(buff, len, size, |prefix|);
      ghost var middle := buff[..];
      assert middle[..len] == text[..len] && middle[len + |prefix|..size + |prefix|] == text[len..];
      CopyIn(buff, len, prefix);
      Assembled(text, prefix, len, middle, buff[..]);
      size := size + |prefix|;
      assert buff[..size] == buff[..][..size];
    }
  }

  lemma Assembled(text: seq<Byte>, prefix: seq<Byte>, len: nat, middle: seq<Byte>, end: seq<Byte>)
    requires len <= |text| && |text| + |prefix| <= |middle| == |end|
    requires middle[..len] == text[..len] && middle[len + |prefix|..|text| + |prefix|] == text[len..]
    requires end[..len] == middle[..len] && end[len..len + |prefix|] == prefix
             && end[len + |prefix|..] == middle[len + |prefix|..]
    ensures end[..|text| + |prefix|] == text[..len] + (prefix + text[len..])
  {
    var n, m := len + |prefix|, |text| + |prefix|;
    assert end[n..m] == end[n..][..m - n] == middle[n..][..m - n] == middle[n..m];
    assert end[..m] == end[..len] + (end[len..n] + end[n..m]);
  }

  // memmove of [len, size) by n bytes.
  method MoveUp(buff: array<Byte>, len: nat, size: nat, n: nat)
    requires len <= size && size + n <= buff.Length
    modifies buff
    ensures buff[..][..len] == old(buff[..len]) && buff[..][len + n..size + n] == old(buff[len..size])
  {
    var i := size;
    while i > len
      invariant len <= i <= size
      invariant buff[..i] == old(buff[..i]) && buff[i + n..size + n] == old(buff[i..size])
    {
      i := i - 1;
      ghost var moved := buff[i + 1 + n..size + n];
      buff[i + n] := buff[i];
      assert buff[i + n..size + n] == [buff[i + n]] + moved;
      assert old(buff[i..size]) == [old(buff[i])] + old(buff[i + 1..size]);
    }
  }

  method CopyIn(buff: array<Byte>, at: nat, s: seq<Byte>)
    requires at + |s| <= buff.Length
    modifies buff
    ensures buff[..][..at] == old(buff[..][..at]) && buff[..][at..at + |s|] == s
            && buff[..][at + |s|..] == old(buff[..][at + |s|..])
  {
    forall i | 0 <= i < |s| {
      buff[at + i] := s[i];
    }
  }

  // What pb_addlength leaves is read back as one length-delimited value, whatever comes after.
  lemma PrefixedIsOneValue(payload: seq<Byte>, rest: seq<Byte>)
    requires |payload| < U64_MOD
    ensures BytesLen(Write(|payload|) + payload + rest) == |Write(|payload|)| + |payload|
  {
    hide Read, Write;
    assert Write(|payload|) + payload + rest == Write(|payload|) + (payload + rest);
    WrittenIsRead(|payload|, payload + rest);
  }
}
