// Where the extent of a protobuf group depends on what follows it (lua_pb.h).  A value that cannot be
// skipped is passed over, so a group can end at a tag that more bytes would turn into part of a value.
module GroupExtent {
  import opened Arith
  import opened Reading
  import opened Varint
  import opened Groups

  // The first end tag that is not inside a value: the bytes before it, those with it, and its number.
  datatype End = End(body: nat, all: nat, number: nat)

  function FirstEnd(s: seq<Byte>): (r: Option<End>)
    ensures r.Some? ==> r.value.all <= |s|
    decreases |s|
  {
    match Next(s)
    case None => None
    case Some((x, count)) =>
      var t := x % U32_MOD;
      if TypeOfTag(t) == T_GEND then Some(End(0, count, NumberOfTag(t)))
      else
        var k := count + SkipLen(s[count..], t);
        Farther(FirstEnd(s[k..]), k)
  }

  // With k bytes more in front.
  function Farther(r: Option<End>, k: nat): Option<End> {
    match r
    case None => None
    case Some(e) => Some(End(k + e.body, k + e.all, e.number))
  }

  // On the way to the first end tag, inner groups included, no value of fixed or announced length lacks
  // bytes.  Values of unknown types and inner groups with the wrong end tag may fail.
  predicate Settled(s: seq<Byte>)
    decreases |s|
  {
    match Next(s)
    case None => true
    case Some((x, count)) =>
      var t, r := x % U32_MOD, s[count..];
      TypeOfTag(t) == T_GEND || (
        && (HasLength(t) ==> SkipLen(r, t) > 0)
        && (TypeOfTag(t) == T_GSTART ==> Settled(r))
        && Settled(s[count + SkipLen(r, t)..]))
  }

  // The length of such a value is fixed, or comes ahead of it.
  predicate HasLength(tag: nat) {
    TypeOfTag(tag) == T_64BIT || TypeOfTag(tag) == T_32BIT || TypeOfTag(tag) == T_BYTES
  }

  // ---- one tag ----

  lemma EndStep(s: seq<Byte>, t: nat, count: nat)
    requires Tagged(s, t, count)
    ensures TypeOfTag(t) == T_GEND ==> FirstEnd(s) == Some(End(0, count, NumberOfTag(t)))
    ensures TypeOfTag(t) != T_GEND ==>
              var k := count + SkipLen(s[count..], t);
              FirstEnd(s) == Farther(FirstEnd(s[k..]), k)
  {
    hide Next, SkipLen, TypeOfTag, NumberOfTag;
  }

  lemma SettledStep(s: seq<Byte>, t: nat, count: nat)
    requires Tagged(s, t, count) && TypeOfTag(t) != T_GEND
    ensures var r := s[count..];
            Settled(s) <==>
              && (HasLength(t) ==> SkipLen(r, t) > 0)
              && (TypeOfTag(t) == T_GSTART ==> Settled(r))
              && Settled(s[count + SkipLen(r, t)..])
  {
    hide Next, SkipLen, TypeOfTag, HasLength;
  }

  lemma TagOf(s: seq<Byte>) returns (t: nat, count: nat)
    requires FirstEnd(s).Some?
    ensures Tagged(s, t, count)
  {
    hide SkipLen, Next;
    t, count := Next(s).value.0 % U32_MOD, Next(s).value.1;
  }

  lemma TaggedExtends(s: seq<Byte>, t: nat, count: nat, more: seq<Byte>)
    requires Tagged(s, t, count)
    ensures Tagged(s + more, t, count) && (s + more)[count..] == s[count..] + more
  {
    hide Next;
    NextExtends(s, more);
  }

  lemma FartherParts(r: Option<End>, k: nat)
    ensures Farther(r, k).Some? == r.Some?
    ensures r.Some? ==> Farther(r, k).value == End(k + r.value.body, k + r.value.all, r.value.number)
  {
  }

  // A scan is the first end tag, if it has the right number.
  lemma {:induction false} ScanIsFirstEnd(s: seq<Byte>, tag: nat)
    ensures GroupScan(s, tag).Some? <==> FirstEnd(s).Some? && FirstEnd(s).value.number == NumberOfTag(tag)
    ensures GroupScan(s, tag).Some? ==> GroupScan(s, tag).value == (FirstEnd(s).value.body, FirstEnd(s).value.all)
    decreases |s|
  {
    hide *;
    if Next(s).None? {
      NoTagNoEnd(s, tag);
    } else {
      var t, count := NextTag(s);
      EndStep(s, t, count);
      ScanStep(s, tag, t, count);
      if TypeOfTag(t) != T_GEND {
        var k := count + SkipLen(s[count..], t);
        ScanIsFirstEnd(s[k..], tag);
        FartherParts(FirstEnd(s[k..]), k);
        Shifted(GroupScan(s[k..], tag), k);
      }
    }
  }

  lemma NoTagNoEnd(s: seq<Byte>, tag: nat)
    requires Next(s).None?
    ensures GroupScan(s, tag).None? && FirstEnd(s).None?
  {
    hide Next, SkipLen;
  }

  lemma NextTag(s: seq<Byte>) returns (t: nat, count: nat)
    requires Next(s).Some?
    ensures Tagged(s, t, count)
  {
    hide Next;
    t, count := Next(s).value.0 % U32_MOD, Next(s).value.1;
  }

  // ---- a value whose bytes are there is skipped alike, whatever follows ----

  lemma {:induction false} NoVarintNoTag(s: seq<Byte>, k: nat)
    requires VarintLen(s) == 0
    ensures Read(s, k).None?
    decreases k
  {
    if s != [] && k > 0 {
      NoVarintNoTag(s[1..], k - 1);
    }
  }

  lemma BytesExtends(r: seq<Byte>, more: seq<Byte>)
    requires BytesLen(r) > 0
    ensures BytesLen(r + more) == BytesLen(r)
  {
    hide Next;
    NextExtends(r, more);
  }

  // The value of a tag in front of an end tag.
  lemma SkipExtends(r: seq<Byte>, t: nat, more: seq<Byte>)
    requires HasLength(t) ==> SkipLen(r, t) > 0
    requires FirstEnd(r[SkipLen(r, t)..]).Some?
    requires TypeOfTag(t) == T_GSTART && FirstEnd(r).Some? ==> FirstEnd(r + more) == FirstEnd(r)
    ensures SkipLen(r + more, t) == SkipLen(r, t)
  {
    hide Next, BytesLen, VarintLen, GroupScan, FirstEnd;
    assert r[0..] == r;
    if TypeOfTag(t) == T_VARINT {
      if VarintLen(r) == 0 {
        NoVarintNoEnd(r);
      }
      VarintLenExtends(r, more);
    } else if TypeOfTag(t) == T_BYTES {
      BytesExtends(r, more);
    } else if TypeOfTag(t) == T_GSTART {
      ScanIsFirstEnd(r, t);
      ScanIsFirstEnd(r + more, t);
    }
  }

  lemma NoVarintNoEnd(r: seq<Byte>)
    requires VarintLen(r) == 0
    ensures FirstEnd(r).None?
  {
    hide Read, VarintLen;
    NoVarintNoTag(r, 10);
  }

  lemma {:induction false} SettledExtends(s: seq<Byte>, more: seq<Byte>)
    requires FirstEnd(s).Some? && Settled(s)
    ensures FirstEnd(s + more) == FirstEnd(s)
    decreases |s|
  {
    hide *;
    var t, count := TagOf(s);
    TaggedExtends(s, t, count, more);
    EndStep(s, t, count);
    EndStep(s + more, t, count);
    if TypeOfTag(t) != T_GEND {
      SettledStep(s, t, count);
      var r := s[count..];
      var n := SkipLen(r, t);
      FartherParts(FirstEnd(s[count + n..]), count + n);
      assert s[count + n..] == r[n..];
      if TypeOfTag(t) == T_GSTART && FirstEnd(r).Some? {
        SettledExtends(r, more);
      }
      SkipExtends(r, t, more);
      SettledExtends(s[count + n..], more);
      assert (s + more)[count + n..] == s[count + n..] + more;
    }
  }

  // ---- bytes that complete the first value that lacks some ----

  // No end tag is left within the first n bytes.
  ghost predicate EndsBeyond(s: seq<Byte>, n: nat) {
    FirstEnd(s).Some? ==> FirstEnd(s).value.all > n
  }

  lemma {:induction false} Starved(s: seq<Byte>) returns (more: seq<Byte>)
    requires FirstEnd(s).Some? && !Settled(s)
    ensures EndsBeyond(s + more, |s|)
    decreases |s|
  {
    hide *;
    var t, count := TagOf(s);
    EndStep(s, t, count);
    if TypeOfTag(t) == T_GEND {
      EndIsSettled(s, t, count);
      more := [];
    } else {
      SettledStep(s, t, count);
      var r := s[count..];
      var n := SkipLen(r, t);
      FartherParts(FirstEnd(s[count + n..]), count + n);
      assert s[count + n..] == r[n..];
      if HasLength(t) && n == 0 {
        assert r[0..] == r;
        more := Completed(r, t);
        CompletedEnds(s, t, count, more);
      } else if TypeOfTag(t) == T_GSTART && !Settled(r) {
        GroupAhead(r, t);
        more := Starved(r);
        InnerEnds(s, t, count, more);
      } else {
        more := Starved(s[count + n..]);
        if TypeOfTag(t) == T_GSTART && FirstEnd(r).Some? {
          SettledExtends(r, more);
        }
        SkipExtends(r, t, more);
        LaterEnds(s, t, count, more);
      }
    }
  }

  lemma EndIsSettled(s: seq<Byte>, t: nat, count: nat)
    requires Tagged(s, t, count) && TypeOfTag(t) == T_GEND
    ensures Settled(s)
  {
    hide Next, TypeOfTag;
  }

  // An inner group without an end tag leaves the outer one without.
  lemma GroupAhead(r: seq<Byte>, t: nat)
    requires TypeOfTag(t) == T_GSTART && FirstEnd(r[SkipLen(r, t)..]).Some?
    ensures FirstEnd(r).Some?
  {
    hide FirstEnd, GroupScan;
    ScanIsFirstEnd(r, t);
    assert r[0..] == r;
  }

  // The bytes that a value of known length lacks.
  lemma Completed(r: seq<Byte>, t: nat) returns (more: seq<Byte>)
    requires HasLength(t) && SkipLen(r, t) == 0 && FirstEnd(r).Some?
    ensures SkipLen(r + more, t) == |r + more|
  {
    hide Next, FirstEnd;
    if TypeOfTag(t) == T_BYTES {
      var _, _ := TagOf(r);
      var (x, n) := Next(r).value;
      more := seq(n + x % U64_MOD - |r|, _ => 0);
      NextExtends(r, more);
    } else {
      more := seq((if TypeOfTag(t) == T_64BIT then 8 else 4) - |r|, _ => 0);
    }
  }

  lemma CompletedEnds(s: seq<Byte>, t: nat, count: nat, more: seq<Byte>)
    requires Tagged(s, t, count) && TypeOfTag(t) != T_GEND
    requires SkipLen(s[count..] + more, t) == |s[count..] + more|
    ensures EndsBeyond(s + more, |s|)
  {
    hide Next, SkipLen, FirstEnd, TypeOfTag, Farther;
    TaggedExtends(s, t, count, more);
    EndStep(s + more, t, count);
    assert (s + more)[|s + more|..] == [];
    NoEnd();
    FartherParts(None, |s + more|);
  }

  lemma NoEnd()
    ensures FirstEnd([]).None?
  {
  }

  lemma InnerEnds(s: seq<Byte>, t: nat, count: nat, more: seq<Byte>)
    requires Tagged(s, t, count) && TypeOfTag(t) == T_GSTART && EndsBeyond(s[count..] + more, |s| - count)
    ensures EndsBeyond(s + more, |s|)
  {
    hide Next, FirstEnd, TypeOfTag, Farther;
    var r' := s[count..] + more;
    TaggedExtends(s, t, count, more);
    EndStep(s + more, t, count);
    ScanIsFirstEnd(r', t);
    SkipsGroup(r', t);
    var n := SkipLen(r', t);
    hide SkipLen;
    assert (s + more)[count + n..] == r'[n..];
    FartherParts(FirstEnd(r'[n..]), count + n);
    if n == 0 {
      assert r'[0..] == r';
    }
  }

  lemma SkipsGroup(r: seq<Byte>, t: nat)
    requires TypeOfTag(t) == T_GSTART
    ensures SkipLen(r, t) == if GroupScan(r, t).Some? then GroupScan(r, t).value.1 else 0
  {
    hide GroupScan;
  }

  lemma LaterEnds(s: seq<Byte>, t: nat, count: nat, more: seq<Byte>)
    requires Tagged(s, t, count) && TypeOfTag(t) != T_GEND
    requires SkipLen(s[count..] + more, t) == SkipLen(s[count..], t)
    requires var k := count + SkipLen(s[count..], t); EndsBeyond(s[k..] + more, |s| - k)
    ensures EndsBeyond(s + more, |s|)
  {
    hide Next, SkipLen, FirstEnd, TypeOfTag, Farther;
    TaggedExtends(s, t, count, more);
    EndStep(s + more, t, count);
    var k := count + SkipLen(s[count..], t);
    assert (s + more)[k..] == s[k..] + more;
    FartherParts(FirstEnd(s[k..] + more), k);
  }

  // ---- the exact condition ----

  // The first end tag is the same whatever follows, if and only if no value on the way to it lacks bytes.
  lemma EndSettledIff(s: seq<Byte>)
    requires FirstEnd(s).Some?
    ensures Settled(s) <==> forall more :: FirstEnd(s + more) == FirstEnd(s)
  {
    hide *;
    if Settled(s) {
      forall more ensures FirstEnd(s + more) == FirstEnd(s) {
        SettledExtends(s, more);
      }
    } else {
      var more := Starved(s);
      BeyondDiffers(s, more);
    }
  }

  lemma BeyondDiffers(s: seq<Byte>, more: seq<Byte>)
    requires FirstEnd(s).Some? && EndsBeyond(s + more, |s|)
    ensures FirstEnd(s + more) != FirstEnd(s)
  {
  }

  // And so is the extent that pb_readgroup finds.
  lemma ExtentSettledIff(s: seq<Byte>, tag: nat)
    requires GroupScan(s, tag).Some?
    ensures Settled(s) <==> forall more :: GroupScan(s + more, tag) == GroupScan(s, tag)
  {
    hide *;
    ScanIsFirstEnd(s, tag);
    if Settled(s) {
      forall more ensures GroupScan(s + more, tag) == GroupScan(s, tag) {
        SettledExtends(s, more);
        ScanIsFirstEnd(s + more, tag);
      }
    } else {
      var more := Starved(s);
      ScanIsFirstEnd(s + more, tag);
      ScanBeyond(s, more, tag);
      assert GroupScan(s + more, tag) != GroupScan(s, tag);
    }
  }

  lemma ScanBeyond(s: seq<Byte>, more: seq<Byte>, tag: nat)
    requires GroupScan(s, tag).Some? && EndsBeyond(s + more, |s|)
    requires GroupScan(s + more, tag).Some? ==>
               FirstEnd(s + more).Some? && GroupScan(s + more, tag).value.1 == FirstEnd(s + more).value.all
    ensures GroupScan(s + more, tag) != GroupScan(s, tag)
  {
    hide FirstEnd;
  }

  // ---- clean groups are settled, but not only these ----

  lemma {:induction false} CleanIsSettled(s: seq<Byte>, tag: nat)
    requires CleanBody(s, tag)
    ensures Settled(s)
    decreases |s|
  {
    hide *;
    var t, count := FirstTag(s, tag);
    CleanStep(s, tag, t, count);
    if TypeOfTag(t) == T_GEND {
      EndIsSettled(s, t, count);
    } else {
      SettledStep(s, t, count);
      CleanOutside(s[count..], t);
      if TypeOfTag(t) == T_GSTART {
        CleanIsSettled(s[count..], t);
      }
      CleanIsSettled(s[count + SkipLen(s[count..], t)..], tag);
    }
  }

  // An inner group with the end tag of the outer one: it fails, but more bytes do not mend it.
  lemma SettledNotClean()
    ensures GroupScan([0x13, 0x0C], 0x0B) == Some((1, 2))
    ensures Settled([0x13, 0x0C]) && !CleanBody([0x13, 0x0C], 0x0B)
  {
    hide Next, GroupScan, CleanBody, Clean, Settled;
    var s: seq<Byte> := [0x13, 0x0C];
    SmallTag(0x13, [0x0C]);
    SmallTag(0x0C, []);
    assert s == [0x13] + [0x0C] && s[1..] == [0x0C] && [0x0C] + [] == [0x0C];
    ScanStep([0x0C], 0x13, 0x0C, 1);
    ScanStep([0x0C], 0x0B, 0x0C, 1);
    ScanStep(s, 0x0B, 0x13, 1);
    EndIsSettled([0x0C], 0x0C, 1);
    SettledStep(s, 0x13, 1);
    CleanOutside([0x0C], 0x13);
    CleanStep(s, 0x0B, 0x13, 1);
  }
}
