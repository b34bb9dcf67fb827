// Protobuf fields with their wire types in numbers (lua_pb.h): how each is skipped, and how a group of
// them is found.
module WireTypes {
  import opened Arith
  import opened Reading
  import opened Varint
  import opened Groups

  // ---- single values ----

  lemma FixedWidths(s: seq<Byte>, tag: nat)
    ensures tag % 8 == 1 ==> SkipLen(s, tag) == if |s| < 8 then 0 else 8
    ensures tag % 8 == 5 ==> SkipLen(s, tag) == if |s| < 4 then 0 else 4
    ensures tag % 8 == 4 || tag % 8 == 6 || tag % 8 == 7 ==> SkipLen(s, tag) == 0
  {
  }

  lemma {:induction false} WrittenLength(n: nat, rest: seq<Byte>)
    ensures VarintLen(Write(n) + rest) == |Write(n)|
    decreases n
  {
    var s := Write(n) + rest;
    if n >= 128 {
      assert s[1..] == Write(n / 128) + rest;
      WrittenLength(n / 128, rest);
    }
  }

  lemma NumberSkipped(n: nat, rest: seq<Byte>, tag: nat)
    requires tag % 8 == 0
    ensures SkipLen(Write(n) + rest, tag) == |Write(n)|
  {
    hide Write, VarintLen;
    WrittenLength(n, rest);
  }

  lemma ChunkSkipped(p: seq<Byte>, rest: seq<Byte>, tag: nat)
    requires tag % 8 == 2 && |p| < U64_MOD
    ensures SkipLen(Write(|p|) + p + rest, tag) == |Write(|p|)| + |p|
  {
    hide Read, Write;
    assert Write(|p|) + p + rest == Write(|p|) + (p + rest);
    WrittenIsRead(|p|, p + rest);
  }

  // ---- messages ----

  datatype Item =
    | Number(n: nat)
    | Eight(bytes: seq<Byte>)
    | Chunk(bytes: seq<Byte>)
    | Inner(items: Items)
    | Four(bytes: seq<Byte>)

  datatype Items = NoItem | Then(number: nat, item: Item, rest: Items)

  // The low three bits of a tag.
  function Wire(item: Item): nat {
    match item
    case Number(_) => 0
    case Eight(_) => 1
    case Chunk(_) => 2
    case Inner(_) => 3
    case Four(_) => 5
  }

  function ItemText(number: nat, item: Item): seq<Byte>
    decreases item
  {
    match item
    case Number(n) => Write(n)
    case Eight(b) => b
    case Chunk(b) => Write(|b|) + b
    case Inner(items) => Text(items) + Write(8 * number + 4)
    case Four(b) => b
  }

  function Text(items: Items): seq<Byte>
    decreases items
  {
    match items
    case NoItem => []
    case Then(number, item, rest) => Write(8 * number + Wire(item)) + (ItemText(number, item) + Text(rest))
  }

  // Field numbers fit a tag of 32 bits, and values have the bytes of their types.
  predicate Fits(items: Items) {
    match items
    case NoItem => true
    case Then(number, item, rest) => 8 * number + 7 < 0x1_0000_0000 && ItemFits(item) && Fits(rest)
  }

  predicate ItemFits(item: Item) {
    match item
    case Number(_) => true
    case Eight(b) => |b| == 8
    case Chunk(b) => |b| < U64_MOD
    case Inner(items) => Fits(items)
    case Four(b) => |b| == 4
  }

  lemma WrittenTag(tag: nat, rest: seq<Byte>)
    requires tag < 0x1_0000_0000
    ensures Tagged(Write(tag) + rest, tag, |Write(tag)|) && (Write(tag) + rest)[|Write(tag)|..] == rest
  {
    hide Read, Write;
    WrittenIsRead(tag, rest);
    DivModUnique(tag, U32_MOD, 0, tag);
  }

  // Whatever follows, the value of a field is skipped exactly.
  lemma {:induction false} ItemSkipped(number: nat, item: Item, rest: seq<Byte>)
    requires 8 * number + 7 < 0x1_0000_0000 && ItemFits(item)
    ensures SkipLen(ItemText(number, item) + rest, 8 * number + Wire(item)) == |ItemText(number, item)|
    decreases item, 1
  {
    hide *;
    var tag := 8 * number + Wire(item);
    TagParts(number, item);
    ItemTextIs(number, item);
    match item
    case Number(n) => NumberSkipped(n, rest, tag);
    case Eight(b) => FixedWidths(b + rest, tag);
    case Chunk(b) => ChunkSkipped(b, rest, tag);
    case Four(b) => FixedWidths(b + rest, tag);
    case Inner(items) =>
      InnerFound(number, items, rest);
      assert Text(items) + Write(8 * number + 4) + rest == Text(items) + (Write(8 * number + 4) + rest);
      GroupSkipped(Text(items) + (Write(8 * number + 4) + rest), tag);
  }

  lemma TagParts(number: nat, item: Item)
    ensures Wire(item) <= 5 && (8 * number + Wire(item)) % 8 == Wire(item)
    ensures Wire(item) == if item.Number? then 0 else if item.Eight? then 1 else if item.Chunk? then 2
                          else if item.Inner? then 3 else 5
  {
  }

  lemma ItemTextIs(number: nat, item: Item)
    requires ItemFits(item)
    ensures item.Number? ==> ItemText(number, item) == Write(item.n)
    ensures item.Eight? ==> ItemText(number, item) == item.bytes && |item.bytes| == 8
    ensures item.Chunk? ==> ItemText(number, item) == Write(|item.bytes|) + item.bytes && |item.bytes| < U64_MOD
    ensures item.Four? ==> ItemText(number, item) == item.bytes && |item.bytes| == 4
    ensures item.Inner? ==> ItemText(number, item) == Text(item.items) + Write(8 * number + 4) && Fits(item.items)
  {
    hide Write, Text, Fits;
  }

  lemma GroupSkipped(s: seq<Byte>, tag: nat)
    requires tag % 8 == 3
    ensures SkipLen(s, tag) == if GroupScan(s, tag).Some? then GroupScan(s, tag).value.1 else 0
  {
    hide GroupScan;
  }

  // Whatever follows, the fields up to the end tag of the group's number are found.
  lemma {:induction false} InnerFound(number: nat, items: Items, rest: seq<Byte>)
    requires 8 * number + 7 < 0x1_0000_0000 && Fits(items)
    ensures var close := Write(8 * number + 4);
            GroupScan(Text(items) + (close + rest), 8 * number + 3) == Some((|Text(items)|, |Text(items)| + |close|))
    decreases items, 0
  {
    hide *;
    var close := Write(8 * number + 4);
    var s := Text(items) + (close + rest);
    if items.NoItem? {
      NoItems(items);
      assert s == close + rest;
      WrittenTag(8 * number + 4, rest);
      EndFound(s, number, |close|);
    } else {
      var n, item, more := items.number, items.item, items.rest;
      var key, value, tail := Write(8 * n + Wire(item)), ItemText(n, item), Text(more) + (close + rest);
      OneItem(items);
      assert s == key + (value + tail);
      TagParts(n, item);
      WrittenTag(8 * n + Wire(item), value + tail);
      ItemSkipped(n, item, tail);
      InnerFound(number, more, rest);
      FieldPassed(s, number, 8 * n + Wire(item), |key|, value, tail);
      Shifted(GroupScan(tail, 8 * number + 3), |key| + |value|);
    }
  }

  lemma NoItems(items: Items)
    requires items.NoItem?
    ensures Text(items) == []
  {
  }

  lemma OneItem(items: Items)
    requires items.Then? && Fits(items)
    ensures 8 * items.number + 7 < 0x1_0000_0000 && ItemFits(items.item) && Fits(items.rest)
    ensures Text(items) == Write(8 * items.number + Wire(items.item))
                           + (ItemText(items.number, items.item) + Text(items.rest))
  {
    hide Write, ItemText, Wire, ItemFits;
  }

  lemma EndFound(s: seq<Byte>, number: nat, count: nat)
    requires Tagged(s, 8 * number + 4, count)
    ensures GroupScan(s, 8 * number + 3) == Some((0, count))
  {
    hide Tagged, GroupScan;
    ScanStep(s, 8 * number + 3, 8 * number + 4, count);
  }

  lemma FieldPassed(s: seq<Byte>, number: nat, t: nat, count: nat, value: seq<Byte>, tail: seq<Byte>)
    requires Tagged(s, t, count) && t % 8 != 4 && s[count..] == value + tail && SkipLen(value + tail, t) == |value|
    ensures GroupScan(s, 8 * number + 3) == ShiftBoth(GroupScan(tail, 8 * number + 3), count + |value|)
  {
    hide Tagged, GroupScan, SkipLen;
    ScanStep(s, 8 * number + 3, t, count);
    TaggedInside(s, t, count);
    assert s[count + |value|..] == s[count..][|value|..] == tail;
  }

  lemma TaggedInside(s: seq<Byte>, t: nat, count: nat)
    requires Tagged(s, t, count)
    ensures 0 < count <= |s|
  {
  }
}
