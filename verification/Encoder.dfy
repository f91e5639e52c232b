// The encoders. They compute the size in advance, fill the buffer in place, and patch the group counts in
// afterwards; each is proved to succeed on exactly the encodable input that fits, and to write exactly the
// bytes of its syntax tree.

module Encoder {
  import opened Bits
  import opened Wire
  import opened Model
  import opened Grammar
  import opened Canonical
  import opened Rendering
  import Imei

  // ---------------------------------------------------------------- sizes in advance

  lemma PrefixEncodable(es: seq<Element>, i: nat, l: Layout)
    requires i < |es| && EncodableElements(es[..i], l)
    ensures EncodableElements(es[..i + 1], l) <==> EncodableElement(es[i], l)
    ensures ElementsSize(es[..i + 1], l) == ElementsSize(es[..i], l) + ElementSize(es[i], l)
    ensures !EncodableElement(es[i], l) ==> !EncodableElements(es, l)
  {
    hide EncodableElement;
    var t := es[..i + 1];
    assert t[..i] == es[..i] && t[i] == es[i];
    assert forall j :: 0 <= j < i ==> t[j] == es[..i][j];
  }

  method CalculateElementsSizeCodec8(elements: seq<Element>) returns (r: Option<nat>)
    ensures r.Some? <==> EncodableElements(elements, LayoutOf(CODEC_8))
    ensures r.Some? ==> r.value == BlockSize(elements, LayoutOf(CODEC_8))
  {
    hide EncodableElements, ElementsSize, Pow256;
    Widths();
    ghost var l := LayoutOf(CODEC_8);
    NoElementsSize(l);
    var expectedSize := 6;
    for i := 0 to |elements|
      invariant EncodableElements(elements[..i], l)
      invariant expectedSize == 6 + ElementsSize(elements[..i], l)
    {
      PrefixEncodable(elements, i, l);
      if elements[i].id > 255 {
        return None;
      }
      var length := |elements[i].value|;
      if length != 1 && length != 2 && length != 4 && length != 8 {
        return None;
      }
      expectedSize := expectedSize + length + 1;
    }
    assert elements[..|elements|] == elements;
    return Some(expectedSize);
  }

  method CalculateElementsSizeCodec16(elements: seq<Element>) returns (r: Option<nat>)
    ensures r.Some? <==> EncodableElements(elements, LayoutOf(CODEC_16))
    ensures r.Some? ==> r.value == BlockSize(elements, LayoutOf(CODEC_16))
  {
    hide EncodableElements, ElementsSize, Pow256;
    Widths();
    ghost var l := LayoutOf(CODEC_16);
    NoElementsSize(l);
    var expectedSize := 8;
    for i := 0 to |elements|
      invariant EncodableElements(elements[..i], l)
      invariant expectedSize == 8 + ElementsSize(elements[..i], l)
    {
      PrefixEncodable(elements, i, l);
      var length := |elements[i].value|;
      if length != 1 && length != 2 && length != 4 && length != 8 {
        return None;
      }
      expectedSize := expectedSize + length + 2;
    }
    assert elements[..|elements|] == elements;
    return Some(expectedSize);
  }

  method CalculateElementsSizeCodec8E(elements: seq<Element>) returns (r: Option<nat>)
    ensures r.Some? <==> EncodableElements(elements, LayoutOf(CODEC_8E))
    ensures r.Some? ==> r.value == BlockSize(elements, LayoutOf(CODEC_8E))
  {
    hide EncodableElements, ElementsSize, Pow256;
    Widths();
    ghost var l := LayoutOf(CODEC_8E);
    NoElementsSize(l);
    var expectedSize := 14;
    for i := 0 to |elements|
      invariant EncodableElements(elements[..i], l)
      invariant expectedSize == 14 + ElementsSize(elements[..i], l)
    {
      PrefixEncodable(elements, i, l);
      var length := |elements[i].value|;
      if length > 65535 {
        return None;
      }
      if length == 0 {
        return None;
      }
      if length != 1 && length != 2 && length != 4 && length != 8 {
        expectedSize := expectedSize + length + 4;
      } else {
        expectedSize := expectedSize + length + 2;
      }
    }
    assert elements[..|elements|] == elements;
    return Some(expectedSize);
  }

  lemma NoElementsSize(l: Layout)
    ensures ElementsSize([], l) == 0 && EncodableElements([], l)
  {}

  // ---------------------------------------------------------------- element groups

  lemma WrittenBody(original: Bytes, start: nat, hole: Bytes, body: Bytes, now: Bytes, more: Bytes, after: Bytes)
    requires Written(now, original, start, hole + body) && Written(after, now, start + |hole| + |body|, more)
    ensures Written(after, original, start, hole + (body + more))
    ensures |hole + (body + more)| == |hole + body| + |more|
  {
    WrittenTwice(original, start, hole + body, now, more, after);
    assert hole + body + more == hole + (body + more);
  }

  method PutElement(e: Element, l: Layout, buf: array<byte>, start: nat) returns (pos: nat)
    requires start + |RenderElement(e, l, [])| <= buf.Length
    modifies buf
    ensures pos == start + |RenderElement(e, l, [])|
    ensures Written(buf[..], old(buf[..]), start, RenderElement(e, l, []))
  {
    hide BigEndian, Written;
    PutUint(buf, start, e.id, l.idWidth);
    ghost var now := buf[..];
    Copy(buf, start + l.idWidth, e.value);
    WrittenTwice(old(buf[..]), start, BigEndian(e.id, l.idWidth), now, e.value, buf[..]);
    assert e.value + [] == e.value;
    pos := start + l.idWidth + |e.value|;
  }

  // One pass over the list: the elements with w-byte values, behind a hole for their count that is filled in
  // at the end.
  method EncodeGroup(elements: seq<Element>, w: nat, l: Layout, buf: array<byte>, start: nat) returns (pos: nat)
    requires start + l.countWidth + ClassSize(elements, l, w) <= buf.Length
    modifies buf
    ensures pos == start + l.countWidth + ClassSize(elements, l, w)
    ensures Written(buf[..], old(buf[..]), start, BigEndian(|OfWidth(elements, w)|, l.countWidth)
                                                  + RenderElements(OfWidth(elements, w), l, []))
  {
    hide BigEndian, RenderElements, RenderElement, OfWidth, Written, ClassSize;
    var written := 0;
    var dataCountPos := start;
    pos := start + l.countWidth;
    ghost var original := buf[..];
    ghost var hole := original[start..pos];
    ghost var body: Bytes := [];
    HoleLeft(original, start, l.countWidth);
    NoClass(l, w);
    assert hole + [] == hole;
    for j := 0 to |elements|
      invariant written == |OfWidth(elements[..j], w)|
      invariant body == RenderElements(OfWidth(elements[..j], w), l, [])
      invariant pos == start + |hole| + |body| <= buf.Length
      invariant Written(buf[..], original, start, hole + body)
    {
      var length := |elements[j].value|;
      ClassStep(elements, j, l, w);
      if length == w {
        ghost var item := RenderElement(elements[j], l, []);
        ghost var now := buf[..];
        pos := PutElement(elements[j], l, buf, pos);
        WrittenBody(original, start, hole, body, now, item, buf[..]);
        written := written + 1;
        body := body + item;
      }
    }
    assert elements[..|elements|] == elements;
    ClassSizeIs(elements, l, w);
    ghost var now := buf[..];
    PutUint(buf, dataCountPos, written, l.countWidth);
    WrittenHole(original, start, hole, body, now, BigEndian(written, l.countWidth), buf[..]);
  }

  lemma ClassSizeIs(es: seq<Element>, l: Layout, w: nat)
    ensures ClassSize(es, l, w) == |RenderElements(OfWidth(es, w), l, [])|
  {}

  lemma NoClass(l: Layout, w: nat)
    ensures OfWidth([], w) == [] && RenderElements([], l, []) == []
  {}

  // What the j-th element adds to its class.
  lemma ClassStep(es: seq<Element>, j: nat, l: Layout, w: nat)
    requires j < |es|
    ensures var a, b := OfWidth(es[..j], w), OfWidth(es[..j + 1], w);
            && (|es[j].value| != w ==> b == a)
            && (|es[j].value| == w ==>
                  && |b| == |a| + 1
                  && RenderElements(b, l, []) == RenderElements(a, l, []) + RenderElement(es[j], l, []))
    ensures |RenderElements(OfWidth(es[..j + 1], w), l, [])| <= ClassSize(es, l, w)
  {
    hide BigEndian, OfWidth;
    assert es[..j + 1] == es[..j] + [es[j]];
    OfWidthSnoc(es[..j], es[j], w);
    ElementsAppend(OfWidth(es[..j], w), [es[j]], l);
    assert OfWidth(es[..j], w) + [] == OfWidth(es[..j], w);
    ClassSizePrefix(es, j + 1, l, w);
  }

  // The groups for the widths below w.
  function GroupsBelow(es: seq<Element>, w: nat): seq<seq<Element>> {
    if w <= 1 then [] else GroupsBelow(es, w / 2) + [OfWidth(es, w / 2)]
  }

  lemma {:induction false} RenderGroupsAppend(a: seq<seq<Element>>, b: seq<seq<Element>>, l: Layout)
    ensures RenderGroups(a + b, l, []) == RenderGroups(a, l, []) + RenderGroups(b, l, [])
    decreases |a|
  {
    hide BigEndian, RenderElements;
    if a == [] {
      assert a + b == b;
    } else {
      assert a + b == [a[0]] + (a[1..] + b) && a == [a[0]] + a[1..];
      RenderGroupsAppend(a[1..], b, l);
      GroupsCons(a[0], a[1..] + b, l, []);
      GroupsCons(a[0], a[1..], l, []);
    }
  }

  lemma GroupsBelowStep(es: seq<Element>, w: nat, l: Layout)
    requires w == 1 || w == 2 || w == 4 || w == 8
    ensures RenderGroups(GroupsBelow(es, 2 * w), l, [])
            == RenderGroups(GroupsBelow(es, w), l, [])
               + (BigEndian(|OfWidth(es, w)|, l.countWidth) + RenderElements(OfWidth(es, w), l, []))
    ensures |RenderGroups(GroupsBelow(es, 2 * w), l, [])| <= |RenderGroups(GroupsOf(es), l, [])|
    ensures GroupsBelow(es, 1) == [] && GroupsBelow(es, 16) == GroupsOf(es)
    ensures RenderGroups([], l, []) == []
  {
    hide OfWidth, BigEndian, RenderElements, RenderGroups;
    var g := OfWidth(es, w);
    NoGroup(l);
    assert GroupsBelow(es, 2 * w) == GroupsBelow(es, w) + [g];
    RenderGroupsAppend(GroupsBelow(es, w), [g], l);
    GroupsCons(g, [], l, []);
    assert [g] + [] == [g];
    assert GroupsBelow(es, 1) == [] && GroupsBelow(es, 2) == [OfWidth(es, 1)];
    assert GroupsBelow(es, 4) == [OfWidth(es, 1), OfWidth(es, 2)];
    assert GroupsBelow(es, 8) == [OfWidth(es, 1), OfWidth(es, 2), OfWidth(es, 4)];
    assert GroupsBelow(es, 16) == GroupsOf(es);
    var all := GroupsOf(es);
    var n := |GroupsBelow(es, 2 * w)|;
    assert all == GroupsBelow(es, 2 * w) + all[n..];
    RenderGroupsAppend(GroupsBelow(es, 2 * w), all[n..], l);
  }

  lemma NoGroup(l: Layout)
    ensures RenderGroups([], l, []) == []
  {}

  // The passes for widths 1, 2, 4 and 8.
  method EncodeGroups(elements: seq<Element>, l: Layout, buf: array<byte>, start: nat) returns (pos: nat)
    requires start + |RenderGroups(GroupsOf(elements), l, [])| <= buf.Length
    modifies buf
    ensures pos == start + |RenderGroups(GroupsOf(elements), l, [])|
    ensures Written(buf[..], old(buf[..]), start, RenderGroups(GroupsOf(elements), l, []))
  {
    hide BigEndian, RenderElements, RenderGroups, OfWidth, Written, GroupsBelow, GroupsOf;
    pos := start;
    ghost var original := buf[..];
    ghost var out: Bytes := [];
    NothingWritten(original, start);
    GroupsBelowStep(elements, 1, l);
    var i := 1;
    while i <= 8
      invariant i == 1 || i == 2 || i == 4 || i == 8 || i == 16
      invariant out == RenderGroups(GroupsBelow(elements, i), l, [])
      invariant pos == start + |out| && Written(buf[..], original, start, out)
      decreases 16 - i
    {
      GroupsBelowStep(elements, i, l);
      ghost var now := buf[..];
      pos := EncodeGroup(elements, i, l, buf, pos);
      ghost var group := BigEndian(|OfWidth(elements, i)|, l.countWidth) + RenderElements(OfWidth(elements, i), l, []);
      WrittenTwice(original, start, out, now, group, buf[..]);
      out := out + group;
      i := i * 2;
    }
  }

  method PutVarElement(e: Element, buf: array<byte>, start: nat)
    requires start + 4 + |e.value| <= buf.Length
    modifies buf
    ensures Written(buf[..], old(buf[..]), start, RenderVarElement(e, []))
  {
    hide BigEndian, Written;
    ghost var original := buf[..];
    PutUint(buf, start, e.id, 2);
    ghost var now := buf[..];
    PutUint(buf, start + 2, |e.value| % 0x1_0000, 2);
    LowBytes(|e.value|);
    WrittenTwice(original, start, BigEndian(e.id, 2), now, BigEndian(|e.value|, 2), buf[..]);
    now := buf[..];
    Copy(buf, start + 4, e.value);
    WrittenTwice(original, start, BigEndian(e.id, 2) + BigEndian(|e.value|, 2), now, e.value, buf[..]);
    assert RenderVarElement(e, []) == BigEndian(e.id, 2) + BigEndian(|e.value|, 2) + e.value;
  }

  // Truncating to 16 bits does not change the two low bytes.
  lemma LowBytes(v: nat)
    ensures BigEndian(v % 0x1_0000, 2) == BigEndian(v, 2)
  {
    hide BigEndian;
    var q, w := v / 0x1_0000, v % 0x1_0000;
    TwoBytes(q, w / 0x100, w % 0x100);
    TwoBytes(0, w / 0x100, w % 0x100);
  }

  // The pass for all other lengths, of codec 8E.
  method EncodeVariable(elements: seq<Element>, buf: array<byte>, start: nat) returns (pos: nat)
    requires start + 2 + OtherSize(elements) <= buf.Length
    modifies buf
    ensures pos == start + 2 + OtherSize(elements)
    ensures Written(buf[..], old(buf[..]), start,
                    BigEndian(|OfOtherWidth(elements)|, 2) + RenderVarElements(OfOtherWidth(elements), []))
  {
    hide BigEndian, RenderVarElements, RenderVarElement, OfOtherWidth, Written;
    var ioCountNX := 0;
    var ioCountNXPos := start;
    pos := start + 2;
    ghost var original := buf[..];
    ghost var hole := original[start..pos];
    ghost var body: Bytes := [];
    HoleLeft(original, start, 2);
    NoOthers();
    assert hole + [] == hole;
    for j := 0 to |elements|
      invariant ioCountNX == |OfOtherWidth(elements[..j])|
      invariant body == RenderVarElements(OfOtherWidth(elements[..j]), [])
      invariant pos == start + |hole| + |body| <= buf.Length
      invariant Written(buf[..], original, start, hole + body)
    {
      var length := |elements[j].value|;
      OtherStep(elements, j);
      if length != 1 && length != 2 && length != 4 && length != 8 {
        ghost var item := RenderVarElement(elements[j], []);
        ghost var now := buf[..];
        PutVarElement(elements[j], buf, pos);
        WrittenBody(original, start, hole, body, now, item, buf[..]);
        pos := pos + 4 + length;
        ioCountNX := ioCountNX + 1;
        body := body + item;
      }
    }
    assert elements[..|elements|] == elements;
    ghost var now := buf[..];
    PutUint(buf, ioCountNXPos, ioCountNX % 0x1_0000, 2);
    LowBytes(ioCountNX);
    WrittenHole(original, start, hole, body, now, BigEndian(ioCountNX, 2), buf[..]);
  }

  lemma NoOthers()
    ensures OfOtherWidth([]) == [] && RenderVarElements([], []) == []
  {}

  lemma OtherStep(es: seq<Element>, j: nat)
    requires j < |es|
    ensures var a, b := OfOtherWidth(es[..j]), OfOtherWidth(es[..j + 1]);
            && (IsGroupWidth(|es[j].value|) ==> b == a)
            && (!IsGroupWidth(|es[j].value|) ==>
                  && |b| == |a| + 1
                  && RenderVarElements(b, []) == RenderVarElements(a, []) + RenderVarElement(es[j], []))
    ensures |RenderVarElements(OfOtherWidth(es[..j + 1]), [])| <= OtherSize(es)
    ensures |RenderVarElement(es[j], [])| == 4 + |es[j].value|
  {
    hide BigEndian, OfOtherWidth;
    assert es[..j + 1] == es[..j] + [es[j]];
    OfOtherWidthSnoc(es[..j], es[j]);
    VarElementsAppend(OfOtherWidth(es[..j]), [es[j]]);
    assert OfOtherWidth(es[..j]) + [] == OfOtherWidth(es[..j]);
    OtherSizePrefix(es, j + 1);
  }

  // ---------------------------------------------------------------- element blocks

  // Event id, generation type for codec 16, element count.
  method PutBlockHeader(eventID: uint16, generationType: byte, ioCount: nat, l: Layout, buf: array<byte>, start: nat,
      ghost b: Block)
    returns (pos: nat)
    requires eventID == b.eventID && (l.generation ==> generationType == b.generationType) && ioCount == b.ioCount
    requires start + |RenderBlockHeader(b, l, [])| <= buf.Length
    modifies buf
    ensures pos == start + |RenderBlockHeader(b, l, [])|
    ensures Written(buf[..], old(buf[..]), start, RenderBlockHeader(b, l, []))
  {
    hide BigEndian, Written, RenderBlockHeader;
    HeaderParts(b, l);
    ghost var original := buf[..];
    PutUint(buf, start, eventID, l.eventWidth);
    pos := start + l.eventWidth;
    ghost var out := BigEndian(b.eventID, l.eventWidth);
    if l.generation {
      ghost var now := buf[..];
      PutUint(buf, pos, generationType, 1);
      WrittenTwice(original, start, out, now, BigEndian(b.generationType, 1), buf[..]);
      out := out + BigEndian(b.generationType, 1);
      pos := pos + 1;
    }
    ghost var now := buf[..];
    PutUint(buf, pos, ioCount, l.countWidth);
    WrittenTwice(original, start, out, now, BigEndian(b.ioCount, l.countWidth), buf[..]);
    pos := pos + l.countWidth;
  }

  lemma HeaderParts(b: Block, l: Layout)
    ensures RenderBlockHeader(b, l, [])
            == if l.generation then
                 BigEndian(b.eventID, l.eventWidth) + BigEndian(b.generationType, 1)
                 + BigEndian(b.ioCount, l.countWidth)
               else BigEndian(b.eventID, l.eventWidth) + BigEndian(b.ioCount, l.countWidth)
  {
    hide BigEndian;
    assert BigEndian(b.ioCount, l.countWidth) + [] == BigEndian(b.ioCount, l.countWidth);
  }

  // Header, groups and variable group are the block, and together have the size computed in advance.
  lemma BlockParts(d: Data<Bytes>, l: Layout)
    requires EncodableElements(d.elements, l)
    ensures var b := BlockOf(d, l);
            var groups, other := RenderGroups(GroupsOf(d.elements), l, []), RenderVariable(b.variable, l, []);
            && RenderBlock(b, l, []) == RenderBlockHeader(b, l, []) + groups + other
            && |RenderBlockHeader(b, l, [])| + |groups| + |other| == BlockSize(d.elements, l)
            && (l.variable ==> |other| == 2 + OtherSize(d.elements))
            && (!l.variable ==> other == [])
  {
    var b := BlockOf(d, l);
    var groups, other := RenderGroups(b.groups, l, []), RenderVariable(b.variable, l, []);
    BlockSizeExact(d, l);
    hide BigEndian, RenderGroups, OfWidth, OfOtherWidth, RenderVarElements, EncodableElements, ElementsSize;
    GroupsTail(b.groups, l, other);
  }

  // Header, groups and, for codec 8E, the variable-length group, once the size is known to fit.
  method EncodeBlock(data: Data<Bytes>, l: Layout, buf: array<byte>, start: nat) returns (pos: nat)
    requires EncodableData(data, l) && start + BlockSize(data.elements, l) <= buf.Length
    modifies buf
    ensures pos == start + BlockSize(data.elements, l)
    ensures Written(buf[..], old(buf[..]), start, RenderBlock(BlockOf(data, l), l, []))
  {
    hide RenderGroups, RenderBlockHeader, RenderBlock, EncodableElements, Written, BlockSize, GroupsOf;
    hide OfOtherWidth, RenderVarElements, BigEndian, Pow256;
    BlockParts(data, l);
    ghost var original, b := buf[..], BlockOf(data, l);
    ghost var header, groups := RenderBlockHeader(b, l, []), RenderGroups(GroupsOf(data.elements), l, []);
    ghost var other := RenderVariable(b.variable, l, []);
    pos := PutBlockHeader(data.eventID, data.generationType, |data.elements|, l, buf, start, b);
    ghost var now := buf[..];
    pos := EncodeGroups(data.elements, l, buf, pos);
    WrittenTwice(original, start, header, now, groups, buf[..]);
    if l.variable {
      now := buf[..];
      pos := EncodeVariable(data.elements, buf, pos);
      WrittenTwice(original, start, header + groups, now, other, buf[..]);
    } else {
      assert header + groups + other == header + groups;
    }
  }

  method EncodeElementsCodec8(data: Data<Bytes>, buf: array<byte>, start: nat) returns (r: Option<nat>)
    requires start <= buf.Length
    modifies buf
    ensures r.Some? <==>
      EncodableData(data, LayoutOf(CODEC_8)) && start + BlockSize(data.elements, LayoutOf(CODEC_8)) <= buf.Length
    ensures r.Some? ==>
      && r.value == BlockSize(data.elements, LayoutOf(CODEC_8))
      && Written(buf[..], old(buf[..]), start, RenderBlock(BlockOf(data, LayoutOf(CODEC_8)), LayoutOf(CODEC_8), []))
    ensures r.None? ==> buf[..] == old(buf[..])
  {
    hide RenderBlock, EncodableElements, Written, BlockSize, BlockOf, Pow256;
    Widths();
    if data.eventID > 255 {
      return None;
    }
    var ioCount := |data.elements|;
    if ioCount > 255 {
      return None;
    }
    var expectedSize :- CalculateElementsSizeCodec8(data.elements);
    if buf.Length - start < expectedSize {
      return None;
    }
    var pos := EncodeBlock(data, LayoutOf(CODEC_8), buf, start);
    return Some(pos - start);
  }

  method EncodeElementsCodec16(data: Data<Bytes>, buf: array<byte>, start: nat) returns (r: Option<nat>)
    requires start <= buf.Length
    modifies buf
    ensures r.Some? <==>
      EncodableData(data, LayoutOf(CODEC_16)) && start + BlockSize(data.elements, LayoutOf(CODEC_16)) <= buf.Length
    ensures r.Some? ==>
      && r.value == BlockSize(data.elements, LayoutOf(CODEC_16))
      && Written(buf[..], old(buf[..]), start, RenderBlock(BlockOf(data, LayoutOf(CODEC_16)), LayoutOf(CODEC_16), []))
    ensures r.None? ==> buf[..] == old(buf[..])
  {
    hide RenderBlock, EncodableElements, Written, BlockSize, BlockOf, Pow256;
    Widths();
    var ioCount := |data.elements|;
    if ioCount > 255 {
      return None;
    }
    if data.generationType > 7 {
      return None;
    }
    var expectedSize :- CalculateElementsSizeCodec16(data.elements);
    if buf.Length - start < expectedSize {
      return None;
    }
    var pos := EncodeBlock(data, LayoutOf(CODEC_16), buf, start);
    return Some(pos - start);
  }

  method EncodeElementsCodec8E(data: Data<Bytes>, buf: array<byte>, start: nat) returns (r: Option<nat>)
    requires start <= buf.Length
    modifies buf
    ensures r.Some? <==>
      EncodableData(data, LayoutOf(CODEC_8E)) && start + BlockSize(data.elements, LayoutOf(CODEC_8E)) <= buf.Length
    ensures r.Some? ==>
      && r.value == BlockSize(data.elements, LayoutOf(CODEC_8E))
      && Written(buf[..], old(buf[..]), start, RenderBlock(BlockOf(data, LayoutOf(CODEC_8E)), LayoutOf(CODEC_8E), []))
    ensures r.None? ==> buf[..] == old(buf[..])
  {
    hide RenderBlock, EncodableElements, Written, BlockSize, BlockOf, Pow256;
    Widths();
    var ioCount := |data.elements|;
    if ioCount > 65535 {
      return None;
    }
    var expectedSize :- CalculateElementsSizeCodec8E(data.elements);
    if buf.Length - start < expectedSize {
      return None;
    }
    var pos := EncodeBlock(data, LayoutOf(CODEC_8E), buf, start);
    return Some(pos - start);
  }

  // ---------------------------------------------------------------- data records and commands

  method PutPosition(data: Data<Bytes>, buf: array<byte>, start: nat)
    requires start + 24 <= buf.Length
    modifies buf
    ensures Written(buf[..], old(buf[..]), start, RenderPosition(PositionOf(data), []))
  {
    hide BigEndian, Written;
    ghost var original := buf[..];
    PutUint(buf, start, data.timestampMs, 8);
    ghost var out, now := BigEndian(data.timestampMs, 8), buf[..];
    PutUint(buf, start + 8, data.priority, 1);
    WrittenTwice(original, start, out, now, BigEndian(data.priority, 1), buf[..]);
    out, now := out + BigEndian(data.priority, 1), buf[..];
    PutUint(buf, start + 9, Unsigned32(data.lng), 4);
    WrittenTwice(original, start, out, now, BigEndian(Unsigned32(data.lng), 4), buf[..]);
    out, now := out + BigEndian(Unsigned32(data.lng), 4), buf[..];
    PutUint(buf, start + 13, Unsigned32(data.lat), 4);
    WrittenTwice(original, start, out, now, BigEndian(Unsigned32(data.lat), 4), buf[..]);
    out, now := out + BigEndian(Unsigned32(data.lat), 4), buf[..];
    PutUint(buf, start + 17, Unsigned16(data.altitude), 2);
    WrittenTwice(original, start, out, now, BigEndian(Unsigned16(data.altitude), 2), buf[..]);
    out, now := out + BigEndian(Unsigned16(data.altitude), 2), buf[..];
    PutUint(buf, start + 19, data.angle, 2);
    WrittenTwice(original, start, out, now, BigEndian(data.angle, 2), buf[..]);
    out, now := out + BigEndian(data.angle, 2), buf[..];
    PutUint(buf, start + 21, data.satellites, 1);
    WrittenTwice(original, start, out, now, BigEndian(data.satellites, 1), buf[..]);
    out, now := out + BigEndian(data.satellites, 1), buf[..];
    PutUint(buf, start + 22, data.speed, 2);
    WrittenTwice(original, start, out, now, BigEndian(data.speed, 2), buf[..]);
    assert RenderPosition(PositionOf(data), []) == out + BigEndian(data.speed, 2);
  }

  method EncodeData(codecId: byte, data: Data<Bytes>, buf: array<byte>, start: nat) returns (r: Option<nat>)
    requires start <= buf.Length
    modifies buf
    ensures r.Some? <==>
      && IsDataCodec(codecId)
      && EncodableData(data, LayoutOf(codecId))
      && start + 24 + BlockSize(data.elements, LayoutOf(codecId)) <= buf.Length
    ensures r.Some? ==>
      && r.value == 24 + BlockSize(data.elements, LayoutOf(codecId))
      && Written(buf[..], old(buf[..]), start, RenderRecord(RecordOf(data, LayoutOf(codecId)), LayoutOf(codecId), []))
    ensures buf[..start] == old(buf[..start])
  {
    hide RenderPosition, RenderBlock, BlockOf, PositionOf, Written, EncodableData, BlockSize;
    if buf.Length - start < 24 {
      return None;
    }
    ghost var original := buf[..];
    PutPosition(data, buf, start);
    ghost var now := buf[..];
    PositionTail(PositionOf(data), []);
    WrittenKeepsFront(now, original, start, RenderPosition(PositionOf(data), []));
    var n: Option<nat>;
    if codecId == CODEC_8 {
      n := EncodeElementsCodec8(data, buf, start + 24);
    } else if codecId == CODEC_8E {
      n := EncodeElementsCodec8E(data, buf, start + 24);
    } else if codecId == CODEC_16 {
      n := EncodeElementsCodec16(data, buf, start + 24);
    } else {
      return None;
    }
    if n.None? {
      return None;
    }
    ghost var l := LayoutOf(codecId);
    WrittenTwice(original, start, RenderPosition(PositionOf(data), []), now, RenderBlock(BlockOf(data, l), l, []),
                 buf[..]);
    PositionTail(PositionOf(data), RenderBlock(BlockOf(data, l), l, []));
    WrittenKeepsFront(buf[..], original, start, RenderRecord(RecordOf(data, l), l, []));
    return Some(n.value + 24);
  }

  // The codecs 14 and 15 slice the first 8 bytes off the decoded IMEI.
  predicate ImeiLongEnough(m: Message, codec: byte) {
    HasImei(codec) && Imei.AllHex(m.imei) ==> |m.imei| >= 15
  }

  method EncodeMessage(codecId: byte, message: Message, buf: array<byte>, start: nat) returns (r: Option<nat>)
    requires start <= buf.Length && ImeiLongEnough(message, codecId)
    modifies buf
    ensures r.Some? <==>
      EncodableMessage(message, codecId) && start + |message.text| + 5 + Overhead(codecId) <= buf.Length
    ensures r.Some? ==>
      && r.value == |message.text| + 5 + Overhead(codecId)
      && Written(buf[..], old(buf[..]), start, RenderCommand(CommandOf(message, codecId), codecId, []))
    ensures buf[..start] == old(buf[..start])
  {
    hide BigEndian, Written, IsMessageType, Rejected, Imei.PackImei, Imei.AllHex, Imei.HexDecode;
    hide CommandOf, RenderCommand, CommandHead;
    RejectedTypes(codecId, message.messageType);
    if Rejected(codecId, message.messageType) {
      return None;
    }
    var size := |message.text|;
    if codecId == CODEC_14 {
      size := size + 8;
    } else if codecId == CODEC_13 {
      size := size + 4;
    } else if codecId == CODEC_15 {
      size := size + 12;
    }
    if buf.Length - start < size + 5 {
      return None;
    }
    ghost var original, head, imei := buf[..], CommandHead(message, codecId), CommandOf(message, codecId).imei;
    CommandParts(message, codecId);
    var pos := PutCommandHead(codecId, message, size, buf, start);
    WrittenKeepsFront(buf[..], original, start, head);
    if codecId == CODEC_14 || codecId == CODEC_15 {
      PackedImei(message.imei);
      var packed := Imei.HexDecode(Imei.PadEven(message.imei));
      if packed.None? {
        return None;
      }
      ghost var now := buf[..];
      Copy(buf, pos, packed.value[..8]);
      WrittenTwice(original, start, head, now, imei, buf[..]);
      pos := pos + 8;
    } else {
      assert head + imei == head;
    }
    ghost var now := buf[..];
    Copy(buf, pos, message.text);
    WrittenTwice(original, start, head + imei, now, message.text, buf[..]);
    pos := pos + |message.text|;
    WrittenKeepsFront(buf[..], original, start, head + imei + message.text);
    return Some(pos - start);
  }

  // Type, declared size and, for codecs 13 and 15, the timestamp.
  ghost function CommandHead(m: Message, codec: byte): (h: Bytes)
    ensures |h| == 5 + if HasTimestamp(codec) then 4 else 0
  {
    BigEndian(m.messageType, 1) + BigEndian((|m.text| + Overhead(codec)) % 0x1_0000_0000, 4)
    + (if HasTimestamp(codec) then BigEndian(m.timestamp, 4) else [])
  }

  method PutCommandHead(codecId: byte, message: Message, size: nat, buf: array<byte>, start: nat) returns (pos: nat)
    requires size == |message.text| + Overhead(codecId)
    requires start + |CommandHead(message, codecId)| <= buf.Length
    modifies buf
    ensures pos == start + |CommandHead(message, codecId)|
    ensures Written(buf[..], old(buf[..]), start, CommandHead(message, codecId))
  {
    hide BigEndian, Written;
    ghost var original := buf[..];
    PutUint(buf, start, message.messageType, 1);
    ghost var out, now := BigEndian(message.messageType, 1), buf[..];
    PutUint(buf, start + 1, size % 0x1_0000_0000, 4);
    WrittenTwice(original, start, out, now, BigEndian(size % 0x1_0000_0000, 4), buf[..]);
    out := out + BigEndian(size % 0x1_0000_0000, 4);
    pos := start + 5;
    if codecId == CODEC_13 || codecId == CODEC_15 {
      now := buf[..];
      PutUint(buf, pos, message.timestamp, 4);
      WrittenTwice(original, start, out, now, BigEndian(message.timestamp, 4), buf[..]);
      pos := pos + 4;
    } else {
      assert out + [] == out;
    }
  }

  // The fields of a command in order.
  lemma CommandParts(m: Message, codec: byte)
    ensures RenderCommand(CommandOf(m, codec), codec, []) == CommandHead(m, codec) + CommandOf(m, codec).imei + m.text
    ensures HasImei(codec) && Imei.PackImei(m.imei).Some? ==> CommandOf(m, codec).imei == Imei.PackImei(m.imei).value
    ensures !HasImei(codec) ==> CommandOf(m, codec).imei == []
  {
    hide BigEndian, Imei.PackImei;
  }

  lemma PackedImei(imei: Bytes)
    requires Imei.AllHex(imei) ==> |imei| >= 15
    ensures Imei.HexDecode(Imei.PadEven(imei)).Some? <==> Imei.AllHex(imei)
    ensures Imei.AllHex(imei) ==>
      var packed := Imei.HexDecode(Imei.PadEven(imei)).value;
      |packed| >= 8 && Imei.PackImei(imei) == Some(packed[..8])
  {
    Imei.HexDecodeAccepts(Imei.PadEven(imei));
    Imei.PadEvenAllHex(imei);
  }

  // ---------------------------------------------------------------- packets

  lemma {:induction false} MessagesSizePrefix(ms: seq<Message>, n: nat, codec: byte)
    requires n <= |ms|
    ensures MessagesSize(ms[..n], codec) <= MessagesSize(ms, codec)
    decreases |ms| - n
  {
    if n == |ms| {
      assert ms[..n] == ms;
    } else {
      CommandsOfSnoc(ms, n, codec);
      MessagesSizePrefix(ms, n + 1, codec);
    }
  }

  lemma {:induction false} RecordsSizePrefix(ds: seq<Data<Bytes>>, n: nat, l: Layout)
    requires n <= |ds|
    ensures RecordsSize(ds[..n], l) <= RecordsSize(ds, l)
    decreases |ds| - n
  {
    hide BlockSize;
    if n == |ds| {
      assert ds[..n] == ds;
    } else {
      RecordsOfSnoc(ds, n, l);
      RecordsSizePrefix(ds, n + 1, l);
    }
  }

  method EncodeMessages(codecId: byte, messages: seq<Message>, buf: array<byte>, start: nat) returns (r: Option<nat>)
    requires start <= buf.Length && forall m :: m in messages ==> ImeiLongEnough(m, codecId)
    modifies buf
    ensures r.Some? <==>
      && (forall i :: 0 <= i < |messages| ==> EncodableMessage(messages[i], codecId))
      && start + MessagesSize(messages, codecId) <= buf.Length
    ensures r.Some? ==>
      && r.value == start + MessagesSize(messages, codecId)
      && Written(buf[..], old(buf[..]), start, RenderCommands(CommandsOf(messages, codecId), codecId, []))
    ensures buf[..start] == old(buf[..start])
  {
    hide EncodableMessage, RenderCommands, CommandsOf, Written, MessagesSize, ImeiLongEnough, CommandOf, RenderCommand;
    var pos := start;
    ghost var original := buf[..];
    ghost var out: Bytes := [];
    NothingWritten(original, start);
    NoMessages(codecId);
    for i := 0 to |messages|
      invariant forall j :: 0 <= j < i ==> EncodableMessage(messages[j], codecId)
      invariant out == RenderCommands(CommandsOf(messages[..i], codecId), codecId, [])
      invariant pos == start + |out| == start + MessagesSize(messages[..i], codecId) <= buf.Length
      invariant Written(buf[..], original, start, out)
    {
      ghost var now := buf[..];
      CommandsOfSnoc(messages, i, codecId);
      MessagesSizePrefix(messages, i + 1, codecId);
      WrittenKeepsFront(now, original, start, out);
      assert now[..pos][..start] == now[..start];
      var n := EncodeMessage(codecId, messages[i], buf, pos);
      if n.None? {
        assert buf[..start] == buf[..pos][..start];
        return None;
      }
      CommandSizeExact(messages[i], codecId);
      ghost var item := RenderCommand(CommandOf(messages[i], codecId), codecId, []);
      WrittenTwice(original, start, out, now, item, buf[..]);
      out := out + item;
      pos := pos + n.value;
    }
    assert messages[..|messages|] == messages;
    WrittenKeepsFront(buf[..], original, start, out);
    return Some(pos);
  }

  lemma NoMessages(codec: byte)
    ensures RenderCommands(CommandsOf([], codec), codec, []) == [] && MessagesSize([], codec) == 0
  {}

  method EncodeRecords(codecId: byte, data: seq<Data<Bytes>>, buf: array<byte>, start: nat) returns (r: Option<nat>)
    requires start <= buf.Length && IsDataCodec(codecId)
    modifies buf
    ensures r.Some? <==>
      && (forall i :: 0 <= i < |data| ==> EncodableData(data[i], LayoutOf(codecId)))
      && start + RecordsSize(data, LayoutOf(codecId)) <= buf.Length
    ensures r.Some? ==>
      && r.value == start + RecordsSize(data, LayoutOf(codecId))
      && Written(buf[..], old(buf[..]), start,
                 RenderRecords(RecordsOf(data, LayoutOf(codecId)), LayoutOf(codecId), []))
    ensures buf[..start] == old(buf[..start])
  {
    hide EncodableData, RenderRecords, RecordsOf, Written, RecordsSize, RecordOf, RenderRecord, BlockSize;
    var pos := start;
    ghost var l := LayoutOf(codecId);
    ghost var original := buf[..];
    ghost var out: Bytes := [];
    NothingWritten(original, start);
    NoRecords(l);
    for i := 0 to |data|
      invariant forall j :: 0 <= j < i ==> EncodableData(data[j], l)
      invariant out == RenderRecords(RecordsOf(data[..i], l), l, [])
      invariant pos == start + |out| == start + RecordsSize(data[..i], l) <= buf.Length
      invariant Written(buf[..], original, start, out)
    {
      ghost var now := buf[..];
      RecordsOfSnoc(data, i, l);
      RecordsSizePrefix(data, i + 1, l);
      WrittenKeepsFront(now, original, start, out);
      assert now[..pos][..start] == now[..start];
      var n := EncodeData(codecId, data[i], buf, pos);
      if n.None? {
        assert buf[..start] == buf[..pos][..start];
        return None;
      }
      EncodableRecordSize(data[i], l);
      ghost var item := RenderRecord(RecordOf(data[i], l), l, []);
      WrittenTwice(original, start, out, now, item, buf[..]);
      out := out + item;
      pos := pos + n.value;
    }
    assert data[..|data|] == data;
    WrittenKeepsFront(buf[..], original, start, out);
    return Some(pos);
  }

  lemma NoRecords(l: Layout)
    ensures RenderRecords(RecordsOf([], l), l, []) == [] && RecordsSize([], l) == 0
  {}

  lemma EncodableRecordSize(d: Data<Bytes>, l: Layout)
    requires EncodableData(d, l)
    ensures |RenderRecord(RecordOf(d, l), l, [])| == 24 + BlockSize(d.elements, l)
  {
    RecordSizeExact(d, l);
  }

  predicate ImeisLongEnough(p: Packet<Bytes>) {
    forall m :: m in ListOf(p.messages) ==> ImeiLongEnough(m, p.codecID)
  }

  // The items between the two count bytes are the body.
  lemma BodyParts(p: Packet<Bytes>)
    requires IsCodecSupported(p.codecID)
    ensures var n := BigEndian(ItemCount(TreeOf(p)), 1);
            Body(p) == (BigEndian(p.codecID, 1) + n) + RenderItems(TreeOf(p), []) + n
  {
    hide BigEndian, RenderRecords, RenderCommands, CommandsOf, RecordsOf;
    var n := BigEndian(ItemCount(TreeOf(p)), 1);
    if IsCMDCodecId(p.codecID) {
      CommandsTail(CommandsOf(ListOf(p.messages), p.codecID), p.codecID, n + []);
    } else {
      var l := LayoutOf(p.codecID);
      RecordsTail(RecordsOf(ListOf(p.data), l), l, n + []);
    }
    assert n + [] == n;
  }

  // The messages of a command codec, the records of a data codec.
  method EncodeItems(packet: Packet<Bytes>, buf: array<byte>, start: nat) returns (r: Option<nat>)
    requires IsCodecSupported(packet.codecID) && start <= buf.Length && ImeisLongEnough(packet)
    modifies buf
    ensures r.Some? && ItemCount(TreeOf(packet)) <= 255 <==>
      EncodableItems(packet) && start + BodySize(packet) - 3 <= buf.Length
    ensures r.Some? ==>
      && r.value == start + BodySize(packet) - 3 <= buf.Length
      && Written(buf[..], old(buf[..]), start, RenderItems(TreeOf(packet), []))
    ensures buf[..start] == old(buf[..start])
  {
    hide RenderRecords, RenderCommands, RecordsSize, MessagesSize, Written, CommandsOf, RecordsOf, EncodableMessage;
    hide EncodableData, ImeiLongEnough;
    if IsCMDCodecId(packet.codecID) {
      r := EncodeMessages(packet.codecID, ListOf(packet.messages), buf, start);
    } else {
      r := EncodeRecords(packet.codecID, ListOf(packet.data), buf, start);
    }
  }

  lemma ItemCountIs(p: Packet<Bytes>)
    requires IsCodecSupported(p.codecID)
    ensures ItemCount(TreeOf(p))
            == if IsCMDCodecId(p.codecID) then |ListOf(p.messages)| else |ListOf(p.data)|
    ensures BodySize(p) >= 3
  {}

  lemma TooManyItems(p: Packet<Bytes>)
    requires IsCodecSupported(p.codecID) && ItemCount(TreeOf(p)) > 255
    ensures !EncodableItems(p)
  {}

  // A packet in buf from index start on. The count bytes are the low bytes of the list's length.
  method EncodePacket(packet: Packet<Bytes>, buf: array<byte>, start: nat) returns (r: Option<nat>)
    requires start <= buf.Length && ImeisLongEnough(packet)
    modifies buf
    ensures r.Some? <==>
      IsCodecSupported(packet.codecID) && EncodableItems(packet) && start + BodySize(packet) <= buf.Length
    ensures r.Some? ==>
      r.value == BodySize(packet) == |Body(packet)| && Written(buf[..], old(buf[..]), start, Body(packet))
    ensures buf[..start] == old(buf[..start])
  {
    hide BigEndian, RenderItems, Written, Body, BodySize, EncodableItems, ImeisLongEnough, TreeOf, ItemCount;
    if !IsCodecSupported(packet.codecID) {
      return None;
    }
    ItemCountIs(packet);
    if buf.Length - start < 3 {
      return None;
    }
    BodyParts(packet);
    ghost var original := buf[..];
    ghost var count := BigEndian(ItemCount(TreeOf(packet)), 1);
    var length := if IsCMDCodecId(packet.codecID) then |ListOf(packet.messages)| else |ListOf(packet.data)|;
    PutUint(buf, start, packet.codecID, 1);
    ghost var now := buf[..];
    WrittenKeepsFront(now, original, start, BigEndian(packet.codecID, 1));
    if length > 255 {
      TooManyItems(packet);
      return None;
    }
    PutUint(buf, start + 1, length % 0x100, 1);
    ghost var head := BigEndian(packet.codecID, 1) + count;
    WrittenTwice(original, start, BigEndian(packet.codecID, 1), now, count, buf[..]);
    WrittenKeepsFront(buf[..], original, start, head);
    now := buf[..];
    assert now[..start + 2][..start] == now[..start];
    var pos := EncodeItems(packet, buf, start + 2);
    assert buf[..start] == buf[..start + 2][..start];
    if pos.None? || pos.value >= buf.Length {
      return None;
    }
    BodySizeExact(packet);
    ghost var items := RenderItems(TreeOf(packet), []);
    WrittenTwice(original, start, head, now, items, buf[..]);
    now := buf[..];
    assert |Body(packet)| == 2 + |items| + 1;
    PutUint(buf, pos.value, length % 0x100, 1);
    WrittenTwice(original, start, head + items, now, count, buf[..]);
    WrittenKeepsFront(buf[..], original, start, Body(packet));
    return Some(pos.value + 1 - start);
  }
}
