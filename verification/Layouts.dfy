// Where each field stands on the wire: byte offsets of the encodings, stated without the grammar.

module Layouts {
  import opened Bits
  import opened Wire
  import opened Model
  import opened Grammar
  import opened Canonical
  import opened Rendering
  import opened Framing
  import opened Parser
  import opened RoundTrip
  import opened Crc16
  import Imei

  // The unsigned integer in s[lo..lo + n].
  function Field(s: Bytes, lo: nat, n: nat): nat
    requires lo + n <= |s|
  {
    FromBigEndian(s[lo..lo + n])
  }

  // A field byte by byte, the most significant byte first.
  lemma FieldBytes(s: Bytes, lo: nat)
    ensures lo + 1 <= |s| ==> Field(s, lo, 1) == s[lo]
    ensures lo + 2 <= |s| ==> Field(s, lo, 2) == 0x100 * (s[lo] as int) + s[lo + 1]
    ensures lo + 4 <= |s| ==>
      Field(s, lo, 4)
      == 0x100_0000 * (s[lo] as int) + 0x1_0000 * (s[lo + 1] as int) + 0x100 * (s[lo + 2] as int) + s[lo + 3]
    ensures lo + 8 <= |s| ==>
      Field(s, lo, 8)
      == 0x100_0000_0000_0000 * (s[lo] as int) + 0x1_0000_0000_0000 * (s[lo + 1] as int)
         + 0x100_0000_0000 * (s[lo + 2] as int) + 0x1_0000_0000 * (s[lo + 3] as int)
         + 0x100_0000 * (s[lo + 4] as int) + 0x1_0000 * (s[lo + 5] as int)
         + 0x100 * (s[lo + 6] as int) + s[lo + 7]
  {
    hide FromBigEndian;
    if lo + 1 <= |s| { FromBytes(s[lo..lo + 1]); }
    if lo + 2 <= |s| { FromBytes(s[lo..lo + 2]); }
    if lo + 4 <= |s| { FromBytes(s[lo..lo + 4]); }
    if lo + 8 <= |s| { FromEightBytes(s[lo..lo + 8]); }
  }

  // A field in front of t, behind `front`; `next` is what stands in front of t.
  lemma Peel(s: Bytes, front: Bytes, v: nat, n: nat, t: Bytes) returns (next: Bytes)
    requires v < Pow256(n) && s == front + (BigEndian(v, n) + t)
    ensures |front| + n <= |s| && Field(s, |front|, n) == v
    ensures s == next + t && |next| == |front| + n
  {
    hide BigEndian, FromBigEndian, Pow256;
    BigEndianInverse(v, n);
    next := front + BigEndian(v, n);
    assert s[|front|..|front| + n] == BigEndian(v, n);
  }

  // The 24 bytes in front of a record's elements.
  lemma PositionLayout(d: Data<Bytes>, l: Layout)
    ensures var s := RenderRecord(RecordOf(d, l), l, []);
            && |s| >= 24
            && Field(s, 0, 8) == d.timestampMs
            && Field(s, 8, 1) == d.priority
            && Field(s, 9, 4) == Unsigned32(d.lng)
            && Field(s, 13, 4) == Unsigned32(d.lat)
            && Field(s, 17, 2) == Unsigned16(d.altitude)
            && Field(s, 19, 2) == d.angle
            && Field(s, 21, 1) == d.satellites
            && Field(s, 22, 2) == d.speed
            && s[24..] == RenderBlock(BlockOf(d, l), l, [])
  {
    hide BigEndian, FromBigEndian, Pow256, Field, RenderBlock, BlockOf;
    Widths();
    var t8 := RenderBlock(BlockOf(d, l), l, []);
    var t7 := BigEndian(d.speed, 2) + t8;
    var t6 := BigEndian(d.satellites, 1) + t7;
    var t5 := BigEndian(d.angle, 2) + t6;
    var t4 := BigEndian(Unsigned16(d.altitude), 2) + t5;
    var t3 := BigEndian(Unsigned32(d.lat), 4) + t4;
    var t2 := BigEndian(Unsigned32(d.lng), 4) + t3;
    var t1 := BigEndian(d.priority, 1) + t2;
    var s := RenderRecord(RecordOf(d, l), l, []);
    var f1 := Peel(s, [], d.timestampMs, 8, t1);
    var f2 := Peel(s, f1, d.priority, 1, t2);
    var f3 := Peel(s, f2, Unsigned32(d.lng), 4, t3);
    var f4 := Peel(s, f3, Unsigned32(d.lat), 4, t4);
    var f5 := Peel(s, f4, Unsigned16(d.altitude), 2, t5);
    var f6 := Peel(s, f5, d.angle, 2, t6);
    var f7 := Peel(s, f6, d.satellites, 1, t7);
    var f8 := Peel(s, f7, d.speed, 2, t8);
  }

  // An element stands at s[at..]: its id in i bytes, then its value.
  ghost predicate ElementStands(s: Bytes, at: nat, e: Element, i: nat) {
    && at + i + |e.value| <= |s|
    && Field(s, at, i) == e.id && s[at + i..at + i + |e.value|] == e.value
  }

  // A group of elements with w-byte values stands at s[at..]: their number in c bytes, then one after the other the
  // elements with i-byte ids.
  ghost predicate GroupStands(s: Bytes, at: nat, es: seq<Element>, c: nat, i: nat, w: nat) {
    && at + c <= |s| && Field(s, at, c) == |es|
    && forall k :: 0 <= k < |es| ==> |es[k].value| == w && ElementStands(s, at + c + k * (i + w), es[k], i)
  }

  // An element of the variable-length group: its id in two bytes, its length in two bytes, then its value.
  ghost predicate VarElementStands(s: Bytes, at: nat, e: Element) {
    && at + 4 + |e.value| <= |s|
    && Field(s, at, 2) == e.id && Field(s, at + 2, 2) == |e.value| && s[at + 4..at + 4 + |e.value|] == e.value
  }

  // The variable-length group: the number of its elements in two bytes, then one after the other the elements.
  ghost predicate VariableStands(s: Bytes, at: nat, es: seq<Element>) {
    && at + 2 <= |s| && Field(s, at, 2) == |es|
    && forall k :: 0 <= k < |es| ==> VarElementStands(s, at + 2 + VarOffset(es, k), es[k])
  }

  // The element block of codec 8, every offset written out: event id, element count, and the groups of the elements
  // of each width in their order.
  lemma BlockLayout8(d: Data<Bytes>)
    requires EncodableData(d, LayoutOf(0x08))
    ensures var s := RenderBlock(BlockOf(d, LayoutOf(0x08)), LayoutOf(0x08), []);
            var es1, es2 := OfWidth(d.elements, 1), OfWidth(d.elements, 2);
            var es4, es8 := OfWidth(d.elements, 4), OfWidth(d.elements, 8);
            var g2 := 3 + 2 * |es1|;
            var g4 := g2 + 1 + 3 * |es2|;
            var g8 := g4 + 1 + 5 * |es4|;
            && |s| == g8 + 1 + 9 * |es8|
            && Field(s, 0, 1) == d.eventID && Field(s, 1, 1) == |d.elements|
            && GroupStands(s, 2, es1, 1, 1, 1) && GroupStands(s, g2, es2, 1, 1, 2)
            && GroupStands(s, g4, es4, 1, 1, 4) && GroupStands(s, g8, es8, 1, 1, 8)
  {
    hide BigEndian, FromBigEndian, Pow256, Field, OfWidth, EncodableElements, RenderGroups, GroupStands;
    var l := LayoutOf(0x08);
    Widths();
    var t := RenderGroups(GroupsOf(d.elements), l, []);
    var s := RenderBlock(BlockOf(d, l), l, []);
    var f1 := Peel(s, [], d.eventID, 1, BigEndian(|d.elements|, 1) + t);
    var f2 := Peel(s, f1, |d.elements|, 1, t);
    var f3 := GroupsStand(s, f2, d, l, []);
  }

  // The same for codec 16: two-byte ids, and the generation type in front of the count.
  lemma BlockLayout16(d: Data<Bytes>)
    requires EncodableData(d, LayoutOf(0x10))
    ensures var s := RenderBlock(BlockOf(d, LayoutOf(0x10)), LayoutOf(0x10), []);
            var es1, es2 := OfWidth(d.elements, 1), OfWidth(d.elements, 2);
            var es4, es8 := OfWidth(d.elements, 4), OfWidth(d.elements, 8);
            var g2 := 5 + 3 * |es1|;
            var g4 := g2 + 1 + 4 * |es2|;
            var g8 := g4 + 1 + 6 * |es4|;
            && |s| == g8 + 1 + 10 * |es8|
            && Field(s, 0, 2) == d.eventID && Field(s, 2, 1) == d.generationType && Field(s, 3, 1) == |d.elements|
            && GroupStands(s, 4, es1, 1, 2, 1) && GroupStands(s, g2, es2, 1, 2, 2)
            && GroupStands(s, g4, es4, 1, 2, 4) && GroupStands(s, g8, es8, 1, 2, 8)
  {
    hide BigEndian, FromBigEndian, Pow256, Field, OfWidth, EncodableElements, RenderGroups, GroupStands;
    var l := LayoutOf(0x10);
    Widths();
    var t := RenderGroups(GroupsOf(d.elements), l, []);
    var s := RenderBlock(BlockOf(d, l), l, []);
    var f1 := Peel(s, [], d.eventID, 2, BigEndian(d.generationType, 1) + (BigEndian(|d.elements|, 1) + t));
    var f2 := Peel(s, f1, d.generationType, 1, BigEndian(|d.elements|, 1) + t);
    var f3 := Peel(s, f2, |d.elements|, 1, t);
    var f4 := GroupsStand(s, f3, d, l, []);
  }

  // The same for codec 8E: two-byte counts, and behind the groups the elements of other lengths, their number first,
  // each one with its id, length and value.
  lemma BlockLayout8E(d: Data<Bytes>)
    requires EncodableData(d, LayoutOf(0x8E))
    ensures var s := RenderBlock(BlockOf(d, LayoutOf(0x8E)), LayoutOf(0x8E), []);
            var es1, es2 := OfWidth(d.elements, 1), OfWidth(d.elements, 2);
            var es4, es8, es := OfWidth(d.elements, 4), OfWidth(d.elements, 8), OfOtherWidth(d.elements);
            var g2 := 6 + 3 * |es1|;
            var g4 := g2 + 2 + 4 * |es2|;
            var g8 := g4 + 2 + 6 * |es4|;
            var g := g8 + 2 + 10 * |es8|;
            && |s| == g + 2 + VarOffset(es, |es|)
            && Field(s, 0, 2) == d.eventID && Field(s, 2, 2) == |d.elements|
            && GroupStands(s, 4, es1, 2, 2, 1) && GroupStands(s, g2, es2, 2, 2, 2)
            && GroupStands(s, g4, es4, 2, 2, 4) && GroupStands(s, g8, es8, 2, 2, 8)
            && VariableStands(s, g, es)
  {
    hide BigEndian, FromBigEndian, Pow256, Field, OfWidth, OfOtherWidth, EncodableElements, RenderGroups, VarOffset;
    hide RenderVarElements, GroupStands, VariableStands;
    var l, es := LayoutOf(0x8E), OfOtherWidth(d.elements);
    Widths();
    OthersFit(d, l);
    var v := BigEndian(|es|, 2) + RenderVarElements(es, []);
    var t := RenderGroups(GroupsOf(d.elements), l, v);
    var s := RenderBlock(BlockOf(d, l), l, []);
    var f1 := Peel(s, [], d.eventID, 2, BigEndian(|d.elements|, 2) + t);
    var f2 := Peel(s, f1, |d.elements|, 2, t);
    var f3 := GroupsStand(s, f2, d, l, v);
    VariableLayout(s, f3, es, []);
  }

  // ---------------------------------------------------------------- groups

  // The four groups one after the other; `next` is what stands in front of the tail.
  lemma GroupsStand(s: Bytes, front: Bytes, d: Data<Bytes>, l: Layout, t: Bytes) returns (next: Bytes)
    requires EncodableData(d, l) && s == front + RenderGroups(GroupsOf(d.elements), l, t)
    ensures var c, i, es := l.countWidth, l.idWidth, d.elements;
            var g2 := |front| + c + Times(|OfWidth(es, 1)|, i + 1);
            var g4 := g2 + c + Times(|OfWidth(es, 2)|, i + 2);
            var g8 := g4 + c + Times(|OfWidth(es, 4)|, i + 4);
            && GroupStands(s, |front|, OfWidth(es, 1), c, i, 1) && GroupStands(s, g2, OfWidth(es, 2), c, i, 2)
            && GroupStands(s, g4, OfWidth(es, 4), c, i, 4) && GroupStands(s, g8, OfWidth(es, 8), c, i, 8)
            && s == next + t && |next| == g8 + c + Times(|OfWidth(es, 8)|, i + 8)
  {
    hide BigEndian, FromBigEndian, Pow256, OfWidth, RenderElements, EncodableElements, GroupStands, Times;
    var gs := GroupsOf(d.elements);
    RegroupPermutes(d.elements);
    RegroupMultiset(d.elements);
    var t8 := BigEndian(|gs[3]|, l.countWidth) + RenderElements(gs[3], l, t);
    var t4 := BigEndian(|gs[2]|, l.countWidth) + RenderElements(gs[2], l, t8);
    var t2 := BigEndian(|gs[1]|, l.countWidth) + RenderElements(gs[1], l, t4);
    GroupsUnfolded(gs, l, t);
    var f1 := GroupStand(s, front, d.elements, l, 1, t2);
    var f2 := GroupStand(s, f1, d.elements, l, 2, t4);
    var f4 := GroupStand(s, f2, d.elements, l, 4, t8);
    next := GroupStand(s, f4, d.elements, l, 8, t);
  }

  lemma GroupsUnfolded(gs: seq<seq<Element>>, l: Layout, t: Bytes)
    requires |gs| == 4
    ensures RenderGroups(gs, l, t)
            == BigEndian(|gs[0]|, l.countWidth) + RenderElements(gs[0], l,
               BigEndian(|gs[1]|, l.countWidth) + RenderElements(gs[1], l,
               BigEndian(|gs[2]|, l.countWidth) + RenderElements(gs[2], l,
               BigEndian(|gs[3]|, l.countWidth) + RenderElements(gs[3], l, t))))
  {
    hide BigEndian, RenderElements;
    var a, b, c := gs[1..], gs[2..], gs[3..];
    assert a[1..] == b && b[1..] == c && c[1..] == [];
    assert RenderGroups(c[1..], l, t) == t;
    assert RenderGroups(c, l, t) == BigEndian(|gs[3]|, l.countWidth) + RenderElements(gs[3], l, t);
    assert RenderGroups(b, l, t)
           == BigEndian(|gs[2]|, l.countWidth) + RenderElements(gs[2], l, RenderGroups(c, l, t));
    assert RenderGroups(a, l, t)
           == BigEndian(|gs[1]|, l.countWidth) + RenderElements(gs[1], l, RenderGroups(b, l, t));
  }

  // The group of the elements of width w.
  lemma GroupStand(s: Bytes, front: Bytes, elements: seq<Element>, l: Layout, w: nat, t: Bytes) returns (next: Bytes)
    requires EncodableElements(elements, l) && |OfWidth(elements, w)| < Pow256(l.countWidth)
    requires var es := OfWidth(elements, w); s == front + (BigEndian(|es|, l.countWidth) + RenderElements(es, l, t))
    ensures GroupStands(s, |front|, OfWidth(elements, w), l.countWidth, l.idWidth, w)
    ensures s == next + t
    ensures |next| == |front| + l.countWidth + Times(|OfWidth(elements, w)|, l.idWidth + w)
  {
    hide BigEndian, FromBigEndian, Pow256, OfWidth, Field, Times, RenderElements, EncodableElements, ElementStands;
    hide GroupStands;
    var es := OfWidth(elements, w);
    ClassOf(elements, l, w);
    WFElementsMembers(es, l, w);
    ElementsTail(es, l, t);
    GroupSize(es, l, w);
    var r := RenderElements(es, l, t);
    var f1 := Peel(s, front, |es|, l.countWidth, r);
    next := f1 + RenderElements(es, l, []);
    forall k | 0 <= k < |es| ensures ElementStands(s, |f1| + Times(k, l.idWidth + w), es[k], l.idWidth) {
      ElementAt(es, l, w, k, t);
      StandsBehind(f1, r, Times(k, l.idWidth + w), es[k], l.idWidth);
    }
    StandsByProducts(s, |front|, es, l.countWidth, l.idWidth, w);
  }

  lemma StandsByProducts(s: Bytes, at: nat, es: seq<Element>, c: nat, i: nat, w: nat)
    requires at + c <= |s| && Field(s, at, c) == |es| && forall e :: e in es ==> |e.value| == w
    requires forall k :: 0 <= k < |es| ==> ElementStands(s, at + c + Times(k, i + w), es[k], i)
    ensures GroupStands(s, at, es, c, i, w)
  {
    hide Field, ElementStands, Times;
    forall k | 0 <= k < |es| ensures |es[k].value| == w && ElementStands(s, at + c + k * (i + w), es[k], i) {
      assert es[k] in es;
      TimesIs(k, i + w);
    }
  }

  lemma TimesIs(k: nat, n: nat)
    ensures Times(k, n) == k * n
  {}

  lemma StandsBehind(front: Bytes, r: Bytes, at: nat, e: Element, i: nat)
    requires ElementStands(r, at, e, i)
    ensures ElementStands(front + r, |front| + at, e, i)
  {
    hide Field;
    FieldBehind(front, r, at, i, |e.value|);
  }

  lemma VarStandsBehind(front: Bytes, r: Bytes, at: nat, e: Element)
    requires VarElementStands(r, at, e)
    ensures VarElementStands(front + r, |front| + at, e)
  {
    hide Field;
    FieldBehind(front, r, at, 2, 0);
    FieldBehind(front, r, at + 2, 2, |e.value|);
  }

  lemma FieldBehind(front: Bytes, r: Bytes, at: nat, m: nat, w: nat)
    requires at + m + w <= |r|
    ensures Field(front + r, |front| + at, m) == Field(r, at, m)
    ensures (front + r)[|front| + at + m..|front| + at + m + w] == r[at + m..at + m + w]
  {
    hide FromBigEndian;
    assert (front + r)[|front| + at..|front| + at + m] == r[at..at + m];
  }

  lemma {:induction false} GroupSize(es: seq<Element>, l: Layout, w: nat)
    requires forall e :: e in es ==> |e.value| == w
    ensures |RenderElements(es, l, [])| == Times(|es|, l.idWidth + w)
    decreases |es|
  {
    hide BigEndian, Times;
    if es == [] {
      TimesLaws(0, l.idWidth + w);
    } else {
      assert es[0] in es;
      GroupSize(es[1..], l, w);
      TimesLaws(|es| - 1, l.idWidth + w);
    }
  }

  // ---------------------------------------------------------------- the variable-length group

  // The bytes of the first k elements of the variable-length group.
  function VarOffset(es: seq<Element>, k: nat): nat
    requires k <= |es|
  {
    if k == 0 then 0 else VarOffset(es, k - 1) + 4 + |es[k - 1].value|
  }

  lemma {:induction false} VarOffsetHead(es: seq<Element>, k: nat)
    requires 0 < k <= |es|
    ensures VarOffset(es, k) == 4 + |es[0].value| + VarOffset(es[1..], k - 1)
  {
    if k > 1 {
      VarOffsetHead(es, k - 1);
    } else {
      assert VarOffset(es, 0) == 0 && VarOffset(es[1..], 0) == 0;
    }
  }

  lemma VariableLayout(s: Bytes, front: Bytes, es: seq<Element>, t: Bytes)
    requires |es| < 0x1_0000 && forall e :: e in es ==> |e.value| < 0x1_0000
    requires s == front + (BigEndian(|es|, 2) + RenderVarElements(es, t))
    ensures |s| == |front| + 2 + VarOffset(es, |es|) + |t|
    ensures VariableStands(s, |front|, es)
  {
    hide BigEndian, FromBigEndian, Pow256, Field, RenderVarElements, VarOffset, VariableStands;
    Widths();
    var f1 := Peel(s, front, |es|, 2, RenderVarElements(es, t));
    VarSize(es, t);
    VarElementsStand(s, |front|, f1, es, t);
  }

  lemma VarElementsStand(s: Bytes, at: nat, front: Bytes, es: seq<Element>, t: Bytes)
    requires s == front + RenderVarElements(es, t) && |front| == at + 2 && Field(s, at, 2) == |es|
    requires forall e :: e in es ==> |e.value| < 0x1_0000
    ensures VariableStands(s, at, es)
  {
    hide RenderVarElements, VarOffset, VarElementStands, Field;
    forall k | 0 <= k < |es| ensures VarElementStands(s, at + 2 + VarOffset(es, k), es[k]) {
      VarElementAt(es, k, t);
      VarStandsBehind(front, RenderVarElements(es, t), VarOffset(es, k), es[k]);
    }
  }

  lemma {:induction false} VarSize(es: seq<Element>, t: Bytes)
    ensures |RenderVarElements(es, t)| == VarOffset(es, |es|) + |t|
    decreases |es|
  {
    hide BigEndian;
    if es != [] {
      VarSize(es[1..], t);
      VarOffsetHead(es, |es|);
    }
  }

  lemma {:induction false} VarElementAt(es: seq<Element>, k: nat, t: Bytes)
    requires k < |es| && forall e :: e in es ==> |e.value| < 0x1_0000
    ensures VarElementStands(RenderVarElements(es, t), VarOffset(es, k), es[k])
    decreases k
  {
    hide BigEndian, FromBigEndian, Pow256, Field, VarOffset, RenderVarElement, VarElementStands;
    var rest, e := RenderVarElements(es[1..], t), es[0];
    assert e in es;
    if k == 0 {
      FirstVarElement(e, rest);
      NoOffset(es);
    } else {
      VarElementAt(es[1..], k - 1, t);
      VarOffsetHead(es, k);
      VarElementInFront(e, rest);
      VarStandsBehind(RenderVarElement(e, []), rest, VarOffset(es[1..], k - 1), es[k]);
    }
  }

  lemma NoOffset(es: seq<Element>)
    ensures VarOffset(es, 0) == 0
  {}

  lemma VarElementInFront(e: Element, rest: Bytes)
    ensures RenderVarElement(e, rest) == RenderVarElement(e, []) + rest
    ensures |RenderVarElement(e, [])| == 4 + |e.value|
  {
    hide BigEndian;
  }

  lemma FirstVarElement(e: Element, rest: Bytes)
    requires |e.value| < 0x1_0000
    ensures VarElementStands(RenderVarElement(e, rest), 0, e)
  {
    hide BigEndian, FromBigEndian, Pow256, Field;
    Widths();
    var s := RenderVarElement(e, rest);
    var f1 := Peel(s, [], e.id, 2, BigEndian(|e.value|, 2) + (e.value + rest));
    var f2 := Peel(s, f1, |e.value|, 2, e.value + rest);
  }

  lemma OthersFit(d: Data<Bytes>, l: Layout)
    requires EncodableData(d, l) && l.variable
    ensures |OfOtherWidth(d.elements)| <= |d.elements|
    ensures forall e :: e in OfOtherWidth(d.elements) ==> |e.value| < 0x1_0000
  {
    hide OfWidth, OfOtherWidth, Pow256;
    RegroupPermutes(d.elements);
    RegroupMultiset(d.elements);
    OthersOf(d.elements, l);
    WFVarElementsMembers(OfOtherWidth(d.elements));
  }

  // A record read from s has exactly as many elements as the count field of s declares: those of the groups for one,
  // two, four and eight bytes, those of the variable-length group, all in their order, then empty ones.
  lemma DeclaredElements(s: Bytes, l: Layout, b: Block, t: Bytes)
    requires ParseBlock(s, l) == Done(b, t)
    ensures var at := l.eventWidth + (if l.generation then 1 else 0);
            && at + l.countWidth <= |s| && |BlockElements(b)| == Field(s, at, l.countWidth)
    ensures |b.groups| == 4
    ensures var es, found := BlockElements(b), b.groups[0] + b.groups[1] + b.groups[2] + b.groups[3] + b.variable;
            && found <= es
            && (forall e :: e in b.groups[0] ==> |e.value| == 1) && (forall e :: e in b.groups[1] ==> |e.value| == 2)
            && (forall e :: e in b.groups[2] ==> |e.value| == 4) && (forall e :: e in b.groups[3] ==> |e.value| == 8)
            && forall i :: |found| <= i < |es| ==> es[i] == IOElement(0, [])
  {
    hide BigEndian, FromBigEndian, Pow256, Field, ParseBlock, WFGroups, WFVarElements, WFElements, Total, Flatten;
    hide RenderGroups, RenderVariable;
    Widths();
    BlockSound(s, l, b, t);
    WFGroupsShape(b.groups, l, b.ioCount);
    var g := b.groups;
    assert g == [g[0], g[1], g[2], g[3]];
    FourGroups(g[0], g[1], g[2], g[3], l, b.ioCount);
    WFElementsMembers(g[0], l, 1);
    WFElementsMembers(g[1], l, 2);
    WFElementsMembers(g[2], l, 4);
    WFElementsMembers(g[3], l, 8);
    var found := Flatten(g) + b.variable;
    assert BlockElements(b) == found + Blank(b.ioCount - |found|);
    var t3 := RenderGroups(g, l, RenderVariable(b.variable, l, t));
    var t2 := BigEndian(b.ioCount, l.countWidth) + t3;
    var f1 := Peel(s, [], b.eventID, l.eventWidth, if l.generation then BigEndian(b.generationType, 1) + t2 else t2);
    if l.generation {
      f1 := Peel(s, f1, b.generationType, 1, t2);
    }
    var f2 := Peel(s, f1, b.ioCount, l.countWidth, t3);
  }

  // In a group of w-byte values, element k stands at offset k * (id width + w), id first.
  lemma GroupLayout(es: seq<Element>, l: Layout, w: nat, k: nat, at: nat, t: Bytes)
    requires k < |es| && at == k * (l.idWidth + w)
    requires forall e :: e in es ==> e.id < Pow256(l.idWidth) && |e.value| == w
    ensures var s := RenderElements(es, l, t);
            && at + l.idWidth + w <= |s|
            && Field(s, at, l.idWidth) == es[k].id
            && s[at + l.idWidth..at + l.idWidth + w] == es[k].value
  {
    hide BigEndian, FromBigEndian, Pow256, Field, RenderElements, Times;
    TimesIs(k, l.idWidth + w);
    ElementAt(es, l, w, k, t);
    assert es[k] in es;
  }

  lemma {:induction false} ElementAt(es: seq<Element>, l: Layout, w: nat, k: nat, t: Bytes)
    requires k < |es|
    requires forall e :: e in es ==> e.id < Pow256(l.idWidth) && |e.value| == w
    ensures ElementStands(RenderElements(es, l, t), Times(k, l.idWidth + w), es[k], l.idWidth)
    decreases k
  {
    hide BigEndian, FromBigEndian, Pow256, Field, RenderElement, Times, ElementStands;
    var rest := RenderElements(es[1..], l, t);
    assert es[0] in es;
    if k == 0 {
      TimesLaws(0, l.idWidth + w);
      FirstElement(es[0], l, rest);
    } else {
      ElementAt(es[1..], l, w, k - 1, t);
      TimesLaws(k - 1, l.idWidth + w);
      ElementInFront(es[0], l, rest);
      StandsBehind(RenderElement(es[0], l, []), rest, Times(k - 1, l.idWidth + w), es[k], l.idWidth);
    }
  }

  lemma FirstElement(e: Element, l: Layout, rest: Bytes)
    requires e.id < Pow256(l.idWidth)
    ensures ElementStands(RenderElement(e, l, rest), 0, e, l.idWidth)
  {
    hide BigEndian, FromBigEndian, Pow256, Field;
    var f1 := Peel(RenderElement(e, l, rest), [], e.id, l.idWidth, e.value + rest);
  }

  lemma ElementInFront(e: Element, l: Layout, rest: Bytes)
    ensures RenderElement(e, l, rest) == RenderElement(e, l, []) + rest
    ensures |RenderElement(e, l, [])| == l.idWidth + |e.value|
  {
    hide BigEndian;
  }

  // A command: type, declared size, a timestamp for codecs 13 and 15, a packed IMEI for codecs 14 and 15, the text.
  lemma CommandLayout(m: Message, codec: byte)
    requires EncodableMessage(m, codec) && |m.text| + Overhead(codec) < 0x1_0000_0000
    ensures var s := RenderCommand(CommandOf(m, codec), codec, []);
            var timestamp := if codec == 0x0D || codec == 0x0F then 4 else 0;
            var imei := if codec == 0x0E || codec == 0x0F then 8 else 0;
            && |s| == 5 + timestamp + imei + |m.text|
            && Field(s, 0, 1) == m.messageType
            && Field(s, 1, 4) == timestamp + imei + |m.text|
            && (timestamp > 0 ==> Field(s, 5, 4) == m.timestamp)
            && (imei > 0 ==> Imei.PackImei(m.imei) == Some(s[5 + timestamp..13 + timestamp]))
            && s[5 + timestamp + imei..] == m.text
  {
    hide BigEndian, FromBigEndian, Pow256, Field, Imei.PackImei, IsMessageType, CommandOf;
    CommandSizeExact(m, codec);
    Widths();
    var s, c := RenderCommand(CommandOf(m, codec), codec, []), CommandOf(m, codec);
    CommandFields(m, codec);
    var body := c.imei + (c.text + []);
    var t2 := if HasTimestamp(codec) then BigEndian(c.timestamp, 4) + body else body;
    var t1 := BigEndian(|m.text| + Overhead(codec), 4) + t2;
    var f1 := Peel(s, [], m.messageType, 1, t1);
    var f2 := Peel(s, f1, |m.text| + Overhead(codec), 4, t2);
    if HasTimestamp(codec) {
      f2 := Peel(s, f2, m.timestamp, 4, body);
    }
    EndsWith(s, f2, c.imei, m.text);
  }

  lemma CommandFields(m: Message, codec: byte)
    requires EncodableMessage(m, codec)
    ensures var c := CommandOf(m, codec);
            && c.messageType == m.messageType && c.text == m.text
            && (HasTimestamp(codec) ==> c.timestamp == m.timestamp)
            && (if HasImei(codec) then Imei.PackImei(m.imei) == Some(c.imei) && |c.imei| == 8 else c.imei == [])
  {
    Imei.PackImeiAccepts(m.imei);
    hide Imei.PackImei;
  }

  lemma EndsWith(s: Bytes, front: Bytes, imei: Bytes, text: Bytes)
    requires s == front + (imei + (text + []))
    ensures s[|s| - |text|..] == text && s[|s| - |text| - |imei|..|s| - |text|] == imei
  {}

  // A packet: codec and count in front, the count again at the end.
  lemma BodyLayout(p: Packet<Bytes>)
    requires IsCodecSupported(p.codecID) && EncodableItems(p)
    ensures var s, n := Body(p), if 0x0C <= p.codecID <= 0x0F then |ListOf(p.messages)| else |ListOf(p.data)|;
            |s| >= 3 && Field(s, 0, 1) == p.codecID && Field(s, 1, 1) == n && Field(s, |s| - 1, 1) == n
  {
    hide BigEndian, FromBigEndian, Pow256, Field, RenderItems;
    Widths();
    var tree := TreeOf(p);
    var count := BigEndian(ItemCount(tree), 1);
    var items := RenderItems(tree, []);
    var s := Body(p);
    ItemsBetweenCounts(tree, count);
    var f1 := Peel(s, [], p.codecID, 1, count + (items + count));
    var f2 := Peel(s, f1, ItemCount(tree), 1, items + count);
    assert s == (f2 + items) + (count + []);
    var f3 := Peel(s, f2 + items, ItemCount(tree), 1, []);
  }

  // Record i stands behind the codec, the count and the records before it.
  lemma RecordPlace(p: Packet<Bytes>, i: nat)
    requires IsDataCodec(p.codecID) && EncodableItems(p) && i < |ListOf(p.data)|
    ensures var ds, l := ListOf(p.data), LayoutOf(p.codecID);
            var at, record := 2 + RecordsSize(ds[..i], l), RenderRecord(RecordOf(ds[i], l), l, []);
            at + |record| <= |Body(p)| && Body(p)[at..at + |record|] == record
  {
    hide BigEndian, RenderRecords, RenderRecord, RecordOf, RecordsSize, EncodableElements;
    var ds, l := ListOf(p.data), LayoutOf(p.codecID);
    RecordsSizeExact(ds, i, l);
    RecordsOfSnoc(ds, i, l);
    var a, b := RecordsOf(ds[..i + 1], l), RecordsOf(ds[i + 1..], l);
    assert RecordsOf(ds, l) == a + b;
    RecordsAppend(a, b, l);
    var count := BigEndian(|ds|, 1);
    RecordsTail(a + b, l, count + []);
    var front, record := RenderRecords(RecordsOf(ds[..i], l), l, []), RenderRecord(RecordOf(ds[i], l), l, []);
    InTheMiddle(BigEndian(p.codecID, 1) + count, front, record, RenderRecords(b, l, []) + (count + []), Body(p));
  }

  // The same for messages.
  lemma MessagePlace(p: Packet<Bytes>, i: nat)
    requires IsCMDCodecId(p.codecID) && EncodableItems(p) && i < |ListOf(p.messages)|
    ensures var ms, codec := ListOf(p.messages), p.codecID;
            var at, command := 2 + MessagesSize(ms[..i], codec), RenderCommand(CommandOf(ms[i], codec), codec, []);
            at + |command| <= |Body(p)| && Body(p)[at..at + |command|] == command
  {
    hide BigEndian, RenderCommands, RenderCommand, CommandOf, MessagesSize, EncodableMessage;
    var ms, codec := ListOf(p.messages), p.codecID;
    CommandsSizeExact(ms, i, codec);
    CommandsOfSnoc(ms, i, codec);
    var a, b := CommandsOf(ms[..i + 1], codec), CommandsOf(ms[i + 1..], codec);
    assert CommandsOf(ms, codec) == a + b;
    CommandsAppend(a, b, codec);
    var count := BigEndian(|ms|, 1);
    CommandsTail(a + b, codec, count + []);
    var front := RenderCommands(CommandsOf(ms[..i], codec), codec, []);
    var command := RenderCommand(CommandOf(ms[i], codec), codec, []);
    InTheMiddle(BigEndian(p.codecID, 1) + count, front, command, RenderCommands(b, codec, []) + (count + []), Body(p));
  }

  lemma InTheMiddle(head: Bytes, front: Bytes, x: Bytes, t: Bytes, s: Bytes)
    requires s == head + ((front + x) + t)
    ensures |head| + |front| + |x| <= |s| && s[|head| + |front|..|head| + |front| + |x|] == x
  {}

  lemma ItemsBetweenCounts(tree: Tree, t: Bytes)
    requires tree.DataTree? ==> IsDataCodec(tree.codec)
    ensures RenderItems(tree, t) == RenderItems(tree, []) + t
    ensures t + [] == t
  {
    hide RenderRecords, RenderCommands;
    match tree
    case DataTree(codec, records) => RecordsTail(records, LayoutOf(codec), t);
    case CommandTree(codec, commands) => CommandsTail(commands, codec, t);
  }

  // A frame: preamble, length of the body, body, checksum.
  lemma FrameLayout(body: Bytes)
    requires |body| < 0x1_0000_0000
    ensures var s := TCPFrame(body);
            && |s| == 12 + |body|
            && Field(s, 0, 4) == 0 && Field(s, 4, 4) == |body|
            && s[8..8 + |body|] == body && Field(s, 8 + |body|, 4) == Crc(body)
  {
    hide BigEndian, FromBigEndian, Pow256, Field, Crc;
    Widths();
    var s, crc := TCPFrame(body), BigEndian(Crc(body), 4);
    var f1 := Peel(s, [], 0, 4, BigEndian(|body|, 4) + (body + crc));
    var f2 := Peel(s, f1, |body|, 4, body + crc);
    assert s == (f2 + body) + (crc + []);
    var f3 := Peel(s, f2 + body, Crc(body), 4, []);
  }

  // A datagram's fields.
  lemma DatagramLayout(imei: Bytes, packetId: uint16, avlPacketId: byte, body: Bytes)
    requires 8 + |imei| + |body| <= MAX_SIZE
    ensures var s := UDPDatagram(imei, packetId, avlPacketId, body);
            && |s| == 8 + |imei| + |body|
            && Field(s, 0, 2) == |s| - 2 && Field(s, 2, 2) == packetId
            && s[4] == 1 && s[5] == avlPacketId
            && Field(s, 6, 2) == |imei| && s[8..8 + |imei|] == imei && s[8 + |imei|..] == body
  {
    hide BigEndian, FromBigEndian, Pow256, Field;
    Widths();
    var s := UDPDatagram(imei, packetId, avlPacketId, body);
    var t2 := BigEndian(|imei|, 2) + (imei + body);
    var t1 := BigEndian(packetId, 2) + ([1] + ([avlPacketId] + t2));
    var f1 := Peel(s, [], 6 + |imei| + |body|, 2, t1);
    var f2 := Peel(s, f1, packetId, 2, [1] + ([avlPacketId] + t2));
    assert s == (f2 + [1] + [avlPacketId]) + t2;
    var f3 := Peel(s, f2 + [1] + [avlPacketId], |imei|, 2, imei + body);
    assert s == f3 + (imei + (body + []));
    EndsWith(s, f3, imei, body);
  }

  // ---------------------------------------------------------------- limits

  // The packets that have an encoding, with every limit written out.
  lemma EncoderAccepts(p: Packet<Bytes>)
    ensures Encodable(p) <==>
      if 0x0C <= p.codecID <= 0x0F then
        && p.messages.Some? && p.data.None? && |p.messages.value| <= 255
        && forall i :: 0 <= i < |p.messages.value| ==>
          var m := p.messages.value[i];
          && (p.codecID == 0x0C ==> m.messageType in {0x05, 0x06})
          && (p.codecID == 0x0D ==> m.messageType == 0x06)
          && (p.codecID == 0x0E ==> m.messageType in {0x05, 0x06, 0x11})
          && (p.codecID >= 0x0E ==>
                && |m.imei| >= 15
                && forall c :: c in m.imei ==> 0x30 <= c <= 0x39 || 0x41 <= c <= 0x46 || 0x61 <= c <= 0x66)
      else
        && p.codecID in {0x08, 0x10, 0x8E}
        && p.data.Some? && p.messages.None? && |p.data.value| <= 255
        && forall i :: 0 <= i < |p.data.value| ==>
          var d := p.data.value[i];
          && |d.elements| <= (if p.codecID == 0x8E then 0xFFFF else 0xFF)
          && (p.codecID == 0x08 ==> d.eventID <= 0xFF)
          && (p.codecID == 0x10 ==> d.generationType <= 7)
          && forall j :: 0 <= j < |d.elements| ==>
            && (p.codecID == 0x08 ==> d.elements[j].id <= 0xFF)
            && (if p.codecID == 0x8E then 0 < |d.elements[j].value| <= 0xFFFF
                else |d.elements[j].value| in {1, 2, 4, 8})
  {
    Widths();
    hide Pow256;
  }

  // The headers that announce a frame or a datagram, with its size.
  lemma HeaderLimits(header: Bytes)
    ensures |header| == 8 ==>
      var size := 0x100_0000 * (header[4] as int) + 0x1_0000 * (header[5] as int) + 0x100 * (header[6] as int)
                  + header[7];
      FrameSize(header) == if header[..4] == [0, 0, 0, 0] && size <= 1280 then Some(size + 12) else None
    ensures |header| == 5 ==>
      var size := 0x100 * (header[0] as int) + header[1];
      && DatagramSize(header) == (if 3 <= size <= 1280 then Some(size + 2) else None)
      && PacketId(header) == 0x100 * (header[2] as int) + header[3]
  {
    hide FromBigEndian;
    if |header| == 8 {
      FromBytes(header[..4]);
      FromBytes(header[4..]);
      assert header[..4] == [header[0], header[1], header[2], header[3]];
    } else if |header| == 5 {
      FromBytes(header[..2]);
      FromBytes(header[2..4]);
    }
  }
}
