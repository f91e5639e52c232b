// What the encoder accepts, the syntax tree it writes, and the packet a receiver reads back.

module Canonical {
  import opened Bits
  import opened Wire
  import opened Model
  import opened Grammar
  import opened Imei

  predicate IsGroupWidth(n: nat) {
    n == 1 || n == 2 || n == 4 || n == 8
  }

  // ---------------------------------------------------------------- accepted packets

  predicate EncodableElement(e: Element, l: Layout) {
    && e.id < Pow256(l.idWidth)
    && (if l.variable then 0 < |e.value| < 0x1_0000 else IsGroupWidth(|e.value|))
  }

  predicate EncodableElements(es: seq<Element>, l: Layout) {
    forall i :: 0 <= i < |es| ==> EncodableElement(es[i], l)
  }

  predicate EncodableData(d: Data<Bytes>, l: Layout) {
    && d.eventID < Pow256(l.eventWidth)
    && (l.generation ==> d.generationType <= 7)
    && |d.elements| < Pow256(l.countWidth)
    && EncodableElements(d.elements, l)
  }

  predicate EncodableMessage(m: Message, codec: byte) {
    && IsMessageType(codec, m.messageType)
    && (HasImei(codec) ==> AllHex(m.imei) && |m.imei| >= 15)
  }

  function ListOf<T>(list: Option<seq<T>>): seq<T> {
    match list
    case Some(items) => items
    case None => []
  }

  // Every item can be written and the count fits its byte.
  predicate EncodableItems(p: Packet<Bytes>)
    requires IsCodecSupported(p.codecID)
  {
    if IsCMDCodecId(p.codecID) then
      var ms := ListOf(p.messages);
      |ms| <= 255 && forall i :: 0 <= i < |ms| ==> EncodableMessage(ms[i], p.codecID)
    else
      var ds := ListOf(p.data);
      |ds| <= 255 && forall i :: 0 <= i < |ds| ==> EncodableData(ds[i], LayoutOf(p.codecID))
  }

  // The packets that have an encoding: a supported codec, the list that belongs to it and only that one.
  predicate Encodable(p: Packet<Bytes>) {
    && IsCodecSupported(p.codecID)
    && p.messages.Some? == IsCMDCodecId(p.codecID)
    && p.data.Some? == IsDataCodec(p.codecID)
    && EncodableItems(p)
  }

  // ---------------------------------------------------------------- the tree of a packet

  // The elements whose values are w bytes long, in their order.
  function OfWidth(es: seq<Element>, w: nat): seq<Element> {
    if es == [] then []
    else
      var front, last := OfWidth(es[..|es| - 1], w), es[|es| - 1];
      if |last.value| == w then front + [last] else front
  }

  // The elements of any other length.
  function OfOtherWidth(es: seq<Element>): seq<Element> {
    if es == [] then []
    else
      var front, last := OfOtherWidth(es[..|es| - 1]), es[|es| - 1];
      if IsGroupWidth(|last.value|) then front else front + [last]
  }

  function GroupsOf(es: seq<Element>): seq<seq<Element>> {
    [OfWidth(es, 1), OfWidth(es, 2), OfWidth(es, 4), OfWidth(es, 8)]
  }

  function BlockOf(d: Data<Bytes>, l: Layout): Block {
    Block(
      d.eventID,
      if l.generation then d.generationType else UNKNOWN_GENERATION,
      |d.elements|,
      GroupsOf(d.elements),
      if l.variable then OfOtherWidth(d.elements) else [])
  }

  function PositionOf(d: Data<Bytes>): Position {
    Position(d.timestampMs, d.priority, d.lng, d.lat, d.altitude, d.angle, d.satellites, d.speed)
  }

  function RecordOf(d: Data<Bytes>, l: Layout): Record {
    Record(PositionOf(d), BlockOf(d, l))
  }

  function RecordsOf(ds: seq<Data<Bytes>>, l: Layout): (rs: seq<Record>)
    ensures |rs| == |ds|
  {
    seq(|ds|, i requires 0 <= i < |ds| => RecordOf(ds[i], l))
  }

  function CommandOf(m: Message, codec: byte): Command {
    Command(
      m.messageType,
      if HasTimestamp(codec) then m.timestamp else 0,
      if HasImei(codec) then (match PackImei(m.imei) case Some(packed) => packed case None => []) else [],
      m.text)
  }

  function CommandsOf(ms: seq<Message>, codec: byte): (cs: seq<Command>)
    ensures |cs| == |ms|
  {
    seq(|ms|, i requires 0 <= i < |ms| => CommandOf(ms[i], codec))
  }

  function TreeOf(p: Packet<Bytes>): (tree: Tree)
    requires IsCodecSupported(p.codecID)
    ensures tree.codec == p.codecID && tree.CommandTree? == IsCMDCodecId(p.codecID)
  {
    if IsCMDCodecId(p.codecID) then
      CommandTree(p.codecID, CommandsOf(ListOf(p.messages), p.codecID))
    else
      DataTree(p.codecID, RecordsOf(ListOf(p.data), LayoutOf(p.codecID)))
  }

  // ---------------------------------------------------------------- the packet read back

  // Stable regrouping by value width.
  function Regroup(es: seq<Element>): seq<Element> {
    OfWidth(es, 1) + OfWidth(es, 2) + OfWidth(es, 4) + OfWidth(es, 8) + OfOtherWidth(es)
  }

  function CanonicalData(d: Data<Bytes>, codec: byte): Data<Bytes> {
    d.(elements := Regroup(d.elements),
       generationType := if codec == CODEC_16 then d.generationType else UNKNOWN_GENERATION)
  }

  function CanonicalMessage(m: Message, codec: byte): Message {
    m.(timestamp := if HasTimestamp(codec) then m.timestamp else 0,
       imei := if HasImei(codec) then NormalImei(m.imei) else [])
  }

  function CanonicalPacket(p: Packet<Bytes>): Packet<Bytes> {
    var codec := p.codecID;
    Packet(
      codec,
      match p.data {
        case Some(ds) => Some(seq(|ds|, i requires 0 <= i < |ds| => CanonicalData(ds[i], codec)))
        case None => None
      },
      match p.messages {
        case Some(ms) => Some(seq(|ms|, i requires 0 <= i < |ms| => CanonicalMessage(ms[i], codec)))
        case None => None
      })
  }

  // ---------------------------------------------------------------- regrouping

  lemma {:induction false} OfWidthMembers(es: seq<Element>, w: nat)
    ensures forall e :: e in OfWidth(es, w) <==> e in es && |e.value| == w
  {
    if es != [] {
      OfWidthMembers(es[..|es| - 1], w);
      assert es == es[..|es| - 1] + [es[|es| - 1]];
      assert forall e :: e in es <==> e in es[..|es| - 1] || e == es[|es| - 1];
    }
  }

  lemma {:induction false} OfOtherWidthMembers(es: seq<Element>)
    ensures forall e :: e in OfOtherWidth(es) <==> e in es && !IsGroupWidth(|e.value|)
  {
    if es != [] {
      OfOtherWidthMembers(es[..|es| - 1]);
      assert es == es[..|es| - 1] + [es[|es| - 1]];
      assert forall e :: e in es <==> e in es[..|es| - 1] || e == es[|es| - 1];
    }
  }

  // Every element is in exactly one class.
  lemma {:induction false} RegroupPermutes(es: seq<Element>)
    ensures multiset(Regroup(es)) == multiset(es)
    ensures |Regroup(es)| == |es|
  {
    if es != [] {
      var front, last := es[..|es| - 1], es[|es| - 1];
      RegroupPermutes(front);
      assert es == front + [last];
      RegroupSnoc(front, last);
    }
  }

  lemma RegroupSnoc(front: seq<Element>, last: Element)
    ensures multiset(Regroup(front + [last])) == multiset(Regroup(front)) + multiset{last}
    ensures |Regroup(front + [last])| == |Regroup(front)| + 1
  {
    hide OfWidth, OfOtherWidth, Regroup;
    var es, n := front + [last], |last.value|;
    ClassSnoc(front, last, 1);
    ClassSnoc(front, last, 2);
    ClassSnoc(front, last, 4);
    ClassSnoc(front, last, 8);
    OfOtherWidthSnoc(front, last);
    RegroupMultiset(front);
    RegroupMultiset(es);
    var a, b, c := multiset(OfWidth(front, 1)), multiset(OfWidth(front, 2)), multiset(OfWidth(front, 4));
    var d, e, x := multiset(OfWidth(front, 8)), multiset(OfOtherWidth(front)), multiset{last};
    OneMore(a, x, b);
    OneMore(a + b, x, c);
    OneMore(a + b + c, x, d);
    OneMore(a + b + c + d, x, e);
  }

  // One more in the first of two multisets is one more in their sum; likewise in the second.
  lemma OneMore(p: multiset<Element>, x: multiset<Element>, q: multiset<Element>)
    ensures p + x + q == p + q + x
    ensures p + (q + x) == p + q + x
  {}

  lemma ClassSnoc(front: seq<Element>, last: Element, w: nat)
    ensures multiset(OfWidth(front + [last], w))
            == if |last.value| == w then multiset(OfWidth(front, w)) + multiset{last} else multiset(OfWidth(front, w))
    ensures |OfWidth(front + [last], w)| == |OfWidth(front, w)| + if |last.value| == w then 1 else 0
  {
    hide OfWidth;
    OfWidthSnoc(front, last, w);
  }

  lemma RegroupMultiset(es: seq<Element>)
    ensures multiset(Regroup(es))
            == multiset(OfWidth(es, 1)) + multiset(OfWidth(es, 2)) + multiset(OfWidth(es, 4)) + multiset(OfWidth(es, 8))
               + multiset(OfOtherWidth(es))
    ensures |Regroup(es)|
            == |OfWidth(es, 1)| + |OfWidth(es, 2)| + |OfWidth(es, 4)| + |OfWidth(es, 8)| + |OfOtherWidth(es)|
  {
    hide OfWidth, OfOtherWidth;
  }

  lemma OfWidthSnoc(front: seq<Element>, last: Element, w: nat)
    ensures OfWidth(front + [last], w) == OfWidth(front, w) + (if |last.value| == w then [last] else [])
  {
    assert (front + [last])[..|front|] == front;
  }

  lemma OfOtherWidthSnoc(front: seq<Element>, last: Element)
    ensures OfOtherWidth(front + [last]) == OfOtherWidth(front) + (if IsGroupWidth(|last.value|) then [] else [last])
  {
    assert (front + [last])[..|front|] == front;
  }

  lemma {:induction false} OfWidthAppend(a: seq<Element>, b: seq<Element>, w: nat)
    ensures OfWidth(a + b, w) == OfWidth(a, w) + OfWidth(b, w)
    decreases |b|
  {
    if b == [] {
      assert a + b == a;
    } else {
      var front, last := b[..|b| - 1], b[|b| - 1];
      assert a + b == (a + front) + [last];
      assert b == front + [last];
      OfWidthSnoc(a + front, last, w);
      OfWidthSnoc(front, last, w);
      OfWidthAppend(a, front, w);
    }
  }

  lemma {:induction false} OfOtherWidthAppend(a: seq<Element>, b: seq<Element>)
    ensures OfOtherWidth(a + b) == OfOtherWidth(a) + OfOtherWidth(b)
    decreases |b|
  {
    if b == [] {
      assert a + b == a;
    } else {
      var front, last := b[..|b| - 1], b[|b| - 1];
      assert a + b == (a + front) + [last];
      assert b == front + [last];
      OfOtherWidthSnoc(a + front, last);
      OfOtherWidthSnoc(front, last);
      OfOtherWidthAppend(a, front);
    }
  }

  // A list of one class: its own class is the whole list, the others are empty.
  lemma {:induction false} OfWidthUniform(es: seq<Element>, v: nat, w: nat)
    requires forall e :: e in es ==> |e.value| == v
    ensures OfWidth(es, w) == if v == w then es else []
  {
    if es != [] {
      var front, last := es[..|es| - 1], es[|es| - 1];
      assert last in es;
      OfWidthUniform(front, v, w);
      assert es == front + [last];
    }
  }

  lemma {:induction false} OfWidthNone(es: seq<Element>, w: nat)
    requires forall e :: e in es ==> |e.value| != w
    ensures OfWidth(es, w) == []
  {
    if es != [] {
      assert es[|es| - 1] in es;
      OfWidthNone(es[..|es| - 1], w);
    }
  }

  lemma {:induction false} OfOtherWidthNone(es: seq<Element>)
    requires forall e :: e in es ==> IsGroupWidth(|e.value|)
    ensures OfOtherWidth(es) == []
  {
    if es != [] {
      assert es[|es| - 1] in es;
      OfOtherWidthNone(es[..|es| - 1]);
    }
  }

  lemma {:induction false} OfOtherWidthAll(es: seq<Element>)
    requires forall e :: e in es ==> !IsGroupWidth(|e.value|)
    ensures OfOtherWidth(es) == es
  {
    if es != [] {
      assert es[|es| - 1] in es;
      OfOtherWidthAll(es[..|es| - 1]);
      assert es == es[..|es| - 1] + [es[|es| - 1]];
    }
  }

  // Regrouping a list that is already split by width gives the classes back.
  lemma RegroupOfGroups(g1: seq<Element>, g2: seq<Element>, g4: seq<Element>, g8: seq<Element>, other: seq<Element>)
    requires forall e :: e in g1 ==> |e.value| == 1
    requires forall e :: e in g2 ==> |e.value| == 2
    requires forall e :: e in g4 ==> |e.value| == 4
    requires forall e :: e in g8 ==> |e.value| == 8
    requires forall e :: e in other ==> !IsGroupWidth(|e.value|)
    ensures var es := g1 + g2 + g4 + g8 + other;
            && OfWidth(es, 1) == g1 && OfWidth(es, 2) == g2 && OfWidth(es, 4) == g4 && OfWidth(es, 8) == g8
            && OfOtherWidth(es) == other
  {
    forall w | IsGroupWidth(w)
      ensures OfWidth(g1 + g2 + g4 + g8 + other, w)
              == if w == 1 then g1 else if w == 2 then g2 else if w == 4 then g4 else g8
    {
      hide OfWidth;
      OfWidthAppend(g1, g2, w);
      OfWidthAppend(g1 + g2, g4, w);
      OfWidthAppend(g1 + g2 + g4, g8, w);
      OfWidthAppend(g1 + g2 + g4 + g8, other, w);
      OfWidthUniform(g1, 1, w);
      OfWidthUniform(g2, 2, w);
      OfWidthUniform(g4, 4, w);
      OfWidthUniform(g8, 8, w);
      OfWidthNone(other, w);
    }
    OtherOfGroups(g1 + g2 + g4 + g8, other);
  }

  lemma OtherOfGroups(grouped: seq<Element>, other: seq<Element>)
    requires forall e :: e in grouped ==> IsGroupWidth(|e.value|)
    requires forall e :: e in other ==> !IsGroupWidth(|e.value|)
    ensures OfOtherWidth(grouped + other) == other
  {
    OfOtherWidthAppend(grouped, other);
    OfOtherWidthNone(grouped);
    OfOtherWidthAll(other);
  }

  // Regrouping keeps the order within every class, and doing it again changes nothing.
  lemma RegroupStable(es: seq<Element>)
    ensures forall w :: IsGroupWidth(w) ==> OfWidth(Regroup(es), w) == OfWidth(es, w)
    ensures OfOtherWidth(Regroup(es)) == OfOtherWidth(es)
    ensures Regroup(Regroup(es)) == Regroup(es)
  {
    OfWidthMembers(es, 1);
    OfWidthMembers(es, 2);
    OfWidthMembers(es, 4);
    OfWidthMembers(es, 8);
    OfOtherWidthMembers(es);
    hide OfWidth, OfOtherWidth;
    RegroupOfGroups(OfWidth(es, 1), OfWidth(es, 2), OfWidth(es, 4), OfWidth(es, 8), OfOtherWidth(es));
  }

  // An element of width w is in its class, behind as many others as come before it in the list.
  lemma OfWidthAt(es: seq<Element>, i: nat, w: nat)
    requires i < |es| && |es[i].value| == w
    ensures var k := |OfWidth(es[..i], w)|;
            k < |OfWidth(es, w)| && OfWidth(es, w)[k] == es[i]
  {
    var front, back := es[..i + 1], es[i + 1..];
    assert es == front + back && front == es[..i] + [es[i]];
    OfWidthAppend(front, back, w);
    OfWidthSnoc(es[..i], es[i], w);
  }

  lemma OfOtherWidthAt(es: seq<Element>, i: nat)
    requires i < |es| && !IsGroupWidth(|es[i].value|)
    ensures var k := |OfOtherWidth(es[..i])|;
            k < |OfOtherWidth(es)| && OfOtherWidth(es)[k] == es[i]
  {
    var front, back := es[..i + 1], es[i + 1..];
    assert es == front + back && front == es[..i] + [es[i]];
    OfOtherWidthAppend(front, back);
    OfOtherWidthSnoc(es[..i], es[i]);
  }
}
