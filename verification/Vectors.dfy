// The packets and bytes of the encoder tests: what the encoder is expected to write for them, and what a decoder
// reads back. The checksum stands as the value of `Crc`.

module Vectors {
  import opened Bits
  import opened Wire
  import opened Model
  import opened Grammar
  import opened Canonical
  import opened Rendering
  import opened RoundTrip
  import opened Framing
  import opened Crc16
  import Imei

  // ---------------------------------------------------------------- bytes of a number

  lemma Four(a: byte, b: byte, c: byte, d: byte)
    ensures BigEndian(0x100_0000 * (a as int) + 0x1_0000 * (b as int) + 0x100 * (c as int) + d, 4) == [a, b, c, d]
  {
    hide BigEndian, FromBigEndian;
    FromBigEndianInverse([a, b, c, d]);
    FromBytes([a, b, c, d]);
  }

  // ---------------------------------------------------------------- a packet and its frame

  // The frame around `body`, when it is shorter than 256 bytes.
  function FrameAround(body: Bytes): Bytes
    requires |body| < 0x100
  {
    [0, 0, 0, 0, 0, 0, 0, |body|] + body + [0, 0, Crc(body) / 0x100, Crc(body) % 0x100]
  }

  // The encoder writes the frame for the packet, and a decoder reads the packet from the frame.
  ghost predicate IsFrameOf(body: Bytes, p: Packet<Bytes>) {
    && Encodable(p)
    && |body| < 0x100 && TCPFrame(Body(p)) == FrameAround(body)
    && ParseFrame(FrameAround(body)).Some?
    && ParseFrame(FrameAround(body)).value.size == |body| + 12
    && Meaning(ParseFrame(FrameAround(body)).value.tree) == p
  }

  lemma FrameOfBody(body: Bytes, p: Packet<Bytes>)
    requires Encodable(p) && Body(p) == body && |body| < 0x100 && CanonicalPacket(p) == p
    ensures IsFrameOf(body, p)
  {
    hide BigEndian, ParseFrame, EncodableItems, Body, Crc, TreeOf, Meaning, CanonicalPacket;
    TCPRoundTrip(p, []);
    Four(0, 0, 0, 0);
    Four(0, 0, 0, |body|);
    Four(0, 0, Crc(body) / 0x100, Crc(body) % 0x100);
    assert TCPFrame(body) == FrameAround(body);
    assert FrameAround(body) + [] == FrameAround(body);
  }

  // ---------------------------------------------------------------- commands

  function CommandPacket(codec: byte, m: Message): Packet<Bytes> {
    Packet(codec, None, Some([m]))
  }

  lemma CommandBody(codec: byte, m: Message, size: byte, imei: Bytes)
    requires 0x0C <= codec <= 0x0F && EncodableMessage(m, codec) && CanonicalMessage(m, codec) == m
    requires size == |m.text| + Overhead(codec) && |m.text| < 200
    requires imei == CommandOf(m, codec).imei && |imei| <= 8
    ensures var timestamp := if codec == 0x0D || codec == 0x0F then BigEndian(m.timestamp, 4) else [];
            var body := [codec, 1, m.messageType, 0, 0, 0, size] + timestamp + imei + m.text + [1];
            |body| < 0x100 && IsFrameOf(body, CommandPacket(codec, m))
  {
    hide BigEndian, RenderCommands, IsMessageType, Imei.AllHex, Imei.PackImei, Imei.NormalImei, IsFrameOf, WFCommands;
    hide RenderCommand, Body, CommandOf, CanonicalMessage;
    var p, c := CommandPacket(codec, m), CommandOf(m, codec);
    var timestamp := if codec == 0x0D || codec == 0x0F then BigEndian(m.timestamp, 4) else [];
    var body := [codec, 1, m.messageType, 0, 0, 0, size] + timestamp + imei + m.text + [1];
    assert p.messages.value == [m];
    assert CanonicalPacket(p) == p by {
      assert seq(1, i requires 0 <= i < 1 => CanonicalMessage([m][i], codec)) == [m];
    }
    CommandBytes(codec, m, size);
    FrameOfBody(body, p);
  }

  lemma CommandBytes(codec: byte, m: Message, size: byte)
    requires 0x0C <= codec <= 0x0F
    requires size == |m.text| + Overhead(codec) && |m.text| < 200
    ensures var timestamp := if codec == 0x0D || codec == 0x0F then BigEndian(m.timestamp, 4) else [];
            Body(CommandPacket(codec, m))
            == [codec, 1, m.messageType, 0, 0, 0, size] + timestamp + CommandOf(m, codec).imei + m.text + [1]
  {
    hide BigEndian, RenderCommand, CommandOf, Body;
    var c, n := CommandOf(m, codec), BigEndian(1, 1);
    BodyOfCommand(codec, m);
    CommandKeeps(m, codec);
    CommandAlone(c, codec, size, n + []);
    OneByte(codec);
    OneByte(1);
    var timestamp := if codec == 0x0D || codec == 0x0F then BigEndian(m.timestamp, 4) else [];
    Concat(codec, 1, m.messageType, size, timestamp, c.imei, m.text, n + []);
    assert n + [] == n;
  }

  lemma CommandKeeps(m: Message, codec: byte)
    ensures var c := CommandOf(m, codec);
            && c.messageType == m.messageType && c.text == m.text
            && (HasTimestamp(codec) ==> c.timestamp == m.timestamp)
  {}

  lemma BodyOfCommand(codec: byte, m: Message)
    requires 0x0C <= codec <= 0x0F
    ensures Body(CommandPacket(codec, m))
            == BigEndian(codec, 1)
               + (BigEndian(1, 1) + RenderCommand(CommandOf(m, codec), codec, BigEndian(1, 1) + []))
  {
    hide BigEndian, RenderCommands, RenderCommand, CommandOf, WFCommands;
    assert CommandsOf([m], codec) == [CommandOf(m, codec)];
    OneCommand(CommandOf(m, codec), codec, BigEndian(1, 1) + []);
  }

  lemma CommandAlone(c: Command, codec: byte, size: byte, t: Bytes)
    requires size == |c.text| + Overhead(codec) && 0x0C <= codec <= 0x0F
    ensures var timestamp := if codec == 0x0D || codec == 0x0F then BigEndian(c.timestamp, 4) else [];
            RenderCommand(c, codec, t) == [c.messageType] + ([0, 0, 0, size] + (timestamp + (c.imei + (c.text + t))))
  {
    hide BigEndian;
    OneByte(c.messageType);
    Four(0, 0, 0, size);
    assert [] + (c.imei + (c.text + t)) == c.imei + (c.text + t);
  }

  lemma Concat(a: byte, b: byte, c: byte, d: byte, x: Bytes, y: Bytes, z: Bytes, t: Bytes)
    ensures [a] + ([b] + ([c] + ([0, 0, 0, d] + (x + (y + (z + t)))))) == [a, b, c, 0, 0, 0, d] + x + y + z + t
  {}

  lemma Codec12()
    ensures IsFrameOf([0x0C, 0x01, 0x05, 0x00, 0x00, 0x00, 0x07, 0x67, 0x65, 0x74, 0x69, 0x6E, 0x66, 0x6F, 0x01],
                      CommandPacket(0x0C, Message(0, 0x05, [], GETINFO)))
  {
    hide IsFrameOf, BigEndian;
    assert [0x0C, 1, 0x05, 0, 0, 0, 7] + [] + [] + GETINFO + [1]
           == [0x0C, 0x01, 0x05, 0x00, 0x00, 0x00, 0x07, 0x67, 0x65, 0x74, 0x69, 0x6E, 0x66, 0x6F, 0x01];
    CommandBody(0x0C, Message(0, 0x05, [], GETINFO), 7, []);
  }

  const GETINFO: Bytes := [0x67, 0x65, 0x74, 0x69, 0x6E, 0x66, 0x6F]  // "getinfo"

  // Text and packed field of an IMEI.
  lemma PackedImei(imei: Bytes, packed: Bytes)
    requires |packed| == 8 && packed[0] != 0
    requires Imei.HexEncode(packed) == [0x30] + imei && imei != [] && imei[0] != 0x30
    ensures |imei| == 15 && Imei.AllHex(imei) && Imei.PackImei(imei) == Some(packed) && Imei.NormalImei(imei) == imei
  {
    hide Imei.HexEncode, Imei.PackImei, Imei.AllHex;
    var h := [0x30] + imei;
    assert h[1..] == imei;
    assert Imei.TrimLeftZeros(imei) == imei;
    assert Imei.TrimLeftZeros(h) == Imei.TrimLeftZeros(h[1..]);
    Imei.ImeiUnpackPack(packed);
  }

  // The digits of one byte.
  function Digits(a: byte): Bytes {
    [Imei.HexDigit(a / 16), Imei.HexDigit(a % 16)]
  }

  lemma HexOf(a: byte, t: Bytes)
    ensures Imei.HexEncode([a] + t) == Digits(a) + Imei.HexEncode(t)
  {
    var s := [a] + t;
    assert s[1..] == t;
  }

  // "123456789123456"
  const IMEI: Bytes := [0x31, 0x32, 0x33, 0x34, 0x35, 0x36, 0x37, 0x38, 0x39, 0x31, 0x32, 0x33, 0x34, 0x35, 0x36]

  lemma ImeiBytes()
    ensures Imei.HexEncode([0x01, 0x23, 0x45, 0x67, 0x89, 0x12, 0x34, 0x56]) == [0x30] + IMEI
  {
    hide Imei.HexEncode, Digits;
    HexOfFour(0x89, 0x12, 0x34, 0x56, []);
    HexOfFour(0x01, 0x23, 0x45, 0x67, [0x89, 0x12, 0x34, 0x56]);
    assert [0x01, 0x23, 0x45, 0x67] + [0x89, 0x12, 0x34, 0x56] == [0x01, 0x23, 0x45, 0x67, 0x89, 0x12, 0x34, 0x56];
    assert [0x89, 0x12, 0x34, 0x56] + [] == [0x89, 0x12, 0x34, 0x56];
    ImeiDigits();
  }

  lemma HexOfFour(a: byte, b: byte, c: byte, d: byte, t: Bytes)
    ensures Imei.HexEncode([a, b, c, d] + t) == Digits(a) + (Digits(b) + (Digits(c) + (Digits(d) + Imei.HexEncode(t))))
  {
    hide Imei.HexEncode, Digits;
    HexOf(d, t);
    HexOf(c, [d] + t);
    HexOf(b, [c] + ([d] + t));
    HexOf(a, [b] + ([c] + ([d] + t)));
    assert [a, b, c, d] + t == [a] + ([b] + ([c] + ([d] + t)));
  }

  lemma ImeiDigits()
    ensures Digits(0x01) + (Digits(0x23) + (Digits(0x45) + (Digits(0x67)
            + (Digits(0x89) + (Digits(0x12) + (Digits(0x34) + (Digits(0x56) + Imei.HexEncode([])))))))) == [0x30] + IMEI
  {
    hide Digits, Imei.HexEncode;
    PairsOfDigits();
    FourPairs(0x38, 0x39, 0x31, 0x32, 0x33, 0x34, 0x35, 0x36, []);
    FourPairs(0x30, 0x31, 0x32, 0x33, 0x34, 0x35, 0x36, 0x37, [0x38, 0x39, 0x31, 0x32, 0x33, 0x34, 0x35, 0x36] + []);
    assert [0x30, 0x31, 0x32, 0x33, 0x34, 0x35, 0x36, 0x37] + ([0x38, 0x39, 0x31, 0x32, 0x33, 0x34, 0x35, 0x36] + [])
           == [0x30] + IMEI;
  }

  lemma PairsOfDigits()
    ensures Digits(0x01) == [0x30, 0x31] && Digits(0x23) == [0x32, 0x33] && Digits(0x45) == [0x34, 0x35]
    ensures Digits(0x67) == [0x36, 0x37] && Digits(0x89) == [0x38, 0x39] && Digits(0x12) == [0x31, 0x32]
    ensures Digits(0x34) == [0x33, 0x34] && Digits(0x56) == [0x35, 0x36] && Imei.HexEncode([]) == []
  {}

  lemma FourPairs(a: byte, b: byte, c: byte, d: byte, e: byte, f: byte, g: byte, h: byte, t: Bytes)
    ensures [a, b] + ([c, d] + ([e, f] + ([g, h] + t))) == [a, b, c, d, e, f, g, h] + t
  {}

  lemma Codec15()
    ensures IsFrameOf([0x0F, 0x01, 0x0B, 0x00, 0x00, 0x00, 0x13, 0x65, 0x4B, 0x65, 0xA4, 0x01, 0x23, 0x45, 0x67, 0x89,
                       0x12, 0x34, 0x56, 0x48, 0x65, 0x6C, 0x6C, 0x6F, 0x21, 0x0A, 0x01],
                      CommandPacket(0x0F, Message(1699440036, 0x0B, IMEI, HELLO)))
  {
    hide IsFrameOf, BigEndian, Imei.HexEncode, Imei.PackImei, Imei.AllHex, Imei.NormalImei;
    var packed: Bytes := [0x01, 0x23, 0x45, 0x67, 0x89, 0x12, 0x34, 0x56];
    assert [0x0F, 1, 0x0B, 0, 0, 0, 19] + [0x65, 0x4B, 0x65, 0xA4] + packed + HELLO + [1]
           == [0x0F, 0x01, 0x0B, 0x00, 0x00, 0x00, 0x13, 0x65, 0x4B, 0x65, 0xA4, 0x01, 0x23, 0x45, 0x67, 0x89, 0x12,
               0x34, 0x56, 0x48, 0x65, 0x6C, 0x6C, 0x6F, 0x21, 0x0A, 0x01];
    ImeiBytes();
    PackedImei(IMEI, packed);
    CommandBody(0x0F, Message(1699440036, 0x0B, IMEI, HELLO), 19, packed);
    Four(0x65, 0x4B, 0x65, 0xA4);
  }

  const HELLO: Bytes := [0x48, 0x65, 0x6C, 0x6C, 0x6F, 0x21, 0x0A]  // "Hello!", end of line

  // ---------------------------------------------------------------- data records

  // The bytes of elements with i-byte ids.
  function Flat(es: seq<Element>, i: nat): Bytes {
    if es == [] then [] else Item(es[0], i) + Flat(es[1..], i)
  }

  function Item(e: Element, i: nat): Bytes {
    (if i == 1 then [e.id % 0x100] else [e.id / 0x100, e.id % 0x100]) + e.value
  }

  lemma {:induction false} FlatIs(es: seq<Element>, l: Layout, t: Bytes)
    requires l.idWidth == 1 ==> forall e :: e in es ==> e.id < 0x100
    ensures RenderElements(es, l, t) == Flat(es, l.idWidth) + t
    decreases |es|
  {
    hide BigEndian;
    if es != [] {
      assert es[0] in es;
      FlatIs(es[1..], l, t);
      OneByte(es[0].id % 0x100);
      TwoBytes(0, es[0].id / 0x100, es[0].id % 0x100);
    }
  }

  lemma {:induction false} FlatShort(es: seq<Element>, i: nat)
    ensures |es| == 0 ==> Flat(es, i) == []
    ensures |es| == 1 ==> Flat(es, i) == Item(es[0], i)
    ensures |es| == 2 ==> Flat(es, i) == Item(es[0], i) + Item(es[1], i)
    ensures |es| == 3 ==> Flat(es, i) == Item(es[0], i) + Item(es[1], i) + Item(es[2], i)
    ensures |es| == 5 ==>
      Flat(es, i) == Item(es[0], i) + Item(es[1], i) + Item(es[2], i) + Item(es[3], i) + Item(es[4], i)
    decreases |es|
  {
    hide Item;
    if es != [] {
      FlatShort(es[1..], i);
      if |es| == 5 {
        var f := es[1..];
        FlatShort(f[1..], i);
        assert f[1..] == [es[2], es[3], es[4]];
      }
    }
  }

  // The 24 position bytes of a record.
  predicate IsPosition(d: Data<Bytes>, b: Bytes) {
    && |b| == 24
    && d.timestampMs == FromBigEndian(b[..8]) && d.priority == b[8]
    && Unsigned32(d.lng) == FromBigEndian(b[9..13]) && Unsigned32(d.lat) == FromBigEndian(b[13..17])
    && Unsigned16(d.altitude) == FromBigEndian(b[17..19]) && d.angle == FromBigEndian(b[19..21])
    && d.satellites == b[21] && d.speed == FromBigEndian(b[22..24])
  }

  lemma PositionBytes(d: Data<Bytes>, b: Bytes, t: Bytes)
    requires IsPosition(d, b)
    ensures RenderPosition(PositionOf(d), t) == b + t
  {
    hide BigEndian, FromBigEndian;
    FromBigEndianInverse(b[..8]);
    FromBigEndianInverse(b[9..13]);
    FromBigEndianInverse(b[13..17]);
    FromBigEndianInverse(b[17..19]);
    FromBigEndianInverse(b[19..21]);
    FromBigEndianInverse(b[22..24]);
    OneByte(b[8]);
    OneByte(b[21]);
    assert b == b[..8] + [b[8]] + b[9..13] + b[13..17] + b[17..19] + b[19..21] + [b[21]] + b[22..24];
    PositionTail(PositionOf(d), t);
    assert RenderPosition(PositionOf(d), []) == b;
  }

  // The bytes of a record whose elements are grouped already.
  function RecordFlat(d: Data<Bytes>, l: Layout, position: Bytes, gs: seq<seq<Element>>): Bytes
    requires |gs| == 4
  {
    position + BigEndian(d.eventID, l.eventWidth)
    + (if l.generation then BigEndian(d.generationType, 1) else []) + BigEndian(|d.elements|, l.countWidth)
    + BigEndian(|gs[0]|, l.countWidth) + Flat(gs[0], l.idWidth)
    + BigEndian(|gs[1]|, l.countWidth) + Flat(gs[1], l.idWidth)
    + BigEndian(|gs[2]|, l.countWidth) + Flat(gs[2], l.idWidth)
    + BigEndian(|gs[3]|, l.countWidth) + Flat(gs[3], l.idWidth)
  }

  predicate Grouped(d: Data<Bytes>, l: Layout, gs: seq<seq<Element>>, other: seq<Element>) {
    && |gs| == 4 && d.elements == gs[0] + gs[1] + gs[2] + gs[3] + other
    && (forall e :: e in gs[0] ==> |e.value| == 1) && (forall e :: e in gs[1] ==> |e.value| == 2)
    && (forall e :: e in gs[2] ==> |e.value| == 4) && (forall e :: e in gs[3] ==> |e.value| == 8)
    && (forall e :: e in other ==> !IsGroupWidth(|e.value|))
    && (l.idWidth == 1 ==> forall e :: e in d.elements ==> e.id < 0x100)
  }

  lemma ClassesOfGrouped(d: Data<Bytes>, l: Layout, gs: seq<seq<Element>>, other: seq<Element>)
    requires Grouped(d, l, gs, other)
    ensures OfWidth(d.elements, 1) == gs[0] && OfWidth(d.elements, 2) == gs[1]
    ensures OfWidth(d.elements, 4) == gs[2] && OfWidth(d.elements, 8) == gs[3]
    ensures OfOtherWidth(d.elements) == other && Regroup(d.elements) == d.elements
    ensures forall g :: g in gs ==> l.idWidth == 1 ==> forall e :: e in g ==> e.id < 0x100
  {
    hide OfWidth, OfOtherWidth;
    RegroupOfGroups(gs[0], gs[1], gs[2], gs[3], other);
    forall g | g in gs && l.idWidth == 1 ensures forall e :: e in g ==> e.id < 0x100 {
      assert g == gs[0] || g == gs[1] || g == gs[2] || g == gs[3];
      assert forall e :: e in g ==> e in d.elements;
    }
  }

  lemma GroupFlat(g: seq<Element>, l: Layout)
    requires l.idWidth == 1 ==> forall e :: e in g ==> e.id < 0x100
    ensures RenderElements(g, l, []) == Flat(g, l.idWidth)
  {
    FlatIs(g, l, []);
    assert Flat(g, l.idWidth) + [] == Flat(g, l.idWidth);
  }

  lemma GroupsFlat(d: Data<Bytes>, l: Layout, gs: seq<seq<Element>>, other: seq<Element>, v: Bytes)
    requires Grouped(d, l, gs, other)
    ensures var c, i := l.countWidth, l.idWidth;
            RenderGroups(GroupsOf(d.elements), l, v)
            == BigEndian(|gs[0]|, c) + Flat(gs[0], i) + BigEndian(|gs[1]|, c) + Flat(gs[1], i)
               + BigEndian(|gs[2]|, c) + Flat(gs[2], i) + BigEndian(|gs[3]|, c) + Flat(gs[3], i) + v
  {
    hide BigEndian, Flat, RenderElements, OfWidth, OfOtherWidth, RenderGroups, Grouped;
    ClassesOfGrouped(d, l, gs, other);
    assert |gs| == 4 by { GroupedShape(d, l, gs, other); }
    RenderGroupsOf(d.elements, l, v);
    assert gs[0] in gs && gs[1] in gs && gs[2] in gs && gs[3] in gs;
    GroupFlat(gs[0], l);
    GroupFlat(gs[1], l);
    GroupFlat(gs[2], l);
    GroupFlat(gs[3], l);
  }

  lemma GroupedShape(d: Data<Bytes>, l: Layout, gs: seq<seq<Element>>, other: seq<Element>)
    requires Grouped(d, l, gs, other)
    ensures |gs| == 4
  {}

  lemma RecordBytes(d: Data<Bytes>, l: Layout, b: Bytes, gs: seq<seq<Element>>, other: seq<Element>, t: Bytes)
    requires IsPosition(d, b) && Grouped(d, l, gs, other)
    ensures RenderRecord(RecordOf(d, l), l, t)
            == RecordFlat(d, l, b, gs) + RenderVariable(if l.variable then other else [], l, t)
    ensures Regroup(d.elements) == d.elements
  {
    hide BigEndian, RenderPosition, Flat, RenderElements, OfWidth, OfOtherWidth, IsPosition, RenderVarElements;
    hide RenderGroups, Grouped, RenderVariable, Regroup, GroupsOf;
    GroupedShape(d, l, gs, other);
    ClassesOfGrouped(d, l, gs, other);
    var v := RenderVariable(if l.variable then other else [], l, t);
    GroupsFlat(d, l, gs, other, v);
    PositionBytes(d, b, RenderBlock(BlockOf(d, l), l, t));
    var c, i := l.countWidth, l.idWidth;
    Reassociate(b, BigEndian(d.eventID, l.eventWidth), if l.generation then BigEndian(d.generationType, 1) else [],
                BigEndian(|d.elements|, c),
                BigEndian(|gs[0]|, c), Flat(gs[0], i), BigEndian(|gs[1]|, c), Flat(gs[1], i),
                BigEndian(|gs[2]|, c), Flat(gs[2], i), BigEndian(|gs[3]|, c), Flat(gs[3], i), v);
  }

  lemma Reassociate(b: Bytes, e: Bytes, g: Bytes, n: Bytes, n1: Bytes, f1: Bytes, n2: Bytes, f2: Bytes,
      n4: Bytes, f4: Bytes, n8: Bytes, f8: Bytes, v: Bytes)
    ensures b + (e + (g + (n + (n1 + f1 + n2 + f2 + n4 + f4 + n8 + f8 + v))))
            == b + e + g + n + n1 + f1 + n2 + f2 + n4 + f4 + n8 + f8 + v
    ensures [] + (n + (n1 + f1 + n2 + f2 + n4 + f4 + n8 + f8 + v)) == n + (n1 + f1 + n2 + f2 + n4 + f4 + n8 + f8 + v)
  {
    var x := b + e + g + n;
    var w := n1 + f1 + n2 + f2 + n4 + f4 + n8 + f8 + v;
    Associate(b, e, g + (n + w));
    Associate(b + e, g, n + w);
    Associate(b + e + g, n, w);
    Associate(x, n1, f1);
    Associate(x, n1 + f1, n2);
    Associate(x, n1 + f1 + n2, f2);
    Associate(x, n1 + f1 + n2 + f2, n4);
    Associate(x, n1 + f1 + n2 + f2 + n4, f4);
    Associate(x, n1 + f1 + n2 + f2 + n4 + f4, n8);
    Associate(x, n1 + f1 + n2 + f2 + n4 + f4 + n8, f8);
    Associate(x, n1 + f1 + n2 + f2 + n4 + f4 + n8 + f8, v);
  }

  lemma Associate(a: Bytes, b: Bytes, c: Bytes)
    ensures a + (b + c) == a + b + c && [] + (b + c) == b + c
  {}

  lemma PositionAt(d: Data<Bytes>, b: Bytes)
    requires |b| == 24
    requires d.timestampMs
             == 0x100_0000_0000_0000 * (b[0] as int) + 0x1_0000_0000_0000 * (b[1] as int)
                + 0x100_0000_0000 * (b[2] as int) + 0x1_0000_0000 * (b[3] as int)
                + 0x100_0000 * (b[4] as int) + 0x1_0000 * (b[5] as int) + 0x100 * (b[6] as int) + b[7]
    requires d.priority == b[8]
    requires Unsigned32(d.lng)
             == 0x100_0000 * (b[9] as int) + 0x1_0000 * (b[10] as int) + 0x100 * (b[11] as int) + b[12]
    requires Unsigned32(d.lat)
             == 0x100_0000 * (b[13] as int) + 0x1_0000 * (b[14] as int) + 0x100 * (b[15] as int) + b[16]
    requires Unsigned16(d.altitude) == 0x100 * (b[17] as int) + b[18] && d.angle == 0x100 * (b[19] as int) + b[20]
    requires d.satellites == b[21] && d.speed == 0x100 * (b[22] as int) + b[23]
    ensures IsPosition(d, b)
  {
    hide FromBigEndian;
    FromEightBytes(b[..8]);
    FromBytes(b[9..13]);
    FromBytes(b[13..17]);
    FromBytes(b[17..19]);
    FromBytes(b[19..21]);
    FromBytes(b[22..24]);
  }

  lemma TwoRecordsFrame(codec: byte, d: Data<Bytes>, e: Data<Bytes>, bytes: Bytes, more: Bytes)
    requires IsDataCodec(codec) && EncodableData(d, LayoutOf(codec)) && CanonicalData(d, codec) == d
    requires EncodableData(e, LayoutOf(codec)) && CanonicalData(e, codec) == e
    requires RenderRecord(RecordOf(d, LayoutOf(codec)), LayoutOf(codec), []) == bytes
    requires RenderRecord(RecordOf(e, LayoutOf(codec)), LayoutOf(codec), []) == more && |bytes| + |more| < 0xF0
    ensures IsFrameOf([codec, 2] + bytes + more + [2], Packet(codec, Some([d, e]), None))
  {
    hide BigEndian, RenderRecord, RenderRecords, RecordOf, EncodableData, CanonicalData, IsFrameOf;
    var p, l, n := Packet(codec, Some([d, e]), None), LayoutOf(codec), BigEndian(2, 1);
    var rs := [RecordOf(d, l), RecordOf(e, l)];
    assert seq(2, i requires 0 <= i < 2 => CanonicalData([d, e][i], codec)) == [d, e];
    assert RecordsOf([d, e], l) == rs;
    RecordsUnfolded(rs, l, n + []);
    RecordTail(rs[1], l, n + []);
    RecordTail(rs[0], l, more + (n + []));
    OneByte(codec);
    OneByte(2);
    assert Body(p) == [codec, 2] + bytes + more + [2];
    FrameOfBody([codec, 2] + bytes + more + [2], p);
  }

  lemma RecordsUnfolded(rs: seq<Record>, l: Layout, t: Bytes)
    ensures |rs| == 1 ==> RenderRecords(rs, l, t) == RenderRecord(rs[0], l, t)
    ensures |rs| == 2 ==> RenderRecords(rs, l, t) == RenderRecord(rs[0], l, RenderRecord(rs[1], l, t))
  {
    hide RenderRecord;
    if |rs| == 1 {
      assert RenderRecords(rs[1..], l, t) == t;
    } else if |rs| == 2 {
      var f := rs[1..];
      assert RenderRecords(f[1..], l, t) == t;
      assert RenderRecords(f, l, t) == RenderRecord(rs[1], l, t);
    }
  }

  // ---------------------------------------------------------------- codec 8E

  const POSITION_8EA: Bytes :=
    [0x00, 0x00, 0x01, 0x73, 0x57, 0x63, 0x34, 0x10, 0x00, 0x0F, 0x0D, 0xC3, 0x9B, 0x20, 0x95, 0x96,
     0x4A, 0x00, 0xAC, 0x00, 0xF8, 0x0B, 0x00, 0x00]

  const BYTES_8EA: Bytes :=
    POSITION_8EA + [0x00, 0x00] + [] + [0x00, 0x0B]
    + [0x00, 0x05] + [0x00, 0xF0, 0x01, 0x00, 0x15, 0x04, 0x00, 0xC8, 0x00, 0x00, 0x45, 0x01, 0x00,
      0x71, 0x56]
    + [0x00, 0x05] + [0x00, 0xB5, 0x00, 0x05, 0x00, 0xB6, 0x00, 0x04, 0x00, 0x18, 0x00, 0x00, 0x00,
      0x43, 0x0F, 0xE0, 0x00, 0x44, 0x01, 0x1B]
    + [0x00, 0x01] + [0x00, 0xF1, 0x00, 0x00, 0x60, 0x1B]
    + [0x00, 0x00] + []
    + ([0x00, 0x00] + [])

  const GROUPS_8EA: seq<seq<Element>> :=
    [[IOElement(0xF0, [0x01]),
      IOElement(0x15, [0x04]),
      IOElement(0xC8, [0x00]),
      IOElement(0x45, [0x01]),
      IOElement(0x71, [0x56])],
     [IOElement(0xB5, [0x00, 0x05]),
      IOElement(0xB6, [0x00, 0x04]),
      IOElement(0x18, [0x00, 0x00]),
      IOElement(0x43, [0x0F, 0xE0]),
      IOElement(0x44, [0x01, 0x1B])],
     [IOElement(0xF1, [0x00, 0x00, 0x60, 0x1B])],
     []]

  const OTHER_8EA: seq<Element> := []

  const RECORD_8EA: Data<Bytes> :=
    Data(1594898986000, 0xF0DC39B, 0x2095964A, 172, 248, 0x0, 0, 11, 0, 0xFF,
         GROUPS_8EA[0] + GROUPS_8EA[1] + GROUPS_8EA[2] + GROUPS_8EA[3] + OTHER_8EA)

  lemma Position8Ea()
    ensures IsPosition(RECORD_8EA, POSITION_8EA)
  {
    PositionAt(RECORD_8EA, POSITION_8EA);
  }

  lemma Parts8Ea()
    ensures Flat(GROUPS_8EA[0], 2)
            == [0x00, 0xF0, 0x01, 0x00, 0x15, 0x04, 0x00, 0xC8, 0x00, 0x00, 0x45, 0x01, 0x00, 0x71, 0x56]
    ensures Flat(GROUPS_8EA[2], 2) == [0x00, 0xF1, 0x00, 0x00, 0x60, 0x1B]
    ensures Flat(GROUPS_8EA[3], 2) == []
    ensures RenderVarElements(OTHER_8EA, []) == []
  {
    hide Flat, RenderVarElements;
    FlatShort(GROUPS_8EA[0], 2);
    FlatShort(GROUPS_8EA[2], 2);
    FlatShort(GROUPS_8EA[3], 2);
    ShortVariable(OTHER_8EA);
  }

  lemma MoreParts8Ea()
    ensures Flat(GROUPS_8EA[1], 2)
            == [0x00, 0xB5, 0x00, 0x05, 0x00, 0xB6, 0x00, 0x04, 0x00, 0x18, 0x00, 0x00, 0x00, 0x43, 0x0F, 0xE0,
                0x00, 0x44, 0x01, 0x1B]
  {
    hide Flat;
    FlatShort(GROUPS_8EA[1], 2);
  }

  lemma Encodable8Ea()
    ensures EncodableData(RECORD_8EA, LayoutOf(0x8E)) && Grouped(RECORD_8EA, LayoutOf(0x8E), GROUPS_8EA, OTHER_8EA)
  {
    Widths();
  }

  lemma Record8Ea()
    ensures EncodableData(RECORD_8EA, LayoutOf(0x8E)) && CanonicalData(RECORD_8EA, 0x8E) == RECORD_8EA
    ensures RenderRecord(RecordOf(RECORD_8EA, LayoutOf(0x8E)), LayoutOf(0x8E), []) == BYTES_8EA
  {
    hide BigEndian, Flat, RenderRecord, RecordOf, Regroup, RenderVarElements, EncodableData, Grouped, IsPosition;
    var d, l, gs, position := RECORD_8EA, LayoutOf(0x8E), GROUPS_8EA, POSITION_8EA;
    Encodable8Ea();
    Position8Ea();
    RecordBytes(d, l, position, gs, OTHER_8EA, []);
    Parts8Ea();
    MoreParts8Ea();
    TwoBytes(0, 0x00, 0x00);
    TwoBytes(0, 0x00, 0x01);
    TwoBytes(0, 0x00, 0x05);
    TwoBytes(0, 0x00, 0x0B);
  }

  const POSITION_8EB: Bytes :=
    [0x00, 0x00, 0x01, 0x73, 0x57, 0x63, 0x3B, 0xE1, 0x00, 0x0F, 0x0D, 0xC3, 0x9B, 0x20, 0x95, 0x96,
     0x4A, 0x00, 0xAC, 0x00, 0xF8, 0x0B, 0x00, 0x00]

  const BYTES_8EB: Bytes :=
    POSITION_8EB + [0x01, 0x81] + [] + [0x00, 0x01]
    + [0x00, 0x00] + []
    + [0x00, 0x00] + []
    + [0x00, 0x00] + []
    + [0x00, 0x00] + []
    + ([0x00, 0x01] + ([0x01, 0x81, 0x00, 0x2D] + VALUE_8EB))

  const GROUPS_8EB: seq<seq<Element>> := [[], [], [], []]

  const VALUE_8EB: Bytes :=
    [0x11, 0x21, 0x31, 0x02, 0x03, 0x04, 0x05, 0x06, 0x07, 0x08, 0x09, 0x0A, 0x0B, 0x0C, 0x0D, 0x0E,
     0x0F, 0x10, 0x45, 0x45, 0x01, 0x0A, 0xBC, 0x21, 0x21, 0x02, 0x03, 0x04, 0x05, 0x06, 0x07, 0x08,
     0x09, 0x0A, 0x0B, 0x0C, 0x0D, 0x0E, 0x0F, 0x10, 0x02, 0x0B, 0x01, 0x0A, 0xAD]

  const OTHER_8EB: seq<Element> := [IOElement(0x181, VALUE_8EB)]

  const RECORD_8EB: Data<Bytes> :=
    Data(1594898988001, 0xF0DC39B, 0x2095964A, 172, 248, 0x181, 0, 11, 0, 0xFF,
         GROUPS_8EB[0] + GROUPS_8EB[1] + GROUPS_8EB[2] + GROUPS_8EB[3] + OTHER_8EB)

  lemma Position8Eb()
    ensures IsPosition(RECORD_8EB, POSITION_8EB)
  {
    PositionAt(RECORD_8EB, POSITION_8EB);
  }

  lemma Parts8Eb()
    ensures Flat(GROUPS_8EB[0], 2) == []
    ensures Flat(GROUPS_8EB[1], 2) == []
    ensures Flat(GROUPS_8EB[2], 2) == []
    ensures Flat(GROUPS_8EB[3], 2) == []
    ensures RenderVarElements(OTHER_8EB, []) == [0x01, 0x81, 0x00, 0x2D] + VALUE_8EB
  {
    hide Flat, RenderVarElements;
    FlatShort(GROUPS_8EB[0], 2);
    FlatShort(GROUPS_8EB[1], 2);
    FlatShort(GROUPS_8EB[2], 2);
    FlatShort(GROUPS_8EB[3], 2);
    ShortVariable(OTHER_8EB);
  }

  lemma Encodable8Eb()
    ensures EncodableData(RECORD_8EB, LayoutOf(0x8E)) && Grouped(RECORD_8EB, LayoutOf(0x8E), GROUPS_8EB, OTHER_8EB)
  {
    Widths();
  }

  lemma Record8Eb()
    ensures EncodableData(RECORD_8EB, LayoutOf(0x8E)) && CanonicalData(RECORD_8EB, 0x8E) == RECORD_8EB
    ensures RenderRecord(RecordOf(RECORD_8EB, LayoutOf(0x8E)), LayoutOf(0x8E), []) == BYTES_8EB
  {
    hide BigEndian, Flat, RenderRecord, RecordOf, Regroup, RenderVarElements, EncodableData, Grouped, IsPosition;
    var d, l, gs, position := RECORD_8EB, LayoutOf(0x8E), GROUPS_8EB, POSITION_8EB;
    Encodable8Eb();
    Position8Eb();
    RecordBytes(d, l, position, gs, OTHER_8EB, []);
    Parts8Eb();
    TwoBytes(0, 0x00, 0x00);
    TwoBytes(0, 0x00, 0x01);
    TwoBytes(0, 0x01, 0x81);
  }

  lemma ShortVariable(es: seq<Element>)
    requires |es| <= 1 && forall e :: e in es ==> |e.value| < 0x1_0000
    ensures es == [] ==> RenderVarElements(es, []) == []
    ensures es != [] ==>
      var e := es[0];
      RenderVarElements(es, []) == [e.id / 0x100, e.id % 0x100, |e.value| / 0x100, |e.value| % 0x100] + e.value
  {
    hide BigEndian;
    if es != [] {
      var e := es[0];
      assert e in es;
      TwoBytes(0, e.id / 0x100, e.id % 0x100);
      TwoBytes(0, |e.value| / 0x100, |e.value| % 0x100);
      assert RenderVarElements(es[1..], []) == [];
    }
  }

  lemma Codec8E()
    ensures IsFrameOf([0x8E, 2] + BYTES_8EA + BYTES_8EB + [2],
                      Packet(0x8E, Some([RECORD_8EA, RECORD_8EB]), None))
  {
    hide IsFrameOf, RenderRecord, RecordOf, EncodableData, CanonicalData;
    Record8Ea();
    Record8Eb();
    TwoRecordsFrame(0x8E, RECORD_8EA, RECORD_8EB, BYTES_8EA, BYTES_8EB);
  }
}
