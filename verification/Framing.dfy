// TCP frames and UDP datagrams as byte strings: what the encoders build, what the decoders accept, and how
// the two fit together.

module Framing {
  import opened Bits
  import opened Wire
  import opened Model
  import opened Grammar
  import opened Canonical
  import opened Rendering
  import opened Parser
  import opened RoundTrip
  import opened Crc16

  const MAX_SIZE := 1280

  // ---------------------------------------------------------------- TCP

  // Preamble, length, body, checksum.
  function TCPFrame(body: Bytes): Bytes {
    BigEndian(0, 4) + BigEndian(|body| % 0x1_0000_0000, 4) + body + BigEndian(Crc(body), 4)
  }

  // An accepted frame: its size on the wire, the tree its body parses to, and the length of that body.
  datatype Frame = Frame(size: nat, consumed: nat, tree: Tree)

  // The size on the wire announced by an 8-byte header.
  function FrameSize(header: Bytes): Option<nat>
    requires |header| == 8
  {
    var preamble := FromBigEndian(header[..4]);
    var dataFieldLength := FromBigEndian(header[4..]);
    if preamble != 0 || dataFieldLength > MAX_SIZE then None else Some(dataFieldLength + 12)
  }

  // The size on the wire announced by a 5-byte datagram header; the length field must be at least 3.
  function DatagramSize(header: Bytes): Option<nat>
    requires |header| == 5
  {
    var size := FromBigEndian(header[..2]);
    if size > MAX_SIZE || size < 3 then None else Some(size + 2)
  }

  // What follows the header: a packet, directly behind it its checksum, then anything.
  function ParseContent(content: Bytes): (r: Option<(Tree, nat)>)
    ensures r.Some? ==> r.value.1 + 4 <= |content|
  {
    match Parse(content)
    case Fail => None
    case Done(tree, rest) =>
      if |rest| < 4 then None
      else
        var consumed := |content| - |rest|;
        if FromBigEndian(rest[..4]) == Crc(content[..consumed]) then Some((tree, consumed)) else None
  }

  function ParseFrame(s: Bytes): (f: Option<Frame>)
    ensures f.Some? ==> f.value.consumed + 12 <= f.value.size <= |s|
  {
    if |s| < 8 then None
    else
      var size :- FrameSize(s[..8]);
      if |s| < size then None
      else
        var content :- ParseContent(s[8..size]);
        Some(Frame(size, content.1, content.0))
  }

  // The reply to a data packet: four bytes, the last one the record count.
  function TCPResponse(p: Packet<Bytes>): Option<Bytes> {
    match p.data
    case Some(ds) => Some([0, 0, 0, |ds| % 0x100])
    case None => None
  }

  lemma FrameHeader(body: Bytes, t: Bytes)
    ensures var s := TCPFrame(body) + t;
            && |s| >= 8
            && FromBigEndian(s[..8][..4]) == 0
            && FromBigEndian(s[..8][4..]) == |body| % 0x1_0000_0000
            && s[8..] == body + (BigEndian(Crc(body), 4) + t)
  {
    hide BigEndian, FromBigEndian, Crc, Pow256;
    Widths();
    var s := TCPFrame(body) + t;
    BigEndianInverse(0, 4);
    BigEndianInverse(|body| % 0x1_0000_0000, 4);
    assert s[..8][..4] == BigEndian(0, 4);
    assert s[..8][4..] == BigEndian(|body| % 0x1_0000_0000, 4);
  }

  lemma ParseSplits(s: Bytes)
    requires |s| < WRAP_LIMIT && Parse(s).Done?
    ensures s == s[..|s| - |Parse(s).rest|] + Parse(s).rest
  {
    hide Parse;
    ParserLocality(s, Parse(s).value, Parse(s).rest);
  }

  lemma ShortTexts(p: Packet<Bytes>)
    requires Encodable(p) && |Body(p)| < 0x1_0000_0000
    ensures TextsFit(p)
  {
    hide Body, EncodableMessage, EncodableElements;
    BodySizeExact(p);
    if IsCMDCodecId(p.codecID) {
      var ms := p.messages.value;
      forall m | m in ms ensures |m.text| + Overhead(p.codecID) <= MessagesSize(ms, p.codecID) {
        TextInSize(ms, m, p.codecID);
      }
    }
  }

  lemma {:induction false} TextInSize(ms: seq<Message>, m: Message, codec: byte)
    requires m in ms
    ensures |m.text| + Overhead(codec) <= MessagesSize(ms, codec)
  {
    var front, last := ms[..|ms| - 1], ms[|ms| - 1];
    assert ms == front + [last];
    if m != last {
      TextInSize(front, m, codec);
    }
  }

  // A frame whose length field counts `pad` bytes behind the checksum, too.
  function PaddedFrame(body: Bytes, pad: Bytes): Bytes
    requires |body| + |pad| < 0x1_0000_0000
  {
    BigEndian(0, 4) + BigEndian(|body| + |pad|, 4) + body + BigEndian(Crc(body), 4) + pad
  }

  // Every well-formed tree of at most 1280 bytes is the body of an accepted frame, with or without padding and
  // whatever follows.
  lemma TreeAccepted(tree: Tree, pad: Bytes, t: Bytes)
    requires WF(tree) && |Render(tree, [])| + |pad| <= MAX_SIZE
    ensures var body := Render(tree, []);
            ParseFrame(PaddedFrame(body, pad) + t) == Some(Frame(|body| + |pad| + 12, |body|, tree))
  {
    hide Render, Parse, WFRecords, WFCommands, Crc, BigEndian, FromBigEndian, Pow256;
    var body := Render(tree, []);
    var s, n, crc := PaddedFrame(body, pad) + t, |body| + |pad|, BigEndian(Crc(body), 4);
    Widths();
    BigEndianInverse(0, 4);
    BigEndianInverse(n, 4);
    BigEndianInverse(Crc(body), 4);
    assert s[..8][..4] == BigEndian(0, 4) && s[..8][4..] == BigEndian(n, 4);
    var content := s[8..n + 12];
    assert content == body + (crc + pad);
    RenderTail(tree, crc + pad);
    ParseComplete(tree, crc + pad);
    assert (crc + pad)[..4] == crc && content[..|body|] == body;
  }

  // The accepted frames are exactly the strings that start with a padded frame of a well-formed tree.
  lemma AcceptedFrames(s: Bytes, f: Frame)
    ensures ParseFrame(s) == Some(f) <==>
      && WF(f.tree)
      && f.consumed == |Render(f.tree, [])|
      && f.consumed + 12 <= f.size <= |s| && f.size <= MAX_SIZE + 12
      && s[..f.size] == PaddedFrame(Render(f.tree, []), s[f.consumed + 12..f.size])
  {
    if ParseFrame(s) == Some(f) {
      FrameIsPadded(s, f);
    }
    hide ParseFrame, Render, WFRecords, WFCommands, PaddedFrame;
    if && WF(f.tree) && f.consumed == |Render(f.tree, [])|
       && f.consumed + 12 <= f.size <= |s| && f.size <= MAX_SIZE + 12
       && s[..f.size] == PaddedFrame(Render(f.tree, []), s[f.consumed + 12..f.size])
    {
      TreeAccepted(f.tree, s[f.consumed + 12..f.size], s[f.size..]);
      assert s == s[..f.size] + s[f.size..];
    }
  }

  lemma FrameIsPadded(s: Bytes, f: Frame)
    requires ParseFrame(s) == Some(f)
    ensures WF(f.tree) && f.consumed == |Render(f.tree, [])|
    ensures f.consumed + 12 <= f.size <= |s| && f.size <= MAX_SIZE + 12
    ensures s[..f.size] == PaddedFrame(Render(f.tree, []), s[f.consumed + 12..f.size])
  {
    hide Parse, Render, WFRecords, WFCommands, BigEndian, FromBigEndian, Crc, Pow256;
    FromBigEndianInverse(s[..8][..4]);
    FromBigEndianInverse(s[..8][4..]);
    var content := s[8..f.size];
    var rest := Parse(content).rest;
    ParseSound(content, f.tree, rest);
    RenderTail(f.tree, rest);
    FromBigEndianInverse(rest[..4]);
    var body := Render(f.tree, []);
    assert content == body + rest && content[..f.consumed] == body;
    assert rest == rest[..4] + s[f.consumed + 12..f.size] by {
      assert rest[4..] == content[f.consumed + 4..] == s[f.consumed + 12..f.size];
    }
    assert s[..f.size] == s[..8][..4] + s[..8][4..] + content;
  }

  // A well-formed packet of at most 1280 bytes survives the trip: its frame, whatever follows, decodes to the
  // canonical packet and is consumed whole. Larger packets are rejected when their texts fit the size field.
  lemma TCPRoundTrip(p: Packet<Bytes>, t: Bytes)
    requires Encodable(p)
    ensures |Body(p)| <= MAX_SIZE ==>
      && ParseFrame(TCPFrame(Body(p)) + t) == Some(Frame(|TCPFrame(Body(p))|, |Body(p)|, TreeOf(p)))
      && Meaning(TreeOf(p)) == CanonicalPacket(p)
    ensures |Body(p)| > MAX_SIZE && TextsFit(p) ==> ParseFrame(TCPFrame(Body(p)) + t).None?
  {
    hide TreeOf, Crc, Render, BigEndian, Meaning, CanonicalPacket, EncodableItems, TextsFit, ParseFrame, WFRecords;
    hide WFCommands;
    if |Body(p)| <= MAX_SIZE {
      ShortTexts(p);
      TreeOfWF(p);
      TreeAccepted(TreeOf(p), [], t);
      assert PaddedFrame(Body(p), []) == TCPFrame(Body(p));
    } else if TextsFit(p) && ParseFrame(TCPFrame(Body(p)) + t).Some? {
      FrameHoldsBody(p, t);
    }
  }

  // An accepted frame of a packet ends behind the packet, since no tree ends inside it.
  lemma FrameHoldsBody(p: Packet<Bytes>, t: Bytes)
    requires Encodable(p) && TextsFit(p)
    requires ParseFrame(TCPFrame(Body(p)) + t).Some?
    ensures |Body(p)| <= MAX_SIZE
  {
    hide Body, TreeOf, Parse, Render, Crc, BigEndian, FromBigEndian, Meaning, CanonicalPacket, EncodableItems, TextsFit;
    hide Pow256, WFRecords, WFCommands;
    var body := Body(p);
    var s := TCPFrame(body) + t;
    var f := ParseFrame(s).value;
    FrameHeader(body, t);
    var content := s[8..f.size];
    assert content == s[8..][..f.size - 8];
    PacketRoundTrip(p, []);
    assert body + [] == body;
    var rest := Parse(content).rest;
    ParseSound(content, f.tree, rest);
    RenderTail(f.tree, rest);
    if f.consumed <= |body| {
      assert Render(f.tree, []) == content[..f.consumed] == body[..f.consumed];
      ConsumesAll(body, TreeOf(p), f.tree);
    }
  }

  lemma ConsumesAll(body: Bytes, tree: Tree, other: Tree)
    requires Parse(body) == Done(tree, []) && WF(other) && Render(other, []) <= body
    ensures Render(other, []) == body
  {
    hide Parse, Render, WFRecords, WFCommands;
    var rest := body[|Render(other, [])|..];
    assert body == Render(other, []) + rest;
    RenderTail(other, rest);
    ParseComplete(other, rest);
  }

  // Two packets have the same frame exactly when they have the same canonical form.
  lemma TCPInjective(p: Packet<Bytes>, q: Packet<Bytes>)
    requires Encodable(p) && TextsFit(p) && Encodable(q) && TextsFit(q)
    ensures TCPFrame(Body(p)) == TCPFrame(Body(q)) <==> CanonicalPacket(p) == CanonicalPacket(q)
  {
    hide Body, Crc, BigEndian, EncodableItems, CanonicalPacket, TextsFit;
    EncodingInjective(p, q);
    var a, b := TCPFrame(Body(p)), TCPFrame(Body(q));
    assert Body(p) == a[8..|a| - 4] && Body(q) == b[8..|b| - 4];
  }

  // Encoding the packet of an accepted frame gives the frame back, byte for byte, exactly when the tree is in
  // canonical form and the body fills the length field.
  lemma TCPReverseRoundTrip(s: Bytes, f: Frame)
    requires ParseFrame(s) == Some(f)
    ensures WF(f.tree) && f.consumed + 12 <= f.size <= |s|
    ensures Encodable(Meaning(f.tree)) && TCPFrame(Body(Meaning(f.tree))) == s[..f.size]
            <==> IsCanonical(f.tree) && f.consumed + 12 == f.size
  {
    hide Body, TreeOf, Render, ParseFrame, BigEndian, Crc, Meaning, IsCanonical, WFRecords, WFCommands, EncodableItems;
    hide CanonicalPacket;
    FrameIsPadded(s, f);
    ReverseRoundTrip(f.tree);
    var p, body, pad := Meaning(f.tree), Render(f.tree, []), s[f.consumed + 12..f.size];
    if f.consumed + 12 == f.size {
      assert PaddedFrame(body, []) == TCPFrame(body);
    }
    if Encodable(p) && TCPFrame(Body(p)) == s[..f.size] {
      TCPRoundTrip(p, s[f.size..]);
      assert s == s[..f.size] + s[f.size..];
    }
  }

  // ---------------------------------------------------------------- frames that encoding does not produce

  // A tree not in canonical form, or padding, gives an accepted frame that re-encoding does not reproduce.
  lemma NotReproduced(tree: Tree, pad: Bytes)
    requires WF(tree) && |Render(tree, [])| + |pad| <= MAX_SIZE && !(IsCanonical(tree) && pad == [])
    ensures AcceptedNotReproduced(tree, pad)
  {
    hide Body, Render, ParseFrame, BigEndian, Crc, Meaning, IsCanonical, WFRecords, WFCommands, EncodableItems;
    var s := PaddedFrame(Render(tree, []), pad);
    TreeAccepted(tree, pad, []);
    assert s + [] == s && s[..|s|] == s;
    TCPReverseRoundTrip(s, Frame(|s|, |s| - |pad| - 12, tree));
  }

  // The padded frame of the tree decodes, and encoding what was decoded fails or gives other bytes.
  predicate AcceptedNotReproduced(tree: Tree, pad: Bytes) {
    && WF(tree)
    && |Render(tree, [])| + |pad| <= MAX_SIZE
    && var s, p := PaddedFrame(Render(tree, []), pad), Meaning(tree);
       && ParseFrame(s) == Some(Frame(|s|, |s| - |pad| - 12, tree))
       && !(Encodable(p) && TCPFrame(Body(p)) == s)
  }

  // A tree with one codec 8 or 8E record that declares one element and has those of `variable`.
  function OneRecord(codec: byte, variable: seq<Element>): Tree {
    var position := Position(0, 0, 0, 0, 0, 0, 0, 0);
    DataTree(codec, [Record(position, Block(0, UNKNOWN_GENERATION, 1, [[], [], [], []], variable))])
  }

  // Each reason occurs: a packed IMEI that starts with a zero byte; a declared element that is missing; a
  // variable-length element of a group's width; a byte behind the checksum.
  lemma NotReproducedExamples()
    ensures AcceptedNotReproduced(ZERO_IMEI, [])
    ensures AcceptedNotReproduced(OneRecord(CODEC_8, []), [])
    ensures AcceptedNotReproduced(OneRecord(CODEC_8E, [IOElement(0, [0])]), [])
    ensures AcceptedNotReproduced(CommandTree(CODEC_12, []), [0])
  {
    hide BigEndian, Pow256, AcceptedNotReproduced, OneRecord;
    ZeroImei();
    NotReproduced(ZERO_IMEI, []);
    OneRecordTree(CODEC_8, []);
    NotReproduced(OneRecord(CODEC_8, []), []);
    OneRecordTree(CODEC_8E, [IOElement(0, [0])]);
    NotReproduced(OneRecord(CODEC_8E, [IOElement(0, [0])]), []);
    NotReproduced(CommandTree(CODEC_12, []), [0]);
  }

  const ZERO_IMEI := CommandTree(CODEC_14, [Command(TYPE_RESPONSE, 0, [0, 0, 0, 0, 0, 0, 0, 0], [])])

  lemma ZeroImei()
    ensures WF(ZERO_IMEI) && |Render(ZERO_IMEI, [])| == 16 && !IsCanonical(ZERO_IMEI)
  {
    hide BigEndian, RenderCommands, WFCommands;
    var c := ZERO_IMEI.commands[0];
    assert c in ZERO_IMEI.commands;
    OneCommand(c, CODEC_14, BigEndian(1, 1) + []);
  }

  lemma OneRecordTree(codec: byte, variable: seq<Element>)
    requires codec == CODEC_8 || codec == CODEC_8E
    requires variable == if codec == CODEC_8 then [] else [IOElement(0, [0])]
    ensures WF(OneRecord(codec, variable)) && |Render(OneRecord(codec, variable), [])| <= 60
    ensures !IsCanonical(OneRecord(codec, variable))
  {
    hide BigEndian, WFBlock, RenderBlock;
    var tree, l := OneRecord(codec, variable), LayoutOf(codec);
    var b := tree.records[0].block;
    assert tree.records[0] in tree.records && tree.records[1..] == [];
    OneRecordBlock(codec, b);
    var r, rs, n := tree.records[0], tree.records, BigEndian(1, 1);
    BlockTail(b, l, n + []);
    assert WFRecords(rs[1..], l) && RenderRecords(rs[1..], l, n + []) == n + [];
    assert WFRecords(rs, l) && RenderRecords(rs, l, n + []) == RenderRecord(r, l, n + []);
  }

  lemma OneRecordBlock(codec: byte, b: Block)
    requires codec == CODEC_8 || codec == CODEC_8E
    requires b == Block(0, UNKNOWN_GENERATION, 1, [[], [], [], []],
                        if codec == CODEC_8 then [] else [IOElement(0, [0])])
    ensures WFBlock(b, LayoutOf(codec)) && |RenderBlock(b, LayoutOf(codec), [])| <= 30 && !CanonicalBlock(b)
  {
    hide BigEndian, WFGroups, Total, RenderGroups;
    Widths();
    FourGroups([], [], [], [], LayoutOf(codec), 1);
    if b.variable != [] {
      assert b.variable[0] in b.variable && b.variable[1..] == [];
    }
    EmptyGroups(LayoutOf(codec), RenderVariable(b.variable, LayoutOf(codec), []));
  }

  lemma EmptyGroups(l: Layout, t: Bytes)
    ensures |RenderGroups([[], [], [], []], l, t)| == 4 * l.countWidth + |t|
  {
    hide BigEndian, RenderGroups;
    assert GroupsOf([]) == [[], [], [], []];
    RenderGroupsOf([], l, t);
  }

  // A text that starts with the end of a short frame.
  function LongText(tail: Bytes): (text: Bytes)
    ensures |text| == 5 + |tail|
  {
    BigEndian(1, 1) + BigEndian(Crc(Render(EMPTY_COMMAND, [])), 4) + tail
  }

  // A text too long for the size field: the length fields wrap around, and the frame is accepted as one of 20 bytes
  // with an empty command.
  lemma LongTextAccepted(tail: Bytes)
    requires |tail| == 0xFFFF_FFFB
    ensures var p := Packet(CODEC_12, None, Some([Message(0, TYPE_COMMAND, [], LongText(tail))]));
            && Encodable(p) && !TextsFit(p) && |Body(p)| > MAX_SIZE
            && ParseFrame(TCPFrame(Body(p))) == Some(Frame(20, 8, EMPTY_COMMAND))
  {
    hide BigEndian, Crc, ParseFrame, Render;
    var text := LongText(tail);
    var m := Message(0, TYPE_COMMAND, [], text);
    var p := Packet(CODEC_12, None, Some([m]));
    assert m in p.messages.value;
    SingleCommand(Command(TYPE_COMMAND, 0, [], []));
    SingleCommand(Command(TYPE_COMMAND, 0, [], text));
    assert CommandsOf([m], CODEC_12) == [Command(TYPE_COMMAND, 0, [], text)];
    var n := BigEndian(1, 1);
    var front := BigEndian(CODEC_12, 1) + BigEndian(1, 1) + BigEndian(TYPE_COMMAND, 1) + BigEndian(0, 4);
    var short := Render(EMPTY_COMMAND, []);
    var crc, crc' := BigEndian(Crc(short), 4), BigEndian(Crc(Body(p)), 4);
    assert short == front + n by {
      assert front + [] == front;
    }
    assert Body(p) == front + text + n && |Body(p)| % 0x1_0000_0000 == |short|;
    assert n + crc <= text;
    Reassociate(BigEndian(0, 4) + BigEndian(|short|, 4), front, text, n, crc, crc');
    TreeAccepted(EMPTY_COMMAND, [], text[5..] + n + crc');
  }

  lemma Reassociate(head: Bytes, front: Bytes, text: Bytes, n: Bytes, crc: Bytes, crc': Bytes)
    requires |n| == 1 && |crc| == 4 && n + crc <= text
    ensures head + (front + text + n) + crc' == head + (front + n) + crc + [] + (text[5..] + n + crc')
  {
    assert text == n + crc + text[5..];
  }

  const EMPTY_COMMAND := CommandTree(CODEC_12, [Command(TYPE_COMMAND, 0, [], [])])

  lemma SingleCommand(c: Command)
    requires c == Command(TYPE_COMMAND, 0, [], c.text)
    ensures Render(CommandTree(CODEC_12, [c]), [])
            == BigEndian(CODEC_12, 1) + BigEndian(1, 1) + BigEndian(TYPE_COMMAND, 1)
               + BigEndian(|c.text| % 0x1_0000_0000, 4) + c.text + BigEndian(1, 1)
    ensures |c.text| < 0x1_0000_0000 ==> WF(CommandTree(CODEC_12, [c]))
  {
    hide BigEndian, RenderCommands, WFCommands;
    OneCommand(c, CODEC_12, BigEndian(1, 1) + []);
    assert BigEndian(1, 1) + [] == BigEndian(1, 1);
  }

  lemma OneCommand(c: Command, codec: byte, t: Bytes)
    ensures RenderCommands([c], codec, t) == RenderCommand(c, codec, t)
    ensures WFCommands([c], codec) <==> WFCommand(c, codec)
  {
    hide RenderCommand, WFCommand;
    var cs := [c];
    assert cs[1..] == [];
    assert WFCommands(cs[1..], codec) && RenderCommands(cs[1..], codec, t) == t;
  }

  // ---------------------------------------------------------------- error detection on frames

  function FrameBody(s: Bytes, f: Frame): Bytes
    requires 8 + f.consumed <= |s|
  {
    s[8..8 + f.consumed]
  }

  function FrameCrc(s: Bytes, f: Frame): nat
    requires 12 + f.consumed <= |s|
  {
    FromBigEndian(s[8 + f.consumed..12 + f.consumed])
  }

  lemma FrameChecksum(s: Bytes, f: Frame)
    requires ParseFrame(s) == Some(f)
    ensures 12 + f.consumed <= f.size <= |s|
    ensures FrameCrc(s, f) == Crc(FrameBody(s, f))
  {
    hide Parse, Crc, FromBigEndian;
    var content := s[8..f.size];
    ParseSplits(content);
    var rest := Parse(content).rest;
    assert content[..f.consumed] == FrameBody(s, f);
    assert rest[..4] == content[f.consumed..f.consumed + 4] == s[8 + f.consumed..12 + f.consumed];
  }

  // Two accepted frames with the same body length and checksum field differ neither by a burst of at most 16
  // bits nor in an odd number of bits.
  lemma FramesDetectErrors(s: Bytes, f: Frame, s': Bytes, f': Frame)
    requires ParseFrame(s) == Some(f) && ParseFrame(s') == Some(f') && f.consumed == f'.consumed
    ensures 12 + f.consumed <= |s| && 12 + f'.consumed <= |s'|
    ensures var x, y := FrameBody(s, f), FrameBody(s', f');
            FrameCrc(s, f) == FrameCrc(s', f') ==>
              && !DifferInBurst(MessageBits(x), MessageBits(y))
              && CountDifferences(MessageBits(x), MessageBits(y)) % 2 == 0
  {
    hide ParseFrame, Crc, MessageBits, CountDifferences, DifferInBurst, FrameCrc;
    FrameChecksum(s, f);
    FrameChecksum(s', f');
    var x, y := FrameBody(s, f), FrameBody(s', f');
    if DifferInBurst(MessageBits(x), MessageBits(y)) {
      BurstDetected(x, y);
    }
    if CountDifferences(MessageBits(x), MessageBits(y)) % 2 == 1 {
      OddErrorsDetected(x, y);
    }
  }

  // ---------------------------------------------------------------- UDP

  // Length, packet id, a byte that is not used, AVL packet id, IMEI, body.
  function UDPDatagram(imei: Bytes, packetId: uint16, avlPacketId: byte, body: Bytes): Bytes {
    BigEndian((6 + |imei| + |body|) % 0x1_0000, 2)
    + (BigEndian(packetId, 2) + ([1] + ([avlPacketId] + (BigEndian(|imei| % 0x1_0000, 2) + (imei + body)))))
  }

  datatype Datagram = Datagram(size: nat, packetId: uint16, avlPacketId: byte, imei: Bytes, tree: Tree, rest: Bytes)

  // AVL packet id and IMEI.
  function ParseIds(content: Bytes): Parsed<(byte, Bytes)> {
    Widths();
    var (avlPacketId, s) :- ParseUint(content, 1);
    var (imeiLen, s) :- ParseUint(s, 2);
    var (imei, s) :- Take(s, imeiLen);
    Done((avlPacketId, imei), s)
  }

  // What follows the 5-byte header.
  function ParseDatagramContent(content: Bytes): Parsed<(byte, Bytes, Tree)> {
    var (ids, s) :- ParseIds(content);
    var (tree, s) :- Parse(s);
    Done((ids.0, ids.1, tree), s)
  }

  // The length field counts all bytes behind it but one pair; the decoder needs it to be at least 3.
  predicate LengthFieldOk(s: Bytes) {
    |s| >= 5 ==> FromBigEndian(s[..2]) >= 3
  }

  function PacketId(header: Bytes): uint16
    requires |header| == 5
  {
    FromBigEndianBound(header[2..4]);
    Widths();
    FromBigEndian(header[2..4])
  }

  function ParseDatagram(s: Bytes): Option<Datagram> {
    if |s| < 5 then None
    else
      var size :- DatagramSize(s[..5]);
      if |s| < size then None
      else
        match ParseDatagramContent(s[5..size])
        case Fail => None
        case Done(v, rest) => Some(Datagram(size, PacketId(s[..5]), v.0, v.1, v.2, rest))
  }

  // The reply to a data packet.
  function UDPResponse(packetId: uint16, avlPacketId: byte, p: Packet<Bytes>): Option<Bytes> {
    match p.data
    case Some(ds) => Some([0, 5, packetId / 0x100, packetId % 0x100, 1, avlPacketId, |ds| % 0x100])
    case None => None
  }

  // A datagram with any unused byte, and with `rest` behind the packet.
  function AnyDatagram(unused: byte, d: Datagram): Bytes
    requires d.tree.DataTree? ==> IsDataCodec(d.tree.codec)
  {
    BigEndian((6 + |d.imei| + |Render(d.tree, [])| + |d.rest|) % 0x1_0000, 2)
    + (BigEndian(d.packetId, 2) + ([unused] + ([d.avlPacketId]
    + (BigEndian(|d.imei| % 0x1_0000, 2) + (d.imei + (Render(d.tree, []) + d.rest))))))
  }

  // The bytes of an accepted datagram.
  lemma DatagramIs(s: Bytes, d: Datagram)
    requires ParseDatagram(s) == Some(d)
    ensures WF(d.tree) && |d.imei| < 0x1_0000
    ensures d.size == 8 + |d.imei| + |Render(d.tree, [])| + |d.rest| <= MAX_SIZE + 2 && d.size <= |s|
    ensures s[..d.size] == AnyDatagram(s[4], d)
  {
    hide Parse, ParseUint, Take, Render, WFRecords, WFCommands, BigEndian, FromBigEndian, Pow256;
    Widths();
    FromBigEndianInverse(s[..5][..2]);
    FromBigEndianInverse(s[..5][2..4]);
    var content := s[5..d.size];
    var s1 := ParseUint(content, 1).rest;
    var s2 := ParseUint(s1, 2).rest;
    var s3 := Take(s2, ParseUint(s1, 2).value).rest;
    UintSound(content, 1, d.avlPacketId, s1);
    UintSound(s1, 2, ParseUint(s1, 2).value, s2);
    TakeSound(s2, ParseUint(s1, 2).value, d.imei, s3);
    ParseSound(s3, d.tree, d.rest);
    RenderTail(d.tree, d.rest);
    OneByte(d.avlPacketId);
    assert s[..d.size] == s[..5][..2] + (s[..5][2..4] + ([s[4]] + content));
  }

  // A well-formed tree behind any IMEI, both ids and any unused byte, with bytes left over behind it, is accepted.
  lemma TreeInDatagram(unused: byte, d: Datagram, t: Bytes)
    requires WF(d.tree) && d.size == 8 + |d.imei| + |Render(d.tree, [])| + |d.rest| <= MAX_SIZE + 2
    ensures LengthFieldOk(AnyDatagram(unused, d) + t) && ParseDatagram(AnyDatagram(unused, d) + t) == Some(d)
  {
    hide Parse, ParseUint, Take, Render, WFRecords, WFCommands, BigEndian, FromBigEndian, Pow256;
    Widths();
    var s, size := AnyDatagram(unused, d) + t, d.size - 2;
    BigEndianInverse(size, 2);
    BigEndianInverse(d.packetId, 2);
    var s3 := Render(d.tree, []) + d.rest;
    var s2 := d.imei + s3;
    var s1 := BigEndian(|d.imei|, 2) + s2;
    var content := BigEndian(d.avlPacketId, 1) + s1;
    OneByte(d.avlPacketId);
    assert s[..2] == s[..5][..2] == BigEndian(size, 2);
    assert s[..5][2..4] == s[2..4] == BigEndian(d.packetId, 2);
    assert s[5..d.size] == content;
    UintComplete(d.avlPacketId, 1, s1);
    UintComplete(|d.imei|, 2, s2);
    TakeComplete(d.imei, s3);
    RenderTail(d.tree, d.rest);
    ParseComplete(d.tree, d.rest);
  }

  // The accepted datagrams are exactly the strings that start with such bytes.
  lemma AcceptedDatagrams(s: Bytes, d: Datagram)
    ensures ParseDatagram(s) == Some(d) <==>
      && WF(d.tree)
      && d.size == 8 + |d.imei| + |Render(d.tree, [])| + |d.rest| <= MAX_SIZE + 2
      && d.size <= |s| && s[..d.size] == AnyDatagram(s[4], d)
  {
    if ParseDatagram(s) == Some(d) {
      DatagramIs(s, d);
    }
    hide ParseDatagram, Render, WFRecords, WFCommands, AnyDatagram;
    if && WF(d.tree) && d.size == 8 + |d.imei| + |Render(d.tree, [])| + |d.rest| <= MAX_SIZE + 2
       && d.size <= |s| && s[..d.size] == AnyDatagram(s[4], d)
    {
      TreeInDatagram(s[4], d, s[d.size..]);
      assert s == s[..d.size] + s[d.size..];
    }
  }

  // Every IMEI string, both ids and every well-formed packet come back from a datagram of at most 1280 bytes,
  // and nothing is left over.
  lemma UDPRoundTrip(imei: Bytes, packetId: uint16, avlPacketId: byte, p: Packet<Bytes>, t: Bytes)
    requires Encodable(p) && 8 + |imei| + |Body(p)| <= MAX_SIZE
    ensures var d := UDPDatagram(imei, packetId, avlPacketId, Body(p));
            && LengthFieldOk(d + t)
            && ParseDatagram(d + t) == Some(Datagram(|d|, packetId, avlPacketId, imei, TreeOf(p), []))
    ensures Meaning(TreeOf(p)) == CanonicalPacket(p)
  {
    hide TreeOf, Render, BigEndian, Meaning, CanonicalPacket, EncodableItems, TextsFit, WFRecords, WFCommands;
    hide ParseDatagram, LengthFieldOk;
    ShortTexts(p);
    TreeOfWF(p);
    var d := Datagram(8 + |imei| + |Body(p)|, packetId, avlPacketId, imei, TreeOf(p), []);
    assert Body(p) + [] == Body(p);
    TreeInDatagram(1, d, t);
  }

  // Two datagrams are the same exactly when IMEI, ids and the canonical packets are.
  lemma UDPInjective(imei: Bytes, packetId: uint16, avlPacketId: byte, p: Packet<Bytes>,
      imei': Bytes, packetId': uint16, avlPacketId': byte, p': Packet<Bytes>)
    requires Encodable(p) && 8 + |imei| + |Body(p)| <= MAX_SIZE
    requires Encodable(p') && 8 + |imei'| + |Body(p')| <= MAX_SIZE
    ensures UDPDatagram(imei, packetId, avlPacketId, Body(p)) == UDPDatagram(imei', packetId', avlPacketId', Body(p'))
            <==> imei == imei' && packetId == packetId' && avlPacketId == avlPacketId'
                 && CanonicalPacket(p) == CanonicalPacket(p')
  {
    hide Body, TreeOf, ParseDatagram, LengthFieldOk, UDPDatagram, EncodableItems, CanonicalPacket, Meaning, TextsFit;
    UDPRoundTrip(imei, packetId, avlPacketId, p, []);
    UDPRoundTrip(imei', packetId', avlPacketId', p', []);
    ShortTexts(p);
    ShortTexts(p');
    EncodingInjective(p, p');
  }

  // Encoding what an accepted datagram holds gives the datagram back exactly when the tree is in canonical form,
  // nothing is left over behind it, the unused byte is 1, and the datagram is not one of the two sizes above the
  // encoder's limit.
  lemma UDPReverseRoundTrip(s: Bytes, d: Datagram)
    requires ParseDatagram(s) == Some(d)
    ensures WF(d.tree) && 8 <= d.size <= |s|
    ensures && Encodable(Meaning(d.tree))
            && 8 + |d.imei| + |Body(Meaning(d.tree))| <= MAX_SIZE
            && UDPDatagram(d.imei, d.packetId, d.avlPacketId, Body(Meaning(d.tree))) == s[..d.size]
            <==> IsCanonical(d.tree) && d.rest == [] && s[4] == 1 && d.size <= MAX_SIZE
  {
    hide Body, TreeOf, Render, ParseDatagram, LengthFieldOk, BigEndian, Meaning, IsCanonical, WFRecords, WFCommands;
    hide EncodableItems, CanonicalPacket;
    DatagramIs(s, d);
    ReverseRoundTrip(d.tree);
    var p, body := Meaning(d.tree), Render(d.tree, []);
    if d.rest == [] {
      assert body + [] == body;
    }
    if && Encodable(p) && 8 + |d.imei| + |Body(p)| <= MAX_SIZE
       && UDPDatagram(d.imei, d.packetId, d.avlPacketId, Body(p)) == s[..d.size]
    {
      UDPRoundTrip(d.imei, d.packetId, d.avlPacketId, p, s[d.size..]);
      assert s == s[..d.size] + s[d.size..] && s[4] == s[..d.size][4];
    }
  }

  // Any other accepted datagram is not reproduced: each way to miss the condition occurs for every IMEI and both ids.
  lemma DatagramNotReproduced(unused: byte, d: Datagram)
    requires WF(d.tree) && d.size == 8 + |d.imei| + |Render(d.tree, [])| + |d.rest| <= MAX_SIZE + 2
    requires !(IsCanonical(d.tree) && d.rest == [] && unused == 1 && d.size <= MAX_SIZE)
    ensures var s, p := AnyDatagram(unused, d), Meaning(d.tree);
            && ParseDatagram(s) == Some(d)
            && !(&& Encodable(p) && 8 + |d.imei| + |Body(p)| <= MAX_SIZE
                 && UDPDatagram(d.imei, d.packetId, d.avlPacketId, Body(p)) == s)
  {
    hide Body, Render, ParseDatagram, LengthFieldOk, BigEndian, Meaning, IsCanonical, WFRecords, WFCommands;
    hide EncodableItems;
    var s := AnyDatagram(unused, d);
    TreeInDatagram(unused, d, []);
    assert s + [] == s && s[..|s|] == s && s[4] == unused;
    UDPReverseRoundTrip(s, d);
  }

  // For a data packet the reply carries the packet's ids and its number of records.
  lemma ResponsesMatch(packetId: uint16, avlPacketId: byte, p: Packet<Bytes>)
    requires Encodable(p)
    ensures UDPResponse(packetId, avlPacketId, CanonicalPacket(p)).Some? <==> IsDataCodec(p.codecID)
    ensures TCPResponse(CanonicalPacket(p)).Some? <==> IsDataCodec(p.codecID)
    ensures IsDataCodec(p.codecID) ==>
      var r := UDPResponse(packetId, avlPacketId, CanonicalPacket(p)).value;
      && FromBigEndian(r[2..4]) == packetId && r[5] == avlPacketId && r[6] == |p.data.value|
      && TCPResponse(CanonicalPacket(p)).value[3] == |p.data.value|
  {
    hide EncodableData, EncodableMessage;
    if IsDataCodec(p.codecID) {
      var r := UDPResponse(packetId, avlPacketId, CanonicalPacket(p)).value;
      assert r[2..4] == [packetId / 0x100, packetId % 0x100];
      FromBytes(r[2..4]);
    }
  }
}
