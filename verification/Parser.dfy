// The parser of packets as a function on byte strings, with the arithmetic of the decoder; it accepts
// exactly the strings that start with the bytes of a well-formed tree.

module Parser {
  import opened Bits
  import opened Wire
  import opened Model
  import opened Grammar

  // ---------------------------------------------------------------- element block

  function ParseElement(s: Bytes, l: Layout, w: nat): (p: Parsed<Element>)
    ensures p.Done? ==> |p.rest| <= |s|
  {
    var (id, s) :- ParseUint(s, l.idWidth);
    Widths();
    var (value, s) :- Take(s, w);
    Done(IOElement(id, value), s)
  }

  function ParseElements(s: Bytes, n: nat, l: Layout, w: nat): (p: Parsed<seq<Element>>)
    ensures p.Done? ==> |p.rest| <= |s|
    ensures p.Done? ==> |p.value| == n
    decreases n
  {
    if n == 0 then Done([], s)
    else
      var (e, s) :- ParseElement(s, l, w);
      var (es, s) :- ParseElements(s, n - 1, l, w);
      Done([e] + es, s)
  }

  // A counted group of elements with w-byte values; more than `room` elements are an error.
  function ParseGroup(s: Bytes, l: Layout, w: nat, room: nat): (p: Parsed<seq<Element>>)
    ensures p.Done? ==> |p.rest| <= |s|
    ensures p.Done? ==> |p.value| <= room
  {
    var (n, s) :- ParseUint(s, l.countWidth);
    if n > room then Fail else ParseElements(s, n, l, w)
  }

  // The groups for widths w, 2w, ... up to 8.
  function ParseGroups(s: Bytes, l: Layout, w: nat, room: nat): (p: Parsed<seq<seq<Element>>>)
    requires w > 0
    ensures p.Done? ==> |p.rest| <= |s|
    ensures p.Done? ==> Total(p.value) <= room
    decreases 16 - w
  {
    if w > 8 then Done([], s)
    else
      var (g, s) :- ParseGroup(s, l, w, room);
      var (gs, s) :- ParseGroups(s, l, 2 * w, room - |g|);
      assert ([g] + gs)[1..] == gs;
      Done([g] + gs, s)
  }

  function ParseVarElement(s: Bytes): (p: Parsed<Element>)
    ensures p.Done? ==> |p.rest| <= |s|
  {
    var (id, s) :- ParseUint(s, 2);
    var (length, s) :- ParseUint(s, 2);
    Widths();
    var (value, s) :- Take(s, length);
    Done(IOElement(id, value), s)
  }

  function ParseVarElements(s: Bytes, n: nat): (p: Parsed<seq<Element>>)
    ensures p.Done? ==> |p.rest| <= |s|
    ensures p.Done? ==> |p.value| == n
    decreases n
  {
    if n == 0 then Done([], s)
    else
      var (e, s) :- ParseVarElement(s);
      var (es, s) :- ParseVarElements(s, n - 1);
      Done([e] + es, s)
  }

  function ParseVariable(s: Bytes, l: Layout, room: nat): (p: Parsed<seq<Element>>)
    ensures p.Done? ==> |p.rest| <= |s|
    ensures p.Done? ==> |p.value| <= room
  {
    if !l.variable then Done([], s)
    else
      var (n, s) :- ParseUint(s, 2);
      if n > room then Fail else ParseVarElements(s, n)
  }

  // Event id, generation type and element count.
  function ParseBlockHeader(s: Bytes, l: Layout): (p: Parsed<(uint16, byte, nat)>)
    ensures p.Done? ==> |p.rest| <= |s|
    ensures p.Done? ==> p.value.2 < Pow256(l.countWidth)
  {
    var (eventID, s) :- ParseUint(s, l.eventWidth);
    Widths();
    if l.generation then
      var (generation, s) :- ParseUint(s, 1);
      var (ioCount, s) :- ParseUint(s, l.countWidth);
      if generation > 7 then Fail else Done((eventID, generation, ioCount), s)
    else
      var (ioCount, s) :- ParseUint(s, l.countWidth);
      Done((eventID, UNKNOWN_GENERATION, ioCount), s)
  }

  // The groups and the variable-length group.
  function ParseBlockBody(s: Bytes, l: Layout, ioCount: nat): (p: Parsed<(seq<seq<Element>>, seq<Element>)>)
    ensures p.Done? ==> |p.rest| <= |s|
    ensures p.Done? ==> Total(p.value.0) + |p.value.1| <= ioCount
  {
    var (groups, s) :- ParseGroups(s, l, 1, ioCount);
    var (variable, s) :- ParseVariable(s, l, ioCount - Total(groups));
    Done((groups, variable), s)
  }

  function ParseBlock(s: Bytes, l: Layout): (p: Parsed<Block>)
    ensures p.Done? ==> |p.rest| <= |s|
    ensures p.Done? ==> Total(p.value.groups) + |p.value.variable| <= p.value.ioCount
  {
    var (header, s) :- ParseBlockHeader(s, l);
    var (body, s) :- ParseBlockBody(s, l, header.2);
    Done(Block(header.0, header.1, header.2, body.0, body.1), s)
  }

  // ---------------------------------------------------------------- data records

  function ParsePosition(s: Bytes): (p: Parsed<Position>)
    ensures p.Done? ==> |p.rest| <= |s|
  {
    Widths();
    var (timestampMs, s) :- ParseUint(s, 8);
    var (priority, s) :- ParseUint(s, 1);
    var (lng, s) :- ParseUint(s, 4);
    var (lat, s) :- ParseUint(s, 4);
    var (altitude, s) :- ParseUint(s, 2);
    var (angle, s) :- ParseUint(s, 2);
    var (satellites, s) :- ParseUint(s, 1);
    var (speed, s) :- ParseUint(s, 2);
    Done(Position(timestampMs, priority, Signed32(lng), Signed32(lat), Signed16(altitude), angle, satellites, speed), s)
  }

  function ParseRecord(s: Bytes, l: Layout): (p: Parsed<Record>)
    ensures p.Done? ==> |p.rest| <= |s|
    ensures p.Done? ==> Total(p.value.block.groups) + |p.value.block.variable| <= p.value.block.ioCount
  {
    var (position, s) :- ParsePosition(s);
    var (block, s) :- ParseBlock(s, l);
    Done(Record(position, block), s)
  }

  function ParseRecords(s: Bytes, n: nat, l: Layout): (p: Parsed<seq<Record>>)
    ensures p.Done? ==> |p.rest| <= |s|
    ensures p.Done? ==> |p.value| == n
    decreases n
  {
    if n == 0 then Done([], s)
    else
      var (r, s) :- ParseRecord(s, l);
      var (rs, s) :- ParseRecords(s, n - 1, l);
      Done([r] + rs, s)
  }

  // ---------------------------------------------------------------- commands

  // `uint32` subtraction.
  function WrapSub(a: uint32, b: uint32): uint32 {
    (a - b) % 0x1_0000_0000
  }

  function ParseTimestamp(s: Bytes, codec: byte): (p: Parsed<uint32>)
    ensures p.Done? ==> |p.rest| <= |s|
  {
    Widths();
    if HasTimestamp(codec) then ParseUint(s, 4) else Done(0, s)
  }

  function ParseImei(s: Bytes, codec: byte): (p: Parsed<Bytes>)
    ensures p.Done? ==> |p.rest| <= |s|
  {
    if HasImei(codec) then Take(s, 8) else Done([], s)
  }

  function ParseCommand(s: Bytes, codec: byte): (p: Parsed<Command>)
    ensures p.Done? ==> |p.rest| <= |s|
  {
    Widths();
    var (messageType, s) :- ParseUint(s, 1);
    if !IsMessageType(codec, messageType) then Fail
    else
      var (size, s) :- ParseUint(s, 4);
      var (timestamp, s) :- ParseTimestamp(s, codec);
      var (imei, s) :- ParseImei(s, codec);
      var (text, s) :- Take(s, WrapSub(size, Overhead(codec)));
      Done(Command(messageType, timestamp, imei, text), s)
  }

  function ParseCommands(s: Bytes, n: nat, codec: byte): (p: Parsed<seq<Command>>)
    ensures p.Done? ==> |p.rest| <= |s|
    ensures p.Done? ==> |p.value| == n
    decreases n
  {
    if n == 0 then Done([], s)
    else
      var (c, s) :- ParseCommand(s, codec);
      var (cs, s) :- ParseCommands(s, n - 1, codec);
      Done([c] + cs, s)
  }

  // ---------------------------------------------------------------- packets

  function ParseItems(s: Bytes, codec: byte, n: nat): (p: Parsed<Tree>)
    requires IsCodecSupported(codec)
    ensures p.Done? ==> |p.rest| <= |s|
    ensures p.Done? ==> p.value.codec == codec && ItemCount(p.value) == n && p.value.CommandTree? == IsCMDCodecId(codec)
  {
    if IsCMDCodecId(codec) then
      var (commands, s) :- ParseCommands(s, n, codec);
      Done(CommandTree(codec, commands), s)
    else
      var (records, s) :- ParseRecords(s, n, LayoutOf(codec));
      Done(DataTree(codec, records), s)
  }

  function Parse(s: Bytes): (p: Parsed<Tree>)
    ensures p.Done? ==> |p.rest| <= |s| && p.value.CommandTree? == IsCMDCodecId(p.value.codec)
  {
    Widths();
    var (codec, s) :- ParseUint(s, 1);
    var (count, s) :- ParseUint(s, 1);
    if !IsCodecSupported(codec) then Fail
    else
      var (tree, s) :- ParseItems(s, codec, count);
      var (check, s) :- ParseUint(s, 1);
      if check == count then Done(tree, s) else Fail
  }

  // The same parser over unbounded integers: a declared size smaller than the overhead is an error.
  function ParseCommandIdeal(s: Bytes, codec: byte): (p: Parsed<Command>)
    ensures p.Done? ==> |p.rest| <= |s|
  {
    Widths();
    var (messageType, s) :- ParseUint(s, 1);
    if !IsMessageType(codec, messageType) then Fail
    else
      var (size, s) :- ParseUint(s, 4);
      var (timestamp, s) :- ParseTimestamp(s, codec);
      var (imei, s) :- ParseImei(s, codec);
      if size < Overhead(codec) then Fail
      else
        var (text, s) :- Take(s, size - Overhead(codec));
        Done(Command(messageType, timestamp, imei, text), s)
  }

  // Below this length the wrapped size of a command never fits.
  const WRAP_LIMIT := 0x1_0000_0005

  lemma WrappingOnShortInput(s: Bytes, codec: byte)
    requires |s| < WRAP_LIMIT || codec == CODEC_12
    ensures ParseCommand(s, codec) == ParseCommandIdeal(s, codec)
  {
    hide ParseUint, Pow256, IsMessageType, WrapSub, Take;
    Widths();
    UintRest(s, 1);
    if ParseUint(s, 1).Done? {
      var s1 := ParseUint(s, 1).rest;
      UintRest(s1, 4);
      if ParseUint(s1, 4).Done? {
        var size, s2 := ParseUint(s1, 4).value, ParseUint(s1, 4).rest;
        UintRest(s2, 4);
        if ParseTimestamp(s2, codec).Done? {
          var s3 := ParseTimestamp(s2, codec).rest;
          TakeRest(s3, 8);
          if ParseImei(s3, codec).Done? {
            WrappedTake(ParseImei(s3, codec).rest, size, Overhead(codec));
          }
        }
      }
    }
  }

  lemma UintRest(s: Bytes, n: nat)
    ensures ParseUint(s, n).Done? ==> |s| == |ParseUint(s, n).rest| + n
  {
    hide FromBigEndian, Pow256;
  }

  lemma TakeRest(s: Bytes, n: nat)
    ensures Take(s, n).Done? ==> |s| == |Take(s, n).rest| + n
  {}

  // A wrapped size is too large for what is left of a short input.
  lemma WrappedTake(s: Bytes, size: uint32, overhead: nat)
    requires overhead <= 12
    ensures size >= overhead ==> WrapSub(size, overhead) == size - overhead
    ensures size < overhead && |s| + overhead < 0x1_0000_0000 ==> Take(s, WrapSub(size, overhead)).Fail?
  {}

  // With n bytes of input the wrapping subtraction is the ideal one exactly when the codec subtracts
  // nothing or n is below the limit: at the limit, a declared size of 0 wraps to a size that fits.
  lemma WrappingHarmless(n: nat, codec: byte)
    requires IsCMDCodecId(codec)
    ensures (forall s: Bytes :: |s| == n ==> ParseCommand(s, codec) == ParseCommandIdeal(s, codec))
            <==> n < WRAP_LIMIT || codec == CODEC_12
  {
    hide ParseCommand, ParseCommandIdeal;
    if n < WRAP_LIMIT || codec == CODEC_12 {
      forall s: Bytes | |s| == n ensures ParseCommand(s, codec) == ParseCommandIdeal(s, codec) {
        WrappingOnShortInput(s, codec);
      }
    } else {
      var s: Bytes := [TYPE_RESPONSE] + seq(n - 1, _ => 0);
      WrappedSizeFits(s, codec);
    }
  }

  lemma WrappedSizeFits(s: Bytes, codec: byte)
    requires IsCMDCodecId(codec) && codec != CODEC_12
    requires |s| >= WRAP_LIMIT && s[0] == TYPE_RESPONSE && s[1..5] == [0, 0, 0, 0]
    ensures ParseCommand(s, codec).Done? && ParseCommandIdeal(s, codec).Fail?
  {
    hide Pow256;
    Widths();
    assert s[..1] == [TYPE_RESPONSE];
    assert FromBigEndian([TYPE_RESPONSE]) == TYPE_RESPONSE by {
      assert [TYPE_RESPONSE][..0] == [];
    }
    assert s[1..][..4] == [0, 0, 0, 0];
    assert FromBigEndian([0, 0, 0, 0]) == 0 by {
      assert [0, 0, 0, 0][..3] == [0, 0, 0] && [0, 0, 0][..2] == [0, 0] && [0, 0][..1] == [0];
    }
  }

  // ---------------------------------------------------------------- every tree's bytes are accepted

  lemma ElementComplete(e: Element, l: Layout, w: nat, t: Bytes)
    requires WFElement(e, l, w)
    ensures ParseElement(RenderElement(e, l, t), l, w) == Done(e, t)
  {
    hide BigEndian, ParseUint, Pow256, Take;
    UintComplete(e.id, l.idWidth, e.value + t);
    TakeComplete(e.value, t);
  }

  lemma {:induction false} ElementsComplete(es: seq<Element>, l: Layout, w: nat, t: Bytes)
    requires WFElements(es, l, w)
    ensures ParseElements(RenderElements(es, l, t), |es|, l, w) == Done(es, t)
    decreases |es|
  {
    hide ParseElement, RenderElement, WFElement;
    if es != [] {
      ElementsComplete(es[1..], l, w, t);
      ElementComplete(es[0], l, w, RenderElements(es[1..], l, t));
      assert es == [es[0]] + es[1..];
    }
  }

  lemma GroupComplete(g: seq<Element>, l: Layout, w: nat, room: nat, t: Bytes)
    requires |g| < Pow256(l.countWidth) && |g| <= room && WFElements(g, l, w)
    ensures ParseGroup(BigEndian(|g|, l.countWidth) + RenderElements(g, l, t), l, w, room) == Done(g, t)
  {
    hide ParseElements, RenderElements, WFElements, BigEndian, ParseUint, Pow256;
    ElementsComplete(g, l, w, t);
    UintComplete(|g|, l.countWidth, RenderElements(g, l, t));
  }

  lemma {:induction false} GroupsComplete(gs: seq<seq<Element>>, l: Layout, w: nat, room: nat, t: Bytes)
    requires w > 0 && WFGroups(gs, l, w, room)
    ensures ParseGroups(RenderGroups(gs, l, t), l, w, room) == Done(gs, t)
    decreases |gs|
  {
    hide ParseGroup, RenderElements, WFElements, BigEndian, Pow256, Total;
    if w <= 8 {
      var v, r := 2 * w, room - |gs[0]|;
      GroupsComplete(gs[1..], l, v, r, t);
      GroupComplete(gs[0], l, w, room, RenderGroups(gs[1..], l, t));
      assert gs == [gs[0]] + gs[1..];
    }
  }

  lemma {:induction false} VarElementsComplete(es: seq<Element>, t: Bytes)
    requires WFVarElements(es)
    ensures ParseVarElements(RenderVarElements(es, t), |es|) == Done(es, t)
    decreases |es|
  {
    hide BigEndian, ParseUint, Pow256, Take;
    if es != [] {
      var e, t' := es[0], RenderVarElements(es[1..], t);
      VarElementsComplete(es[1..], t);
      Widths();
      UintComplete(e.id, 2, BigEndian(|e.value|, 2) + (e.value + t'));
      UintComplete(|e.value|, 2, e.value + t');
      TakeComplete(e.value, t');
      assert es == [es[0]] + es[1..];
    }
  }

  lemma VariableComplete(es: seq<Element>, l: Layout, room: nat, t: Bytes)
    requires WFVariable(es, l, room)
    ensures ParseVariable(RenderVariable(es, l, t), l, room) == Done(es, t)
  {
    hide ParseVarElements, RenderVarElements, WFVarElements, BigEndian, ParseUint, Pow256;
    if l.variable {
      Widths();
      VarElementsComplete(es, t);
      UintComplete(|es|, 2, RenderVarElements(es, t));
    }
  }

  lemma BlockHeaderComplete(b: Block, l: Layout, t: Bytes)
    requires WFBlock(b, l)
    ensures ParseBlockHeader(RenderBlockHeader(b, l, t), l) == Done((b.eventID, b.generationType, b.ioCount), t)
  {
    hide BigEndian, ParseUint, Pow256, WFGroups, WFVariable, Total;
    Widths();
    var counted := BigEndian(b.ioCount, l.countWidth) + t;
    UintComplete(b.ioCount, l.countWidth, t);
    UintComplete(b.generationType, 1, counted);
    UintComplete(b.eventID, l.eventWidth, if l.generation then BigEndian(b.generationType, 1) + counted else counted);
  }

  lemma BlockComplete(b: Block, l: Layout, t: Bytes)
    requires WFBlock(b, l)
    ensures ParseBlock(RenderBlock(b, l, t), l) == Done(b, t)
  {
    hide ParseBlockHeader, ParseGroups, ParseVariable, RenderBlockHeader, RenderGroups, RenderVariable;
    hide WFGroups, WFVariable, Pow256, Total;
    var t' := RenderVariable(b.variable, l, t);
    VariableComplete(b.variable, l, b.ioCount - Total(b.groups), t);
    GroupsComplete(b.groups, l, 1, b.ioCount, t');
    BlockHeaderComplete(b, l, RenderGroups(b.groups, l, t'));
  }

  lemma PositionComplete(p: Position, t: Bytes)
    ensures ParsePosition(RenderPosition(p, t)) == Done(p, t)
  {
    hide BigEndian, ParseUint, Pow256;
    Widths();
    var t7 := BigEndian(p.speed, 2) + t;
    var t6 := BigEndian(p.satellites, 1) + t7;
    var t5 := BigEndian(p.angle, 2) + t6;
    var t4 := BigEndian(Unsigned16(p.altitude), 2) + t5;
    var t3 := BigEndian(Unsigned32(p.lat), 4) + t4;
    var t2 := BigEndian(Unsigned32(p.lng), 4) + t3;
    var t1 := BigEndian(p.priority, 1) + t2;
    UintComplete(p.speed, 2, t);
    UintComplete(p.satellites, 1, t7);
    UintComplete(p.angle, 2, t6);
    UintComplete(Unsigned16(p.altitude), 2, t5);
    UintComplete(Unsigned32(p.lat), 4, t4);
    UintComplete(Unsigned32(p.lng), 4, t3);
    UintComplete(p.priority, 1, t2);
    UintComplete(p.timestampMs, 8, t1);
  }

  lemma {:induction false} RecordsComplete(rs: seq<Record>, l: Layout, t: Bytes)
    requires WFRecords(rs, l)
    ensures ParseRecords(RenderRecords(rs, l, t), |rs|, l) == Done(rs, t)
    decreases |rs|
  {
    hide ParsePosition, ParseBlock, RenderPosition, RenderBlock, WFBlock, Total;
    if rs != [] {
      var r, t' := rs[0], RenderRecords(rs[1..], l, t);
      RecordsComplete(rs[1..], l, t);
      BlockComplete(r.block, l, t');
      PositionComplete(r.position, RenderBlock(r.block, l, t'));
      assert rs == [rs[0]] + rs[1..];
    }
  }

  lemma CommandComplete(c: Command, codec: byte, t: Bytes)
    requires WFCommand(c, codec)
    ensures ParseCommand(RenderCommand(c, codec, t), codec) == Done(c, t)
  {
    hide BigEndian, ParseUint, Pow256, Take, IsMessageType;
    Widths();
    var body := c.imei + (c.text + t);
    var stamped := if HasTimestamp(codec) then BigEndian(c.timestamp, 4) + body else body;
    var size := |c.text| + Overhead(codec);
    TakeComplete(c.text, t);
    TakeComplete(c.imei, c.text + t);
    UintComplete(c.timestamp, 4, body);
    UintComplete(size, 4, stamped);
    UintComplete(c.messageType, 1, BigEndian(size, 4) + stamped);
    assert HasImei(codec) || body == c.text + t;
  }

  lemma {:induction false} CommandsComplete(cs: seq<Command>, codec: byte, t: Bytes)
    requires WFCommands(cs, codec)
    ensures ParseCommands(RenderCommands(cs, codec, t), |cs|, codec) == Done(cs, t)
    decreases |cs|
  {
    hide ParseCommand, RenderCommand, WFCommand;
    if cs != [] {
      CommandsComplete(cs[1..], codec, t);
      CommandComplete(cs[0], codec, RenderCommands(cs[1..], codec, t));
      assert cs == [cs[0]] + cs[1..];
    }
  }

  lemma ItemsComplete(tree: Tree, t: Bytes)
    requires WF(tree)
    ensures ParseItems(RenderItems(tree, t), tree.codec, ItemCount(tree)) == Done(tree, t)
  {
    hide ParseCommands, ParseRecords, RenderCommands, RenderRecords, WFCommands, WFRecords;
    match tree
    case DataTree(codec, records) => RecordsComplete(records, LayoutOf(codec), t);
    case CommandTree(codec, commands) => CommandsComplete(commands, codec, t);
  }

  // The bytes of a well-formed tree, followed by anything, parse to that tree.
  lemma ParseComplete(tree: Tree, t: Bytes)
    requires WF(tree)
    ensures Parse(Render(tree, t)) == Done(tree, t)
  {
    hide ParseItems, RenderItems, BigEndian, ParseUint, Pow256;
    Widths();
    var n := ItemCount(tree);
    var t1 := BigEndian(n, 1) + t;
    UintComplete(n, 1, t);
    ItemsComplete(tree, t1);
    UintComplete(n, 1, RenderItems(tree, t1));
    UintComplete(tree.codec, 1, BigEndian(n, 1) + RenderItems(tree, t1));
  }

  // ---------------------------------------------------------------- only trees' bytes are accepted

  lemma ElementSound(s: Bytes, l: Layout, w: nat, e: Element, t: Bytes)
    requires ParseElement(s, l, w) == Done(e, t)
    ensures WFElement(e, l, w) && s == RenderElement(e, l, t)
  {
    hide BigEndian, ParseUint, Pow256, Take;
    var s1 := ParseUint(s, l.idWidth).rest;
    UintSound(s, l.idWidth, e.id, s1);
    TakeSound(s1, w, e.value, t);
  }

  lemma {:induction false} ElementsSound(s: Bytes, n: nat, l: Layout, w: nat, es: seq<Element>, t: Bytes)
    requires ParseElements(s, n, l, w) == Done(es, t)
    ensures |es| == n && WFElements(es, l, w) && s == RenderElements(es, l, t)
    decreases n
  {
    hide ParseElement, RenderElement, WFElement;
    if n > 0 {
      var s1 := ParseElement(s, l, w).rest;
      ElementSound(s, l, w, es[0], s1);
      ElementsSound(s1, n - 1, l, w, es[1..], t);
    }
  }

  lemma GroupSound(s: Bytes, l: Layout, w: nat, room: nat, g: seq<Element>, t: Bytes)
    requires ParseGroup(s, l, w, room) == Done(g, t)
    ensures |g| < Pow256(l.countWidth) && |g| <= room && WFElements(g, l, w)
    ensures s == BigEndian(|g|, l.countWidth) + RenderElements(g, l, t)
  {
    hide ParseElements, RenderElements, WFElements, BigEndian, ParseUint, Pow256;
    var n, s1 := ParseUint(s, l.countWidth).value, ParseUint(s, l.countWidth).rest;
    UintSound(s, l.countWidth, n, s1);
    ElementsSound(s1, n, l, w, g, t);
  }

  lemma {:induction false} GroupsSound(s: Bytes, l: Layout, w: nat, room: nat, gs: seq<seq<Element>>, t: Bytes)
    requires w > 0 && ParseGroups(s, l, w, room) == Done(gs, t)
    ensures WFGroups(gs, l, w, room) && s == RenderGroups(gs, l, t)
    decreases 16 - w
  {
    hide ParseGroup, RenderElements, WFElements, BigEndian, Pow256, Total;
    if w <= 8 {
      var s2 := ParseGroup(s, l, w, room).rest;
      var v, r := 2 * w, room - |gs[0]|;
      GroupSound(s, l, w, room, gs[0], s2);
      GroupsSound(s2, l, v, r, gs[1..], t);
    }
  }

  lemma {:induction false} VarElementsSound(s: Bytes, n: nat, es: seq<Element>, t: Bytes)
    requires ParseVarElements(s, n) == Done(es, t)
    ensures |es| == n && WFVarElements(es) && s == RenderVarElements(es, t)
    decreases n
  {
    hide BigEndian, ParseUint, Pow256, Take;
    if n > 0 {
      var e, s3 := es[0], ParseVarElement(s).rest;
      var s1 := ParseUint(s, 2).rest;
      var s2 := ParseUint(s1, 2).rest;
      UintSound(s, 2, e.id, s1);
      UintSound(s1, 2, ParseUint(s1, 2).value, s2);
      TakeSound(s2, ParseUint(s1, 2).value, e.value, s3);
      Widths();
      VarElementsSound(s3, n - 1, es[1..], t);
    }
  }

  lemma VariableSound(s: Bytes, l: Layout, room: nat, es: seq<Element>, t: Bytes)
    requires ParseVariable(s, l, room) == Done(es, t)
    ensures WFVariable(es, l, room) && s == RenderVariable(es, l, t)
  {
    hide ParseVarElements, RenderVarElements, WFVarElements, BigEndian, ParseUint, Pow256;
    if l.variable {
      Widths();
      var n, s1 := ParseUint(s, 2).value, ParseUint(s, 2).rest;
      UintSound(s, 2, n, s1);
      VarElementsSound(s1, n, es, t);
    }
  }

  lemma BlockHeaderSound(s: Bytes, l: Layout, b: Block, t: Bytes)
    requires ParseBlockHeader(s, l) == Done((b.eventID, b.generationType, b.ioCount), t)
    ensures s == RenderBlockHeader(b, l, t)
    ensures b.eventID < Pow256(l.eventWidth) && b.ioCount < Pow256(l.countWidth)
    ensures if l.generation then b.generationType <= 7 else b.generationType == UNKNOWN_GENERATION
  {
    hide BigEndian, ParseUint, Pow256;
    Widths();
    var s1 := ParseUint(s, l.eventWidth).rest;
    UintSound(s, l.eventWidth, b.eventID, s1);
    if l.generation {
      var s2 := ParseUint(s1, 1).rest;
      UintSound(s1, 1, b.generationType, s2);
      UintSound(s2, l.countWidth, b.ioCount, t);
    } else {
      UintSound(s1, l.countWidth, b.ioCount, t);
    }
  }

  lemma BlockSound(s: Bytes, l: Layout, b: Block, t: Bytes)
    requires ParseBlock(s, l) == Done(b, t)
    ensures WFBlock(b, l) && s == RenderBlock(b, l, t)
  {
    hide ParseBlockHeader, ParseGroups, ParseVariable, RenderBlockHeader, RenderGroups, RenderVariable;
    hide WFGroups, WFVariable, Pow256, Total;
    var s1 := ParseBlockHeader(s, l).rest;
    var s2 := ParseGroups(s1, l, 1, b.ioCount).rest;
    BlockHeaderSound(s, l, b, s1);
    GroupsSound(s1, l, 1, b.ioCount, b.groups, s2);
    VariableSound(s2, l, b.ioCount - Total(b.groups), b.variable, t);
  }

  lemma PositionSound(s: Bytes, p: Position, t: Bytes)
    requires ParsePosition(s) == Done(p, t)
    ensures s == RenderPosition(p, t)
  {
    hide BigEndian, ParseUint, Pow256;
    Widths();
    var s1 := ParseUint(s, 8).rest;
    var s2 := ParseUint(s1, 1).rest;
    var s3 := ParseUint(s2, 4).rest;
    var s4 := ParseUint(s3, 4).rest;
    var s5 := ParseUint(s4, 2).rest;
    var s6 := ParseUint(s5, 2).rest;
    var s7 := ParseUint(s6, 1).rest;
    UintSound(s, 8, p.timestampMs, s1);
    UintSound(s1, 1, p.priority, s2);
    UintSound(s2, 4, Unsigned32(p.lng), s3);
    UintSound(s3, 4, Unsigned32(p.lat), s4);
    UintSound(s4, 2, Unsigned16(p.altitude), s5);
    UintSound(s5, 2, p.angle, s6);
    UintSound(s6, 1, p.satellites, s7);
    UintSound(s7, 2, p.speed, t);
  }

  lemma {:induction false} RecordsSound(s: Bytes, n: nat, l: Layout, rs: seq<Record>, t: Bytes)
    requires ParseRecords(s, n, l) == Done(rs, t)
    ensures |rs| == n && WFRecords(rs, l) && s == RenderRecords(rs, l, t)
    decreases n
  {
    hide ParsePosition, ParseBlock, RenderPosition, RenderBlock, WFBlock, Total;
    if n > 0 {
      var s1 := ParsePosition(s).rest;
      var s2 := ParseBlock(s1, l).rest;
      PositionSound(s, rs[0].position, s1);
      BlockSound(s1, l, rs[0].block, s2);
      RecordsSound(s2, n - 1, l, rs[1..], t);
    }
  }

  lemma CommandIdealSound(s: Bytes, codec: byte, c: Command, t: Bytes)
    requires ParseCommandIdeal(s, codec) == Done(c, t)
    ensures WFCommand(c, codec) && s == RenderCommand(c, codec, t)
  {
    hide BigEndian, ParseUint, Pow256, Take, IsMessageType;
    Widths();
    var s1 := ParseUint(s, 1).rest;
    var size, s2 := ParseUint(s1, 4).value, ParseUint(s1, 4).rest;
    var s3 := ParseTimestamp(s2, codec).rest;
    var s4 := ParseImei(s3, codec).rest;
    UintSound(s, 1, c.messageType, s1);
    UintSound(s1, 4, size, s2);
    if HasTimestamp(codec) {
      UintSound(s2, 4, c.timestamp, s3);
    }
    if HasImei(codec) {
      TakeSound(s3, 8, c.imei, s4);
    } else {
      assert [] + s4 == s4;
    }
    TakeSound(s4, size - Overhead(codec), c.text, t);
  }

  lemma CommandSound(s: Bytes, codec: byte, c: Command, t: Bytes)
    requires |s| < WRAP_LIMIT
    requires ParseCommand(s, codec) == Done(c, t)
    ensures WFCommand(c, codec) && s == RenderCommand(c, codec, t)
  {
    hide ParseCommand, ParseCommandIdeal, WFCommand, RenderCommand;
    WrappingOnShortInput(s, codec);
    CommandIdealSound(s, codec, c, t);
  }

  lemma {:induction false} CommandsSound(s: Bytes, n: nat, codec: byte, cs: seq<Command>, t: Bytes)
    requires |s| < WRAP_LIMIT
    requires ParseCommands(s, n, codec) == Done(cs, t)
    ensures |cs| == n && WFCommands(cs, codec) && s == RenderCommands(cs, codec, t)
    decreases n
  {
    hide ParseCommand, WFCommand;
    if n > 0 {
      var s1 := ParseCommand(s, codec).rest;
      CommandSound(s, codec, cs[0], s1);
      assert |s1| <= |s|;
      CommandsSound(s1, n - 1, codec, cs[1..], t);
    }
  }

  lemma ItemsSound(s: Bytes, codec: byte, n: nat, tree: Tree, t: Bytes)
    requires |s| < WRAP_LIMIT && IsCodecSupported(codec) && n < 0x100
    requires ParseItems(s, codec, n) == Done(tree, t)
    ensures WF(tree) && s == RenderItems(tree, t)
  {
    hide ParseCommands, ParseRecords, RenderCommands, RenderRecords, WFCommands, WFRecords;
    match tree
    case DataTree(_, records) => RecordsSound(s, n, LayoutOf(codec), records, t);
    case CommandTree(_, commands) => CommandsSound(s, n, codec, commands, t);
  }

  // A string that parses starts with the bytes of the well-formed tree it parses to.
  lemma ParseSound(s: Bytes, tree: Tree, t: Bytes)
    requires |s| < WRAP_LIMIT
    requires Parse(s) == Done(tree, t)
    ensures WF(tree) && s == Render(tree, t)
  {
    hide ParseItems, RenderItems, BigEndian, ParseUint, Pow256;
    Widths();
    var s1 := ParseUint(s, 1).rest;
    var n, s2 := ParseUint(s1, 1).value, ParseUint(s1, 1).rest;
    var s3 := ParseItems(s2, tree.codec, n).rest;
    UintSound(s, 1, tree.codec, s1);
    UintSound(s1, 1, n, s2);
    ItemsSound(s2, tree.codec, n, tree, s3);
    UintSound(s3, 1, n, t);
  }
}
