// The declarative grammar of packets: syntax trees, and the bytes each tree stands for.
// Every Render function puts the bytes of a tree in front of a tail.

module Grammar {
  import opened Bits
  import opened Wire
  import opened Model
  import Imei

  // ---------------------------------------------------------------- layouts of the data codecs

  datatype LayoutData = Layout(eventWidth: nat, generation: bool, countWidth: nat, idWidth: nat, variable: bool)

  // Field widths in bytes; `generation` for the generation type field of codec 16, `variable` for the
  // group of elements with explicit lengths of codec 8E.
  type Layout = l: LayoutData | 1 <= l.eventWidth <= 2 && 1 <= l.countWidth <= 2 && 1 <= l.idWidth <= 2
                              && (l.variable ==> l.idWidth == 2)
    witness Layout(1, false, 1, 1, false)

  function LayoutOf(codec: byte): Layout
    requires IsDataCodec(codec)
  {
    if codec == CODEC_8 then Layout(1, false, 1, 1, false)
    else if codec == CODEC_16 then Layout(2, true, 1, 2, false)
    else Layout(2, false, 2, 2, true)
  }

  // ---------------------------------------------------------------- syntax trees

  datatype Position = Position(
    timestampMs: uint64,
    priority: byte,
    lng: int32,
    lat: int32,
    altitude: int16,
    angle: uint16,
    satellites: byte,
    speed: uint16)

  // The element block: one group for each value width 1, 2, 4 and 8, and the variable-length group.
  datatype Block = Block(
    eventID: uint16,
    generationType: byte,
    ioCount: nat,
    groups: seq<seq<Element>>,
    variable: seq<Element>)

  datatype Record = Record(position: Position, block: Block)

  // A command; `imei` is the packed field.
  datatype Command = Command(messageType: byte, timestamp: uint32, imei: Bytes, text: Bytes)

  datatype Tree =
    | DataTree(codec: byte, records: seq<Record>)
    | CommandTree(codec: byte, commands: seq<Command>)

  // ---------------------------------------------------------------- well-formed trees

  predicate WFElement(e: Element, l: Layout, w: nat) {
    e.id < Pow256(l.idWidth) && |e.value| == w
  }

  predicate WFElements(es: seq<Element>, l: Layout, w: nat) {
    if es == [] then true else WFElement(es[0], l, w) && WFElements(es[1..], l, w)
  }

  // The groups for widths w, 2w, ... up to 8, with at most `room` elements in all.
  predicate WFGroups(gs: seq<seq<Element>>, l: Layout, w: nat, room: nat)
    requires w > 0
    decreases |gs|
  {
    if w > 8 then gs == []
    else
      && gs != []
      && |gs[0]| < Pow256(l.countWidth)
      && |gs[0]| <= room
      && WFElements(gs[0], l, w)
      && WFGroups(gs[1..], l, 2 * w, room - |gs[0]|)
  }

  predicate WFVarElements(es: seq<Element>) {
    if es == [] then true else |es[0].value| < 0x1_0000 && WFVarElements(es[1..])
  }

  predicate WFVariable(es: seq<Element>, l: Layout, room: nat) {
    if l.variable then |es| < 0x1_0000 && |es| <= room && WFVarElements(es) else es == []
  }

  function Total(gs: seq<seq<Element>>): nat {
    if gs == [] then 0 else |gs[0]| + Total(gs[1..])
  }

  lemma {:induction false} TotalInRoom(gs: seq<seq<Element>>, l: Layout, w: nat, room: nat)
    requires w > 0 && WFGroups(gs, l, w, room)
    ensures Total(gs) <= room
    decreases |gs|
  {
    hide Pow256, WFElements;
    if w <= 8 {
      TotalInRoom(gs[1..], l, 2 * w, room - |gs[0]|);
    }
  }

  predicate WFBlock(b: Block, l: Layout) {
    && b.eventID < Pow256(l.eventWidth)
    && (if l.generation then b.generationType <= 7 else b.generationType == UNKNOWN_GENERATION)
    && b.ioCount < Pow256(l.countWidth)
    && WFGroups(b.groups, l, 1, b.ioCount)
    && Total(b.groups) <= b.ioCount
    && WFVariable(b.variable, l, b.ioCount - Total(b.groups))
  }

  predicate WFRecords(rs: seq<Record>, l: Layout) {
    if rs == [] then true else WFBlock(rs[0].block, l) && WFRecords(rs[1..], l)
  }

  // Bytes of a command's declared size that are not text.
  function Overhead(codec: byte): (n: nat)
    ensures n <= 12
  {
    (if HasTimestamp(codec) then 4 else 0) + (if HasImei(codec) then 8 else 0)
  }

  predicate WFCommand(c: Command, codec: byte) {
    && IsMessageType(codec, c.messageType)
    && (!HasTimestamp(codec) ==> c.timestamp == 0)
    && |c.imei| == (if HasImei(codec) then 8 else 0)
    && |c.text| + Overhead(codec) < 0x1_0000_0000
  }

  predicate WFCommands(cs: seq<Command>, codec: byte) {
    if cs == [] then true else WFCommand(cs[0], codec) && WFCommands(cs[1..], codec)
  }

  predicate WF(tree: Tree) {
    match tree
    case DataTree(codec, records) => IsDataCodec(codec) && |records| < 0x100 && WFRecords(records, LayoutOf(codec))
    case CommandTree(codec, commands) => IsCMDCodecId(codec) && |commands| < 0x100 && WFCommands(commands, codec)
  }

  // ---------------------------------------------------------------- bytes of a tree

  function RenderElement(e: Element, l: Layout, t: Bytes): Bytes {
    BigEndian(e.id, l.idWidth) + (e.value + t)
  }

  function RenderElements(es: seq<Element>, l: Layout, t: Bytes): Bytes {
    if es == [] then t else RenderElement(es[0], l, RenderElements(es[1..], l, t))
  }

  function RenderGroups(gs: seq<seq<Element>>, l: Layout, t: Bytes): Bytes {
    if gs == [] then t
    else BigEndian(|gs[0]|, l.countWidth) + RenderElements(gs[0], l, RenderGroups(gs[1..], l, t))
  }

  function RenderVarElement(e: Element, t: Bytes): Bytes {
    BigEndian(e.id, 2) + (BigEndian(|e.value|, 2) + (e.value + t))
  }

  function RenderVarElements(es: seq<Element>, t: Bytes): Bytes {
    if es == [] then t else RenderVarElement(es[0], RenderVarElements(es[1..], t))
  }

  function RenderVariable(es: seq<Element>, l: Layout, t: Bytes): Bytes {
    if l.variable then BigEndian(|es|, 2) + RenderVarElements(es, t) else t
  }

  function RenderBlockHeader(b: Block, l: Layout, t: Bytes): Bytes {
    var counted := BigEndian(b.ioCount, l.countWidth) + t;
    BigEndian(b.eventID, l.eventWidth) + (if l.generation then BigEndian(b.generationType, 1) + counted else counted)
  }

  function RenderBlock(b: Block, l: Layout, t: Bytes): Bytes {
    RenderBlockHeader(b, l, RenderGroups(b.groups, l, RenderVariable(b.variable, l, t)))
  }

  function RenderPosition(p: Position, t: Bytes): Bytes {
    BigEndian(p.timestampMs, 8) + (BigEndian(p.priority, 1)
    + (BigEndian(Unsigned32(p.lng), 4) + (BigEndian(Unsigned32(p.lat), 4)
    + (BigEndian(Unsigned16(p.altitude), 2) + (BigEndian(p.angle, 2)
    + (BigEndian(p.satellites, 1) + (BigEndian(p.speed, 2) + t)))))))
  }

  function RenderRecord(r: Record, l: Layout, t: Bytes): Bytes {
    RenderPosition(r.position, RenderBlock(r.block, l, t))
  }

  function RenderRecords(rs: seq<Record>, l: Layout, t: Bytes): Bytes {
    if rs == [] then t else RenderRecord(rs[0], l, RenderRecords(rs[1..], l, t))
  }

  function RenderCommand(c: Command, codec: byte, t: Bytes): Bytes {
    var body := c.imei + (c.text + t);
    BigEndian(c.messageType, 1)
    + (BigEndian((|c.text| + Overhead(codec)) % 0x1_0000_0000, 4)
    + (if HasTimestamp(codec) then BigEndian(c.timestamp, 4) + body else body))
  }

  function RenderCommands(cs: seq<Command>, codec: byte, t: Bytes): Bytes {
    if cs == [] then t else RenderCommand(cs[0], codec, RenderCommands(cs[1..], codec, t))
  }

  function ItemCount(tree: Tree): nat {
    if tree.DataTree? then |tree.records| else |tree.commands|
  }

  function RenderItems(tree: Tree, t: Bytes): Bytes
    requires tree.DataTree? ==> IsDataCodec(tree.codec)
  {
    match tree
    case DataTree(codec, records) => RenderRecords(records, LayoutOf(codec), t)
    case CommandTree(codec, commands) => RenderCommands(commands, codec, t)
  }

  function Render(tree: Tree, t: Bytes): Bytes
    requires tree.DataTree? ==> IsDataCodec(tree.codec)
  {
    BigEndian(tree.codec, 1)
    + (BigEndian(ItemCount(tree), 1) + RenderItems(tree, BigEndian(ItemCount(tree), 1) + t))
  }

  // ---------------------------------------------------------------- the packet a tree stands for

  function Flatten(gs: seq<seq<Element>>): (es: seq<Element>)
    ensures |es| == Total(gs)
  {
    if gs == [] then [] else gs[0] + Flatten(gs[1..])
  }

  function Blank(n: nat): (es: seq<Element>)
    ensures |es| == n
  {
    seq(n, _ => IOElement(0, []))
  }

  // The element list: the groups in order, then empty elements up to the declared count.
  function BlockElements(b: Block): (es: seq<Element>)
    ensures Total(b.groups) + |b.variable| <= b.ioCount ==> |es| == b.ioCount
  {
    var found := Total(b.groups) + |b.variable|;
    Flatten(b.groups) + b.variable + Blank(if found <= b.ioCount then b.ioCount - found else 0)
  }

  function RecordData(r: Record): Data<Bytes> {
    var p, b := r.position, r.block;
    Data(p.timestampMs, p.lng, p.lat, p.altitude, p.angle, b.eventID, p.speed, p.satellites, p.priority,
         b.generationType, BlockElements(b))
  }

  function RecordsData(rs: seq<Record>): (ds: seq<Data<Bytes>>)
    ensures |ds| == |rs|
  {
    if rs == [] then [] else [RecordData(rs[0])] + RecordsData(rs[1..])
  }

  function CommandMessage(c: Command, codec: byte): Message {
    Message(c.timestamp, c.messageType, if HasImei(codec) then Imei.UnpackImei(c.imei) else [], c.text)
  }

  function CommandMessages(cs: seq<Command>, codec: byte): (ms: seq<Message>)
    ensures |ms| == |cs|
  {
    if cs == [] then [] else [CommandMessage(cs[0], codec)] + CommandMessages(cs[1..], codec)
  }

  function Meaning(tree: Tree): Packet<Bytes> {
    match tree
    case DataTree(codec, records) => Packet(codec, Some(RecordsData(records)), None)
    case CommandTree(codec, commands) => Packet(codec, None, Some(CommandMessages(commands, codec)))
  }
}
