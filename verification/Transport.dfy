// The entry points: encoding to frames and datagrams, decoding from slices, readers and readers with a
// caller's buffer.

module Transport {
  import opened Bits
  import opened Wire
  import opened Model
  import opened Grammar
  import opened Canonical
  import opened Rendering
  import opened Parser
  import opened Framing
  import opened Views
  import opened Readers
  import opened Decoder
  import opened Encoder
  import opened Streams
  import opened Crc16

  // ---------------------------------------------------------------- encoding

  // The size of the messages.
  method MessagesSizeOf(codec: byte, messages: seq<Message>) returns (dataSize: nat)
    requires IsCMDCodecId(codec)
    ensures dataSize == MessagesSize(messages, codec)
  {
    hide MessagesSize;
    dataSize := 0;
    NoMessages(codec);
    for i := 0 to |messages|
      invariant dataSize == MessagesSize(messages[..i], codec)
    {
      CommandsOfSnoc(messages, i, codec);
      dataSize := dataSize + |messages[i].text| + 5;
      if codec == CODEC_14 {
        dataSize := dataSize + 8;
      } else if codec == CODEC_13 {
        dataSize := dataSize + 4;
      } else if codec == CODEC_15 {
        dataSize := dataSize + 12;
      }
    }
    assert messages[..|messages|] == messages;
  }

  // The size of one record's elements; None when an element has no encoding.
  method ElementsSizeOf(codec: byte, elements: seq<Element>) returns (n: Option<nat>)
    requires IsDataCodec(codec)
    ensures n.Some? <==> EncodableElements(elements, LayoutOf(codec))
    ensures n.Some? ==> n.value == BlockSize(elements, LayoutOf(codec))
  {
    hide EncodableElements, BlockSize;
    if codec == CODEC_8 {
      n := CalculateElementsSizeCodec8(elements);
    } else if codec == CODEC_8E {
      n := CalculateElementsSizeCodec8E(elements);
    } else {
      n := CalculateElementsSizeCodec16(elements);
    }
  }

  // The size of the records; None when an element has no encoding.
  method RecordsSizeOf(codec: byte, data: seq<Data<Bytes>>) returns (r: Option<nat>)
    requires IsDataCodec(codec)
    ensures r.Some? ==> r.value == RecordsSize(data, LayoutOf(codec))
    ensures r.None? ==> exists i :: 0 <= i < |data| && !EncodableElements(data[i].elements, LayoutOf(codec))
  {
    hide RecordsSize, BlockSize, EncodableElements, RenderRecords, RenderRecord, RecordOf, RecordsOf, LayoutOf;
    var dataSize := 0;
    Encoder.NoRecords(LayoutOf(codec));
    for i := 0 to |data|
      invariant dataSize == RecordsSize(data[..i], LayoutOf(codec))
    {
      RecordsOfSnoc(data, i, LayoutOf(codec));
      var n :- ElementsSizeOf(codec, data[i].elements);
      dataSize := dataSize + 24 + n;
    }
    assert data[..|data|] == data;
    return Some(dataSize);
  }

  // The size of the items; None when an element has no encoding.
  method ItemsSize(packet: Packet<Bytes>) returns (r: Option<nat>)
    requires IsCodecSupported(packet.codecID)
    ensures r.Some? ==> 3 + r.value == BodySize(packet)
    ensures r.None? ==> !EncodableItems(packet)
  {
    hide RecordsSize, MessagesSize, EncodableElements, EncodableMessage;
    if IsCMDCodecId(packet.codecID) {
      var size := MessagesSizeOf(packet.codecID, ListOf(packet.messages));
      return Some(size);
    }
    r := RecordsSizeOf(packet.codecID, ListOf(packet.data));
    ghost var ds := ListOf(packet.data);
    assert r.None? ==> exists i :: 0 <= i < |ds| && !EncodableData(ds[i], LayoutOf(packet.codecID));
  }

  // The checks before anything is written.
  predicate RightList(packet: Packet<Bytes>) {
    && IsCodecSupported(packet.codecID)
    && !(packet.messages.Some? && packet.data.Some?)
    && !(IsCMDCodecId(packet.codecID) && packet.messages.None?)
    && !(!IsCMDCodecId(packet.codecID) && packet.data.None?)
  }

  // Succeeds exactly on the encodable packets, with the whole frame in a buffer of exactly its size.
  method EncodeTCPInternal(table: seq<uint16>, packet: Packet<Bytes>) returns (r: Option<array<byte>>)
    requires IsLookupTable(table) && ImeisLongEnough(packet)
    ensures r.Some? <==> Encodable(packet)
    ensures r.Some? ==> fresh(r.value) && r.value[..] == TCPFrame(Body(packet))
  {
    hide Body, BigEndian, EncodableItems, Crc, BodySize, Written, IsLookupTable, ImeisLongEnough;
    if !RightList(packet) {
      return None;
    }
    var items :- ItemsSize(packet);
    var dataSize := 3 + items;
    var buf := new byte[dataSize + 12](_ => 0);
    ghost var b0 := buf[..];
    PutUint(buf, 0, 0, 4);
    var pos := 4;
    ghost var b1 := buf[..];
    WrittenAtFront(b0, [], BigEndian(0, 4), b1);
    PutUint(buf, pos, dataSize % 0x1_0000_0000, 4);
    pos := pos + 4;
    WrittenAtFront(b1, BigEndian(0, 4), BigEndian(dataSize % 0x1_0000_0000, 4), buf[..]);
    ghost var head, b2 := BigEndian(0, 4) + BigEndian(dataSize % 0x1_0000_0000, 4), buf[..];
    var n :- EncodePacket(packet, buf, pos);
    ghost var b3 := buf[..];
    pos := pos + n;
    WrittenAtFront(b2, head, Body(packet), b3);
    assert buf[8..pos] == b3[8..pos] == Body(packet);
    var crc := Crc16IBM(table, buf, 8, pos);
    PutUint(buf, pos, crc, 4);
    WrittenAtFront(b3, head + Body(packet), BigEndian(crc, 4), buf[..]);
    assert buf[..] == head + Body(packet) + BigEndian(crc, 4);
    return Some(buf);
  }

  // Writing behind a known front.
  lemma WrittenAtFront(original: Bytes, front: Bytes, out: Bytes, now: Bytes)
    requires Written(now, original, |front|, out) && front <= original
    ensures front + out <= now && |now| == |original|
  {}

  method EncodeUDPInternal(imei: Bytes, packetId: uint16, avlPacketId: byte, packet: Packet<Bytes>)
    returns (r: Option<array<byte>>)
    requires ImeisLongEnough(packet)
    ensures r.Some? <==> Encodable(packet) && 8 + |imei| + |Body(packet)| <= MAX_SIZE
    ensures r.Some? ==>
      fresh(r.value) && r.value[..] == UDPDatagram(imei, packetId, avlPacketId, Body(packet))
  {
    hide Body, BigEndian, EncodableItems, BodySize, Written, ImeisLongEnough;
    if !RightList(packet) {
      return None;
    }
    var items :- ItemsSize(packet);
    var dataSize := 11 + |imei| + items;
    if EncodableItems(packet) {
      BodySizeExact(packet);
    }
    if dataSize > 1280 {
      return None;
    }
    var buf := new byte[dataSize](_ => 0);
    ghost var original := buf[..];
    PutDatagramHead(imei, packetId, avlPacketId, dataSize, buf);
    ghost var now, head := buf[..], DatagramHead(imei, packetId, avlPacketId, dataSize - 8 - |imei|);
    WrittenAtFront(original, [], head, now);
    var n :- EncodePacket(packet, buf, 8 + |imei|);
    WrittenAtFront(now, head, Body(packet), buf[..]);
    DatagramParts(imei, packetId, avlPacketId, Body(packet));
    return Some(buf);
  }

  // Everything in front of the packet.
  ghost function DatagramHead(imei: Bytes, packetId: uint16, avlPacketId: byte, bodySize: nat): (h: Bytes)
    ensures |h| == 8 + |imei|
  {
    BigEndian((6 + |imei| + bodySize) % 0x1_0000, 2) + BigEndian(packetId, 2) + [1] + [avlPacketId]
    + BigEndian(|imei| % 0x1_0000, 2) + imei
  }

  method PutDatagramHead(imei: Bytes, packetId: uint16, avlPacketId: byte, dataSize: nat, buf: array<byte>)
    requires 8 + |imei| <= dataSize == buf.Length
    modifies buf
    ensures Written(buf[..], old(buf[..]), 0, DatagramHead(imei, packetId, avlPacketId, dataSize - 8 - |imei|))
  {
    hide BigEndian, Written;
    ghost var original := buf[..];
    PutUint(buf, 0, (dataSize - 2) % 0x1_0000, 2);
    ghost var out, now := BigEndian((dataSize - 2) % 0x1_0000, 2), buf[..];
    PutUint(buf, 2, packetId, 2);
    WrittenTwice(original, 0, out, now, BigEndian(packetId, 2), buf[..]);
    out, now := out + BigEndian(packetId, 2), buf[..];
    PutByte(buf, 4, 0x01);
    WrittenTwice(original, 0, out, now, [1], buf[..]);
    out, now := out + [1], buf[..];
    PutByte(buf, 5, avlPacketId);
    WrittenTwice(original, 0, out, now, [avlPacketId], buf[..]);
    out, now := out + [avlPacketId], buf[..];
    PutUint(buf, 6, |imei| % 0x1_0000, 2);
    WrittenTwice(original, 0, out, now, BigEndian(|imei| % 0x1_0000, 2), buf[..]);
    out, now := out + BigEndian(|imei| % 0x1_0000, 2), buf[..];
    Copy(buf, 8, imei);
    WrittenTwice(original, 0, out, now, imei, buf[..]);
  }

  lemma DatagramParts(imei: Bytes, packetId: uint16, avlPacketId: byte, body: Bytes)
    ensures UDPDatagram(imei, packetId, avlPacketId, body) == DatagramHead(imei, packetId, avlPacketId, |body|) + body
  {
    hide BigEndian;
  }

  // ---------------------------------------------------------------- decoding frames

  datatype DecodedTCP = DecodedTCP(packet: Packet<Value>, response: Option<Bytes>)

  // The bytes a decoder is given, as a slice or as a stream.
  function Incoming(inputReader: Reader?, inputBuffer: array?<byte>): Bytes
    requires inputBuffer == null ==> inputReader != null
    reads inputReader, inputBuffer
  {
    if inputBuffer != null then inputBuffer[..] else AllBytes(inputReader.script)
  }

  // How many bytes of a stream a decoder can get at: those available, as far as a buffer of the caller's
  // holds them.
  function StreamReach(script: seq<Event>, capacity: Option<nat>): nat {
    var available := Available(script);
    if capacity.Some? && capacity.value < available then capacity.value else available
  }

  function Capacity(outputBuffer: array?<byte>): Option<nat> {
    if outputBuffer == null then None else Some(outputBuffer.Length)
  }

  // All bytes of a slice can be got at.
  function Reach(inputReader: Reader?, inputBuffer: array?<byte>, outputBuffer: array?<byte>): nat
    requires inputBuffer == null ==> inputReader != null
    reads inputReader
  {
    if inputBuffer != null then inputBuffer.Length else StreamReach(inputReader.script, Capacity(outputBuffer))
  }

  // On error-free, non-empty reads, a frame in the stream's bytes is always within reach of a reader without a
  // buffer or with one of at least 1292 bytes (1282 for datagrams): there, decoding from the stream succeeds
  // exactly when decoding from a slice of its bytes does.
  lemma CleanStreamsInReach(script: seq<Event>, capacity: Option<nat>)
    requires Clean(script)
    ensures ParseFrame(AllBytes(script)).Some? && (capacity.Some? ==> capacity.value >= 1292) ==>
      ParseFrame(AllBytes(script)).value.size <= StreamReach(script, capacity)
    ensures ParseDatagram(AllBytes(script)).Some? && (capacity.Some? ==> capacity.value >= 1282) ==>
      ParseDatagram(AllBytes(script)).value.size <= StreamReach(script, capacity)
  {
    hide AllBytes, ParseContent, ParseDatagramContent, FromBigEndian;
    CleanAvailable(script);
  }

  // An error delivered together with the last byte of a stream, after any error-free reads, makes exactly the reads
  // of all its bytes fail, and puts exactly the frames and datagrams that end there out of reach, although the same
  // bytes as a slice decode.
  lemma ErrorWithLastByte(before: seq<Event>, last: Event)
    requires Clean(before) && last.data != [] && last.err != NoError
    ensures var script := before + [last];
            && AllBytes(script) == AllBytes(before) + last.data
            && (forall n :: 0 <= n <= |AllBytes(script)| ==> (ReadFull(script, n).None? <==> n == |AllBytes(script)|))
            && (match ParseFrame(AllBytes(script))
                case Some(f) => f.size > StreamReach(script, None) <==> f.size == |AllBytes(script)|
                case None => true)
            && (match ParseDatagram(AllBytes(script))
                case Some(d) => d.size > StreamReach(script, None) <==> d.size == |AllBytes(script)|
                case None => true)
  {
    hide Clean, AllBytes, Available, ReadFull, ParseContent, ParseDatagramContent, FromBigEndian;
    var script := before + [last];
    AvailableBeforeError(before, last);
    forall n | 0 <= n <= |AllBytes(script)| ensures ReadFull(script, n).None? <==> n == |AllBytes(script)| {
      ReadFullExact(script, n);
    }
  }

  // The frame and the datagram of a packet without commands, delivered with an error: sending them succeeds,
  // receiving them fails.
  lemma ErrorWithLastByteExample(err: ReadError)
    requires err != NoError
    ensures var p := Packet(CODEC_12, None, Some([]));
            && Encodable(p)
            && var frame, datagram := TCPFrame(Body(p)), UDPDatagram([], 0, 0, Body(p));
               && (match ParseFrame(frame)
                   case Some(f) => f.size > StreamReach([Event(frame, err)], None)
                   case None => false)
               && (match ParseDatagram(datagram)
                   case Some(d) => d.size > StreamReach([Event(datagram, err)], None)
                   case None => false)
  {
    var p := Packet(CODEC_12, None, Some([]));
    hide ParseFrame, ParseDatagram, AllBytes, Available, TreeOf, Crc, BigEndian, Meaning, CanonicalPacket, Body;
    BodySizeExact(p);
    var frame, datagram := TCPFrame(Body(p)), UDPDatagram([], 0, 0, Body(p));
    TCPRoundTrip(p, []);
    UDPRoundTrip([], 0, 0, p, []);
    assert frame + [] == frame && datagram + [] == datagram;
    ErrorAtOnce(frame, err);
    ErrorAtOnce(datagram, err);
  }

  lemma ErrorAtOnce(s: Bytes, err: ReadError)
    requires s != [] && err != NoError
    ensures Available([Event(s, err)]) == |s| - 1
  {
    AvailableBeforeError([], Event(s, err));
    assert [] + [Event(s, err)] == [Event(s, err)];
  }

  datatype Protocol = TCP | UDP

  function HeaderSize(protocol: Protocol): nat {
    if protocol.TCP? then 8 else 5
  }

  // The size on the wire that the header announces, if it is acceptable.
  function PacketSize(protocol: Protocol, header: Bytes): (size: Option<nat>)
    requires |header| == HeaderSize(protocol)
    ensures size.Some? ==> HeaderSize(protocol) <= size.value <= 1292
  {
    if protocol.TCP? then FrameSize(header) else DatagramSize(header)
  }

  // The size of what starts the given bytes.
  function Announced(protocol: Protocol, s: Bytes): (size: Option<nat>)
    ensures size.Some? ==> HeaderSize(protocol) <= size.value <= 1292 && HeaderSize(protocol) <= |s|
  {
    if |s| < HeaderSize(protocol) then None else PacketSize(protocol, s[..HeaderSize(protocol)])
  }

  // Reads header and rest from a stream, into the caller's buffer or a new one.
  method ReceiveStream(protocol: Protocol, inputReader: Reader, outputBuffer: array?<byte>)
    returns (r: Option<(array<byte>, nat)>)
    modifies inputReader, outputBuffer
    ensures r.Some? <==>
      var size := Announced(protocol, old(AllBytes(inputReader.script)));
      size.Some? && size.value <= old(Reach(inputReader, null, outputBuffer))
    ensures r.Some? ==>
      var s, buffer, size := old(AllBytes(inputReader.script)), r.value.0, r.value.1;
      && Announced(protocol, s) == Some(size) && size <= |s| && size <= buffer.Length && buffer[..size] == s[..size]
      && (if outputBuffer != null then buffer == outputBuffer else fresh(buffer))
      && AllBytes(inputReader.script) == s[size..]
      && Available(inputReader.script) == old(Available(inputReader.script)) - size
      && (old(Clean(inputReader.script)) ==> Clean(inputReader.script))
  {
    hide AllBytes, Available, ReadFull, Clean, PacketSize;
    var headerSize := HeaderSize(protocol);
    ghost var script := inputReader.script;
    ghost var s := AllBytes(script);
    ReadFullExact(script, headerSize);
    var header: array<byte>;
    if outputBuffer != null {
      if outputBuffer.Length < headerSize {
        return None;
      }
      header := outputBuffer;
    } else {
      header := new byte[headerSize](_ => 0);
    }
    var ok := ReadFromReader(inputReader, header, 0, headerSize);
    if !ok {
      return None;
    }
    assert header[..headerSize] == s[..headerSize];
    var size :- PacketSize(protocol, header[..headerSize]);
    var buffer: array<byte>;
    if outputBuffer != null {
      if outputBuffer.Length < size {
        return None;
      }
      buffer := outputBuffer;
    } else {
      buffer := new byte[size](_ => 0);
      Copy(buffer, 0, header[..headerSize]);
    }
    assert buffer[..headerSize] == s[..headerSize];
    ReadFullExact(inputReader.script, size - headerSize);
    ok := ReadFromReader(inputReader, buffer, headerSize, size);
    if !ok {
      return None;
    }
    TwoReads(s, headerSize, size);
    assert buffer[..size] == s[..headerSize] + s[headerSize..][..size - headerSize];
    return Some((buffer, size));
  }

  lemma TwoReads(s: Bytes, m: nat, n: nat)
    requires m <= n <= |s|
    ensures s[..m] + s[m..][..n - m] == s[..n] && s[m..][n - m..] == s[n..]
  {}

  // The whole frame or datagram, in the input slice, the caller's buffer or a new one.
  method Receive(protocol: Protocol, inputReader: Reader?, inputBuffer: array?<byte>, outputBuffer: array?<byte>)
    returns (r: Option<(array<byte>, nat)>)
    requires inputBuffer == null ==> inputReader != null
    modifies inputReader, outputBuffer
    ensures r.Some? <==>
      var size := Announced(protocol, old(Incoming(inputReader, inputBuffer)));
      size.Some? && size.value <= old(Reach(inputReader, inputBuffer, outputBuffer))
    ensures r.Some? ==>
      var s, buffer, size := old(Incoming(inputReader, inputBuffer)), r.value.0, r.value.1;
      && Announced(protocol, s) == Some(size) && size <= |s| && size <= buffer.Length && buffer[..size] == s[..size]
      && (inputBuffer != null ==> buffer == inputBuffer)
      && (inputBuffer == null ==>
            && (if outputBuffer != null then buffer == outputBuffer else fresh(buffer))
            && AllBytes(inputReader.script) == s[size..]
            && Available(inputReader.script) == old(Available(inputReader.script)) - size
            && (old(Clean(inputReader.script)) ==> Clean(inputReader.script)))
  {
    hide AllBytes, Available, Clean, PacketSize;
    if inputBuffer == null {
      r := ReceiveStream(protocol, inputReader, outputBuffer);
      return;
    }
    var headerSize := HeaderSize(protocol);
    if inputBuffer.Length < headerSize {
      return None;
    }
    assert inputBuffer[..headerSize] == inputBuffer[..][..headerSize];
    var size :- PacketSize(protocol, inputBuffer[..headerSize]);
    if inputBuffer.Length < size {
      return None;
    }
    return Some((inputBuffer, size));
  }

  // Compares the checksum of what was read with the field behind it.
  method ChecksumMatches(table: seq<uint16>, reader: ByteReader) returns (ok: bool)
    requires IsLookupTable(table) && reader.Valid()
    modifies reader`pos
    ensures reader.Valid() && reader.pos <= old(reader.pos) + 4
    ensures var rest := old(reader.Remaining());
            ok <==> |rest| >= 4
                    && FromBigEndian(rest[..4]) == Crc(old(reader.input[reader.base..reader.base + reader.pos]))
  {
    hide ParseUint, Crc, FromBigEndian, IsLookupTable;
    ParsedChecksum(reader.Remaining());
    var crcCalc := Crc16IBM(table, reader.input, reader.base, reader.base + reader.pos);
    var crc := reader.ReadUInt32BE();
    return crc.Some? && crcCalc == crc.value;
  }

  // Decodes the packet and checks the checksum behind it.
  method DecodeTCPContent(table: seq<uint16>, buffer: array<byte>, size: nat, onHeap: bool)
    returns (r: Option<DecodedTCP>)
    requires IsLookupTable(table) && 12 <= size <= buffer.Length && size <= 1292
    ensures match ParseContent(buffer[8..size])
            case Some((tree, consumed)) =>
              && r.Some? && PacketContents(r.value.packet) == Meaning(tree)
              && r.value.response == TCPResponse(Meaning(tree))
            case None => r.None?
    ensures r.Some? && onHeap ==> fresh(Arrays(PacketElements(r.value.packet)))
    ensures r.Some? && !onHeap ==> Increasing(PacketElements(r.value.packet), buffer, 8, size)
  {
    hide Parse, Meaning, Increasing, Arrays, PacketElements, PacketContents, IsLookupTable, Crc, FromBigEndian;
    var reader := new ByteReader(buffer, 8, size - 8, onHeap);
    var target := new PacketTarget();
    ghost var content, all := reader.Remaining(), buffer[..];
    assert content == buffer[8..size];
    var ok := DecodePacket(reader, target);
    if !ok {
      return None;
    }
    ghost var tree, rest := Parse(content).value, Parse(content).rest;
    var packet := target.Packet();
    ghost var contents := PacketContents(packet);
    PacketArraysAllocated(packet);
    if !onHeap {
      IncreasingWiden(PacketElements(packet), buffer, 8, 8 + reader.pos, size);
    }
    assert |reader.Remaining()| == size - 8 - reader.pos && |content| == size - 8;
    assert buffer[..] == all;
    SliceOfSlice(all, 8, size, reader.pos);
    ok := ChecksumMatches(table, reader);
    if !ok {
      return None;
    }
    assert PacketContents(packet) == contents;
    var response := if IsCMDCodecId(packet.codecID) then None else Some([0, 0, 0, |ListOf(packet.data)| % 0x100]);
    ResponseIs(packet, tree);
    return Some(DecodedTCP(packet, response));
  }

  lemma SliceOfSlice(s: Bytes, lo: nat, hi: nat, n: nat)
    requires lo <= hi <= |s| && n <= hi - lo
    ensures s[lo..lo + n] == s[lo..hi][..n]
  {}

  lemma ResponseIs(packet: Packet<Value>, tree: Tree)
    requires PacketContents(packet) == Meaning(tree) && tree.CommandTree? == IsCMDCodecId(tree.codec)
    ensures TCPResponse(Meaning(tree))
            == if IsCMDCodecId(packet.codecID) then None else Some([0, 0, 0, |ListOf(packet.data)| % 0x100])
  {}

  lemma ParsedChecksum(rest: Bytes)
    ensures match ParseUint(rest, 4)
            case Done(v, _) => |rest| >= 4 && v == FromBigEndian(rest[..4])
            case Fail => |rest| < 4
  {}

  lemma FrameFromContent(s: Bytes)
    ensures ParseFrame(s).Some? ==>
      && Announced(TCP, s) == Some(ParseFrame(s).value.size) && ParseFrame(s).value.size <= |s|
      && ParseContent(s[8..ParseFrame(s).value.size]) == Some((ParseFrame(s).value.tree, ParseFrame(s).value.consumed))
    ensures Announced(TCP, s).Some? && Announced(TCP, s).value <= |s| ==>
      (ParseContent(s[8..Announced(TCP, s).value]).Some? <==> ParseFrame(s).Some?)
      && 12 <= Announced(TCP, s).value
  {
    hide ParseContent, FromBigEndian;
  }

  // Decodes one TCP frame. Slice, reader and reader with a buffer agree: each succeeds exactly when its bytes
  // start with an acceptable frame that it can get at, and then yields the same packet and reply. A reader
  // loses just that frame.
  method DecodeTCPInternal(table: seq<uint16>, inputReader: Reader?, inputBuffer: array?<byte>,
      outputBuffer: array?<byte>, onHeap: bool)
    returns (r: Option<(Value, DecodedTCP)>)
    requires IsLookupTable(table) && (inputBuffer == null ==> inputReader != null)
    modifies inputReader, outputBuffer
    ensures r.Some? <==>
      var frame := ParseFrame(old(Incoming(inputReader, inputBuffer)));
      frame.Some? && frame.value.size <= old(Reach(inputReader, inputBuffer, outputBuffer))
    ensures r.Some? ==>
      var s := old(Incoming(inputReader, inputBuffer));
      var frame, buffer := ParseFrame(s).value, r.value.0;
      && frame.size <= |s| && buffer.View? && buffer.off == 0 && Contents(buffer) == s[..frame.size]
      && PacketContents(r.value.1.packet) == Meaning(frame.tree)
      && r.value.1.response == TCPResponse(Meaning(frame.tree))
      && (inputBuffer == null ==>
            && AllBytes(inputReader.script) == s[frame.size..]
            && Available(inputReader.script) == old(Available(inputReader.script)) - frame.size
            && (old(Clean(inputReader.script)) ==> Clean(inputReader.script)))
      && (inputBuffer != null ==> buffer.arr == inputBuffer)
      && (inputBuffer == null && outputBuffer != null ==> buffer.arr == outputBuffer)
      && (inputBuffer == null && outputBuffer == null ==> fresh(buffer.arr))
      && (!onHeap ==> Increasing(PacketElements(r.value.1.packet), buffer.arr, 8, frame.size))
    ensures r.Some? && onHeap ==> fresh(Arrays(PacketElements(r.value.1.packet)))
  {
    hide AllBytes, Available, Clean, ParseContent, ParseFrame, Announced, Meaning, PacketContents, PacketElements;
    hide Increasing, Arrays, TCPResponse, IsLookupTable, Reach;
    ghost var s := Incoming(inputReader, inputBuffer);
    FrameFromContent(s);
    var received :- Receive(TCP, inputReader, inputBuffer, outputBuffer);
    var buffer, size := received.0, received.1;
    assert buffer[8..size] == buffer[..size][8..] == s[..size][8..] == s[8..size];
    var decoded :- DecodeTCPContent(table, buffer, size, onHeap);
    return Some((View(buffer, 0, size), decoded));
  }

  // ---------------------------------------------------------------- decoding datagrams

  datatype DecodedUDP = DecodedUDP(
    packetId: uint16,
    avlPacketId: byte,
    imei: Bytes,
    packet: Packet<Value>,
    response: Option<Bytes>)

  method ReadIds(reader: ByteReader) returns (r: Option<(byte, Bytes)>)
    requires reader.Valid()
    modifies reader`pos
    ensures reader.Valid() && reader.pos >= old(reader.pos)
    ensures match ParseIds(old(reader.Remaining()))
            case Done(ids, rest) => r == Some(ids) && reader.Remaining() == rest
            case Fail => r.None?
  {
    hide ParseUint, Take, Pow256;
    Widths();
    var avlPacketId :- reader.ReadUInt8BE();
    var imeiLen :- reader.ReadUInt16BE();
    var imei :- reader.ReadBytes(imeiLen);
    return Some((avlPacketId, Contents(imei)));
  }

  // Decodes AVL packet id, IMEI and packet.
  method DecodeUDPContent(packetId: uint16, buffer: array<byte>, size: nat, onHeap: bool)
    returns (r: Option<DecodedUDP>)
    requires 5 <= size <= buffer.Length
    ensures match ParseDatagramContent(buffer[5..size])
            case Done((avlPacketId, imei, tree), rest) =>
              && r.Some? && PacketContents(r.value.packet) == Meaning(tree)
              && r.value.packetId == packetId && r.value.avlPacketId == avlPacketId && r.value.imei == imei
              && r.value.response == UDPResponse(packetId, avlPacketId, Meaning(tree))
            case Fail => r.None?
    ensures r.Some? && onHeap ==> fresh(Arrays(PacketElements(r.value.packet)))
    ensures r.Some? && !onHeap ==> Increasing(PacketElements(r.value.packet), buffer, 5, size)
  {
    hide Parse, ParseIds, Meaning, Increasing, Arrays, PacketElements, PacketContents, UDPResponse;
    var reader := new ByteReader(buffer, 5, size - 5, onHeap);
    assert reader.Remaining() == buffer[5..size];
    var ids :- ReadIds(reader);
    ghost var from := reader.pos;
    ghost var content := reader.Remaining();
    var target := new PacketTarget();
    var ok := DecodePacket(reader, target);
    if !ok {
      return None;
    }
    ghost var tree := Parse(content).value;
    var packet := target.Packet();
    var response := if IsCMDCodecId(packet.codecID) then None
                    else Some([0x00, 0x05, packetId / 0x100, packetId % 0x100, 0x01, ids.0,
                               |ListOf(packet.data)| % 0x100]);
    UDPResponseIs(packetId, ids.0, packet, tree);
    if !onHeap {
      IncreasingLower(PacketElements(packet), buffer, 5, 5 + from, 5 + reader.pos);
      IncreasingWiden(PacketElements(packet), buffer, 5, 5 + reader.pos, size);
    }
    return Some(DecodedUDP(packetId, ids.0, ids.1, packet, response));
  }

  lemma UDPResponseIs(packetId: uint16, avlPacketId: byte, packet: Packet<Value>, tree: Tree)
    requires PacketContents(packet) == Meaning(tree) && tree.CommandTree? == IsCMDCodecId(tree.codec)
    ensures UDPResponse(packetId, avlPacketId, Meaning(tree))
            == if IsCMDCodecId(packet.codecID) then None
               else Some([0, 5, packetId / 0x100, packetId % 0x100, 1, avlPacketId, |ListOf(packet.data)| % 0x100])
  {}

  lemma DatagramFromContent(s: Bytes)
    ensures ParseDatagram(s).Some? ==>
      var d := ParseDatagram(s).value;
      && Announced(UDP, s) == Some(d.size) && d.size <= |s|
      && ParseDatagramContent(s[5..d.size]) == Done((d.avlPacketId, d.imei, d.tree), d.rest)
      && d.packetId == PacketId(s[..5])
    ensures Announced(UDP, s).Some? && Announced(UDP, s).value <= |s| ==>
      (ParseDatagramContent(s[5..Announced(UDP, s).value]).Done? <==> ParseDatagram(s).Some?)
  {
    hide ParseDatagramContent, FromBigEndian;
  }

  // Decodes one datagram, with the same agreement of entry points as for frames.
  method DecodeUDPInternal(inputReader: Reader?, inputBuffer: array?<byte>, outputBuffer: array?<byte>, onHeap: bool)
    returns (r: Option<(Value, DecodedUDP)>)
    requires inputBuffer == null ==> inputReader != null
    requires LengthFieldOk(Incoming(inputReader, inputBuffer))
    modifies inputReader, outputBuffer
    ensures r.Some? <==>
      var datagram := ParseDatagram(old(Incoming(inputReader, inputBuffer)));
      datagram.Some? && datagram.value.size <= old(Reach(inputReader, inputBuffer, outputBuffer))
    ensures r.Some? ==>
      var s := old(Incoming(inputReader, inputBuffer));
      var datagram, buffer, decoded := ParseDatagram(s).value, r.value.0, r.value.1;
      && datagram.size <= |s| && buffer.View? && buffer.off == 0 && Contents(buffer) == s[..datagram.size]
      && decoded.packetId == datagram.packetId && decoded.avlPacketId == datagram.avlPacketId
      && decoded.imei == datagram.imei && PacketContents(decoded.packet) == Meaning(datagram.tree)
      && decoded.response == UDPResponse(datagram.packetId, datagram.avlPacketId, Meaning(datagram.tree))
      && (inputBuffer == null ==>
            && AllBytes(inputReader.script) == s[datagram.size..]
            && Available(inputReader.script) == old(Available(inputReader.script)) - datagram.size
            && (old(Clean(inputReader.script)) ==> Clean(inputReader.script)))
      && (inputBuffer != null ==> buffer.arr == inputBuffer)
      && (inputBuffer == null && outputBuffer != null ==> buffer.arr == outputBuffer)
      && (inputBuffer == null && outputBuffer == null ==> fresh(buffer.arr))
      && (!onHeap ==> Increasing(PacketElements(decoded.packet), buffer.arr, 5, datagram.size))
    ensures r.Some? && onHeap ==> fresh(Arrays(PacketElements(r.value.1.packet)))
  {
    hide AllBytes, Available, Clean, ParseDatagramContent, ParseDatagram, Announced, Meaning, PacketContents;
    hide PacketElements, Increasing, Arrays, UDPResponse, Reach, PacketId;
    ghost var s := Incoming(inputReader, inputBuffer);
    DatagramFromContent(s);
    var received :- Receive(UDP, inputReader, inputBuffer, outputBuffer);
    var buffer, size := received.0, received.1;
    assert buffer[5..size] == buffer[..size][5..] == s[..size][5..] == s[5..size];
    assert buffer[..5] == buffer[..size][..5] == s[..size][..5] == s[..5];
    var decoded :- DecodeUDPContent(PacketId(buffer[..5]), buffer, size, onHeap);
    return Some((View(buffer, 0, size), decoded));
  }
}
