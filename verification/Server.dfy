// The read loop of a server connection: frames and one-byte pings are cut off a buffered stream.

module Server {
  import opened Bits
  import opened Wire
  import opened Model
  import opened Grammar
  import opened Canonical
  import opened Rendering
  import opened Framing
  import opened Views
  import opened Streams
  import opened Transport
  import opened Crc16

  const PING: byte := 0xFF

  // A packet handed on, with the reply written for it.
  datatype Handled = Handled(packet: Packet<Bytes>, response: Option<Bytes>)

  // What a connection does with the bytes it receives: the packets handed on, and the bytes at which it stops.
  function Serve(s: Bytes): (seq<Handled>, Bytes)
    decreases |s|
  {
    if s == [] then ([], [])
    else if s[0] == PING then Serve(s[1..])
    else
      match ParseFrame(s)
      case None => ([], s)
      case Some(f) =>
        var packet := Meaning(f.tree);
        var more := Serve(s[f.size..]);
        ([Handled(packet, TCPResponse(packet))] + more.0, more.1)
  }

  // What is handed on when only the first n replies can be written: everything in front of the first packet whose
  // reply fails.
  function Delivered(handled: seq<Handled>, n: nat): seq<Handled> {
    if handled == [] then []
    else if handled[0].response.None? then [handled[0]] + Delivered(handled[1..], n)
    else if n == 0 then []
    else [handled[0]] + Delivered(handled[1..], n - 1)
  }

  function Replies(handled: seq<Handled>): nat {
    if handled == [] then 0
    else (if handled[0].response.Some? then 1 else 0) + Replies(handled[1..])
  }

  // Everything is handed on exactly when every reply can be written.
  lemma {:induction false} DeliveredAll(handled: seq<Handled>, n: nat)
    ensures Delivered(handled, n) <= handled
    ensures Delivered(handled, n) == handled <==> Replies(handled) <= n
    decreases |handled|
  {
    if handled != [] {
      var first, rest := handled[0], handled[1..];
      assert handled == [first] + rest;
      if first.response.None? {
        DeliveredAll(rest, n);
      } else if n > 0 {
        DeliveredAll(rest, n - 1);
      }
    }
  }

  // Why a connection ends.
  datatype End = StreamEnded | ReadFailed | WriteFailed

  // One connection: `readBuffer` is reused for every frame, and decoded values are views of it, so a packet is
  // handed on before the next read. The peer takes `writable` more replies; then a write fails.
  class Connection {
    const readBuffer: array<byte>
    var handled: seq<Handled>
    var writable: nat

    constructor (writable: nat)
      ensures handled == [] && this.writable == writable && readBuffer.Length == 1300 && fresh(readBuffer)
    {
      readBuffer := new byte[1300](_ => 0);
      handled := [];
      this.writable := writable;
    }

    method Write(response: Bytes) returns (ok: bool)
      modifies this`writable
      ensures ok <==> old(writable) > 0
      ensures writable == if ok then old(writable) - 1 else 0
    {
      ok := writable > 0;
      if ok {
        writable := writable - 1;
      }
    }

    // Runs until the stream ends, a frame is not acceptable, or a reply cannot be written. What is handed on
    // depends on the bytes and the writes only, not on how the network cut the bytes.
    method HandleFrames(table: seq<uint16>, reader: Reader) returns (end: End)
      requires IsLookupTable(table) && Clean(reader.script) && readBuffer.Length == 1300
      modifies this`handled, this`writable, readBuffer, reader
      ensures var (all, rest) := Serve(old(AllBytes(reader.script)));
              && handled == old(handled) + Delivered(all, old(writable))
              && (end == WriteFailed <==> Replies(all) > old(writable))
              && (end == StreamEnded <==> Replies(all) <= old(writable) && rest == [])
      ensures end == StreamEnded ==> AllBytes(reader.script) == []
    {
      hide ParseFrame, Clean, AllBytes, Available, Meaning, PacketContents, PacketElements, TCPResponse, IsLookupTable;
      ghost var s := AllBytes(reader.script);
      ghost var before, n := handled, writable;
      assert before + Delivered(Serve(s).0, n) == handled + Delivered(Serve(s).0, n);
      while true
        invariant Clean(reader.script)
        invariant before + Delivered(Serve(s).0, n) == handled + Delivered(Serve(AllBytes(reader.script)).0, writable)
        invariant Replies(Serve(s).0) - n == Replies(Serve(AllBytes(reader.script)).0) - writable
        invariant Serve(s).1 == Serve(AllBytes(reader.script)).1
        decreases |AllBytes(reader.script)|
      {
        var peek := reader.Peek();
        if peek.None? {
          assert handled + [] == handled;
          return StreamEnded;
        }
        if peek.value == PING {
          var discarded := reader.Discard();
          if !discarded {
            return ReadFailed;
          }
          continue;
        }
        ghost var t := AllBytes(reader.script);
        InReach(reader.script);
        var r := DecodeTCPInternal(table, reader, null, readBuffer, false);
        if r.None? {
          assert handled + [] == handled;
          return ReadFailed;
        }
        var item := Handled(PacketContents(r.value.1.packet), r.value.1.response);
        ghost var more := Serve(AllBytes(reader.script)).0;
        assert Serve(t).0 == [item] + more && ([item] + more)[1..] == more;
        if item.response.Some? {
          var written := Write(item.response.value);
          if !written {
            assert handled + [] == handled;
            return WriteFailed;
          }
        }
        assert handled + ([item] + Delivered(more, writable)) == handled + [item] + Delivered(more, writable);
        handled := handled + [item];
      }
    }

    // Any received bytes, however they are cut into reads: the connection hands on exactly the packets of the
    // accepted frames up to the first bytes that are neither a ping nor an accepted frame, and ends there; when a
    // reply cannot be written, it ends with the packets before.
    method HandlePieces(table: seq<uint16>, reader: Reader, ghost pieces: seq<Bytes>, ghost rest: Bytes)
      returns (end: End)
      requires IsLookupTable(table) && Clean(reader.script) && readBuffer.Length == 1300
      requires (forall piece :: piece in pieces ==> IsPiece(piece)) && IsStop(rest)
      requires AllBytes(reader.script) == Joined(pieces) + rest
      modifies this`handled, this`writable, readBuffer, reader
      ensures handled == old(handled) + Delivered(PacketsOf(pieces), old(writable))
      ensures end == if Replies(PacketsOf(pieces)) > old(writable) then WriteFailed
                     else if rest == [] then StreamEnded else ReadFailed
      ensures end == StreamEnded ==> AllBytes(reader.script) == []
    {
      hide AllBytes, Clean, Joined, PacketsOf, Serve, Delivered, Replies, IsLookupTable, IsStop, IsPiece;
      ServeOfPieces(pieces, rest);
      end := HandleFrames(table, reader);
    }

    // However a stream of frames and pings is cut into reads, the connection hands on exactly the canonical packets,
    // in order. Behind them it ends: with the stream, or at bytes that are neither a ping nor an accepted frame. When
    // a reply cannot be written, it ends there.
    method HandleItems(table: seq<uint16>, reader: Reader, ghost items: seq<Item>, ghost rest: Bytes)
      returns (end: End)
      requires IsLookupTable(table) && Clean(reader.script) && readBuffer.Length == 1300
      requires Sendable(items) && IsStop(rest) && AllBytes(reader.script) == StreamBytes(items) + rest
      modifies this`handled, this`writable, readBuffer, reader
      ensures handled == old(handled) + Delivered(Expected(items), old(writable))
      ensures Replies(Expected(items)) <= old(writable) ==> handled == old(handled) + Expected(items)
      ensures end == if Replies(Expected(items)) > old(writable) then WriteFailed
                     else if rest == [] then StreamEnded else ReadFailed
      ensures end == StreamEnded ==> AllBytes(reader.script) == []
    {
      hide AllBytes, Clean, StreamBytes, Expected, Serve, Delivered, Replies, IsLookupTable, Sendable, IsStop;
      Segmentation(items, rest);
      StopServed(rest);
      assert Expected(items) + [] == Expected(items);
      DeliveredAll(Expected(items), writable);
      end := HandleFrames(table, reader);
    }
  }

  // ---------------------------------------------------------------- what is cut off, for any bytes

  // A ping byte or an accepted frame, and nothing behind it.
  predicate IsPiece(s: Bytes) {
    s == [0xFF] || (ParseFrame(s).Some? && ParseFrame(s).value.size == |s|)
  }

  // Neither starts with a ping nor with an accepted frame.
  predicate IsStop(s: Bytes) {
    s != [] ==> s[0] != 0xFF && ParseFrame(s).None?
  }

  function Joined(pieces: seq<Bytes>): Bytes {
    if pieces == [] then [] else pieces[0] + Joined(pieces[1..])
  }

  // The packets of the frames among the pieces, with their replies.
  function PacketsOf(pieces: seq<Bytes>): seq<Handled> {
    if pieces == [] then [] else PiecePackets(pieces[0]) + PacketsOf(pieces[1..])
  }

  function PiecePackets(piece: Bytes): seq<Handled> {
    match ParseFrame(piece)
    case Some(f) => [Handled(Meaning(f.tree), TCPResponse(Meaning(f.tree)))]
    case None => []
  }

  // Bytes that are pieces followed by a stop are cut into exactly those.
  lemma {:induction false} ServeOfPieces(pieces: seq<Bytes>, rest: Bytes)
    requires (forall piece :: piece in pieces ==> IsPiece(piece)) && IsStop(rest)
    ensures Serve(Joined(pieces) + rest) == (PacketsOf(pieces), rest)
    decreases |pieces|
  {
    hide PiecePackets, IsPiece, Serve;
    if pieces == [] {
      assert Joined(pieces) + rest == rest;
      StopServed(rest);
    } else {
      var piece, t := pieces[0], Joined(pieces[1..]) + rest;
      assert piece in pieces;
      ServeOfPieces(pieces[1..], rest);
      assert Joined(pieces) + rest == piece + t;
      PieceServed(piece, t);
    }
  }

  lemma StopServed(rest: Bytes)
    requires IsStop(rest)
    ensures Serve(rest) == ([], rest)
  {
    hide ParseFrame;
  }

  lemma PieceServed(piece: Bytes, t: Bytes)
    requires IsPiece(piece)
    ensures Serve(piece + t) == (PiecePackets(piece) + Serve(t).0, Serve(t).1)
  {
    if piece == [0xFF] {
      PingServed(t);
      assert PiecePackets(piece) == [] && [] + Serve(t).0 == Serve(t).0;
    } else {
      hide ParseFrame, Meaning, TCPResponse;
      FrameInFront(piece, t);
      assert (piece + t)[|piece|..] == t && (piece + t)[0] == piece[0];
    }
  }

  // Any bytes are such pieces followed by such a stop.
  lemma {:induction false} ServeIsCut(s: Bytes) returns (pieces: seq<Bytes>)
    ensures forall piece :: piece in pieces ==> IsPiece(piece)
    ensures IsStop(Serve(s).1)
    ensures s == Joined(pieces) + Serve(s).1 && Serve(s).0 == PacketsOf(pieces)
    decreases |s|
  {
    hide PiecePackets, Joined, PacketsOf, Serve, IsStop, IsPiece;
    NoPieces(s);
    if IsStop(s) {
      StopServed(s);
      return [];
    }
    var piece := FirstPiece(s);
    var t := s[|piece|..];
    assert s == piece + t;
    PieceServed(piece, t);
    var more := ServeIsCut(t);
    pieces := [piece] + more;
    PiecesCons(piece, more, Serve(t).1);
  }

  lemma FirstPiece(s: Bytes) returns (piece: Bytes)
    requires !IsStop(s)
    ensures IsPiece(piece) && piece != [] && piece <= s
  {
    hide ParseFrame;
    if s[0] == 0xFF {
      piece := [0xFF];
    } else {
      FrameInFront(s, []);
      FrameAlone(s);
      piece := s[..ParseFrame(s).value.size];
    }
  }

  lemma NoPieces(s: Bytes)
    ensures Joined([]) + s == s && PacketsOf([]) == []
  {}

  lemma PiecesCons(piece: Bytes, more: seq<Bytes>, rest: Bytes)
    ensures Joined([piece] + more) + rest == piece + (Joined(more) + rest)
    ensures PacketsOf([piece] + more) == PiecePackets(piece) + PacketsOf(more)
  {
    hide PiecePackets;
    assert ([piece] + more)[1..] == more;
  }

  // An accepted frame without what follows it.
  lemma FrameAlone(s: Bytes)
    requires ParseFrame(s).Some?
    ensures ParseFrame(s[..ParseFrame(s).value.size]) == ParseFrame(s)
  {
    hide ParseContent, FromBigEndian;
    var f := ParseFrame(s).value;
    assert s[..f.size][..8] == s[..8] && s[..f.size][8..f.size] == s[8..f.size];
  }

  lemma InReach(script: seq<Event>)
    requires Clean(script)
    ensures ParseFrame(AllBytes(script)).Some? ==>
      ParseFrame(AllBytes(script)).value.size <= StreamReach(script, Some(1300))
    ensures ParseFrame(AllBytes(script)).Some? ==> 12 <= ParseFrame(AllBytes(script)).value.size
  {
    hide AllBytes, Available, ParseFrame;
    CleanStreamsInReach(script, Some(1300));
  }

  // ---------------------------------------------------------------- segmentation

  datatype Item = Ping | PacketItem(packet: Packet<Bytes>)

  predicate Sendable(items: seq<Item>) {
    forall i :: 0 <= i < |items| && items[i].PacketItem? ==>
      Encodable(items[i].packet) && |Body(items[i].packet)| <= MAX_SIZE
  }

  lemma SendableTail(items: seq<Item>)
    requires Sendable(items) && items != []
    ensures Sendable(items[1..])
  {
    hide EncodableItems, Body;
    assert forall i :: 0 <= i < |items[1..]| ==> items[1..][i] == items[i + 1];
  }

  // The bytes of a sequence of pings and frames.
  function StreamBytes(items: seq<Item>): Bytes
    requires Sendable(items)
  {
    if items == [] then []
    else
      SendableTail(items);
      (if items[0].Ping? then [PING] else TCPFrame(Body(items[0].packet))) + StreamBytes(items[1..])
  }

  // The canonical packets with their replies, in order.
  function Expected(items: seq<Item>): seq<Handled> {
    if items == [] then []
    else if items[0].Ping? then Expected(items[1..])
    else
      var packet := CanonicalPacket(items[0].packet);
      [Handled(packet, TCPResponse(packet))] + Expected(items[1..])
  }

  // A stream of frames with pings in between is cut into exactly those frames; what follows is served next.
  lemma {:induction false} Segmentation(items: seq<Item>, t: Bytes)
    requires Sendable(items)
    ensures Serve(StreamBytes(items) + t) == (Expected(items) + Serve(t).0, Serve(t).1)
    decreases |items|
  {
    hide TCPFrame, Body, CanonicalPacket, EncodableItems, TCPResponse, Serve;
    NothingServed();
    if items == [] {
      assert StreamBytes(items) + t == t && Expected(items) + Serve(t).0 == Serve(t).0;
    } else {
      SendableTail(items);
      var rest := StreamBytes(items[1..]) + t;
      Segmentation(items[1..], t);
      StreamHead(items, t);
      if items[0].Ping? {
        PingServed(rest);
      } else {
        var packet := CanonicalPacket(items[0].packet);
        FrameServed(items[0].packet, rest);
        ConsAppend(Handled(packet, TCPResponse(packet)), Expected(items[1..]), Serve(t).0);
      }
    }
  }

  lemma StreamHead(items: seq<Item>, t: Bytes)
    requires Sendable(items) && items != []
    ensures Sendable(items[1..])
    ensures StreamBytes(items) + t
            == (if items[0].Ping? then [PING] else TCPFrame(Body(items[0].packet))) + (StreamBytes(items[1..]) + t)
  {
    hide TCPFrame, Body, EncodableItems;
    SendableTail(items);
  }

  lemma ConsAppend<T>(x: T, a: seq<T>, b: seq<T>)
    ensures [x] + (a + b) == [x] + a + b
  {}

  lemma PingServed(rest: Bytes)
    ensures Serve([PING] + rest) == Serve(rest)
  {
    hide ParseFrame;
    assert ([PING] + rest)[1..] == rest;
  }

  lemma FrameServed(p: Packet<Bytes>, rest: Bytes)
    requires Encodable(p) && |Body(p)| <= MAX_SIZE
    ensures var packet := CanonicalPacket(p);
            Serve(TCPFrame(Body(p)) + rest) == ([Handled(packet, TCPResponse(packet))] + Serve(rest).0, Serve(rest).1)
  {
    hide Body, ParseFrame, CanonicalPacket, EncodableItems, TCPResponse, Meaning, TreeOf, BigEndian, Crc;
    var frame := TCPFrame(Body(p));
    TCPRoundTrip(p, rest);
    FrameStartsWithZero(Body(p));
    assert (frame + rest)[|frame|..] == rest && (frame + rest)[0] == frame[0];
  }

  lemma FrameStartsWithZero(body: Bytes)
    ensures TCPFrame(body)[0] == 0
  {
    hide Crc;
    assert BigEndian(0, 1) == [0] && BigEndian(0, 2)[0] == 0 && BigEndian(0, 3)[0] == 0 && BigEndian(0, 4)[0] == 0;
  }

  // Later bytes never change what was handed on: any received bytes can be served in two parts, the second one
  // behind what the first left over.
  lemma {:induction false} ServeInParts(s: Bytes, t: Bytes)
    ensures var (first, rest) := Serve(s);
            Serve(s + t) == (first + Serve(rest + t).0, Serve(rest + t).1)
    decreases |s|
  {
    hide ParseFrame, Meaning, TCPResponse;
    if s == [] {
      assert s + t == t;
    } else if s[0] == PING {
      assert (s + t)[1..] == s[1..] + t;
      ServeInParts(s[1..], t);
    } else if ParseFrame(s).Some? {
      var f := ParseFrame(s).value;
      FrameInFront(s, t);
      assert (s + t)[f.size..] == s[f.size..] + t;
      var rest := s[f.size..];
      ServeInParts(rest, t);
      ConsAppend(Handled(Meaning(f.tree), TCPResponse(Meaning(f.tree))), Serve(rest).0, Serve(Serve(rest).1 + t).0);
      assert (s + t)[0] == s[0];
    } else {
      assert [] + Serve(s + t).0 == Serve(s + t).0;
    }
  }

  lemma FrameInFront(s: Bytes, t: Bytes)
    requires ParseFrame(s).Some?
    ensures ParseFrame(s + t) == ParseFrame(s)
    ensures 12 <= ParseFrame(s).value.size <= |s| && s[0] == 0
  {
    hide ParseContent, FromBigEndian;
    FromBytes(s[..4]);
    assert s[..8][..4] == s[..4];
    var f := ParseFrame(s).value;
    assert (s + t)[..8] == s[..8] && (s + t)[8..f.size] == s[8..f.size];
  }

  lemma NothingServed()
    ensures Serve([]) == ([], [])
  {}
}
