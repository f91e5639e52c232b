# A verified model of the Teltonika wire codec

This project models the codec of the `teltonika` Go library: AVL data codecs 8, 8E and 16 and command codecs 12,
13, 14 and 15, over TCP and UDP; the CRC-16/IBM that guards TCP frames; and the loop that cuts a TCP byte stream
into frames. `dafny verify dfyconfig.toml` checks all of it.

The encoders, decoders, the cursor, the lookup table, the checksums, the stream reader and the connection loop are
methods over arrays and classes, as in the source. Each is proved to compute a function of its input, and the
theorems are about those functions.

| file | content |
|---|---|
| `Bits.dfy`, `Wire.dfy` | integers in range, exclusive or, big-endian fields, writing into buffers, parse results |
| `Crc16.dfy` | bit-serial checksum, table construction, table-driven checksum, burst and parity detection |
| `Model.dfy` | packets; base-16 text (RFC 4648, section 8) and IMEI packing |
| `Grammar.dfy`, `Parser.dfy` | syntax trees, their bytes and meaning; the parser with the decoder's arithmetic |
| `Canonical.dfy`, `Rendering.dfy` | what is encodable, the tree of a packet, the packet read back, sizes |
| `RoundTrip.dfy`, `Framing.dfy` | round trips, locality, acceptance; frames and datagrams |
| `Layouts.dfy`, `Vectors.dfy` | byte offsets, widths and limits written out, independent of the grammar; packets and bytes of the encoder and decoder tests |
| `Reader.dfy`, `Decoder.dfy`, `Encoder.dfy` | the byte reader and the decoding and encoding methods |
| `Stream.dfy`, `Transport.dfy`, `Server.dfy` | streams as scripts of reads, the TCP and UDP entry points, the connection loop |

How the source is rendered:

- Unsigned integers are integers in range; `^`, `>> k` and `& 0xff` are `Xor`, division by a power of two and
  remainder. Every `uint8`, `uint16` and `uint32` conversion that can lose bits is written out.
- A Go sub-slice `buf[pos:]` of an encoder is the array with a start index. A Go string is a byte string.
- A pointer to a record that a decoder fills (`*Data`, `*Message`) is a value passed in and returned filled; the
  packet is an object whose fields are assigned. The element list is made with its declared length and its slots are
  stored one by one, each store proved in bounds.
- The passes over the elements and the grouped reads, which the source repeats per codec, are one method each, with
  the field widths of the codec as a parameter. The reads of header and remainder, which the source repeats for TCP
  and UDP, are one method with the protocol as a parameter.
- Element values of decoded packets are views of arrays: new arrays with `OnHeap`, the read buffer with
  `OnReadBuffer`. Packets to encode hold byte strings.
- An error is `None` or `false`, without its text.
- An `io.Reader` is a script of read results, data with an optional error. The buffered reader of the TCP server is
  one whose reads are non-empty and error-free; its `Peek` and `Discard` are methods of the same class.

Three findings about the code, each with an input that shows it and the exact condition:

- `readFromReader` rejects bytes that a reader delivers together with an error or end-of-file, even when they complete
  the packet: `Transport.ErrorWithLastByte`, with a frame and a datagram that an encoder produces in
  `Transport.ErrorWithLastByteExample`. The condition for all streams is in the contract of
  `Transport.DecodeTCPInternal`: the frame must be within the available bytes of the stream, which
  `Streams.ReadFullExact` characterises.
- Decoding accepts frames and datagrams that encoding never produces, and re-encoding them fails or gives other bytes:
  `Framing.NotReproduced`, `Framing.NotReproducedExamples` and `Framing.DatagramNotReproduced`.
  `Framing.TCPReverseRoundTrip` and `Framing.UDPReverseRoundTrip` say for exactly which ones re-encoding reproduces
  the input.
- The 32-bit length fields wrap around for a text of 4 GiB, and the frame can then be accepted as a short one:
  `Framing.LongTextAccepted`. Which frames are accepted is characterised by `Framing.AcceptedFrames`; frames of packets
  whose texts fit the size field are never misread (`Framing.TCPRoundTrip`).

## Model

| member | source | states |
|---|---|---|
| Crc16.GenCrc16IBMLookupTable | util.go:14-30 | the doubling loop leaves in every one of the 256 entries the value of eight shifts of its index |
| Crc16.Stride | util.go:24-26 | one store of the inner loop keeps the entries at multiples of 2i and adds two multiples of i, by linearity of the shift |
| Crc16.StepsLinear | util.go:19-23 | shifting is linear over exclusive or, for any number of shifts |
| Crc16.LookUp | util.go:38-39 | one table look-up does the work of eight shifts, for every register and byte |
| Crc16.Crc16IBM | util.go:34-42 | the table-driven checksum of any range of an array is the bit-serial one |
| Crc16.Crc16IBMNoTable | teltonika_test.go:794-808 | the reference loop computes the same function |
| Crc16.CrcIsFeedAll | teltonika_test.go:797-805 | the checksum is a register fed with the message's bits one at a time, lowest bit of each byte first |
| Crc16.StepInjective | util.go:19-23 | the shift is injective on 16-bit registers |
| Crc16.BurstDetected | util.go:34-42 | messages that differ, and only within 16 consecutive bits, have different checksums |
| Crc16.CrcParity | util.go:34-42 | the checksum has as many one bits as the message, modulo 2 |
| Crc16.OddErrorsDetected | util.go:34-42 | messages of equal length that differ in an odd number of bits have different checksums |
| Framing.FramesDetectErrors | teltonika.go:384-393 | two accepted frames with equal body length and checksum field differ neither by such a burst nor in an odd number of bits |
| Imei.ImeiPackUnpack | teltonika.go:1036-1050 | packing and unpacking returns an IMEI unchanged if and only if it is 15 or 16 lower-case hex digits without a leading zero |
| Imei.NormalImeiIs | teltonika.go:1036-1050 | otherwise the text comes back as its first 16 padded digits, in lower case, without leading zeros |
| Imei.ImeiUnpackPack | teltonika.go:627-634 | an 8-byte field survives unpacking and packing when its first byte is not zero, and unpacks to fewer than 15 digits when it is |
| Imei.HexAlphabet | teltonika.go:627-634 | digit v is the v-th of 0123456789abcdef, and reading accepts both cases |
| Wire.BigEndianAt | teltonika.go:873-877 | byte i of an n-byte field is the number divided by 256 to the power n - 1 - i, modulo 256 |
| Wire.BigEndianBytes | teltonika.go:873-877 | the same with the powers written out for every width up to eight bytes |
| Wire.FromBytes | util.go:87-109 | the number in one, two or four bytes, with the weight of each byte |
| Wire.FromEightBytes | util.go:119-125 | the same for eight bytes |
| Readers.ByteReader.ReadBytes | util.go:55-69 | returns the next n bytes as a new array or as a view of the input, or fails without moving |
| Readers.ByteReader.ReadUInt8BE | util.go:71-77 | the next byte, or failure without moving |
| Readers.ByteReader.ReadUInt16BE | util.go:87-93 | 256 b0 + b1 of the next two bytes, or failure without moving |
| Readers.ByteReader.ReadInt16BE | util.go:95-101 | the signed 16-bit number congruent to it |
| Readers.ByteReader.ReadUInt32BE | util.go:103-109 | the next four bytes, each with its weight, the first one counting most, or failure without moving |
| Readers.ByteReader.ReadInt32BE | util.go:111-117 | the signed 32-bit number congruent to it |
| Readers.ByteReader.ReadUInt64BE | util.go:119-125 | the next eight bytes, each with its weight, or failure without moving |
| Parser.ParseComplete | teltonika.go:502-826 | the bytes of every well-formed tree, followed by anything, parse to that tree and leave what follows |
| Parser.ParseSound | teltonika.go:502-826 | whatever parses starts with the bytes of the well-formed tree it parses to |
| Parser.WrappingHarmless | teltonika.go:600-642 | on inputs of n bytes the wrapping size subtraction agrees with unbounded integers if and only if n is below 2^32 + 5 or the codec is 12 |
| RoundTrip.AcceptedStrings | teltonika.go:502-544 | the parser accepts exactly the strings with a prefix in the grammar |
| RoundTrip.ParserLocality | teltonika.go:502-826 | a successful parse gives the same tree on the consumed bytes followed by anything, and every shorter prefix fails |
| Layouts.DeclaredElements | teltonika.go:659-689 | a record read from any input has exactly as many elements as the count field of that input declares: the one-, two-, four- and eight-byte values, the variable ones, then empty ones |
| Decoder.DecodeGroup | teltonika.go:664-687 | one counted group goes to the next slots in order, in bounds, and more elements than slots fail |
| Decoder.DecodeElementsCodec8 | teltonika.go:644-690 | fills the record from exactly the codec 8 element blocks, in both allocation modes |
| Decoder.DecodeElementsCodec16 | teltonika.go:692-747 | the same for codec 16, with its generation type at most 7 |
| Decoder.DecodeElementsCodec8E | teltonika.go:749-826 | the same for codec 8E, with its variable-length group |
| Decoder.DecodeData | teltonika.go:546-598 | decodes exactly the data records; every field of the result is the parsed field of that name |
| Decoder.DecodeCommand | teltonika.go:600-642 | decodes exactly the commands the parser accepts, with timestamp, IMEI and text |
| Decoder.DecodePacket | teltonika.go:502-544 | on every input succeeds exactly when it parses, reading just its bytes; every field of every record and message is the parsed one; values are new arrays, or increasing disjoint views of the input |
| Views.PacketContentsAre | teltonika.go:580-587 | the packet that specifications speak of has every field, element id and value of the decoded one in the same place |
| Canonical.RegroupPermutes | teltonika.go:1222-1254 | regrouping by value width is a permutation |
| Canonical.RegroupStable | teltonika.go:1222-1254 | it keeps the order within every width class, and regrouping again changes nothing |
| Canonical.OfWidthAt | teltonika.go:1222-1236 | an element of a width is in its class behind as many others as come before it in the list |
| Canonical.OfOtherWidthAt | teltonika.go:1239-1254 | the same for the elements of other lengths |
| RoundTrip.ElementBlockRoundTrip | teltonika.go:1203-1258 | what the filtered passes write, read back by the grouped loops, is the stable regrouping of the elements, for all three codecs |
| Rendering.BlockSizeExact | teltonika.go:1260-1278 | the size added up over the list is the number of bytes of the block, whatever the order of the groups |
| Rendering.BodySizeExact | teltonika.go:842-871 | the size added up in advance is the number of bytes of the packet |
| Encoder.CalculateElementsSizeCodec8 | teltonika.go:1132-1145 | succeeds exactly on lists with an encoding, with the size of their block |
| Encoder.CalculateElementsSizeCodec16 | teltonika.go:1191-1201 | succeeds exactly on lists with an encoding, with the size of their block |
| Encoder.CalculateElementsSizeCodec8E | teltonika.go:1260-1278 | succeeds exactly on lists with an encoding, with the size of their block |
| Encoder.EncodeGroup | teltonika.go:1223-1236 | one filtered pass writes the elements of one width behind their count, patched in afterwards, and touches nothing else |
| Encoder.EncodeVariable | teltonika.go:1239-1255 | the pass for all other lengths, with its count patched in, and touches nothing else |
| Encoder.EncodeElementsCodec8 | teltonika.go:1092-1130 | succeeds exactly on encodable records that fit, writing exactly their block; leaves the buffer alone otherwise |
| Encoder.EncodeElementsCodec16 | teltonika.go:1147-1189 | the same for codec 16 |
| Encoder.EncodeElementsCodec8E | teltonika.go:1203-1258 | the same for codec 8E |
| Encoder.EncodeData | teltonika.go:1059-1090 | succeeds exactly on encodable records that fit, writing exactly the record |
| Encoder.EncodeMessage | teltonika.go:1008-1057 | succeeds exactly on encodable messages that fit, writing exactly the command |
| Encoder.EncodePacket | teltonika.go:958-1006 | succeeds exactly on encodable packets whose computed size fits, writing exactly that many bytes and nothing else |
| Transport.EncodeTCPInternal | teltonika.go:828-890 | succeeds if and only if the packet is encodable, with the whole frame in a buffer of exactly its size |
| Transport.EncodeUDPInternal | teltonika.go:892-956 | succeeds if and only if the packet is encodable and the datagram has at most 1280 bytes, with exactly the datagram |
| Layouts.PositionLayout | teltonika.go:1064-1071 | every field of a record stands at its offset in the first 24 bytes |
| Layouts.FieldBytes | util.go:87-125 | the fields named in the layouts are big-endian numbers, byte by byte |
| Layouts.BlockLayout8 | teltonika.go:1109-1126 | the whole element block of codec 8 at literal offsets: one-byte event id, count, group counts and ids; every element of every group; the total size |
| Layouts.BlockLayout16 | teltonika.go:1166-1185 | the same for codec 16: two-byte event id and element ids, generation type, one-byte counts |
| Layouts.BlockLayout8E | teltonika.go:1218-1255 | the same for codec 8E: two-byte ids and counts, and the variable group with its count and each element's id, length and value |
| Layouts.GroupLayout | teltonika.go:1175-1184 | element k of a group of w-byte values stands at k times the element size, id first |
| Layouts.CommandLayout | teltonika.go:1028-1054 | type, declared size, timestamp of codecs 13 and 15, packed IMEI of codecs 14 and 15, and text of a command at literal offsets |
| Layouts.BodyLayout | teltonika.go:966-1002 | codec and count in front of a packet, the count again as its last byte |
| Layouts.RecordPlace | teltonika.go:987-993 | record i stands behind codec, count and the records before it |
| Layouts.MessagePlace | teltonika.go:974-980 | message i stands behind codec, count and the messages before it |
| Layouts.FrameLayout | teltonika.go:870-889 | preamble, length, body and checksum of a frame at their offsets |
| Layouts.EncoderAccepts | teltonika.go:958-1201 | the packets that have an encoding, with codec numbers, message types, widths and limits written out |
| Layouts.HeaderLimits | teltonika.go:337-350 | the headers that announce a frame (zero preamble, length at most 1280) or a datagram (length 3 to 1280), byte by byte |
| Vectors.CommandBody | teltonika.go:1008-1057 | the literal bytes of a packet with one short command, for each of codecs 12 to 15; its frame decodes to the packet |
| Vectors.Codec12 | teltonika_test.go:20-37 | the command of the codec 12 test and its literal bytes, in both directions |
| Vectors.Codec15 | teltonika_test.go:77-94 | the same for codec 15, with timestamp and IMEI |
| Vectors.Codec8E | teltonika_test.go:303-303 | the two records of the codec 8E frame, with fixed-width and variable elements, and their literal bytes, in both directions |
| Layouts.DatagramLayout | teltonika.go:943-950 | length, ids, IMEI length, IMEI and packet of a datagram at their offsets |
| RoundTrip.PacketRoundTrip | teltonika.go:958-1006 | parsing an encoded packet, whatever follows it, consumes exactly the encoding and gives the canonical packet |
| RoundTrip.EncodingInjective | teltonika.go:958-1006 | packets have the same encoding if and only if they have the same canonical form |
| RoundTrip.ReverseRoundTrip | teltonika.go:546-826 | encoding what was parsed gives the tree back if and only if it is in canonical form |
| Framing.TCPRoundTrip | teltonika.go:312-400 | for all seven codecs, the frame of an encodable packet of at most 1280 bytes decodes to its canonical form and is consumed whole; the frame of a larger one whose texts fit the size field is rejected |
| Framing.TCPInjective | teltonika.go:828-890 | packets have the same frame if and only if they have the same canonical form |
| Framing.AcceptedFrames | teltonika.go:312-400 | the accepted frames are exactly the strings that start with preamble, length, the bytes of a well-formed tree, its checksum and padding up to the length |
| Framing.LongTextAccepted | teltonika.go:873-877 | the frame of a command with a text of 2^32 bytes that starts with the end of a short frame is accepted as that frame of 20 bytes with an empty command |
| Framing.TCPReverseRoundTrip | teltonika.go:374-399 | re-encoding the packet of an accepted frame reproduces it byte for byte if and only if its tree is in canonical form and the body fills the length field |
| Framing.NotReproduced | teltonika.go:546-826 | every well-formed tree that is not canonical, and every padding, gives an accepted frame that re-encoding does not reproduce |
| Framing.NotReproducedExamples | teltonika.go:374-399 | such frames exist for each reason: an IMEI field starting with zero, a missing element, a variable element of a group's width, padding |
| Framing.UDPRoundTrip | teltonika.go:402-500 | every IMEI string, both ids and the canonical packet come back from a datagram of at most 1280 bytes, with no byte left over |
| Framing.AcceptedDatagrams | teltonika.go:402-500 | the accepted datagrams are exactly the strings that start with length, ids, any unused byte, IMEI, the bytes of a well-formed tree and bytes left over up to the length |
| Framing.UDPInjective | teltonika.go:892-956 | two datagrams are equal if and only if IMEI, ids and canonical packets are |
| Framing.UDPReverseRoundTrip | teltonika.go:402-500 | re-encoding an accepted datagram reproduces it if and only if its tree is canonical, nothing is left over, the unused byte is 1 and it has at most 1280 bytes |
| Framing.DatagramNotReproduced | teltonika.go:402-500 | every other combination of tree, unused byte and bytes left over gives an accepted datagram that re-encoding does not reproduce |
| Framing.ResponsesMatch | teltonika.go:487-497 | exactly the data packets get a reply, which carries the packet's ids and its number of records |
| Streams.ReadFullExact | teltonika.go:1289-1303 | reading n bytes succeeds if and only if n bytes are available before an empty or failing read, and takes exactly the first n |
| Streams.ChunkingIrrelevant | teltonika.go:1289-1303 | two ways to cut the same bytes into error-free reads give the same result |
| Streams.ReadFromReader | teltonika.go:1289-1303 | the read loop fills the buffer with exactly those bytes |
| Transport.ReceiveStream | teltonika.go:312-366 | header and remainder are read into the caller's buffer or a new one, taking exactly one packet from the stream |
| Transport.DecodeTCPInternal | teltonika.go:312-400 | slice, reader and reader with a buffer succeed exactly when their bytes start with an acceptable frame within reach, with the same packet and reply; a reader loses just that frame; values are new arrays or views of the buffer |
| Transport.DecodeUDPInternal | teltonika.go:402-500 | the same for datagrams |
| Transport.CleanStreamsInReach | teltonika.go:352-372 | on error-free reads, without a buffer or with one of at least 1292 bytes (1282 for datagrams), every frame is within reach |
| Transport.ErrorWithLastByte | teltonika.go:1293-1299 | when the last byte of a stream comes together with an error or end-of-file, exactly the reads of all its bytes fail, and exactly the frames and datagrams that end there are out of reach |
| Transport.ErrorWithLastByteExample | teltonika.go:1293-1299 | this happens to the frame and the datagram of an encodable packet |
| Server.Connection.HandleFrames | examples/simple-tcp-server/main.go:244-298 | the loop hands on a function of the bytes received and the replies that can be written, however the bytes are cut; why it ends is determined too |
| Server.ServeOfPieces | examples/simple-tcp-server/main.go:256-268 | bytes made of 0xFF bytes and accepted frames, followed by something that is neither, are cut into exactly those |
| Server.ServeIsCut | examples/simple-tcp-server/main.go:256-268 | any bytes are cut like that: pings and accepted frames, then nothing, or bytes that are neither |
| Server.Connection.HandlePieces | examples/simple-tcp-server/main.go:244-298 | the loop, on any bytes cut in any way, hands on exactly the packets of the frames in front of the first bytes that are neither a ping nor an accepted frame, and ends there with a read failure |
| Server.Connection.HandleItems | examples/simple-tcp-server/main.go:244-298 | run on any cutting of a stream of frames and pings into reads, the loop hands on exactly the canonical packets in order; behind them it ends with the stream or at unacceptable bytes; when a reply cannot be written, it ends there |
| Server.Segmentation | examples/simple-tcp-server/main.go:244-298 | frames with pings in between are cut into exactly those frames, with their replies, and what follows is served next |
| Server.ServeInParts | examples/simple-tcp-server/main.go:244-298 | for any bytes, later ones never change what was handed on: they are served behind what was left over |

## Left out

- Conversion of `Lng` and `Lat` between degrees and raw integers: floating point; the raw 32-bit integers are carried.
- EncodeMessage: does not model hexadecimal IMEIs shorter than 15 digits for codecs 14 and 15, because the source slices behind the decoded bytes and what happens depends on the capacity the hex library leaves. Other IMEIs of any length are modelled.
- EncodePacket: the same for the messages of a packet.
- EncodeTCPInternal: the same for the messages of a packet.
- EncodeUDPInternal: the same for the messages of a packet.
- DecodeUDPInternal: does not model length fields below 3, because the remaining size is negative there and the source panics or fails depending on the entry point.
- Nil against empty for element lists and element values given to the encoder: it treats them alike. Nil against empty is kept for the data and message lists and for decoded values.
- Input slices at an offset of a larger array: an input slice is a whole array.
- Error texts, the optional argument of the public wrappers, JSON marshalling, the I/O element dictionary and its generator.
- The buffered reader's internal buffer and its retries of empty reads: library code; a refill is a non-empty read.
- HandleFrames: does not model deadlines and connections closed by others; a failed write of a reply is the end of a number of replies the peer takes.
- Sockets, the client registry, logging and the HTTP channel of the TCP server; the UDP server; the test client.
