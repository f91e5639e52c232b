// Packets as the library presents them, and the IMEI text carried by codecs 14 and 15.

module Model {
  import opened Bits
  import opened Wire

  const CODEC_8: byte := 0x08
  const CODEC_8E: byte := 0x8E
  const CODEC_16: byte := 0x10
  const CODEC_12: byte := 0x0C
  const CODEC_13: byte := 0x0D
  const CODEC_14: byte := 0x0E
  const CODEC_15: byte := 0x0F

  const TYPE_COMMAND: byte := 0x05
  const TYPE_RESPONSE: byte := 0x06
  const TYPE_NOT_EXECUTED: byte := 0x11

  const UNKNOWN_GENERATION: byte := 0xFF

  // The element value type V is `Bytes` in specifications and for packets to encode; decoded packets
  // hold views of arrays.
  datatype IOElement<+V> = IOElement(id: uint16, value: V)

  // Lng and Lat are the raw integers of the wire, degrees times 10^7.
  datatype Data<+V> = Data(
    timestampMs: uint64,
    lng: int32,
    lat: int32,
    altitude: int16,
    angle: uint16,
    eventID: uint16,
    speed: uint16,
    satellites: byte,
    priority: byte,
    generationType: byte,
    elements: seq<IOElement<V>>)

  // Strings are byte strings.
  datatype Message = Message(timestamp: uint32, messageType: byte, imei: Bytes, text: Bytes)

  // `None` is the nil list.
  datatype Packet<+V> = Packet(codecID: byte, data: Option<seq<Data<V>>>, messages: Option<seq<Message>>)

  type Element = IOElement<Bytes>

  predicate IsCodecSupported(id: byte) {
    id == CODEC_8 || id == CODEC_8E || id == CODEC_16 || IsCMDCodecId(id)
  }

  predicate IsCMDCodecId(id: byte) {
    id == CODEC_12 || id == CODEC_13 || id == CODEC_14 || id == CODEC_15
  }

  predicate IsDataCodec(id: byte) {
    id == CODEC_8 || id == CODEC_8E || id == CODEC_16
  }

  predicate HasTimestamp(codec: byte) { codec == CODEC_13 || codec == CODEC_15 }
  predicate HasImei(codec: byte) { codec == CODEC_14 || codec == CODEC_15 }

  // The message types a command codec carries; codec 15 carries any.
  predicate IsMessageType(codec: byte, messageType: byte) {
    && (codec == CODEC_12 ==> messageType == TYPE_RESPONSE || messageType == TYPE_COMMAND)
    && (codec == CODEC_13 ==> messageType == TYPE_RESPONSE)
    && (codec == CODEC_14 ==>
          messageType == TYPE_RESPONSE || messageType == TYPE_COMMAND || messageType == TYPE_NOT_EXECUTED)
  }

  // The guard with which encoder and decoder reject message types.
  predicate Rejected(codecId: byte, commandType: byte) {
    || (codecId == CODEC_12 && commandType != TYPE_RESPONSE && commandType != TYPE_COMMAND)
    || (codecId == CODEC_13 && commandType != TYPE_RESPONSE)
    || (codecId == CODEC_14 && commandType != TYPE_RESPONSE && commandType != TYPE_COMMAND
        && commandType != TYPE_NOT_EXECUTED)
  }

  lemma RejectedTypes(codecId: byte, commandType: byte)
    ensures Rejected(codecId, commandType) <==> !IsMessageType(codecId, commandType)
  {}
}

// Base-16 text (RFC 4648, section 8) and the 8-byte packing of IMEIs.
module Imei {
  import opened Bits
  import opened Wire

  const ZERO: byte := 0x30  // '0'

  function HexDigit(v: nat): (c: byte)
    requires v < 16
  {
    if v < 10 then 0x30 + v else 0x57 + v  // '0'..'9', 'a'..'f'
  }

  // Both cases are accepted.
  function FromHexDigit(c: byte): Option<nat> {
    if 0x30 <= c <= 0x39 then Some(c - 0x30)
    else if 0x61 <= c <= 0x66 then Some(c - 0x57)
    else if 0x41 <= c <= 0x46 then Some(c - 0x37)
    else None
  }

  function HexEncode(s: Bytes): (h: Bytes)
    ensures |h| == 2 * |s|
  {
    if s == [] then [] else [HexDigit(s[0] / 16), HexDigit(s[0] % 16)] + HexEncode(s[1..])
  }

  // Fails on an odd length and on a byte that is no hex digit.
  function HexDecode(h: Bytes): (s: Option<Bytes>)
    ensures s.Some? ==> 2 * |s.value| == |h|
  {
    if h == [] then Some([])
    else if |h| == 1 then None
    else
      var high :- FromHexDigit(h[0]);
      var low :- FromHexDigit(h[1]);
      var rest :- HexDecode(h[2..]);
      Some([16 * high + low] + rest)
  }

  function TrimLeftZeros(s: Bytes): (t: Bytes)
    ensures |t| <= |s|
  {
    if s != [] && s[0] == ZERO then TrimLeftZeros(s[1..]) else s
  }

  predicate AllHex(s: Bytes) {
    forall c :: c in s ==> FromHexDigit(c).Some?
  }

  // An IMEI padded to an even number of digits.
  function PadEven(imei: Bytes): (s: Bytes)
    ensures |s| % 2 == 0
  {
    if |imei| % 2 != 0 then [ZERO] + imei else imei
  }

  // The 8 bytes written for an IMEI: the first 16 digits of the padded text.
  function PackImei(imei: Bytes): (p: Option<Bytes>)
    ensures p.Some? ==> |p.value| == 8
  {
    var packed :- HexDecode(PadEven(imei));
    if |packed| < 8 then None else Some(packed[..8])
  }

  // The IMEI text read from 8 bytes.
  function UnpackImei(packed: Bytes): Bytes {
    TrimLeftZeros(HexEncode(packed))
  }

  lemma PadEvenAllHex(imei: Bytes)
    ensures AllHex(PadEven(imei)) <==> AllHex(imei)
  {
    assert FromHexDigit(ZERO).Some?;
    if |imei| % 2 != 0 {
      assert forall c :: c in PadEven(imei) <==> c == ZERO || c in imei;
    }
  }

  lemma {:induction false} HexDecodeAccepts(h: Bytes)
    ensures HexDecode(h).Some? <==> |h| % 2 == 0 && AllHex(h)
    decreases |h|
  {
    if |h| >= 2 {
      HexDecodeAccepts(h[2..]);
      assert h == [h[0], h[1]] + h[2..];
      assert forall c :: c in h <==> c == h[0] || c == h[1] || c in h[2..];
    } else if |h| == 1 {
    }
  }

  // Lower-case form of a hex string.
  function Lower(h: Bytes): (l: Bytes)
    requires AllHex(h)
    ensures |l| == |h|
  {
    seq(|h|, i requires 0 <= i < |h| => assert h[i] in h; HexDigit(HexValue(h[i])))
  }

  function HexValue(c: byte): (v: nat)
    requires FromHexDigit(c).Some?
    ensures v < 16
  {
    FromHexDigit(c).value
  }

  predicate IsLowerHex(c: byte) {
    0x30 <= c <= 0x39 || 0x61 <= c <= 0x66
  }

  lemma HexDigitInverse(v: nat)
    requires v < 16
    ensures FromHexDigit(HexDigit(v)) == Some(v)
  {}

  // The alphabet, in either case when reading.
  lemma HexAlphabet(v: nat, c: byte)
    requires v < 16
    ensures HexDigit(v) == "0123456789abcdef"[v] as int
    ensures FromHexDigit(c) == Some(v) <==> c == "0123456789abcdef"[v] as int || c == "0123456789ABCDEF"[v] as int
  {}

  lemma {:induction false} DecodeEncode(s: Bytes)
    ensures HexDecode(HexEncode(s)) == Some(s)
  {
    if s != [] {
      DecodeEncode(s[1..]);
      HexDigitInverse(s[0] / 16);
      HexDigitInverse(s[0] % 16);
      var h := HexEncode(s);
      assert h[0] == HexDigit(s[0] / 16) && h[1] == HexDigit(s[0] % 16) && h[2..] == HexEncode(s[1..]);
      assert s == [16 * (s[0] / 16) + s[0] % 16] + s[1..];
    }
  }

  lemma {:induction false} EncodeDecode(h: Bytes)
    requires |h| % 2 == 0 && AllHex(h)
    ensures HexDecode(h).Some? && HexEncode(HexDecode(h).value) == Lower(h)
    decreases |h|
  {
    HexDecodeAccepts(h);
    if h != [] {
      assert h[0] in h && h[1] in h;
      assert forall c :: c in h[2..] ==> c in h;
      EncodeDecode(h[2..]);
      hide HexDigit, FromHexDigit, HexEncode;
      var high, low, rest := HexValue(h[0]), HexValue(h[1]), HexDecode(h[2..]).value;
      assert HexDecode(h).value == [16 * high + low] + rest;
      HexEncodeCons(high, low, rest);
      assert Lower(h) == [HexDigit(high), HexDigit(low)] + Lower(h[2..]);
    }
  }

  lemma HexEncodeCons(high: nat, low: nat, rest: Bytes)
    requires high < 16 && low < 16
    ensures HexEncode([16 * high + low] + rest) == [HexDigit(high), HexDigit(low)] + HexEncode(rest)
  {
    var s := [16 * high + low] + rest;
    assert s[1..] == rest && s[0] / 16 == high && s[0] % 16 == low;
  }

  lemma HexEncodeLower(s: Bytes)
    ensures forall c :: c in HexEncode(s) ==> IsLowerHex(c)
  {}

  lemma {:induction false} HexEncodePrefix(s: Bytes, n: nat)
    requires n <= |s|
    ensures HexEncode(s[..n]) == HexEncode(s)[..2 * n]
  {
    if n > 0 {
      HexEncodePrefix(s[1..], n - 1);
      assert s[..n][1..] == s[1..][..n - 1];
    }
  }

  lemma {:induction false} TrimSuffix(s: Bytes)
    ensures var t := TrimLeftZeros(s);
            && t == s[|s| - |t|..]
            && (t != [] ==> t[0] != ZERO)
            && (forall i :: 0 <= i < |s| - |t| ==> s[i] == ZERO)
  {
    if s != [] && s[0] == ZERO {
      TrimSuffix(s[1..]);
    }
  }

  // ---------------------------------------------------------------- packing inverts on both sides

  // The text a receiver reads after an IMEI was packed.
  function NormalImei(imei: Bytes): Bytes
  {
    match PackImei(imei)
    case Some(p) => UnpackImei(p)
    case None => imei
  }

  // 15 or 16 lower-case hex digits without a leading zero.
  predicate IsNormalImei(imei: Bytes) {
    && 15 <= |imei| <= 16
    && (forall c :: c in imei ==> IsLowerHex(c))
    && imei[0] != ZERO
  }

  lemma LowerIsIdentity(h: Bytes)
    requires forall c :: c in h ==> IsLowerHex(c)
    ensures AllHex(h) && Lower(h) == h
  {
    assert forall i :: 0 <= i < |h| ==> h[i] in h;
  }

  lemma LowerIsLower(h: Bytes)
    requires AllHex(h)
    ensures forall c :: c in Lower(h) ==> IsLowerHex(c)
  {}

  lemma PackImeiAccepts(imei: Bytes)
    ensures PackImei(imei).Some? <==> AllHex(imei) && |imei| >= 15
  {
    HexDecodeAccepts(PadEven(imei));
    PadEvenAllHex(imei);
  }

  // What packing keeps: the first 16 digits of the padded text, in lower case, without leading zeros.
  lemma NormalImeiIs(imei: Bytes)
    requires AllHex(imei) && |imei| >= 15
    ensures AllHex(PadEven(imei)) && NormalImei(imei) == TrimLeftZeros(Lower(PadEven(imei))[..16])
  {
    hide HexDecode, HexEncode, TrimLeftZeros, Lower;
    PadEvenAllHex(imei);
    HexDecodeAccepts(PadEven(imei));
    EncodeDecode(PadEven(imei));
    HexEncodePrefix(HexDecode(PadEven(imei)).value, 8);
  }

  lemma NormalImeiUnchanged(imei: Bytes)
    requires IsNormalImei(imei)
    ensures AllHex(imei) && NormalImei(imei) == imei
  {
    hide HexDecode, HexEncode, NormalImei, Lower, HexDigit, FromHexDigit;
    var padded := PadEven(imei);
    assert forall c :: c in padded ==> c == ZERO || c in imei;
    LowerIsIdentity(imei);
    LowerIsIdentity(padded);
    NormalImeiIs(imei);
    assert padded[..16] == padded;
  }

  // Whatever a receiver reads has at most 16 lower-case digits and no leading zero.
  lemma NormalImeiShape(imei: Bytes)
    requires AllHex(imei) && |imei| >= 15
    ensures var n := NormalImei(imei);
            |n| <= 16 && (n != [] ==> n[0] != ZERO) && forall c :: c in n ==> IsLowerHex(c)
  {
    hide HexDecode, HexEncode, NormalImei, Lower, HexDigit, FromHexDigit, IsLowerHex, TrimLeftZeros;
    NormalImeiIs(imei);
    var padded := PadEven(imei);
    LowerIsLower(padded);
    var digits := Lower(padded)[..16];
    TrimSuffix(digits);
    assert forall c :: c in digits ==> c in Lower(padded);
  }

  // The IMEIs that survive packing unchanged are exactly the normal ones.
  lemma ImeiPackUnpack(imei: Bytes)
    requires AllHex(imei) && |imei| >= 15
    ensures NormalImei(imei) == imei <==> IsNormalImei(imei)
  {
    hide NormalImei, IsLowerHex;
    if IsNormalImei(imei) {
      NormalImeiUnchanged(imei);
    }
    NormalImeiShape(imei);
  }

  // Every 8-byte field whose first byte is not zero survives reading and packing.
  lemma ImeiUnpackPack(packed: Bytes)
    requires |packed| == 8
    ensures |UnpackImei(packed)| >= 15 <==> packed[0] != 0
    ensures packed[0] != 0 ==> AllHex(UnpackImei(packed)) && PackImei(UnpackImei(packed)) == Some(packed)
  {
    hide HexDecode, TrimLeftZeros;
    var h := HexEncode(packed);
    HexEncodeLower(packed);
    var imei := UnpackImei(packed);
    TrimSuffix(h);
    assert forall c :: c in imei ==> c in h;
    assert h[0] == HexDigit(packed[0] / 16) && h[1] == HexDigit(packed[0] % 16);
    if packed[0] != 0 {
      assert PadEven(imei) == h;
      DecodeEncode(packed);
      assert packed[..8] == packed;
    }
  }

  // Fields with the same text are the same.
  lemma UnpackImeiInjective(a: Bytes, b: Bytes)
    requires |a| == |b| && UnpackImei(a) == UnpackImei(b)
    ensures a == b
  {
    hide HexDecode, HexEncode, TrimLeftZeros;
    var x, y, n := HexEncode(a), HexEncode(b), |UnpackImei(a)|;
    TrimSuffix(x);
    TrimSuffix(y);
    assert x == x[..|x| - n] + x[|x| - n..] && y == y[..|y| - n] + y[|y| - n..];
    assert x[..|x| - n] == y[..|y| - n];
    DecodeEncode(a);
    DecodeEncode(b);
  }
}
