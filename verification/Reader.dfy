// Values as slices of arrays, and the cursor the decoders read through.

module Views {
  import opened Bits
  import opened Wire
  import opened Model

  // A nil slice, or arr[off..off + len].
  datatype ValueData = Nil | View(arr: array<byte>, off: nat, len: nat)

  type Value = v: ValueData | v.View? ==> v.off + v.len <= v.arr.Length
    witness Nil

  function Contents(v: Value): Bytes
    reads if v.View? then {v.arr} else {}
  {
    if v.View? then v.arr[v.off..v.off + v.len] else []
  }

  ghost function Arrays(es: seq<IOElement<Value>>): set<array<byte>> {
    set e | e in es && e.value.View? :: e.value.arr
  }

  function ElementContents(e: IOElement<Value>): Element
    reads if e.value.View? then {e.value.arr} else {}
  {
    IOElement(e.id, Contents(e.value))
  }

  function ElementsContents(es: seq<IOElement<Value>>): (cs: seq<Element>)
    reads Arrays(es)
    ensures |cs| == |es|
    ensures forall i :: 0 <= i < |es| ==> cs[i] == ElementContents(es[i])
  {
    if es == [] then []
    else
      var last := es[|es| - 1];
      assert last in es;
      assert Arrays(es[..|es| - 1]) <= Arrays(es);
      ElementsContents(es[..|es| - 1]) + [ElementContents(last)]
  }

  function DataContents(d: Data<Value>): Data<Bytes>
    reads Arrays(d.elements)
  {
    Data(d.timestampMs, d.lng, d.lat, d.altitude, d.angle, d.eventID, d.speed, d.satellites, d.priority,
         d.generationType, ElementsContents(d.elements))
  }

  ghost function AllElements(ds: seq<Data<Value>>): seq<IOElement<Value>> {
    if ds == [] then [] else AllElements(ds[..|ds| - 1]) + ds[|ds| - 1].elements
  }

  function AllContents(ds: seq<Data<Value>>): (cs: seq<Data<Bytes>>)
    reads Arrays(AllElements(ds))
    ensures |cs| == |ds|
  {
    if ds == [] then []
    else
      var front, last := ds[..|ds| - 1], ds[|ds| - 1];
      assert Arrays(AllElements(ds)) == Arrays(AllElements(front)) + Arrays(last.elements);
      AllContents(front) + [DataContents(last)]
  }

  ghost function PacketElements(p: Packet<Value>): seq<IOElement<Value>> {
    match p.data
    case Some(ds) => AllElements(ds)
    case None => []
  }

  function PacketContents(p: Packet<Value>): Packet<Bytes>
    reads Arrays(PacketElements(p))
  {
    match p.data
    case Some(ds) => Packet(p.codecID, Some(AllContents(ds)), p.messages)
    case None => Packet(p.codecID, None, p.messages)
  }

  // What the abstract packet says of a decoded one, field by field.
  lemma PacketContentsAre(p: Packet<Value>)
    ensures var c := PacketContents(p);
            && c.codecID == p.codecID && c.messages == p.messages && c.data.Some? == p.data.Some?
    ensures p.data.Some? ==>
      var cs, ds := PacketContents(p).data.value, p.data.value;
      && |cs| == |ds|
      && forall i :: 0 <= i < |ds| ==>
        var c, d := cs[i], ds[i];
        && c.timestampMs == d.timestampMs && c.lng == d.lng && c.lat == d.lat
        && c.altitude == d.altitude && c.angle == d.angle && c.eventID == d.eventID && c.speed == d.speed
        && c.satellites == d.satellites && c.priority == d.priority && c.generationType == d.generationType
        && |c.elements| == |d.elements|
        && forall j :: 0 <= j < |d.elements| ==>
          && c.elements[j].id == d.elements[j].id
          && c.elements[j].value
             == match d.elements[j].value {
                  case View(arr, off, len) => arr[off..off + len]
                  case Nil => []
                }
  {
    hide ElementsContents;
    if p.data.Some? {
      AllContentsAt(p.data.value);
    }
  }

  lemma {:induction false} AllContentsAt(ds: seq<Data<Value>>)
    ensures forall i :: 0 <= i < |ds| ==> AllContents(ds)[i] == DataContents(ds[i])
  {
    hide DataContents;
    if ds != [] {
      AllContentsAt(ds[..|ds| - 1]);
      assert forall i :: 0 <= i < |ds| - 1 ==> ds[..|ds| - 1][i] == ds[i];
    }
  }

  // The values are views of `input` within [lo, hi), each one behind all earlier ones; empty slots are nil.
  ghost predicate Increasing(es: seq<IOElement<Value>>, input: array<byte>, lo: nat, hi: nat) {
    && (forall e :: e in es && e.value.View? ==>
          e.value.arr == input && lo <= e.value.off && e.value.off + e.value.len <= hi)
    && (forall i, j :: 0 <= i < j < |es| && es[i].value.View? && es[j].value.View?
          ==> es[i].value.off + es[i].value.len <= es[j].value.off)
  }

  lemma IncreasingAppend(a: seq<IOElement<Value>>, b: seq<IOElement<Value>>,
      input: array<byte>, lo: nat, mid: nat, hi: nat)
    requires lo <= mid <= hi
    requires Increasing(a, input, lo, mid) && Increasing(b, input, mid, hi)
    ensures Increasing(a + b, input, lo, hi)
  {
    forall i, j | 0 <= i < j < |a + b| && (a + b)[i].value.View? && (a + b)[j].value.View?
      ensures (a + b)[i].value.off + (a + b)[i].value.len <= (a + b)[j].value.off
    {
      if i < |a| <= j {
        assert a[i] in a && b[j - |a|] in b;
      }
    }
  }

  // The arrays of existing records exist, so what is allocated later is none of them.
  lemma {:induction false} ArraysAllocated(ds: seq<Data<Value>>)
    ensures forall a :: a in Arrays(AllElements(ds)) ==> allocated(a)
  {
    if ds != [] {
      ArraysAllocated(ds[..|ds| - 1]);
      assert Arrays(AllElements(ds)) == Arrays(AllElements(ds[..|ds| - 1])) + Arrays(ds[|ds| - 1].elements);
    }
  }

  lemma PacketArraysAllocated(p: Packet<Value>)
    ensures forall a :: a in Arrays(PacketElements(p)) ==> allocated(a)
  {
    if p.data.Some? {
      ArraysAllocated(p.data.value);
    }
  }

  lemma IncreasingLower(es: seq<IOElement<Value>>, input: array<byte>, lo: nat, mid: nat, hi: nat)
    requires lo <= mid && Increasing(es, input, mid, hi)
    ensures Increasing(es, input, lo, hi)
  {}

  lemma IncreasingWiden(es: seq<IOElement<Value>>, input: array<byte>, lo: nat, mid: nat, hi: nat)
    requires mid <= hi && Increasing(es, input, lo, mid)
    ensures Increasing(es, input, lo, hi)
  {}
}

module Readers {
  import opened Bits
  import opened Wire
  import opened Views

  // A new array with the bytes of src[lo..hi].
  method CopyOf(src: array<byte>, lo: nat, hi: nat) returns (buf: array<byte>)
    requires lo <= hi <= src.Length
    ensures fresh(buf) && buf.Length == hi - lo && buf[..] == src[lo..hi]
  {
    buf := new byte[hi - lo](_ => 0);
    Copy(buf, 0, src[lo..hi]);
    assert buf[..] == src[lo..hi];
  }

  // A cursor over input[base..base + size]. Reads behind the end fail and leave the cursor alone.
  class ByteReader {
    var pos: nat
    const size: nat
    const input: array<byte>
    const base: nat
    const allocOnRead: bool

    ghost predicate Valid()
      reads this
    {
      pos <= size && base + size <= input.Length
    }

    // The bytes not yet read.
    ghost function Remaining(): Bytes
      requires Valid()
      reads this, input
    {
      input[base + pos..base + size]
    }

    constructor (input: array<byte>, base: nat, size: nat, allocOnRead: bool)
      requires base + size <= input.Length
      ensures Valid() && pos == 0 && Remaining() == input[base..base + size]
      ensures this.input == input && this.base == base && this.size == size && this.allocOnRead == allocOnRead
    {
      this.input, this.base, this.size, this.allocOnRead := input, base, size, allocOnRead;
      pos := 0;
    }

    // A copy of the next n bytes in a new array, or a view of the input.
    method ReadBytes(n: nat) returns (r: Option<Value>)
      requires Valid()
      modifies this`pos
      ensures Valid()
      ensures match Take(old(Remaining()), n)
              case Done(bytes, rest) =>
                && r.Some? && r.value.View? && Contents(r.value) == bytes
                && Remaining() == rest && pos == old(pos) + n
              case Fail => r.None? && pos == old(pos)
      ensures r.Some? && allocOnRead ==> fresh(r.value.arr)
      ensures r.Some? && !allocOnRead ==>
        r.value.arr == input && r.value.off == base + old(pos) && r.value.off + r.value.len == base + pos
    {
      if pos + n > size {
        return None;
      }
      var from := base + pos;
      assert Remaining()[..n] == input[from..from + n] && Remaining()[n..] == input[from + n..base + size];
      pos := pos + n;
      if allocOnRead {
        var buf := CopyOf(input, from, from + n);
        assert buf[0..n] == buf[..];
        return Some(View(buf, 0, n));
      }
      return Some(View(input, from, n));
    }

    method ReadUInt8BE() returns (r: Option<byte>)
      requires Valid()
      modifies this`pos
      ensures Valid()
      ensures match ParseUint(old(Remaining()), 1)
              case Done(v, rest) => r == Some(v) && Remaining() == rest && pos == old(pos) + 1
              case Fail => r.None? && pos == old(pos)
      ensures r.Some? ==>
        var s := old(Remaining());
        |s| >= 1 && r.value == s[0]
    {
      FrontBytes(Remaining(), 1);
      hide FromBigEndian, Pow256;
      if pos + 1 > size {
        return None;
      }
      Widths();
      FromBigEndianBound(input[base + pos..base + pos + 1]);
      FromBytes([input[base + pos]]);
      assert input[base + pos..base + pos + 1] == [input[base + pos]];
      assert Remaining()[..1] == [input[base + pos]];
      pos := pos + 1;
      return Some(input[base + pos - 1]);
    }

    method ReadUInt16BE() returns (r: Option<uint16>)
      requires Valid()
      modifies this`pos
      ensures Valid()
      ensures match ParseUint(old(Remaining()), 2)
              case Done(v, rest) => r == Some(v) && Remaining() == rest && pos == old(pos) + 2
              case Fail => r.None? && pos == old(pos)
      ensures r.Some? ==>
        var s := old(Remaining());
        |s| >= 2 && r.value == 0x100 * (s[0] as int) + s[1]
    {
      FrontBytes(Remaining(), 2);
      hide FromBigEndian, Pow256;
      if pos + 2 > size {
        return None;
      }
      Widths();
      FromBigEndianBound(input[base + pos..base + pos + 2]);
      assert Remaining()[..2] == input[base + pos..base + pos + 2];
      pos := pos + 2;
      return Some(FromBigEndian(input[base + pos - 2..base + pos]));
    }

    method ReadInt16BE() returns (r: Option<int16>)
      requires Valid()
      modifies this`pos
      ensures Valid()
      ensures match ParseUint(old(Remaining()), 2)
              case Done(v, rest) => v < 0x1_0000 && r == Some(Signed16(v)) && Remaining() == rest && pos == old(pos) + 2
              case Fail => r.None? && pos == old(pos)
      ensures r.Some? ==>
        var s := old(Remaining());
        |s| >= 2 && (r.value - (0x100 * (s[0] as int) + s[1])) % 0x1_0000 == 0
    {
      FrontBytes(Remaining(), 2);
      hide ParseUint;
      var u := ReadUInt16BE();
      return match u case Some(v) => Some(Signed16(v)) case None => None;
    }

    method ReadUInt32BE() returns (r: Option<uint32>)
      requires Valid()
      modifies this`pos
      ensures Valid()
      ensures match ParseUint(old(Remaining()), 4)
              case Done(v, rest) => r == Some(v) && Remaining() == rest && pos == old(pos) + 4
              case Fail => r.None? && pos == old(pos)
      ensures r.Some? ==>
        var s := old(Remaining());
        |s| >= 4 && r.value == 0x100_0000 * (s[0] as int) + 0x1_0000 * (s[1] as int) + 0x100 * (s[2] as int) + s[3]
    {
      FrontBytes(Remaining(), 4);
      hide FromBigEndian, Pow256;
      if pos + 4 > size {
        return None;
      }
      Widths();
      FromBigEndianBound(input[base + pos..base + pos + 4]);
      assert Remaining()[..4] == input[base + pos..base + pos + 4];
      pos := pos + 4;
      return Some(FromBigEndian(input[base + pos - 4..base + pos]));
    }

    method ReadInt32BE() returns (r: Option<int32>)
      requires Valid()
      modifies this`pos
      ensures Valid()
      ensures match ParseUint(old(Remaining()), 4)
              case Done(v, rest) =>
                v < 0x1_0000_0000 && r == Some(Signed32(v)) && Remaining() == rest && pos == old(pos) + 4
              case Fail => r.None? && pos == old(pos)
      ensures r.Some? ==>
        var s := old(Remaining());
        |s| >= 4 && (r.value - (0x100_0000 * (s[0] as int) + 0x1_0000 * (s[1] as int) + 0x100 * (s[2] as int) + s[3]))
                    % 0x1_0000_0000 == 0
    {
      FrontBytes(Remaining(), 4);
      hide ParseUint;
      var u := ReadUInt32BE();
      return match u case Some(v) => Some(Signed32(v)) case None => None;
    }

    method ReadUInt64BE() returns (r: Option<uint64>)
      requires Valid()
      modifies this`pos
      ensures Valid()
      ensures match ParseUint(old(Remaining()), 8)
              case Done(v, rest) => r == Some(v) && Remaining() == rest && pos == old(pos) + 8
              case Fail => r.None? && pos == old(pos)
      ensures r.Some? ==>
        var s := old(Remaining());
        |s| >= 8 && r.value
        == 0x100_0000_0000_0000 * (s[0] as int) + 0x1_0000_0000_0000 * (s[1] as int)
           + 0x100_0000_0000 * (s[2] as int) + 0x1_0000_0000 * (s[3] as int)
           + 0x100_0000 * (s[4] as int) + 0x1_0000 * (s[5] as int) + 0x100 * (s[6] as int) + s[7]
    {
      FrontBytes(Remaining(), 8);
      hide FromBigEndian, Pow256;
      if pos + 8 > size {
        return None;
      }
      Widths();
      FromBigEndianBound(input[base + pos..base + pos + 8]);
      assert Remaining()[..8] == input[base + pos..base + pos + 8];
      pos := pos + 8;
      return Some(FromBigEndian(input[base + pos - 8..base + pos]));
    }
  }

  // The integer read off the front of s, byte by byte.
  lemma FrontBytes(s: Bytes, n: nat)
    requires n == 1 || n == 2 || n == 4 || n == 8
    ensures match ParseUint(s, n)
            case Fail => |s| < n
            case Done(v, _) =>
              && |s| >= n
              && (n == 1 ==> v == s[0])
              && (n == 2 ==> v == 0x100 * (s[0] as int) + s[1])
              && (n == 4 ==>
                    v == 0x100_0000 * (s[0] as int) + 0x1_0000 * (s[1] as int) + 0x100 * (s[2] as int) + s[3])
              && (n == 8 ==>
                    v == 0x100_0000_0000_0000 * (s[0] as int) + 0x1_0000_0000_0000 * (s[1] as int)
                         + 0x100_0000_0000 * (s[2] as int) + 0x1_0000_0000 * (s[3] as int)
                         + 0x100_0000 * (s[4] as int) + 0x1_0000 * (s[5] as int) + 0x100 * (s[6] as int) + s[7])
  {
    hide FromBigEndian;
    if n <= |s| {
      FromBytes(s[..n]);
      if n == 8 {
        FromEightBytes(s[..n]);
      }
    }
  }
}
