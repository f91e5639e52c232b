// The decoders. Each one is proved to compute what the parser function says of the bytes under the
// cursor, in both allocation modes.

module Decoder {
  import opened Bits
  import opened Wire
  import opened Model
  import opened Grammar
  import opened Parser
  import opened Views
  import opened Readers
  import Imei

  // ---------------------------------------------------------------- element groups

  function Prepend<T>(done: seq<T>, p: Parsed<seq<T>>): Parsed<seq<T>> {
    match p
    case Done(more, rest) => Done(done + more, rest)
    case Fail => Fail
  }

  // Stores a decoded element in slot k; the slots from k on were still those of `blank`.
  lemma StoreElement(es: seq<IOElement<Value>>, blank: seq<IOElement<Value>>, k: nat, e: IOElement<Value>,
      t: seq<IOElement<Value>>)
    requires k < |es| == |blank| && t == es[k := e] && es[k..] == blank[k..]
    ensures t[k + 1..] == blank[k + 1..]
    ensures ElementsContents(t[..k + 1]) == ElementsContents(es[..k]) + [ElementContents(e)]
    ensures e.value.View? ==> Arrays(t) <= Arrays(es) + {e.value.arr}
  {
    assert t[..k] == es[..k] && t[..k + 1][..k] == es[..k];
    assert t[k + 1..] == es[k..][1..] && blank[k + 1..] == blank[k..][1..];
  }

  lemma StoreView(es: seq<IOElement<Value>>, blank: seq<IOElement<Value>>, k: nat, e: IOElement<Value>,
      t: seq<IOElement<Value>>, reader: ByteReader, start: nat, from: nat, to: nat)
    requires k < |es| == |blank| && t == es[k := e] && es[k..] == blank[k..]
    requires forall i :: k <= i < |blank| ==> blank[i].value.Nil?
    requires start <= from <= to && Increasing(es, reader.input, reader.base + start, reader.base + from)
    requires InInput(e.value, reader, from, to)
    ensures Increasing(t, reader.input, reader.base + start, reader.base + to)
  {
    assert forall i :: k <= i < |es| ==> es[i] == es[k..][i - k] == blank[i];
    var input, lo, hi := reader.input, reader.base + start, reader.base + to;
    forall x | x in t && x.value.View?
      ensures x.value.arr == input && lo <= x.value.off && x.value.off + x.value.len <= hi
    {
      var i :| 0 <= i < |t| && t[i] == x;
      assert i != k ==> es[i] in es;
    }
    forall i, j | 0 <= i < j < |t| && t[i].value.View? && t[j].value.View?
      ensures t[i].value.off + t[i].value.len <= t[j].value.off
    {
      assert j <= k;
      assert es[i] in es;
    }
  }

  // An id or a count: one byte in codec 8, and for the counts of codec 16, else two.
  method ReadSmall(reader: ByteReader, width: nat) returns (r: Option<uint16>)
    requires reader.Valid() && 1 <= width <= 2
    modifies reader`pos
    ensures reader.Valid()
    ensures match ParseUint(old(reader.Remaining()), width)
            case Done(v, rest) => r == Some(v) && reader.Remaining() == rest && reader.pos == old(reader.pos) + width
            case Fail => r.None? && reader.pos == old(reader.pos)
  {
    hide ParseUint;
    if width == 1 {
      var x := reader.ReadUInt8BE();
      return match x case Some(v) => Some(v) case None => None;
    } else {
      r := reader.ReadUInt16BE();
    }
  }

  // Reads an id and a value of w bytes.
  method ReadElement(reader: ByteReader, l: Layout, w: nat) returns (r: Option<IOElement<Value>>)
    requires reader.Valid()
    modifies reader`pos
    ensures reader.Valid() && reader.pos >= old(reader.pos)
    ensures match ParseElement(old(reader.Remaining()), l, w)
            case Done(e, rest) =>
              && r.Some? && r.value.value.View? && ElementContents(r.value) == e && reader.Remaining() == rest
            case Fail => r.None?
    ensures r.Some? && reader.allocOnRead ==> fresh(r.value.value.arr)
    ensures r.Some? && !reader.allocOnRead ==> InInput(r.value.value, reader, old(reader.pos), reader.pos)
  {
    hide ParseUint, Take, Pow256;
    var id :- ReadSmall(reader, l.idWidth);
    var value :- reader.ReadBytes(w);
    return Some(IOElement(id, value));
  }

  // A view of the reader's input between two cursor positions.
  ghost predicate InInput(v: Value, reader: ByteReader, from: nat, to: nat) {
    v.View? && v.arr == reader.input && reader.base + from <= v.off && v.off + v.len <= reader.base + to
  }

  // Reads n elements with w-byte values into the slots from k on, as far as there are slots. `start` is the
  // cursor position at the first value.
  method DecodeElements(reader: ByteReader, l: Layout, w: nat, n: nat, elements: seq<IOElement<Value>>, k: nat,
      ghost start: nat)
    returns (r: Option<seq<IOElement<Value>>>)
    requires reader.Valid() && k <= |elements| && start <= reader.pos
    requires forall i :: k <= i < |elements| ==> elements[i].value.Nil?
    requires !reader.allocOnRead ==> Increasing(elements, reader.input, reader.base + start, reader.base + reader.pos)
    modifies reader`pos
    ensures reader.Valid() && reader.pos >= old(reader.pos)
    ensures r.Some? <==> k + n <= |elements| && ParseElements(old(reader.Remaining()), n, l, w).Done?
    ensures r.Some? ==>
      var p := ParseElements(old(reader.Remaining()), n, l, w);
      && reader.Remaining() == p.rest && |r.value| == |elements|
      && ElementsContents(r.value[..k + n]) == old(ElementsContents(elements[..k])) + p.value
      && r.value[k + n..] == elements[k + n..]
    ensures r.Some? && reader.allocOnRead ==> forall a :: a in Arrays(r.value) ==> a in Arrays(elements) || fresh(a)
    ensures r.Some? && !reader.allocOnRead ==>
      Increasing(r.value, reader.input, reader.base + start, reader.base + reader.pos)
  {
    hide ElementsContents, ParseElement, ParseElements, Prepend, Increasing, Arrays, InInput;
    ghost var head := ElementsContents(elements[..k]);
    var es: seq<IOElement<Value>>, at := elements, k;
    ghost var s1 := reader.Remaining();
    ghost var done: seq<Element> := [];
    PrependNone(ParseElements(s1, n, l, w));
    for j := 0 to n
      invariant reader.Valid() && reader.pos >= old(reader.pos)
      invariant |es| == |elements| && at == k + j <= |elements|
      invariant ParseElements(s1, n, l, w) == Prepend(done, ParseElements(reader.Remaining(), n - j, l, w))
      invariant ElementsContents(es[..at]) == head + done
      invariant es[at..] == elements[at..]
      invariant reader.allocOnRead ==> forall a :: a in Arrays(es) ==> a in Arrays(elements) || fresh(a)
      invariant !reader.allocOnRead ==> Increasing(es, reader.input, reader.base + start, reader.base + reader.pos)
    {
      ghost var mid := reader.pos;
      ghost var soFar := ElementsContents(es[..at]);
      ElementsStep(done, reader.Remaining(), n - j, l, w);
      var e := ReadElement(reader, l, w);
      if e.None? {
        return None;
      }
      assert ElementsContents(es[..at]) == soFar;
      if at >= |es| {
        return None;
      }
      StoreElement(es, elements, at, e.value, es[at := e.value]);
      if !reader.allocOnRead {
        StoreView(es, elements, at, e.value, es[at := e.value], reader, start, mid, reader.pos);
      }
      es := es[at := e.value];
      done := done + [ElementContents(e.value)];
      at := at + 1;
    }
    ElementsEnd(done, reader.Remaining(), l, w);
    return Some(es);
  }

  // Reads one counted group of elements with w-byte values into the slots from k on.
  method DecodeGroup(reader: ByteReader, l: Layout, w: nat, elements: seq<IOElement<Value>>, k: nat, ghost start: nat)
    returns (r: Option<(seq<IOElement<Value>>, nat)>)
    requires reader.Valid() && k <= |elements| && start <= reader.pos
    requires forall i :: k <= i < |elements| ==> elements[i].value.Nil?
    requires !reader.allocOnRead ==> Increasing(elements, reader.input, reader.base + start, reader.base + reader.pos)
    modifies reader`pos
    ensures reader.Valid() && reader.pos >= old(reader.pos)
    ensures match ParseGroup(old(reader.Remaining()), l, w, |elements| - k)
            case Done(g, rest) =>
              && r.Some? && reader.Remaining() == rest
              && |r.value.0| == |elements| && r.value.1 == k + |g| <= |elements|
              && ElementsContents(r.value.0[..r.value.1]) == old(ElementsContents(elements[..k])) + g
              && r.value.0[r.value.1..] == elements[r.value.1..]
            case Fail => r.None?
    ensures r.Some? && reader.allocOnRead ==> forall a :: a in Arrays(r.value.0) ==> a in Arrays(elements) || fresh(a)
    ensures r.Some? && !reader.allocOnRead ==>
      Increasing(r.value.0, reader.input, reader.base + start, reader.base + reader.pos)
  {
    hide ParseUint, ElementsContents, Pow256, ParseElements, Increasing, Arrays;
    ghost var head := ElementsContents(elements[..k]);
    ghost var from := reader.pos;
    var n :- ReadSmall(reader, l.countWidth);
    assert ElementsContents(elements[..k]) == head;
    if !reader.allocOnRead {
      IncreasingWiden(elements, reader.input, reader.base + start, reader.base + from, reader.base + reader.pos);
    }
    var es :- DecodeElements(reader, l, w, n, elements, k, start);
    return Some((es, k + n));
  }

  lemma PrependNone<T>(p: Parsed<seq<T>>)
    ensures Prepend([], p) == p
  {
    if p.Done? {
      assert [] + p.value == p.value;
    }
  }

  // One element read, n - 1 to go.
  lemma ElementsStep(done: seq<Element>, s: Bytes, n: nat, l: Layout, w: nat)
    requires n > 0
    ensures Prepend(done, ParseElements(s, n, l, w))
            == match ParseElement(s, l, w)
               case Done(e, rest) => Prepend(done + [e], ParseElements(rest, n - 1, l, w))
               case Fail => Fail
  {
    hide ParseElement;
    if ParseElements(s, n, l, w).Done? {
      var e, rest := ParseElement(s, l, w).value, ParseElement(s, l, w).rest;
      var es := ParseElements(rest, n - 1, l, w).value;
      assert done + ([e] + es) == done + [e] + es;
    }
  }

  lemma ElementsEnd(done: seq<Element>, s: Bytes, l: Layout, w: nat)
    ensures Prepend(done, ParseElements(s, 0, l, w)) == Done(done, s)
  {
    assert done + [] == done;
  }

  // The list made for n elements, all empty.
  function Slots(n: nat): (es: seq<IOElement<Value>>)
    ensures |es| == n
    ensures forall i :: 0 <= i < n ==> es[i].value.Nil?
  {
    seq(n, _ => IOElement(0, Nil))
  }

  lemma NoArrays(n: nat, reader: ByteReader, lo: nat, hi: nat)
    ensures Arrays(Slots(n)) == {} && Increasing(Slots(n), reader.input, lo, hi)
  {}

  // Reads the groups for widths 1, 2, 4 and 8.
  method DecodeGroups(reader: ByteReader, l: Layout, ioCount: nat)
    returns (r: Option<(seq<IOElement<Value>>, nat)>)
    requires reader.Valid()
    modifies reader`pos
    ensures reader.Valid() && reader.pos >= old(reader.pos)
    ensures match ParseGroups(old(reader.Remaining()), l, 1, ioCount)
            case Done(gs, rest) =>
              && r.Some? && reader.Remaining() == rest
              && |r.value.0| == ioCount && r.value.1 == Total(gs)
              && ElementsContents(r.value.0[..r.value.1]) == Flatten(gs)
              && r.value.0[r.value.1..] == Slots(ioCount)[r.value.1..]
            case Fail => r.None?
    ensures r.Some? && reader.allocOnRead ==> fresh(Arrays(r.value.0))
    ensures r.Some? && !reader.allocOnRead ==>
      Increasing(r.value.0, reader.input, reader.base + old(reader.pos), reader.base + reader.pos)
  {
    hide ElementsContents, ParseGroup, ParseGroups, Increasing, Arrays, Prepend, Slots, Total, Flatten;
    ghost var s0 := reader.Remaining();
    ghost var start := reader.pos;
    ghost var done: seq<seq<Element>> := [];
    var elements: seq<IOElement<Value>>, k := Slots(ioCount), 0;
    NoArrays(ioCount, reader, reader.base + start, reader.base + start);
    PrependNone(ParseGroups(s0, l, 1, ioCount));
    NoneDone(elements);
    var i := 1;
    while i <= 8
      invariant 1 <= i <= 16 && reader.Valid() && reader.pos >= start
      invariant |elements| == ioCount && k == Total(done) <= ioCount
      invariant ParseGroups(s0, l, 1, ioCount) == Prepend(done, ParseGroups(reader.Remaining(), l, i, ioCount - k))
      invariant ElementsContents(elements[..k]) == Flatten(done)
      invariant elements[k..] == Slots(ioCount)[k..]
      invariant reader.allocOnRead ==> fresh(Arrays(elements))
      invariant !reader.allocOnRead ==>
        Increasing(elements, reader.input, reader.base + start, reader.base + reader.pos)
      decreases 16 - i
    {
      ghost var s, before, from := reader.Remaining(), elements, k;
      GroupStep(done, s, l, i, ioCount - k);
      SuffixSlots(elements, ioCount, k);
      var group :- DecodeGroup(reader, l, i, elements, k, start);
      elements, k := group.0, group.1;
      ghost var g := ParseGroup(s, l, i, ioCount - from).value;
      SuffixOfSuffix(before, elements, ioCount, from, k);
      FlattenSnoc(done, g);
      done := done + [g];
      i := i * 2;
    }
    GroupsEnd(done, reader.Remaining(), l, i, ioCount - k);
    return Some((elements, k));
  }

  lemma NoneDone(es: seq<IOElement<Value>>)
    ensures ElementsContents(es[..0]) == [] && Total([]) == 0 && Flatten([]) == []
  {}

  lemma SuffixSlots(es: seq<IOElement<Value>>, n: nat, k: nat)
    requires k <= |es| == n && es[k..] == Slots(n)[k..]
    ensures forall i :: k <= i < n ==> es[i].value.Nil?
  {
    assert forall i :: k <= i < n ==> es[i] == es[k..][i - k] == Slots(n)[i];
  }

  lemma SuffixOfSuffix(before: seq<IOElement<Value>>, es: seq<IOElement<Value>>, n: nat, from: nat, k: nat)
    requires from <= k <= n == |before| == |es|
    requires before[from..] == Slots(n)[from..] && es[k..] == before[k..]
    ensures es[k..] == Slots(n)[k..]
  {
    assert before[k..] == before[from..][k - from..];
    assert Slots(n)[k..] == Slots(n)[from..][k - from..];
  }

  lemma {:induction false} FlattenSnoc(gs: seq<seq<Element>>, g: seq<Element>)
    ensures Total(gs + [g]) == Total(gs) + |g| && Flatten(gs + [g]) == Flatten(gs) + g
    decreases |gs|
  {
    if gs == [] {
      assert gs + [g] == [g];
    } else {
      assert (gs + [g])[1..] == gs[1..] + [g];
      FlattenSnoc(gs[1..], g);
    }
  }

  // One group read, the wider ones to go.
  lemma GroupStep(done: seq<seq<Element>>, s: Bytes, l: Layout, w: nat, room: nat)
    requires 0 < w <= 8
    ensures Prepend(done, ParseGroups(s, l, w, room))
            == match ParseGroup(s, l, w, room)
               case Done(g, rest) => Prepend(done + [g], ParseGroups(rest, l, 2 * w, room - |g|))
               case Fail => Fail
  {
    hide ParseGroup, Total;
    match ParseGroup(s, l, w, room)
    case Fail =>
    case Done(g, rest) =>
      var more := ParseGroups(rest, l, 2 * w, room - |g|);
      assert ParseGroups(s, l, w, room) == Prepend([g], more);
      PrependTwice(done, g, more);
  }

  lemma PrependTwice<T>(done: seq<T>, x: T, p: Parsed<seq<T>>)
    ensures Prepend(done, Prepend([x], p)) == Prepend(done + [x], p)
  {
    if p.Done? {
      assert done + ([x] + p.value) == done + [x] + p.value;
    }
  }

  lemma GroupsEnd(done: seq<seq<Element>>, s: Bytes, l: Layout, w: nat, room: nat)
    requires w > 8
    ensures Prepend(done, ParseGroups(s, l, w, room)) == Done(done, s)
  {
    assert done + [] == done;
  }

  // Reads an id, a length and a value of that length.
  method ReadVarElement(reader: ByteReader) returns (r: Option<IOElement<Value>>)
    requires reader.Valid()
    modifies reader`pos
    ensures reader.Valid() && reader.pos >= old(reader.pos)
    ensures match ParseVarElement(old(reader.Remaining()))
            case Done(e, rest) =>
              && r.Some? && r.value.value.View? && ElementContents(r.value) == e && reader.Remaining() == rest
            case Fail => r.None?
    ensures r.Some? && reader.allocOnRead ==> fresh(r.value.value.arr)
    ensures r.Some? && !reader.allocOnRead ==> InInput(r.value.value, reader, old(reader.pos), reader.pos)
  {
    hide ParseUint, Take, Pow256;
    var id :- reader.ReadUInt16BE();
    var length :- reader.ReadUInt16BE();
    var value :- reader.ReadBytes(length);
    return Some(IOElement(id, value));
  }

  // Reads n elements of the variable-length group into the slots from k on, as far as there are slots.
  method DecodeVarElements(reader: ByteReader, n: nat, elements: seq<IOElement<Value>>, k: nat, ghost start: nat)
    returns (r: Option<seq<IOElement<Value>>>)
    requires reader.Valid() && k <= |elements| && start <= reader.pos
    requires forall i :: k <= i < |elements| ==> elements[i].value.Nil?
    requires !reader.allocOnRead ==> Increasing(elements, reader.input, reader.base + start, reader.base + reader.pos)
    modifies reader`pos
    ensures reader.Valid() && reader.pos >= old(reader.pos)
    ensures r.Some? <==> k + n <= |elements| && ParseVarElements(old(reader.Remaining()), n).Done?
    ensures r.Some? ==>
      var p := ParseVarElements(old(reader.Remaining()), n);
      && reader.Remaining() == p.rest && |r.value| == |elements|
      && ElementsContents(r.value[..k + n]) == old(ElementsContents(elements[..k])) + p.value
      && r.value[k + n..] == elements[k + n..]
    ensures r.Some? && reader.allocOnRead ==> forall a :: a in Arrays(r.value) ==> a in Arrays(elements) || fresh(a)
    ensures r.Some? && !reader.allocOnRead ==>
      Increasing(r.value, reader.input, reader.base + start, reader.base + reader.pos)
  {
    hide ElementsContents, ParseVarElement, ParseVarElements, Prepend, Increasing, Arrays, InInput;
    ghost var head := ElementsContents(elements[..k]);
    var es: seq<IOElement<Value>>, at := elements, k;
    ghost var s1 := reader.Remaining();
    ghost var done: seq<Element> := [];
    PrependNone(ParseVarElements(s1, n));
    for i := 0 to n
      invariant reader.Valid() && reader.pos >= old(reader.pos)
      invariant |es| == |elements| && at == k + i <= |elements|
      invariant ParseVarElements(s1, n) == Prepend(done, ParseVarElements(reader.Remaining(), n - i))
      invariant ElementsContents(es[..at]) == head + done
      invariant es[at..] == elements[at..]
      invariant reader.allocOnRead ==> forall a :: a in Arrays(es) ==> a in Arrays(elements) || fresh(a)
      invariant !reader.allocOnRead ==> Increasing(es, reader.input, reader.base + start, reader.base + reader.pos)
    {
      ghost var mid := reader.pos;
      ghost var soFar := ElementsContents(es[..at]);
      VarElementsStep(done, reader.Remaining(), n - i);
      var e := ReadVarElement(reader);
      if e.None? {
        return None;
      }
      assert ElementsContents(es[..at]) == soFar;
      if at >= |es| {
        return None;
      }
      StoreElement(es, elements, at, e.value, es[at := e.value]);
      if !reader.allocOnRead {
        StoreView(es, elements, at, e.value, es[at := e.value], reader, start, mid, reader.pos);
      }
      es := es[at := e.value];
      done := done + [ElementContents(e.value)];
      at := at + 1;
    }
    VarElementsEnd(done, reader.Remaining());
    return Some(es);
  }

  // Reads the variable-length group of codec 8E into the slots from k on.
  method DecodeVariable(reader: ByteReader, l: Layout, elements: seq<IOElement<Value>>, k: nat, ghost start: nat)
    returns (r: Option<(seq<IOElement<Value>>, nat)>)
    requires reader.Valid() && k <= |elements| && start <= reader.pos && l.variable
    requires forall i :: k <= i < |elements| ==> elements[i].value.Nil?
    requires !reader.allocOnRead ==> Increasing(elements, reader.input, reader.base + start, reader.base + reader.pos)
    modifies reader`pos
    ensures reader.Valid() && reader.pos >= old(reader.pos)
    ensures match ParseVariable(old(reader.Remaining()), l, |elements| - k)
            case Done(g, rest) =>
              && r.Some? && reader.Remaining() == rest
              && |r.value.0| == |elements| && r.value.1 == k + |g| <= |elements|
              && ElementsContents(r.value.0[..r.value.1]) == old(ElementsContents(elements[..k])) + g
              && r.value.0[r.value.1..] == elements[r.value.1..]
            case Fail => r.None?
    ensures r.Some? && reader.allocOnRead ==> forall a :: a in Arrays(r.value.0) ==> a in Arrays(elements) || fresh(a)
    ensures r.Some? && !reader.allocOnRead ==>
      Increasing(r.value.0, reader.input, reader.base + start, reader.base + reader.pos)
  {
    hide ParseUint, ElementsContents, Pow256, ParseVarElements, Increasing, Arrays;
    ghost var head := ElementsContents(elements[..k]);
    ghost var from := reader.pos;
    var ioCountNX :- reader.ReadUInt16BE();
    assert ElementsContents(elements[..k]) == head;
    if !reader.allocOnRead {
      IncreasingWiden(elements, reader.input, reader.base + start, reader.base + from, reader.base + reader.pos);
    }
    var es :- DecodeVarElements(reader, ioCountNX, elements, k, start);
    return Some((es, k + ioCountNX));
  }

  lemma VarElementsStep(done: seq<Element>, s: Bytes, n: nat)
    requires n > 0
    ensures Prepend(done, ParseVarElements(s, n))
            == match ParseVarElement(s)
               case Done(e, rest) => Prepend(done + [e], ParseVarElements(rest, n - 1))
               case Fail => Fail
  {
    hide ParseVarElement;
    match ParseVarElement(s)
    case Fail =>
    case Done(e, rest) =>
      assert ParseVarElements(s, n) == Prepend([e], ParseVarElements(rest, n - 1));
      PrependTwice(done, e, ParseVarElements(rest, n - 1));
  }

  lemma VarElementsEnd(done: seq<Element>, s: Bytes)
    ensures Prepend(done, ParseVarElements(s, 0)) == Done(done, s)
  {
    assert done + [] == done;
  }

  // ---------------------------------------------------------------- element blocks

  // The record d0 with the fields of the element block filled in.
  ghost predicate BlockDecoded(d0: Data<Value>, d: Data<Value>, b: Block)
    reads Arrays(d.elements)
  {
    && d == d0.(eventID := b.eventID, generationType := b.generationType, elements := d.elements)
    && ElementsContents(d.elements) == BlockElements(b)
  }

  // The filled slots and the empty tail are the block's elements.
  lemma FilledSlots(es: seq<IOElement<Value>>, k: nat, b: Block)
    requires Total(b.groups) + |b.variable| == k <= b.ioCount == |es|
    requires ElementsContents(es[..k]) == Flatten(b.groups) + b.variable
    requires es[k..] == Slots(b.ioCount)[k..]
    ensures ElementsContents(es) == BlockElements(b)
  {
    hide Total, Flatten;
    var cs := ElementsContents(es);
    PrefixContents(es, k);
    forall i | k <= i < |es| ensures cs[i] == IOElement(0, []) {
      assert es[i] == es[k..][i - k] == Slots(b.ioCount)[i];
    }
    assert cs == cs[..k] + Blank(|es| - k);
  }

  lemma PrefixContents(es: seq<IOElement<Value>>, k: nat)
    requires k <= |es|
    ensures ElementsContents(es[..k]) == ElementsContents(es)[..k]
  {
    assert forall i :: 0 <= i < k ==> es[..k][i] == es[i];
  }

  // Makes ioCount slots and fills them from the groups and, for codec 8E, the variable-length group.
  method DecodeBlockBody(reader: ByteReader, l: Layout, ioCount: nat, ghost eventID: uint16, ghost generationType: byte)
    returns (r: Option<seq<IOElement<Value>>>)
    requires reader.Valid()
    modifies reader`pos
    ensures reader.Valid() && reader.pos >= old(reader.pos)
    ensures match ParseBlockBody(old(reader.Remaining()), l, ioCount)
            case Done((groups, variable), rest) =>
              && r.Some? && reader.Remaining() == rest
              && ElementsContents(r.value) == BlockElements(Block(eventID, generationType, ioCount, groups, variable))
            case Fail => r.None?
    ensures r.Some? && reader.allocOnRead ==> fresh(Arrays(r.value))
    ensures r.Some? && !reader.allocOnRead ==>
      Increasing(r.value, reader.input, reader.base + old(reader.pos), reader.base + reader.pos)
  {
    hide ParseGroups, ParseVariable, ElementsContents, Increasing, Arrays, Slots, Total, Flatten, BlockElements;
    ghost var s0, start := reader.Remaining(), reader.pos;
    var filled :- DecodeGroups(reader, l, ioCount);
    ghost var groups := ParseGroups(s0, l, 1, ioCount).value;
    ghost var variable: seq<Element> := [];
    if l.variable {
      SuffixSlots(filled.0, ioCount, filled.1);
      ghost var s1, before := reader.Remaining(), filled;
      filled :- DecodeVariable(reader, l, filled.0, filled.1, start);
      variable := ParseVariable(s1, l, ioCount - before.1).value;
      SuffixOfSuffix(before.0, filled.0, ioCount, before.1, filled.1);
    } else {
      NoVariable(reader.Remaining(), l, ioCount - filled.1);
      assert Flatten(groups) + [] == Flatten(groups);
    }
    FilledSlots(filled.0, filled.1, Block(eventID, generationType, ioCount, groups, variable));
    return Some(filled.0);
  }

  lemma NoVariable(s: Bytes, l: Layout, room: nat)
    requires !l.variable
    ensures ParseVariable(s, l, room) == Done([], s)
  {}

  method DecodeElementsCodec8(reader: ByteReader, data: Data<Value>) returns (r: Option<Data<Value>>)
    requires reader.Valid()
    modifies reader`pos
    ensures reader.Valid() && reader.pos >= old(reader.pos)
    ensures match ParseBlock(old(reader.Remaining()), LayoutOf(CODEC_8))
            case Done(b, rest) => r.Some? && reader.Remaining() == rest && BlockDecoded(data, r.value, b)
            case Fail => r.None?
    ensures r.Some? && reader.allocOnRead ==> fresh(Arrays(r.value.elements))
    ensures r.Some? && !reader.allocOnRead ==>
      Increasing(r.value.elements, reader.input, reader.base + old(reader.pos), reader.base + reader.pos)
  {
    hide ParseUint, Pow256, ParseBlockBody, ElementsContents, Increasing, Arrays, BlockElements;
    ghost var s0 := reader.Remaining();
    var eventId :- reader.ReadUInt8BE();
    var ioCount :- reader.ReadUInt8BE();
    assert ParseBlockHeader(s0, LayoutOf(CODEC_8)) == Done((eventId, UNKNOWN_GENERATION, ioCount), reader.Remaining());
    ghost var mid := reader.pos;
    var elements :- DecodeBlockBody(reader, LayoutOf(CODEC_8), ioCount, eventId, UNKNOWN_GENERATION);
    if !reader.allocOnRead {
      IncreasingLower(elements, reader.input, reader.base + old(reader.pos), reader.base + mid,
                      reader.base + reader.pos);
    }
    return Some(data.(generationType := UNKNOWN_GENERATION, eventID := eventId, elements := elements));
  }

  method DecodeElementsCodec16(reader: ByteReader, data: Data<Value>) returns (r: Option<Data<Value>>)
    requires reader.Valid()
    modifies reader`pos
    ensures reader.Valid() && reader.pos >= old(reader.pos)
    ensures match ParseBlock(old(reader.Remaining()), LayoutOf(CODEC_16))
            case Done(b, rest) => r.Some? && reader.Remaining() == rest && BlockDecoded(data, r.value, b)
            case Fail => r.None?
    ensures r.Some? && reader.allocOnRead ==> fresh(Arrays(r.value.elements))
    ensures r.Some? && !reader.allocOnRead ==>
      Increasing(r.value.elements, reader.input, reader.base + old(reader.pos), reader.base + reader.pos)
  {
    hide ParseUint, Pow256, ParseBlockBody, ElementsContents, Increasing, Arrays, BlockElements;
    ghost var s0 := reader.Remaining();
    var eventId :- reader.ReadUInt16BE();
    var generationType :- reader.ReadUInt8BE();
    var ioCount :- reader.ReadUInt8BE();
    if generationType > 7 {
      return None;
    }
    assert ParseBlockHeader(s0, LayoutOf(CODEC_16)) == Done((eventId, generationType, ioCount), reader.Remaining());
    ghost var mid := reader.pos;
    var elements :- DecodeBlockBody(reader, LayoutOf(CODEC_16), ioCount, eventId, generationType);
    if !reader.allocOnRead {
      IncreasingLower(elements, reader.input, reader.base + old(reader.pos), reader.base + mid,
                      reader.base + reader.pos);
    }
    return Some(data.(generationType := generationType, eventID := eventId, elements := elements));
  }

  method DecodeElementsCodec8E(reader: ByteReader, data: Data<Value>) returns (r: Option<Data<Value>>)
    requires reader.Valid()
    modifies reader`pos
    ensures reader.Valid() && reader.pos >= old(reader.pos)
    ensures match ParseBlock(old(reader.Remaining()), LayoutOf(CODEC_8E))
            case Done(b, rest) => r.Some? && reader.Remaining() == rest && BlockDecoded(data, r.value, b)
            case Fail => r.None?
    ensures r.Some? && reader.allocOnRead ==> fresh(Arrays(r.value.elements))
    ensures r.Some? && !reader.allocOnRead ==>
      Increasing(r.value.elements, reader.input, reader.base + old(reader.pos), reader.base + reader.pos)
  {
    hide ParseUint, Pow256, ParseBlockBody, ElementsContents, Increasing, Arrays, BlockElements;
    ghost var s0 := reader.Remaining();
    var eventId :- reader.ReadUInt16BE();
    var ioCount :- reader.ReadUInt16BE();
    assert ParseBlockHeader(s0, LayoutOf(CODEC_8E)) == Done((eventId, UNKNOWN_GENERATION, ioCount), reader.Remaining());
    ghost var mid := reader.pos;
    var elements :- DecodeBlockBody(reader, LayoutOf(CODEC_8E), ioCount, eventId, UNKNOWN_GENERATION);
    if !reader.allocOnRead {
      IncreasingLower(elements, reader.input, reader.base + old(reader.pos), reader.base + mid,
                      reader.base + reader.pos);
    }
    return Some(data.(generationType := UNKNOWN_GENERATION, eventID := eventId, elements := elements));
  }

  // ---------------------------------------------------------------- data records

  const NO_DATA: Data<Value> := Data(0, 0, 0, 0, 0, 0, 0, 0, 0, 0, [])

  // The record with the position fields filled in.
  function WithPosition(d: Data<Value>, p: Position): Data<Value> {
    d.(timestampMs := p.timestampMs, lng := p.lng, lat := p.lat, altitude := p.altitude, angle := p.angle,
       speed := p.speed, satellites := p.satellites, priority := p.priority)
  }

  method DecodePosition(reader: ByteReader, data: Data<Value>) returns (r: Option<Data<Value>>)
    requires reader.Valid()
    modifies reader`pos
    ensures reader.Valid() && reader.pos >= old(reader.pos)
    ensures match ParsePosition(old(reader.Remaining()))
            case Done(p, rest) => r == Some(WithPosition(data, p)) && reader.Remaining() == rest
            case Fail => r.None?
  {
    hide ParseUint, Pow256;
    var timestampMs :- reader.ReadUInt64BE();
    var priority :- reader.ReadUInt8BE();
    var lng :- reader.ReadInt32BE();
    var lat :- reader.ReadInt32BE();
    var altitude :- reader.ReadInt16BE();
    var angle :- reader.ReadUInt16BE();
    var satellites :- reader.ReadUInt8BE();
    var speed :- reader.ReadUInt16BE();
    return Some(data.(timestampMs := timestampMs, lng := lng, lat := lat, altitude := altitude, angle := angle,
                      speed := speed, satellites := satellites, priority := priority));
  }

  method DecodeData(codecId: byte, reader: ByteReader, data: Data<Value>) returns (r: Option<Data<Value>>)
    requires reader.Valid()
    modifies reader`pos
    ensures reader.Valid() && reader.pos >= old(reader.pos)
    ensures !IsDataCodec(codecId) ==> r.None?
    ensures IsDataCodec(codecId) ==>
      match ParseRecord(old(reader.Remaining()), LayoutOf(codecId))
      case Done(record, rest) =>
        && r.Some? && reader.Remaining() == rest && DataContents(r.value) == RecordData(record)
        && r.value.timestampMs == record.position.timestampMs && r.value.priority == record.position.priority
        && r.value.lng == record.position.lng && r.value.lat == record.position.lat
        && r.value.altitude == record.position.altitude && r.value.angle == record.position.angle
        && r.value.satellites == record.position.satellites && r.value.speed == record.position.speed
        && r.value.eventID == record.block.eventID && r.value.generationType == record.block.generationType
        && ElementsContents(r.value.elements) == BlockElements(record.block)
      case Fail => r.None?
    ensures r.Some? && reader.allocOnRead ==> fresh(Arrays(r.value.elements))
    ensures r.Some? && !reader.allocOnRead ==>
      Increasing(r.value.elements, reader.input, reader.base + old(reader.pos), reader.base + reader.pos)
  {
    hide ParsePosition, ParseBlock, Increasing, Arrays, ElementsContents, BlockElements;
    var positioned :- DecodePosition(reader, data);
    ghost var mid := reader.pos;
    if codecId == CODEC_8 {
      r := DecodeElementsCodec8(reader, positioned);
    } else if codecId == CODEC_8E {
      r := DecodeElementsCodec8E(reader, positioned);
    } else if codecId == CODEC_16 {
      r := DecodeElementsCodec16(reader, positioned);
    } else {
      return None;
    }
    if r.Some? && !reader.allocOnRead {
      IncreasingLower(r.value.elements, reader.input, reader.base + old(reader.pos), reader.base + mid,
                      reader.base + reader.pos);
    }
  }

  // ---------------------------------------------------------------- commands

  const NO_MESSAGE := Message(0, 0, [], [])

  method DecodeCommand(codecId: byte, reader: ByteReader, data: Message) returns (r: Option<Message>)
    requires reader.Valid() && data == NO_MESSAGE
    modifies reader`pos
    ensures reader.Valid() && reader.pos >= old(reader.pos)
    ensures match ParseCommand(old(reader.Remaining()), codecId)
            case Done(c, rest) => r == Some(CommandMessage(c, codecId)) && reader.Remaining() == rest
            case Fail => r.None?
  {
    hide ParseUint, Pow256, Take, Imei.UnpackImei, WrapSub, IsMessageType;
    Widths();
    var commandType :- reader.ReadUInt8BE();
    RejectedTypes(codecId, commandType);
    if Rejected(codecId, commandType) {
      return None;
    }
    var message := data.(messageType := commandType);
    var commandSize :- reader.ReadUInt32BE();
    WrapSubTwice(commandSize);
    if codecId == CODEC_13 || codecId == CODEC_15 {
      var timestamp :- reader.ReadUInt32BE();
      message := message.(timestamp := timestamp);
      commandSize := WrapSub(commandSize, 4);
    }
    if codecId == CODEC_14 || codecId == CODEC_15 {
      var imei :- reader.ReadBytes(8);
      message := message.(imei := Imei.UnpackImei(Contents(imei)));
      commandSize := WrapSub(commandSize, 8);
    }
    var command :- reader.ReadBytes(commandSize);
    return Some(message.(text := Contents(command)));
  }

  lemma WrapSubTwice(size: uint32)
    ensures WrapSub(size, 0) == size && WrapSub(WrapSub(size, 4), 8) == WrapSub(size, 12)
  {}

  // ---------------------------------------------------------------- packets

  // The packet a decoder fills in.
  class PacketTarget {
    var codecID: byte
    var data: Option<seq<Data<Value>>>
    var messages: Option<seq<Message>>

    constructor ()
      ensures data == None && messages == None
    {
      codecID, data, messages := 0, None, None;
    }

    function Packet(): Packet<Value>
      reads this
    {
      Model.Packet(codecID, data, messages)
    }
  }

  lemma {:induction false} RecordsDataSnoc(rs: seq<Record>, r: Record)
    ensures RecordsData(rs + [r]) == RecordsData(rs) + [RecordData(r)]
    decreases |rs|
  {
    hide RecordData;
    if rs == [] {
      assert rs + [r] == [r];
    } else {
      assert (rs + [r])[1..] == rs[1..] + [r];
      RecordsDataSnoc(rs[1..], r);
    }
  }

  lemma {:induction false} CommandMessagesSnoc(cs: seq<Command>, c: Command, codec: byte)
    ensures CommandMessages(cs + [c], codec) == CommandMessages(cs, codec) + [CommandMessage(c, codec)]
    decreases |cs|
  {
    hide CommandMessage;
    if cs == [] {
      assert cs + [c] == [c];
    } else {
      assert (cs + [c])[1..] == cs[1..] + [c];
      CommandMessagesSnoc(cs[1..], c, codec);
    }
  }

  lemma RecordsStep(done: seq<Record>, s: Bytes, n: nat, l: Layout)
    requires n > 0
    ensures Prepend(done, ParseRecords(s, n, l))
            == match ParseRecord(s, l)
               case Done(r, rest) => Prepend(done + [r], ParseRecords(rest, n - 1, l))
               case Fail => Fail
  {
    hide ParseRecord;
    match ParseRecord(s, l)
    case Fail =>
    case Done(r, rest) =>
      assert ParseRecords(s, n, l) == Prepend([r], ParseRecords(rest, n - 1, l));
      PrependTwice(done, r, ParseRecords(rest, n - 1, l));
  }

  lemma RecordsEnd(done: seq<Record>, s: Bytes, l: Layout)
    ensures Prepend(done, ParseRecords(s, 0, l)) == Done(done, s)
  {
    assert done + [] == done;
  }

  lemma CommandsStep(done: seq<Command>, s: Bytes, n: nat, codec: byte)
    requires n > 0
    ensures Prepend(done, ParseCommands(s, n, codec))
            == match ParseCommand(s, codec)
               case Done(c, rest) => Prepend(done + [c], ParseCommands(rest, n - 1, codec))
               case Fail => Fail
  {
    hide ParseCommand;
    match ParseCommand(s, codec)
    case Fail =>
    case Done(c, rest) =>
      assert ParseCommands(s, n, codec) == Prepend([c], ParseCommands(rest, n - 1, codec));
      PrependTwice(done, c, ParseCommands(rest, n - 1, codec));
  }

  lemma CommandsEnd(done: seq<Command>, s: Bytes, codec: byte)
    ensures Prepend(done, ParseCommands(s, 0, codec)) == Done(done, s)
  {
    assert done + [] == done;
  }

  // Stores a decoded record in slot i.
  lemma StoreRecord(ds: seq<Data<Value>>, i: nat, d: Data<Value>, t: seq<Data<Value>>)
    requires i < |ds| && t == ds[i := d]
    ensures AllContents(t[..i + 1]) == AllContents(ds[..i]) + [DataContents(d)]
    ensures AllElements(t[..i + 1]) == AllElements(ds[..i]) + d.elements
    ensures Arrays(AllElements(t[..i + 1])) == Arrays(AllElements(ds[..i])) + Arrays(d.elements)
  {
    hide ElementsContents;
    assert t[..i + 1][..i] == ds[..i];
  }

  // Fills packet.data with dataCount records.
  method DecodeRecords(reader: ByteReader, packet: PacketTarget, dataCount: nat) returns (ok: bool)
    requires reader.Valid() && IsDataCodec(packet.codecID)
    modifies reader`pos, packet`data
    ensures reader.Valid() && reader.pos >= old(reader.pos)
    ensures match ParseRecords(old(reader.Remaining()), dataCount, LayoutOf(packet.codecID))
            case Done(rs, rest) =>
              ok && reader.Remaining() == rest && packet.data.Some? && AllContents(packet.data.value) == RecordsData(rs)
            case Fail => !ok
    ensures ok && reader.allocOnRead ==> fresh(Arrays(AllElements(packet.data.value)))
    ensures ok && !reader.allocOnRead ==>
      Increasing(AllElements(packet.data.value), reader.input, reader.base + old(reader.pos), reader.base + reader.pos)
  {
    hide ParseRecord, ParseRecords, Increasing, Arrays, AllContents, AllElements, DataContents, RecordData, RecordsData;
    hide Prepend, ElementsContents, BlockElements, LayoutOf;
    ghost var l := LayoutOf(packet.codecID);
    ghost var s0 := reader.Remaining();
    ghost var start := reader.pos;
    ghost var done: seq<Record> := [];
    packet.data := Some(seq(dataCount, _ => NO_DATA));
    PrependNone(ParseRecords(s0, dataCount, l));
    NoRecords(packet.data.value, reader, start);
    for i := 0 to dataCount
      invariant reader.Valid() && reader.pos >= start
      invariant packet.data.Some? && |packet.data.value| == dataCount && packet.codecID == old(packet.codecID)
      invariant ParseRecords(s0, dataCount, l) == Prepend(done, ParseRecords(reader.Remaining(), dataCount - i, l))
      invariant AllContents(packet.data.value[..i]) == RecordsData(done)
      invariant reader.allocOnRead ==> fresh(Arrays(AllElements(packet.data.value[..i])))
      invariant !reader.allocOnRead ==>
        Increasing(AllElements(packet.data.value[..i]), reader.input, reader.base + start, reader.base + reader.pos)
    {
      ghost var s, mid, ds := reader.Remaining(), reader.pos, packet.data.value;
      ghost var soFar := AllContents(ds[..i]);
      ArraysAllocated(ds[..i]);
      RecordsStep(done, s, dataCount - i, l);
      var d := DecodeData(packet.codecID, reader, packet.data.value[i]);
      if d.None? {
        return false;
      }
      assert AllContents(ds[..i]) == soFar;
      ghost var r := ParseRecord(s, l).value;
      StoreRecord(ds, i, d.value, ds[i := d.value]);
      RecordsDataSnoc(done, r);
      if !reader.allocOnRead {
        IncreasingAppend(AllElements(ds[..i]), d.value.elements, reader.input,
                         reader.base + start, reader.base + mid, reader.base + reader.pos);
      }
      packet.data := Some(packet.data.value[i := d.value]);
      done := done + [r];
    }
    RecordsEnd(done, reader.Remaining(), l);
    assert packet.data.value[..dataCount] == packet.data.value;
    return true;
  }

  lemma NoRecords(ds: seq<Data<Value>>, reader: ByteReader, start: nat)
    ensures AllContents(ds[..0]) == RecordsData([]) && Arrays(AllElements(ds[..0])) == {}
    ensures Increasing(AllElements(ds[..0]), reader.input, reader.base + start, reader.base + start)
  {}

  // Fills packet.messages with dataCount messages.
  method DecodeCommands(reader: ByteReader, packet: PacketTarget, dataCount: nat) returns (ok: bool)
    requires reader.Valid()
    modifies reader`pos, packet`messages
    ensures reader.Valid() && reader.pos >= old(reader.pos)
    ensures match ParseCommands(old(reader.Remaining()), dataCount, packet.codecID)
            case Done(cs, rest) =>
              ok && reader.Remaining() == rest && packet.messages == Some(CommandMessages(cs, packet.codecID))
            case Fail => !ok
  {
    hide ParseCommand, ParseCommands, CommandMessage, CommandMessages, Prepend;
    ghost var codec := packet.codecID;
    ghost var s0 := reader.Remaining();
    ghost var done: seq<Command> := [];
    packet.messages := Some(seq(dataCount, _ => NO_MESSAGE));
    PrependNone(ParseCommands(s0, dataCount, codec));
    NoCommands(codec);
    for i := 0 to dataCount
      invariant reader.Valid() && reader.pos >= old(reader.pos)
      invariant packet.messages.Some? && |packet.messages.value| == dataCount && packet.codecID == codec
      invariant ParseCommands(s0, dataCount, codec)
                == Prepend(done, ParseCommands(reader.Remaining(), dataCount - i, codec))
      invariant packet.messages.value[..i] == CommandMessages(done, codec)
      invariant forall j :: i <= j < dataCount ==> packet.messages.value[j] == NO_MESSAGE
    {
      ghost var s := reader.Remaining();
      CommandsStep(done, s, dataCount - i, codec);
      var m := DecodeCommand(packet.codecID, reader, packet.messages.value[i]);
      if m.None? {
        return false;
      }
      ghost var c := ParseCommand(s, codec).value;
      CommandMessagesSnoc(done, c, codec);
      ghost var ms := packet.messages.value;
      packet.messages := Some(packet.messages.value[i := m.value]);
      assert packet.messages.value[..i + 1] == ms[..i] + [m.value];
      done := done + [c];
    }
    CommandsEnd(done, reader.Remaining(), codec);
    assert packet.messages.value[..dataCount] == packet.messages.value;
    return true;
  }

  lemma NoCommands(codec: byte)
    ensures CommandMessages([], codec) == []
  {}

  // The items a codec carries, into the list that belongs to it.
  method DecodeItems(reader: ByteReader, packet: PacketTarget, dataCount: nat) returns (ok: bool)
    requires reader.Valid() && IsCodecSupported(packet.codecID) && packet.data == None && packet.messages == None
    modifies reader`pos, packet
    ensures reader.Valid() && reader.pos >= old(reader.pos)
    ensures match ParseItems(old(reader.Remaining()), old(packet.codecID), dataCount)
            case Done(tree, rest) =>
              && ok && reader.Remaining() == rest && PacketContents(packet.Packet()) == Meaning(tree)
            case Fail => !ok
    ensures ok && reader.allocOnRead ==> fresh(Arrays(PacketElements(packet.Packet())))
    ensures ok && !reader.allocOnRead ==>
      Increasing(PacketElements(packet.Packet()), reader.input, reader.base + old(reader.pos), reader.base + reader.pos)
  {
    hide ParseRecords, ParseCommands, AllContents, AllElements, Increasing, Arrays;
    if IsCMDCodecId(packet.codecID) {
      ok := DecodeCommands(reader, packet, dataCount);
      NoElements(reader.input, reader.base + old(reader.pos), reader.base + reader.pos);
    } else {
      ok := DecodeRecords(reader, packet, dataCount);
    }
  }

  // The fields of a decoded packet are those of the tree it stands for.
  lemma FieldsOf(p: Packet<Value>, tree: Tree)
    requires PacketContents(p) == Meaning(tree)
    ensures p.codecID == tree.codec && p.data.Some? == tree.DataTree? && p.messages.Some? == tree.CommandTree?
    ensures match tree
      case DataTree(_, records) =>
        && |p.data.value| == |records|
        && forall i :: 0 <= i < |records| ==>
          var d, r := p.data.value[i], records[i];
          && d.timestampMs == r.position.timestampMs && d.priority == r.position.priority
          && d.lng == r.position.lng && d.lat == r.position.lat
          && d.altitude == r.position.altitude && d.angle == r.position.angle
          && d.satellites == r.position.satellites && d.speed == r.position.speed
          && d.eventID == r.block.eventID && d.generationType == r.block.generationType
          && ElementsContents(d.elements) == BlockElements(r.block)
      case CommandTree(codec, commands) =>
        && |p.messages.value| == |commands|
        && forall i :: 0 <= i < |commands| ==>
          var m, c := p.messages.value[i], commands[i];
          && m.messageType == c.messageType && m.timestamp == c.timestamp && m.text == c.text
          && m.imei == if codec == 0x0E || codec == 0x0F then Imei.UnpackImei(c.imei) else []
  {
    hide ElementsContents, BlockElements, AllContents, RecordsData, CommandMessages, Imei.UnpackImei;
    match tree
    case DataTree(_, records) =>
      AllContentsAt(p.data.value);
      RecordsDataAt(records);
      assert forall i :: 0 <= i < |records| ==>
        DataContents(p.data.value[i]) == AllContents(p.data.value)[i] == RecordData(records[i]);
    case CommandTree(codec, commands) => CommandMessagesAt(commands, codec);
  }

  lemma {:induction false} RecordsDataAt(rs: seq<Record>)
    ensures forall i :: 0 <= i < |rs| ==> RecordsData(rs)[i] == RecordData(rs[i])
  {
    hide RecordData;
    if rs != [] {
      RecordsDataAt(rs[1..]);
      assert forall i :: 0 < i < |rs| ==> RecordsData(rs)[i] == RecordsData(rs[1..])[i - 1] && rs[i] == rs[1..][i - 1];
    }
  }

  lemma {:induction false} CommandMessagesAt(cs: seq<Command>, codec: byte)
    ensures forall i :: 0 <= i < |cs| ==> CommandMessages(cs, codec)[i] == CommandMessage(cs[i], codec)
  {
    hide CommandMessage;
    if cs != [] {
      CommandMessagesAt(cs[1..], codec);
      assert forall i :: 0 < i < |cs| ==>
        CommandMessages(cs, codec)[i] == CommandMessages(cs[1..], codec)[i - 1] && cs[i] == cs[1..][i - 1];
    }
  }

  // Decodes a packet from the reader: it succeeds exactly on the inputs that parse, with the meaning of the
  // parsed tree, reading just that tree's bytes.
  method DecodePacket(reader: ByteReader, packet: PacketTarget) returns (ok: bool)
    requires reader.Valid() && packet.data == None && packet.messages == None
    modifies reader`pos, packet
    ensures reader.Valid() && reader.pos >= old(reader.pos)
    ensures match Parse(old(reader.Remaining()))
            case Done(tree, rest) =>
              && ok && reader.Remaining() == rest && PacketContents(packet.Packet()) == Meaning(tree)
              && packet.codecID == tree.codec
              && packet.data.Some? == tree.DataTree? && packet.messages.Some? == tree.CommandTree?
            case Fail => !ok
    ensures ok ==>
      match Parse(old(reader.Remaining())).value
      case DataTree(_, records) =>
        && packet.data.Some? && |packet.data.value| == |records|
        && forall i :: 0 <= i < |records| ==>
          var d, r := packet.data.value[i], records[i];
          && d.timestampMs == r.position.timestampMs && d.priority == r.position.priority
          && d.lng == r.position.lng && d.lat == r.position.lat
          && d.altitude == r.position.altitude && d.angle == r.position.angle
          && d.satellites == r.position.satellites && d.speed == r.position.speed
          && d.eventID == r.block.eventID && d.generationType == r.block.generationType
          && ElementsContents(d.elements) == BlockElements(r.block)
      case CommandTree(codec, commands) =>
        && packet.messages.Some? && |packet.messages.value| == |commands|
        && forall i :: 0 <= i < |commands| ==>
          var m, c := packet.messages.value[i], commands[i];
          && m.messageType == c.messageType && m.timestamp == c.timestamp && m.text == c.text
          && m.imei == if codec == 0x0E || codec == 0x0F then Imei.UnpackImei(c.imei) else []
    ensures ok && reader.allocOnRead ==> fresh(Arrays(PacketElements(packet.Packet())))
    ensures ok && !reader.allocOnRead ==>
      Increasing(PacketElements(packet.Packet()), reader.input, reader.base + old(reader.pos), reader.base + reader.pos)
  {
    hide ParseUint, ParseItems, PacketContents, PacketElements, Increasing, Arrays, Pow256, Meaning, ElementsContents;
    hide BlockElements, Imei.UnpackImei;
    Widths();
    ok := false;
    var codecId := reader.ReadUInt8BE();
    if codecId.None? {
      return;
    }
    var dataCount := reader.ReadUInt8BE();
    if dataCount.None? {
      return;
    }
    if !IsCodecSupported(codecId.value) {
      return;
    }
    packet.codecID := codecId.value;
    ghost var mid := reader.pos;
    var done := DecodeItems(reader, packet, dataCount.value);
    if !done {
      return;
    }
    ghost var contents, to, es := PacketContents(packet.Packet()), reader.pos, PacketElements(packet.Packet());
    PacketArraysAllocated(packet.Packet());
    var dataCountCheck := reader.ReadUInt8BE();
    if dataCountCheck.None? || dataCountCheck.value != dataCount.value {
      return;
    }
    assert PacketContents(packet.Packet()) == contents;
    if !reader.allocOnRead {
      IncreasingWiden(es, reader.input, reader.base + mid, reader.base + to, reader.base + reader.pos);
      IncreasingLower(es, reader.input, reader.base + old(reader.pos), reader.base + mid, reader.base + reader.pos);
    }
    FieldsOf(packet.Packet(), Parse(old(reader.Remaining())).value);
    ok := true;
  }

  lemma NoElements(input: array<byte>, lo: nat, hi: nat)
    ensures Arrays([]) == {} && Increasing([], input, lo, hi)
  {}
}
