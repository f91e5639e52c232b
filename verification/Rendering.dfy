// The bytes of a tree: they come in front of any tail unchanged, and their number is the sum the size
// calculators compute.

module Rendering {
  import opened Bits
  import opened Wire
  import opened Model
  import opened Grammar
  import opened Canonical
  import Imei

  // ---------------------------------------------------------------- the tail is a suffix

  lemma {:induction false} ElementsTail(es: seq<Element>, l: Layout, t: Bytes)
    ensures RenderElements(es, l, t) == RenderElements(es, l, []) + t
  {
    hide BigEndian;
    if es != [] {
      ElementsTail(es[1..], l, t);
    }
  }

  lemma {:induction false} VarElementsTail(es: seq<Element>, t: Bytes)
    ensures RenderVarElements(es, t) == RenderVarElements(es, []) + t
  {
    hide BigEndian;
    if es != [] {
      VarElementsTail(es[1..], t);
    }
  }

  lemma {:induction false} GroupsTail(gs: seq<seq<Element>>, l: Layout, t: Bytes)
    ensures RenderGroups(gs, l, t) == RenderGroups(gs, l, []) + t
  {
    hide BigEndian, RenderElements;
    if gs != [] {
      GroupsTail(gs[1..], l, t);
      ElementsTail(gs[0], l, RenderGroups(gs[1..], l, t));
      ElementsTail(gs[0], l, RenderGroups(gs[1..], l, []));
    }
  }

  lemma BlockTail(b: Block, l: Layout, t: Bytes)
    ensures RenderBlock(b, l, t) == RenderBlock(b, l, []) + t
  {
    hide BigEndian, RenderVarElements, RenderGroups;
    var v := RenderVariable(b.variable, l, t);
    VarElementsTail(b.variable, t);
    GroupsTail(b.groups, l, v);
    GroupsTail(b.groups, l, RenderVariable(b.variable, l, []));
  }

  lemma PositionTail(p: Position, t: Bytes)
    ensures RenderPosition(p, t) == RenderPosition(p, []) + t
    ensures |RenderPosition(p, [])| == 24
  {
    hide BigEndian;
  }

  lemma RecordTail(r: Record, l: Layout, t: Bytes)
    ensures RenderRecord(r, l, t) == RenderRecord(r, l, []) + t
  {
    hide RenderPosition, RenderBlock;
    BlockTail(r.block, l, t);
    PositionTail(r.position, RenderBlock(r.block, l, t));
    PositionTail(r.position, RenderBlock(r.block, l, []));
  }

  lemma {:induction false} RecordsTail(rs: seq<Record>, l: Layout, t: Bytes)
    ensures RenderRecords(rs, l, t) == RenderRecords(rs, l, []) + t
  {
    hide RenderRecord;
    if rs != [] {
      RecordsTail(rs[1..], l, t);
      RecordTail(rs[0], l, RenderRecords(rs[1..], l, t));
      RecordTail(rs[0], l, RenderRecords(rs[1..], l, []));
    }
  }

  lemma CommandTail(c: Command, codec: byte, t: Bytes)
    ensures RenderCommand(c, codec, t) == RenderCommand(c, codec, []) + t
  {
    hide BigEndian;
  }

  lemma {:induction false} CommandsTail(cs: seq<Command>, codec: byte, t: Bytes)
    ensures RenderCommands(cs, codec, t) == RenderCommands(cs, codec, []) + t
  {
    hide RenderCommand;
    if cs != [] {
      CommandsTail(cs[1..], codec, t);
      CommandTail(cs[0], codec, RenderCommands(cs[1..], codec, t));
      CommandTail(cs[0], codec, RenderCommands(cs[1..], codec, []));
    }
  }

  lemma RenderTail(tree: Tree, t: Bytes)
    requires tree.DataTree? ==> IsDataCodec(tree.codec)
    ensures Render(tree, t) == Render(tree, []) + t
  {
    hide BigEndian, RenderRecords, RenderCommands;
    var n := BigEndian(ItemCount(tree), 1);
    match tree {
      case DataTree(codec, records) =>
        RecordsTail(records, LayoutOf(codec), n + t);
        RecordsTail(records, LayoutOf(codec), n);
      case CommandTree(codec, commands) =>
        CommandsTail(commands, codec, n + t);
        CommandsTail(commands, codec, n);
    }
    assert n + [] == n;
  }

  // ---------------------------------------------------------------- adding an item at the end

  lemma {:induction false} ElementsAppend(a: seq<Element>, b: seq<Element>, l: Layout)
    ensures RenderElements(a + b, l, []) == RenderElements(a, l, []) + RenderElements(b, l, [])
  {
    if a == [] {
      assert a + b == b;
    } else {
      assert (a + b)[1..] == a[1..] + b;
      ElementsAppend(a[1..], b, l);
      hide BigEndian;
    }
  }

  lemma {:induction false} VarElementsAppend(a: seq<Element>, b: seq<Element>)
    ensures RenderVarElements(a + b, []) == RenderVarElements(a, []) + RenderVarElements(b, [])
  {
    if a == [] {
      assert a + b == b;
    } else {
      assert (a + b)[1..] == a[1..] + b;
      VarElementsAppend(a[1..], b);
      hide BigEndian;
    }
  }

  lemma {:induction false} RecordsAppend(a: seq<Record>, b: seq<Record>, l: Layout)
    ensures RenderRecords(a + b, l, []) == RenderRecords(a, l, []) + RenderRecords(b, l, [])
  {
    hide RenderRecord;
    if a == [] {
      assert a + b == b;
    } else {
      assert (a + b)[1..] == a[1..] + b;
      RecordsAppend(a[1..], b, l);
      RecordTail(a[0], l, RenderRecords((a + b)[1..], l, []));
      RecordTail(a[0], l, RenderRecords(a[1..], l, []));
    }
  }

  lemma {:induction false} CommandsAppend(a: seq<Command>, b: seq<Command>, codec: byte)
    ensures RenderCommands(a + b, codec, []) == RenderCommands(a, codec, []) + RenderCommands(b, codec, [])
  {
    hide RenderCommand;
    if a == [] {
      assert a + b == b;
    } else {
      assert (a + b)[1..] == a[1..] + b;
      CommandsAppend(a[1..], b, codec);
      CommandTail(a[0], codec, RenderCommands((a + b)[1..], codec, []));
      CommandTail(a[0], codec, RenderCommands(a[1..], codec, []));
    }
  }

  // ---------------------------------------------------------------- sizes

  // The bytes of one element: its id and value, and the length field of the variable group.
  function ElementSize(e: Element, l: Layout): nat {
    l.idWidth + |e.value| + if IsGroupWidth(|e.value|) then 0 else 2
  }

  function ElementsSize(es: seq<Element>, l: Layout): nat {
    if es == [] then 0 else ElementsSize(es[..|es| - 1], l) + ElementSize(es[|es| - 1], l)
  }

  // Header fields and group counts.
  function BlockOverhead(l: Layout): nat {
    l.eventWidth + (if l.generation then 1 else 0) + 5 * l.countWidth + if l.variable then 2 else 0
  }

  function BlockSize(es: seq<Element>, l: Layout): nat {
    BlockOverhead(l) + ElementsSize(es, l)
  }

  function ClassSize(es: seq<Element>, l: Layout, w: nat): nat {
    |RenderElements(OfWidth(es, w), l, [])|
  }

  function OtherSize(es: seq<Element>): nat {
    |RenderVarElements(OfOtherWidth(es), [])|
  }

  lemma ClassSizeSnoc(front: seq<Element>, last: Element, l: Layout, w: nat)
    ensures ClassSize(front + [last], l, w)
            == ClassSize(front, l, w) + if |last.value| == w then l.idWidth + w else 0
  {
    hide OfWidth, BigEndian;
    OfWidthSnoc(front, last, w);
    ElementsAppend(OfWidth(front, w), [last], l);
    assert OfWidth(front, w) + [] == OfWidth(front, w);
  }

  lemma OtherSizeSnoc(front: seq<Element>, last: Element)
    ensures OtherSize(front + [last])
            == OtherSize(front) + if IsGroupWidth(|last.value|) then 0 else 4 + |last.value|
  {
    hide OfOtherWidth, BigEndian;
    OfOtherWidthSnoc(front, last);
    VarElementsAppend(OfOtherWidth(front), [last]);
    assert OfOtherWidth(front) + [] == OfOtherWidth(front);
  }

  lemma ClassSizePrefix(es: seq<Element>, j: nat, l: Layout, w: nat)
    requires j <= |es|
    ensures ClassSize(es[..j], l, w) <= ClassSize(es, l, w)
  {
    hide RenderElements;
    assert es == es[..j] + es[j..];
    OfWidthAppend(es[..j], es[j..], w);
    ElementsAppend(OfWidth(es[..j], w), OfWidth(es[j..], w), l);
  }

  lemma OtherSizePrefix(es: seq<Element>, j: nat)
    requires j <= |es|
    ensures OtherSize(es[..j]) <= OtherSize(es)
  {
    hide RenderVarElements;
    assert es == es[..j] + es[j..];
    OfOtherWidthAppend(es[..j], es[j..]);
    VarElementsAppend(OfOtherWidth(es[..j]), OfOtherWidth(es[j..]));
  }

  // Summing over the list is summing over the classes.
  lemma {:induction false} ElementsSizeByClass(es: seq<Element>, l: Layout)
    requires EncodableElements(es, l)
    ensures ElementsSize(es, l)
            == ClassSize(es, l, 1) + ClassSize(es, l, 2) + ClassSize(es, l, 4) + ClassSize(es, l, 8)
               + if l.variable then OtherSize(es) else 0
    ensures !l.variable ==> OfOtherWidth(es) == []
    decreases |es|
  {
    if es != [] {
      var front, last := es[..|es| - 1], es[|es| - 1];
      assert es == front + [last];
      assert EncodableElement(last, l);
      assert EncodableElements(front, l) by {
        forall i | 0 <= i < |front| ensures EncodableElement(front[i], l) {
          assert front[i] == es[i];
        }
      }
      ElementsSizeByClass(front, l);
      ElementsSizeSnoc(front, last, l);
    }
  }

  lemma ElementsSizeSnoc(front: seq<Element>, last: Element, l: Layout)
    requires EncodableElement(last, l)
    ensures ElementsSize(front + [last], l) == ElementsSize(front, l) + ElementSize(last, l)
    ensures ClassSize(front + [last], l, 1) + ClassSize(front + [last], l, 2) + ClassSize(front + [last], l, 4)
            + ClassSize(front + [last], l, 8) + (if l.variable then OtherSize(front + [last]) else 0)
            == ClassSize(front, l, 1) + ClassSize(front, l, 2) + ClassSize(front, l, 4) + ClassSize(front, l, 8)
               + (if l.variable then OtherSize(front) else 0) + ElementSize(last, l)
  {
    hide ClassSize, OtherSize, Pow256;
    ClassSizeSnoc(front, last, l, 1);
    ClassSizeSnoc(front, last, l, 2);
    ClassSizeSnoc(front, last, l, 4);
    ClassSizeSnoc(front, last, l, 8);
    OtherSizeSnoc(front, last);
    assert (front + [last])[..|front|] == front;
  }

  // The four groups one after the other.
  lemma RenderGroupsOf(es: seq<Element>, l: Layout, t: Bytes)
    ensures RenderGroups(GroupsOf(es), l, t)
            == BigEndian(|OfWidth(es, 1)|, l.countWidth) + RenderElements(OfWidth(es, 1), l, [])
               + BigEndian(|OfWidth(es, 2)|, l.countWidth) + RenderElements(OfWidth(es, 2), l, [])
               + BigEndian(|OfWidth(es, 4)|, l.countWidth) + RenderElements(OfWidth(es, 4), l, [])
               + BigEndian(|OfWidth(es, 8)|, l.countWidth) + RenderElements(OfWidth(es, 8), l, []) + t
  {
    hide OfWidth, BigEndian, RenderElements;
    var gs := GroupsOf(es);
    GroupsCons(gs[0], [gs[1], gs[2], gs[3]], l, t);
    GroupsCons(gs[1], [gs[2], gs[3]], l, t);
    GroupsCons(gs[2], [gs[3]], l, t);
    GroupsCons(gs[3], [], l, t);
    assert gs == [gs[0]] + [gs[1], gs[2], gs[3]] && [gs[3]] + [] == [gs[3]];
    assert [gs[1], gs[2], gs[3]] == [gs[1]] + [gs[2], gs[3]] && [gs[2], gs[3]] == [gs[2]] + [gs[3]];
  }

  lemma GroupsCons(g: seq<Element>, gs: seq<seq<Element>>, l: Layout, t: Bytes)
    ensures RenderGroups([g] + gs, l, t)
            == BigEndian(|g|, l.countWidth) + RenderElements(g, l, []) + RenderGroups(gs, l, t)
  {
    hide BigEndian, RenderElements;
    assert ([g] + gs)[1..] == gs;
    ElementsTail(g, l, RenderGroups(gs, l, t));
  }

  // The size computed in advance is the number of bytes written.
  lemma BlockSizeExact(d: Data<Bytes>, l: Layout)
    requires EncodableElements(d.elements, l)
    ensures |RenderBlock(BlockOf(d, l), l, [])| == BlockSize(d.elements, l)
  {
    hide OfWidth, OfOtherWidth, BigEndian, RenderElements, RenderVarElements, RenderGroups;
    hide EncodableElements, ElementsSize;
    ElementsSizeByClass(d.elements, l);
    RenderGroupsOf(d.elements, l, RenderVariable(BlockOf(d, l).variable, l, []));
  }

  lemma RecordSizeExact(d: Data<Bytes>, l: Layout)
    requires EncodableElements(d.elements, l)
    ensures |RenderRecord(RecordOf(d, l), l, [])| == 24 + BlockSize(d.elements, l)
  {
    hide RenderBlock, BlockOf, EncodableElements, RenderPosition;
    BlockSizeExact(d, l);
    PositionTail(PositionOf(d), RenderBlock(BlockOf(d, l), l, []));
  }

  lemma CommandSizeExact(m: Message, codec: byte)
    requires EncodableMessage(m, codec)
    ensures |RenderCommand(CommandOf(m, codec), codec, [])| == |m.text| + 5 + Overhead(codec)
  {
    hide BigEndian;
    Imei.PackImeiAccepts(m.imei);
    hide Imei.PackImei;
  }

  // ---------------------------------------------------------------- the body of a packet

  // The bytes an encoder writes for the packet, inside the transport's framing.
  function Body(p: Packet<Bytes>): Bytes
    requires IsCodecSupported(p.codecID)
  {
    Render(TreeOf(p), [])
  }

  function MessagesSize(ms: seq<Message>, codec: byte): nat {
    if ms == [] then 0
    else MessagesSize(ms[..|ms| - 1], codec) + |ms[|ms| - 1].text| + 5 + Overhead(codec)
  }

  function RecordsSize(ds: seq<Data<Bytes>>, l: Layout): nat {
    if ds == [] then 0
    else RecordsSize(ds[..|ds| - 1], l) + 24 + BlockSize(ds[|ds| - 1].elements, l)
  }

  lemma CommandsOfSnoc(ms: seq<Message>, i: nat, codec: byte)
    requires i < |ms|
    ensures CommandsOf(ms[..i + 1], codec) == CommandsOf(ms[..i], codec) + [CommandOf(ms[i], codec)]
    ensures RenderCommands(CommandsOf(ms[..i + 1], codec), codec, [])
            == RenderCommands(CommandsOf(ms[..i], codec), codec, []) + RenderCommand(CommandOf(ms[i], codec), codec, [])
    ensures MessagesSize(ms[..i + 1], codec) == MessagesSize(ms[..i], codec) + |ms[i].text| + 5 + Overhead(codec)
  {
    hide RenderCommand, CommandOf;
    CommandsAppend(CommandsOf(ms[..i], codec), [CommandOf(ms[i], codec)], codec);
    assert ms[..i + 1][..i] == ms[..i];
    assert CommandsOf(ms[..i + 1], codec) == CommandsOf(ms[..i], codec) + [CommandOf(ms[i], codec)];
  }

  lemma RecordsOfSnoc(ds: seq<Data<Bytes>>, i: nat, l: Layout)
    requires i < |ds|
    ensures RecordsOf(ds[..i + 1], l) == RecordsOf(ds[..i], l) + [RecordOf(ds[i], l)]
    ensures RenderRecords(RecordsOf(ds[..i + 1], l), l, [])
            == RenderRecords(RecordsOf(ds[..i], l), l, []) + RenderRecord(RecordOf(ds[i], l), l, [])
    ensures RecordsSize(ds[..i + 1], l) == RecordsSize(ds[..i], l) + 24 + BlockSize(ds[i].elements, l)
  {
    hide RenderRecord, RecordOf, BlockSize;
    RecordsAppend(RecordsOf(ds[..i], l), [RecordOf(ds[i], l)], l);
    assert ds[..i + 1][..i] == ds[..i];
    assert RecordsOf(ds[..i + 1], l) == RecordsOf(ds[..i], l) + [RecordOf(ds[i], l)];
  }

  lemma {:induction false} CommandsSizeExact(ms: seq<Message>, n: nat, codec: byte)
    requires n <= |ms| && forall i :: 0 <= i < |ms| ==> EncodableMessage(ms[i], codec)
    ensures |RenderCommands(CommandsOf(ms[..n], codec), codec, [])| == MessagesSize(ms[..n], codec)
  {
    hide EncodableMessage, CommandOf, RenderCommand;
    if n > 0 {
      CommandsSizeExact(ms, n - 1, codec);
      CommandsOfSnoc(ms, n - 1, codec);
      CommandSizeExact(ms[n - 1], codec);
    }
  }

  lemma {:induction false} RecordsSizeExact(ds: seq<Data<Bytes>>, n: nat, l: Layout)
    requires n <= |ds| && forall i :: 0 <= i < |ds| ==> EncodableElements(ds[i].elements, l)
    ensures |RenderRecords(RecordsOf(ds[..n], l), l, [])| == RecordsSize(ds[..n], l)
  {
    hide EncodableElements, RecordOf, RenderRecord, BlockSize;
    if n > 0 {
      RecordsSizeExact(ds, n - 1, l);
      RecordsOfSnoc(ds, n - 1, l);
      RecordSizeExact(ds[n - 1], l);
    }
  }

  // What the encoders add up before writing: the codec and count fields, and every item.
  function BodySize(p: Packet<Bytes>): nat
    requires IsCodecSupported(p.codecID)
  {
    3 + if IsCMDCodecId(p.codecID) then MessagesSize(ListOf(p.messages), p.codecID)
        else RecordsSize(ListOf(p.data), LayoutOf(p.codecID))
  }

  lemma BodySizeExact(p: Packet<Bytes>)
    requires IsCodecSupported(p.codecID) && EncodableItems(p)
    ensures |Body(p)| == BodySize(p)
  {
    hide EncodableElements, EncodableMessage, RenderCommands, RenderRecords, BigEndian, CommandsOf, RecordsOf;
    var n := BigEndian(ItemCount(TreeOf(p)), 1);
    if IsCMDCodecId(p.codecID) {
      var ms := ListOf(p.messages);
      CommandsSizeExact(ms, |ms|, p.codecID);
      assert ms[..|ms|] == ms;
      CommandsTail(CommandsOf(ms, p.codecID), p.codecID, n + []);
    } else {
      var ds, l := ListOf(p.data), LayoutOf(p.codecID);
      RecordsSizeExact(ds, |ds|, l);
      assert ds[..|ds|] == ds;
      RecordsTail(RecordsOf(ds, l), l, n + []);
    }
  }
}
