// Encoding then parsing gives the canonical packet; parsing then encoding gives the bytes back for
// exactly the canonical trees; the parser looks at nothing behind the bytes it consumes.

module RoundTrip {
  import opened Bits
  import opened Wire
  import opened Model
  import opened Grammar
  import opened Canonical
  import opened Rendering
  import opened Parser
  import Imei

  // ---------------------------------------------------------------- encoded trees are well formed

  // The declared sizes of all messages fit the 32-bit size field.
  predicate TextsFit(p: Packet<Bytes>) {
    forall m :: m in ListOf(p.messages) ==> |m.text| + Overhead(p.codecID) < 0x1_0000_0000
  }

  lemma {:induction false} ClassIsWF(es: seq<Element>, l: Layout, w: nat)
    requires forall e :: e in es ==> e.id < Pow256(l.idWidth) && |e.value| == w
    ensures WFElements(es, l, w)
    decreases |es|
  {
    hide Pow256;
    if es != [] {
      assert es[0] in es;
      ClassIsWF(es[1..], l, w);
    }
  }

  lemma {:induction false} OthersAreWF(es: seq<Element>)
    requires forall e :: e in es ==> |e.value| < 0x1_0000
    ensures WFVarElements(es)
    decreases |es|
  {
    if es != [] {
      assert es[0] in es;
      OthersAreWF(es[1..]);
    }
  }

  lemma ClassOf(es: seq<Element>, l: Layout, w: nat)
    requires EncodableElements(es, l)
    ensures WFElements(OfWidth(es, w), l, w)
  {
    hide OfWidth, Pow256;
    OfWidthMembers(es, w);
    forall e | e in OfWidth(es, w) ensures e.id < Pow256(l.idWidth) {
      var i :| 0 <= i < |es| && es[i] == e;
      assert EncodableElement(es[i], l);
    }
    ClassIsWF(OfWidth(es, w), l, w);
  }

  lemma OthersOf(es: seq<Element>, l: Layout)
    requires EncodableElements(es, l)
    ensures if l.variable then WFVarElements(OfOtherWidth(es)) else OfOtherWidth(es) == []
  {
    hide OfOtherWidth, Pow256;
    OfOtherWidthMembers(es);
    forall e | e in OfOtherWidth(es) ensures l.variable && |e.value| < 0x1_0000 {
      var i :| 0 <= i < |es| && es[i] == e;
      assert EncodableElement(es[i], l);
    }
    OthersAreWF(OfOtherWidth(es));
    assert l.variable || forall e :: e !in OfOtherWidth(es);
  }

  lemma BlockOfWF(d: Data<Bytes>, l: Layout)
    requires EncodableData(d, l)
    ensures WFBlock(BlockOf(d, l), l)
    ensures BlockElements(BlockOf(d, l)) == Regroup(d.elements)
  {
    hide OfWidth, OfOtherWidth, Pow256, WFElements, WFVarElements, EncodableElements;
    var es, b := d.elements, BlockOf(d, l);
    ClassOf(es, l, 1);
    ClassOf(es, l, 2);
    ClassOf(es, l, 4);
    ClassOf(es, l, 8);
    OthersOf(es, l);
    RegroupPermutes(es);
    Pow256Bound(l);
    var gs := b.groups;
    FourGroups(gs[0], gs[1], gs[2], gs[3], l, b.ioCount);
    assert Blank(0) == [];
  }

  // The encoder's passes, read back by the decoder's groups, give the stable regrouping of the elements: a
  // permutation that keeps the order within every width class. What follows the block is left alone.
  lemma ElementBlockRoundTrip(d: Data<Bytes>, l: Layout, t: Bytes)
    requires EncodableData(d, l)
    ensures ParseBlock(RenderBlock(BlockOf(d, l), l, t), l) == Done(BlockOf(d, l), t)
    ensures BlockElements(BlockOf(d, l)) == Regroup(d.elements)
    ensures multiset(Regroup(d.elements)) == multiset(d.elements)
    ensures forall w :: IsGroupWidth(w) ==> OfWidth(Regroup(d.elements), w) == OfWidth(d.elements, w)
    ensures OfOtherWidth(Regroup(d.elements)) == OfOtherWidth(d.elements)
  {
    hide ParseBlock, RenderBlock, BlockOf, EncodableData, OfWidth, OfOtherWidth, WFBlock, Regroup;
    BlockOfWF(d, l);
    BlockComplete(BlockOf(d, l), l, t);
    RegroupPermutes(d.elements);
    RegroupStable(d.elements);
  }

  lemma Pow256Bound(l: Layout)
    ensures Pow256(l.countWidth) <= 0x1_0000 && Pow256(l.idWidth) <= 0x1_0000
  {
    Widths();
  }

  lemma FourGroups(g1: seq<Element>, g2: seq<Element>, g4: seq<Element>, g8: seq<Element>, l: Layout, room: nat)
    ensures var gs := [g1, g2, g4, g8];
            && Total(gs) == |g1| + |g2| + |g4| + |g8|
            && Flatten(gs) == g1 + g2 + g4 + g8
            && (WFGroups(gs, l, 1, room) <==>
                  && |g1| + |g2| + |g4| + |g8| <= room
                  && |g1| < Pow256(l.countWidth) && |g2| < Pow256(l.countWidth)
                  && |g4| < Pow256(l.countWidth) && |g8| < Pow256(l.countWidth)
                  && WFElements(g1, l, 1) && WFElements(g2, l, 2) && WFElements(g4, l, 4) && WFElements(g8, l, 8))
  {
    hide WFGroups, Total, Flatten, Pow256, WFElements;
    var none: seq<seq<Element>> := [];
    GroupsStep(g8, none, l, 8, room - |g1| - |g2| - |g4|);
    GroupsStep(g4, [g8], l, 4, room - |g1| - |g2|);
    GroupsStep(g2, [g4, g8], l, 2, room - |g1|);
    GroupsStep(g1, [g2, g4, g8], l, 1, room);
    assert [g1] + [g2, g4, g8] == [g1, g2, g4, g8] && [g2] + [g4, g8] == [g2, g4, g8];
    assert [g4] + [g8] == [g4, g8] && [g8] + none == [g8];
    NoGroups(l, room - |g1| - |g2| - |g4| - |g8|);
  }

  lemma NoGroups(l: Layout, room: int)
    ensures Total([]) == 0 && Flatten([]) == [] && (room >= 0 ==> WFGroups([], l, 16, room))
  {}

  // Prepending a group; a negative amount of room has no well-formed groups.
  lemma GroupsStep(g: seq<Element>, gs: seq<seq<Element>>, l: Layout, w: nat, room: int)
    requires 0 < w <= 8
    ensures Total([g] + gs) == |g| + Total(gs) && Flatten([g] + gs) == g + Flatten(gs)
    ensures room >= 0 ==>
      (WFGroups([g] + gs, l, w, room) <==>
        |g| < Pow256(l.countWidth) && |g| <= room && WFElements(g, l, w) && WFGroups(gs, l, 2 * w, room - |g|))
  {
    hide Pow256, WFElements;
    assert ([g] + gs)[1..] == gs;
  }

  lemma {:induction false} RecordsOfWF(ds: seq<Data<Bytes>>, codec: byte)
    requires IsDataCodec(codec)
    requires forall i :: 0 <= i < |ds| ==> EncodableData(ds[i], LayoutOf(codec))
    ensures var rs := RecordsOf(ds, LayoutOf(codec));
            && WFRecords(rs, LayoutOf(codec))
            && forall i :: 0 <= i < |ds| ==> RecordsData(rs)[i] == CanonicalData(ds[i], codec)
    decreases |ds|
  {
    hide BlockOf, WFBlock, Regroup, EncodableData;
    if ds != [] {
      var d, l := ds[0], LayoutOf(codec);
      BlockOfWF(d, l);
      BlockOfCount(d, l);
      RecordsOfWF(ds[1..], codec);
      assert RecordsOf(ds, l)[1..] == RecordsOf(ds[1..], l);
    }
  }

  lemma BlockOfCount(d: Data<Bytes>, l: Layout)
    requires WFBlock(BlockOf(d, l), l)
    ensures var b := BlockOf(d, l);
            && Total(b.groups) + |b.variable| <= b.ioCount
            && b.eventID == d.eventID
            && b.generationType == if l.generation then d.generationType else UNKNOWN_GENERATION
  {
    hide Total, GroupsOf, OfOtherWidth, Pow256, WFGroups;
  }

  lemma {:induction false} CommandsOfWF(ms: seq<Message>, codec: byte)
    requires IsCMDCodecId(codec)
    requires forall i :: 0 <= i < |ms| ==>
      EncodableMessage(ms[i], codec) && |ms[i].text| + Overhead(codec) < 0x1_0000_0000
    ensures WFCommands(CommandsOf(ms, codec), codec)
    ensures forall i :: 0 <= i < |ms| ==>
      CommandMessages(CommandsOf(ms, codec), codec)[i] == CanonicalMessage(ms[i], codec)
    decreases |ms|
  {
    hide Imei.PackImei, Imei.UnpackImei, IsMessageType;
    if ms != [] {
      Imei.PackImeiAccepts(ms[0].imei);
      CommandsOfWF(ms[1..], codec);
      assert CommandsOf(ms, codec)[1..] == CommandsOf(ms[1..], codec);
    }
  }

  lemma TreeOfWF(p: Packet<Bytes>)
    requires Encodable(p) && TextsFit(p)
    ensures WF(TreeOf(p)) && Meaning(TreeOf(p)) == CanonicalPacket(p)
  {
    hide WFRecords, WFCommands, EncodableData, EncodableMessage, CanonicalMessage, Regroup;
    var codec := p.codecID;
    if IsCMDCodecId(codec) {
      var ms := p.messages.value;
      assert forall i :: 0 <= i < |ms| ==> ms[i] in ms;
      CommandsOfWF(ms, codec);
      assert CommandMessages(CommandsOf(ms, codec), codec)
             == seq(|ms|, i requires 0 <= i < |ms| => CanonicalMessage(ms[i], codec));
    } else {
      var ds, l := p.data.value, LayoutOf(codec);
      RecordsOfWF(ds, codec);
      assert RecordsData(RecordsOf(ds, l)) == seq(|ds|, i requires 0 <= i < |ds| => CanonicalData(ds[i], codec));
    }
  }

  // Parsing the encoding, whatever follows it, consumes exactly the encoding and gives the canonical packet.
  lemma PacketRoundTrip(p: Packet<Bytes>, t: Bytes)
    requires Encodable(p) && TextsFit(p)
    ensures WF(TreeOf(p)) && Parse(Body(p) + t) == Done(TreeOf(p), t)
    ensures Meaning(TreeOf(p)) == CanonicalPacket(p)
  {
    hide Parse, Render, TreeOf, Encodable, CanonicalPacket, Meaning;
    TreeOfWF(p);
    RenderTail(TreeOf(p), t);
    ParseComplete(TreeOf(p), t);
  }

  // Records that read back alike have the same tree.
  lemma SameBlock(d: Data<Bytes>, e: Data<Bytes>, codec: byte)
    requires IsDataCodec(codec) && CanonicalData(d, codec) == CanonicalData(e, codec)
    ensures RecordOf(d, LayoutOf(codec)) == RecordOf(e, LayoutOf(codec))
  {
    hide OfWidth, OfOtherWidth, Regroup;
    RegroupStable(d.elements);
    RegroupStable(e.elements);
    RegroupPermutes(d.elements);
    RegroupPermutes(e.elements);
    assert IsGroupWidth(1) && IsGroupWidth(2) && IsGroupWidth(4) && IsGroupWidth(8);
    assert GroupsOf(d.elements) == GroupsOf(e.elements);
  }

  lemma SameCommand(m: Message, n: Message, codec: byte)
    requires EncodableMessage(m, codec) && EncodableMessage(n, codec)
    requires CanonicalMessage(m, codec) == CanonicalMessage(n, codec)
    ensures CommandOf(m, codec) == CommandOf(n, codec)
  {
    hide Imei.PackImei, Imei.UnpackImei, Imei.AllHex;
    if HasImei(codec) {
      Imei.PackImeiAccepts(m.imei);
      Imei.PackImeiAccepts(n.imei);
      Imei.UnpackImeiInjective(Imei.PackImei(m.imei).value, Imei.PackImei(n.imei).value);
    }
  }

  lemma SameTree(p: Packet<Bytes>, q: Packet<Bytes>)
    requires Encodable(p) && Encodable(q) && CanonicalPacket(p) == CanonicalPacket(q)
    ensures TreeOf(p) == TreeOf(q)
  {
    hide CanonicalData, CanonicalMessage, RecordOf, CommandOf, EncodableData, EncodableMessage;
    var a, b, codec := CanonicalPacket(p), CanonicalPacket(q), p.codecID;
    if IsCMDCodecId(codec) {
      var ms, ns := p.messages.value, q.messages.value;
      assert |ms| == |a.messages.value| == |b.messages.value| == |ns|;
      forall i | 0 <= i < |ms| ensures CommandOf(ms[i], codec) == CommandOf(ns[i], codec) {
        assert CanonicalMessage(ms[i], codec) == a.messages.value[i] == b.messages.value[i];
        SameCommand(ms[i], ns[i], codec);
      }
      assert CommandsOf(ms, codec) == CommandsOf(ns, codec);
    } else {
      var ds, es, l := p.data.value, q.data.value, LayoutOf(codec);
      assert |ds| == |a.data.value| == |b.data.value| == |es|;
      forall i | 0 <= i < |ds| ensures RecordOf(ds[i], l) == RecordOf(es[i], l) {
        assert CanonicalData(ds[i], codec) == a.data.value[i] == b.data.value[i];
        SameBlock(ds[i], es[i], codec);
      }
      assert RecordsOf(ds, l) == RecordsOf(es, l);
    }
  }

  // Two packets have the same encoding exactly when a receiver reads the same packet.
  lemma EncodingInjective(p: Packet<Bytes>, q: Packet<Bytes>)
    requires Encodable(p) && TextsFit(p) && Encodable(q) && TextsFit(q)
    ensures Body(p) == Body(q) <==> CanonicalPacket(p) == CanonicalPacket(q)
  {
    if CanonicalPacket(p) == CanonicalPacket(q) {
      SameTree(p, q);
    }
    hide Parse, Render, TreeOf, EncodableItems, CanonicalPacket, Meaning, TextsFit;
    PacketRoundTrip(p, []);
    PacketRoundTrip(q, []);
  }

  // ---------------------------------------------------------------- locality and acceptance

  // The parser depends on the bytes it consumes and no others: the same prefix followed by anything gives
  // the same tree, and no shorter prefix parses.
  lemma ParserLocality(s: Bytes, tree: Tree, rest: Bytes)
    requires |s| < WRAP_LIMIT && Parse(s) == Done(tree, rest)
    ensures |rest| <= |s| && s == s[..|s| - |rest|] + rest
    ensures forall t: Bytes :: Parse(s[..|s| - |rest|] + t) == Done(tree, t)
    ensures forall k :: 0 <= k < |s| - |rest| ==> Parse(s[..k]).Fail?
  {
    hide Parse, Render, WFRecords, WFCommands;
    ParseSound(s, tree, rest);
    RenderTail(tree, rest);
    var c := |s| - |rest|;
    assert s[..c] == Render(tree, []);
    forall t: Bytes ensures Parse(s[..c] + t) == Done(tree, t) {
      RenderTail(tree, t);
      ParseComplete(tree, t);
    }
    forall k | 0 <= k < c ensures Parse(s[..k]).Fail? {
      if Parse(s[..k]).Done? {
        var tree', r := Parse(s[..k]).value, Parse(s[..k]).rest;
        ParseSound(s[..k], tree', r);
        RenderTail(tree', r);
        RenderTail(tree', r + s[k..]);
        assert s == Render(tree', []) + (r + s[k..]) by {
          assert s == s[..k] + s[k..];
        }
        ParseComplete(tree', r + s[k..]);
      }
    }
  }

  // The parser accepts exactly the strings with a prefix in the grammar.
  lemma AcceptedStrings(s: Bytes)
    requires |s| < WRAP_LIMIT
    ensures Parse(s).Done? <==> exists tree :: WF(tree) && Render(tree, []) <= s
  {
    hide Parse, Render, WFRecords, WFCommands;
    if Parse(s).Done? {
      var tree, rest := Parse(s).value, Parse(s).rest;
      ParseSound(s, tree, rest);
      RenderTail(tree, rest);
    }
    if tree :| WF(tree) && Render(tree, []) <= s {
      var rest := s[|Render(tree, [])|..];
      assert s == Render(tree, []) + rest;
      RenderTail(tree, rest);
      ParseComplete(tree, rest);
    }
  }

  // ---------------------------------------------------------------- parse, then encode

  predicate CanonicalBlock(b: Block) {
    && Total(b.groups) + |b.variable| == b.ioCount
    && forall e :: e in b.variable ==> e.value != [] && !IsGroupWidth(|e.value|)
  }

  // The trees in canonical form: the groups hold as many elements as declared, no variable-length element
  // has an empty value or a group's width, and no packed IMEI starts with a zero byte.
  predicate IsCanonical(tree: Tree) {
    match tree
    case DataTree(_, records) => forall r :: r in records ==> CanonicalBlock(r.block)
    case CommandTree(codec, commands) =>
      HasImei(codec) ==> forall c :: c in commands ==> |c.imei| == 8 && c.imei[0] != 0
  }

  // The tree comes back when the packet it stands for is encoded.
  predicate Reencodes(tree: Tree) {
    Encodable(Meaning(tree)) && TreeOf(Meaning(tree)) == tree
  }

  lemma {:induction false} WFElementsMembers(es: seq<Element>, l: Layout, w: nat)
    requires WFElements(es, l, w)
    ensures forall e :: e in es ==> e.id < Pow256(l.idWidth) && |e.value| == w
    decreases |es|
  {
    hide Pow256;
    if es != [] {
      WFElementsMembers(es[1..], l, w);
      assert forall e :: e in es ==> e == es[0] || e in es[1..];
    }
  }

  lemma {:induction false} WFVarElementsMembers(es: seq<Element>)
    requires WFVarElements(es)
    ensures forall e :: e in es ==> |e.value| < 0x1_0000
    decreases |es|
  {
    if es != [] {
      WFVarElementsMembers(es[1..]);
      assert forall e :: e in es ==> e == es[0] || e in es[1..];
    }
  }

  lemma WFGroupsShape(gs: seq<seq<Element>>, l: Layout, room: nat)
    requires WFGroups(gs, l, 1, room)
    ensures |gs| == 4
    ensures WFElements(gs[0], l, 1) && WFElements(gs[1], l, 2) && WFElements(gs[2], l, 4) && WFElements(gs[3], l, 8)
  {
    hide WFGroups, Pow256, WFElements;
    var g1 := WFGroupsHead(gs, l, 1, room);
    var g2 := WFGroupsHead(g1, l, 2, room - |gs[0]|);
    var g3 := WFGroupsHead(g2, l, 4, room - |gs[0]| - |g1[0]|);
    var g4 := WFGroupsHead(g3, l, 8, room - |gs[0]| - |g1[0]| - |g2[0]|);
    WFGroupsEnd(g4, l, 16, room - |gs[0]| - |g1[0]| - |g2[0]| - |g3[0]|);
  }

  lemma WFGroupsHead(gs: seq<seq<Element>>, l: Layout, w: nat, room: nat) returns (rest: seq<seq<Element>>)
    requires 0 < w <= 8 && WFGroups(gs, l, w, room)
    ensures |gs| > 0 && |gs[0]| <= room && WFElements(gs[0], l, w)
    ensures rest == gs[1..] && WFGroups(rest, l, 2 * w, room - |gs[0]|)
  {
    hide Pow256, WFElements;
    rest := gs[1..];
  }

  lemma WFGroupsEnd(gs: seq<seq<Element>>, l: Layout, w: nat, room: nat)
    requires w > 8 && WFGroups(gs, l, w, room)
    ensures gs == []
  {}

  lemma BlockElementsSplit(b: Block, l: Layout)
    requires WFBlock(b, l)
    ensures |b.groups| == 4
    ensures Total(b.groups) == |b.groups[0]| + |b.groups[1]| + |b.groups[2]| + |b.groups[3]|
    ensures Total(b.groups) + |b.variable| == b.ioCount ==>
      BlockElements(b) == b.groups[0] + b.groups[1] + b.groups[2] + b.groups[3] + b.variable
  {
    hide Pow256, WFGroups, WFElements, WFVarElements;
    WFGroupsShape(b.groups, l, b.ioCount);
    var g := b.groups;
    assert g == [g[0], g[1], g[2], g[3]];
    FourGroups(g[0], g[1], g[2], g[3], l, b.ioCount);
    assert Blank(0) == [];
  }

  lemma CanonicalBlockReencodes(r: Record, l: Layout)
    requires WFBlock(r.block, l) && CanonicalBlock(r.block)
    ensures Total(r.block.groups) + |r.block.variable| <= r.block.ioCount
    ensures EncodableData(RecordData(r), l) && RecordOf(RecordData(r), l) == r
  {
    hide Pow256, WFElements, WFVarElements, OfWidth, OfOtherWidth, Total, Flatten, WFGroups;
    var b, g, es := r.block, r.block.groups, BlockElements(r.block);
    WFGroupsShape(g, l, b.ioCount);
    BlockElementsSplit(b, l);
    WFElementsMembers(g[0], l, 1);
    WFElementsMembers(g[1], l, 2);
    WFElementsMembers(g[2], l, 4);
    WFElementsMembers(g[3], l, 8);
    if l.variable {
      WFVarElementsMembers(b.variable);
    }
    RegroupOfGroups(g[0], g[1], g[2], g[3], b.variable);
    assert g == [g[0], g[1], g[2], g[3]];
    forall i | 0 <= i < |es| ensures EncodableElement(es[i], l) {
      InParts(es[i], g[0], g[1], g[2], g[3], b.variable);
      assert es[i] in es;
      Widths();
    }
  }

  lemma InParts(e: Element, a: seq<Element>, b: seq<Element>, c: seq<Element>, d: seq<Element>, f: seq<Element>)
    ensures e in a + b + c + d + f <==> e in a || e in b || e in c || e in d || e in f
  {}

  lemma ReencodedBlockIsCanonical(r: Record, l: Layout)
    requires WFBlock(r.block, l) && Total(r.block.groups) + |r.block.variable| <= r.block.ioCount
    requires EncodableData(RecordData(r), l) && RecordOf(RecordData(r), l) == r
    ensures CanonicalBlock(r.block)
  {
    hide Pow256, WFElements, WFVarElements, OfWidth, OfOtherWidth, Total, Flatten, WFGroups, Regroup;
    var es := BlockElements(r.block);
    BlockElementsSplit(r.block, l);
    RegroupPermutes(es);
    RegroupMultiset(es);
    OthersOf(es, l);
    OfOtherWidthMembers(es);
    forall e | e in r.block.variable ensures e.value != [] && !IsGroupWidth(|e.value|) {
      var i :| 0 <= i < |es| && es[i] == e;
      assert EncodableElement(es[i], l);
    }
  }

  lemma {:induction false} RecordsReencode(rs: seq<Record>, l: Layout)
    requires WFRecords(rs, l)
    ensures (forall r :: r in rs ==> CanonicalBlock(r.block))
            <==> RecordsOf(RecordsData(rs), l) == rs
                 && forall i :: 0 <= i < |rs| ==> EncodableData(RecordsData(rs)[i], l)
    decreases |rs|
  {
    hide WFBlock, CanonicalBlock, RecordData, EncodableData, RecordOf, RecordsOf;
    if rs == [] {
      assert RecordsOf(RecordsData(rs), l) == [];
    } else {
      var r, ds, rest := rs[0], RecordsData(rs), RecordsData(rs[1..]);
      RecordInRoom(r, l);
      RecordsReencode(rs[1..], l);
      assert ds == [RecordData(r)] + rest;
      assert forall x :: x in rs <==> x == r || x in rs[1..];
      if CanonicalBlock(r.block) {
        CanonicalBlockReencodes(r, l);
      }
      if EncodableData(RecordData(r), l) && RecordOf(RecordData(r), l) == r {
        ReencodedBlockIsCanonical(r, l);
      }
      RecordsOfCons(RecordData(r), rest, l);
      ConsEqual(RecordOf(RecordData(r), l), RecordsOf(rest, l), rs);
    }
  }

  lemma RecordsOfCons(d: Data<Bytes>, ds: seq<Data<Bytes>>, l: Layout)
    ensures RecordsOf([d] + ds, l) == [RecordOf(d, l)] + RecordsOf(ds, l)
    ensures (forall i :: 0 <= i < |[d] + ds| ==> EncodableData(([d] + ds)[i], l))
            <==> EncodableData(d, l) && forall i :: 0 <= i < |ds| ==> EncodableData(ds[i], l)
  {
    hide RecordOf, EncodableData;
    var all := [d] + ds;
    assert RecordsOf(all, l) == [RecordOf(d, l)] + RecordsOf(ds, l);
    if forall i :: 0 <= i < |all| ==> EncodableData(all[i], l) {
      assert EncodableData(all[0], l);
      forall i | 0 <= i < |ds| ensures EncodableData(ds[i], l) {
        assert EncodableData(all[i + 1], l);
      }
    }
  }

  lemma ConsEqual<T>(x: T, xs: seq<T>, s: seq<T>)
    requires s != []
    ensures [x] + xs == s <==> x == s[0] && xs == s[1..]
  {
    assert ([x] + xs)[1..] == xs && s == [s[0]] + s[1..];
  }

  lemma RecordInRoom(r: Record, l: Layout)
    requires WFBlock(r.block, l)
    ensures Total(r.block.groups) + |r.block.variable| <= r.block.ioCount
  {
    hide Pow256, WFGroups, Total;
  }

  predicate CommandReencodes(c: Command, codec: byte) {
    CommandOf(CommandMessage(c, codec), codec) == c && EncodableMessage(CommandMessage(c, codec), codec)
  }

  lemma CommandReencodesIff(c: Command, codec: byte)
    requires IsCMDCodecId(codec) && WFCommand(c, codec)
    ensures CommandReencodes(c, codec) <==> (HasImei(codec) ==> |c.imei| == 8 && c.imei[0] != 0)
  {
    hide Imei.PackImei, Imei.UnpackImei;
    if HasImei(codec) {
      Imei.ImeiUnpackPack(c.imei);
    }
  }

  lemma {:induction false} CommandsReencode(cs: seq<Command>, codec: byte)
    requires IsCMDCodecId(codec) && WFCommands(cs, codec)
    ensures (HasImei(codec) ==> forall c :: c in cs ==> |c.imei| == 8 && c.imei[0] != 0)
            <==> CommandsOf(CommandMessages(cs, codec), codec) == cs
                 && forall i :: 0 <= i < |cs| ==> EncodableMessage(CommandMessages(cs, codec)[i], codec)
    decreases |cs|
  {
    hide WFCommand, CommandMessage, EncodableMessage, CommandOf;
    if cs != [] {
      var c, ms := cs[0], CommandMessages(cs, codec);
      CommandsReencode(cs[1..], codec);
      CommandReencodesIff(c, codec);
      assert ms == [CommandMessage(c, codec)] + CommandMessages(cs[1..], codec);
      assert CommandsOf(ms, codec) == [CommandOf(ms[0], codec)] + CommandsOf(CommandMessages(cs[1..], codec), codec);
      assert forall x :: x in cs <==> x == c || x in cs[1..];
      ConsEqual(CommandOf(ms[0], codec), CommandsOf(CommandMessages(cs[1..], codec), codec), cs);
      assert forall i :: 0 <= i < |cs| - 1 ==> CommandMessages(cs[1..], codec)[i] == ms[i + 1];
    }
  }

  // Encoding what was parsed gives the tree back exactly for the trees in canonical form.
  lemma ReverseRoundTrip(tree: Tree)
    requires WF(tree)
    ensures Reencodes(tree) <==> IsCanonical(tree)
    ensures IsCanonical(tree) ==> Body(Meaning(tree)) == Render(tree, [])
  {
    hide WFRecords, WFCommands, EncodableData, EncodableMessage, CanonicalBlock, RecordsOf, RecordsData, CommandsOf;
    hide CommandMessages, Render;
    match tree
    case DataTree(codec, records) => RecordsReencode(records, LayoutOf(codec));
    case CommandTree(codec, commands) => CommandsReencode(commands, codec);
  }
}
