/** Data that is decoded by a schema and encoded again (egg/egg-asn1x.c). */
module Reencoding {
  import opened Wrappers
  import opened Numerals
  import opened Headers
  import opened Tlvs
  import opened Schema
  import opened Builder
  import opened Encodings
  import opened Outlines
  import opened Values

  /** What every TLV of some data has, all ANY nodes have after decoding it. */
  lemma {:induction false} UntaggedHolds(node: Node, tlv: Tlv, tagged: bool, p: Tlv -> bool, q: Def -> bool)
    requires Shaped(tlv) && Throughout(tlv, p) && Holds(node, p, q)
    ensures Holds(DecodeUntagged(node, tlv, tagged).1, p, q)
    decreases tlv, node, 1
  {
    if Explicit(node.def, tagged) {
      if tlv.cls / 128 == 0 || tlv.content.Value? || |tlv.content.tlvs| != 1 {
      } else {
        FirstShaped(tlv.content.tlvs);
        assert tlv.content.tlvs[0] in tlv.content.tlvs;
        UntaggedHolds(node, tlv.content.tlvs[0], false, p, q);
      }
    } else if Structured(tlv.cls) {
      StructuredHolds(node, tlv, p, q);
    } else {
      PrimitiveHolds(node, tlv, p, q);
    }
  }

  lemma {:induction false} PrimitiveHolds(node: Node, tlv: Tlv, p: Tlv -> bool, q: Def -> bool)
    requires Shaped(tlv) && !Structured(tlv.cls) && Throughout(tlv, p) && Holds(node, p, q)
    ensures Holds(DecodePrimitive(node, tlv).1, p, q)
    decreases tlv, node, 0
  {
    if node.def.kind.Choice? { ChoiceHolds(node, tlv, p, q); }
  }

  lemma {:induction false} StructuredHolds(node: Node, tlv: Tlv, p: Tlv -> bool, q: Def -> bool)
    requires Shaped(tlv) && Structured(tlv.cls) && Throughout(tlv, p) && Holds(node, p, q)
    ensures Holds(DecodeStructured(node, tlv).1, p, q)
    decreases tlv, node, 0
  {
    match node.def.kind
    case Choice => ChoiceHolds(node, tlv, p, q);
    case Sequence => AnythingHolds(node.children, tlv.content.tlvs, p, q);
    case Set => if Ascending(tlv.content.tlvs) { AnythingHolds(node.children, tlv.content.tlvs, p, q); }
    case SequenceOf => ElementsHold(node, tlv.content.tlvs, p, q);
    case SetOf => ElementsHold(node, tlv.content.tlvs, p, q);
    case _ =>
  }

  lemma {:induction false} OneHolds(node: Node, tlv: Tlv, p: Tlv -> bool, q: Def -> bool)
    requires Shaped(tlv) && Throughout(tlv, p) && Holds(node, p, q)
    ensures Holds(DecodeOne(node, tlv).1, p, q)
    decreases tlv, node, 2
  {
    if Agrees(node, tlv) { UntaggedHolds(node, tlv, true, p, q); }
  }

  lemma {:induction false} ChoiceHolds(node: Node, tlv: Tlv, p: Tlv -> bool, q: Def -> bool)
    requires Shaped(tlv) && Throughout(tlv, p) && Holds(node, p, q)
    ensures Holds(DecodeChoice(node, tlv).1, p, q)
    decreases tlv, node.children, 1
  {
    AlternativesHold(node.children, tlv, p, q);
  }

  lemma {:induction false} AlternativesHold(nodes: seq<Node>, tlv: Tlv, p: Tlv -> bool, q: Def -> bool)
    requires Shaped(tlv) && Throughout(tlv, p) && AllHold(nodes, p, q)
    ensures AllHold(DecodeAlternatives(nodes, tlv), p, q)
    decreases tlv, nodes, 0
  {
    if nodes != [] {
      OneHolds(nodes[0], tlv, p, q);
      AlternativesHold(nodes[1..], tlv, p, q);
    }
  }

  lemma {:induction false} ElementsHold(node: Node, tlvs: seq<Tlv>, p: Tlv -> bool, q: Def -> bool)
    requires AllShaped(tlvs) && AllThroughout(tlvs, p) && Holds(node, p, q)
    ensures Holds(DecodeElements(node, tlvs).1, p, q)
    decreases tlvs, node, 1
  {
    if node.children != [] && tlvs != [] {
      var child := node.children[0];
      OneHolds(child, tlvs[0], p, q);
      var first := DecodeOne(child, tlvs[0]).1;
      CopiesHold(first, CalcTag(child.def, true), tlvs[1..], p, q);
    }
  }

  lemma {:induction false} CopiesHold(template: Node, tag: Option<nat>, tlvs: seq<Tlv>, p: Tlv -> bool, q: Def -> bool)
    requires AllShaped(tlvs) && AllThroughout(tlvs, p) && Holds(template, p, q)
    ensures AllHold(DecodeCopies(template, tag, tlvs).1, p, q)
    decreases tlvs
  {
    if tlvs != [] {
      HoldsDefs(template, p, q);
      BlankHolds(template, p, q);
      OneHolds(Blank(template), tlvs[0], p, q);
      CopiesHold(template, tag, tlvs[1..], p, q);
    }
  }

  /** A property of the definitions of all nodes. */
  ghost predicate DefsHold(node: Node, q: Def -> bool)
    decreases node, 1
  {
    q(node.def) && AllDefsHold(node.children, q)
  }

  ghost predicate AllDefsHold(nodes: seq<Node>, q: Def -> bool)
    decreases nodes, 0
  {
    forall n | n in nodes :: DefsHold(n, q)
  }

  lemma {:induction false} HoldsDefs(node: Node, p: Tlv -> bool, q: Def -> bool)
    requires Holds(node, p, q)
    ensures DefsHold(node, q)
  {
    forall n | n in node.children ensures DefsHold(n, q) { HoldsDefs(n, p, q); }
  }

  lemma {:induction false} AnyDefs(node: Node)
    ensures DefsHold(node, AnyDef)
  {
    forall n | n in node.children ensures DefsHold(n, AnyDef) { AnyDefs(n); }
  }

  lemma {:induction false} BlankHolds(node: Node, p: Tlv -> bool, q: Def -> bool)
    requires DefsHold(node, q)
    ensures Holds(Blank(node), p, q)
    decreases node, 1
  {
    AllBlankHold(node.children, p, q);
  }

  lemma {:induction false} AllBlankHold(nodes: seq<Node>, p: Tlv -> bool, q: Def -> bool)
    requires AllDefsHold(nodes, q)
    ensures AllHold(BlankAll(nodes), p, q)
    decreases nodes, 0
  {
    if nodes != [] {
      BlankHolds(nodes[0], p, q);
      AllBlankHold(nodes[1..], p, q);
    }
  }

  lemma {:induction false} AnythingHolds(nodes: seq<Node>, tlvs: seq<Tlv>, p: Tlv -> bool, q: Def -> bool)
    requires AllShaped(tlvs) && AllThroughout(tlvs, p) && AllHold(nodes, p, q)
    ensures AllHold(DecodeAnything(nodes, tlvs).1, p, q)
    decreases tlvs, nodes, 0
  {
    if tlvs == [] {
      NothingHolds(nodes, p, q);
    } else if nodes != [] {
      if Agrees(nodes[0], tlvs[0]) {
        UntaggedHolds(nodes[0], tlvs[0], true, p, q);
        AnythingHolds(nodes[1..], tlvs[1..], p, q);
      } else if Skippable(nodes[0]) {
        ClearedHolds(nodes[0], p, q);
        if |nodes| > 1 { AnythingHolds(nodes[1..], tlvs, p, q); }
      }
    }
  }

  lemma {:induction false} NothingHolds(nodes: seq<Node>, p: Tlv -> bool, q: Def -> bool)
    requires AllHold(nodes, p, q)
    ensures AllHold(DecodeNothing(nodes).1, p, q)
  {
    if nodes != [] && Skippable(nodes[0]) {
      ClearedHolds(nodes[0], p, q);
      NothingHolds(nodes[1..], p, q);
    }
  }

  lemma ClearedHolds(node: Node, p: Tlv -> bool, q: Def -> bool)
    requires Holds(node, p, q)
    ensures Holds(Cleared(node), p, q)
  {
  }

  // ---------------------------------------------------------------- decoding and encoding

  lemma ReadShaped(d: Bytes)
    requires ParseDer(d).Some?
    ensures Shaped(ParseDer(d).value)
  {
    ParsedSpanned(d);
    SpannedShaped(ParseDer(d).value);
  }

  /** egg_asn1x_decode_full on a fresh tree, but for the validation. */
  function Decoded(schema: Node, d: Bytes): Option<Node> {
    match ParseDer(d)
    case None => None
    case Some(t) =>
      ReadShaped(d);
      OneShaped(t);
      var (ok, nodes) := DecodeAnything([Blank(schema)], [t]);
      if ok then Some(nodes[0]) else None
  }

  lemma OneShaped(t: Tlv)
    requires Shaped(t)
    ensures AllShaped([t])
  {
  }

  /** What every TLV of some data has, all ANY nodes have that it is decoded into; and definitions stay as they are. */
  lemma DecodedHolds(schema: Node, d: Bytes, p: Tlv -> bool, q: Def -> bool)
    requires Decoded(schema, d).Some? && Throughout(ParseDer(d).value, p) && DefsHold(schema, q)
    ensures Holds(Decoded(schema, d).value, p, q)
  {
    var t := ParseDer(d).value;
    ReadShaped(d);
    OneShaped(t);
    BlankHolds(schema, p, q);
    AnythingHolds([Blank(schema)], [t], p, q);
  }

  lemma DecodedMade(schema: Node, d: Bytes)
    requires Decoded(schema, d).Some?
    ensures AnysMade(Decoded(schema, d).value)
  {
    ParsedThroughout(d);
    ThroughoutMore(ParseDer(d).value, Rereads, Made);
    AnyDefs(schema);
    DecodedHolds(schema, d, Made, AnyDef);
  }

  /** Decoded data is built again with the sizes the writer comes to exactly if no header that was read into an ANY that
    * takes part is longer than the writer's. */
  lemma DecodedBuiltSized(schema: Node, d: Bytes)
    requires Decoded(schema, d).Some? && Build(Decoded(schema, d).value, true).Some?
    ensures Sized(Build(Decoded(schema, d).value, true).value) <==> AnysSized(Decoded(schema, d).value)
  {
    DecodedMade(schema, d);
    BuiltSized(Decoded(schema, d).value, true);
  }

  /** Data without a header longer than the writer's is built again with the sizes the writer comes to. */
  lemma ShortDecodedSized(schema: Node, d: Bytes)
    requires Decoded(schema, d).Some? && Build(Decoded(schema, d).value, true).Some? && Short(d)
    ensures Sized(Build(Decoded(schema, d).value, true).value)
  {
    ParsedThroughout(d);
    AnyDefs(schema);
    DecodedHolds(schema, d, ReadShort, AnyDef);
    HeldSized(Decoded(schema, d).value);
    DecodedBuiltSized(schema, d);
  }

  lemma {:induction false} HeldSized(node: Node)
    requires Holds(node, ReadShort, AnyDef)
    ensures AnysSized(node)
    decreases node, 1
  {
    AllHeldSized(node.children);
  }

  lemma {:induction false} AllHeldSized(nodes: seq<Node>)
    requires AllHold(nodes, ReadShort, AnyDef)
    ensures AllAnysSized(nodes)
    decreases nodes, 0
  {
    forall n | n in nodes ensures AnysSized(n) { HeldSized(n); }
  }

  /** Data without a header longer than the writer's, decoded by a sound schema, is encoded again to octets that are
    * read as what was built. */
  lemma ReencodedIsRead(schema: Node, d: Bytes)
    requires Decoded(schema, d).Some? && Short(d) && DefsHold(schema, SoundDef)
    requires Build(Decoded(schema, d).value, true).Some? && Build(Decoded(schema, d).value, true).value.len < INT_LIMIT
    ensures var t := Build(Decoded(schema, d).value, true).value; ParseDer(Encode(t)) == Some(Plain(t))
  {
    ParsedThroughout(d);
    ThroughoutMore(ParseDer(d).value, ReadShort, Fit);
    DecodedHolds(schema, d, Fit, SoundDef);
    EncodedIsRead(Decoded(schema, d).value);
  }

  // ---------------------------------------------------------------- the values that are decoded

  /** Octets of a bit string: how many bits at the end are empty, and the others; empty bits are zero. */
  predicate BitContents(b: Bytes) {
    b != [] && b[0] < 8 && (|b| > 1 ==> b[|b| - 1] % Power(b[0]) == 0)
  }

  lemma ReadWhole(d: Bytes, h: Header, b: Bytes)
    requires ParseHeader(d) == Some(h) && h.off + h.len == |d| && b == d[h.off..] && !Structured(h.cls)
    ensures ParseDer(d) == Some(Tlv(h.cls, h.tag, h.off, h.len, Value(b, NoPrefix), d))
  {
    assert d[h.off..h.off + h.len] == b && d[..|d|] == d;
    ParseBody(d, h, b, d);
  }

  lemma DecodedOne(schema: Node, d: Bytes)
    requires ParseDer(d).Some?
    ensures Shaped(ParseDer(d).value)
    ensures var t, s := ParseDer(d).value, Blank(schema);
      Decoded(schema, d) ==
        if Agrees(s, t) && DecodeUntagged(s, t, true).0 then Some(DecodeUntagged(s, t, true).1) else None
  {
    var t, s := ParseDer(d).value, Blank(schema);
    ReadShaped(d);
    OneShaped(t);
    MatchFirst([s], [t]);
    assert [s][1..] == [] && [t][1..] == [];
    assert DecodeAnything([], []) == (true, []);
  }

  /** A value is accepted for its tag alone, whatever the class and the contents, but for a bit string's; the node then
    * holds the contents. */
  lemma ValueDecoded(schema: Node, d: Bytes, h: Header, b: Bytes)
    requires Simple(schema.def.kind) && !Explicit(schema.def, true)
    requires ParseHeader(d) == Some(h) && h.off + h.len == |d| && b == d[h.off..] && !Structured(h.cls)
    ensures Decoded(schema, d).Some? <==>
      (CalcTag(schema.def, true).None? || CalcTag(schema.def, true).value == h.tag)
      && (schema.def.kind.BitString? ==> BitContents(b))
    ensures Decoded(schema, d).Some? ==>
      var n := Decoded(schema, d).value;
      if schema.def.kind.BitString? then n.value == Some(b[1..]) && n.bitsEmpty == b[0] else n.value == Some(b)
  {
    ReadWhole(d, h, b);
    DecodedOne(schema, d);
    ValueKept(Blank(schema), ParseDer(d).value, true);
  }

  lemma ValueKept(node: Node, tlv: Tlv, tagged: bool)
    requires Shaped(tlv) && !Structured(tlv.cls) && Simple(node.def.kind) && !Explicit(node.def, tagged)
    ensures var (ok, n), b := DecodeUntagged(node, tlv, tagged), tlv.content.bytes;
      && (ok <==> node.def.kind.BitString? ==> BitContents(b))
      && (ok ==> if node.def.kind.BitString? then n.value == Some(b[1..]) && n.bitsEmpty == b[0]
        else n.value == Some(b))
  {
    if node.def.kind.BitString? {
      assert DecodePrimitive(node, tlv) == DecodeBitString(node, tlv.content.bytes);
    }
  }

  predicate StringKind(kind: Type) {
    || kind.OctetString? || kind.GeneralString? || kind.NumericString? || kind.Ia5String? || kind.TeletexString?
    || kind.PrintableString? || kind.UniversalString? || kind.BmpString? || kind.Utf8String? || kind.VisibleString?
  }

  /** A value in constructed form is accepted for ten types of strings; the node then holds none of its octets, and
    * nothing would be written for it. */
  lemma ConstructedDecoded(schema: Node, d: Bytes)
    requires Simple(schema.def.kind) && !Explicit(schema.def, true)
    requires ParseDer(d).Some? && Structured(ParseDer(d).value.cls)
    ensures var kind, tag := schema.def.kind, ParseDer(d).value.tag;
      Decoded(schema, d).Some? <==>
        (CalcTag(schema.def, true).None? || CalcTag(schema.def, true).value == tag)
        && StringKind(kind)
    ensures Decoded(schema, d).Some? ==>
      Decoded(schema, d).value.value == None && Octets(Decoded(schema, d).value, true) == None
  {
    DecodedOne(schema, d);
    var t := ParseDer(d).value;
    StructuredKept(Blank(schema), t);
    if Decoded(schema, d).Some? { NothingWritten(Decoded(schema, d).value); }
  }

  lemma StructuredKept(node: Node, tlv: Tlv)
    requires Shaped(tlv) && Structured(tlv.cls) && Simple(node.def.kind) && !Explicit(node.def, true)
    ensures var (ok, n), kind := DecodeUntagged(node, tlv, true), node.def.kind;
      && (ok <==> StringKind(kind))
      && n.value == node.value && n.def == node.def
  {
  }

  lemma NothingWritten(node: Node)
    requires Simple(node.def.kind) && node.value == None
    ensures Octets(node, true) == None
  {
    AbsentExactly(node, true);
  }

  /** A sequence, a set or a list in primitive form is refused. */
  lemma PrimitiveRefused(schema: Node, d: Bytes)
    requires Container(schema.def.kind) && !Explicit(schema.def, true)
    requires ParseDer(d).Some? && !Structured(ParseDer(d).value.cls)
    ensures Decoded(schema, d) == None
  {
    DecodedOne(schema, d);
    assert !DecodePrimitive(Blank(schema), ParseDer(d).value).0;
  }

  /** Around a value with an explicit tag, the outer header is looked at for its tag, its class and that it is around
    * one TLV; the tag of the inner one is not looked at. */
  lemma ExplicitDecoded(schema: Node, d: Bytes, o: Header, e: Bytes, h: Header, b: Bytes)
    requires Simple(schema.def.kind) && Explicit(schema.def, true)
    requires ParseHeader(d) == Some(o) && o.off + o.len == |d| && e == d[o.off..] && Structured(o.cls)
    requires ParseHeader(e) == Some(h) && h.off + h.len == |e| && b == e[h.off..] && !Structured(h.cls)
    ensures Decoded(schema, d).Some? <==>
      schema.def.tagging.value.number == o.tag && o.cls >= 0x80 && (schema.def.kind.BitString? ==> BitContents(b))
    ensures Decoded(schema, d).Some? ==>
      var n := Decoded(schema, d).value;
      if schema.def.kind.BitString? then n.value == Some(b[1..]) && n.bitsEmpty == b[0] else n.value == Some(b)
  {
    var inner := Tlv(h.cls, h.tag, h.off, h.len, Value(b, NoPrefix), e);
    ReadWhole(e, h, b);
    ReadAround(d, o, e, inner);
    DecodedOne(schema, d);
    var t := ParseDer(d).value;
    FirstShaped(t.content.tlvs);
    ValueKept(Blank(schema), inner, false);
  }

  lemma ReadAround(d: Bytes, o: Header, e: Bytes, inner: Tlv)
    requires ParseHeader(d) == Some(o) && o.off + o.len == |d| && e == d[o.off..] && Structured(o.cls)
    requires ParseDer(e) == Some(inner)
    ensures ParseDer(d) == Some(Tlv(o.cls, o.tag, o.off, o.len, Children([inner]), d))
  {
    assert d[o.off..o.off + o.len] == e && d[..|d|] == d;
    assert Parse(e) == Some((inner, |e|)) && e[|e|..] == [] && ParseAll([]) == Some([]);
    assert [inner] + [] == [inner] && ParseAll(e) == Some([inner]);
    ParseBody(d, o, e, d);
  }

  // ---------------------------------------------------------------- decoding what was encoded

  /** What is encoded of a node is decoded by its schema as what the node was set to, with every part in its place,
    * exactly if the node is clear. */
  lemma DecodedBack(node: Node, schema: Node)
    requires Follows(node, schema) && Sound(node)
    requires Build(node, true).Some? && Build(node, true).value.len < INT_LIMIT
    ensures var d := Encode(Build(node, true).value);
      Decoded(schema, d).Some? && Held(Decoded(schema, d).value) == Meaning(node, true) <==> Clear(node, schema, true)
  {
    var t, s := Build(node, true).value, Blank(schema);
    BuiltProper(node, true);
    EncodedIsRead(node);
    DecodedOne(schema, Encode(t));
    BlankSame(schema);
    BlankFresh(schema);
    SameFollows(node, schema, s);
    SameClear(node, schema, s, true);
    OneBack(node, s, true);
  }

  predicate Tagged3(node: Node) {
    && node.def == Def(Integer, false, false, Some(Tagging(3, 0x40, false)))
    && node.value == Some([5]) && !node.unsigned && node.children == []
  }

  lemma Tagged3Octets(node: Node)
    requires Tagged3(node)
    ensures Octets(node, true) == Some([0x63, 3, 2, 1, 5])
  {
    ValueOctets(Untag(node), true, [5]);
    assert EncodeLength(1) == [1] && [2] + ([1] + [5]) == [2, 1, 5];
    assert Octets(Untag(node), true) == Some([2, 1, 5]);
    ExplicitOctets(node, true);
    assert EncodeHeader(0x60, 3, 3) == [0x63, 3] && [0x63, 3] + [2, 1, 5] == [0x63, 3, 2, 1, 5];
  }

  lemma NestedHeaders(d: Bytes, e: Bytes, cls: Class, tag: nat)
    requires tag < 31 && cls + tag < 256
    requires d == [cls + tag, 3, 4, 1, 7] && e == [4, 1, 7]
    ensures ParseHeader(d) == Some(Header(cls, tag, 2, 3)) && d[2..] == e
    ensures ParseHeader(e) == Some(Header(0, 4, 2, 1)) && e[2..] == [7]
  {
    HeaderReadBack(cls, tag, 3, e);
    HeaderReadBack(0, 4, 1, [7]);
    assert EncodeHeader(cls, tag, 3) == [cls + tag, 3] && EncodeHeader(0, 4, 1) == [4, 1];
    assert [cls + tag, 3] + e == d && [4, 1] + [7] == e;
  }

  /** An octet string in constructed form is accepted, and gone when it is encoded again. */
  lemma ConstructedLost(schema: Node, d: Bytes)
    requires schema.def == Def(OctetString, false, false, None) && d == [0x24, 3, 4, 1, 7]
    ensures Decoded(schema, d).Some? && Octets(Decoded(schema, d).value, true) == None
  {
    NestedRead(d, [4, 1, 7]);
    ConstructedDecoded(schema, d);
  }

  lemma NestedRead(d: Bytes, e: Bytes)
    requires d == [0x24, 3, 4, 1, 7] && e == [4, 1, 7]
    ensures ParseDer(d).Some? && ParseDer(d).value.cls == 0x20 && ParseDer(d).value.tag == 4
  {
    NestedHeaders(d, e, 0x20, 4);
    ReadWhole(e, Header(0, 4, 2, 1), [7]);
    ReadAround(d, Header(0x20, 4, 2, 3), e, ParseDer(e).value);
  }

  /** An octet string inside the explicit tag of an integer is taken for that integer. */
  lemma InnerTagIgnored(schema: Node)
    requires schema.def == Def(Integer, false, false, Some(Tagging(0, 0x80, false)))
    ensures Decoded(schema, [0xA0, 3, 4, 1, 7]).Some? && Decoded(schema, [0xA0, 3, 4, 1, 7]).value.value == Some([7])
  {
    var d, e := [0xA0, 3, 4, 1, 7], [4, 1, 7];
    NestedHeaders(d, e, 0xA0, 0);
    ExplicitDecoded(schema, d, Header(0xA0, 0, 2, 3), e, Header(0, 4, 2, 1), [7]);
  }

  lemma Tagged3Headers(d: Bytes, e: Bytes)
    requires d == [0x63, 3, 2, 1, 5] && e == [2, 1, 5]
    ensures ParseHeader(d) == Some(Header(0x60, 3, 2, 3)) && d[2..] == e
    ensures ParseHeader(e) == Some(Header(0, 2, 2, 1)) && e[2..] == [5]
  {
    HeaderReadBack(0x60, 3, 3, e);
    HeaderReadBack(0, 2, 1, [5]);
    assert EncodeHeader(0x60, 3, 3) == [0x63, 3] && EncodeHeader(0, 2, 1) == [2, 1];
    assert [0x63, 3] + e == d && [2, 1] + [5] == e;
  }

  /** An explicit tag of class APPLICATION is written, and refused. */
  lemma ApplicationTagRefused(node: Node)
    requires Tagged3(node)
    ensures Octets(node, true) == Some([0x63, 3, 2, 1, 5]) && Decoded(node, [0x63, 3, 2, 1, 5]) == None
  {
    var d, e := [0x63, 3, 2, 1, 5], [2, 1, 5];
    Tagged3Octets(node);
    Tagged3Headers(d, e);
    ExplicitDecoded(node, d, Header(0x60, 3, 2, 3), e, Header(0, 2, 2, 1), [5]);
  }

  predicate IntegerAndBoolean(nodes: seq<Node>) {
    && |nodes| == 2
    && var (a, b) := (nodes[0], nodes[1]);
    && a.def == Def(Integer, false, false, None) && a.value == Some([5]) && !a.unsigned && a.children == []
    && b.def == Def(Boolean, false, false, None) && b.value == Some([255]) && b.children == []
  }

  lemma ShortValue(node: Node, number: Byte, x: Byte)
    requires node.value == Some([x]) && node.def.tagging == None
    requires (node.def.kind.Integer? && !node.unsigned && number == 2) || (node.def.kind.Boolean? && number == 1)
    ensures Octets(node, true) == Some([number, 1, x])
    ensures Build(node, true).value.tag == number
  {
    ValueOctets(node, true, [x]);
    assert EncodeLength(1) == [1] && [number] + ([1] + [x]) == [number, 1, x];
  }

  lemma {:induction false} TwoOctets(nodes: seq<Node>, a: Bytes, b: Bytes)
    requires |nodes| == 2 && Octets(nodes[0], true) == Some(a) && Octets(nodes[1], true) == Some(b)
    ensures AllOctets(nodes, true) == a + b
    ensures BuildAll(nodes, true) == [Build(nodes[0], true).value, Build(nodes[1], true).value]
  {
    assert nodes[1..] == [nodes[1]] && [nodes[1]][1..] == [];
    assert AllOctets([nodes[1]], true) == b + [] == b;
    assert BuildAll([nodes[1]], true) == [Build(nodes[1], true).value] + [];
  }

  lemma LeavesHold(node: Node, p: Tlv -> bool, q: Def -> bool)
    requires q(node.def) && !node.def.kind.Any?
    requires forall n | n in node.children :: q(n.def) && n.children == [] && !n.def.kind.Any?
    ensures Holds(node, p, q)
  {
    forall n | n in node.children ensures Holds(n, p, q) {
      assert AllHold(n.children, p, q);
    }
  }

  lemma PairHolds(node: Node)
    requires node.def == Def(Set, false, false, None) && IntegerAndBoolean(node.children)
    ensures AnysMade(node) && Sound(node) && AnysSized(node)
  {
    LeavesHold(node, Made, AnyDef);
    LeavesHold(node, Fit, SoundDef);
  }

  lemma PairMembers(nodes: seq<Node>)
    requires IntegerAndBoolean(nodes)
    ensures AllOctets(nodes, true) == [2, 1, 5, 1, 1, 255] && !Ascending(BuildAll(nodes, true))
  {
    ShortValue(nodes[0], 2, 5);
    ShortValue(nodes[1], 1, 255);
    TwoOctets(nodes, [2, 1, 5], [1, 1, 255]);
    assert BuildAll(nodes, true)[0].tag == 2 && BuildAll(nodes, true)[1].tag == 1;
  }

  lemma SixOctets(c: Bytes)
    requires c == [2, 1, 5, 1, 1, 255]
    ensures [0x31] + (EncodeLength(|c|) + c) == [0x31, 6, 2, 1, 5, 1, 1, 255]
  {
    assert EncodeLength(6) == [6] && [6] + c == [6, 2, 1, 5, 1, 1, 255];
  }

  lemma PairOctets(node: Node)
    requires node.def == Def(Set, false, false, None) && IntegerAndBoolean(node.children)
    ensures Octets(node, true) == Some([0x31, 6, 2, 1, 5, 1, 1, 255])
  {
    PairMembers(node.children);
    var c := AllOctets(node.children, true);
    PairHolds(node);
    ContainerOctets(node, true);
    SixOctets(c);
  }

  /** A SET is written in the order of its schema, and refused if that is not the order of the tags. */
  lemma SetOrderRefused(node: Node)
    requires node.def == Def(Set, false, false, None) && IntegerAndBoolean(node.children)
    ensures Octets(node, true) == Some([0x31, 6, 2, 1, 5, 1, 1, 255])
    ensures Decoded(node, [0x31, 6, 2, 1, 5, 1, 1, 255]) == None
  {
    PairMembers(node.children);
    PairOctets(node);
    PairHolds(node);
    BuiltSized(node, true);
    SizedSize(Build(node, true).value);
    SetRefused(node);
  }

  /** What a set is encoded to is refused when its members are not in the order of their tags. */
  lemma SetRefused(node: Node)
    requires node.def.kind.Set? && !Explicit(node.def, true) && Sound(node)
    requires Build(node, true).Some? && Build(node, true).value.len < INT_LIMIT
    requires !Ascending(BuildAll(node.children, true))
    ensures Decoded(node, Encode(Build(node, true).value)) == None
  {
    var t, s := Build(node, true).value, Blank(node);
    BuiltContainer(node, true);
    EncodedIsRead(node);
    DecodedOne(node, Encode(t));
    PlainAscending(BuildAll(node.children, true));
    MembersTaken(s, Plain(t));
  }
}
