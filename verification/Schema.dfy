/** Schema nodes of egg/egg-asn1x.c and how decoded TLVs are matched against them. */
module Schema {
  import opened Wrappers
  import opened Numerals
  import opened Headers
  import opened Tlvs

  datatype Type =
    | Integer | Enumerated | Boolean | BitString | OctetString | ObjectId | Null
    | Time(generalized: bool, utc: bool) | UtcTime | GeneralizedTime
    | GeneralString | NumericString | Ia5String | TeletexString | PrintableString
    | UniversalString | BmpString | Utf8String | VisibleString
    | Sequence | SequenceOf | Set | SetOf
    | Any | Choice

  /** A class without the structured bit. */
  type Base = c: Class | c in {0x00, 0x40, 0x80, 0xC0}

  datatype Tagging = Tagging(number: nat, cls: Base, implicit: bool)

  datatype Def = Def(kind: Type, optional: bool, hasDefault: bool, tagging: Option<Tagging>)

  /** A schema node and what decoding has put into it. */
  datatype Node = Node(def: Def, value: Option<Bytes>, bitsEmpty: Bits, unsigned: bool,
                       parsed: Option<Tlv>, chosen: bool, children: seq<Node>)

  /** The tag of a type in the universal class; None stands for G_MAXULONG. */
  function UniversalTag(kind: Type): Option<nat> {
    match kind
    case Integer => Some(0x02)
    case Enumerated => Some(0x0A)
    case Boolean => Some(0x01)
    case BitString => Some(0x03)
    case OctetString => Some(0x04)
    case ObjectId => Some(0x06)
    case Null => Some(0x05)
    case GeneralString => Some(0x1B)
    case NumericString => Some(0x12)
    case Ia5String => Some(0x16)
    case TeletexString => Some(0x14)
    case PrintableString => Some(0x13)
    case UniversalString => Some(0x1C)
    case BmpString => Some(0x1E)
    case Utf8String => Some(0x0C)
    case VisibleString => Some(0x1A)
    case Time(generalized, utc) => if generalized then Some(0x18) else if utc then Some(0x17) else None
    case UtcTime => Some(0x17)
    case GeneralizedTime => Some(0x18)
    case Sequence => Some(0x10)
    case SequenceOf => Some(0x10)
    case Set => Some(0x11)
    case SetOf => Some(0x11)
    case Any => None
    case Choice => None
  }

  /** anode_calc_tag_for_flags; tagged says whether FLAG_TAG is still set. */
  function CalcTag(def: Def, tagged: bool): Option<nat> {
    if tagged && def.tagging.Some? then Some(def.tagging.value.number) else UniversalTag(def.kind)
  }

  /** anode_calc_explicit_for_flags. */
  predicate Explicit(def: Def, tagged: bool) {
    tagged && def.tagging.Some? && !def.tagging.value.implicit
  }

  /** A node that does not know its tag takes any; otherwise the numbers have to be equal. */
  predicate Agrees(node: Node, tlv: Tlv) {
    CalcTag(node.def, true).None? || CalcTag(node.def, true).value == tlv.tag
  }

  predicate Skippable(node: Node) { node.def.optional || node.def.hasDefault }

  /** anode_clr_value. */
  function Cleared(node: Node): Node { node.(value := None, parsed := None) }

  /** anode_clone: the same definitions all the way down, and nothing decoded. */
  function Blank(node: Node): Node {
    Node(node.def, None, 0, false, None, false, BlankAll(node.children))
  }

  function BlankAll(nodes: seq<Node>): seq<Node> {
    if nodes == [] then [] else [Blank(nodes[0])] + BlankAll(nodes[1..])
  }

  /** Trees a parser produces: children exactly under structured classes. */
  predicate Shaped(t: Tlv) {
    (Structured(t.cls) <==> t.content.Children?) && (t.content.Children? ==> AllShaped(t.content.tlvs))
  }

  predicate AllShaped(ts: seq<Tlv>) { forall t | t in ts :: Shaped(t) }

  lemma FirstShaped(ts: seq<Tlv>)
    requires AllShaped(ts) && ts != []
    ensures Shaped(ts[0])
  {
  }

  lemma {:induction false} SpannedShaped(t: Tlv)
    requires Spanned(t)
    ensures Shaped(t)
  {
    if t.content.Children? {
      forall c | c in t.content.tlvs ensures Shaped(c) { SpannedShaped(c); }
    }
  }

  // ---------------------------------------------------------------- decoding

  /** The outcome of an attempt: whether it worked, and what became of the node. */
  type Outcome = (bool, Node)

  /** anode_decode_bit_string. */
  function DecodeBitString(node: Node, bytes: Bytes): Outcome {
    if bytes == [] || bytes[0] >= 8 then (false, node) else
    if |bytes| > 1 && bytes[|bytes| - 1] % Power(bytes[0]) != 0 then (false, node) else
    (true, Cleared(node).(value := Some(bytes[1..]), bitsEmpty := bytes[0]))
  }

  /** anode_decode_primitive. */
  function DecodePrimitive(node: Node, tlv: Tlv): Outcome
    requires Shaped(tlv) && !Structured(tlv.cls)
    decreases tlv, node, 0
  {
    match node.def.kind
    case BitString => DecodeBitString(node, tlv.content.bytes)
    case Any => (true, node)
    case Choice => DecodeChoice(node, tlv)
    case Sequence => (false, node)
    case SequenceOf => (false, node)
    case Set => (false, node)
    case SetOf => (false, node)
    case _ => (true, Cleared(node).(value := Some(tlv.content.bytes)))
  }

  /** anode_decode_structured. */
  function DecodeStructured(node: Node, tlv: Tlv): Outcome
    requires Shaped(tlv) && Structured(tlv.cls)
    decreases tlv, node, 0
  {
    match node.def.kind
    case Any => (true, node)
    case GeneralString => (true, node)
    case OctetString => (true, node)
    case NumericString => (true, node)
    case Ia5String => (true, node)
    case TeletexString => (true, node)
    case PrintableString => (true, node)
    case UniversalString => (true, node)
    case BmpString => (true, node)
    case Utf8String => (true, node)
    case VisibleString => (true, node)
    case Choice => DecodeChoice(node, tlv)
    case Sequence => DecodeMembers(node, tlv.content.tlvs)
    case Set => if Ascending(tlv.content.tlvs) then DecodeMembers(node, tlv.content.tlvs) else (false, node)
    case SequenceOf => DecodeElements(node, tlv.content.tlvs)
    case SetOf => DecodeElements(node, tlv.content.tlvs)
    case _ => (false, node)
  }

  predicate Ascending(ts: seq<Tlv>) {
    forall k | 0 < k < |ts| :: ts[k - 1].tag <= ts[k].tag
  }

  /** anode_decode_one_without_tag. */
  function DecodeUntagged(node: Node, tlv: Tlv, tagged: bool): Outcome
    requires Shaped(tlv)
    decreases tlv, node, 1
  {
    var (ok, node') :=
      if Explicit(node.def, tagged) then
        if tlv.cls / 128 == 0 || tlv.content.Value? || |tlv.content.tlvs| != 1 then (false, node)
        else
          FirstShaped(tlv.content.tlvs);
          DecodeUntagged(node, tlv.content.tlvs[0], false)
      else if Structured(tlv.cls) then DecodeStructured(node, tlv)
      else DecodePrimitive(node, tlv);
    (ok, if ok then node'.(parsed := Some(tlv)) else node')
  }

  /** anode_decode_one. */
  function DecodeOne(node: Node, tlv: Tlv): Outcome
    requires Shaped(tlv)
    decreases tlv, node, 2
  {
    if Agrees(node, tlv) then DecodeUntagged(node, tlv, true) else (false, node)
  }

  /** anode_decode_choice: every alternative is tried, and all that fit are chosen. */
  function DecodeChoice(node: Node, tlv: Tlv): Outcome
    requires Shaped(tlv)
    decreases tlv, node.children, 1
  {
    var nodes := DecodeAlternatives(node.children, tlv);
    (exists k | 0 <= k < |nodes| :: nodes[k].chosen, node.(children := nodes))
  }

  function DecodeAlternatives(nodes: seq<Node>, tlv: Tlv): (r: seq<Node>)
    requires Shaped(tlv)
    ensures |r| == |nodes|
    decreases tlv, nodes, 0
  {
    if nodes == [] then [] else
      var (ok, node) := DecodeOne(nodes[0], tlv);
      [node.(chosen := ok)] + DecodeAlternatives(nodes[1..], tlv)
  }

  /** The members of a SEQUENCE or SET. */
  function DecodeMembers(node: Node, tlvs: seq<Tlv>): Outcome
    requires AllShaped(tlvs)
    decreases tlvs, node.children, 1
  {
    var (ok, nodes) := DecodeAnything(node.children, tlvs);
    (ok && node.children != [], node.(children := nodes))
  }

  /** The elements of a SEQUENCE OF or SET OF: the first into the one child there is, the
      others into copies of it behind all children. */
  function DecodeElements(node: Node, tlvs: seq<Tlv>): Outcome
    requires AllShaped(tlvs)
    decreases tlvs, node, 1
  {
    if node.children == [] then (false, node) else
    if tlvs == [] then (true, node) else
    var child := node.children[0];
    var (ok, first) := DecodeOne(child, tlvs[0]);
    var children := [first] + node.children[1..];
    if !ok then (false, node.(children := children)) else
    var (done, more) := DecodeCopies(first, CalcTag(child.def, true), tlvs[1..]);
    (done, node.(children := children + more))
  }

  function DecodeCopies(template: Node, tag: Option<nat>, tlvs: seq<Tlv>): (r: (bool, seq<Node>))
    requires AllShaped(tlvs)
    ensures r.0 ==> |r.1| == |tlvs|
    decreases tlvs
  {
    if tlvs == [] then (true, []) else
    if tag.Some? && tlvs[0].tag != tag.value then (false, []) else
    var (ok, other) := DecodeOne(Blank(template), tlvs[0]);
    if !ok then (false, [other]) else
    var (done, more) := DecodeCopies(template, tag, tlvs[1..]);
    (done, [other] + more)
  }

  /** anode_decode_anything: nodes and TLVs side by side, skipping nodes that may be absent. */
  function DecodeAnything(nodes: seq<Node>, tlvs: seq<Tlv>): (r: (bool, seq<Node>))
    requires AllShaped(tlvs)
    ensures |r.1| == |nodes|
    decreases tlvs, nodes, 0
  {
    if tlvs == [] then DecodeNothing(nodes) else
    if nodes == [] then (false, []) else
    if Agrees(nodes[0], tlvs[0]) then
      var (ok, node) := DecodeUntagged(nodes[0], tlvs[0], true);
      if !ok then (false, [node] + nodes[1..]) else
      var (done, rest) := DecodeAnything(nodes[1..], tlvs[1..]);
      (done, [node] + rest)
    else if !Skippable(nodes[0]) then (false, nodes)
    else if |nodes| == 1 then (false, [Cleared(nodes[0])])
    else
      var (done, rest) := DecodeAnything(nodes[1..], tlvs);
      (done, [Cleared(nodes[0])] + rest)
  }

  /** No TLV is left: all nodes have to be ones that may be absent. */
  function DecodeNothing(nodes: seq<Node>): (r: (bool, seq<Node>))
    ensures |r.1| == |nodes|
  {
    if nodes == [] then (true, []) else
    if !Skippable(nodes[0]) then (false, nodes) else
    var (done, rest) := DecodeNothing(nodes[1..]);
    (done, [Cleared(nodes[0])] + rest)
  }
}
