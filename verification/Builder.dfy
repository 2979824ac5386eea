/** Building TLVs from schema nodes (egg/egg-asn1x.c): the pass that computes all sizes
    before anything is written. */
module Builder {
  import opened Wrappers
  import opened Headers
  import opened Tlvs
  import opened Schema

  const MAX_ULONG: nat := 0xFFFF_FFFF_FFFF_FFFF

  predicate Repeated(kind: Type) { kind.SequenceOf? || kind.SetOf? }

  predicate Container(kind: Type) { kind.Sequence? || kind.Set? || Repeated(kind) }

  function TagOr(tag: Option<nat>): nat { if tag.Some? then tag.value else MAX_ULONG }

  function ContentSize(content: Content): nat {
    match content
    case Value(bytes, prefix) => |bytes| + if prefix.NoPrefix? then 0 else 1
    case Children(ts) => TotalSize(ts)
  }

  /** anode_build_cls_tag_len: an implicit tag replaces the universal one, an explicit one is left for later. */
  function Dress(def: Def, content: Content): Tlv {
    var base: Class := if Container(def.kind) then 0x20 else 0;
    var implicit := def.tagging.Some? && !Explicit(def, true);
    var cls := if implicit then Mixed(base, def.tagging.value.cls) else base;
    var tag := TagOr(CalcTag(def, implicit));
    var len := ContentSize(content);
    Tlv(cls, tag, |EncodeHeader(cls, tag, len)|, len, content, [])
  }

  /** The class bits of b on top of a, which is universal. */
  function Mixed(a: Class, b: Base): (r: Class)
    requires a == 0 || a == 0x20
    ensures Structured(r) <==> a == 0x20
  {
    assert b == 0 || b == 0x40 || b == 0x80 || b == 0xC0;
    a + b
  }

  /** anode_build_maybe_explicit: one more TLV around the one that was built. */
  function Wrapped(def: Def, t: Tlv): Tlv {
    if !Explicit(def, true) then t else
      var cls, tag, len := Mixed(0x20, def.tagging.value.cls), def.tagging.value.number, t.off + t.len;
      Tlv(cls, tag, |EncodeHeader(cls, tag, len)|, len, Children([t]), [])
  }

  /** An unsigned integer that would read as negative gets a zero octet in front. */
  function IntegerPrefix(node: Node, bytes: Bytes): Prefix {
    if node.unsigned && bytes != [] && bytes[0] >= 128 then ZeroOctet else NoPrefix
  }

  /** egg_asn1x_get_choice: the first chosen alternative. */
  function Chosen(nodes: seq<Node>): (r: Option<Node>)
    ensures r.Some? ==> r.value in nodes && r.value.chosen
    ensures r.None? ==> forall n | n in nodes :: !n.chosen
  {
    if nodes == [] then None else if nodes[0].chosen then Some(nodes[0]) else Chosen(nodes[1..])
  }

  function Single(t: Option<Tlv>): seq<Tlv> { if t.Some? then [t.value] else [] }

  /** anode_build_anything. */
  function Build(node: Node, want: bool): Option<Tlv>
    decreases node, 1
  {
    if node.def.kind.Any? then node.parsed else
    match BuildBare(node, want)
    case None => None
    case Some(t) => Some(Wrapped(node.def, t))
  }

  /** A node without its explicit tag. */
  function BuildBare(node: Node, want: bool): Option<Tlv>
    requires !node.def.kind.Any?
    decreases node, 0
  {
    if node.def.kind.Choice? then
      (match Chosen(node.children) case None => None case Some(child) => Build(child, want))
    else if Container(node.def.kind) then
      var tlvs := BuildAll(node.children, want && !Repeated(node.def.kind));
      if tlvs == [] && !(want && !node.def.optional) then None
      else Some(Dress(node.def, Children(tlvs)))
    else
      match node.value
      case None => None
      case Some(bytes) => Some(Dress(node.def, Value(bytes,
        if node.def.kind.BitString? then EmptyBits(node.bitsEmpty)
        else if node.def.kind.Integer? then IntegerPrefix(node, bytes) else NoPrefix)))
  }

  function BuildAll(nodes: seq<Node>, want: bool): seq<Tlv> {
    if nodes == [] then [] else
      Single(Build(nodes[0], want)) + BuildAll(nodes[1..], want)
  }

  // ---------------------------------------------------------------- the sizes agree with the writer

  /** No header that was read into an ANY that takes part is longer than the writer's. */
  predicate AnysSized(node: Node)
    decreases node, 1
  {
    if node.def.kind.Any? then (node.parsed.Some? ==> NoneLong(node.parsed.value))
    else if node.def.kind.Choice? then (Chosen(node.children).Some? ==> AnysSized(Chosen(node.children).value))
    else Container(node.def.kind) ==> AllAnysSized(node.children)
  }

  predicate AllAnysSized(nodes: seq<Node>)
    decreases nodes, 0
  {
    forall n | n in nodes :: AnysSized(n)
  }

  lemma WrappedSized(def: Def, t: Tlv)
    ensures Sized(Wrapped(def, t)) <==> Sized(t)
  {
    if Explicit(def, true) {
      var w := Wrapped(def, t);
      assert TotalSize([t]) == t.off + t.len;
      assert AllSized([t]) <==> Sized(t) by { assert t in [t]; }
      assert w.content == Children([t]);
    }
  }

  /** A property of the TLVs that ANY nodes hold, and one of the definitions of all nodes. */
  ghost predicate Holds(node: Node, p: Tlv -> bool, q: Def -> bool)
    decreases node, 1
  {
    q(node.def) && (node.def.kind.Any? && node.parsed.Some? ==> p(node.parsed.value)) && AllHold(node.children, p, q)
  }

  ghost predicate AllHold(nodes: seq<Node>, p: Tlv -> bool, q: Def -> bool)
    decreases nodes, 0
  {
    forall n | n in nodes :: Holds(n, p, q)
  }

  predicate AnyDef(def: Def) { true }

  lemma ChosenHolds(node: Node, p: Tlv -> bool, q: Def -> bool)
    requires Holds(node, p, q) && Chosen(node.children).Some?
    ensures Holds(Chosen(node.children).value, p, q)
  {
    assert Chosen(node.children).value in node.children;
  }

  /** ANY nodes hold what was read, or what was made with the writer's sizes. */
  ghost predicate AnysMade(node: Node) { Holds(node, Made, AnyDef) }

  ghost predicate AllAnysMade(nodes: seq<Node>) { AllHold(nodes, Made, AnyDef) }

  /** What is built is made with the writer's sizes, but for what was read. */
  lemma {:induction false} BuiltMade(node: Node, want: bool)
    requires AnysMade(node) && Build(node, want).Some?
    ensures Made(Build(node, want).value)
    decreases node, 1
  {
    if !node.def.kind.Any? {
      if node.def.kind.Choice? {
        ChosenHolds(node, Made, AnyDef);
        BuiltMade(Chosen(node.children).value, want);
      } else if Container(node.def.kind) {
        AllBuiltMade(node.children, want && !Repeated(node.def.kind));
      }
      WrappedMade(node.def, BuildBare(node, want).value);
    }
  }

  lemma WrappedMade(def: Def, t: Tlv)
    requires Made(t)
    ensures Made(Wrapped(def, t))
  {
    assert TotalSize([t]) == t.off + t.len;
  }

  lemma {:induction false} AllBuiltMade(nodes: seq<Node>, want: bool)
    requires AllAnysMade(nodes)
    ensures AllMade(BuildAll(nodes, want))
    decreases nodes, 0
  {
    if nodes != [] {
      AllBuiltMade(nodes[1..], want);
      if Build(nodes[0], want).Some? { BuiltMade(nodes[0], want); }
    }
  }

  /** Header sizes and lengths are those the writer will come to, for everything built, exactly
      if no header that was read into ANY nodes is longer than the writer's. */
  lemma {:induction false} BuiltSized(node: Node, want: bool)
    requires AnysMade(node) && Build(node, want).Some?
    ensures Sized(Build(node, want).value) <==> AnysSized(node)
    decreases node, 1
  {
    if node.def.kind.Any? {
      MadeSized(node.parsed.value);
    } else {
      var t := BuildBare(node, want).value;
      WrappedSized(node.def, t);
      if node.def.kind.Choice? {
        ChosenHolds(node, Made, AnyDef);
        BuiltSized(Chosen(node.children).value, want);
      } else if Container(node.def.kind) {
        AllBuiltSized(node.children, want && !Repeated(node.def.kind));
      }
    }
  }

  lemma {:induction false} AllBuiltSized(nodes: seq<Node>, want: bool)
    requires AllAnysMade(nodes)
    ensures AllSized(BuildAll(nodes, want)) <==> AllAnysSized(nodes)
    decreases nodes, 0
  {
    if nodes != [] {
      AllBuiltSized(nodes[1..], want);
      NoneBuilt(nodes[0], want);
      if Build(nodes[0], want).Some? {
        BuiltSized(nodes[0], want);
      }
      assert nodes == [nodes[0]] + nodes[1..];
    }
  }

  /** What builds nothing holds no ANY. */
  lemma {:induction false} NoneBuilt(node: Node, want: bool)
    requires AnysMade(node)
    ensures Build(node, want).None? ==> AnysSized(node)
    decreases node, 1
  {
    if Build(node, want).None? && !node.def.kind.Any? {
      assert BuildBare(node, want).None?;
      if node.def.kind.Choice? {
        if Chosen(node.children).Some? {
          ChosenHolds(node, Made, AnyDef);
          NoneBuilt(Chosen(node.children).value, want);
        }
      } else if Container(node.def.kind) {
        AllBuiltSized(node.children, want && !Repeated(node.def.kind));
        assert BuildAll(node.children, want && !Repeated(node.def.kind)) == [];
      }
    }
  }

  // ---------------------------------------------------------------- writing what was built

  /** What may be given to the writer fits its buffers. */
  lemma {:induction false} ProperInRange(t: Tlv)
    requires Proper(t)
    ensures InRange(t)
  {
    if t.content.Children? {
      forall c | c in t.content.tlvs ensures InRange(c) { ProperInRange(c); }
    }
  }

  /** Tag numbers fit an int, and times say which kind they are. */
  predicate SoundDef(def: Def) {
    (def.kind.Time? ==> def.kind.generalized || def.kind.utc)
    && (def.tagging.Some? ==> def.tagging.value.number < INT_LIMIT)
  }

  /** So it is with all definitions, and ANY nodes hold what was read from short headers, or made from that. */
  ghost predicate Sound(node: Node) { Holds(node, Fit, SoundDef) }

  ghost predicate AllSound(nodes: seq<Node>) { AllHold(nodes, Fit, SoundDef) }

  lemma WrappedFits(def: Def, t: Tlv)
    requires Fit(t) && SoundDef(def)
    ensures Fit(Wrapped(def, t))
  {
    assert TotalSize([t]) == t.off + t.len;
  }

  lemma DressTag(def: Def, content: Content)
    requires !def.kind.Any? && !def.kind.Choice? && SoundDef(def)
    ensures Dress(def, content).tag < INT_LIMIT && (Structured(Dress(def, content).cls) <==> Container(def.kind))
  {
    assert UniversalTag(def.kind).Some? && UniversalTag(def.kind).value < 31;
  }

  lemma DressFits(def: Def, content: Content)
    requires !def.kind.Any? && !def.kind.Choice? && SoundDef(def)
    requires content.Children? <==> Container(def.kind)
    requires content.Children? ==> AllFit(content.tlvs)
    ensures Fit(Dress(def, content))
  {
    DressTag(def, content);
  }

  lemma {:induction false} BuiltFits(node: Node, want: bool)
    requires Sound(node) && Build(node, want).Some?
    ensures Fit(Build(node, want).value)
    decreases node, 2
  {
    if !node.def.kind.Any? {
      BareFits(node, want);
      WrappedFits(node.def, BuildBare(node, want).value);
    }
  }

  lemma {:induction false} BareFits(node: Node, want: bool)
    requires Sound(node) && !node.def.kind.Any? && BuildBare(node, want).Some?
    ensures Fit(BuildBare(node, want).value)
    decreases node, 1
  {
    if node.def.kind.Choice? {
      ChosenHolds(node, Fit, SoundDef);
      BuiltFits(Chosen(node.children).value, want);
    } else {
      if Container(node.def.kind) { AllBuiltFit(node.children, want && !Repeated(node.def.kind)); }
      DressFits(node.def, BuildBare(node, want).value.content);
    }
  }

  lemma {:induction false} AllBuiltFit(nodes: seq<Node>, want: bool)
    requires AllSound(nodes)
    ensures AllFit(BuildAll(nodes, want))
    decreases nodes, 0
  {
    if nodes != [] {
      AllBuiltFit(nodes[1..], want);
      if Build(nodes[0], want).Some? { BuiltFits(nodes[0], want); }
    }
  }

  /** What is built of a sound node may be given to the writer and read back. */
  lemma BuiltProper(node: Node, want: bool)
    requires Sound(node) && Build(node, want).Some? && Build(node, want).value.len < INT_LIMIT
    ensures Proper(Build(node, want).value)
  {
    BuiltFits(node, want);
    FitProper(Build(node, want).value);
  }

  /** Encoding a sound node and parsing the octets gives the TLVs that were built. */
  lemma EncodedIsRead(node: Node)
    requires Sound(node) && Build(node, true).Some? && Build(node, true).value.len < INT_LIMIT
    ensures var t := Build(node, true).value;
      Sized(t) && InRange(t) && ParseDer(Encode(t)) == Some(Plain(t))
  {
    var t := Build(node, true).value;
    BuiltProper(node, true);
    ProperInRange(t);
    RoundTrip(t);
  }

  /** A TLV read with a header longer than necessary and put into an ANY node is built with an
      offset the writer does not come to. */
  lemma LongHeaderKept(node: Node)
    requires node.def.kind.Any? && node.parsed == ParseDer([4, 0x81, 1, 7])
    ensures Build(node, true).Some? && !Sized(Build(node, true).value)
  {
    var d := LongHeader();
    assert |EncodeHeader(0, 4, 1)| == 2;
  }

  lemma LongHeader() returns (d: Bytes)
    ensures d == [4, 0x81, 1, 7] && ParseHeader(d) == Some(Header(0, 4, 3, 1))
  {
    d := [4, 0x81, 1, 7];
    assert d[1..][1..] == [1, 7] && [1, 7][1..] == [7];
    assert Append(0, 256, 1) == Some(1);
    assert ScanLength([1, 7], 1, 0) == Some((1, 1));
    assert ParseLength(d[1..]) == Some((1, 2));
  }

  // ---------------------------------------------------------------- what is put into ANY nodes

  /** egg_asn1x_set_any_from: what is built of another node, wrapped in the explicit tag of this one. */
  function SetAnyFrom(node: Node, from: Node): Node {
    match Build(from, true)
    case None => node
    case Some(t) => node.(parsed := Some(Wrapped(node.def, t)))
  }

  /** egg_asn1x_set_any_raw: what is read of some octets, wrapped in the same way. */
  function SetAnyRaw(node: Node, raw: Bytes): (bool, Node) {
    match ParseDer(raw)
    case None => (false, node)
    case Some(t) => (true, node.(parsed := Some(Wrapped(node.def, t))))
  }

  lemma ReadMade(raw: Bytes)
    requires ParseDer(raw).Some?
    ensures var t := ParseDer(raw).value; Made(t) && t.decoded == raw != [] && (ReadShort(t) <==> Short(raw))
  {
    assert raw[..|raw|] == raw;
    ParsedThroughout(raw);
  }

  /** ANY nodes still hold what was read or made, and what is sound stays so. */
  lemma SetFromHolds(node: Node, from: Node)
    ensures AnysMade(node) && AnysMade(from) ==> AnysMade(SetAnyFrom(node, from))
    ensures Sound(node) && Sound(from) ==> Sound(SetAnyFrom(node, from))
  {
    if Build(from, true).Some? {
      var t := Build(from, true).value;
      if AnysMade(from) {
        BuiltMade(from, true);
        WrappedMade(node.def, t);
      }
      if Sound(from) && Sound(node) {
        BuiltFits(from, true);
        WrappedFits(node.def, t);
      }
    }
  }

  lemma SetRawHolds(node: Node, raw: Bytes)
    requires ParseDer(raw).Some?
    ensures AnysMade(node) ==> AnysMade(SetAnyRaw(node, raw).1)
    ensures Sound(node) && Short(raw) ==> Sound(SetAnyRaw(node, raw).1)
  {
    var t := ParseDer(raw).value;
    ReadMade(raw);
    WrappedMade(node.def, t);
    if Sound(node) && Short(raw) { WrappedFits(node.def, t); }
  }

  lemma WrappedLong(def: Def, t: Tlv)
    ensures NoneLong(Wrapped(def, t)) <==> NoneLong(t)
  {
    if Explicit(def, true) { assert t in [t]; }
  }

  /** An ANY that was set from another node is built with the writer's sizes exactly if that node is. */
  lemma SetFromSized(node: Node, from: Node)
    requires node.def.kind.Any? && AnysMade(from) && Build(from, true).Some?
    ensures AnysSized(SetAnyFrom(node, from)) <==> AnysSized(from)
    ensures Sized(Build(SetAnyFrom(node, from), true).value) <==> AnysSized(from)
  {
    var t := Build(from, true).value;
    BuiltMade(from, true);
    MadeSized(t);
    BuiltSized(from, true);
    WrappedLong(node.def, t);
    WrappedSized(node.def, t);
  }

  /** An ANY that was set from octets is built with the writer's sizes exactly if no header of the octets is longer than
    * the writer's. */
  lemma SetRawSized(node: Node, raw: Bytes)
    requires node.def.kind.Any? && ParseDer(raw).Some?
    ensures AnysSized(SetAnyRaw(node, raw).1) <==> Short(raw)
    ensures Sized(Build(SetAnyRaw(node, raw).1, true).value) <==> Short(raw)
  {
    var t := ParseDer(raw).value;
    ReadMade(raw);
    MadeSized(t);
    WrappedLong(node.def, t);
    WrappedSized(node.def, t);
  }

  /** egg_asn1x_get_any_raw after egg_asn1x_set_any_raw: without an explicit tag it gives the octets back, exactly if
    * all their headers are in shortest form, and then the writer's sizes agree; with one it gives them behind its
    * header. */
  lemma RawKept(node: Node, raw: Bytes)
    requires node.def.kind.Any? && ParseDer(raw).Some?
    ensures var w := Build(SetAnyRaw(node, raw).1, true).value;
      Encode(w) == (if Explicit(node.def, true) then EncodeHeader(w.cls, w.tag, w.len) else []) + raw <==> Minimal(raw)
    ensures Minimal(raw) ==> Sized(Build(SetAnyRaw(node, raw).1, true).value)
  {
    var t := ParseDer(raw).value;
    if Minimal(raw) {
      ShortestIsShort(raw);
      SetRawSized(node, raw);
    }
    WrittenBack(raw);
    if Explicit(node.def, true) {
      var w := Wrapped(node.def, t);
      var head := EncodeHeader(w.cls, w.tag, w.len);
      assert EncodeAll([t]) == Encode(t) + [] == Encode(t);
      SameParts(head, Encode(t), head, raw) by { EncodedShrinks(raw); }
    } else {
      assert [] + raw == raw;
    }
  }

  // ---------------------------------------------------------------- the loop over the children

  lemma {:induction false} BuildAllNext(nodes: seq<Node>, k: nat, want: bool)
    requires k < |nodes|
    ensures BuildAll(nodes[..k + 1], want) == BuildAll(nodes[..k], want) + Single(Build(nodes[k], want))
  {
    if k == 0 {
      assert nodes[..1] == [nodes[0]] && BuildAll([], want) == [];
    } else {
      BuildAllNext(nodes[1..], k - 1, want);
      assert nodes[1..][..k] == nodes[..k + 1][1..] && nodes[1..][..k - 1] == nodes[..k][1..];
    }
  }

  /** The loop of anode_build_structured: it links the children and adds up their sizes. */
  method CollectChildren(nodes: seq<Node>, want: bool) returns (tlvs: seq<Tlv>, len: nat)
    ensures tlvs == BuildAll(nodes, want) && len == TotalSize(tlvs)
  {
    tlvs, len := [], 0;
    for k := 0 to |nodes|
      invariant tlvs == BuildAll(nodes[..k], want) && len == TotalSize(tlvs)
    {
      BuildAllNext(nodes, k, want);
      var ctlv := Build(nodes[k], want);
      if ctlv.Some? {
        EncodeAppend(tlvs, ctlv.value);
        tlvs := tlvs + [ctlv.value];
        len := len + ctlv.value.off + ctlv.value.len;
      }
    }
    assert nodes[..|nodes|] == nodes;
  }
}
