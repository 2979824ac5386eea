/** The octets that egg_asn1x_encode of egg/egg-asn1x.c writes for a node, kind by kind, as ITU-T X.690 has them. */
module Encodings {
  import opened Wrappers
  import opened Numerals
  import opened Headers
  import opened Tlvs
  import opened Schema
  import opened Builder

  /** The octets that are written for a node, if any. */
  function Octets(node: Node, want: bool): Option<Bytes> {
    match Build(node, want)
    case None => None
    case Some(t) => Some(Encode(t))
  }

  lemma Dressed(def: Def, content: Content) returns (u: nat)
    requires def.tagging == None && UniversalTag(def.kind).Some?
    ensures u == UniversalTag(def.kind).value + (if Container(def.kind) then 32 else 0) < 256
    ensures Encode(Dress(def, content)) == [u] + (EncodeLength(ContentSize(content)) + Inner(content))
  {
    var t := Dress(def, content);
    u := t.cls + t.tag;
    assert EncodeTag(t.cls, t.tag) == [u];
    assert Encode(t) == [u] + EncodeLength(t.len) + Inner(content);
  }

  /** The octets inside a TLV. */
  function Inner(content: Content): Bytes {
    match content
    case Value(bytes, prefix) => Payload(bytes, prefix)
    case Children(ts) => EncodeAll(ts)
  }

  /** A value with nothing around it. */
  lemma Bare(node: Node, want: bool, b: Bytes, prefix: Prefix) returns (u: nat)
    requires node.def.tagging == None && node.value == Some(b) && UniversalTag(node.def.kind).Some?
    requires !Container(node.def.kind)
    requires prefix == if node.def.kind.BitString? then EmptyBits(node.bitsEmpty)
      else if node.def.kind.Integer? then IntegerPrefix(node, b) else NoPrefix
    ensures u == UniversalTag(node.def.kind).value < 256
    ensures Octets(node, want) ==
      Some([u] + (EncodeLength(|b| + if prefix.NoPrefix? then 0 else 1) + Payload(b, prefix)))
  {
    var content := Value(b, prefix);
    u := Dressed(node.def, content);
    assert Build(node, want) == Some(Dress(node.def, content));
    assert ContentSize(content) == |b| + if prefix.NoPrefix? then 0 else 1;
  }

  /** An untagged value is written as it is behind its length and the number that X.680 gives its type. */
  lemma ValueOctets(node: Node, want: bool, b: Bytes)
    requires node.def.tagging == None && node.value == Some(b)
    ensures var lv := EncodeLength(|b|) + b;
      match node.def.kind
      case Boolean => Octets(node, want) == Some([1] + lv)
      case Integer => !node.unsigned ==> Octets(node, want) == Some([2] + lv)
      case OctetString => Octets(node, want) == Some([4] + lv)
      case Null => Octets(node, want) == Some([5] + lv)
      case ObjectId => Octets(node, want) == Some([6] + lv)
      case Enumerated => Octets(node, want) == Some([10] + lv)
      case Utf8String => Octets(node, want) == Some([12] + lv)
      case NumericString => Octets(node, want) == Some([18] + lv)
      case PrintableString => Octets(node, want) == Some([19] + lv)
      case TeletexString => Octets(node, want) == Some([20] + lv)
      case Ia5String => Octets(node, want) == Some([22] + lv)
      case UtcTime => Octets(node, want) == Some([23] + lv)
      case GeneralizedTime => Octets(node, want) == Some([24] + lv)
      case Time(generalized, utc) =>
        && (generalized ==> Octets(node, want) == Some([24] + lv))
        && (!generalized && utc ==> Octets(node, want) == Some([23] + lv))
      case VisibleString => Octets(node, want) == Some([26] + lv)
      case GeneralString => Octets(node, want) == Some([27] + lv)
      case UniversalString => Octets(node, want) == Some([28] + lv)
      case BmpString => Octets(node, want) == Some([30] + lv)
      case _ => true
  {
    if UniversalTag(node.def.kind).Some? && !Container(node.def.kind) && !node.def.kind.BitString?
      && !(node.def.kind.Integer? && node.unsigned) {
      var u := Bare(node, want, b, NoPrefix);
    }
  }

  /** A bit string is its number of empty bits and its octets, those bits set to zero. */
  lemma BitStringOctets(node: Node, want: bool, b: Bytes) returns (m: Bytes)
    requires node.def.kind.BitString? && node.def.tagging == None && node.value == Some(b)
    ensures Octets(node, want) == Some([3] + (EncodeLength(|b| + 1) + ([node.bitsEmpty] + m)))
    ensures |m| == |b| && forall i | 0 <= i < |b| ::
      m[i] == if i + 1 < |b| then b[i] else b[i] - b[i] % Power(node.bitsEmpty)
  {
    var u := Bare(node, want, b, EmptyBits(node.bitsEmpty));
    m := Masked(b, node.bitsEmpty);
  }

  /** The integer that the contents of an INTEGER stand for (section 8.3 of X.690). */
  function TwosComplement(c: Bytes): int {
    Val(c, 256) - if c != [] && c[0] >= 128 then Power(8 * |c|) else 0
  }

  lemma {:induction false} ZeroOctetVal(b: Bytes)
    ensures Val([0] + b, 256) == Val(b, 256)
  {
    if b == [] {
      assert [0][..0] == [] && [0] + b == [0];
    } else {
      var n := |b| - 1;
      assert ([0] + b)[..n + 1] == [0] + b[..n];
      ZeroOctetVal(b[..n]);
    }
  }

  /** An unsigned integer is written so that it reads as the number that its octets stand for, with no more than one
    * octet in front; it is never negative. */
  lemma UnsignedOctets(node: Node, want: bool, b: Bytes) returns (c: Bytes)
    requires node.def.kind.Integer? && node.unsigned && node.def.tagging == None && node.value == Some(b)
    ensures Octets(node, want) == Some([2] + (EncodeLength(|c|) + c))
    ensures TwosComplement(c) == Val(b, 256) && (c != [] ==> c[0] < 128)
    ensures c == b || (c == [0] + b && b != [] && b[0] >= 128)
  {
    var prefix := IntegerPrefix(node, b);
    c := Payload(b, prefix);
    var u := Bare(node, want, b, prefix);
    if prefix.ZeroOctet? { ZeroOctetVal(b); }
  }

  /** The octets of those nodes that are written, in order. */
  function AllOctets(nodes: seq<Node>, want: bool): Bytes {
    if nodes == [] then [] else
      (match Octets(nodes[0], want) case None => [] case Some(e) => e) + AllOctets(nodes[1..], want)
  }

  lemma {:induction false} CollectedOctets(nodes: seq<Node>, want: bool)
    ensures EncodeAll(BuildAll(nodes, want)) == AllOctets(nodes, want)
    ensures BuildAll(nodes, want) == [] <==> AllOctets(nodes, want) == []
  {
    if nodes != [] {
      CollectedOctets(nodes[1..], want);
      var t := Build(nodes[0], want);
      var rest := BuildAll(nodes[1..], want);
      if t.Some? {
        assert ([t.value] + rest)[1..] == rest;
      } else {
        assert [] + rest == rest && [] + AllOctets(nodes[1..], want) == AllOctets(nodes[1..], want);
      }
    }
  }

  lemma DressedMembers(def: Def, ts: seq<Tlv>)
    requires Container(def.kind) && def.tagging == None
    ensures Encode(Dress(def, Children(ts))) ==
      [if def.kind.Sequence? || def.kind.SequenceOf? then 0x30 else 0x31]
      + (EncodeLength(TotalSize(ts)) + EncodeAll(ts))
  {
    var u := Dressed(def, Children(ts));
  }

  lemma BuiltContainer(node: Node, want: bool)
    requires Container(node.def.kind)
    ensures var ts := BuildAll(node.children, want && !Repeated(node.def.kind));
      BuildBare(node, want) ==
        if ts == [] && !(want && !node.def.optional) then None else Some(Dress(node.def, Children(ts)))
  {
  }

  lemma MembersSize(node: Node, want: bool)
    requires Container(node.def.kind) && AnysMade(node) && AnysSized(node)
    ensures TotalSize(BuildAll(node.children, want)) == |AllOctets(node.children, want)|
  {
    assert AllAnysSized(node.children) && AllAnysMade(node.children);
    AllBuiltSized(node.children, want);
    SizedTotal(BuildAll(node.children, want));
    CollectedOctets(node.children, want);
  }

  /** A SEQUENCE or SET is its members, in order, and a SEQUENCE OF or SET OF its elements. One without any is written
    * only where it is wanted and not optional; elements are never wanted. */
  lemma ContainerOctets(node: Node, want: bool)
    requires Container(node.def.kind) && node.def.tagging == None && AnysMade(node) && AnysSized(node)
    ensures var repeated := node.def.kind.SequenceOf? || node.def.kind.SetOf?;
      var c := AllOctets(node.children, want && !repeated);
      match Octets(node, want)
      case None => c == [] && !(want && !node.def.optional)
      case Some(e) =>
        && e == [if node.def.kind.Sequence? || node.def.kind.SequenceOf? then 0x30 else 0x31] + (EncodeLength(|c|) + c)
        && (c == [] ==> want && !node.def.optional)
  {
    var inner := want && !Repeated(node.def.kind);
    var ts := BuildAll(node.children, inner);
    CollectedOctets(node.children, inner);
    MembersSize(node, inner);
    BuiltContainer(node, want);
    DressedMembers(node.def, ts);
  }

  /** A CHOICE is its first chosen alternative. */
  lemma ChoiceOctets(node: Node, want: bool, k: nat)
    requires node.def.kind.Choice? && !Explicit(node.def, true)
    requires k < |node.children| && node.children[k].chosen && forall i | 0 <= i < k :: !node.children[i].chosen
    ensures Octets(node, want) == Octets(node.children[k], want)
  {
    FirstChosen(node.children, k);
    assert BuildBare(node, want) == Build(node.children[k], want);
  }

  lemma {:induction false} FirstChosen(nodes: seq<Node>, k: nat)
    requires k < |nodes| && nodes[k].chosen && forall i | 0 <= i < k :: !nodes[i].chosen
    ensures Chosen(nodes) == Some(nodes[k])
  {
    if k > 0 { FirstChosen(nodes[1..], k - 1); }
  }

  /** The same node without its tag. */
  function Untag(node: Node): Node { node.(def := node.def.(tagging := None)) }

  lemma UntaggedBare(node: Node, want: bool)
    requires !node.def.kind.Any? && Explicit(node.def, true)
    ensures Build(Untag(node), want) == BuildBare(Untag(node), want) == BuildBare(node, want)
  {
    var plain := Untag(node);
    assert !Explicit(plain.def, true) && forall content :: Dress(plain.def, content) == Dress(node.def, content);
    if node.value.Some? { assert IntegerPrefix(plain, node.value.value) == IntegerPrefix(node, node.value.value); }
  }

  lemma BareSize(node: Node, want: bool)
    requires !node.def.kind.Any? && AnysMade(node) && AnysSized(node) && BuildBare(node, want).Some?
    ensures var t := BuildBare(node, want).value; |Encode(t)| == t.off + t.len
  {
    BuiltSized(node, want);
    WrappedSized(node.def, BuildBare(node, want).value);
    SizedSize(BuildBare(node, want).value);
  }

  /** An explicit tag is one more header around the octets there would be without it. */
  lemma ExplicitOctets(node: Node, want: bool)
    requires !node.def.kind.Any? && Explicit(node.def, true) && AnysMade(node) && AnysSized(node)
    ensures var tagging := node.def.tagging.value;
      match Octets(Untag(node), want)
      case None => Octets(node, want) == None
      case Some(e) => Octets(node, want) == Some(EncodeHeader(tagging.cls + 32, tagging.number, |e|) + e)
  {
    UntaggedBare(node, want);
    if BuildBare(node, want).Some? {
      var t := BuildBare(node, want).value;
      BareSize(node, want);
      WrappedOctets(node.def, t);
      assert Build(node, want) == Some(Wrapped(node.def, t));
    }
  }

  lemma WrappedOctets(def: Def, t: Tlv)
    requires Explicit(def, true)
    ensures Encode(Wrapped(def, t)) ==
      EncodeHeader(def.tagging.value.cls + 32, def.tagging.value.number, t.off + t.len) + Encode(t)
  {
    assert EncodeAll([t]) == Encode(t) + [] == Encode(t);
  }

  /** An implicit tag is written in place of the one octet of the type's own; whether there are members inside is still
    * said. */
  lemma ImplicitOctets(node: Node, want: bool)
    requires !node.def.kind.Any? && !node.def.kind.Choice? && UniversalTag(node.def.kind).Some?
    requires node.def.tagging.Some? && node.def.tagging.value.implicit
    ensures var tagging := node.def.tagging.value;
      match Octets(Untag(node), want)
      case None => Octets(node, want) == None
      case Some(e) =>
        var cls: Class := tagging.cls + if Container(node.def.kind) then 32 else 0;
        Octets(node, want) == Some(EncodeTag(cls, tagging.number) + e[1..])
  {
    var plain := Untag(node);
    ImplicitBare(node, want);
    if BuildBare(node, want).Some? {
      var t, u := BuildBare(node, want).value, BuildBare(plain, want).value;
      var x := Dressed(plain.def, u.content);
      var rest := EncodeLength(u.len) + Inner(u.content);
      assert Encode(u)[1..] == rest;
      assert EncodeTag(t.cls, t.tag) + EncodeLength(t.len) + Inner(t.content) ==
        EncodeTag(t.cls, t.tag) + rest;
    }
  }

  lemma ImplicitBare(node: Node, want: bool)
    requires !node.def.kind.Any? && !node.def.kind.Choice?
    requires node.def.tagging.Some? && node.def.tagging.value.implicit
    ensures Build(node, want) == BuildBare(node, want) && Build(Untag(node), want) == BuildBare(Untag(node), want)
    ensures match BuildBare(node, want)
      case None => BuildBare(Untag(node), want) == None
      case Some(t) =>
        && t == Dress(node.def, t.content) && BuildBare(Untag(node), want) == Some(Dress(Untag(node).def, t.content))
  {
    if node.value.Some? {
      assert IntegerPrefix(Untag(node), node.value.value) == IntegerPrefix(node, node.value.value);
    }
  }
}
