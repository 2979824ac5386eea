/** What decoding by a schema of egg/egg-asn1x.c depends on and keeps: the definitions of its nodes, not what they hold
  * nor how many elements the lists in it have. */
module Outlines {
  import opened Wrappers
  import opened Headers
  import opened Tlvs
  import opened Schema
  import opened Builder

  /** A node without what was decoded, with one element in every list. */
  function Outline(node: Node): Node
    decreases node, 1
  {
    var outlined := if !Repeated(node.def.kind) then OutlineAll(node.children)
      else if node.children == [] then [] else [Outline(node.children[0])];
    Node(node.def, None, 0, false, None, false, outlined)
  }

  function OutlineAll(nodes: seq<Node>): (r: seq<Node>)
    ensures |r| == |nodes|
    decreases nodes, 0
  {
    if nodes == [] then [] else [Outline(nodes[0])] + OutlineAll(nodes[1..])
  }

  ghost predicate Same(a: Node, b: Node) { Outline(a) == Outline(b) }

  ghost predicate AllSame(a: seq<Node>, b: seq<Node>) { OutlineAll(a) == OutlineAll(b) }

  lemma SameOutline(a: Node, b: Node)
    requires Same(a, b)
    ensures a.def == b.def
    ensures !Repeated(a.def.kind) ==> AllSame(a.children, b.children)
    ensures Repeated(a.def.kind) ==> (a.children == [] <==> b.children == [])
    ensures Repeated(a.def.kind) && a.children != [] ==> Same(a.children[0], b.children[0])
  {
    if Repeated(a.def.kind) && a.children != [] {
      assert [Outline(a.children[0])] == Outline(a).children == Outline(b).children;
      assert [Outline(a.children[0])][0] == Outline(b).children[0];
    }
  }

  lemma SameFirst(a: seq<Node>, b: seq<Node>)
    requires AllSame(a, b)
    ensures |a| == |b|
    ensures a != [] ==> Same(a[0], b[0]) && AllSame(a[1..], b[1..])
  {
    if a != [] {
      assert OutlineAll(a)[0] == Outline(a[0]) && OutlineAll(a)[1..] == OutlineAll(a[1..]);
      assert OutlineAll(b)[0] == Outline(b[0]) && OutlineAll(b)[1..] == OutlineAll(b[1..]);
    }
  }

  lemma {:induction false} BlankSame(node: Node)
    ensures Same(Blank(node), node)
    decreases node, 1
  {
    if !Repeated(node.def.kind) {
      AllBlankSame(node.children);
    } else if node.children != [] {
      BlankSame(node.children[0]);
      assert Blank(node).children == BlankAll(node.children);
    }
  }

  lemma {:induction false} AllBlankSame(nodes: seq<Node>)
    ensures AllSame(BlankAll(nodes), nodes)
    decreases nodes, 0
  {
    if nodes != [] {
      BlankSame(nodes[0]);
      AllBlankSame(nodes[1..]);
    }
  }

  /** The same decision about nodes of one outline, which they keep. */
  ghost predicate Alike(a: Node, b: Node, r: Outcome, s: Outcome) {
    r.0 == s.0 && Same(r.1, a) && Same(s.1, b)
  }

  ghost predicate AllAlike(a: seq<Node>, b: seq<Node>, r: (bool, seq<Node>), s: (bool, seq<Node>)) {
    r.0 == s.0 && AllSame(r.1, a) && AllSame(s.1, b)
  }

  lemma {:induction false} UntaggedAlike(a: Node, b: Node, tlv: Tlv, tagged: bool)
    requires Shaped(tlv) && Same(a, b)
    ensures Alike(a, b, DecodeUntagged(a, tlv, tagged), DecodeUntagged(b, tlv, tagged))
    decreases tlv, a, 1
  {
    SameOutline(a, b);
    if Explicit(a.def, tagged) {
      if tlv.cls / 128 != 0 && tlv.content.Children? && |tlv.content.tlvs| == 1 {
        FirstShaped(tlv.content.tlvs);
        UntaggedAlike(a, b, tlv.content.tlvs[0], false);
      }
    } else if Structured(tlv.cls) {
      StructuredAlike(a, b, tlv);
    } else {
      PrimitiveAlike(a, b, tlv);
    }
  }

  lemma PrimitiveKeeps(node: Node, tlv: Tlv)
    requires Shaped(tlv) && !Structured(tlv.cls) && !node.def.kind.Choice?
    ensures DecodePrimitive(node, tlv).1.def == node.def && DecodePrimitive(node, tlv).1.children == node.children
  {
  }

  lemma OutlineOf(a: Node, b: Node)
    requires b.def == a.def && b.children == a.children
    ensures Same(b, a)
  {
  }

  lemma {:induction false} PrimitiveAlike(a: Node, b: Node, tlv: Tlv)
    requires Shaped(tlv) && !Structured(tlv.cls) && Same(a, b)
    ensures Alike(a, b, DecodePrimitive(a, tlv), DecodePrimitive(b, tlv))
    decreases tlv, a, 0
  {
    SameOutline(a, b);
    if a.def.kind.Choice? {
      ChoiceAlike(a, b, tlv);
    } else {
      PrimitiveKeeps(a, tlv);
      PrimitiveKeeps(b, tlv);
      OutlineOf(a, DecodePrimitive(a, tlv).1);
      OutlineOf(b, DecodePrimitive(b, tlv).1);
    }
  }

  lemma {:induction false} StructuredAlike(a: Node, b: Node, tlv: Tlv)
    requires Shaped(tlv) && Structured(tlv.cls) && Same(a, b)
    ensures Alike(a, b, DecodeStructured(a, tlv), DecodeStructured(b, tlv))
    decreases tlv, a, 0
  {
    SameOutline(a, b);
    match a.def.kind
    case Choice => ChoiceAlike(a, b, tlv);
    case Sequence => MembersAlike(a, b, tlv.content.tlvs);
    case Set => MembersAlike(a, b, tlv.content.tlvs);
    case SequenceOf => ElementsAlike(a, b, tlv.content.tlvs);
    case SetOf => ElementsAlike(a, b, tlv.content.tlvs);
    case _ =>
  }

  lemma {:induction false} OneAlike(a: Node, b: Node, tlv: Tlv)
    requires Shaped(tlv) && Same(a, b)
    ensures Alike(a, b, DecodeOne(a, tlv), DecodeOne(b, tlv))
    decreases tlv, a, 2
  {
    SameOutline(a, b);
    if Agrees(a, tlv) { UntaggedAlike(a, b, tlv, true); }
  }

  lemma {:induction false} ChoiceAlike(a: Node, b: Node, tlv: Tlv)
    requires Shaped(tlv) && Same(a, b) && a.def.kind.Choice?
    ensures Alike(a, b, DecodeChoice(a, tlv), DecodeChoice(b, tlv))
    decreases tlv, a.children, 1
  {
    SameOutline(a, b);
    AlternativesAlike(a.children, b.children, tlv);
  }

  lemma {:induction false} AlternativesAlike(a: seq<Node>, b: seq<Node>, tlv: Tlv)
    requires Shaped(tlv) && AllSame(a, b)
    ensures AllSame(DecodeAlternatives(a, tlv), a) && AllSame(DecodeAlternatives(b, tlv), b) && |a| == |b|
    ensures forall k | 0 <= k < |a| :: DecodeAlternatives(a, tlv)[k].chosen == DecodeAlternatives(b, tlv)[k].chosen
    decreases tlv, a, 0
  {
    SameFirst(a, b);
    if a != [] {
      OneAlike(a[0], b[0], tlv);
      AlternativesAlike(a[1..], b[1..], tlv);
    }
  }

  lemma {:induction false} MembersAlike(a: Node, b: Node, tlvs: seq<Tlv>)
    requires AllShaped(tlvs) && Same(a, b) && !Repeated(a.def.kind)
    ensures Alike(a, b, DecodeMembers(a, tlvs), DecodeMembers(b, tlvs))
    decreases tlvs, a.children, 1
  {
    SameOutline(a, b);
    SameFirst(a.children, b.children);
    AnythingAlike(a.children, b.children, tlvs);
  }

  lemma {:induction false} ElementsAlike(a: Node, b: Node, tlvs: seq<Tlv>)
    requires AllShaped(tlvs) && Same(a, b) && Repeated(a.def.kind)
    ensures Alike(a, b, DecodeElements(a, tlvs), DecodeElements(b, tlvs))
    decreases tlvs, a, 1
  {
    SameOutline(a, b);
    if a.children != [] && tlvs != [] {
      var x, y := a.children[0], b.children[0];
      OneAlike(x, y, tlvs[0]);
      var c, d := DecodeOne(x, tlvs[0]).1, DecodeOne(y, tlvs[0]).1;
      SameOutline(x, y);
      CopiesAlike(c, d, CalcTag(x.def, true), tlvs[1..]);
    }
  }

  lemma {:induction false} CopiesAlike(a: Node, b: Node, tag: Option<nat>, tlvs: seq<Tlv>)
    requires AllShaped(tlvs) && Same(a, b)
    ensures DecodeCopies(a, tag, tlvs).0 == DecodeCopies(b, tag, tlvs).0
    decreases tlvs
  {
    if tlvs != [] {
      BlankSame(a);
      BlankSame(b);
      OneAlike(Blank(a), Blank(b), tlvs[0]);
      CopiesAlike(a, b, tag, tlvs[1..]);
    }
  }

  lemma {:induction false} AnythingAlike(a: seq<Node>, b: seq<Node>, tlvs: seq<Tlv>)
    requires AllShaped(tlvs) && AllSame(a, b)
    ensures AllAlike(a, b, DecodeAnything(a, tlvs), DecodeAnything(b, tlvs))
    decreases tlvs, a, 0
  {
    SameFirst(a, b);
    if tlvs == [] {
      NothingAlike(a, b);
    } else if a != [] {
      SameOutline(a[0], b[0]);
      if Agrees(a[0], tlvs[0]) {
        UntaggedAlike(a[0], b[0], tlvs[0], true);
        AnythingAlike(a[1..], b[1..], tlvs[1..]);
      } else if Skippable(a[0]) && |a| > 1 {
        AnythingAlike(a[1..], b[1..], tlvs);
      }
    }
  }

  lemma {:induction false} NothingAlike(a: seq<Node>, b: seq<Node>)
    requires AllSame(a, b)
    ensures AllAlike(a, b, DecodeNothing(a), DecodeNothing(b))
  {
    SameFirst(a, b);
    if a != [] {
      SameOutline(a[0], b[0]);
      NothingAlike(a[1..], b[1..]);
    }
  }
}
