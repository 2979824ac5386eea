/** What a successful match of schema members against TLVs means. */
module Matching {
  import opened Wrappers
  import opened Headers
  import opened Tlvs
  import opened Schema

  /** Which node each TLV is paired with. */
  type Pairing = map<nat, nat>

  /** The first node that TLV number j can be paired with, when matching began at node i0 and TLV j0. */
  function Start(f: Pairing, i0: nat, j0: nat, j: nat): nat
    requires j > j0 ==> j - 1 in f
  {
    if j <= j0 then i0 else f[j - 1] + 1
  }

  /** TLV j is paired with an agreeing node behind that of the TLV before it. */
  ghost predicate Picks(nodes: seq<Node>, tlvs: seq<Tlv>, i0: nat, j0: nat, f: Pairing, j: nat)
    requires j < |tlvs|
  {
    j in f && (j > j0 ==> j - 1 in f) && Start(f, i0, j0, j) <= f[j] < |nodes| && Agrees(nodes[f[j]], tlvs[j])
  }

  /** Node i may be absent and does not take the TLV. */
  ghost predicate Passed(node: Node, tlv: Tlv) { Skippable(node) && !Agrees(node, tlv) }

  /** From node i0 and TLV j0 on, TLVs are paired with a strictly increasing choice of agreeing nodes,
      each the first that agrees; nodes left out may be absent. */
  ghost predicate LeftmostFrom(nodes: seq<Node>, tlvs: seq<Tlv>, i0: nat, j0: nat, f: Pairing) {
    && i0 <= |nodes| && j0 <= |tlvs|
    && (forall j {:trigger Picks(nodes, tlvs, i0, j0, f, j)} | j0 <= j < |tlvs| :: Picks(nodes, tlvs, i0, j0, f, j))
    && (forall j, i {:trigger Passed(nodes[i], tlvs[j])} | j0 <= j < |tlvs| && Picks(nodes, tlvs, i0, j0, f, j)
      && Start(f, i0, j0, j) <= i < f[j] :: Passed(nodes[i], tlvs[j]))
    && (forall i | (|tlvs| > j0 ==> |tlvs| - 1 in f) && Start(f, i0, j0, |tlvs|) <= i < |nodes| :: Skippable(nodes[i]))
  }

  ghost predicate Leftmost(nodes: seq<Node>, tlvs: seq<Tlv>, f: Pairing) {
    LeftmostFrom(nodes, tlvs, 0, 0, f)
  }

  /** Node i is some TLV's. */
  ghost predicate Taken(f: Pairing, j0: nat, n: nat, i: nat) {
    exists j :: j0 <= j < n && j in f && f[j] == i
  }

  /** Paired nodes hold what decoding their TLV gives, the others are cleared. */
  ghost predicate Fills(nodes: seq<Node>, tlvs: seq<Tlv>, i0: nat, j0: nat, f: Pairing, nodes': seq<Node>)
    requires AllShaped(tlvs) && LeftmostFrom(nodes, tlvs, i0, j0, f)
  {
    && |nodes'| == |nodes|
    && (forall j {:trigger Picks(nodes, tlvs, i0, j0, f, j)} | j0 <= j < |tlvs| ::
      Picks(nodes, tlvs, i0, j0, f, j) && DecodeUntagged(nodes[f[j]], tlvs[j], true) == (true, nodes'[f[j]]))
    && (forall i {:trigger Taken(f, j0, |tlvs|, i)} | i0 <= i < |nodes|
      && !Taken(f, j0, |tlvs|, i) :: nodes'[i] == Cleared(nodes[i]))
  }

  lemma {:induction false} NothingLeft(nodes: seq<Node>)
    ensures DecodeNothing(nodes).0 <==> forall i | 0 <= i < |nodes| :: Skippable(nodes[i])
    ensures DecodeNothing(nodes).0 ==> forall i | 0 <= i < |nodes| :: DecodeNothing(nodes).1[i] == Cleared(nodes[i])
  {
    if nodes != [] {
      NothingLeft(nodes[1..]);
      assert forall i | 0 < i < |nodes| :: nodes[i] == nodes[1..][i - 1];
    }
  }

  /** A node is skipped. */
  lemma SkipLeftmost(nodes: seq<Node>, tlvs: seq<Tlv>, i0: nat, j0: nat, f: Pairing)
    requires i0 < |nodes| && j0 < |tlvs| && Passed(nodes[i0], tlvs[j0])
    requires LeftmostFrom(nodes, tlvs, i0 + 1, j0, f)
    ensures LeftmostFrom(nodes, tlvs, i0, j0, f)
  {
    forall j | j0 <= j < |tlvs| ensures Picks(nodes, tlvs, i0, j0, f, j) {
      assert Picks(nodes, tlvs, i0 + 1, j0, f, j);
    }
  }

  /** The first node takes the first TLV. */
  lemma TakeLeftmost(nodes: seq<Node>, tlvs: seq<Tlv>, i0: nat, j0: nat, f: Pairing)
    requires i0 < |nodes| && j0 < |tlvs| && Agrees(nodes[i0], tlvs[j0])
    requires LeftmostFrom(nodes, tlvs, i0 + 1, j0 + 1, f)
    ensures LeftmostFrom(nodes, tlvs, i0, j0, f[j0 := i0])
  {
    var g := f[j0 := i0];
    forall j | j0 <= j < |tlvs| ensures Picks(nodes, tlvs, i0, j0, g, j) {
      if j > j0 { assert Picks(nodes, tlvs, i0 + 1, j0 + 1, f, j); }
    }
    forall j, i | j0 <= j < |tlvs| && Picks(nodes, tlvs, i0, j0, g, j)
      && Start(g, i0, j0, j) <= i < g[j] ensures Passed(nodes[i], tlvs[j]) {
      assert Picks(nodes, tlvs, i0 + 1, j0 + 1, f, j);
    }
  }

  lemma SkipFills(nodes: seq<Node>, tlvs: seq<Tlv>, i0: nat, j0: nat, f: Pairing, nodes': seq<Node>)
    requires AllShaped(tlvs) && i0 < |nodes| && j0 < |tlvs| && Passed(nodes[i0], tlvs[j0])
    requires LeftmostFrom(nodes, tlvs, i0 + 1, j0, f) && LeftmostFrom(nodes, tlvs, i0, j0, f)
    requires Fills(nodes, tlvs, i0 + 1, j0, f, nodes') && nodes'[i0] == Cleared(nodes[i0])
    ensures Fills(nodes, tlvs, i0, j0, f, nodes')
  {
    forall j | j0 <= j < |tlvs|
      ensures Picks(nodes, tlvs, i0, j0, f, j) && DecodeUntagged(nodes[f[j]], tlvs[j], true) == (true, nodes'[f[j]])
    {
      assert Picks(nodes, tlvs, i0 + 1, j0, f, j);
    }
  }

  lemma TakenFirst(f: Pairing, i0: nat, j0: nat, n: nat, i: nat)
    requires j0 < n && !Taken(f[j0 := i0], j0, n, i)
    ensures i != i0 && !Taken(f, j0 + 1, n, i)
  {
    var g := f[j0 := i0];
    assert g[j0] == i0;
    forall j | j0 + 1 <= j < n && j in f ensures f[j] != i {
      assert g[j] == f[j];
    }
  }

  lemma TakeFills(nodes: seq<Node>, tlvs: seq<Tlv>, i0: nat, j0: nat, f: Pairing, nodes': seq<Node>)
    requires AllShaped(tlvs) && i0 < |nodes| && j0 < |tlvs| && Agrees(nodes[i0], tlvs[j0])
    requires LeftmostFrom(nodes, tlvs, i0 + 1, j0 + 1, f) && LeftmostFrom(nodes, tlvs, i0, j0, f[j0 := i0])
    requires Fills(nodes, tlvs, i0 + 1, j0 + 1, f, nodes')
    requires DecodeUntagged(nodes[i0], tlvs[j0], true) == (true, nodes'[i0])
    ensures Fills(nodes, tlvs, i0, j0, f[j0 := i0], nodes')
  {
    var g := f[j0 := i0];
    forall j | j0 <= j < |tlvs|
      ensures Picks(nodes, tlvs, i0, j0, g, j) && DecodeUntagged(nodes[g[j]], tlvs[j], true) == (true, nodes'[g[j]])
    {
      assert Picks(nodes, tlvs, i0, j0, g, j);
      if j > j0 { assert Picks(nodes, tlvs, i0 + 1, j0 + 1, f, j); }
    }
    forall i | i0 <= i < |nodes| && !Taken(g, j0, |tlvs|, i) ensures nodes'[i] == Cleared(nodes[i]) {
      TakenFirst(f, i0, j0, |tlvs|, i);
    }
  }

  /** One step of the match, in terms of positions. */
  lemma MatchStep(nodes: seq<Node>, tlvs: seq<Tlv>, i0: nat, j0: nat)
    requires AllShaped(tlvs) && i0 < |nodes| && j0 < |tlvs|
    ensures DecodeAnything(nodes[i0..], tlvs[j0..]) ==
      var n, t := nodes[i0], tlvs[j0];
      if Agrees(n, t) then
        var (ok, n') := DecodeUntagged(n, t, true);
        if !ok then (false, [n'] + nodes[i0 + 1..]) else
        var (done, rest) := DecodeAnything(nodes[i0 + 1..], tlvs[j0 + 1..]);
        (done, [n'] + rest)
      else if !Skippable(n) then (false, nodes[i0..])
      else if i0 + 1 == |nodes| then (false, [Cleared(n)])
      else
        var (done, rest) := DecodeAnything(nodes[i0 + 1..], tlvs[j0..]);
        (done, [Cleared(n)] + rest)
  {
    assert nodes[i0..][1..] == nodes[i0 + 1..] && tlvs[j0..][1..] == tlvs[j0 + 1..];
  }

  /** What node i0 becomes is of no concern to the pairing behind it. */
  lemma PutFront(nodes: seq<Node>, tlvs: seq<Tlv>, i0: nat, j0: nat, f: Pairing, nodes': seq<Node>, r: seq<Node>)
    returns (nodes'': seq<Node>)
    requires AllShaped(tlvs) && i0 < |nodes| && LeftmostFrom(nodes, tlvs, i0 + 1, j0, f)
    requires Fills(nodes, tlvs, i0 + 1, j0, f, nodes')
    requires r != [] && r[1..] == nodes'[i0 + 1..]
    ensures Fills(nodes, tlvs, i0 + 1, j0, f, nodes'') && nodes''[i0] == r[0] && nodes''[i0..] == r
  {
    nodes'' := nodes'[i0 := r[0]];
    forall j | j0 <= j < |tlvs|
      ensures Picks(nodes, tlvs, i0 + 1, j0, f, j)
      ensures DecodeUntagged(nodes[f[j]], tlvs[j], true) == (true, nodes''[f[j]])
    {
      assert Picks(nodes, tlvs, i0 + 1, j0, f, j);
      BehindStart(nodes, tlvs, i0 + 1, j0, f, j);
    }
    assert nodes''[i0..] == [r[0]] + nodes'[i0 + 1..];
    assert r == [r[0]] + r[1..];
  }

  lemma {:induction false} BehindStart(nodes: seq<Node>, tlvs: seq<Tlv>, i0: nat, j0: nat, f: Pairing, j: nat)
    requires LeftmostFrom(nodes, tlvs, i0, j0, f) && j0 <= j < |tlvs|
    ensures Picks(nodes, tlvs, i0, j0, f, j) && f[j] >= i0
  {
    assert Picks(nodes, tlvs, i0, j0, f, j);
    if j > j0 { BehindStart(nodes, tlvs, i0, j0, f, j - 1); }
  }

  /** A successful match is leftmost, uses up the TLVs, and fills the nodes as it should. */
  lemma {:induction false} MatchedFrom(nodes: seq<Node>, tlvs: seq<Tlv>, i0: nat, j0: nat)
    returns (f: Pairing, nodes': seq<Node>)
    requires AllShaped(tlvs) && i0 <= |nodes| && j0 <= |tlvs| && DecodeAnything(nodes[i0..], tlvs[j0..]).0
    ensures LeftmostFrom(nodes, tlvs, i0, j0, f) && Fills(nodes, tlvs, i0, j0, f, nodes')
    ensures nodes'[i0..] == DecodeAnything(nodes[i0..], tlvs[j0..]).1
    decreases |nodes| - i0
  {
    var r := DecodeAnything(nodes[i0..], tlvs[j0..]).1;
    if j0 == |tlvs| {
      f, nodes' := map[], nodes[..i0] + r;
      NothingLeft(nodes[i0..]);
      assert forall i | i0 <= i < |nodes| :: nodes[i] == nodes[i0..][i - i0];
    } else {
      MatchStep(nodes, tlvs, i0, j0);
      if Agrees(nodes[i0], tlvs[j0]) {
        f, nodes' := MatchedFrom(nodes, tlvs, i0 + 1, j0 + 1);
        nodes' := PutFront(nodes, tlvs, i0, j0 + 1, f, nodes', r);
        TakeLeftmost(nodes, tlvs, i0, j0, f);
        TakeFills(nodes, tlvs, i0, j0, f, nodes');
        f := f[j0 := i0];
      } else {
        f, nodes' := MatchedFrom(nodes, tlvs, i0 + 1, j0);
        nodes' := PutFront(nodes, tlvs, i0, j0, f, nodes', r);
        SkipLeftmost(nodes, tlvs, i0, j0, f);
        SkipFills(nodes, tlvs, i0, j0, f, nodes');
      }
    }
  }

  /** A successful match pairs all TLVs with a leftmost choice of agreeing nodes; the others may
      be absent and are cleared. */
  lemma MatchSound(nodes: seq<Node>, tlvs: seq<Tlv>) returns (f: Pairing)
    requires AllShaped(tlvs) && DecodeAnything(nodes, tlvs).0
    ensures Leftmost(nodes, tlvs, f) && Fills(nodes, tlvs, 0, 0, f, DecodeAnything(nodes, tlvs).1)
  {
    assert nodes[0..] == nodes && tlvs[0..] == tlvs;
    var nodes';
    f, nodes' := MatchedFrom(nodes, tlvs, 0, 0);
    assert nodes'[0..] == nodes';
  }

  /** Every TLV decodes into the node it is paired with. */
  ghost predicate Decodes(nodes: seq<Node>, tlvs: seq<Tlv>, i0: nat, j0: nat, f: Pairing)
    requires AllShaped(tlvs)
  {
    forall j {:trigger Picks(nodes, tlvs, i0, j0, f, j)} | j0 <= j < |tlvs| ::
      Picks(nodes, tlvs, i0, j0, f, j) && DecodeUntagged(nodes[f[j]], tlvs[j], true).0
  }

  lemma DropFirst(nodes: seq<Node>, tlvs: seq<Tlv>, i0: nat, j0: nat, f: Pairing)
    requires LeftmostFrom(nodes, tlvs, i0, j0, f)
    requires j0 < |tlvs| && Picks(nodes, tlvs, i0, j0, f, j0) && f[j0] == i0
    ensures LeftmostFrom(nodes, tlvs, i0 + 1, j0 + 1, f)
  {
    var i1, j1 := i0 + 1, j0 + 1;
    forall j | j1 <= j < |tlvs| ensures Picks(nodes, tlvs, i1, j1, f, j) {
      assert Picks(nodes, tlvs, i0, j0, f, j);
    }
    forall j, i | j0 + 1 <= j < |tlvs| && Picks(nodes, tlvs, i0 + 1, j0 + 1, f, j)
      && Start(f, i0 + 1, j0 + 1, j) <= i < f[j]
      ensures Passed(nodes[i], tlvs[j])
    {
      assert Picks(nodes, tlvs, i0, j0, f, j);
    }
  }

  lemma DropSkipped(nodes: seq<Node>, tlvs: seq<Tlv>, i0: nat, j0: nat, f: Pairing)
    requires LeftmostFrom(nodes, tlvs, i0, j0, f)
    requires j0 < |tlvs| && Picks(nodes, tlvs, i0, j0, f, j0) && f[j0] > i0
    ensures LeftmostFrom(nodes, tlvs, i0 + 1, j0, f)
  {
    var i1 := i0 + 1;
    forall j | j0 <= j < |tlvs| ensures Picks(nodes, tlvs, i1, j0, f, j) {
      assert Picks(nodes, tlvs, i0, j0, f, j);
    }
    forall j, i | j0 <= j < |tlvs| && Picks(nodes, tlvs, i0 + 1, j0, f, j) && Start(f, i0 + 1, j0, j) <= i < f[j]
      ensures Passed(nodes[i], tlvs[j])
    {
      assert Picks(nodes, tlvs, i0, j0, f, j);
    }
  }

  /** Fewer TLVs to decode, from a later node on. */
  lemma DecodesRest(nodes: seq<Node>, tlvs: seq<Tlv>, i0: nat, j0: nat, i1: nat, j1: nat, f: Pairing)
    requires AllShaped(tlvs) && Decodes(nodes, tlvs, i0, j0, f) && j0 <= j1 && LeftmostFrom(nodes, tlvs, i1, j1, f)
    ensures Decodes(nodes, tlvs, i1, j1, f)
  {
    forall j | j1 <= j < |tlvs| ensures Picks(nodes, tlvs, i1, j1, f, j)
      && DecodeUntagged(nodes[f[j]], tlvs[j], true).0 {
      assert Picks(nodes, tlvs, i0, j0, f, j);
    }
  }

  lemma {:induction false} MatchCompleteFrom(nodes: seq<Node>, tlvs: seq<Tlv>, i0: nat, j0: nat, f: Pairing)
    requires AllShaped(tlvs) && LeftmostFrom(nodes, tlvs, i0, j0, f) && Decodes(nodes, tlvs, i0, j0, f)
    ensures DecodeAnything(nodes[i0..], tlvs[j0..]).0
    decreases |nodes| - i0
  {
    if j0 == |tlvs| {
      NothingLeft(nodes[i0..]);
    } else {
      assert Picks(nodes, tlvs, i0, j0, f, j0);
      MatchStep(nodes, tlvs, i0, j0);
      if f[j0] == i0 {
        DropFirst(nodes, tlvs, i0, j0, f);
        DecodesRest(nodes, tlvs, i0, j0, i0 + 1, j0 + 1, f);
        MatchCompleteFrom(nodes, tlvs, i0 + 1, j0 + 1, f);
      } else {
        assert Passed(nodes[i0], tlvs[j0]);
        DropSkipped(nodes, tlvs, i0, j0, f);
        DecodesRest(nodes, tlvs, i0, j0, i0 + 1, j0, f);
        MatchCompleteFrom(nodes, tlvs, i0 + 1, j0, f);
      }
    }
  }

  /** The match succeeds if and only if there is a leftmost pairing whose parts decode. */
  lemma MatchExactly(nodes: seq<Node>, tlvs: seq<Tlv>)
    requires AllShaped(tlvs)
    ensures DecodeAnything(nodes, tlvs).0 <==> exists f :: Leftmost(nodes, tlvs, f) && Decodes(nodes, tlvs, 0, 0, f)
  {
    assert nodes[0..] == nodes && tlvs[0..] == tlvs;
    if DecodeAnything(nodes, tlvs).0 {
      var f := MatchSound(nodes, tlvs);
      forall j | 0 <= j < |tlvs| ensures Picks(nodes, tlvs, 0, 0, f, j)
        && DecodeUntagged(nodes[f[j]], tlvs[j], true).0 {
        assert Picks(nodes, tlvs, 0, 0, f, j);
      }
    }
    forall f | Leftmost(nodes, tlvs, f) && Decodes(nodes, tlvs, 0, 0, f) ensures DecodeAnything(nodes, tlvs).0 {
      MatchCompleteFrom(nodes, tlvs, 0, 0, f);
    }
  }

  /** No strictly increasing choice of agreeing nodes takes any TLV further left. */
  lemma {:induction false} NoneFurtherLeft(nodes: seq<Node>, tlvs: seq<Tlv>, f: Pairing, g: Pairing, j: nat)
    requires Leftmost(nodes, tlvs, f) && j < |tlvs|
    requires forall k {:trigger Picks(nodes, tlvs, 0, 0, g, k)} | 0 <= k < |tlvs| :: Picks(nodes, tlvs, 0, 0, g, k)
    ensures j in f && j in g && f[j] <= g[j]
  {
    assert Picks(nodes, tlvs, 0, 0, f, j) && Picks(nodes, tlvs, 0, 0, g, j);
    if j > 0 { NoneFurtherLeft(nodes, tlvs, f, g, j - 1); }
    assert Start(f, 0, 0, j) <= g[j];
    assert g[j] < f[j] ==> Passed(nodes[g[j]], tlvs[j]);
  }

  // ---------------------------------------------------------------- elements of a SEQUENCE OF

  /** The copies behind the first element: TLV k goes into copy k, and all have the tag of the first. */
  lemma {:induction false} CopiesInOrder(template: Node, tag: Option<nat>, tlvs: seq<Tlv>, k: nat)
    requires AllShaped(tlvs) && DecodeCopies(template, tag, tlvs).0 && k < |tlvs|
    ensures DecodeOne(Blank(template), tlvs[k]) == (true, DecodeCopies(template, tag, tlvs).1[k])
    ensures tag.Some? ==> tlvs[k].tag == tag.value
  {
    if k > 0 {
      CopiesInOrder(template, tag, tlvs[1..], k - 1);
    }
  }

  /** The TLVs of a SEQUENCE OF whose one child is not itself repeated go, in order, into
      that child and blank copies of it. */
  lemma ElementsInOrder(node: Node, tlvs: seq<Tlv>, k: nat)
    requires AllShaped(tlvs) && |node.children| == 1 && DecodeElements(node, tlvs).0 && k < |tlvs|
    ensures var first, node' := DecodeOne(node.children[0], tlvs[0]).1, DecodeElements(node, tlvs).1;
      && |node'.children| == |tlvs|
      && DecodeOne(if k == 0 then node.children[0] else Blank(first), tlvs[k]) == (true, node'.children[k])
  {
    var child := node.children[0];
    var first := DecodeOne(child, tlvs[0]).1;
    if k > 0 {
      CopiesInOrder(first, CalcTag(child.def, true), tlvs[1..], k - 1);
    }
  }

  /** A repeated node gains one child for every TLV but the first; children it had before, but
      for the first, stay as they are. */
  lemma ElementCount(node: Node, tlvs: seq<Tlv>)
    requires AllShaped(tlvs) && tlvs != [] && DecodeElements(node, tlvs).0
    ensures var node' := DecodeElements(node, tlvs).1;
      && |node'.children| == |node.children| + |tlvs| - 1
      && forall i | 0 < i < |node.children| :: node'.children[i] == node.children[i]
  {
  }

  /** A repeated node inside a repeated node: the copy made for the second element keeps blank
      children for what the first element held, so it has as many children as elements
      only if the first element held one. */
  lemma LeftoverElements(first: Node, tlvs: seq<Tlv>)
    requires AllShaped(tlvs) && tlvs != [] && first.children != [] && DecodeElements(Blank(first), tlvs).0
    ensures var copy := DecodeElements(Blank(first), tlvs).1;
      && |copy.children| == |first.children| + |tlvs| - 1
      && forall i | 0 < i < |first.children| :: copy.children[i] == Blank(first.children[i])
  {
    ElementCount(Blank(first), tlvs);
    forall i | 0 <= i < |first.children| ensures |Blank(first).children| == |first.children|
      && Blank(first).children[i] == Blank(first.children[i]) {
      BlankEach(first.children, i);
    }
    BlankEach(first.children, 0);
  }

  /** The TLVs inside a structured one. */
  function Inside(t: Tlv): seq<Tlv> { if t.content.Children? then t.content.tlvs else [] }

  /** A repeated node with one child, without an explicit tag of its own. */
  predicate PlainRepeated(node: Node) {
    (node.def.kind.SequenceOf? || node.def.kind.SetOf?) && !Explicit(node.def, true)
  }

  lemma RepeatedOne(node: Node, t: Tlv)
    requires Shaped(t) && PlainRepeated(node) && DecodeOne(node, t).0
    ensures Structured(t.cls) && t.content.Children? && DecodeElements(node, Inside(t)).0
    ensures DecodeOne(node, t).1.children == DecodeElements(node, Inside(t)).1.children
    ensures DecodeOne(node, t).1.def == node.def
  {
    UntaggedRepeated(node, t);
  }

  lemma UntaggedRepeated(node: Node, t: Tlv)
    requires Shaped(t) && PlainRepeated(node)
    ensures var (ok, node') := DecodeUntagged(node, t, true);
      if t.content.Children? then var r := DecodeElements(node, Inside(t));
        ok == r.0 && node'.children == r.1.children && node'.def == node.def
      else !ok
  {
    if t.content.Children? {
      assert DecodeStructured(node, t) == DecodeElements(node, t.content.tlvs);
    } else {
      assert !DecodePrimitive(node, t).0;
    }
  }

  /** A repeated node inside a repeated node: an element behind the first that holds something has as many children
    * as it holds elements exactly if the first element held no more than one. */
  lemma NestedCount(node: Node, tlvs: seq<Tlv>, k: nat)
    requires AllShaped(tlvs) && |node.children| == 1 && DecodeElements(node, tlvs).0 && 0 < k < |tlvs|
    requires PlainRepeated(node.children[0]) && |node.children[0].children| == 1 && Inside(tlvs[k]) != []
    ensures k < |DecodeElements(node, tlvs).1.children|
    ensures |DecodeElements(node, tlvs).1.children[k].children| == |Inside(tlvs[k])| <==> |Inside(tlvs[0])| <= 1
  {
    var inner := node.children[0];
    var first := DecodeOne(inner, tlvs[0]).1;
    ElementsInOrder(node, tlvs, k);
    RepeatedOne(inner, tlvs[0]);
    if Inside(tlvs[0]) != [] { ElementCount(inner, Inside(tlvs[0])); }
    RepeatedOne(Blank(first), tlvs[k]);
    LeftoverElements(first, Inside(tlvs[k]));
  }

  function Untagged(kind: Type, children: seq<Node>): Node {
    Node(Def(kind, false, false, None), None, 0, false, None, false, children)
  }

  function IntegerTlv(x: Byte): Tlv { Tlv(0, 2, 2, 1, Value([x], NoPrefix), [2, 1, x]) }

  function SequenceTlv(tlvs: seq<Tlv>, encoded: Bytes): Tlv { Tlv(0x20, 0x10, 2, 3 * |tlvs|, Children(tlvs), encoded) }

  lemma IntegerDecoded(x: Byte, node: Node)
    requires node.def == Def(Integer, false, false, None)
    ensures Shaped(IntegerTlv(x)) && DecodeOne(node, IntegerTlv(x)).0
    ensures DecodeOne(node, IntegerTlv(x)).1.def == node.def
  {
    var t := IntegerTlv(x);
    assert DecodePrimitive(node, t) == (true, Cleared(node).(value := Some([x])));
  }

  /** A list of one or two integers. */
  lemma ListDecoded(node: Node, t: Tlv, x: Byte, y: Byte)
    requires PlainRepeated(node) && node.def.kind.SequenceOf? && node.def.tagging == None && node.children != []
    requires node.children[0].def == Def(Integer, false, false, None)
    requires t == SequenceTlv([IntegerTlv(x)], []) || t == SequenceTlv([IntegerTlv(x), IntegerTlv(y)], [])
    ensures Shaped(t) && DecodeOne(node, t).0 && DecodeOne(node, t).1.def == node.def
    ensures |DecodeOne(node, t).1.children| == |node.children| + |Inside(t)| - 1
    ensures DecodeOne(node, t).1.children[0].def == node.children[0].def
  {
    IntegerDecoded(x, node.children[0]);
    IntegerDecoded(y, Blank(DecodeOne(node.children[0], IntegerTlv(x)).1));
    TwoShaped(IntegerTlv(x), IntegerTlv(y));
    ElementsDecoded(node, Inside(t));
    UntaggedRepeated(node, t);
  }

  lemma TwoShaped(t: Tlv, u: Tlv)
    requires Shaped(t) && Shaped(u)
    ensures AllShaped([t]) && AllShaped([t, u])
  {
  }

  lemma ElementsDecoded(node: Node, tlvs: seq<Tlv>)
    requires AllShaped(tlvs) && 1 <= |tlvs| <= 2 && node.children != [] && DecodeOne(node.children[0], tlvs[0]).0
    requires |tlvs| == 2 ==> DecodeOne(Blank(DecodeOne(node.children[0], tlvs[0]).1), tlvs[1]).0
    requires |tlvs| == 2 && CalcTag(node.children[0].def, true).Some? ==>
      tlvs[1].tag == CalcTag(node.children[0].def, true).value
    ensures var (ok, node') := DecodeElements(node, tlvs);
      ok && |node'.children| == |node.children| + |tlvs| - 1
        && node'.children[0] == DecodeOne(node.children[0], tlvs[0]).1
  {
    var first, tag := DecodeOne(node.children[0], tlvs[0]).1, CalcTag(node.children[0].def, true);
    if |tlvs| == 2 {
      assert tlvs[1..][1..] == [];
      assert DecodeCopies(first, tag, []) == (true, []);
      assert DecodeCopies(first, tag, tlvs[1..]).0;
    } else {
      assert tlvs[1..] == [];
    }
  }

  /** Of the lists [1, 2] and [3] the second is decoded as two elements. */
  lemma NestedListsDiffer() returns (node: Node, tlvs: seq<Tlv>)
    ensures node == Untagged(SequenceOf, [Untagged(SequenceOf, [Untagged(Integer, [])])])
    ensures tlvs == [SequenceTlv([IntegerTlv(1), IntegerTlv(2)], []), SequenceTlv([IntegerTlv(3)], [])]
    ensures AllShaped(tlvs) && DecodeElements(node, tlvs).0 && |DecodeElements(node, tlvs).1.children| == 2
    ensures |DecodeElements(node, tlvs).1.children[1].children| == 2
  {
    var inner := Untagged(SequenceOf, [Untagged(Integer, [])]);
    node := Untagged(SequenceOf, [inner]);
    var t, u := SequenceTlv([IntegerTlv(1), IntegerTlv(2)], []), SequenceTlv([IntegerTlv(3)], []);
    tlvs := [t, u];
    ListDecoded(inner, t, 1, 2);
    var first := DecodeOne(inner, t).1;
    BlankEach(first.children, 0);
    ListDecoded(Blank(first), u, 3, 3);
    TwoShaped(t, u);
    ElementsDecoded(node, tlvs);
    ElementsInOrder(node, tlvs, 1);
  }

  lemma {:induction false} BlankEach(nodes: seq<Node>, i: nat)
    requires i < |nodes|
    ensures |BlankAll(nodes)| == |nodes| && BlankAll(nodes)[i] == Blank(nodes[i])
  {
    if |nodes| > 1 {
      BlankEach(nodes[1..], if i > 0 then i - 1 else 0);
    }
  }

  // ---------------------------------------------------------------- the loop

  /** What the loop has done up to node i and TLV j, and what is still to come. */
  ghost function Reached(nodes': seq<Node>, i: nat, r: (bool, seq<Node>)): (bool, seq<Node>)
    requires i <= |nodes'|
  {
    (r.0, nodes'[..i] + r.1)
  }

  lemma Reaches(nodes': seq<Node>, i: nat, node: Node, r: (bool, seq<Node>))
    requires i < |nodes'|
    ensures Reached(nodes', i, (r.0, [node] + r.1)) == Reached(nodes'[i := node], i + 1, r)
  {
    assert nodes'[i := node][..i + 1] == nodes'[..i] + [node];
    assert nodes'[..i] + ([node] + r.1) == nodes'[..i] + [node] + r.1;
  }

  lemma ReachesNone(nodes': seq<Node>, r: (bool, seq<Node>))
    ensures Reached(nodes', 0, r) == r
  {
    assert [] + r.1 == r.1;
  }

  lemma Stops(nodes': seq<Node>, i: nat, node: Node, rest: seq<Node>)
    requires i < |nodes'| && rest == nodes'[i + 1..]
    ensures Reached(nodes', i, (false, [node] + rest)) == (false, nodes'[i := node])
  {
    assert nodes'[..i] + ([node] + rest) == nodes'[i := node];
  }

  lemma ReachesAll(nodes': seq<Node>, i: nat, ok: bool)
    requires i <= |nodes'|
    ensures Reached(nodes', i, (ok, nodes'[i..])) == (ok, nodes')
  {
    assert nodes'[..i] + nodes'[i..] == nodes';
  }

  /** One TLV is decoded into a node, or the node is skipped if there are more. */
  method WalkStep(node: Node, tlv: Tlv, more: bool) returns (ok: bool, took: bool, node': Node)
    requires Shaped(tlv)
    ensures took <==> Agrees(node, tlv)
    ensures took ==> (ok, node') == DecodeUntagged(node, tlv, true)
    ensures !took ==> ok == (Skippable(node) && more) && node' == if Skippable(node) then Cleared(node) else node
  {
    var tag := CalcTag(node.def, true);
    if tag == None {
      tag := Some(tlv.tag);
    }
    if tag != Some(tlv.tag) {
      took := false;
      ok, node' := OptionOrDefault(node);
      ok := ok && more;
    } else {
      took := true;
      var r := DecodeUntagged(node, tlv, true);
      ok, node' := r.0, r.1;
    }
  }

  /** anode_decode_anything as it walks along the nodes and the TLVs. */
  method WalkAnything(nodes: seq<Node>, tlvs: seq<Tlv>) returns (ok: bool, nodes': seq<Node>)
    requires AllShaped(tlvs) && nodes != []
    ensures (ok, nodes') == DecodeAnything(nodes, tlvs)
  {
    var i, j := 0, 0;
    nodes' := nodes;
    assert nodes[0..] == nodes && tlvs[0..] == tlvs;
    ReachesNone(nodes, DecodeAnything(nodes, tlvs));
    while j < |tlvs|
      invariant 0 <= i <= |nodes| && 0 <= j <= |tlvs| && |nodes'| == |nodes| && nodes'[i..] == nodes[i..]
      invariant DecodeAnything(nodes, tlvs) == Reached(nodes', i, DecodeAnything(nodes[i..], tlvs[j..]))
      decreases |nodes| - i, |tlvs| - j
    {
      if i == |nodes| {
        ReachesAll(nodes', i, false);
        return false, nodes';
      }
      MatchStep(nodes, tlvs, i, j);
      assert nodes'[i] == nodes[i];
      var node, took;
      ok, took, node := WalkStep(nodes'[i], tlvs[j], i + 1 < |nodes|);
      if !ok {
        assert nodes[i..] == [nodes[i]] + nodes[i + 1..] && (i + 1 == |nodes| ==> [node] + nodes[i + 1..] == [node]);
        Stops(nodes', i, node, nodes[i + 1..]);
        return false, nodes'[i := node];
      }
      Reaches(nodes', i, node, DecodeAnything(nodes[i + 1..], if took then tlvs[j + 1..] else tlvs[j..]));
      nodes', i := nodes'[i := node], i + 1;
      if took {
        j := j + 1;
      }
    }
    ok, nodes' := WalkNothing(nodes, nodes', i);
  }

  /** anode_decode_option_or_default. */
  method OptionOrDefault(node: Node) returns (ok: bool, node': Node)
    ensures ok <==> Skippable(node)
    ensures node' == if Skippable(node) then Cleared(node) else node
  {
    if node.def.optional || node.def.hasDefault {
      return true, Cleared(node);
    }
    return false, node;
  }

  /** There are no values for the remaining nodes. */
  method WalkNothing(nodes: seq<Node>, begun: seq<Node>, i0: nat) returns (ok: bool, nodes': seq<Node>)
    requires i0 <= |nodes| == |begun| && begun[i0..] == nodes[i0..]
    ensures (ok, nodes') == Reached(begun, i0, DecodeNothing(nodes[i0..]))
  {
    var i := i0;
    nodes' := begun;
    while i < |nodes|
      invariant i0 <= i <= |nodes| == |nodes'| && nodes'[i..] == nodes[i..]
      invariant Reached(begun, i0, DecodeNothing(nodes[i0..])) == Reached(nodes', i, DecodeNothing(nodes[i..]))
    {
      assert nodes'[i] == nodes[i] && nodes[i..][1..] == nodes[i + 1..];
      var node;
      ok, node := OptionOrDefault(nodes'[i]);
      if !ok {
        ReachesAll(nodes', i, false);
        return;
      }
      Reaches(nodes', i, node, DecodeNothing(nodes[i + 1..]));
      nodes', i := nodes'[i := node], i + 1;
    }
    ReachesAll(nodes', i, true);
    ok := true;
  }
}
