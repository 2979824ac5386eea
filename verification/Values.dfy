/** The ASN.1 values that nodes of egg/egg-asn1x.c stand for, and what becomes of them when they are encoded and
  * decoded. */
module Values {
  import opened Wrappers
  import opened Numerals
  import opened Headers
  import opened Tlvs
  import opened Schema
  import opened Builder
  import opened Encodings
  import opened Outlines

  datatype Datum =
    | Absent
    | Number(n: int)
    | BitField(octets: Bytes, empty: Bits)
    | Text(octets: Bytes)
    | Raw(octets: Bytes)
    | Alternative(index: nat, of: Datum)
    | Members(parts: seq<Datum>)
    | Elements(parts: seq<Datum>)

  /** Those that are there. */
  function Present(ds: seq<Datum>): (r: seq<Datum>)
    ensures |r| <= |ds|
  {
    if ds == [] then [] else (if ds[0].Absent? then [] else [ds[0]]) + Present(ds[1..])
  }

  /** The first alternative that is chosen, if there is one. */
  function Choose(nodes: seq<Node>): (k: nat)
    ensures k <= |nodes| && (k < |nodes| ==> nodes[k].chosen) && forall i | 0 <= i < k :: !nodes[i].chosen
  {
    if nodes == [] || nodes[0].chosen then 0 else 1 + Choose(nodes[1..])
  }

  /** What a node is set to. A sequence, set or list without anything in it is there only where it is wanted and not
    * optional. */
  function Meaning(node: Node, want: bool): Datum
    decreases node, 1
  {
    match node.def.kind
    case Any => if node.parsed.None? then Absent else Raw(Encode(node.parsed.value))
    case Choice =>
      var k := Choose(node.children);
      if k == |node.children| || Meaning(node.children[k], want).Absent? then Absent
      else Alternative(k, Meaning(node.children[k], want))
    case Sequence => Whole(node.def, want, MeaningAll(node.children, want))
    case Set => Whole(node.def, want, MeaningAll(node.children, want))
    case SequenceOf => Whole(node.def, want, MeaningAll(node.children, false))
    case SetOf => Whole(node.def, want, MeaningAll(node.children, false))
    case Integer =>
      if node.value.None? then Absent
      else Number(if node.unsigned then Val(node.value.value, 256) else TwosComplement(node.value.value))
    case BitString =>
      if node.value.None? then Absent else BitField(Masked(node.value.value, node.bitsEmpty), node.bitsEmpty)
    case _ => if node.value.None? then Absent else Text(node.value.value)
  }

  function Whole(def: Def, want: bool, ds: seq<Datum>): (d: Datum)
    ensures d.Absent? <==> Present(ds) == [] && !(want && !def.optional)
  {
    if Present(ds) == [] && !(want && !def.optional) then Absent
    else if Repeated(def.kind) then Elements(Present(ds)) else Members(ds)
  }

  function MeaningAll(nodes: seq<Node>, want: bool): (r: seq<Datum>)
    ensures |r| == |nodes|
    decreases nodes, 0
  {
    if nodes == [] then [] else [Meaning(nodes[0], want)] + MeaningAll(nodes[1..], want)
  }

  /** What a node holds after decoding; it knows the TLV that it was decoded from. */
  function Held(node: Node): Datum
    decreases node, 2
  {
    if node.parsed.None? then Absent else HeldInside(node)
  }

  function HeldInside(node: Node): Datum
    requires node.parsed.Some?
    decreases node, 1
  {
    match node.def.kind
    case Any => Raw(Encode(node.parsed.value))
    case Choice =>
      var k := Choose(node.children);
      if k == |node.children| then Absent else Alternative(k, Held(node.children[k]))
    case Sequence => Members(HeldAll(node.children))
    case Set => Members(HeldAll(node.children))
    case SequenceOf => Elements(Present(HeldAll(node.children)))
    case SetOf => Elements(Present(HeldAll(node.children)))
    case Integer => if node.value.None? then Absent else Number(TwosComplement(node.value.value))
    case BitString => if node.value.None? then Absent else BitField(node.value.value, node.bitsEmpty)
    case _ => if node.value.None? then Absent else Text(node.value.value)
  }

  function HeldAll(nodes: seq<Node>): (r: seq<Datum>)
    ensures |r| == |nodes|
    decreases nodes, 0
  {
    if nodes == [] then [] else [Held(nodes[0])] + HeldAll(nodes[1..])
  }

  lemma {:induction false} ChosenPlace(nodes: seq<Node>)
    ensures var k := Choose(nodes); Chosen(nodes) == if k == |nodes| then None else Some(nodes[k])
  {
    if nodes != [] && !nodes[0].chosen { ChosenPlace(nodes[1..]); }
  }

  lemma ContainerMeaning(node: Node, want: bool)
    requires Container(node.def.kind)
    ensures var inner := want && !Repeated(node.def.kind);
      && Meaning(node, want) == Whole(node.def, want, MeaningAll(node.children, inner))
      && (Octets(node, want) == None <==> BuildAll(node.children, inner) == [] && !(want && !node.def.optional))
  {
    BuiltContainer(node, want);
    assert Octets(node, want) == None <==> BuildBare(node, want) == None;
    MeaningWhole(node, want);
  }

  lemma MeaningWhole(node: Node, want: bool)
    requires Container(node.def.kind)
    ensures Meaning(node, want) ==
      Whole(node.def, want, MeaningAll(node.children, want && !Repeated(node.def.kind)))
  {
  }

  /** Nothing is written for a node exactly if it is not set to anything. */
  lemma {:induction false} AbsentExactly(node: Node, want: bool)
    ensures Octets(node, want) == None <==> Meaning(node, want) == Absent
    decreases node, 1
  {
    if node.def.kind.Any? {
    } else if node.def.kind.Choice? {
      var k := Choose(node.children);
      ChosenPlace(node.children);
      if k < |node.children| { AbsentExactly(node.children[k], want); }
      assert BuildBare(node, want) == if k == |node.children| then None else Build(node.children[k], want);
    } else if Container(node.def.kind) {
      AllPresent(node.children, want && !Repeated(node.def.kind));
      ContainerMeaning(node, want);
    } else {
      assert BuildBare(node, want).None? <==> node.value.None?;
    }
  }

  lemma {:induction false} AllPresent(nodes: seq<Node>, want: bool)
    ensures |Present(MeaningAll(nodes, want))| == |BuildAll(nodes, want)|
    decreases nodes, 0
  {
    if nodes != [] {
      AbsentExactly(nodes[0], want);
      AllPresent(nodes[1..], want);
      assert MeaningAll(nodes, want)[1..] == MeaningAll(nodes[1..], want);
    }
  }

  // ---------------------------------------------------------------- schemas and what is set by them

  /** A node of a schema: it has the same definitions, and elements of a list follow the one element that a list of the
    * schema has first. */
  ghost predicate Follows(node: Node, schema: Node)
    decreases node, 1
  {
    && node.def == schema.def
    && if Repeated(node.def.kind) then schema.children != [] && AllElements(node.children, schema.children[0])
      else AllFollow(node.children, schema.children)
  }

  ghost predicate AllFollow(nodes: seq<Node>, schemas: seq<Node>)
    decreases nodes, 0
  {
    |nodes| == |schemas| && (nodes != [] ==> Follows(nodes[0], schemas[0]) && AllFollow(nodes[1..], schemas[1..]))
  }

  ghost predicate AllElements(nodes: seq<Node>, schema: Node)
    decreases nodes, 0
  {
    nodes != [] ==> Follows(nodes[0], schema) && AllElements(nodes[1..], schema)
  }

  lemma {:induction false} SameFollows(node: Node, a: Node, b: Node)
    requires Follows(node, a) && Same(a, b)
    ensures Follows(node, b)
    decreases node, 1
  {
    SameOutline(a, b);
    if Repeated(node.def.kind) {
      SameElements(node.children, a.children[0], b.children[0]);
    } else {
      SameAllFollow(node.children, a.children, b.children);
    }
  }

  lemma {:induction false} SameAllFollow(nodes: seq<Node>, a: seq<Node>, b: seq<Node>)
    requires AllFollow(nodes, a) && AllSame(a, b)
    ensures AllFollow(nodes, b)
    decreases nodes, 0
  {
    SameFirst(a, b);
    if nodes != [] {
      SameFollows(nodes[0], a[0], b[0]);
      SameAllFollow(nodes[1..], a[1..], b[1..]);
    }
  }

  lemma {:induction false} SameElements(nodes: seq<Node>, a: Node, b: Node)
    requires AllElements(nodes, a) && Same(a, b)
    ensures AllElements(nodes, b)
    decreases nodes, 0
  {
    if nodes != [] {
      SameFollows(nodes[0], a, b);
      SameElements(nodes[1..], a, b);
    }
  }

  /** Nothing was decoded into a node. */
  ghost predicate Fresh(node: Node)
    decreases node, 1
  {
    node.parsed.None? && AllFresh(node.children)
  }

  ghost predicate AllFresh(nodes: seq<Node>)
    decreases nodes, 0
  {
    nodes != [] ==> Fresh(nodes[0]) && AllFresh(nodes[1..])
  }

  lemma {:induction false} BlankFresh(node: Node)
    ensures Fresh(Blank(node))
    decreases node, 1
  {
    AllBlankFresh(node.children);
  }

  lemma {:induction false} AllBlankFresh(nodes: seq<Node>)
    ensures AllFresh(BlankAll(nodes))
    decreases nodes, 0
  {
    if nodes != [] {
      BlankFresh(nodes[0]);
      AllBlankFresh(nodes[1..]);
      assert BlankAll(nodes)[1..] == BlankAll(nodes[1..]);
    }
  }

  lemma {:induction false} FreshHoldNothing(nodes: seq<Node>)
    requires AllFresh(nodes)
    ensures Present(HeldAll(nodes)) == []
  {
    if nodes != [] {
      FreshHoldNothing(nodes[1..]);
      assert HeldAll(nodes)[1..] == HeldAll(nodes[1..]);
    }
  }

  // ---------------------------------------------------------------- what is read where it came from

  lemma {:induction false} ProperShaped(t: Tlv)
    requires Proper(t)
    ensures Shaped(Plain(t))
    decreases t, 0
  {
    if t.content.Children? { AllProperShaped(t.content.tlvs); }
  }

  lemma {:induction false} AllProperShaped(ts: seq<Tlv>)
    requires AllProper(ts)
    ensures AllShaped(PlainAll(ts)) && |PlainAll(ts)| == |ts|
    decreases ts, 1
  {
    if ts != [] {
      ProperShaped(ts[0]);
      AllProperShaped(ts[1..]);
    }
  }

  /** A schema takes the octets of a TLV. */
  ghost predicate Accepts(schema: Node, t: Tlv) {
    Shaped(Plain(t)) && DecodeOne(schema, Plain(t)).0
  }

  ghost predicate RefusedBefore(schemas: seq<Node>, k: nat, t: Tlv) {
    forall i | 0 <= i < k && i < |schemas| :: !Accepts(schemas[i], t)
  }

  /** What is written for a node is decoded where it came from. A caller can tell beforehand: a tag is the one expected,
    * an explicit one not of class universal or application; a sequence has members, and a set has them in the order of
    * their tags; a member that is absent may be, and does not take the tag of the next one; and no alternative in front
    * of the one chosen accepts its octets. */
  ghost predicate Clear(node: Node, schema: Node, want: bool)
    decreases node, 3
  {
    match Build(node, want)
    case None => true
    case Some(t) => Agrees(schema, t) && ClearUntagged(node, schema, want)
  }

  ghost predicate ClearUntagged(node: Node, schema: Node, want: bool)
    decreases node, 2
  {
    && (Build(node, want).Some? ==> Framed(node.def, Build(node, want).value))
    && (!node.def.kind.Any? ==> ClearInside(node, schema, want))
  }

  /** An explicit tag can be told from others, and is around one TLV. */
  predicate Framed(def: Def, t: Tlv) {
    Explicit(def, true) ==> t.cls / 128 != 0 && t.content.Children? && |t.content.tlvs| == 1
  }

  ghost predicate ClearInside(node: Node, schema: Node, want: bool)
    decreases node, 1
  {
    if node.def.kind.Choice? then ClearChoice(node.children, schema.children, want)
    else if Repeated(node.def.kind) then schema.children != [] && ClearElements(node.children, schema.children[0])
    else Container(node.def.kind) ==>
      && node.children != []
      && (node.def.kind.Set? ==> Ascending(BuildAll(node.children, want)))
      && |schema.children| == |node.children|
      && InPlace(node.children, schema.children, want)
  }

  ghost predicate ClearChoice(nodes: seq<Node>, schemas: seq<Node>, want: bool)
    decreases nodes, 0
  {
    var k := Choose(nodes);
    && k < |nodes| && k < |schemas| && Build(nodes[k], want).Some?
    && Clear(nodes[k], schemas[k], want)
    && RefusedBefore(schemas, k, Build(nodes[k], want).value)
  }

  ghost predicate ClearElements(nodes: seq<Node>, schema: Node)
    decreases nodes, 0
  {
    nodes != [] ==> Clear(nodes[0], schema, false) && ClearElements(nodes[1..], schema)
  }

  /** Members are where they are looked for. */
  ghost predicate InPlace(nodes: seq<Node>, schemas: seq<Node>, want: bool)
    requires |schemas| == |nodes|
    decreases nodes, 0
  {
    nodes != [] ==>
      && (if Build(nodes[0], want).Some? then Clear(nodes[0], schemas[0], want)
        else Skippable(schemas[0]) && PassedBy(schemas[0], BuildAll(nodes[1..], want)))
      && InPlace(nodes[1..], schemas[1..], want)
  }

  ghost predicate PassedBy(schema: Node, ts: seq<Tlv>) { ts != [] ==> !Agrees(schema, ts[0]) }

  lemma {:induction false} SameClear(node: Node, a: Node, b: Node, want: bool)
    requires Follows(node, a) && Same(a, b)
    ensures Clear(node, a, want) <==> Clear(node, b, want)
    decreases node, 2
  {
    SameOutline(a, b);
    SameInside(node, a, b, want);
  }

  lemma {:induction false} SameInside(node: Node, a: Node, b: Node, want: bool)
    requires Follows(node, a) && Same(a, b)
    ensures ClearInside(node, a, want) <==> ClearInside(node, b, want)
    decreases node, 1
  {
    SameOutline(a, b);
    if node.def.kind.Choice? {
      SameChoice(node.children, a.children, b.children, want);
    } else if Repeated(node.def.kind) {
      SameClearElements(node.children, a.children[0], b.children[0]);
    } else {
      SameInPlace(node.children, a.children, b.children, want);
    }
  }

  lemma {:induction false} SameAccepts(schemas: seq<Node>, others: seq<Node>, t: Tlv, i: nat)
    requires AllSame(schemas, others) && i < |schemas|
    ensures i < |others| && Same(schemas[i], others[i]) && (Accepts(schemas[i], t) <==> Accepts(others[i], t))
  {
    SameFirst(schemas, others);
    if i > 0 {
      SameAccepts(schemas[1..], others[1..], t, i - 1);
    } else if Shaped(Plain(t)) {
      OneAlike(schemas[0], others[0], Plain(t));
    }
  }

  lemma {:induction false} FollowAt(nodes: seq<Node>, schemas: seq<Node>, i: nat)
    requires AllFollow(nodes, schemas) && i < |nodes|
    ensures i < |schemas| && Follows(nodes[i], schemas[i])
  {
    if i > 0 { FollowAt(nodes[1..], schemas[1..], i - 1); }
  }

  lemma {:induction false} SameChoice(nodes: seq<Node>, a: seq<Node>, b: seq<Node>, want: bool)
    requires AllFollow(nodes, a) && AllSame(a, b)
    ensures ClearChoice(nodes, a, want) <==> ClearChoice(nodes, b, want)
    decreases nodes, 0
  {
    var k := Choose(nodes);
    SameFirst(a, b);
    if k < |nodes| && Build(nodes[k], want).Some? {
      var t := Build(nodes[k], want).value;
      FollowAt(nodes, a, k);
      SameAccepts(a, b, t, k);
      SameClear(nodes[k], a[k], b[k], want);
      forall i | 0 <= i < k ensures Accepts(a[i], t) <==> Accepts(b[i], t) { SameAccepts(a, b, t, i); }
    }
  }

  lemma {:induction false} SameClearElements(nodes: seq<Node>, a: Node, b: Node)
    requires AllElements(nodes, a) && Same(a, b)
    ensures ClearElements(nodes, a) <==> ClearElements(nodes, b)
    decreases nodes, 0
  {
    if nodes != [] {
      SameClear(nodes[0], a, b, false);
      SameClearElements(nodes[1..], a, b);
    }
  }

  lemma {:induction false} SameInPlace(nodes: seq<Node>, a: seq<Node>, b: seq<Node>, want: bool)
    requires AllFollow(nodes, a) && AllSame(a, b)
    ensures |a| == |b| == |nodes| && (InPlace(nodes, a, want) <==> InPlace(nodes, b, want))
    decreases nodes, 0
  {
    SameFirst(a, b);
    if nodes != [] {
      SameOutline(a[0], b[0]);
      SameClear(nodes[0], a[0], b[0], want);
      SameInPlace(nodes[1..], a[1..], b[1..], want);
    }
  }

  // ---------------------------------------------------------------- decoding what was written

  /** Decoding worked, and gives back what the node was set to. */
  ghost predicate Back(node: Node, want: bool, r: Outcome) { r.0 && Held(r.1) == Meaning(node, want) }

  lemma {:induction false} PlainOctets(t: Tlv)
    ensures Encode(Plain(t)) == Encode(t)
    decreases t, 0
  {
    if t.content.Children? { AllPlainOctets(t.content.tlvs); }
  }

  lemma {:induction false} AllPlainOctets(ts: seq<Tlv>)
    ensures EncodeAll(PlainAll(ts)) == EncodeAll(ts)
    decreases ts, 1
  {
    if ts != [] {
      PlainOctets(ts[0]);
      AllPlainOctets(ts[1..]);
      assert PlainAll(ts)[1..] == PlainAll(ts[1..]);
    }
  }

  /** The first of some nodes, and the others. */
  lemma {:induction false} FirstBuilt(nodes: seq<Node>, want: bool)
    requires nodes != []
    ensures var t, ts, rest := Build(nodes[0], want), BuildAll(nodes, want), BuildAll(nodes[1..], want);
      && (t.None? ==> ts == rest && Meaning(nodes[0], want) == Absent)
      && (t.Some? ==> ts != [] && ts[0] == t.value && ts[1..] == rest)
      && (t.Some? ==> PlainAll(ts) == [Plain(t.value)] + PlainAll(rest) && Meaning(nodes[0], want) != Absent)
      && (t.Some? ==> (AllProper(ts) <==> Proper(t.value) && AllProper(rest)))
    ensures MeaningAll(nodes, want) == [Meaning(nodes[0], want)] + MeaningAll(nodes[1..], want)
  {
    AbsentExactly(nodes[0], want);
    var t, ts, rest := Build(nodes[0], want), BuildAll(nodes, want), BuildAll(nodes[1..], want);
    if t.Some? {
      assert ts == [t.value] + rest && ([t.value] + rest)[1..] == rest;
      assert forall u :: u in ts <==> u == t.value || u in rest;
    } else {
      assert [] + rest == rest;
    }
  }

  lemma {:induction false} HeldFirst(node: Node, rest: seq<Node>)
    ensures HeldAll([node] + rest) == [Held(node)] + HeldAll(rest)
  {
    assert ([node] + rest)[1..] == rest;
  }

  lemma PresentFirst(d: Datum, ds: seq<Datum>)
    ensures Present([d] + ds) == (if d.Absent? then [] else [d]) + Present(ds)
  {
    assert ([d] + ds)[1..] == ds;
  }

  lemma {:induction false} PresentJoined(a: seq<Datum>, b: seq<Datum>)
    ensures Present(a + b) == Present(a) + Present(b)
  {
    if a == [] {
      assert a + b == b;
    } else {
      var d, rest := a[0], a[1..];
      PresentJoined(rest, b);
      PresentFirst(d, rest);
      PresentFirst(d, rest + b);
      assert a == [d] + rest && a + b == [d] + (rest + b);
    }
  }

  lemma {:induction false} HeldJoined(a: seq<Node>, b: seq<Node>)
    ensures HeldAll(a + b) == HeldAll(a) + HeldAll(b)
  {
    if a == [] {
      assert a + b == b;
    } else {
      var n, rest := a[0], a[1..];
      HeldJoined(rest, b);
      HeldFirst(n, rest);
      HeldFirst(n, rest + b);
      assert a == [n] + rest && a + b == [n] + (rest + b);
    }
  }

  /** One TLV more is one datum more. */
  lemma SamePresent(d: Datum, ds: seq<Datum>, e: Datum, es: seq<Datum>)
    requires !e.Absent? && |Present(ds)| <= |Present(es)|
    ensures Present([d] + ds) == Present([e] + es) <==> d == e && Present(ds) == Present(es)
  {
    PresentFirst(d, ds);
    PresentFirst(e, es);
    var x := Present(ds);
    var y := Present(es);
    if Present([d] + ds) == Present([e] + es) {
      assert Present([e] + es)[0] == e && Present([e] + es)[1..] == y;
      assert !d.Absent?;
      assert Present([d] + ds)[0] == d && Present([d] + ds)[1..] == x;
    }
  }

  // ---------------------------------------------------------------- members

  /** No more members hold something than there are TLVs. */
  lemma {:induction false} FewHeld(schemas: seq<Node>, tlvs: seq<Tlv>)
    requires AllShaped(tlvs) && DecodeAnything(schemas, tlvs).0
    ensures |Present(HeldAll(DecodeAnything(schemas, tlvs).1))| <= |tlvs|
  {
    if tlvs == [] {
      NoneHeld(schemas);
    } else {
      var first, rest := schemas[0], schemas[1..];
      if Agrees(first, tlvs[0]) {
        FewHeld(rest, tlvs[1..]);
        var n, more := DecodeUntagged(first, tlvs[0], true).1, DecodeAnything(rest, tlvs[1..]).1;
        HeldFirst(n, more);
        PresentFirst(Held(n), HeldAll(more));
      } else {
        FewHeld(rest, tlvs);
        var more := DecodeAnything(rest, tlvs).1;
        HeldFirst(Cleared(first), more);
        PresentFirst(Absent, HeldAll(more));
      }
    }
  }

  lemma {:induction false} NoneHeld(schemas: seq<Node>)
    requires DecodeNothing(schemas).0
    ensures Present(HeldAll(DecodeNothing(schemas).1)) == []
  {
    if schemas != [] {
      NoneHeld(schemas[1..]);
      var more := DecodeNothing(schemas[1..]).1;
      HeldFirst(Cleared(schemas[0]), more);
      PresentFirst(Absent, HeldAll(more));
    }
  }

  /** One step of the match. */
  lemma {:induction false} MatchFirst(schemas: seq<Node>, tlvs: seq<Tlv>)
    requires AllShaped(tlvs) && schemas != [] && tlvs != []
    ensures var r, n, rest := DecodeAnything(schemas, tlvs), schemas[0], schemas[1..];
      if Agrees(n, tlvs[0]) then
        var (ok, n') := DecodeUntagged(n, tlvs[0], true);
        var (done, more) := DecodeAnything(rest, tlvs[1..]);
        r.0 == (ok && done) && (r.0 ==> r.1 == [n'] + more)
      else
        var (done, more) := DecodeAnything(rest, tlvs);
        r.0 == (Skippable(n) && done) && (r.0 ==> r.1 == [Cleared(n)] + more)
  {
  }

  /** Members are given back exactly if they are in place. */
  lemma {:induction false} MembersBack(nodes: seq<Node>, schemas: seq<Node>, want: bool)
    requires AllFollow(nodes, schemas) && AllFresh(schemas) && AllProper(BuildAll(nodes, want))
    ensures AllShaped(PlainAll(BuildAll(nodes, want)))
    ensures var r := DecodeAnything(schemas, PlainAll(BuildAll(nodes, want)));
      r.0 && HeldAll(r.1) == MeaningAll(nodes, want) <==> InPlace(nodes, schemas, want)
    decreases nodes, 0
  {
    AllProperShaped(BuildAll(nodes, want));
    if nodes != [] {
      FirstBuilt(nodes, want);
      MembersBack(nodes[1..], schemas[1..], want);
      if Build(nodes[0], want).Some? {
        UntaggedBack(nodes[0], schemas[0], want);
        PresentMember(nodes, schemas, want);
      } else {
        AbsentMember(nodes, schemas, want);
      }
    }
  }

  lemma {:induction false} AbsentMember(nodes: seq<Node>, schemas: seq<Node>, want: bool)
    requires AllFollow(nodes, schemas) && nodes != [] && AllShaped(PlainAll(BuildAll(nodes, want)))
    requires Build(nodes[0], want).None?
    requires BuildAll(nodes[1..], want) == BuildAll(nodes, want)
    requires MeaningAll(nodes, want) == [Absent] + MeaningAll(nodes[1..], want)
    requires var r := DecodeAnything(schemas[1..], PlainAll(BuildAll(nodes, want)));
      r.0 && HeldAll(r.1) == MeaningAll(nodes[1..], want) <==> InPlace(nodes[1..], schemas[1..], want)
    ensures var r := DecodeAnything(schemas, PlainAll(BuildAll(nodes, want)));
      r.0 && HeldAll(r.1) == MeaningAll(nodes, want) <==> InPlace(nodes, schemas, want)
  {
    var tlvs := PlainAll(BuildAll(nodes, want));
    var more := DecodeAnything(schemas[1..], tlvs).1;
    HeldFirst(Cleared(schemas[0]), more);
    if tlvs != [] {
      MatchFirst(schemas, tlvs);
      if Agrees(schemas[0], tlvs[0]) && DecodeAnything(schemas, tlvs).0 {
        FewHeld(schemas[1..], tlvs[1..]);
        AllPresent(nodes[1..], want);
        AllProperLength(BuildAll(nodes, want));
        HeldFirst(DecodeUntagged(schemas[0], tlvs[0], true).1, DecodeAnything(schemas[1..], tlvs[1..]).1);
        SameTails(Held(DecodeUntagged(schemas[0], tlvs[0], true).1),
          HeldAll(DecodeAnything(schemas[1..], tlvs[1..]).1), Absent, MeaningAll(nodes[1..], want));
      }
    }
    SameTails(Absent, HeldAll(more), Absent, MeaningAll(nodes[1..], want));
  }

  lemma {:induction false} PresentMember(nodes: seq<Node>, schemas: seq<Node>, want: bool)
    requires AllFollow(nodes, schemas) && nodes != [] && Build(nodes[0], want).Some?
    requires AllShaped(PlainAll(BuildAll(nodes, want))) && AllShaped(PlainAll(BuildAll(nodes[1..], want)))
    requires var t := Build(nodes[0], want).value;
      && PlainAll(BuildAll(nodes, want)) == [Plain(t)] + PlainAll(BuildAll(nodes[1..], want)) && Shaped(Plain(t))
      && (ClearUntagged(nodes[0], schemas[0], want) <==>
        Back(nodes[0], want, DecodeUntagged(schemas[0], Plain(t), true)))
    requires Meaning(nodes[0], want) != Absent
    requires MeaningAll(nodes, want) == [Meaning(nodes[0], want)] + MeaningAll(nodes[1..], want)
    requires var r := DecodeAnything(schemas[1..], PlainAll(BuildAll(nodes[1..], want)));
      r.0 && HeldAll(r.1) == MeaningAll(nodes[1..], want) <==> InPlace(nodes[1..], schemas[1..], want)
    ensures var r := DecodeAnything(schemas, PlainAll(BuildAll(nodes, want)));
      r.0 && HeldAll(r.1) == MeaningAll(nodes, want) <==> InPlace(nodes, schemas, want)
  {
    var tlvs, rest := PlainAll(BuildAll(nodes, want)), PlainAll(BuildAll(nodes[1..], want));
    assert tlvs[0] == Plain(Build(nodes[0], want).value) && tlvs[1..] == rest;
    MatchFirst(schemas, tlvs);
    var n', more := DecodeUntagged(schemas[0], tlvs[0], true).1, DecodeAnything(schemas[1..], rest).1;
    HeldFirst(n', more);
    SameTails(Held(n'), HeldAll(more), Meaning(nodes[0], want), MeaningAll(nodes[1..], want));
    var skipped := DecodeAnything(schemas[1..], tlvs).1;
    HeldFirst(Cleared(schemas[0]), skipped);
    SameTails(Absent, HeldAll(skipped), Meaning(nodes[0], want), MeaningAll(nodes[1..], want));
  }

  lemma {:induction false} AllProperLength(ts: seq<Tlv>)
    ensures |PlainAll(ts)| == |ts|
  {
    if ts != [] { AllProperLength(ts[1..]); }
  }

  lemma SameTails(d: Datum, ds: seq<Datum>, e: Datum, es: seq<Datum>)
    ensures [d] + ds == [e] + es <==> d == e && ds == es
  {
    if [d] + ds == [e] + es {
      assert ([d] + ds)[0] == ([e] + es)[0] && ([d] + ds)[1..] == ([e] + es)[1..];
    }
  }

  // ---------------------------------------------------------------- elements

  /** The elements of a list behind the first are given back exactly if they are clear. */
  lemma {:induction false} CopiesBack(nodes: seq<Node>, schema: Node, template: Node)
    requires AllElements(nodes, schema) && Same(template, schema) && AllProper(BuildAll(nodes, false))
    ensures AllShaped(PlainAll(BuildAll(nodes, false)))
    ensures var r := DecodeCopies(template, CalcTag(schema.def, true), PlainAll(BuildAll(nodes, false)));
      r.0 && Present(HeldAll(r.1)) == Present(MeaningAll(nodes, false)) <==> ClearElements(nodes, schema)
    decreases nodes, 0
  {
    AllProperShaped(BuildAll(nodes, false));
    if nodes != [] {
      FirstBuilt(nodes, false);
      CopiesBack(nodes[1..], schema, template);
      PresentFirst(Meaning(nodes[0], false), MeaningAll(nodes[1..], false));
      if Build(nodes[0], false).Some? {
        var copy := Blank(template);
        BlankSame(template);
        BlankFresh(template);
        SameFollows(nodes[0], schema, copy);
        SameClear(nodes[0], schema, copy, false);
        SameOutline(copy, schema);
        OneBack(nodes[0], copy, false);
        CopyBack(nodes, schema, template);
      }
    }
  }

  lemma {:induction false} CopyBack(nodes: seq<Node>, schema: Node, template: Node)
    requires nodes != [] && Build(nodes[0], false).Some? && Blank(template).def == schema.def
    requires AllShaped(PlainAll(BuildAll(nodes, false))) && AllShaped(PlainAll(BuildAll(nodes[1..], false)))
    requires var t := Build(nodes[0], false).value;
      && PlainAll(BuildAll(nodes, false)) == [Plain(t)] + PlainAll(BuildAll(nodes[1..], false)) && Shaped(Plain(t))
      && (Back(nodes[0], false, DecodeOne(Blank(template), Plain(t))) <==> Clear(nodes[0], schema, false))
    requires Meaning(nodes[0], false) != Absent
    requires MeaningAll(nodes, false) == [Meaning(nodes[0], false)] + MeaningAll(nodes[1..], false)
    requires var r := DecodeCopies(template, CalcTag(schema.def, true), PlainAll(BuildAll(nodes[1..], false)));
      r.0 && Present(HeldAll(r.1)) == Present(MeaningAll(nodes[1..], false)) <==> ClearElements(nodes[1..], schema)
    ensures var r := DecodeCopies(template, CalcTag(schema.def, true), PlainAll(BuildAll(nodes, false)));
      r.0 && Present(HeldAll(r.1)) == Present(MeaningAll(nodes, false)) <==> ClearElements(nodes, schema)
  {
    var tag, tlvs, rest := CalcTag(schema.def, true), PlainAll(BuildAll(nodes, false)),
      PlainAll(BuildAll(nodes[1..], false));
    assert tlvs[0] == Plain(Build(nodes[0], false).value) && tlvs[1..] == rest;
    var r := DecodeCopies(template, tag, tlvs);
    var one, more := DecodeOne(Blank(template), tlvs[0]), DecodeCopies(template, tag, rest);
    assert r.0 <==> one.0 && more.0;
    if r.0 {
      assert r.1 == [one.1] + more.1;
      HeldFirst(one.1, more.1);
      AllPresent(nodes[1..], false);
      AllProperLength(BuildAll(nodes[1..], false));
      SamePresent(Held(one.1), HeldAll(more.1), Meaning(nodes[0], false), MeaningAll(nodes[1..], false));
    }
  }

  /** The elements of a list are given back, in order, exactly if they are clear. */
  lemma {:induction false} ElementsBack(nodes: seq<Node>, node: Node)
    requires node.children != [] && AllElements(nodes, node.children[0]) && AllFresh(node.children)
    requires AllProper(BuildAll(nodes, false))
    ensures AllShaped(PlainAll(BuildAll(nodes, false)))
    ensures var r := DecodeElements(node, PlainAll(BuildAll(nodes, false)));
      ClearElements(nodes, node.children[0]) <==>
        r.0 && Present(HeldAll(r.1.children)) == Present(MeaningAll(nodes, false))
    decreases nodes, 0
  {
    AllProperShaped(BuildAll(nodes, false));
    var schema := node.children[0];
    if nodes == [] {
      FreshHoldNothing(node.children);
    } else {
      FirstBuilt(nodes, false);
      PresentFirst(Meaning(nodes[0], false), MeaningAll(nodes[1..], false));
      if Build(nodes[0], false).None? {
        ElementsBack(nodes[1..], node);
      } else {
        var t := Build(nodes[0], false).value;
        OneBack(nodes[0], schema, false);
        var first := DecodeOne(schema, Plain(t)).1;
        OneAlike(schema, schema, Plain(t));
        CopiesBack(nodes[1..], schema, first);
        FirstBack(nodes, node, first);
      }
    }
  }

  lemma {:induction false} FirstBack(nodes: seq<Node>, node: Node, first: Node)
    requires node.children != [] && AllFresh(node.children)
    requires nodes != [] && Build(nodes[0], false).Some?
    requires AllShaped(PlainAll(BuildAll(nodes, false))) && AllShaped(PlainAll(BuildAll(nodes[1..], false)))
    requires var t := Build(nodes[0], false).value;
      && PlainAll(BuildAll(nodes, false)) == [Plain(t)] + PlainAll(BuildAll(nodes[1..], false)) && Shaped(Plain(t))
      && first == DecodeOne(node.children[0], Plain(t)).1
      && (Back(nodes[0], false, DecodeOne(node.children[0], Plain(t))) <==> Clear(nodes[0], node.children[0], false))
    requires Meaning(nodes[0], false) != Absent
    requires MeaningAll(nodes, false) == [Meaning(nodes[0], false)] + MeaningAll(nodes[1..], false)
    requires var r := DecodeCopies(first, CalcTag(node.children[0].def, true), PlainAll(BuildAll(nodes[1..], false)));
      ClearElements(nodes[1..], node.children[0]) <==>
        r.0 && Present(HeldAll(r.1)) == Present(MeaningAll(nodes[1..], false))
    ensures var r := DecodeElements(node, PlainAll(BuildAll(nodes, false)));
      ClearElements(nodes, node.children[0]) <==>
        r.0 && Present(HeldAll(r.1.children)) == Present(MeaningAll(nodes, false))
  {
    var schema, tlvs, rest := node.children[0], PlainAll(BuildAll(nodes, false)),
      PlainAll(BuildAll(nodes[1..], false));
    assert tlvs[0] == Plain(Build(nodes[0], false).value) && tlvs[1..] == rest;
    var r := DecodeElements(node, tlvs);
    var one, more := DecodeOne(schema, tlvs[0]), DecodeCopies(first, CalcTag(schema.def, true), rest);
    assert r.0 <==> one.0 && more.0;
    if r.0 {
      var left := node.children[1..];
      assert r.1.children == ([first] + left) + more.1;
      HeldBehind(first, left, more.1);
      AllPresent(nodes[1..], false);
      AllProperLength(BuildAll(nodes[1..], false));
      SamePresent(Held(first), HeldAll(more.1), Meaning(nodes[0], false), MeaningAll(nodes[1..], false));
    }
  }

  /** Children that hold nothing do not count. */
  lemma {:induction false} HeldBehind(first: Node, left: seq<Node>, more: seq<Node>)
    requires AllFresh(left)
    ensures Present(HeldAll(([first] + left) + more)) == Present([Held(first)] + HeldAll(more))
  {
    FreshHoldNothing(left);
    HeldJoined([first] + left, more);
    HeldFirst(first, left);
    PresentJoined([Held(first)] + HeldAll(left), HeldAll(more));
    PresentFirst(Held(first), HeldAll(left));
    PresentFirst(Held(first), HeldAll(more));
  }

  // ---------------------------------------------------------------- alternatives

  lemma {:induction false} AlternativeAt(schemas: seq<Node>, tlv: Tlv, i: nat)
    requires Shaped(tlv) && i < |schemas|
    ensures var (ok, n) := DecodeOne(schemas[i], tlv); DecodeAlternatives(schemas, tlv)[i] == n.(chosen := ok)
  {
    if i > 0 { AlternativeAt(schemas[1..], tlv, i - 1); }
  }

  lemma ParsedHeld(node: Node, t: Tlv, u: Tlv)
    requires !node.def.kind.Any?
    ensures Held(node.(parsed := Some(t))) == Held(node.(parsed := Some(u)))
  {
  }

  /** The alternatives that are chosen are those that accept. */
  lemma ChosenAccept(node: Node, tlv: Tlv)
    requires Shaped(tlv)
    ensures var (ok, n) := DecodeChoice(node, tlv);
      && n == node.(children := n.children) && |n.children| == |node.children|
      && (ok <==> Choose(n.children) < |n.children|)
      && forall i | 0 <= i < |n.children| ::
        && n.children[i].chosen == DecodeOne(node.children[i], tlv).0
        && Held(n.children[i]) == Held(DecodeOne(node.children[i], tlv).1)
  {
    var (ok, n) := DecodeChoice(node, tlv);
    forall i | 0 <= i < |n.children|
      ensures n.children[i].chosen == DecodeOne(node.children[i], tlv).0
      ensures Held(n.children[i]) == Held(DecodeOne(node.children[i], tlv).1)
    {
      AlternativeAt(node.children, tlv, i);
    }
  }

  lemma ChoiceHeld(node: Node, t: Tlv)
    requires node.def.kind.Choice?
    ensures Held(node.(parsed := Some(t))) ==
      var m := Choose(node.children);
      if m == |node.children| then Absent else Alternative(m, Held(node.children[m]))
  {
  }

  /** A choice is given back exactly if its alternative is, and all in front of that refuse the octets. */
  lemma {:induction false} ChoiceBack(nodes: seq<Node>, node: Node, t: Tlv, want: bool, k: nat)
    requires node.def.kind.Choice? && |nodes| == |node.children| && Shaped(Plain(t))
    requires k == Choose(nodes) < |nodes| && Build(nodes[k], want) == Some(t)
    requires Back(nodes[k], want, DecodeOne(node.children[k], Plain(t))) <==> Clear(nodes[k], node.children[k], want)
    ensures var (ok, n) := DecodeChoice(node, Plain(t));
      ClearChoice(nodes, node.children, want) <==>
        ok && Held(n.(parsed := Some(Plain(t)))) == Alternative(k, Meaning(nodes[k], want))
  {
    var (ok, n) := DecodeChoice(node, Plain(t));
    ChosenAccept(node, Plain(t));
    ChoiceHeld(n, Plain(t));
    var m := Choose(n.children);
    ChosenRefuse(node.children, n.children, k, t);
    assert ClearChoice(nodes, node.children, want) <==> k <= m && Clear(nodes[k], node.children[k], want);
    if k == m {
      assert Held(n.(parsed := Some(Plain(t)))) == Alternative(k, Held(DecodeOne(node.children[k], Plain(t)).1));
    } else if k < m {
      assert !n.children[k].chosen;
    }
  }

  lemma {:induction false} ChosenRefuse(schemas: seq<Node>, tried: seq<Node>, k: nat, t: Tlv)
    requires |tried| == |schemas| && k < |schemas| && Shaped(Plain(t))
    requires forall i | 0 <= i < |tried| :: tried[i].chosen == DecodeOne(schemas[i], Plain(t)).0
    ensures RefusedBefore(schemas, k, t) <==> k <= Choose(tried)
  {
    assert forall i | 0 <= i < k :: tried[i].chosen <==> Accepts(schemas[i], t);
  }

  /** What is read of a value. */
  function Read(kind: Type, bytes: Bytes): Datum {
    match kind
    case BitString =>
      if bytes == [] || bytes[0] >= 8 || (|bytes| > 1 && bytes[|bytes| - 1] % Power(bytes[0]) != 0) then Absent
      else BitField(bytes[1..], bytes[0])
    case Integer => Number(TwosComplement(bytes))
    case _ => Text(bytes)
  }

  predicate Simple(kind: Type) { !kind.Any? && !kind.Choice? && !Container(kind) }

  lemma ValueTaken(node: Node, tlv: Tlv)
    requires Shaped(tlv) && !Structured(tlv.cls) && Simple(node.def.kind)
    ensures var (ok, n) := DecodeUntagged(node, tlv, false);
      && (ok <==> Read(node.def.kind, tlv.content.bytes) != Absent)
      && (ok ==> Held(n) == Read(node.def.kind, tlv.content.bytes))
  {
    if node.def.kind.BitString? {
      assert DecodePrimitive(node, tlv) == DecodeBitString(node, tlv.content.bytes);
    }
  }

  /** A value is given back as it is. */
  lemma ValueBack(node: Node, schema: Node, want: bool)
    requires node.def == schema.def && Simple(node.def.kind)
    requires BuildBare(node, want).Some? && Proper(BuildBare(node, want).value)
    ensures Shaped(Plain(BuildBare(node, want).value))
    ensures Back(node, want, DecodeUntagged(schema, Plain(BuildBare(node, want).value), false))
  {
    var t := BuildBare(node, want).value;
    ProperShaped(t);
    assert !Structured(t.cls);
    ValueTaken(schema, Plain(t));
    ValueRead(node, want);
  }

  lemma ValueRead(node: Node, want: bool)
    requires Simple(node.def.kind) && BuildBare(node, want).Some?
    ensures var t := BuildBare(node, want).value;
      t.content.Value? && Read(node.def.kind, Payload(t.content.bytes, t.content.prefix)) == Meaning(node, want)
  {
    var b := node.value.value;
    if node.def.kind.BitString? {
      var m := Masked(b, node.bitsEmpty);
      assert ([node.bitsEmpty] + m)[1..] == m;
      if b != [] { LowClear(b[|b| - 1], node.bitsEmpty); }
    } else if node.def.kind.Integer? {
      ZeroOctetVal(b);
    }
  }

  lemma LowClear(x: Byte, n: Bits)
    ensures ClearLow(x, n) % Power(n) == 0
  {
    var p := Power(n);
    assert x == p * (x / p) + x % p;
    assert ClearLow(x, n) == p * (x / p);
    Multiple(x / p, p);
  }

  lemma Multiple(a: nat, p: nat)
    requires p > 0
    ensures (p * a) % p == 0
  {
    Quotient(a, 0, p);
    assert p * a == a * p + 0;
  }

  // ---------------------------------------------------------------- any node

  lemma {:induction false} BareBack(node: Node, schema: Node, want: bool)
    requires Follows(node, schema) && Fresh(schema) && !node.def.kind.Any?
    requires BuildBare(node, want).Some? && Proper(BuildBare(node, want).value)
    ensures Shaped(Plain(BuildBare(node, want).value))
    ensures Back(node, want, DecodeUntagged(schema, Plain(BuildBare(node, want).value), false)) <==>
      ClearInside(node, schema, want)
    decreases node, 1
  {
    var t := BuildBare(node, want).value;
    ProperShaped(t);
    if node.def.kind.Choice? {
      var k := Choose(node.children);
      ChosenPlace(node.children);
      FollowAt(node.children, schema.children, k);
      FreshAt(schema.children, k);
      OneBack(node.children[k], schema.children[k], want);
      FollowLength(node.children, schema.children);
      BareChoice(node, schema, t, want, k);
    } else if Container(node.def.kind) {
      var ts := BuildAll(node.children, want && !Repeated(node.def.kind));
      BuiltContainer(node, want);
      assert AllProper(ts);
      if Repeated(node.def.kind) {
        ElementsBack(node.children, schema);
        BareList(node, schema, t, want);
      } else {
        FollowLength(node.children, schema.children);
        MembersBack(node.children, schema.children, want);
        BareMembers(node, schema, t, want);
      }
    } else {
      ValueBack(node, schema, want);
    }
  }

  /** The outcome for a node that knows the TLV it was decoded from. */
  function Marked(r: Outcome, tlv: Tlv): Outcome {
    (r.0, if r.0 then r.1.(parsed := Some(tlv)) else r.1)
  }

  lemma ChoiceTaken(node: Node, tlv: Tlv)
    requires Shaped(tlv) && node.def.kind.Choice?
    ensures DecodeUntagged(node, tlv, false) == Marked(DecodeChoice(node, tlv), tlv)
  {
  }

  lemma ListTaken(node: Node, tlv: Tlv)
    requires Shaped(tlv) && Structured(tlv.cls) && Repeated(node.def.kind)
    ensures DecodeUntagged(node, tlv, false) == Marked(DecodeElements(node, tlv.content.tlvs), tlv)
  {
  }

  lemma MembersTaken(node: Node, tlv: Tlv)
    requires Shaped(tlv) && Structured(tlv.cls) && Container(node.def.kind) && !Repeated(node.def.kind)
    ensures var r, s := DecodeUntagged(node, tlv, false), DecodeAnything(node.children, tlv.content.tlvs);
      && r.0 == (s.0 && node.children != [] && (node.def.kind.Set? ==> Ascending(tlv.content.tlvs)))
      && (r.0 ==> r.1 == node.(children := s.1, parsed := Some(tlv)))
  {
    var ts := tlv.content.tlvs;
    var s := DecodeAnything(node.children, ts);
    assert DecodeMembers(node, ts) == (s.0 && node.children != [], node.(children := s.1));
    assert DecodeStructured(node, tlv) ==
      if node.def.kind.Set? && !Ascending(ts) then (false, node) else DecodeMembers(node, ts);
  }

  lemma ListHeld(node: Node)
    requires Repeated(node.def.kind) && node.parsed.Some?
    ensures Held(node) == Elements(Present(HeldAll(node.children)))
  {
  }

  lemma MembersHeld(node: Node)
    requires Container(node.def.kind) && !Repeated(node.def.kind) && node.parsed.Some?
    ensures Held(node) == Members(HeldAll(node.children))
  {
  }

  lemma ChoiceMeaning(node: Node, want: bool, k: nat)
    requires node.def.kind.Choice? && k == Choose(node.children) < |node.children|
    requires Build(node.children[k], want).Some?
    ensures Meaning(node, want) == Alternative(k, Meaning(node.children[k], want))
  {
    AbsentExactly(node.children[k], want);
  }

  lemma BareChoice(node: Node, schema: Node, t: Tlv, want: bool, k: nat)
    requires node.def == schema.def && node.def.kind.Choice? && |node.children| == |schema.children| && Shaped(Plain(t))
    requires k == Choose(node.children) < |node.children| && Build(node.children[k], want) == Some(t)
    requires Back(node.children[k], want, DecodeOne(schema.children[k], Plain(t))) <==>
      Clear(node.children[k], schema.children[k], want)
    ensures Back(node, want, DecodeUntagged(schema, Plain(t), false)) <==> ClearInside(node, schema, want)
  {
    ChoiceMeaning(node, want, k);
    ChoiceBack(node.children, schema, t, want, k);
    ChoiceTaken(schema, Plain(t));
    assert ClearInside(node, schema, want) <==> ClearChoice(node.children, schema.children, want);
  }

  lemma BuiltMeaning(node: Node, want: bool)
    requires Container(node.def.kind) && BuildBare(node, want).Some?
    ensures Repeated(node.def.kind) ==> Meaning(node, want) == Elements(Present(MeaningAll(node.children, false)))
    ensures !Repeated(node.def.kind) ==> Meaning(node, want) == Members(MeaningAll(node.children, want))
  {
    AllPresent(node.children, want && !Repeated(node.def.kind));
    ContainerMeaning(node, want);
    BuiltContainer(node, want);
  }

  lemma BareList(node: Node, schema: Node, t: Tlv, want: bool)
    requires node.def == schema.def && Repeated(node.def.kind) && schema.children != [] && Shaped(Plain(t))
    requires BuildBare(node, want) == Some(t) && AllShaped(PlainAll(BuildAll(node.children, false)))
    requires var r := DecodeElements(schema, PlainAll(BuildAll(node.children, false)));
      ClearElements(node.children, schema.children[0]) <==>
        r.0 && Present(HeldAll(r.1.children)) == Present(MeaningAll(node.children, false))
    ensures Back(node, want, DecodeUntagged(schema, Plain(t), false)) <==> ClearInside(node, schema, want)
  {
    BuiltMeaning(node, want);
    BuiltContainer(node, want);
    var tlvs := PlainAll(BuildAll(node.children, false));
    assert Plain(t).content == Children(tlvs) && Structured(t.cls);
    ListTaken(schema, Plain(t));
    ElementsKeepDef(schema, tlvs);
    ListHeld(DecodeElements(schema, tlvs).1.(parsed := Some(Plain(t))));
    assert ClearInside(node, schema, want) <==> ClearElements(node.children, schema.children[0]);
  }

  lemma BareMembers(node: Node, schema: Node, t: Tlv, want: bool)
    requires node.def == schema.def && Container(node.def.kind) && !Repeated(node.def.kind) && Shaped(Plain(t))
    requires |schema.children| == |node.children|
    requires BuildBare(node, want) == Some(t) && AllShaped(PlainAll(BuildAll(node.children, want)))
    requires var r := DecodeAnything(schema.children, PlainAll(BuildAll(node.children, want)));
      r.0 && HeldAll(r.1) == MeaningAll(node.children, want) <==> InPlace(node.children, schema.children, want)
    ensures Back(node, want, DecodeUntagged(schema, Plain(t), false)) <==> ClearInside(node, schema, want)
  {
    BuiltMeaning(node, want);
    BuiltContainer(node, want);
    var ts := BuildAll(node.children, want);
    var tlvs := PlainAll(ts);
    PlainAscending(ts);
    assert Plain(t).content == Children(tlvs) && Structured(t.cls);
    MembersTaken(schema, Plain(t));
    MembersHeld(schema.(children := DecodeAnything(schema.children, tlvs).1, parsed := Some(Plain(t))));
    assert ClearInside(node, schema, want) <==>
      node.children != [] && (node.def.kind.Set? ==> Ascending(ts)) && InPlace(node.children, schema.children, want);
  }

  lemma ElementsKeepDef(node: Node, tlvs: seq<Tlv>)
    requires AllShaped(tlvs)
    ensures DecodeElements(node, tlvs).1.def == node.def
  {
  }

  lemma {:induction false} FreshAt(nodes: seq<Node>, i: nat)
    requires AllFresh(nodes) && i < |nodes|
    ensures Fresh(nodes[i])
  {
    if i > 0 { FreshAt(nodes[1..], i - 1); }
  }

  lemma FollowLength(nodes: seq<Node>, schemas: seq<Node>)
    requires AllFollow(nodes, schemas)
    ensures |nodes| == |schemas|
  {
  }

  lemma {:induction false} PlainAt(ts: seq<Tlv>, i: nat)
    requires i < |ts|
    ensures |PlainAll(ts)| == |ts| && PlainAll(ts)[i] == Plain(ts[i])
  {
    AllProperLength(ts);
    assert PlainAll(ts) == [Plain(ts[0])] + PlainAll(ts[1..]);
    if i > 0 { PlainAt(ts[1..], i - 1); }
  }

  lemma {:induction false} PlainAscending(ts: seq<Tlv>)
    ensures Ascending(PlainAll(ts)) <==> Ascending(ts)
  {
    AllProperLength(ts);
    forall k | 0 <= k < |ts| ensures PlainAll(ts)[k].tag == ts[k].tag { PlainAt(ts, k); }
  }

  lemma {:induction false} UntaggedBack(node: Node, schema: Node, want: bool)
    requires Follows(node, schema) && Fresh(schema)
    requires Build(node, want).Some? && Proper(Build(node, want).value)
    ensures Shaped(Plain(Build(node, want).value))
    ensures Back(node, want, DecodeUntagged(schema, Plain(Build(node, want).value), true)) <==>
      ClearUntagged(node, schema, want)
    decreases node, 2
  {
    var t := Build(node, want).value;
    ProperShaped(t);
    if node.def.kind.Any? {
      AnyBack(node, schema, t, want);
    } else {
      var u := BuildBare(node, want).value;
      assert Proper(u) by { if Explicit(node.def, true) { assert u in t.content.tlvs; } }
      BareBack(node, schema, want);
      WrappedBack(node, schema, u, want);
    }
  }

  lemma WrappedBack(node: Node, schema: Node, u: Tlv, want: bool)
    requires node.def == schema.def && !node.def.kind.Any? && BuildBare(node, want) == Some(u)
    requires Proper(Wrapped(node.def, u)) && Shaped(Plain(u)) && Shaped(Plain(Wrapped(node.def, u)))
    ensures Back(node, want, DecodeUntagged(schema, Plain(Wrapped(node.def, u)), true)) <==>
      Framed(node.def, Wrapped(node.def, u)) && Back(node, want, DecodeUntagged(schema, Plain(u), false))
  {
    var t := Wrapped(node.def, u);
    if Explicit(node.def, true) {
      assert [u][1..] == [] && PlainAll([u]) == [Plain(u)];
      var (ok, n) := DecodeUntagged(schema, Plain(u), false);
      UntaggedAlike(schema, schema, Plain(u), false);
      SameOutline(n, schema);
      if ok { ParsedHeld(n, Plain(u), Plain(t)); }
    }
  }

  lemma AnyBack(node: Node, schema: Node, t: Tlv, want: bool)
    requires node.def == schema.def && node.def.kind.Any? && Build(node, want) == Some(t) && Shaped(Plain(t))
    ensures Back(node, want, DecodeUntagged(schema, Plain(t), true)) <==> Framed(node.def, t)
  {
    PlainOctets(t);
    AnyFramed(schema, t);
    assert Held(schema.(parsed := Some(Plain(t)))) == Raw(Encode(Plain(t)));
    assert Meaning(node, want) == Raw(Encode(t));
  }

  lemma AnyFramed(schema: Node, t: Tlv)
    requires schema.def.kind.Any? && Shaped(Plain(t))
    ensures var r := DecodeUntagged(schema, Plain(t), true);
      (r.0 <==> Framed(schema.def, t)) && (r.0 ==> r.1 == schema.(parsed := Some(Plain(t))))
  {
    if t.content.Children? { AllProperLength(t.content.tlvs); }
    if !Explicit(schema.def, true) {
      AnyTaken(schema, Plain(t), true);
    } else if Framed(schema.def, t) {
      FirstShaped(Plain(t).content.tlvs);
      AnyTaken(schema, Plain(t).content.tlvs[0], false);
    }
  }

  lemma AnyTaken(node: Node, t: Tlv, tagged: bool)
    requires node.def.kind.Any? && Shaped(t) && !Explicit(node.def, tagged)
    ensures DecodeUntagged(node, t, tagged) == (true, node.(parsed := Some(t)))
  {
  }

  /** What is written for a node is decoded into its schema as what the node is set to, exactly if it is clear. */
  lemma {:induction false} OneBack(node: Node, schema: Node, want: bool)
    requires Follows(node, schema) && Fresh(schema)
    requires Build(node, want).Some? && Proper(Build(node, want).value)
    ensures Shaped(Plain(Build(node, want).value))
    ensures Back(node, want, DecodeOne(schema, Plain(Build(node, want).value))) <==> Clear(node, schema, want)
    decreases node, 3
  {
    UntaggedBack(node, schema, want);
  }
}
