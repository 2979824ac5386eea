/** Attributes whose values are shared, after gck/gck-attributes.c: the pure part. */
module Attributes {
  import opened Wrappers

  // CK_UNAVAILABLE_INFORMATION, the length of an invalid attribute.
  const INVALID: nat := 0xFFFF_FFFF_FFFF_FFFF

  /** A value in memory: how often it is referred to, and its octets. */
  datatype Value = Value(refs: nat, bytes: seq<Byte>)

  /** An attribute points at its value, if it has one. */
  datatype Attribute = Attribute(kind: nat, value: Option<nat>, length: nat)

  type Values = map<nat, Value>

  /** What holds attributes: a builder, or a set of attributes that is shared itself. */
  datatype Holder =
    | Builder(slots: seq<Attribute>)
    | Set(slots: seq<Attribute>, refs: nat, floating: bool)

  // ---------------------------------------------------------------- counting

  function One(a: Attribute, v: nat): nat { if a.value == Some(v) then 1 else 0 }

  /** How many attributes point at a value. */
  function Uses(slots: seq<Attribute>, v: nat): nat {
    if slots == [] then 0 else One(slots[0], v) + Uses(slots[1..], v)
  }

  function Count(holders: seq<Holder>, v: nat): nat {
    if holders == [] then 0 else Uses(holders[0].slots, v) + Count(holders[1..], v)
  }

  function Refs(values: Values, v: nat): nat { if v in values then values[v].refs else 0 }

  lemma {:induction false} UsesPut(slots: seq<Attribute>, i: nat, a: Attribute, v: nat)
    requires i < |slots|
    ensures Uses(slots[i := a], v) + One(slots[i], v) == Uses(slots, v) + One(a, v)
  {
    if i == 0 {
      assert slots[i := a][1..] == slots[1..];
    } else {
      UsesPut(slots[1..], i - 1, a, v);
      assert slots[i := a][1..] == slots[1..][i - 1 := a];
    }
  }

  lemma {:induction false} UsesJoined(a: seq<Attribute>, b: seq<Attribute>, v: nat)
    ensures Uses(a + b, v) == Uses(a, v) + Uses(b, v)
  {
    if a == [] {
      assert a + b == b;
    } else {
      assert (a + b)[0] == a[0] && (a + b)[1..] == a[1..] + b;
      UsesJoined(a[1..], b, v);
    }
  }

  lemma {:induction false} CountPut(holders: seq<Holder>, k: nat, h: Holder, v: nat)
    requires k < |holders|
    ensures Count(holders[k := h], v) + Uses(holders[k].slots, v) == Count(holders, v) + Uses(h.slots, v)
  {
    if k == 0 {
      assert holders[k := h][1..] == holders[1..];
    } else {
      CountPut(holders[1..], k - 1, h, v);
      assert holders[k := h][1..] == holders[1..][k - 1 := h];
    }
  }

  lemma {:induction false} CountMore(holders: seq<Holder>, h: Holder, v: nat)
    ensures Count(holders + [h], v) == Count(holders, v) + Uses(h.slots, v)
  {
    if holders == [] {
      assert holders + [h] == [h] && [h][1..] == [];
    } else {
      assert (holders + [h])[0] == holders[0] && (holders + [h])[1..] == holders[1..] + [h];
      CountMore(holders[1..], h, v);
    }
  }

  lemma {:induction false} UsedHere(slots: seq<Attribute>, i: nat, v: nat)
    requires i < |slots| && slots[i].value == Some(v)
    ensures Uses(slots, v) > 0
  {
    if i > 0 { UsedHere(slots[1..], i - 1, v); }
  }

  lemma {:induction false} UsedSomewhere(slots: seq<Attribute>, v: nat) returns (i: nat)
    requires Uses(slots, v) > 0
    ensures i < |slots| && slots[i].value == Some(v)
  {
    if One(slots[0], v) == 1 {
      i := 0;
    } else {
      i := UsedSomewhere(slots[1..], v);
      i := i + 1;
    }
  }

  lemma {:induction false} CountedHere(holders: seq<Holder>, k: nat, v: nat)
    requires k < |holders|
    ensures Count(holders, v) >= Uses(holders[k].slots, v)
  {
    if k > 0 { CountedHere(holders[1..], k - 1, v); }
  }

  lemma {:induction false} CountedSomewhere(holders: seq<Holder>, v: nat) returns (k: nat)
    requires Count(holders, v) > 0
    ensures k < |holders| && Uses(holders[k].slots, v) > 0
  {
    if Uses(holders[0].slots, v) > 0 {
      k := 0;
    } else {
      k := CountedSomewhere(holders[1..], v);
      k := k + 1;
    }
  }

  // ---------------------------------------------------------------- the balance

  /** Values that are alive are referred to. */
  predicate Alive(values: Values) { forall v | v in values :: values[v].refs > 0 }

  /** Each value's count is the number of attributes that point at it, but for references taken ahead of the
    * pointer (credit) and pointers whose reference is gone already (debt). */
  ghost predicate Balanced(values: Values, holders: seq<Holder>, credit: seq<Attribute>, debt: seq<Attribute>) {
    Alive(values) && forall v: nat :: Refs(values, v) + Uses(debt, v) == Count(holders, v) + Uses(credit, v)
  }

  /** A value is alive exactly as long as some attribute points at it. */
  lemma AliveWhileUsed(values: Values, holders: seq<Holder>, v: nat)
    requires Balanced(values, holders, [], [])
    ensures v in values <==>
      exists k, i | 0 <= k < |holders| && 0 <= i < |holders[k].slots| :: holders[k].slots[i].value == Some(v)
  {
    if v in values {
      assert Refs(values, v) > 0;
      var k := CountedSomewhere(holders, v);
      var i := UsedSomewhere(holders[k].slots, v);
    }
    forall k, i | 0 <= k < |holders| && 0 <= i < |holders[k].slots| && holders[k].slots[i].value == Some(v)
      ensures v in values
    {
      UsedHere(holders[k].slots, i, v);
      CountedHere(holders, k, v);
      assert Refs(values, v) > 0;
    }
  }

  function Refd(values: Values, v: nat): Values
    requires v in values
  {
    values[v := values[v].(refs := values[v].refs + 1)]
  }

  /** The last reference frees the value. */
  function Unrefd(values: Values, v: nat): Values
    requires v in values
  {
    if values[v].refs <= 1 then values - {v} else values[v := values[v].(refs := values[v].refs - 1)]
  }

  lemma RefdBalance(values: Values, holders: seq<Holder>, a: Attribute, debt: seq<Attribute>)
    requires Balanced(values, holders, [], debt) && a.value.Some? && a.value.value in values
    ensures Balanced(Refd(values, a.value.value), holders, [a], debt)
  {
    var after := Refd(values, a.value.value);
    forall v: nat ensures Refs(after, v) + Uses(debt, v) == Count(holders, v) + Uses([a], v) {
      assert [a][1..] == [];
      assert Refs(values, v) + Uses(debt, v) == Count(holders, v) + Uses([], v);
    }
  }

  lemma UnrefdBalance(values: Values, holders: seq<Holder>, a: Attribute, debt: seq<Attribute>)
    requires Balanced(values, holders, [], debt) && a.value.Some? && a.value.value in values
    ensures Balanced(Unrefd(values, a.value.value), holders, [], debt + [a])
  {
    var after := Unrefd(values, a.value.value);
    forall v: nat ensures Refs(after, v) + Uses(debt + [a], v) == Count(holders, v) + Uses([], v) {
      UsesJoined(debt, [a], v);
      assert [a][1..] == [];
      assert Refs(values, v) + Uses(debt, v) == Count(holders, v) + Uses([], v);
    }
  }

  /** An attribute takes the place of another: the reference that was taken for it and the one that the other gave up
    * are settled. */
  lemma PutBalance(values: Values, holders: seq<Holder>, k: nat, i: nat, a: Attribute, h: Holder)
    requires k < |holders| && i < |holders[k].slots| && h.slots == holders[k].slots[i := a]
    requires Balanced(values, holders, [a], [holders[k].slots[i]])
    ensures Balanced(values, holders[k := h], [], [])
  {
    var was := holders[k].slots[i];
    forall v: nat ensures Refs(values, v) + Uses([], v) == Count(holders[k := h], v) + Uses([], v) {
      UsesPut(holders[k].slots, i, a, v);
      CountPut(holders, k, h, v);
      assert [a][1..] == [] && [was][1..] == [];
      assert Refs(values, v) + Uses([was], v) == Count(holders, v) + Uses([a], v);
    }
  }

  /** An attribute without a value is never counted. */
  lemma NoCredit(values: Values, holders: seq<Holder>, a: Attribute, debt: seq<Attribute>)
    requires Balanced(values, holders, [], debt) && a.value == None
    ensures Balanced(values, holders, [a], debt)
  {
    assert [a][1..] == [];
    assert forall v: nat :: Uses([a], v) == 0;
  }

  lemma NoDebt(values: Values, holders: seq<Holder>, credit: seq<Attribute>, a: Attribute)
    requires Balanced(values, holders, credit, []) && a.value == None
    ensures Balanced(values, holders, credit, [a])
  {
    assert [a][1..] == [];
    assert forall v: nat :: Uses([a], v) == 0;
  }

  lemma PushBalance(values: Values, holders: seq<Holder>, k: nat, a: Attribute)
    requires k < |holders| && holders[k].Builder? && a.value == None && Balanced(values, holders, [], [])
    ensures Balanced(values, holders[k := Builder(holders[k].slots + [a])], [], [])
  {
    var h := Builder(holders[k].slots + [a]);
    forall v: nat ensures Refs(values, v) + Uses([], v) == Count(holders[k := h], v) + Uses([], v) {
      UsesJoined(holders[k].slots, [a], v);
      CountPut(holders, k, h, v);
      assert [a][1..] == [];
      assert Refs(values, v) + Uses([], v) == Count(holders, v) + Uses([], v);
    }
  }

  /** A new value, with one reference for the attribute that is to point at it. */
  lemma NewBalance(values: Values, holders: seq<Holder>, credit: seq<Attribute>, a: Attribute, bytes: seq<Byte>)
    requires Balanced(values, holders, credit, []) && a.value.Some? && a.value.value !in values
    ensures Balanced(values[a.value.value := Value(1, bytes)], holders, credit + [a], [])
  {
    var after := values[a.value.value := Value(1, bytes)];
    forall v: nat ensures Refs(after, v) + Uses([], v) == Count(holders, v) + Uses(credit + [a], v) {
      UsesJoined(credit, [a], v);
      assert [a][1..] == [];
      assert Refs(values, v) + Uses([], v) == Count(holders, v) + Uses(credit, v);
    }
  }

  lemma MoreCredit(values: Values, holders: seq<Holder>, credit: seq<Attribute>, a: Attribute)
    requires Balanced(values, holders, credit, []) && a.value == None
    ensures Balanced(values, holders, credit + [a], [])
  {
    forall v: nat ensures Refs(values, v) + Uses([], v) == Count(holders, v) + Uses(credit + [a], v) {
      UsesJoined(credit, [a], v);
      assert [a][1..] == [];
      assert Refs(values, v) + Uses([], v) == Count(holders, v) + Uses(credit, v);
    }
  }

  lemma MoreDebt(values: Values, holders: seq<Holder>, debt: seq<Attribute>, a: Attribute)
    requires Balanced(values, holders, [], debt) && a.value == None
    ensures Balanced(values, holders, [], debt + [a])
  {
    forall v: nat ensures Refs(values, v) + Uses(debt + [a], v) == Count(holders, v) + Uses([], v) {
      UsesJoined(debt, [a], v);
      assert [a][1..] == [];
      assert Refs(values, v) + Uses(debt, v) == Count(holders, v) + Uses([], v);
    }
  }

  /** An attribute overwrites another whose reference is not given up: that reference is left over. */
  lemma OverwriteBalance(values: Values, holders: seq<Holder>, k: nat, i: nat, a: Attribute, h: Holder,
    credit: seq<Attribute>)
    requires k < |holders| && i < |holders[k].slots| && h.slots == holders[k].slots[i := a]
    requires Balanced(values, holders, credit + [a], [])
    ensures Balanced(values, holders[k := h], credit + [holders[k].slots[i]], [])
  {
    var was := holders[k].slots[i];
    forall v: nat ensures Refs(values, v) + Uses([], v) == Count(holders[k := h], v) + Uses(credit + [was], v) {
      UsesPut(holders[k].slots, i, a, v);
      CountPut(holders, k, h, v);
      UsesJoined(credit, [a], v);
      UsesJoined(credit, [was], v);
      assert [a][1..] == [] && [was][1..] == [];
      assert Refs(values, v) + Uses([], v) == Count(holders, v) + Uses(credit + [a], v);
    }
  }

  predicate NoValues(slots: seq<Attribute>) { forall i | 0 <= i < |slots| :: slots[i].value == None }

  lemma {:induction false} NoValuesUnused(slots: seq<Attribute>, v: nat)
    requires NoValues(slots)
    ensures Uses(slots, v) == 0
  {
    if slots != [] { NoValuesUnused(slots[1..], v); }
  }

  /** References left over leave the balance right exactly when none of them is one. */
  lemma NothingLeftOver(values: Values, holders: seq<Holder>, credit: seq<Attribute>)
    requires Balanced(values, holders, credit, [])
    ensures Balanced(values, holders, [], []) <==> NoValues(credit)
  {
    if NoValues(credit) {
      forall v: nat ensures Refs(values, v) + Uses([], v) == Count(holders, v) + Uses([], v) {
        NoValuesUnused(credit, v);
        assert Refs(values, v) + Uses([], v) == Count(holders, v) + Uses(credit, v);
      }
    } else {
      var i :| 0 <= i < |credit| && credit[i].value != None;
      var v := credit[i].value.value;
      UsedHere(credit, i, v);
      assert Refs(values, v) + Uses([], v) == Count(holders, v) + Uses(credit, v);
    }
  }

  /** While the references of a holder's attributes are given up in order, those still to come are alive. */
  lemma NextAlive(values: Values, holders: seq<Holder>, k: nat, i: nat)
    requires k < |holders| && i < |holders[k].slots| && holders[k].slots[i].value.Some?
    requires Balanced(values, holders, [], holders[k].slots[..i])
    ensures holders[k].slots[i].value.value in values
  {
    var slots := holders[k].slots;
    var v := slots[i].value.value;
    assert slots == slots[..i] + slots[i..];
    UsesJoined(slots[..i], slots[i..], v);
    UsedHere(slots[i..], 0, v);
    CountedHere(holders, k, v);
    assert Refs(values, v) + Uses(slots[..i], v) == Count(holders, v) + Uses([], v);
  }

  /** A holder all of whose references were given up goes. */
  lemma GoneBalance(values: Values, holders: seq<Holder>, k: nat, h: Holder)
    requires k < |holders| && h.slots == [] && Balanced(values, holders, [], holders[k].slots)
    ensures Balanced(values, holders[k := h], [], [])
  {
    forall v: nat ensures Refs(values, v) + Uses([], v) == Count(holders[k := h], v) + Uses([], v) {
      CountPut(holders, k, h, v);
      assert Refs(values, v) + Uses(holders[k].slots, v) == Count(holders, v) + Uses([], v);
    }
  }

  /** A holder whose attributes have no values goes. */
  lemma EmptyGone(values: Values, holders: seq<Holder>, k: nat, h: Holder)
    requires k < |holders| && h.slots == [] && NoValues(holders[k].slots) && Balanced(values, holders, [], [])
    ensures Balanced(values, holders[k := h], [], [])
  {
    forall v: nat ensures Refs(values, v) + Uses([], v) == Count(holders[k := h], v) + Uses([], v) {
      CountPut(holders, k, h, v);
      NoValuesUnused(holders[k].slots, v);
      assert Refs(values, v) + Uses([], v) == Count(holders, v) + Uses([], v);
    }
  }

  /** The attributes of a holder move to a new one. */
  lemma MoveBalance(values: Values, holders: seq<Holder>, k: nat, emptied: Holder, h: Holder)
    requires k < |holders| && emptied.slots == [] && h.slots == holders[k].slots && Balanced(values, holders, [], [])
    ensures Balanced(values, holders[k := emptied] + [h], [], [])
  {
    forall v: nat ensures Refs(values, v) + Uses([], v) == Count(holders[k := emptied] + [h], v) + Uses([], v) {
      CountPut(holders, k, emptied, v);
      CountMore(holders[k := emptied], h, v);
      assert Refs(values, v) + Uses([], v) == Count(holders, v) + Uses([], v);
    }
  }

  /** A holder changes in other ways than in its attributes. */
  lemma SameSlots(values: Values, holders: seq<Holder>, k: nat, h: Holder)
    requires k < |holders| && h.slots == holders[k].slots && Balanced(values, holders, [], [])
    ensures Balanced(values, holders[k := h], [], [])
  {
    forall v: nat ensures Refs(values, v) + Uses([], v) == Count(holders[k := h], v) + Uses([], v) {
      CountPut(holders, k, h, v);
      assert Refs(values, v) + Uses([], v) == Count(holders, v) + Uses([], v);
    }
  }

  lemma EmptyHolder(values: Values, holders: seq<Holder>, h: Holder)
    requires h.slots == [] && Balanced(values, holders, [], [])
    ensures Balanced(values, holders + [h], [], [])
  {
    forall v: nat ensures Refs(values, v) + Uses([], v) == Count(holders + [h], v) + Uses([], v) {
      CountMore(holders, h, v);
      assert Refs(values, v) + Uses([], v) == Count(holders, v) + Uses([], v);
    }
  }

  /** Attributes that some holder points with keep their values alive. */
  lemma StaysAlive(values: Values, holders: seq<Holder>, k: nat, i: nat)
    requires Balanced(values, holders, [], []) && k < |holders| && i < |holders[k].slots|
    requires holders[k].slots[i].value.Some?
    ensures holders[k].slots[i].value.value in values
  {
    var v := holders[k].slots[i].value.value;
    UsedHere(holders[k].slots, i, v);
    CountedHere(holders, k, v);
    assert Refs(values, v) + Uses([], v) == Count(holders, v) + Uses([], v);
  }

  // ---------------------------------------------------------------- what builders do

  function Empty(kind: nat): Attribute { Attribute(kind, None, 0) }

  /** Where the first attribute of a kind is, or the end. */
  function Place(slots: seq<Attribute>, kind: nat): (i: nat)
    ensures i <= |slots| && (i < |slots| ==> slots[i].kind == kind)
    ensures forall j | 0 <= j < i :: slots[j].kind != kind
  {
    if slots == [] || slots[0].kind == kind then 0 else 1 + Place(slots[1..], kind)
  }

  /** An attribute instead of the first of its kind, or behind the others. */
  function Placed(slots: seq<Attribute>, a: Attribute): seq<Attribute> {
    var i := Place(slots, a.kind);
    if i < |slots| then slots[i := a] else slots + [a]
  }

  /** A copy shares the value; an invalid one has none, and one without a value is empty. */
  function Copied(a: Attribute): Attribute {
    if a.length == INVALID then Attribute(a.kind, None, INVALID)
    else if a.value == None then Empty(a.kind)
    else a
  }

  /** All of some attributes set one after the other. */
  function AllSet(slots: seq<Attribute>, data: seq<Attribute>): seq<Attribute> {
    if data == [] then slots else Placed(AllSet(slots, data[..|data| - 1]), Copied(data[|data| - 1]))
  }

  function AllAdded(slots: seq<Attribute>, data: seq<Attribute>): seq<Attribute> {
    if data == [] then slots else AllAdded(slots, data[..|data| - 1]) + [Copied(data[|data| - 1])]
  }

  /** The first attribute of a kind. */
  function Find(slots: seq<Attribute>, kind: nat): Option<Attribute> {
    var i := Place(slots, kind);
    if i < |slots| then Some(slots[i]) else None
  }

  function LastOf(data: seq<Attribute>, kind: nat): Option<Attribute> {
    if data == [] then None
    else if data[|data| - 1].kind == kind then Some(data[|data| - 1])
    else LastOf(data[..|data| - 1], kind)
  }

  lemma {:induction false} PlaceUnique(slots: seq<Attribute>, kind: nat, i: nat)
    requires i <= |slots| && (i < |slots| ==> slots[i].kind == kind) && forall j | 0 <= j < i :: slots[j].kind != kind
    ensures Place(slots, kind) == i
  {
    if i > 0 { PlaceUnique(slots[1..], kind, i - 1); }
  }

  lemma FindPlaced(slots: seq<Attribute>, a: Attribute, kind: nat)
    ensures Find(Placed(slots, a), kind) == if a.kind == kind then Some(a) else Find(slots, kind)
  {
    var after, at := Placed(slots, a), Place(slots, a.kind);
    if a.kind == kind {
      PlaceUnique(after, kind, at);
    } else {
      var i := Place(slots, kind);
      PlaceUnique(after, kind, if i < |slots| then i else |after|);
    }
  }

  /** After all of some attributes are set, each kind among them is found with the last one of its kind, and
    * every other kind as it was. */
  lemma {:induction false} FindAllSet(slots: seq<Attribute>, data: seq<Attribute>, kind: nat)
    ensures Find(AllSet(slots, data), kind) ==
      if LastOf(data, kind).Some? then Some(Copied(LastOf(data, kind).value)) else Find(slots, kind)
  {
    if data != [] {
      var n := |data| - 1;
      FindAllSet(slots, data[..n], kind);
      FindPlaced(AllSet(slots, data[..n]), Copied(data[n]), kind);
    }
  }

  lemma PlacedTwice(slots: seq<Attribute>, empty: Attribute, a: Attribute)
    requires empty.kind == a.kind
    ensures var i := Place(slots, a.kind);
      i < |Placed(slots, empty)| && Placed(slots, empty)[i := a] == Placed(slots, a)
  {
  }

  function Emptied(slots: seq<Attribute>): (r: seq<Attribute>)
    ensures |r| == |slots| && NoValues(r)
  {
    seq(|slots|, i requires 0 <= i < |slots| => Empty(slots[i].kind))
  }

  lemma EmptiedStep(slots: seq<Attribute>, i: nat)
    requires i < |slots|
    ensures (Emptied(slots[..i]) + slots[i..])[i] == slots[i]
    ensures (Emptied(slots[..i]) + slots[i..])[i := Empty(slots[i].kind)] == Emptied(slots[..i + 1]) + slots[i + 1..]
  {
  }

  function WithLengths(slots: seq<Attribute>, lengths: seq<nat>): (r: seq<Attribute>)
    requires |lengths| == |slots|
    ensures |r| == |slots| && (NoValues(slots) ==> NoValues(r))
  {
    seq(|slots|, i requires 0 <= i < |slots| => slots[i].(length := lengths[i]))
  }

  lemma LengthsBalance(values: Values, holders: seq<Holder>, k: nat, h: Holder)
    requires k < |holders| && NoValues(holders[k].slots) && NoValues(h.slots) && Balanced(values, holders, [], [])
    ensures Balanced(values, holders[k := h], [], [])
  {
    forall v: nat ensures Refs(values, v) + Uses([], v) == Count(holders[k := h], v) + Uses([], v) {
      CountPut(holders, k, h, v);
      NoValuesUnused(holders[k].slots, v);
      NoValuesUnused(h.slots, v);
      assert Refs(values, v) + Uses([], v) == Count(holders, v) + Uses([], v);
    }
  }
}
