/** Builders and sets of attributes that share values, after gck/gck-attributes.c. */
module SharedValues {
  import opened Wrappers
  import opened Attributes

  /** The values in memory, and all builders and sets of attributes there are; each is known by its index. */
  class Heap {
    var values: Values
    var next: nat
    var holders: seq<Holder>

    /** The count of every value is the number of attributes that point at it, in all builders and sets together. */
    ghost predicate Valid()
      reads this
    {
      Balanced(values, holders, [], []) && Below()
    }

    ghost predicate Below()
      reads this
    {
      forall v | v in values :: v < next
    }

    /** Where each attribute of a holder stands. */
    predicate HasSlot(b: nat, i: nat)
      reads this
    {
      b < |holders| && i < |holders[b].slots|
    }

    predicate IsBuilder(b: nat)
      reads this
    {
      b < |holders| && holders[b].Builder?
    }

    predicate IsSet(s: nat)
      reads this
    {
      s < |holders| && holders[s].Set? && holders[s].refs > 0
    }

    constructor ()
      ensures Valid() && holders == []
    {
      values, next, holders := map[], 0, [];
    }

    method NewBuilder() returns (b: nat)
      requires Valid()
      modifies this`holders
      ensures Valid() && b == |old(holders)| && holders == old(holders) + [Builder([])]
    {
      EmptyHolder(values, holders, Builder([]));
      b := |holders|;
      holders := holders + [Builder([])];
    }

    // ---------------------------------------------------------------- values

    method ValueRef(v: nat)
      requires v in values
      modifies this`values
      ensures values == Refd(old(values), v)
    {
      values := values[v := values[v].(refs := values[v].refs + 1)];
    }

    /** The last reference frees the value. */
    method ValueUnref(v: nat)
      requires v in values
      modifies this`values
      ensures values == Unrefd(old(values), v)
    {
      if values[v].refs <= 1 {
        values := values - {v};
      } else {
        values := values[v := values[v].(refs := values[v].refs - 1)];
      }
    }

    method ValueNew(bytes: seq<Byte>) returns (v: nat)
      requires Below()
      modifies this`values, this`next
      ensures v == old(next) && next == v + 1 && v !in old(values) && values == old(values)[v := Value(1, bytes)]
      ensures Below()
    {
      v, next := next, next + 1;
      values := values[v := Value(1, bytes)];
    }

    // ---------------------------------------------------------------- attributes of a builder

    method Put(b: nat, i: nat, a: Attribute)
      requires IsBuilder(b) && HasSlot(b, i)
      modifies this`holders
      ensures holders == old(holders[b := Builder(holders[b].slots[i := a])])
    {
      holders := holders[b := Builder(holders[b].slots[i := a])];
    }

    method BuilderPush(b: nat, kind: nat)
      requires Valid() && IsBuilder(b)
      modifies this`holders
      ensures Valid() && holders == old(holders[b := Builder(holders[b].slots + [Empty(kind)])])
    {
      PushBalance(values, holders, b, Empty(kind));
      holders := holders[b := Builder(holders[b].slots + [Empty(kind)])];
    }

    method BuilderClear(b: nat, i: nat)
      requires Valid() && IsBuilder(b) && HasSlot(b, i)
      modifies this`values, this`holders
      ensures Valid() && holders == old(holders[b := Builder(holders[b].slots[i := Empty(holders[b].slots[i].kind)])])
      ensures Kept(old(values), old(next))
    {
      var a := holders[b].slots[i];
      var cleared := Empty(a.kind);
      if a.value.Some? {
        StaysAlive(values, holders, b, i);
        UnrefdBalance(values, holders, a, []);
        assert [] + [a] == [a];
        ValueUnref(a.value.value);
      } else {
        NoDebt(values, holders, [], a);
      }
      NoCredit(values, holders, cleared, [a]);
      PutBalance(values, holders, b, i, cleared, Builder(holders[b].slots[i := cleared]));
      Put(b, i, cleared);
    }

    /** No value changes its octets, and none comes back. */
    ghost predicate Kept(before: Values, from: nat)
      reads this`values, this`next
    {
      from <= next && forall v | v in values && v < from :: v in before && values[v].bytes == before[v].bytes
    }

    method FindAttribute(slots: seq<Attribute>, kind: nat) returns (i: nat)
      ensures i == Place(slots, kind)
    {
      i := 0;
      while i < |slots|
        invariant i <= |slots| && forall j | 0 <= j < i :: slots[j].kind != kind
      {
        if slots[i].kind == kind { break; }
        i := i + 1;
      }
      PlaceUnique(slots, kind, i);
    }

    /** The attribute of a kind, empty: the first there is, or a new one. */
    method BuilderClearOrPush(b: nat, kind: nat) returns (i: nat)
      requires Valid() && IsBuilder(b)
      modifies this`values, this`holders
      ensures Valid() && Kept(old(values), old(next)) && i == old(Place(holders[b].slots, kind))
      ensures holders == old(holders[b := Builder(Placed(holders[b].slots, Empty(kind)))])
    {
      i := FindAttribute(holders[b].slots, kind);
      if i == |holders[b].slots| {
        BuilderPush(b, kind);
      } else {
        BuilderClear(b, i);
      }
    }

    /** An empty attribute gets what is copied from another holder's: both then share the value. */
    method Fill(b: nat, i: nat, s: nat, j: nat)
      requires Valid() && IsBuilder(b) && HasSlot(b, i) && HasSlot(s, j) && s != b
      requires holders[b].slots[i] == Empty(holders[s].slots[j].kind)
      modifies this`values, this`holders
      ensures Valid() && Kept(old(values), old(next))
      ensures holders == old(holders[b := Builder(holders[b].slots[i := Copied(holders[s].slots[j])])])
    {
      var attr := holders[s].slots[j];
      var copy := Copied(attr);
      if copy.value.Some? {
        StaysAlive(values, holders, s, j);
        RefdBalance(values, holders, copy, []);
        ValueRef(copy.value.value);
      } else {
        NoCredit(values, holders, copy, []);
      }
      NoDebt(values, holders, [copy], holders[b].slots[i]);
      PutBalance(values, holders, b, i, copy, Builder(holders[b].slots[i := copy]));
      Put(b, i, copy);
    }

    /** Copies an attribute of another holder into a builder: instead of the first of its kind, or behind all others. */
    method BuilderCopy(b: nat, s: nat, j: nat, performingSet: bool)
      requires Valid() && IsBuilder(b) && HasSlot(s, j) && s != b
      modifies this`values, this`holders
      ensures Valid() && Kept(old(values), old(next))
      ensures holders == old(holders[b := Builder(
          if performingSet then Placed(holders[b].slots, Copied(holders[s].slots[j]))
          else holders[b].slots + [Copied(holders[s].slots[j])])])
    {
      var kind, i := holders[s].slots[j].kind, |holders[b].slots|;
      ghost var attr, slots := holders[s].slots[j], holders[b].slots;
      if performingSet {
        i := BuilderClearOrPush(b, kind);
      } else {
        BuilderPush(b, kind);
      }
      assert holders[b].slots[i] == Empty(kind);
      PlacedTwice(slots, Empty(kind), Copied(attr));
      assert !performingSet ==> (slots + [Empty(kind)])[i := Copied(attr)] == slots + [Copied(attr)];
      Fill(b, i, s, j);
    }

    /** Puts new octets, an invalid or an empty attribute in place of an empty one. */
    method FillData(b: nat, i: nat, value: Option<seq<Byte>>, length: nat)
      requires Valid() && IsBuilder(b) && HasSlot(b, i) && holders[b].slots[i].value == None
      requires value.Some? && length != INVALID ==> |value.value| == length
      modifies this`values, this`next, this`holders
      ensures Valid() && Kept(old(values), old(next)) && |holders| == |old(holders)| && IsBuilder(b)
      ensures exists a ::
        Holds(a, value, length)
        && holders == old(holders[b := Builder(holders[b].slots[i := a.(kind := holders[b].slots[i].kind)])])
    {
      var a := holders[b].slots[i];
      var filled: Attribute;
      if length == INVALID {
        filled := Attribute(a.kind, None, INVALID);
        MoreCredit(values, holders, [], filled);
      } else if value.None? {
        filled := Attribute(a.kind, None, 0);
        MoreCredit(values, holders, [], filled);
      } else {
        ghost var was := values;
        var v := ValueNew(value.value);
        filled := Attribute(a.kind, Some(v), length);
        NewBalance(was, holders, [], filled, value.value);
      }
      assert [] + [filled] == [filled];
      NoDebt(values, holders, [filled], a);
      PutBalance(values, holders, b, i, filled, Builder(holders[b].slots[i := filled]));
      Put(b, i, filled);
      assert Holds(filled, value, length);
    }

    /** An attribute stands for octets, for none, or is invalid. */
    ghost predicate Holds(a: Attribute, value: Option<seq<Byte>>, length: nat)
      reads this`values
    {
      if length == 0xFFFF_FFFF_FFFF_FFFF then a.value == None && a.length == 0xFFFF_FFFF_FFFF_FFFF
      else if value.None? then a.value == None && a.length == 0
      else
        a.value.Some? && a.length == length && a.value.value in values
        && values[a.value.value] == Value(1, value.value)
    }

    method AddData(b: nat, kind: nat, value: Option<seq<Byte>>, length: nat)
      requires Valid() && IsBuilder(b)
      requires value.Some? && length != INVALID ==> |value.value| == length
      modifies this`values, this`next, this`holders
      ensures Valid() && Kept(old(values), old(next))
      ensures exists a ::
        Holds(a, value, length) && a.kind == kind && holders == old(holders[b := Builder(holders[b].slots + [a])])
    {
      var i := |holders[b].slots|;
      ghost var was := holders;
      BuilderPush(b, kind);
      FillData(b, i, value, length);
      ghost var a := holders[b].slots[i];
      assert (was[b].slots + [Empty(kind)])[i := a] == was[b].slots + [a];
    }

    method SetData(b: nat, kind: nat, value: Option<seq<Byte>>, length: nat)
      requires Valid() && IsBuilder(b)
      requires value.Some? && length != INVALID ==> |value.value| == length
      modifies this`values, this`next, this`holders
      ensures Valid() && Kept(old(values), old(next))
      ensures exists a ::
        Holds(a, value, length) && a.kind == kind && holders == old(holders[b := Builder(Placed(holders[b].slots, a))])
    {
      ghost var was := holders;
      var i := BuilderClearOrPush(b, kind);
      FillData(b, i, value, length);
      ghost var a := holders[b].slots[i];
      PlacedTwice(was[b].slots, Empty(kind), a);
    }

    /** Every attribute of a set is added to a builder. */
    method AddAll(b: nat, s: nat)
      requires Valid() && IsBuilder(b) && IsSet(s)
      modifies this`values, this`holders
      ensures Valid() && Kept(old(values), old(next))
      ensures holders == old(holders[b := Builder(AllAdded(holders[b].slots, holders[s].slots))])
    {
      ghost var was := holders;
      var data := holders[s].slots;
      var i := 0;
      assert was[b := Builder(was[b].slots)] == was && data[..0] == [];
      while i < |data|
        invariant i <= |data| && Valid() && Kept(old(values), old(next)) && was[b].Builder?
        invariant holders == was[b := Builder(AllAdded(was[b].slots, data[..i]))]
      {
        assert data[..i + 1][..i] == data[..i];
        BuilderCopy(b, s, i, false);
        i := i + 1;
      }
      assert data[..i] == data;
    }

    /** Every attribute of a set is set in a builder. */
    method SetAll(b: nat, s: nat)
      requires Valid() && IsBuilder(b) && IsSet(s)
      modifies this`values, this`holders
      ensures Valid() && Kept(old(values), old(next))
      ensures holders == old(holders[b := Builder(AllSet(holders[b].slots, holders[s].slots))])
    {
      ghost var was := holders;
      var data := holders[s].slots;
      var i := 0;
      assert was[b := Builder(was[b].slots)] == was && data[..0] == [];
      while i < |data|
        invariant i <= |data| && Valid() && Kept(old(values), old(next)) && was[b].Builder?
        invariant holders == was[b := Builder(AllSet(was[b].slots, data[..i]))]
      {
        assert data[..i + 1][..i] == data[..i];
        BuilderCopy(b, s, i, true);
        i := i + 1;
      }
      assert data[..i] == data;
    }

    // ---------------------------------------------------------------- sets of attributes

    /** The attributes of a builder become a set of their own; the builder is empty again. */
    method Steal(b: nat) returns (s: nat)
      requires Valid() && IsBuilder(b)
      modifies this`holders
      ensures Valid() && s == |old(holders)|
      ensures holders == old(holders[b := Builder([])] + [Set(holders[b].slots, 1, false)])
    {
      var taken := Set(holders[b].slots, 1, false);
      MoveBalance(values, holders, b, Builder([]), taken);
      s := |holders|;
      holders := holders[b := Builder([])] + [taken];
    }

    /** As stealing does, but the set's only reference is floating. */
    method End(b: nat) returns (s: nat)
      requires Valid() && IsBuilder(b)
      modifies this`holders
      ensures Valid() && s == |old(holders)|
      ensures holders == old(holders[b := Builder([])] + [Set(holders[b].slots, 1, true)])
    {
      s := Steal(b);
      var floating := holders[s].(floating := true);
      SameSlots(values, holders, s, floating);
      holders := holders[s := floating];
    }

    method Ref(s: nat)
      requires Valid() && IsSet(s)
      modifies this`holders
      ensures Valid() && holders == old(holders[s := holders[s].(refs := holders[s].refs + 1)])
    {
      var more := holders[s].(refs := holders[s].refs + 1);
      SameSlots(values, holders, s, more);
      holders := holders[s := more];
    }

    /** A floating reference becomes the caller's, otherwise the caller gets one more. */
    method RefSink(s: nat)
      requires Valid() && IsSet(s)
      modifies this`holders
      ensures Valid()
      ensures holders == old(holders[s := if holders[s].floating then holders[s].(floating := false)
                                          else holders[s].(refs := holders[s].refs + 1)])
    {
      if !holders[s].floating {
        Ref(s);
      } else {
        var sunk := holders[s].(floating := false);
        SameSlots(values, holders, s, sunk);
        holders := holders[s := sunk];
      }
    }

    /** The last reference to a set gives up those on its values. */
    method Unref(s: nat)
      requires Valid() && IsSet(s)
      modifies this`values, this`holders
      ensures Valid() && Kept(old(values), old(next))
      ensures holders == old(holders[s := if holders[s].refs == 1 then Set([], 0, holders[s].floating)
                                          else holders[s].(refs := holders[s].refs - 1)])
    {
      var fewer := holders[s].(refs := holders[s].refs - 1);
      if holders[s].refs > 1 {
        SameSlots(values, holders, s, fewer);
        holders := holders[s := fewer];
        return;
      }
      var i := 0;
      while i < |holders[s].slots|
        invariant holders == old(holders) && i <= |holders[s].slots| && Below() && Kept(old(values), old(next))
        invariant Balanced(values, holders, [], holders[s].slots[..i])
      {
        ReleaseAt(s, i);
        i := i + 1;
      }
      assert holders[s].slots[..i] == holders[s].slots;
      var gone := Set([], 0, holders[s].floating);
      GoneBalance(values, holders, s, gone);
      holders := holders[s := gone];
    }

    /** One attribute of a set that goes gives up its reference. */
    method ReleaseAt(s: nat, i: nat)
      requires HasSlot(s, i) && Below() && Balanced(values, holders, [], holders[s].slots[..i])
      modifies this`values
      ensures Below() && Kept(old(values), old(next)) && Balanced(values, holders, [], holders[s].slots[..i + 1])
    {
      var a := holders[s].slots[i];
      assert holders[s].slots[..i + 1] == holders[s].slots[..i] + [a];
      if a.value.Some? {
        NextAlive(values, holders, s, i);
        UnrefdBalance(values, holders, a, holders[s].slots[..i]);
        ValueUnref(a.value.value);
      } else {
        MoreDebt(values, holders, holders[s].slots[..i], a);
      }
    }

    // ---------------------------------------------------------------- clearing builders

    /** Every attribute of a builder gives up its value and stands empty, ready for a length. */
    method PrepareIn(b: nat)
      requires Valid() && IsBuilder(b)
      modifies this`values, this`holders
      ensures Valid() && holders == old(holders[b := Builder(Emptied(holders[b].slots))])
      ensures Kept(old(values), old(next))
    {
      ghost var was := holders;
      var n := |holders[b].slots|;
      var i := 0;
      assert Emptied(was[b].slots[..0]) + was[b].slots[0..] == was[b].slots;
      assert was[b := Builder(was[b].slots)] == was;
      while i < n
        invariant i <= n == |was[b].slots| && Valid() && Kept(old(values), old(next)) && was[b].Builder?
        invariant holders == was[b := Builder(Emptied(was[b].slots[..i]) + was[b].slots[i..])]
      {
        EmptiedStep(was[b].slots, i);
        BuilderClear(b, i);
        i := i + 1;
      }
      assert was[b].slots[..n] == was[b].slots;
      assert Emptied(was[b].slots) + was[b].slots[n..] == Emptied(was[b].slots);
    }

    /** The builder gives up all its values and has no attributes. */
    method Clear(b: nat)
      requires Valid() && IsBuilder(b)
      modifies this`values, this`holders
      ensures Valid() && holders == old(holders[b := Builder([])])
      ensures Kept(old(values), old(next))
    {
      PrepareIn(b);
      EmptyGone(values, holders, b, Builder([]));
      holders := holders[b := Builder([])];
    }

    /** A module wrote the lengths of its attributes into the template. */
    method WriteLengths(b: nat, lengths: seq<nat>)
      requires Valid() && IsBuilder(b) && |lengths| == |holders[b].slots| && NoValues(holders[b].slots)
      modifies this`holders
      ensures Valid() && holders == old(holders[b := Builder(WithLengths(holders[b].slots, lengths))])
      ensures NoValues(holders[b].slots)
    {
      var written := Builder(WithLengths(holders[b].slots, lengths));
      LengthsBalance(values, holders, b, written);
      holders := holders[b := written];
    }

    /** Every attribute with a length gets room for a value. Values that are there already are not given up:
      * their references are left over. */
    method CommitIn(b: nat)
      requires Valid() && IsBuilder(b)
      modifies this`values, this`next, this`holders
      ensures Below() && |holders| == |old(holders)|
      ensures forall k | 0 <= k < |holders| && k != b :: holders[k] == old(holders)[k]
      ensures Balanced(values, holders, old(holders[b].slots), [])
      ensures Valid() <==> NoValues(old(holders[b].slots))
      ensures IsBuilder(b) && |holders[b].slots| == |old(holders[b].slots)|
      ensures forall i | 0 <= i < |holders[b].slots| :: HasRoom(holders[b].slots[i], old(holders[b].slots)[i])
    {
      ghost var was := holders[b].slots;
      var i := 0;
      while i < |holders[b].slots|
        invariant |holders| == |old(holders)|
        invariant forall k | 0 <= k < |holders| && k != b :: holders[k] == old(holders)[k]
        invariant IsBuilder(b) && |holders[b].slots| == |was| && i <= |was| && Below()
        invariant Balanced(values, holders, was[..i], [])
        invariant forall j | 0 <= j < i :: HasRoom(holders[b].slots[j], was[j])
        invariant forall j | i <= j < |was| :: holders[b].slots[j] == was[j]
      {
        assert was[..i + 1] == was[..i] + [was[i]];
        Allocate(b, i, was[..i]);
        i := i + 1;
      }
      assert was[..i] == was;
      NothingLeftOver(values, holders, was);
    }

    /** How attributes are retrieved: they are emptied, a module writes their lengths, and then room is made. No value
      * leaks, whatever was there and whatever the lengths are. */
    method Retrieve(b: nat, lengths: seq<nat>)
      requires Valid() && IsBuilder(b) && |lengths| == |holders[b].slots|
      modifies this`values, this`next, this`holders
      ensures Valid() && |holders| == |old(holders)| && IsBuilder(b) && |holders[b].slots| == |lengths|
      ensures forall k | 0 <= k < |holders| && k != b :: holders[k] == old(holders)[k]
      ensures forall i | 0 <= i < |lengths| ::
        HasRoom(holders[b].slots[i], Attribute(old(holders[b].slots)[i].kind, None, lengths[i]))
    {
      PrepareIn(b);
      WriteLengths(b, lengths);
      CommitIn(b);
    }

    ghost predicate HasRoom(a: Attribute, was: Attribute)
      reads this`values
    {
      a.kind == was.kind && a.length == was.length
      && if was.length != 0 && was.length != 0xFFFF_FFFF_FFFF_FFFF
         then a.value.Some? && a.value.value in values && |values[a.value.value].bytes| == was.length
         else a.value == None
    }

    method Allocate(b: nat, i: nat, ghost credit: seq<Attribute>)
      requires IsBuilder(b) && HasSlot(b, i) && Below() && Balanced(values, holders, credit, [])
      modifies this`values, this`next, this`holders
      ensures Below() && |holders| == |old(holders)|
      ensures forall k | 0 <= k < |holders| && k != b :: holders[k] == old(holders)[k]
      ensures IsBuilder(b) && |holders[b].slots| == |old(holders[b].slots)|
      ensures forall j | 0 <= j < |holders[b].slots| && j != i :: holders[b].slots[j] == old(holders[b].slots)[j]
      ensures HasRoom(holders[b].slots[i], old(holders[b].slots[i]))
      ensures Balanced(values, holders, credit + [old(holders[b].slots[i])], [])
      ensures forall v | v in old(values) :: v in values && values[v] == old(values)[v]
    {
      var a := holders[b].slots[i];
      var given := a.(value := None);
      if a.length != 0 && a.length != INVALID {
        ghost var was := values;
        var blank: seq<Byte> := seq(a.length, _ => 0);
        var v := ValueNew(blank);
        given := a.(value := Some(v));
        NewBalance(was, holders, credit, given, blank);
      } else {
        MoreCredit(values, holders, credit, given);
      }
      OverwriteBalance(values, holders, b, i, given, Builder(holders[b].slots[i := given]), credit);
      Put(b, i, given);
    }
  }

  /** Room is made for a value where there is one already: its reference is left over. */
  method ValueLeaks() returns (heap: Heap)
    ensures !heap.Valid()
  {
    heap := new Heap();
    var b := heap.NewBuilder();
    ghost var before := heap.holders;
    heap.AddData(b, 0, Some([7]), 1);
    ghost var a :| heap.Holds(a, Some([7]), 1) && heap.holders == before[b := Builder(before[b].slots + [a])];
    assert heap.holders[b].slots[0] == a && a.value != None;
    heap.CommitIn(b);
  }
}
