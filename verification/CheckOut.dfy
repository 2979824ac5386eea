/** How a call of gck/gck-enumerator.c takes the states of chained enumerators and puts them back. */
module CheckOut {
  import opened Enumeration
  import opened Enumerators
  import opened EnumeratorCalls

  /** Enumerators, each one pointing at the next. */
  ghost predicate Row(es: seq<Enumerator>)
    reads es`chained
  {
    (forall i, j | 0 <= i < j < |es| :: es[i] != es[j])
    && forall i | 0 <= i < |es| :: es[i].chained == Following(es, i)
  }

  function Following(es: seq<Enumerator>, i: nat): Enumerator? { if i + 1 < |es| then es[i + 1] else null }

  function StateAt(sts: seq<State?>, i: nat): State? { if i < |sts| then sts[i] else null }

  /** The states that enumerators hold; one without is running a call. */
  ghost predicate Hold(es: seq<Enumerator>, sts: seq<State?>)
    reads es`theState
  {
    |es| == |sts| && forall i | 0 <= i < |es| :: es[i].theState == sts[i]
  }

  ghost predicate Distinct(sts: seq<State?>) {
    forall i, j | 0 <= i < j < |sts| :: sts[i] != null ==> sts[i] != sts[j]
  }

  /** States that no call runs on are not linked. */
  ghost predicate Single(sts: seq<State?>, all: set<State>)
    reads all`chained
  {
    forall i | 0 <= i < |sts| :: sts[i] != null ==> sts[i] in all && sts[i].chained == null
  }

  /** Each state linked to the one after it, if that one was there, and pointing back at its enumerator. */
  ghost predicate Joined(es: seq<Enumerator>, sts: seq<State?>, all: set<State>)
    reads all`chained, all`enumerator
  {
    |es| == |sts| && forall i | 0 <= i < |sts| :: sts[i] != null ==>
      sts[i] in all && sts[i].chained == StateAt(sts, i + 1) && sts[i].enumerator == es[i]
  }

  /** None of the enumerators has its state. */
  ghost predicate Out(es: seq<Enumerator>)
    reads es`theState
  {
    forall i | 0 <= i < |es| :: es[i].theState == null
  }

  /** Takes the states of an enumerator and those chained to it, the last one first. */
  method CheckOut(self: Enumerator, ghost es: seq<Enumerator>, ghost sts: seq<State?>, ghost all: set<State>)
    returns (state: State?)
    requires es != [] && es[0] == self && Row(es) && Hold(es, sts) && Distinct(sts) && Single(sts, all)
    modifies es`theState, all`chained, all`enumerator
    ensures state == sts[0] && Out(es) && Joined(es, sts, all)
    ensures forall s | s in all && s !in sts :: s.chained == old(s.chained) && s.enumerator == old(s.enumerator)
    decreases |es|
  {
    var chainedState: State? := null;
    if self.chained != null {
      chainedState := CheckOut(self.chained, es[1..], sts[1..], all);
    }
    state := self.theState;
    if state != null {
      self.theState := null;
      state.enumerator := self;
      state.chained := chainedState;
    }
  }

  /** The states of a chain point back at these enumerators, which have none. */
  ghost predicate Away(es: seq<Enumerator>, c: seq<State>)
    reads es`theState, c`enumerator
  {
    |c| <= |es| && forall i | 0 <= i < |c| :: c[i].enumerator == es[i] && es[i].theState == null
  }

  ghost predicate Back(es: seq<Enumerator>, c: seq<State>)
    reads es`theState, c`chained
  {
    |c| <= |es| && forall i | 0 <= i < |c| :: es[i].theState == c[i] && c[i].chained == null
  }

  ghost predicate DistinctRow(es: seq<Enumerator>) { forall i, j | 0 <= i < j < |es| :: es[i] != es[j] }

  /** Puts the states of a chain back, the first one first. */
  method CheckIn(state: State, ghost es: seq<Enumerator>, ghost c: seq<State>)
    requires c != [] && c[0] == state && Linked(c) && DistinctRow(es) && Away(es, c)
    modifies es`theState, c`chained, c`enumerator
    ensures Back(es, c) && forall i | |c| <= i < |es| :: es[i].theState == old(es[i].theState)
    decreases |c|
  {
    TailLinked(c);
    var self := state.enumerator;
    state.enumerator := null;
    self.theState := state;
    var chained := state.chained;
    state.chained := null;
    if chained != null { CheckIn(chained, es[1..], c[1..]); }
  }

  /** The states in front of the first enumerator that is running another call. */
  ghost predicate Front(sts: seq<State?>, c: seq<State>) {
    |c| <= |sts| && (forall i | 0 <= i < |c| :: sts[i] == c[i]) && (|c| < |sts| ==> sts[|c|] == null)
  }

  /** No enumerator behind one that is running another call has its state. */
  ghost predicate NoneBehind(sts: seq<State?>, k: nat) { forall i | k <= i < |sts| :: sts[i] == null }

  /** The states that were checked out in front are linked, and know their enumerators. */
  lemma FrontLinked(es: seq<Enumerator>, sts: seq<State?>, all: set<State>, c: seq<State>)
    requires Joined(es, sts, all) && Out(es) && Distinct(sts) && Front(sts, c)
    ensures Linked(c) && Away(es, c)
  {
  }

  /** The enumerators behind have no states. */
  ghost predicate Gone(es: seq<Enumerator>, k: nat)
    reads es`theState
  {
    forall i | k <= i < |es| :: es[i].theState == null
  }

  /** All is as before exactly when no state was taken that is not put back. */
  lemma AllBack(es: seq<Enumerator>, sts: seq<State?>, c: seq<State>)
    requires |es| == |sts| && Front(sts, c) && Back(es, c) && Gone(es, |c|)
    ensures Hold(es, sts) <==> NoneBehind(sts, |c|)
  {
  }

  /** A call takes states and puts them back; but those behind an enumerator that is running another call are
    * taken and never put back, so that all is as before exactly when there are none. */
  method Borrow(self: Enumerator, ghost es: seq<Enumerator>, ghost sts: seq<State?>, ghost all: set<State>,
    ghost c: seq<State>)
    requires es != [] && es[0] == self && Row(es) && Hold(es, sts) && Distinct(sts) && Single(sts, all) && Front(sts, c)
    modifies es`theState, all`chained, all`enumerator
    ensures Row(es) && Back(es, c) && Gone(es, |c|)
    ensures Hold(es, sts) <==> NoneBehind(sts, |c|)
  {
    var state := CheckOut(self, es, sts, all);
    FrontLinked(es, sts, all, c);
    if state != null { CheckIn(state, es, c); }
    AllBack(es, sts, c);
  }

  // ---------------------------------------------------------------- whole calls

  /** What the states have, whatever they are linked to. */
  ghost predicate Have(c: seq<State>, ps: seq<Part>)
    reads c`handler, c`modules, c`slots, c`slot, c`tokenInfo, c`funcs, c`session, c`found, c`results
    reads c`heldModules, c`heldSlots, c`heldSessions
  {
    if c == [] then ps == [] else
      ps != [] && c[0].Valid() && c[0].At(c[0].handler) == ps[0] && Have(c[1..], ps[1..])
  }

  lemma {:induction false} HaveShown(c: seq<State>, ps: seq<Part>)
    ensures Have(c, ps) <==> Shows(c, ps)
    decreases |c|
  {
    if c != [] && ps != [] { HaveShown(c[1..], ps[1..]); }
  }

  /** Taking states does not change what they have. */
  method TakeStates(self: Enumerator, ghost es: seq<Enumerator>, ghost sts: seq<State?>, ghost all: set<State>,
    ghost c: seq<State>, ghost ps: seq<Part>)
    returns (state: State?)
    requires es != [] && es[0] == self && Row(es) && Hold(es, sts) && Distinct(sts) && Single(sts, all) && Front(sts, c)
    requires Have(c, ps)
    modifies es`theState, all`chained, all`enumerator
    ensures state == AtOf(c, 0) && Linked(c) && Away(es, c) && Out(es) && Have(c, ps)
  {
    state := CheckOut(self, es, sts, all);
    FrontLinked(es, sts, all, c);
  }

  /** Nor does putting them back. */
  method PutStates(state: State, ghost es: seq<Enumerator>, ghost c: seq<State>, ghost ps: seq<Part>)
    requires c != [] && c[0] == state && Linked(c) && DistinctRow(es) && Away(es, c) && Out(es) && Have(c, ps)
    modifies es`theState, c`chained, c`enumerator
    ensures Back(es, c) && Have(c, ps)
    ensures Gone(es, |c|)
  {
    CheckIn(state, es, c);
  }

  /** The call itself. */
  method CallOn(state: State, want: nat, ghost es: seq<Enumerator>, ghost c: seq<State>, ghost ps: seq<Part>)
    returns (objects: seq<Result>, ghost after: seq<Part>)
    requires c != [] && c[0] == state && Linked(c) && Away(es, c) && Have(c, ps) && want > 0
    modifies c`wantObjects, c`handler, c`modules, c`slots, c`slot, c`tokenInfo, c`funcs, c`session, c`found, c`results
    modifies c`heldModules, c`heldSlots, c`heldSessions
    ensures Linked(c) && Away(es, c) && Have(c, after) && Served(ps, want, objects, after)
  {
    HaveShown(c, ps);
    objects, after := OneCall(state, want, c, ps);
    HaveShown(c, after);
  }

  /** A whole call, gck_enumerator_next or gck_enumerator_next_n, of an enumerator that is not busy: the states of the
    * enumerators in front of the first busy one are taken, run and put back. */
  method NextObjects(self: Enumerator, want: nat, ghost es: seq<Enumerator>, ghost sts: seq<State?>,
    ghost all: set<State>, ghost c: seq<State>, ghost ps: seq<Part>)
    returns (objects: seq<Result>, ghost after: seq<Part>)
    requires es != [] && es[0] == self && Row(es) && Hold(es, sts) && Distinct(sts) && Single(sts, all) && Front(sts, c)
    requires c != [] && Have(c, ps) && want > 0
    modifies es`theState, all`chained, all`enumerator, c
    ensures Back(es, c) && Gone(es, |c|) && Have(c, after) && Served(ps, want, objects, after)
  {
    var state := TakeStates(self, es, sts, all, c, ps);
    objects, after := CallOn(state, want, es, c, ps);
    PutStates(state, es, c, after);
  }

  lemma ThreeStates(front: State, state: State)
    requires front != state && front.chained == null && state.chained == null
    ensures Distinct([front, null, state]) && Single([front, null, state], {front, state})
    ensures Front([front, null, state], [front])
    ensures !NoneBehind([front, null, state], 1)
  {
    var sts: seq<State?> := [front, null, state];
    assert sts[2] != null;
  }

  lemma ThreeInRow(es: seq<Enumerator>, sts: seq<State?>)
    requires |es| == |sts| == 3 && es[0] != es[1] && es[0] != es[2] && es[1] != es[2]
    requires es[0].chained == es[1] && es[1].chained == es[2] && es[2].chained == null
    requires es[0].theState == sts[0] && es[1].theState == sts[1] && es[2].theState == sts[2]
    ensures Row(es) && Hold(es, sts)
  {
  }

  /** Of three enumerators the one in the middle is running another call: the state of the last one is lost. */
  method LoseThird(first: Enumerator, second: Enumerator, third: Enumerator, front: State, state: State)
    requires first != second && first != third && second != third && front != state
    requires first.chained == second && second.chained == third && third.chained == null
    requires first.theState == front && second.theState == null && third.theState == state
    requires front.chained == null && state.chained == null
    modifies first, second, third, front, state
    ensures first.theState == front && third.theState == null
  {
    ghost var es: seq<Enumerator>, sts: seq<State?> := [first, second, third], [front, null, state];
    ThreeStates(front, state);
    ThreeInRow(es, sts);
    Borrow(first, es, sts, {front, state}, [front]);
    assert es[0].theState == front && es[2].theState == null;
  }

  method NewState(aim: Aim) returns (s: State)
    ensures fresh(s) && s.chained == null
  {
    s := new State.ForModules(aim, []);
  }

  method StateLost(aim: Aim) returns (first: Enumerator, third: Enumerator)
    ensures first.theState != null && third.theState == null
  {
    var front := NewState(aim);
    var away := NewState(aim);
    var state := NewState(aim);
    first := new Enumerator(front);
    var second := new Enumerator(away);
    third := new Enumerator(state);
    first.chained, second.chained, second.theState := second, third, null;
    LoseThird(first, second, third, front, state);
  }
}
