/** The state machine of gck/gck-enumerator.c. */
module Enumerators {
  import opened Wrappers
  import opened Enumeration

  datatype Handler = AtModules | AtSlots | AtSlot | AtSession | AtFind | AtResults

  function Rank(h: Handler): nat {
    match h
    case AtModules => 0
    case AtSlots => 1
    case AtSlot => 2
    case AtSession => 3
    case AtFind => 4
    case AtResults => 5
  }

  predicate HasSlot(h: Handler) { !h.AtModules? && !h.AtSlots? }

  predicate HasSession(h: Handler) { HasSlot(h) && !h.AtSlot? }

  function Before(h: Handler): (p: Handler)
    requires h != AtModules
    ensures Rank(p) == Rank(h) - 1
  {
    match h
    case AtSlots => AtModules
    case AtSlot => AtSlots
    case AtSession => AtSlot
    case AtFind => AtSession
    case AtResults => AtFind
  }

  function Queue(q: Option<seq<Result>>): seq<Result> { if q.Some? then q.value else [] }

  /** How far a handler is from running out of slots. */
  function Phase(h: Handler): nat {
    match h
    case AtModules => 0
    case AtSlots => 1
    case AtResults => 2
    case AtFind => 3
    case AtSession => 4
    case AtSlot => 5
  }

  /** The forward loop's measure goes down. */
  predicate Less(m: nat, s: nat, p: nat, m0: nat, s0: nat, p0: nat) {
    m < m0 || (m == m0 && (s < s0 || (s == s0 && p < p0)))
  }

  // ---------------------------------------------------------------- what is ahead

  /** What the search of the slot a state is in finds, or found. */
  function Here(h: Handler, slot: Option<Slot>, session: Option<nat>, found: seq<Result>): seq<seq<Result>> {
    match h
    case AtModules => []
    case AtSlots => []
    case AtSlot => if slot.Some? then MatchedFinds(slot.value) else []
    case AtSession =>
      if slot.Some? && session.Some? then Find(Tagged(Handles(slot.value), session.value)) else []
    case AtFind =>
      if slot.Some? && session.Some? then Find(Tagged(Handles(slot.value), session.value)) else []
    case AtResults => Find(found)
  }

  /** What the searches find in the slot a state is in, and then in the slots and the modules after it. */
  function FindsOf(aim: Aim, h: Handler, slot: Option<Slot>, session: Option<nat>, found: seq<Result>,
                   slots: seq<Slot>, modules: seq<Module>): seq<seq<Result>> {
    Here(h, slot, session, found) + (SlotsFinds(aim, slots) + ModulesFinds(aim, modules))
  }

  lemma FindsOfModules(aim: Aim, slot: Option<Slot>, session: Option<nat>, found: seq<Result>, modules: seq<Module>)
    requires modules != []
    ensures FindsOf(aim, AtModules, slot, session, found, [], modules)
         == FindsOf(aim, AtSlots, slot, session, found, modules[0].slots, modules[1..])
  {
    var here := SlotsFinds(aim, modules[0].slots) + ModulesFinds(aim, modules[1..]);
    assert [] + ([] + here) == [] + here;
  }

  lemma FindsWithoutSlots(aim: Aim, slot: Option<Slot>, session: Option<nat>, found: seq<Result>, modules: seq<Module>)
    ensures FindsOf(aim, AtModules, slot, session, found, [], modules) ==
      FindsOf(aim, AtSlots, slot, session, found, [], modules)
  {
  }

  lemma FindsOfSkipped(aim: Aim, slot: Option<Slot>, session: Option<nat>, found: seq<Result>, slots: seq<Slot>,
    modules: seq<Module>)
    requires slots != [] && !OfToken(aim, slots[0])
    ensures FindsOf(aim, AtSlots, slot, session, found, slots, modules) ==
      FindsOf(aim, AtSlots, slot, session, found, slots[1..], modules)
  {
    assert [] + SlotsFinds(aim, slots[1..]) == SlotsFinds(aim, slots[1..]);
  }

  lemma FindsOfSlots(aim: Aim, session: Option<nat>, found: seq<Result>, slots: seq<Slot>, modules: seq<Module>)
    requires slots != [] && OfToken(aim, slots[0])
    ensures FindsOf(aim, AtSlots, None, session, found, slots, modules)
         == FindsOf(aim, AtSlot, Some(slots[0]), session, found, slots[1..], modules)
  {
    var here, later, more := MatchedFinds(slots[0]), SlotsFinds(aim, slots[1..]), ModulesFinds(aim, modules);
    JoinedFinds(here, later, more);
    assert [] + ((here + later) + more) == (here + later) + more;
  }

  lemma JoinedFinds(a: seq<seq<Result>>, b: seq<seq<Result>>, c: seq<seq<Result>>)
    ensures (a + b) + c == a + (b + c)
  {
  }

  lemma FindsOfClosed(aim: Aim, slot: Slot, session: Option<nat>, found: seq<Result>, slots: seq<Slot>,
    modules: seq<Module>)
    requires slot.opens == None
    ensures FindsOf(aim, AtSlot, Some(slot), session, found, slots, modules) ==
      FindsOf(aim, AtSlots, None, session, found, slots, modules)
  {
  }

  lemma FindsOfOpen(aim: Aim, slot: Slot, found: seq<Result>, slots: seq<Slot>, modules: seq<Module>)
    requires slot.opens.Some?
    ensures FindsOf(aim, AtSlot, Some(slot), None, found, slots, modules)
         == FindsOf(aim, AtSession, Some(slot), slot.opens, found, slots, modules)
  {
  }

  lemma TaggedPush(was: seq<Result>, handles: seq<nat>, i: nat, session: nat)
    requires i < |handles|
    ensures (was + Tagged(handles[..i], session)) + [Result(handles[i], session, None)] ==
      was + Tagged(handles[..i + 1], session)
  {
    assert handles[..i + 1] == handles[..i] + [handles[i]];
    TaggedJoined(handles[..i], [handles[i]], session);
  }

  /** The objects found so far and those of the answers to come are all of them. */
  ghost predicate SearchSoFar(found: seq<Result>, answers: seq<Answer>, i: nat, session: nat, all: seq<nat>)
    requires i <= |answers|
  {
    found + Tagged(Answered(answers[i..]), session) == Tagged(all, session)
  }

  predicate Ends(answers: seq<Answer>, i: nat)
    requires i <= |answers|
  {
    i == |answers| || answers[i].Failed? || answers[i].handles == []
  }

  lemma SearchEnd(found: seq<Result>, answers: seq<Answer>, i: nat, session: nat, all: seq<nat>)
    requires i <= |answers| && SearchSoFar(found, answers, i, session, all) && Ends(answers, i)
    ensures found == Tagged(all, session)
  {
    assert Answered(answers[i..]) == [];
    assert found + [] == found;
  }

  lemma SearchStep(found: seq<Result>, answers: seq<Answer>, i: nat, session: nat, all: seq<nat>)
    requires i < |answers| && SearchSoFar(found, answers, i, session, all)
    ensures !Ends(answers, i) ==> SearchSoFar(found + Tagged(answers[i].handles, session), answers, i + 1, session, all)
  {
    if !Ends(answers, i) {
      assert answers[i..][1..] == answers[i + 1..];
      var now, later := answers[i].handles, Answered(answers[i + 1..]);
      assert Answered(answers[i..]) == now + later;
      TaggedJoined(now, later, session);
      Joined(found, Tagged(now, session), Tagged(later, session));
    }
  }

  /** A run goes on in the same way once all of the objects found have joined the results, when they are too few. */
  lemma AllTaken(p: Part, found: seq<Result>, later: seq<seq<Result>>, want: nat)
    requires p.finds == Find(found) + later && |found| < want
    ensures RunPart(p.(results := p.results + Kept(p.defaults, found), finds := later), want) == RunPart(p, want)
  {
    TakenWhole(found, later, want);
    KeptJoined(p.defaults, found, Taken(later, want));
    Joined(p.results, Kept(p.defaults, found), Kept(p.defaults, Taken(later, want)));
  }

  /** A run is over once the first of the objects found have joined the results, when they are enough. */
  lemma FirstTaken(p: Part, found: seq<Result>, later: seq<seq<Result>>, want: nat)
    requires p.finds == Find(found) + later && 0 < want <= |found|
    ensures RunPart(p, want) ==
      p.(results := p.results + Kept(p.defaults, found[..want]), finds := Find(found[want..]) + later)
  {
    TakenFirst(found, later, want);
  }

  class State {
    const aim: Aim
    var wantObjects: int
    var handler: Handler
    var modules: seq<Module>
    var slots: seq<Slot>
    var slot: Option<Slot>
    var tokenInfo: Option<TokenInfo>
    var funcs: bool
    var session: Option<nat>
    var found: Option<seq<Result>>
    var results: Option<seq<Result>>
    var chained: State?
    var enumerator: Enumerator?
    // The references held.
    ghost var heldModules: multiset<Module>
    ghost var heldSlots: multiset<Slot>
    ghost var heldSessions: multiset<nat>

    // ---------------------------------------------------------------- what a state owns

    /** The resources there are at a handler: slots from AtSlots on, the slot with its token and
      * functions from AtSlot on, the session from AtSession on. */
    ghost predicate Shaped(h: Handler)
      reads this`slots, this`slot, this`funcs, this`tokenInfo, this`session, this`found
    {
      (h == AtModules ==> slots == [])
      && (slot.Some? <==> HasSlot(h)) && (funcs <==> slot.Some?)
      && (tokenInfo.Some? <==> slot.Some?)
      && (session.Some? <==> HasSession(h))
      && (h == AtResults ==> found.Some?)
    }

    ghost predicate ModulesBalance()
      reads this`modules, this`heldModules
    {
      Owns(heldModules, modules, None)
    }

    ghost predicate SlotsBalance()
      reads this`slots, this`slot, this`heldSlots
    {
      Owns(heldSlots, slots, slot)
    }

    ghost predicate SessionsBalance()
      reads this`session, this`found, this`results, this`heldSessions
    {
      OwnsWaiting(heldSessions, Queue(results), Queue(found), session)
    }

    /** Every reference held is owned by one field or one waiting result, and the other way round. */
    ghost predicate Balanced()
      reads this`modules, this`heldModules, this`slots, this`slot, this`heldSlots
      reads this`session, this`found, this`results, this`heldSessions
    {
      ModulesBalance() && Owning()
    }

    ghost predicate Owning()
      reads this`slots, this`slot, this`heldSlots, this`session, this`found, this`results, this`heldSessions
    {
      SlotsBalance() && SessionsBalance()
    }

    /** Objects found wait at AtResults only. */
    ghost predicate Drained(h: Handler)
      reads this`found
    {
      h != AtResults ==> Queue(found) == []
    }

    ghost predicate Valid()
      reads this`handler, this`modules, this`heldModules, this`slots, this`slot, this`funcs, this`tokenInfo,
        this`heldSlots
      reads this`session, this`found, this`results, this`heldSessions
    {
      Shaped(handler) && Drained(handler) && Balanced()
    }

    // ---------------------------------------------------------------- what is ahead

    /** What the searches are going to find. */
    ghost function Finds(h: Handler): seq<seq<Result>>
      reads this`slots, this`modules, this`slot, this`session, this`found
    {
      FindsOf(aim, h, slot, session, Queue(found), slots, modules)
    }

    ghost function At(h: Handler): Part
      reads this`slots, this`modules, this`slot, this`session, this`found, this`results
    {
      Part(aim.defaults, Queue(results), Finds(h))
    }

    // ---------------------------------------------------------------- references

    ghost method ReleaseSlot(s: Slot)
      requires s in heldSlots
      modifies this`heldSlots
      ensures heldSlots == old(heldSlots) - multiset{s}
    {
      heldSlots := heldSlots - multiset{s};
    }

    ghost method ReleaseSession(s: nat)
      requires s in heldSessions
      modifies this`heldSessions
      ensures heldSessions == old(heldSessions) - multiset{s}
    {
      heldSessions := heldSessions - multiset{s};
    }

    /** The first module leaves the list, and its reference with it. */
    method PopModule() returns (first: Module)
      requires modules != [] && ModulesBalance()
      modifies this`modules, this`heldModules
      ensures first == old(modules[0]) && modules == old(modules[1..]) && ModulesBalance()
    {
      first := modules[0];
      modules := modules[1..];
      heldModules := heldModules - multiset{first};
    }

    /** The slots of a module come with a reference each. */
    method TakeSlots(list: seq<Slot>)
      requires slots == [] && SlotsBalance()
      modifies this`slots, this`heldSlots
      ensures slots == list && SlotsBalance()
    {
      OwnsMore(heldSlots, list, slot);
      slots := list;
      heldSlots := heldSlots + multiset(list);
    }

    /** The first slot leaves the list, and its reference with it. */
    method SkipSlot()
      requires slots != [] && SlotsBalance()
      modifies this`slots, this`heldSlots
      ensures slots == old(slots[1..]) && SlotsBalance()
    {
      ReleaseSlot(slots[0]);
      slots := slots[1..];
    }

    /** The first slot of the list is the one to look into now. */
    method EnterSlot()
      requires slots != [] && slots[0].token.Some? && slot == None && SlotsBalance()
      modifies this`slots, this`slot, this`tokenInfo, this`funcs
      ensures slots == old(slots[1..]) && slot == Some(old(slots[0])) && tokenInfo.Some? && funcs && SlotsBalance()
    {
      FirstIsOne(heldSlots, slots);
      slot, tokenInfo, funcs := Some(slots[0]), slots[0].token, true;
      slots := slots[1..];
    }

    /** A new session comes with a reference. */
    method TakeSession(s: nat)
      requires session == None && SessionsBalance()
      modifies this`session, this`heldSessions
      ensures session == Some(s) && SessionsBalance()
    {
      WaitingAddOne(heldSessions, Queue(results), Queue(found), s);
      session := Some(s);
      heldSessions := heldSessions + multiset{s};
    }

    /** An object that was found joins the queue, with a reference on the session. */
    method PushFound(handle: nat)
      requires session.Some? && found.Some? && SessionsBalance()
      modifies this`found, this`heldSessions
      ensures found == Some(old(found.value) + [Result(handle, session.value, None)]) && SessionsBalance()
    {
      var r := Result(handle, session.value, None);
      WaitingPush(heldSessions, Queue(results), found.value, session, r);
      found := Some(found.value + [r]);
      heldSessions := heldSessions + multiset{r.session};
    }

    /** The first object found, with its attributes if there are any, joins the results. */
    method PushResult(attrs: Option<Attributes>)
      requires results.Some? && Queue(found) != [] && SessionsBalance()
      modifies this`found, this`results
      ensures found == Some(old(found.value[1..])) && SessionsBalance()
      ensures results == Some(old(results.value +
        [if attrs.None? then found.value[0] else found.value[0].(attrs := attrs)]))
    {
      var r := if attrs.None? then found.value[0] else found.value[0].(attrs := attrs);
      WaitingMove(heldSessions, results.value, found.value, session, r);
      results := Some(results.value + [r]);
      found := Some(found.value[1..]);
    }

    /** The first object found is freed. */
    method DropFound()
      requires Queue(found) != [] && SessionsBalance()
      modifies this`found, this`heldSessions
      ensures found == Some(old(found.value[1..])) && SessionsBalance()
    {
      var r, rest := found.value[0], found.value[1..];
      WaitingDrop(heldSessions, Queue(results), found.value, session);
      ReleaseSession(r.session);
      found := Some(rest);
    }

    // ---------------------------------------------------------------- backward

    method SlotsBack() returns (previous: Handler)
      requires Shaped(AtSlots) && SlotsBalance()
      modifies this`slots, this`heldSlots
      ensures previous == AtModules && Shaped(AtModules) && SlotsBalance() && slots == []
    {
      while slots != []
        invariant Shaped(AtSlots) && SlotsBalance()
        decreases |slots|
      {
        SkipSlot();
      }
      return AtModules;
    }

    method SlotBack() returns (previous: Handler)
      requires Shaped(AtSlot) && SlotsBalance()
      modifies this`slot, this`tokenInfo, this`funcs, this`heldSlots
      ensures previous == AtSlots && Shaped(AtSlots) && SlotsBalance()
    {
      DropOne(heldSlots, slots, slot.value);
      ReleaseSlot(slot.value);
      slot, funcs, tokenInfo := None, false, None;
      return AtSlots;
    }

    method SessionBack() returns (previous: Handler)
      requires Shaped(AtSession) && SessionsBalance()
      modifies this`session, this`heldSessions
      ensures previous == AtSlot && Shaped(AtSlot) && SessionsBalance()
    {
      WaitingDropOne(heldSessions, Queue(results), Queue(found), session.value);
      ReleaseSession(session.value);
      session := None;
      return AtSlot;
    }

    method FindBack() returns (previous: Handler)
      requires Shaped(AtFind)
      ensures previous == AtSession && Shaped(AtSession)
    {
      return AtSession;
    }

    method ResultsBack() returns (previous: Handler)
      requires Shaped(AtResults)
      ensures previous == AtFind && Shaped(AtFind)
    {
      return AtFind;
    }

    /** What a handler does when it is called to go back. */
    method Undo() returns (previous: Handler)
      requires handler != AtModules && Shaped(handler) && Owning()
      modifies this`slots, this`slot, this`tokenInfo, this`funcs, this`session, this`heldSlots, this`heldSessions
      ensures previous == Before(handler) && Shaped(previous) && Owning()
      ensures previous != AtModules ==> slots == old(slots)
      ensures HasSlot(previous) ==> slot == old(slot) && tokenInfo == old(tokenInfo) && heldSlots == old(heldSlots)
      ensures HasSession(previous) ==> session == old(session) && heldSessions == old(heldSessions)
    {
      match handler
      case AtSlots => previous := SlotsBack();
      case AtSlot => previous := SlotBack();
      case AtSession => previous := SessionBack();
      case AtFind => previous := FindBack();
      case AtResults => previous := ResultsBack();
    }

    /** One state back: releases what that state added and nothing else. */
    method Back()
      requires handler != AtModules && Shaped(handler) && Owning()
      modifies this`handler, this`slots, this`slot, this`tokenInfo, this`funcs, this`session, this`heldSlots,
        this`heldSessions
      ensures handler == Before(old(handler)) && Shaped(handler) && Owning()
      ensures handler != AtModules ==> slots == old(slots)
      ensures HasSlot(handler) ==> slot == old(slot) && tokenInfo == old(tokenInfo) && heldSlots == old(heldSlots)
      ensures HasSession(handler) ==> session == old(session) && heldSessions == old(heldSessions)
    {
      var previous := Undo();
      handler := previous;
    }

    /** Back to an earlier state: what came after it is released, and nothing else. */
    method Rewind(to: Handler)
      requires Rank(to) <= Rank(handler) && Shaped(handler) && Owning()
      modifies this`handler, this`slots, this`slot, this`tokenInfo, this`funcs, this`session
      modifies this`heldSlots, this`heldSessions
      ensures handler == to && Shaped(to) && Owning()
      ensures to != AtModules ==> slots == old(slots)
      ensures HasSlot(to) ==> slot == old(slot) && tokenInfo == old(tokenInfo) && heldSlots == old(heldSlots)
      ensures HasSession(to) ==> session == old(session) && heldSessions == old(heldSessions)
    {
      while to != handler
        invariant Rank(to) <= Rank(handler) && Shaped(handler) && Owning()
        invariant handler != AtModules ==> slots == old(slots)
        invariant HasSlot(handler) ==> slot == old(slot) && tokenInfo == old(tokenInfo) && heldSlots == old(heldSlots)
        invariant HasSession(handler) ==> session == old(session) && heldSessions == old(heldSessions)
        decreases Rank(handler)
      {
        Back();
      }
    }

    // ---------------------------------------------------------------- forward

    /** The next module's slots, until there are no more modules. */
    method ModulesForward() returns (next: Option<Handler>)
      requires Shaped(AtModules) && ModulesBalance() && SlotsBalance()
      modifies this`modules, this`slots, this`heldModules, this`heldSlots
      ensures ModulesBalance() && SlotsBalance()
      ensures old(modules) == [] ==> next == None && modules == [] && slots == []
      ensures old(modules) != [] ==>
        next == Some(AtSlots) && |modules| < old(|modules|) && Finds(AtSlots) == old(Finds(AtModules))
    {
      if modules == [] { return None; }
      FindsOfModules(aim, slot, session, Queue(found), modules);
      var current := PopModule();
      TakeSlots(current.slots);
      return Some(AtSlots);
    }

    /** No slot is left: back to the modules. */
    method OutOfSlots()
      requires handler == AtSlots && slots == [] && Shaped(AtSlots) && Owning()
      modifies this`handler, this`slots, this`slot, this`tokenInfo, this`funcs, this`session, this`heldSlots,
        this`heldSessions
      ensures Shaped(AtModules) && Owning() && slots == [] && Finds(AtModules) == old(Finds(AtSlots))
    {
      FindsWithoutSlots(aim, slot, session, Queue(found), modules);
      Rewind(AtModules);
    }

    /** The next slot whose token matches, or back to the modules. */
    method SlotsForward() returns (next: Handler)
      requires handler == AtSlots && Shaped(AtSlots) && Drained(AtSlots) && Owning()
      modifies this`handler, this`slots, this`slot, this`tokenInfo, this`funcs, this`session, this`heldSlots,
        this`heldSessions
      ensures Shaped(next) && Owning() && Drained(next) && Finds(next) == old(Finds(AtSlots))
      ensures Less(0, |slots|, Phase(next), 0, old(|slots|), Phase(AtSlots))
    {
      if slots == [] {
        OutOfSlots();
        return AtModules;
      }
      if slots[0].token.None? || !TokenMatched(aim.uri, slots[0].token.value) {
        FindsOfSkipped(aim, slot, session, Queue(found), slots, modules);
        SkipSlot();
        return AtSlots;
      }
      FindsOfSlots(aim, session, Queue(found), slots, modules);
      EnterSlot();
      return AtSlot;
    }

    /** A session in the slot, or back to the slots when none opens. */
    method SlotForward() returns (next: Handler)
      requires handler == AtSlot && Shaped(AtSlot) && Owning()
      modifies this`handler, this`slots, this`slot, this`tokenInfo, this`funcs, this`session, this`heldSlots,
        this`heldSessions
      ensures Shaped(next) && Owning() && (next == AtSlots || next == AtSession) && Finds(next) == old(Finds(AtSlot))
      ensures slots == old(slots)
    {
      if slot.value.opens.None? {
        FindsOfClosed(aim, slot.value, session, Queue(found), slots, modules);
        Rewind(AtSlots);
        return AtSlots;
      }
      FindsOfOpen(aim, slot.value, Queue(found), slots, modules);
      TakeSession(slot.value.opens.value);
      return AtSession;
    }

    /** Logging in may fail: the search goes ahead anyway. */
    method SessionForward() returns (next: Handler)
      requires Shaped(AtSession)
      ensures next == AtFind && Shaped(AtFind)
    {
      return AtFind;
    }

    /** The objects of one answer join those found. */
    method PushBatch(handles: seq<nat>)
      requires session.Some? && found.Some? && SessionsBalance()
      modifies this`found, this`heldSessions
      ensures found == Some(old(found.value) + Tagged(handles, session.value)) && SessionsBalance()
    {
      ghost var was := found.value;
      var i := 0;
      assert was + Tagged([], session.value) == was;
      while i < |handles|
        invariant i <= |handles| && SessionsBalance()
        invariant found == Some(was + Tagged(handles[..i], session.value))
      {
        TaggedPush(was, handles, i, session.value);
        PushFound(handles[i]);
        i := i + 1;
      }
      assert handles[..i] == handles;
    }

    /** One answer after the other until one is empty or fails. */
    method Search(answers: seq<Answer>)
      requires session.Some? && found == Some([]) && SessionsBalance()
      modifies this`found, this`heldSessions
      ensures found == Some(Tagged(Answered(answers), session.value)) && SessionsBalance()
    {
      var i := 0;
      ghost var all := Answered(answers);
      assert answers[0..] == answers;
      while i < |answers|
        invariant i <= |answers| && found.Some? && SessionsBalance()
        invariant SearchSoFar(found.value, answers, i, session.value, all)
      {
        SearchStep(found.value, answers, i, session.value, all);
        if answers[i].Failed? || answers[i].handles == [] { break; }
        PushBatch(answers[i].handles);
        i := i + 1;
      }
      SearchEnd(found.value, answers, i, session.value, all);
    }

    /** Searches the objects of the slot. */
    method FindForward() returns (next: Handler)
      requires Shaped(AtFind) && Drained(AtFind) && SessionsBalance() && wantObjects > 0
      modifies this`found, this`heldSessions
      ensures next == AtResults && Shaped(AtResults) && SessionsBalance()
      ensures found == Some(Tagged(Handles(slot.value), session.value))
    {
      if found.None? { NoneFound(); }
      if slot.value.search.Some? { Search(slot.value.search.value); }
      return AtResults;
    }

    method NoneFound()
      requires found.None? && SessionsBalance()
      modifies this`found
      ensures found == Some([]) && SessionsBalance()
    {
      found := Some([]);
    }

    /** The first object found: its attributes are retrieved when some are wanted, and it is dropped when that fails. */
    method TakeOne()
      requires results.Some? && Queue(found) != [] && SessionsBalance()
      modifies this`found, this`results, this`heldSessions
      ensures found == Some(old(found.value[1..])) && SessionsBalance()
      ensures results == Some(old(results.value + Kept(aim.defaults, [found.value[0]])))
    {
      var r := found.value[0];
      KeptOne(aim.defaults, r);
      if aim.defaults.None? {
        PushResult(None);
      } else {
        var attrs := aim.defaults.value(r.session, r.handle);
        if attrs.Some? {
          PushResult(attrs);
        } else {
          DropFound();
          assert old(results.value) + [] == old(results.value);
        }
      }
    }

    /** Takes the first objects found, as many as wanted; when there are fewer, takes them all and goes back to the
      * slots. An object that is dropped counts too, so that there may be fewer results than wanted. */
    method ResultsForward() returns (next: Option<Handler>)
      requires handler == AtResults && Shaped(AtResults) && Owning() && wantObjects > 0
      modifies this`handler, this`slots, this`slot, this`tokenInfo, this`funcs, this`session, this`found, this`results
      modifies this`heldSlots, this`heldSessions
      ensures next == if |old(found.value)| >= wantObjects then None else Some(AtSlots)
      ensures Owning() && slots == old(slots) && found.Some?
      ensures next.Some? ==>
        found == Some([]) && Queue(results) == old(Queue(results) + Kept(aim.defaults, found.value))
      ensures next.Some? ==> Shaped(AtSlots)
      ensures next.None? ==> found == Some(old(found.value)[wantObjects..])
      ensures next.None? ==> Queue(results) == old(Queue(results)) + Kept(aim.defaults, old(found.value)[..wantObjects])
      ensures next.None? ==> handler == AtResults && Shaped(AtResults) && slot == old(slot) && session == old(session)
    {
      if results.None? { NoResults(); }
      var enough := TakeObjects(wantObjects);
      if !enough {
        Rewind(AtSlots);
        return Some(AtSlots);
      }
      return None;
    }

    /** Takes objects found until there are as many as wanted, if there are. */
    method TakeObjects(want: nat) returns (enough: bool)
      requires session.Some? && found.Some? && results.Some? && SessionsBalance()
      modifies this`found, this`results, this`heldSessions
      ensures found.Some? && results.Some? && SessionsBalance() && enough == (|old(found.value)| >= want)
      ensures found.value == if enough then old(found.value)[want..] else []
      ensures results.value == old(results.value) +
        Kept(aim.defaults, if enough then old(found.value)[..want] else old(found.value))
    {
      ghost var all, had := found.value, results.value;
      var count := 0;
      assert had + [] == had;
      while count < want
        invariant found.Some? && results.Some? && SessionsBalance()
        invariant count <= want && count <= |all| && found.value == all[count..]
        invariant results.value == had + Kept(aim.defaults, all[..count])
      {
        if found.value == [] {
          assert all[..count] == all;
          return false;
        }
        KeptNext(aim.defaults, had, all, count);
        TakeOne();
        count := count + 1;
      }
      return true;
    }

    method NoResults()
      requires results.None? && SessionsBalance()
      modifies this`results
      ensures results == Some([]) && SessionsBalance()
    {
      results := Some([]);
    }

    // ---------------------------------------------------------------- steps

    /** All is in order for a handler. */
    ghost predicate Stands(h: Handler)
      reads this`modules, this`heldModules, this`slots, this`slot, this`funcs, this`tokenInfo, this`heldSlots
      reads this`session, this`found, this`results, this`heldSessions
    {
      Shaped(h) && Drained(h) && Balanced()
    }

    /** What a step comes to in a run that is to end like this: it goes on, nearer to the end, and the run still ends
      * so; or this is the end. */
    ghost predicate Stepped(next: Option<Handler>, was: Handler, want: nat, end: Part, m: nat, s: nat)
      reads this
    {
      match next
      case None => handler == was && Stands(was) && At(was) == end
      case Some(h) => Stands(h) && RunPart(At(h), want) == end && Less(|modules|, |slots|, Phase(h), m, s, Phase(was))
    }

    method StepModules(ghost want: nat) returns (next: Option<Handler>)
      requires Valid() && handler == AtModules
      modifies this`modules, this`slots, this`heldModules, this`heldSlots
      ensures Stepped(next, old(handler), want, old(RunPart(At(handler), want)), |old(modules)|, |old(slots)|)
    {
      next := ModulesForward();
      if next.None? { NothingFound(want); }
    }

    /** A run that finds nothing changes nothing. */
    lemma NothingFound(want: nat)
      requires handler == AtModules && modules == [] && slots == []
      ensures RunPart(At(AtModules), want) == At(AtModules)
    {
      assert Finds(AtModules) == [];
      assert Kept(aim.defaults, []) == [] && Queue(results) + [] == Queue(results);
    }

    method StepSlots(ghost want: nat) returns (next: Option<Handler>)
      requires Valid() && handler == AtSlots
      modifies this`handler, this`slots, this`slot, this`tokenInfo, this`funcs, this`session, this`heldSlots,
        this`heldSessions
      ensures Stepped(next, old(handler), want, old(RunPart(At(handler), want)), |old(modules)|, |old(slots)|)
    {
      var to := SlotsForward();
      assert At(to) == old(At(handler));
      next := Some(to);
    }

    method StepSlot(ghost want: nat) returns (next: Option<Handler>)
      requires Valid() && handler == AtSlot
      modifies this`handler, this`slots, this`slot, this`tokenInfo, this`funcs, this`session, this`heldSlots,
        this`heldSessions
      ensures Stepped(next, old(handler), want, old(RunPart(At(handler), want)), |old(modules)|, |old(slots)|)
    {
      var to := SlotForward();
      assert At(to) == old(At(handler));
      next := Some(to);
    }

    method StepSession(ghost want: nat) returns (next: Option<Handler>)
      requires Valid() && handler == AtSession
      ensures Stepped(next, old(handler), want, old(RunPart(At(handler), want)), |old(modules)|, |old(slots)|)
    {
      var to := SessionForward();
      next := Some(to);
    }

    method StepFind(ghost want: nat) returns (next: Option<Handler>)
      requires Valid() && handler == AtFind && wantObjects > 0
      modifies this`found, this`heldSessions
      ensures Stepped(next, old(handler), want, old(RunPart(At(handler), want)), |old(modules)|, |old(slots)|)
    {
      var to := FindForward();
      next := Some(to);
    }

    /** What the searches in later slots and modules are going to find. */
    ghost function Later(): seq<seq<Result>>
      reads this`slots, this`modules
    {
      SlotsFinds(aim, slots) + ModulesFinds(aim, modules)
    }

    /** The objects found that are taken join the results. */
    method TakeResults() returns (next: Option<Handler>)
      requires Valid() && handler == AtResults && wantObjects > 0
      modifies this`handler, this`slots, this`slot, this`tokenInfo, this`funcs, this`session, this`found, this`results
      modifies this`heldSlots, this`heldSessions
      ensures next == if |old(found.value)| >= wantObjects then None else Some(AtSlots)
      ensures next.None? ==> handler == AtResults && Stands(AtResults)
      ensures next.None? ==>
        var had, all, w := old(Queue(results)), old(found.value), wantObjects;
        At(AtResults) == Part(aim.defaults, had + Kept(aim.defaults, all[..w]), Find(all[w..]) + old(Later()))
      ensures next.Some? ==> Stands(AtSlots) && slots == old(slots)
      ensures next.Some? ==>
        At(AtSlots) == Part(aim.defaults, old(Queue(results) + Kept(aim.defaults, found.value)), old(Later()))
    {
      next := ResultsForward();
      assert [] + Later() == Later();
    }

    method StepResults() returns (next: Option<Handler>)
      requires Valid() && handler == AtResults && wantObjects > 0
      modifies this`handler, this`slots, this`slot, this`tokenInfo, this`funcs, this`session, this`found, this`results
      modifies this`heldSlots, this`heldSessions
      ensures Stepped(next, old(handler), wantObjects, old(RunPart(At(handler), wantObjects)), |old(modules)|,
        |old(slots)|)
    {
      ghost var p, all, later := At(handler), found.value, Later();
      next := TakeResults();
      if next.None? {
        FirstTaken(p, all, later, wantObjects);
      } else {
        AllTaken(p, all, later, wantObjects);
      }
    }

    /** One step of the handler there is. */
    method Step() returns (next: Option<Handler>)
      requires Valid() && wantObjects > 0
      modifies this`handler, this`modules, this`slots, this`slot, this`tokenInfo, this`funcs, this`session,
        this`found, this`results
      modifies this`heldModules, this`heldSlots, this`heldSessions
      ensures Stepped(next, old(handler), wantObjects, old(RunPart(At(handler), wantObjects)), |old(modules)|,
        |old(slots)|)
    {
      match handler
      case AtModules => next := StepModules(wantObjects);
      case AtSlots => next := StepSlots(wantObjects);
      case AtSlot => next := StepSlot(wantObjects);
      case AtSession => next := StepSession(wantObjects);
      case AtFind => next := StepFind(wantObjects);
      case AtResults => next := StepResults();
    }

    /** The handler that a step names takes over. */
    method Enter(h: Handler, ghost at: Part)
      requires Stands(h) && At(h) == at
      modifies this`handler
      ensures handler == h && Stands(h) && At(h) == at
    {
      handler := h;
    }

    /** Goes on from handler to handler until one stops. */
    method Run()
      requires Valid() && wantObjects > 0
      modifies this`handler, this`modules, this`slots, this`slot, this`tokenInfo, this`funcs, this`session,
        this`found, this`results
      modifies this`heldModules, this`heldSlots, this`heldSessions
      ensures Stands(handler) && At(handler) == old(RunPart(At(handler), wantObjects))
    {
      ghost var end := RunPart(At(handler), wantObjects);
      while true
        invariant Stands(handler) && wantObjects > 0 && RunPart(At(handler), wantObjects) == end
        decreases |modules|, |slots|, Phase(handler)
      {
        var next := Step();
        if next.None? { break; }
        Enter(next.value, At(next.value));
      }
    }

    /** Runs for a number of objects: exactly what it takes, and what it leaves. */
    method RunFor(want: int)
      requires Valid() && want > 0
      modifies this`handler, this`modules, this`slots, this`slot, this`tokenInfo, this`funcs, this`session,
        this`found, this`results
      modifies this`heldModules, this`heldSlots, this`heldSessions, this`wantObjects
      ensures Valid() && At(handler) == old(RunPart(At(handler), want))
    {
      wantObjects := want;
      Run();
    }

    // ---------------------------------------------------------------- beginning and end

    constructor ForModules(aim: Aim, list: seq<Module>)
      ensures Valid() && this.aim == aim && chained == null && At(handler).Ahead() == OfModules(aim, list)
    {
      this.aim, modules, heldModules := aim, list, multiset(list);
      handler, slots, heldSlots, slot, tokenInfo, funcs := AtModules, [], multiset{}, None, None, false;
      session, heldSessions, found, results, chained, enumerator, wantObjects := None, multiset{}, None, None, null,
        null, 0;
      new;
      OwnsAll(list);
      ModulesFound(aim, list);
      assert Finds(handler) == ModulesFinds(aim, list);
      assert [] + OfModules(aim, list) == OfModules(aim, list);
    }

    constructor ForSlots(aim: Aim, list: seq<Slot>)
      ensures Valid() && this.aim == aim && chained == null && At(handler).Ahead() == OfSlots(aim, list)
    {
      this.aim, modules, heldModules := aim, [], multiset{};
      handler, slots, heldSlots, slot, tokenInfo, funcs := AtSlots, list, multiset(list), None, None, false;
      session, heldSessions, found, results, chained, enumerator, wantObjects := None, multiset{}, None, None, null,
        null, 0;
      new;
      OwnsAll(list);
      SlotsFound(aim, list);
      assert Finds(handler) == SlotsFinds(aim, list);
      assert [] + OfSlots(aim, list) == OfSlots(aim, list);
    }

    /** One session that is already open; without a token info its handler could not be entered. */
    constructor ForSession(aim: Aim, s: Slot, open: nat)
      ensures Valid() <==> s.token.Some?
      ensures this.aim == aim && chained == null && At(handler).Ahead() == OfOpen(aim, s, open)
      ensures At(handler) == Part(aim.defaults, [], Find(Tagged(Handles(s), open)))
    {
      this.aim, modules, heldModules := aim, [], multiset{};
      handler, slots, heldSlots, slot, tokenInfo, funcs := AtSession, [], multiset{s}, Some(s), s.token, true;
      session, heldSessions, found, results, chained, enumerator, wantObjects := Some(open), multiset{open}, None,
        None, null, null, 0;
      new;
      KeptOfFind(aim.defaults, Tagged(Handles(s), open));
      assert Finds(handler) == Find(Tagged(Handles(s), open));
      assert [] + OfOpen(aim, s, open) == OfOpen(aim, s, open);
    }

    /** Releases everything: the references of the state that was in progress, of waiting objects and of modules. */
    method Cleanup()
      requires Shaped(handler) && Owning() && ModulesBalance()
      modifies this
      ensures handler == AtModules && slots == [] && slot == None && tokenInfo == None && !funcs && session == None
      ensures found == None && results == None && modules == []
      ensures heldModules == multiset{} && heldSlots == multiset{} && heldSessions == multiset{}
    {
      Unwind();
      FreeObjects();
      FreeModules();
    }

    /** Back to the start: no slot and no session, and only waiting objects still refer to sessions. */
    method Unwind()
      requires Shaped(handler) && Owning()
      modifies this`handler, this`slots, this`slot, this`tokenInfo, this`funcs, this`session, this`heldSlots,
        this`heldSessions
      ensures handler == AtModules && slots == [] && slot == None && tokenInfo == None && !funcs && session == None
      ensures heldSlots == multiset{} && SessionsBalance()
    {
      Rewind(AtModules);
    }

    method FreeObjects()
      requires session == None && SessionsBalance()
      modifies this`found, this`results, this`heldSessions
      ensures found == None && results == None && heldSessions == multiset{}
    {
      FreeFound();
      FreeResults();
    }

    method FreeFound()
      requires SessionsBalance()
      modifies this`found, this`heldSessions
      ensures found == None && SessionsBalance()
    {
      if found.None? { return; }
      while found.value != []
        invariant found.Some? && SessionsBalance()
        decreases |found.value|
      {
        DropFound();
      }
      found := None;
    }

    method FreeResults()
      requires found == None && session == None && SessionsBalance()
      modifies this`results, this`heldSessions
      ensures results == None && heldSessions == multiset{}
    {
      while Queue(results) != []
        invariant SessionsBalance()
        decreases |Queue(results)|
      {
        DropResult();
      }
      results := None;
    }

    method FreeModules()
      requires ModulesBalance()
      modifies this`modules, this`heldModules
      ensures modules == [] && heldModules == multiset{}
    {
      while modules != []
        invariant ModulesBalance()
        decreases |modules|
      {
        var gone := PopModule();
      }
    }

    /** The first result is freed. */
    method DropResult()
      requires Queue(results) != [] && SessionsBalance()
      modifies this`results, this`heldSessions
      ensures results == Some(old(results.value[1..])) && SessionsBalance()
      ensures old(Valid()) ==> Valid()
    {
      var r, rest := results.value[0], results.value[1..];
      ReleaseSession(r.session);
      results := Some(rest);
    }
  }

  /** An enumerator holds its state except while a call runs; then the state points back at it. */
  class Enumerator {
    var theState: State?
    var chained: Enumerator?

    constructor (state: State)
      ensures theState == state && chained == null
    {
      theState, chained := state, null;
    }
  }
}
