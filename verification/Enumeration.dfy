/** What an enumerator of gck/gck-enumerator.c has ahead of it: the objects of the modules, slot by slot. */
module Enumeration {
  import opened Wrappers

  datatype TokenInfo = TokenInfo(title: string)

  /** What one C_FindObjects call answers. */
  datatype Answer = Batch(handles: seq<nat>) | Failed

  /** A slot and what the device does when asked: its token, the session that opens if one does, and how a
    * search goes: not at all, or one answer after the other. */
  datatype Slot = Slot(id: nat, token: Option<TokenInfo>, opens: Option<nat>, search: Option<seq<Answer>>)

  datatype Module = Module(slots: seq<Slot>)

  datatype Attributes = Attributes(values: seq<nat>)

  // The attributes of an object seen through a session, or none when they cannot be retrieved.
  type Device = (nat, nat) -> Option<Attributes>

  /** Which tokens are looked at. */
  datatype UriData = UriData(anyUnrecognized: bool, matches: Option<TokenInfo -> bool>)

  datatype Result = Result(handle: nat, session: nat, attrs: Option<Attributes>)

  predicate TokenMatched(uri: UriData, token: TokenInfo) {
    !uri.anyUnrecognized && (uri.matches.Some? ==> uri.matches.value(token))
  }

  /** A search ends with the first empty answer or failure. */
  function Answered(answers: seq<Answer>): seq<nat> {
    if answers == [] || answers[0].Failed? || answers[0].handles == [] then []
    else answers[0].handles + Answered(answers[1..])
  }

  function Handles(slot: Slot): seq<nat> {
    if slot.search.None? then [] else Answered(slot.search.value)
  }

  function Tagged(handles: seq<nat>, session: nat): (r: seq<Result>)
    ensures |r| == |handles|
  {
    seq(|handles|, i requires 0 <= i < |handles| => Result(handles[i], session, None))
  }

  /** What is kept of some results once the default attributes, if any, are retrieved: the others are dropped. */
  function Kept(defaults: Option<Device>, found: seq<Result>): (r: seq<Result>)
    ensures |r| <= |found|
  {
    if defaults.None? then found
    else if found == [] then []
    else Keep(defaults.value, found[0]) + Kept(defaults, found[1..])
  }

  function Keep(device: Device, r: Result): (k: seq<Result>)
    ensures |k| <= 1
  {
    var attrs := device(r.session, r.handle);
    if attrs.None? then [] else [r.(attrs := attrs)]
  }

  /** No object is dropped. */
  ghost predicate Lossless(defaults: Option<Device>) {
    defaults.Some? ==> forall s: nat, h: nat :: defaults.value(s, h).Some?
  }

  datatype Aim = Aim(uri: UriData, defaults: Option<Device>)

  function OfOpen(aim: Aim, slot: Slot, session: nat): seq<Result> {
    Kept(aim.defaults, Tagged(Handles(slot), session))
  }

  function OfMatched(aim: Aim, slot: Slot): seq<Result> {
    if slot.opens.Some? then OfOpen(aim, slot, slot.opens.value) else []
  }

  predicate OfToken(aim: Aim, slot: Slot) {
    slot.token.Some? && TokenMatched(aim.uri, slot.token.value)
  }

  function OfSlot(aim: Aim, slot: Slot): seq<Result> {
    if OfToken(aim, slot) then OfMatched(aim, slot) else []
  }

  function OfSlots(aim: Aim, slots: seq<Slot>): seq<Result> {
    if slots == [] then [] else OfSlot(aim, slots[0]) + OfSlots(aim, slots[1..])
  }

  function OfModules(aim: Aim, modules: seq<Module>): seq<Result> {
    if modules == [] then [] else OfSlots(aim, modules[0].slots) + OfModules(aim, modules[1..])
  }

  lemma {:induction false} KeptJoined(defaults: Option<Device>, a: seq<Result>, b: seq<Result>)
    ensures Kept(defaults, a + b) == Kept(defaults, a) + Kept(defaults, b)
  {
    if defaults.Some? {
      if a == [] {
        assert a + b == b;
      } else {
        assert (a + b)[0] == a[0] && (a + b)[1..] == a[1..] + b;
        KeptJoined(defaults, a[1..], b);
      }
    }
  }

  lemma {:induction false} KeptAll(defaults: Option<Device>, found: seq<Result>)
    requires Lossless(defaults)
    ensures |Kept(defaults, found)| == |found|
  {
    if defaults.Some? && found != [] { KeptAll(defaults, found[1..]); }
  }

  predicate Readable(defaults: Option<Device>, r: Result) {
    defaults.Some? ==> defaults.value(r.session, r.handle).Some?
  }

  predicate AllReadable(defaults: Option<Device>, rs: seq<Result>) {
    forall i | 0 <= i < |rs| :: Readable(defaults, rs[i])
  }

  lemma ReadableFirst(defaults: Option<Device>, rs: seq<Result>)
    requires rs != []
    ensures AllReadable(defaults, rs) <==> Readable(defaults, rs[0]) && AllReadable(defaults, rs[1..])
  {
    if Readable(defaults, rs[0]) && AllReadable(defaults, rs[1..]) {
      forall i | 0 <= i < |rs| ensures Readable(defaults, rs[i]) {
        if i > 0 { assert rs[i] == rs[1..][i - 1]; }
      }
    }
  }

  /** As many are kept as were found exactly when none of them is dropped. */
  lemma {:induction false} KeptCount(defaults: Option<Device>, found: seq<Result>)
    ensures |Kept(defaults, found)| == |found| <==> AllReadable(defaults, found)
  {
    if defaults.Some? && found != [] {
      KeptCount(defaults, found[1..]);
      ReadableFirst(defaults, found);
    }
  }

  lemma KeptNext(defaults: Option<Device>, had: seq<Result>, found: seq<Result>, k: nat)
    requires k < |found|
    ensures (had + Kept(defaults, found[..k])) + Kept(defaults, [found[k]]) == had + Kept(defaults, found[..k + 1])
  {
    assert found[..k + 1] == found[..k] + [found[k]];
    KeptJoined(defaults, found[..k], [found[k]]);
  }

  lemma TaggedJoined(a: seq<nat>, b: seq<nat>, session: nat)
    ensures Tagged(a + b, session) == Tagged(a, session) + Tagged(b, session)
  {
  }

  // ---------------------------------------------------------------- what single searches find

  /** What one search finds, when it finds something. */
  function Find(found: seq<Result>): seq<seq<Result>> { if found == [] then [] else [found] }

  function MatchedFinds(slot: Slot): seq<seq<Result>> {
    if slot.opens.Some? then Find(Tagged(Handles(slot), slot.opens.value)) else []
  }

  function SlotFinds(aim: Aim, slot: Slot): seq<seq<Result>> {
    if OfToken(aim, slot) then MatchedFinds(slot) else []
  }

  function SlotsFinds(aim: Aim, slots: seq<Slot>): seq<seq<Result>> {
    if slots == [] then [] else SlotFinds(aim, slots[0]) + SlotsFinds(aim, slots[1..])
  }

  function ModulesFinds(aim: Aim, modules: seq<Module>): seq<seq<Result>> {
    if modules == [] then [] else SlotsFinds(aim, modules[0].slots) + ModulesFinds(aim, modules[1..])
  }

  /** The objects of the searches, without those that are dropped. */
  function KeptOf(defaults: Option<Device>, finds: seq<seq<Result>>): seq<Result> { Kept(defaults, Flat(finds)) }

  lemma {:induction false} KeptOfJoined(defaults: Option<Device>, a: seq<seq<Result>>, b: seq<seq<Result>>)
    ensures KeptOf(defaults, a + b) == KeptOf(defaults, a) + KeptOf(defaults, b)
  {
    if a == [] {
      assert a + b == b && Kept(defaults, []) == [];
    } else {
      KeptOfJoined(defaults, a[1..], b);
      assert (a + b)[0] == a[0] && (a + b)[1..] == a[1..] + b;
      KeptJoined(defaults, a[0], Flat(a[1..]));
      KeptJoined(defaults, a[0], Flat(a[1..] + b));
      Joined(Kept(defaults, a[0]), KeptOf(defaults, a[1..]), KeptOf(defaults, b));
    }
  }

  lemma KeptOfFind(defaults: Option<Device>, found: seq<Result>)
    ensures KeptOf(defaults, Find(found)) == Kept(defaults, found)
  {
    if found != [] { assert [found][1..] == [] && Flat([found]) == found + [] == found; }
  }

  lemma SlotFound(aim: Aim, slot: Slot)
    ensures KeptOf(aim.defaults, SlotFinds(aim, slot)) == OfSlot(aim, slot)
  {
    if slot.opens.Some? { KeptOfFind(aim.defaults, Tagged(Handles(slot), slot.opens.value)); }
  }

  lemma {:induction false} SlotsFound(aim: Aim, slots: seq<Slot>)
    ensures KeptOf(aim.defaults, SlotsFinds(aim, slots)) == OfSlots(aim, slots)
  {
    if slots != [] {
      SlotFound(aim, slots[0]);
      SlotsFound(aim, slots[1..]);
      KeptOfJoined(aim.defaults, SlotFinds(aim, slots[0]), SlotsFinds(aim, slots[1..]));
    }
  }

  /** What the searches find, without what is dropped, are the objects of the modules. */
  lemma {:induction false} ModulesFound(aim: Aim, modules: seq<Module>)
    ensures KeptOf(aim.defaults, ModulesFinds(aim, modules)) == OfModules(aim, modules)
  {
    if modules != [] {
      SlotsFound(aim, modules[0].slots);
      ModulesFound(aim, modules[1..]);
      KeptOfJoined(aim.defaults, SlotsFinds(aim, modules[0].slots), ModulesFinds(aim, modules[1..]));
    }
  }

  // ---------------------------------------------------------------- which objects they are

  /** Some answer of a search has the object, and all answers before it have objects too. */
  ghost predicate Yields(answers: seq<Answer>, handle: nat) {
    exists k | 0 <= k < |answers| :: YieldsAt(answers, handle, k)
  }

  ghost predicate YieldsAt(answers: seq<Answer>, handle: nat, k: nat)
    requires k < |answers|
  {
    && answers[k].Batch? && handle in answers[k].handles
    && forall j | 0 <= j < k :: answers[j].Batch? && answers[j].handles != []
  }

  /** The slot holds a token that is asked for, a session opens in it, and a search there finds the object; the object's
    * attributes are retrieved where they are wanted. */
  ghost predicate Offers(aim: Aim, slot: Slot, r: Result) {
    && slot.token.Some? && !aim.uri.anyUnrecognized
    && (aim.uri.matches.Some? ==> aim.uri.matches.value(slot.token.value))
    && slot.opens == Some(r.session)
    && slot.search.Some? && Yields(slot.search.value, r.handle)
    && Equipped(aim.defaults, r)
  }

  /** The object has the attributes that the device tells for it, or none where none are wanted. */
  ghost predicate Equipped(defaults: Option<Device>, r: Result) {
    match defaults
    case None => r.attrs == None
    case Some(device) => r.attrs.Some? && r.attrs == device(r.session, r.handle)
  }

  /** A slot of some module offers the object. */
  ghost predicate Offered(aim: Aim, modules: seq<Module>, r: Result) {
    exists m, i | 0 <= m < |modules| && 0 <= i < |modules[m].slots| :: Offers(aim, modules[m].slots[i], r)
  }

  lemma {:induction false} AnsweredExactly(answers: seq<Answer>, handle: nat)
    ensures handle in Answered(answers) <==> Yields(answers, handle)
  {
    if answers != [] && answers[0].Batch? && answers[0].handles != [] {
      var rest := answers[1..];
      AnsweredExactly(rest, handle);
      if handle in answers[0].handles {
        assert YieldsAt(answers, handle, 0);
      } else {
        if k :| 0 <= k < |rest| && YieldsAt(rest, handle, k) { assert YieldsAt(answers, handle, k + 1); }
        if k :| 0 <= k < |answers| && YieldsAt(answers, handle, k) { assert YieldsAt(rest, handle, k - 1); }
      }
    }
  }

  lemma {:induction false} KeptExactly(defaults: Option<Device>, found: seq<Result>, r: Result)
    requires forall f | f in found :: f.attrs == None
    ensures r in Kept(defaults, found) <==> r.(attrs := None) in found && Equipped(defaults, r)
  {
    if defaults.Some? && found != [] {
      KeptExactly(defaults, found[1..], r);
      assert found == [found[0]] + found[1..];
    }
  }

  lemma SlotExactly(aim: Aim, slot: Slot, r: Result)
    ensures r in OfSlot(aim, slot) <==> Offers(aim, slot, r)
  {
    if slot.opens.Some? && slot.search.Some? {
      var session, handles := slot.opens.value, Answered(slot.search.value);
      AnsweredExactly(slot.search.value, r.handle);
      KeptExactly(aim.defaults, Tagged(handles, session), r);
      var plain := Result(r.handle, r.session, None);
      if r.handle in handles && r.session == session {
        var i :| 0 <= i < |handles| && handles[i] == r.handle;
        assert Tagged(handles, session)[i] == plain;
      }
    } else {
      assert Kept(aim.defaults, []) == [];
    }
  }

  lemma {:induction false} SlotsExactly(aim: Aim, slots: seq<Slot>, r: Result)
    ensures r in OfSlots(aim, slots) <==> exists i | 0 <= i < |slots| :: Offers(aim, slots[i], r)
  {
    if slots != [] {
      SlotExactly(aim, slots[0], r);
      SlotsExactly(aim, slots[1..], r);
      if i :| 0 <= i < |slots| && Offers(aim, slots[i], r) {
        assert i > 0 ==> slots[i] == slots[1..][i - 1];
      }
    }
  }

  /** The objects of the modules are those that some slot offers: of a token that is asked for, with its session. */
  lemma {:induction false} OfferedExactly(aim: Aim, modules: seq<Module>, r: Result)
    ensures r in OfModules(aim, modules) <==> Offered(aim, modules, r)
  {
    if modules != [] {
      SlotsExactly(aim, modules[0].slots, r);
      OfferedExactly(aim, modules[1..], r);
      if m, i :| 0 <= m < |modules| && 0 <= i < |modules[m].slots| && Offers(aim, modules[m].slots[i], r) {
        assert m > 0 ==> modules[m] == modules[1..][m - 1];
      }
      var rest := modules[1..];
      if m, i :| 0 <= m < |rest| && 0 <= i < |rest[m].slots| && Offers(aim, rest[m].slots[i], r) {
        assert rest[m] == modules[m + 1];
      }
    }
  }

  // ---------------------------------------------------------------- what one run takes

  /** The objects that a run for some objects goes through: all of every search that finds fewer, and then the first of
    * one that finds enough. */
  function Taken(finds: seq<seq<Result>>, want: nat): seq<Result> {
    if finds == [] then []
    else if |finds[0]| >= want then finds[0][..want]
    else finds[0] + Taken(finds[1..], want)
  }

  /** What such a run leaves to be found. */
  function Left(finds: seq<seq<Result>>, want: nat): seq<seq<Result>> {
    if finds == [] then []
    else if |finds[0]| >= want then Find(finds[0][want..]) + finds[1..]
    else Left(finds[1..], want)
  }

  lemma {:induction false} TakenAndLeft(finds: seq<seq<Result>>, want: nat)
    ensures Taken(finds, want) + Flat(Left(finds, want)) == Flat(finds)
    ensures Left(finds, want) == [] || |Taken(finds, want)| >= want
  {
    if finds != [] {
      if |finds[0]| >= want {
        var more := finds[0][want..];
        assert more != [] ==> ([more] + finds[1..])[1..] == finds[1..];
        assert more == [] ==> [] + finds[1..] == finds[1..];
        assert finds[0] == finds[0][..want] + more;
        Joined(finds[0][..want], more, Flat(finds[1..]));
      } else {
        TakenAndLeft(finds[1..], want);
        Joined(finds[0], Taken(finds[1..], want), Flat(Left(finds[1..], want)));
      }
    }
  }

  /** A search that finds fewer objects than wanted is taken whole. */
  lemma TakenWhole(found: seq<Result>, later: seq<seq<Result>>, want: nat)
    requires |found| < want
    ensures Taken(Find(found) + later, want) == found + Taken(later, want)
    ensures Left(Find(found) + later, want) == Left(later, want)
  {
    if found == [] {
      assert [] + later == later && [] + Taken(later, want) == Taken(later, want);
    } else {
      assert ([found] + later)[1..] == later;
    }
  }

  /** A search that finds as many objects as wanted, or more, ends the run. */
  lemma TakenFirst(found: seq<Result>, later: seq<seq<Result>>, want: nat)
    requires 0 < want <= |found|
    ensures Taken(Find(found) + later, want) == found[..want]
    ensures Left(Find(found) + later, want) == Find(found[want..]) + later
  {
    assert ([found] + later)[0] == found && ([found] + later)[1..] == later;
  }

  /** Nothing that is kept is lost: it was taken, or it is left. */
  lemma KeptTaken(defaults: Option<Device>, finds: seq<seq<Result>>, want: nat)
    ensures Kept(defaults, Taken(finds, want)) + KeptOf(defaults, Left(finds, want)) == KeptOf(defaults, finds)
  {
    TakenAndLeft(finds, want);
    KeptJoined(defaults, Taken(finds, want), Flat(Left(finds, want)));
  }

  /** Without objects that are dropped a run gets what is wanted, or all there is. */
  lemma LosslessTaken(defaults: Option<Device>, finds: seq<seq<Result>>, want: nat)
    requires Lossless(defaults)
    ensures KeptOf(defaults, Left(finds, want)) == [] || |Kept(defaults, Taken(finds, want))| >= want
  {
    TakenAndLeft(finds, want);
    KeptAll(defaults, Taken(finds, want));
    if Left(finds, want) == [] { assert Kept(defaults, []) == []; }
  }

  /** A run for one object takes the first of those there are, if there are any. */
  lemma {:induction false} TakenOne(finds: seq<seq<Result>>)
    ensures Taken(finds, 1) == Flat(finds)[..Min(1, |Flat(finds)|)]
  {
    if finds != [] && finds[0] == [] {
      TakenOne(finds[1..]);
      assert [] + Flat(finds[1..]) == Flat(finds[1..]) && [] + Taken(finds[1..], 1) == Taken(finds[1..], 1);
    }
  }

  /** It gets none exactly if no object is found or the first one found cannot be read. */
  lemma NoneTaken(defaults: Option<Device>, finds: seq<seq<Result>>)
    ensures Kept(defaults, Taken(finds, 1)) == [] <==> Flat(finds) == [] || !Readable(defaults, Flat(finds)[0])
  {
    TakenOne(finds);
    var all := Flat(finds);
    if all == [] {
      assert Kept(defaults, []) == [];
    } else {
      assert all[..1] == [all[0]];
      KeptOne(defaults, all[0]);
    }
  }

  // ---------------------------------------------------------------- what a state has

  /** What a state has: results at hand, and what its searches are going to find. */
  datatype Part = Part(defaults: Option<Device>, results: seq<Result>, finds: seq<seq<Result>>) {
    function Rest(): seq<Result> { KeptOf(defaults, finds) }

    /** The results at hand, and those still to be found. */
    function Ahead(): seq<Result> { results + Rest() }
  }

  /** What becomes of a state that runs for some objects. */
  function RunPart(p: Part, want: nat): Part {
    p.(results := p.results + Kept(p.defaults, Taken(p.finds, want)), finds := Left(p.finds, want))
  }

  /** A run loses nothing, adds nothing and moves nothing; it gets what is wanted, or all there is, unless objects are
    * dropped. */
  lemma RunKeeps(p: Part, want: nat)
    ensures RunPart(p, want).Ahead() == p.Ahead() && |RunPart(p, want).results| >= |p.results|
    ensures p.Rest() == [] ==> RunPart(p, want).Rest() == []
    ensures Lossless(p.defaults) ==> RunPart(p, want).Rest() == [] || |RunPart(p, want).results| >= want
  {
    KeptTaken(p.defaults, p.finds, want);
    Joined(p.results, Kept(p.defaults, Taken(p.finds, want)), RunPart(p, want).Rest());
    if Lossless(p.defaults) { LosslessTaken(p.defaults, p.finds, want); }
  }

  // ---------------------------------------------------------------- references

  function One<T(==)>(t: Option<T>): multiset<T> { if t.Some? then multiset{t.value} else multiset{} }

  /** Releasing the references of a list one after the other, and then one more if there is one, releases all that are
    * held. */
  ghost predicate Owns<T>(held: multiset<T>, list: seq<T>, one: Option<T>) {
    if list == [] then held == One(one) else list[0] in held && Owns(held - multiset{list[0]}, list[1..], one)
  }

  lemma {:induction false} OwnsExactly<T>(held: multiset<T>, list: seq<T>, one: Option<T>)
    ensures Owns(held, list, one) <==> held == multiset(list) + One(one)
  {
    if list != [] {
      OwnsExactly(held - multiset{list[0]}, list[1..], one);
      assert list == [list[0]] + list[1..];
    }
  }

  lemma DropOne<T>(held: multiset<T>, list: seq<T>, x: T)
    requires Owns(held, list, Some(x))
    ensures x in held && Owns(held - multiset{x}, list, None)
  {
    OwnsExactly(held, list, Some(x));
    OwnsExactly(held - multiset{x}, list, None);
  }

  lemma AddOne<T>(held: multiset<T>, list: seq<T>, x: T)
    requires Owns(held, list, None)
    ensures Owns(held + multiset{x}, list, Some(x))
  {
    OwnsExactly(held, list, None);
    OwnsExactly(held + multiset{x}, list, Some(x));
  }

  /** The first of a list becomes the one. */
  lemma FirstIsOne<T>(held: multiset<T>, list: seq<T>)
    requires list != [] && Owns(held, list, None)
    ensures Owns(held, list[1..], Some(list[0]))
  {
    OwnsExactly(held, list, None);
    OwnsExactly(held, list[1..], Some(list[0]));
    assert list == [list[0]] + list[1..];
  }

  lemma AddLast<T>(held: multiset<T>, list: seq<T>, one: Option<T>, x: T)
    requires Owns(held, list, one)
    ensures Owns(held + multiset{x}, list + [x], one)
  {
    OwnsExactly(held, list, one);
    OwnsExactly(held + multiset{x}, list + [x], one);
  }

  lemma DropMiddle<T>(held: multiset<T>, a: seq<T>, x: T, b: seq<T>, one: Option<T>)
    requires Owns(held, a + [x] + b, one)
    ensures x in held && Owns(held - multiset{x}, a + b, one)
  {
    OwnsExactly(held, a + [x] + b, one);
    OwnsExactly(held - multiset{x}, a + b, one);
  }

  lemma OwnsMore<T>(held: multiset<T>, list: seq<T>, one: Option<T>)
    requires Owns(held, [], one)
    ensures Owns(held + multiset(list), list, one)
  {
    OwnsExactly(held + multiset(list), list, one);
  }

  /** A new list takes a reference on each of its elements. */
  lemma OwnsAll<T>(list: seq<T>)
    ensures Owns(multiset(list), list, None)
  {
    OwnsExactly(multiset(list), list, None);
  }

  /** The sessions that results refer to. */
  function Sessions(rs: seq<Result>): (s: seq<nat>)
    ensures |s| == |rs|
  {
    seq(|rs|, i requires 0 <= i < |rs| => rs[i].session)
  }

  /** Every result, every object found and one more user each own one reference on a session, and there are no
    * others. */
  ghost predicate OwnsWaiting(held: multiset<nat>, results: seq<Result>, found: seq<Result>, session: Option<nat>)
    decreases |results|, |found|
  {
    if results != [] then
      results[0].session in held && OwnsWaiting(held - multiset{results[0].session}, results[1..], found, session)
    else if found != [] then
      found[0].session in held && OwnsWaiting(held - multiset{found[0].session}, results, found[1..], session)
    else held == One(session)
  }

  lemma SessionsFirst(rs: seq<Result>, more: seq<Result>)
    requires rs != []
    ensures Sessions(rs + more) != [] && Sessions(rs + more)[0] == rs[0].session
    ensures Sessions(rs + more)[1..] == Sessions(rs[1..] + more)
  {
  }

  lemma {:induction false} WaitingExactly(held: multiset<nat>, results: seq<Result>, found: seq<Result>,
    session: Option<nat>)
    ensures OwnsWaiting(held, results, found, session) <==> Owns(held, Sessions(results + found), session)
    decreases |results|, |found|
  {
    if results != [] {
      SessionsFirst(results, found);
      WaitingExactly(held - multiset{results[0].session}, results[1..], found, session);
    } else if found != [] {
      SessionsFirst(found, []);
      assert results + found == found + [] && results + found[1..] == found[1..] + [];
      WaitingExactly(held - multiset{found[0].session}, results, found[1..], session);
    }
  }

  lemma WaitingDropOne(held: multiset<nat>, results: seq<Result>, found: seq<Result>, s: nat)
    requires OwnsWaiting(held, results, found, Some(s))
    ensures s in held && OwnsWaiting(held - multiset{s}, results, found, None)
  {
    WaitingExactly(held, results, found, Some(s));
    DropOne(held, Sessions(results + found), s);
    WaitingExactly(held - multiset{s}, results, found, None);
  }

  lemma WaitingAddOne(held: multiset<nat>, results: seq<Result>, found: seq<Result>, s: nat)
    requires OwnsWaiting(held, results, found, None)
    ensures OwnsWaiting(held + multiset{s}, results, found, Some(s))
  {
    WaitingExactly(held, results, found, None);
    AddOne(held, Sessions(results + found), s);
    WaitingExactly(held + multiset{s}, results, found, Some(s));
  }

  lemma WaitingPush(held: multiset<nat>, results: seq<Result>, found: seq<Result>, session: Option<nat>, r: Result)
    requires OwnsWaiting(held, results, found, session)
    ensures OwnsWaiting(held + multiset{r.session}, results, found + [r], session)
  {
    WaitingExactly(held, results, found, session);
    AddLast(held, Sessions(results + found), session, r.session);
    assert Sessions(results + (found + [r])) == Sessions(results + found) + [r.session];
    WaitingExactly(held + multiset{r.session}, results, found + [r], session);
  }

  /** An object that moves from those found to the results keeps its session. */
  lemma WaitingMove(held: multiset<nat>, results: seq<Result>, found: seq<Result>, session: Option<nat>, r: Result)
    requires OwnsWaiting(held, results, found, session) && found != [] && r.session == found[0].session
    ensures OwnsWaiting(held, results + [r], found[1..], session)
  {
    WaitingExactly(held, results, found, session);
    assert Sessions((results + [r]) + found[1..]) == Sessions(results + found);
    WaitingExactly(held, results + [r], found[1..], session);
  }

  lemma SessionsParts(results: seq<Result>, found: seq<Result>)
    requires found != []
    ensures Sessions(results + found) == Sessions(results) + [found[0].session] + Sessions(found[1..])
    ensures Sessions(results + found[1..]) == Sessions(results) + Sessions(found[1..])
  {
  }

  lemma WaitingDrop(held: multiset<nat>, results: seq<Result>, found: seq<Result>, session: Option<nat>)
    requires OwnsWaiting(held, results, found, session) && found != []
    ensures found[0].session in held && OwnsWaiting(held - multiset{found[0].session}, results, found[1..], session)
  {
    var s := found[0].session;
    WaitingExactly(held, results, found, session);
    SessionsParts(results, found);
    DropMiddle(held, Sessions(results), s, Sessions(found[1..]), session);
    WaitingExactly(held - multiset{s}, results, found[1..], session);
  }

  lemma KeptOne(defaults: Option<Device>, r: Result)
    ensures Kept(defaults, [r]) == if defaults.None? then [r] else Keep(defaults.value, r)
  {
    if defaults.Some? { assert [r][1..] == []; }
  }

  // ---------------------------------------------------------------- batches

  /** The parts one after the other. */
  function Flat(parts: seq<seq<Result>>): seq<Result> {
    if parts == [] then [] else parts[0] + Flat(parts[1..])
  }

  function Min(a: nat, b: nat): nat { if a < b then a else b }

  /** A call returns a batch of the size wanted, or all that is left, off the front of what is ahead. */
  ghost predicate Call(before: seq<Result>, want: nat, batch: seq<Result>, after: seq<Result>) {
    before == batch + after && |batch| == Min(want, |before|)
  }

  lemma {:induction false} FlatMore(parts: seq<seq<Result>>, part: seq<Result>)
    ensures Flat(parts + [part]) == Flat(parts) + part
  {
    if parts == [] {
      assert [] + [part] == [part] && [part][1..] == [] && part + [] == part;
    } else {
      assert (parts + [part])[0] == parts[0] && (parts + [part])[1..] == parts[1..] + [part];
      FlatMore(parts[1..], part);
    }
  }

  lemma Joined(a: seq<Result>, b: seq<Result>, c: seq<Result>)
    ensures (a + b) + c == a + (b + c)
  {
  }

  lemma NothingBehind(a: seq<Result>, b: seq<Result>)
    requires b == []
    ensures a + b == a
  {
  }
}
