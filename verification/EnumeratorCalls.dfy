/** The calls of gck/gck-enumerator.c: running a chain of enumerator states and handing out results. */
module EnumeratorCalls {
  import opened Wrappers
  import opened Enumeration
  import opened Enumerators

  // ---------------------------------------------------------------- what a chain has

  function Waiting(ps: seq<Part>): seq<Result> {
    if ps == [] then [] else ps[0].results + Waiting(ps[1..])
  }

  function Behind(ps: seq<Part>): seq<Result> {
    if ps == [] then [] else ps[0].Rest() + Behind(ps[1..])
  }

  /** What the chain has ahead: the first state's results and rest, then the next one's. */
  function AheadOf(ps: seq<Part>): seq<Result> {
    if ps == [] then [] else ps[0].Ahead() + AheadOf(ps[1..])
  }

  /** A state has results only when those before it have nothing left to find. */
  ghost predicate Ordered(ps: seq<Part>) {
    ps == [] || ((Waiting(ps[1..]) == [] || ps[0].Rest() == []) && Ordered(ps[1..]))
  }

  /** No state drops objects. */
  ghost predicate NoneDropped(ps: seq<Part>) {
    ps == [] || (Lossless(ps[0].defaults) && NoneDropped(ps[1..]))
  }

  ghost predicate Fair(ps: seq<Part>) { Ordered(ps) && NoneDropped(ps) }

  lemma Cons(p: Part, ps: seq<Part>)
    ensures Waiting([p] + ps) == p.results + Waiting(ps) && Behind([p] + ps) == p.Rest() + Behind(ps)
    ensures AheadOf([p] + ps) == p.Ahead() + AheadOf(ps)
    ensures Ordered([p] + ps) <==> (Waiting(ps) == [] || p.Rest() == []) && Ordered(ps)
    ensures NoneDropped([p] + ps) <==> Lossless(p.defaults) && NoneDropped(ps)
  {
    assert ([p] + ps)[1..] == ps;
  }

  /** In an ordered chain the results at hand are the first of what is ahead. */
  lemma {:induction false} OrderedAhead(ps: seq<Part>)
    requires Ordered(ps)
    ensures AheadOf(ps) == Waiting(ps) + Behind(ps)
  {
    if ps != [] {
      OrderedAhead(ps[1..]);
      Shuffle(ps[0].results, ps[0].Rest(), Waiting(ps[1..]), Behind(ps[1..]));
    }
  }

  lemma Shuffle(a: seq<Result>, b: seq<Result>, c: seq<Result>, d: seq<Result>)
    requires c == [] || b == []
    ensures (a + b) + (c + d) == (a + c) + (b + d)
  {
  }

  /** In any chain what is ahead is what waits and what is still to be found, in some order. */
  lemma {:induction false} AheadInAll(ps: seq<Part>)
    ensures multiset(AheadOf(ps)) == multiset(Waiting(ps)) + multiset(Behind(ps))
  {
    if ps != [] { AheadInAll(ps[1..]); }
  }

  // ---------------------------------------------------------------- handing out results

  /** A chain after the first n of the results that wait were handed out. */
  function Handed(ps: seq<Part>, n: nat): seq<Part> {
    if ps == [] then []
    else if n <= |ps[0].results| then [ps[0].(results := ps[0].results[n..])] + ps[1..]
    else [ps[0].(results := [])] + Handed(ps[1..], n - |ps[0].results|)
  }

  lemma {:induction false} HandedKeeps(ps: seq<Part>, n: nat)
    requires n <= |Waiting(ps)|
    ensures Waiting(Handed(ps, n)) == Waiting(ps)[n..] && Behind(Handed(ps, n)) == Behind(ps)
    ensures Ordered(ps) ==> Ordered(Handed(ps, n))
    ensures NoneDropped(ps) ==> NoneDropped(Handed(ps, n))
  {
    if ps != [] {
      var p := ps[0];
      if n <= |p.results| {
        Cons(p.(results := p.results[n..]), ps[1..]);
      } else {
        HandedKeeps(ps[1..], n - |p.results|);
        Cons(p.(results := []), Handed(ps[1..], n - |p.results|));
      }
    }
  }

  /** One more result is handed out. */
  lemma {:induction false} HandedMore(ps: seq<Part>, n: nat)
    requires n < |Waiting(ps)|
    ensures Handed(Handed(ps, n), 1) == Handed(ps, n + 1)
  {
    var p := ps[0];
    if n < |p.results| {
      assert p.results[n..][1..] == p.results[n + 1..];
    } else {
      var m := n - |p.results|;
      HandedMore(ps[1..], m);
      assert Handed(ps, n) == [p.(results := [])] + Handed(ps[1..], m) by {
        if m == 0 { HandedNone(ps[1..]); }
      }
    }
  }

  lemma HandedNone(ps: seq<Part>)
    ensures Handed(ps, 0) == ps
  {
    if ps != [] {
      assert ps[0].results[0..] == ps[0].results;
    }
  }

  /** Nothing is handed out where nothing waits. */
  lemma {:induction false} HandedNothing(ps: seq<Part>, n: nat)
    requires Waiting(ps) == []
    ensures Handed(ps, n) == ps
  {
    if ps != [] {
      HandedNothing(ps[1..], n);
    }
  }

  // ---------------------------------------------------------------- running the chain

  /** The states run one after the other until there are as many results as wanted. */
  function RunParts(ps: seq<Part>, want: nat): (r: seq<Part>)
    ensures |r| == |ps|
  {
    if ps == [] then [] else
    var q := RunPart(ps[0], want);
    [q] + if |q.results| >= want then ps[1..] else RunParts(ps[1..], want - |q.results|)
  }

  /** Running a chain loses nothing, adds nothing and moves nothing. */
  lemma {:induction false} RunPartsKeep(ps: seq<Part>, want: nat)
    ensures AheadOf(RunParts(ps, want)) == AheadOf(ps)
  {
    if ps != [] {
      var q := RunPart(ps[0], want);
      RunKeeps(ps[0], want);
      if |q.results| >= want {
        Cons(q, ps[1..]);
      } else {
        RunPartsKeep(ps[1..], want - |q.results|);
        Cons(q, RunParts(ps[1..], want - |q.results|));
      }
    }
  }

  /** Without objects that are dropped it gets what is wanted, or all there is, and results are found in order. */
  lemma {:induction false} RunPartsFair(ps: seq<Part>, want: nat)
    requires Fair(ps) && want > 0
    ensures var after := RunParts(ps, want);
      Fair(after) && (|Waiting(after)| >= want || Behind(after) == [])
  {
    if ps != [] {
      var q := RunPart(ps[0], want);
      RunKeeps(ps[0], want);
      if |q.results| >= want {
        Cons(q, ps[1..]);
      } else {
        RunPartsFair(ps[1..], want - |q.results|);
        Cons(q, RunParts(ps[1..], want - |q.results|));
      }
    }
  }

  // ---------------------------------------------------------------- calls

  // G_MAXINT
  const MAX_INT: nat := 0x7FFF_FFFF

  /** Results at hand, as many as wanted if there are. */
  function Fetch(ps: seq<Part>, want: nat): (seq<Result>, seq<Part>) {
    var n := Min(want, |Waiting(ps)|);
    (Waiting(ps)[..n], Handed(ps, n))
  }

  /** One call: results at hand, and when they are too few those that running the chain brings. */
  function NextBatch(ps: seq<Part>, want: nat): (seq<Result>, seq<Part>) {
    var (first, mid) := Fetch(ps, want);
    if |first| >= want then (first, mid) else
    var (more, after) := Fetch(RunParts(mid, want - |first|), want - |first|);
    (first + more, after)
  }

  /** What a call promises: the first of what is ahead, as many as wanted or as there are; and the same of the next. */
  ghost predicate Promised(ps: seq<Part>, want: nat, r: (seq<Result>, seq<Part>)) {
    Fair(r.1) && Call(AheadOf(ps), want, r.0, AheadOf(r.1))
  }

  /** Objects move from what is ahead to the caller: none is lost, and none is handed out twice. */
  ghost predicate Conserved(ps: seq<Part>, r: (seq<Result>, seq<Part>)) {
    multiset(AheadOf(ps)) == multiset(r.0) + multiset(AheadOf(r.1))
  }

  lemma FetchParts(ps: seq<Part>, want: nat) returns (objects: seq<Result>, after: seq<Part>)
    ensures Fetch(ps, want) == (objects, after) && |objects| == Min(want, |Waiting(ps)|)
    ensures Waiting(ps) == objects + Waiting(after) && Behind(after) == Behind(ps)
    ensures Fair(ps) ==> Fair(after)
  {
    objects, after := Fetch(ps, want).0, Fetch(ps, want).1;
    HandedKeeps(ps, |objects|);
  }

  lemma FetchConserves(ps: seq<Part>, want: nat)
    ensures Conserved(ps, Fetch(ps, want)) && |Fetch(ps, want).0| <= want
  {
    var objects, after := FetchParts(ps, want);
    AheadInAll(ps);
    AheadInAll(after);
  }

  lemma FetchOrdered(ps: seq<Part>, want: nat)
    requires Fair(ps)
    ensures Fair(Fetch(ps, want).1) && AheadOf(ps) == Fetch(ps, want).0 + AheadOf(Fetch(ps, want).1)
    ensures |Fetch(ps, want).0| < want ==> Waiting(Fetch(ps, want).1) == []
    ensures |Waiting(ps)| >= want || Behind(ps) == [] ==> |Fetch(ps, want).0| == Min(want, |AheadOf(ps)|)
  {
    var objects, after := FetchParts(ps, want);
    OrderedAhead(ps);
    OrderedAhead(after);
    Joined(objects, Waiting(after), Behind(after));
  }

  /** Whatever the devices answer, a call returns no more than is wanted, loses nothing and returns nothing twice. */
  lemma NextConserves(ps: seq<Part>, want: nat)
    ensures Conserved(ps, NextBatch(ps, want)) && |NextBatch(ps, want).0| <= want
  {
    var (first, mid) := Fetch(ps, want);
    FetchConserves(ps, want);
    if |first| < want {
      RunPartsKeep(mid, want - |first|);
      FetchConserves(RunParts(mid, want - |first|), want - |first|);
    }
  }

  /** When no state drops objects a call keeps its promise. */
  lemma NextKeepsPromise(ps: seq<Part>, want: nat)
    requires Fair(ps) && want > 0
    ensures Promised(ps, want, NextBatch(ps, want))
  {
    var (first, mid) := Fetch(ps, want);
    FetchOrdered(ps, want);
    if |first| < want {
      RanPromised(mid, want - |first|);
      var (more, after) := Fetch(RunParts(mid, want - |first|), want - |first|);
      BothTaken(AheadOf(ps), want, first, AheadOf(mid), more, AheadOf(after));
    }
  }

  /** So does the second half of a call. */
  lemma RanPromised(ps: seq<Part>, want: nat)
    requires Fair(ps) && want > 0
    ensures Promised(ps, want, Fetch(RunParts(ps, want), want))
  {
    RunPartsKeep(ps, want);
    RunPartsFair(ps, want);
    FetchOrdered(RunParts(ps, want), want);
  }

  /** Some objects were at hand, others were found. */
  lemma BothTaken(ahead: seq<Result>, want: nat, first: seq<Result>, mid: seq<Result>, second: seq<Result>,
    after: seq<Result>)
    requires ahead == first + mid && mid == second + after && |first| <= want && |second| == Min(want - |first|, |mid|)
    ensures Call(ahead, want, first + second, after)
  {
    Joined(first, second, after);
  }

  // ---------------------------------------------------------------- when a call returns nothing

  /** No object is found ahead, or the first one found cannot be read. */
  predicate Stuck(p: Part) { Flat(p.finds) == [] || !Readable(p.defaults, Flat(p.finds)[0]) }

  predicate AllStuck(ps: seq<Part>) { ps == [] || (Stuck(ps[0]) && AllStuck(ps[1..])) }

  lemma {:induction false} RunsForNone(ps: seq<Part>)
    requires Waiting(ps) == []
    ensures Waiting(RunParts(ps, 1)) == [] <==> AllStuck(ps)
  {
    if ps != [] {
      var q := RunPart(ps[0], 1);
      RunsNone(ps[0]);
      if q.results == [] {
        RunsForNone(ps[1..]);
        Cons(q, RunParts(ps[1..], 1));
      } else {
        Cons(q, ps[1..]);
      }
    }
  }

  lemma RunsNone(p: Part)
    requires p.results == []
    ensures RunPart(p, 1).results == [] <==> Stuck(p)
  {
    NoneTaken(p.defaults, p.finds);
  }

  /** A call for one object returns nothing exactly if nothing is at hand and every state of the chain finds no object,
    * or one that cannot be read first; what is ahead behind that one does not matter. */
  lemma NextReturnsNone(ps: seq<Part>)
    ensures NextBatch(ps, 1).0 == [] <==> Waiting(ps) == [] && AllStuck(ps)
  {
    if Waiting(ps) == [] {
      HandedNothing(ps, 0);
      RunsForNone(ps);
      assert Fetch(ps, 1) == ([], ps);
    }
  }

  /** It returns nothing although there is an object ahead exactly if, besides, one of the states finds objects that can
    * be read behind the first one. */
  lemma NextMisses(ps: seq<Part>)
    ensures NextBatch(ps, 1).0 == [] && AheadOf(ps) != [] <==>
      Waiting(ps) == [] && AllStuck(ps) && Behind(ps) != []
  {
    NextReturnsNone(ps);
    if Waiting(ps) == [] { AheadBehind(ps); }
  }

  lemma {:induction false} AheadBehind(ps: seq<Part>)
    requires Waiting(ps) == []
    ensures AheadOf(ps) == Behind(ps)
  {
    if ps != [] {
      AheadBehind(ps[1..]);
      assert [] + ps[0].Rest() == ps[0].Rest();
    }
  }

  // ---------------------------------------------------------------- chains

  /** The states of a chain, each one pointing at the next. */
  ghost predicate Linked(c: seq<State>)
    reads c`chained
  {
    (forall i, j | 0 <= i < j < |c| :: c[i] != c[j])
    && forall i | 0 <= i < |c| :: c[i].chained == AtOf(c, i + 1)
  }

  function AtOf(c: seq<State>, k: nat): State? { if k < |c| then c[k] else null }

  ghost predicate Shown(s: State, p: Part)
    reads s
  {
    s.Valid() && s.At(s.handler) == p
  }

  ghost predicate Shows(c: seq<State>, ps: seq<Part>)
    reads c
  {
    if c == [] then ps == [] else ps != [] && Shown(c[0], ps[0]) && Shows(c[1..], ps[1..])
  }

  /** A chain between calls. */
  ghost predicate Chain(c: seq<State>, ps: seq<Part>)
    reads c
  {
    c != [] && Linked(c) && Shows(c, ps)
  }

  lemma TailLinked(c: seq<State>)
    requires c != [] && Linked(c)
    ensures Linked(c[1..]) && c[0] !in c[1..]
  {
    forall i | 0 <= i < |c[1..]| ensures c[1..][i].chained == AtOf(c[1..], i + 1) {
      assert c[i + 1].chained == AtOf(c, i + 2);
    }
  }

  lemma Tail(c: seq<State>, ps: seq<Part>)
    requires Chain(c, ps)
    ensures ps != [] && Linked(c[1..]) && Shows(c[1..], ps[1..]) && c[0] !in c[1..] && Shown(c[0], ps[0])
    ensures c[0].chained == AtOf(c, 1) && Queue(c[0].results) == ps[0].results
  {
    TailLinked(c);
  }

  lemma ConsShown(c: seq<State>, p: Part, rest: seq<Part>)
    requires c != [] && Shown(c[0], p) && Shows(c[1..], rest)
    ensures Shows(c, [p] + rest)
  {
    assert ([p] + rest)[1..] == rest;
  }

  /** A state hands out its first result. */
  method Pop(s: State, ghost p: Part) returns (r: Result, ghost q: Part)
    requires Shown(s, p) && p.results != []
    modifies s`results, s`heldSessions
    ensures Shown(s, q) && q == p.(results := p.results[1..]) && r == p.results[0]
  {
    r := s.results.value[0];
    s.DropResult();
    q := p.(results := p.results[1..]);
  }

  function FirstOf(rs: seq<Result>): Option<Result> { if rs == [] then None else Some(rs[0]) }

  /** The first result that waits leaves the chain, if there is one. */
  ghost predicate One(ps: seq<Part>, after: seq<Part>, r: Option<Result>) {
    after == Handed(ps, 1) && r == FirstOf(Waiting(ps))
  }

  lemma OneHere(ps: seq<Part>, q: Part)
    requires ps != [] && ps[0].results != [] && q == ps[0].(results := ps[0].results[1..])
    ensures One(ps, [q] + ps[1..], Some(ps[0].results[0]))
  {
  }

  lemma OneThere(ps: seq<Part>, rest: seq<Part>, r: Option<Result>)
    requires ps != [] && ps[0].results == [] && One(ps[1..], rest, r)
    ensures One(ps, [ps[0]] + rest, r)
  {
    assert [] + Waiting(ps[1..]) == Waiting(ps[1..]);
  }

  lemma OneNowhere(ps: seq<Part>)
    requires |ps| == 1 && ps[0].results == []
    ensures One(ps, ps, None)
  {
    assert Waiting(ps) == [];
    HandedNothing(ps, 1);
  }

  /** The first state of a chain hands out its first result. */
  method PopFirst(s: State, ghost c: seq<State>, ghost ps: seq<Part>) returns (r: Result, ghost after: seq<Part>)
    requires c != [] && c[0] == s && c[0] !in c[1..] && ps != [] && Shown(s, ps[0]) && Shows(c[1..], ps[1..])
    requires ps[0].results != []
    modifies s`results, s`heldSessions
    ensures Shows(c, after) && One(ps, after, Some(r))
  {
    ghost var q, tail, rest := ps[0], c[1..], ps[1..];
    r, q := Pop(s, q);
    assert Shows(tail, rest);
    ConsShown(c, q, rest);
    OneHere(ps, q);
    after := [q] + rest;
  }

  /** The states chained to the first one hand out their next result; the first one has none. */
  method ExtractChained(chained: State, ghost c: seq<State>, ghost ps: seq<Part>)
    returns (r: Option<Result>, ghost after: seq<Part>)
    requires |c| > 1 && c[1] == chained && c[0] !in c[1..] && Linked(c[1..])
    requires ps != [] && Shown(c[0], ps[0]) && Shows(c[1..], ps[1..]) && ps[0].results == []
    modifies c[1..]`results, c[1..]`heldSessions
    ensures Shows(c, after) && One(ps, after, r)
    decreases |c|, 0
  {
    ghost var rest;
    r, rest := ExtractResult(chained, c[1..], ps[1..]);
    ConsShown(c, ps[0], rest);
    OneThere(ps, rest, r);
    after := [ps[0]] + rest;
  }

  /** The next result: the first that waits in this state, or in those chained to it. */
  method ExtractResult(state: State, ghost c: seq<State>, ghost ps: seq<Part>)
    returns (r: Option<Result>, ghost after: seq<Part>)
    requires Chain(c, ps) && c[0] == state
    modifies c`results, c`heldSessions
    ensures Shows(c, after) && One(ps, after, r)
    decreases |c|, 1
  {
    Tail(c, ps);
    if Queue(state.results) != [] {
      var first: Result;
      first, after := PopFirst(state, c, ps);
      return Some(first), after;
    }
    if state.chained != null {
      r, after := ExtractChained(state.chained, c, ps);
      return;
    }
    OneNowhere(ps);
    return None, ps;
  }

  /** Results that left a chain one after the other. */
  ghost predicate Out(ps: seq<Part>, after: seq<Part>, objects: seq<Result>) {
    after == Handed(ps, |objects|) && objects <= Waiting(ps)
  }

  lemma NothingOut(ps: seq<Part>)
    ensures Out(ps, ps, [])
  {
    HandedNone(ps);
  }

  lemma OneOut(ps: seq<Part>, now: seq<Part>, objects: seq<Result>, r: Option<Result>, after: seq<Part>)
    requires Out(ps, now, objects) && One(now, after, r)
    ensures r.Some? ==> Out(ps, after, objects + [r.value])
    ensures r.None? ==> Out(ps, after, objects) && objects == Waiting(ps)
  {
    var n := |objects|;
    HandedKeeps(ps, n);
    if r.Some? {
      HandedMore(ps, n);
    } else {
      HandedNothing(now, 1);
    }
  }

  /** Results at hand, as many as wanted if there are. */
  ghost predicate Fetched(ps: seq<Part>, want: nat, objects: seq<Result>, after: seq<Part>) {
    Fetch(ps, want) == (objects, after)
  }

  lemma AllOut(ps: seq<Part>, want: nat, objects: seq<Result>, after: seq<Part>)
    requires Out(ps, after, objects) && (|objects| == want || (|objects| < want && objects == Waiting(ps)))
    ensures Fetched(ps, want, objects, after)
  {
    assert Waiting(ps)[..|objects|] == objects;
  }

  /** Results one after the other, as many as wanted if there are that many. */
  method ExtractResults(state: State, ghost c: seq<State>, ghost ps: seq<Part>, want: nat)
    returns (objects: seq<Result>, ghost after: seq<Part>)
    requires Chain(c, ps) && c[0] == state
    modifies c`results, c`heldSessions
    ensures Shows(c, after) && Fetched(ps, want, objects, after)
  {
    objects, after := [], ps;
    NothingOut(ps);
    while |objects| < want
      invariant |objects| <= want && Shows(c, after) && Out(ps, after, objects)
      decreases want - |objects|
    {
      var next: Option<Result>;
      ghost var now := after;
      next, after := ExtractResult(state, c, now);
      OneOut(ps, now, objects, next, after);
      if next.None? { break; }
      objects := objects + [next.value];
    }
    AllOut(ps, want, objects, after);
  }

  // ---------------------------------------------------------------- running the states

  /** The same, part by part. */
  ghost predicate Each(c: seq<State>, ps: seq<Part>)
    reads c
  {
    |c| == |ps| && forall i | 0 <= i < |c| :: Shown(c[i], ps[i])
  }

  lemma {:induction false} ShowsEach(c: seq<State>, ps: seq<Part>)
    requires Shows(c, ps)
    ensures Each(c, ps)
    decreases |c|
  {
    if c != [] {
      ShowsEach(c[1..], ps[1..]);
      HeadEach(c, ps);
    }
  }

  lemma HeadEach(c: seq<State>, ps: seq<Part>)
    requires c != [] && ps != [] && Shown(c[0], ps[0]) && Each(c[1..], ps[1..])
    ensures Each(c, ps)
  {
    forall i | 0 <= i < |c| ensures Shown(c[i], ps[i]) {
      if i > 0 { assert Shown(c[1..][i - 1], ps[1..][i - 1]); }
    }
  }

  lemma TailEach(c: seq<State>, ps: seq<Part>)
    requires c != [] && Each(c, ps)
    ensures Shown(c[0], ps[0]) && Each(c[1..], ps[1..])
  {
  }

  lemma {:induction false} EachShows(c: seq<State>, ps: seq<Part>)
    requires Each(c, ps)
    ensures Shows(c, ps)
    decreases |c|
  {
    if c != [] {
      TailEach(c, ps);
      EachShows(c[1..], ps[1..]);
    }
  }

  lemma Apart(c: seq<State>, k: nat)
    requires Linked(c) && k < |c|
    ensures (forall i | 0 <= i < |c| && i != k :: c[i] != c[k]) && c[k].chained == AtOf(c, k + 1)
  {
  }

  ghost predicate Ran(p: Part, want: nat, q: Part) { q == RunPart(p, want) }

  /** The inner loop of perform_enumerate_next. */
  method RunState(s: State, want: int, ghost p: Part) returns (ghost q: Part)
    requires Shown(s, p) && want > 0
    modifies s`wantObjects, s`handler, s`modules, s`slots, s`slot, s`tokenInfo, s`funcs, s`session, s`found, s`results
    modifies s`heldModules, s`heldSlots, s`heldSessions
    ensures Shown(s, q) && Ran(p, want, q)
  {
    s.RunFor(want);
    q := RunPart(p, want);
  }

  /** The state at k runs, and no other. */
  method RunAt(s: State, want: int, ghost c: seq<State>, ghost now: seq<Part>, ghost k: nat) returns (ghost q: Part)
    requires Linked(c) && k < |c| && c[k] == s && Each(c, now) && want > 0
    modifies s`wantObjects, s`handler, s`modules, s`slots, s`slot, s`tokenInfo, s`funcs, s`session, s`found, s`results
    modifies s`heldModules, s`heldSlots, s`heldSessions
    ensures Linked(c) && Each(c, now[k := q]) && s.chained == AtOf(c, k + 1)
    ensures q.results == Queue(s.results) && Ran(now[k], want, q)
  {
    Apart(c, k);
    q := RunState(s, want, now[k]);
    EachPut(c, now, k, q);
  }

  lemma EachPut(c: seq<State>, now: seq<Part>, k: nat, q: Part)
    requires k < |c| == |now| && Shown(c[k], q) && forall i | 0 <= i < |c| && i != k :: Shown(c[i], now[i])
    ensures Each(c, now[k := q])
  {
  }

  /** The first k states ran; the others are still to run, for that many objects. */
  ghost predicate RanUpTo(ps: seq<Part>, now: seq<Part>, k: nat, want: nat, left: nat) {
    k <= |now| && RunParts(ps, want) == now[..k] + RunParts(now[k..], left)
  }

  ghost predicate Performed(ps: seq<Part>, want: nat, after: seq<Part>) { after == RunParts(ps, want) }

  lemma RanNone(ps: seq<Part>, want: nat)
    ensures RanUpTo(ps, ps, 0, want, want)
  {
    assert ps[0..] == ps && [] + RunParts(ps, want) == RunParts(ps, want);
  }

  /** A state that is first in a chain ran. */
  lemma RanFirst(ps: seq<Part>, left: nat, q: Part)
    requires ps != [] && Ran(ps[0], left, q)
    ensures RunParts(ps, left) == [q] + if |q.results| >= left then ps[1..] else RunParts(ps[1..], left - |q.results|)
  {
  }

  lemma PutAt(now: seq<Part>, k: nat, q: Part)
    returns (front: seq<Part>, all: seq<Part>, back: seq<Part>, next: seq<Part>)
    requires k < |now|
    ensures front == now[..k] && all == now[k..] && next == now[k := q]
    ensures all != [] && all[0] == now[k] && all[1..] == back && next[k + 1..] == back
    ensures next[..k + 1] == front + [q] && next == front + ([q] + back)
  {
    front, all, back, next := now[..k], now[k..], now[k + 1..], now[k := q];
  }

  lemma FrontMore(front: seq<Part>, q: Part, rest: seq<Part>)
    ensures front + ([q] + rest) == (front + [q]) + rest
  {
  }

  lemma RanOne(ps: seq<Part>, now: seq<Part>, k: nat, want: nat, left: nat, q: Part)
    returns (next: seq<Part>, less: int)
    requires k < |now| && RanUpTo(ps, now, k, want, left) && Ran(now[k], left, q)
    ensures next == now[k := q] && less == left - |q.results|
    ensures if less <= 0 then Performed(ps, want, next) else RanUpTo(ps, next, k + 1, want, less)
  {
    less := left - |q.results|;
    var front, all, back;
    front, all, back, next := PutAt(now, k, q);
    RanFirst(all, left, q);
    if less > 0 { FrontMore(front, q, RunParts(back, less)); }
  }

  lemma RanAll(ps: seq<Part>, now: seq<Part>, want: nat, left: nat)
    requires RanUpTo(ps, now, |now|, want, left)
    ensures Performed(ps, want, now)
  {
    assert now[|now|..] == [] && now[..|now|] + [] == now;
  }

  /** perform_enumerate_next: the states of a chain run one after the other until there are as many results as
    * wanted. */
  method Perform(state: State, want: int, ghost c: seq<State>, ghost ps: seq<Part>) returns (ghost after: seq<Part>)
    requires Chain(c, ps) && c[0] == state && want > 0
    modifies c`wantObjects, c`handler, c`modules, c`slots, c`slot, c`tokenInfo, c`funcs, c`session, c`found, c`results
    modifies c`heldModules, c`heldSlots, c`heldSessions
    ensures Chain(c, after) && Performed(ps, want, after)
  {
    ShowsEach(c, ps);
    after := PerformEach(state, want, c, ps);
    EachShows(c, after);
  }

  /** The state at k runs: that is all, or it is the turn of the next one. */
  method RunNext(s: State, want: int, count: int, ghost c: seq<State>, ghost ps: seq<Part>, ghost now: seq<Part>,
    ghost k: nat, ghost left: nat)
    returns (total: int, ghost next: seq<Part>, ghost less: int)
    requires Linked(c) && Each(c, now) && k < |c| && c[k] == s
    requires 0 < left <= want && left == want - count && RanUpTo(ps, now, k, want, left)
    modifies s`wantObjects, s`handler, s`modules, s`slots, s`slot, s`tokenInfo, s`funcs, s`session, s`found, s`results
    modifies s`heldModules, s`heldSlots, s`heldSessions
    ensures Linked(c) && Each(c, next) && s.chained == AtOf(c, k + 1)
    ensures less == want - total <= want
    ensures if less <= 0 then Performed(ps, want, next) else RanUpTo(ps, next, k + 1, want, less)
  {
    ghost var q := RunAt(s, want - count, c, now, k);
    next, less := RanOne(ps, now, k, want, left, q);
    total := count + |Queue(s.results)|;
  }

  method PerformEach(state: State, want: int, ghost c: seq<State>, ghost ps: seq<Part>)
    returns (ghost after: seq<Part>)
    requires c != [] && Linked(c) && Each(c, ps) && c[0] == state && want > 0
    modifies c`wantObjects, c`handler, c`modules, c`slots, c`slot, c`tokenInfo, c`funcs, c`session, c`found, c`results
    modifies c`heldModules, c`heldSlots, c`heldSessions
    ensures Linked(c) && Each(c, after) && Performed(ps, want, after)
  {
    var at: State?, count := state, 0;
    ghost var k: nat, left := 0, want;
    after := ps;
    RanNone(ps, want);
    while at != null
      invariant k <= |c| && at == AtOf(c, k) && Linked(c) && Each(c, after)
      invariant 0 < left <= want && left == want - count && RanUpTo(ps, after, k, want, left)
      decreases |c| - k
    {
      count, after, left := RunNext(at, want, count, c, ps, after, k, left);
      if count >= want { return; }
      at, k := at.chained, k + 1;
    }
    RanAll(ps, after, want, left);
  }

  /** One call. */
  ghost predicate Served(ps: seq<Part>, want: nat, objects: seq<Result>, after: seq<Part>) {
    NextBatch(ps, want) == (objects, after)
  }

  lemma ServedAtHand(ps: seq<Part>, want: nat, objects: seq<Result>, after: seq<Part>)
    requires Fetched(ps, want, objects, after) && |objects| >= want
    ensures Served(ps, want, objects, after)
  {
  }

  /** When too few were at hand the others are looked for. */
  method TakeMore(state: State, want: nat, first: seq<Result>, ghost c: seq<State>, ghost ps: seq<Part>,
    ghost mid: seq<Part>)
    returns (objects: seq<Result>, ghost after: seq<Part>)
    requires Chain(c, mid) && c[0] == state && Fetched(ps, want, first, mid) && |first| < want
    modifies c`wantObjects, c`handler, c`modules, c`slots, c`slot, c`tokenInfo, c`funcs, c`session, c`found, c`results
    modifies c`heldModules, c`heldSlots, c`heldSessions
    ensures Chain(c, after) && Served(ps, want, objects, after)
  {
    var less: nat, more: seq<Result> := want - |first|, [];
    more, after := RunAndTake(state, less, c, mid);
    ServedLater(ps, want, first, mid, less, more, after);
    objects := first + more;
  }

  /** gck_enumerator_next_n: some objects, those at hand and those that running the chain brings. */
  method NextN(state: State, max: int, ghost c: seq<State>, ghost ps: seq<Part>)
    returns (objects: seq<Result>, ghost after: seq<Part>)
    requires Chain(c, ps) && c[0] == state && (max == -1 || max > 0)
    modifies c`wantObjects, c`handler, c`modules, c`slots, c`slot, c`tokenInfo, c`funcs, c`session, c`found, c`results
    modifies c`heldModules, c`heldSlots, c`heldSessions
    ensures Chain(c, after) && Served(ps, if max <= 0 then 0x7FFF_FFFF else max, objects, after)
  {
    var want: nat := if max <= 0 then MAX_INT else max;
    objects, after := ExtractResults(state, c, ps, want);
    if want > |objects| {
      objects, after := TakeMore(state, want, objects, c, ps, after);
    } else {
      ServedAtHand(ps, want, objects, after);
    }
  }

  /** Objects that running a chain brings. */
  ghost predicate Brought(ps: seq<Part>, want: nat, objects: seq<Result>, after: seq<Part>) {
    Fetch(RunParts(ps, want), want) == (objects, after)
  }

  lemma ServedLater(ps: seq<Part>, want: nat, first: seq<Result>, mid: seq<Part>, less: nat, more: seq<Result>,
    after: seq<Part>)
    requires Fetched(ps, want, first, mid) && |first| < want && less == want - |first|
    requires Brought(mid, less, more, after)
    ensures Served(ps, want, first + more, after)
  {
  }

  lemma BroughtBy(ps: seq<Part>, want: nat, ran: seq<Part>, objects: seq<Result>, after: seq<Part>)
    requires Performed(ps, want, ran) && Fetched(ran, want, objects, after)
    ensures Brought(ps, want, objects, after)
  {
  }

  /** Runs the chain for some objects and takes them. */
  method RunAndTake(state: State, want: nat, ghost c: seq<State>, ghost ps: seq<Part>)
    returns (objects: seq<Result>, ghost after: seq<Part>)
    requires Chain(c, ps) && c[0] == state && want > 0
    modifies c`wantObjects, c`handler, c`modules, c`slots, c`slot, c`tokenInfo, c`funcs, c`session, c`found, c`results
    modifies c`heldModules, c`heldSlots, c`heldSessions
    ensures Chain(c, after) && Brought(ps, want, objects, after)
  {
    ghost var ran := Perform(state, want, c, ps);
    objects, after := ExtractResults(state, c, ran, want);
    BroughtBy(ps, want, ran, objects, after);
  }

  function AsBatch(r: Option<Result>): seq<Result> { if r.Some? then [r.value] else [] }

  lemma FetchedOne(ps: seq<Part>, r: Option<Result>, after: seq<Part>)
    requires One(ps, after, r)
    ensures Fetched(ps, 1, AsBatch(r), after)
  {
    if Waiting(ps) == [] {
      HandedNothing(ps, 0);
      HandedNothing(ps, 1);
    } else {
      assert Waiting(ps)[..1] == [Waiting(ps)[0]];
    }
  }

  /** Takes one of the results at hand, if there is one. */
  method TakeOne(state: State, ghost c: seq<State>, ghost ps: seq<Part>)
    returns (r: Option<Result>, ghost after: seq<Part>)
    requires Chain(c, ps) && c[0] == state
    modifies c`results, c`heldSessions
    ensures Chain(c, after) && Fetched(ps, 1, AsBatch(r), after)
  {
    r, after := ExtractResult(state, c, ps);
    FetchedOne(ps, r, after);
  }

  /** Runs the chain for one object and takes it. */
  method RunAndTakeOne(state: State, ghost c: seq<State>, ghost ps: seq<Part>)
    returns (r: Option<Result>, ghost after: seq<Part>)
    requires Chain(c, ps) && c[0] == state
    modifies c`wantObjects, c`handler, c`modules, c`slots, c`slot, c`tokenInfo, c`funcs, c`session, c`found, c`results
    modifies c`heldModules, c`heldSlots, c`heldSessions
    ensures Chain(c, after) && Brought(ps, 1, AsBatch(r), after)
  {
    ghost var ran := Perform(state, 1, c, ps);
    r, after := TakeOne(state, c, ran);
    BroughtBy(ps, 1, ran, AsBatch(r), after);
  }

  lemma NoneAtHand(ps: seq<Part>, mid: seq<Part>, more: seq<Result>, after: seq<Part>)
    requires Fetched(ps, 1, [], mid) && Brought(mid, 1, more, after)
    ensures Served(ps, 1, more, after)
  {
    ServedLater(ps, 1, [], mid, 1, more, after);
    assert [] + more == more;
  }

  /** gck_enumerator_next: one object, one at hand or the one that running the chain brings. */
  method Next(state: State, ghost c: seq<State>, ghost ps: seq<Part>)
    returns (r: Option<Result>, ghost after: seq<Part>)
    requires Chain(c, ps) && c[0] == state
    modifies c`wantObjects, c`handler, c`modules, c`slots, c`slot, c`tokenInfo, c`funcs, c`session, c`found, c`results
    modifies c`heldModules, c`heldSlots, c`heldSessions
    ensures Chain(c, after) && Served(ps, 1, AsBatch(r), after)
  {
    ghost var mid;
    r, mid := TakeOne(state, c, ps);
    if r.Some? {
      ServedAtHand(ps, 1, AsBatch(r), mid);
      return r, mid;
    }
    r, after := RunAndTakeOne(state, c, mid);
    NoneAtHand(ps, mid, AsBatch(r), after);
  }

  /** The call in two halves, gck_enumerator_next_async and gck_enumerator_next_finish: what is at hand is not
    * looked at before the chain runs. A call that is cancelled may or may not have run; it returns nothing. */
  method NextAsync(state: State, max: int, performed: bool, finished: bool, ghost c: seq<State>, ghost ps: seq<Part>)
    returns (objects: seq<Result>, ghost after: seq<Part>)
    requires Chain(c, ps) && c[0] == state && (max == -1 || max > 0) && (finished ==> performed)
    modifies c`wantObjects, c`handler, c`modules, c`slots, c`slot, c`tokenInfo, c`funcs, c`session, c`found, c`results
    modifies c`heldModules, c`heldSlots, c`heldSessions
    ensures Chain(c, after)
    ensures var want := if max <= 0 then 0x7FFF_FFFF else max;
      if finished then Brought(ps, want, objects, after)
      else objects == [] && if performed then Performed(ps, want, after) else after == ps
  {
    var want: nat := if max <= 0 then MAX_INT else max;
    if finished {
      objects, after := RunAndTake(state, want, c, ps);
    } else {
      objects, after := [], ps;
      if performed { after := Perform(state, want, c, ps); }
    }
  }

  /** Of two objects in a session the first cannot be read: the call for one object returns nothing, although the other
    * one is still ahead. */
  method ObjectMissed() returns (state: State, r: Option<Result>, ghost after: seq<Part>)
    ensures r == None && Chain([state], after) && AheadOf(after) != []
  {
    ghost var p;
    state, p := TwoObjects();
    r, after := Next(state, [state], [p]);
    Missed([p], r, after);
  }

  lemma Missed(ps: seq<Part>, r: Option<Result>, after: seq<Part>)
    requires Waiting(ps) == [] && AllStuck(ps) && Behind(ps) != [] && Served(ps, 1, AsBatch(r), after)
    ensures r == None && AheadOf(after) != []
  {
    NextMisses(ps);
    NextConserves(ps, 1);
  }

  /** A state for a session where two objects are found, the first one unreadable. */
  method TwoObjects() returns (state: State, ghost p: Part)
    ensures fresh(state) && Chain([state], [p]) && Waiting([p]) == [] && AllStuck([p]) && Behind([p]) != []
  {
    var defaults: Device := (session: nat, handle: nat) => if handle == 1 then None else Some(Attributes([]));
    var slot := Slot(0, Some(TokenInfo("")), None, Some([Batch([1, 2])]));
    state := new State.ForSession(Aim(UriData(false, None), Some(defaults)), slot, 7);
    p := state.At(state.handler);
    OneState(state, p);
    TwoFound(slot);
    SecondOnly(p);
  }

  lemma OneState(state: State, p: Part)
    requires Shown(state, p) && state.chained == null
    ensures Chain([state], [p])
  {
  }

  lemma TwoFound(slot: Slot)
    requires slot.search == Some([Batch([1, 2])])
    ensures Tagged(Handles(slot), 7) == [Result(1, 7, None), Result(2, 7, None)]
  {
    assert [Batch([1, 2])][1..] == [];
    assert [1, 2][1..] == [2] && [2][1..] == [];
  }

  /** A state that found two objects, the first one unreadable. */
  lemma SecondOnly(p: Part)
    requires p.results == [] && |p.finds| == 1 && |p.finds[0]| == 2
    requires !Readable(p.defaults, p.finds[0][0]) && Readable(p.defaults, p.finds[0][1])
    ensures Waiting([p]) == [] && AllStuck([p]) && Behind([p]) != []
  {
    var a, b := p.finds[0][0], p.finds[0][1];
    assert p.finds[1..] == [] && Flat(p.finds) == [a, b] + [] == [a, b];
    assert [a, b][1..] == [b];
    KeptOne(p.defaults, b);
    assert Kept(p.defaults, [a, b]) == Keep(p.defaults.value, a) + Kept(p.defaults, [b]);
    assert [p][1..] == [];
  }

  // ---------------------------------------------------------------- any calls, one after the other

  /** One call for a number of objects. */
  method OneCall(state: State, want: nat, ghost c: seq<State>, ghost ps: seq<Part>)
    returns (objects: seq<Result>, ghost after: seq<Part>)
    requires Chain(c, ps) && c[0] == state && want > 0
    modifies c`wantObjects, c`handler, c`modules, c`slots, c`slot, c`tokenInfo, c`funcs, c`session, c`found, c`results
    modifies c`heldModules, c`heldSlots, c`heldSessions
    ensures Chain(c, after) && Served(ps, want, objects, after)
  {
    if want == 1 {
      var r: Option<Result>;
      r, after := Next(state, c, ps);
      objects := AsBatch(r);
    } else {
      objects, after := NextN(state, want, c, ps);
    }
  }

  /** What some calls return, and the chain after them. */
  function Batches(ps: seq<Part>, wants: seq<nat>): (r: (seq<seq<Result>>, seq<Part>))
    ensures |r.0| == |wants|
    decreases |wants|
  {
    if wants == [] then ([], ps) else
    var init := |wants| - 1;
    var (batches, now) := Batches(ps, wants[..init]);
    var (objects, after) := NextBatch(now, wants[init]);
    (batches + [objects], after)
  }

  ghost predicate Called(ps: seq<Part>, wants: seq<nat>, batches: seq<seq<Result>>, after: seq<Part>) {
    Batches(ps, wants) == (batches, after)
  }

  lemma CalledMore(ps: seq<Part>, wants: seq<nat>, k: nat, batches: seq<seq<Result>>, now: seq<Part>,
    objects: seq<Result>, after: seq<Part>)
    requires k < |wants| && Called(ps, wants[..k], batches, now) && Served(now, wants[k], objects, after)
    ensures Called(ps, wants[..k + 1], batches + [objects], after)
  {
    assert wants[..k + 1][..k] == wants[..k];
  }

  /** Any calls for any numbers of objects, one after the other. */
  method AllCalls(state: State, wants: seq<nat>, ghost c: seq<State>, ghost ps: seq<Part>)
    returns (batches: seq<seq<Result>>, ghost after: seq<Part>)
    requires Chain(c, ps) && c[0] == state && forall k | 0 <= k < |wants| :: wants[k] > 0
    modifies c`wantObjects, c`handler, c`modules, c`slots, c`slot, c`tokenInfo, c`funcs, c`session, c`found, c`results
    modifies c`heldModules, c`heldSlots, c`heldSessions
    ensures Chain(c, after) && Called(ps, wants, batches, after)
  {
    batches, after := [], ps;
    var k := 0;
    while k < |wants|
      invariant k <= |wants| && Chain(c, after) && Called(ps, wants[..k], batches, after)
    {
      ghost var now := after;
      var objects: seq<Result>;
      objects, after := OneCall(state, wants[k], c, now);
      CalledMore(ps, wants, k, batches, now, objects, after);
      batches, k := batches + [objects], k + 1;
    }
    assert wants[..k] == wants;
  }

  /** Whatever the devices answer: no object is lost over any calls, and none is returned twice. */
  lemma {:induction false} CallsConserve(ps: seq<Part>, wants: seq<nat>)
    ensures var (batches, after) := Batches(ps, wants);
      multiset(AheadOf(ps)) == multiset(Flat(batches)) + multiset(AheadOf(after))
    decreases |wants|
  {
    if wants != [] {
      var init := |wants| - 1;
      var (batches, now) := Batches(ps, wants[..init]);
      CallsConserve(ps, wants[..init]);
      NextConserves(now, wants[init]);
      FlatMore(batches, NextBatch(now, wants[init]).0);
    }
  }

  /** When no state drops objects, any calls return the first of what was ahead, in order; and when the last one returns
    * nothing, they returned everything. */
  lemma {:induction false} CallsInOrder(ps: seq<Part>, wants: seq<nat>)
    requires Fair(ps) && forall k | 0 <= k < |wants| :: wants[k] > 0
    ensures var (batches, after) := Batches(ps, wants);
      && Fair(after) && Flat(batches) + AheadOf(after) == AheadOf(ps)
      && (wants != [] && batches[|wants| - 1] == [] ==> AheadOf(after) == [] && Flat(batches) == AheadOf(ps))
    decreases |wants|
  {
    if wants != [] {
      var init := |wants| - 1;
      var (batches, now) := Batches(ps, wants[..init]);
      CallsInOrder(ps, wants[..init]);
      NextKeepsPromise(now, wants[init]);
      var (objects, after) := NextBatch(now, wants[init]);
      FlatMore(batches, objects);
      Joined(Flat(batches), objects, AheadOf(after));
      if objects == [] { NothingBehind(Flat(batches + [objects]), AheadOf(after)); }
    }
  }

  // ---------------------------------------------------------------- which objects are returned

  /** Each state of a chain was made for the modules of a list. */
  ghost predicate MadeFor(ps: seq<Part>, aims: seq<Aim>, lists: seq<seq<Module>>) {
    && |aims| == |lists| == |ps|
    && forall i | 0 <= i < |ps| :: ps[i].Ahead() == OfModules(aims[i], lists[i])
  }

  /** Some slot that one of the states looks at offers the object. */
  ghost predicate OfferedToOne(aims: seq<Aim>, lists: seq<seq<Module>>, r: Result)
    requires |aims| == |lists|
  {
    exists i | 0 <= i < |aims| :: Offered(aims[i], lists[i], r)
  }

  lemma {:induction false} AheadOffered(ps: seq<Part>, aims: seq<Aim>, lists: seq<seq<Module>>, r: Result)
    requires MadeFor(ps, aims, lists)
    ensures r in AheadOf(ps) <==> OfferedToOne(aims, lists, r)
  {
    if ps != [] {
      OfferedExactly(aims[0], lists[0], r);
      AheadOffered(ps[1..], aims[1..], lists[1..], r);
      if i :| 0 <= i < |aims| && Offered(aims[i], lists[i], r) {
        assert i > 0 ==> aims[i] == aims[1..][i - 1] && lists[i] == lists[1..][i - 1];
      }
      if i :| 0 <= i < |aims[1..]| && Offered(aims[1..][i], lists[1..][i], r) {
        assert aims[1..][i] == aims[i + 1] && lists[1..][i] == lists[i + 1];
      }
    }
  }

  /** The last call, if there was one, returned nothing. */
  predicate Exhausted(wants: seq<nat>, batches: seq<seq<Result>>) {
    wants != [] && |batches| == |wants| && batches[|wants| - 1] == []
  }

  predicate AllPositive(wants: seq<nat>) { forall k | 0 <= k < |wants| :: wants[k] > 0 }

  /** Whatever the devices answer, any calls return only objects of slots whose token is asked for; when no state drops
    * objects and the last call returns nothing, they returned all of them. */
  lemma CallsOffered(ps: seq<Part>, aims: seq<Aim>, lists: seq<seq<Module>>, wants: seq<nat>, r: Result)
    requires MadeFor(ps, aims, lists)
    ensures r in Flat(Batches(ps, wants).0) ==> OfferedToOne(aims, lists, r)
    ensures Fair(ps) && AllPositive(wants) && Exhausted(wants, Batches(ps, wants).0) && OfferedToOne(aims, lists, r) ==>
      r in Flat(Batches(ps, wants).0)
  {
    var (batches, after) := Batches(ps, wants);
    AheadOffered(ps, aims, lists, r);
    CallsConserve(ps, wants);
    assert r in multiset(AheadOf(ps)) <==> r in multiset(Flat(batches)) + multiset(AheadOf(after));
    if Fair(ps) && AllPositive(wants) { CallsInOrder(ps, wants); }
  }

  /** What calls on some modules return: only objects that a slot offers; when none is dropped the first of them in the
    * order of the modules, and all of them once a call returned nothing. */
  ghost predicate Delivered(aim: Aim, list: seq<Module>, wants: seq<nat>, batches: seq<seq<Result>>) {
    && |batches| == |wants|
    && (forall r :: r in Flat(batches) ==> Offered(aim, list, r))
    && (Lossless(aim.defaults) ==> Flat(batches) <= OfModules(aim, list))
    && (Lossless(aim.defaults) && Exhausted(wants, batches) ==>
      forall r :: Offered(aim, list, r) ==> r in Flat(batches))
  }

  method OnModules(aim: Aim, list: seq<Module>) returns (state: State, ghost p: Part)
    ensures fresh(state) && Chain([state], [p]) && p.Ahead() == OfModules(aim, list) && p.defaults == aim.defaults
  {
    state := new State.ForModules(aim, list);
    p := state.At(state.handler);
    OneState(state, p);
  }

  /** Any calls on a new enumerator over some modules. */
  method CallsOnModules(aim: Aim, list: seq<Module>, wants: seq<nat>) returns (batches: seq<seq<Result>>)
    requires AllPositive(wants)
    ensures Delivered(aim, list, wants, batches)
  {
    var state;
    ghost var p, after;
    state, p := OnModules(aim, list);
    batches, after := AllCalls(state, wants, [state], [p]);
    OneDelivered(aim, list, p, wants, batches, after);
  }

  lemma OneDelivered(aim: Aim, list: seq<Module>, p: Part, wants: seq<nat>, batches: seq<seq<Result>>,
    after: seq<Part>)
    requires p.Ahead() == OfModules(aim, list) && p.defaults == aim.defaults
    requires AllPositive(wants) && Called([p], wants, batches, after)
    ensures Delivered(aim, list, wants, batches)
  {
    assert [p][1..] == [] && AheadOf([p]) == p.Ahead() + [] == p.Ahead();
    if Lossless(aim.defaults) { CallsInOrder([p], wants); }
    forall r ensures r in Flat(batches) ==> Offered(aim, list, r) {
      CallsOffered([p], [aim], [list], wants, r);
    }
    forall r | Offered(aim, list, r) ensures r in OfModules(aim, list) { OfferedExactly(aim, list, r); }
  }
}
