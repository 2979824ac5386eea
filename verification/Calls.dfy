/** Asynchronous calls, after gck/gck-call.c: where calls are, and who refers to them. */
module Calls {
  /** A result code; the values of the others do not matter here. */
  datatype Rv = Ok | Canceled | Failed(code: nat)

  /** A call object: its references, the result of the last time it was performed, and whether somebody waits for it. */
  datatype Call = Call(refs: nat, rv: Rv, callback: bool)

  /** What a thread is doing with a call: performing it; looking at its result; having taken a reference, about to
    * give it to the thread pool again; or about to give its own reference up. */
  datatype Stage = Idle | Running(call: nat) | Deciding(call: nat) | Pushing(call: nat) | Releasing(call: nat)

  function Occurs(s: seq<nat>, c: nat): nat {
    if s == [] then 0 else (if s[0] == c then 1 else 0) + Occurs(s[1..], c)
  }

  /** Whether a thread has the call in hand. */
  function Hand(t: Stage, c: nat): nat {
    match t
    case Running(d) => if d == c then 1 else 0
    case Deciding(d) => if d == c then 1 else 0
    case Pushing(d) => if d == c then 1 else 0
    case _ => 0
  }

  /** Whether a thread has a reference besides. */
  function Extra(t: Stage, c: nat): nat {
    match t
    case Pushing(d) => if d == c then 1 else 0
    case Releasing(d) => if d == c then 1 else 0
    case _ => 0
  }

  function Hands(threads: seq<Stage>, c: nat): nat {
    if threads == [] then 0 else Hand(threads[0], c) + Hands(threads[1..], c)
  }

  function Extras(threads: seq<Stage>, c: nat): nat {
    if threads == [] then 0 else Extra(threads[0], c) + Extras(threads[1..], c)
  }

  /** Where calls are: prepared, waiting in the thread pool, in the hands of threads, or completed; and references kept
    * elsewhere. */
  datatype Places = Places(prepared: seq<nat>, pool: seq<nat>, threads: seq<Stage>, queue: seq<nat>, kept: seq<nat>)

  /** In how many places a call is. */
  function Tokens(p: Places, c: nat): nat {
    Occurs(p.prepared, c) + Occurs(p.pool, c) + Hands(p.threads, c) + Occurs(p.queue, c)
  }

  /** How many references there are besides. */
  function Others(p: Places, c: nat): nat {
    Extras(p.threads, c) + Occurs(p.kept, c)
  }

  function RefsOf(calls: map<nat, Call>, c: nat): nat { if c in calls then calls[c].refs else 0 }

  function Flag(b: bool): nat { if b then 1 else 0 }

  /** Every reference has its holder, and a call is alive exactly while it has one. */
  ghost predicate Counted(calls: map<nat, Call>, p: Places) {
    (forall c | c in calls :: calls[c].refs > 0)
    && forall c: nat :: RefsOf(calls, c) == Tokens(p, c) + Others(p, c)
  }

  /** Every call that was made is in one place, or is done. */
  ghost predicate Placed(p: Places, done: set<nat>, next: nat) {
    forall c: nat :: Tokens(p, c) + Flag(c in done) == Flag(c < next)
  }

  /** Those who wait were called back once for every call that is done, and not for others; and nobody else was. */
  ghost predicate Answered(called: seq<nat>, done: set<nat>, waited: set<nat>) {
    forall c: nat :: Occurs(called, c) == Flag(c in done && c in waited)
  }

  // ---------------------------------------------------------------- counting

  lemma {:induction false} OccursJoined(a: seq<nat>, b: seq<nat>, c: nat)
    ensures Occurs(a + b, c) == Occurs(a, c) + Occurs(b, c)
  {
    if a == [] {
      assert a + b == b;
    } else {
      assert (a + b)[0] == a[0] && (a + b)[1..] == a[1..] + b;
      OccursJoined(a[1..], b, c);
    }
  }

  lemma OccursOne(d: nat, c: nat)
    ensures Occurs([d], c) == Flag(d == c)
  {
    assert [d][1..] == [];
  }

  lemma OccursMore(s: seq<nat>, d: nat, c: nat)
    ensures Occurs(s + [d], c) == Occurs(s, c) + Flag(d == c)
  {
    OccursJoined(s, [d], c);
    OccursOne(d, c);
  }

  function Without(s: seq<nat>, i: nat): seq<nat>
    requires i < |s|
  {
    s[..i] + s[i + 1..]
  }

  lemma OccursLess(s: seq<nat>, i: nat, c: nat)
    requires i < |s|
    ensures Occurs(s, c) == Occurs(Without(s, i), c) + Flag(s[i] == c)
  {
    assert s == s[..i] + ([s[i]] + s[i + 1..]);
    OccursJoined(s[..i], [s[i]] + s[i + 1..], c);
    OccursJoined([s[i]], s[i + 1..], c);
    OccursJoined(s[..i], s[i + 1..], c);
    OccursOne(s[i], c);
  }

  lemma {:induction false} ThreadPut(threads: seq<Stage>, t: nat, to: Stage, c: nat)
    requires t < |threads|
    ensures Hands(threads[t := to], c) + Hand(threads[t], c) == Hands(threads, c) + Hand(to, c)
    ensures Extras(threads[t := to], c) + Extra(threads[t], c) == Extras(threads, c) + Extra(to, c)
  {
    if t == 0 {
      assert threads[t := to][1..] == threads[1..];
    } else {
      ThreadPut(threads[1..], t - 1, to, c);
      assert threads[t := to][1..] == threads[1..][t - 1 := to];
    }
  }

  lemma {:induction false} OccursHere(s: seq<nat>, i: nat)
    requires i < |s|
    ensures Occurs(s, s[i]) > 0
  {
    if i > 0 { OccursHere(s[1..], i - 1); }
  }

  lemma {:induction false} InHand(threads: seq<Stage>, t: nat)
    requires t < |threads| && threads[t] != Idle
    ensures Hands(threads, threads[t].call) + Extras(threads, threads[t].call) > 0
    ensures !threads[t].Releasing? ==> Hands(threads, threads[t].call) > 0
  {
    if t > 0 { InHand(threads[1..], t - 1); }
  }

  // ---------------------------------------------------------------- what the counts mean

  ghost predicate Sound(calls: map<nat, Call>, p: Places, done: set<nat>, called: seq<nat>,
    waited: set<nat>, next: nat)
  {
    Counted(calls, p) && Placed(p, done, next) && Answered(called, done, waited) && Made(calls, waited, next)
  }

  ghost predicate Made(calls: map<nat, Call>, waited: set<nat>, next: nat) {
    (forall c | c in waited :: c < next) && forall c | c in calls :: c < next && (calls[c].callback <==> c in waited)
  }

  /** A call that waits in the thread pool or for its result to be processed, or that a thread has, is not finalized. */
  lemma AliveWhileQueued(calls: map<nat, Call>, p: Places, c: nat)
    requires Counted(calls, p)
    ensures c in p.pool || c in p.queue || c in p.prepared || c in p.kept ==> c in calls
    ensures forall t | 0 <= t < |p.threads| && p.threads[t] != Idle :: p.threads[t].call in calls
  {
    assert RefsOf(calls, c) == Tokens(p, c) + Others(p, c);
    if c in p.pool {
      var i :| 0 <= i < |p.pool| && p.pool[i] == c;
      OccursHere(p.pool, i);
    } else if c in p.queue {
      var i :| 0 <= i < |p.queue| && p.queue[i] == c;
      OccursHere(p.queue, i);
    } else if c in p.prepared {
      var i :| 0 <= i < |p.prepared| && p.prepared[i] == c;
      OccursHere(p.prepared, i);
    } else if c in p.kept {
      var i :| 0 <= i < |p.kept| && p.kept[i] == c;
      OccursHere(p.kept, i);
    }
    forall t | 0 <= t < |p.threads| && p.threads[t] != Idle ensures p.threads[t].call in calls {
      var d := p.threads[t].call;
      InHand(p.threads, t);
      assert RefsOf(calls, d) == Tokens(p, d) + Others(p, d);
    }
  }

  /** A call is in one place only: never twice in the pool or the queue, nor in both, nor there while a thread has
    * it. */
  lemma OnePlaceOnly(p: Places, done: set<nat>, next: nat, c: nat)
    requires Placed(p, done, next)
    ensures Occurs(p.pool, c) + Occurs(p.queue, c) + Hands(p.threads, c) <= 1
    ensures c in done ==> Occurs(p.pool, c) + Occurs(p.queue, c) + Hands(p.threads, c) == 0
  {
    assert Tokens(p, c) + Flag(c in done) == Flag(c < next);
  }

  /** A call that is finalized is done: it never goes away unanswered. */
  lemma FinalizedIsDone(calls: map<nat, Call>, p: Places, done: set<nat>, next: nat, c: nat)
    requires Counted(calls, p) && Placed(p, done, next) && c < next && c !in calls
    ensures c in done
  {
    assert RefsOf(calls, c) == Tokens(p, c) + Others(p, c);
    assert Tokens(p, c) + Flag(c in done) == Flag(c < next);
  }

  /** A call is called back exactly once when it is done and somebody waits for it, and never otherwise. */
  lemma CalledBack(called: seq<nat>, done: set<nat>, waited: set<nat>, c: nat)
    requires Answered(called, done, waited)
    ensures Occurs(called, c) <= 1 && (c in called <==> c in done && c in waited)
  {
    assert Occurs(called, c) == Flag(c in done && c in waited);
    OccursIn(called, c);
  }

  lemma {:induction false} OccursIn(s: seq<nat>, c: nat)
    ensures Occurs(s, c) > 0 <==> c in s
  {
    if s != [] {
      OccursIn(s[1..], c);
      assert s == [s[0]] + s[1..];
    }
  }

  /** Whoever waited for a call that is finalized was called back, and nobody else. */
  lemma FinalizedCalledBack(calls: map<nat, Call>, p: Places, done: set<nat>, called: seq<nat>, waited: set<nat>,
    next: nat, c: nat)
    requires Sound(calls, p, done, called, waited, next) && c < next && c !in calls
    ensures c in called <==> c in waited
  {
    FinalizedIsDone(calls, p, done, next, c);
    CalledBack(called, done, waited, c);
  }

  // ---------------------------------------------------------------- steps

  /** From some places to others: one call is in more or fewer places, and has more or fewer references besides. */
  ghost predicate Shift(p: Places, q: Places, c: nat, tokens: int, others: int) {
    forall d: nat :: Tokens(q, d) == Tokens(p, d) + (if d == c then tokens else 0)
      && Others(q, d) == Others(p, d) + (if d == c then others else 0)
  }

  ghost predicate RefsShift(calls: map<nat, Call>, after: map<nat, Call>, c: nat, diff: int) {
    (forall d | d in after :: after[d].refs > 0)
    && forall d: nat :: RefsOf(after, d) == RefsOf(calls, d) + if d == c then diff else 0
  }

  lemma CountedAfter(calls: map<nat, Call>, p: Places, after: map<nat, Call>, q: Places, c: nat, tokens: int,
    others: int)
    requires Counted(calls, p) && Shift(p, q, c, tokens, others) && RefsShift(calls, after, c, tokens + others)
    ensures Counted(after, q)
  {
    forall d: nat ensures RefsOf(after, d) == Tokens(q, d) + Others(q, d) {
      assert RefsOf(calls, d) == Tokens(p, d) + Others(p, d);
    }
  }

  lemma PlacedAfter(p: Places, q: Places, done: set<nat>, next: nat, c: nat, others: int)
    requires Placed(p, done, next) && Shift(p, q, c, 0, others)
    ensures Placed(q, done, next)
  {
    forall d: nat ensures Tokens(q, d) + Flag(d in done) == Flag(d < next) {
      assert Tokens(p, d) + Flag(d in done) == Flag(d < next);
    }
  }

  /** A call that leaves its place is done. */
  lemma PlacedDone(p: Places, q: Places, done: set<nat>, next: nat, c: nat, others: int)
    requires Placed(p, done, next) && Shift(p, q, c, -1, others)
    ensures c !in done && Placed(q, done + {c}, next)
  {
    assert Tokens(q, c) == Tokens(p, c) - 1;
    assert Tokens(p, c) + Flag(c in done) == Flag(c < next);
    forall d: nat ensures Tokens(q, d) + Flag(d in done + {c}) == Flag(d < next) {
      assert Tokens(p, d) + Flag(d in done) == Flag(d < next);
    }
  }

  /** It is answered if somebody waits for it. */
  lemma AnsweredDone(called: seq<nat>, done: set<nat>, waited: set<nat>, c: nat, callback: bool)
    requires Answered(called, done, waited) && c !in done && (callback <==> c in waited)
    ensures Answered(if callback then called + [c] else called, done + {c}, waited)
  {
    var after := if callback then called + [c] else called;
    forall d: nat ensures Occurs(after, d) == Flag(d in done + {c} && d in waited) {
      OccursMore(called, c, d);
      assert Occurs(called, d) == Flag(d in done && d in waited);
    }
  }

  /** Somebody may wait for a new call. */
  lemma AnsweredNew(called: seq<nat>, done: set<nat>, waited: set<nat>, c: nat)
    requires Answered(called, done, waited) && c !in done
    ensures Answered(called, done, waited + {c})
  {
    forall d: nat ensures Occurs(called, d) == Flag(d in done && d in waited + {c}) {
      assert Occurs(called, d) == Flag(d in done && d in waited);
    }
  }

  /** A new call is prepared. */
  lemma PlacedNew(p: Places, done: set<nat>, next: nat)
    requires Placed(p, done, next)
    ensures Placed(p.(prepared := p.prepared + [next]), done, next + 1)
  {
    var q := p.(prepared := p.prepared + [next]);
    forall d: nat ensures Tokens(q, d) + Flag(d in done) == Flag(d < next + 1) {
      OccursMore(p.prepared, next, d);
      assert Tokens(p, d) + Flag(d in done) == Flag(d < next);
    }
  }

  lemma ShiftNew(p: Places, c: nat)
    ensures Shift(p, p.(prepared := p.prepared + [c]), c, 1, 0)
  {
    forall d: nat ensures Occurs(p.prepared + [c], d) == Occurs(p.prepared, d) + Flag(c == d) {
      OccursMore(p.prepared, c, d);
    }
  }

  lemma ShiftGo(p: Places, i: nat, short: bool)
    requires i < |p.prepared|
    ensures var c := p.prepared[i]; var q := p.(prepared := Without(p.prepared, i));
      Shift(p, if short then q.(queue := p.queue + [c]) else q.(pool := p.pool + [c]), c, 0, 0)
  {
    var c := p.prepared[i];
    forall d: nat ensures Occurs(p.prepared, d) == Occurs(Without(p.prepared, i), d) + Flag(c == d)
      && Occurs(p.queue + [c], d) == Occurs(p.queue, d) + Flag(c == d)
        && Occurs(p.pool + [c], d) == Occurs(p.pool, d) + Flag(c == d)
    {
      OccursLess(p.prepared, i, d);
      OccursMore(p.queue, c, d);
      OccursMore(p.pool, c, d);
    }
  }

  /** What a thread goes over to; a call it takes from the front of the pool or the queue, or puts at their end, moves
    * with it. */
  lemma ShiftThread(p: Places, t: nat, to: Stage, c: nat, pool: seq<nat>, queue: seq<nat>, poolBy: int, queueBy: int)
    requires t < |p.threads|
    requires forall d: nat :: Occurs(pool, d) == Occurs(p.pool, d) + (if d == c then poolBy else 0)
    requires forall d: nat :: Occurs(queue, d) == Occurs(p.queue, d) + (if d == c then queueBy else 0)
    requires p.threads[t] == Idle || p.threads[t].call == c
    requires to == Idle || to.call == c
    ensures Shift(p, p.(threads := p.threads[t := to], pool := pool, queue := queue), c,
                  poolBy + queueBy + Hand(to, c) - Hand(p.threads[t], c), Extra(to, c) - Extra(p.threads[t], c))
  {
    forall d: nat
      ensures Hands(p.threads[t := to], d) + Hand(p.threads[t], d) == Hands(p.threads, d) + Hand(to, d)
      ensures Extras(p.threads[t := to], d) + Extra(p.threads[t], d) == Extras(p.threads, d) + Extra(to, d)
    {
      ThreadPut(p.threads, t, to, d);
    }
  }

  lemma ShiftKept(p: Places, kept: seq<nat>, c: nat, diff: int)
    requires forall d: nat :: Occurs(kept, d) == Occurs(p.kept, d) + (if d == c then diff else 0)
    ensures Shift(p, p.(kept := kept), c, 0, diff)
  {
  }

  /** A thread takes a call from the front, or puts one at the end. */
  lemma TakenFirst(s: seq<nat>)
    requires s != []
    ensures forall d: nat :: Occurs(s[1..], d) == Occurs(s, d) + (if d == s[0] then -1 else 0)
  {
  }

  lemma PutLast(s: seq<nat>, c: nat)
    ensures forall d: nat :: Occurs(s + [c], d) == Occurs(s, d) + (if d == c then 1 else 0)
  {
    forall d: nat ensures Occurs(s + [c], d) == Occurs(s, d) + (if d == c then 1 else 0) { OccursMore(s, c, d); }
  }

  lemma Unmoved(s: seq<nat>, c: nat)
    ensures forall d: nat :: Occurs(s, d) == Occurs(s, d) + (if d == c then 0 else 0)
  {
  }

  /** References go up by one, or down by one, and the last one finalizes the call. */
  function Refd(calls: map<nat, Call>, c: nat): map<nat, Call>
    requires c in calls
  {
    calls[c := calls[c].(refs := calls[c].refs + 1)]
  }

  function Unrefd(calls: map<nat, Call>, c: nat): map<nat, Call>
    requires c in calls
  {
    if calls[c].refs <= 1 then calls - {c} else calls[c := calls[c].(refs := calls[c].refs - 1)]
  }

  lemma RefdShift(calls: map<nat, Call>, c: nat)
    requires c in calls && forall d | d in calls :: calls[d].refs > 0
    ensures RefsShift(calls, Refd(calls, c), c, 1) && RefsShift(calls, Unrefd(calls, c), c, -1)
  {
  }

  function WithResult(calls: map<nat, Call>, c: nat, rv: Rv): map<nat, Call> {
    if c in calls then calls[c := calls[c].(rv := rv)] else calls
  }

  lemma MadeStill(calls: map<nat, Call>, waited: set<nat>, next: nat, c: nat)
    requires Made(calls, waited, next) && c in calls
    ensures Made(Refd(calls, c), waited, next) && Made(Unrefd(calls, c), waited, next)
  {
  }

  lemma ResultShift(calls: map<nat, Call>, c: nat, rv: Rv)
    requires c in calls && forall d | d in calls :: calls[d].refs > 0
    ensures RefsShift(calls, WithResult(calls, c, rv), c, 0) && RefsShift(calls, calls, c, 0)
  {
  }

  /** A new call is prepared: its maker holds the only reference, and somebody may wait for it. */
  lemma SoundNew(calls: map<nat, Call>, p: Places, done: set<nat>, called: seq<nat>, waited: set<nat>, next: nat,
    callback: bool)
    requires Sound(calls, p, done, called, waited, next)
    ensures Sound(calls[next := Call(1, Ok, callback)], p.(prepared := p.prepared + [next]), done, called,
                  if callback then waited + {next} else waited, next + 1)
  {
    var after := calls[next := Call(1, Ok, callback)];
    NotMadeYet(calls, p, done, next);
    ShiftNew(p, next);
    PlacedNew(p, done, next);
    assert RefsShift(calls, after, next, 1);
    CountedAfter(calls, p, after, p.(prepared := p.prepared + [next]), next, 1, 0);
    if callback { AnsweredNew(called, done, waited, next); }
  }

  // ---------------------------------------------------------------- no run is stuck

  /** Calls that are neither prepared only nor done. */
  ghost predicate UnderWay(p: Places) {
    p.pool != [] || p.queue != [] || exists t | 0 <= t < |p.threads| :: p.threads[t] != Idle
  }

  /** A thread that is busy can always go on; one that is idle can as long as something waits. */
  ghost predicate CanStep(p: Places) {
    exists t | 0 <= t < |p.threads| :: p.threads[t] != Idle || p.pool != [] || p.queue != []
  }

  lemma NotStuck(p: Places)
    requires p.threads != []
    ensures UnderWay(p) <==> CanStep(p)
  {
    if p.pool != [] || p.queue != [] {
      assert p.threads[0] != Idle || p.pool != [] || p.queue != [];
    }
  }

  // ---------------------------------------------------------------- how long a run can be

  function Weight(t: Stage): nat {
    match t
    case Idle => 0
    case Running(_) => 4
    case Deciding(_) => 2
    case Pushing(_) => 7
    case Releasing(_) => 1
  }

  function Weights(threads: seq<Stage>): nat {
    if threads == [] then 0 else Weight(threads[0]) + Weights(threads[1..])
  }

  /** How many steps the calls there are can take before they are all done, if no result is refused. */
  function Energy(p: Places): nat {
    6 * |p.prepared| + 5 * |p.pool| + 3 * |p.queue| + Weights(p.threads)
  }

  lemma {:induction false} WeightsPut(threads: seq<Stage>, t: nat, to: Stage)
    requires t < |threads|
    ensures Weights(threads[t := to]) + Weight(threads[t]) == Weights(threads) + Weight(to)
  {
    if t == 0 {
      assert threads[t := to][1..] == threads[1..];
    } else {
      WeightsPut(threads[1..], t - 1, to);
      assert threads[t := to][1..] == threads[1..][t - 1 := to];
    }
  }

  lemma {:induction false} WeightsZero(threads: seq<Stage>)
    ensures Weights(threads) == 0 <==> forall t | 0 <= t < |threads| :: threads[t] == Idle
  {
    if threads != [] {
      WeightsZero(threads[1..]);
      if Weights(threads) == 0 {
        forall t | 0 <= t < |threads| ensures threads[t] == Idle {
          if t > 0 { assert threads[t] == threads[1..][t - 1]; }
        }
      } else if threads[0] == Idle {
        var t :| 0 <= t < |threads[1..]| && threads[1..][t] != Idle;
        assert threads[t + 1] != Idle;
      }
    }
  }

  /** No energy is left exactly when no call is prepared or under way: then every call that was made is done. */
  lemma OutOfEnergy(p: Places, done: set<nat>, next: nat)
    requires Placed(p, done, next)
    ensures Energy(p) == 0 <==> p.prepared == [] && !UnderWay(p)
    ensures Energy(p) == 0 ==> forall c | 0 <= c < next :: c in done
  {
    WeightsZero(p.threads);
    if Energy(p) == 0 {
      forall c: nat | c < next ensures c in done {
        NoHands(p.threads, c);
        assert Tokens(p, c) + Flag(c in done) == Flag(c < next);
      }
    }
  }

  lemma {:induction false} NoHands(threads: seq<Stage>, c: nat)
    requires forall t | 0 <= t < |threads| :: threads[t] == Idle
    ensures Hands(threads, c) == 0
  {
    if threads != [] { NoHands(threads[1..], c); }
  }

  /** The steps there are: a call is made; a call goes on, or its result is refused; or only references kept elsewhere
    * change. */
  datatype Kind = Making | Working | Refusing | Aside

  /** What a step of each kind does to the energy. */
  ghost predicate Progress(kind: Kind, p: Places, q: Places) {
    match kind
    case Making => Energy(q) == Energy(p) + 6
    case Working => Energy(q) < Energy(p)
    case Refusing => Energy(q) == Energy(p) + 5
    case Aside => Energy(q) == Energy(p)
  }

  /** The places that a run goes through, by steps of these kinds. */
  ghost predicate Run(places: seq<Places>, kinds: seq<Kind>) {
    |places| == |kinds| + 1 && forall k | 0 <= k < |kinds| :: Progress(kinds[k], places[k], places[k + 1])
  }

  function Steps(kinds: seq<Kind>, kind: Kind): nat {
    if kinds == [] then 0 else Steps(kinds[..|kinds| - 1], kind) + Flag(kinds[|kinds| - 1] == kind)
  }

  /** A run has only as many steps as the calls there are, those it makes and the results that are refused allow,
    * besides those that are about references kept elsewhere. */
  lemma {:induction false} RunLength(places: seq<Places>, kinds: seq<Kind>)
    requires Run(places, kinds)
    ensures Steps(kinds, Working) + Steps(kinds, Refusing) + Energy(places[|kinds|])
      <= Energy(places[0]) + 6 * (Steps(kinds, Making) + Steps(kinds, Refusing))
    decreases |kinds|
  {
    if kinds != [] {
      var n := |kinds| - 1;
      RunLength(places[..n + 1], kinds[..n]);
      assert Progress(kinds[n], places[n], places[n + 1]);
    }
  }

  lemma {:induction false} AllIdle(threads: seq<Stage>, c: nat)
    requires forall t | 0 <= t < |threads| :: threads[t] == Idle
    ensures Hands(threads, c) == 0 && Extras(threads, c) == 0
  {
    if threads != [] { AllIdle(threads[1..], c); }
  }

  lemma NotMadeYet(calls: map<nat, Call>, p: Places, done: set<nat>, next: nat)
    requires Counted(calls, p) && Placed(p, done, next)
    ensures Tokens(p, next) == 0 && next !in done
  {
    assert Tokens(p, next) + Flag(next in done) == Flag(next < next);
  }
}
