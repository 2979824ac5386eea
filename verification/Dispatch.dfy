/** The thread pool and the queue of completed calls of gck/gck-call.c, step by step, in any interleaving. */
module Dispatch {
  import opened Calls

  class CallClass {
    var calls: map<nat, Call>
    // How many calls were made; they are numbered in the order they were.
    var next: nat
    var prepared: seq<nat>
    var threadPool: seq<nat>
    var threads: seq<Stage>
    var completedQueue: seq<nat>
    // References that callers took for themselves.
    var kept: seq<nat>
    ghost var done: set<nat>
    ghost var called: seq<nat>
    // The calls that somebody waits for.
    ghost var waited: set<nat>

    ghost function Here(): Places
      reads this
    {
      Places(prepared, threadPool, threads, completedQueue, kept)
    }

    /** Every call made is in one place or done, its references are those of its holders, and it was answered exactly
      * once when it is done and somebody waits for it. */
    ghost predicate Valid()
      reads this
    {
      Sound(calls, Here(), done, called, waited, next)
    }

    constructor (n: nat)
      ensures Valid() && next == 0 && threads == seq(n, _ => Idle) && Energy(Here()) == 0
    {
      calls, next, prepared, threadPool, completedQueue, kept := map[], 0, [], [], [], [];
      threads := seq(n, _ => Idle);
      done, called, waited := {}, [], {};
      new;
      WeightsZero(threads);
      forall c: nat ensures Hands(threads, c) == 0 && Extras(threads, c) == 0 { AllIdle(threads, c); }
    }

    /** A new call: its maker holds the only reference. */
    method Prepare(callback: bool) returns (c: nat)
      requires Valid()
      modifies this`calls, this`next, this`prepared, this`waited
      ensures waited == if callback then old(waited) + {c} else old(waited)
      ensures Valid() && c == old(next) && next == c + 1 && calls == old(calls)[c := Call(1, Ok, callback)]
      ensures prepared == old(prepared) + [c] && Progress(Making, old(Here()), Here())
    {
      c := next;
      SoundNew(calls, Here(), done, called, waited, next, callback);
      waited := if callback then waited + {c} else waited;
      calls, next, prepared := calls[c := Call(1, Ok, callback)], next + 1, prepared + [c];
    }

    /** A prepared call is given to the thread pool. */
    method Go(i: nat)
      requires Valid() && i < |prepared|
      modifies this`prepared, this`threadPool
      ensures Valid() && threadPool == old(threadPool + [prepared[i]]) && prepared == old(Without(prepared, i))
      ensures Progress(Working, old(Here()), Here())
    {
      ghost var before := Here();
      var c := prepared[i];
      ShiftGo(before, i, false);
      prepared, threadPool := prepared[..i] + prepared[i + 1..], threadPool + [c];
      Moved(before, c);
    }

    /** A prepared call is completed without being performed. */
    method Short(i: nat, rv: Rv)
      requires Valid() && i < |prepared|
      modifies this`calls, this`prepared, this`completedQueue
      ensures Valid() && completedQueue == old(completedQueue + [prepared[i]]) && prepared == old(Without(prepared, i))
      ensures calls == WithResult(old(calls), old(prepared[i]), rv)
      ensures Progress(Working, old(Here()), Here())
    {
      ghost var before := Here();
      var c := prepared[i];
      AliveWhileQueued(calls, before, c);
      SetResult(c, rv);
      ShiftGo(before, i, true);
      prepared, completedQueue := prepared[..i] + prepared[i + 1..], completedQueue + [c];
      Moved(before, c);
    }

    /** A call moved from one place to another. */
    lemma Moved(before: Places, c: nat)
      requires Counted(calls, before) && Placed(before, done, next) && Answered(called, done, waited)
      requires Made(calls, waited, next)
      requires Shift(before, Here(), c, 0, 0)
      ensures Valid()
    {
      assert RefsShift(calls, calls, c, 0);
      CountedAfter(calls, before, calls, Here(), c, 0, 0);
      PlacedAfter(before, Here(), done, next, c, 0);
    }

    method SetResult(c: nat, rv: Rv)
      requires Valid() && c in calls
      modifies this`calls
      ensures Valid() && calls == WithResult(old(calls), c, rv)
    {
      ResultShift(calls, c, rv);
      assert Shift(Here(), Here(), c, 0, 0);
      CountedAfter(calls, Here(), WithResult(calls, c, rv), Here(), c, 0, 0);
      calls := calls[c := calls[c].(rv := rv)];
    }

    // ---------------------------------------------------------------- the threads of the pool

    /** A thread takes the first call that waits. */
    method StartWork(t: nat)
      requires Valid() && t < |threads| && threads[t] == Idle && threadPool != []
      modifies this`threads, this`threadPool
      ensures Valid() && threads == old(threads[t := Running(threadPool[0])]) && threadPool == old(threadPool[1..])
      ensures Progress(Working, old(Here()), Here())
    {
      ghost var before := Here();
      var c := threadPool[0];
      TakenFirst(threadPool);
      ShiftThread(before, t, Running(c), c, threadPool[1..], completedQueue, -1, 0);
      WeightsPut(threads, t, Running(c));
      threads, threadPool := threads[t := Running(c)], threadPool[1..];
      Moved(before, c);
    }

    /** The call was performed, or was canceled before: its result goes to the queue with it. */
    method FinishWork(t: nat, rv: Rv)
      requires Valid() && t < |threads| && threads[t].Running?
      modifies this`calls, this`threads, this`completedQueue
      ensures Valid() && threads == old(threads)[t := Idle] && completedQueue == old(completedQueue + [threads[t].call])
      ensures calls == WithResult(old(calls), old(threads[t].call), rv)
      ensures Progress(Working, old(Here()), Here())
    {
      ghost var before := Here();
      var c := threads[t].call;
      AliveWhileQueued(calls, before, c);
      SetResult(c, rv);
      PutLast(completedQueue, c);
      ShiftThread(before, t, Idle, c, threadPool, completedQueue + [c], 0, 1);
      WeightsPut(threads, t, Idle);
      threads, completedQueue := threads[t := Idle], completedQueue + [c];
      Moved(before, c);
    }

    // ---------------------------------------------------------------- processing completed calls

    /** A thread takes the first completed call, if there is one. */
    method Pop(t: nat) returns (some: bool)
      requires Valid() && t < |threads| && threads[t] == Idle
      modifies this`threads, this`completedQueue
      ensures Valid() && some == (old(completedQueue) != [])
      ensures some ==>
        threads == old(threads[t := Deciding(completedQueue[0])]) && completedQueue == old(completedQueue[1..])
      ensures Progress(if some then Working else Aside, old(Here()), Here())
      ensures !some ==> threads == old(threads) && completedQueue == []
    {
      if completedQueue == [] { return false; }
      ghost var before := Here();
      var c := completedQueue[0];
      TakenFirst(completedQueue);
      ShiftThread(before, t, Deciding(c), c, threadPool, completedQueue[1..], 0, -1);
      WeightsPut(threads, t, Deciding(c));
      threads, completedQueue := threads[t := Deciding(c)], completedQueue[1..];
      Moved(before, c);
      return true;
    }

    /** The completed call is looked at. When it was canceled, or when nobody refuses its result, it is done and
      * answered;
      * otherwise a reference is taken, to perform it again. */
    method Decide(t: nat, cancelled: bool, satisfied: bool)
      requires Valid() && t < |threads| && threads[t].Deciding?
      modifies this`calls, this`threads, this`done, this`called
      ensures Valid()
      ensures if cancelled || satisfied then
          AnswersWith(old(calls), old(threads), old(called), old(done), t, cancelled)
        else
          threads == old(threads)[t := Pushing(old(threads[t].call))] && done == old(done) && called == old(called)
      ensures Progress(if cancelled || satisfied then Working else Refusing, old(Here()), Here())
    {
      var c := threads[t].call;
      AliveWhileQueued(calls, Here(), c);
      if cancelled { SetResult(c, Canceled); }
      if !cancelled && !satisfied {
        Again(t, c);
      } else {
        Answer(t, c);
      }
    }

    /** Done, and answered if somebody waits for it. */
    ghost predicate AnswersWith(before: map<nat, Call>, threads0: seq<Stage>, called0: seq<nat>, done0: set<nat>,
      t: nat, cancelled: bool)
      requires t < |threads0| && threads0[t].Deciding?
      reads this
    {
      var c := threads0[t].call;
      threads == threads0[t := Releasing(c)] && c !in done0 && done == done0 + {c} && c in before
      && called == (if before[c].callback then called0 + [c] else called0)
      && calls == if cancelled then WithResult(before, c, Canceled) else before
    }

    method Again(t: nat, c: nat)
      requires Valid() && t < |threads| && threads[t] == Deciding(c) && c in calls
      modifies this`calls, this`threads
      ensures Valid() && threads == old(threads)[t := Pushing(c)] && calls == Refd(old(calls), c)
      ensures Progress(Refusing, old(Here()), Here())
    {
      ghost var before, calls0 := Here(), calls;
      RefdShift(calls, c);
      Unmoved(threadPool, c);
      ShiftThread(before, t, Pushing(c), c, threadPool, completedQueue, 0, 0);
      WeightsPut(threads, t, Pushing(c));
      calls, threads := calls[c := calls[c].(refs := calls[c].refs + 1)], threads[t := Pushing(c)];
      CountedAfter(calls0, before, calls, Here(), c, 0, 1);
      PlacedAfter(before, Here(), done, next, c, 1);
    }

    method Answer(t: nat, c: nat)
      requires Valid() && t < |threads| && threads[t] == Deciding(c) && c in calls
      modifies this`threads, this`done, this`called
      ensures Valid() && threads == old(threads)[t := Releasing(c)] && c !in old(done) && done == old(done) + {c}
      ensures called == if calls[c].callback then old(called) + [c] else old(called)
      ensures Progress(Working, old(Here()), Here())
    {
      ghost var before := Here();
      ShiftThread(before, t, Releasing(c), c, threadPool, completedQueue, 0, 0);
      WeightsPut(threads, t, Releasing(c));
      threads := threads[t := Releasing(c)];
      assert RefsShift(calls, calls, c, 0);
      CountedAfter(calls, before, calls, Here(), c, -1, 1);
      PlacedDone(before, Here(), done, next, c, 1);
      AnsweredDone(called, done, waited, c, calls[c].callback);
      done := done + {c};
      called := if calls[c].callback then called + [c] else called;
    }

    /** The call that is to be performed again goes to the thread pool. */
    method Push(t: nat)
      requires Valid() && t < |threads| && threads[t].Pushing?
      modifies this`threads, this`threadPool
      ensures Valid() && threads == old(threads[t := Releasing(threads[t].call)])
      ensures threadPool == old(threadPool + [threads[t].call])
      ensures Progress(Working, old(Here()), Here())
    {
      ghost var before := Here();
      var c := threads[t].call;
      PutLast(threadPool, c);
      ShiftThread(before, t, Releasing(c), c, threadPool + [c], completedQueue, 1, 0);
      WeightsPut(threads, t, Releasing(c));
      threads, threadPool := threads[t := Releasing(c)], threadPool + [c];
      Moved(before, c);
    }

    /** The reference that came with the completed call is given up: the last one finalizes it. */
    method Release(t: nat)
      requires Valid() && t < |threads| && threads[t].Releasing?
      modifies this`calls, this`threads
      ensures Valid() && threads == old(threads)[t := Idle]
      ensures old(threads[t].call) in old(calls) && calls == Unrefd(old(calls), old(threads[t].call))
      ensures Progress(Working, old(Here()), Here())
    {
      ghost var before, calls0 := Here(), calls;
      var c := threads[t].call;
      AliveWhileQueued(calls, before, c);
      ShiftThread(before, t, Idle, c, threadPool, completedQueue, 0, 0);
      WeightsPut(threads, t, Idle);
      threads := threads[t := Idle];
      Unref(c);
      GivenUp(before, calls0, c);
    }

    /** A reference besides was given up. */
    lemma GivenUp(before: Places, calls0: map<nat, Call>, c: nat)
      requires Sound(calls0, before, done, called, waited, next) && c in calls0
      requires calls == Unrefd(calls0, c) && Shift(before, Here(), c, 0, -1)
      ensures Valid()
    {
      MadeStill(calls0, waited, next, c);
      RefdShift(calls0, c);
      CountedAfter(calls0, before, calls, Here(), c, 0, -1);
      PlacedAfter(before, Here(), done, next, c, -1);
    }

    method Unref(c: nat)
      requires c in calls
      modifies this`calls
      ensures calls == Unrefd(old(calls), c)
    {
      if calls[c].refs <= 1 {
        calls := calls - {c};
      } else {
        calls := calls[c := calls[c].(refs := calls[c].refs - 1)];
      }
    }

    /** process_completed: one completed call is processed from the queue to the end. */
    method ProcessCompleted(t: nat, cancelled: bool, satisfied: bool) returns (some: bool)
      requires Valid() && t < |threads| && threads[t] == Idle
      modifies this`calls, this`threads, this`completedQueue, this`threadPool, this`done, this`called
      ensures Valid() && threads == old(threads) && some == (old(completedQueue) != [])
      ensures completedQueue == if some then old(completedQueue)[1..] else []
      ensures done == if some && (cancelled || satisfied) then old(done) + {old(completedQueue)[0]} else old(done)
      ensures threadPool == old(threadPool) + if some && !cancelled && !satisfied then [old(completedQueue)[0]] else []
    {
      some := Pop(t);
      if some {
        Decide(t, cancelled, satisfied);
        if threads[t].Pushing? { Push(t); }
        Release(t);
      }
      assert threads == old(threads);
    }

    /** _gck_call_async_go: first one completed call is processed, to keep things balanced, and then a prepared one is
      * given to the thread pool. */
    method AsyncGo(t: nat, i: nat, cancelled: bool, satisfied: bool)
      requires Valid() && t < |threads| && threads[t] == Idle && i < |prepared|
      modifies this`calls, this`threads, this`completedQueue, this`threadPool, this`done, this`called, this`prepared
      ensures Valid() && threads == old(threads) && prepared == old(Without(prepared, i))
      ensures completedQueue == if old(completedQueue) == [] then [] else old(completedQueue)[1..]
      ensures var first := if old(completedQueue) == [] || cancelled || satisfied then [] else [old(completedQueue)[0]];
        threadPool == old(threadPool) + first + [old(prepared[i])]
    {
      var some := ProcessCompleted(t, cancelled, satisfied);
      Go(i);
    }

    // ---------------------------------------------------------------- other references

    /** Whoever sees a call may keep a reference to it. */
    method Keep(c: nat)
      requires Valid() && c in calls
      modifies this`calls, this`kept
      ensures Valid() && kept == old(kept) + [c] && calls == Refd(old(calls), c) && Progress(Aside, old(Here()), Here())
    {
      ghost var before, calls0 := Here(), calls;
      RefdShift(calls, c);
      PutLast(kept, c);
      ShiftKept(before, kept + [c], c, 1);
      calls, kept := calls[c := calls[c].(refs := calls[c].refs + 1)], kept + [c];
      CountedAfter(calls0, before, calls, Here(), c, 0, 1);
      PlacedAfter(before, Here(), done, next, c, 1);
    }

    /** And gives it up again. */
    method Drop()
      requires Valid() && kept != []
      modifies this`calls, this`kept
      ensures Valid() && kept == old(kept[1..]) && old(kept[0]) in old(calls)
      ensures calls == Unrefd(old(calls), old(kept[0]))
      ensures Progress(Aside, old(Here()), Here())
    {
      ghost var before, calls0 := Here(), calls;
      var c := kept[0];
      AliveWhileQueued(calls, before, c);
      TakenFirst(kept);
      ShiftKept(before, kept[1..], c, -1);
      kept := kept[1..];
      Unref(c);
      GivenUp(before, calls0, c);
    }
  }
}
