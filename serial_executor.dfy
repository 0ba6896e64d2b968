/**
 * The serial executor (app/src/main/java/attinasi/org/opqueue/SerialExecutor.kt):
 * a FIFO of submitted runnables, each wrapped so that it calls
 * `scheduleNext` when it ends, and one active slot. It hands one wrapped
 * runnable at a time to the shared thread pool.
 *
 * The pool is modelled by a ghost log of what was handed to it
 * (`dispatched`) and a ghost count of how many of those have returned
 * (`finished`); a runnable returning is the event `RunnableFinished`.
 */
module Executor {
  import opened Wrappers

  /** The runnable `execute` builds around `body`: run it, and `scheduleNext` in `finally`. */
  datatype Chained<R> = Chained(body: R)

  /** The wrapped form of each submitted runnable, in order. */
  function Chain<R>(rs: seq<R>): (cs: seq<Chained<R>>)
    ensures |cs| == |rs|
    ensures forall i :: 0 <= i < |rs| ==> cs[i] == Chained(rs[i])
  {
    if rs == [] then [] else [Chained(rs[0])] + Chain(rs[1..])
  }

  class SerialExecutor<R> {
    var mTasks: seq<Chained<R>>
    var mActive: Option<Chained<R>>
    /** Every runnable passed to `execute`, in order. */
    ghost var submitted: seq<R>
    /** Every wrapped runnable handed to the pool, in order. */
    ghost var dispatched: seq<Chained<R>>
    /** How many dispatched runnables have returned; they return in dispatch order. */
    ghost var finished: nat

    /**
     * What was handed to the pool, followed by what waits, is exactly what
     * was submitted; at most one handed-over runnable has not returned, and
     * it is the one in `mActive`; an empty slot means nothing waits.
     */
    ghost predicate Valid()
      reads this
    {
      && dispatched + mTasks == Chain(submitted)
      && finished <= |dispatched| <= finished + 1
      && (mActive.Some? <==> |dispatched| == finished + 1)
      && (mActive.Some? ==> mActive.value == dispatched[finished])
      && (mActive.None? ==> mTasks == [])
    }

    /** The dispatched runnables that have not returned yet. */
    ghost function Running(): seq<Chained<R>>
      reads this
      requires finished <= |dispatched|
    {
      dispatched[finished..]
    }

    constructor ()
      ensures Valid() && submitted == [] && dispatched == [] && finished == 0
    {
      mTasks := [];
      mActive := None;
      submitted := [];
      dispatched := [];
      finished := 0;
    }

    /**
     * `execute(r)`: offers the wrapped runnable at the tail and, only when
     * the slot was empty, dispatches the head at once.
     */
    method Execute(r: R)
      requires Valid()
      modifies this
      ensures Valid()
      ensures submitted == old(submitted) + [r] && finished == old(finished)
      ensures old(mActive).None? ==> mActive == Some(Chained(r)) && dispatched == old(dispatched) + [Chained(r)]
      ensures old(mActive).Some? ==>
                (mActive == old(mActive) && dispatched == old(dispatched) && mTasks == old(mTasks) + [Chained(r)])
    {
      mTasks := mTasks + [Chained(r)];
      submitted := submitted + [r];
      assert Chain(submitted) == Chain(old(submitted)) + [Chained(r)];
      if mActive.None? {
        ScheduleNext();
      }
    }

    /**
     * `scheduleNext`: polls the head into `mActive`, or empties it when
     * nothing waits, and hands only a present runnable to the pool.
     */
    method ScheduleNext()
      modifies this
      ensures mActive == (if old(mTasks) == [] then None else Some(old(mTasks)[0]))
      ensures mTasks == (if old(mTasks) == [] then [] else old(mTasks)[1..])
      ensures dispatched == old(dispatched) + (if mActive.Some? then [mActive.value] else [])
      ensures submitted == old(submitted) && finished == old(finished)
    {
      if mTasks == [] {
        mActive := None;
      } else {
        mActive := Some(mTasks[0]);
        mTasks := mTasks[1..];
        dispatched := dispatched + [mActive.value];
      }
    }

    /**
     * A dispatched runnable `c` returns, normally or by throwing (`threw`):
     * its `finally` calls `scheduleNext` either way. The runnable that
     * returns is necessarily the one in `mActive`.
     */
    method RunnableFinished(c: Chained<R>, threw: bool)
      requires Valid()
      requires c in Running()
      modifies this
      ensures Valid()
      ensures old(mActive) == Some(c)
      ensures finished == old(finished) + 1 && submitted == old(submitted)
      ensures mActive == (if old(mTasks) == [] then None else Some(old(mTasks)[0]))
      ensures dispatched == old(dispatched) + (if mActive.Some? then [mActive.value] else [])
    {
      assert Running() == [dispatched[finished]];
      finished := finished + 1;
      ScheduleNext();
      assert dispatched + mTasks == old(dispatched) + old(mTasks);
    }
  }

  /** The runnables handed to the pool are the first ones submitted, in submission order. */
  lemma {:induction false} DispatchedIsPrefix<R>(e: SerialExecutor<R>)
    requires e.Valid()
    ensures |e.dispatched| <= |e.submitted|
    ensures forall i :: 0 <= i < |e.dispatched| ==> e.dispatched[i] == Chained(e.submitted[i])
  {
    assert |e.dispatched| + |e.mTasks| == |e.submitted|;
    forall i | 0 <= i < |e.dispatched|
      ensures e.dispatched[i] == Chained(e.submitted[i])
    {
      assert e.dispatched[i] == (e.dispatched + e.mTasks)[i];
    }
  }
}
