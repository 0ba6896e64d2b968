/**
 * Properties of the registry's transitions (module Registry), over
 * sequences of events: what a run of `add` calls leaves behind, the order
 * in which `onComplete` reaches operations, what `removeTask` and the
 * handlers take out of the registry, and what `scheduleNext`'s unchecked
 * overwrite of the active slot costs.
 */
module RegistryProperties {
  import opened Wrappers
  import opened Operations
  import opened Tasks
  import opened Registry

  /** Position `i` of `s` with position `k` taken out. */
  lemma WithoutAt<T>(s: seq<T>, k: nat, i: nat)
    requires k < |s| && i < |s| - 1
    ensures (s[..k] + s[k + 1..])[i] == s[if i < k then i else i + 1]
  {
  }

  /** Taking a position out keeps identifiers unique and keeps only held tasks. */
  lemma {:induction false} UniqueWithout(s: seq<OperationTask>, k: nat)
    requires k < |s| && UniqueIds(s)
    ensures UniqueIds(s[..k] + s[k + 1..])
    ensures forall u :: u in s[..k] + s[k + 1..] ==> u in s && IdOf(u) != IdOf(s[k])
  {
    var r := s[..k] + s[k + 1..];
    forall i, j | 0 <= i < j < |r|
      ensures IdOf(r[i]) != IdOf(r[j])
    {
      WithoutAt(s, k, i);
      WithoutAt(s, k, j);
    }
    WithoutKeepsOthers(s, k);
    forall u | u in r
      ensures IdOf(u) != IdOf(s[k])
    {
      var i :| 0 <= i < |r| && r[i] == u;
      WithoutAt(s, k, i);
    }
  }

  /** A suffix of a sequence with unique identifiers has unique identifiers. */
  lemma UniqueSuffix(s: seq<OperationTask>, k: nat)
    requires k <= |s| && UniqueIds(s)
    ensures UniqueIds(s[k..])
  {
    forall i, j | 0 <= i < j < |s| - k
      ensures IdOf(s[k..][i]) != IdOf(s[k..][j])
    {
      assert s[k..][i] == s[k + i] && s[k..][j] == s[k + j];
    }
  }

  // ---------------------------------------------------------------------
  // `add`

  /** `add` of each task of `ts` in turn. */
  function AddAll(q: Queue, ts: seq<OperationTask>): Queue
    decreases |ts|
  {
    if ts == [] then q else AddAll(AfterAdd(q, ts[0]), ts[1..])
  }

  /** Adds append at the tail in call order, never change a present active task, and leave one active. */
  lemma {:induction false} AddAllAppends(q: Queue, ts: seq<OperationTask>)
    ensures Held(AddAll(q, ts)) == Held(q) + ts
    ensures q.active.Some? ==> AddAll(q, ts).active == q.active
    ensures ts != [] ==> AddAll(q, ts).active.Some?
    decreases |ts|
  {
    if ts != [] {
      var q1 := AfterAdd(q, ts[0]);
      AddAllAppends(q1, ts[1..]);
      assert Held(q) + ts == Held(q1) + ts[1..];
    }
  }

  /**
   * One add to an empty registry gives count 1 and nothing pending; further
   * adds all wait behind it (the instrumented test adds 100 more and asserts
   * count 101, 100 pending).
   */
  lemma AddsToEmptyRegistry(first: OperationTask, more: seq<OperationTask>)
    ensures var q1 := AfterAdd(Empty, first);
            |Held(q1)| == 1 && q1.pending == [] && q1.active == Some(first)
    ensures var q := AddAll(AfterAdd(Empty, first), more);
            |Held(q)| == 1 + |more| && q.pending == more && q.active == Some(first)
  {
    var q1 := AfterAdd(Empty, first);
    assert Held(q1) == [first];
    AddAllAppends(q1, more);
    var q := AddAll(q1, more);
    assert Held(q)[1..] == q.pending;
    assert Held(q)[1..] == more;
  }

  /** `add` of a task whose identifier is not yet held keeps the identifiers unique. */
  lemma AddKeepsUnique(q: Queue, t: OperationTask)
    requires UniqueIds(Held(q))
    requires forall u :: u in Held(q) ==> IdOf(u) != IdOf(t)
    ensures UniqueIds(Held(AfterAdd(q, t)))
  {
    var h := Held(q);
    forall i | 0 <= i < |h|
      ensures IdOf((h + [t])[i]) != IdOf(t)
    {
      assert (h + [t])[i] == h[i] && h[i] in h;
    }
  }

  // ---------------------------------------------------------------------
  // Completion order

  /** What reaches the registry: an `add`, or a task's `onPostExecute` with a non-null result. */
  datatype Event = Submit(task: OperationTask) | PostExecute(task: OperationTask, result: Result)

  function Step(q: Queue, e: Event): Queue
  {
    match e
    case Submit(t) => AfterAdd(q, t)
    case PostExecute(_, _) => AfterScheduleNext(q)
  }

  function StepDelivery(q: Queue, e: Event): seq<Completion>
  {
    match e
    case Submit(_) => []
    case PostExecute(t, res) => Delivery(q, t, Some(res))
  }

  /** The registry after the events `es`. */
  function Replay(q: Queue, es: seq<Event>): Queue
    decreases |es|
  {
    if es == [] then q else Replay(Step(q, es[0]), es[1..])
  }

  /** The `onComplete` calls the events `es` make, in order. */
  function Log(q: Queue, es: seq<Event>): seq<Completion>
    decreases |es|
  {
    if es == [] then [] else StepDelivery(q, es[0]) + Log(Step(q, es[0]), es[1..])
  }

  /** Every `onPostExecute` in `es` is that of the task active at that moment (no cancellation). */
  ghost predicate Serial(q: Queue, es: seq<Event>)
    decreases |es|
  {
    es == [] ||
    ((es[0].PostExecute? ==> q.active == Some(es[0].task)) && Serial(Step(q, es[0]), es[1..]))
  }

  function Submitted(es: seq<Event>): seq<OperationTask>
  {
    if es == [] then [] else (if es[0].Submit? then [es[0].task] else []) + Submitted(es[1..])
  }

  function Ops(ts: seq<OperationTask>): seq<Operation>
  {
    if ts == [] then [] else [ts[0].operation] + Ops(ts[1..])
  }

  function CompletedOps(cs: seq<Completion>): seq<Operation>
  {
    if cs == [] then [] else [cs[0].operation] + CompletedOps(cs[1..])
  }

  lemma {:induction false} OpsAppend(a: seq<OperationTask>, b: seq<OperationTask>)
    ensures Ops(a + b) == Ops(a) + Ops(b)
  {
    if a != [] {
      assert (a + b)[1..] == a[1..] + b;
      OpsAppend(a[1..], b);
    } else {
      assert a + b == b;
    }
  }

  lemma {:induction false} CompletedOpsAppend(a: seq<Completion>, b: seq<Completion>)
    ensures CompletedOps(a + b) == CompletedOps(a) + CompletedOps(b)
  {
    if a != [] {
      assert (a + b)[1..] == a[1..] + b;
      CompletedOpsAppend(a[1..], b);
    } else {
      assert a + b == b;
    }
  }

  /** The active task is what `getTask` finds for its own identifier. */
  lemma ActiveFoundFirst(q: Queue)
    requires q.active.Some?
    ensures Lookup(q, IdOf(q.active.value)) == q.active
  {
    assert Held(q)[0] == q.active.value;
  }

  /**
   * AsyncTask's side of the protocol: `onPostExecute` fires only for a task
   * that was handed to the serial executor and has not posted yet. `out`
   * holds those tasks.
   */
  ghost predicate Env(q: Queue, out: multiset<OperationTask>, es: seq<Event>)
    decreases |es|
  {
    es == [] ||
    ((es[0].PostExecute? ==> es[0].task in out) && Env(Step(q, es[0]), NextOut(q, out, es[0]), es[1..]))
  }

  /** The outstanding tasks after one event: a post retires its task, both events add what they hand over. */
  function NextOut(q: Queue, out: multiset<OperationTask>, e: Event): multiset<OperationTask>
  {
    match e
    case Submit(_) => out + multiset(StepHanded(q, e))
    case PostExecute(t, _) => out - multiset{t} + multiset(StepHanded(q, e))
  }

  /** The only outstanding task is the active one. */
  ghost predicate Outstanding(q: Queue, out: multiset<OperationTask>)
  {
    out == multiset(if q.active.Some? then [q.active.value] else [])
  }

  /** Each event keeps the active task the only outstanding one. */
  lemma StepKeepsOutstanding(q: Queue, out: multiset<OperationTask>, e: Event)
    requires Outstanding(q, out)
    requires e.PostExecute? ==> e.task in out
    ensures Outstanding(Step(q, e), NextOut(q, out, e))
    ensures e.PostExecute? ==> q.active == Some(e.task)
  {
    match e
    case Submit(t) =>
      if q.active.None? {
        assert (q.pending + [t])[0] == Held(AfterAdd(q, t))[0];
      }
    case PostExecute(t, _) =>
      assert q.active == Some(t);
      assert out - multiset{t} == multiset{};
  }

  /**
   * Without cancellation, the registry delivers `onPostExecute` only to its
   * active task: with the active task the only outstanding one, every post
   * AsyncTask can make is the active task's.
   */
  lemma {:induction false} EnvIsSerial(q: Queue, out: multiset<OperationTask>, es: seq<Event>)
    requires Outstanding(q, out) && Env(q, out, es)
    ensures Serial(q, es)
    decreases |es|
  {
    if es != [] {
      StepKeepsOutstanding(q, out, es[0]);
      EnvIsSerial(Step(q, es[0]), NextOut(q, out, es[0]), es[1..]);
    }
  }

  /**
   * Without cancellation, the operations that have received `onComplete`,
   * followed by those still held, are the ones held at the start followed
   * by the ones added since, in order: operations complete in the order
   * they were added.
   */
  lemma {:induction false} CompletionsFollowSubmissions(q: Queue, es: seq<Event>)
    requires Serial(q, es)
    ensures CompletedOps(Log(q, es)) + Ops(Held(Replay(q, es))) == Ops(Held(q)) + Ops(Submitted(es))
    decreases |es|
  {
    if es != [] {
      var e, rest := es[0], es[1..];
      var q1 := Step(q, e);
      assert Log(q, es) == StepDelivery(q, e) + Log(q1, rest);
      assert Replay(q, es) == Replay(q1, rest);
      CompletionsFollowSubmissions(q1, rest);
      CompletedOpsAppend(StepDelivery(q, e), Log(q1, rest));
      StepKeepsOrder(q, e);
      var added := if e.Submit? then [e.task] else [];
      assert Submitted(es) == added + Submitted(rest);
      OpsAppend(added, Submitted(rest));
      Regroup(CompletedOps(StepDelivery(q, e)), CompletedOps(Log(q1, rest)), Ops(Held(Replay(q1, rest))),
              Ops(Held(q1)), Ops(Submitted(rest)), Ops(Held(q)), Ops(added));
    } else {
      assert CompletedOps(Log(q, es)) == [] && Ops(Submitted(es)) == [];
    }
  }

  /** Helper: regrouping the two induction steps' concatenations (associativity of `+`). */
  lemma Regroup<T>(d: seq<T>, l: seq<T>, h: seq<T>, h1: seq<T>, s: seq<T>, h0: seq<T>, a: seq<T>)
    requires l + h == h1 + s && d + h1 == h0 + a
    ensures (d + l) + h == h0 + (a + s)
  {
    calc {
      (d + l) + h;
      d + (l + h);
      d + (h1 + s);
      (d + h1) + s;
      (h0 + a) + s;
    }
  }

  /** One event moves operations from the held sequence to the completed ones, or appends one. */
  lemma StepKeepsOrder(q: Queue, e: Event)
    requires e.PostExecute? ==> q.active == Some(e.task)
    ensures CompletedOps(StepDelivery(q, e)) + Ops(Held(Step(q, e)))
            == Ops(Held(q)) + Ops(if e.Submit? then [e.task] else [])
  {
    match e
    case Submit(t) =>
      OpsAppend(Held(q), [t]);
    case PostExecute(t, res) =>
      ActiveFoundFirst(q);
      assert StepDelivery(q, e) == [Completion(t.operation, res)];
      assert Held(q) == [t] + q.pending;
      OpsAppend([t], q.pending);
  }

  /**
   * The instrumented scenario: once the registry has drained (`count()`
   * is 0), every added operation has received `onComplete`, in the order
   * the operations were added.
   */
  lemma DrainedInSubmissionOrder(es: seq<Event>)
    requires Env(Empty, multiset{}, es)
    requires |Held(Replay(Empty, es))| == 0
    ensures CompletedOps(Log(Empty, es)) == Ops(Submitted(es))
  {
    EnvIsSerial(Empty, multiset{}, es);
    CompletionsFollowSubmissions(Empty, es);
    assert Held(Replay(Empty, es)) == [] && Held(Empty) == [];
    assert Ops([]) == [];
    assert CompletedOps(Log(Empty, es)) + [] == CompletedOps(Log(Empty, es));
    assert [] + Ops(Submitted(es)) == Ops(Submitted(es));
  }

  /**
   * The tasks one event hands to the serial executor: `add` promotes only
   * when no task is active, `onPostExecute` always ends in `scheduleNext`.
   */
  function StepHanded(q: Queue, e: Event): seq<OperationTask>
  {
    match e
    case Submit(t) => AddHands(q, t)
    case PostExecute(_, _) => Handed(q)
  }

  /** The tasks the events `es` hand to the serial executor, in order. */
  function HandedLog(q: Queue, es: seq<Event>): seq<OperationTask>
    decreases |es|
  {
    if es == [] then [] else StepHanded(q, es[0]) + HandedLog(Step(q, es[0]), es[1..])
  }

  /**
   * Without cancellation, the tasks handed to the executor, followed by
   * those still pending, are the ones pending at the start followed by the
   * ones added since: tasks become active in the order they were added,
   * whichever task's `onPostExecute` fires.
   */
  lemma {:induction false} HandedInSubmissionOrder(q: Queue, es: seq<Event>)
    ensures HandedLog(q, es) + Replay(q, es).pending == q.pending + Submitted(es)
    decreases |es|
  {
    if es == [] {
      assert HandedLog(q, es) == [] && Submitted(es) == [];
    } else {
      var e, rest := es[0], es[1..];
      var q1 := Step(q, e);
      HandedInSubmissionOrder(q1, rest);
      var added := if e.Submit? then [e.task] else [];
      assert Submitted(es) == added + Submitted(rest);
      assert StepHanded(q, e) + q1.pending == q.pending + added;
      Regroup(StepHanded(q, e), HandedLog(q1, rest), Replay(q1, rest).pending,
              q1.pending, Submitted(rest), q.pending, added);
    }
  }

  // ---------------------------------------------------------------------
  // `removeTask`, `scheduleNext` and the handlers

  /**
   * With unique identifiers, `removeTask(id)` takes out the one task with
   * that identifier, if there is one, keeps every other task, and `getTask`
   * no longer finds the identifier.
   */
  lemma RemovedIsGone(q: Queue, id: string)
    requires UniqueIds(Held(q))
    ensures var r := AfterRemove(q, id);
            && Lookup(r, id).None?
            && |Held(r)| == |Held(q)| - (if Lookup(q, id).Some? then 1 else 0)
            && UniqueIds(Held(r))
            && forall u :: u in Held(r) ==> u in Held(q) && IdOf(u) != id
  {
    var r := AfterRemove(q, id);
    match FindFirst(Held(q), id)
    case None =>
    case Some(k) =>
      UniqueWithout(Held(q), k);
  }

  /**
   * `scheduleNext` while a task is active takes that task out of the
   * registry, although it has not finished: count drops by one.
   */
  lemma ScheduleNextDropsActive(q: Queue)
    requires q.active.Some? && UniqueIds(Held(q))
    ensures q.active.value !in Held(AfterScheduleNext(q))
    ensures |Held(AfterScheduleNext(q))| == |Held(q)| - 1
  {
    assert Held(q) == [q.active.value] + q.pending;
    forall i | 0 <= i < |q.pending|
      ensures q.pending[i] != q.active.value
    {
      assert Held(q)[i + 1] == q.pending[i];
      assert IdOf(Held(q)[0]) != IdOf(Held(q)[i + 1]);
    }
  }

  /**
   * `onCancelled` of a pending task while another is active removes the
   * pending task and then, through `scheduleNext`, the active one as well:
   * count drops by two.
   */
  lemma CancellingPendingDropsActive(q: Queue, t: OperationTask)
    requires q.active.Some? && t in q.pending && UniqueIds(Held(q))
    ensures var r := AfterCancelled(q, IdOf(t));
            && q.active.value !in Held(r)
            && t !in Held(r)
            && |Held(r)| == |Held(q)| - 2
  {
    var a := q.active.value;
    var i :| 0 <= i < |q.pending| && q.pending[i] == t;
    assert Held(q) == [a] + q.pending && Held(q)[i + 1] == t;
    assert IdOf(Held(q)[0]) != IdOf(Held(q)[i + 1]);
    assert !ActiveHas(q, IdOf(t));
    assert Lookup(q, IdOf(t)).Some?;
    RemovedIsGone(q, IdOf(t));
    var r1 := AfterRemove(q, IdOf(t));
    assert r1.active == q.active;
    ScheduleNextDropsActive(r1);
  }

  /**
   * Concrete run: add `a`, `b`, `c`; `b`'s `onCancelled` fires while `a`
   * is active; then `a`'s `onPostExecute` fires. `a`'s `onComplete` is
   * never called, the registry is empty, and `c`, although handed to the
   * executor and never cancelled, reports "Operation Not Found!" without
   * running.
   */
  lemma CancellingPendingLosesWork(a: OperationTask, b: OperationTask, c: OperationTask, res: Result, run: Result)
    requires IdOf(a) != IdOf(b) && IdOf(b) != IdOf(c) && IdOf(a) != IdOf(c)
    ensures var q0 := AddAll(Empty, [a, b, c]);
            var q1 := AfterCancelled(q0, IdOf(b));
            var q2 := AfterScheduleNext(q1);
            && q0.active == Some(a) && q0.pending == [b, c]
            && q1.active == Some(c) && Handed(AfterRemove(q0, IdOf(b))) == [c]
            && Delivery(q1, a, Some(res)) == []
            && Held(q2) == []
            && DoInBackground(q2, c, run) == Background(StatusOnly(NotFoundStatus), None)
  {
    AddsToEmptyRegistry(a, [b, c]);
    var q0 := AddAll(Empty, [a, b, c]);
    assert AddAll(Empty, [a, b, c]) == AddAll(AfterAdd(Empty, a), [b, c]);
    assert Held(q0) == [a, b, c];
    assert FindFirst(Held(q0), IdOf(b)) == Some(1);
    var r1 := AfterRemove(q0, IdOf(b));
    assert Held(r1) == [a, c];
    var q1 := AfterCancelled(q0, IdOf(b));
    assert Held(q1) == [c];
    assert FindFirst(Held(q1), IdOf(a)) == None;
  }

  /** Whether the registry has no active task only when nothing is pending. */
  ghost predicate Settled(q: Queue)
  {
    q.active.None? ==> q.pending == []
  }

  /**
   * Every public transition (`initialize`, `add`, and each handler, which
   * ends in `scheduleNext`) leaves the registry settled: it is idle only
   * when nothing is pending.
   */
  lemma TransitionsSettle(q: Queue, t: OperationTask, id: string)
    ensures Settled(Empty)
    ensures Settled(AfterAdd(q, t))
    ensures Settled(AfterScheduleNext(q))
    ensures Settled(AfterCancelled(q, id))
  {
  }

  lemma HeadIsHeld(s: seq<OperationTask>)
    requires s != []
    ensures s[0] in s
  {
  }

  /** `onCancelled` of each task of `ts` in turn. */
  function CancelAll(q: Queue, ts: seq<OperationTask>): Queue
    decreases |ts|
  {
    if ts == [] then q else CancelAll(AfterCancelled(q, IdOf(ts[0])), ts[1..])
  }

  function IdsOf(ts: seq<OperationTask>): set<string>
  {
    set v | v in ts :: IdOf(v)
  }

  /**
   * Once `onCancelled` has fired for every held task, in any order, the
   * registry is empty (the instrumented test cancels 1 active and 10
   * pending operations and waits for count 0).
   */
  lemma {:induction false} CancellingEveryTaskEmpties(q: Queue, ts: seq<OperationTask>)
    requires UniqueIds(Held(q))
    requires forall u :: u in Held(q) ==> IdOf(u) in IdsOf(ts)
    ensures Held(CancelAll(q, ts)) == []
    decreases |ts|
  {
    if ts == [] {
      assert IdsOf(ts) == {};
      assert CancelAll(q, ts) == q;
      if Held(q) != [] {
        HeadIsHeld(Held(q));
        assert false;
      }
    } else {
      var id := IdOf(ts[0]);
      var r1 := AfterRemove(q, id);
      var r := AfterScheduleNext(r1);
      RemovedIsGone(q, id);
      var skip := if r1.active.Some? then 1 else 0;
      assert Held(r) == Held(r1)[skip..];
      UniqueSuffix(Held(r1), skip);
      forall u | u in Held(r)
        ensures IdOf(u) in IdsOf(ts[1..])
      {
        assert u in Held(r1);
        var v :| v in ts && IdOf(v) == IdOf(u);
        assert v != ts[0];
        assert v in ts[1..];
      }
      CancellingEveryTaskEmpties(r, ts[1..]);
    }
  }

  /**
   * `doInBackground` of the active task: the registry finds the task's own
   * operation, so the task runs it unless the task is cancelled.
   */
  lemma ActiveTaskBackground(q: Queue, t: OperationTask, run: Result)
    requires q.active == Some(t)
    ensures DoInBackground(q, t, run) == SelectResult(Some(t.operation), t.cancelled, run)
    ensures !t.cancelled ==> DoInBackground(q, t, run) == Background(run, Some(t.operation))
  {
    ActiveFoundFirst(q);
  }

  /**
   * `doInBackground` of a task whose identifier has been removed (unique
   * identifiers): "Operation Not Found!", and `execute` is not called.
   */
  lemma RemovedTaskNotFound(q: Queue, t: OperationTask, run: Result)
    requires UniqueIds(Held(q))
    ensures DoInBackground(AfterRemove(q, IdOf(t)), t, run) == Background(StatusOnly(NotFoundStatus), None)
  {
    RemovedIsGone(q, IdOf(t));
  }
}
