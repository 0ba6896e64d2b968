/**
 * The registry (app/src/main/java/attinasi/org/opqueue/OperationQueue.kt):
 * a FIFO of pending tasks and one optional active task, changed only by
 * synchronized methods, each modelled as one atomic transition.
 *
 * The first half states each transition as a function on a value `Queue`;
 * the class `OperationQueue` below performs them in place and is proved
 * against those functions. The registry is read throughout as one sequence,
 * `Held(q)`: the active task first, then the pending tasks in FIFO order.
 */
module Registry {
  import opened Wrappers
  import opened Operations
  import opened Tasks

  /** The identifier of the operation a task runs. */
  function IdOf(t: OperationTask): string
  {
    t.operation.operationId
  }

  /** The registry's two fields: `operations` (pending FIFO) and `activeTask`. */
  datatype Queue = Queue(pending: seq<OperationTask>, active: Option<OperationTask>)

  const Empty: Queue := Queue([], None)

  /** Every task the registry holds: the active one first, then the pending ones in order. */
  function Held(q: Queue): seq<OperationTask>
  {
    (if q.active.Some? then [q.active.value] else []) + q.pending
  }

  /** No two held tasks share an identifier: the callers' side of the contract. */
  ghost predicate UniqueIds(ts: seq<OperationTask>)
  {
    forall i, j :: 0 <= i < j < |ts| ==> IdOf(ts[i]) != IdOf(ts[j])
  }

  /** The position of the first task in `ts` whose identifier is `id` (Kotlin's `find`). */
  function FindFirst(ts: seq<OperationTask>, id: string): (r: Option<nat>)
    ensures r.Some? ==> r.value < |ts| && IdOf(ts[r.value]) == id
    ensures r.Some? ==> forall j :: 0 <= j < r.value ==> IdOf(ts[j]) != id
    ensures r.None? ==> forall j :: 0 <= j < |ts| ==> IdOf(ts[j]) != id
  {
    if ts == [] then None
    else if IdOf(ts[0]) == id then Some(0)
    else match FindFirst(ts[1..], id)
      case None => None
      case Some(k) => Some(k + 1)
  }

  /** Behind a task with another identifier, the first match moves one place back. */
  lemma FindFirstBehind(a: OperationTask, ts: seq<OperationTask>, id: string)
    requires IdOf(a) != id
    ensures FindFirst([a] + ts, id) == (match FindFirst(ts, id)
                                        case None => None
                                        case Some(k) => Some(k + 1))
  {
    assert ([a] + ts)[1..] == ts;
  }

  /** The active task, when it exists and has identifier `id`. */
  predicate ActiveHas(q: Queue, id: string)
  {
    q.active.Some? && IdOf(q.active.value) == id
  }

  /**
   * `getTask`: the active task if its identifier matches, otherwise the
   * first matching pending task, otherwise nothing. That is exactly the
   * first match in `Held(q)`.
   */
  function Lookup(q: Queue, id: string): (r: Option<OperationTask>)
    ensures r == (match FindFirst(Held(q), id)
                  case None => None
                  case Some(k) => Some(Held(q)[k]))
  {
    if ActiveHas(q, id) then
      assert FindFirst(Held(q), id) == Some(0);
      q.active
    else
      ShiftPastActive(q, id);
      match FindFirst(q.pending, id)
      case None => None
      case Some(i) => Some(q.pending[i])
  }

  /** When the active task does not match, the first match in `Held(q)` is the first pending match, shifted past the active slot. */
  lemma ShiftPastActive(q: Queue, id: string)
    requires !ActiveHas(q, id)
    ensures FindFirst(Held(q), id) == (match FindFirst(q.pending, id)
                                       case None => None
                                       case Some(i) => Some(i + (if q.active.Some? then 1 else 0)))
  {
    if q.active.Some? {
      FindFirstBehind(q.active.value, q.pending, id);
    } else {
      assert Held(q) == q.pending;
    }
  }

  /** Dropping pending position `i` drops position `i` behind the active slot in `Held(q)`. */
  lemma HeldWithoutPending(q: Queue, i: nat)
    requires i < |q.pending|
    ensures var k := i + (if q.active.Some? then 1 else 0);
            Held(Queue(q.pending[..i] + q.pending[i + 1..], q.active)) == Held(q)[..k] + Held(q)[k + 1..]
  {
    if q.active.Some? {
      var a := q.active.value;
      assert Held(q) == [a] + q.pending;
      assert Held(q)[..i + 1] == [a] + q.pending[..i];
      assert Held(q)[i + 2..] == q.pending[i + 1..];
    } else {
      assert Held(q) == q.pending;
    }
  }

  /** `getOperation`: the operation of the task `getTask` finds. */
  function LookupOperation(q: Queue, id: string): (r: Option<Operation>)
    ensures r.Some? <==> Lookup(q, id).Some?
    ensures r.Some? ==> r.value == Lookup(q, id).value.operation && r.value.operationId == id
  {
    match Lookup(q, id)
    case None => None
    case Some(t) => Some(t.operation)
  }

  /**
   * `scheduleNext`: polls the head of the FIFO into the active slot, or
   * empties the slot when nothing is pending. It does not look at the slot
   * first: whatever task was active is no longer held afterwards.
   */
  function AfterScheduleNext(q: Queue): (r: Queue)
    ensures Held(r) == q.pending
    ensures r.active.Some? <==> q.pending != []
  {
    if q.pending == [] then Queue([], None)
    else Queue(q.pending[1..], Some(q.pending[0]))
  }

  /** The tasks `scheduleNext` hands to the serial executor: the polled head, if any. */
  function Handed(q: Queue): seq<OperationTask>
  {
    if q.pending == [] then [] else [q.pending[0]]
  }

  /** The tasks `add` of `t` hands to the serial executor: the new head, and only when no task was active. */
  function AddHands(q: Queue, t: OperationTask): seq<OperationTask>
  {
    if q.active.None? then Handed(Queue(q.pending + [t], None)) else []
  }

  /**
   * `add`: offers the new task at the tail and, when no task was active,
   * promotes the head.
   */
  function AfterAdd(q: Queue, t: OperationTask): (r: Queue)
    ensures Held(r) == Held(q) + [t]
    ensures r.active.Some?
    ensures q.active.Some? ==> r.active == q.active
  {
    var offered := Queue(q.pending + [t], q.active);
    if q.active.None? then AfterScheduleNext(offered) else offered
  }

  /**
   * `removeTask`: empties the active slot if the active task has the
   * identifier, otherwise removes the first matching pending task; in
   * both cases that is the first match in `Held(q)`.
   */
  function AfterRemove(q: Queue, id: string): (r: Queue)
    ensures match FindFirst(Held(q), id)
            case None => r == q
            case Some(k) => Held(r) == Held(q)[..k] + Held(q)[k + 1..]
    ensures r.active.Some? ==> r.active == q.active
    ensures ActiveHas(q, id) ==> r == Queue(q.pending, None)
    ensures !ActiveHas(q, id) ==> r.active == q.active
  {
    if ActiveHas(q, id) then
      assert FindFirst(Held(q), id) == Some(0);
      Queue(q.pending, None)
    else
      ShiftPastActive(q, id);
      match FindFirst(q.pending, id)
      case None => q
      case Some(i) =>
        HeldWithoutPending(q, i);
        Queue(q.pending[..i] + q.pending[i + 1..], q.active)
  }

  /** `onCancelled` on the registry: `removeTask` of the task's identifier, then `taskDone`. */
  function AfterCancelled(q: Queue, id: string): (r: Queue)
    ensures forall u :: u in Held(r) ==> u in Held(q)
    ensures |Held(r)| + (if Lookup(q, id).Some? then 1 else 0) <= |Held(q)|
    ensures r.active.None? ==> r.pending == []
  {
    var removed := AfterRemove(q, id);
    match FindFirst(Held(q), id)
    case None => AfterScheduleNext(removed)
    case Some(k) =>
      WithoutKeepsOthers(Held(q), k);
      AfterScheduleNext(removed)
  }

  /** Taking position `k` out of `s` leaves one element fewer, each of them from `s`. */
  lemma WithoutKeepsOthers(s: seq<OperationTask>, k: nat)
    requires k < |s|
    ensures |s[..k] + s[k + 1..]| == |s| - 1
    ensures forall u :: u in s[..k] + s[k + 1..] ==> u in s
  {
    forall u | u in s[..k] + s[k + 1..]
      ensures u in s
    {
      assert u in s[..k] || u in s[k + 1..];
    }
  }

  /** One call of an operation's `onComplete`. */
  datatype Completion = Completion(operation: Operation, result: Result)

  /**
   * The `onComplete` call `onPostExecute` makes: only for a non-null
   * result, and only to an operation the registry still holds under the
   * task's identifier.
   */
  function Delivery(q: Queue, task: OperationTask, result: Option<Result>): (r: seq<Completion>)
    ensures r != [] <==> result.Some? && Lookup(q, IdOf(task)).Some?
    ensures r != [] ==> r == [Completion(Lookup(q, IdOf(task)).value.operation, result.value)]
    ensures r != [] ==> r[0].operation.operationId == IdOf(task)
  {
    match (result, LookupOperation(q, IdOf(task)))
    case (Some(res), Some(op)) => [Completion(op, res)]
    case _ => []
  }

  /** `doInBackground` for `task`, when the registry is `q` and `execute` would return `run`. */
  function DoInBackground(q: Queue, task: OperationTask, run: Result): (r: Background)
    reads task
    ensures Lookup(q, IdOf(task)).None? ==> r == Background(StatusOnly(NotFoundStatus), None)
    ensures Lookup(q, IdOf(task)).Some? && task.cancelled ==> r == Background(StatusOnly(CancelledStatus), None)
    ensures Lookup(q, IdOf(task)).Some? && !task.cancelled ==>
              r == Background(run, Some(Lookup(q, IdOf(task)).value.operation))
    ensures r.executed.Some? ==> r.executed.value.operationId == IdOf(task) && !task.cancelled && r.result == run
  {
    SelectResult(LookupOperation(q, IdOf(task)), task.cancelled, run)
  }

  class OperationQueue {
    var operations: seq<OperationTask>
    var activeTask: Option<OperationTask>
    /** The tasks handed to the serial executor by `executeOnExecutor`, in order. */
    ghost var handedOff: seq<OperationTask>
    /** The `onComplete` calls made by `onPostExecute`, in order. */
    ghost var completions: seq<Completion>

    function State(): Queue
      reads this
    {
      Queue(operations, activeTask)
    }

    /** The tasks whose flags `cancel` may set. */
    function Members(): set<OperationTask>
      reads this
    {
      set t | t in Held(State())
    }

    /** The active task, as a set, for the frame of `initialize`. */
    function ActiveSet(): set<OperationTask>
      reads this
    {
      if activeTask.Some? then {activeTask.value} else {}
    }

    constructor ()
      ensures State() == Empty && handedOff == [] && completions == []
    {
      operations := [];
      activeTask := None;
      handedOff := [];
      completions := [];
    }

    /** `initialize`: clears the FIFO, cancels the active task (interrupting it) and empties the slot. */
    method Initialize()
      modifies this, ActiveSet()
      ensures State() == Empty
      ensures old(activeTask).Some? ==> old(activeTask).value.cancelled
      ensures handedOff == old(handedOff) && completions == old(completions)
    {
      operations := [];
      if activeTask.Some? {
        activeTask.value.Cancel(true);
      }
      activeTask := None;
    }

    /** `add`: wraps the operation in a new task, appends it, and promotes the head when idle. */
    method Add(operation: Operation) returns (ghost task: OperationTask)
      modifies this
      ensures fresh(task) && task.operation == operation && !task.cancelled
      ensures State() == AfterAdd(old(State()), task)
      ensures handedOff == old(handedOff) + AddHands(old(State()), task)
      ensures completions == old(completions)
    {
      var t := new OperationTask(operation);
      task := t;
      operations := operations + [t];
      if activeTask.None? {
        ScheduleNext();
      }
    }

    /**
     * `cancel`: sets the cancelled flag of the task `getTask` finds and
     * reports whether there was one. It removes nothing, and it does not
     * touch any operation's own `isCancelled`.
     */
    method Cancel(operationId: string) returns (found: bool)
      modifies Members()
      ensures found <==> Lookup(State(), operationId).Some?
      ensures found ==> Lookup(State(), operationId).value.cancelled
      ensures forall t :: t in Members() && Some(t) != Lookup(State(), operationId) ==> t.cancelled == old(t.cancelled)
      ensures forall t :: t in Members() ==> t.operation.isCancelled == old(t.operation.isCancelled)
    {
      var task := GetTask(operationId);
      if task.Some? {
        task.value.Cancel(false);
        return true;
      }
      return false;
    }

    /** `count`: pending plus active. */
    method Count() returns (n: int)
      ensures n == |Held(State())|
    {
      n := |operations| + (if activeTask.Some? then 1 else 0);
    }

    /** `countPending`: the tasks that are held but not active. */
    method CountPending() returns (n: int)
      ensures n == |Held(State())| - (if activeTask.Some? then 1 else 0)
    {
      n := |operations|;
    }

    /** `getOperation`. */
    method GetOperation(operationId: string) returns (r: Option<Operation>)
      ensures r == LookupOperation(State(), operationId)
    {
      var task := GetTask(operationId);
      r := if task.Some? then Some(task.value.operation) else None;
    }

    /** `getTask`: the active slot first, then the FIFO. */
    method GetTask(serial: string) returns (r: Option<OperationTask>)
      ensures r == Lookup(State(), serial)
    {
      if activeTask.Some? && IdOf(activeTask.value) == serial {
        return activeTask;
      }
      var k := FindPending(serial);
      r := if k.Some? then Some(operations[k.value]) else None;
    }

    /** The `find` over the FIFO that `getTask` and `removeTask` share. */
    method FindPending(serial: string) returns (k: Option<nat>)
      ensures k == FindFirst(operations, serial)
    {
      var i := 0;
      while i < |operations|
        invariant 0 <= i <= |operations|
        invariant forall j :: 0 <= j < i ==> IdOf(operations[j]) != serial
      {
        if IdOf(operations[i]) == serial {
          return Some(i);
        }
        i := i + 1;
      }
      return None;
    }

    /**
     * `removeTask`. The FIFO's `remove(wrapper)` drops the first element
     * equal to the wrapper `find` returned, which is that same position.
     */
    method RemoveTask(serial: string)
      modifies this
      ensures State() == AfterRemove(old(State()), serial)
      ensures handedOff == old(handedOff) && completions == old(completions)
    {
      if activeTask.Some? && IdOf(activeTask.value) == serial {
        activeTask := None;
      } else {
        var k := FindPending(serial);
        if k.Some? {
          operations := operations[..k.value] + operations[k.value + 1..];
        }
      }
    }

    /** `scheduleNext`: polls the head into the active slot and hands it to the executor. */
    method ScheduleNext()
      modifies this
      ensures State() == AfterScheduleNext(old(State()))
      ensures handedOff == old(handedOff) + Handed(old(State()))
      ensures completions == old(completions)
    {
      if operations == [] {
        activeTask := None;
      } else {
        activeTask := Some(operations[0]);
        operations := operations[1..];
        handedOff := handedOff + [activeTask.value];
      }
    }

    /**
     * The task's `onPostExecute`: delivers a non-null result to the
     * operation still registered under the task's identifier, then
     * `taskDone`, which is `scheduleNext`. It never calls `removeTask`.
     */
    method OnPostExecute(task: OperationTask, result: Option<Result>)
      modifies this
      ensures completions == old(completions) + Delivery(old(State()), task, result)
      ensures State() == AfterScheduleNext(old(State()))
      ensures handedOff == old(handedOff) + Handed(old(State()))
    {
      if result.Some? {
        var op := GetOperation(IdOf(task));
        if op.Some? {
          completions := completions + [Completion(op.value, result.value)];
        }
      }
      ScheduleNext();
    }

    /**
     * The task's `onCancelled`: the operation's `onCancel`, then
     * `removeTask` of its identifier, then `taskDone` (`scheduleNext`).
     */
    method OnCancelled(task: OperationTask)
      modifies this, task.operation
      ensures task.operation.isCancelled
      ensures State() == AfterCancelled(old(State()), IdOf(task))
      ensures handedOff == old(handedOff) + Handed(AfterRemove(old(State()), IdOf(task)))
      ensures completions == old(completions)
    {
      task.operation.OnCancel();
      RemoveTask(IdOf(task));
      ScheduleNext();
    }
  }
}
