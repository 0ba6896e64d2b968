/**
 * OperationTask (app/src/main/java/attinasi/org/opqueue/OperationTask.kt):
 * the AsyncTask that runs one operation. Only the state the registry sees is
 * kept: the operation it runs and AsyncTask's own cancelled flag.
 */
module Tasks {
  import opened Wrappers
  import opened Operations

  class OperationTask {
    const operation: Operation
    /** AsyncTask's `isCancelled()`, set by `cancel`. */
    var cancelled: bool

    constructor (o: Operation)
      ensures operation == o && !cancelled
    {
      operation := o;
      cancelled := false;
    }

    /**
     * AsyncTask.cancel(mayInterruptIfRunning): the model keeps only the flag
     * it sets; the interruption of a running thread is not modelled.
     */
    method Cancel(mayInterruptIfRunning: bool)
      modifies this
      ensures cancelled
    {
      cancelled := true;
    }
  }

  /** The status `doInBackground` reports for an operation the registry no longer holds. */
  const NotFoundStatus: string := "Operation Not Found!"
  /** The status `doInBackground` reports for a task cancelled before its operation ran. */
  const CancelledStatus: string := "Cancelled"

  /**
   * What `doInBackground` produced: the result, and the operation whose
   * `execute` it called, if it called one.
   */
  datatype Background = Background(result: Result, executed: Option<Operation>)

  /**
   * The branch of `doInBackground`: `found` is what the registry's
   * `getOperation` returned for the task's identifier, `cancelled` is the
   * task's flag, and `run` is what `execute` returns when it is called.
   */
  function SelectResult(found: Option<Operation>, cancelled: bool, run: Result): (b: Background)
    ensures b.executed.Some? <==> found.Some? && !cancelled
    ensures b.executed.Some? ==> b.executed == found && b.result == run
    ensures found.None? ==> b.result == StatusOnly(NotFoundStatus)
    ensures found.Some? && cancelled ==> b.result == StatusOnly(CancelledStatus)
  {
    match found
    case None => Background(StatusOnly(NotFoundStatus), None)
    case Some(op) =>
      if !cancelled then Background(run, Some(op))
      else Background(StatusOnly(CancelledStatus), None)
  }
}
