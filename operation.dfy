/**
 * The unit of work (app/src/main/java/attinasi/org/opqueue/Operation.kt):
 * an operation with a fixed identifier and a cancellation-observed flag,
 * and the immutable Result its `execute` produces.
 */
module Operations {

  /**
   * Operation.Result: a status label and an optional payload. The payload is
   * `Any?` in the source, i.e. any object reference or null.
   */
  datatype Result = Result(status: string, data: object?)

  /** `Result(s)`: the one-argument form, whose payload defaults to null. */
  function StatusOnly(s: string): (r: Result)
    ensures r.status == s && r.data == null
  {
    Result(s, null)
  }

  /**
   * The base class of all operations. `execute` and `onComplete` are
   * abstract and are supplied by the caller; the model keeps the two
   * fields and the one concrete member, `onCancel`.
   */
  class Operation {
    const operationId: string
    var isCancelled: bool

    /** `Operation(id)`: the identifier is the one supplied, and it is not cancelled. */
    constructor (id: string)
      ensures operationId == id && !isCancelled
    {
      operationId := id;
      isCancelled := false;
    }

    /** `onCancel`: marks the operation cancelled; its identifier is a constant. */
    method OnCancel()
      modifies this
      ensures isCancelled
    {
      isCancelled := true;
    }
  }
}
