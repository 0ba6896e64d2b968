# OpQueue scheduling core, modelled in Dafny

OpQueue is an Android library that runs background "operations" one at a
time, in the order they were added. This project models its scheduling
core and proves properties of the model:

- **Operation / Result** (`operation.dfy`, module `Operations`). An
  `Operation` object has a constant `operationId` and a mutable
  `isCancelled` flag, which only `onCancel` sets. A `Result` is an
  immutable value: a status string and an optional payload (`object?`).
- **OperationTask** (`operation_task.dfy`, module `Tasks`). The task that
  runs one operation. Of the AsyncTask it extends, the model keeps only the
  `cancelled` flag that `cancel` sets. `SelectResult` is the branch in
  `doInBackground`.
- **OperationQueue, the registry** (`operation_queue.dfy`, module
  `Registry`). Each registry transition is first stated as a function on a
  value `Queue` (pending FIFO, optional active task). The class
  `OperationQueue` then performs the transitions in place on its fields
  `operations` and `activeTask`, and each method is proved against its
  function. Every method is `@Synchronized`, so each is one atomic step.
  The task handlers `onPostExecute` and `onCancelled` are event methods of
  the class. The registry is read as one sequence, `Held(q)`: the active
  task first, then the pending tasks in FIFO order. On that sequence:
  - `getTask` finds the first task with the identifier;
  - `removeTask` deletes that first match;
  - `add` appends at the tail;
  - `count` is the sequence's length;
  - `scheduleNext` replaces the sequence by the old pending part. Whatever
    task was active is no longer held, even if it has not finished.
- **Properties** (`registry_properties.dfy`, module `RegistryProperties`).
  These lemmas cover runs of events:
  - the add scenario from the instrumented test;
  - completion order and promotion order in a run without cancellation;
  - what `removeTask` and `onCancelled` take out of the registry;
  - that `onCancelled` for every held task empties the registry;
  - what `scheduleNext`'s unchecked overwrite costs. In a concrete run,
    `onCancelled` fires for a pending task while another task is active.
    The active task's `onComplete` is then never called, and the next
    task reports "Operation Not Found!" without running, though nobody
    cancelled it.
- **SerialExecutor** (`serial_executor.dfy`, module `Executor`). This is a
  second FIFO (`mTasks`) with its own slot (`mActive`). The thread pool is
  a ghost log of the runnables handed to it (`dispatched`) plus a ghost
  count of those that have returned (`finished`). A runnable returning,
  normally or by throwing, is the event `RunnableFinished`. It always ends
  in `scheduleNext`, because the wrapper calls it in `finally`. The class
  invariant `Valid` states the doc comment's claim that only one task runs
  at a time, and the first-in, first-out order that the comment's reference
  to `AsyncTask.SERIAL_EXECUTOR` implies:
  - the runnables handed to the pool are the submitted ones, in submission
    order;
  - at most one handed-over runnable has not returned, and it is the one
    in `mActive`.

`cancel` itself only sets the task's flag. The `onCancel` call and the
removal that its doc comment promises (OperationQueue.kt:35-38) happen
later, when AsyncTask runs the task's `onCancelled` (the event
`OnCancelled`). That handler's `scheduleNext` also drops whatever task is
active. In detail:
- `cancel` only sets the task's flag. It removes nothing, and it does not
  set the operation's `isCancelled`.
- A pending task leaves the registry only when its `onCancelled` runs.
- `onPostExecute` never calls `removeTask`. The finished task leaves the
  active slot only because `scheduleNext` overwrites it.

## Model

| member | source | states |
|---|---|---|
| Operations.StatusOnly | app/src/main/java/attinasi/org/opqueue/Operation.kt:36-39 | `Result(s)` has status `s` and a null payload |
| Operations.Operation.constructor | app/src/main/java/attinasi/org/opqueue/Operation.kt:20-25 | the identifier is the one supplied and a new operation is not cancelled |
| Operations.Operation.OnCancel | app/src/main/java/attinasi/org/opqueue/Operation.kt:30-32 | `onCancel` leaves the operation cancelled whatever its previous state, and the identifier cannot change |
| Tasks.SelectResult | app/src/main/java/attinasi/org/opqueue/OperationTask.kt:10-18 | not found gives "Operation Not Found!", found but cancelled gives "Cancelled", and in both cases `execute` is not called; otherwise `execute` runs on the found operation and its result is returned unchanged |
| Tasks.OperationTask.constructor | app/src/main/java/attinasi/org/opqueue/OperationTask.kt:5-6 | a new task wraps the operation it is given and is not cancelled |
| Tasks.OperationTask.Cancel | app/src/main/java/attinasi/org/opqueue/OperationQueue.kt:47 | `cancel(false)` from the registry (and `cancel(true)` from `initialize`, line 19) leaves the task's flag set whatever its previous state, and changes nothing else |
| Registry.FindFirst | app/src/main/java/attinasi/org/opqueue/OperationQueue.kt:81 | the result is the first position whose identifier matches, or none when no position matches |
| Registry.Lookup | app/src/main/java/attinasi/org/opqueue/OperationQueue.kt:77-83 | `getTask` returns the first task with the identifier among the active task followed by the pending ones, or nothing |
| Registry.LookupOperation | app/src/main/java/attinasi/org/opqueue/OperationQueue.kt:72-74 | `getOperation` finds something exactly when `getTask` does, and it is that task's operation, carrying the identifier asked for |
| Registry.AfterScheduleNext | app/src/main/java/attinasi/org/opqueue/OperationQueue.kt:96-101 | afterwards the registry holds exactly the previously pending tasks, in order, with the head active, or is idle when nothing was pending; the old active task is dropped |
| Registry.AfterAdd | app/src/main/java/attinasi/org/opqueue/OperationQueue.kt:26-32 | `add` appends the task at the tail of everything held, leaves a present active task in place, and leaves some task active |
| Registry.AfterRemove | app/src/main/java/attinasi/org/opqueue/OperationQueue.kt:85-94 | `removeTask` deletes the first held task with the identifier and keeps the rest in order; no-op when absent; removing the active task empties the slot and leaves the FIFO as it was; it never fills the active slot |
| Registry.AfterCancelled | app/src/main/java/attinasi/org/opqueue/OperationTask.kt:36-38 | `removeTask` then `scheduleNext` keeps only tasks that were held, leaves at least one fewer when the identifier was held, and leaves no pending task behind an empty slot |
| Registry.DoInBackground | app/src/main/java/attinasi/org/opqueue/OperationTask.kt:8-19 | an identifier the registry does not hold gives "Operation Not Found!" without running; a held one with the task's flag set gives "Cancelled" without running; otherwise the held operation with the task's identifier runs and its result is returned |
| Registry.Delivery | app/src/main/java/attinasi/org/opqueue/OperationTask.kt:24-26 | `onComplete` is called once exactly when the result is non-null and the registry still holds the identifier, and then on the held operation with that identifier, with that result; otherwise not at all |
| Registry.OperationQueue.constructor | app/src/main/java/attinasi/org/opqueue/OperationQueue.kt:108-109 | a new registry is empty |
| Registry.OperationQueue.Initialize | app/src/main/java/attinasi/org/opqueue/OperationQueue.kt:17-21 | after `initialize` nothing is pending or active (count 0), and the previously active task is cancelled |
| Registry.OperationQueue.Add | app/src/main/java/attinasi/org/opqueue/OperationQueue.kt:26-32 | a fresh, uncancelled task for the operation is added as `AfterAdd` says; it is handed to the executor only when the registry was idle |
| Registry.OperationQueue.Cancel | app/src/main/java/attinasi/org/opqueue/OperationQueue.kt:44-51 | returns true iff `getTask` finds the identifier; sets only that task's flag; changes neither the FIFO, nor the slot, nor any operation's `isCancelled` |
| Registry.OperationQueue.Count | app/src/main/java/attinasi/org/opqueue/OperationQueue.kt:56-58 | the number of held tasks, pending plus active; no side effect |
| Registry.OperationQueue.CountPending | app/src/main/java/attinasi/org/opqueue/OperationQueue.kt:63-65 | the held tasks other than the active one; no side effect |
| Registry.OperationQueue.GetOperation | app/src/main/java/attinasi/org/opqueue/OperationQueue.kt:72-74 | returns `LookupOperation` of the current state; no side effect |
| Registry.OperationQueue.GetTask | app/src/main/java/attinasi/org/opqueue/OperationQueue.kt:77-83 | returns `Lookup` of the current state; no side effect |
| Registry.OperationQueue.FindPending | app/src/main/java/attinasi/org/opqueue/OperationQueue.kt:89 | the loop over the FIFO finds the first pending task with the identifier |
| Registry.OperationQueue.RemoveTask | app/src/main/java/attinasi/org/opqueue/OperationQueue.kt:85-94 | the new state is `AfterRemove` of the old one |
| Registry.OperationQueue.ScheduleNext | app/src/main/java/attinasi/org/opqueue/OperationQueue.kt:96-101 | the new state is `AfterScheduleNext` of the old one; only a polled task is handed to the executor |
| Registry.OperationQueue.OnPostExecute | app/src/main/java/attinasi/org/opqueue/OperationTask.kt:21-29 | `onComplete` is called only for a non-null result and only on the operation still registered under the task's identifier; then `scheduleNext`, with no `removeTask` |
| Registry.OperationQueue.OnCancelled | app/src/main/java/attinasi/org/opqueue/OperationTask.kt:31-43 | the operation's `isCancelled` is set, then `removeTask` of its identifier, then `scheduleNext`; no `onComplete` |
| RegistryProperties.AddAllAppends | app/src/main/java/attinasi/org/opqueue/OperationQueue.kt:26-32 | successive adds append at the tail in call order and never replace a present active task |
| RegistryProperties.AddsToEmptyRegistry | app/src/androidTest/java/attinasi/org/opqueue/OperationQueueInstrumentedTest.kt:82-93 | one add to an empty registry gives count 1 and 0 pending; n more give count n+1 and n pending, with the first still active |
| RegistryProperties.AddKeepsUnique | app/src/main/java/attinasi/org/opqueue/OperationQueue.kt:26-32 | `add` of an operation whose identifier is not yet held keeps all held identifiers distinct |
| RegistryProperties.StepKeepsOutstanding | app/src/main/java/attinasi/org/opqueue/OperationQueue.kt:29-31 | `add` hands a task over only when the slot is empty, and `onPostExecute` of the outstanding task hands over the next head, so the active task stays the only task handed over and not yet posted; a post of an outstanding task is the active task's |
| RegistryProperties.EnvIsSerial | app/src/main/java/attinasi/org/opqueue/OperationTask.kt:21-29 | without cancellation, if AsyncTask posts only tasks handed over and not yet posted, every `onPostExecute` is that of the task active at that moment |
| RegistryProperties.CompletionsFollowSubmissions | app/src/main/java/attinasi/org/opqueue/OperationTask.kt:21-29 | when every `onPostExecute` is the active task's (`Serial`, which `EnvIsSerial` derives), completed operations followed by held ones are the initially held ones followed by the added ones, in order |
| RegistryProperties.DrainedInSubmissionOrder | app/src/androidTest/java/attinasi/org/opqueue/OperationQueueInstrumentedTest.kt:97-119 | in a run of adds and posts from an empty registry where AsyncTask posts only tasks handed to the executor and not yet posted, once count is 0, `onComplete` has reached every added operation, in the order they were added |
| RegistryProperties.HandedInSubmissionOrder | app/src/main/java/attinasi/org/opqueue/OperationQueue.kt:96-101 | without cancellation, tasks are handed to the executor in exactly the order they were added |
| RegistryProperties.RemovedIsGone | app/src/main/java/attinasi/org/opqueue/OperationQueue.kt:85-94 | with unique identifiers, after `removeTask(id)` the identifier is not found, count drops by one exactly when it was found, and no other task is lost |
| RegistryProperties.ScheduleNextDropsActive | app/src/main/java/attinasi/org/opqueue/OperationQueue.kt:96-101 | `scheduleNext` while a task is active drops that task: it is no longer held and count drops by one |
| RegistryProperties.CancellingPendingDropsActive | app/src/main/java/attinasi/org/opqueue/OperationTask.kt:31-43 | `onCancelled` of a pending task while another is active removes both: count drops by two |
| RegistryProperties.CancellingPendingLosesWork | app/src/main/java/attinasi/org/opqueue/OperationTask.kt:8-43 | add a, b, c; b's `onCancelled` then a's `onPostExecute`: a gets no `onComplete`, the registry is empty, and c reports "Operation Not Found!" without running |
| RegistryProperties.TransitionsSettle | app/src/main/java/attinasi/org/opqueue/OperationQueue.kt:26-32 | after `initialize`, `add` or any handler, no task is active only when none is pending |
| RegistryProperties.CancellingEveryTaskEmpties | app/src/androidTest/java/attinasi/org/opqueue/OperationQueueInstrumentedTest.kt:123-151 | with unique identifiers, once `onCancelled` has fired for every held task in any order, count is 0 |
| RegistryProperties.ActiveTaskBackground | app/src/main/java/attinasi/org/opqueue/OperationTask.kt:8-19 | `doInBackground` of the active task finds the task's own operation, so the task runs it unless the task is cancelled |
| RegistryProperties.RemovedTaskNotFound | app/src/main/java/attinasi/org/opqueue/OperationTask.kt:9-18 | after its identifier is removed, `doInBackground` reports "Operation Not Found!" and does not call `execute` |
| Executor.Chain | app/src/main/java/attinasi/org/opqueue/SerialExecutor.kt:19-25 | each submitted runnable is queued as exactly one wrapper around it, in the same order |
| Executor.SerialExecutor.constructor | app/src/main/java/attinasi/org/opqueue/SerialExecutor.kt:15-16 | a new executor has nothing queued, active or dispatched |
| Executor.SerialExecutor.Execute | app/src/main/java/attinasi/org/opqueue/SerialExecutor.kt:18-29 | appends exactly one wrapped runnable; dispatches it at once only when `mActive` was empty, and otherwise hands nothing to the pool; the invariant is kept |
| Executor.SerialExecutor.ScheduleNext | app/src/main/java/attinasi/org/opqueue/SerialExecutor.kt:31-36 | `mActive` becomes the polled head or empty, and only a present runnable is handed to the pool |
| Executor.SerialExecutor.RunnableFinished | app/src/main/java/attinasi/org/opqueue/SerialExecutor.kt:19-24 | the runnable that returns, whether it threw or not, is the active one; its `finally` calls `scheduleNext`; the invariant is kept |
| Executor.DispatchedIsPrefix | app/src/main/java/attinasi/org/opqueue/SerialExecutor.kt:7-13 | the runnables handed to the pool are the first ones submitted, in submission order |

## Left out

- The AsyncTask runtime: when `doInBackground`, `onPostExecute` and `onCancelled` fire, main-thread delivery, and `THREAD_POOL_EXECUTOR`. Each handler is an explicit event; the pool is a ghost dispatch log. The model does not choose which handler AsyncTask calls.
- How `executeOnExecutor` reaches the serial executor. The registry records each task it hands over in the ghost log `handedOff`, and the executor is modelled on its own.
- Real multithreading and `@Synchronized` locking. Each registry or executor method is one atomic step. A handler is one atomic step too, although in the source it takes the registry lock once per call it makes.
- The interruption of a running thread by `cancel(true)` in `initialize`. Only the task's flag is modelled.
- `execute` and `onComplete` are abstract in the source. `execute` is the value it would return, passed as a parameter. Calls of `onComplete` are logged in the ghost `completions`.
- Subclasses overriding `onCancel`. Only the base behaviour is modelled.
- The `_data` field of `Result` is a `var` in the source. Nothing in the core writes it, so `Result` is an immutable datatype.
- UUID generation in the no-argument `Operation` constructor. Identifiers are inputs. Uniqueness is a hypothesis of the lemmas that need it; `add` does not check it, as in the source.
- OperationWrapper is not part of this model. The pending FIFO holds each wrapper's task, and the wrapper's operation is taken to be that task's operation.
- Singleton holders and `lazy` access. The model uses explicit instances.
