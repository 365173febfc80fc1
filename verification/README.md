# CoTaskLib task runtime, modelled in Dafny

CoTaskLib runs C++20 coroutines as per-frame tasks on top of the Siv3D engine. This project
models the runtime's core: how a task's coroutine is resumed, how a result is read from it,
how running tasks are registered with a backend that drives them frame by frame, and how
scoped runner objects cancel them. The library exists in three generations, and each one
gets its own modules:

- **`include/CoTaskLib/Core.hpp`** (current):
  - `CoreTask` / `CoreTaskFacts` model `Task` / `Promise` / `TaskAwaiter`.
    This covers the lazily started coroutine, the sub-awaiter link, tasks attached before
    or after the body, and a one-shot result slot.
    It also covers the library's small bodies (`DelayFrame`, `WaitUntil`, `WaitWhile`,
    `UpdaterTask`, `FromResult`) and the `All` / `Any` combinators.
  - `FinishSource` models `TaskFinishSource`.
  - `OrderedExecutor` models the sorting-order registry used for input callers and drawers.
  - `CoreBackend` models the awaiter registry: `Backend::update`, `Add`, `Remove`, `IsDone`
    and `ResumeAwaiterOnceAndRegisterIfNotDone`.
    Every entry the frame reaps fires exactly one end callback. An entry whose end callback
    throws inside `Remove` stays registered and fires again on the next removal.
  - `CoreRunner` models `ScopedTaskRunner` and `MultiRunner`.
- **`include/CoTaskLib.hpp`** (frame-timed):
  - `FrameTimed` / `FrameTimedFacts` model the version in which a task yields the frame
    timing (Update, Draw, LateDraw) at which it next runs.
  - `FrameTimedBackend` / `FrameTimedBackendFacts` model its `Backend` and
    `ScopedTaskRunLifetime`.
- **`include/CoTask.hpp`** (legacy):
  - `LegacyTask` / `LegacyTaskFacts` model `CoTask`.
    It has a nest-level limit and a `m_pSubTask` link that is set only when the awaited
    task survives its first update.
  - `LegacyBackend` / `LegacyBackendFacts` model `CoTaskBackend` with its separate update
    and draw maps and `ScopedCoTaskRunLifetime`.

Both frame-driven registries use the same loop: visit the map in ascending id order, mark
each id current, resume it, and erase it if it is done. `Sweeps` states that loop once,
generically.

Shared vocabulary is in `Values` and `Sorting`:

- **Values.** Templates over the result type become one closed `Value` datatype.
  `VoidResult` is the unit value.
- **Exceptions.** Thrown exceptions become an `Exn` datatype, returned through `Result` or
  `Option<Exn>`.
- **Map iteration order.** `SortedNats` gives the order in which a `std::map` is iterated.
- **Coroutine bodies.** Bodies are a closed datatype: straight-line code with an explicit
  resume point, plus one constructor per library loop.
- **The outside world.**
  - What the outside world answers (predicates, update functions, sorting orders) is a
    snapshot passed as a parameter.
  - User callbacks are labels. Only the end callbacks of a registered Core task carry a
    flag saying whether they throw; every other piece of user code is taken never to throw
    (see "Left out").

## Model

| member | source | states |
|---|---|---|
| OrderedExecutor.SortedKeysAscending | include/CoTaskLib/Core.hpp:134-142 | the `std::map` iteration order of the callers is strictly ascending in `(sortingOrder, id)` |
| OrderedExecutor.Add | include/CoTaskLib/Core.hpp:202-216 | a successful `add` returns the next id, advances the counter and indexes exactly that id more; a detected inconsistency throws and leaves the counter and index alone (the full contract is AddSpec) |
| OrderedExecutor.AddSpec | include/CoTaskLib/Core.hpp:202-216 | `add` returns the next id, keeps the two maps consistent, files the caller under its freshly read sorting order and leaves every other id as it was |
| OrderedExecutor.Remove | include/CoTaskLib/Core.hpp:228-241 | `remove` throws iff the id stays indexed, and then changes nothing; otherwise exactly that id leaves the index (the full contract is RemoveSpec) |
| OrderedExecutor.RemoveSpec | include/CoTaskLib/Core.hpp:228-241 | `remove` on a consistent executor never throws, drops exactly that id (unknown ids change nothing) and leaves the other ids' keys and callers alone |
| OrderedExecutor.Pending | include/CoTaskLib/Core.hpp:169-179 | the change list holds exactly the callers whose sorting order now differs, each with its new order, in key order |
| OrderedExecutor.ApplySpec | include/CoTaskLib/Core.hpp:182-198 | applying changes to distinct registered ids moves each changed id to its new order and leaves every other id where it was |
| OrderedExecutor.ReinsertSpec | include/CoTaskLib/Core.hpp:182-198 | the re-insertion loop never throws on a consistent executor, keeps the maps consistent and keeps every caller under its id |
| OrderedExecutor.Refresh | include/CoTaskLib/Core.hpp:167-199 | `refreshSortingOrder` keeps the id counter and every indexed id, and only ever throws its inconsistency error (the full contract is RefreshSpec) |
| OrderedExecutor.RefreshSpec | include/CoTaskLib/Core.hpp:167-199 | `refreshSortingOrder` never throws on a consistent executor and re-keys every id to (fresh sorting order, same id) with the same caller |
| OrderedExecutor.SortedKeysIndexed | include/CoTaskLib/Core.hpp:160-162 | iterating the callers visits every registered id, each under its current key from the id index |
| OrderedExecutor.Call | include/CoTaskLib/Core.hpp:243-251 | `call` keeps the id counter; a throwing refresh runs no callback, otherwise one callback runs per registered caller (the full contract is CallRekeys, CallRunsEach and CallRunsInOrder) |
| OrderedExecutor.CallRekeys | include/CoTaskLib/Core.hpp:243-251 | `call` throws nothing, keeps the maps consistent and re-keys every entry to its freshly read sorting order |
| OrderedExecutor.CallInvokesRefreshedKeys | include/CoTaskLib/Core.hpp:243-251 | the callbacks `call` runs are those of the refreshed keys, in iteration order |
| OrderedExecutor.CallRunsEach | include/CoTaskLib/Core.hpp:243-251 | `call` runs the callback of every registered id and of no other |
| OrderedExecutor.CallRunsInOrder | include/CoTaskLib/Core.hpp:243-251 | `call` runs callbacks in strictly ascending (fresh order, id) order, so equal orders run in registration order |
| OrderedExecutor.HasSortingOrder | include/CoTaskLib/Core.hpp:254-264 | true iff some caller's sorting-order function currently returns the order asked for |
| OrderedExecutor.HasSortingOrderInRange | include/CoTaskLib/Core.hpp:267-278 | true iff some caller's current sorting order lies in the inclusive range |
| OrderedExecutor.ScanCoversCallers | include/CoTaskLib/Core.hpp:269-277 | the early-exit scan over the keys in iteration order finds an order in range exactly when some caller has one |
| FinishSource.RequestFinish | include/CoTaskLib/Core.hpp:1390-1408 | a request is refused once a result is waiting or was taken; otherwise the value is stored and the call answers true |
| FinishSource.TakeResult | include/CoTaskLib/Core.hpp:1418-1433 | `result()` throws when taken before, then when there is none; otherwise returns the value and empties the slot for good |
| FinishSource.WaitForResultStep | include/CoTaskLib/Core.hpp:1436-1444 | `waitForResult` waits while no result is present, then marks the source consumed and delivers the value, which stays stored |
| FinishSource.FirstRequestWins | include/CoTaskLib/Core.hpp:1390-1408 | after an accepted request every later one is refused and the first value stays |
| FinishSource.TakeOnce | include/CoTaskLib/Core.hpp:1418-1433 | a second `result()` throws, even after further requests |
| FinishSource.DoneIsStable | include/CoTaskLib/Core.hpp:1456-1459 | `done()` never goes back to false under any operation |
| FinishSource.WaitForResultConsumes | include/CoTaskLib/Core.hpp:1436-1459 | after `waitForResult` delivered, `result()` throws and requests are refused |
| FinishSource.RequestFinishVoid | include/CoTaskLib/Core.hpp:1481-1489 | the void source accepts a request iff none was accepted before |
| FinishSource.VoidFirstRequestWins | include/CoTaskLib/Core.hpp:1481-1489 | of any number of requests on a fresh void source exactly the first succeeds |
| FinishSource.VoidRequestsRefused | include/CoTaskLib/Core.hpp:1481-1503 | every request on an already-requested void source fails and it stays done |
| CoreTask.NewTask | include/CoTaskLib/Core.hpp:1193-1199 | a new task is suspended before its body, with no sub-awaiter and an unconsumed empty slot |
| CoreTask.With | include/CoTaskLib/Core.hpp:1057-1081 | `with(task, timing)` appends to the Before or the After list and changes nothing else |
| CoreTask.TakeValue | include/CoTaskLib/Core.hpp:1266-1326 | `value()` throws with no result, throws on a second call, and otherwise marks the slot consumed and returns the value or rethrows the captured failure |
| CoreTask.Resume | include/CoTaskLib/Core.hpp:1023-1041 | a done task is untouched; resuming never changes the consumed flag or its shape and keeps the reachable-state invariant |
| CoreTask.ResumeEach | include/CoTaskLib/Core.hpp:1030-1040 | each attached task is resumed exactly once, independently, keeping the list length |
| CoreTask.ResumeHandle | include/CoTaskLib/Core.hpp:947-960 | a done handle is untouched; the attached lists and consumed flag are preserved and the invariant is kept |
| CoreTask.Step | include/CoTaskLib/Core.hpp:1146-1161 | one run of the body leaves the attached lists and the consumed flag alone and keeps the invariant |
| CoreTask.StepAll | include/CoTaskLib/Core.hpp:1885-1901 | one run of `All`'s body keeps its shape and the invariant |
| CoreTask.StepAny | include/CoTaskLib/Core.hpp:1904-1924 | one run of `Any`'s body keeps its shape and the invariant |
| CoreTask.StepLoop | include/CoTaskLib/Core.hpp:1508-1549 | one iteration of a polling loop never links a sub-awaiter and keeps the invariant |
| CoreTask.RunScript | include/CoTaskLib/Core.hpp:1146-1156 | straight-line code suspends only forward of where it started, and only links an unfinished awaited task at an await |
| CoreTask.AfterAwait | include/CoTaskLib/Core.hpp:1158-1161 | after `await_resume` the body resumes strictly past the await, and any new link is to an unfinished task |
| CoreTask.AllResults | include/CoTaskLib/Core.hpp:1844-1855 | the tuple is built iff every argument's value can be taken, holding each argument's value; otherwise the first failing argument's exception |
| CoreTask.AnyResults | include/CoTaskLib/Core.hpp:1859-1875 | unfinished arguments give empty optionals, finished ones their value; the tuple fails iff some finished argument's value cannot be taken |
| CoreTaskFacts.ResumeRunsBody | include/CoTaskLib/Core.hpp:1023-1041 | with no sub-awaiter, `resume` runs the body exactly once between the Before and After tasks |
| CoreTaskFacts.PendingSubBlocksBody | include/CoTaskLib/Core.hpp:1208-1224 | while the linked sub-awaiter is still running the body does not move |
| CoreTaskFacts.FinishedSubResumesBody | include/CoTaskLib/Core.hpp:1208-1224 | when the sub-awaiter finishes, the link is cleared and the body continues in the same call |
| CoreTaskFacts.AwaitRethrows | include/CoTaskLib/Core.hpp:1158-1161 | a failure of the awaited task is rethrown into the awaiting body, which finishes with it |
| CoreTaskFacts.AwaitReturnForwardsValue | include/CoTaskLib/Core.hpp:1158-1161 | `co_return co_await child` finishes with the child's value as soon as the child returns |
| CoreTaskFacts.AwaitResumesChildOnce | include/CoTaskLib/Core.hpp:1146-1156 | awaiting an unfinished child resumes it at once and links it only if it is still running |
| CoreTaskFacts.WithRunsBeforeBodyAfter | include/CoTaskLib/Core.hpp:1023-1041 | events come out Before task, body, After task, in that order |
| CoreTaskFacts.ValueReadOnce | include/CoTaskLib/Core.hpp:1266-1278 | `value()` hands out the outcome once (rethrowing a failure) and a second call throws |
| CoreTaskFacts.OutcomeIsFinal | include/CoTaskLib/Core.hpp:1202-1205 | once finished, any number of resumes leaves the outcome as it was |
| CoreTaskFacts.ResumeKeepsWf | include/CoTaskLib/Core.hpp:1208-1229 | any number of resumes keeps the reachable-state invariant |
| CoreTaskFacts.DelayFrame | include/CoTaskLib/Core.hpp:1611-1617 | a fresh, unstarted task whose body is one `NextFrame` per frame, none for a negative count (its timing is DelayFrameFinishesOnResume) |
| CoreTaskFacts.DelayFrameFinishesOnResume | include/CoTaskLib/Core.hpp:1611-1617 | `DelayFrame(n)` is running after n resumes and finishes on resume n+1 (the first one for negative n) |
| CoreTaskFacts.WaitUntilFinishesIffHolds | include/CoTaskLib/Core.hpp:1646-1652 | `WaitUntil(p)` finishes on exactly the resume at which p holds |
| CoreTaskFacts.WaitWhileFinishesIffNotHolds | include/CoTaskLib/Core.hpp:1656-1662 | `WaitWhile(p)` finishes on exactly the resume at which p fails |
| CoreTaskFacts.UpdaterNeverFinishes | include/CoTaskLib/Core.hpp:1508-1515 | the plain `UpdaterTask` calls its function once per resume and never finishes |
| CoreTaskFacts.UpdaterFinishesWithRequest | include/CoTaskLib/Core.hpp:1519-1532 | the valued `UpdaterTask` finishes on the resume whose call requests it, with the requested value |
| CoreTaskFacts.VoidUpdaterFinishesOnRequest | include/CoTaskLib/Core.hpp:1536-1549 | the void `UpdaterTask` finishes on exactly the resume that requests it |
| CoreTaskFacts.AllFinishesIffAllDone | include/CoTaskLib/Core.hpp:1885-1901 | one resume of `All` resumes every argument once, in order, and finishes iff all are then done, with their results |
| CoreTaskFacts.AnyFinishesIffSomeDone | include/CoTaskLib/Core.hpp:1904-1924 | `Any` finishes at once if an argument is done, otherwise resumes all once per resume and finishes iff one is then done |
| CoreTaskFacts.FromResult | include/CoTaskLib/Core.hpp:1605-1608 | a fresh, unstarted task whose body only returns v (its behaviour is FromResultReturns) |
| CoreTaskFacts.FromResultReturns | include/CoTaskLib/Core.hpp:1605-1608 | `FromResult(v)` finishes on its first resume with v |
| CoreTaskFacts.AllOfTwoFinishes | include/CoTaskLib/Core.hpp:1885-1901 | `All(a, c)` whose arguments both finish on their first resume finishes on its own first resume with the tuple of the two |
| CoreTaskFacts.AllOfTwoDeliverable | include/CoTaskLib/Core.hpp:1844-1901 | `All(a, c)` whose arguments both return on their first resume yields the pair of their values |
| CoreTaskFacts.AnyOfTwoFinishes | include/CoTaskLib/Core.hpp:1904-1924 | `Any(a, c)` over two running tasks, one of which finishes on its first resume, finishes then with the tuple of optionals |
| CoreTaskFacts.AnyOfPendingAndDeliverable | include/CoTaskLib/Core.hpp:1859-1924 | in that tuple the still-running argument gives an empty optional and the returned one its value |
| CoreTaskFacts.AllOfVoidAndValue | include/CoTaskLib/Core.hpp:1844-1901 | a void task contributes `VoidResult` to `All`'s tuple |
| CoreTaskFacts.AnyOfWaiterAndValue | include/CoTaskLib/Core.hpp:1859-1924 | a still-running argument of `Any` contributes an empty optional |
| CoreBackend.Init | include/CoTaskLib/Core.hpp:295-303 | a second backend instance throws; the first starts empty with counter 1 |
| CoreBackend.EndCallback | include/CoTaskLib/Core.hpp:56-73 | a finished task's finish callback fires after its value is taken, and a value failure fires the cancel callback and is rethrown; an unfinished task fires its cancel callback |
| CoreBackend.AfterEndCallback | include/CoTaskLib/Core.hpp:413-428 | after the end callback, a finished task's value is marked consumed |
| CoreBackend.VisitEntry | include/CoTaskLib/Core.hpp:353-376 | one turn resumes the entry once and reaps it iff it is done or its runner removed it, firing one end callback |
| CoreBackend.Update | include/CoTaskLib/Core.hpp:348-383 | the loop's result equals the reference frame |
| CoreBackend.Turns | include/CoTaskLib/Core.hpp:351-377 | the loop over the set-aside ids computes the same as the recursive reference, turn by turn |
| CoreBackend.FrameSpec | include/CoTaskLib/Core.hpp:348-383 | after a frame, an entry present at its start is erased iff its resumed task is done or its runner removed itself, a survivor holds its resumed task, and no entry is current |
| CoreBackend.FrameRunsInOrder | include/CoTaskLib/Core.hpp:351-377 | a frame resumes the entries present at its start once each, in ascending id order |
| CoreBackend.FrameEndCallbacks | include/CoTaskLib/Core.hpp:357-372 | a frame fires for each entry exactly the end callback `callEndCallback` picks if it reaps the entry, and none otherwise |
| CoreBackend.FrameRethrowsFirst | include/CoTaskLib/Core.hpp:359-381 | a frame rethrows nothing iff no end callback threw, else the exception of the lowest id whose callback threw |
| CoreBackend.SingleEntryFrame | include/CoTaskLib/Core.hpp:348-383 | a frame over one entry is exactly that entry's turn |
| CoreBackend.FrameEntries | include/CoTaskLib/Core.hpp:355-376 | after the frame an entry is gone iff its task is done or its runner removed it, else it holds its resumed task |
| CoreBackend.FrameVisitsInOrder | include/CoTaskLib/Core.hpp:351-377 | a frame resumes exactly the ids present at its start, each once, in ascending order |
| CoreBackend.VisitFires | include/CoTaskLib/Core.hpp:357-372 | one turn fires for its entry exactly the end callback `callEndCallback` picks, or none if the entry survives |
| CoreBackend.FrameFiresOnce | include/CoTaskLib/Core.hpp:357-372 | over a frame, each entry fires exactly one end callback if reaped and none otherwise |
| CoreBackend.FrameKeepsFirstFailure | include/CoTaskLib/Core.hpp:359-381 | a frame rethrows nothing iff no end callback threw, else the first such exception in visiting order |
| CoreBackend.FrameThrownById | include/CoTaskLib/Core.hpp:359-381 | the same, stated in terms of ids |
| CoreBackend.Remove | include/CoTaskLib/Core.hpp:457-477 | without an instance nothing happens; the current id is only flagged; an absent id is ignored; a present entry fires one end callback and is erased iff that callback does not throw, otherwise it stays with its value consumed; nothing else changes |
| CoreBackend.RemoveErasing | include/CoTaskLib/Core.hpp:471-476 | corrected: fires and throws exactly as `Remove`, but the entry is erased whether or not the callback throws |
| CoreBackend.IsDone | include/CoTaskLib/Core.hpp:480-492 | throws without an instance; a present entry is done iff its task is; an absent id iff it was handed out |
| CoreBackend.Add | include/CoTaskLib/Core.hpp:398-455 | throws without an instance; otherwise stores the entry under the next id and advances the counter |
| CoreBackend.ManualUpdate | include/CoTaskLib/Core.hpp:494-501 | throws without an instance, otherwise runs one frame |
| CoreBackend.Register | include/CoTaskLib/Core.hpp:588-651 | a task finished before or by its first resume fires its end callback and is not registered; otherwise it is added under a new id |
| CoreRunner.RunScoped | include/CoTaskLib/Core.hpp:672-675 | the runner holds an id iff registration handed one out |
| CoreRunner.MoveRunner | include/CoTaskLib/Core.hpp:681-685 | the moved-to runner takes the id and the source holds none |
| CoreRunner.DestroyRunner | include/CoTaskLib/Core.hpp:689-695 | destroying a runner removes the id it holds, and nothing else |
| CoreRunner.RunnerDone | include/CoTaskLib/Core.hpp:698-701 | a runner without an id is done; otherwise it answers as `Backend::IsDone` |
| CoreRunner.Forget | include/CoTaskLib/Core.hpp:703-706 | `forget` drops the id and leaves the backend alone |
| CoreRunner.RequestCancel | include/CoTaskLib/Core.hpp:708-715 | cancelling removes the held id through `Remove` and drops it; if `Remove` throws, the id is kept |
| CoreRunner.CancelFiresOnce | include/CoTaskLib/Core.hpp:708-715 | cancelling a registered unfinished task fires its cancel callback once; it throws iff that callback does; without a throw the entry is gone, the runner is done and cancelling again fires nothing; with one the runner keeps its id, is not done, and cancelling again fires and throws again |
| CoreRunner.RemoveIsFinalUnlessThrown | include/CoTaskLib/Core.hpp:457-477 | after a removal outside the entry's turn the id is gone iff no callback threw; then a second removal fires nothing and the id reads as done, otherwise a second removal fires again |
| CoreRunner.ForgetKeepsEntry | include/CoTaskLib/Core.hpp:703-706 | a forgotten task keeps running and later fires its end callback through a frame |
| CoreRunner.RunScopedDoneIffFinished | include/CoTaskLib/Core.hpp:636-651 | a runner holds an id iff its task is still running after the first resume; it is done at once iff it holds none |
| CoreRunner.RemoveAsWrittenFiresTwice | include/CoTaskLib/Core.hpp:471-476 | a throwing cancel callback fires twice: once at `requestCancel()` and again, throwing again, when the runner that kept its id is destroyed |
| CoreRunner.RemoveErasingFiresOnce | include/CoTaskLib/Core.hpp:457-477 | with `RemoveErasing`, the cancel callback fires once despite its throw; removing again fires nothing and the id reads as done |
| CoreRunner.AllRunnersDone | include/CoTaskLib/Core.hpp:768-771 | `allDone` is true iff every runner is done, stopping at the first that is not or that throws; true for none |
| CoreRunner.AnyRunnerDone | include/CoTaskLib/Core.hpp:774-777 | `anyDone` is true iff some runner is done, stopping at the first; false for none |
| CoreRunner.RequestCancelAll | include/CoTaskLib/Core.hpp:759-765 | `requestCancelAll` cancels every runner in order: entries only go away, and when nothing throws every runner ends up empty with its entry removed |
| CoreRunner.DelayFrameTick | include/CoTaskLib/Core.hpp:348-383 | a frame moves an unfinished `DelayFrame(3)` entry on one step and fires nothing |
| CoreRunner.DelayFrameLastTick | include/CoTaskLib/Core.hpp:348-383 | the frame in which `DelayFrame(3)` passes its last step fires its finish callback once and erases it |
| CoreRunner.DelayFrameFinishesOnThirdFrame | include/CoTaskLib/Core.hpp:1611-1617 | `DelayFrame(3).runScoped` registers as id 1 and fires its finish callback on exactly the third frame, and never again |
| CoreRunner.DestroyFiresCancelOnce | include/CoTaskLib/Core.hpp:689-695 | destroying the runner after two frames fires the cancel callback once and throws iff it does; without a throw later frames fire nothing and the id reads done, with one the entry stays |
| FrameTimed.NewTask | include/CoTaskLib.hpp:649-653 | a new task is suspended before its body, next to run at Update, with nothing attached |
| FrameTimed.WithTask | include/CoTaskLib.hpp:551-555 | `with(task)` appends to the concurrent tasks and leaves the function lists alone |
| FrameTimed.WithFunc | include/CoTaskLib.hpp:558-576 | `withUpdate/Draw/LateDraw` appends to that timing's list only |
| FrameTimed.FuncEvents | include/CoTaskLib.hpp:495-518 | the functions of the given timing are called once each, in list order |
| FrameTimed.TaskValue | include/CoTaskLib.hpp:763-797 | a captured exception is rethrown first; a void task then returns; a valued one returns its value or throws if none was set |
| FrameTimed.Settle | include/CoTaskLib.hpp:693-704 | a finished body records its outcome and a failure is rethrown from the resume; a suspension records the resume point |
| FrameTimed.Resume | include/CoTaskLib.hpp:482-519 | a done task is untouched; resuming never changes its shape |
| FrameTimed.ResumeEach | include/CoTaskLib.hpp:486-489 | without an exception every concurrent task is resumed once at the timing; an exception stops the loop |
| FrameTimed.ResumeHandle | include/CoTaskLib.hpp:412-431 | a done handle is untouched; the concurrent tasks and shape are preserved |
| FrameTimed.Step | include/CoTaskLib.hpp:613-628 | one run of the body keeps the concurrent tasks and shape |
| FrameTimed.RunScript | include/CoTaskLib.hpp:683-691 | straight-line code suspends only forward and links only an unfinished awaited task |
| FrameTimed.AfterAwait | include/CoTaskLib.hpp:625-628 | after `await_resume` the body resumes strictly past the await |
| FrameTimed.StepAll | include/CoTaskLib.hpp:1528-1561 | a run of `All`'s body keeps its shape |
| FrameTimed.StepAny | include/CoTaskLib.hpp:1564-1596 | a run of `Any`'s body keeps its shape |
| FrameTimed.Phase | include/CoTaskLib.hpp:1547-1558 | the common combinator loop keeps the combinator's shape |
| FrameTimed.UpdatePhase | include/CoTaskLib.hpp:1549-1554 | the Update step resumes every argument at Update first |
| FrameTimed.DrivePhase | include/CoTaskLib.hpp:1555-1558 | the Draw and LateDraw steps resume every argument at that timing first |
| FrameTimed.Fail | include/CoTaskLib.hpp:1549 | an argument's exception fails the combinator with that exception |
| FrameTimed.Conclude | include/CoTaskLib.hpp:1550-1553 | `co_return make_tuple(...)` finishes with the tuple outcome, failing iff the tuple could not be built |
| FrameTimed.TupleOutcome | include/CoTaskLib.hpp:1544 | a built tuple is returned and a failure raised |
| FrameTimed.Converted | include/CoTaskLib.hpp:1416-1426 | a void task converts to `VoidResult` without being read; otherwise its value |
| FrameTimed.AllResults | include/CoTaskLib.hpp:1544 | the tuple is built iff every conversion succeeds, holding the converted values; otherwise the first failure |
| FrameTimed.ConvertedOpt | include/CoTaskLib.hpp:1430-1445 | an unfinished task gives an empty optional, a finished one its converted result |
| FrameTimed.AnyResults | include/CoTaskLib.hpp:1580 | the tuple is built iff every optional conversion succeeds; otherwise the first failure |
| FrameTimedFacts.BodyWaitsForItsTiming | include/CoTaskLib.hpp:419-422 | at any timing other than the one it yielded, the body is untouched |
| FrameTimedFacts.YieldRecordsTiming | include/CoTaskLib.hpp:683-691 | `co_yield t` records t as the next timing; yielding Init fails the body and propagates |
| FrameTimedFacts.ResumeOrderExample | include/CoTaskLib.hpp:482-519 | example: for a body emitting 1, one concurrent task emitting 2 and functions 7 (Update) and 8 (Draw), a resume at Update shows 1, then 2, then 7, and the next resume at Draw shows only 8 |
| FrameTimedFacts.SubFailureEscapesParent | include/CoTaskLib.hpp:707-729 | a running sub-awaiter's exception escapes the parent's resume without failing the parent |
| FrameTimedFacts.FinishedSubFailureFailsParent | include/CoTaskLib.hpp:625-628 | at the parent's timing, the finished sub-awaiter's failure is raised again inside the parent, which fails |
| FrameTimedFacts.DoneIsFinal | include/CoTaskLib.hpp:763-771 | a finished task never changes, so `value()` answers the same every time |
| FrameTimedFacts.DelayFrame | include/CoTaskLib.hpp:819-825 | a fresh void task waiting for Update, with no concurrent tasks or functions, whose body yields Update once per frame, none for a negative count (its timing is DelayFrameFinishesInFrame) |
| FrameTimedFacts.DelayStep | include/CoTaskLib.hpp:819-825 | a `DelayFrame` body waits out Draw and LateDraw and passes one yield per Update |
| FrameTimedFacts.DelayFrameStep | include/CoTaskLib.hpp:109-125 | one whole frame moves `DelayFrame` one yield on or finishes it |
| FrameTimedFacts.DelayFrameFinishesInFrame | include/CoTaskLib.hpp:819-825 | `DelayFrame(n)` is running after n frames and finishes in frame n+1 |
| FrameTimedFacts.CombinatorFrame | include/CoTaskLib.hpp:1547-1558 | in one frame the arguments are resumed at Update, Draw and LateDraw once each, and the combinator finishes at Update iff its exit test holds |
| FrameTimedFacts.AllStartsDone | include/CoTaskLib.hpp:1542-1545 | `All` over arguments already done finishes on its first resume without resuming them |
| FrameTimedFacts.FailedVoidArgumentGoesUnnoticed | include/CoTaskLib.hpp:1416-1445 | a failed void argument shows up as `VoidResult` and its failure is lost, while a failed valued argument fails the tuple |
| Sweeps.SweepIds | include/CoTaskLib.hpp:150-163 | the loop touches only present ids and stops at the first throw, having visited every id otherwise |
| Sweeps.SweepKeepsOthers | include/CoTaskLib.hpp:150-163 | an entry the loop does not visit is left as it was |
| Sweeps.SweepOrder | include/CoTaskLib.hpp:150-163 | the loop visits ids in the given order, each at most once |
| Sweeps.SweepEvents | include/CoTaskLib.hpp:154 | each visit shows the events of that task's resume |
| Sweeps.SweepThrown | include/CoTaskLib.hpp:154 | only the last visit can throw, and that exception is the one propagated |
| Sweeps.SweepUnreached | include/CoTaskLib.hpp:150-163 | ids after a throw are left untouched |
| Sweeps.SweepVisits | include/CoTaskLib.hpp:154-162 | a visited task is erased if it finished and kept resumed otherwise; a throwing one is kept |
| Sweeps.SweepAll | include/CoTaskLib.hpp:150-163 | a full sweep keeps only present keys and visits all ids when nothing throws |
| Sweeps.StoppedAt | include/CoTaskLib.hpp:152-164 | after a throw the id it came from is still current; after a full sweep none is |
| Sweeps.SweepAllInOrder | include/CoTaskLib.hpp:150-163 | a whole sweep visits ids in ascending order, showing each task's events, and stops exactly at the first resume that throws |
| Sweeps.SweepAllUnreached | include/CoTaskLib.hpp:150-163 | the ids a whole sweep did not reach are left untouched |
| Sweeps.SweepAllVisits | include/CoTaskLib.hpp:154-162 | each id a whole sweep visited is erased if it finished and otherwise holds its resumed state; the id a throw stopped at is kept |
| Sweeps.SweepSingle | include/CoTaskLib.hpp:150-163 | a one-entry registry is resumed once and its entry kept or erased |
| FrameTimedBackend.InitBackend | include/CoTaskLib.hpp:91-99 | a second instance throws; the first starts at Init with counter 1 |
| FrameTimedBackend.At | include/CoTaskLib.hpp:154 | a pass resumes each task at the pass's timing |
| FrameTimedBackend.ResumeAt | include/CoTaskLib.hpp:147-165 | the pass records its timing, sweeps the registry, and leaves the throwing id current or none |
| FrameTimedBackend.AddonUpdate | include/CoTaskLib.hpp:109-114 | the addon's update marks the first update done and runs the Update pass |
| FrameTimedBackend.AddonDraw | include/CoTaskLib.hpp:116-125 | before the first update a draw does nothing; otherwise it runs Draw, then LateDraw unless Draw threw |
| FrameTimedBackend.Add | include/CoTaskLib.hpp:173-187 | throws without an instance; otherwise stores under the next id and advances the counter |
| FrameTimedBackend.Remove | include/CoTaskLib.hpp:189-201 | no-op without an instance; refuses the current id; otherwise erases the id and keeps the invariant |
| FrameTimedBackend.IsDone | include/CoTaskLib.hpp:204-218 | throws without an instance; a present id is done iff its task is; an absent one iff it was handed out |
| FrameTimedBackend.CurrentTiming | include/CoTaskLib.hpp:221-228 | throws without an instance, otherwise the recorded timing |
| FrameTimedBackend.Register | include/CoTaskLib.hpp:303-318 | a finished task is not registered; otherwise it is resumed once at the current timing and added iff still running |
| FrameTimedBackend.MoveLifetime | include/CoTaskLib.hpp:266-270 | the moved-to lifetime takes the id and the source holds none |
| FrameTimedBackend.AssignLifetime | include/CoTaskLib.hpp:272-284 | self-assignment changes nothing; otherwise the old id is removed and the source's id taken over |
| FrameTimedBackend.DestroyLifetime | include/CoTaskLib.hpp:286-292 | destroying removes the owned id |
| FrameTimedBackend.LifetimeDone | include/CoTaskLib.hpp:295-298 | an empty lifetime is done; otherwise it asks the backend |
| FrameTimedBackend.RegisterDoneIffFinished | include/CoTaskLib.hpp:303-318 | the lifetime is done iff the registered task had already finished, or its first resume finished it or threw; registering throws iff that resume does |
| FrameTimedBackend.RemovedIsDone | include/CoTaskLib.hpp:189-218 | a removed handed-out id reads as done |
| FrameTimedBackendFacts.SinglePass | include/CoTaskLib.hpp:147-165 | a pass over one non-throwing task resumes it once, keeping or erasing it |
| FrameTimedBackendFacts.DelayFrameUnderBackend | include/CoTaskLib.hpp:819-825 | `DelayFrame(1)` registered on a fresh backend gets id 1, survives a draw before the first update and the first frame, and is erased by the second Update pass |
| LegacyTask.NewTask | include/CoTask.hpp:524-528 | a new task is suspended before its body at nest level 0 with no sub-task |
| LegacyTask.TaskValue | include/CoTask.hpp:614-648 | a captured exception is rethrown first; a void task then returns without checking completion; a valued one returns its value or throws |
| LegacyTask.SetNestLevel | include/CoTask.hpp:572-579 | a level above 250 throws and changes nothing; otherwise the level is stored |
| LegacyTask.Settled | include/CoTask.hpp:536-547 | a finished body records its outcome and a failure is rethrown; a suspension records where it stopped |
| LegacyTask.Update | include/CoTask.hpp:418-425 | a done task is untouched; an update never changes its code, kind or nest level |
| LegacyTask.UpdateAt | include/CoTask.hpp:366-380 | a done handle is untouched; an update keeps the nest level it was given |
| LegacyTask.UpdateSubTask | include/CoTask.hpp:550-565 | with no link it does nothing and answers false; otherwise it updates the sub-task, drops the link once it is done, and keeps the parent's resume point |
| LegacyTaskFacts.LinkedSubHoldsBody | include/CoTask.hpp:550-565 | while the linked sub-task runs, the parent's body is not resumed |
| LegacyTaskFacts.FinishedSubResumesBody | include/CoTask.hpp:366-380 | once the sub-task finishes, the body goes on in the same update with its value |
| LegacyTaskFacts.FinishedInAwaitSuspendWaitsAFrame | include/CoTask.hpp:440-451 | a child finished inside `await_suspend` is not linked, and the parent still waits one update before reading it |
| LegacyTaskFacts.AwaitLinksOneLevelDeeper | include/CoTask.hpp:440-451 | a child still running after its first update is linked at the parent's nest level plus one |
| LegacyTaskFacts.TooDeepAwaitFails | include/CoTask.hpp:572-579 | at the deepest level, awaiting an unfinished task fails the parent with the nesting error before the child runs |
| LegacyTaskFacts.SubFailureSurfacesTwice | include/CoTask.hpp:550-565 | a sub-task's exception escapes the parent's update with the link kept, and the next update raises it again inside the parent |
| LegacyTaskFacts.YieldStep | include/CoTask.hpp:656-670 | one update of a yield-only body passes one yield or finishes it |
| LegacyTaskFacts.DelayFrame | include/CoTask.hpp:678-684 | a fresh void task at nest level 0 whose body yields once per frame, none for a negative count (its timing is DelayFrameFinishesOnUpdate) |
| LegacyTaskFacts.DelayFrameFinishesOnUpdate | include/CoTask.hpp:678-684 | `DelayFrame(n)` is running after n updates and finishes on update n+1 |
| LegacyBackend.UpdatePass | include/CoTask.hpp:86-109 | the update sweep keeps the invariant and leaves the throwing id current or none |
| LegacyBackend.DrawPass | include/CoTask.hpp:111-114 | the draw sweep keeps the invariant and leaves the throwing id current or none |
| LegacyBackend.AddonUpdate | include/CoTask.hpp:43-48 | marks the first update done and sweeps only the update tasks |
| LegacyBackend.AddonDraw | include/CoTask.hpp:50-58 | nothing before the first update; otherwise sweeps only the draw tasks |
| LegacyBackend.RegisterTask | include/CoTask.hpp:122-155 | a null task throws, then a missing addon; otherwise the new task goes into its own map under the next id of the shared counter |
| LegacyBackend.UnregisterTask | include/CoTask.hpp:157-171 | no-op without an addon; refuses the running id; otherwise erases the id from both maps |
| LegacyBackend.IsTaskRunning | include/CoTask.hpp:173-181 | throws without an addon; otherwise whether either map holds the id |
| LegacyBackend.UpdateOnceAndRegister | include/CoTask.hpp:279-288 | a started task is updated once and registered iff that neither finished it nor threw |
| LegacyBackend.MoveLifetime | include/CoTask.hpp:195-199 | the moved-to lifetime takes the id and the source holds none |
| LegacyBackend.AssignLifetime | include/CoTask.hpp:201-213 | self-assignment changes nothing; otherwise the old id is unregistered and the source's taken over |
| LegacyBackend.DestroyLifetime | include/CoTask.hpp:268-274 | destroying unregisters the owned id |
| LegacyBackend.IsRunning | include/CoTask.hpp:218-221 | without an id the answer is false and the backend is not asked; otherwise whether it still holds the id |
| LegacyBackendFacts.SharedCounter | include/CoTask.hpp:134-154 | an update task and a draw task get consecutive ids from one counter, each in its own map |
| LegacyBackendFacts.SweepsKeepToTheirMap | include/CoTask.hpp:106-114 | the update sweep leaves the draw tasks alone, and the draw sweep the update tasks |
| LegacyBackendFacts.StartedRunningIffNotFinished | include/CoTask.hpp:279-288 | a started task is running iff its first update neither finished it nor threw |
| LegacyBackendFacts.UnregisteredNotRunning | include/CoTask.hpp:157-181 | an unregistered id no longer counts as running |
| LegacyBackendFacts.DelayFrameUnderBackend | include/CoTask.hpp:678-684 | `DelayFrame(2)` started on a fresh addon gets id 1, survives a draw before the first update and the first update sweep, and is erased by the second |

## Left out

- Siv3D itself is not modelled: the addon registry, timers, input and drawing. Neither are
  the scene, sequence, fade and dialog layers built on the core.
  - `Delay`, `WaitForTimer`, input and mouse waiters and `AsyncThread` depend on the clock,
    input or threads, so they are not modelled.
  - The `Backend::draw` input-caller and drawer executors are modelled only as the
    `OrderedExecutor` they use.
- User callbacks, predicates and update functions are not run. Their answers are a snapshot
  passed in as a parameter, and their calls are recorded as events.
  - A null `std::function` callback is not distinguished from one that does nothing.
- `int32` sorting orders are bounded by the `Int32` subset type. The `uint64` id counters
  are unbounded and never wrap.
- C++ leaves the evaluation order of `make_tuple` arguments unspecified. It is modelled left
  to right, like the comma folds that resume the arguments.
- In Core.hpp, a task body or end callback that adds or removes entries other than its own
  during `Backend::update` is not modelled. Only self-removal (the deferred
  `m_currentAwaiterRemovalNeeded` flag) is.
- The same holds for the frame-timed and legacy sweeps: entries added or removed from inside
  a sweep are not modelled.
- `SetCurrentSceneFactory` / `CurrentSceneFactory` belong to the scene layer and are not
  modelled.
- A null awaiter passed to the frame-timed `Backend::Add` cannot arise from the library's
  own callers, so it is not modelled.
- A `with(task, timing)` with an invalid `WithTiming` value cannot be constructed from the
  enum, so it is not modelled.
- Legacy `CoTaskBackend::Init` registering the addon a second time is not modelled. The
  backend is either absent (`Uninitialized`) or freshly registered (`Started`).
- The legacy `WhenAll` / `WhenAny`, `CoLinear` and the scene classes of `CoTask.hpp` are not
  modelled.
- CoreTask.AllResults: the arguments' consumed flags after the tuple is built are not
  recorded, because the combinator owns the arguments and they are unreachable afterwards.
- CoreTask.Resume: a non-void body that runs off its end sets no result in C++; the model
  gives it the unit value instead.
- FrameTimedBackend.AssignLifetime: a `Remove` that throws inside the `noexcept` move
  assignment or destructor terminates the program in C++. The model returns it as an error
  result.
- LegacyBackend.AssignLifetime: the same `noexcept` escape, for `UnregisterTask`.
- FrameTimedBackend.DestroyLifetime: the destructor is implicitly `noexcept`, so a `Remove`
  that throws terminates the program in C++. The model returns it as an error result.
- LegacyBackend.DestroyLifetime: the same `noexcept` escape, for `UnregisterTask`.
- CoreRunner.DestroyRunner: `~ScopedTaskRunner` is implicitly `noexcept`, so an end callback
  that throws inside its `Remove` terminates the program in C++. The model returns the
  exception in `thrown` instead.
- CoreRunner.DestroyFiresCancelOnce: the same `noexcept` escape. With a throwing cancel
  callback the lemma states the state after the throw, which C++ never reaches.
- User code other than Core's end callbacks never throws in the model. A `sortingOrderFunc`
  or an executor callback that throws, a `WaitUntil`/`WaitWhile` predicate that throws, and
  an `UpdaterTask` update function that throws are all outside it. The members listed next
  therefore promise "never throws" only under that assumption.
- OrderedExecutor.RefreshSpec: a `sortingOrderFunc` that throws in the first loop would
  propagate out of `refreshSortingOrder` with nothing changed; this is not modelled.
- OrderedExecutor.CallRekeys: a callback that throws in the second loop of `call` would stop
  the loop after the refresh; this is not modelled.
- OrderedExecutor.CallInvokesRefreshedKeys: the full list of callbacks assumes none of them
  throws.
- OrderedExecutor.CallRunsEach: every registered callback runs only if none of them throws.
- CoreTask.StepLoop: a polling loop whose predicate or update function throws would finish
  the task with that exception; this is not modelled.
- CoreTaskFacts.WaitUntilFinishesIffHolds: the predicate is a snapshot of answers and never
  throws.
- CoreTaskFacts.WaitWhileFinishesIffNotHolds: the predicate is a snapshot of answers and
  never throws.
- CoreTaskFacts.UpdaterNeverFinishes: the plain `UpdaterTask` would finish with an exception
  if its function threw; the model's function never throws.
- CoreTaskFacts.UpdaterFinishesWithRequest: the update function never throws.
- CoreTaskFacts.VoidUpdaterFinishesOnRequest: the update function never throws.
- LegacyTask.UpdateAt: the body-level functions `RunBody`, `AwaitChild` and `AfterAwait`
  carry no contracts of their own. Their behaviour is stated through the LegacyTaskFacts
  lemmas.

## Findings

| source | as written | input that shows it | evidently intended | confidence | as-written member | corrected member |
|---|---|---|---|---|---|---|
| include/CoTaskLib/Core.hpp:471-476 | `Backend::Remove` calls `callEndCallback()` before `erase`. When the cancel callback throws, the entry stays registered with its value consumed, and `requestCancel` keeps its id. The runner's destructor then fires the callback a second time, inside the implicitly `noexcept` `~ScopedTaskRunner`, where the throw calls `std::terminate`. | A runner over an unfinished task whose cancel callback throws: `requestCancel()`, then destroy the runner. | The entry is erased whether or not the callback throws, so the cancel callback fires once. | not executed | CoreRunner.RemoveAsWrittenFiresTwice | CoreRunner.RemoveErasingFiresOnce |
