/** The task and promise state machine of `Co::Task<TResult>` (include/CoTaskLib/Core.hpp):
    a lazily started coroutine whose body is an explicit step index, an optional
    sub-awaiter that is resumed before the body, tasks attached with `with` that run
    before or after it, and a result slot that can be read once. */
module CoreTask {
  import opened Values
  import FinishSource

  /** What the coroutine body ended with: `return_value` / `return_void`, or an exception
      captured by `unhandled_exception`. */
  datatype Outcome = Returned(v: Value) | Raised(e: Exn)

  /** The promise's result slot: `m_value` with `m_isResultSet` (`outcome.Some?`) and
      `m_resultConsumed`. */
  datatype Slot = Slot(outcome: Option<Outcome>, consumed: bool)

  /** Observable effects of running task bodies, in the order they happen. */
  datatype Event = Emitted(tag: nat) | UpdaterCalled(func: nat)

  /** The world as the bodies see it during one resume: which predicates hold, and which
      update functions request to finish (with which value). */
  datatype Env = Env(holds: set<nat>, requests: map<nat, Value>)

  /** One statement of a straight-line coroutine body. */
  datatype Instr =
    | NextFrame               // co_await NextFrame();
    | Emit(tag: nat)          // an observable side effect
    | Await(child: Task)      // co_await std::move(child);  (result discarded)
    | AwaitReturn(child: Task)// co_return co_await std::move(child);
    | Return(v: Value)        // co_return v;
    | Throw(code: int)        // throw ...;

  /** The coroutine bodies the library defines, plus straight-line user bodies. */
  datatype Body =
    | Script(code: seq<Instr>)
    | WaitUntil(pred: nat)
    | WaitWhile(pred: nat)
    | Updater(func: nat)
    | UpdaterWithResult(func: nat, source: FinishSource.Source)
    | UpdaterWithFinish(func: nat, vsource: FinishSource.VoidSource)
    | All(args: seq<Task>)
    | Any(args: seq<Task>)

  /** `Task<TResult>`: the coroutine (body, resume point `pc`, sub-awaiter, result slot)
      and the `with` tasks run before and after it. A void task returns `VoidResult`. */
  datatype Task = Task(body: Body, pc: nat, sub: Option<Task>, before: seq<Task>, after: seq<Task>, slot: Slot)

  /** `WithTiming`. */
  datatype WithTiming = Before | After

  /** Calling a coroutine function: `initial_suspend` is `suspend_always`, so nothing of
      the body has run. */
  function NewTask(body: Body): (t: Task)
    ensures !Done(t) && t.pc == 0 && t.sub.None? && !t.slot.consumed
  {
    Task(body, 0, None, [], [], Slot(None, false))
  }

  /** `task.with(other, timing)`: appends to the chosen list. */
  function With(t: Task, w: Task, timing: WithTiming): (r: Task)
    ensures timing == Before ==> r == t.(before := t.before + [w])
    ensures timing == After ==> r == t.(after := t.after + [w])
  {
    match timing
    case Before => t.(before := t.before + [w])
    case After => t.(after := t.after + [w])
  }

  /** `done()`: the coroutine reached its final suspend, which happens exactly when the
      slot was filled. */
  predicate Done(t: Task) {
    t.slot.outcome.Some?
  }

  predicate Awaits(i: Instr) {
    i.Await? || i.AwaitReturn?
  }

  /** `Promise::value()`: throws if no result is set, throws on a second call, otherwise
      marks the slot consumed and returns the value or rethrows the captured exception. */
  function TakeValue(t: Task): (r: (Task, Result<Value>))
    ensures t.slot.outcome.None? ==> r == (t, Err(Logic(NotCompleted)))
    ensures t.slot.outcome.Some? && t.slot.consumed ==> r == (t, Err(Logic(ResultTakenTwice)))
    ensures t.slot.outcome.Some? && !t.slot.consumed ==>
      && r.0 == t.(slot := Slot(t.slot.outcome, true))
      && r.1 == (match t.slot.outcome.value case Returned(v) => Ok(v) case Raised(e) => Err(e))
  {
    if t.slot.outcome.None? then (t, Err(Logic(NotCompleted)))
    else if t.slot.consumed then (t, Err(Logic(ResultTakenTwice)))
    else
      var r := match t.slot.outcome.value
        case Returned(v) => Ok(v)
        case Raised(e) => Err(e);
      (t.(slot := Slot(t.slot.outcome, true)), r)
  }

  /** How a run of the body stops: suspended at a resume point (with the sub-awaiter it
      registered, if any), or finished with an outcome. */
  datatype Stop = Suspend(pc: nat, sub: Option<Task>) | Finish(outcome: Outcome)

  /** Records where the body stopped. */
  function Settle(t: Task, s: Stop): Task
  {
    match s
    case Suspend(pc, sub) => t.(pc := pc, sub := sub)
    case Finish(o) => t.(sub := None, slot := Slot(Some(o), t.slot.consumed))
  }

  /** The link to a sub-awaiter is well placed: the body is suspended at an `co_await` of
      a task that has not finished. */
  predicate SubLinked(t: Task)
    requires t.sub.Some?
  {
    && !Done(t)
    && t.body.Script?
    && t.pc < |t.body.code|
    && Awaits(t.body.code[t.pc])
    && !Done(t.sub.value)
  }

  /** The states reachable from `NewTask`: a consumed slot was set, a sub-awaiter link
      only exists while the body waits on an unfinished task, and the same holds for
      every task this one owns. */
  ghost predicate Wf(t: Task)
    decreases t
  {
    && (t.slot.consumed ==> t.slot.outcome.Some?)
    && (t.sub.Some? ==> SubLinked(t) && Wf(t.sub.value))
    && (forall i | 0 <= i < |t.before| :: Wf(t.before[i]))
    && (forall i | 0 <= i < |t.after| :: Wf(t.after[i]))
    && (t.body.Script? ==>
          && t.pc <= |t.body.code|
          && forall i | 0 <= i < |t.body.code| && Awaits(t.body.code[i]) :: Wf(t.body.code[i].child))
    && ((t.body.All? || t.body.Any?) ==> forall i | 0 <= i < |t.body.args| :: Wf(t.body.args[i]))
  }

  /** Every awaited task in `code` is well formed. */
  ghost predicate CodeWf(code: seq<Instr>) {
    forall i | 0 <= i < |code| && Awaits(code[i]) :: Wf(code[i].child)
  }

  /** Resuming never changes what kind of body a task has, its code, or how many tasks
      it owns. */
  predicate SameShape(t: Task, u: Task) {
    && |u.before| == |t.before|
    && |u.after| == |t.after|
    && (t.body.Script? <==> u.body.Script?)
    && (t.body.Script? ==> u.body.code == t.body.code)
    && (t.body.All? <==> u.body.All?)
    && (t.body.Any? <==> u.body.Any?)
    && ((t.body.All? || t.body.Any?) ==> |u.body.args| == |t.body.args|)
    && (t.body.WaitUntil? ==> u.body == t.body)
    && (t.body.WaitWhile? ==> u.body == t.body)
    && (t.body.Updater? ==> u.body == t.body)
    && (t.body.UpdaterWithResult? <==> u.body.UpdaterWithResult?)
    && (t.body.UpdaterWithFinish? <==> u.body.UpdaterWithFinish?)
  }

  // ---------------------------------------------------------------- resume

  /** `Task::resume()`: nothing once done; otherwise the Before tasks, then the coroutine,
      then the After tasks, each resumed once in list order. */
  function Resume(t: Task, env: Env): (r: (Task, seq<Event>))
    ensures Done(t) ==> r == (t, [])
    ensures r.0.slot.consumed == t.slot.consumed
    ensures SameShape(t, r.0)
    ensures Wf(t) ==> Wf(r.0)
    decreases t, 5
  {
    if Done(t) then (t, [])
    else
      var (bs, e1) := ResumeEach(t, t.before, env);
      var (h, e2) := ResumeHandle(t, env);
      var (afs, e3) := ResumeEach(t, t.after, env);
      (h.(before := bs, after := afs), e1 + e2 + e3)
  }

  /** Resumes each task of `ts` once, in order; the tasks are independent of each other. */
  function ResumeEach(ghost parent: Task, ts: seq<Task>, env: Env): (r: (seq<Task>, seq<Event>))
    requires forall i | 0 <= i < |ts| :: ts[i] < parent
    ensures |r.0| == |ts|
    ensures forall i | 0 <= i < |ts| :: r.0[i] == Resume(ts[i], env).0
    decreases parent, 1, |ts|
  {
    if ts == [] then ([], [])
    else
      var (t0, e0) := Resume(ts[0], env);
      var (rest, es) := ResumeEach(parent, ts[1..], env);
      ([t0] + rest, e0 + es)
  }

  /** `CoroutineHandleWrapper::resume()`: nothing once done; if a sub-awaiter is linked it
      is resumed first, and the body continues in the same call only if that sub-awaiter
      has just finished (the link is then cleared); otherwise the body runs. */
  function ResumeHandle(t: Task, env: Env): (r: (Task, seq<Event>))
    ensures Done(t) ==> r == (t, [])
    ensures r.0.slot.consumed == t.slot.consumed
    ensures r.0.before == t.before && r.0.after == t.after
    ensures SameShape(t, r.0)
    ensures Wf(t) ==> Wf(r.0)
    decreases t, 4
  {
    if Done(t) then (t, [])
    else if t.sub.Some? then
      var (c, ev) := Resume(t.sub.value, env);
      if !Done(c) then (t.(sub := Some(c)), ev)
      else if t.body.Script? && t.pc < |t.body.code| && Awaits(t.body.code[t.pc]) then
        var (s, ev2) := AfterAwait(t, t.body.code, t.pc, c, env);
        (Settle(t, s), ev + ev2)
      else
        // A link outside an awaiting script does not arise (see `Wf`); drop it.
        (t.(sub := None), ev)
    else Step(t, env)
  }

  /** One run of the body from its resume point until it suspends or finishes. */
  function Step(t: Task, env: Env): (r: (Task, seq<Event>))
    requires !Done(t) && t.sub.None?
    ensures r.0.slot.consumed == t.slot.consumed
    ensures r.0.before == t.before && r.0.after == t.after
    ensures SameShape(t, r.0)
    ensures Wf(t) ==> Wf(r.0)
    decreases t, 3
  {
    match t.body
    case Script(code) =>
      var (s, ev) := RunScript(t, code, t.pc, env);
      (Settle(t, s), ev)
    case All(args) => StepAll(t, env)
    case Any(args) => StepAny(t, env)
    case _ => StepLoop(t, env)
  }

  /** The body of `All(args...)`: on its first run it finishes at once if every argument
      is already done; otherwise each run resumes every argument once, in argument order,
      then finishes if all are done and waits a frame if not. */
  function StepAll(t: Task, env: Env): (r: (Task, seq<Event>))
    requires !Done(t) && t.sub.None? && t.body.All?
    ensures r.0.slot.consumed == t.slot.consumed
    ensures r.0.before == t.before && r.0.after == t.after
    ensures SameShape(t, r.0)
    ensures Wf(t) ==> Wf(r.0)
    decreases t, 2
  {
    var args := t.body.args;
    if t.pc == 0 && AllDone(args) then
      (Settle(t, Finish(TupleOutcome(AllResults(args)))), [])
    else
      var (args1, ev) := ResumeEach(t, args, env);
      if AllDone(args1) then
        (Settle(t.(body := All(args1)), Finish(TupleOutcome(AllResults(args1)))), ev)
      else (t.(body := All(args1), pc := 1), ev)
  }

  /** The body of `Any(args...)`: as `All`, but it finishes as soon as one argument is
      done. */
  function StepAny(t: Task, env: Env): (r: (Task, seq<Event>))
    requires !Done(t) && t.sub.None? && t.body.Any?
    ensures r.0.slot.consumed == t.slot.consumed
    ensures r.0.before == t.before && r.0.after == t.after
    ensures SameShape(t, r.0)
    ensures Wf(t) ==> Wf(r.0)
    decreases t, 2
  {
    var args := t.body.args;
    if t.pc == 0 && AnyDone(args) then
      (Settle(t, Finish(TupleOutcome(AnyResults(args)))), [])
    else
      var (args1, ev) := ResumeEach(t, args, env);
      if AnyDone(args1) then
        (Settle(t.(body := Any(args1)), Finish(TupleOutcome(AnyResults(args1)))), ev)
      else (t.(body := Any(args1), pc := 1), ev)
  }

  /** One iteration of the library's polling loops: `WaitUntil`, `WaitWhile` and the three
      `UpdaterTask` overloads. Each run evaluates its predicate or calls its update
      function once, then finishes or waits a frame. */
  function StepLoop(t: Task, env: Env): (r: (Task, seq<Event>))
    requires !Done(t) && t.sub.None?
    requires t.body.WaitUntil? || t.body.WaitWhile? || t.body.Updater?
      || t.body.UpdaterWithResult? || t.body.UpdaterWithFinish?
    ensures r.0.slot.consumed == t.slot.consumed
    ensures r.0.before == t.before && r.0.after == t.after && r.0.sub.None?
    ensures SameShape(t, r.0)
    ensures Wf(t) ==> Wf(r.0)
  {
    match t.body
    case WaitUntil(p) =>
      if p in env.holds then (Settle(t, Finish(Returned(VoidResult))), []) else (t, [])
    case WaitWhile(p) =>
      if p in env.holds then (t, []) else (Settle(t, Finish(Returned(VoidResult))), [])
    case Updater(f) =>
      (t, [UpdaterCalled(f)])
    case UpdaterWithResult(f, src) =>
      var src1 := if f in env.requests then FinishSource.RequestFinish(src, env.requests[f]).0 else src;
      if FinishSource.HasResult(src1) then
        var (src2, res) := FinishSource.TakeResult(src1);
        var o := match res case Ok(v) => Returned(v) case Err(e) => Raised(e);
        (Settle(t.(body := UpdaterWithResult(f, src2)), Finish(o)), [UpdaterCalled(f)])
      else (t.(body := UpdaterWithResult(f, src1)), [UpdaterCalled(f)])
    case UpdaterWithFinish(f, vs) =>
      var vs1 := if f in env.requests then FinishSource.RequestFinishVoid(vs).0 else vs;
      if vs1.requested then
        (Settle(t.(body := UpdaterWithFinish(f, vs1)), Finish(Returned(VoidResult))), [UpdaterCalled(f)])
      else (t.(body := UpdaterWithFinish(f, vs1)), [UpdaterCalled(f)])
  }

  /** Runs straight-line code from `pc` until it suspends or finishes. */
  function RunScript(ghost root: Task, code: seq<Instr>, pc: nat, env: Env): (r: (Stop, seq<Event>))
    requires forall i | 0 <= i < |code| && Awaits(code[i]) :: code[i].child < root
    ensures r.0.Suspend? ==> pc <= r.0.pc <= |code|
    ensures r.0.Suspend? && r.0.sub.Some? ==>
      && r.0.pc < |code| && Awaits(code[r.0.pc]) && !Done(r.0.sub.value)
      && (CodeWf(code) ==> Wf(r.0.sub.value))
    decreases root, 0, |code| - pc, 1
  {
    if pc >= |code| then (Finish(Returned(VoidResult)), [])
    else
      var ins := code[pc];
      if ins.NextFrame? then (Suspend(pc + 1, None), [])
      else if ins.Emit? then
        var (s, ev) := RunScript(root, code, pc + 1, env);
        (s, [Emitted(ins.tag)] + ev)
      else if ins.Return? then (Finish(Returned(ins.v)), [])
      else if ins.Throw? then (Finish(Raised(BodyFailure(ins.code))), [])
      else
        // `await_ready` is `done()`; otherwise `await_suspend` resumes the task once and
        // suspends only if it is still running.
        assert Awaits(code[pc]);
        var child := ins.child;
        if Done(child) then AfterAwait(root, code, pc, child, env)
        else
          var (c, ev) := Resume(child, env);
          if Done(c) then
            var (s, ev2) := AfterAwait(root, code, pc, c, env);
            (s, ev + ev2)
          else (Suspend(pc, Some(c)), ev)
  }

  /** `await_resume()`: takes the awaited task's value (a failure propagates into this
      body) and carries on after the `co_await`. */
  function AfterAwait(ghost root: Task, code: seq<Instr>, pc: nat, c: Task, env: Env): (r: (Stop, seq<Event>))
    requires forall i | 0 <= i < |code| && Awaits(code[i]) :: code[i].child < root
    requires pc < |code| && Awaits(code[pc])
    ensures r.0.Suspend? ==> pc < r.0.pc <= |code|
    ensures r.0.Suspend? && r.0.sub.Some? ==>
      && r.0.pc < |code| && Awaits(code[r.0.pc]) && !Done(r.0.sub.value)
      && (CodeWf(code) ==> Wf(r.0.sub.value))
    decreases root, 0, |code| - pc, 0
  {
    match TakeValue(c).1
    case Err(e) => (Finish(Raised(e)), [])
    case Ok(v) =>
      if code[pc].AwaitReturn? then (Finish(Returned(v)), [])
      else RunScript(root, code, pc + 1, env)
  }

  // ---------------------------------------------------------------- All / Any results

  predicate AllDone(ts: seq<Task>) {
    forall i | 0 <= i < |ts| :: Done(ts[i])
  }

  predicate AnyDone(ts: seq<Task>) {
    exists i | 0 <= i < |ts| :: Done(ts[i])
  }

  /** The task's value can be taken: it returned and nobody took it yet. */
  predicate Deliverable(t: Task) {
    t.slot.outcome.Some? && t.slot.outcome.value.Returned? && !t.slot.consumed
  }

  /** The tuple result of a combinator, or the exception that aborted building it. */
  function TupleOutcome(res: Result<seq<Value>>): Outcome
  {
    match res
    case Ok(vs) => Returned(Tuple(vs))
    case Err(e) => Raised(e)
  }

  /** `make_tuple(ConvertVoidResult(args)...)`, taking the values from left to right: the
      first argument whose value cannot be taken aborts the tuple with its exception. The
      arguments are owned by the combinator and unreachable once it finishes, so marking
      their slots consumed is not recorded. */
  function AllResults(ts: seq<Task>): (r: Result<seq<Value>>)
    ensures r.Ok? <==> forall i | 0 <= i < |ts| :: Deliverable(ts[i])
    ensures r.Ok? ==>
      && |r.value| == |ts|
      && forall i | 0 <= i < |ts| :: ts[i].slot.outcome.value == Returned(r.value[i])
    ensures r.Err? ==> exists k | 0 <= k < |ts| ::
      && (forall i | 0 <= i < k :: Deliverable(ts[i]))
      && !Deliverable(ts[k])
      && r.error == TakeValue(ts[k]).1.error
  {
    if ts == [] then Ok([])
    else
      var v0 := TakeValue(ts[0]).1;
      if v0.Err? then Err(v0.error)
      else
        var vs := AllResults(ts[1..]);
        assert forall i | 1 <= i < |ts| :: ts[i] == ts[1..][i - 1];
        if vs.Err? then Err(vs.error)
        else Ok([v0.value] + vs.value)
  }

  /** `make_tuple(ConvertOptionalVoidResult(args)...)`, left to right: an unfinished
      argument gives an empty optional, a finished one its value; a finished argument
      whose value cannot be taken aborts the tuple with its exception. */
  function AnyResults(ts: seq<Task>): (r: Result<seq<Value>>)
    ensures r.Ok? <==> forall i | 0 <= i < |ts| && Done(ts[i]) :: Deliverable(ts[i])
    ensures r.Ok? ==>
      && |r.value| == |ts|
      && forall i | 0 <= i < |ts| ::
           r.value[i] == (if Done(ts[i]) then Opt(Some(ts[i].slot.outcome.value.v)) else Opt(None))
    ensures r.Err? ==> exists k | 0 <= k < |ts| ::
      && (forall i | 0 <= i < k && Done(ts[i]) :: Deliverable(ts[i]))
      && Done(ts[k]) && !Deliverable(ts[k])
      && r.error == TakeValue(ts[k]).1.error
  {
    if ts == [] then Ok([])
    else
      var v0 := if Done(ts[0]) then TakeValue(ts[0]).1 else Ok(VoidResult);
      if v0.Err? then Err(v0.error)
      else
        var o := if Done(ts[0]) then Opt(Some(v0.value)) else Opt(None);
        var vs := AnyResults(ts[1..]);
        assert forall i | 1 <= i < |ts| :: ts[i] == ts[1..][i - 1];
        if vs.Err? then Err(vs.error)
        else Ok([o] + vs.value)
  }
}
