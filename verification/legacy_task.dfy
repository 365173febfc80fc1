/** The task of include/CoTask.hpp (namespace `cotask`): a coroutine that starts on its
    first `update()`, runs until it yields once or awaits another task, links a still
    running awaited task as its sub-task, and refuses to nest deeper than 250 levels. */
module LegacyTask {
  import opened Values

  /** `PromiseBase::MaxNestLevel`. */
  const MaxNestLevel: nat := 250

  /** What a body can observably do between suspensions. */
  datatype Event = Emitted(tag: nat)

  /** The straight-line vocabulary of a body: `co_await Yield{}`, an observable effect,
      `co_await child;`, `co_return co_await child;`, `co_return v;`, `throw`. */
  datatype Instr =
    | Yield
    | Emit(tag: nat)
    | Await(child: Task)
    | AwaitReturn(child: Task)
    | Return(v: Value)
    | Throw(code: int)

  /** How a finished body ended: the value it returned (none for a void body or one that
      ran off its end), or the exception `unhandled_exception` captured. */
  datatype Outcome = Returned(v: Option<Value>) | Raised(e: Exn)

  /** A `CoTask<T>` and its promise: the body and its resume point, the awaited task the
      coroutine frame holds while suspended on it (`sub`) and whether the promise links it
      as `m_pSubTask` (`linked`), `m_nestLevel`, and the outcome once the coroutine is at
      its final suspend point. */
  datatype Task = Task(
    code: seq<Instr>,
    isVoid: bool,
    pc: nat,
    sub: Option<Task>,
    linked: bool,
    nest: nat,
    outcome: Option<Outcome>)

  /** A coroutine just created: suspended before its first statement, at nest level 0. */
  function NewTask(code: seq<Instr>, isVoid: bool): (t: Task)
    ensures !Done(t) && t.pc == 0 && t.sub.None? && !t.linked && t.nest == 0
    ensures t.code == code && t.isVoid == isVoid
  {
    Task(code, isVoid, 0, None, false, 0, None)
  }

  /** `CoroutineHandleWrapper::done()`: the coroutine reached its final suspend point. */
  predicate Done(t: Task) {
    t.outcome.Some?
  }

  predicate Awaits(i: Instr) {
    i.Await? || i.AwaitReturn?
  }

  /** `Promise<T>::value()`: a captured exception is rethrown first; `Promise<void>`
      then returns, without asking whether the body finished; otherwise the value, or a
      throw if none was set. */
  function TaskValue(t: Task): (r: Result<Value>)
    ensures t.outcome.Some? && t.outcome.value.Raised? ==> r == Err(t.outcome.value.e)
    ensures !(t.outcome.Some? && t.outcome.value.Raised?) && t.isVoid ==> r == Ok(VoidResult)
    ensures !(t.outcome.Some? && t.outcome.value.Raised?) && !t.isVoid ==>
      (r.Ok? <==> t.outcome.Some? && t.outcome.value.v.Some?)
    ensures r.Err? && !(t.outcome.Some? && t.outcome.value.Raised?) ==> r == Err(Logic(NotCompleted))
    ensures r.Ok? && !t.isVoid ==> r.value == t.outcome.value.v.value
  {
    match t.outcome
    case Some(Raised(e)) => Err(e)
    case Some(Returned(v)) =>
      if t.isVoid then Ok(VoidResult)
      else if v.Some? then Ok(v.value) else Err(Logic(NotCompleted))
    case None =>
      if t.isVoid then Ok(VoidResult) else Err(Logic(NotCompleted))
  }

  /** `PromiseBase::setNestLevel(level)`: a level above the maximum throws and leaves the
      task as it was. */
  function SetNestLevel(t: Task, level: nat): (r: Result<Task>)
    ensures r.Err? <==> level > MaxNestLevel
    ensures r.Err? ==> r.error == Logic(TooDeeplyNested)
    ensures r.Ok? ==> r.value == t.(nest := level)
  {
    if level > MaxNestLevel then Err(Logic(TooDeeplyNested)) else Ok(t.(nest := level))
  }

  /** Where a run of the body stopped: at a resume point, holding the task it awaits
      there (linked as sub-task or not); or finished. */
  datatype Stop = Suspend(pc: nat, sub: Option<Task>, linked: bool) | Finish(outcome: Outcome)

  /** Records where the body stopped, at nest level `n`; a captured exception is
      rethrown by the handle's `update` (`rethrowIfException`). */
  function Settled(t: Task, n: nat, s: Stop, ev: seq<Event>): (r: (Task, seq<Event>, Option<Exn>))
    requires !Done(t)
    ensures r.1 == ev && r.0.nest == n && r.0.code == t.code && r.0.isVoid == t.isVoid
    ensures s.Finish? ==> Done(r.0) && r.0.outcome == Some(s.outcome) && r.0.sub.None?
    ensures s.Finish? ==> (r.2.Some? <==> s.outcome.Raised?)
    ensures s.Finish? && s.outcome.Raised? ==> r.2 == Some(s.outcome.e)
    ensures s.Suspend? ==> r.0 == t.(nest := n, pc := s.pc, sub := s.sub, linked := s.linked) && r.2.None?
  {
    match s
    case Suspend(pc, sub, linked) => (t.(nest := n, pc := pc, sub := sub, linked := linked), ev, None)
    case Finish(o) =>
      (t.(nest := n, sub := None, linked := false, outcome := Some(o)), ev, if o.Raised? then Some(o.e) else None)
  }

  // ---------------------------------------------------------------- update

  /** `CoTask::update()`: nothing once done; otherwise `CoroutineHandleWrapper::update`. */
  function Update(t: Task): (r: (Task, seq<Event>, Option<Exn>))
    ensures Done(t) ==> r == (t, [], None)
    ensures r.0.code == t.code && r.0.isVoid == t.isVoid && r.0.nest == t.nest
    decreases t, 4
  {
    UpdateAt(t, t.nest)
  }

  /** `CoroutineHandleWrapper::update()` for a task at nest level `n`: a linked sub-task
      is updated first and, while it is still running, the body waits; otherwise the body
      is resumed, and an exception it captured is rethrown. */
  function UpdateAt(t: Task, n: nat): (r: (Task, seq<Event>, Option<Exn>))
    ensures Done(t) ==> r == (t, [], None)
    ensures !Done(t) ==> r.0.nest == n
    ensures r.0.code == t.code && r.0.isVoid == t.isVoid
    decreases t, 3
  {
    if Done(t) then (t, [], None)
    else
      var (t1, ev, x, running) := UpdateSubTask(t);
      if x.Some? then (t1.(nest := n), ev, x)
      else if running then (t1.(nest := n), ev, None)
      else if t1.sub.Some? then
        var (s, ev2) := AfterAwait(t, n, t.pc, TaskValue(t1.sub.value));
        Settled(t1, n, s, ev + ev2)
      else
        var (s, ev2) := RunBody(t, n, t.pc);
        Settled(t1, n, s, ev + ev2)
  }

  /** `PromiseBase::updateSubTask()`: with no linked sub-task it answers false and does
      nothing; otherwise it updates the sub-task, drops the link once the sub-task is
      done, and answers whether it is still running. An exception from the sub-task
      escapes with the link kept. */
  function UpdateSubTask(t: Task): (r: (Task, seq<Event>, Option<Exn>, bool))
    requires !Done(t)
    ensures !(t.sub.Some? && t.linked) ==> r == (t, [], None, false)
    ensures t.sub.Some? && t.linked ==>
      var (s, ev, x) := Update(t.sub.value);
      && r.0 == t.(sub := Some(s), linked := x.Some? || !Done(s))
      && r.1 == ev && r.2 == x
      && (x.None? ==> (r.3 <==> !Done(s)))
    ensures !Done(r.0) && r.0.pc == t.pc
    decreases t, 2
  {
    if !(t.sub.Some? && t.linked) then (t, [], None, false)
    else
      var (s, ev, x) := Update(t.sub.value);
      if x.Some? then (t.(sub := Some(s)), ev, x, true)
      else if Done(s) then (t.(sub := Some(s), linked := false), ev, None, false)
      else (t.(sub := Some(s)), ev, None, true)
  }

  /** Runs the body of `root` at nest level `n` from `pc` to its next suspension. */
  function RunBody(root: Task, n: nat, pc: nat): (r: (Stop, seq<Event>))
    decreases root, 1, |root.code| - pc, 2
  {
    var code := root.code;
    if pc >= |code| then (Finish(Returned(None)), [])
    else
      match code[pc]
      case Yield => (Suspend(pc + 1, None, false), [])
      case Emit(k) =>
        var (s, ev) := RunBody(root, n, pc + 1);
        (s, [Emitted(k)] + ev)
      case Return(v) => (Finish(Returned(Some(v))), [])
      case Throw(c) => (Finish(Raised(BodyFailure(c))), [])
      case Await(c) => AwaitChild(root, n, pc, c)
      case AwaitReturn(c) => AwaitChild(root, n, pc, c)
  }

  /** `co_await child` (`CoTask::await_ready` / `await_suspend`): a finished child is not
      waited for; otherwise the child gets nest level `n + 1` (too deep throws), is
      updated once, and is linked as sub-task unless that update finished it. The
      parent suspends either way (`await_suspend` returns void). An exception from
      `await_suspend` goes back into the parent's body, which captures it. */
  function AwaitChild(root: Task, n: nat, pc: nat, c: Task): (r: (Stop, seq<Event>))
    requires pc < |root.code| && root.code[pc] in [Await(c), AwaitReturn(c)]
    decreases root, 1, |root.code| - pc, 1
  {
    if Done(c) then AfterAwait(root, n, pc, TaskValue(c))
    else if n + 1 > MaxNestLevel then (Finish(Raised(Logic(TooDeeplyNested))), [])
    else
      var (c1, ev, x) := UpdateAt(c, n + 1);
      if x.Some? then (Finish(Raised(x.value)), ev)
      else (Suspend(pc, Some(c1), !Done(c1)), ev)
  }

  /** `await_resume`: the awaited task's `value()`; a throw fails the parent, a plain
      `co_await` continues after it, `co_return co_await` returns it. */
  function AfterAwait(root: Task, n: nat, pc: nat, v: Result<Value>): (r: (Stop, seq<Event>))
    decreases root, 1, |root.code| - pc, 0
  {
    if v.Err? then (Finish(Raised(v.error)), [])
    else if pc < |root.code| && root.code[pc].AwaitReturn? then (Finish(Returned(Some(v.value))), [])
    else if pc < |root.code| then RunBody(root, n, pc + 1)
    else (Finish(Returned(None)), [])
  }
}
