/** The frame-timed task of include/CoTaskLib.hpp: a coroutine resumed up to three times a
    frame (Update, Draw, LateDraw) whose body advances only at the timing it last
    yielded, with `with` tasks and per-timing functions, and a result that can be read
    any number of times. */
module FrameTimed {
  import opened Values

  /** `FrameTiming`: `Init` is the backend's timing before its first update. */
  datatype Timing = Init | Update | Draw | LateDraw

  /** How the body ended: `return_value` (or falling off the end, which sets no value),
      or an exception captured by `unhandled_exception`. */
  datatype Outcome = Returned(v: Option<Value>) | Raised(e: Exn)

  /** Observable effects of resuming, in order. */
  datatype Event = Emitted(tag: nat) | FuncCalled(timing: Timing, func: nat)

  /** One statement of a straight-line coroutine body. */
  datatype Instr =
    | Yield(timing: Timing)   // co_yield timing;
    | Emit(tag: nat)          // an observable side effect
    | Await(child: Task)      // co_await std::move(child);  (result discarded)
    | AwaitReturn(child: Task)// co_return co_await std::move(child);
    | Return(v: Value)        // co_return v;
    | Throw(code: int)        // throw ...;

  datatype Body = Script(code: seq<Instr>) | All(args: seq<Task>) | Any(args: seq<Task>)

  /** `m_updateFuncs`, `m_drawFuncs`, `m_lateDrawFuncs`. */
  datatype Funcs = Funcs(update: seq<nat>, draw: seq<nat>, lateDraw: seq<nat>)

  /** `Task<TResult>`: body and resume point, `m_nextResumeTiming`, the awaited task
      (linked as sub-awaiter while it runs), the `with` tasks, the per-timing functions
      and the promise's outcome. `isVoid` is `TResult == void`. */
  datatype Task = Task(
    body: Body,
    isVoid: bool,
    pc: nat,
    next: Timing,
    sub: Option<Task>,
    with: seq<Task>,
    funcs: Funcs,
    outcome: Option<Outcome>)

  /** Calling a coroutine function: suspended before its body, next resumed at Update. */
  function NewTask(body: Body, isVoid: bool): (t: Task)
    ensures !Done(t) && t.pc == 0 && t.next == Update && t.sub.None? && t.with == []
  {
    Task(body, isVoid, 0, Update, None, [], Funcs([], [], []), None)
  }

  /** `with(task)`, `withUpdate(f)`, `withDraw(f)`, `withLateDraw(f)`. */
  function WithTask(t: Task, w: Task): (r: Task)
    ensures r.with == t.with + [w] && r.funcs == t.funcs
  {
    t.(with := t.with + [w])
  }

  function WithFunc(t: Task, timing: Timing, f: nat): (r: Task)
    requires timing != Init
    ensures r.with == t.with
    ensures FuncsAt(r.funcs, timing) == FuncsAt(t.funcs, timing) + [f]
    ensures forall other | other != timing :: FuncsAt(r.funcs, other) == FuncsAt(t.funcs, other)
  {
    match timing
    case Update => t.(funcs := t.funcs.(update := t.funcs.update + [f]))
    case Draw => t.(funcs := t.funcs.(draw := t.funcs.draw + [f]))
    case LateDraw => t.(funcs := t.funcs.(lateDraw := t.funcs.lateDraw + [f]))
  }

  /** The function list `Task::resume` calls at `timing`; there is none for Init. */
  function FuncsAt(f: Funcs, timing: Timing): seq<nat> {
    match timing
    case Init => []
    case Update => f.update
    case Draw => f.draw
    case LateDraw => f.lateDraw
  }

  /** The calls of those functions, in list order. */
  function FuncEvents(f: Funcs, timing: Timing): (r: seq<Event>)
    ensures |r| == |FuncsAt(f, timing)|
    ensures forall i | 0 <= i < |r| :: r[i] == FuncCalled(timing, FuncsAt(f, timing)[i])
  {
    var fs := FuncsAt(f, timing);
    seq(|fs|, i requires 0 <= i < |fs| => FuncCalled(timing, fs[i]))
  }

  predicate Done(t: Task) {
    t.outcome.Some?
  }

  predicate Awaits(i: Instr) {
    i.Await? || i.AwaitReturn?
  }

  /** `Task::value()` / `Promise::value()`: a captured exception is rethrown first; a void
      task then returns; otherwise the value, or a throw if none was set. Reading changes
      nothing, so it can be repeated. */
  function TaskValue(t: Task): (r: Result<Value>)
    ensures t.outcome.Some? && t.outcome.value.Raised? ==> r == Err(t.outcome.value.e)
    ensures !(t.outcome.Some? && t.outcome.value.Raised?) && t.isVoid ==> r == Ok(VoidResult)
    ensures !(t.outcome.Some? && t.outcome.value.Raised?) && !t.isVoid ==>
      (r.Ok? <==> t.outcome.Some? && t.outcome.value.v.Some?)
    ensures r.Err? && !(t.outcome.Some? && t.outcome.value.Raised?) ==> r == Err(Logic(NotCompleted))
    ensures r.Ok? && !t.isVoid ==> r.value == t.outcome.value.v.value
  {
    match t.outcome
    case Some(Raised(e)) => Err(e)
    case Some(Returned(v)) =>
      if t.isVoid then Ok(VoidResult)
      else if v.Some? then Ok(v.value) else Err(Logic(NotCompleted))
    case None =>
      if t.isVoid then Ok(VoidResult) else Err(Logic(NotCompleted))
  }

  /** Where a run of the body stopped: at a resume point, having yielded a timing or
      linked an awaited task; or finished. */
  datatype Stop = Suspend(pc: nat, yielded: Option<Timing>, sub: Option<Task>) | Finish(outcome: Outcome)

  /** Records where the body stopped; a failed body's exception is rethrown by the
      handle's `resume` (`rethrowIfException`). */
  function Settle(t: Task, s: Stop): (r: (Task, Option<Exn>))
    requires !Done(t)
    ensures s.Finish? ==> Done(r.0) && r.0.outcome == Some(s.outcome)
    ensures s.Finish? ==> (r.1.Some? <==> s.outcome.Raised?)
    ensures s.Finish? && s.outcome.Raised? ==> r.1 == Some(s.outcome.e)
    ensures s.Suspend? ==> !Done(r.0) && r.1.None? && r.0.pc == s.pc
  {
    match s
    case Suspend(pc, y, sub) =>
      (t.(pc := pc, next := if y.Some? then y.value else t.next, sub := sub), None)
    case Finish(o) =>
      (t.(sub := None, outcome := Some(o)), if o.Raised? then Some(o.e) else None)
  }

  /** Resuming never changes what a task is built from: its kind of body, its code, its
      result type, its function lists and how many tasks it owns. */
  predicate SameShape(t: Task, u: Task) {
    && |u.with| == |t.with|
    && u.funcs == t.funcs
    && u.isVoid == t.isVoid
    && (t.body.Script? <==> u.body.Script?)
    && (t.body.Script? ==> u.body.code == t.body.code)
    && (t.body.All? <==> u.body.All?)
    && (t.body.Any? <==> u.body.Any?)
    && (!t.body.Script? ==> |u.body.args| == |t.body.args|)
  }

  // ---------------------------------------------------------------- resume

  /** `Task::resume(timing)`: nothing once done; otherwise the coroutine, then every
      `with` task, then the functions registered for `timing`. An exception stops the
      sequence where it was raised and propagates. */
  function Resume(t: Task, timing: Timing): (r: (Task, seq<Event>, Option<Exn>))
    ensures Done(t) ==> r == (t, [], None)
    ensures SameShape(t, r.0)
    decreases t, 6
  {
    if Done(t) then (t, [], None)
    else
      var (h, e1, x1) := ResumeHandle(t, timing);
      if x1.Some? then (h, e1, x1)
      else
        var (ws, e2, x2) := ResumeEach(t, t.with, timing);
        var u := h.(with := ws);
        if x2.Some? then (u, e1 + e2, x2)
        else (u, e1 + e2 + FuncEvents(t.funcs, timing), None)
  }

  /** Resumes each task of `ts` once, in order, at `timing`; an exception stops the loop,
      leaving the later tasks untouched. */
  function ResumeEach(ghost parent: Task, ts: seq<Task>, timing: Timing): (r: (seq<Task>, seq<Event>, Option<Exn>))
    requires forall i | 0 <= i < |ts| :: ts[i] < parent
    ensures |r.0| == |ts|
    ensures forall i | 0 <= i < |ts| :: SameShape(ts[i], r.0[i])
    ensures r.2.None? ==> forall i | 0 <= i < |ts| :: r.0[i] == Resume(ts[i], timing).0 && Resume(ts[i], timing).2.None?
    decreases parent, 1, |ts|
  {
    if ts == [] then ([], [], None)
    else
      var (t0, e0, x0) := Resume(ts[0], timing);
      if x0.Some? then ([t0] + ts[1..], e0, x0)
      else
        var (rest, es, x) := ResumeEach(parent, ts[1..], timing);
        assert forall i | 1 <= i < |ts| :: ts[i] == ts[1..][i - 1];
        ([t0] + rest, e0 + es, x)
  }

  /** `CoroutineHandleWrapper::resume(timing)`: nothing once done; a running sub-awaiter
      is resumed first and, while it keeps running, the body waits; the body itself runs
      only when `timing` is the one it last yielded (initially Update). */
  function ResumeHandle(t: Task, timing: Timing): (r: (Task, seq<Event>, Option<Exn>))
    ensures Done(t) ==> r == (t, [], None)
    ensures r.0.with == t.with
    ensures SameShape(t, r.0)
    decreases t, 5
  {
    if Done(t) then (t, [], None)
    else if t.sub.Some? && !Done(t.sub.value) then
      var (c, ev, x) := Resume(t.sub.value, timing);
      if x.Some? || !Done(c) || t.next != timing then (t.(sub := Some(c)), ev, x)
      else
        var (u, ev2, x2) := Step(t, Some(c), timing);
        (u, ev + ev2, x2)
    else if t.next != timing then (t, [], None)
    else Step(t, t.sub, timing)
  }

  /** One run of the body from its resume point; `awaited` is the finished task whose
      result the pending `co_await` takes first, if the body stopped at one. */
  function Step(t: Task, awaited: Option<Task>, timing: Timing): (r: (Task, seq<Event>, Option<Exn>))
    requires !Done(t)
    ensures r.0.with == t.with
    ensures SameShape(t, r.0)
    decreases t, 4
  {
    match t.body
    case Script(code) =>
      var (s, ev) :=
        if awaited.Some? && t.pc < |code| && Awaits(code[t.pc]) then AfterAwait(t, code, t.pc, awaited.value, timing)
        else RunScript(t, code, t.pc, timing);
      var (u, x) := Settle(t, s);
      (u, ev, x)
    case All(args) => StepAll(t, timing)
    case Any(args) => StepAny(t, timing)
  }

  /** Runs straight-line code from `pc` until it yields, suspends on an unfinished
      awaited task, or finishes. */
  function RunScript(ghost root: Task, code: seq<Instr>, pc: nat, timing: Timing): (r: (Stop, seq<Event>))
    requires forall i | 0 <= i < |code| && Awaits(code[i]) :: code[i].child < root
    ensures r.0.Suspend? ==> pc <= r.0.pc <= |code|
    ensures r.0.Suspend? && r.0.sub.Some? ==> r.0.pc < |code| && Awaits(code[r.0.pc]) && !Done(r.0.sub.value)
    decreases root, 0, |code| - pc, 1
  {
    if pc >= |code| then (Finish(Returned(None)), [])
    else
      var ins := code[pc];
      if ins.Yield? then
        // `yield_value` throws for Init, inside the body.
        if ins.timing == Init then (Finish(Raised(Logic(InitTimingYield))), [])
        else (Suspend(pc + 1, Some(ins.timing), None), [])
      else if ins.Emit? then
        var (s, ev) := RunScript(root, code, pc + 1, timing);
        (s, [Emitted(ins.tag)] + ev)
      else if ins.Return? then (Finish(Returned(Some(ins.v))), [])
      else if ins.Throw? then (Finish(Raised(BodyFailure(ins.code))), [])
      else
        // `await_ready` resumes the task once at the current timing; an exception from it
        // is raised inside this body.
        assert Awaits(code[pc]);
        var (c, ev, x) := Resume(ins.child, timing);
        if x.Some? then (Finish(Raised(x.value)), ev)
        else if Done(c) then
          var (s, ev2) := AfterAwait(root, code, pc, c, timing);
          (s, ev + ev2)
        else (Suspend(pc, None, Some(c)), ev)
  }

  /** `await_resume()`: the awaited task's value (a failure propagates into this body),
      then the code after the `co_await`. */
  function AfterAwait(ghost root: Task, code: seq<Instr>, pc: nat, c: Task, timing: Timing): (r: (Stop, seq<Event>))
    requires forall i | 0 <= i < |code| && Awaits(code[i]) :: code[i].child < root
    requires pc < |code| && Awaits(code[pc])
    ensures r.0.Suspend? ==> pc < r.0.pc <= |code|
    ensures r.0.Suspend? && r.0.sub.Some? ==> r.0.pc < |code| && Awaits(code[r.0.pc]) && !Done(r.0.sub.value)
    decreases root, 0, |code| - pc, 0
  {
    match TaskValue(c)
    case Err(e) => (Finish(Raised(e)), [])
    case Ok(v) =>
      if code[pc].AwaitReturn? then (Finish(Returned(Some(v))), [])
      else RunScript(root, code, pc + 1, timing)
  }

  // ---------------------------------------------------------------- All / Any

  /** Resume points of the `All` / `Any` bodies. */
  const Start: nat := 0       // before `if (CurrentFrameTiming() != Update) co_yield Update;`
  const Check: nat := 1       // at `if ((args.done() && ...))`
  const DrawPhase: nat := 2   // after `co_yield Draw;`
  const LatePhase: nat := 3   // after `co_yield LateDraw;`
  const LoopTop: nat := 4     // after `co_yield Update;` at the end of the loop

  predicate AllDone(ts: seq<Task>) {
    forall i | 0 <= i < |ts| :: Done(ts[i])
  }

  predicate AnyDone(ts: seq<Task>) {
    exists i | 0 <= i < |ts| :: Done(ts[i])
  }

  /** The loop's exit test: every argument done (`All`) or some argument done (`Any`). */
  predicate Finished(ts: seq<Task>, all: bool) {
    if all then AllDone(ts) else AnyDone(ts)
  }

  /** The body of `All(args...)`: it first makes sure to run at Update, finishes at once if
      every argument is done, and otherwise loops: resume all at Update and finish if all
      are done, then (a timing later each) resume all at Draw and at LateDraw. An
      argument's exception fails the combinator. */
  function StepAll(t: Task, timing: Timing): (r: (Task, seq<Event>, Option<Exn>))
    requires !Done(t) && t.body.All?
    ensures r.0.with == t.with
    ensures SameShape(t, r.0)
    decreases t, 3
  {
    Phase(t, t.body.args, timing, true)
  }

  /** The body of `Any(args...)`: as `All`, finishing as soon as one argument is done. */
  function StepAny(t: Task, timing: Timing): (r: (Task, seq<Event>, Option<Exn>))
    requires !Done(t) && t.body.Any?
    ensures r.0.with == t.with
    ensures SameShape(t, r.0)
    decreases t, 3
  {
    Phase(t, t.body.args, timing, false)
  }

  /** The common loop of `All` (`all`) and `Any` (`!all`). */
  function Phase(t: Task, args: seq<Task>, timing: Timing, all: bool): (r: (Task, seq<Event>, Option<Exn>))
    requires !Done(t) && !t.body.Script? && args == t.body.args && (all <==> t.body.All?)
    ensures r.0.with == t.with
    ensures SameShape(t, r.0)
    decreases t, 2
  {
    if t.pc == Start && timing != Update then
      Park(t, args, Check, Update)
    else if (t.pc == Start || t.pc == Check) && Finished(args, all) then
      Conclude(t, args, [], all)
    else if t.pc == Start || t.pc == Check || t.pc == LoopTop then UpdatePhase(t, args, all)
    else if t.pc == DrawPhase then DrivePhase(t, args, Draw, LatePhase, LateDraw)
    else DrivePhase(t, args, LateDraw, LoopTop, Update)
  }

  /** `(args.resume(Update), ...)`, then finish if the exit test holds and otherwise
      `co_yield Draw`. */
  function UpdatePhase(t: Task, args: seq<Task>, all: bool): (r: (Task, seq<Event>, Option<Exn>))
    requires !Done(t) && !t.body.Script? && args == t.body.args
    ensures r.0.with == t.with
    ensures SameShape(t, r.0)
    ensures var (args1, ev, x) := ResumeEach(t, args, Update);
      && r.1 == ev && r.0.body.args == args1
      && (x.Some? ==> r.0.outcome == Some(Raised(x.value)) && r.2 == x)
      && (x.None? ==> (Done(r.0) <==> Finished(args1, all)))
      && (x.None? && Finished(args1, all) ==> (r.2.Some? <==> r.0.outcome.value.Raised?))
      && (x.None? && !Finished(args1, all) ==> r.2.None?)
      && (x.None? && !Finished(args1, all) ==> r.0.pc == DrawPhase && r.0.next == Draw)
    decreases t, 1, |args| + 1
  {
    var (args1, ev, x) := ResumeEach(t, args, Update);
    if x.Some? then Fail(t, args1, ev, x.value)
    else if Finished(args1, all) then Conclude(t, args1, ev, all)
    else Settled(Park(t, args1, DrawPhase, Draw), ev)
  }

  /** `(args.resume(timing), ...)`, then `co_yield next` to resume point `pc`. */
  function DrivePhase(t: Task, args: seq<Task>, timing: Timing, pc: nat, next: Timing): (r: (Task, seq<Event>, Option<Exn>))
    requires !Done(t) && !t.body.Script? && args == t.body.args
    ensures r.0.with == t.with
    ensures SameShape(t, r.0)
    ensures var (args1, ev, x) := ResumeEach(t, args, timing);
      && r.1 == ev && r.2 == x && r.0.body.args == args1
      && (x.Some? ==> r.0.outcome == Some(Raised(x.value)))
      && (x.None? ==> !Done(r.0) && r.0.pc == pc && r.0.next == next)
    decreases t, 1, |args| + 1
  {
    var (args1, ev, x) := ResumeEach(t, args, timing);
    if x.Some? then Fail(t, args1, ev, x.value)
    else Settled(Park(t, args1, pc, next), ev)
  }

  /** The combinator suspended at resume point `pc`, waiting for `next`. */
  function Park(t: Task, args: seq<Task>, pc: nat, next: Timing): (r: (Task, seq<Event>, Option<Exn>))
    requires !t.body.Script? && |args| == |t.body.args|
    ensures SameShape(t, r.0) && r.0.with == t.with && !Done(r.0) == !Done(t)
    ensures r.0.pc == pc && r.0.next == next && r.1 == [] && r.2.None?
  {
    (t.(body := t.body.(args := args), pc := pc, next := next), [], None)
  }

  /** `r` preceded by the events `ev`. */
  function Settled(r: (Task, seq<Event>, Option<Exn>), ev: seq<Event>): (s: (Task, seq<Event>, Option<Exn>))
    ensures s.0 == r.0 && s.1 == ev + r.1 && s.2 == r.2
  {
    (r.0, ev + r.1, r.2)
  }

  /** An argument's exception escapes the fold and fails the combinator's body. */
  function Fail(t: Task, args: seq<Task>, ev: seq<Event>, e: Exn): (r: (Task, seq<Event>, Option<Exn>))
    requires !Done(t) && !t.body.Script? && |args| == |t.body.args|
    ensures SameShape(t, r.0) && r.0.with == t.with
    ensures r.0.outcome == Some(Raised(e)) && r.1 == ev && r.2 == Some(e)
  {
    var (u, x) := Settle(t.(body := t.body.(args := args)), Finish(Raised(e)));
    (u, ev, x)
  }

  /** `co_return make_tuple(...)` over the arguments' results. */
  function Conclude(t: Task, args: seq<Task>, ev: seq<Event>, all: bool): (r: (Task, seq<Event>, Option<Exn>))
    requires !Done(t) && !t.body.Script? && |args| == |t.body.args|
    ensures SameShape(t, r.0) && r.0.with == t.with && Done(r.0) && r.1 == ev
    ensures r.0.outcome == Some(TupleOutcome(if all then AllResults(args) else AnyResults(args)))
    ensures r.2.Some? <==> r.0.outcome.value.Raised?
  {
    var o := TupleOutcome(if all then AllResults(args) else AnyResults(args));
    var (u, x) := Settle(t.(body := t.body.(args := args)), Finish(o));
    (u, ev, x)
  }

  function TupleOutcome(res: Result<seq<Value>>): (o: Outcome)
    ensures res.Ok? <==> o.Returned?
    ensures res.Ok? ==> o == Returned(Some(Tuple(res.value)))
    ensures res.Err? ==> o == Raised(res.error)
  {
    match res
    case Ok(vs) => Returned(Some(Tuple(vs)))
    case Err(e) => Raised(e)
  }

  /** `ConvertVoidResult(task)`: `VoidResult` for a void task without reading it (so a
      failed void argument goes unnoticed), otherwise `value()`. */
  function Converted(t: Task): (r: Result<Value>)
    ensures t.isVoid ==> r == Ok(VoidResult)
    ensures !t.isVoid ==> r == TaskValue(t)
  {
    if t.isVoid then Ok(VoidResult) else TaskValue(t)
  }

  /** `make_tuple(ConvertVoidResult(args)...)`, left to right: the first argument whose
      conversion throws aborts the tuple. */
  function AllResults(ts: seq<Task>): (r: Result<seq<Value>>)
    ensures r.Ok? <==> forall i | 0 <= i < |ts| :: Converted(ts[i]).Ok?
    ensures r.Ok? ==> |r.value| == |ts| && forall i | 0 <= i < |ts| :: r.value[i] == Converted(ts[i]).value
    ensures r.Err? ==> exists k | 0 <= k < |ts| ::
      && (forall i | 0 <= i < k :: Converted(ts[i]).Ok?)
      && Converted(ts[k]).Err? && r.error == Converted(ts[k]).error
  {
    if ts == [] then Ok([])
    else
      var v0 := Converted(ts[0]);
      var vs := AllResults(ts[1..]);
      assert forall i | 1 <= i < |ts| :: ts[i] == ts[1..][i - 1];
      if v0.Err? then Err(v0.error)
      else if vs.Err? then Err(vs.error)
      else Ok([v0.value] + vs.value)
  }

  /** `ConvertOptionalVoidResult(task)`: empty for an unfinished task, else the converted
      result. */
  function ConvertedOpt(t: Task): (r: Result<Value>)
    ensures !Done(t) ==> r == Ok(Opt(None))
    ensures Done(t) && Converted(t).Ok? ==> r == Ok(Opt(Some(Converted(t).value)))
    ensures Done(t) && Converted(t).Err? ==> r == Converted(t)
  {
    if !Done(t) then Ok(Opt(None))
    else match Converted(t)
      case Ok(v) => Ok(Opt(Some(v)))
      case Err(e) => Err(e)
  }

  /** `make_tuple(ConvertOptionalVoidResult(args)...)`, left to right. */
  function AnyResults(ts: seq<Task>): (r: Result<seq<Value>>)
    ensures r.Ok? <==> forall i | 0 <= i < |ts| :: ConvertedOpt(ts[i]).Ok?
    ensures r.Ok? ==> |r.value| == |ts| && forall i | 0 <= i < |ts| :: r.value[i] == ConvertedOpt(ts[i]).value
    ensures r.Err? ==> exists k | 0 <= k < |ts| ::
      && (forall i | 0 <= i < k :: ConvertedOpt(ts[i]).Ok?)
      && Done(ts[k]) && ConvertedOpt(ts[k]).Err? && r.error == ConvertedOpt(ts[k]).error
  {
    if ts == [] then Ok([])
    else
      var v0 := ConvertedOpt(ts[0]);
      var vs := AnyResults(ts[1..]);
      assert forall i | 1 <= i < |ts| :: ts[i] == ts[1..][i - 1];
      if v0.Err? then Err(v0.error)
      else if vs.Err? then Err(vs.error)
      else Ok([v0.value] + vs.value)
  }
}
