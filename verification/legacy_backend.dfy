/** The registry of include/CoTask.hpp: `CoTaskBackend` keeps update tasks and draw tasks
    in two maps under one id counter; the addon's update sweeps only the first and its
    draw only the second. `ScopedCoTaskRunLifetime` owns one id. */
module LegacyBackend {
  import opened Values
  import opened Sorting
  import opened Sweeps
  import opened LegacyTask

  /** `m_nextExecID`, `m_currentRunningTaskID`, `m_updateTasks`, `m_drawTasks`, plus
      whether the addon exists and whether its first update has run. */
  datatype Backend = Backend(
    initialized: bool,
    firstUpdated: bool,
    nextId: nat,
    current: Option<nat>,
    updateTasks: map<nat, Task>,
    drawTasks: map<nat, Task>)

  /** No addon. */
  const Uninitialized: Backend := Backend(false, false, 1, None, map[], map[])

  /** A freshly registered addon. */
  const Started: Backend := Backend(true, false, 1, None, map[], map[])

  /** Handed-out ids lie below the counter, which starts at 1, and each is in at most one
      map; a backend without an addon holds nothing. */
  predicate Inv(b: Backend) {
    && b.nextId >= 1
    && (forall id | id in b.updateTasks :: 1 <= id < b.nextId && id !in b.drawTasks)
    && (forall id | id in b.drawTasks :: 1 <= id < b.nextId)
    && (!b.initialized ==> b.updateTasks == map[] && b.drawTasks == map[] && b.current.None? && !b.firstUpdated)
  }

  /** What one sweep did: the backend after it, each visited id with the events of its
      update, and the exception that ended it. */
  datatype Pass = Pass(backend: Backend, trace: seq<Visit<Event>>, thrown: Option<Exn>)

  /** How a sweep updates one task. */
  function Step(): (f: Task -> (Task, seq<Event>, Option<Exn>))
  {
    t => Update(t)
  }

  /** `CoTaskBackend::update()`: sweeps the update tasks only (`updateTasksImpl`); an
      exception leaves the id it came from running. */
  function UpdatePass(b: Backend): (r: Pass)
    requires Inv(b) && b.initialized
    ensures Inv(r.backend)
    ensures r.backend == b.(current := r.backend.current, updateTasks := r.backend.updateTasks)
    ensures var s := SweepAll(b.updateTasks, Step(), Done);
      && r.trace == s.trace && r.thrown == s.thrown && r.backend.updateTasks == s.entries
      && r.backend.current == StoppedAt(b.updateTasks, s)
  {
    var s := SweepAll(b.updateTasks, Step(), Done);
    Pass(b.(current := StoppedAt(b.updateTasks, s), updateTasks := s.entries), s.trace, s.thrown)
  }

  /** `CoTaskBackend::draw()`: sweeps the draw tasks only. */
  function DrawPass(b: Backend): (r: Pass)
    requires Inv(b) && b.initialized
    ensures Inv(r.backend)
    ensures r.backend == b.(current := r.backend.current, drawTasks := r.backend.drawTasks)
    ensures var s := SweepAll(b.drawTasks, Step(), Done);
      && r.trace == s.trace && r.thrown == s.thrown && r.backend.drawTasks == s.entries
      && r.backend.current == StoppedAt(b.drawTasks, s)
  {
    var s := SweepAll(b.drawTasks, Step(), Done);
    Pass(b.(current := StoppedAt(b.drawTasks, s), drawTasks := s.entries), s.trace, s.thrown)
  }

  /** `CoTaskBackendAddon::update()`: marks the first update done, then the update sweep;
      the draw tasks are not touched. */
  function AddonUpdate(b: Backend): (r: Pass)
    requires Inv(b) && b.initialized
    ensures r.backend.firstUpdated && Inv(r.backend) && r.backend.drawTasks == b.drawTasks
  {
    UpdatePass(b.(firstUpdated := true))
  }

  /** `CoTaskBackendAddon::draw()`: nothing before the first update; otherwise the draw
      sweep, which leaves the update tasks alone. */
  function AddonDraw(b: Backend): (r: Pass)
    requires Inv(b) && b.initialized
    ensures !b.firstUpdated ==> r == Pass(b, [], None)
    ensures Inv(r.backend)
  {
    if !b.firstUpdated then Pass(b, [], None) else DrawPass(b)
  }

  /** `RegisterTask` (`draw` false) and `RegisterDrawTask` (`draw` true): a null task
      throws, then a missing addon; otherwise the task goes into its map under the next id
      of the one shared counter. */
  function RegisterTask(b: Backend, t: Option<Task>, draw: bool): (r: Result<(Backend, nat)>)
    ensures t.None? ==> r == Err(Logic(NullTask))
    ensures t.Some? && !b.initialized ==> r == Err(Logic(NotInitialized))
    ensures t.Some? && b.initialized ==>
      && r.Ok? && r.value.1 == b.nextId
      && r.value.0 == (if draw then b.(nextId := b.nextId + 1, drawTasks := b.drawTasks[b.nextId := t.value])
                       else b.(nextId := b.nextId + 1, updateTasks := b.updateTasks[b.nextId := t.value]))
    ensures r.Ok? && Inv(b) ==>
      && Inv(r.value.0)
      && r.value.1 !in b.updateTasks && r.value.1 !in b.drawTasks
  {
    if t.None? then Err(Logic(NullTask))
    else if !b.initialized then Err(Logic(NotInitialized))
    else if draw then Ok((b.(nextId := b.nextId + 1, drawTasks := b.drawTasks[b.nextId := t.value]), b.nextId))
    else Ok((b.(nextId := b.nextId + 1, updateTasks := b.updateTasks[b.nextId := t.value]), b.nextId))
  }

  /** `UnregisterTask(id)`: nothing without an addon; refuses the running id; otherwise
      erases the id from both maps. */
  function UnregisterTask(b: Backend, id: nat): (r: Result<Backend>)
    ensures !b.initialized ==> r == Ok(b)
    ensures b.initialized && b.current == Some(id) ==> r == Err(Logic(RemoveRunning))
    ensures b.initialized && b.current != Some(id) ==>
      r == Ok(b.(updateTasks := b.updateTasks - {id}, drawTasks := b.drawTasks - {id}))
    ensures r.Ok? && Inv(b) ==> Inv(r.value) && id !in r.value.updateTasks && id !in r.value.drawTasks
  {
    if !b.initialized then Ok(b)
    else if b.current == Some(id) then Err(Logic(RemoveRunning))
    else Ok(b.(updateTasks := b.updateTasks - {id}, drawTasks := b.drawTasks - {id}))
  }

  /** `IsTaskRunning(id)`: throws without an addon; otherwise whether either map holds
      the id. */
  function IsTaskRunning(b: Backend, id: nat): (r: Result<bool>)
    ensures !b.initialized <==> r == Err(Logic(NotInitialized))
    ensures b.initialized ==> r == Ok(id in b.updateTasks || id in b.drawTasks)
  {
    if !b.initialized then Err(Logic(NotInitialized))
    else Ok(id in b.updateTasks || id in b.drawTasks)
  }

  /** What starting a task did: the backend, the id it got, the events of its first
      update, and what was thrown. */
  datatype Registration = Registration(backend: Backend, id: Option<nat>, events: seq<Event>, thrown: Option<Exn>)

  /** `UpdateTaskOnceAndRegisterIfNotDone` (and `runForget` / `runDrawForget`, which
      drop the id): the task is updated once at once, and registered only if that did not
      finish it. An exception from the update, or from registering, propagates. */
  function UpdateOnceAndRegister(b: Backend, t: Task, draw: bool): (r: Registration)
    ensures var (u, ev, x) := Update(t);
      && r.events == ev
      && (x.Some? ==> r == Registration(b, None, ev, x))
      && (x.None? && Done(u) ==> r == Registration(b, None, ev, None))
      && (x.None? && !Done(u) && !b.initialized ==> r == Registration(b, None, ev, Some(Logic(NotInitialized))))
      && (x.None? && !Done(u) && b.initialized ==>
            r == Registration(RegisterTask(b, Some(u), draw).value.0, Some(b.nextId), ev, None))
    ensures Inv(b) ==> Inv(r.backend)
  {
    var (u, ev, x) := Update(t);
    if x.Some? then Registration(b, None, ev, x)
    else if Done(u) then Registration(b, None, ev, None)
    else
      match RegisterTask(b, Some(u), draw)
      case Ok((b1, id)) => Registration(b1, Some(id), ev, None)
      case Err(e) => Registration(b, None, ev, Some(e))
  }

  /** `ScopedCoTaskRunLifetime`: owns the id of a registered task, if any. */
  datatype Lifetime = Lifetime(id: Option<nat>)

  /** The move constructor: the new lifetime takes the id and the source is emptied. */
  function MoveLifetime(src: Lifetime): (r: (Lifetime, Lifetime))
    ensures r.0.id == src.id && r.1.id.None?
  {
    (Lifetime(src.id), Lifetime(None))
  }

  /** The move assignment `dst = src`, with `same` when both are one object: that changes
      nothing; otherwise the id `dst` owned is unregistered first (a throw there escapes
      a `noexcept` function, which terminates the program: an error here), then `dst`
      takes the source's id and the source is emptied. */
  function AssignLifetime(b: Backend, dst: Lifetime, src: Lifetime, same: bool): (r: Result<(Backend, Lifetime, Lifetime)>)
    requires same ==> dst == src
    ensures same ==> r == Ok((b, dst, src))
    ensures !same && dst.id.None? ==> r == Ok((b, src, Lifetime(None)))
    ensures !same && dst.id.Some? ==>
      && (UnregisterTask(b, dst.id.value).Err? <==> r.Err?)
      && (r.Ok? ==> r.value == (UnregisterTask(b, dst.id.value).value, src, Lifetime(None)))
  {
    if same then Ok((b, dst, src))
    else if dst.id.None? then Ok((b, src, Lifetime(None)))
    else
      match UnregisterTask(b, dst.id.value)
      case Err(e) => Err(e)
      case Ok(b1) => Ok((b1, src, Lifetime(None)))
  }

  /** The destructor: unregisters the owned id; a throw escapes the `noexcept` destructor
      (the program terminates) and is an error here. */
  function DestroyLifetime(b: Backend, l: Lifetime): (r: Result<Backend>)
    ensures l.id.None? ==> r == Ok(b)
    ensures l.id.Some? ==> r == UnregisterTask(b, l.id.value)
    ensures r.Ok? && l.id.Some? && Inv(b) ==> l.id.value !in r.value.updateTasks && l.id.value !in r.value.drawTasks
  {
    if l.id.None? then Ok(b) else UnregisterTask(b, l.id.value)
  }

  /** `isRunning()`: false without an id (the backend is then not asked); otherwise
      whether the backend still holds it. */
  function IsRunning(b: Backend, l: Lifetime): (r: Result<bool>)
    ensures l.id.None? ==> r == Ok(false)
    ensures l.id.Some? ==> r == IsTaskRunning(b, l.id.value)
  {
    if l.id.None? then Ok(false) else IsTaskRunning(b, l.id.value)
  }
}
