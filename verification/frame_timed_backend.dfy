/** The awaiter registry of include/CoTaskLib.hpp: its `Backend` resumes every registered
    task once per timing in ascending id order and drops the finished ones, with no end
    callbacks; `ScopedTaskRunLifetime` owns one id. */
module FrameTimedBackend {
  import opened Values
  import opened Sorting
  import opened FrameTimed
  import opened Sweeps

  /** `m_currentFrameTiming`, `m_nextAwaiterID`, `m_currentAwaiterID`, `m_awaiters`, plus
      whether the addon instance exists and whether its first update has run. */
  datatype Backend = Backend(
    initialized: bool,
    firstUpdated: bool,
    timing: Timing,
    nextId: nat,
    current: Option<nat>,
    entries: map<nat, Task>)

  /** No addon instance. */
  const Uninitialized: Backend := Backend(false, false, Init, 1, None, map[])

  /** Handed-out ids lie below the counter, which starts at 1; a backend without an
      instance holds nothing. */
  predicate Inv(b: Backend) {
    && b.nextId >= 1
    && (forall id | id in b.entries :: 1 <= id < b.nextId)
    && (!b.initialized ==> b.entries == map[] && b.current.None? && !b.firstUpdated)
  }

  /** `Backend::Init()`: a second instance throws. */
  function InitBackend(b: Backend): (r: Result<Backend>)
    ensures b.initialized <==> r.Err?
    ensures r.Err? ==> r.error == Logic(AlreadyInitialized)
    ensures r.Ok? ==> r.value == Backend(true, false, Init, 1, None, map[]) && Inv(r.value)
  {
    if b.initialized then Err(Logic(AlreadyInitialized))
    else Ok(Backend(true, false, Init, 1, None, map[]))
  }

  /** What a `Backend::resume(timing)` call did: the registry after it, each visited id
      with the events its resume produced, and the exception that ended it. */
  datatype Pass = Pass(backend: Backend, trace: seq<Visit<Event>>, thrown: Option<Exn>)

  /** How a pass resumes one task: `Task::resume` at the pass's timing. */
  function At(timing: Timing): (f: Task -> (Task, seq<Event>, Option<Exn>))
    ensures forall t :: f(t) == Resume(t, timing)
  {
    t => Resume(t, timing)
  }

  /** `Backend::resume(timing)`: records the timing, then sweeps the registry, each id in
      turn the current one; after a full sweep no id is current, and an exception leaves
      the id it came from current. */
  function ResumeAt(b: Backend, timing: Timing): (r: Pass)
    requires Inv(b) && b.initialized
    ensures r.backend.timing == timing && Inv(r.backend)
    ensures r.backend.entries.Keys <= b.entries.Keys
    ensures r.backend == b.(timing := timing, current := r.backend.current, entries := r.backend.entries)
    ensures r.thrown.None? ==> r.backend.current.None? && |r.trace| == |b.entries|
    ensures r.thrown.Some? ==>
      0 < |r.trace| <= |b.entries| && r.backend.current == Some(SortedNats(b.entries.Keys)[|r.trace| - 1])
    ensures var s := SweepAll(b.entries, At(timing), Done);
      r.trace == s.trace && r.thrown == s.thrown && r.backend.entries == s.entries
  {
    var s := SweepAll(b.entries, At(timing), Done);
    Pass(b.(timing := timing, current := StoppedAt(b.entries, s), entries := s.entries), s.trace, s.thrown)
  }

  /** `BackendAddon::update()`: marks the first update done, then runs the Update pass. */
  function AddonUpdate(b: Backend): (r: Pass)
    requires Inv(b) && b.initialized
    ensures r.backend.firstUpdated && r.backend.timing == Update && Inv(r.backend)
  {
    ResumeAt(b.(firstUpdated := true), Update)
  }

  /** `BackendAddon::draw()`: nothing before the first update (the engine may draw an
      addon before updating it); otherwise the Draw pass and then, unless it threw, the
      LateDraw pass. */
  function AddonDraw(b: Backend): (r: Pass)
    requires Inv(b) && b.initialized
    ensures !b.firstUpdated ==> r == Pass(b, [], None)
    ensures b.firstUpdated ==>
      var d := ResumeAt(b, Draw);
      && (d.thrown.Some? ==> r == d)
      && (d.thrown.None? ==>
            var l := ResumeAt(d.backend, LateDraw);
            r == Pass(l.backend, d.trace + l.trace, l.thrown))
    ensures Inv(r.backend)
  {
    if !b.firstUpdated then Pass(b, [], None)
    else
      var d := ResumeAt(b, Draw);
      if d.thrown.Some? then d
      else
        var l := ResumeAt(d.backend, LateDraw);
        Pass(l.backend, d.trace + l.trace, l.thrown)
  }

  /** `Backend::Add`: throws without an instance; otherwise stores the task under the next
      id and advances the counter. */
  function Add(b: Backend, t: Task): (r: Result<(Backend, nat)>)
    ensures !b.initialized <==> r.Err?
    ensures r.Err? ==> r.error == Logic(NotInitialized)
    ensures r.Ok? ==>
      && r.value.1 == b.nextId
      && r.value.0 == b.(nextId := b.nextId + 1, entries := b.entries[b.nextId := t])
    ensures r.Ok? && Inv(b) ==> Inv(r.value.0) && r.value.1 !in b.entries
  {
    if !b.initialized then Err(Logic(NotInitialized))
    else Ok((b.(nextId := b.nextId + 1, entries := b.entries[b.nextId := t]), b.nextId))
  }

  /** `Backend::Remove(id)`: nothing without an instance; refuses the id being resumed;
      otherwise erases it (an absent id is fine). No callback runs. */
  function Remove(b: Backend, id: nat): (r: Result<Backend>)
    ensures !b.initialized ==> r == Ok(b)
    ensures b.initialized && b.current == Some(id) ==> r == Err(Logic(RemoveRunning))
    ensures b.initialized && b.current != Some(id) ==> r == Ok(b.(entries := b.entries - {id}))
    ensures r.Ok? && Inv(b) ==> id !in r.value.entries && Inv(r.value)
  {
    if !b.initialized then Ok(b)
    else if b.current == Some(id) then Err(Logic(RemoveRunning))
    else Ok(b.(entries := b.entries - {id}))
  }

  /** `Backend::IsDone(id)`: throws without an instance; a present id is done iff its task
      is; an absent one iff it was handed out (it finished or was removed). */
  function IsDone(b: Backend, id: nat): (r: Result<bool>)
    ensures !b.initialized <==> r == Err(Logic(NotInitialized))
    ensures b.initialized && id in b.entries ==> r == Ok(Done(b.entries[id]))
    ensures b.initialized && id !in b.entries ==> r == Ok(id < b.nextId)
  {
    if !b.initialized then Err(Logic(NotInitialized))
    else if id in b.entries then Ok(Done(b.entries[id]))
    else Ok(id < b.nextId)
  }

  /** `Backend::CurrentFrameTiming()`: throws without an instance. */
  function CurrentTiming(b: Backend): (r: Result<Timing>)
    ensures !b.initialized <==> r.Err?
    ensures r.Err? ==> r.error == Logic(NotInitialized)
    ensures r.Ok? ==> r.value == b.timing
  {
    if !b.initialized then Err(Logic(NotInitialized)) else Ok(b.timing)
  }

  /** What registering a task did: the backend, the id it got, the events of its first
      resume, and what was thrown. */
  datatype Registration = Registration(backend: Backend, id: Option<nat>, events: seq<Event>, thrown: Option<Exn>)

  /** `ResumeAwaiterOnceAndRegisterIfNotDone`: a finished task is not registered; otherwise
      it is resumed once at the backend's current timing (without an instance that
      throws); an exception from it propagates, and only a task still running afterwards
      is added. */
  function Register(b: Backend, t: Task): (r: Registration)
    ensures Done(t) ==> r == Registration(b, None, [], None)
    ensures !Done(t) && !b.initialized ==> r == Registration(b, None, [], Some(Logic(NotInitialized)))
    ensures !Done(t) && b.initialized ==>
      var (u, ev, x) := Resume(t, b.timing);
      && r.events == ev
      && (x.Some? ==> r == Registration(b, None, ev, x))
      && (x.None? && Done(u) ==> r == Registration(b, None, ev, None))
      && (x.None? && !Done(u) ==>
            r == Registration(b.(nextId := b.nextId + 1, entries := b.entries[b.nextId := u]), Some(b.nextId), ev, None))
    ensures Inv(b) ==> Inv(r.backend)
    ensures r.id.Some? ==> r.id.value in r.backend.entries && !Done(r.backend.entries[r.id.value])
  {
    if Done(t) then Registration(b, None, [], None)
    else
      match CurrentTiming(b)
      case Err(e) => Registration(b, None, [], Some(e))
      case Ok(timing) =>
        var (u, ev, x) := Resume(t, timing);
        if x.Some? then Registration(b, None, ev, x)
        else if Done(u) then Registration(b, None, ev, None)
        else
          match Add(b, u)
          case Ok((b1, id)) => Registration(b1, Some(id), ev, None)
          case Err(e) => Registration(b, None, ev, Some(e))
  }

  /** `ScopedTaskRunLifetime`: owns the id of a registered task, if any. */
  datatype Lifetime = Lifetime(id: Option<nat>)

  /** The move constructor: the new lifetime takes the id and the source is emptied. */
  function MoveLifetime(src: Lifetime): (r: (Lifetime, Lifetime))
    ensures r.0.id == src.id && r.1.id.None?
  {
    (Lifetime(src.id), Lifetime(None))
  }

  /** The move assignment `dst = src`, with `same` when both are one object: that changes
      nothing; otherwise the id `dst` owned is removed first (a throw there escapes a
      `noexcept` function, which terminates the program: an error here), then `dst` takes
      the source's id and the source is emptied. */
  function AssignLifetime(b: Backend, dst: Lifetime, src: Lifetime, same: bool): (r: Result<(Backend, Lifetime, Lifetime)>)
    requires same ==> dst == src
    ensures same ==> r == Ok((b, dst, src))
    ensures !same && dst.id.None? ==> r == Ok((b, src, Lifetime(None)))
    ensures !same && dst.id.Some? ==>
      && (Remove(b, dst.id.value).Err? <==> r.Err?)
      && (r.Ok? ==> r.value == (Remove(b, dst.id.value).value, src, Lifetime(None)))
  {
    if same then Ok((b, dst, src))
    else if dst.id.None? then Ok((b, src, Lifetime(None)))
    else
      match Remove(b, dst.id.value)
      case Err(e) => Err(e)
      case Ok(b1) => Ok((b1, src, Lifetime(None)))
  }

  /** The destructor: removes the owned id; a throw (the id is being resumed) escapes the
      `noexcept` destructor and is an error here. */
  function DestroyLifetime(b: Backend, l: Lifetime): (r: Result<Backend>)
    ensures l.id.None? ==> r == Ok(b)
    ensures l.id.Some? ==> r == Remove(b, l.id.value)
    ensures r.Ok? && l.id.Some? && Inv(b) ==> l.id.value !in r.value.entries
  {
    if l.id.None? then Ok(b) else Remove(b, l.id.value)
  }

  /** `done()`: an empty lifetime is done; otherwise it asks the backend. */
  function LifetimeDone(b: Backend, l: Lifetime): (r: Result<bool>)
    ensures l.id.None? ==> r == Ok(true)
    ensures l.id.Some? ==> r == IsDone(b, l.id.value)
  {
    if l.id.None? then Ok(true) else IsDone(b, l.id.value)
  }

  /** A registered task's lifetime is done exactly when the task was already finished,
      or its first resume finished it or threw; with an instance, registering throws
      exactly when that resume does. */
  lemma RegisterDoneIffFinished(b: Backend, t: Task)
    requires Inv(b) && b.initialized
    ensures var r := Register(b, t);
      var u := if Done(t) then t else Resume(t, b.timing).0;
      && (r.thrown.Some? <==> !Done(t) && Resume(t, b.timing).2.Some?)
      && LifetimeDone(r.backend, Lifetime(r.id)) == Ok(Done(u) || r.thrown.Some?)
  {
  }

  /** A removed id stays done: after a removal that went through, asking about an id the
      backend handed out answers done. */
  lemma RemovedIsDone(b: Backend, id: nat)
    requires b.initialized && b.current != Some(id) && 1 <= id < b.nextId
    ensures Remove(b, id).Ok? && IsDone(Remove(b, id).value, id) == Ok(true)
  {
  }
}
