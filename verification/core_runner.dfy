/** Scoped ownership of running tasks in Core.hpp: `ScopedTaskRunner` owns at most one
    backend id and removes it when destroyed; `MultiRunner` is a list of them. The
    scenarios at the end follow the library's finish- and cancel-callback tests. */
module CoreRunner {
  import opened Values
  import opened Sorting
  import opened CoreTask
  import CoreTaskFacts
  import opened CoreBackend

  /** `ScopedTaskRunner`: `m_id`. */
  datatype Runner = Runner(id: Option<nat>)

  /** `task.runScoped(finish, cancel)`: registers the task; a task that finished on its
      first resume leaves the runner without an id. */
  function RunScoped(b: Backend, task: Task, cb: Callbacks, env: Env): (r: (Registration, Runner))
    ensures r.0 == Register(b, task, cb, env)
    ensures r.1.id == r.0.id
  {
    var reg := Register(b, task, cb, env);
    (reg, Runner(reg.id))
  }

  /** The move constructor: the new runner takes the id and the source is left empty, so
      only one of them ever removes it. */
  function MoveRunner(src: Runner): (r: (Runner, Runner))
    ensures r.0.id.None? && r.1.id == src.id
  {
    (Runner(None), src)
  }

  /** `~ScopedTaskRunner()`: removes the id it still holds. */
  function DestroyRunner(b: Backend, r: Runner): (d: Removal)
    ensures r.id.None? ==> d == Removal(b, [], None)
    ensures r.id.Some? ==> d == Remove(b, r.id.value)
  {
    if r.id.Some? then Remove(b, r.id.value) else Removal(b, [], None)
  }

  /** `done()`: true without an id, otherwise `Backend::IsDone`. */
  function RunnerDone(b: Backend, r: Runner): (d: Result<bool>)
    ensures r.id.None? ==> d == Ok(true)
    ensures r.id.Some? ==> d == IsDone(b, r.id.value)
  {
    if r.id.None? then Ok(true) else IsDone(b, r.id.value)
  }

  /** `forget()`: drops the id; the task keeps running and nothing fires. */
  function Forget(r: Runner): (f: Runner)
    ensures f.id.None?
  {
    Runner(None)
  }

  /** `requestCancel()`: removes the id it holds and then drops it; if `Remove` throws,
      the id is kept. */
  function RequestCancel(b: Backend, r: Runner): (c: (Removal, Runner))
    ensures r.id.None? ==> c == (Removal(b, [], None), r)
    ensures r.id.Some? ==> c.0 == Remove(b, r.id.value)
    ensures c.0.thrown.None? ==> c.1.id.None?
    ensures c.0.thrown.Some? ==> c.1 == r
  {
    if r.id.None? then (Removal(b, [], None), r)
    else
      var rm := Remove(b, r.id.value);
      if rm.thrown.Some? then (rm, r) else (rm, Runner(None))
  }

  // ---------------------------------------------------------------- single runner facts

  /** Cancelling a runner whose task is still registered, unfinished and not being
      resumed fires its cancel callback once. If that callback does not throw, the entry
      is erased, the runner reports done, and cancelling again fires nothing. If it throws,
      the exception propagates, the runner keeps its id and the entry stays registered
      and unfinished, so the next cancel fires the same callback and throws again. */
  lemma CancelFiresOnce(b: Backend, r: Runner)
    requires Inv(b) && b.initialized && r.id.Some? && r.id.value in b.entries
    requires b.current != r.id && !Done(b.entries[r.id.value].task)
    ensures var (rm, r1) := RequestCancel(b, r);
      var id := r.id.value;
      var e := b.entries[id];
      && rm.trace == [Ended(id, CancelFired(e.cb.tag))]
      && (rm.thrown.Some? <==> e.cb.cancelThrows)
      && (id !in rm.backend.entries <==> !e.cb.cancelThrows)
      && (!e.cb.cancelThrows ==>
            RunnerDone(rm.backend, r1) == Ok(true) && RequestCancel(rm.backend, r1).0.trace == [])
      && (e.cb.cancelThrows ==>
            && r1 == r && RunnerDone(rm.backend, r1) == Ok(false)
            && RequestCancel(rm.backend, r1).0.trace == rm.trace
            && RequestCancel(rm.backend, r1).0.thrown == rm.thrown)
  {
  }

  /** After `Remove(id)` outside that entry's own turn, the id is gone iff no end
      callback threw; then removing it again fires nothing and the id reads as done. When
      the callback threw, the entry is still there and a second `Remove` fires it again. */
  lemma RemoveIsFinalUnlessThrown(b: Backend, id: nat)
    requires Inv(b) && b.initialized && b.current != Some(id) && id < b.nextId
    ensures var r0 := Remove(b, id);
      var b1 := r0.backend;
      && |r0.trace| == (if id in b.entries then 1 else 0)
      && (id !in b1.entries <==> r0.thrown.None?)
      && (r0.thrown.None? ==> Remove(b1, id).trace == [] && IsDone(b1, id) == Ok(true))
      && (r0.thrown.Some? ==> |Remove(b1, id).trace| == 1)
  {
  }

  /** `forget()` leaves the backend alone: the entry keeps running and later fires its end
      callback through the frame. */
  lemma ForgetKeepsEntry(b: Backend, r: Runner)
    requires r.id.Some? && r.id.value in b.entries
    ensures DestroyRunner(b, Forget(r)) == Removal(b, [], None)
    ensures r.id.value in DestroyRunner(b, Forget(r)).backend.entries
  {
  }

  /** A runner holds an id iff its task is registered and still running then; with no
      id the runner is done at once, and with one it is not. */
  lemma RunScopedDoneIffFinished(b: Backend, task: Task, cb: Callbacks, env: Env)
    requires Inv(b) && b.initialized
    ensures var (reg, r) := RunScoped(b, task, cb, env);
      var t := if Done(task) then task else Resume(task, env).0;
      && (r.id.Some? <==> !Done(t))
      && RunnerDone(reg.backend, r) == Ok(Done(t))
      && (r.id.Some? ==> r.id.value !in b.entries)
  {
  }

  /** A cancel callback that throws fires twice: `requestCancel()` fires it, `Remove`
      skips the erase and `m_id` is never reset, so the runner's destructor removes the
      same entry again and fires it a second time, throwing once more. */
  lemma RemoveAsWrittenFiresTwice(b: Backend, r: Runner)
    requires Inv(b) && b.initialized && r.id.Some? && r.id.value in b.entries
    requires b.current != r.id && !Done(b.entries[r.id.value].task)
    requires b.entries[r.id.value].cb.cancelThrows
    ensures var (rm, r1) := RequestCancel(b, r);
      var d := DestroyRunner(rm.backend, r1);
      var fired := Ended(r.id.value, CancelFired(b.entries[r.id.value].cb.tag));
      && rm.trace == [fired] && rm.thrown.Some?
      && r1 == r && r.id.value in rm.backend.entries
      && d.trace == [fired] && d.thrown.Some?
  {
  }

  /** With `RemoveErasing` the same sequence fires the cancel callback once: the throw
      still propagates, but the entry is gone, a second removal fires nothing and the id
      reads as done. */
  lemma RemoveErasingFiresOnce(b: Backend, id: nat)
    requires Inv(b) && b.initialized && b.current != Some(id) && id in b.entries
    requires !Done(b.entries[id].task) && b.entries[id].cb.cancelThrows
    ensures var r1 := RemoveErasing(b, id);
      && r1.trace == [Ended(id, CancelFired(b.entries[id].cb.tag))] && r1.thrown.Some?
      && id !in r1.backend.entries
      && RemoveErasing(r1.backend, id).trace == []
      && IsDone(r1.backend, id) == Ok(true)
  {
  }

  // ---------------------------------------------------------------- MultiRunner

  /** `allDone()`: `all_of` over the runners, stopping at the first that is not done (or
      whose `done()` throws); true for an empty group. */
  function AllRunnersDone(b: Backend, rs: seq<Runner>): (r: Result<bool>)
    ensures rs == [] ==> r == Ok(true)
    ensures b.initialized ==> r.Ok?
    ensures r.Ok? ==> (r.value <==> forall i | 0 <= i < |rs| :: RunnerDone(b, rs[i]) == Ok(true))
    decreases |rs|
  {
    if rs == [] then Ok(true)
    else
      match RunnerDone(b, rs[0])
      case Err(x) => Err(x)
      case Ok(d) => if !d then Ok(false) else AllRunnersDone(b, rs[1..])
  }

  /** `anyDone()`: `any_of`, stopping at the first runner that is done; false for an
      empty group. */
  function AnyRunnerDone(b: Backend, rs: seq<Runner>): (r: Result<bool>)
    ensures rs == [] ==> r == Ok(false)
    ensures b.initialized ==> r.Ok?
    ensures r.Ok? ==> (r.value <==> exists i | 0 <= i < |rs| :: RunnerDone(b, rs[i]) == Ok(true))
    decreases |rs|
  {
    if rs == [] then Ok(false)
    else
      match RunnerDone(b, rs[0])
      case Err(x) => Err(x)
      case Ok(d) =>
        if d then Ok(true)
        else
          var rest := AnyRunnerDone(b, rs[1..]);
          assert forall i | 1 <= i < |rs| :: rs[i] == rs[1..][i - 1];
          rest
  }

  /** What `requestCancelAll()` did. */
  datatype CancelAll = CancelAll(backend: Backend, runners: seq<Runner>, trace: seq<Obs>, thrown: Option<Exn>)

  /** `requestCancelAll()`: `requestCancel()` on each runner in order; an exception stops
      the loop and propagates. Without one, every runner is left empty and every id a
      runner held (other than the entry being resumed) is gone from the backend. */
  function RequestCancelAll(b: Backend, rs: seq<Runner>): (r: CancelAll)
    ensures |r.runners| == |rs|
    ensures r.backend.current == b.current && r.backend.initialized == b.initialized
    ensures r.backend.entries.Keys <= b.entries.Keys
    ensures r.thrown.None? ==> forall i | 0 <= i < |rs| :: r.runners[i].id.None?
    ensures r.thrown.None? && b.initialized ==> forall i | 0 <= i < |rs| ::
      rs[i].id.Some? && b.current != rs[i].id ==> rs[i].id.value !in r.backend.entries
    decreases |rs|
  {
    if rs == [] then CancelAll(b, [], [], None)
    else
      var (rm, r0) := RequestCancel(b, rs[0]);
      if rm.thrown.Some? then CancelAll(rm.backend, [r0] + rs[1..], rm.trace, rm.thrown)
      else
        var rest := RequestCancelAll(rm.backend, rs[1..]);
        assert forall i | 1 <= i < |rs| :: rs[i] == rs[1..][i - 1];
        CancelAll(rest.backend, [r0] + rest.runners, rm.trace + rest.trace, rest.thrown)
  }

  // ---------------------------------------------------------------- scenarios

  /** A fresh backend instance. */
  const Started: Backend := Backend(true, 1, None, false, map[])

  /** The `DelayFrame(frames)` task resumed `k` times. */
  function DelayAt(frames: nat, k: nat): (t: Task)
    requires k <= frames
    ensures !Done(t) && t.sub.None? && t.before == [] && t.after == [] && t.pc == k
    ensures t.body.Script? && |t.body.code| == frames
    ensures forall i | 0 <= i < |t.body.code| :: t.body.code[i] == NextFrame
  {
    CoreTaskFacts.DelayFrame(frames).(pc := k)
  }

  /** One frame over a backend whose only entry, id 1, is a `DelayFrame(3)` not yet at its
      end: nothing fires and the entry moves one `NextFrame` on. */
  lemma DelayFrameTick(cb: Callbacks, k: nat, env: Env)
    requires k < 3
    ensures var b := Started.(nextId := 2, entries := map[1 := Entry(DelayAt(3, k), cb)]);
      var f := Frame(b, env, {});
      && f.backend == b.(entries := map[1 := Entry(DelayAt(3, k + 1), cb)])
      && FiredFor(f.trace, 1) == [] && f.thrown.None?
  {
    var b := Started.(nextId := 2, entries := map[1 := Entry(DelayAt(3, k), cb)]);
    CoreTaskFacts.DelayStep(DelayAt(3, k), env);
    SingleEntryFrame(b, 1, env, {});
    VisitFires(b, 1, env, {}, 1);
    var f := Frame(b, env, {});
    assert f.backend.entries == map[1 := Entry(DelayAt(3, k + 1), cb)];
  }

  /** The frame at which the `DelayFrame(3)` entry passes its last `NextFrame`: its finish
      callback fires, once, and the entry is gone. */
  lemma DelayFrameLastTick(cb: Callbacks, env: Env)
    ensures var b := Started.(nextId := 2, entries := map[1 := Entry(DelayAt(3, 3), cb)]);
      var f := Frame(b, env, {});
      && f.backend == b.(entries := map[])
      && FiredFor(f.trace, 1) == [FinishFired(cb.tag, VoidResult)]
  {
    var b := Started.(nextId := 2, entries := map[1 := Entry(DelayAt(3, 3), cb)]);
    CoreTaskFacts.DelayStep(DelayAt(3, 3), env);
    SingleEntryFrame(b, 1, env, {});
    VisitFires(b, 1, env, {}, 1);
    var f := Frame(b, env, {});
    assert f.backend.entries == map[];
  }

  /** A frame over an empty backend shows nothing. */
  lemma EmptyFrame(b: Backend, env: Env)
    requires b.entries == map[]
    ensures Frame(b, env, {}).trace == []
    ensures Frame(b, env, {}).backend == b.(current := None, removalNeeded := false)
  {
    assert b.entries.Keys == {};
    assert SortedNats(b.entries.Keys) == [];
  }

  /** `DelayFrame(3).runScoped(finish, cancel)`: registration resumes it once and keeps
      it as id 1; the finish callback fires on exactly the third frame, and never again. */
  lemma DelayFrameFinishesOnThirdFrame(cb: Callbacks, env: Env)
    ensures var reg := Register(Started, CoreTaskFacts.DelayFrame(3), cb, env);
      var f1 := Frame(reg.backend, env, {});
      var f2 := Frame(f1.backend, env, {});
      var f3 := Frame(f2.backend, env, {});
      var f4 := Frame(f3.backend, env, {});
      && reg.id == Some(1) && reg.fired == []
      && FiredFor(f1.trace, 1) == [] && FiredFor(f2.trace, 1) == []
      && FiredFor(f3.trace, 1) == [FinishFired(cb.tag, VoidResult)]
      && f4.trace == []
  {
    var d := CoreTaskFacts.DelayFrame(3);
    CoreTaskFacts.DelayStep(d, env);
    assert Resume(d, env).0 == DelayAt(3, 1);
    var reg := Register(Started, d, cb, env);
    var b1 := Started.(nextId := 2, entries := map[1 := Entry(DelayAt(3, 1), cb)]);
    assert reg.backend == b1;
    DelayFrameTick(cb, 1, env);
    var f1 := Frame(b1, env, {});
    DelayFrameTick(cb, 2, env);
    var f2 := Frame(f1.backend, env, {});
    DelayFrameLastTick(cb, env);
    var f3 := Frame(f2.backend, env, {});
    EmptyFrame(f3.backend, env);
  }

  /** The first two frames of a runner over `DelayFrame(3)`: it is registered as id 1,
      fires nothing, and ends up one `NextFrame` short of finishing. */
  lemma DelayTwoFrames(cb: Callbacks, env: Env)
    ensures var (reg, r) := RunScoped(Started, CoreTaskFacts.DelayFrame(3), cb, env);
      var f1 := Frame(reg.backend, env, {});
      var f2 := Frame(f1.backend, env, {});
      && r.id == Some(1)
      && FiredFor(f1.trace, 1) == [] && FiredFor(f2.trace, 1) == []
      && f2.backend == Started.(nextId := 2, entries := map[1 := Entry(DelayAt(3, 3), cb)])
  {
    var d := CoreTaskFacts.DelayFrame(3);
    CoreTaskFacts.DelayStep(d, env);
    assert Resume(d, env).0 == DelayAt(3, 1);
    var b1 := Started.(nextId := 2, entries := map[1 := Entry(DelayAt(3, 1), cb)]);
    assert Register(Started, d, cb, env).backend == b1;
    DelayFrameTick(cb, 1, env);
    var f1 := Frame(b1, env, {});
    DelayFrameTick(cb, 2, env);
  }

  /** Destroying the runner of a `DelayFrame(3)` after two frames fires its cancel
      callback at once, exactly once, and throws iff that callback does. Without a throw
      the entry is gone: later frames fire nothing and the runner's id reads as done.
      With one the entry stays registered (in the library the exception leaves the
      `noexcept` destructor and the program terminates). */
  lemma DestroyFiresCancelOnce(cb: Callbacks, env: Env)
    ensures var (reg, r) := RunScoped(Started, CoreTaskFacts.DelayFrame(3), cb, env);
      var f1 := Frame(reg.backend, env, {});
      var f2 := Frame(f1.backend, env, {});
      var d := DestroyRunner(f2.backend, r);
      && FiredFor(f1.trace, 1) == [] && FiredFor(f2.trace, 1) == []
      && d.trace == [Ended(1, CancelFired(cb.tag))]
      && (d.thrown.Some? <==> cb.cancelThrows)
      && (!cb.cancelThrows ==> Frame(d.backend, env, {}).trace == [] && IsDone(d.backend, 1) == Ok(true))
      && (cb.cancelThrows ==> 1 in d.backend.entries)
  {
    DelayTwoFrames(cb, env);
    var b3 := Started.(nextId := 2, entries := map[1 := Entry(DelayAt(3, 3), cb)]);
    var rm := Remove(b3, 1);
    if !cb.cancelThrows {
      assert rm.backend.entries == map[];
      EmptyFrame(rm.backend, env);
    }
  }
}
