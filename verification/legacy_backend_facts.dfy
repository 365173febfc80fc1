/** What the `cotask` registry guarantees: one counter for both maps, each sweep touching
    only its own map, and the life of a `DelayFrame` task started by `ScopedCoTaskRun`. */
module LegacyBackendFacts {
  import opened Values
  import opened Sweeps
  import opened LegacyTask
  import opened LegacyTaskFacts
  import opened LegacyBackend

  /** An update task and then a draw task get consecutive ids from the one counter, each
      lands in its own map only, and both then count as running. */
  lemma SharedCounter(b: Backend, t: Task, d: Task)
    requires Inv(b) && b.initialized
    ensures var (b1, i) := RegisterTask(b, Some(t), false).value;
      var (b2, j) := RegisterTask(b1, Some(d), true).value;
      && i == b.nextId && j == b.nextId + 1 && b2.nextId == b.nextId + 2
      && i in b2.updateTasks && i !in b2.drawTasks
      && j in b2.drawTasks && j !in b2.updateTasks
      && IsTaskRunning(b2, i) == Ok(true) && IsTaskRunning(b2, j) == Ok(true)
      && Inv(b2)
  {
  }

  /** The addon's update sweep leaves the draw tasks alone, and its draw sweep the update
      tasks. */
  lemma SweepsKeepToTheirMap(b: Backend)
    requires Inv(b) && b.initialized
    ensures AddonUpdate(b).backend.drawTasks == b.drawTasks
    ensures AddonDraw(b).backend.updateTasks == b.updateTasks
  {
  }

  /** A task started through `ScopedCoTaskRun` is running exactly when its first update
      neither finished it nor threw. */
  lemma StartedRunningIffNotFinished(b: Backend, t: Task, draw: bool)
    requires Inv(b) && b.initialized
    ensures var r := UpdateOnceAndRegister(b, t, draw);
      var (u, _, x) := Update(t);
      && (r.thrown.Some? <==> x.Some?)
      && IsRunning(r.backend, Lifetime(r.id)) == Ok(x.None? && !Done(u))
  {
  }

  /** An unregistered id no longer counts as running. */
  lemma UnregisteredNotRunning(b: Backend, id: nat)
    requires Inv(b) && b.initialized && b.current != Some(id)
    ensures UnregisterTask(b, id).Ok? && IsTaskRunning(UnregisterTask(b, id).value, id) == Ok(false)
  {
  }

  /** `DelayFrame(2)` started by `ScopedCoTaskRun` on a fresh addon: the start runs it to
      its first yield and registers it as id 1; a draw before the first update does
      nothing; the first update sweep passes the second yield, a draw sweep leaves it,
      and the second update sweep finishes and erases it. */
  lemma DelayFrameUnderBackend()
    ensures var reg := UpdateOnceAndRegister(Started, DelayFrame(2), false);
      var u1 := AddonUpdate(reg.backend).backend;
      var d1 := AddonDraw(u1).backend;
      var u2 := AddonUpdate(d1).backend;
      && reg.id == Some(1) && reg.thrown.None?
      && AddonDraw(reg.backend) == Pass(reg.backend, [], None)
      && IsTaskRunning(u1, 1) == Ok(true) && IsTaskRunning(d1, 1) == Ok(true)
      && IsTaskRunning(u2, 1) == Ok(false)
  {
    var t := DelayFrame(2);
    YieldStep(t);
    var t1 := t.(pc := 1, linked := false);
    var reg := UpdateOnceAndRegister(Started, t, false);
    assert reg.backend.updateTasks == map[1 := t1] && reg.backend.drawTasks == map[];
    YieldStep(t1);
    var t2 := t1.(pc := 2);
    SweepSingle(1, t1, Step(), Done);
    var u1 := AddonUpdate(reg.backend).backend;
    assert u1.updateTasks == map[1 := t2];
    SweepSingle(1, t2, Step(), Done);
    var d1 := AddonDraw(u1).backend;
    assert d1.updateTasks == map[1 := t2];
  }
}
