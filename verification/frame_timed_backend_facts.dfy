/** A task driven by the frame-timed backend: registration, the addon's passes and the
    registry's answers, for one `DelayFrame` task. */
module FrameTimedBackendFacts {
  import opened Values
  import opened FrameTimed
  import opened FrameTimedFacts
  import opened FrameTimedBackend
  import opened Sweeps

  /** A pass over a registry holding one task that does not throw. */
  lemma SinglePass(b: Backend, id: nat, timing: Timing)
    requires Inv(b) && b.initialized && id in b.entries && b.entries == map[id := b.entries[id]]
    requires Resume(b.entries[id], timing).2.None?
    ensures var u := Resume(b.entries[id], timing).0;
      var r := ResumeAt(b, timing);
      && r.thrown.None? && r.backend.current.None?
      && r.backend == b.(timing := timing, current := None, entries := if Done(u) then map[] else map[id := u])
      && r.trace == [Ran(id, Resume(b.entries[id], timing).1)]
  {
    SweepSingle(id, b.entries[id], At(timing), Done);
  }

  /** `DelayFrame(1)` under a fresh backend: registering it (at the initial timing, which
      it waits out) gives it id 1; a draw before the first update does nothing; the first
      Update pass passes its `co_yield`, the draw passes leave it be, and the second
      Update pass finishes and erases it, after which its id reads as done. */
  lemma DelayFrameUnderBackend()
    ensures var b0 := InitBackend(Uninitialized).value;
      var t := DelayFrame(1);
      var reg := Register(b0, t);
      var u1 := AddonUpdate(reg.backend).backend;
      var d1 := AddonDraw(u1).backend;
      var u2 := AddonUpdate(d1).backend;
      && reg.id == Some(1) && reg.thrown.None?
      && AddonDraw(reg.backend) == Pass(reg.backend, [], None)
      && IsDone(u1, 1) == Ok(false) && IsDone(d1, 1) == Ok(false)
      && u2.entries == map[] && IsDone(u2, 1) == Ok(true)
  {
    var b0 := InitBackend(Uninitialized).value;
    var t := DelayFrame(1);
    DelayStep(t, Init);
    var reg := Register(b0, t);
    assert reg.backend.entries == map[1 := t];
    var t1 := t.(pc := 1);
    DelayStep(t, Update);
    SinglePass(reg.backend.(firstUpdated := true), 1, Update);
    var u1 := AddonUpdate(reg.backend).backend;
    assert u1.entries == map[1 := t1];
    DelayStep(t1, Draw);
    DelayStep(t1, LateDraw);
    SinglePass(u1, 1, Draw);
    var dr := ResumeAt(u1, Draw).backend;
    SinglePass(dr, 1, LateDraw);
    var d1 := AddonDraw(u1).backend;
    assert d1.entries == map[1 := t1];
    DelayStep(t1, Update);
    SinglePass(d1.(firstUpdated := true), 1, Update);
  }
}
