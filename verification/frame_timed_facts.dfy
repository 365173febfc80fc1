/** Properties of the frame-timed task of include/CoTaskLib.hpp: the timing gate, the
    order in which one resume runs things, the repeatable result, `DelayFrame`, and the
    three-timing cycle of `All` / `Any`. */
module FrameTimedFacts {
  import opened Values
  import opened FrameTimed

  /** `DelayFrame(frames)`: `for (i = 0; i < frames; ++i) co_yield FrameTiming::Update;`. */
  function DelayFrame(frames: int): (t: Task)
    ensures !Done(t) && t.pc == 0 && t.next == Update && t.sub.None? && t.with == [] && t.isVoid
    ensures t.funcs == Funcs([], [], [])
    ensures t.body.Script? && |t.body.code| == (if frames < 0 then 0 else frames)
    ensures forall i | 0 <= i < |t.body.code| :: t.body.code[i] == Yield(Update)
  {
    NewTask(Script(seq(if frames < 0 then 0 else frames, _ => Yield(Update))), true)
  }

  /** The task after resumes at each timing of `ts` in turn (results and events dropped). */
  function ResumeSeq(t: Task, ts: seq<Timing>): Task
    decreases |ts|
  {
    if ts == [] then t else ResumeSeq(Resume(t, ts[0]).0, ts[1..])
  }

  /** One frame as the addon drives it: Update, then Draw, then LateDraw. */
  const OneFrame: seq<Timing> := [Update, Draw, LateDraw]

  /** The task after `n` whole frames. */
  function Frames(t: Task, n: nat): Task
    decreases n
  {
    if n == 0 then t else Frames(ResumeSeq(t, OneFrame), n - 1)
  }

  // ---------------------------------------------------------------- the timing gate

  /** The body only runs at the timing it last yielded: at any other timing, with no
      running sub-awaiter, the coroutine is untouched; only the `with` tasks and the
      functions of that timing run. */
  lemma BodyWaitsForItsTiming(t: Task, timing: Timing)
    requires !Done(t) && (t.sub.None? || Done(t.sub.value)) && t.next != timing
    ensures ResumeHandle(t, timing) == (t, [], None)
    ensures var u := Resume(t, timing).0;
      u.body == t.body && u.pc == t.pc && u.next == t.next && u.sub == t.sub && u.outcome == t.outcome
  {
  }

  /** `co_yield timing` records the timing at which the body next runs and suspends;
      `co_yield FrameTiming::Init` throws inside the body instead, failing the task and
      propagating out of the resume. */
  lemma YieldRecordsTiming(t: Task, timing: Timing)
    requires !Done(t) && t.sub.None? && t.next == timing
    requires t.body.Script? && t.pc < |t.body.code| && t.body.code[t.pc].Yield?
    ensures var y := t.body.code[t.pc].timing;
      && (y != Init ==> ResumeHandle(t, timing) == (t.(pc := t.pc + 1, next := y), [], None))
      && (y == Init ==>
            ResumeHandle(t, timing) ==
            (t.(outcome := Some(Raised(Logic(InitTimingYield)))), [], Some(Logic(InitTimingYield))))
  {
    var code := t.body.code;
    assert ResumeHandle(t, timing) == Step(t, None, timing);
    assert RunScript(t, code, t.pc, timing).1 == [];
  }

  /** `Task::resume` runs the coroutine, then the `with` tasks, then only the functions of
      the current timing: a task emitting 1 with a `with` task emitting 2 and an Update
      function 7 and a Draw function 8 shows [1, 2, Update 7] at Update, and only [Draw 8]
      at the Draw that follows, its body waiting for the next Update. */
  lemma ResumeOrderExample()
    ensures var w := NewTask(Script([Emit(2), Yield(Update)]), true);
      var t := WithFunc(WithFunc(WithTask(NewTask(Script([Emit(1), Yield(Update)]), true), w), Update, 7), Draw, 8);
      var (u, ev, x) := Resume(t, Update);
      && ev == [Emitted(1), Emitted(2), FuncCalled(Update, 7)] && x.None?
      && Resume(u, Draw).1 == [FuncCalled(Draw, 8)]
  {
    var w := NewTask(Script([Emit(2), Yield(Update)]), true);
    var t := WithFunc(WithFunc(WithTask(NewTask(Script([Emit(1), Yield(Update)]), true), w), Update, 7), Draw, 8);
    var code := t.body.code;
    assert RunScript(t, code, 1, Update) == (Suspend(2, Some(Update), None), []);
    assert RunScript(t, code, 0, Update).1 == [Emitted(1)];
    assert ResumeHandle(t, Update).1 == [Emitted(1)];
    var wcode := w.body.code;
    assert RunScript(w, wcode, 1, Update) == (Suspend(2, Some(Update), None), []);
    assert RunScript(w, wcode, 0, Update).1 == [Emitted(2)];
    assert ResumeHandle(w, Update) == (w.(pc := 2), [Emitted(2)], None);
    assert Resume(w, Update) == (w.(pc := 2), [Emitted(2)], None);
    assert t.with == [w] && t.with[1..] == [];
    assert ResumeEach(t, t.with[1..], Update) == ([], [], None);
    assert ResumeEach(t, t.with, Update).1 == [Emitted(2)] + [];
    assert ResumeEach(t, t.with, Update).0 == [w.(pc := 2)] + [];
    assert ResumeEach(t, t.with, Update).2 == None;
    assert ResumeEach(t, t.with, Update).1 == [Emitted(2)];
    assert ResumeEach(t, t.with, Update).0 == [w.(pc := 2)];
    assert FuncEvents(t.funcs, Update) == [FuncCalled(Update, 7)];
    var u := Resume(t, Update).0;
    assert u.next == Update && u.with == [w.(pc := 2)];
    ResumeBare(w.(pc := 2), Draw);
    assert Resume(w.(pc := 2), Draw) == (w.(pc := 2), [], None);
    assert u.with[1..] == [];
    assert ResumeEach(u, u.with[1..], Draw) == ([], [], None);
    assert ResumeEach(u, u.with, Draw) == (u.with, [], None);
    assert FuncEvents(u.funcs, Draw) == [FuncCalled(Draw, 8)];
  }

  // ---------------------------------------------------------------- sub-awaiters

  /** An exception raised by a running sub-awaiter escapes the parent's resume without
      failing the parent, which keeps waiting on the (now finished) task. */
  lemma SubFailureEscapesParent(t: Task, timing: Timing)
    requires !Done(t) && t.sub.Some? && !Done(t.sub.value)
    requires Resume(t.sub.value, timing).2.Some?
    ensures var (c, _, x) := Resume(t.sub.value, timing);
      var (u, _, y) := ResumeHandle(t, timing);
      && u == t.(sub := Some(c)) && y == x && !Done(u)
  {
  }

  /** At the parent's own timing, `await_resume` reads the finished task's result: a
      failure is raised again, this time inside the parent's body, which fails with it. */
  lemma FinishedSubFailureFailsParent(t: Task, timing: Timing, e: Exn)
    requires !Done(t) && t.sub.Some? && t.sub.value.outcome == Some(Raised(e))
    requires t.next == timing && t.body.Script? && t.pc < |t.body.code| && Awaits(t.body.code[t.pc])
    ensures ResumeHandle(t, timing) == (t.(sub := None, outcome := Some(Raised(e))), [], Some(e))
  {
    var code := t.body.code;
    assert ResumeHandle(t, timing) == Step(t, t.sub, timing);
    assert AfterAwait(t, code, t.pc, t.sub.value, timing) == (Finish(Raised(e)), []);
  }

  // ---------------------------------------------------------------- the result

  /** A finished task never changes again, whatever it is resumed with, so `value()` gives
      the same answer every time it is asked: unlike Core.hpp there is no consumed flag. */
  lemma {:induction false} DoneIsFinal(t: Task, ts: seq<Timing>)
    requires Done(t)
    ensures ResumeSeq(t, ts) == t
    ensures TaskValue(ResumeSeq(t, ts)) == TaskValue(t)
    decreases |ts|
  {
    if ts != [] {
      DoneIsFinal(Resume(t, ts[0]).0, ts[1..]);
    }
  }

  // ---------------------------------------------------------------- DelayFrame

  /** With no `with` tasks and no functions for the timing, `Task::resume` is the handle's
      resume alone. */
  lemma ResumeBare(t: Task, timing: Timing)
    requires t.with == [] && FuncsAt(t.funcs, timing) == []
    ensures Resume(t, timing) == ResumeHandle(t, timing)
  {
    if !Done(t) {
      assert ResumeEach(t, [], timing) == ([], [], None);
      assert FuncEvents(t.funcs, timing) == [];
      var (h, e1, x1) := ResumeHandle(t, timing);
      assert e1 + [] + [] == e1;
      assert h.(with := []) == h;
    }
  }

  /** A `DelayFrame` body waits out Draw and LateDraw, passes one `co_yield` per Update
      resume, and finishes at the Update after the last one. */
  lemma DelayStep(t: Task, timing: Timing)
    requires !Done(t) && t.sub.None? && t.with == [] && t.funcs == Funcs([], [], []) && t.next == Update
    requires t.body.Script? && t.pc <= |t.body.code|
    requires forall i | 0 <= i < |t.body.code| :: t.body.code[i] == Yield(Update)
    ensures timing != Update ==> Resume(t, timing) == (t, [], None)
    ensures timing == Update && t.pc < |t.body.code| ==> Resume(t, timing) == (t.(pc := t.pc + 1), [], None)
    ensures timing == Update && t.pc == |t.body.code| ==>
      Resume(t, timing) == (t.(outcome := Some(Returned(None))), [], None)
  {
    ResumeBare(t, timing);
    if timing == Update {
      assert ResumeHandle(t, timing) == Step(t, None, timing);
      var code := t.body.code;
      assert t.pc < |code| ==> RunScript(t, code, t.pc, timing) == (Suspend(t.pc + 1, Some(Update), None), []);
    }
  }

  /** A whole frame moves a `DelayFrame` one `co_yield` on, or finishes it. */
  lemma DelayFrameStep(t: Task)
    requires !Done(t) && t.sub.None? && t.with == [] && t.funcs == Funcs([], [], []) && t.next == Update
    requires t.body.Script? && t.pc <= |t.body.code|
    requires forall i | 0 <= i < |t.body.code| :: t.body.code[i] == Yield(Update)
    ensures t.pc < |t.body.code| ==> ResumeSeq(t, OneFrame) == t.(pc := t.pc + 1)
    ensures t.pc == |t.body.code| ==> ResumeSeq(t, OneFrame) == t.(outcome := Some(Returned(None)))
  {
    DelayStep(t, Update);
    var u := Resume(t, Update).0;
    if t.pc < |t.body.code| {
      DelayStep(u, Draw);
      DelayStep(u, LateDraw);
      assert ResumeSeq(u, [LateDraw]) == u;
      assert ResumeSeq(u, [Draw, LateDraw]) == u;
    } else {
      assert ResumeSeq(u, [Draw, LateDraw]) == u by {
        assert Done(u);
        assert Resume(u, Draw).0 == u && Resume(u, LateDraw).0 == u;
        assert ResumeSeq(u, [LateDraw]) == u;
      }
    }
  }

  /** `k` frames that stay within the code advance the resume point by `k`. */
  lemma {:induction false} DelayAdvances(t: Task, k: nat)
    requires !Done(t) && t.sub.None? && t.with == [] && t.funcs == Funcs([], [], []) && t.next == Update
    requires t.body.Script? && t.pc + k <= |t.body.code|
    requires forall i | 0 <= i < |t.body.code| :: t.body.code[i] == Yield(Update)
    ensures Frames(t, k) == t.(pc := t.pc + k)
    decreases k
  {
    if k > 0 {
      DelayFrameStep(t);
      DelayAdvances(t.(pc := t.pc + 1), k - 1);
    }
  }

  /** The last of `n + 1` frames. */
  lemma {:induction false} FramesLast(t: Task, n: nat)
    ensures Frames(t, n + 1) == ResumeSeq(Frames(t, n), OneFrame)
    decreases n
  {
    if n > 0 {
      FramesLast(ResumeSeq(t, OneFrame), n - 1);
    }
  }

  /** `DelayFrame(n)` is still running after `n` frames and finishes in frame `n + 1`,
      after which its (void) value can be read. */
  lemma DelayFrameFinishesInFrame(frames: int)
    ensures var n := if frames < 0 then 0 else frames;
      && !Done(Frames(DelayFrame(frames), n))
      && Done(Frames(DelayFrame(frames), n + 1))
      && TaskValue(Frames(DelayFrame(frames), n + 1)) == Ok(VoidResult)
  {
    var n := if frames < 0 then 0 else frames;
    var t := DelayFrame(frames);
    DelayAdvances(t, n);
    FramesLast(t, n);
    DelayFrameStep(t.(pc := n));
  }

  // ---------------------------------------------------------------- All / Any

  /** With no sub-awaiter, no `with` tasks and no functions, resuming a combinator at
      the timing it waits for runs one step of its loop. */
  lemma ResumeIsPhase(t: Task, timing: Timing)
    requires !Done(t) && !t.body.Script? && t.sub.None? && t.next == timing
    requires t.with == [] && t.funcs == Funcs([], [], [])
    ensures Resume(t, timing) == Phase(t, t.body.args, timing, t.body.All?)
  {
    ResumeBare(t, timing);
    assert ResumeHandle(t, timing) == Step(t, None, timing);
    if t.body.All? {
      assert Step(t, None, timing) == StepAll(t, timing);
    } else {
      assert Step(t, None, timing) == StepAny(t, timing);
    }
  }

  /** One frame of an `All` / `Any` loop: the arguments are resumed at Update, then at
      Draw, then at LateDraw, each exactly once per frame. At Update the combinator
      finishes iff its exit test then holds (all done for `All`, one done for `Any`);
      if it does not, and nothing throws, it ends the frame waiting for the next Update,
      every argument having seen the whole frame. */
  lemma CombinatorFrame(t: Task)
    requires !Done(t) && !t.body.Script? && t.pc == LoopTop && t.next == Update && t.sub.None?
    requires t.with == [] && t.funcs == Funcs([], [], [])
    ensures var all := t.body.All?;
      var u1 := Resume(t, Update);
      var u2 := Resume(u1.0, Draw);
      var u3 := Resume(u2.0, LateDraw);
      && u1.0.body.args == ResumeEach(t, t.body.args, Update).0
      && (u1.2.None? ==> (Done(u1.0) <==> Finished(u1.0.body.args, all)))
      && (u1.2.None? && !Done(u1.0) && u2.2.None? && u3.2.None? ==>
            && !Done(u3.0) && u3.0.pc == LoopTop && u3.0.next == Update
            && |u3.0.body.args| == |t.body.args|
            && forall i | 0 <= i < |t.body.args| :: u3.0.body.args[i] == ResumeSeq(t.body.args[i], OneFrame))
  {
    var all := t.body.All?;
    PhaseStep(t, Update);
    var u1 := Resume(t, Update);
    if u1.2.None? && !Done(u1.0) {
      PhaseStep(u1.0, Draw);
      var u2 := Resume(u1.0, Draw);
      if u2.2.None? {
        PhaseStep(u2.0, LateDraw);
        var u3 := Resume(u2.0, LateDraw);
        if u3.2.None? {
          forall i | 0 <= i < |t.body.args|
            ensures u3.0.body.args[i] == ResumeSeq(t.body.args[i], OneFrame)
          {
            ResumeSeqFrame(t.body.args[i]);
          }
        }
      }
    }
  }

  /** One resume of a combinator in the loop, at the timing its resume point waits for. */
  lemma PhaseStep(t: Task, timing: Timing)
    requires !Done(t) && !t.body.Script? && t.sub.None? && t.next == timing
    requires t.with == [] && t.funcs == Funcs([], [], [])
    requires t.pc == LoopTop || t.pc == DrawPhase || t.pc == LatePhase
    ensures t.pc == LoopTop ==> Resume(t, timing) == UpdatePhase(t, t.body.args, t.body.All?)
    ensures t.pc == DrawPhase ==> Resume(t, timing) == DrivePhase(t, t.body.args, Draw, LatePhase, LateDraw)
    ensures t.pc == LatePhase ==> Resume(t, timing) == DrivePhase(t, t.body.args, LateDraw, LoopTop, Update)
  {
    ResumeIsPhase(t, timing);
  }

  /** A whole frame, one timing at a time. */
  lemma ResumeSeqFrame(a: Task)
    ensures ResumeSeq(a, OneFrame) == Resume(Resume(Resume(a, Update).0, Draw).0, LateDraw).0
  {
    var a1 := Resume(a, Update).0;
    var a2 := Resume(a1, Draw).0;
    assert ResumeSeq(a2, [LateDraw]) == Resume(a2, LateDraw).0;
    assert ResumeSeq(a1, [Draw, LateDraw]) == ResumeSeq(a2, [LateDraw]);
  }

  /** An `All` whose arguments are all done when it starts finishes on its first resume,
      without resuming any of them. */
  lemma AllStartsDone(t: Task)
    requires t.body.All? && !Done(t) && t.pc == Start && t.next == Update && t.sub.None?
    requires AllDone(t.body.args)
    ensures var (u, ev, _) := ResumeHandle(t, Update);
      && Done(u) && ev == [] && u.body.args == t.body.args
      && u.outcome == Some(TupleOutcome(AllResults(t.body.args)))
  {
    assert ResumeHandle(t, Update) == Step(t, None, Update);
    assert Step(t, None, Update) == Phase(t, t.body.args, Update, true);
    assert Finished(t.body.args, true);
  }

  /** `ConvertVoidResult` and `ConvertOptionalVoidResult` never read a void argument, so a
      void argument that failed shows up in either tuple as `VoidResult` and its failure
      is lost; a failed non-void argument aborts the tuple with its exception. */
  lemma FailedVoidArgumentGoesUnnoticed(e: Exn)
    ensures var failed := NewTask(Script([]), true).(outcome := Some(Raised(e)));
      var five := NewTask(Script([]), false).(outcome := Some(Returned(Some(Int(5)))));
      && AllResults([failed, five]) == Ok([VoidResult, Int(5)])
      && AnyResults([failed, five]) == Ok([Opt(Some(VoidResult)), Opt(Some(Int(5)))])
      && AllResults([failed.(isVoid := false), five]) == Err(e)
  {
    var failed := NewTask(Script([]), true).(outcome := Some(Raised(e)));
    var five := NewTask(Script([]), false).(outcome := Some(Returned(Some(Int(5)))));
    assert Converted(failed) == Ok(VoidResult) && Converted(five) == Ok(Int(5));
    assert ConvertedOpt(failed) == Ok(Opt(Some(VoidResult))) && ConvertedOpt(five) == Ok(Opt(Some(Int(5))));
    var r := AllResults([failed, five]);
    assert r.Ok? && |r.value| == 2 && r.value[0] == VoidResult && r.value[1] == Int(5);
    assert r.value == [VoidResult, Int(5)];
    var q := AnyResults([failed, five]);
    assert q.Ok? && |q.value| == 2 && q.value[0] == Opt(Some(VoidResult)) && q.value[1] == Opt(Some(Int(5)));
    assert q.value == [Opt(Some(VoidResult)), Opt(Some(Int(5)))];
    var f := AllResults([failed.(isVoid := false), five]);
    assert f.Err?;
  }
}
