/** Properties of the Core.hpp task state machine: the resume protocol, the one-shot result
    slot, the library's small coroutine bodies, and the `All` / `Any` combinators. */
module CoreTaskFacts {
  import opened Values
  import opened CoreTask
  import FinishSource

  // ---------------------------------------------------------------- library bodies

  /** `DelayFrame(frames)`: `for (i = 0; i < frames; ++i) co_await NextFrame();`, so a
      negative count waits no frame at all. */
  function DelayFrame(frames: int): (t: Task)
    ensures !Done(t) && t.pc == 0 && t.sub.None? && t.before == [] && t.after == []
    ensures t.body.Script? && |t.body.code| == (if frames < 0 then 0 else frames)
    ensures forall i | 0 <= i < |t.body.code| :: t.body.code[i] == NextFrame
  {
    NewTask(Script(seq(if frames < 0 then 0 else frames, _ => NextFrame)))
  }

  /** `FromResult(v)`: `co_return v;`. */
  function FromResult(v: Value): (t: Task)
    ensures !Done(t) && t.body == Script([Return(v)])
  {
    NewTask(Script([Return(v)]))
  }

  /** The task after `n` resumes in an unchanging world. */
  function ResumeTimes(t: Task, env: Env, n: nat): Task
    decreases n
  {
    if n == 0 then t else ResumeTimes(Resume(t, env).0, env, n - 1)
  }

  // ---------------------------------------------------------------- resume protocol

  /** With no sub-awaiter linked, `Task::resume()` runs the body once (between the Before
      and After tasks, which do not touch it). */
  lemma ResumeRunsBody(t: Task, env: Env)
    requires !Done(t) && t.sub.None?
    ensures var (u, s) := (Resume(t, env).0, Step(t, env).0);
      u.body == s.body && u.pc == s.pc && u.sub == s.sub && u.slot == s.slot
    ensures t.before == [] && t.after == [] ==> Resume(t, env) == Step(t, env)
  {
    assert ResumeHandle(t, env) == Step(t, env);
    if t.before == [] && t.after == [] {
      assert ResumeEach(t, [], env) == ([], []);
      var e := Step(t, env).1;
      assert [] + e + [] == e;
    }
  }

  /** While the linked sub-awaiter is still running after its resume, the body does not
      move: resume point and body are untouched, only the sub-awaiter advanced. */
  lemma PendingSubBlocksBody(t: Task, env: Env)
    requires !Done(t) && t.sub.Some?
    requires !Done(Resume(t.sub.value, env).0)
    ensures var (u, ev) := ResumeHandle(t, env);
      && u == t.(sub := Some(Resume(t.sub.value, env).0))
      && ev == Resume(t.sub.value, env).1
  {
  }

  /** When the linked sub-awaiter finishes during its resume, the body continues in the
      same call: the link is cleared and the body either finishes or moves past the
      `co_await` (possibly to a later one). */
  lemma FinishedSubResumesBody(t: Task, env: Env)
    requires Wf(t) && !Done(t) && t.sub.Some?
    requires Done(Resume(t.sub.value, env).0)
    ensures var u := ResumeHandle(t, env).0;
      Done(u) || u.pc > t.pc
  {
    var c := Resume(t.sub.value, env).0;
    assert SubLinked(t);
    var s := AfterAwait(t, t.body.code, t.pc, c, env).0;
    assert s.Suspend? ==> t.pc < s.pc;
  }

  /** A failure raised in an awaited task is rethrown into the awaiting body, which
      finishes with the same failure. */
  lemma AwaitRethrows(t: Task, env: Env, e: Exn)
    requires Wf(t) && !Done(t) && t.sub.Some?
    requires Resume(t.sub.value, env).0.slot.outcome == Some(Raised(e))
    ensures ResumeHandle(t, env).0.slot.outcome == Some(Raised(e))
  {
    assert SubLinked(t) && Wf(t.sub.value);
    assert !t.sub.value.slot.consumed;
  }

  /** `co_return co_await child;` finishes with the child's value as soon as the child
      returns it. */
  lemma AwaitReturnForwardsValue(t: Task, env: Env, v: Value)
    requires Wf(t) && !Done(t) && t.sub.Some?
    requires t.body.code[t.pc].AwaitReturn?
    requires Resume(t.sub.value, env).0.slot.outcome == Some(Returned(v))
    ensures ResumeHandle(t, env).0.slot.outcome == Some(Returned(v))
  {
    assert SubLinked(t) && Wf(t.sub.value);
    assert !t.sub.value.slot.consumed;
  }

  /** `co_await child` on an unfinished child resumes it at once, before the awaiting
      body does anything else, and suspends (keeping the link) only if the child is
      still running afterwards. */
  lemma AwaitResumesChildOnce(t: Task, env: Env)
    requires !Done(t) && t.sub.None? && t.body.Script?
    requires t.pc < |t.body.code| && Awaits(t.body.code[t.pc])
    requires !Done(t.body.code[t.pc].child)
    ensures var (u, ev) := ResumeHandle(t, env);
      var (c, evc) := Resume(t.body.code[t.pc].child, env);
      && evc <= ev
      && (!Done(c) ==> u.pc == t.pc && u.sub == Some(c) && ev == evc)
      && (Done(c) ==> Done(u) || u.pc > t.pc)
  {
    var code := t.body.code;
    assert ResumeHandle(t, env) == Step(t, env);
    var (s, ev) := RunScript(t, code, t.pc, env);
    assert Step(t, env) == (Settle(t, s), ev);
    var (c, evc) := Resume(code[t.pc].child, env);
    if Done(c) {
      var (s2, ev2) := AfterAwait(t, code, t.pc, c, env);
      assert s == s2 && ev == evc + ev2;
    } else {
      assert s == Suspend(t.pc, Some(c)) && ev == evc;
    }
  }

  /** `Task::resume()` runs the Before tasks, then the coroutine, then the After tasks:
      with one emitting task attached on each side, the events come out in that order. */
  lemma WithRunsBeforeBodyAfter(env: Env)
    ensures var t := With(With(NewTask(Script([Emit(2)])), NewTask(Script([Emit(1)])), Before),
                          NewTask(Script([Emit(3)])), After);
      Resume(t, env).1 == [Emitted(1), Emitted(2), Emitted(3)]
  {
    var t := With(With(NewTask(Script([Emit(2)])), NewTask(Script([Emit(1)])), Before),
                  NewTask(Script([Emit(3)])), After);
    assert ResumeEach(t, t.before, env).1 == [Emitted(1)];
    assert ResumeEach(t, t.after, env).1 == [Emitted(3)];
  }

  // ---------------------------------------------------------------- result slot

  /** `value()` hands out the outcome once, rethrowing a captured failure, and a second
      call throws. */
  lemma ValueReadOnce(t: Task)
    requires Done(t) && !t.slot.consumed
    ensures var (t1, r) := TakeValue(t);
      && (t.slot.outcome.value.Returned? ==> r == Ok(t.slot.outcome.value.v))
      && (t.slot.outcome.value.Raised? ==> r == Err(t.slot.outcome.value.e))
      && TakeValue(t1).1 == Err(Logic(ResultTakenTwice))
      && Done(t1)
  {
  }

  /** Once the body finished, neither resuming nor anything else moves its outcome: a
      finished task's slot is fixed for good. */
  lemma {:induction false} OutcomeIsFinal(t: Task, env: Env, n: nat)
    requires Done(t)
    ensures ResumeTimes(t, env, n) == t
    decreases n
  {
    if n > 0 {
      OutcomeIsFinal(Resume(t, env).0, env, n - 1);
    }
  }

  /** Resuming keeps the reachable-state invariant, however many times. */
  lemma {:induction false} ResumeKeepsWf(t: Task, env: Env, n: nat)
    requires Wf(t)
    ensures Wf(ResumeTimes(t, env, n))
    decreases n
  {
    if n > 0 {
      ResumeKeepsWf(Resume(t, env).0, env, n - 1);
    }
  }

  // ---------------------------------------------------------------- DelayFrame

  /** One resume of a `DelayFrame` body passes one `NextFrame`, or finishes past the
      last one. */
  lemma DelayStep(t: Task, env: Env)
    requires !Done(t) && t.sub.None? && t.before == [] && t.after == []
    requires t.body.Script? && t.pc <= |t.body.code|
    requires forall i | 0 <= i < |t.body.code| :: t.body.code[i] == NextFrame
    ensures t.pc < |t.body.code| ==> Resume(t, env) == (t.(pc := t.pc + 1), [])
    ensures t.pc == |t.body.code| ==>
      Resume(t, env) == (t.(slot := Slot(Some(Returned(VoidResult)), t.slot.consumed)), [])
  {
    ResumeRunsBody(t, env);
    var code := t.body.code;
    assert Step(t, env) == (Settle(t, RunScript(t, code, t.pc, env).0), RunScript(t, code, t.pc, env).1);
  }

  /** Starting from resume point `p`, `k` further resumes that stay within the code just
      advance the resume point. */
  lemma {:induction false} DelayAdvances(t: Task, env: Env, k: nat)
    requires !Done(t) && t.sub.None? && t.before == [] && t.after == []
    requires t.body.Script? && t.pc + k <= |t.body.code|
    requires forall i | 0 <= i < |t.body.code| :: t.body.code[i] == NextFrame
    ensures ResumeTimes(t, env, k) == t.(pc := t.pc + k)
    decreases k
  {
    if k > 0 {
      DelayStep(t, env);
      DelayAdvances(t.(pc := t.pc + 1), env, k - 1);
    }
  }

  /** `DelayFrame(n)` is still running after `n` resumes and finishes on resume `n + 1`
      (for a negative `n`, on the first resume). */
  lemma DelayFrameFinishesOnResume(frames: int, env: Env)
    ensures var n := if frames < 0 then 0 else frames;
      && !Done(ResumeTimes(DelayFrame(frames), env, n))
      && ResumeTimes(DelayFrame(frames), env, n + 1).slot.outcome == Some(Returned(VoidResult))
  {
    var n := if frames < 0 then 0 else frames;
    var t := DelayFrame(frames);
    DelayAdvances(t, env, n);
    ResumeTimesLast(t, env, n);
    DelayStep(t.(pc := n), env);
  }

  /** The last of `n + 1` resumes. */
  lemma {:induction false} ResumeTimesLast(t: Task, env: Env, n: nat)
    ensures ResumeTimes(t, env, n + 1) == Resume(ResumeTimes(t, env, n), env).0
    decreases n
  {
    if n > 0 {
      ResumeTimesLast(Resume(t, env).0, env, n - 1);
    }
  }

  // ---------------------------------------------------------------- polling bodies

  /** `WaitUntil(p)` finishes on exactly the resume at which `p` holds. */
  lemma WaitUntilFinishesIffHolds(t: Task, env: Env)
    requires Wf(t) && !Done(t) && t.body.WaitUntil?
    ensures Done(Resume(t, env).0) <==> t.body.pred in env.holds
  {
    assert t.sub.None?;
    ResumeRunsBody(t, env);
    assert Step(t, env) == StepLoop(t, env);
  }

  /** `WaitWhile(p)` finishes on exactly the resume at which `p` no longer holds. */
  lemma WaitWhileFinishesIffNotHolds(t: Task, env: Env)
    requires Wf(t) && !Done(t) && t.body.WaitWhile?
    ensures Done(Resume(t, env).0) <==> t.body.pred !in env.holds
  {
    assert t.sub.None?;
    ResumeRunsBody(t, env);
    assert Step(t, env) == StepLoop(t, env);
  }

  /** `UpdaterTask(updateFunc)` calls its function once per resume and never finishes. */
  lemma {:induction false} UpdaterNeverFinishes(t: Task, env: Env, n: nat)
    requires Wf(t) && !Done(t) && t.body.Updater?
    ensures !Done(ResumeTimes(t, env, n))
    ensures ResumeTimes(t, env, n).body == t.body
    decreases n
  {
    if n > 0 {
      var u := Resume(t, env).0;
      assert t.sub.None?;
      ResumeRunsBody(t, env);
      assert Step(t, env) == StepLoop(t, env);
      UpdaterNeverFinishes(u, env, n - 1);
    }
  }

  /** `UpdaterTask` with a finish source finishes, on the resume at which its function
      requests it, with the requested value; until then it keeps running. */
  lemma UpdaterFinishesWithRequest(t: Task, env: Env)
    requires Wf(t) && !Done(t) && t.body.UpdaterWithResult?
    requires t.body.source == FinishSource.Fresh
    ensures var f := t.body.func;
      && (f in env.requests ==> Resume(t, env).0.slot.outcome == Some(Returned(env.requests[f])))
      && (f !in env.requests ==> !Done(Resume(t, env).0))
  {
    assert t.sub.None?;
    ResumeRunsBody(t, env);
    assert Step(t, env) == StepLoop(t, env);
  }

  /** The void finish-source overload finishes exactly on the resume that requests it. */
  lemma VoidUpdaterFinishesOnRequest(t: Task, env: Env)
    requires Wf(t) && !Done(t) && t.body.UpdaterWithFinish?
    requires !t.body.vsource.requested
    ensures Done(Resume(t, env).0) <==> t.body.func in env.requests
    ensures Done(Resume(t, env).0) ==> Resume(t, env).0.slot.outcome == Some(Returned(VoidResult))
  {
    assert t.sub.None?;
    ResumeRunsBody(t, env);
    assert Step(t, env) == StepLoop(t, env);
  }

  // ---------------------------------------------------------------- All / Any

  /** One run of the `All` body, before the resume that wraps it is taken into account. */
  lemma StepAllSpec(t: Task, env: Env)
    requires !Done(t) && t.sub.None? && t.body.All?
    ensures var u := StepAll(t, env).0;
      && u.body.All?
      && |u.body.args| == |t.body.args|
      && (forall i | 0 <= i < |t.body.args| :: u.body.args[i] == Resume(t.body.args[i], env).0)
      && (Done(u) <==> AllDone(u.body.args))
      && (Done(u) ==> u.slot.outcome == Some(TupleOutcome(AllResults(u.body.args))))
  {
    var args := t.body.args;
    if t.pc == 0 && AllDone(args) {
      forall i | 0 <= i < |args|
        ensures args[i] == Resume(args[i], env).0
      {
      }
    }
  }

  /** One resume of `All(args...)` resumes every argument once, in order, and finishes iff
      all of them are then done, with their results as the tuple. */
  lemma AllFinishesIffAllDone(t: Task, env: Env)
    requires !Done(t) && t.sub.None? && t.body.All?
    ensures var u := Resume(t, env).0;
      && u.body.All?
      && |u.body.args| == |t.body.args|
      && (forall i | 0 <= i < |t.body.args| :: u.body.args[i] == Resume(t.body.args[i], env).0)
      && (Done(u) <==> AllDone(u.body.args))
      && (Done(u) ==> u.slot.outcome == Some(TupleOutcome(AllResults(u.body.args))))
  {
    ResumeRunsBody(t, env);
    assert Step(t, env) == StepAll(t, env);
    StepAllSpec(t, env);
  }

  /** One run of the `Any` body, before the resume that wraps it is taken into account. */
  lemma StepAnySpec(t: Task, env: Env)
    requires !Done(t) && t.sub.None? && t.body.Any?
    ensures var u := StepAny(t, env).0;
      && u.body.Any?
      && |u.body.args| == |t.body.args|
      && (t.pc == 0 && AnyDone(t.body.args) ==> u.body.args == t.body.args && Done(u))
      && (!(t.pc == 0 && AnyDone(t.body.args)) ==>
            && (forall i | 0 <= i < |t.body.args| :: u.body.args[i] == Resume(t.body.args[i], env).0)
            && (Done(u) <==> AnyDone(u.body.args)))
      && (Done(u) ==> u.slot.outcome == Some(TupleOutcome(AnyResults(u.body.args))))
  {
  }

  /** `Any(args...)` finishes on its first resume without resuming anything if an
      argument is already done; otherwise each resume resumes every argument once, in
      order, and finishes iff at least one of them is then done, with one optional per
      argument. */
  lemma AnyFinishesIffSomeDone(t: Task, env: Env)
    requires !Done(t) && t.sub.None? && t.body.Any?
    ensures var u := Resume(t, env).0;
      && u.body.Any?
      && |u.body.args| == |t.body.args|
      && (t.pc == 0 && AnyDone(t.body.args) ==> u.body.args == t.body.args && Done(u))
      && (!(t.pc == 0 && AnyDone(t.body.args)) ==>
            && (forall i | 0 <= i < |t.body.args| :: u.body.args[i] == Resume(t.body.args[i], env).0)
            && (Done(u) <==> AnyDone(u.body.args)))
      && (Done(u) ==> u.slot.outcome == Some(TupleOutcome(AnyResults(u.body.args))))
  {
    ResumeRunsBody(t, env);
    assert Step(t, env) == StepAny(t, env);
    StepAnySpec(t, env);
  }

  /** One resume of `FromResult(v)` finishes with `v`. */
  lemma FromResultReturns(v: Value, env: Env)
    ensures Resume(FromResult(v), env).0.slot.outcome == Some(Returned(v))
  {
    var t := FromResult(v);
    ResumeRunsBody(t, env);
    assert RunScript(t, t.body.code, 0, env).0 == Finish(Returned(v));
  }

  /** The tuple of two tasks whose values can be taken. */
  lemma AllResultsPair(x: Task, y: Task)
    requires Deliverable(x) && Deliverable(y)
    ensures AllResults([x, y]) == Ok([x.slot.outcome.value.v, y.slot.outcome.value.v])
  {
    var r := AllResults([x, y]);
    assert r.Ok? && |r.value| == 2;
    assert r.value[0] == x.slot.outcome.value.v && r.value[1] == y.slot.outcome.value.v;
    assert r.value == [x.slot.outcome.value.v, y.slot.outcome.value.v];
  }

  /** The optionals of a running task and of one whose value can be taken. */
  lemma AnyResultsPair(x: Task, y: Task)
    requires !Done(x) && Deliverable(y)
    ensures AnyResults([x, y]) == Ok([Opt(None), Opt(Some(y.slot.outcome.value.v))])
  {
    var r := AnyResults([x, y]);
    assert r.Ok? && |r.value| == 2;
    assert r.value[0] == Opt(None) && r.value[1] == Opt(Some(y.slot.outcome.value.v));
    assert r.value == [Opt(None), Opt(Some(y.slot.outcome.value.v))];
  }

  /** `All(a, c)` over two tasks that are both finished after one resume finishes on its
      first resume with the tuple of the resumed pair. */
  lemma AllOfTwoFinishes(a: Task, c: Task, env: Env)
    requires Done(Resume(a, env).0) && Done(Resume(c, env).0)
    ensures Resume(NewTask(All([a, c])), env).0.slot.outcome
      == Some(TupleOutcome(AllResults([Resume(a, env).0, Resume(c, env).0])))
  {
    var t := NewTask(All([a, c]));
    var args1 := [Resume(a, env).0, Resume(c, env).0];
    assert Resume(t, env).0.slot.outcome == Some(TupleOutcome(AllResults(args1))) by {
      AllFinishesIffAllDone(t, env);
      assert Resume(t, env).0.body.args == args1;
    }
  }

  /** `All(a, c)` over two tasks whose values can be taken after one resume finishes on
      its first resume with the pair of those values. */
  lemma AllOfTwoDeliverable(a: Task, c: Task, env: Env)
    requires Deliverable(Resume(a, env).0) && Deliverable(Resume(c, env).0)
    ensures Resume(NewTask(All([a, c])), env).0.slot.outcome
      == Some(Returned(Tuple([Resume(a, env).0.slot.outcome.value.v, Resume(c, env).0.slot.outcome.value.v])))
  {
    AllOfTwoFinishes(a, c, env);
    AllResultsPair(Resume(a, env).0, Resume(c, env).0);
  }

  /** `All(DelayFrame(0), FromResult(5))` finishes on its first resume with
      `(VoidResult, 5)`: a void task contributes the unit value. */
  lemma AllOfVoidAndValue(env: Env)
    ensures Resume(NewTask(All([DelayFrame(0), FromResult(Int(5))])), env).0.slot.outcome
      == Some(Returned(Tuple([VoidResult, Int(5)])))
  {
    var d := DelayFrame(0);
    var f := FromResult(Int(5));
    DelayStep(d, env);
    FromResultReturns(Int(5), env);
    AllOfTwoDeliverable(d, f, env);
  }

  /** `Any(a, c)` where neither has finished, and one of them has after one resume,
      finishes on that resume with the tuple of the resumed pair. */
  lemma AnyOfTwoFinishes(a: Task, c: Task, env: Env)
    requires !Done(a) && !Done(c)
    requires Done(Resume(a, env).0) || Done(Resume(c, env).0)
    ensures Resume(NewTask(Any([a, c])), env).0.slot.outcome
      == Some(TupleOutcome(AnyResults([Resume(a, env).0, Resume(c, env).0])))
  {
    var t := NewTask(Any([a, c]));
    var args1 := [Resume(a, env).0, Resume(c, env).0];
    assert Resume(t, env).0.slot.outcome == Some(TupleOutcome(AnyResults(args1))) by {
      assert !AnyDone(t.body.args);
      AnyFinishesIffSomeDone(t, env);
      assert Resume(t, env).0.body.args == args1;
    }
  }

  /** `Any(a, c)` where neither has finished, and after one resume `a` still runs while
      `c`'s value can be taken, finishes on that resume with an empty optional for `a`
      and `c`'s value for `c`. */
  lemma AnyOfPendingAndDeliverable(a: Task, c: Task, env: Env)
    requires !Done(a) && !Done(c)
    requires !Done(Resume(a, env).0) && Deliverable(Resume(c, env).0)
    ensures Resume(NewTask(Any([a, c])), env).0.slot.outcome
      == Some(Returned(Tuple([Opt(None), Opt(Some(Resume(c, env).0.slot.outcome.value.v))])))
  {
    AnyOfTwoFinishes(a, c, env);
    AnyResultsPair(Resume(a, env).0, Resume(c, env).0);
  }

  /** `Any(WaitUntil(p), FromResult(5))` finishes on its first resume while `p` does not
      hold; the optional of the still-running waiter is empty and the other holds 5. */
  lemma AnyOfWaiterAndValue(p: nat, env: Env)
    requires p !in env.holds
    ensures Resume(NewTask(Any([NewTask(WaitUntil(p)), FromResult(Int(5))])), env).0.slot.outcome
      == Some(Returned(Tuple([Opt(None), Opt(Some(Int(5)))])))
  {
    var w := NewTask(WaitUntil(p));
    var f := FromResult(Int(5));
    WaitUntilFinishesIffHolds(w, env);
    FromResultReturns(Int(5), env);
    AnyOfPendingAndDeliverable(w, f, env);
  }
}
