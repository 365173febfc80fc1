/** What the `cotask` update protocol guarantees: the body waits while a linked sub-task
    runs and resumes in the same update once it finishes; an awaited task that finishes
    inside `await_suspend` leaves its parent suspended until the next update; the nest
    level bound; and `DelayFrame`, which starts on its first update. */
module LegacyTaskFacts {
  import opened Values
  import opened LegacyTask

  /** While the linked sub-task is still running after its update, the parent's body is
      not resumed: the parent keeps its resume point and shows only the sub-task's
      events. */
  lemma LinkedSubHoldsBody(t: Task)
    requires !Done(t) && t.sub.Some? && t.linked
    requires Update(t.sub.value).2.None? && !Done(Update(t.sub.value).0)
    ensures var (s, ev, _) := Update(t.sub.value);
      Update(t) == (t.(sub := Some(s)), ev, None)
  {
  }

  /** Once the linked sub-task finishes, the link is dropped and the parent's body goes on
      in the same update with the sub-task's value: after its events come the body's. */
  lemma FinishedSubResumesBody(t: Task)
    requires !Done(t) && t.sub.Some? && t.linked
    requires Update(t.sub.value).2.None? && Done(Update(t.sub.value).0)
    ensures var (s, ev, _) := Update(t.sub.value);
      var (stop, ev2) := AfterAwait(t, t.nest, t.pc, TaskValue(s));
      Update(t) == Settled(t.(sub := Some(s), linked := false), t.nest, stop, ev + ev2)
  {
  }

  /** `co_await child` on a child that the update inside `await_suspend` finishes: no
      sub-task is linked and the parent stays suspended at the await, although nothing
      is left to wait for; only its next update reads the child's value and goes on. */
  lemma FinishedInAwaitSuspendWaitsAFrame(t: Task, c: Task)
    requires !Done(t) && t.sub.None? && t.pc < |t.code| && t.code[t.pc] == Await(c)
    requires !Done(c) && t.nest < MaxNestLevel
    requires UpdateAt(c, t.nest + 1).2.None? && Done(UpdateAt(c, t.nest + 1).0)
    ensures var (c1, ev, _) := UpdateAt(c, t.nest + 1);
      var u := Update(t).0;
      && Update(t) == (t.(sub := Some(c1), linked := false), ev, None)
      && !Done(u) && u.pc == t.pc
      && Update(u) == Settled(u, t.nest, AfterAwait(u, t.nest, t.pc, TaskValue(c1)).0, AfterAwait(u, t.nest, t.pc, TaskValue(c1)).1)
  {
    var (c1, ev, _) := UpdateAt(c, t.nest + 1);
    assert UpdateSubTask(t) == (t, [], None, false);
    assert RunBody(t, t.nest, t.pc) == AwaitChild(t, t.nest, t.pc, c);
    assert AwaitChild(t, t.nest, t.pc, c) == (Suspend(t.pc, Some(c1), false), ev);
    assert [] + ev == ev;
    assert UpdateAt(t, t.nest) == Settled(t, t.nest, Suspend(t.pc, Some(c1), false), ev);
    assert Update(t) == UpdateAt(t, t.nest);
    var u := Update(t).0;
    assert u == t.(sub := Some(c1), linked := false);
    assert UpdateSubTask(u) == (u, [], None, false);
    assert Update(u) == UpdateAt(u, u.nest);
    var (stop, ev2) := AfterAwait(u, t.nest, t.pc, TaskValue(c1));
    assert [] + ev2 == ev2;
    assert UpdateAt(u, u.nest) == Settled(u, t.nest, stop, ev2);
  }

  /** An awaited task still running after its first update is linked as the sub-task, at
      the parent's nest level plus one. */
  lemma AwaitLinksOneLevelDeeper(t: Task, c: Task)
    requires !Done(t) && t.sub.None? && t.pc < |t.code| && Awaits(t.code[t.pc]) && t.code[t.pc].child == c
    requires !Done(c) && t.nest < MaxNestLevel
    requires UpdateAt(c, t.nest + 1).2.None? && !Done(UpdateAt(c, t.nest + 1).0)
    ensures var u := Update(t).0;
      && !Done(u) && u.pc == t.pc && u.linked && u.sub == Some(UpdateAt(c, t.nest + 1).0)
      && u.sub.value.nest == t.nest + 1
      && Update(t).1 == UpdateAt(c, t.nest + 1).1
  {
    assert RunBody(t, t.nest, t.pc) == AwaitChild(t, t.nest, t.pc, c);
  }

  /** At the deepest nest level, awaiting a task that has not finished fails the parent
      with the nesting error, before the child runs at all. */
  lemma TooDeepAwaitFails(t: Task, c: Task)
    requires !Done(t) && t.sub.None? && t.pc < |t.code| && Awaits(t.code[t.pc]) && t.code[t.pc].child == c
    requires !Done(c) && t.nest == MaxNestLevel
    ensures var e := Logic(TooDeeplyNested);
      Update(t) == (t.(linked := false, outcome := Some(Raised(e))), [], Some(e))
  {
    var e := Logic(TooDeeplyNested);
    assert UpdateSubTask(t) == (t, [], None, false);
    assert RunBody(t, t.nest, t.pc) == AwaitChild(t, t.nest, t.pc, c);
    assert AwaitChild(t, t.nest, t.pc, c) == (Finish(Raised(e)), []);
    assert UpdateAt(t, t.nest) == Settled(t, t.nest, Finish(Raised(e)), []);
    assert Update(t) == UpdateAt(t, t.nest);
  }

  /** An exception from a linked sub-task surfaces twice: its update throws out of the
      parent's update with the parent still running and still linked; the parent's next
      update finds the sub-task finished, reads its value and so fails with the same
      exception. */
  lemma SubFailureSurfacesTwice(t: Task, e: Exn)
    requires !Done(t) && t.sub.Some? && t.linked && t.pc < |t.code| && Awaits(t.code[t.pc])
    requires Update(t.sub.value).2 == Some(e) && Update(t.sub.value).0.outcome == Some(Raised(e))
    ensures var (u, _, x) := Update(t);
      && x == Some(e) && !Done(u) && u.linked && u.pc == t.pc
      && Update(u) == (u.(sub := None, linked := false, outcome := Some(Raised(e))), [], Some(e))
  {
    var (u, _, x) := Update(t);
    var s := Update(t.sub.value).0;
    assert Update(t) == UpdateAt(t, t.nest);
    assert u == t.(sub := Some(s));
    assert Update(u) == UpdateAt(u, u.nest);
    assert Update(s) == (s, [], None);
    assert UpdateSubTask(u) == (u.(linked := false), [], None, false);
    assert TaskValue(s) == Err(e);
    assert AfterAwait(u, u.nest, u.pc, Err(e)) == (Finish(Raised(e)), []);
    assert UpdateAt(u, u.nest) == Settled(u.(linked := false), u.nest, Finish(Raised(e)), []);
  }

  /** `DelayFrame(frames)`: one `co_await Yield{}` per frame. */
  function DelayFrame(frames: int): (t: Task)
    ensures !Done(t) && t.pc == 0 && t.sub.None? && t.isVoid && t.nest == 0
    ensures |t.code| == (if frames < 0 then 0 else frames)
    ensures forall i | 0 <= i < |t.code| :: t.code[i] == Yield
  {
    NewTask(seq(if frames < 0 then 0 else frames, _ => Yield), true)
  }

  /** The task after `k` updates. */
  function Updates(t: Task, k: nat): Task
    decreases k
  {
    if k == 0 then t else Updates(Update(t).0, k - 1)
  }

  /** One update of a body made only of yields passes one yield, or finishes it. */
  lemma YieldStep(t: Task)
    requires !Done(t) && t.sub.None? && t.pc <= |t.code|
    requires forall i | 0 <= i < |t.code| :: t.code[i] == Yield
    ensures t.pc < |t.code| ==> Update(t) == (t.(pc := t.pc + 1, linked := false), [], None)
    ensures t.pc == |t.code| ==> Update(t) == (t.(linked := false, outcome := Some(Returned(None))), [], None)
  {
    assert Update(t) == UpdateAt(t, t.nest);
    assert UpdateSubTask(t) == (t, [], None, false);
    if t.pc < |t.code| {
      assert RunBody(t, t.nest, t.pc) == (Suspend(t.pc + 1, None, false), []);
    } else {
      assert RunBody(t, t.nest, t.pc) == (Finish(Returned(None)), []);
      assert Settled(t, t.nest, Finish(Returned(None)), []) == (t.(linked := false, outcome := Some(Returned(None))), [], None);
      assert UpdateAt(t, t.nest) == Settled(t, t.nest, Finish(Returned(None)), []);
    }
  }

  /** `k` updates that stay within the code advance the resume point by `k`. */
  lemma {:induction false} YieldsAdvance(t: Task, k: nat)
    requires !Done(t) && t.sub.None? && !t.linked && t.pc + k <= |t.code|
    requires forall i | 0 <= i < |t.code| :: t.code[i] == Yield
    ensures Updates(t, k) == t.(pc := t.pc + k)
    decreases k
  {
    if k > 0 {
      YieldStep(t);
      YieldsAdvance(t.(pc := t.pc + 1), k - 1);
    }
  }

  /** The last of `k + 1` updates. */
  lemma {:induction false} UpdatesLast(t: Task, k: nat)
    ensures Updates(t, k + 1) == Update(Updates(t, k)).0
    decreases k
  {
    if k > 0 {
      UpdatesLast(Update(t).0, k - 1);
    }
  }

  /** `DelayFrame(n)` starts on its first update: it is still running after `n` updates
      and finishes on update `n + 1`. */
  lemma DelayFrameFinishesOnUpdate(frames: int)
    ensures var n := if frames < 0 then 0 else frames;
      && !Done(Updates(DelayFrame(frames), n))
      && Done(Updates(DelayFrame(frames), n + 1))
      && TaskValue(Updates(DelayFrame(frames), n + 1)) == Ok(VoidResult)
  {
    var n := if frames < 0 then 0 else frames;
    var t := DelayFrame(frames);
    YieldsAdvance(t, n);
    UpdatesLast(t, n);
    YieldStep(t.(pc := n));
  }
}
