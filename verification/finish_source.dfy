/** `TaskFinishSource<TResult>` and `TaskFinishSource<void>`: a one-shot slot through
    which user code asks a task to finish. The first request wins, and the valued result
    can be taken only once. */
module FinishSource {
  import opened Values

  /** `m_result` (empty or a value) and `m_resultConsumed`. */
  datatype Source = Source(result: Option<Value>, consumed: bool)

  /** A freshly constructed source. */
  const Fresh: Source := Source(None, false)

  /** `hasResult()`. */
  predicate HasResult(s: Source) {
    s.result.Some?
  }

  /** `done()`: a result is waiting or one was already taken. */
  predicate IsDone(s: Source) {
    s.result.Some? || s.consumed
  }

  /** `requestFinish(result)`: refused once a result is waiting or was taken; otherwise
      stores `v`. */
  function RequestFinish(s: Source, v: Value): (r: (Source, bool))
    ensures r.1 <==> !IsDone(s)
    ensures r.1 ==> r.0 == Source(Some(v), s.consumed)
    ensures !r.1 ==> r.0 == s
  {
    if s.consumed || HasResult(s) then (s, false)
    else (s.(result := Some(v)), true)
  }

  /** `result()`: throws if the result was already taken, then if there is none;
      otherwise hands the value out and empties the slot for good. */
  function TakeResult(s: Source): (r: (Source, Result<Value>))
    ensures s.consumed ==> r == (s, Err(Logic(SourceTakenTwice)))
    ensures !s.consumed && s.result.None? ==> r == (s, Err(Logic(SourceEmpty)))
    ensures !s.consumed && s.result.Some? ==> r == (Source(None, true), Ok(s.result.value))
  {
    if s.consumed then (s, Err(Logic(SourceTakenTwice)))
    else if s.result.None? then (s, Err(Logic(SourceEmpty)))
    else (Source(None, true), Ok(s.result.value))
  }

  /** The step of `waitForResult()` once a result is waiting: it marks the source
      consumed but, unlike `result()`, leaves the value in place. `None` while no result
      is waiting (the coroutine waits a frame). */
  function WaitForResultStep(s: Source): (r: (Source, Option<Value>))
    ensures r.1.Some? <==> HasResult(s)
    ensures HasResult(s) ==> r.0 == Source(s.result, true) && r.1 == s.result
    ensures !HasResult(s) ==> r.0 == s
  {
    if !HasResult(s) then (s, None)
    else (s.(consumed := true), Some(s.result.value))
  }

  /** Once a request has been accepted, every later request is refused and the stored
      value stays the first one. */
  lemma FirstRequestWins(s: Source, v: Value, w: Value)
    requires RequestFinish(s, v).1
    ensures var s1 := RequestFinish(s, v).0;
      && !RequestFinish(s1, w).1
      && RequestFinish(s1, w).0.result == Some(v)
  {
  }

  /** The result can be taken once: a second `result()` throws, and so does any later
      `requestFinish`-then-`result()` sequence. */
  lemma TakeOnce(s: Source, w: Value)
    requires TakeResult(s).1.Ok?
    ensures var s1 := TakeResult(s).0;
      && TakeResult(s1).1 == Err(Logic(SourceTakenTwice))
      && !RequestFinish(s1, w).1
      && IsDone(s1)
  {
  }

  /** `done()` never goes back to false: no operation resets it. */
  lemma DoneIsStable(s: Source, v: Value)
    requires IsDone(s)
    ensures IsDone(RequestFinish(s, v).0)
    ensures IsDone(TakeResult(s).0)
    ensures IsDone(WaitForResultStep(s).0)
  {
  }

  /** After `waitForResult()` has delivered, the source is consumed: `result()` throws
      and further requests are refused, although the value is still stored. */
  lemma WaitForResultConsumes(s: Source, w: Value)
    requires HasResult(s)
    ensures var s1 := WaitForResultStep(s).0;
      && TakeResult(s1).1 == Err(Logic(SourceTakenTwice))
      && !RequestFinish(s1, w).1
      && s1.result == s.result
  {
  }

  // ---------------------------------------------------------------- void

  /** `TaskFinishSource<void>`: a single flag. */
  datatype VoidSource = VoidSource(requested: bool)

  /** `requestFinish()`: true only the first time. */
  function RequestFinishVoid(s: VoidSource): (r: (VoidSource, bool))
    ensures r.0.requested
    ensures r.1 <==> !s.requested
  {
    if s.requested then (s, false) else (VoidSource(true), true)
  }

  /** Of any number of requests on a fresh void source, exactly the first succeeds. */
  lemma {:induction false} VoidFirstRequestWins(n: nat)
    ensures RequestCount(VoidSource(false), n) == (if n == 0 then 0 else 1)
  {
    if n > 0 {
      VoidRequestsRefused(VoidSource(true), n - 1);
    }
  }

  /** Requests on an already-requested void source all fail. */
  lemma {:induction false} VoidRequestsRefused(s: VoidSource, n: nat)
    requires s.requested
    ensures RequestCount(s, n) == 0
  {
    if n > 0 {
      VoidRequestsRefused(RequestFinishVoid(s).0, n - 1);
    }
  }

  /** How many of `n` successive requests succeed. */
  function RequestCount(s: VoidSource, n: nat): nat
    decreases n
  {
    if n == 0 then 0
    else
      var (s1, ok) := RequestFinishVoid(s);
      (if ok then 1 else 0) + RequestCount(s1, n - 1)
  }
}
