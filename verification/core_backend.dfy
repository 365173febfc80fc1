/** `detail::Backend` of Core.hpp: the registry of running tasks keyed by an `AwaiterID`
    that only grows, resumed once per frame in ascending id order, with exactly one end
    callback (finish or cancel) fired for every entry it reaps. The process-wide instance
    is an explicit state value with an `initialized` flag; callbacks are opaque and show up
    as entries of an observation trace. */
module CoreBackend {
  import opened Values
  import opened Sorting
  import opened CoreTask

  /** The two user callbacks of an entry, identified by `tag`; each either returns or
      throws `CallbackFailure(tag)`. A null callback is not distinguished: its firing is
      recorded all the same. */
  datatype Callbacks = Callbacks(tag: nat, finishThrows: bool, cancelThrows: bool)

  /** `AwaiterEntry`: the registered task and its callbacks. */
  datatype Entry = Entry(task: Task, cb: Callbacks)

  /** `m_nextAwaiterID`, `m_currentAwaiterID`, `m_currentAwaiterRemovalNeeded` and
      `m_awaiterEntries`, plus whether the addon instance exists. */
  datatype Backend = Backend(
    initialized: bool,
    nextId: nat,
    current: Option<nat>,
    removalNeeded: bool,
    entries: map<nat, Entry>)

  /** A callback that fired. */
  datatype Fired = FinishFired(tag: nat, v: Value) | CancelFired(tag: nat)

  /** What a frame shows: an entry was resumed (with the events its task produced), or an
      entry's end callback fired. */
  datatype Obs = Ran(id: nat, events: seq<Event>) | Ended(id: nat, fired: Fired)

  /** No addon instance. */
  const Uninitialized: Backend := Backend(false, 1, None, false, map[])

  /** The states the operations below keep: ids are handed out from 1 upwards, the
      removal flag is only ever raised while an entry runs, and without an instance there
      is nothing registered. */
  predicate Inv(b: Backend) {
    && b.nextId >= 1
    && (forall id | id in b.entries :: 1 <= id < b.nextId)
    && (b.current.None? ==> !b.removalNeeded)
    && (!b.initialized ==> b.entries == map[] && b.current.None?)
  }

  /** `BackendAddon` construction: a second instance throws. */
  function Init(b: Backend): (r: Result<Backend>)
    ensures b.initialized <==> r.Err?
    ensures r.Err? ==> r.error == Logic(AlreadyInitialized)
    ensures r.Ok? ==> Inv(r.value) && r.value.initialized && r.value.entries == map[] && r.value.nextId == 1
  {
    if b.initialized then Err(Logic(AlreadyInitialized))
    else Ok(Backend(true, 1, None, false, map[]))
  }

  // ---------------------------------------------------------------- end callbacks

  /** `AwaiterEntry::callEndCallback()`, with the finish callback that `Backend::Add`
      wraps around the user's: for a finished task its value is taken first; if that
      throws, the cancel callback fires and the failure is rethrown (or the cancel
      callback's own failure replaces it); otherwise the finish callback gets the value.
      For an unfinished task the cancel callback fires. Exactly one callback fires. */
  function EndCallback(e: Entry): (r: (Fired, Option<Exn>))
    ensures r.0.tag == e.cb.tag
    ensures r.0.FinishFired? <==> Deliverable(e.task)
    ensures r.0.FinishFired? ==> r.0.v == e.task.slot.outcome.value.v
    ensures r.0.FinishFired? ==> (r.1.Some? <==> e.cb.finishThrows)
    ensures r.0.CancelFired? && e.cb.cancelThrows ==> r.1 == Some(CallbackFailure(e.cb.tag))
    ensures r.0.CancelFired? && !e.cb.cancelThrows && !Done(e.task) ==> r.1.None?
    ensures r.0.CancelFired? && !e.cb.cancelThrows && Done(e.task) ==> r.1 == Some(TakeValue(e.task).1.error)
    ensures r.1.Some? && r.1 != Some(CallbackFailure(e.cb.tag)) ==> Done(e.task)
  {
    var tag := e.cb.tag;
    var cancelled := if e.cb.cancelThrows then Some(CallbackFailure(tag)) else None;
    if Done(e.task) then
      match TakeValue(e.task).1
      case Ok(v) => (FinishFired(tag, v), if e.cb.finishThrows then Some(CallbackFailure(tag)) else None)
      case Err(x) => (CancelFired(tag), if e.cb.cancelThrows then cancelled else Some(x))
    else (CancelFired(tag), cancelled)
  }

  /** The entry's task once `callEndCallback()` has run: taking a finished task's value
      marks it consumed. */
  function AfterEndCallback(e: Entry): (r: Entry)
    ensures r.cb == e.cb && r.task.slot.outcome == e.task.slot.outcome
    ensures Done(e.task) ==> r.task.slot.consumed
  {
    if Done(e.task) then e.(task := TakeValue(e.task).0) else e
  }

  // ---------------------------------------------------------------- update

  /** One entry's turn in `update()`. */
  datatype Visit = Visit(kept: Option<Entry>, trace: seq<Obs>, thrown: Option<Exn>)

  /** The entry `id` resumed once with `env`; `flagged` says whether its body removed
      its own runner meanwhile (raising the deferred-removal flag). It is reaped iff it
      is then done or flagged, and a reaped entry fires its end callback. */
  function VisitEntry(id: nat, e: Entry, env: Env, flagged: bool): (r: Visit)
    ensures var t := Resume(e.task, env).0;
      && (r.kept.None? <==> flagged || Done(t))
      && (r.kept.Some? ==> r.kept.value == e.(task := t) && r.thrown.None?)
      && |r.trace| == (if r.kept.None? then 2 else 1)
      && r.trace[0] == Ran(id, Resume(e.task, env).1)
      && (r.kept.None? ==> r.trace[1] == Ended(id, EndCallback(e.(task := t)).0))
      && (r.kept.None? ==> r.thrown == EndCallback(e.(task := t)).1)
  {
    var (t, ev) := Resume(e.task, env);
    if flagged || Done(t) then
      var (f, x) := EndCallback(e.(task := t));
      Visit(None, [Ran(id, ev), Ended(id, f)], x)
    else Visit(Some(e.(task := t)), [Ran(id, ev)], None)
  }

  /** The outcome of a frame, or of part of one. */
  datatype Tick = Tick(backend: Backend, trace: seq<Obs>, thrown: Option<Exn>)

  /** The entry `id` of the state before the frame, after its visit (`None` if reaped). */
  function Visited(b: Backend, id: nat, env: Env, selfRemove: set<nat>): Visit
    requires id in b.entries
  {
    VisitEntry(id, b.entries[id], env, id in selfRemove)
  }

  /** The entries once the ids in `done` had their turn: those have advanced or gone,
      the others are as before. */
  function EntriesAfter(b: Backend, done: seq<nat>, env: Env, selfRemove: set<nat>): (m: map<nat, Entry>)
    ensures forall id | id in m :: id in b.entries
    ensures forall id | id in b.entries && id !in done :: id in m && m[id] == b.entries[id]
  {
    map id | id in b.entries && (id !in done || Visited(b, id, env, selfRemove).kept.Some?) ::
      if id in done then Visited(b, id, env, selfRemove).kept.value else b.entries[id]
  }

  /** One more turn, for an id that had none yet. */
  lemma EntriesAfterStep(b: Backend, done: seq<nat>, id: nat, env: Env, selfRemove: set<nat>)
    requires id in b.entries && id !in done
    ensures var (m, v) := (EntriesAfter(b, done, env, selfRemove), Visited(b, id, env, selfRemove));
      EntriesAfter(b, done + [id], env, selfRemove)
        == if v.kept.Some? then m[id := v.kept.value] else m - {id}
  {
    var m := EntriesAfter(b, done, env, selfRemove);
    var v := Visited(b, id, env, selfRemove);
    var m' := EntriesAfter(b, done + [id], env, selfRemove);
    var expected := if v.kept.Some? then m[id := v.kept.value] else m - {id};
    forall x
      ensures x in m' <==> x in expected
      ensures x in m' ==> m'[x] == expected[x]
    {
      assert x in done + [id] <==> x in done || x == id;
      if x == id {
        assert x !in done;
      }
    }
    assert m' == expected;
  }

  /** What the turns of `ids` show, in order. Each turn depends only on its own entry
      as it was when the frame began. */
  function FrameTrace(b: Backend, ids: seq<nat>, env: Env, selfRemove: set<nat>): seq<Obs>
    requires forall i | 0 <= i < |ids| :: ids[i] in b.entries
    decreases |ids|
  {
    if ids == [] then []
    else
      var n := |ids| - 1;
      FrameTrace(b, ids[..n], env, selfRemove) + Visited(b, ids[n], env, selfRemove).trace
  }

  /** The exception the turns of `ids` leave pending: the earliest one. */
  function FrameThrown(b: Backend, ids: seq<nat>, env: Env, selfRemove: set<nat>): Option<Exn>
    requires forall i | 0 <= i < |ids| :: ids[i] in b.entries
    decreases |ids|
  {
    if ids == [] then None
    else
      var n := |ids| - 1;
      FirstOf(FrameThrown(b, ids[..n], env, selfRemove), Visited(b, ids[n], env, selfRemove).thrown)
  }

  /** The ids in `ids` that were set aside at the start of the frame, visited in order:
      each turn sees the entries as the earlier turns left them. */
  function TickPrefix(b: Backend, ids: seq<nat>, env: Env, selfRemove: set<nat>): (r: Tick)
    requires StrictlyAscending(ids)
    requires forall i | 0 <= i < |ids| :: ids[i] in b.entries
    ensures r.backend.entries == EntriesAfter(b, ids, env, selfRemove)
    ensures r.trace == FrameTrace(b, ids, env, selfRemove)
    ensures r.thrown == FrameThrown(b, ids, env, selfRemove)
    ensures r.backend.nextId == b.nextId && r.backend.initialized == b.initialized
    ensures ids != [] ==> r.backend.current == Some(ids[|ids| - 1]) && !r.backend.removalNeeded
    ensures ids == [] ==> r.backend == b
    decreases |ids|
  {
    if ids == [] then
      assert EntriesAfter(b, [], env, selfRemove) == b.entries;
      Tick(b, [], None)
    else
      var n := |ids| - 1;
      var id := ids[n];
      AscendingInit(ids);
      var p := TickPrefix(b, ids[..n], env, selfRemove);
      var v := Visited(b, id, env, selfRemove);
      var entries := if v.kept.Some? then p.backend.entries[id := v.kept.value]
                     else p.backend.entries - {id};
      EntriesAfterStep(b, ids[..n], id, env, selfRemove);
      Tick(p.backend.(current := Some(id), removalNeeded := false, entries := entries),
           p.trace + v.trace, FirstOf(p.thrown, v.thrown))
  }

  /** The end callbacks a frame should fire for `id`: the one `callEndCallback()` picks
      for its resumed task if the frame reaps the entry, and none otherwise. */
  function ExpectedFired(b: Backend, id: nat, env: Env, selfRemove: set<nat>): seq<Fired>
  {
    if id in b.entries && Visited(b, id, env, selfRemove).kept.None? then
      [EndCallback(b.entries[id].(task := Resume(b.entries[id].task, env).0)).0]
    else []
  }

  /** A whole frame, as a function: every entry present at its start has its turn in
      ascending id order, then no entry is current. */
  function Frame(b: Backend, env: Env, selfRemove: set<nat>): (r: Tick)
    ensures var ids := SortedNats(b.entries.Keys);
      && r.backend == TickPrefix(b, ids, env, selfRemove).backend.(current := None, removalNeeded := false)
      && r.trace == FrameTrace(b, ids, env, selfRemove)
      && r.thrown == FrameThrown(b, ids, env, selfRemove)
  {
    var f := TickPrefix(b, SortedNats(b.entries.Keys), env, selfRemove);
    Tick(f.backend.(current := None, removalNeeded := false), f.trace, f.thrown)
  }

  /** `Backend::update()`: visits the entries present at the start of the frame in
      ascending id order; after the loop no entry is current, and the first exception an
      end callback threw is rethrown. Entries a body or callback adds or removes (other
      than its own) during the frame are not modelled. */
  method Update(b: Backend, env: Env, selfRemove: set<nat>) returns (r: Backend, trace: seq<Obs>, thrown: Option<Exn>)
    requires Inv(b) && b.current.None?
    ensures Tick(r, trace, thrown) == Frame(b, env, selfRemove)
    ensures Inv(r) && r.current.None? && r.nextId == b.nextId && r.initialized == b.initialized
  {
    var ids := SortedNats(b.entries.Keys);
    var f := Turns(b, ids, env, selfRemove);
    r, trace, thrown := f.backend.(current := None, removalNeeded := false), f.trace, f.thrown;
  }

  /** What a frame does to the entries: an entry present at its start is erased iff its
      task is done once resumed or its runner was removed from inside it, and a surviving
      entry holds its resumed task; afterwards no entry is current. */
  lemma FrameSpec(b: Backend, env: Env, selfRemove: set<nat>)
    ensures var f := Frame(b, env, selfRemove);
      && (forall id | id in b.entries ::
            id in f.backend.entries <==> !(id in selfRemove || Done(Resume(b.entries[id].task, env).0)))
      && (forall id | id in f.backend.entries ::
            id in b.entries && f.backend.entries[id] == b.entries[id].(task := Resume(b.entries[id].task, env).0))
      && f.backend.current.None? && !f.backend.removalNeeded && f.backend.nextId == b.nextId
  {
    var ids := SortedNats(b.entries.Keys);
    var f := Frame(b, env, selfRemove);
    assert f.backend.entries == EntriesAfter(b, ids, env, selfRemove);
    FrameEntries(b, ids, env, selfRemove);
  }

  /** A frame resumes every entry present at its start exactly once, in ascending id order. */
  lemma FrameRunsInOrder(b: Backend, env: Env, selfRemove: set<nat>)
    ensures RanIds(Frame(b, env, selfRemove).trace) == SortedNats(b.entries.Keys)
  {
    FrameVisitsInOrder(b, SortedNats(b.entries.Keys), env, selfRemove);
  }

  /** The end callbacks a whole frame fires for each entry: exactly the one
      `callEndCallback()` picks if the frame reaps it, none otherwise. */
  lemma FrameEndCallbacks(b: Backend, env: Env, selfRemove: set<nat>)
    ensures var f := Frame(b, env, selfRemove);
      forall id :: FiredFor(f.trace, id) == ExpectedFired(b, id, env, selfRemove)
  {
    var ids := SortedNats(b.entries.Keys);
    forall id
      ensures FiredFor(FrameTrace(b, ids, env, selfRemove), id) == ExpectedFired(b, id, env, selfRemove)
    {
      FrameFiresOnce(b, ids, env, selfRemove, id);
    }
  }

  /** A whole frame rethrows nothing iff no entry's end callback threw, and otherwise the
      exception of the lowest id whose end callback threw. */
  lemma FrameRethrowsFirst(b: Backend, env: Env, selfRemove: set<nat>)
    ensures var f := Frame(b, env, selfRemove);
      && (f.thrown.None? <==> forall id | id in b.entries :: Visited(b, id, env, selfRemove).thrown.None?)
      && (f.thrown.Some? ==> exists id | id in b.entries ::
            && f.thrown == Visited(b, id, env, selfRemove).thrown
            && forall x | x in b.entries && x < id :: Visited(b, x, env, selfRemove).thrown.None?)
  {
    FrameThrownById(b, SortedNats(b.entries.Keys), env, selfRemove);
  }

  /** A frame over a single entry is that entry's turn alone. */
  lemma SingleEntryFrame(b: Backend, id: nat, env: Env, selfRemove: set<nat>)
    requires b.entries.Keys == {id}
    ensures var v := Visited(b, id, env, selfRemove);
      Frame(b, env, selfRemove)
        == Tick(b.(current := None, removalNeeded := false,
                   entries := if v.kept.Some? then map[id := v.kept.value] else map[]),
                v.trace, v.thrown)
  {
    SortedSingleton(id);
    TickPrefixStep(b, [id], 0, env, selfRemove);
    assert [id][..0] == [] && [id][..1] == [id];
    var v := Visited(b, id, env, selfRemove);
    assert (if v.kept.Some? then b.entries[id := v.kept.value] else b.entries - {id})
        == (if v.kept.Some? then map[id := v.kept.value] else map[]);
  }

  /** `FrameKeepsFirstFailure` for the whole frame, in terms of ids rather than turns. */
  lemma FrameThrownById(b: Backend, ids: seq<nat>, env: Env, selfRemove: set<nat>)
    requires ids == SortedNats(b.entries.Keys)
    ensures var thrown := FrameThrown(b, ids, env, selfRemove);
      && (thrown.None? <==> forall id | id in b.entries :: Visited(b, id, env, selfRemove).thrown.None?)
      && (thrown.Some? ==> exists id | id in b.entries ::
            && thrown == Visited(b, id, env, selfRemove).thrown
            && forall x | x in b.entries && x < id :: Visited(b, x, env, selfRemove).thrown.None?)
  {
    FrameKeepsFirstFailure(b, ids, env, selfRemove);
    var thrown := FrameThrown(b, ids, env, selfRemove);
    if thrown.None? {
      AllTurnsById(b, ids, env, selfRemove);
    } else {
      var k :| 0 <= k < |ids|
        && thrown == Visited(b, ids[k], env, selfRemove).thrown
        && NoneThrownBefore(b, ids, env, selfRemove, k);
      EarlierTurnsById(b, ids, env, selfRemove, k);
      assert ids[k] in b.entries;
    }
  }

  /** No turn threw means no entry's turn threw. */
  lemma AllTurnsById(b: Backend, ids: seq<nat>, env: Env, selfRemove: set<nat>)
    requires ids == SortedNats(b.entries.Keys)
    requires NoneThrownBefore(b, ids, env, selfRemove, |ids|)
    ensures forall id | id in b.entries :: Visited(b, id, env, selfRemove).thrown.None?
  {
    forall id | id in b.entries
      ensures Visited(b, id, env, selfRemove).thrown.None?
    {
      var i :| 0 <= i < |ids| && ids[i] == id;
    }
  }

  /** The turns before turn `k` are those of the ids below `ids[k]`. */
  lemma EarlierTurnsById(b: Backend, ids: seq<nat>, env: Env, selfRemove: set<nat>, k: nat)
    requires ids == SortedNats(b.entries.Keys) && k < |ids|
    requires NoneThrownBefore(b, ids, env, selfRemove, k)
    ensures forall x | x in b.entries && x < ids[k] :: Visited(b, x, env, selfRemove).thrown.None?
  {
    forall x | x in b.entries && x < ids[k]
      ensures Visited(b, x, env, selfRemove).thrown.None?
    {
      var i :| 0 <= i < |ids| && ids[i] == x;
      AscendingIndex(ids, i, k);
    }
  }

  /** In an ascending sequence a smaller element sits at a smaller index. */
  lemma AscendingIndex(ids: seq<nat>, i: nat, k: nat)
    requires StrictlyAscending(ids) && i < |ids| && k < |ids|
    requires ids[i] < ids[k]
    ensures i < k
  {
  }

  /** `TickPrefix` over one more id of an ascending sequence is one more turn. */
  lemma TickPrefixStep(b: Backend, ids: seq<nat>, k: nat, env: Env, selfRemove: set<nat>)
    requires StrictlyAscending(ids) && k < |ids|
    requires forall i | 0 <= i < |ids| :: ids[i] in b.entries
    ensures var (p, id) := (TickPrefix(b, ids[..k], env, selfRemove), ids[k]);
      var v := Visited(b, id, env, selfRemove);
      TickPrefix(b, ids[..k + 1], env, selfRemove)
        == Tick(p.backend.(current := Some(id), removalNeeded := false,
                           entries := if v.kept.Some? then p.backend.entries[id := v.kept.value]
                                      else p.backend.entries - {id}),
                p.trace + v.trace, FirstOf(p.thrown, v.thrown))
  {
    var pre := ids[..k + 1];
    assert pre[..k] == ids[..k] && pre[k] == ids[k];
  }

  /** The loop of `update()`: one turn per id, in the order given. */
  method Turns(b: Backend, ids: seq<nat>, env: Env, selfRemove: set<nat>) returns (f: Tick)
    requires StrictlyAscending(ids)
    requires forall i | 0 <= i < |ids| :: ids[i] in b.entries
    ensures f == TickPrefix(b, ids, env, selfRemove)
  {
    f := Tick(b, [], None);
    var i := 0;
    while i < |ids|
      invariant 0 <= i <= |ids|
      invariant f == TickPrefix(b, ids[..i], env, selfRemove)
    {
      var id := ids[i];
      var v := Visited(b, id, env, selfRemove);
      var entries := if v.kept.Some? then f.backend.entries[id := v.kept.value]
                     else f.backend.entries - {id};
      TickPrefixStep(b, ids, i, env, selfRemove);
      f := Tick(f.backend.(current := Some(id), removalNeeded := false, entries := entries),
                f.trace + v.trace, FirstOf(f.thrown, v.thrown));
      i := i + 1;
    }
    assert ids[..i] == ids;
  }

  /** After every id has had its turn, an entry is gone iff its task is done or its
      runner was removed from inside it, and a surviving entry holds its resumed task. */
  lemma FrameEntries(b: Backend, ids: seq<nat>, env: Env, selfRemove: set<nat>)
    requires forall id :: id in ids <==> id in b.entries
    ensures var m := EntriesAfter(b, ids, env, selfRemove);
      && (forall id | id in b.entries ::
            id in m <==> !(id in selfRemove || Done(Resume(b.entries[id].task, env).0)))
      && (forall id | id in m ::
            id in b.entries && m[id] == b.entries[id].(task := Resume(b.entries[id].task, env).0))
  {
  }

  // ---------------------------------------------------------------- frame trace

  /** The ids of the entries resumed, in trace order. */
  function RanIds(tr: seq<Obs>): (r: seq<nat>)
    ensures |r| <= |tr|
  {
    if tr == [] then []
    else (if tr[0].Ran? then [tr[0].id] else []) + RanIds(tr[1..])
  }

  /** The end callbacks fired for entry `id`, in trace order. */
  function FiredFor(tr: seq<Obs>, id: nat): (r: seq<Fired>)
    ensures |r| <= |tr|
  {
    if tr == [] then []
    else (if tr[0].Ended? && tr[0].id == id then [tr[0].fired] else []) + FiredFor(tr[1..], id)
  }

  /** An id is listed by `RanIds` iff the trace shows that entry resumed. */
  lemma {:induction false} RanIdsMembers(tr: seq<Obs>, x: nat)
    ensures x in RanIds(tr) <==> exists i | 0 <= i < |tr| :: tr[i].Ran? && tr[i].id == x
    decreases |tr|
  {
    if tr != [] {
      RanIdsMembers(tr[1..], x);
      assert forall i | 1 <= i < |tr| :: tr[1..][i - 1] == tr[i];
      if x in RanIds(tr[1..]) {
        var i :| 0 <= i < |tr[1..]| && tr[1..][i].Ran? && tr[1..][i].id == x;
        assert tr[i + 1].Ran? && tr[i + 1].id == x;
      }
    }
  }

  /** A callback is listed by `FiredFor(tr, id)` iff the trace shows it fired for `id`. */
  lemma {:induction false} FiredForMembers(tr: seq<Obs>, id: nat, f: Fired)
    ensures f in FiredFor(tr, id) <==> exists i | 0 <= i < |tr| :: tr[i] == Ended(id, f)
    decreases |tr|
  {
    if tr != [] {
      FiredForMembers(tr[1..], id, f);
      assert forall i | 1 <= i < |tr| :: tr[1..][i - 1] == tr[i];
      if f in FiredFor(tr[1..], id) {
        var i :| 0 <= i < |tr[1..]| && tr[1..][i] == Ended(id, f);
        assert tr[i + 1] == Ended(id, f);
      }
    }
  }

  lemma {:induction false} RanIdsAppend(a: seq<Obs>, c: seq<Obs>)
    ensures RanIds(a + c) == RanIds(a) + RanIds(c)
    decreases |a|
  {
    if a != [] {
      assert (a + c)[0] == a[0];
      assert (a + c)[1..] == a[1..] + c;
      RanIdsAppend(a[1..], c);
    } else {
      assert a + c == c;
    }
  }

  lemma {:induction false} FiredForAppend(a: seq<Obs>, c: seq<Obs>, id: nat)
    ensures FiredFor(a + c, id) == FiredFor(a, id) + FiredFor(c, id)
    decreases |a|
  {
    if a != [] {
      assert (a + c)[0] == a[0];
      assert (a + c)[1..] == a[1..] + c;
      FiredForAppend(a[1..], c, id);
    } else {
      assert a + c == c;
    }
  }

  /** A frame resumes exactly the ids set aside at its start, each once, in order. */
  lemma {:induction false} FrameVisitsInOrder(b: Backend, ids: seq<nat>, env: Env, selfRemove: set<nat>)
    requires forall i | 0 <= i < |ids| :: ids[i] in b.entries
    ensures RanIds(FrameTrace(b, ids, env, selfRemove)) == ids
    decreases |ids|
  {
    if ids != [] {
      var n := |ids| - 1;
      var p := FrameTrace(b, ids[..n], env, selfRemove);
      var v := Visited(b, ids[n], env, selfRemove);
      FrameVisitsInOrder(b, ids[..n], env, selfRemove);
      assert FrameTrace(b, ids, env, selfRemove) == p + v.trace;
      RanIdsAppend(p, v.trace);
      assert RanIds(v.trace) == [ids[n]] by {
        assert v.trace[1..] == [] || v.trace[1..] == [v.trace[1]];
      }
      assert ids[..n] + [ids[n]] == ids;
    }
  }

  /** The end callbacks one turn fires for entry `id`. */
  lemma VisitFires(b: Backend, x: nat, env: Env, selfRemove: set<nat>, id: nat)
    requires x in b.entries
    ensures FiredFor(Visited(b, x, env, selfRemove).trace, id) ==
      if x == id then ExpectedFired(b, x, env, selfRemove) else []
  {
    var tr := Visited(b, x, env, selfRemove).trace;
    assert FiredFor(tr[1..], id) == (if |tr| == 2 && tr[1].id == id then [tr[1].fired] else []) by {
      if |tr| == 2 {
        assert tr[1..][1..] == [];
      }
    }
  }

  /** The end callbacks a frame fires for entry `id`: exactly one, the one
      `callEndCallback()` picks for its resumed task, if the frame reaps it; none
      otherwise, and none for an id outside the frame. */
  lemma {:induction false} FrameFiresOnce(b: Backend, ids: seq<nat>, env: Env, selfRemove: set<nat>, id: nat)
    requires StrictlyAscending(ids)
    requires forall i | 0 <= i < |ids| :: ids[i] in b.entries
    ensures FiredFor(FrameTrace(b, ids, env, selfRemove), id) ==
      if id in ids then ExpectedFired(b, id, env, selfRemove) else []
    decreases |ids|
  {
    if ids != [] {
      var n := |ids| - 1;
      var pre := ids[..n];
      var p := FrameTrace(b, pre, env, selfRemove);
      var v := Visited(b, ids[n], env, selfRemove);
      AscendingInit(ids);
      FrameFiresOnce(b, pre, env, selfRemove, id);
      assert FrameTrace(b, ids, env, selfRemove) == p + v.trace;
      FiredForAppend(p, v.trace, id);
      VisitFires(b, ids[n], env, selfRemove, id);
    }
  }

  /** No turn among the first `k` of `ids` threw. */
  predicate NoneThrownBefore(b: Backend, ids: seq<nat>, env: Env, selfRemove: set<nat>, k: nat)
    requires k <= |ids|
    requires forall i | 0 <= i < |ids| :: ids[i] in b.entries
  {
    forall i | 0 <= i < k :: Visited(b, ids[i], env, selfRemove).thrown.None?
  }

  /** Dropping the last id does not change which earlier turns threw. */
  lemma NoneThrownBeforeInit(b: Backend, ids: seq<nat>, env: Env, selfRemove: set<nat>)
    requires ids != []
    requires forall i | 0 <= i < |ids| :: ids[i] in b.entries
    ensures var n := |ids| - 1;
      forall k | 0 <= k <= n ::
        NoneThrownBefore(b, ids[..n], env, selfRemove, k) == NoneThrownBefore(b, ids, env, selfRemove, k)
  {
    var n := |ids| - 1;
    forall k | 0 <= k <= n
      ensures NoneThrownBefore(b, ids[..n], env, selfRemove, k) == NoneThrownBefore(b, ids, env, selfRemove, k)
    {
      assert forall i | 0 <= i < k :: ids[..n][i] == ids[i];
    }
  }

  /** A frame rethrows nothing iff no end callback threw, and otherwise the exception of
      the first entry, in visiting order, whose end callback threw. */
  lemma {:induction false} FrameKeepsFirstFailure(b: Backend, ids: seq<nat>, env: Env, selfRemove: set<nat>)
    requires forall i | 0 <= i < |ids| :: ids[i] in b.entries
    ensures var thrown := FrameThrown(b, ids, env, selfRemove);
      && (thrown.None? <==> NoneThrownBefore(b, ids, env, selfRemove, |ids|))
      && (thrown.Some? ==> exists k | 0 <= k < |ids| ::
            && thrown == Visited(b, ids[k], env, selfRemove).thrown
            && NoneThrownBefore(b, ids, env, selfRemove, k))
    decreases |ids|
  {
    if ids != [] {
      var n := |ids| - 1;
      var pre := ids[..n];
      FrameKeepsFirstFailure(b, pre, env, selfRemove);
      var p := Tick(b, [], FrameThrown(b, pre, env, selfRemove));
      var v := Visited(b, ids[n], env, selfRemove);
      var thrown := FrameThrown(b, ids, env, selfRemove);
      assert thrown == FirstOf(p.thrown, v.thrown);
      NoneThrownBeforeInit(b, ids, env, selfRemove);
      if p.thrown.Some? {
        var k :| 0 <= k < n
          && p.thrown == Visited(b, pre[k], env, selfRemove).thrown
          && NoneThrownBefore(b, pre, env, selfRemove, k);
        assert pre[k] == ids[k];
        assert !NoneThrownBefore(b, ids, env, selfRemove, |ids|) by {
          assert Visited(b, ids[k], env, selfRemove).thrown.Some?;
        }
      } else if v.thrown.Some? {
        assert thrown == Visited(b, ids[n], env, selfRemove).thrown;
        assert NoneThrownBefore(b, ids, env, selfRemove, n);
        assert !NoneThrownBefore(b, ids, env, selfRemove, |ids|);
      } else {
        assert NoneThrownBefore(b, ids, env, selfRemove, n);
      }
    }
  }

  // ---------------------------------------------------------------- interface

  /** What `Remove` did: the state after it, the callbacks fired, the exception thrown. */
  datatype Removal = Removal(backend: Backend, trace: seq<Obs>, thrown: Option<Exn>)

  /** `Backend::Remove(id)`: nothing without an instance; for the entry being resumed
      right now only the deferred-removal flag is raised (the frame reaps it); an absent id
      is ignored. Any other present entry fires its end callback and is then erased. The
      callback runs before the erase and outside any `try`, so when it throws the entry
      stays registered, its task's value already taken, and nothing else changes. */
  function Remove(b: Backend, id: nat): (r: Removal)
    ensures !b.initialized ==> r == Removal(b, [], None)
    ensures b.initialized && b.current == Some(id) ==> r == Removal(b.(removalNeeded := true), [], None)
    ensures b.initialized && b.current != Some(id) && id !in b.entries ==> r == Removal(b, [], None)
    ensures b.initialized && b.current != Some(id) && id in b.entries ==>
      && r.trace == [Ended(id, EndCallback(b.entries[id]).0)]
      && r.thrown == EndCallback(b.entries[id]).1
      && (id in r.backend.entries <==> r.thrown.Some?)
      && (id in r.backend.entries ==> r.backend.entries[id] == AfterEndCallback(b.entries[id]))
      && r.backend.entries.Keys - {id} == b.entries.Keys - {id}
      && (forall k | k in b.entries && k != id ::
            k in r.backend.entries && r.backend.entries[k] == b.entries[k])
      && r.backend.(entries := b.entries) == b
  {
    if !b.initialized then Removal(b, [], None)
    else if b.current == Some(id) then Removal(b.(removalNeeded := true), [], None)
    else if id !in b.entries then Removal(b, [], None)
    else
      var (f, x) := EndCallback(b.entries[id]);
      if x.Some? then Removal(b.(entries := b.entries[id := AfterEndCallback(b.entries[id])]), [Ended(id, f)], x)
      else Removal(b.(entries := b.entries - {id}), [Ended(id, f)], x)
  }

  /** `Backend::Remove(id)` with the erase no longer skipped by a throwing end callback: it
      fires and throws exactly as `Remove` does, but the entry is gone either way. */
  function RemoveErasing(b: Backend, id: nat): (r: Removal)
    ensures r.trace == Remove(b, id).trace && r.thrown == Remove(b, id).thrown
    ensures r.thrown.None? ==> r == Remove(b, id)
    ensures !b.initialized || b.current == Some(id) ==> r == Remove(b, id)
    ensures b.initialized && b.current != Some(id) ==> r.backend == b.(entries := b.entries - {id})
  {
    if !b.initialized then Removal(b, [], None)
    else if b.current == Some(id) then Removal(b.(removalNeeded := true), [], None)
    else if id !in b.entries then Removal(b, [], None)
    else
      var (f, x) := EndCallback(b.entries[id]);
      Removal(b.(entries := b.entries - {id}), [Ended(id, f)], x)
  }

  /** `Backend::IsDone(id)`: throws without an instance; a present entry is done iff its
      task is; an absent id is done iff it was ever handed out. */
  function IsDone(b: Backend, id: nat): (r: Result<bool>)
    ensures !b.initialized <==> r == Err(Logic(NotInitialized))
    ensures b.initialized && id in b.entries ==> r == Ok(Done(b.entries[id].task))
    ensures b.initialized && id !in b.entries ==> r == Ok(id < b.nextId)
  {
    if !b.initialized then Err(Logic(NotInitialized))
    else if id in b.entries then Ok(Done(b.entries[id].task))
    else Ok(id < b.nextId)
  }

  /** `Backend::Add`: throws without an instance; otherwise registers the entry under the
      next id and advances the counter. */
  function Add(b: Backend, e: Entry): (r: Result<(Backend, nat)>)
    ensures !b.initialized <==> r.Err?
    ensures r.Err? ==> r.error == Logic(NotInitialized)
    ensures r.Ok? ==>
      && r.value.1 == b.nextId
      && r.value.0 == b.(nextId := b.nextId + 1, entries := b.entries[b.nextId := e])
    ensures r.Ok? && Inv(b) ==> Inv(r.value.0) && r.value.1 !in b.entries
  {
    if !b.initialized then Err(Logic(NotInitialized))
    else Ok((b.(nextId := b.nextId + 1, entries := b.entries[b.nextId := e]), b.nextId))
  }

  /** `Backend::ManualUpdate()`: a frame, or a throw without an instance. */
  method ManualUpdate(b: Backend, env: Env, selfRemove: set<nat>) returns (r: Backend, trace: seq<Obs>, thrown: Option<Exn>)
    requires Inv(b) && b.current.None?
    ensures !b.initialized ==> r == b && trace == [] && thrown == Some(Logic(NotInitialized))
    ensures b.initialized ==> Tick(r, trace, thrown) == Frame(b, env, selfRemove)
    ensures Inv(r) && r.current.None?
  {
    if !b.initialized {
      r, trace, thrown := b, [], Some(Logic(NotInitialized));
    } else {
      r, trace, thrown := Update(b, env, selfRemove);
    }
  }

  /** What registering a task did. */
  datatype Registration = Registration(
    backend: Backend,
    id: Option<nat>,
    events: seq<Event>,
    fired: seq<Fired>,
    thrown: Option<Exn>)

  /** `ResumeAwaiterOnceAndRegisterIfNotDone`: a finished task fires its end callback at
      once; otherwise it is resumed once, and fires at once if that finished it; only a
      task still running afterwards is added to the backend. */
  function Register(b: Backend, task: Task, cb: Callbacks, env: Env): (r: Registration)
    ensures var t := if Done(task) then task else Resume(task, env).0;
      && (Done(t) ==>
            && r.backend == b && r.id.None?
            && r.fired == [EndCallback(Entry(t, cb)).0] && r.thrown == EndCallback(Entry(t, cb)).1)
      && (!Done(t) && b.initialized ==>
            && r.id == Some(b.nextId) && r.fired == [] && r.thrown.None?
            && r.backend == b.(nextId := b.nextId + 1, entries := b.entries[b.nextId := Entry(t, cb)]))
      && (!Done(t) && !b.initialized ==>
            r.backend == b && r.id.None? && r.fired == [] && r.thrown == Some(Logic(NotInitialized)))
    ensures r.events == if Done(task) then [] else Resume(task, env).1
  {
    if Done(task) then
      var (f, x) := EndCallback(Entry(task, cb));
      Registration(b, None, [], [f], x)
    else
      var (t, ev) := Resume(task, env);
      if Done(t) then
        var (f, x) := EndCallback(Entry(t, cb));
        Registration(b, None, ev, [f], x)
      else
        match Add(b, Entry(t, cb))
        case Ok((b1, id)) => Registration(b1, Some(id), ev, [], None)
        case Err(x) => Registration(b, None, ev, [], Some(x))
  }
}
