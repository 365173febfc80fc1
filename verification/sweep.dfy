/** The loop both frame-driven registries run over their `std::map` of tasks: every id is
    visited once in ascending order and becomes the running id, its task is resumed, and
    a task that is done afterwards is erased. An exception from a resume leaves the loop
    at once. The loop does not depend on what resuming a task does, so it is stated over
    any resume function `step` and any completion test `done`. */
module Sweeps {
  import opened Values
  import opened Sorting

  /** One visit of the loop: the id and the events its resume produced. */
  datatype Visit<E> = Ran(id: nat, events: seq<E>)

  /** The registry after the loop, the visits in order, and the exception that ended it. */
  datatype Sweep<T, E> = Sweep(entries: map<nat, T>, trace: seq<Visit<E>>, thrown: Option<Exn>)

  /** The ids of the visits, in order. */
  function RanIds<E>(trace: seq<Visit<E>>): (r: seq<nat>)
    ensures |r| == |trace| && forall i | 0 <= i < |trace| :: r[i] == trace[i].id
  {
    seq(|trace|, i requires 0 <= i < |trace| => trace[i].id)
  }

  /** What one visit leaves of the entry `id`: a finished task is erased, a running one is
      kept; if its resume threw, the loop stops with the task kept as it is. */
  ghost predicate Visited<T, E>(before: map<nat, T>, after: map<nat, T>, id: nat,
                                step: T -> (T, seq<E>, Option<Exn>), done: T -> bool, threw: bool)
    requires id in before
  {
    var u := step(before[id]).0;
    if threw then id in after && after[id] == u
    else (id in after <==> !done(u)) && (id in after ==> after[id] == u)
  }

  /** The loop over `ids` (ascending, all present). */
  function SweepIds<T, E>(m: map<nat, T>, ids: seq<nat>, step: T -> (T, seq<E>, Option<Exn>), done: T -> bool): (r: Sweep<T, E>)
    requires StrictlyAscending(ids) && forall i | 0 <= i < |ids| :: ids[i] in m
    ensures r.entries.Keys <= m.Keys
    ensures |r.trace| <= |ids|
    ensures r.thrown.None? ==> |r.trace| == |ids|
    ensures r.thrown.Some? ==> |r.trace| > 0
    decreases |ids|
  {
    if ids == [] then Sweep(m, [], None)
    else
      var (u, ev, x) := step(m[ids[0]]);
      if x.Some? then Sweep(m[ids[0] := u], [Ran(ids[0], ev)], x)
      else
        NextKeepsLater(m, ids, step, done);
        var rest := SweepIds(Next(m, ids, step, done), ids[1..], step, done);
        Sweep(rest.entries, [Ran(ids[0], ev)] + rest.trace, rest.thrown)
  }

  /** The registry after the first visit, when it did not throw: the task resumed, and
      erased if done. */
  function Next<T, E>(m: map<nat, T>, ids: seq<nat>, step: T -> (T, seq<E>, Option<Exn>), done: T -> bool): (r: map<nat, T>)
    requires ids != [] && ids[0] in m
    ensures var u := step(m[ids[0]]).0;
      && (ids[0] in r <==> !done(u))
      && (ids[0] in r ==> r[ids[0]] == u)
    ensures forall k | k != ids[0] :: (k in r <==> k in m) && (k in r ==> r[k] == m[k])
  {
    var u := step(m[ids[0]]).0;
    if done(u) then m - {ids[0]} else m[ids[0] := u]
  }

  /** The later ids are all still present, unchanged, after the first visit. */
  lemma NextKeepsLater<T, E>(m: map<nat, T>, ids: seq<nat>, step: T -> (T, seq<E>, Option<Exn>), done: T -> bool)
    requires StrictlyAscending(ids) && ids != [] && forall i | 0 <= i < |ids| :: ids[i] in m
    ensures var n := Next(m, ids, step, done);
      && StrictlyAscending(ids[1..])
      && ids[0] !in ids[1..]
      && (forall j | 0 <= j < |ids[1..]| :: ids[1..][j] == ids[j + 1] && ids[1..][j] in n && n[ids[1..][j]] == m[ids[1..][j]])
  {
    assert forall j | 0 <= j < |ids[1..]| :: ids[0] < ids[1..][j];
  }

  /** The first visit heads the trace, and the rest is the loop over the later ids. */
  lemma SweepUnfold<T, E>(m: map<nat, T>, ids: seq<nat>, step: T -> (T, seq<E>, Option<Exn>), done: T -> bool)
    requires StrictlyAscending(ids) && forall i | 0 <= i < |ids| :: ids[i] in m
    requires ids != [] && step(m[ids[0]]).2.None?
    ensures StrictlyAscending(ids[1..]) && forall j | 0 <= j < |ids[1..]| :: ids[1..][j] in Next(m, ids, step, done)
    ensures var r := SweepIds(m, ids, step, done);
      var n := Next(m, ids, step, done);
      var rest := SweepIds(n, ids[1..], step, done);
      && r.thrown == rest.thrown
      && r.entries == rest.entries
      && |r.trace| == |rest.trace| + 1
      && r.trace[0] == Ran(ids[0], step(m[ids[0]]).1)
      && (forall i | 1 <= i < |r.trace| :: r.trace[i] == rest.trace[i - 1] && m[ids[i]] == n[ids[1..][i - 1]])
  {
    NextKeepsLater(m, ids, step, done);
  }

  /** An entry the loop does not visit is left as it was. */
  lemma {:induction false} SweepKeepsOthers<T, E>(m: map<nat, T>, ids: seq<nat>, step: T -> (T, seq<E>, Option<Exn>), done: T -> bool, k: nat)
    requires StrictlyAscending(ids) && forall i | 0 <= i < |ids| :: ids[i] in m
    requires k in m && k !in ids
    ensures var r := SweepIds(m, ids, step, done).entries;
      k in r && r[k] == m[k]
    decreases |ids|
  {
    if ids != [] && step(m[ids[0]]).2.None? {
      NextKeepsLater(m, ids, step, done);
      SweepKeepsOthers(Next(m, ids, step, done), ids[1..], step, done, k);
    }
  }

  /** The loop visits the ids in the given order, each at most once. */
  lemma {:induction false} SweepOrder<T, E>(m: map<nat, T>, ids: seq<nat>, step: T -> (T, seq<E>, Option<Exn>), done: T -> bool)
    requires StrictlyAscending(ids) && forall i | 0 <= i < |ids| :: ids[i] in m
    ensures var r := SweepIds(m, ids, step, done);
      RanIds(r.trace) == ids[..|r.trace|]
    decreases |ids|
  {
    if ids != [] && step(m[ids[0]]).2.None? {
      SweepUnfold(m, ids, step, done);
      var n := Next(m, ids, step, done);
      SweepOrder(n, ids[1..], step, done);
      var rest := SweepIds(n, ids[1..], step, done);
      var ev := step(m[ids[0]]).1;
      assert RanIds([Ran(ids[0], ev)] + rest.trace) == [ids[0]] + RanIds(rest.trace);
      assert ids[..|rest.trace| + 1] == [ids[0]] + ids[1..][..|rest.trace|];
    }
  }

  /** Each visit shows the events of that task's resume. */
  lemma {:induction false} SweepEvents<T, E>(m: map<nat, T>, ids: seq<nat>, step: T -> (T, seq<E>, Option<Exn>), done: T -> bool)
    requires StrictlyAscending(ids) && forall i | 0 <= i < |ids| :: ids[i] in m
    ensures var r := SweepIds(m, ids, step, done);
      forall i | 0 <= i < |r.trace| :: r.trace[i].events == step(m[ids[i]]).1
    decreases |ids|
  {
    if ids != [] && step(m[ids[0]]).2.None? {
      SweepUnfold(m, ids, step, done);
      SweepEvents(Next(m, ids, step, done), ids[1..], step, done);
    }
  }

  /** Every visit but a throwing last one raised nothing, and the exception the loop
      propagates is the one the last visited task's resume raised. */
  lemma {:induction false} SweepThrown<T, E>(m: map<nat, T>, ids: seq<nat>, step: T -> (T, seq<E>, Option<Exn>), done: T -> bool)
    requires StrictlyAscending(ids) && forall i | 0 <= i < |ids| :: ids[i] in m
    ensures var r := SweepIds(m, ids, step, done);
      && (forall i | 0 <= i < |r.trace| && (i < |r.trace| - 1 || r.thrown.None?) :: step(m[ids[i]]).2.None?)
      && (r.thrown.Some? ==> r.thrown == step(m[ids[|r.trace| - 1]]).2)
    decreases |ids|
  {
    if ids != [] && step(m[ids[0]]).2.None? {
      SweepUnfold(m, ids, step, done);
      SweepThrown(Next(m, ids, step, done), ids[1..], step, done);
    }
  }

  /** The ids a throw kept the loop from reaching are left as they were. */
  lemma {:induction false} SweepUnreached<T, E>(m: map<nat, T>, ids: seq<nat>, step: T -> (T, seq<E>, Option<Exn>), done: T -> bool)
    requires StrictlyAscending(ids) && forall i | 0 <= i < |ids| :: ids[i] in m
    ensures var r := SweepIds(m, ids, step, done);
      forall i | |r.trace| <= i < |ids| :: ids[i] in r.entries && r.entries[ids[i]] == m[ids[i]]
    decreases |ids|
  {
    if ids != [] {
      NextKeepsLater(m, ids, step, done);
      if step(m[ids[0]]).2.None? {
        SweepUnfold(m, ids, step, done);
        SweepUnreached(Next(m, ids, step, done), ids[1..], step, done);
      }
    }
  }

  /** What the loop leaves of each id it visits. */
  lemma {:induction false} SweepVisits<T, E>(m: map<nat, T>, ids: seq<nat>, step: T -> (T, seq<E>, Option<Exn>), done: T -> bool)
    requires StrictlyAscending(ids) && forall i | 0 <= i < |ids| :: ids[i] in m
    ensures var r := SweepIds(m, ids, step, done);
      forall i | 0 <= i < |r.trace| :: Visited(m, r.entries, ids[i], step, done, r.thrown.Some? && i == |r.trace| - 1)
    decreases |ids|
  {
    if ids != [] && step(m[ids[0]]).2.None? {
      NextKeepsLater(m, ids, step, done);
      var n := Next(m, ids, step, done);
      SweepVisits(n, ids[1..], step, done);
      if ids[0] in n {
        SweepKeepsOthers(n, ids[1..], step, done, ids[0]);
      }
    }
  }

  /** A sweep of a whole registry: every id, in ascending order. */
  function SweepAll<T, E>(m: map<nat, T>, step: T -> (T, seq<E>, Option<Exn>), done: T -> bool): (r: Sweep<T, E>)
    ensures r.entries.Keys <= m.Keys
    ensures r.thrown.None? ==> |r.trace| == |m|
    ensures r.thrown.Some? ==> 0 < |r.trace| <= |m|
  {
    SweepIds(m, SortedNats(m.Keys), step, done)
  }

  /** The id a sweep stopped at, if it was stopped by an exception: the running id the
      registry keeps. */
  function StoppedAt<T, E>(m: map<nat, T>, s: Sweep<T, E>): (r: Option<nat>)
    requires s.thrown.Some? ==> 0 < |s.trace| <= |m|
    ensures s.thrown.None? <==> r.None?
    ensures r.Some? ==> r.value in m
  {
    if s.thrown.None? then None else Some(SortedNats(m.Keys)[|s.trace| - 1])
  }

  /** A whole sweep in the order the loop takes: the ids are visited in ascending order,
      each visit shows that task's events, and the sweep stops exactly at the first
      resume that throws, propagating it. */
  lemma SweepAllInOrder<T, E>(m: map<nat, T>, step: T -> (T, seq<E>, Option<Exn>), done: T -> bool)
    ensures var ids := SortedNats(m.Keys);
      var r := SweepAll(m, step, done);
      var n := |r.trace|;
      && RanIds(r.trace) == ids[..n]
      && (forall i | 0 <= i < n :: r.trace[i].events == step(m[ids[i]]).1)
      && (forall i | 0 <= i < n && (i < n - 1 || r.thrown.None?) :: step(m[ids[i]]).2.None?)
      && (r.thrown.Some? ==> r.thrown == step(m[ids[n - 1]]).2)
  {
    var ids := SortedNats(m.Keys);
    SweepOrder(m, ids, step, done);
    SweepEvents(m, ids, step, done);
    SweepThrown(m, ids, step, done);
  }

  /** What a whole sweep leaves of the ids it did not reach: they are untouched. */
  lemma SweepAllUnreached<T, E>(m: map<nat, T>, step: T -> (T, seq<E>, Option<Exn>), done: T -> bool)
    ensures var ids := SortedNats(m.Keys);
      var r := SweepAll(m, step, done);
      forall i | |r.trace| <= i < |ids| :: ids[i] in r.entries && r.entries[ids[i]] == m[ids[i]]
  {
    SweepUnreached(m, SortedNats(m.Keys), step, done);
  }

  /** What a whole sweep leaves of each id it visited: erased if it finished, otherwise
      holding its resumed state; the id a throw stopped at is kept resumed. */
  lemma SweepAllVisits<T, E>(m: map<nat, T>, step: T -> (T, seq<E>, Option<Exn>), done: T -> bool)
    ensures var ids := SortedNats(m.Keys);
      var r := SweepAll(m, step, done);
      forall i | 0 <= i < |r.trace| :: Visited(m, r.entries, ids[i], step, done, r.thrown.Some? && i == |r.trace| - 1)
  {
    SweepVisits(m, SortedNats(m.Keys), step, done);
  }

  /** A registry holding one task whose resume does not throw: the task is resumed once,
      and kept resumed or erased if it finished. */
  lemma SweepSingle<T, E>(id: nat, t: T, step: T -> (T, seq<E>, Option<Exn>), done: T -> bool)
    requires step(t).2.None?
    ensures var u := step(t).0;
      var r := SweepAll(map[id := t], step, done);
      && r.thrown.None? && r.trace == [Ran(id, step(t).1)]
      && r.entries == if done(u) then map[] else map[id := u]
  {
    var m := map[id := t];
    var ids := SortedNats(m.Keys);
    assert ids == [id] by {
      assert |ids| == 1 && id in ids;
    }
    NextKeepsLater(m, ids, step, done);
    assert ids[1..] == [];
    var n := Next(m, ids, step, done);
    assert SweepIds(n, [], step, done) == Sweep(n, [], None);
    var u := step(t).0;
    assert n == if done(u) then map[] else map[id := u];
  }
}
