/** Ascending enumeration of a finite set of identifiers: the visiting order of a
    `std::map` keyed by an unsigned counter. */
module Sorting {

  /** Strictly ascending, hence free of duplicates. */
  predicate StrictlyAscending(s: seq<nat>) {
    forall i, j | 0 <= i < j < |s| :: s[i] < s[j]
  }

  /** The least element of a non-empty set. */
  function Least(s: set<nat>): (m: nat)
    requires s != {}
    ensures m in s
    ensures forall x | x in s :: m <= x
  {
    var w :| w in s;
    LeastFrom(s, 0, w)
  }

  /** Scans upwards from `k`, below which `s` has no element, until it meets one; `w` is
      an element of `s` that bounds the scan. */
  function LeastFrom(s: set<nat>, k: nat, ghost w: nat): (m: nat)
    requires w in s && k <= w
    requires forall x | x in s :: k <= x
    ensures m in s
    ensures forall x | x in s :: m <= x
    decreases w - k
  {
    if k in s then k else LeastFrom(s, k + 1, w)
  }

  /** The elements of `s` in ascending order: the order in which iterating a `std::map`
      whose key set is `s` visits them. */
  function SortedNats(s: set<nat>): (r: seq<nat>)
    ensures |r| == |s|
    ensures forall x :: x in r <==> x in s
    ensures StrictlyAscending(r)
    decreases |s|
  {
    if s == {} then []
    else
      var m := Least(s);
      var rest := SortedNats(s - {m});
      ConsAscending(m, rest);
      [m] + rest
  }

  /** An element below everything in an ascending sequence can lead it. */
  lemma ConsAscending(m: nat, rest: seq<nat>)
    requires StrictlyAscending(rest)
    requires forall x | x in rest :: m < x
    ensures StrictlyAscending([m] + rest)
  {
    var r := [m] + rest;
    forall i, j | 0 <= i < j < |r|
      ensures r[i] < r[j]
    {
      assert r[j] == rest[j - 1];
      if i > 0 {
        assert r[i] == rest[i - 1];
      } else {
        assert rest[j - 1] in rest;
      }
    }
  }

  /** Dropping the last element of an ascending sequence keeps it ascending, and that
      element occurs nowhere before it. */
  lemma AscendingInit(s: seq<nat>)
    requires StrictlyAscending(s) && s != []
    ensures var n := |s| - 1;
      && StrictlyAscending(s[..n])
      && s[n] !in s[..n]
      && s == s[..n] + [s[n]]
      && forall x :: x in s <==> x in s[..n] || x == s[n]
  {
    var n := |s| - 1;
    assert s == s[..n] + [s[n]];
  }

  /** A single identifier is its own enumeration. */
  lemma SortedSingleton(x: nat)
    ensures SortedNats({x}) == [x]
  {
    var r := SortedNats({x});
    assert x in r && |r| == 1;
  }
}
