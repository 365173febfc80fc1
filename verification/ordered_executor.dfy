/** `OrderedExecutor<IDType>`: a registry of callbacks, each with a sorting-order
    function, kept in a map ordered by `(sortingOrder, id)` plus a side index from id to
    key. Every `call()` re-reads all sorting orders, re-keys the entries whose order
    changed, then runs the callbacks in key order. */
module OrderedExecutor {
  import opened Values

  type Int32 = x: int | -0x8000_0000 <= x < 0x8000_0000

  /** `CallerKey`. */
  datatype Key = Key(id: nat, sortingOrder: Int32)

  /** `CallerKey::operator<`: by sorting order, then by id. */
  predicate KeyLess(a: Key, b: Key) {
    if a.sortingOrder != b.sortingOrder then a.sortingOrder < b.sortingOrder else a.id < b.id
  }

  /** `Caller`: the callback and the sorting-order function, both opaque and named by
      labels. */
  datatype Caller = Caller(func: nat, orderFunc: nat)

  /** What every sorting-order function returns at the moment it is read, by label. */
  type Orders = map<nat, Int32>

  /** Calls the sorting-order function `f`; a label the snapshot does not list reads as 0. */
  function Read(orders: Orders, f: nat): Int32 {
    if f in orders then orders[f] else 0
  }

  /** `m_nextID`, `m_callers`, `m_callerKeyByID`. */
  datatype Executor = Executor(nextId: nat, callers: map<Key, Caller>, keyById: map<nat, Key>)

  /** A freshly constructed executor. */
  const Empty: Executor := Executor(1, map[], map[])

  /** The two maps describe the same entries, every id was issued by the counter, and
      the counter never re-issues an id. */
  ghost predicate Consistent(x: Executor) {
    && 1 <= x.nextId
    && (forall k | k in x.callers :: k.id in x.keyById && x.keyById[k.id] == k)
    && (forall id | id in x.keyById ::
          x.keyById[id] in x.callers && x.keyById[id].id == id && 1 <= id < x.nextId)
  }

  /** The caller registered under `id`. */
  function CallerOf(x: Executor, id: nat): Caller
    requires Consistent(x) && id in x.keyById
  {
    x.callers[x.keyById[id]]
  }

  /** The key `id` gets once its sorting-order function is re-read. */
  function FreshKey(x: Executor, orders: Orders, id: nat): Key
    requires Consistent(x) && id in x.keyById
  {
    Key(id, Read(orders, CallerOf(x, id).orderFunc))
  }

  // ---------------------------------------------------------------- key order

  /** `m` precedes every other key of `s`. */
  predicate IsLeastKey(s: set<Key>, m: Key) {
    m in s && forall k | k in s && k != m :: KeyLess(m, k)
  }

  /** The least key of a non-empty set under `KeyLess`; unique because the order is
      strict and total. */
  function LeastKey(s: set<Key>): (m: Key)
    requires s != {}
    ensures IsLeastKey(s, m)
  {
    LeastKeyExists(s);
    var m :| IsLeastKey(s, m);
    m
  }

  lemma {:induction false} LeastKeyExists(s: set<Key>)
    requires s != {}
    ensures exists m :: IsLeastKey(s, m)
    decreases |s|
  {
    var k :| k in s;
    if s != {k} {
      LeastKeyExists(s - {k});
      var m :| IsLeastKey(s - {k}, m);
      if KeyLess(k, m) {
        forall k' | k' in s && k' != k
          ensures KeyLess(k, k')
        {
          if k' != m {
            assert KeyLess(m, k');
          }
        }
        assert IsLeastKey(s, k);
      } else {
        assert IsLeastKey(s, m);
      }
    } else {
      assert forall k' | k' in s :: k' == k;
      assert IsLeastKey(s, k);
    }
  }

  /** The keys of `s` in ascending `KeyLess` order: the iteration order of the
      `std::map`. */
  function SortedKeys(s: set<Key>): (r: seq<Key>)
    ensures |r| == |s|
    ensures forall k :: k in r <==> k in s
    decreases |s|
  {
    if s == {} then []
    else
      var m := LeastKey(s);
      [m] + SortedKeys(s - {m})
  }

  /** `SortedKeys` lists the keys in strictly ascending order. */
  lemma {:induction false} SortedKeysAscending(s: set<Key>)
    ensures KeysAscending(SortedKeys(s))
    decreases |s|
  {
    if s != {} {
      var m := LeastKey(s);
      var t := SortedKeys(s - {m});
      SortedKeysAscending(s - {m});
      var r := [m] + t;
      assert SortedKeys(s) == r;
      forall j | 0 <= j < |t|
        ensures KeyLess(m, t[j])
      {
        assert t[j] in s - {m};
      }
      forall i, j | 0 <= i < j < |r|
        ensures KeyLess(r[i], r[j])
      {
        assert r[j] == t[j - 1];
        if i > 0 {
          assert r[i] == t[i - 1];
        }
      }
    }
  }

  // ---------------------------------------------------------------- add / remove

  /** `add(func, sortingOrderFunc)`: reads the sorting order once, inserts under the next
      id and returns that id. Both consistency checks throw; the first one leaves the
      maps untouched, the second one has already inserted into `m_callers`. */
  function Add(x: Executor, c: Caller, orders: Orders): (r: (Executor, Result<nat>))
    ensures r.0.nextId == (if r.1.Ok? then x.nextId + 1 else x.nextId)
    ensures r.1.Ok? ==> r.1.value == x.nextId && r.0.keyById.Keys == x.keyById.Keys + {x.nextId}
    ensures r.1.Err? ==> r.1.error == Logic(ExecutorInconsistent) && r.0.keyById == x.keyById
  {
    var key := Key(x.nextId, Read(orders, c.orderFunc));
    if key in x.callers then (x, Err(Logic(ExecutorInconsistent)))
    else if x.nextId in x.keyById then
      (x.(callers := x.callers[key := c]), Err(Logic(ExecutorInconsistent)))
    else
      (Executor(x.nextId + 1, x.callers[key := c], x.keyById[x.nextId := key]), Ok(x.nextId))
  }

  /** `remove(id)`: unknown ids are ignored; an id whose key is missing from the ordered
      map is an inconsistency and throws. */
  function Remove(x: Executor, id: nat): (r: (Executor, Option<Exn>))
    ensures r.0.nextId == x.nextId
    ensures r.1.None? <==> id !in r.0.keyById
    ensures r.1.None? ==> r.0.keyById.Keys == x.keyById.Keys - {id}
    ensures r.1.Some? ==> r.0 == x && r.1.value == Logic(ExecutorInconsistent)
  {
    if id !in x.keyById then (x, None)
    else if x.keyById[id] !in x.callers then (x, Some(Logic(ExecutorInconsistent)))
    else (x.(callers := x.callers - {x.keyById[id]}, keyById := x.keyById - {id}), None)
  }

  lemma AddSpec(x: Executor, c: Caller, orders: Orders)
    requires Consistent(x)
    ensures var (y, r) := Add(x, c, orders);
      && r == Ok(x.nextId)
      && Consistent(y)
      && y.nextId == x.nextId + 1
      && y.keyById.Keys == x.keyById.Keys + {x.nextId}
      && CallerOf(y, x.nextId) == c
      && y.keyById[x.nextId].sortingOrder == Read(orders, c.orderFunc)
      && (forall id | id in x.keyById :: y.keyById[id] == x.keyById[id] && CallerOf(y, id) == CallerOf(x, id))
  {
    var key := Key(x.nextId, Read(orders, c.orderFunc));
    assert key !in x.callers;
    var (y, r) := Add(x, c, orders);
    forall k | k in y.callers
      ensures k.id in y.keyById && y.keyById[k.id] == k
    {
      if k != key {
        assert k in x.callers;
      }
    }
  }

  lemma RemoveSpec(x: Executor, id: nat)
    requires Consistent(x)
    ensures var (y, e) := Remove(x, id);
      && e == None
      && Consistent(y)
      && y.nextId == x.nextId
      && y.keyById.Keys == x.keyById.Keys - {id}
      && (id !in x.keyById ==> y == x)
      && (forall i | i in y.keyById :: y.keyById[i] == x.keyById[i] && CallerOf(y, i) == CallerOf(x, i))
  {
    if id in x.keyById {
      var (y, e) := Remove(x, id);
      forall k | k in y.callers
        ensures k.id in y.keyById && y.keyById[k.id] == k
      {
        assert k in x.callers && k != x.keyById[id];
      }
    }
  }

  // ---------------------------------------------------------------- refresh and call

  /** One entry of `m_tempNewSortingOrders`. */
  datatype Change = Change(from: Key, newOrder: Int32)

  /** Ascending under `KeyLess`. */
  predicate KeysAscending(ks: seq<Key>) {
    forall i, j | 0 <= i < j < |ks| :: KeyLess(ks[i], ks[j])
  }

  /** The entries of `ks` (visited in order) whose sorting order now differs, paired with
      the order just read. */
  function Pending(callers: map<Key, Caller>, ks: seq<Key>, orders: Orders): (r: seq<Change>)
    requires forall i | 0 <= i < |ks| :: ks[i] in callers
    requires KeysAscending(ks)
    ensures forall c | c in r ::
      && c.from in ks
      && c.newOrder == Read(orders, callers[c.from].orderFunc)
      && c.newOrder != c.from.sortingOrder
    ensures forall k | k in ks && Read(orders, callers[k].orderFunc) != k.sortingOrder ::
      Change(k, Read(orders, callers[k].orderFunc)) in r
    ensures forall i, j | 0 <= i < j < |r| :: KeyLess(r[i].from, r[j].from)
  {
    if ks == [] then []
    else
      var o := Read(orders, callers[ks[0]].orderFunc);
      var rest := Pending(callers, ks[1..], orders);
      assert forall c | c in rest :: c.from in ks[1..];
      if o != ks[0].sortingOrder then
        assert forall c | c in rest :: KeyLess(ks[0], c.from);
        [Change(ks[0], o)] + rest
      else rest
  }

  /** The re-insertion loop of `refreshSortingOrder`, one change at a time: find the old
      key (throw if missing), erase it, insert the new key (throw if taken), update the
      index. */
  function Reinsert(x: Executor, cs: seq<Change>): (r: (Executor, Option<Exn>))
    ensures r.0.nextId == x.nextId
    ensures x.keyById.Keys <= r.0.keyById.Keys
    ensures r.1.Some? ==> r.1.value == Logic(ExecutorInconsistent)
    decreases |cs|
  {
    if cs == [] then (x, None)
    else
      var c := cs[0];
      if c.from !in x.callers then (x, Some(Logic(ExecutorInconsistent)))
      else
        var caller := x.callers[c.from];
        var erased := x.callers - {c.from};
        var nk := Key(c.from.id, c.newOrder);
        if nk in erased then (x.(callers := erased), Some(Logic(ExecutorInconsistent)))
        else Reinsert(x.(callers := erased[nk := caller], keyById := x.keyById[c.from.id := nk]), cs[1..])
  }

  /** `refreshSortingOrder()`. */
  function Refresh(x: Executor, orders: Orders): (r: (Executor, Option<Exn>))
    ensures r.0.nextId == x.nextId
    ensures x.keyById.Keys <= r.0.keyById.Keys
    ensures r.1.Some? ==> r.1.value == Logic(ExecutorInconsistent)
  {
    var ks := SortedKeys(x.callers.Keys);
    SortedKeysAscending(x.callers.Keys);
    Reinsert(x, Pending(x.callers, ks, orders))
  }

  /** The outcome of `call()`: the executor afterwards, what it threw, and the ids whose
      callbacks ran, in the order they ran. */
  datatype CallResult = CallResult(executor: Executor, thrown: Option<Exn>, invoked: seq<nat>)

  /** `call()`: refresh, then invoke every callback in key order. A throwing refresh
      invokes nothing. */
  function Call(x: Executor, orders: Orders): (r: CallResult)
    ensures r.executor.nextId == x.nextId
    ensures r.thrown.Some? ==> r.invoked == []
    ensures r.thrown.None? ==> |r.invoked| == |r.executor.callers|
  {
    var refreshed := Refresh(x, orders);
    if refreshed.1.Some? then CallResult(refreshed.0, refreshed.1, [])
    else CallResult(refreshed.0, None, IdsOf(SortedKeys(refreshed.0.callers.Keys)))
  }

  /** The ids of a key sequence, in the same order. */
  function IdsOf(ks: seq<Key>): (r: seq<nat>)
    ensures |r| == |ks|
    ensures forall i | 0 <= i < |ks| :: r[i] == ks[i].id
  {
    if ks == [] then [] else [ks[0].id] + IdsOf(ks[1..])
  }

  /** The id index after the changes `cs` are applied one after another. */
  function Apply(m: map<nat, Key>, cs: seq<Change>): map<nat, Key>
    decreases |cs|
  {
    if cs == [] then m
    else Apply(m[cs[0].from.id := Key(cs[0].from.id, cs[0].newOrder)], cs[1..])
  }

  /** The ids of a change list are pairwise distinct. */
  predicate DistinctIds(cs: seq<Change>) {
    forall i, j | 0 <= i < j < |cs| :: cs[i].from.id != cs[j].from.id
  }

  /** Applying changes to distinct ids already in the index moves each changed id to its
      new order and leaves every other id where it was. */
  lemma {:induction false} ApplySpec(m: map<nat, Key>, cs: seq<Change>)
    requires DistinctIds(cs)
    requires forall c | c in cs :: c.from.id in m
    ensures Apply(m, cs).Keys == m.Keys
    ensures forall c | c in cs :: Apply(m, cs)[c.from.id] == Key(c.from.id, c.newOrder)
    ensures forall id | id in m && (forall c | c in cs :: c.from.id != id) :: Apply(m, cs)[id] == m[id]
    decreases |cs|
  {
    if cs != [] {
      var c0 := cs[0];
      var m' := m[c0.from.id := Key(c0.from.id, c0.newOrder)];
      assert DistinctIds(cs[1..]) by {
        forall i, j | 0 <= i < j < |cs[1..]| ensures cs[1..][i].from.id != cs[1..][j].from.id {
          assert cs[1..][i] == cs[i + 1] && cs[1..][j] == cs[j + 1];
        }
      }
      assert forall c | c in cs[1..] :: c in cs;
      ApplySpec(m', cs[1..]);
      assert forall c | c in cs[1..] :: c.from.id != c0.from.id by {
        forall c | c in cs[1..] ensures c.from.id != c0.from.id {
          var j :| 0 <= j < |cs[1..]| && cs[1..][j] == c;
          assert cs[j + 1] == c;
        }
      }
      assert forall c | c in cs :: c == c0 || c in cs[1..];
    }
  }

  /** One step of the re-insertion loop on a consistent executor whose change names the
      current key of its id. */
  lemma ReinsertStep(x: Executor, c: Change)
    requires Consistent(x)
    requires c.from in x.callers
    ensures Key(c.from.id, c.newOrder) !in x.callers - {c.from}
    ensures var nk := Key(c.from.id, c.newOrder);
      var x' := x.(callers := (x.callers - {c.from})[nk := x.callers[c.from]], keyById := x.keyById[c.from.id := nk]);
      && Consistent(x')
      && x'.keyById.Keys == x.keyById.Keys
      && (forall id | id in x.keyById :: CallerOf(x', id) == CallerOf(x, id))
  {
    var id := c.from.id;
    var nk := Key(id, c.newOrder);
    var erased := x.callers - {c.from};
    var x' := x.(callers := erased[nk := x.callers[c.from]], keyById := x.keyById[id := nk]);
    forall k | k in x'.callers
      ensures k.id in x'.keyById && x'.keyById[k.id] == k
    {
      if k != nk {
        assert k in x.callers && k != c.from;
        assert x.keyById[k.id] == k;
      }
    }
  }

  /** Re-inserting changes that each name the current key of a distinct id never throws,
      keeps the maps consistent, keeps every caller under its id and updates the index as
      `Apply` does. */
  lemma {:induction false} ReinsertSpec(x: Executor, cs: seq<Change>)
    requires Consistent(x)
    requires forall c | c in cs :: c.from in x.callers
    requires DistinctIds(cs)
    ensures var (y, e) := Reinsert(x, cs);
      && e == None
      && Consistent(y)
      && y.nextId == x.nextId
      && y.keyById == Apply(x.keyById, cs)
      && (forall id | id in x.keyById :: id in y.keyById && CallerOf(y, id) == CallerOf(x, id))
    decreases |cs|
  {
    if cs != [] {
      var c := cs[0];
      var nk := Key(c.from.id, c.newOrder);
      ReinsertStep(x, c);
      var x' := x.(callers := (x.callers - {c.from})[nk := x.callers[c.from]], keyById := x.keyById[c.from.id := nk]);
      forall c' | c' in cs[1..]
        ensures c'.from in x'.callers
      {
        var j :| 0 <= j < |cs[1..]| && cs[1..][j] == c';
        assert cs[j + 1] == c';
        assert c'.from.id != c.from.id;
        assert c'.from != c.from;
      }
      assert DistinctIds(cs[1..]) by {
        forall i, j | 0 <= i < j < |cs[1..]| ensures cs[1..][i].from.id != cs[1..][j].from.id {
          assert cs[1..][i] == cs[i + 1] && cs[1..][j] == cs[j + 1];
        }
      }
      ReinsertSpec(x', cs[1..]);
    }
  }

  /** `refreshSortingOrder()` on a consistent executor never throws and leaves every id
      under the key `(fresh sorting order, same id)` with the same caller. */
  lemma RefreshSpec(x: Executor, orders: Orders)
    requires Consistent(x)
    ensures var (y, e) := Refresh(x, orders);
      && e == None
      && Consistent(y)
      && y.nextId == x.nextId
      && y.keyById.Keys == x.keyById.Keys
      && (forall id | id in x.keyById :: y.keyById[id] == FreshKey(x, orders, id))
      && (forall id | id in x.keyById :: CallerOf(y, id) == CallerOf(x, id))
  {
    var ks := SortedKeys(x.callers.Keys);
    SortedKeysAscending(x.callers.Keys);
    var cs := Pending(x.callers, ks, orders);
    assert DistinctIds(cs) by {
      forall i, j | 0 <= i < j < |cs| ensures cs[i].from.id != cs[j].from.id {
        assert KeyLess(cs[i].from, cs[j].from);
        assert x.keyById[cs[i].from.id] == cs[i].from && x.keyById[cs[j].from.id] == cs[j].from;
      }
    }
    ReinsertSpec(x, cs);
    ApplySpec(x.keyById, cs);
    var (y, e) := Reinsert(x, cs);
    forall id | id in x.keyById
      ensures y.keyById[id] == FreshKey(x, orders, id)
    {
      var k := x.keyById[id];
      assert k in ks;
      var o := Read(orders, x.callers[k].orderFunc);
      if o != k.sortingOrder {
        assert Change(k, o) in cs;
      } else {
        forall c | c in cs
          ensures c.from.id != id
        {
          assert c.from.id == id ==> c.from == k;
        }
      }
    }
  }

  /** The keys of a consistent executor, in iteration order, name registered ids under
      their current keys, and every registered id appears. */
  lemma SortedKeysIndexed(y: Executor)
    requires Consistent(y)
    ensures var ks := SortedKeys(y.callers.Keys);
      && (forall i | 0 <= i < |ks| :: ks[i].id in y.keyById && y.keyById[ks[i].id] == ks[i])
      && (forall id :: id in IdsOf(ks) <==> id in y.keyById)
  {
    var ks := SortedKeys(y.callers.Keys);
    var ids := IdsOf(ks);
    forall id | id in y.keyById
      ensures id in ids
    {
      assert y.keyById[id] in ks;
      var i :| 0 <= i < |ks| && ks[i] == y.keyById[id];
      assert ids[i] == id;
    }
  }

  /** On a consistent executor `call()` throws nothing and its state change is exactly
      the refresh. */
  lemma CallRefreshes(x: Executor, orders: Orders)
    requires Consistent(x)
    ensures Call(x, orders).thrown == None
    ensures Call(x, orders).executor == Refresh(x, orders).0
    ensures Call(x, orders).invoked == IdsOf(SortedKeys(Refresh(x, orders).0.callers.Keys))
  {
    RefreshSpec(x, orders);
  }

  /** `call()` on a consistent executor throws nothing, keeps the maps consistent and
      re-keys every entry to its freshly read sorting order while keeping its id and
      caller. */
  lemma CallRekeys(x: Executor, orders: Orders)
    requires Consistent(x)
    ensures var r := Call(x, orders);
      && r.thrown == None
      && Consistent(r.executor)
      && r.executor.keyById.Keys == x.keyById.Keys
      && r.executor.nextId == x.nextId
      && (forall id | id in x.keyById ::
            r.executor.keyById[id] == FreshKey(x, orders, id) && CallerOf(r.executor, id) == CallerOf(x, id))
  {
    RefreshSpec(x, orders);
    CallRefreshes(x, orders);
  }

  /** The callbacks `call()` runs on a consistent executor, in the order they run, are
      those of the refreshed keys in iteration order. */
  lemma CallInvokesRefreshedKeys(x: Executor, orders: Orders)
    requires Consistent(x)
    ensures var invoked := Call(x, orders).invoked;
      var ks := SortedKeys(Refresh(x, orders).0.callers.Keys);
      && |invoked| == |ks|
      && (forall i | 0 <= i < |ks| :: invoked[i] in x.keyById && FreshKey(x, orders, invoked[i]) == ks[i])
  {
    RefreshSpec(x, orders);
    CallRefreshes(x, orders);
    var y := Refresh(x, orders).0;
    SortedKeysIndexed(y);
  }

  /** `call()` on a consistent executor runs the callback of every registered id and of
      no other id. */
  lemma CallRunsEach(x: Executor, orders: Orders)
    requires Consistent(x)
    ensures forall id :: id in Call(x, orders).invoked <==> id in x.keyById
  {
    RefreshSpec(x, orders);
    CallRefreshes(x, orders);
    SortedKeysIndexed(Refresh(x, orders).0);
  }

  /** `call()` on a consistent executor runs the callbacks in strictly ascending
      `(fresh sorting order, id)` order, so each runs once and callbacks with equal
      orders run in registration order. */
  lemma CallRunsInOrder(x: Executor, orders: Orders)
    requires Consistent(x)
    ensures var invoked := Call(x, orders).invoked;
      forall i, j | 0 <= i < j < |invoked| ::
        && invoked[i] in x.keyById && invoked[j] in x.keyById
        && KeyLess(FreshKey(x, orders, invoked[i]), FreshKey(x, orders, invoked[j]))
  {
    CallInvokesRefreshedKeys(x, orders);
    SortedKeysAscending(Refresh(x, orders).0.callers.Keys);
    var invoked := Call(x, orders).invoked;
    var ks := SortedKeys(Refresh(x, orders).0.callers.Keys);
    forall i, j | 0 <= i < j < |invoked|
      ensures KeyLess(FreshKey(x, orders, invoked[i]), FreshKey(x, orders, invoked[j]))
    {
      assert KeyLess(ks[i], ks[j]);
    }
  }

  // ---------------------------------------------------------------- queries

  /** `hasSortingOrder(sortingOrder)`: scans the callers in key order and reports whether
      any sorting-order function currently returns `order`. */
  function HasSortingOrder(x: Executor, orders: Orders, order: Int32): (r: bool)
    ensures r <==> exists k :: k in x.callers && Read(orders, x.callers[k].orderFunc) == order
  {
    ScanCoversCallers(x, orders, order, order);
    AnyInRange(x.callers, SortedKeys(x.callers.Keys), orders, order, order)
  }

  /** `hasSortingOrderInRange(min, max)`: both bounds inclusive. */
  function HasSortingOrderInRange(x: Executor, orders: Orders, lo: Int32, hi: Int32): (r: bool)
    ensures r <==> exists k :: k in x.callers && lo <= Read(orders, x.callers[k].orderFunc) <= hi
  {
    ScanCoversCallers(x, orders, lo, hi);
    AnyInRange(x.callers, SortedKeys(x.callers.Keys), orders, lo, hi)
  }

  /** Scanning the keys in iteration order finds an order in `[lo, hi]` exactly when some
      caller has one. */
  lemma ScanCoversCallers(x: Executor, orders: Orders, lo: int, hi: int)
    ensures AnyInRange(x.callers, SortedKeys(x.callers.Keys), orders, lo, hi)
      <==> exists k :: k in x.callers && lo <= Read(orders, x.callers[k].orderFunc) <= hi
  {
    var ks := SortedKeys(x.callers.Keys);
    assert forall k :: k in ks <==> k in x.callers;
  }

  /** The scan shared by both queries. */
  function AnyInRange(callers: map<Key, Caller>, ks: seq<Key>, orders: Orders, lo: int, hi: int): (r: bool)
    requires forall k | k in ks :: k in callers
    ensures r <==> exists k :: k in ks && lo <= Read(orders, callers[k].orderFunc) <= hi
  {
    if ks == [] then false
    else if lo <= Read(orders, callers[ks[0]].orderFunc) <= hi then true
    else
      var r := AnyInRange(callers, ks[1..], orders, lo, hi);
      assert forall k | k in ks :: k == ks[0] || k in ks[1..];
      r
  }
}
