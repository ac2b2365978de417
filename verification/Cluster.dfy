/**
 Runs of the whole cluster: the data server's stores together with what each node was
 last told about each key it holds. Over every run of requests, changesets, releases and
 disconnections, what a node was told stays true for as long as it holds the lock.
 */
module Cluster {
  import opened Keys
  import opened LockSpec
  import opened ServerSpec
  import opened Wrappers

  /** A value a node has been sent, or has itself committed, for a key. */
  type Cache = map<(NodeId, StoreId, Key), Bound>

  /** How a range came to be granted: with no other node writing inside it, and whether its
      holder has since committed a change inside it. */
  datatype Grant = Grant(clean: bool, touched: bool)

  type Grants = map<(StoreId, Interval), Grant>

  datatype State = State(stores: Stores, cache: Cache, grants: Grants)

  const START := State(map[], map[], map[])

  predicate Commits(disk: Disk, s: Stores, e: Event) {
    e.SubmitChangeset? && !e.storageFails && AllPermitted(Opened(disk, s, e.app), e.node, e.app, e.changes)
  }

  /** The keys, with the store each is in, that the changeset names. */
  function Named(e: Event): set<(StoreId, Key)>
    requires e.SubmitChangeset?
  {
    set i | 0 <= i < |e.changes| && Resolve(e.app, e.changes[i].store).Some? ::
      (Resolve(e.app, e.changes[i].store).value, e.changes[i].key)
  }

  /** What the changeset's own node learns from its being committed. */
  ghost function Written(e: Event, s': Stores): Cache
    requires e.SubmitChangeset?
  {
    map p | p in Named(e) && p.0 in s' :: (e.node, p.0, p.1) := Lookup(s'[p.0].data, p.1)
  }

  /** After a granted request the node knows the value sent; after its own commit, the values
      it wrote. What others know does not change. */
  ghost function CacheAfter(disk: Disk, s: Stores, e: Event, s': Stores, answer: Option<Reply>, cache: Cache): Cache {
    match e
    case RequestValue(n, app, store, k, w) =>
      if answer.Some? && answer.value.granted && Resolve(app, store).Some?
      then cache[(n, Resolve(app, store).value, k) := answer.value.data] else cache
    case SubmitChangeset(n, app, changes, fails) =>
      if Commits(disk, s, e) then cache + Written(e, s') else cache
    case _ => cache
  }

  ghost predicate TouchedInside(e: Event, id: StoreId, r: Interval)
    requires e.SubmitChangeset?
  {
    exists p :: p in Named(e) && p.0 == id && Inside(p.1, r)
  }

  ghost function GrantsAfter(disk: Disk, s: Stores, e: Event, grants: Grants): Grants {
    match e
    case RequestNextKey(n, app, store, from, to, granted) =>
      var o, id, r := Opened(disk, s, app), Resolve(app, store), Interval(from, to);
      if granted && id.Some? && id.value in o
      then grants[(id.value, r) := Grant(!ForeignWriterInside(o[id.value].locks, n, r), false)]
      else grants
    case SubmitChangeset(n, app, changes, fails) =>
      var o := Opened(disk, s, app);
      if Commits(disk, s, e)
      then map g | g in grants ::
             if g.0 in o && g.1 in o[g.0].locks.tree && o[g.0].locks.tree[g.1] == n && TouchedInside(e, g.0, g.1)
             then grants[g].(touched := true) else grants[g]
      else grants
    case _ => grants
  }

  ghost predicate Next(disk: Disk, c: State, e: Event, answer: Option<Reply>, c': State) {
    && ServerStep(disk, c.stores, e, c'.stores, answer)
    && c'.cache == CacheAfter(disk, c.stores, e, c'.stores, answer, c.cache)
    && c'.grants == GrantsAfter(disk, c.stores, e, c.grants)
  }

  /** A run: `events[i]`, answered by `answers[i]`, leads from state i to state i + 1. */
  ghost predicate Run(disk: Disk, states: seq<State>, events: seq<Event>, answers: seq<Option<Reply>>) {
    && |states| == |events| + 1 && |answers| == |events|
    && states[0] == START
    && forall i :: 0 <= i < |events| ==> Next(disk, states[i], events[i], answers[i], states[i + 1])
  }

  // ----- The invariant, store by store

  /** A node holding a lock on a key knows the key's present value. */
  ghost predicate CoherentAt(st: Store, id: StoreId, cache: Cache) {
    forall n: NodeId, k :: Holds(st.locks, n, k) ==> (n, id, k) in cache && cache[(n, id, k)] == Lookup(st.data, k)
  }

  /** No other node writes inside the range and, unless its holder changed something inside,
      its upper end is still the key that follows its lower end. */
  ghost predicate Protected(st: Store, r: Interval, touched: bool)
    requires r in st.locks.tree
  {
    !ForeignWriterInside(st.locks, st.locks.tree[r], r) && (!touched ==> IsNext(st.data, r.lower, r.upper))
  }

  /** Every range granted clean is still protected. */
  ghost predicate ProtectedAt(st: Store, id: StoreId, grants: Grants) {
    forall r :: r in st.locks.tree ==> (id, r) in grants && (grants[(id, r)].clean ==> Protected(st, r, grants[(id, r)].touched))
  }

  ghost predicate StoreInv(st: Store, id: StoreId, cache: Cache, grants: Grants) {
    Sound(st.locks) && CoherentAt(st, id, cache) && ProtectedAt(st, id, grants)
  }

  ghost predicate Inv(c: State) {
    forall id :: id in c.stores ==> StoreInv(c.stores[id], id, c.cache, c.grants)
  }

  lemma NewStoreInv(data: map<Key, Value>, id: StoreId, cache: Cache, grants: Grants)
    ensures StoreInv(Store(UNLOCKED, data), id, cache, grants)
  {
  }

  lemma OtherStoreInv(st: Store, id: StoreId, cache: Cache, grants: Grants, cache': Cache, grants': Grants)
    requires StoreInv(st, id, cache, grants)
    requires forall n: NodeId, k :: (n, id, k) in cache ==> (n, id, k) in cache' && cache'[(n, id, k)] == cache[(n, id, k)]
    requires forall r :: (id, r) in grants ==> (id, r) in grants' && grants'[(id, r)] == grants[(id, r)]
    ensures StoreInv(st, id, cache', grants')
  {
  }

  /** A point grant inside a clean range is its holder's own, or a read. */
  lemma PointGrantKeepsRanges(st: Store, n: NodeId, k: Key, w: bool, r: Interval)
    requires PointGrantable(st.locks, n, k, w) && r in st.locks.tree
    requires !ForeignWriterInside(st.locks, st.locks.tree[r], r)
    ensures !ForeignWriterInside(PointGranted(st.locks, n, k, w), st.locks.tree[r], r)
  {
    var locks, owner := st.locks, st.locks.tree[r];
    var locks' := PointGranted(locks, n, k, w);
    forall j, m: NodeId | Inside(j, r) && HoldsWrite(locks', m, j)
      ensures m == owner
    {
      if HoldsWrite(locks, m, j) {
        assert m == owner || ForeignWriter(locks, owner, j);
      } else {
        assert m == n && j == k;
        assert n == owner || ForeignCover(locks, n, k);
      }
    }
  }

  lemma PointGrantInv(st: Store, id: StoreId, cache: Cache, grants: Grants, n: NodeId, k: Key, w: bool)
    requires StoreInv(st, id, cache, grants) && PointGrantable(st.locks, n, k, w)
    ensures StoreInv(st.(locks := PointGranted(st.locks, n, k, w)), id, cache[(n, id, k) := Lookup(st.data, k)], grants)
  {
    PointGrantKeepsSound(st.locks, n, k, w);
    var st' := st.(locks := PointGranted(st.locks, n, k, w));
    forall m: NodeId, j | Holds(st'.locks, m, j)
      ensures var cache' := cache[(n, id, k) := Lookup(st.data, k)]; (m, id, j) in cache' && cache'[(m, id, j)] == Lookup(st.data, j)
    {
      assert (m == n && j == k) || Holds(st.locks, m, j);
    }
    forall r | r in st'.locks.tree
      ensures (id, r) in grants && (grants[(id, r)].clean ==> Protected(st', r, grants[(id, r)].touched))
    {
      if grants[(id, r)].clean {
        PointGrantKeepsRanges(st, n, k, w, r);
      }
    }
  }

  lemma RangeGrantInv(st: Store, id: StoreId, cache: Cache, grants: Grants, n: NodeId, r: Interval)
    requires StoreInv(st, id, cache, grants) && IsNext(st.data, r.lower, r.upper)
    ensures StoreInv(st.(locks := RangeGranted(st.locks, n, r)), id, cache,
                     grants[(id, r) := Grant(!ForeignWriterInside(st.locks, n, r), false)])
  {
    hide IsNext;
    var st' := st.(locks := RangeGranted(st.locks, n, r));
    SamePointsSame(st.locks, st'.locks);
    assert Sound(st'.locks);
    assert CoherentAt(st', id, cache);
  }

  lemma SamePointsSame(a: LockState, b: LockState)
    requires a.points == b.points
    ensures forall n: NodeId, k :: Holds(a, n, k) == Holds(b, n, k) && HoldsWrite(a, n, k) == HoldsWrite(b, n, k)
    ensures WriteIsAlone(a) == WriteIsAlone(b)
    ensures forall n: NodeId, r :: ForeignWriterInside(a, n, r) == ForeignWriterInside(b, n, r)
  {
    forall n: NodeId, k
      ensures ForeignWriter(a, n, k) == ForeignWriter(b, n, k)
    {
      assert forall m: NodeId :: HoldsWrite(a, m, k) == HoldsWrite(b, m, k);
    }
    assert forall n: NodeId, k :: Holds(a, n, k) == Holds(b, n, k) && HoldsWrite(a, n, k) == HoldsWrite(b, n, k);
    forall n: NodeId, r
      ensures ForeignWriterInside(a, n, r) == ForeignWriterInside(b, n, r)
    {
      assert forall k :: ForeignWriter(a, n, k) == ForeignWriter(b, n, k);
    }
  }

  /** Giving up locks never hurts. */
  lemma ReleaseInv(st: Store, id: StoreId, cache: Cache, grants: Grants, locks: LockState)
    requires StoreInv(st, id, cache, grants) && Sound(locks)
    requires forall p :: p in locks.points ==> p in st.locks.points && locks.points[p] == st.locks.points[p]
    requires forall r :: r in locks.tree ==> r in st.locks.tree && locks.tree[r] == st.locks.tree[r]
    ensures StoreInv(st.(locks := locks), id, cache, grants)
  {
    var st' := st.(locks := locks);
    forall n: NodeId, k | Holds(locks, n, k)
      ensures (n, id, k) in cache && cache[(n, id, k)] == Lookup(st.data, k)
    {
      assert Holds(st.locks, n, k);
    }
    forall r | r in locks.tree && grants[(id, r)].clean
      ensures Protected(st', r, grants[(id, r)].touched)
    {
      var owner := st.locks.tree[r];
      forall k, m: NodeId | Inside(k, r) && HoldsWrite(locks, m, k)
        ensures m == owner
      {
        assert HoldsWrite(st.locks, m, k);
        assert m == owner || ForeignWriter(st.locks, owner, k);
      }
    }
  }

  /** The key that follows depends only on the keys inside the range. */
  lemma NextIsLocal(data: map<Key, Value>, data': map<Key, Value>, r: Interval)
    requires IsNext(data, r.lower, r.upper)
    requires forall k :: Inside(k, r) ==> (k in data <==> k in data')
    ensures IsNext(data', r.lower, r.upper)
  {
    if r.upper.At? {
      CompareFlip(r.upper.key, r.upper.key);
    }
    forall k | k in data' && Above(r.lower, k)
      ensures r.upper.At? && Compare(r.upper.key, k) <= 0
    {
      if r.upper.At? {
        CompareFlip(k, r.upper.key);
      }
      assert Inside(k, r) ==> k in data;
    }
  }

  /** A committed changeset: only keys the node has write-locked change, it knows what it
      wrote, and its own ranges around them are marked. */
  lemma CommitInv(st: Store, id: StoreId, cache: Cache, grants: Grants, n: NodeId,
                  data: map<Key, Value>, named: set<Key>, cache': Cache, grants': Grants)
    requires StoreInv(st, id, cache, grants)
    requires forall k :: k in named ==> HoldsWrite(st.locks, n, k)
    requires forall k :: k !in named ==> Lookup(data, k) == Lookup(st.data, k)
    requires forall m: NodeId, k :: (m, id, k) in cache && !(m == n && k in named) ==> (m, id, k) in cache' && cache'[(m, id, k)] == cache[(m, id, k)]
    requires forall k :: k in named ==> (n, id, k) in cache' && cache'[(n, id, k)] == Lookup(data, k)
    requires forall r :: (id, r) in grants ==> (id, r) in grants' && grants'[(id, r)].clean == grants[(id, r)].clean
    requires forall r :: (id, r) in grants && !grants'[(id, r)].touched ==> !grants[(id, r)].touched
    requires forall r, k :: r in st.locks.tree && st.locks.tree[r] == n && k in named && Inside(k, r) ==> (id, r) in grants' && grants'[(id, r)].touched
    ensures StoreInv(st.(data := data), id, cache', grants')
  {
    var st' := st.(data := data);
    forall m: NodeId, k | Holds(st.locks, m, k)
      ensures (m, id, k) in cache' && cache'[(m, id, k)] == Lookup(data, k)
    {
      if k in named {
        assert HoldsWrite(st.locks, n, k);
      }
    }
    forall r | r in st.locks.tree && grants'[(id, r)].clean
      ensures Protected(st', r, grants'[(id, r)].touched)
    {
      if !grants'[(id, r)].touched {
        var owner := st.locks.tree[r];
        forall k | Inside(k, r)
          ensures k in data <==> k in st.data
        {
          assert HoldsWrite(st.locks, n, k) ==> n == owner || ForeignWriter(st.locks, owner, k);
          assert k !in named;
          assert Lookup(data, k) == Lookup(st.data, k);
        }
        NextIsLocal(st.data, data, r);
      }
    }
  }

  // ----- Every message keeps the invariant

  lemma OpenedInv(disk: Disk, c: State, app: Name)
    requires Inv(c)
    ensures Inv(c.(stores := Opened(disk, c.stores, app)))
  {
    hide StoreInv;
    var o := Opened(disk, c.stores, app);
    forall id | id in o
      ensures StoreInv(o[id], id, c.cache, c.grants)
    {
      if id !in c.stores {
        NewStoreInv(Stored(disk, id), id, c.cache, c.grants);
      }
    }
  }

  /** One store changed; what is known about the others did not. */
  lemma OneStoreInv(c: State, id: StoreId, st: Store, cache': Cache, grants': Grants)
    requires Inv(c) && StoreInv(st, id, cache', grants')
    requires forall p :: p in c.cache && p.1 != id ==> p in cache' && cache'[p] == c.cache[p]
    requires forall g :: g in c.grants && g.0 != id ==> g in grants' && grants'[g] == c.grants[g]
    ensures Inv(State(c.stores[id := st], cache', grants'))
  {
    hide StoreInv;
    forall j | j in c.stores && j != id
      ensures StoreInv(c.stores[j], j, cache', grants')
    {
      OtherStoreInv(c.stores[j], j, c.cache, c.grants, cache', grants');
    }
  }

  lemma ValueRequestInv(c: State, n: NodeId, id: StoreId, k: Key, w: bool)
    requires Inv(c) && id in c.stores && PointGrantable(c.stores[id].locks, n, k, w)
    ensures Inv(State(WithLocks(c.stores, id, PointGranted(c.stores[id].locks, n, k, w)),
                      c.cache[(n, id, k) := Lookup(c.stores[id].data, k)], c.grants))
  {
    hide PointGrantable, StoreInv, PointGranted;
    var st := c.stores[id];
    PointGrantInv(st, id, c.cache, c.grants, n, k, w);
    OneStoreInv(c, id, st.(locks := PointGranted(st.locks, n, k, w)), c.cache[(n, id, k) := Lookup(st.data, k)], c.grants);
  }

  lemma RangeRequestInv(c: State, n: NodeId, id: StoreId, r: Interval)
    requires Inv(c) && id in c.stores && IsNext(c.stores[id].data, r.lower, r.upper)
    ensures Inv(State(WithLocks(c.stores, id, RangeGranted(c.stores[id].locks, n, r)), c.cache,
                      c.grants[(id, r) := Grant(!ForeignWriterInside(c.stores[id].locks, n, r), false)]))
  {
    hide StoreInv, RangeGranted, IsNext, ForeignWriterInside;
    var st := c.stores[id];
    RangeGrantInv(st, id, c.cache, c.grants, n, r);
    OneStoreInv(c, id, st.(locks := RangeGranted(st.locks, n, r)), c.cache,
                c.grants[(id, r) := Grant(!ForeignWriterInside(st.locks, n, r), false)]);
  }

  lemma KeyReleaseInv(c: State, n: NodeId, id: StoreId, k: Key)
    requires Inv(c) && id in c.stores
    ensures Inv(c.(stores := WithLocks(c.stores, id, PointReleased(c.stores[id].locks, n, k))))
  {
    var st := c.stores[id];
    var locks' := PointReleased(st.locks, n, k);
    LockStepKeepsSound(st.locks, ReleasePoint(n, k), locks');
    ReleaseInv(st, id, c.cache, c.grants, locks');
    OneStoreInv(c, id, st.(locks := locks'), c.cache, c.grants);
  }

  lemma RangeReleaseInv(c: State, n: NodeId, id: StoreId, r: Interval)
    requires Inv(c) && id in c.stores
    ensures Inv(c.(stores := WithLocks(c.stores, id, RangeReleased(c.stores[id].locks, n, r))))
  {
    var st := c.stores[id];
    var locks' := RangeReleased(st.locks, n, r);
    LockStepKeepsSound(st.locks, ReleaseRange(n, r), locks');
    ReleaseInv(st, id, c.cache, c.grants, locks');
    OneStoreInv(c, id, st.(locks := locks'), c.cache, c.grants);
  }

  lemma DisconnectInv(c: State, n: NodeId)
    requires Inv(c)
    ensures Inv(c.(stores := map id | id in c.stores :: c.stores[id].(locks := AllReleased(c.stores[id].locks, n))))
  {
    forall id | id in c.stores
      ensures StoreInv(c.stores[id].(locks := AllReleased(c.stores[id].locks, n)), id, c.cache, c.grants)
    {
      var st := c.stores[id];
      LockStepKeepsSound(st.locks, ReleaseAll(n), AllReleased(st.locks, n));
      ReleaseInv(st, id, c.cache, c.grants, AllReleased(st.locks, n));
    }
  }

  /** The keys of one store that the changeset names. */
  function NamedIn(e: Event, id: StoreId): set<Key>
    requires e.SubmitChangeset?
  {
    set p | p in Named(e) && p.0 == id :: p.1
  }

  lemma NamedKeys(e: Event, id: StoreId, k: Key)
    requires e.SubmitChangeset?
    ensures k in NamedIn(e, id) <==> (id, k) in Named(e)
    ensures k in NamedIn(e, id) <==> exists i :: 0 <= i < |e.changes| && Touches(e.changes[i], e.app, id, k)
  {
    if (id, k) in Named(e) {
      var i :| 0 <= i < |e.changes| && Resolve(e.app, e.changes[i].store).Some? && (Resolve(e.app, e.changes[i].store).value, e.changes[i].key) == (id, k);
      assert Touches(e.changes[i], e.app, id, k);
      assert (id, k).1 in NamedIn(e, id);
    }
    if i :| 0 <= i < |e.changes| && Touches(e.changes[i], e.app, id, k) {
      assert (Resolve(e.app, e.changes[i].store).value, e.changes[i].key) in Named(e);
    }
  }

  /** A changeset touches a range of a store if one of its changes is to a key inside. */
  lemma TouchedInsideIff(e: Event, id: StoreId, r: Interval)
    requires e.SubmitChangeset?
    ensures TouchedInside(e, id, r) <==> exists i :: 0 <= i < |e.changes| && Resolve(e.app, e.changes[i].store) == Some(id) && Inside(e.changes[i].key, r)
  {
    if p :| p in Named(e) && p.0 == id && Inside(p.1, r) {
      NamedKeys(e, id, p.1);
    }
    if i :| 0 <= i < |e.changes| && Resolve(e.app, e.changes[i].store) == Some(id) && Inside(e.changes[i].key, r) {
      assert Touches(e.changes[i], e.app, id, e.changes[i].key);
      NamedKeys(e, id, e.changes[i].key);
      assert (id, e.changes[i].key) in Named(e);
    }
  }

  lemma NamedKeyIsHeld(s: Stores, e: Event, id: StoreId, k: Key)
    requires e.SubmitChangeset? && AllPermitted(s, e.node, e.app, e.changes) && id in s && k in NamedIn(e, id)
    ensures HoldsWrite(s[id].locks, e.node, k)
  {
    NamedKeys(e, id, k);
    var i :| 0 <= i < |e.changes| && Touches(e.changes[i], e.app, id, k);
    assert Permitted(s, e.node, e.app, e.changes[i]);
  }

  lemma UnnamedKeyIsKept(s: Stores, e: Event, id: StoreId, k: Key)
    requires e.SubmitChangeset? && id in s && k !in NamedIn(e, id)
    ensures var s' := AllApplied(s, e.app, e.changes); id in s' && Lookup(s'[id].data, k) == Lookup(s[id].data, k)
  {
    NamedKeys(e, id, k);
    UntouchedKeysKept(s, e.app, e.changes, id, k);
  }

  lemma CacheAfterCommit(disk: Disk, s: Stores, e: Event, s': Stores, cache: Cache, id: StoreId)
    requires Commits(disk, s, e) && id in s'
    ensures var cache' := CacheAfter(disk, s, e, s', None, cache);
            && (forall m: NodeId, k :: (m, id, k) in cache && !(m == e.node && k in NamedIn(e, id)) ==> (m, id, k) in cache' && cache'[(m, id, k)] == cache[(m, id, k)])
            && (forall k :: k in NamedIn(e, id) ==> (e.node, id, k) in cache' && cache'[(e.node, id, k)] == Lookup(s'[id].data, k))
  {
    hide Named, Lookup;
    var written := Written(e, s');
    forall m: NodeId, k
      ensures (m, id, k) in written <==> m == e.node && k in NamedIn(e, id)
    {
      NamedKeys(e, id, k);
      if (id, k) in Named(e) {
        assert (e.node, (id, k).0, (id, k).1) in written;
      }
    }
    assert forall k :: (e.node, id, k) in written ==> written[(e.node, id, k)] == Lookup(s'[id].data, k);
  }

  lemma GrantsAfterCommit(disk: Disk, s: Stores, e: Event, grants: Grants, id: StoreId)
    requires Commits(disk, s, e) && Opened(disk, s, e.app) == s && id in s
    ensures var grants' := GrantsAfter(disk, s, e, grants);
            && (forall r :: (id, r) in grants ==> (id, r) in grants' && grants'[(id, r)].clean == grants[(id, r)].clean)
            && (forall r :: (id, r) in grants && !grants'[(id, r)].touched ==> !grants[(id, r)].touched)
            && (forall r, k :: (id, r) in grants && r in s[id].locks.tree && s[id].locks.tree[r] == e.node && k in NamedIn(e, id) && Inside(k, r) ==> grants'[(id, r)].touched)
  {
    hide Named;
    forall r, k | (id, r) in grants && r in s[id].locks.tree && s[id].locks.tree[r] == e.node && k in NamedIn(e, id) && Inside(k, r)
      ensures TouchedInside(e, id, r)
    {
      NamedKeys(e, id, k);
      assert (id, k) in Named(e) && (id, k).0 == id && Inside((id, k).1, r);
    }
  }

  lemma CommitStoreInv(disk: Disk, c: State, e: Event, id: StoreId)
    requires Inv(c) && Commits(disk, c.stores, e) && Opened(disk, c.stores, e.app) == c.stores && id in c.stores
    ensures var s' := AllApplied(c.stores, e.app, e.changes);
            id in s' && StoreInv(s'[id], id, CacheAfter(disk, c.stores, e, s', None, c.cache), GrantsAfter(disk, c.stores, e, c.grants))
  {
    hide AllApplied, AllPermitted, CacheAfter, GrantsAfter, NamedIn, Named, Lookup, HoldsWrite, Inside, Sound, CoherentAt;
    var s' := AllApplied(c.stores, e.app, e.changes);
    ChangesStayWithinLocks(c.stores, e.node, e.app, e.changes);
    forall k | k in NamedIn(e, id)
      ensures HoldsWrite(c.stores[id].locks, e.node, k)
    {
      NamedKeyIsHeld(c.stores, e, id, k);
    }
    forall k | k !in NamedIn(e, id)
      ensures Lookup(s'[id].data, k) == Lookup(c.stores[id].data, k)
    {
      UnnamedKeyIsKept(c.stores, e, id, k);
    }
    CacheAfterCommit(disk, c.stores, e, s', c.cache, id);
    GrantsAfterCommit(disk, c.stores, e, c.grants, id);
    assert s'[id] == c.stores[id].(data := s'[id].data);
    CommitInv(c.stores[id], id, c.cache, c.grants, e.node, s'[id].data, NamedIn(e, id),
              CacheAfter(disk, c.stores, e, s', None, c.cache), GrantsAfter(disk, c.stores, e, c.grants));
  }

  // ----- The theorems

  lemma StepKeepsInv(disk: Disk, c: State, e: Event, answer: Option<Reply>, c': State)
    requires Inv(c) && Next(disk, c, e, answer, c')
    ensures Inv(c')
  {
    hide StoreInv, PointGrantable, RangeAnswer, IsNext, Opened, AllPermitted, AllApplied, PointGranted, RangeGranted,
         PointReleased, RangeReleased, AllReleased, ForeignWriterInside, Lookup;
    if e.Disconnect? {
      DisconnectInv(c, e.node);
    } else {
      var o := c.(stores := Opened(disk, c.stores, e.app));
      OpenedInv(disk, c, e.app);
      match e
      case RequestValue(n, app, store, k, w) =>
        var id := Resolve(app, store);
        if id.Some? && id.value in o.stores && PointGrantable(o.stores[id.value].locks, n, k, w) {
          ValueRequestInv(o, n, id.value, k, w);
        }
      case RequestNextKey(n, app, store, from, to, granted) =>
        var id := Resolve(app, store);
        if id.Some? && id.value in o.stores && granted {
          RangeRequestInv(o, n, id.value, Interval(from, to));
        }
      case SubmitChangeset(n, app, changes, fails) =>
        if Commits(disk, c.stores, e) {
          CommitStepInv(disk, c, e, c');
        }
      case ReleaseKey(n, app, store, k) =>
        var id := Resolve(app, store);
        if id.Some? && id.value in o.stores {
          KeyReleaseInv(o, n, id.value, k);
        }
      case ReleaseKeyRange(n, app, store, r) =>
        var id := Resolve(app, store);
        if id.Some? && id.value in o.stores {
          RangeReleaseInv(o, n, id.value, r);
        }
    }
  }

  /** Opening an application's stores first does not change what a commit makes known. */
  lemma CommitStepInv(disk: Disk, c: State, e: Event, c': State)
    requires Inv(c) && Commits(disk, c.stores, e) && Next(disk, c, e, None, c')
    ensures Inv(c')
  {
    hide StoreInv, AllPermitted, AllApplied, Lookup, Named;
    var o := c.(stores := Opened(disk, c.stores, e.app));
    OpenedInv(disk, c, e.app);
    AppliedKeepsStores(o.stores, e.app, e.changes);
    assert Opened(disk, o.stores, e.app) == o.stores;
    forall id | id in c'.stores
      ensures StoreInv(c'.stores[id], id, c'.cache, c'.grants)
    {
      CommitStoreInv(disk, o, e, id);
    }
  }

  lemma {:induction false} EveryRunKeepsInv(disk: Disk, states: seq<State>, events: seq<Event>, answers: seq<Option<Reply>>, i: nat)
    requires Run(disk, states, events, answers) && i < |states|
    ensures Inv(states[i])
  {
    if i > 0 {
      EveryRunKeepsInv(disk, states, events, answers, i - 1);
      StepKeepsInv(disk, states[i - 1], events[i - 1], answers[i - 1], states[i]);
    }
  }

  /** Cache coherence: in every state of every run, a node that holds any lock on a key
      knows the key's present value; a second reader knows the same value, and while the
      lock is for write no other node holds the key at all. */
  lemma CacheCoherence(disk: Disk, states: seq<State>, events: seq<Event>, answers: seq<Option<Reply>>, i: nat,
                       id: StoreId, n: NodeId, k: Key)
    requires Run(disk, states, events, answers) && i < |states|
    requires id in states[i].stores && Holds(states[i].stores[id].locks, n, k)
    ensures (n, id, k) in states[i].cache && states[i].cache[(n, id, k)] == Lookup(states[i].stores[id].data, k)
    ensures HoldsWrite(states[i].stores[id].locks, n, k) ==> !ForeignHolder(states[i].stores[id].locks, n, k)
  {
    EveryRunKeepsInv(disk, states, events, answers, i);
    var st := states[i].stores[id];
    assert StoreInv(st, id, states[i].cache, states[i].grants);
  }

  /** No message changes the value of a key a node holds, but its own committed changeset. */
  lemma HeldKeyStays(disk: Disk, c: State, e: Event, answer: Option<Reply>, c': State, id: StoreId, n: NodeId, k: Key)
    requires Inv(c) && Next(disk, c, e, answer, c') && id in c.stores && Holds(c.stores[id].locks, n, k)
    requires !e.SubmitChangeset? || e.node != n
    ensures id in c'.stores && Lookup(c'.stores[id].data, k) == Lookup(c.stores[id].data, k)
  {
    assert StoreInv(c.stores[id], id, c.cache, c.grants);
    if Commits(disk, c.stores, e) {
      ChangesStayWithinLocks(Opened(disk, c.stores, e.app), e.node, e.app, e.changes);
    }
  }

  lemma HeldKeysDoNotChange(disk: Disk, states: seq<State>, events: seq<Event>, answers: seq<Option<Reply>>, i: nat,
                            id: StoreId, n: NodeId, k: Key)
    requires Run(disk, states, events, answers) && i < |events|
    requires id in states[i].stores && Holds(states[i].stores[id].locks, n, k)
    requires !events[i].SubmitChangeset? || events[i].node != n
    ensures id in states[i + 1].stores
    ensures Lookup(states[i + 1].stores[id].data, k) == Lookup(states[i].stores[id].data, k)
  {
    hide Inv, Next;
    EveryRunKeepsInv(disk, states, events, answers, i);
    HeldKeyStays(disk, states[i], events[i], answers[i], states[i + 1], id, n, k);
  }

  /** A node that has been disconnected holds no key and owns no range in any store. */
  lemma DisconnectedHoldsNothing(disk: Disk, states: seq<State>, events: seq<Event>, answers: seq<Option<Reply>>, i: nat, id: StoreId)
    requires Run(disk, states, events, answers) && i < |events| && events[i].Disconnect?
    requires id in states[i + 1].stores
    ensures HoldsNothing(states[i + 1].stores[id].locks, events[i].node)
  {
    EveryRunKeepsInv(disk, states, events, answers, i);
    assert Next(disk, states[i], events[i], answers[i], states[i + 1]);
    assert StoreInv(states[i].stores[id], id, states[i].cache, states[i].grants);
    ReleaseAllLeavesNothing(states[i].stores[id].locks, events[i].node);
  }

  // ----- What a store holds

  /** What the changes say of a key: the data of the last that names it. */
  function LastSaid(changes: seq<Change>, app: Name, id: StoreId, k: Key): Option<Bound> {
    if changes == [] then None
    else
      var c := changes[|changes| - 1];
      if Touches(c, app, id, k) then Some(if c.data.None? then Null else At(c.data.value))
      else LastSaid(changes[..|changes| - 1], app, id, k)
  }

  /** What a store should hold under a key: what the last committed changeset to name the key
      said of it or, if none has, what is on disk. */
  ghost function ShouldHold(disk: Disk, states: seq<State>, events: seq<Event>, i: nat, id: StoreId, k: Key): Bound
    requires i <= |events| && |states| == |events| + 1
  {
    if i == 0 then OnDisk(disk, id, k)
    else
      var e := events[i - 1];
      if Commits(disk, states[i - 1].stores, e) && LastSaid(e.changes, e.app, id, k).Some? then LastSaid(e.changes, e.app, id, k).value
      else ShouldHold(disk, states, events, i - 1, id, k)
  }

  lemma {:induction false} AppliedIsLastSaid(s: Stores, app: Name, changes: seq<Change>, id: StoreId, k: Key)
    requires id in s
    ensures var s' := AllApplied(s, app, changes);
            id in s' && Lookup(s'[id].data, k) == if LastSaid(changes, app, id, k).Some? then LastSaid(changes, app, id, k).value else Lookup(s[id].data, k)
    decreases |changes|
  {
    if changes != [] {
      hide Lookup, Touches, Applied;
      var n := |changes| - 1;
      AppliedIsLastSaid(s, app, changes[..n], id, k);
      AppliedAt(AllApplied(s, app, changes[..n]), app, changes[n], id, k);
    }
  }

  /** Opening stores shows what is on disk, and changes nothing in those that are open. */
  lemma OpenedHolds(disk: Disk, s: Stores, app: Name, id: StoreId, k: Key)
    requires id in Opened(disk, s, app)
    ensures Lookup(Opened(disk, s, app)[id].data, k) == if id in s then Lookup(s[id].data, k) else OnDisk(disk, id, k)
  {
    if id !in s {
      OpenedIsOnDisk(disk, s, app, id);
    }
  }

  /** A message that commits nothing leaves every value as it is, and shows a store it opens as
      it is on disk. */
  lemma StepHolds(disk: Disk, s: Stores, e: Event, s': Stores, answer: Option<Reply>, id: StoreId, k: Key)
    requires ServerStep(disk, s, e, s', answer) && id in s'
    ensures var was := if id in s then Lookup(s[id].data, k) else OnDisk(disk, id, k);
            Lookup(s'[id].data, k) == if Commits(disk, s, e) && LastSaid(e.changes, e.app, id, k).Some? then LastSaid(e.changes, e.app, id, k).value else was
  {
    hide PointGrantable, PointGranted, RangeAnswer, RangeGranted, PointReleased, RangeReleased, AllReleased, IsNext, Lookup, OnDisk, LastSaid, AllPermitted, AllApplied;
    if !e.Disconnect? {
      var o := Opened(disk, s, e.app);
      hide Opened;
      if Commits(disk, s, e) {
        AppliedKeepsStores(o, e.app, e.changes);
        AppliedIsLastSaid(o, e.app, e.changes, id, k);
      }
      assert id in o;
      OpenedHolds(disk, s, e.app, id, k);
    }
  }

  /** In every run every open store holds, under every key, what the last committed changeset to
      name the key said of it, or what was on disk if none has. */
  lemma {:induction false} StoresHoldWhatTheyShould(disk: Disk, states: seq<State>, events: seq<Event>, answers: seq<Option<Reply>>, i: nat, id: StoreId, k: Key)
    requires Run(disk, states, events, answers) && i <= |events| && id in states[i].stores
    ensures Lookup(states[i].stores[id].data, k) == ShouldHold(disk, states, events, i, id, k)
  {
    hide Lookup, OnDisk, ServerStep, Commits, LastSaid;
    if i > 0 {
      assert Next(disk, states[i - 1], events[i - 1], answers[i - 1], states[i]);
      StepHolds(disk, states[i - 1].stores, events[i - 1], states[i].stores, answers[i - 1], id, k);
      if id in states[i - 1].stores {
        StoresHoldWhatTheyShould(disk, states, events, answers, i - 1, id, k);
      } else {
        NotOpenedNotChanged(disk, states, events, answers, i - 1, id, k);
      }
    }
  }

  /** A store that is not open yet has had no changeset committed to it. */
  lemma {:induction false} NotOpenedNotChanged(disk: Disk, states: seq<State>, events: seq<Event>, answers: seq<Option<Reply>>, i: nat, id: StoreId, k: Key)
    requires Run(disk, states, events, answers) && i <= |events| && id !in states[i].stores
    ensures ShouldHold(disk, states, events, i, id, k) == OnDisk(disk, id, k)
  {
    hide OnDisk, ServerStep;
    if i > 0 {
      assert Next(disk, states[i - 1], events[i - 1], answers[i - 1], states[i]);
      UnopenedStep(disk, states[i - 1].stores, events[i - 1], states[i].stores, answers[i - 1], id, k);
      NotOpenedNotChanged(disk, states, events, answers, i - 1, id, k);
    }
  }

  lemma UnopenedStep(disk: Disk, s: Stores, e: Event, s': Stores, answer: Option<Reply>, id: StoreId, k: Key)
    requires ServerStep(disk, s, e, s', answer) && id !in s'
    ensures id !in s && (e.SubmitChangeset? && Commits(disk, s, e) ==> LastSaid(e.changes, e.app, id, k).None?)
  {
    hide PointGrantable, PointGranted, RangeAnswer, RangeGranted, PointReleased, RangeReleased, AllReleased, IsNext, AllApplied, LastSaid, AllPermitted;
    if e.SubmitChangeset? && Commits(disk, s, e) {
      AppliedKeepsStores(Opened(disk, s, e.app), e.app, e.changes);
      assert id != StoreId(e.app, Oids) && id != StoreId(e.app, Names);
      assert id.name == Oids || id.name == Names;
      NothingSaidElsewhere(e.changes, e.app, id, k);
    }
  }

  lemma {:induction false} NothingSaidElsewhere(changes: seq<Change>, app: Name, id: StoreId, k: Key)
    requires id.app != app
    ensures LastSaid(changes, app, id, k).None?
    decreases |changes|
  {
    if changes != [] {
      StoreNames(app, changes[|changes| - 1].store);
      NothingSaidElsewhere(changes[..|changes| - 1], app, id, k);
    }
  }

  /** Phantom protection: a range granted when no other node was writing inside it stays free
      of other writers, and its upper end stays the store's next key, as long as the tree
      holds it for its owner and the owner has not itself committed a change inside. */
  lemma PhantomProtection(disk: Disk, states: seq<State>, events: seq<Event>, answers: seq<Option<Reply>>, i: nat,
                          id: StoreId, r: Interval)
    requires Run(disk, states, events, answers) && i < |states|
    requires id in states[i].stores && r in states[i].stores[id].locks.tree
    ensures (id, r) in states[i].grants
    ensures states[i].grants[(id, r)].clean ==>
              var st := states[i].stores[id];
              && !ForeignWriterInside(st.locks, st.locks.tree[r], r)
              && (!states[i].grants[(id, r)].touched ==> IsNext(st.data, r.lower, r.upper))
  {
    EveryRunKeepsInv(disk, states, events, answers, i);
    assert StoreInv(states[i].stores[id], id, states[i].cache, states[i].grants);
  }

  // ----- How long a range lasts

  /** What the message asks of a lock table. */
  function OpOf(e: Event): LockOp
    requires !e.SubmitChangeset?
  {
    match e
    case RequestValue(n, app, store, k, w) => LockPoint(n, k, w)
    case RequestNextKey(n, app, store, from, to, granted) => LockRange(n, Interval(from, to))
    case ReleaseKey(n, app, store, k) => ReleasePoint(n, k)
    case ReleaseKeyRange(n, app, store, r) => ReleaseRange(n, r)
    case Disconnect(n) => ReleaseAll(n)
  }

  predicate Addresses(e: Event, id: StoreId) {
    e.Disconnect? || (!e.SubmitChangeset? && Resolve(e.app, e.store) == Some(id))
  }

  /** Each store's lock table takes a step of its own, or none: no message reaches across stores. */
  lemma EachTableSteps(disk: Disk, s: Stores, e: Event, s': Stores, answer: Option<Reply>, id: StoreId)
    requires ServerStep(disk, s, e, s', answer) && id in s
    ensures id in s'
    ensures s'[id].locks != s[id].locks ==> !e.SubmitChangeset? && Addresses(e, id) && LockStep(s[id].locks, OpOf(e), s'[id].locks)
  {
    hide PointGrantable, RangeAnswer, IsNext, PointGranted, RangeGranted, PointReleased, RangeReleased, AllReleased, Lookup;
    if e.SubmitChangeset? && Commits(disk, s, e) {
      ChangesStayWithinLocks(Opened(disk, s, e.app), e.node, e.app, e.changes);
    }
  }

  ghost predicate NothingStaleAnywhere(s: Stores) {
    forall id :: id in s ==> NothingStale(s[id].locks)
  }

  /** The message is not a node being granted, again, a range it still has on its list. */
  ghost predicate TidyEvent(s: Stores, e: Event) {
    e.RequestNextKey? && e.granted ==>
      forall id :: id in s && Addresses(e, id) ==> (e.node, Interval(e.from, e.to)) !in s[id].locks.listed
  }

  /** The owner gives the range up. */
  predicate GivesUp(e: Event, n: NodeId, id: StoreId, r: Interval) {
    || e == Disconnect(n)
    || (e.ReleaseKeyRange? && e.node == n && e.range == r && Addresses(e, id))
  }

  lemma TidyEventStep(disk: Disk, c: State, e: Event, answer: Option<Reply>, c': State, id: StoreId)
    requires Inv(c) && NothingStaleAnywhere(c.stores) && Next(disk, c, e, answer, c') && TidyEvent(c.stores, e) && id in c.stores
    ensures id in c'.stores && NothingStale(c'.stores[id].locks)
    ensures forall r :: r in c.stores[id].locks.tree && !GivesUp(e, c.stores[id].locks.tree[r], id, r) ==>
              r in c'.stores[id].locks.tree && c'.stores[id].locks.tree[r] == c.stores[id].locks.tree[r]
  {
    hide NothingStale, RangeAnswer, PointGrantable, RangeReleased, AllReleased, PointReleased, PointGranted;
    EachTableSteps(disk, c.stores, e, c'.stores, answer, id);
    var locks, locks' := c.stores[id].locks, c'.stores[id].locks;
    if locks' != locks {
      assert StoreInv(c.stores[id], id, c.cache, c.grants);
      if e.RequestNextKey? {
        NextIsWellFormed(Opened(disk, c.stores, e.app)[id].data, e.from, e.to);
      }
      TidyStepKeepsLists(locks, OpOf(e), locks');
    }
  }

  ghost predicate TidyRun(states: seq<State>, events: seq<Event>)
    requires |states| == |events| + 1
  {
    forall i :: 0 <= i < |events| ==> TidyEvent(states[i].stores, events[i])
  }

  lemma {:induction false} TidyRunsHaveNothingStale(disk: Disk, states: seq<State>, events: seq<Event>, answers: seq<Option<Reply>>, i: nat)
    requires Run(disk, states, events, answers) && TidyRun(states, events) && i < |states|
    ensures NothingStaleAnywhere(states[i].stores)
  {
    if i > 0 {
      TidyRunsHaveNothingStale(disk, states, events, answers, i - 1);
      EveryRunKeepsInv(disk, states, events, answers, i - 1);
      var c, e, c' := states[i - 1], events[i - 1], states[i];
      forall id | id in c'.stores
        ensures NothingStale(c'.stores[id].locks)
      {
        if id in c.stores {
          TidyEventStep(disk, c, e, answers[i - 1], c', id);
        } else {
          FreshTableStep(disk, c, e, answers[i - 1], c', id);
        }
      }
    }
  }

  /** A table opened by the very message that uses it starts out empty. */
  lemma FreshTableStep(disk: Disk, c: State, e: Event, answer: Option<Reply>, c': State, id: StoreId)
    requires Next(disk, c, e, answer, c') && id !in c.stores && id in c'.stores
    ensures NothingStale(c'.stores[id].locks)
  {
    hide NothingStale, RangeAnswer, PointGrantable, RangeReleased, PointReleased, PointGranted, IsNext, CacheAfter, GrantsAfter, AllApplied, Lookup;
    var o := Opened(disk, c.stores, e.app);
    assert id in o && o[id].locks == UNLOCKED by {
      if Commits(disk, c.stores, e) {
        AppliedKeepsStores(o, e.app, e.changes);
      }
    }
    assert ServerStep(disk, o, e, c'.stores, answer);
    EachTableSteps(disk, o, e, c'.stores, answer, id);
    EmptyIsTidy();
    if c'.stores[id].locks != UNLOCKED {
      if e.RequestNextKey? {
        NextIsWellFormed(o[id].data, e.from, e.to);
      }
      TidyStepKeepsLists(UNLOCKED, OpOf(e), c'.stores[id].locks);
    }
  }

  lemma EmptyIsTidy()
    ensures NothingStale(UNLOCKED) && Sound(UNLOCKED)
  {
  }

  /** The owner commits a change inside the range. */
  ghost predicate ChangesInside(e: Event, n: NodeId, id: StoreId, r: Interval) {
    e.SubmitChangeset? && e.node == n && TouchedInside(e, id, r)
  }

  /** While a range stays with its owner, how it was granted stays on record. */
  lemma GrantIsKept(disk: Disk, c: State, e: Event, answer: Option<Reply>, c': State, id: StoreId, r: Interval)
    requires Inv(c) && Next(disk, c, e, answer, c') && TidyEvent(c.stores, e)
    requires id in c.stores && r in c.stores[id].locks.tree
    requires id in c'.stores && r in c'.stores[id].locks.tree && c'.stores[id].locks.tree[r] == c.stores[id].locks.tree[r]
    requires !ChangesInside(e, c.stores[id].locks.tree[r], id, r)
    ensures (id, r) in c.grants && (id, r) in c'.grants && c'.grants[(id, r)] == c.grants[(id, r)]
  {
    hide IsNext, RangeAnswer, PointGrantable, ForeignWriterInside, CoherentAt, Protected;
    assert StoreInv(c.stores[id], id, c.cache, c.grants);
    var n := c.stores[id].locks.tree[r];
    assert (n, r) in c.stores[id].locks.listed;
  }

  /**
   In a run where no node is granted twice a range it still lists: a range granted clean
   stays with its owner, free of other writers, and the next key its owner was told stays
   the store's next key, until the owner gives the range up or commits a change inside it.
   */
  lemma {:induction false} NextKeyStaysTrue(disk: Disk, states: seq<State>, events: seq<Event>, answers: seq<Option<Reply>>,
                                            i: nat, j: nat, id: StoreId, r: Interval, n: NodeId)
    requires Run(disk, states, events, answers) && TidyRun(states, events) && i <= j < |states|
    requires id in states[i].stores && r in states[i].stores[id].locks.tree && states[i].stores[id].locks.tree[r] == n
    requires (id, r) in states[i].grants && states[i].grants[(id, r)] == Grant(true, false)
    requires forall m :: i <= m < j ==> !GivesUp(events[m], n, id, r) && !ChangesInside(events[m], n, id, r)
    ensures id in states[j].stores && r in states[j].stores[id].locks.tree && states[j].stores[id].locks.tree[r] == n
    ensures (id, r) in states[j].grants && states[j].grants[(id, r)] == Grant(true, false)
    ensures !ForeignWriterInside(states[j].stores[id].locks, n, r) && IsNext(states[j].stores[id].data, r.lower, r.upper)
    decreases j
  {
    hide IsNext, ForeignWriterInside, Next, StoreInv, NothingStale;
    if i < j {
      NextKeyStaysTrue(disk, states, events, answers, i, j - 1, id, r, n);
      TidyRunsHaveNothingStale(disk, states, events, answers, j - 1);
      EveryRunKeepsInv(disk, states, events, answers, j - 1);
      TidyEventStep(disk, states[j - 1], events[j - 1], answers[j - 1], states[j], id);
      GrantIsKept(disk, states[j - 1], events[j - 1], answers[j - 1], states[j], id, r);
    }
    PhantomProtection(disk, states, events, answers, j, id, r);
  }
}
