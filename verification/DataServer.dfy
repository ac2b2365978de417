/**
 The data server of the meta server: an application's stores, each with its lock table,
 and the handlers for the messages a node can send. Every handler is a step of
 `ServerSpec`, so every property of cluster runs is a property of this server.
 */
module DataServers {
  import opened Keys
  import opened LockSpec
  import opened LockTables
  import opened ServerSpec
  import opened Wrappers

  /** A store and the locks on its keys. */
  datatype LockableStore = LockableStore(data: map<Key, Value>, locks: LockTable)

  /** What the server's stores are, and whose each lock table is. */
  datatype Model = Model(stores: Stores, owners: map<LockTable, StoreId>, parts: set<object>)

  ghost predicate Means(l: LockableStore, st: Store)
    reads l.locks, l.locks.held
  {
    l.locks.Valid() && st == Store(l.locks.View(), l.data)
  }

  /** The store's table is its alone, lies with its locks inside the server's parts, and
      store and table mean what the model says. */
  ghost predicate Shown(l: LockableStore, id: StoreId, m: Model)
    reads m.parts
  {
    && id in m.stores
    && l.locks in m.parts && (forall k :: k in l.locks.held ==> k in m.parts)
    && l.locks in m.owners && m.owners[l.locks] == id
    && Means(l, m.stores[id])
  }

  ghost predicate AllShown(lockable: map<StoreId, LockableStore>, m: Model)
    reads m.parts
  {
    && (forall id :: id in lockable <==> id in m.stores)
    && (forall id :: id in lockable ==> Shown(lockable[id], id, m))
  }

  method NewStore(data: map<Key, Value>) returns (l: LockableStore)
    ensures fresh(l.locks) && l.locks.held == {} && l.data == data && Means(l, Store(UNLOCKED, data))
  {
    var t := new LockTable();
    l := LockableStore(data, t);
  }

  lemma StoreAdded(lockable: map<StoreId, LockableStore>, m: Model, id: StoreId, l: LockableStore, st: Store)
    requires AllShown(lockable, m) && id !in lockable
    requires l.locks !in m.parts && l.locks.held == {} && Means(l, st)
    ensures AllShown(lockable[id := l], Model(m.stores[id := st], m.owners[l.locks := id], m.parts + {l.locks}))
  {
    hide Means;
    var m' := Model(m.stores[id := st], m.owners[l.locks := id], m.parts + {l.locks});
    forall j | j in lockable
      ensures Shown(lockable[j], j, m')
    {
      assert Shown(lockable[j], j, m);
    }
  }

  /** No other store's table or locks are touched by what is done to one table. */
  lemma Apart(lockable: map<StoreId, LockableStore>, m: Model, id: StoreId, j: StoreId)
    requires AllShown(lockable, m) && id in lockable && j in lockable && j != id
    ensures lockable[j].locks != lockable[id].locks
    ensures forall k :: k in lockable[j].locks.held ==> k !in lockable[id].locks.held
  {
    assert Shown(lockable[id], id, m) && Shown(lockable[j], j, m);
  }

  /** One store's locks changed; every other store is as it was. */
  lemma OneChanged(lockable: map<StoreId, LockableStore>, m: Model, id: StoreId, st: Store)
    requires (forall j :: j in lockable <==> j in m.stores) && id in lockable
    requires forall j :: j in lockable && j != id ==> Shown(lockable[j], j, m)
    requires lockable[id].locks in m.parts && lockable[id].locks in m.owners && m.owners[lockable[id].locks] == id
    requires Means(lockable[id], st)
    ensures AllShown(lockable, Relocked(m, id, st, lockable[id].locks.held))
  {
    hide Means;
    var m' := Relocked(m, id, st, lockable[id].locks.held);
    forall j | j in lockable
      ensures Shown(lockable[j], j, m')
    {
      assert j != id ==> Shown(lockable[j], j, m);
    }
  }

  ghost function Relocked(m: Model, id: StoreId, st: Store, held: set<Lock>): Model {
    Model(m.stores[id := st], m.owners, m.parts + held)
  }

  /** The answer to a lock operation and the lock state after it. */
  ghost predicate Outcome(s: LockState, op: LockOp, granted: bool, s': LockState) {
    match op
    case LockPoint(n, k, w) => (granted <==> PointGrantable(s, n, k, w)) && s' == if granted then PointGranted(s, n, k, w) else s
    case LockRange(n, r) => RangeAnswer(s, n, r, granted) && s' == if granted then RangeGranted(s, n, r) else s
    case ReleasePoint(n, k) => s' == PointReleased(s, n, k)
    case ReleaseRange(n, r) => s' == RangeReleased(s, n, r)
    case ReleaseAll(n) => s' == AllReleased(s, n)
  }

  /** Hands the operation to the lock table. */
  method Operate(l: LockableStore, ghost st: Store, op: LockOp, now: int, overlooked: set<Interval>, probe: nat)
    returns (granted: bool, ghost st': Store)
    requires Means(l, st) && (op.LockRange? ==> WellFormed(op.range))
    modifies l.locks, l.locks.held
    ensures Outcome(st.locks, op, granted, st'.locks) && st'.data == st.data
    ensures Means(l, st') && fresh(l.locks.held - old(l.locks.held))
  {
    hide PointGrantable, PointGranted, RangeAnswer, RangeGranted, PointReleased, RangeReleased, AllReleased;
    granted := true;
    var conflict;
    match op {
      case LockPoint(n, k, w) => granted, conflict := l.locks.CheckAndSet(n, k, w, now);
      case LockRange(n, r) => granted, conflict := l.locks.RangeCheckAndSet(n, r, now, overlooked, probe);
      case ReleasePoint(n, k) => l.locks.Release(n, k);
      case ReleaseRange(n, r) => l.locks.ReleaseRange(n, r);
      case ReleaseAll(n) => l.locks.ReleaseAll(n);
    }
    st' := Store(l.locks.View(), l.data);
  }

  /** The storage transaction's own copy of the stores: locks as they are, data as given. */
  ghost predicate Transacted(lockable: map<StoreId, LockableStore>, work: map<StoreId, LockableStore>, s: Stores) {
    && (forall id :: id in lockable <==> id in work)
    && (forall id :: id in lockable <==> id in s)
    && (forall id :: id in lockable ==> work[id].locks == lockable[id].locks && work[id].data == s[id].data)
  }

  function Written(work: map<StoreId, LockableStore>, app: Name, c: Change): map<StoreId, LockableStore> {
    match Resolve(app, c.store)
    case None => work
    case Some(id) => if id in work then work[id := work[id].(data := Changed(work[id].data, c))] else work
  }

  lemma WriteTransacted(lockable: map<StoreId, LockableStore>, work: map<StoreId, LockableStore>, s: Stores, app: Name, c: Change)
    requires Transacted(lockable, work, s)
    ensures Transacted(lockable, Written(work, app, c), Applied(s, app, c))
  {
  }

  lemma LastApplied(s: Stores, app: Name, changes: seq<Change>, i: nat)
    requires i < |changes|
    ensures AllApplied(s, app, changes[..i + 1]) == Applied(AllApplied(s, app, changes[..i]), app, changes[i])
  {
    assert changes[..i + 1][..i] == changes[..i];
  }

  lemma NothingApplied(lockable: map<StoreId, LockableStore>, m: Model)
    requires AllShown(lockable, m)
    ensures Transacted(lockable, lockable, m.stores)
  {
    forall id | id in lockable
      ensures lockable[id].data == m.stores[id].data
    {
      assert Shown(lockable[id], id, m);
    }
  }

  lemma Committed(lockable: map<StoreId, LockableStore>, work: map<StoreId, LockableStore>, m: Model, s: Stores)
    requires AllShown(lockable, m) && Transacted(lockable, work, s)
    requires forall id :: id in m.stores ==> id in s && s[id].locks == m.stores[id].locks
    ensures AllShown(work, m.(stores := s))
  {
    forall id | id in work
      ensures Shown(work[id], id, m.(stores := s))
    {
      assert Shown(lockable[id], id, m);
    }
  }

  /** The node's locks are gone from every store but those still to do. */
  ghost predicate PartlyReleased(s: Stores, s': Stores, node: NodeId, todo: set<StoreId>) {
    && (forall id :: id in s <==> id in s')
    && (forall id :: id in s ==> s'[id] == if id in todo then s[id] else s[id].(locks := AllReleased(s[id].locks, node)))
  }

  lemma NoneReleased(s: Stores, node: NodeId, todo: set<StoreId>)
    requires forall id :: id in s ==> id in todo
    ensures PartlyReleased(s, s, node, todo)
  {
  }

  lemma OneReleased(s: Stores, s': Stores, node: NodeId, todo: set<StoreId>, id: StoreId)
    requires PartlyReleased(s, s', node, todo) && id in todo && id in s'
    ensures PartlyReleased(s, WithLocks(s', id, AllReleased(s'[id].locks, node)), node, todo - {id})
  {
    hide AllReleased;
  }

  lemma EveryReleased(s: Stores, s': Stores, node: NodeId)
    requires PartlyReleased(s, s', node, {})
    ensures s' == map id | id in s :: s[id].(locks := AllReleased(s[id].locks, node))
  {
    hide AllReleased;
  }

  class DataServer {
    const disk: Disk
    var lockable: map<StoreId, LockableStore>
    ghost var m: Model

    ghost predicate Valid()
      reads this, m.parts
    {
      && this !in m.parts
      && AllShown(lockable, m)
      && (forall app :: StoreId(app, Oids) in lockable <==> StoreId(app, Names) in lockable)
    }

    constructor (disk: Disk)
      ensures Valid() && m.stores == map[] && this.disk == disk && m.parts == {}
    {
      this.disk := disk;
      lockable := map[];
      m := Model(map[], map[], {});
    }

    /** Opens one store with an empty lock table. */
    method Open(id: StoreId)
      requires this !in m.parts && AllShown(lockable, m) && id !in lockable
      modifies this
      ensures this !in m.parts && AllShown(lockable, m)
      ensures m.stores == OpenedOne(disk, old(m.stores), id)
      ensures fresh(m.parts - old(m.parts))
    {
      hide Means, Shown, Stored;
      var l := NewStore(Stored(disk, id));
      StoreAdded(lockable, m, id, l, Store(UNLOCKED, Stored(disk, id)));
      lockable := lockable[id := l];
      m := Model(m.stores[id := Store(UNLOCKED, Stored(disk, id))], m.owners[l.locks := id], m.parts + {l.locks});
    }

    /** `ensure_open_application_store`. */
    method EnsureOpen(app: Name)
      requires Valid()
      modifies this
      ensures Valid() && m.stores == Opened(disk, old(m.stores), app)
      ensures ShowsDisk(disk, old(m.stores), app, m.stores)
      ensures fresh(m.parts - old(m.parts))
    {
      OpenedShowsDisk(disk, m.stores, app);
      hide Shown, ShowsDisk;
      if StoreId(app, Oids) !in lockable {
        Open(StoreId(app, Oids));
        Open(StoreId(app, Names));
      }
    }

    /** Every store but one is shown, and that one's table is where it belongs. */
    ghost predicate ShownBut(id: StoreId)
      reads this, m.parts
    {
      && this !in m.parts
      && (forall j :: j in lockable <==> j in m.stores) && id in lockable
      && (forall j :: j in lockable && j != id ==> Shown(lockable[j], j, m))
      && lockable[id].locks in m.parts && lockable[id].locks in m.owners && m.owners[lockable[id].locks] == id
      && (forall app :: StoreId(app, Oids) in lockable <==> StoreId(app, Names) in lockable)
    }

    method OperateAt(id: StoreId, op: LockOp, now: int, overlooked: set<Interval>, probe: nat)
      returns (granted: bool, ghost st: Store)
      requires Valid() && id in lockable && (op.LockRange? ==> WellFormed(op.range))
      modifies m.parts
      ensures id in m.stores && Outcome(m.stores[id].locks, op, granted, st.locks) && st.data == m.stores[id].data
      ensures ShownBut(id) && Means(lockable[id], st) && fresh(lockable[id].locks.held - m.parts)
    {
      hide Outcome, Means, WellFormed;
      assert Shown(lockable[id], id, m);
      forall j | j in lockable && j != id
        ensures lockable[j].locks != lockable[id].locks && forall k :: k in lockable[j].locks.held ==> k !in lockable[id].locks.held
      {
        Apart(lockable, m, id, j);
      }
      granted, st := Operate(lockable[id], m.stores[id], op, now, overlooked, probe);
    }

    /** A lock operation on one store. */
    method OperateOn(id: StoreId, op: LockOp, now: int, overlooked: set<Interval>, probe: nat)
      returns (granted: bool, ghost locks: LockState)
      requires Valid() && id in lockable && (op.LockRange? ==> WellFormed(op.range))
      modifies this`m, m.parts
      ensures Valid() && fresh(m.parts - old(m.parts))
      ensures id in old(m.stores) && Outcome(old(m.stores)[id].locks, op, granted, locks)
      ensures m.stores == WithLocks(old(m.stores), id, locks)
    {
      hide Outcome, Means, WellFormed, Shown;
      ghost var st;
      granted, st := OperateAt(id, op, now, overlooked, probe);
      locks := st.locks;
      OneChanged(lockable, m, id, st);
      m := Relocked(m, id, st, lockable[id].locks.held);
    }

    /** `gzochi_metad_dataserver_request_value`. */
    method RequestValue(node: NodeId, app: Name, store: Name, key: Key, forWrite: bool, now: int)
      returns (answer: Option<Reply>)
      requires Valid()
      modifies this, m.parts
      ensures Valid() && fresh(m.parts - old(m.parts))
      ensures ServerStep(disk, old(m.stores), Event.RequestValue(node, app, store, key, forWrite), m.stores, answer)
    {
      hide AllShown, PointGrantable, PointGranted, Opened;
      EnsureOpen(app);
      var id := Resolve(app, store);
      if id.None? {
        return None;
      }
      StoresAreOpen(id.value);
      ghost var s := m.stores;
      var granted, locks := OperateOn(id.value, LockPoint(node, key, forWrite), now, {}, 0);
      if granted {
        DataIsShown(id.value);
        answer := Some(Reply(true, Lookup(lockable[id.value].data, key)));
      } else {
        assert m.stores == s;
        answer := Some(Reply(false, Null));
      }
    }

    /** The stores of an application that has been opened can be looked up. */
    lemma StoresAreOpen(id: StoreId)
      requires Valid() && id in m.stores
      ensures id in lockable
    {
    }

    lemma DataIsShown(id: StoreId)
      requires Valid() && id in lockable
      ensures id in m.stores && m.stores[id].data == lockable[id].data
    {
      assert Shown(lockable[id], id, m);
    }

    /** `gzochi_metad_dataserver_request_next_key`. The answer's bound and grant are given back
        for the event; `overlooked` and `probe` are as in the lock table. */
    method RequestNextKey(node: NodeId, app: Name, store: Name, from: Bound, now: int, overlooked: set<Interval>, probe: nat)
      returns (answer: Option<Reply>, to: Bound, granted: bool)
      requires Valid()
      modifies this, m.parts
      ensures Valid() && fresh(m.parts - old(m.parts))
      ensures ServerStep(disk, old(m.stores), Event.RequestNextKey(node, app, store, from, to, granted), m.stores, answer)
    {
      hide AllShown, RangeAnswer, RangeGranted, Opened, IsNext, WellFormed;
      EnsureOpen(app);
      to, granted := Null, false;
      var id := Resolve(app, store);
      if id.None? {
        return None, Null, false;
      }
      StoresAreOpen(id.value);
      DataIsShown(id.value);
      to := FirstAbove(lockable[id.value].data, from);
      NextIsWellFormed(lockable[id.value].data, from, to);
      ghost var s := m.stores;
      ghost var locks;
      granted, locks := OperateOn(id.value, LockRange(node, Interval(from, to)), now, overlooked, probe);
      assert !granted ==> m.stores == s;
      answer := Some(Reply(granted, if granted then to else Null));
    }

    /** `gzochi_metad_dataserver_release_key`. */
    method ReleaseKey(node: NodeId, app: Name, store: Name, key: Key)
      requires Valid()
      modifies this, m.parts
      ensures Valid() && fresh(m.parts - old(m.parts))
      ensures ServerStep(disk, old(m.stores), Event.ReleaseKey(node, app, store, key), m.stores, None)
    {
      hide AllShown, PointReleased, Opened;
      EnsureOpen(app);
      var id := Resolve(app, store);
      if id.Some? {
        StoresAreOpen(id.value);
        var _, locks := OperateOn(id.value, ReleasePoint(node, key), 0, {}, 0);
      }
    }

    /** `gzochi_metad_dataserver_release_range`. */
    method ReleaseKeyRange(node: NodeId, app: Name, store: Name, range: Interval)
      requires Valid()
      modifies this, m.parts
      ensures Valid() && fresh(m.parts - old(m.parts))
      ensures ServerStep(disk, old(m.stores), Event.ReleaseKeyRange(node, app, store, range), m.stores, None)
    {
      hide AllShown, RangeReleased, Opened;
      EnsureOpen(app);
      var id := Resolve(app, store);
      if id.Some? {
        StoresAreOpen(id.value);
        var _, locks := OperateOn(id.value, ReleaseRange(node, range), 0, {}, 0);
      }
    }

    /** Once all a node's locks are released in a store, it holds nothing there. */
    lemma NothingLeft(node: NodeId)
      requires Valid()
      ensures HoldsNothingAnywhere(map id | id in m.stores :: m.stores[id].(locks := AllReleased(m.stores[id].locks, node)), node)
    {
      forall id | id in m.stores
        ensures HoldsNothing(AllReleased(m.stores[id].locks, node), node)
      {
        assert Shown(lockable[id], id, m);
        lockable[id].locks.ViewIsSound();
        ReleaseAllLeavesNothing(m.stores[id].locks, node);
      }
    }

    /** `gzochi_metad_dataserver_release_all`, called when the node's connection is lost. */
    method Disconnect(node: NodeId)
      requires Valid()
      modifies this`m, m.parts
      ensures Valid() && fresh(m.parts - old(m.parts))
      ensures ServerStep(disk, old(m.stores), Event.Disconnect(node), m.stores, None)
      ensures HoldsNothingAnywhere(m.stores, node)
    {
      NothingLeft(node);
      hide AllShown, AllReleased, HoldsNothingAnywhere;
      ReleaseEverywhere(node);
    }

    /** Releases the node's locks store by store. */
    method ReleaseEverywhere(node: NodeId)
      requires Valid()
      modifies this`m, m.parts
      ensures Valid() && fresh(m.parts - old(m.parts))
      ensures m.stores == map id | id in old(m.stores) :: old(m.stores)[id].(locks := AllReleased(old(m.stores)[id].locks, node))
    {
      hide AllShown, AllReleased, PartlyReleased;
      StoresMatch();
      var todo := lockable.Keys;
      NoneReleased(m.stores, node, todo);
      while todo != {}
        invariant Valid() && fresh(m.parts - old(m.parts))
        invariant todo <= lockable.Keys
        invariant PartlyReleased(old(m.stores), m.stores, node, todo)
        decreases |todo|
      {
        var id :| id in todo;
        StoresMatch();
        OneReleased(old(m.stores), m.stores, node, todo, id);
        var _, locks := OperateOn(id, ReleaseAll(node), 0, {}, 0);
        todo := todo - {id};
      }
      EveryReleased(old(m.stores), m.stores, node);
    }

    lemma StoresMatch()
      requires Valid()
      ensures forall id :: id in lockable <==> id in m.stores
    {
    }

    /** The changeset names one of the application's stores, and the node may write the key there. */
    method MayChange(node: NodeId, app: Name, c: Change) returns (ok: bool)
      requires Valid()
      ensures ok <==> Permitted(m.stores, node, app, c)
    {
      var id := Resolve(app, c.store);
      if id.None? || id.value !in lockable {
        return false;
      }
      assert Shown(lockable[id.value], id.value, m);
      ok := lockable[id.value].locks.Check(node, c.key, true);
    }

    /** The changeset loop: leaves off at the first change it may not make or cannot write. */
    method MakeChanges(node: NodeId, app: Name, changes: seq<Change>, faultAt: nat)
      returns (ok: bool, work: map<StoreId, LockableStore>)
      requires Valid()
      ensures ok <==> AllPermitted(m.stores, node, app, changes) && faultAt >= |changes|
      ensures ok ==> Transacted(lockable, work, AllApplied(m.stores, app, changes))
    {
      hide AllShown, Permitted, Applied, Transacted;
      work := lockable;
      NothingApplied(lockable, m);
      assert changes[..0] == [] && AllApplied(m.stores, app, []) == m.stores;
      var i := 0;
      while i < |changes|
        invariant 0 <= i <= |changes| && i <= faultAt
        invariant Transacted(lockable, work, AllApplied(m.stores, app, changes[..i]))
        invariant forall j :: 0 <= j < i ==> Permitted(m.stores, node, app, changes[j])
      {
        ok := MayChange(node, app, changes[i]);
        if !ok || i == faultAt {
          return false, work;
        }
        LastApplied(m.stores, app, changes, i);
        WriteTransacted(lockable, work, AllApplied(m.stores, app, changes[..i]), app, changes[i]);
        work := Written(work, app, changes[i]);
        i := i + 1;
      }
      assert changes[..i] == changes;
      ok := true;
    }

    method Commit(work: map<StoreId, LockableStore>, ghost s: Stores)
      requires Valid() && Transacted(lockable, work, s)
      requires forall id :: id in m.stores ==> id in s && s[id].locks == m.stores[id].locks
      modifies this
      ensures Valid() && m.stores == s && m.parts == old(m.parts)
    {
      hide AllShown;
      Committed(lockable, work, m, s);
      assert forall id :: id in lockable <==> id in work;
      lockable := work;
      m := m.(stores := s);
    }

    /** `gzochi_metad_dataserver_process_changeset`. `faultAt` is the change whose storage write
        fails, `prepareFails` whether storage refuses the transaction in the end. */
    method ProcessChangeset(node: NodeId, app: Name, changes: seq<Change>, faultAt: nat, prepareFails: bool)
      returns (committed: bool)
      requires Valid()
      modifies this
      ensures Valid() && fresh(m.parts - old(m.parts))
      ensures committed <==> AllPermitted(Opened(disk, old(m.stores), app), node, app, changes) && faultAt >= |changes| && !prepareFails
      ensures ServerStep(disk, old(m.stores), SubmitChangeset(node, app, changes, faultAt < |changes| || prepareFails), m.stores, None)
    {
      hide AllShown, Opened, AllPermitted, AllApplied, Transacted;
      EnsureOpen(app);
      ghost var s := m.stores;
      var ok, work := MakeChanges(node, app, changes, faultAt);
      if !ok || prepareFails {
        return false;
      }
      ChangesStayWithinLocks(s, node, app, changes);
      Commit(work, AllApplied(s, app, changes));
      committed := true;
    }
  }
}
