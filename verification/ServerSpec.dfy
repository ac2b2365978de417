/**
 What the meta server's data server does to its stores, one client message at a time:
 the relation every data server method is proved to follow and every cluster run is
 made of. Each application has two lockable stores, opened together on first use.
 */
module ServerSpec {
  import opened Keys
  import opened LockSpec
  import opened Wrappers
  import Codec

  type Value = Bytes

  /** The name of an application or of one of its stores. */
  type Name = Bytes

  /** "oids" and "names" as bytes. */
  const OIDS: Name := [111, 105, 100, 115]
  const NAMES: Name := [110, 97, 109, 101, 115]

  datatype StoreName = Oids | Names

  /** An application's store. */
  datatype StoreId = StoreId(app: Name, name: StoreName)

  datatype Store = Store(locks: LockState, data: map<Key, Value>)

  type Stores = map<StoreId, Store>

  /** What durable storage holds for applications not opened yet. */
  type Disk = map<StoreId, map<Key, Value>>

  type Change = Codec.Change

  /** Whether the lock was granted and, if so, the value or the next key, if there is one. */
  datatype Reply = Reply(granted: bool, data: Bound)

  /** What of a reply goes into the response. A refusal comes with a time whose value the
      server leaves open. */
  function AnswerTo(r: Reply, timeout: Codec.Timeval): Codec.Answer {
    if !r.granted then Codec.Refused(timeout)
    else Codec.Granted(if r.data.Null? then None else Some(r.data.key))
  }

  datatype Event =
    | RequestValue(node: NodeId, app: Name, store: Name, key: Key, forWrite: bool)
    | RequestNextKey(node: NodeId, app: Name, store: Name, from: Bound, to: Bound, granted: bool)
    | SubmitChangeset(node: NodeId, app: Name, changes: seq<Change>, storageFails: bool)
    | ReleaseKey(node: NodeId, app: Name, store: Name, key: Key)
    | ReleaseKeyRange(node: NodeId, app: Name, store: Name, range: Interval)
    | Disconnect(node: NodeId)

  function Resolve(app: Name, store: Name): Option<StoreId> {
    if store == OIDS then Some(StoreId(app, Oids))
    else if store == NAMES then Some(StoreId(app, Names))
    else None
  }

  function Stored(disk: Disk, id: StoreId): map<Key, Value> {
    if id in disk then disk[id] else map[]
  }

  function OpenedOne(disk: Disk, s: Stores, id: StoreId): Stores {
    if id in s then s else s[id := Store(UNLOCKED, Stored(disk, id))]
  }

  /** The stores once the application's have been opened. */
  function Opened(disk: Disk, s: Stores, app: Name): (s': Stores)
    ensures StoreId(app, Oids) in s' && StoreId(app, Names) in s'
    ensures forall id :: id in s ==> id in s' && s'[id] == s[id]
  {
    OpenedOne(disk, OpenedOne(disk, s, StoreId(app, Oids)), StoreId(app, Names))
  }

  function Lookup(data: map<Key, Value>, k: Key): Bound {
    if k in data then At(data[k]) else Null
  }

  predicate Above(from: Bound, k: Key) {
    from.Null? || Less(from.key, k)
  }

  /** `to` is the first key of the store above `from`, or there is none. */
  ghost predicate IsNext(data: map<Key, Value>, from: Bound, to: Bound) {
    if to.Null? then forall k :: k in data ==> !Above(from, k)
    else to.key in data && Above(from, to.key) && forall k :: k in data && Above(from, k) ==> Compare(to.key, k) <= 0
  }

  /** The storage cursor: the first key above the given one. */
  method FirstAbove(data: map<Key, Value>, from: Bound) returns (to: Bound)
    ensures IsNext(data, from, to)
    ensures to.At? ==> to.key in data && (from.At? ==> Less(from.key, to.key))
    ensures forall k :: k in data && (from.At? ==> Less(from.key, k)) ==> to.At? && !Less(k, to.key)
  {
    var above := set k | k in data && Above(from, k);
    if above == {} {
      assert forall k :: k in data && Above(from, k) ==> k in above;
      return Null;
    }
    ghost var least := LeastExists(above);
    var k :| k in above && forall j :: j in above ==> Compare(k, j) <= 0;
    to := At(k);
    assert forall j :: j in above ==> !Less(j, k) by {
      forall j | j in above
        ensures !Less(j, k)
      {
        CompareFlip(j, k);
      }
    }
  }

  /** The change names a store and the node holds the write lock on its key there. */
  predicate Permitted(s: Stores, n: NodeId, app: Name, c: Change) {
    match Resolve(app, c.store)
    case None => false
    case Some(id) => id in s && HoldsWrite(s[id].locks, n, c.key)
  }

  predicate AllPermitted(s: Stores, n: NodeId, app: Name, changes: seq<Change>) {
    forall i :: 0 <= i < |changes| ==> Permitted(s, n, app, changes[i])
  }

  function Changed(data: map<Key, Value>, c: Change): map<Key, Value> {
    if c.data.None? then data - {c.key} else data[c.key := c.data.value]
  }

  function Applied(s: Stores, app: Name, c: Change): Stores {
    match Resolve(app, c.store)
    case None => s
    case Some(id) => if id in s then s[id := s[id].(data := Changed(s[id].data, c))] else s
  }

  /** The changes, in order. */
  function AllApplied(s: Stores, app: Name, changes: seq<Change>): Stores {
    if changes == [] then s
    else Applied(AllApplied(s, app, changes[..|changes| - 1]), app, changes[|changes| - 1])
  }

  function WithLocks(s: Stores, id: StoreId, locks: LockState): Stores
    requires id in s
  {
    s[id := s[id].(locks := locks)]
  }

  /** One message handled: the stores after it and the answer sent, if any. */
  ghost predicate ServerStep(disk: Disk, s: Stores, e: Event, s': Stores, answer: Option<Reply>) {
    match e
    case RequestValue(n, app, store, k, w) => ValueStep(Opened(disk, s, app), n, Resolve(app, store), k, w, s', answer)
    case RequestNextKey(n, app, store, from, to, granted) =>
      NextKeyStep(Opened(disk, s, app), n, Resolve(app, store), from, to, granted, s', answer)
    case SubmitChangeset(n, app, changes, storageFails) =>
      var o := Opened(disk, s, app);
      answer.None? && s' == if !storageFails && AllPermitted(o, n, app, changes) then AllApplied(o, app, changes) else o
    case ReleaseKey(n, app, store, k) =>
      var o := Opened(disk, s, app);
      answer.None? && s' == (match Resolve(app, store)
                             case None => o
                             case Some(id) => if id in o then WithLocks(o, id, PointReleased(o[id].locks, n, k)) else o)
    case ReleaseKeyRange(n, app, store, r) =>
      var o := Opened(disk, s, app);
      answer.None? && s' == (match Resolve(app, store)
                             case None => o
                             case Some(id) => if id in o then WithLocks(o, id, RangeReleased(o[id].locks, n, r)) else o)
    case Disconnect(n) =>
      answer.None? && s' == map id | id in s :: s[id].(locks := AllReleased(s[id].locks, n))
  }

  /** A value is sent exactly when the lock is granted, and it is the stored one. */
  ghost predicate ValueStep(s: Stores, n: NodeId, store: Option<StoreId>, k: Key, w: bool, s': Stores, answer: Option<Reply>) {
    if store.None? || store.value !in s then s' == s && answer == None
    else
      var id := store.value;
      if PointGrantable(s[id].locks, n, k, w) then
        s' == WithLocks(s, id, PointGranted(s[id].locks, n, k, w)) && answer == Some(Reply(true, Lookup(s[id].data, k)))
      else s' == s && answer == Some(Reply(false, Null))
  }

  /** The range asked for runs from the given key to the next one in the store. */
  ghost predicate NextKeyStep(s: Stores, n: NodeId, store: Option<StoreId>, from: Bound, to: Bound, granted: bool,
                              s': Stores, answer: Option<Reply>) {
    if store.None? || store.value !in s then s' == s && answer == None
    else
      var id, r := store.value, Interval(from, to);
      && IsNext(s[id].data, from, to)
      && RangeAnswer(s[id].locks, n, r, granted)
      && s' == (if granted then WithLocks(s, id, RangeGranted(s[id].locks, n, r)) else s)
      && answer == Some(Reply(granted, if granted then to else Null))
  }

  lemma NextIsWellFormed(data: map<Key, Value>, from: Bound, to: Bound)
    requires IsNext(data, from, to)
    ensures WellFormed(Interval(from, to))
  {
  }

  /** A store always has a next key or none, and the answer is unique. */
  lemma NextExists(data: map<Key, Value>, from: Bound) returns (to: Bound)
    ensures IsNext(data, from, to)
    ensures forall other :: IsNext(data, from, other) ==> other == to
  {
    var above := set k | k in data && Above(from, k);
    if above == {} {
      assert forall k :: k in data && Above(from, k) ==> k in above;
      to := Null;
    } else {
      var m := LeastExists(above);
      to := At(m);
      forall other | IsNext(data, from, other)
        ensures other == to
      {
        assert m in above;
        if other.At? {
          assert other.key in above;
          CompareFlip(m, other.key);
        }
      }
    }
  }

  // ----- What messages lead to

  /** What durable storage holds under a key. */
  function OnDisk(disk: Disk, id: StoreId, k: Key): Bound {
    if id in disk && k in disk[id] then At(disk[id][k]) else Null
  }

  lemma OpenedIsOnDisk(disk: Disk, s: Stores, app: Name, id: StoreId)
    requires id.app == app && id !in s
    ensures var o := Opened(disk, s, app);
            && id in o && o[id].locks == UNLOCKED
            && (forall k :: Lookup(o[id].data, k) == OnDisk(disk, id, k))
            && (forall k :: k in o[id].data <==> id in disk && k in disk[id])
  {
    assert id.name == Oids || id.name == Names;
  }

  /** The store, if it was not open, is now, with what is on disk. */
  ghost predicate ShowsDiskAt(disk: Disk, s: Stores, id: StoreId, s': Stores) {
    id !in s ==> id in s' && forall k :: Lookup(s'[id].data, k) == OnDisk(disk, id, k)
  }

  /** Both stores of the application do. */
  ghost predicate ShowsDisk(disk: Disk, s: Stores, app: Name, s': Stores) {
    ShowsDiskAt(disk, s, StoreId(app, Oids), s') && ShowsDiskAt(disk, s, StoreId(app, Names), s')
  }

  lemma OpenedShowsDisk(disk: Disk, s: Stores, app: Name)
    ensures ShowsDisk(disk, s, app, Opened(disk, s, app))
  {
    if StoreId(app, Oids) !in s {
      OpenedIsOnDisk(disk, s, app, StoreId(app, Oids));
    }
    if StoreId(app, Names) !in s {
      OpenedIsOnDisk(disk, s, app, StoreId(app, Names));
    }
  }

  /** The node holds nothing in any store. */
  ghost predicate HoldsNothingAnywhere(s: Stores, n: NodeId) {
    forall id :: id in s ==> HoldsNothing(s[id].locks, n)
  }

  /** The store names are the two there are, and those of one application differ. */
  lemma StoreNames(app: Name, store: Name)
    ensures |OIDS| == 4 && |NAMES| == 5
    ensures forall i :: 0 <= i < 4 ==> OIDS[i] as int == "oids"[i] as int
    ensures forall i :: 0 <= i < 5 ==> NAMES[i] as int == "names"[i] as int
    ensures Resolve(app, store).Some? <==> store == OIDS || store == NAMES
    ensures Resolve(app, store).Some? ==> Resolve(app, store).value.app == app
    ensures Resolve(app, OIDS) == Some(StoreId(app, Oids)) && Resolve(app, NAMES) == Some(StoreId(app, Names))
  {
    assert OIDS != NAMES;
  }

  /** The first request for a value an application's store gets is granted, and answered with
      what is on disk. */
  lemma FirstValueIsOnDisk(disk: Disk, s: Stores, n: NodeId, app: Name, store: Name, k: Key, w: bool, id: StoreId, s': Stores, answer: Option<Reply>)
    requires Resolve(app, store) == Some(id) && id !in s
    requires ServerStep(disk, s, RequestValue(n, app, store, k, w), s', answer)
    ensures answer == Some(Reply(true, OnDisk(disk, id, k)))
  {
    StoreNames(app, store);
    OpenedIsOnDisk(disk, s, app, id);
  }

  /** The first request for a next key is granted, and answered with the first key on disk above
      the one given. */
  lemma FirstNextKeyIsOnDisk(disk: Disk, s: Stores, n: NodeId, app: Name, store: Name, from: Bound, to: Bound, granted: bool, id: StoreId, s': Stores, answer: Option<Reply>)
    requires Resolve(app, store) == Some(id) && id !in s && id in disk
    requires ServerStep(disk, s, RequestNextKey(n, app, store, from, to, granted), s', answer)
    ensures answer == Some(Reply(true, to)) && IsNext(disk[id], from, to)
  {
    StoreNames(app, store);
    OpenedIsOnDisk(disk, s, app, id);
    var locks := Opened(disk, s, app)[id].locks;
    assert !ForeignOverlap(locks, n, Interval(from, to));
    assert forall k :: !ForeignWriter(locks, n, k);
  }

  /** A node that locks a key nobody else holds, and releases it, leaves it to any reader. */
  lemma AloneThenFree(l: LockState, n: NodeId, m: NodeId, k: Key)
    requires !ForeignHolder(l, n, k)
    ensures var l' := PointGranted(l, n, k, true); HoldsWrite(l', n, k) && PointGrantable(PointReleased(l', n, k), m, k, false)
  {
    var l' := PointGranted(l, n, k, true);
    var l'' := PointReleased(l', n, k);
    forall x
      ensures !HoldsWrite(l'', x, k)
    {
      assert HoldsWrite(l'', x, k) ==> x != n && Holds(l, x, k);
    }
  }

  lemma OneChangeCommitted(disk: Disk, s: Stores, n: NodeId, app: Name, c: Change, id: StoreId, s': Stores)
    requires Opened(disk, s, app) == s && Resolve(app, c.store) == Some(id) && id in s && HoldsWrite(s[id].locks, n, c.key)
    requires ServerStep(disk, s, SubmitChangeset(n, app, [c], false), s', None)
    ensures s' == s[id := s[id].(data := Changed(s[id].data, c))]
  {
    hide Opened, HoldsWrite;
    assert Permitted(s, n, app, c);
    assert [c][..0] == [] && AllApplied(s, app, []) == s && AllApplied(s, app, [c]) == Applied(s, app, c);
  }

  /** What a node writes another reads: the key is locked for writing, changed or deleted,
      released, and then asked for by any node. */
  lemma WrittenIsRead(disk: Disk, s: Stores, n: NodeId, m: NodeId, app: Name, store: Name, k: Key, data: Option<Value>, id: StoreId,
                      s1: Stores, s2: Stores, s3: Stores, s4: Stores, a1: Option<Reply>, a4: Option<Reply>)
    requires Resolve(app, store) == Some(id)
    requires var o := Opened(disk, s, app); id in o && !ForeignHolder(o[id].locks, n, k) && !ForeignCover(o[id].locks, n, k)
    requires ServerStep(disk, s, RequestValue(n, app, store, k, true), s1, a1)
    requires ServerStep(disk, s1, SubmitChangeset(n, app, [Codec.Change(store, k, data)], false), s2, None)
    requires ServerStep(disk, s2, ReleaseKey(n, app, store, k), s3, None)
    requires ServerStep(disk, s3, RequestValue(m, app, store, k, false), s4, a4)
    ensures a1.Some? && a1.value.granted
    ensures a4 == Some(Reply(true, if data.None? then Null else At(data.value)))
  {
    var o, c := Opened(disk, s, app), Codec.Change(store, k, data);
    assert PointGrantable(o[id].locks, n, k, true);
    AloneThenFree(o[id].locks, n, m, k);
    hide Opened, PointGranted, PointReleased, PointGrantable, HoldsWrite, ForeignHolder, ForeignCover, AllPermitted, AllApplied, Resolve;
    assert s1 == WithLocks(o, id, PointGranted(o[id].locks, n, k, true));
    AllOpen(disk, s, app, s1);
    OneChangeCommitted(disk, s1, n, app, c, id, s2);
    AllOpen(disk, s, app, s2);
    assert s3 == WithLocks(s2, id, PointReleased(s1[id].locks, n, k));
    AllOpen(disk, s, app, s3);
  }

  /** Opening an application again changes nothing. */
  lemma AllOpen(disk: Disk, s: Stores, app: Name, s': Stores)
    requires forall id :: id in Opened(disk, s, app) ==> id in s'
    ensures Opened(disk, s', app) == s'
  {
    assert StoreId(app, Oids) in Opened(disk, s, app) && StoreId(app, Names) in Opened(disk, s, app);
  }

  // ----- Changesets

  /** Every lock is as it was, and every key the node has not write-locked. */
  ghost predicate WithinLocks(s: Stores, n: NodeId, s': Stores) {
    && s'.Keys == s.Keys
    && (forall id :: id in s ==> s'[id].locks == s[id].locks)
    && (forall id, k :: id in s && !HoldsWrite(s[id].locks, n, k) ==> Lookup(s'[id].data, k) == Lookup(s[id].data, k))
  }

  lemma ChangeStaysWithinLocks(s: Stores, n: NodeId, app: Name, c: Change, s': Stores)
    requires Permitted(s, n, app, c) && WithinLocks(s, n, s')
    ensures WithinLocks(s, n, Applied(s', app, c))
  {
    hide HoldsWrite;
  }

  /** Applying permitted changes leaves every lock alone and every key the node has not
      write-locked. */
  lemma {:induction false} ChangesStayWithinLocks(s: Stores, n: NodeId, app: Name, changes: seq<Change>)
    requires AllPermitted(s, n, app, changes)
    ensures WithinLocks(s, n, AllApplied(s, app, changes))
    decreases |changes|
  {
    if changes != [] {
      var last := |changes| - 1;
      var before := changes[..last];
      assert forall i :: 0 <= i < last ==> before[i] == changes[i];
      hide WithinLocks, Permitted, Applied;
      ChangesStayWithinLocks(s, n, app, before);
      assert Permitted(s, n, app, changes[last]);
      ChangeStaysWithinLocks(s, n, app, changes[last], AllApplied(s, app, before));
    }
  }

  predicate Touches(c: Change, app: Name, id: StoreId, k: Key) {
    Resolve(app, c.store) == Some(id) && c.key == k
  }

  lemma AppliedAt(s: Stores, app: Name, c: Change, id: StoreId, k: Key)
    requires id in s
    ensures Applied(s, app, c).Keys == s.Keys
    ensures Lookup(Applied(s, app, c)[id].data, k)
         == if Touches(c, app, id, k) then (if c.data.None? then Null else At(c.data.value)) else Lookup(s[id].data, k)
  {
  }

  lemma {:induction false} UntouchedKeysKept(s: Stores, app: Name, changes: seq<Change>, id: StoreId, k: Key)
    requires id in s && forall j :: 0 <= j < |changes| ==> !Touches(changes[j], app, id, k)
    ensures AllApplied(s, app, changes).Keys == s.Keys
    ensures Lookup(AllApplied(s, app, changes)[id].data, k) == Lookup(s[id].data, k)
    decreases |changes|
  {
    hide Lookup, Applied, Touches;
    if changes != [] {
      var last := |changes| - 1;
      UntouchedKeysKept(s, app, changes[..last], id, k);
      AppliedAt(AllApplied(s, app, changes[..last]), app, changes[last], id, k);
    }
  }

  lemma {:induction false} AppliedKeepsStores(s: Stores, app: Name, changes: seq<Change>)
    ensures AllApplied(s, app, changes).Keys == s.Keys
    decreases |changes|
  {
    if changes != [] {
      AppliedKeepsStores(s, app, changes[..|changes| - 1]);
    }
  }

  /** The last change to a key decides its value. */
  lemma {:induction false} LastChangeWins(s: Stores, app: Name, changes: seq<Change>, id: StoreId, k: Key, i: nat)
    requires id in s && i < |changes| && Touches(changes[i], app, id, k)
    requires forall j :: i < j < |changes| ==> !Touches(changes[j], app, id, k)
    ensures AllApplied(s, app, changes).Keys == s.Keys
    ensures Lookup(AllApplied(s, app, changes)[id].data, k) == if changes[i].data.None? then Null else At(changes[i].data.value)
    decreases |changes|
  {
    hide Lookup, Applied, Touches;
    var last := |changes| - 1;
    AppliedKeepsStores(s, app, changes[..last]);
    AppliedAt(AllApplied(s, app, changes[..last]), app, changes[last], id, k);
    if i < last {
      LastChangeWins(s, app, changes[..last], id, k, i);
    }
  }
}
