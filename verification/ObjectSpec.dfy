/**
 The transactional object layer as a state machine: a table of references, one per
 object id, in front of a key-value store that is written only when the transaction is
 prepared. Beside it stands the machine it must be indistinguishable from, which keeps
 no reference states and writes every change through at once.
 */
module ObjectSpec {
  import opened Keys
  import opened Wrappers

  type Ptr = nat

  const NULL: Ptr := 0

  /** `gzochid_io_serialization`: how objects of one type become bytes; either way may fail. */
  datatype Codec<!C> = Codec(serialize: C -> Option<Bytes>, deserialize: Bytes -> Option<C>)

  datatype State = Empty | New | Modified | NotModified | RemovedEmpty | RemovedFetched

  datatype Ref<!C> = Ref(codec: Codec<C>, state: State, obj: Ptr)

  predicate Dirty(state: State) {
    state.New? || state.Modified?
  }

  /** Without an object, a reference can only be one of these. */
  predicate Absent(state: State) {
    state.Empty? || state.RemovedEmpty?
  }

  predicate Gone(state: State) {
    state.RemovedEmpty? || state.RemovedFetched?
  }

  /** What the layer asks of the storage transaction. */
  datatype Call =
    | Get(oid: Oid)
    | GetForUpdate(oid: Oid, granted: bool)
    | Delete(oid: Oid)
    | Put(oid: Oid)

  /** One transaction: its references, the application's memory, the store it started from
      and the store as it sees it, whether storage has rolled it back, whether the whole
      transaction may no longer commit, and the storage calls made so far. */
  datatype Session<!C> = Session(
    refs: map<Oid, Ref<C>>,
    memory: map<Ptr, C>,
    start: map<Oid, Bytes>,
    store: map<Oid, Bytes>,
    rollback: bool,
    doomed: bool,
    log: seq<Call>)

  ghost function Fresh<C>(start: map<Oid, Bytes>, memory: map<Ptr, C>): Session<C> {
    Session(map[], memory, start, start, false, false, [])
  }

  /** What happens in a transaction. Every storage call either succeeds, or is `Lost` to a
      storage rollback. */
  datatype Event<!C> =
    | Write(ptr: Ptr, content: C)
    | Refer(oid: Oid, codec: Codec<C>)
    | Create(ptr: Ptr, codec: Codec<C>, oid: Oid)
    | Fetch(oid: Oid, codec: Codec<C>, ptr: Ptr, result: Option<C>, decoded: bool, forUpdate: bool)
    | Miss(oid: Oid, forUpdate: bool)
    | Mark(oid: Oid, ptr: Ptr)
    | Remove(oid: Oid)
    | Lost(oid: Oid, state: State, call: Call)
    | Doom
    | Quiet

  ghost function Restated<C>(refs: map<Oid, Ref<C>>, oid: Oid, state: State): map<Oid, Ref<C>> {
    if oid in refs then refs[oid := refs[oid].(state := state)] else refs
  }

  function Reading(oid: Oid, forUpdate: bool): Call {
    if forUpdate then GetForUpdate(oid, true) else Get(oid)
  }

  /** The state a fetched reference is left in; one that did not deserialize stays empty. */
  function FetchedState(decoded: bool, forUpdate: bool): State {
    if !decoded then Empty else if forUpdate then Modified else NotModified
  }

  /** The reference has yet to be fetched. */
  predicate Unfetched<C>(r: Ref<C>) {
    r.obj == NULL && !r.state.RemovedEmpty?
  }

  predicate Deletes(state: State) {
    state.Empty? || state.NotModified? || state.Modified?
  }

  function RemovedState(state: State): State {
    match state
    case Empty => RemovedEmpty
    case New | NotModified | Modified => RemovedFetched
    case _ => state
  }

  ghost predicate Unbound<C>(s: Session<C>, ptr: Ptr) {
    forall oid :: oid in s.refs ==> s.refs[oid].obj != ptr
  }

  /** One event of the write-back layer. */
  ghost predicate Step<C>(s: Session<C>, e: Event<C>, s': Session<C>) {
    match e
    case Write(ptr, content) => ptr != NULL && s' == s.(memory := s.memory[ptr := content])
    case Refer(oid, codec) => oid !in s.refs && s' == s.(refs := s.refs[oid := Ref(codec, Empty, NULL)])
    case Create(ptr, codec, oid) =>
      && !s.rollback && ptr != NULL && ptr in s.memory && Unbound(s, ptr) && oid !in s.refs && oid !in s.start
      && s' == s.(refs := s.refs[oid := Ref(codec, New, ptr)], log := s.log + [GetForUpdate(oid, true)])
    case Fetch(oid, codec, ptr, content, decoded, forUpdate) =>
      && !s.rollback && oid in s.refs && Unfetched(s.refs[oid]) && oid in s.store
      && ptr !in s.memory && (content.None? <==> ptr == NULL) && (decoded ==> content.Some?) && codec == s.refs[oid].codec
      && codec.deserialize(s.store[oid]) == (if decoded then content else None)
      && s' == s.(refs := s.refs[oid := Ref(codec, FetchedState(decoded, forUpdate), ptr)],
                  memory := if ptr == NULL then s.memory else s.memory[ptr := content.value],
                  log := s.log + [Reading(oid, forUpdate)])
    case Miss(oid, forUpdate) =>
      && !s.rollback && oid in s.refs && Unfetched(s.refs[oid]) && oid !in s.store
      && s' == s.(log := s.log + [Reading(oid, forUpdate)])
    case Mark(oid, ptr) =>
      && !s.rollback && oid in s.refs && s.refs[oid].obj == ptr != NULL && !Dirty(s.refs[oid].state)
      && s' == s.(refs := Restated(s.refs, oid, Modified), log := s.log + [GetForUpdate(oid, true)])
    case Remove(oid) =>
      && oid in s.refs && (Deletes(s.refs[oid].state) ==> !s.rollback)
      && s' == s.(refs := Restated(s.refs, oid, RemovedState(s.refs[oid].state)),
                  store := if Deletes(s.refs[oid].state) then s.store - {oid} else s.store,
                  log := if Deletes(s.refs[oid].state) then s.log + [Delete(oid)] else s.log)
    case Lost(oid, state, call) =>
      && !call.Put? && (call.GetForUpdate? ==> !call.granted)
      && (oid in s.refs && s.refs[oid].obj == NULL ==> Absent(state))
      && s' == s.(refs := Restated(s.refs, oid, state), rollback := true, doomed := true, log := s.log + [call])
    case Doom => s' == s.(doomed := true)
    case Quiet => s' == s
  }

  /** The sessions of a transaction in order, from its beginning. */
  ghost predicate Run<C>(states: seq<Session<C>>, events: seq<Event<C>>) {
    && |states| == |events| + 1
    && (forall i :: 0 <= i < |events| ==> Step(states[i], events[i], states[i + 1]))
  }

  // The invariant of the reference table

  /** A reference without an object has nothing to write; one with an object can write it. */
  ghost predicate ReferenceAt<C>(s: Session<C>, oid: Oid) {
    oid in s.refs ==> if s.refs[oid].obj == NULL then Absent(s.refs[oid].state) else s.refs[oid].obj in s.memory
  }

  /** An object belongs to one reference. */
  ghost predicate OneReferenceEach<C>(s: Session<C>) {
    forall a, b :: a in s.refs && b in s.refs && s.refs[a].obj == s.refs[b].obj != NULL ==> a == b
  }

  ghost predicate LockedForUpdate(log: seq<Call>, oid: Oid) {
    GetForUpdate(oid, true) in log
  }

  /** The store agrees with its beginning at this id. */
  predicate SameAt(a: map<Oid, Bytes>, b: map<Oid, Bytes>, oid: Oid) {
    if oid in a then oid in b && b[oid] == a[oid] else oid !in b
  }

  /** Until prepared, the store differs from its beginning only by what was removed. */
  ghost predicate KeptAt<C>(s: Session<C>, oid: Oid) {
    if oid !in s.refs then SameAt(s.start, s.store, oid)
    else
      match s.refs[oid].state
      case Empty | NotModified => SameAt(s.start, s.store, oid)
      case New | RemovedEmpty | RemovedFetched => oid !in s.store
      case Modified => true
  }

  /** What is to be written has been locked for it. */
  ghost predicate LockedAt<C>(s: Session<C>, oid: Oid) {
    oid in s.refs && Dirty(s.refs[oid].state) ==> LockedForUpdate(s.log, oid)
  }

  ghost predicate Inv<C>(s: Session<C>) {
    && OneReferenceEach(s)
    && (forall oid :: ReferenceAt(s, oid))
    && NULL !in s.memory
    && (s.rollback ==> s.doomed)
    && (!s.rollback ==> forall oid :: KeptAt(s, oid) && LockedAt(s, oid))
    && (forall c :: c in s.log ==> !c.Put?)
  }

  lemma StepKeepsIdentity<C>(s: Session<C>, e: Event<C>, s': Session<C>)
    requires OneReferenceEach(s) && (forall oid :: ReferenceAt(s, oid)) && NULL !in s.memory && Step(s, e, s')
    ensures OneReferenceEach(s')
  {
    match e {
      case Fetch(oid, codec, ptr, content, decoded, forUpdate) =>
        assert forall o :: o in s.refs && ptr != NULL ==> ReferenceAt(s, o) && s.refs[o].obj != ptr;
      case _ =>
    }
  }

  lemma StepKeepsReference<C>(s: Session<C>, e: Event<C>, s': Session<C>, oid: Oid)
    requires NULL !in s.memory && Step(s, e, s') && ReferenceAt(s, oid)
    ensures ReferenceAt(s', oid)
  {
    hide Unbound;
  }

  lemma StepKeepsStore<C>(s: Session<C>, e: Event<C>, s': Session<C>, oid: Oid)
    requires Step(s, e, s') && ReferenceAt(s, oid) && KeptAt(s, oid) && !s'.rollback
    ensures KeptAt(s', oid)
  {
    hide Unbound;
  }

  lemma StepKeepsLock<C>(s: Session<C>, e: Event<C>, s': Session<C>, oid: Oid)
    requires Step(s, e, s') && LockedAt(s, oid) && !s'.rollback
    ensures LockedAt(s', oid)
  {
    hide Unbound;
    assert s.log <= s'.log;
    if oid in s'.refs && Dirty(s'.refs[oid].state) {
      if oid in s.refs && Dirty(s.refs[oid].state) {
        assert LockedForUpdate(s.log, oid);
      } else {
        assert s'.log[|s'.log| - 1] == GetForUpdate(oid, true);
      }
    }
  }

  lemma StepKeepsInv<C>(s: Session<C>, e: Event<C>, s': Session<C>)
    requires Inv(s) && Step(s, e, s')
    ensures Inv(s') && (s.rollback ==> s'.rollback) && s'.start == s.start
  {
    StepKeepsIdentity(s, e, s');
    hide KeptAt, LockedAt, ReferenceAt, OneReferenceEach, Unbound;
    forall oid
      ensures ReferenceAt(s', oid)
      ensures !s'.rollback ==> KeptAt(s', oid) && LockedAt(s', oid)
    {
      StepKeepsReference(s, e, s', oid);
      if !s'.rollback {
        StepKeepsStore(s, e, s', oid);
        StepKeepsLock(s, e, s', oid);
      }
    }
  }

  lemma {:induction false} EveryTransactionKeepsInv<C>(states: seq<Session<C>>, events: seq<Event<C>>, start: map<Oid, Bytes>, memory: map<Ptr, C>)
    requires Run(states, events) && states[0] == Fresh(start, memory) && NULL !in memory
    ensures Inv(states[|events|]) && states[|events|].start == start
    decreases |events|
  {
    if events != [] {
      var n := |events| - 1;
      EveryTransactionKeepsInv(states[..n + 1], events[..n], start, memory);
      StepKeepsInv(states[n], events[n], states[n + 1]);
    }
  }

  // The write-through machine

  /** A store written at once: the value under each id (`None` when the object there cannot
      be serialized), which object stands for which id, and the ids under update. */
  datatype Direct<!C> = Direct(
    values: map<Oid, Option<Bytes>>,
    memory: map<Ptr, C>,
    bound: map<Ptr, (Oid, Codec<C>)>,
    updating: set<Oid>)

  ghost function Present(store: map<Oid, Bytes>): map<Oid, Option<Bytes>> {
    map oid | oid in store :: Some(store[oid])
  }

  ghost function DirectFresh<C>(start: map<Oid, Bytes>, memory: map<Ptr, C>): Direct<C> {
    Direct(Present(start), memory, map[], {})
  }

  /** Puts the object's present content in the store. */
  ghost function WrittenThrough<C>(d: Direct<C>, ptr: Ptr): Direct<C>
    requires ptr in d.bound && ptr in d.memory
  {
    var (oid, codec) := d.bound[ptr];
    d.(values := d.values[oid := codec.serialize(d.memory[ptr])], updating := d.updating + {oid})
  }

  /** What the application may do and be told by the write-through machine. */
  ghost predicate DirectAllows<C>(d: Direct<C>, e: Event<C>) {
    match e
    case Write(ptr, content) => ptr != NULL
    case Create(ptr, codec, oid) => ptr in d.memory && ptr !in d.bound && oid !in d.values && oid !in d.updating
    case Fetch(oid, codec, ptr, content, decoded, forUpdate) =>
      && ptr !in d.memory && ptr !in d.bound && (content.None? <==> ptr == NULL) && oid in d.values && d.values[oid].Some?
      && codec.deserialize(d.values[oid].value) == (if decoded then content else None)
    case Miss(oid, forUpdate) => oid !in d.values
    case Mark(oid, ptr) => ptr in d.bound && ptr in d.memory && d.bound[ptr].0 == oid
    case _ => true
  }

  ghost function DirectAfter<C>(d: Direct<C>, e: Event<C>): Direct<C>
    requires DirectAllows(d, e)
  {
    match e
    case Write(ptr, content) =>
      var w := d.(memory := d.memory[ptr := content]);
      if ptr in d.bound && d.bound[ptr].0 in d.updating then WrittenThrough(w, ptr) else w
    case Create(ptr, codec, oid) => WrittenThrough(d.(bound := d.bound[ptr := (oid, codec)]), ptr)
    case Fetch(oid, codec, ptr, content, decoded, forUpdate) =>
      if ptr == NULL then d else
        var f := d.(memory := d.memory[ptr := content.value], bound := d.bound[ptr := (oid, codec)]);
        if decoded && forUpdate then WrittenThrough(f, ptr) else f
    case Mark(oid, ptr) => WrittenThrough(d, ptr)
    case Remove(oid) => d.(values := d.values - {oid}, updating := d.updating - {oid})
    case _ => d
  }

  /** Where these events take the write-through machine, if it refuses none of them. */
  ghost function DirectRun<C>(d: Direct<C>, events: seq<Event<C>>): Option<Direct<C>> {
    if events == [] then Some(d)
    else
      var n := |events| - 1;
      match DirectRun(d, events[..n])
      case None => None
      case Some(m) => if DirectAllows(m, events[n]) then Some(DirectAfter(m, events[n])) else None
  }

  // The write-back layer does what the write-through machine does

  /** The write is still to be made. */
  ghost predicate Pending<C>(s: Session<C>, oid: Oid) {
    oid in s.refs && Dirty(s.refs[oid].state)
  }

  /** The value under an id is what the session would leave there: the object's content if
      its write is pending, the stored bytes if not. */
  ghost predicate MeansAt<C>(s: Session<C>, d: Direct<C>, oid: Oid) {
    if Pending(s, oid) then
      && s.refs[oid].obj in s.memory && oid in d.values && oid in d.updating
      && d.values[oid] == s.refs[oid].codec.serialize(s.memory[s.refs[oid].obj])
    else
      oid !in d.updating && if oid in s.store then oid in d.values && d.values[oid] == Some(s.store[oid]) else oid !in d.values
  }

  /** A reference's object stands for its id. */
  ghost predicate BoundAt<C>(s: Session<C>, d: Direct<C>, oid: Oid) {
    oid in s.refs && s.refs[oid].obj != NULL ==>
      s.refs[oid].obj in d.bound && d.bound[s.refs[oid].obj] == (oid, s.refs[oid].codec)
  }

  /** An object that stands for an id is that of the id's reference. */
  ghost predicate StandsAt<C>(s: Session<C>, d: Direct<C>, ptr: Ptr) {
    ptr in d.bound ==> ptr != NULL && d.bound[ptr].0 in s.refs && s.refs[d.bound[ptr].0].obj == ptr
  }

  ghost predicate Simulates<C>(s: Session<C>, d: Direct<C>) {
    && d.memory == s.memory
    && (forall oid :: BoundAt(s, d, oid) && MeansAt(s, d, oid))
    && (forall ptr :: StandsAt(s, d, ptr))
  }

  lemma StepAllowed<C>(s: Session<C>, e: Event<C>, s': Session<C>, d: Direct<C>)
    requires Inv(s) && Step(s, e, s') && !s'.rollback && Simulates(s, d)
    ensures DirectAllows(d, e)
  {
    match e {
      case Create(ptr, codec, oid) => assert MeansAt(s, d, oid) && KeptAt(s, oid) && StandsAt(s, d, ptr);
      case Fetch(oid, codec, ptr, content, decoded, forUpdate) =>
        assert MeansAt(s, d, oid) && ReferenceAt(s, oid) && StandsAt(s, d, ptr);
        forall o | o in s.refs
          ensures s.refs[o].obj != ptr || ptr == NULL
        {
          assert ReferenceAt(s, o);
        }
      case Miss(oid, forUpdate) => assert MeansAt(s, d, oid) && ReferenceAt(s, oid);
      case Mark(oid, ptr) => assert BoundAt(s, d, oid) && ReferenceAt(s, oid);
      case _ =>
    }
  }

  lemma StepBinds<C>(s: Session<C>, e: Event<C>, s': Session<C>, d: Direct<C>, oid: Oid)
    requires Step(s, e, s') && !s'.rollback && ReferenceAt(s, oid) && BoundAt(s, d, oid) && DirectAllows(d, e)
    ensures BoundAt(s', DirectAfter(d, e), oid)
  {
  }

  lemma StepStands<C>(s: Session<C>, e: Event<C>, s': Session<C>, d: Direct<C>, ptr: Ptr)
    requires Step(s, e, s') && !s'.rollback && StandsAt(s, d, ptr) && DirectAllows(d, e)
    ensures StandsAt(s', DirectAfter(d, e), ptr)
  {
    hide Unbound;
  }

  ghost predicate AlikeAt<C>(s: Session<C>, d: Direct<C>, oid: Oid) {
    && ReferenceAt(s, oid) && KeptAt(s, oid)
    && d.memory == s.memory && MeansAt(s, d, oid) && BoundAt(s, d, oid)
  }

  lemma WritingMeans<C>(s: Session<C>, e: Event<C>, s': Session<C>, d: Direct<C>, oid: Oid)
    requires Step(s, e, s') && (e.Write? || e.Create? || e.Mark?) && DirectAllows(d, e)
    requires AlikeAt(s, d, oid) && StandsAt(s, d, e.ptr)
    ensures MeansAt(s', DirectAfter(d, e), oid)
  {
    hide Unbound;
  }

  lemma OtherwiseMeans<C>(s: Session<C>, e: Event<C>, s': Session<C>, d: Direct<C>, oid: Oid)
    requires Step(s, e, s') && !e.Write? && !e.Create? && !e.Mark? && !s'.rollback && DirectAllows(d, e)
    requires AlikeAt(s, d, oid)
    ensures MeansAt(s', DirectAfter(d, e), oid)
  {
    hide Unbound;
  }

  lemma StepMeans<C>(s: Session<C>, e: Event<C>, s': Session<C>, d: Direct<C>, oid: Oid)
    requires Step(s, e, s') && !s'.rollback && AlikeAt(s, d, oid) && DirectAllows(d, e)
    requires e.Write? || e.Create? || e.Mark? ==> StandsAt(s, d, e.ptr)
    ensures MeansAt(s', DirectAfter(d, e), oid)
  {
    hide Step, DirectAllows, DirectAfter, AlikeAt, StandsAt, MeansAt;
    if e.Write? || e.Create? || e.Mark? {
      WritingMeans(s, e, s', d, oid);
    } else {
      OtherwiseMeans(s, e, s', d, oid);
    }
  }

  lemma StepSimulates<C>(s: Session<C>, e: Event<C>, s': Session<C>, d: Direct<C>)
    requires Inv(s) && Step(s, e, s') && !s'.rollback && Simulates(s, d)
    ensures DirectAllows(d, e) && Simulates(s', DirectAfter(d, e))
  {
    StepAllowed(s, e, s', d);
    hide KeptAt, LockedAt, ReferenceAt, OneReferenceEach, Unbound, BoundAt, MeansAt, StandsAt;
    forall oid ensures BoundAt(s', DirectAfter(d, e), oid) && MeansAt(s', DirectAfter(d, e), oid) {
      StepBinds(s, e, s', d, oid);
      StepMeans(s, e, s', d, oid);
    }
    forall ptr ensures StandsAt(s', DirectAfter(d, e), ptr) {
      StepStands(s, e, s', d, ptr);
    }
  }

  /** Every transaction that storage has not rolled back is a run of the write-through
      machine: each fetch, each miss and each creation is one it would have allowed. */
  lemma {:induction false} EveryTransactionIsDirect<C>(states: seq<Session<C>>, events: seq<Event<C>>, start: map<Oid, Bytes>, memory: map<Ptr, C>)
    returns (d: Direct<C>)
    requires Run(states, events) && states[0] == Fresh(start, memory) && NULL !in memory
    requires !states[|events|].rollback
    ensures DirectRun(DirectFresh(start, memory), events) == Some(d) && Simulates(states[|events|], d)
    decreases |events|
  {
    if events == [] {
      d := DirectFresh(start, memory);
    } else {
      var n := |events| - 1;
      EveryTransactionKeepsInv(states[..n + 1], events[..n], start, memory);
      StepKeepsInv(states[n], events[n], states[n + 1]);
      var m := EveryTransactionIsDirect(states[..n + 1], events[..n], start, memory);
      StepSimulates(states[n], events[n], states[n + 1], m);
      d := DirectAfter(m, events[n]);
    }
  }

  // Preparing the transaction

  ghost predicate Serializable<C>(s: Session<C>, oid: Oid)
    requires oid in s.refs
  {
    s.refs[oid].obj in s.memory && s.refs[oid].codec.serialize(s.memory[s.refs[oid].obj]).Some?
  }

  /** The store with the pending writes of some ids made, and no other difference. */
  ghost predicate Flushed<C>(s: Session<C>, done: set<Oid>, store: map<Oid, Bytes>) {
    forall oid ::
      if oid in done && Pending(s, oid) then
        Serializable(s, oid) && oid in store && s.refs[oid].codec.serialize(s.memory[s.refs[oid].obj]) == Some(store[oid])
      else SameAt(s.store, store, oid)
  }

  /** The calls made while preparing: only writes, each of a pending id. */
  ghost predicate OnlyPuts<C>(s: Session<C>, log: seq<Call>) {
    && s.log <= log
    && (forall i :: |s.log| <= i < |log| ==> log[i].Put? && !s.doomed && Pending(s, log[i].oid))
  }

  /** The transaction was prepared: it is ready to commit this store, or it failed. */
  ghost predicate Prepared<C>(s: Session<C>, ready: bool, s': Session<C>) {
    && s'.refs == s.refs && s'.memory == s.memory && s'.start == s.start
    && OnlyPuts(s, s'.log)
    && (ready ==> !s'.rollback && !s.rollback && Flushed(s, s.refs.Keys, s'.store))
  }

  lemma PreparedIsDirect<C>(s: Session<C>, s': Session<C>, d: Direct<C>)
    requires Inv(s) && Simulates(s, d) && Prepared(s, true, s')
    ensures d.values == Present(s'.store)
  {
    forall oid
      ensures oid in d.values <==> oid in s'.store
      ensures oid in s'.store ==> d.values[oid] == Some(s'.store[oid])
    {
      assert MeansAt(s, d, oid);
    }
  }

  /** A transaction that prepares leaves exactly the store the write-through machine has. */
  lemma PreparedTransactionIsDirect<C>(states: seq<Session<C>>, events: seq<Event<C>>, start: map<Oid, Bytes>, memory: map<Ptr, C>, end: Session<C>)
    returns (d: Direct<C>)
    requires Run(states, events) && states[0] == Fresh(start, memory) && NULL !in memory
    requires Prepared(states[|events|], true, end)
    ensures DirectRun(DirectFresh(start, memory), events) == Some(d)
    ensures d.values == Present(end.store)
  {
    d := EveryTransactionIsDirect(states, events, start, memory);
    EveryTransactionKeepsInv(states, events, start, memory);
    PreparedIsDirect(states[|events|], end, d);
  }

  /** What the store then holds under one id. */
  ghost predicate LeftAt<C>(s: Session<C>, start: map<Oid, Bytes>, end: map<Oid, Bytes>, oid: Oid) {
    if Pending(s, oid) then
      && s.refs[oid].obj in s.memory && oid in end
      && s.refs[oid].codec.serialize(s.memory[s.refs[oid].obj]) == Some(end[oid])
    else if oid in s.refs && Gone(s.refs[oid].state) then oid !in end
    else SameAt(start, end, oid)
  }

  /** New and modified objects are stored as they are now, removed ones are absent, and the
      rest of the store is as the transaction found it. */
  lemma PreparedStoreIsStartExcept<C>(states: seq<Session<C>>, events: seq<Event<C>>, start: map<Oid, Bytes>, memory: map<Ptr, C>, end: Session<C>)
    requires Run(states, events) && states[0] == Fresh(start, memory) && NULL !in memory
    requires Prepared(states[|events|], true, end)
    ensures forall oid :: LeftAt(states[|events|], start, end.store, oid)
  {
    EveryTransactionKeepsInv(states, events, start, memory);
    var s := states[|events|];
    forall oid ensures LeftAt(s, start, end.store, oid) {
      assert SameAt(s.store, end.store, oid) || Pending(s, oid);
      assert KeptAt(s, oid);
    }
  }

  /** Every write follows a granted request to update the same id, whether or not the
      preparation succeeds. */
  lemma UpdateLockBeforeWrite<C>(states: seq<Session<C>>, events: seq<Event<C>>, start: map<Oid, Bytes>, memory: map<Ptr, C>, ready: bool, end: Session<C>, i: nat)
    returns (j: nat)
    requires Run(states, events) && states[0] == Fresh(start, memory) && NULL !in memory
    requires Prepared(states[|events|], ready, end)
    requires i < |end.log| && end.log[i].Put?
    ensures j < i && end.log[j] == GetForUpdate(end.log[i].oid, true)
  {
    EveryTransactionKeepsInv(states, events, start, memory);
    var s := states[|events|];
    assert |s.log| <= i by {
      assert end.log[..|s.log|] == s.log;
    }
    assert LockedAt(s, end.log[i].oid);
    j :| 0 <= j < |s.log| && s.log[j] == GetForUpdate(end.log[i].oid, true);
  }
}
