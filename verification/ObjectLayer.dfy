/**
 The data manager's transaction context: references found by object id and by object
 address, changed one call at a time and flushed when the transaction is prepared. Each
 method is an event of `ObjectSpec`. A storage call is told by its caller whether it fails,
 and a failure leaves the storage transaction rolled back from then on.
 */
module ObjectLayers {
  import opened Keys
  import opened Wrappers
  import opened ObjectSpec

  datatype Error = NoError | NotFound | Transaction | Undecodable

  class Reference<!C> {
    const oid: Oid
    const codec: Codec<C>
    var state: State
    var obj: Ptr

    constructor (oid: Oid, codec: Codec<C>, state: State, obj: Ptr)
      ensures this.oid == oid && this.codec == codec && this.state == state && this.obj == obj
    {
      this.oid, this.codec, this.state, this.obj := oid, codec, state, obj;
    }

    ghost predicate Shows(ref: Ref<C>)
      reads this
    {
      ref == Ref(codec, state, obj)
    }
  }

  /** The reference under an id is the one with that id, and is found at its object. */
  ghost predicate ShownAt<C>(oids: map<Oid, Reference<C>>, ptrs: map<Ptr, Reference<C>>, owned: set<Reference<C>>, refs: map<Oid, Ref<C>>, oid: Oid)
    reads owned
  {
    if oid in oids then
      && oids[oid] in owned && oids[oid].oid == oid && oid in refs && oids[oid].Shows(refs[oid])
      && (oids[oid].obj != NULL ==> oids[oid].obj in ptrs && ptrs[oids[oid].obj] == oids[oid])
    else oid !in refs
  }

  /** The reference at an address is the one of its id, and has its object there. */
  ghost predicate FoundAt<C>(oids: map<Oid, Reference<C>>, ptrs: map<Ptr, Reference<C>>, owned: set<Reference<C>>, ptr: Ptr)
    reads owned
  {
    ptr in ptrs && ptr != NULL ==>
      ptrs[ptr] in owned && ptrs[ptr].obj == ptr && ptrs[ptr].oid in oids && oids[ptrs[ptr].oid] == ptrs[ptr]
  }

  /** The two tables are one identity map, showing these references. */
  ghost predicate Tables<C>(oids: map<Oid, Reference<C>>, ptrs: map<Ptr, Reference<C>>, owned: set<Reference<C>>, refs: map<Oid, Ref<C>>)
    reads owned
  {
    && (forall oid :: ShownAt(oids, ptrs, owned, refs, oid))
    && (forall ptr :: FoundAt(oids, ptrs, owned, ptr))
  }

  lemma FoundById<C>(oids: map<Oid, Reference<C>>, ptrs: map<Ptr, Reference<C>>, owned: set<Reference<C>>, refs: map<Oid, Ref<C>>, oid: Oid)
    requires Tables(oids, ptrs, owned, refs)
    ensures oid in oids <==> oid in refs
    ensures oid in oids ==> oids[oid] in owned && oids[oid].oid == oid && oids[oid].Shows(refs[oid])
  {
    assert ShownAt(oids, ptrs, owned, refs, oid);
  }

  lemma FoundByObject<C>(oids: map<Oid, Reference<C>>, ptrs: map<Ptr, Reference<C>>, owned: set<Reference<C>>, refs: map<Oid, Ref<C>>, ptr: Ptr)
    requires Tables(oids, ptrs, owned, refs) && ptr != NULL
    ensures ptr in ptrs ==> ptrs[ptr] in owned && ptrs[ptr].oid in oids && oids[ptrs[ptr].oid] == ptrs[ptr] && ptrs[ptr].oid in refs && refs[ptrs[ptr].oid].obj == ptr
    ensures ptr !in ptrs ==> forall oid :: oid in refs ==> refs[oid].obj != ptr
  {
    assert FoundAt(oids, ptrs, owned, ptr);
    if ptr in ptrs {
      assert ShownAt(oids, ptrs, owned, refs, ptrs[ptr].oid);
    } else {
      assert forall oid :: oid in refs ==> ShownAt(oids, ptrs, owned, refs, oid);
    }
  }

  lemma InvAt<C>(s: Session<C>, oid: Oid)
    requires Inv(s)
    ensures ReferenceAt(s, oid)
  {
  }

  /** A new reference is entered under its id and, if it has an object, at its address. */
  lemma TablesWith<C>(oids: map<Oid, Reference<C>>, ptrs: map<Ptr, Reference<C>>, owned: set<Reference<C>>, refs: map<Oid, Ref<C>>, r: Reference<C>)
    requires Tables(oids, ptrs, owned, refs) && r !in owned && r.oid !in refs
    requires r.obj != NULL ==> forall oid :: oid in refs ==> refs[oid].obj != r.obj
    ensures Tables(oids[r.oid := r], if r.obj == NULL then ptrs else ptrs[r.obj := r], owned + {r}, refs[r.oid := Ref(r.codec, r.state, r.obj)])
  {
    var oids', ptrs' := oids[r.oid := r], if r.obj == NULL then ptrs else ptrs[r.obj := r];
    var owned', refs' := owned + {r}, refs[r.oid := Ref(r.codec, r.state, r.obj)];
    FoundById(oids, ptrs, owned, refs, r.oid);
    forall o ensures ShownAt(oids', ptrs', owned', refs', o) {
      assert ShownAt(oids, ptrs, owned, refs, o);
    }
    forall p ensures FoundAt(oids', ptrs', owned', p) {
      assert FoundAt(oids, ptrs, owned, p);
    }
  }

  lemma LostIsStep<C>(s: Session<C>, oid: Oid, call: Call)
    requires oid in s.refs && s.refs[oid].state == Empty && !call.Put? && (call.GetForUpdate? ==> !call.granted)
    ensures Step(s, Lost(oid, Empty, call), s.(rollback := true, doomed := true, log := s.log + [call]))
  {
    assert Restated(s.refs, oid, Empty) == s.refs;
  }

  lemma MissIsStep<C>(s: Session<C>, oid: Oid, forUpdate: bool)
    requires oid in s.refs && Unfetched(s.refs[oid]) && !s.rollback && oid !in s.store
    ensures Step(s, Miss(oid, forUpdate), s.(log := s.log + [Reading(oid, forUpdate)]))
  {
  }

  /** The session after a fetch that found something. */
  ghost function Fetched<C>(s: Session<C>, e: Event<C>): Session<C>
    requires e.Fetch? && (e.ptr != NULL ==> e.result.Some?)
  {
    s.(refs := s.refs[e.oid := Ref(e.codec, FetchedState(e.decoded, e.forUpdate), e.ptr)],
       memory := if e.ptr == NULL then s.memory else s.memory[e.ptr := e.result.value],
       log := s.log + [Reading(e.oid, e.forUpdate)])
  }

  lemma FetchIsStep<C>(s: Session<C>, e: Event<C>)
    requires e.Fetch? && e.oid in s.refs && Unfetched(s.refs[e.oid]) && !s.rollback && e.oid in s.store
    requires e.ptr !in s.memory && (e.result.None? <==> e.ptr == NULL) && (e.decoded ==> e.result.Some?) && e.codec == s.refs[e.oid].codec
    requires e.codec.deserialize(s.store[e.oid]) == if e.decoded then e.result else None
    ensures Step(s, e, Fetched(s, e))
  {
  }

  lemma OneOwner<C>(s: Session<C>, oid: Oid)
    requires Inv(s)
    ensures oid in s.refs && s.refs[oid].obj != NULL ==> forall o :: o in s.refs && s.refs[o].obj == s.refs[oid].obj ==> o == oid
  {
  }

  lemma SameIds<C>(oids: map<Oid, Reference<C>>, ptrs: map<Ptr, Reference<C>>, owned: set<Reference<C>>, refs: map<Oid, Ref<C>>)
    requires Tables(oids, ptrs, owned, refs)
    ensures oids.Keys == refs.Keys
  {
    forall oid: Oid ensures oid in oids.Keys <==> oid in refs.Keys {
      assert ShownAt(oids, ptrs, owned, refs, oid);
    }
  }

  lemma NewPlace<C>(s: Session<C>, oid: Oid, place: Ptr)
    requires Inv(s) && place !in s.memory && place != NULL
    ensures ReferenceAt(s, oid) && Unbound(s, place) && NULL !in s.memory
  {
    forall o | o in s.refs
      ensures s.refs[o].obj != place
    {
      assert ReferenceAt(s, o);
    }
  }

  /** Nothing stands in the way of writing this id. */
  ghost predicate Writable<C>(s: Session<C>, oid: Oid, putFails: bool)
    requires oid in s.refs
  {
    Serializable(s, oid) && !s.doomed && !putFails
  }

  /** The store after one id's pending write, if it had one. */
  ghost predicate FlushedOne<C>(s0: Session<C>, store: map<Oid, Bytes>, oid: Oid, store': map<Oid, Bytes>) {
    if Pending(s0, oid) then
      && Serializable(s0, oid)
      && store' == store[oid := s0.refs[oid].codec.serialize(s0.memory[s0.refs[oid].obj]).value]
    else store' == store
  }

  /** A session on its way through the flush. */
  ghost predicate Flushing<C>(s0: Session<C>, s: Session<C>) {
    s.refs == s0.refs && s.memory == s0.memory && s.start == s0.start && s.doomed == s0.doomed && OnlyPuts(s0, s.log)
  }

  lemma NothingFlushed<C>(s: Session<C>)
    ensures OnlyPuts(s, s.log) && Flushed(s, {}, s.store)
  {
  }

  lemma FlushedMore<C>(s0: Session<C>, done: set<Oid>, store: map<Oid, Bytes>, oid: Oid, store': map<Oid, Bytes>)
    requires Flushed(s0, done, store) && oid !in done && FlushedOne(s0, store, oid, store')
    ensures Flushed(s0, done + {oid}, store')
  {
  }

  /** What marking an object with this reference does: nothing if it is to be written anyway. */
  ghost predicate MarkedAs<C>(s: Session<C>, oid: Oid, fails: bool, error: Error, e: Event<C>)
    requires oid in s.refs
  {
    if Dirty(s.refs[oid].state) then error == NoError && e == Quiet
    else if s.rollback || fails then error == Transaction && e == Lost(oid, Modified, GetForUpdate(oid, false))
    else error == NoError && e == ObjectSpec.Mark(oid, s.refs[oid].obj)
  }

  /** What fetching a reference's object does. */
  ghost predicate FetchedAs<C>(s: Session<C>, oid: Oid, forUpdate: bool, fails: bool, place: Ptr, partial: Option<C>, error: Error, e: Event<C>)
    requires oid in s.refs
  {
    if s.rollback || fails then
      error == Transaction && e == Lost(oid, Empty, if forUpdate then GetForUpdate(oid, false) else Get(oid))
    else if oid !in s.store then error == NotFound && e == Miss(oid, forUpdate)
    else
      var codec := s.refs[oid].codec;
      match codec.deserialize(s.store[oid])
      case Some(c) => error == NoError && e == ObjectSpec.Fetch(oid, codec, place, Some(c), true, forUpdate)
      case None => error == Undecodable && e == ObjectSpec.Fetch(oid, codec, if partial.Some? then place else NULL, partial, false, forUpdate)
  }

  class ObjectLayer<!C> {
    var oids: map<Oid, Reference<C>>
    var ptrs: map<Ptr, Reference<C>>
    var memory: map<Ptr, C>
    var store: map<Oid, Bytes>
    var rollback: bool
    var doomed: bool

    /** The transaction as `ObjectSpec` sees it, and the references in the tables. */
    ghost var s: Session<C>
    ghost var owned: set<Reference<C>>

    ghost predicate Indexed()
      reads this, owned
    {
      Tables(oids, ptrs, owned, s.refs)
    }

    ghost predicate Agrees()
      reads this
    {
      s.memory == memory && s.store == store && s.rollback == rollback && s.doomed == doomed
    }

    ghost predicate Valid()
      reads this, owned
    {
      Agrees() && Inv(s) && Indexed()
    }

    constructor (start: map<Oid, Bytes>, memory: map<Ptr, C>)
      requires NULL !in memory
      ensures Valid() && s == Fresh(start, memory) && owned == {}
    {
      oids, ptrs, this.memory, store, rollback, doomed := map[], map[], memory, start, false, false;
      s, owned := Fresh(start, memory), {};
    }

    // The edits made to the tables

    method Insert(oid: Oid, codec: Codec<C>, state: State, ptr: Ptr) returns (r: Reference<C>)
      requires Indexed() && oid !in s.refs
      requires ptr != NULL ==> Unbound(s, ptr)
      modifies this`oids, this`ptrs, this`s, this`owned
      ensures Indexed() && s == old(s).(refs := old(s).refs[oid := Ref(codec, state, ptr)])
      ensures fresh(r) && owned == old(owned) + {r} && r.oid == oid && oids == old(oids)[oid := r] && oid !in old(oids)
    {
      hide Tables;
      ghost var refs := s.refs;
      FoundById(oids, ptrs, owned, refs, oid);
      r := new Reference(oid, codec, state, ptr);
      TablesWith(oids, ptrs, owned, refs, r);
      oids := oids[oid := r];
      if ptr != NULL {
        ptrs := ptrs[ptr := r];
      }
      owned := owned + {r};
      s := s.(refs := refs[oid := Ref(codec, state, ptr)]);
    }

    method SetState(r: Reference<C>, state: State)
      requires Indexed() && r.oid in oids && oids[r.oid] == r && r in owned
      modifies this`s, r`state
      ensures Indexed() && s == old(s).(refs := Restated(old(s).refs, r.oid, state)) && r.state == state
    {
      FoundById(oids, ptrs, owned, s.refs, r.oid);
      r.state := state;
      s := s.(refs := Restated(s.refs, r.oid, state));
      forall o ensures ShownAt(oids, ptrs, owned, s.refs, o) {
        assert old(ShownAt(oids, ptrs, owned, s.refs, o));
      }
      forall p ensures FoundAt(oids, ptrs, owned, p) {
        assert old(FoundAt(oids, ptrs, owned, p));
      }
    }

    /** Gives an unfetched reference its object, and enters it at the object's address, also
        when that is null. */
    method SetObject(r: Reference<C>, state: State, ptr: Ptr)
      requires Indexed() && r.oid in oids && oids[r.oid] == r && r in owned && r.obj == NULL
      requires ptr != NULL ==> Unbound(s, ptr)
      modifies this`s, this`ptrs, r`state, r`obj
      ensures Indexed() && s == old(s).(refs := old(s).refs[r.oid := Ref(r.codec, state, ptr)])
      ensures r.obj == ptr && r.state == state
    {
      FoundById(oids, ptrs, owned, s.refs, r.oid);
      if ptr != NULL {
        FoundByObject(oids, ptrs, owned, s.refs, ptr);
      }
      r.obj, r.state := ptr, state;
      ptrs := ptrs[ptr := r];
      s := s.(refs := s.refs[r.oid := Ref(r.codec, state, ptr)]);
      forall o ensures ShownAt(oids, ptrs, owned, s.refs, o) {
        assert old(ShownAt(oids, ptrs, owned, s.refs, o));
      }
      forall p ensures FoundAt(oids, ptrs, owned, p) {
        assert old(FoundAt(oids, ptrs, owned, p));
      }
    }

    // The calls of the application

    /** The application changes, or makes, an object. */
    method Write(ptr: Ptr, content: C) returns (ghost e: Event<C>)
      requires Valid() && ptr != NULL
      modifies this`memory, this`s
      ensures Valid() && Step(old(s), e, s) && e == ObjectSpec.Write(ptr, content)
    {
      hide Inv, Tables;
      e := ObjectSpec.Write(ptr, content);
      memory := memory[ptr := content];
      s := s.(memory := memory);
      StepKeepsInv(old(s), e, s);
    }

    /** The reference for an id: the one there is, or a new empty one. */
    method ReferenceByOid(oid: Oid, codec: Codec<C>) returns (r: Reference<C>, ghost e: Event<C>)
      requires Valid()
      modifies this`oids, this`ptrs, this`s, this`owned
      ensures Valid() && owned >= old(owned) && fresh(owned - old(owned))
      ensures Step(old(s), e, s) && oid in oids && r == oids[oid] && r in owned
      ensures forall o :: o in old(oids) ==> o in oids && oids[o] == old(oids)[o]
      ensures e == if oid in old(s).refs then Quiet else Refer(oid, codec)
    {
      hide Inv, Tables;
      FoundById(oids, ptrs, owned, s.refs, oid);
      if oid in oids {
        r, e := oids[oid], Quiet;
      } else {
        e := Refer(oid, codec);
        r := Insert(oid, codec, Empty, NULL);
        StepKeepsInv(old(s), e, s);
      }
    }

    /** Asks storage for the value under an id, for update or not. When storage has rolled
        back, the whole transaction is doomed. */
    method Ask(oid: Oid, forUpdate: bool, fails: bool) returns (ok: bool, found: Option<Bytes>)
      requires Agrees()
      modifies this`rollback, this`doomed, this`s
      ensures Agrees() && ok == !(old(rollback) || fails)
      ensures s.log == old(s).log + [if forUpdate then GetForUpdate(oid, !old(rollback) && !fails) else Get(oid)]
      ensures ok ==> s == old(s).(log := old(s).log + [Reading(oid, forUpdate)])
      ensures ok ==> found == if oid in store then Some(store[oid]) else None
      ensures !ok ==> s == old(s).(rollback := true, doomed := true, log := old(s).log + [if forUpdate then GetForUpdate(oid, false) else Get(oid)])
    {
      rollback := rollback || fails;
      ok := !rollback;
      found := None;
      if rollback {
        doomed := true;
        s := s.(rollback := true, doomed := true, log := s.log + [if forUpdate then GetForUpdate(oid, false) else Get(oid)]);
      } else {
        if oid in store {
          found := Some(store[oid]);
        }
        s := s.(log := s.log + [Reading(oid, forUpdate)]);
      }
    }

    /** A new reference under a new id, whose update lock is taken at once. The id comes
        from the allocator, which may fail to issue one. */
    method CreateReference(ptr: Ptr, codec: Codec<C>, oid: Oid, issued: bool, fails: bool)
      returns (r: Reference?<C>, ghost e: Event<C>)
      requires Valid() && ptr != NULL && ptr in memory && Unbound(s, ptr) && oid !in s.refs && oid !in s.start
      modifies this
      ensures Valid() && owned >= old(owned) && fresh(owned - old(owned)) && Step(old(s), e, s)
      ensures forall o :: o in old(oids) ==> o in oids && oids[o] == old(oids)[o]
      ensures r == null <==> !issued || old(s).rollback || fails
      ensures r == null ==> e == if !issued then Doom else if old(s).rollback then Quiet else Lost(oid, Empty, GetForUpdate(oid, false))
      ensures r != null ==> r in owned && r.oid == oid && oid in oids && oids[oid] == r && Pending(s, oid) && s.refs[oid].obj == ptr && e == Create(ptr, codec, oid)
    {
      hide Inv, Tables;
      r := null;
      if !issued {
        e := Doom;
        doomed := true;
        s := s.(doomed := true);
      } else if rollback {
        e := Quiet;
      } else {
        var ok, found := Ask(oid, true, fails);
        if ok {
          e := Create(ptr, codec, oid);
          r := Insert(oid, codec, New, ptr);
        } else {
          e := Lost(oid, Empty, GetForUpdate(oid, false));
        }
      }
      StepKeepsInv(old(s), e, s);
    }

    /** The reference for an object: the one there is, or a new one. */
    method ReferenceByPtr(ptr: Ptr, codec: Codec<C>, oid: Oid, issued: bool, fails: bool)
      returns (r: Reference?<C>, ghost e: Event<C>)
      requires Valid() && ptr != NULL && ptr in memory && (Unbound(s, ptr) ==> oid !in s.refs && oid !in s.start)
      modifies this
      ensures Valid() && owned >= old(owned) && fresh(owned - old(owned)) && Step(old(s), e, s)
      ensures forall o :: o in old(oids) ==> o in oids && oids[o] == old(oids)[o]
      ensures r == null <==> Unbound(old(s), ptr) && (!issued || old(s).rollback || fails)
      ensures r == null ==> e == if !issued then Doom else if old(s).rollback then Quiet else Lost(oid, Empty, GetForUpdate(oid, false))
      ensures r != null ==> r in owned && r.oid in oids && oids[r.oid] == r && r.oid in s.refs && s.refs[r.oid].obj == ptr
      ensures r != null ==> if Unbound(old(s), ptr) then e == Create(ptr, codec, oid) && Pending(s, r.oid) else e == Quiet && s == old(s)
    {
      hide Inv, Tables;
      FoundByObject(oids, ptrs, owned, s.refs, ptr);
      if ptr in ptrs {
        r, e := ptrs[ptr], Quiet;
      } else {
        r, e := CreateReference(ptr, codec, oid, issued, fails);
      }
    }

    /** Takes an unchanged reference to modified, before asking for its update lock. */
    method Upgrade(r: Reference<C>, fails: bool) returns (error: Error, ghost e: Event<C>)
      requires Valid() && r in owned && r.oid in oids && oids[r.oid] == r && r.obj != NULL && !Dirty(r.state)
      modifies this`s, this`rollback, this`doomed, r`state
      ensures Valid() && Step(old(s), e, s) && Pending(s, r.oid) && s.refs[r.oid].obj == r.obj && Dirty(r.state)
      ensures error == if old(rollback) || fails then Transaction else NoError
      ensures e == if error == NoError then ObjectSpec.Mark(r.oid, r.obj) else Lost(r.oid, Modified, GetForUpdate(r.oid, false))
    {
      hide Inv, Tables;
      FoundById(oids, ptrs, owned, s.refs, r.oid);
      SetState(r, Modified);
      var ok, found := Ask(r.oid, true, fails);
      if ok {
        error, e := NoError, ObjectSpec.Mark(r.oid, r.obj);
      } else {
        error, e := Transaction, Lost(r.oid, Modified, GetForUpdate(r.oid, false));
      }
      StepKeepsInv(old(s), e, s);
    }

    /** Marks the object as about to change, giving it a reference if it has none. */
    method Mark(ptr: Ptr, codec: Codec<C>, oid: Oid, issued: bool, fails: bool) returns (error: Error, ghost e: Event<C>)
      requires Valid() && ptr != NULL && ptr in memory && (Unbound(s, ptr) ==> oid !in s.refs && oid !in s.start)
      modifies this, owned
      ensures Valid() && owned >= old(owned) && fresh(owned - old(owned)) && Step(old(s), e, s)
      ensures forall o :: o in old(oids) ==> o in oids && oids[o] == old(oids)[o]
      ensures error == NoError ==> exists o :: Pending(s, o) && s.refs[o].obj == ptr
      ensures Unbound(old(s), ptr) ==>
                && error == (if !issued || old(s).rollback || fails then Transaction else NoError)
                && e == if error == NoError then Create(ptr, codec, oid) else if !issued then Doom
                        else if old(s).rollback then Quiet else Lost(oid, Empty, GetForUpdate(oid, false))
      ensures forall o :: o in old(s).refs && old(s).refs[o].obj == ptr ==> MarkedAs(old(s), o, fails, error, e)
    {
      hide Inv, Tables, Step;
      var r;
      r, e := ReferenceByPtr(ptr, codec, oid, issued, fails);
      if r == null {
        error := Transaction;
        return;
      }
      error := NoError;
      FoundById(oids, ptrs, owned, s.refs, r.oid);
      if r.state != New && r.state != Modified {
        error, e := Upgrade(r, fails);
      }
      assert Pending(s, r.oid);
      OneOwner(old(s), r.oid);
    }

    /** Has the reference's object in memory, for update or not. An object that is there
        already, or was removed before it was fetched, is not fetched again; marking one for
        update finds this reference by its object. The deserializer, when it fails, may leave
        a partial object behind; a new object is at an address not in use. */
    method Dereference(r: Reference<C>, forUpdate: bool, fails: bool, place: Ptr, partial: Option<C>)
      returns (error: Error, ghost e: Event<C>)
      requires Valid() && r in owned && r.oid in oids && oids[r.oid] == r
      requires place != NULL && place !in memory
      modifies this`memory, this`ptrs, this`s, this`rollback, this`doomed, r
      ensures Valid() && Step(old(s), e, s)
      ensures old(r.obj) != NULL ==> r.obj == old(r.obj)
      ensures error == NoError ==> r.obj != NULL || r.state == RemovedEmpty
      ensures error == NoError && forUpdate ==> Dirty(r.state) || Gone(old(r.state)) || (old(r.state) == Empty && old(r.obj) != NULL)
      ensures r.oid in old(s).refs
      ensures if old(r.obj) == NULL && old(r.state) != RemovedEmpty then FetchedAs(old(s), r.oid, forUpdate, fails, place, partial, error, e)
              else if forUpdate && old(r.state) == NotModified then MarkedAs(old(s), r.oid, fails, error, e)
              else error == NoError && e == Quiet
      ensures if old(r.obj) == NULL && old(r.state) != RemovedEmpty
              then s.log == old(s).log + [if forUpdate then GetForUpdate(r.oid, !old(rollback) && !fails) else Get(r.oid)]
              else !forUpdate ==> s == old(s)
    {
      hide Inv, Tables;
      FoundById(oids, ptrs, owned, s.refs, r.oid);
      if r.obj != NULL || r.state == RemovedEmpty {
        error, e := NoError, Quiet;
        if forUpdate && r.state == NotModified {
          NewPlace(s, r.oid, place);
          error, e := Upgrade(r, fails);
        }
        return;
      }
      error, e := Fetch(r, forUpdate, fails, place, partial);
    }

    /** Deserializes into a new object. */
    method Install(r: Reference<C>, data: Bytes, forUpdate: bool, place: Ptr, partial: Option<C>)
      returns (decoded: bool, made: Option<C>)
      requires Agrees() && Indexed() && r in owned && r.oid in oids && oids[r.oid] == r && r.obj == NULL
      requires place != NULL && place !in memory && Unbound(s, place)
      modifies this`memory, this`ptrs, this`s, r
      ensures Agrees() && Indexed() && (decoded <==> r.codec.deserialize(data).Some?)
      ensures made == if decoded then r.codec.deserialize(data) else partial
      ensures r.obj == (if made.Some? then place else NULL) && r.state == FetchedState(decoded, forUpdate)
      ensures s == old(s).(refs := old(s).refs[r.oid := Ref(r.codec, r.state, r.obj)],
                           memory := if r.obj == NULL then old(s).memory else old(s).memory[r.obj := made.value])
    {
      hide Tables;
      made := r.codec.deserialize(data);
      decoded := made.Some?;
      if !decoded {
        made := partial;
      }
      var at := NULL;
      if made.Some? {
        at := place;
        memory := memory[place := made.value];
      }
      SetObject(r, FetchedState(decoded, forUpdate), at);
      s := s.(memory := memory);
    }

    method Fetch(r: Reference<C>, forUpdate: bool, fails: bool, place: Ptr, partial: Option<C>)
      returns (error: Error, ghost e: Event<C>)
      requires Valid() && r in owned && r.oid in oids && oids[r.oid] == r
      requires r.obj == NULL && r.state != RemovedEmpty && place != NULL && place !in memory
      modifies this`memory, this`ptrs, this`s, this`rollback, this`doomed, r
      ensures Valid() && Step(old(s), e, s)
      ensures error == NoError ==> r.obj == place && r.state == FetchedState(true, forUpdate)
      ensures s.log == old(s).log + [if forUpdate then GetForUpdate(r.oid, !old(rollback) && !fails) else Get(r.oid)]
      ensures r.oid in old(s).refs && FetchedAs(old(s), r.oid, forUpdate, fails, place, partial, error, e)
    {
      hide Inv, Tables, Step, FetchedAs;
      FoundById(oids, ptrs, owned, s.refs, r.oid);
      NewPlace(s, r.oid, place);
      error, e := Retrieve(r, forUpdate, fails, place, partial);
      StepKeepsInv(old(s), e, s);
    }

    /** Gets the stored bytes and has them deserialized. */
    method Retrieve(r: Reference<C>, forUpdate: bool, fails: bool, place: Ptr, partial: Option<C>)
      returns (error: Error, ghost e: Event<C>)
      requires Agrees() && Indexed() && r in owned && r.oid in oids && oids[r.oid] == r && r.oid in s.refs
      requires r.obj == NULL && r.state == Empty && s.refs[r.oid] == Ref(r.codec, Empty, NULL)
      requires place != NULL && place !in memory && Unbound(s, place) && NULL !in memory
      modifies this`memory, this`ptrs, this`s, this`rollback, this`doomed, r
      ensures Agrees() && Indexed() && Step(old(s), e, s)
      ensures error == NoError ==> r.obj == place && r.state == FetchedState(true, forUpdate)
      ensures s.log == old(s).log + [if forUpdate then GetForUpdate(r.oid, !old(rollback) && !fails) else Get(r.oid)]
      ensures FetchedAs(old(s), r.oid, forUpdate, fails, place, partial, error, e)
    {
      hide Tables, Step;
      var ok, found := Ask(r.oid, forUpdate, fails);
      if !ok {
        error, e := Transaction, Lost(r.oid, Empty, if forUpdate then GetForUpdate(r.oid, false) else Get(r.oid));
        LostIsStep(old(s), r.oid, if forUpdate then GetForUpdate(r.oid, false) else Get(r.oid));
      } else if found.None? {
        error, e := NotFound, Miss(r.oid, forUpdate);
        MissIsStep(old(s), r.oid, forUpdate);
      } else {
        var decoded, made := Install(r, found.value, forUpdate, place, partial);
        error := if decoded then NoError else Undecodable;
        e := ObjectSpec.Fetch(r.oid, r.codec, r.obj, made, decoded, forUpdate);
        FetchIsStep(old(s), e);
      }
    }

    /** Has storage delete what is under the id. */
    method Delete(oid: Oid, fails: bool) returns (error: Error)
      requires Agrees()
      modifies this`store, this`s, this`rollback, this`doomed
      ensures Agrees() && error == if old(rollback) || fails then Transaction else if oid in old(store) then NoError else NotFound
      ensures error != Transaction ==> s == old(s).(store := old(s).store - {oid}, log := old(s).log + [ObjectSpec.Delete(oid)])
      ensures error == Transaction ==> s == old(s).(rollback := true, doomed := true, log := old(s).log + [ObjectSpec.Delete(oid)])
    {
      rollback := rollback || fails;
      if rollback {
        doomed := true;
        error := Transaction;
      } else {
        error := if oid in store then NoError else NotFound;
        store := store - {oid};
      }
      s := s.(store := store, rollback := rollback, doomed := doomed, log := s.log + [ObjectSpec.Delete(oid)]);
    }

    /** Deletes the object at once, whatever the store says of it, except when the reference
        is new, so that there is nothing to delete, or already removed. */
    method Remove(r: Reference<C>, fails: bool) returns (error: Error, ghost e: Event<C>)
      requires Valid() && r in owned && r.oid in oids && oids[r.oid] == r
      modifies this`store, this`s, this`rollback, this`doomed, r`state
      ensures Valid() && Step(old(s), e, s) && Gone(r.state)
      ensures error == if !Deletes(old(r.state)) then NoError
                       else if old(rollback) || fails then Transaction
                       else if r.oid in old(store) then NoError else NotFound
      ensures e == if error == Transaction then Lost(r.oid, RemovedState(old(r.state)), ObjectSpec.Delete(r.oid)) else ObjectSpec.Remove(r.oid)
      ensures r.state == if old(r.state) in {Empty, RemovedEmpty} then RemovedEmpty else RemovedFetched
      ensures old(r.state) in {New, RemovedEmpty, RemovedFetched} ==> error == NoError && s.log == old(s).log && store == old(store)
      ensures old(r.state) in {Empty, NotModified, Modified} ==> s.log == old(s).log + [ObjectSpec.Delete(r.oid)]
      ensures old(r.state) in {Empty, NotModified, Modified} && !old(rollback) && !fails ==>
                error == (if r.oid in old(store) then NoError else NotFound) && store == old(store) - {r.oid}
    {
      hide Inv, Tables;
      FoundById(oids, ptrs, owned, s.refs, r.oid);
      InvAt(s, r.oid);
      error := NoError;
      if Deletes(r.state) {
        error := Delete(r.oid, fails);
      }
      e := if error == Transaction then Lost(r.oid, RemovedState(r.state), ObjectSpec.Delete(r.oid)) else ObjectSpec.Remove(r.oid);
      SetState(r, RemovedState(r.state));
      StepKeepsInv(old(s), e, s);
    }

    /** Writes one reference's object if it is new or modified. */
    method FlushReference(r: Reference<C>, putFails: bool, ghost s0: Session<C>) returns (ok: bool)
      requires Agrees() && Indexed() && r in owned && r.oid in oids && oids[r.oid] == r
      requires Inv(s0) && Flushing(s0, s)
      modifies this`store, this`rollback, this`s
      ensures Agrees() && Indexed() && Flushing(s0, s)
      ensures ok ==> s.rollback == old(s).rollback && FlushedOne(s0, old(s).store, r.oid, s.store)
      ensures ok <==> Pending(s0, r.oid) ==> Writable(s0, r.oid, putFails) && !old(s).rollback
    {
      hide Tables, Inv;
      FoundById(oids, ptrs, owned, s.refs, r.oid);
      InvAt(s0, r.oid);
      if !Dirty(r.state) {
        return true;
      }
      var out := r.codec.serialize(memory[r.obj]);
      if out.None? || doomed {
        return false;
      }
      rollback := rollback || putFails;
      if !rollback {
        store := store[r.oid := out.value];
      }
      s := s.(store := store, rollback := rollback, log := s.log + [Put(r.oid)]);
      ok := !rollback;
    }

    /** Flushes the references, in whatever order the table gives them, up to the first that
        fails; then has storage prepare. */
    method Prepare(putFails: Oid -> bool, prepareFails: bool) returns (ready: bool)
      requires Valid()
      modifies this`store, this`rollback, this`s
      ensures Agrees() && Prepared(old(s), ready, s)
      ensures ready <==> !old(s).rollback && !prepareFails && forall oid :: Pending(old(s), oid) ==> Writable(old(s), oid, putFails(oid))
    {
      hide Tables, Inv, Writable, FlushedOne, Flushed, OnlyPuts;
      SameIds(oids, ptrs, owned, s.refs);
      ghost var s0 := s;
      var left := oids.Keys;
      ready := true;
      NothingFlushed(s0);
      assert oids.Keys - left == {};
      while left != {} && ready
        modifies this`store, this`rollback, this`s
        invariant Agrees() && Indexed() && Flushing(s0, s) && left <= oids.Keys
        invariant ready ==> s.rollback == s0.rollback && Flushed(s0, oids.Keys - left, s.store)
        invariant ready ==> forall oid :: oid in oids && oid !in left && Pending(s0, oid) ==> Writable(s0, oid, putFails(oid)) && !s0.rollback
        invariant !ready ==> s0.rollback || exists oid :: Pending(s0, oid) && !Writable(s0, oid, putFails(oid))
      {
        var oid :| oid in left;
        FoundById(oids, ptrs, owned, s.refs, oid);
        ghost var before := s;
        ready := FlushReference(oids[oid], putFails(oid), s0);
        if ready {
          FlushedMore(s0, oids.Keys - left, before.store, oid, s.store);
          assert oids.Keys - (left - {oid}) == oids.Keys - left + {oid};
        }
        left := left - {oid};
      }
      if ready {
        assert oids.Keys - left == s0.refs.Keys;
        rollback := rollback || prepareFails;
        s := s.(rollback := rollback);
        ready := !rollback;
      }
    }
  }

  /** After these events the object is about to be written, and the store does not have it. */
  lemma RemarkedIsNotStored<C>(s: Session<C>, oid: Oid, s1: Session<C>, s2: Session<C>)
    requires oid in s.refs && s.refs[oid].state == NotModified && s.refs[oid].obj != NULL
    requires Step(s, ObjectSpec.Remove(oid), s1) && Step(s1, ObjectSpec.Mark(oid, s.refs[oid].obj), s2)
    ensures Pending(s2, oid) && s2.refs[oid].state == Modified && oid !in s2.store && !s2.rollback
  {
  }

  lemma RemovedKeepsObject<C>(s: Session<C>, oid: Oid, s1: Session<C>)
    requires oid in s.refs && Step(s, ObjectSpec.Remove(oid), s1) && s.refs[oid].state == NotModified
    ensures oid in s1.refs && s1.refs[oid] == s.refs[oid].(state := RemovedFetched) && s1.rollback == s.rollback && s1.memory == s.memory
  {
  }

  lemma FetchedPlace<C>(s: Session<C>, oid: Oid, codec: Codec<C>, place: Ptr, c: C, s1: Session<C>)
    requires Step(s, ObjectSpec.Fetch(oid, codec, place, Some(c), true, false), s1)
    ensures oid in s1.refs && s1.refs[oid].state == NotModified && s1.refs[oid].obj == place != NULL && place in s1.memory
    ensures !s1.rollback && s1.store == s.store && oid in s1.store
  {
  }

  lemma ReferredEmpty<C>(s: Session<C>, oid: Oid, codec: Codec<C>, s1: Session<C>)
    requires Step(s, Refer(oid, codec), s1)
    ensures oid in s1.refs && s1.refs[oid] == Ref(codec, Empty, NULL) && s1 == s.(refs := s1.refs)
  {
  }

  /** A reference to an object that has been fetched and not changed. */
  ghost predicate Clean<C>(layer: ObjectLayer<C>, r: Reference<C>)
    reads layer, layer.owned
  {
    && layer.Valid() && r in layer.owned && r.oid in layer.oids && layer.oids[r.oid] == r
    && r.oid in layer.s.refs && layer.s.refs[r.oid].state == NotModified && layer.s.refs[r.oid].obj != NULL
    && layer.s.refs[r.oid].obj in layer.memory && !layer.s.rollback && r.oid in layer.s.store
  }

  method FetchNew<C>(codec: Codec<C>, oid: Oid, data: Bytes, place: Ptr) returns (layer: ObjectLayer<C>, r: Reference<C>)
    requires codec.deserialize(data).Some? && place != NULL
    ensures fresh(layer) && fresh(layer.owned) && Clean(layer, r)
  {
    hide Inv, Tables, Step;
    layer := new ObjectLayer<C>(map[oid := data], map[]);
    ghost var s0 := layer.s;
    ghost var e;
    r, e := layer.ReferenceByOid(oid, codec);
    ghost var s1 := layer.s;
    ReferredEmpty(s0, oid, codec, s1);
    FoundById(layer.oids, layer.ptrs, layer.owned, s1.refs, oid);
    var error;
    error, e := layer.Dereference(r, false, false, place, None);
    FetchedPlace(s1, oid, codec, place, codec.deserialize(data).value, layer.s);
  }

  /** An object that is fetched, removed, marked again and removed once more is reported not to
      exist, although it was about to be written. */
  method RemoveAgain<C>(layer: ObjectLayer<C>, r: Reference<C>) returns (first: Error, marked: Error, second: Error, ghost before: Session<C>)
    requires Clean(layer, r)
    modifies layer, layer.owned
    ensures first == NoError && marked == NoError && Pending(before, r.oid) && second == NotFound
  {
    hide Inv, Tables, Step, Pending;
    ghost var s2, e, oid := layer.s, Quiet, r.oid;
    FoundById(layer.oids, layer.ptrs, layer.owned, s2.refs, oid);
    first, e := layer.Remove(r, false);
    ghost var s3 := layer.s;
    RemovedKeepsObject(s2, oid, s3);
    marked, e := layer.Mark(r.obj, r.codec, r.oid, false, false);
    before := layer.s;
    RemarkedIsNotStored(s2, oid, s3, before);
    FoundById(layer.oids, layer.ptrs, layer.owned, before.refs, oid);
    second, e := layer.Remove(r, false);
  }

  /** Such a history exists for every object a store can hold. */
  method RemovedTwice<C>(codec: Codec<C>, oid: Oid, data: Bytes, place: Ptr) returns (first: Error, marked: Error, second: Error)
    requires codec.deserialize(data).Some? && place != NULL
    ensures first == NoError && marked == NoError && second == NotFound
  {
    var layer, r := FetchNew(codec, oid, data, place);
    ghost var before;
    first, marked, second, before := RemoveAgain(layer, r);
  }

  lemma CreatedIsNew<C>(s: Session<C>, ptr: Ptr, codec: Codec<C>, oid: Oid, s1: Session<C>)
    requires Step(s, Create(ptr, codec, oid), s1)
    ensures oid in s1.refs && s1.refs[oid] == Ref(codec, New, ptr)
  {
  }

  /** An object the transaction itself created is removed, and removed again, without a word to
      storage and without an error. */
  method CreatedThenRemoved<C>(start: map<Oid, Bytes>, ptr: Ptr, content: C, codec: Codec<C>, oid: Oid)
    returns (first: Error, second: Error, ghost created: Session<C>, ghost removed: Session<C>)
    requires ptr != NULL && oid !in start
    ensures first == NoError && second == NoError
    ensures Pending(created, oid) && removed.log == created.log && removed.store == created.store == start && !Pending(removed, oid)
  {
    hide Inv, Tables, Step;
    var layer := new ObjectLayer<C>(start, map[ptr := content]);
    var r;
    ghost var e;
    r, e := layer.CreateReference(ptr, codec, oid, true, false);
    CreatedIsNew(Fresh(start, map[ptr := content]), ptr, codec, oid, layer.s);
    created := layer.s;
    FoundById(layer.oids, layer.ptrs, layer.owned, layer.s.refs, oid);
    assert created.store == start by {
      CreateKeepsStore(Fresh(start, map[ptr := content]), ptr, codec, oid, created);
    }
    first, e := layer.Remove(r, false);
    second, e := layer.Remove(r, false);
    removed := layer.s;
    FoundById(layer.oids, layer.ptrs, layer.owned, layer.s.refs, oid);
  }

  lemma CreateKeepsStore<C>(s: Session<C>, ptr: Ptr, codec: Codec<C>, oid: Oid, s1: Session<C>)
    requires Step(s, Create(ptr, codec, oid), s1)
    ensures s1.store == s.store
  {
  }
}
