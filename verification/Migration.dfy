/**
 The migration tool's walk over an application's objects: every object bound under a name
 beginning with "o." and every object reachable from one is handed to the migration once.
 Objects are named by their ids as the stores hold them.
 */
module Migrations {
  import opened Keys
  import opened Lists
  import opened ServerSpec

  /** An object id as the stores hold it. */
  type OidKey = Value

  /** An object, as far as the walk can see: the ids its reference fields hold. */
  type Object = seq<OidKey>

  /** What the callback makes of an object. */
  datatype Verdict = Keep | Discard | Replace(successor: Object)

  const PREFIX: Key := [111, 46]

  predicate HasPrefix(k: Key) {
    |k| >= 2 && k[0] == 111 && k[1] == 46
  }

  // What should be visited

  /** The name is one the walk begins from. */
  predicate Root(k: Key) {
    Less(PREFIX, k) && HasPrefix(k)
  }

  /** The names the walk begins from are those with something after "o.". */
  lemma RootIff(k: Key)
    ensures Root(k) <==> PREFIX <= k && |k| > 2
    ensures PREFIX[0] as int == 'o' as int && PREFIX[1] as int == '.' as int
  {
    if HasPrefix(k) {
      assert k[..2] == PREFIX;
      if |k| > 2 {
        ByteOrder(PREFIX, k[2], k[3..], 0, []);
        assert k == PREFIX + [k[2]] + k[3..];
      } else {
        assert k == PREFIX;
        CompareFlip(k, k);
      }
    }
  }

  function References(objects: map<OidKey, Object>, oid: OidKey): Object {
    if oid in objects then objects[oid] else []
  }

  /** The object of the first id is there and holds a reference to the second. */
  ghost predicate Refers(objects: map<OidKey, Object>, oid: OidKey, next: OidKey) {
    oid in objects && next in objects[oid]
  }

  /** A way from a bound object to this one through references. */
  ghost predicate Path(names: map<Key, Value>, objects: map<OidKey, Object>, path: seq<OidKey>) {
    && path != []
    && (exists k :: k in names && Root(k) && names[k] == path[0])
    && (forall i :: 0 < i < |path| ==> Refers(objects, path[i - 1], path[i]))
  }

  ghost predicate Reachable(names: map<Key, Value>, objects: map<OidKey, Object>, oid: OidKey) {
    exists path: seq<OidKey> :: Path(names, objects, path) && path[|path| - 1] == oid
  }

  lemma RootReachable(names: map<Key, Value>, objects: map<OidKey, Object>, k: Key)
    requires k in names && Root(k)
    ensures Reachable(names, objects, names[k])
  {
    assert Path(names, objects, [names[k]]);
  }

  lemma ReferenceReachable(names: map<Key, Value>, objects: map<OidKey, Object>, oid: OidKey, next: OidKey)
    requires Reachable(names, objects, oid) && next in References(objects, oid)
    ensures Reachable(names, objects, next)
  {
    var path :| Path(names, objects, path) && path[|path| - 1] == oid;
    assert Path(names, objects, path + [next]);
  }

  /** Whatever holds the bound objects and is closed under references holds the reachable. */
  lemma {:induction false} ReachableIsLeast(names: map<Key, Value>, objects: map<OidKey, Object>, closed: set<OidKey>, path: seq<OidKey>)
    requires forall k :: k in names && Root(k) ==> names[k] in closed
    requires forall oid, next :: oid in closed && next in References(objects, oid) ==> next in closed
    requires Path(names, objects, path)
    ensures path[|path| - 1] in closed
  {
    var n := |path| - 1;
    if n > 0 {
      assert Path(names, objects, path[..n]);
      ReachableIsLeast(names, objects, closed, path[..n]);
      assert path[n - 1] == path[..n][n - 1];
      assert Refers(objects, path[n - 1], path[n]);
    }
  }

  /** Between two names with the prefix there are only names with the prefix, so that the
      walk over the names may stop at the first without it. */
  lemma PrefixIsContiguous(a: Key, k: Key, b: Key)
    requires Compare(PREFIX, a) <= 0 && Compare(a, k) <= 0 && Compare(k, b) <= 0 && HasPrefix(b)
    ensures HasPrefix(k)
  {
    CompareTrans(PREFIX, a, k);
    assert PREFIX[1..] == [46] && PREFIX[1..][1..] == [];
  }

  // The state of the walk

  /** Everything the walk can come upon. */
  ghost function Universe(names: map<Key, Value>, objects: map<OidKey, Object>): set<OidKey> {
    (set k | k in names :: names[k]) + (set oid, next | oid in objects && next in objects[oid] :: next)
  }

  ghost function NamesAbove(names: map<Key, Value>, from: Bound): set<Key> {
    set k | k in names && Above(from, k)
  }

  /** How many ids the walk may yet come upon for the first time. */
  ghost function Unseen(names: map<Key, Value>, objects: map<OidKey, Object>, visited: set<OidKey>): nat {
    |Universe(names, objects) - visited|
  }

  ghost function NamesLeft(names: map<Key, Value>, cursor: Key): nat {
    |NamesAbove(names, At(cursor))|
  }

  /** The objects after the callback has had its way with those handed to it. */
  ghost predicate Transformed(objects: map<OidKey, Object>, visited: set<OidKey>, verdicts: OidKey -> Verdict, dryRun: bool, objects': map<OidKey, Object>) {
    forall oid ::
      if oid !in visited || oid !in objects || dryRun || verdicts(oid).Keep? then
        (oid in objects' <==> oid in objects) && (oid in objects ==> objects'[oid] == objects[oid])
      else if verdicts(oid).Discard? then oid !in objects'
      else oid in objects' && objects'[oid] == verdicts(oid).successor
  }

  ghost predicate Met(visited: set<OidKey>, pending: seq<OidKey>, oid: OidKey) {
    oid in visited || oid in pending
  }

  /** What holds between objects: only reachable ones have been met, and every reference of
      a visited one has been met. */
  ghost predicate Walk(names: map<Key, Value>, objects: map<OidKey, Object>, visited: set<OidKey>, pending: seq<OidKey>) {
    && (forall oid :: Met(visited, pending, oid) ==> Reachable(names, objects, oid))
    && (forall oid, next :: oid in visited && next in References(objects, oid) ==> Met(visited, pending, next))
  }

  /** The names up to the cursor have been met. */
  ghost predicate NamesMet(names: map<Key, Value>, cursor: Key, visited: set<OidKey>, pending: seq<OidKey>) {
    forall k :: k in names && Root(k) && Compare(k, cursor) <= 0 ==> Met(visited, pending, names[k])
  }

  lemma MetIsInUniverse(names: map<Key, Value>, objects: map<OidKey, Object>, oid: OidKey)
    requires Reachable(names, objects, oid)
    ensures oid in Universe(names, objects)
  {
    var path :| Path(names, objects, path) && path[|path| - 1] == oid;
    var n := |path| - 1;
    if n > 0 {
      assert Refers(objects, path[n - 1], path[n]);
    }
  }

  /** One id is visited: its references, if it has an object, join the queue. */
  lemma WalkVisits(names: map<Key, Value>, objects: map<OidKey, Object>, visited: set<OidKey>, pending: seq<OidKey>, oid: OidKey, pending': seq<OidKey>)
    requires Walk(names, objects, visited, [oid] + pending)
    requires pending' == pending + if oid in visited then [] else References(objects, oid)
    ensures Walk(names, objects, visited + {oid}, pending')
    ensures forall x :: Met(visited, [oid] + pending, x) ==> Met(visited + {oid}, pending', x)
  {
    assert Met(visited, [oid] + pending, oid) by {
      assert ([oid] + pending)[0] == oid;
    }
    forall x | Met(visited + {oid}, pending', x)
      ensures Reachable(names, objects, x)
    {
      if x in References(objects, oid) {
        ReferenceReachable(names, objects, oid, x);
      } else {
        assert Met(visited, [oid] + pending, x);
      }
    }
    forall x, next | x in visited + {oid} && next in References(objects, x)
      ensures Met(visited + {oid}, pending', next)
    {
      if x in visited {
        assert Met(visited, [oid] + pending, next);
      }
    }
  }

  /** Where the walk is: what has been met, and how far the names have been read. */
  ghost predicate Progress(names: map<Key, Value>, objects: map<OidKey, Object>, cursor: Key, visited: set<OidKey>, pending: seq<OidKey>) {
    && Compare(PREFIX, cursor) <= 0
    && Walk(names, objects, visited, pending)
    && NamesMet(names, cursor, visited, pending)
  }

  lemma NextName(names: map<Key, Value>, objects: map<OidKey, Object>, cursor: Key, key: Key, visited: set<OidKey>)
    requires Progress(names, objects, cursor, visited, []) && IsNext(names, At(cursor), At(key)) && HasPrefix(key)
    ensures Progress(names, objects, key, visited, [names[key]])
    ensures NamesLeft(names, key) < NamesLeft(names, cursor)
  {
    CompareTrans(PREFIX, cursor, key);
    RootReachable(names, objects, key);
    var pending := [names[key]];
    assert forall x :: Met(visited, [], x) ==> Met(visited, pending, x);
    assert forall x :: Met(visited, pending, x) ==> Met(visited, [], x) || x == names[key];
    forall k | k in names && Root(k) && Compare(k, key) <= 0
      ensures Met(visited, pending, names[k])
    {
      CompareFlip(cursor, k);
      CompareFlip(key, k);
      if Compare(k, cursor) <= 0 {
        assert Met(visited, [], names[k]);
      } else {
        assert Above(At(cursor), k);
        assert k == key;
      }
    }
    FewerNamesLeft(names, At(cursor), key);
    Smaller(NamesAbove(names, At(key)), NamesAbove(names, At(cursor)));
  }

  lemma Smaller<T>(a: set<T>, b: set<T>)
    requires a < b
    ensures |a| < |b|
  {
    assert b == a + (b - a);
    assert b - a != {};
  }

  /** The cursor cannot run past a name with the prefix. */
  lemma NoNameLeft(names: map<Key, Value>, cursor: Key, next: Bound, visited: set<OidKey>)
    requires NamesMet(names, cursor, visited, []) && IsNext(names, At(cursor), next)
    requires Compare(PREFIX, cursor) <= 0 && (next.Null? || !HasPrefix(next.key))
    ensures forall k :: k in names && Root(k) ==> names[k] in visited
  {
    forall k | k in names && Root(k)
      ensures names[k] in visited
    {
      CompareFlip(cursor, k);
      if Compare(k, cursor) > 0 {
        assert Above(At(cursor), k);
        PrefixIsContiguous(cursor, next.key, k);
      }
      assert Met(visited, [], names[k]);
    }
  }

  lemma FewerNamesLeft(names: map<Key, Value>, cursor: Bound, key: Key)
    requires key in names && Above(cursor, key)
    ensures NamesAbove(names, At(key)) < NamesAbove(names, cursor)
  {
    KeyOrder();
    assert key in NamesAbove(names, cursor) && key !in NamesAbove(names, At(key));
  }

  /** A finished walk has visited exactly the reachable ids. */
  lemma FinishedWalk(names: map<Key, Value>, objects: map<OidKey, Object>, visited: set<OidKey>)
    requires Walk(names, objects, visited, [])
    requires forall k :: k in names && Root(k) ==> names[k] in visited
    ensures forall oid :: oid in visited <==> Reachable(names, objects, oid)
  {
    forall oid
      ensures oid in visited <==> Reachable(names, objects, oid)
    {
      assert oid in visited ==> Met(visited, [], oid);
      forall x, next | x in visited && next in References(objects, x)
        ensures next in visited
      {
        assert Met(visited, [], next);
      }
      if Reachable(names, objects, oid) {
        var path :| Path(names, objects, path) && path[|path| - 1] == oid;
        ReachableIsLeast(names, objects, visited, path);
      }
    }
  }

  lemma NothingWalked(names: map<Key, Value>, objects: map<OidKey, Object>, verdicts: OidKey -> Verdict, dryRun: bool)
    ensures Progress(names, objects, PREFIX, {}, [])
    ensures Transformed(objects, {}, verdicts, dryRun, objects)
  {
    KeyOrder();
  }

  lemma Finished(names: map<Key, Value>, objects: map<OidKey, Object>, cursor: Key, visited: set<OidKey>)
    requires Progress(names, objects, cursor, visited, [])
    requires exists next :: IsNext(names, At(cursor), next) && (next.Null? || !HasPrefix(next.key))
    ensures forall oid :: oid in visited <==> Reachable(names, objects, oid)
  {
    var next :| IsNext(names, At(cursor), next) && (next.Null? || !HasPrefix(next.key));
    NoNameLeft(names, cursor, next, visited);
    FinishedWalk(names, objects, visited);
  }

  lemma Visit(names: map<Key, Value>, objects: map<OidKey, Object>, cursor: Key, visited: set<OidKey>, pending: seq<OidKey>, oid: OidKey)
    requires Progress(names, objects, cursor, visited, [oid] + pending)
    ensures Progress(names, objects, cursor, visited + {oid}, pending + if oid in visited then [] else References(objects, oid))
    ensures oid !in visited ==> Unseen(names, objects, visited + {oid}) < Unseen(names, objects, visited)
  {
    var queue, queue' := [oid] + pending, pending + if oid in visited then [] else References(objects, oid);
    WalkVisits(names, objects, visited, pending, oid, queue');
    assert queue[0] == oid && Met(visited, queue, oid);
    MetIsInUniverse(names, objects, oid);
    if oid !in visited {
      Smaller(Universe(names, objects) - (visited + {oid}), Universe(names, objects) - visited);
    }
  }

  lemma OnlyReachable(names: map<Key, Value>, objects: map<OidKey, Object>, cursor: Key, visited: set<OidKey>, pending: seq<OidKey>)
    requires Progress(names, objects, cursor, visited, pending)
    ensures forall oid :: oid in visited ==> Reachable(names, objects, oid)
  {
    assert forall oid :: oid in visited ==> Met(visited, pending, oid);
  }

  /** Nothing happens to an object before its visit. */
  lemma TransformedApart(objects: map<OidKey, Object>, visited: set<OidKey>, verdicts: OidKey -> Verdict, dryRun: bool, objects': map<OidKey, Object>, oid: OidKey)
    requires Transformed(objects, visited, verdicts, dryRun, objects') && oid !in visited
    ensures References(objects', oid) == References(objects, oid)
    ensures oid in objects' <==> oid in objects
  {
  }

  lemma TransformedMore(objects: map<OidKey, Object>, visited: set<OidKey>, verdicts: OidKey -> Verdict, dryRun: bool, before: map<OidKey, Object>, oid: OidKey, after: map<OidKey, Object>)
    requires Transformed(objects, visited, verdicts, dryRun, before)
    requires after == if oid in visited || dryRun || oid !in before || verdicts(oid).Keep? then before
                      else if verdicts(oid).Discard? then before - {oid}
                      else before[oid := verdicts(oid).successor]
    ensures Transformed(objects, visited + {oid}, verdicts, dryRun, after)
  {
  }

  class Migration {
    const names: map<Key, Value>
    const dryRun: bool
    var objects: map<OidKey, Object>
    var pending: seq<OidKey>
    var visited: set<OidKey>
    var numVisited: nat

    /** The ids handed to the migration transaction, in order. */
    ghost var handed: seq<OidKey>

    /** The visited store and the count agree with what was handed over, each id once. */
    ghost predicate Counted()
      reads this
    {
      Enumerates(handed, visited) && numVisited == |handed|
    }

    constructor (names: map<Key, Value>, objects: map<OidKey, Object>, dryRun: bool)
      ensures this.names == names && this.objects == objects && this.dryRun == dryRun
      ensures pending == [] && visited == {} && Counted()
    {
      this.names, this.objects, this.dryRun := names, objects, dryRun;
      pending, visited, numVisited, handed := [], {}, 0, [];
    }

    /** Appends the ids to the queue. */
    method EnqueueOids(oids: seq<OidKey>)
      modifies this`pending
      ensures pending == old(pending) + oids
    {
      var i := 0;
      while i < |oids|
        invariant 0 <= i <= |oids| && pending == old(pending) + oids[..i]
      {
        pending := pending + [oids[i]];
        i := i + 1;
      }
    }

    /** Hands an id to the migration if it has not been handed over before. The references of
        the object join the queue before the callback sees it; an id without an object has
        none. A failed transaction ends the program. */
    method MigrateObject(oid: OidKey, verdict: Verdict, fails: bool) returns (ok: bool)
      requires Counted()
      modifies this
      ensures Counted() && visited == old(visited) + {oid} && ok == (oid in old(visited) || !fails)
      ensures handed == old(handed) + if oid in old(visited) then [] else [oid]
      ensures pending == old(pending) + if oid in old(visited) then [] else References(old(objects), oid)
      ensures objects == if oid in old(visited) || fails || dryRun || oid !in old(objects) || verdict.Keep? then old(objects)
                         else if verdict.Discard? then old(objects) - {oid}
                         else old(objects)[oid := verdict.successor]
    {
      if oid in visited {
        return true;
      }
      InsertEnumerates(handed, visited, oid, |handed|);
      assert handed[..|handed|] + [oid] + handed[|handed|..] == handed + [oid];
      visited := visited + {oid};
      numVisited := numVisited + 1;
      handed := handed + [oid];
      if oid in objects {
        EnqueueOids(objects[oid]);
        if !fails && !dryRun {
          match verdict
          case Keep =>
          case Discard => objects := objects - {oid};
          case Replace(successor) => objects := objects[oid := successor];
        }
      }
      ok := !fails;
    }

    /** The next name to begin from, if there is one. */
    method NextKey(last: Bound) returns (key: Bound)
      ensures key.At? ==> key.key in names && IsNext(names, if last.Null? then At(PREFIX) else last, key) && HasPrefix(key.key)
      ensures key.Null? ==> exists next :: IsNext(names, if last.Null? then At(PREFIX) else last, next) && (next.Null? || !HasPrefix(next.key))
    {
      key := FirstAbove(names, if last.Null? then At(PREFIX) else last);
      if key.At? && !HasPrefix(key.key) {
        key := Null;
      }
    }

    /** One turn of the migration. */
    method Turn(oid: OidKey, verdicts: OidKey -> Verdict, fails: OidKey -> bool, ghost graph: map<OidKey, Object>, ghost cursor: Key) returns (ok: bool)
      requires Counted() && Progress(names, graph, cursor, visited, [oid] + pending)
      requires Transformed(graph, visited, verdicts, dryRun, objects)
      modifies this
      ensures Counted() && Progress(names, graph, cursor, visited, pending)
      ensures visited == old(visited) + {oid} && ok == (oid in old(visited) || !fails(oid))
      ensures ok ==> Transformed(graph, visited, verdicts, dryRun, objects)
      ensures if oid in old(visited) then visited == old(visited) && pending == old(pending)
              else Unseen(names, graph, visited) < Unseen(names, graph, old(visited))
    {
      hide Transformed, Enumerates, Progress, Unseen, References;
      Visit(names, graph, cursor, visited, pending, oid);
      assert oid in visited ==> visited + {oid} == visited;
      if oid !in visited {
        TransformedApart(graph, visited, verdicts, dryRun, objects, oid);
      }
      ok := MigrateObject(oid, verdicts(oid), fails(oid));
      if ok {
        TransformedMore(graph, old(visited), verdicts, dryRun, old(objects), oid, objects);
      }
    }

    /** The whole migration. It ends, because each turn visits a new id, or uses up a name, or
        shortens the queue. If no transaction fails, it hands over the reachable ids and no
        others, each once, whatever the callback does to the objects as they pass. */
    method Run(verdicts: OidKey -> Verdict, fails: OidKey -> bool) returns (ok: bool)
      requires pending == [] && visited == {} && Counted()
      modifies this
      ensures Counted() && (ok <==> forall oid :: oid in visited ==> !fails(oid))
      ensures forall oid :: oid in visited ==> Reachable(names, old(objects), oid)
      ensures ok ==> forall oid :: Reachable(names, old(objects), oid) ==> oid in visited
      ensures ok ==> Transformed(old(objects), visited, verdicts, dryRun, objects)
    {
      hide Reachable, IsNext, Transformed, Enumerates, Progress, Unseen, NamesLeft;
      ghost var graph := objects;
      var key := Null;
      ghost var cursor := PREFIX;
      NothingWalked(names, graph, verdicts, dryRun);
      ok := true;
      while true
        invariant ok && Counted() && (forall oid :: oid in visited ==> !fails(oid))
        invariant cursor == if key.Null? then PREFIX else key.key
        invariant Progress(names, graph, cursor, visited, pending) && Transformed(graph, visited, verdicts, dryRun, objects)
        decreases Unseen(names, graph, visited), NamesLeft(names, cursor), |pending|
      {
        var oid;
        if pending != [] {
          assert pending == [pending[0]] + pending[1..];
          oid, pending := pending[0], pending[1..];
        } else {
          key := NextKey(key);
          if key.Null? {
            Finished(names, graph, cursor, visited);
            return;
          }
          NextName(names, graph, cursor, key.key, visited);
          oid, cursor := names[key.key], key.key;
          assert [oid] + pending == [oid];
        }
        ok := Turn(oid, verdicts, fails, graph, cursor);
        if !ok {
          OnlyReachable(names, graph, cursor, visited, pending);
          return;
        }
      }
    }
  }
}
