/**
 The in-memory lock table: point locks indexed by key, by timestamp and by node; range
 locks indexed by interval, by timestamp and by node. Every operation keeps the indexes
 in agreement and has exactly the effect `LockSpec` gives it.
 */
module LockTables {
  import opened Keys
  import opened Lists
  import opened LockSpec

  class Lock {
    const node: NodeId
    const key: Key
    var forWrite: bool
    var timestamp: int
    /** The table the lock was made for; tables never share locks. */
    ghost const home: LockTable

    constructor (node: NodeId, key: Key, forWrite: bool, now: int, ghost home: LockTable)
      ensures this.node == node && this.key == key && this.forWrite == forWrite && this.timestamp == now
      ensures this.home == home
    {
      this.home := home;
      this.node := node;
      this.key := key;
      this.forWrite := forWrite;
      this.timestamp := now;
    }
  }

  class RangeLock {
    const node: NodeId
    const range: Interval
    const timestamp: int

    constructor (node: NodeId, range: Interval, now: int)
      ensures this.node == node && this.range == range && this.timestamp == now
    {
      this.node := node;
      this.range := range;
      this.timestamp := now;
    }
  }

  /** What one node holds; newest first. */
  datatype NodeLocks = NodeLocks(locks: seq<Lock>, ranges: seq<RangeLock>)

  /** The lockers of one key; the source reads the key off the first of them. */
  datatype KeyLocks = KeyLocks(key: Key, locks: seq<Lock>)

  // ----- The key index

  ghost function OnKey(held: set<Lock>, k: Key): set<Lock> {
    set l | l in held && l.key == k
  }

  predicate Ascending(locks: seq<KeyLocks>) {
    forall i, j :: 0 <= i < j < |locks| ==> Less(locks[i].key, locks[j].key)
  }

  ghost predicate Lockers(e: KeyLocks, held: set<Lock>) {
    e.locks != [] && Enumerates(e.locks, OnKey(held, e.key))
  }

  predicate HasKey(locks: seq<KeyLocks>, k: Key) {
    exists i :: 0 <= i < |locks| && locks[i].key == k
  }

  /** Keys strictly ascend; each key's list is its lockers, never none; no lock is missing. */
  ghost predicate KeyIndex(locks: seq<KeyLocks>, held: set<Lock>) {
    && Ascending(locks)
    && (forall i :: 0 <= i < |locks| ==> Lockers(locks[i], held))
    && (forall l :: l in held ==> HasKey(locks, l.key))
  }

  ghost predicate OnePerNodeAndKey(held: set<Lock>) {
    forall l, m :: l in held && m in held && l.node == m.node && l.key == m.key ==> l == m
  }

  /** Where the list of the key's lockers is, or -1: `g_sequence_lookup`. */
  function FindKey(locks: seq<KeyLocks>, k: Key): (i: int)
    ensures -1 <= i < |locks|
    ensures i >= 0 ==> locks[i].key == k
    ensures i == -1 ==> !HasKey(locks, k)
  {
    if locks == [] then -1
    else if locks[|locks| - 1].key == k then |locks| - 1
    else FindKey(locks[..|locks| - 1], k)
  }

  /** How many keys of the index come before the key. */
  function KeyPosition(locks: seq<KeyLocks>, k: Key): (p: nat)
    ensures p <= |locks|
    ensures p < |locks| ==> !Less(locks[p].key, k)
    ensures forall i :: 0 <= i < p ==> Less(locks[i].key, k)
  {
    if locks == [] || !Less(locks[0].key, k) then 0
    else
      var p := KeyPosition(locks[1..], k);
      assert forall i :: 0 < i < p + 1 ==> locks[i] == locks[1..][i - 1];
      p + 1
  }

  lemma OtherLockersKept(e: KeyLocks, held: set<Lock>, l: Lock)
    requires Lockers(e, held) && e.key != l.key
    ensures Lockers(e, held + {l}) && Lockers(e, held - {l})
  {
    assert OnKey(held + {l}, e.key) == OnKey(held, e.key) == OnKey(held - {l}, e.key);
  }

  lemma KeysDiffer(locks: seq<KeyLocks>, i: nat, j: nat)
    requires Ascending(locks) && i < |locks| && j < |locks| && i != j
    ensures locks[i].key != locks[j].key
  {
    CompareFlip(locks[i].key, locks[i].key);
  }

  lemma PositionSeparates(locks: seq<KeyLocks>, k: Key, i: nat)
    requires Ascending(locks) && !HasKey(locks, k) && KeyPosition(locks, k) <= i < |locks|
    ensures Less(k, locks[i].key)
  {
    var p := KeyPosition(locks, k);
    CompareFlip(k, locks[p].key);
    if p < i {
      CompareTrans(k, locks[p].key, locks[i].key);
    }
  }

  lemma NewKeyAscending(locks: seq<KeyLocks>, e: KeyLocks)
    requires Ascending(locks) && !HasKey(locks, e.key)
    ensures var p := KeyPosition(locks, e.key); Ascending(locks[..p] + [e] + locks[p..])
  {
    hide Less;
    var p := KeyPosition(locks, e.key);
    forall i | p <= i < |locks|
      ensures Less(e.key, locks[i].key)
    {
      PositionSeparates(locks, e.key, i);
    }
  }

  lemma NewKeyIndexed(locks: seq<KeyLocks>, held: set<Lock>, l: Lock)
    requires KeyIndex(locks, held) && !HasKey(locks, l.key)
    ensures var p := KeyPosition(locks, l.key);
            KeyIndex(locks[..p] + [KeyLocks(l.key, [l])] + locks[p..], held + {l})
  {
    hide Lockers, Ascending, KeyPosition;
    var p := KeyPosition(locks, l.key);
    var e := KeyLocks(l.key, [l]);
    var locks' := locks[..p] + [e] + locks[p..];
    NewKeyAscending(locks, e);
    FirstLocker(held, l, locks);
    forall i | 0 <= i < |locks'|
      ensures Lockers(locks'[i], held + {l})
    {
      if i != p {
        var j := if i < p then i else i - 1;
        assert locks'[i] == locks[j];
        OtherLockersKept(locks[j], held, l);
      }
    }
    forall m | m in held + {l}
      ensures HasKey(locks', m.key)
    {
      if m == l {
        assert locks'[p].key == l.key;
      } else {
        var j :| 0 <= j < |locks| && locks[j].key == m.key;
        assert locks'[if j < p then j else j + 1].key == m.key;
      }
    }
  }

  lemma FirstLocker(held: set<Lock>, l: Lock, locks: seq<KeyLocks>)
    requires (forall m :: m in held ==> HasKey(locks, m.key)) && !HasKey(locks, l.key)
    ensures Lockers(KeyLocks(l.key, [l]), held + {l})
  {
    assert OnKey(held + {l}, l.key) == {l};
  }

  lemma AnotherLocker(e: KeyLocks, held: set<Lock>, l: Lock)
    requires Lockers(e, held) && l !in held && e.key == l.key
    ensures Lockers(KeyLocks(e.key, [l] + e.locks), held + {l})
  {
    InsertEnumerates(e.locks, OnKey(held, l.key), l, 0);
    assert e.locks[..0] + [l] + e.locks[0..] == [l] + e.locks;
    assert OnKey(held + {l}, l.key) == OnKey(held, l.key) + {l};
  }

  lemma SameKeysIndexed(locks: seq<KeyLocks>, held: set<Lock>, l: Lock, i: nat, list: seq<Lock>, held': set<Lock>)
    requires KeyIndex(locks, held) && i < |locks| && locks[i].key == l.key
    requires held' == held + {l} || held' == held - {l}
    requires Lockers(KeyLocks(l.key, list), held')
    ensures KeyIndex(locks[i := KeyLocks(l.key, list)], held')
  {
    hide Lockers, Less;
    var locks' := locks[i := KeyLocks(l.key, list)];
    assert forall j :: 0 <= j < |locks| ==> locks'[j].key == locks[j].key;
    forall j | 0 <= j < |locks'|
      ensures Lockers(locks'[j], held')
    {
      if j != i {
        KeysDiffer(locks, i, j);
        OtherLockersKept(locks[j], held, l);
      }
    }
    forall m | m in held'
      ensures HasKey(locks', m.key)
    {
      if m == l {
        assert locks'[i].key == l.key;
      } else {
        var j :| 0 <= j < |locks| && locks[j].key == m.key;
        assert locks'[j].key == m.key;
      }
    }
  }

  lemma EmptiedKeyDropped(locks: seq<KeyLocks>, held: set<Lock>, l: Lock, i: nat)
    requires KeyIndex(locks, held) && i < |locks| && locks[i].key == l.key && OnKey(held, l.key) == {l}
    ensures KeyIndex(locks[..i] + locks[i + 1..], held - {l})
  {
    hide Lockers, Less;
    var locks' := locks[..i] + locks[i + 1..];
    forall j | 0 <= j < |locks'|
      ensures Lockers(locks'[j], held - {l})
    {
      var k := if j < i then j else j + 1;
      KeysDiffer(locks, i, k);
      OtherLockersKept(locks[k], held, l);
    }
    forall m | m in held - {l}
      ensures HasKey(locks', m.key)
    {
      assert m !in OnKey(held, l.key);
      var j :| 0 <= j < |locks| && locks[j].key == m.key;
      assert locks'[if j < i then j else j - 1].key == m.key;
    }
  }

  /** The index without a lock; a list that goes empty is removed from the sequence. */
  function WithoutLock(locks: seq<KeyLocks>, i: nat, l: Lock): seq<KeyLocks>
    requires i < |locks|
  {
    var rest := Remove(locks[i].locks, l);
    if rest == [] then locks[..i] + locks[i + 1..] else locks[i := KeyLocks(locks[i].key, rest)]
  }

  lemma RemovalIndexed(locks: seq<KeyLocks>, held: set<Lock>, l: Lock, i: nat)
    requires KeyIndex(locks, held) && l in held && i < |locks| && locks[i].key == l.key
    ensures KeyIndex(WithoutLock(locks, i, l), held - {l})
  {
    hide Ascending, HasKey;
    var rest := Remove(locks[i].locks, l);
    assert Lockers(locks[i], held);
    RemoveEnumerates(locks[i].locks, OnKey(held, l.key), l);
    assert OnKey(held - {l}, l.key) == OnKey(held, l.key) - {l};
    if rest == [] {
      EmptiedKeyDropped(locks, held, l, i);
    } else {
      SameKeysIndexed(locks, held, l, i, rest, held - {l});
    }
  }

  // ----- The node index

  ghost function OfNode(held: set<Lock>, n: NodeId): set<Lock> {
    set l | l in held && l.node == n
  }

  ghost function RangesOfNode(registered: set<RangeLock>, n: NodeId): set<RangeLock> {
    set r | r in registered && r.node == n
  }

  function Entry(nodes: map<NodeId, NodeLocks>, n: NodeId): NodeLocks {
    if n in nodes then nodes[n] else NodeLocks([], [])
  }

  /** A node has an entry exactly when it holds something, and the entry lists just that. */
  ghost predicate NodeIndex(nodes: map<NodeId, NodeLocks>, held: set<Lock>, registered: set<RangeLock>) {
    && (forall n: NodeId ::
          && Enumerates(Entry(nodes, n).locks, OfNode(held, n))
          && Enumerates(Entry(nodes, n).ranges, RangesOfNode(registered, n)))
    && (forall n :: n in nodes ==> nodes[n].locks != [] || nodes[n].ranges != [])
  }

  /** Drops the entry of a node that holds nothing any more. */
  function Update(nodes: map<NodeId, NodeLocks>, n: NodeId, entry: NodeLocks): map<NodeId, NodeLocks> {
    if entry.locks == [] && entry.ranges == [] then nodes - {n} else nodes[n := entry]
  }

  lemma NodeUpdated(nodes: map<NodeId, NodeLocks>, held: set<Lock>, registered: set<RangeLock>,
                    n: NodeId, entry: NodeLocks, held': set<Lock>, registered': set<RangeLock>)
    requires NodeIndex(nodes, held, registered)
    requires forall m: NodeId :: m != n ==> OfNode(held', m) == OfNode(held, m) && RangesOfNode(registered', m) == RangesOfNode(registered, m)
    requires Enumerates(entry.locks, OfNode(held', n)) && Enumerates(entry.ranges, RangesOfNode(registered', n))
    ensures NodeIndex(Update(nodes, n, entry), held', registered')
  {
    var nodes' := Update(nodes, n, entry);
    forall m: NodeId
      ensures Enumerates(Entry(nodes', m).locks, OfNode(held', m))
      ensures Enumerates(Entry(nodes', m).ranges, RangesOfNode(registered', m))
    {
      if m != n {
        assert Entry(nodes', m) == Entry(nodes, m);
      } else {
        assert Entry(nodes', m) == entry;
      }
    }
  }

  // ----- The timestamp indexes

  ghost predicate InTimeOrder(s: seq<Lock>)
    reads s
  {
    forall i, j :: 0 <= i < j < |s| ==> s[i].timestamp <= s[j].timestamp
  }

  lemma RemoveKeepsTimeOrder(s: seq<Lock>, l: Lock)
    requires InTimeOrder(s) && l in s
    ensures InTimeOrder(Remove(s, l))
  {
    var i := RemoveSplits(s, l);
    assert forall j :: 0 <= j < |s| - 1 ==> Remove(s, l)[j] == s[if j < i then j else j + 1];
  }

  predicate RangesInTimeOrder(s: seq<RangeLock>) {
    forall i, j :: 0 <= i < j < |s| ==> s[i].timestamp <= s[j].timestamp
  }

  lemma RemoveKeepsRangeOrder(s: seq<RangeLock>, l: RangeLock)
    requires RangesInTimeOrder(s) && l in s
    ensures RangesInTimeOrder(Remove(s, l))
  {
    var i := RemoveSplits(s, l);
    assert forall j :: 0 <= j < |s| - 1 ==> Remove(s, l)[j] == s[if j < i then j else j + 1];
  }

  /** Where `g_sequence_insert_sorted` puts a new timestamp: after its equals. */
  function TimePosition(s: seq<Lock>, t: int): (p: nat)
    reads s
    ensures p <= |s|
    ensures forall i :: 0 <= i < p ==> s[i].timestamp <= t
    ensures p < |s| ==> t < s[p].timestamp
  {
    if s == [] || t < s[0].timestamp then 0
    else
      var p := TimePosition(s[1..], t);
      assert forall i :: 0 < i < p + 1 ==> s[i] == s[1..][i - 1];
      p + 1
  }

  function RangeTimePosition(s: seq<RangeLock>, t: int): (p: nat)
    ensures p <= |s|
    ensures forall i :: 0 <= i < p ==> s[i].timestamp <= t
    ensures p < |s| ==> t < s[p].timestamp
  {
    if s == [] || t < s[0].timestamp then 0
    else
      var p := RangeTimePosition(s[1..], t);
      assert forall i :: 0 < i < p + 1 ==> s[i] == s[1..][i - 1];
      p + 1
  }

  // ----- The range locks on the nodes' lists, counted

  function Tag(r: RangeLock): (NodeId, Interval) {
    (r.node, r.range)
  }

  function TagList(s: seq<RangeLock>): (t: seq<(NodeId, Interval)>)
    ensures |t| == |s| && forall i :: 0 <= i < |s| ==> t[i] == Tag(s[i])
  {
    if s == [] then [] else [Tag(s[0])] + TagList(s[1..])
  }

  ghost function Tags(s: seq<RangeLock>): multiset<(NodeId, Interval)> {
    multiset(TagList(s))
  }

  lemma TagsInsert(s: seq<RangeLock>, p: nat, r: RangeLock)
    requires p <= |s|
    ensures Tags(s[..p] + [r] + s[p..]) == Tags(s) + multiset{Tag(r)}
  {
    hide TagList, Tag;
    var t := TagList(s);
    assert TagList(s[..p] + [r] + s[p..]) == t[..p] + [Tag(r)] + t[p..];
    assert t == t[..p] + t[p..];
  }

  lemma TagsRemove(s: seq<RangeLock>, r: RangeLock)
    requires r in s
    ensures Tags(Remove(s, r)) == Tags(s) - multiset{Tag(r)}
    ensures Tag(r) in Tags(s)
  {
    hide Tags, Tag, Remove;
    var i := RemoveSplits(s, r);
    var rest := s[..i] + s[i + 1..];
    assert rest[..i] + [r] + rest[i..] == s;
    TagsInsert(rest, i, r);
  }

  lemma TagsMember(s: seq<RangeLock>, e: (NodeId, Interval))
    ensures e in Tags(s) <==> exists r :: r in s && Tag(r) == e
  {
    var t := TagList(s);
    if e in Tags(s) {
      var i :| 0 <= i < |t| && t[i] == e;
      assert s[i] in s;
    }
    if r :| r in s && Tag(r) == e {
      var i :| 0 <= i < |s| && s[i] == r;
      assert t[i] == e;
    }
  }

  // ----- The interval tree, as a map from exact bounds

  ghost predicate TreeIndex(ranges: map<Interval, RangeLock>, registered: set<RangeLock>) {
    forall r :: r in ranges ==> ranges[r] in registered && ranges[r].range == r && WellFormed(r)
  }

  ghost function TreeView(ranges: map<Interval, RangeLock>): map<Interval, NodeId> {
    map r | r in ranges :: ranges[r].node
  }

  lemma TreeGains(ranges: map<Interval, RangeLock>, registered: set<RangeLock>, lock: RangeLock)
    requires TreeIndex(ranges, registered) && WellFormed(lock.range)
    ensures TreeIndex(ranges[lock.range := lock], registered + {lock})
    ensures TreeView(ranges[lock.range := lock]) == TreeView(ranges)[lock.range := lock.node]
  {
  }

  lemma TreeLoses(ranges: map<Interval, RangeLock>, registered: set<RangeLock>, lock: RangeLock)
    requires TreeIndex(ranges, registered)
    ensures TreeIndex(ranges - {lock.range}, registered - {lock})
    ensures TreeView(ranges - {lock.range}) == TreeView(ranges) - {lock.range}
  {
  }

  // ----- What the point locks say

  ghost function PointsOf(held: set<Lock>): map<(NodeId, Key), bool>
    requires OnePerNodeAndKey(held)
    reads held
  {
    map l | l in held :: (l.node, l.key) := l.forWrite
  }

  lemma PointsWith(rest: set<Lock>, l: Lock)
    requires l !in rest && OnePerNodeAndKey(rest + {l})
    ensures PointsOf(rest + {l}) == PointsOf(rest)[(l.node, l.key) := l.forWrite]
    ensures (l.node, l.key) !in PointsOf(rest)
  {
    var all, few := PointsOf(rest + {l}), PointsOf(rest);
    forall p
      ensures p in all <==> p in few || p == (l.node, l.key)
    {
      if p in all {
        var m :| m in rest + {l} && (m.node, m.key) == p;
      }
      if p in few {
        var m :| m in rest && (m.node, m.key) == p;
        assert m in rest + {l};
      }
    }
  }

  // ----- The table

  class LockTable {
    var locks: seq<KeyLocks>
    var byTimestamp: seq<Lock>
    var ranges: map<Interval, RangeLock>
    var rangesByTimestamp: seq<RangeLock>
    var nodes: map<NodeId, NodeLocks>
    ghost var held: set<Lock>
    ghost var registered: set<RangeLock>

    ghost predicate PointsValid()
      reads this, held
    {
      && KeyIndex(locks, held)
      && OnePerNodeAndKey(held)
      && Enumerates(byTimestamp, held)
      && InTimeOrder(byTimestamp)
      && (forall l, m :: l in held && m in held && l.forWrite && l.key == m.key ==> l == m)
      && (forall l :: l in held ==> l.home == this)
    }

    ghost predicate RangesValid()
      reads this
    {
      && Enumerates(rangesByTimestamp, registered)
      && RangesInTimeOrder(rangesByTimestamp)
      && TreeIndex(ranges, registered)
    }

    ghost predicate Valid()
      reads this, held
    {
      PointsValid() && RangesValid() && NodeIndex(nodes, held, registered)
    }

    /** What the table means to its callers. */
    ghost function View(): LockState
      requires Valid()
      reads this, held
    {
      LockState(PointsOf(held), TreeView(ranges), Tags(rangesByTimestamp))
    }

    constructor ()
      ensures Valid() && View() == UNLOCKED && held == {}
    {
      locks, byTimestamp, rangesByTimestamp := [], [], [];
      ranges, nodes := map[], map[];
      held, registered := {}, {};
      new;
      assert NodeIndex(nodes, held, registered);
      assert PointsOf({}) == map[] && Tags([]) == multiset{} && TreeView(map[]) == map[];
    }

    /** The indexes never disagree about who excludes whom. */
    lemma ViewIsSound()
      requires Valid()
      ensures Sound(View())
    {
      forall m: NodeId, n: NodeId, k | HoldsWrite(View(), m, k) && Holds(View(), n, k)
        ensures m == n
      {
        var a :| a in held && (a.node, a.key) == (m, k);
        var b :| b in held && (b.node, b.key) == (n, k);
      }
      forall r | r in View().tree
        ensures (View().tree[r], r) in View().listed
      {
        TagsMember(rangesByTimestamp, (ranges[r].node, r));
      }
    }

    /** The lockers of a key, as the key index finds them. */
    lemma LockersOf(k: Key)
      requires Valid()
      ensures var i := FindKey(locks, k);
              && (i == -1 ==> OnKey(held, k) == {})
              && (i >= 0 ==> locks[i].locks != [] && Enumerates(locks[i].locks, OnKey(held, k)))
    {
      var i := FindKey(locks, k);
      assert i >= 0 ==> Lockers(locks[i], held);
    }

    /** `gzochid_lock_check`: does the node already hold the key at this level? */
    method Check(node: NodeId, key: Key, forWrite: bool) returns (ok: bool)
      requires Valid()
      ensures ok <==> if forWrite then HoldsWrite(View(), node, key) else Holds(View(), node, key)
    {
      LockersOf(key);
      var i := FindKey(locks, key);
      ok := false;
      if i >= 0 {
        var l := FindOwner(locks[i].locks, node);
        if l != null {
          assert l in OnKey(held, key);
          assert (l.node, l.key) in PointsOf(held);
          ok := l.forWrite || !forWrite;
        } else {
          assert forall m :: m in held && m.key == key ==> m in OnKey(held, key) && m in locks[i].locks;
        }
      }
    }

    method IndexByKey(l: Lock)
      requires KeyIndex(locks, held) && l !in held
      modifies this`locks
      ensures KeyIndex(locks, held + {l})
    {
      var i := FindKey(locks, l.key);
      if i >= 0 {
        AnotherLocker(locks[i], held, l);
        SameKeysIndexed(locks, held, l, i, [l] + locks[i].locks, held + {l});
        locks := locks[i := KeyLocks(l.key, [l] + locks[i].locks)];
      } else {
        NewKeyIndexed(locks, held, l);
        var p := KeyPosition(locks, l.key);
        locks := locks[..p] + [KeyLocks(l.key, [l])] + locks[p..];
      }
    }

    method UnindexByKey(l: Lock)
      requires KeyIndex(locks, held) && l in held
      modifies this`locks
      ensures KeyIndex(locks, held - {l})
    {
      hide Ascending, Lockers;
      var i := FindKey(locks, l.key);
      assert HasKey(locks, l.key);
      RemovalIndexed(locks, held, l, i);
      locks := WithoutLock(locks, i, l);
    }

    method IndexByTime(l: Lock, ghost rest: set<Lock>)
      requires Enumerates(byTimestamp, rest) && InTimeOrder(byTimestamp) && l !in rest
      modifies this`byTimestamp
      ensures Enumerates(byTimestamp, rest + {l}) && InTimeOrder(byTimestamp)
    {
      var q := TimePosition(byTimestamp, l.timestamp);
      InsertEnumerates(byTimestamp, rest, l, q);
      byTimestamp := byTimestamp[..q] + [l] + byTimestamp[q..];
    }

    method UnindexByTime(l: Lock)
      requires Enumerates(byTimestamp, held) && InTimeOrder(byTimestamp) && l in held
      modifies this`byTimestamp
      ensures Enumerates(byTimestamp, held - {l}) && InTimeOrder(byTimestamp)
    {
      RemoveEnumerates(byTimestamp, held, l);
      RemoveKeepsTimeOrder(byTimestamp, l);
      byTimestamp := Remove(byTimestamp, l);
    }

    method IndexByNode(l: Lock)
      requires NodeIndex(nodes, held, registered) && l !in held
      modifies this`nodes
      ensures NodeIndex(nodes, held + {l}, registered)
    {
      var entry := Entry(nodes, l.node);
      InsertEnumerates(entry.locks, OfNode(held, l.node), l, 0);
      assert entry.locks[..0] + [l] + entry.locks[0..] == [l] + entry.locks;
      assert OfNode(held + {l}, l.node) == OfNode(held, l.node) + {l};
      assert forall m: NodeId :: m != l.node ==> OfNode(held + {l}, m) == OfNode(held, m);
      NodeUpdated(nodes, held, registered, l.node, entry.(locks := [l] + entry.locks), held + {l}, registered);
      nodes := nodes[l.node := entry.(locks := [l] + entry.locks)];
    }

    /** Registers a lock of a node that has none on the key, beside compatible ones. */
    method AddLock(node: NodeId, key: Key, forWrite: bool, now: int)
      requires Valid()
      requires forall l :: l in held && l.key == key ==> l.node != node && !l.forWrite && !forWrite
      modifies this
      ensures Valid() && fresh(held - old(held)) && old(held) <= held
      ensures View() == PointGranted(old(View()), node, key, forWrite)
    {
      hide KeyIndex, NodeIndex, TreeIndex, TreeView, Enumerates, PointsOf, Tags, InTimeOrder, RangesInTimeOrder;
      ghost var points := PointsOf(held);
      var l := new Lock(node, key, forWrite, now, this);
      assert OnePerNodeAndKey(held + {l});
      IndexByNode(l);
      IndexByKey(l);
      IndexByTime(l, held);
      PointsWith(held, l);
      held := held + {l};
      assert PointsOf(held) == points[(node, key) := forWrite];
    }

    /** Turns the only lock on its key into a write lock; it counts as new in the time order. */
    method Upgrade(l: Lock, now: int)
      requires Valid() && l in held
      requires forall m :: m in held && m.key == l.key ==> m == l
      modifies this`byTimestamp, l
      ensures Valid()
      ensures View() == PointGranted(old(View()), l.node, l.key, true)
    {
      hide KeyIndex, NodeIndex, TreeIndex, TreeView, Enumerates, PointsOf, Tags, InTimeOrder, RangesInTimeOrder;
      ghost var rest := held - {l};
      assert rest + {l} == held;
      PointsWith(rest, l);
      UnindexByTime(l);
      l.forWrite := true;
      l.timestamp := now;
      IndexByTime(l, rest);
      PointsWith(rest, l);
    }

    /** How the callers' view reads off the locks themselves. */
    lemma ViewOfPoints()
      requires Valid()
      ensures forall l :: l in held ==> Holds(View(), l.node, l.key) && HoldsWrite(View(), l.node, l.key) == l.forWrite
      ensures forall n: NodeId, k :: Holds(View(), n, k) ==> exists l :: l in held && l.node == n && l.key == k
    {
      hide KeyIndex, NodeIndex, Enumerates, Tags;
      var v := View();
      forall l | l in held
        ensures Holds(v, l.node, l.key) && HoldsWrite(v, l.node, l.key) == l.forWrite
      {
        assert (l.node, l.key) in PointsOf(held);
      }
      forall n: NodeId, k | Holds(v, n, k)
        ensures exists l :: l in held && l.node == n && l.key == k
      {
        var l :| l in held && (l.node, l.key) == (n, k);
      }
    }

    predicate Covering(r: Interval, key: Key, node: NodeId)
      reads this
    {
      r in ranges && ranges[r].node != node && Inside(key, r)
    }

    /** The stamp belongs to a point lock another node holds on the key, or to the newest
        foreign range lock over it. */
    ghost predicate ConflictStamp(node: NodeId, key: Key, stamp: int)
      reads this, held
    {
      || (exists l :: l in held && l.key == key && l.node != node && l.timestamp == stamp)
      || (exists r :: Covering(r, key, node) && ranges[r].timestamp == stamp
                      && forall t :: Covering(t, key, node) ==> ranges[t].timestamp <= stamp)
    }

    /** The newest range lock of another node over the key; the tree reports the candidates
        in no particular order. */
    method MostRecentCovering(key: Key, node: NodeId) returns (found: RangeLock?)
      requires Valid()
      ensures found == null <==> !ForeignCover(View(), node, key)
      ensures found != null ==> ConflictStamp(node, key, found.timestamp)
    {
      var todo := set r | r in ranges && Inside(key, r);
      found := null;
      while todo != {}
        invariant todo <= set r | r in ranges && Inside(key, r)
        invariant found != null ==> Covering(found.range, key, node) && ranges[found.range] == found
        invariant forall t :: Covering(t, key, node) && t !in todo ==> found != null && ranges[t].timestamp <= found.timestamp
        decreases |todo|
      {
        var r :| r in todo;
        todo := todo - {r};
        var lock := ranges[r];
        if lock.node != node && (found == null || found.timestamp < lock.timestamp) {
          found := lock;
        }
      }
      assert forall r :: r in ranges ==> TreeView(ranges)[r] == ranges[r].node;
    }

    /** The node already has a lock on the key. */
    method Regrant(l: Lock, forWrite: bool, now: int) returns (granted: bool, conflict: int)
      requires Valid() && l in held
      modifies this`byTimestamp, l
      ensures Valid()
      ensures granted <==> PointGrantable(old(View()), l.node, l.key, forWrite)
      ensures View() == if granted then PointGranted(old(View()), l.node, l.key, forWrite) else old(View())
      ensures !granted ==> ConflictStamp(l.node, l.key, conflict)
    {
      hide KeyIndex, NodeIndex, TreeIndex, TreeView, Enumerates, PointsOf, Tags, InTimeOrder, RangesInTimeOrder;
      ghost var before := View();
      ViewOfPoints();
      ViewIsSound();
      conflict := 0;
      if l.forWrite || !forWrite {
        granted := true;
        assert PointGranted(before, l.node, l.key, forWrite) == before by {
          assert before.points[(l.node, l.key)] == l.forWrite;
        }
        return;
      }
      var rival := FirstOther(l);
      if rival != null {
        assert Holds(before, rival.node, rival.key);
        return false, rival.timestamp;
      }
      var cover := MostRecentCovering(l.key, l.node);
      if cover != null {
        return false, cover.timestamp;
      }
      Upgrade(l, now);
      granted := true;
    }

    /** The first other locker of the lock's key. */
    method FirstOther(l: Lock) returns (rival: Lock?)
      requires Valid() && l in held
      ensures rival != null ==> rival in held && rival.key == l.key && rival.node != l.node
      ensures rival == null ==> forall m :: m in held && m.key == l.key ==> m == l
    {
      LockersOf(l.key);
      var i := FindKey(locks, l.key);
      assert l in OnKey(held, l.key);
      var list := locks[i].locks;
      assert forall m :: m in held && m.key == l.key ==> m in OnKey(held, l.key) && m in list;
      rival := null;
      var j := 0;
      while j < |list|
        invariant 0 <= j <= |list|
        invariant forall m :: m in list[..j] ==> m.node == l.node
      {
        assert list[j] in OnKey(held, l.key);
        if list[j].node != l.node {
          return list[j];
        }
        j := j + 1;
      }
      assert list[..j] == list;
    }

    /** `gzochid_lock_check_and_set`: grants exactly what the rules allow, and on refusal
        gives the stamp of a lock that stands in the way. */
    method CheckAndSet(node: NodeId, key: Key, forWrite: bool, now: int) returns (granted: bool, conflict: int)
      requires Valid()
      modifies this, held
      ensures Valid() && fresh(held - old(held)) && old(held) <= held
      ensures granted <==> PointGrantable(old(View()), node, key, forWrite)
      ensures View() == if granted then PointGranted(old(View()), node, key, forWrite) else old(View())
      ensures !granted ==> ConflictStamp(node, key, conflict)
    {
      hide KeyIndex, NodeIndex, PointsOf, Tags, InTimeOrder, RangesInTimeOrder;
      ghost var before := View();
      ViewOfPoints();
      LockersOf(key);
      var i := FindKey(locks, key);
      assert forall m :: m in held && m.key == key ==> m in OnKey(held, key);
      if i >= 0 {
        var own := FindOwner(locks[i].locks, node);
        if own != null {
          assert own in OnKey(held, key);
          granted, conflict := Regrant(own, forWrite, now);
          return;
        }
        assert !Holds(before, node, key);
        var first := locks[i].locks[0];
        assert first in OnKey(held, key);
        if forWrite || first.forWrite {
          assert Holds(before, first.node, key);
          assert HoldsWrite(before, first.node, key) == first.forWrite;
          return false, first.timestamp;
        }
      } else if forWrite {
        assert !Holds(before, node, key);
        var cover := MostRecentCovering(key, node);
        if cover != null {
          return false, cover.timestamp;
        }
      }
      assert forall m :: m in held && m.key == key ==> !m.forWrite && !forWrite;
      forall m: NodeId | Holds(before, m, key)
        ensures !forWrite && !HoldsWrite(before, m, key)
      {
        var l :| l in held && l.node == m && l.key == key;
        assert HoldsWrite(before, l.node, l.key) == l.forWrite;
      }
      AddLock(node, key, forWrite, now);
      granted, conflict := true, 0;
    }

    method UnindexByNode(l: Lock)
      requires NodeIndex(nodes, held, registered) && l in held
      modifies this`nodes
      ensures NodeIndex(nodes, held - {l}, registered)
      ensures Entry(nodes, l.node).locks == Remove(Entry(old(nodes), l.node).locks, l)
      ensures Entry(nodes, l.node).ranges == Entry(old(nodes), l.node).ranges
    {
      var entry := Entry(nodes, l.node);
      assert l in OfNode(held, l.node);
      RemoveEnumerates(entry.locks, OfNode(held, l.node), l);
      assert OfNode(held - {l}, l.node) == OfNode(held, l.node) - {l};
      assert forall m: NodeId :: m != l.node ==> OfNode(held - {l}, m) == OfNode(held, m);
      var entry' := entry.(locks := Remove(entry.locks, l));
      NodeUpdated(nodes, held, registered, l.node, entry', held - {l}, registered);
      nodes := Update(nodes, l.node, entry');
    }

    /** `remove_lock`: takes the lock out of all three indexes. */
    method RemoveLock(l: Lock)
      requires Valid() && l in held
      modifies this
      ensures Valid() && held == old(held) - {l}
      ensures View() == PointReleased(old(View()), l.node, l.key)
      ensures Entry(nodes, l.node).locks == Remove(Entry(old(nodes), l.node).locks, l)
      ensures Entry(nodes, l.node).ranges == Entry(old(nodes), l.node).ranges
    {
      hide KeyIndex, NodeIndex, TreeIndex, TreeView, Enumerates, PointsOf, Tags, InTimeOrder, RangesInTimeOrder, Remove, Entry, WellFormed;
      ghost var rest := held - {l};
      assert rest + {l} == held;
      PointsWith(rest, l);
      UnindexByKey(l);
      UnindexByTime(l);
      UnindexByNode(l);
      held := rest;
      assert PointsOf(rest) == PointsOf(rest)[(l.node, l.key) := l.forWrite] - {(l.node, l.key)};
    }

    /** `gzochid_lock_release`: read and write locks are released completely. */
    method Release(node: NodeId, key: Key)
      requires Valid()
      modifies this
      ensures Valid() && held <= old(held)
      ensures View() == PointReleased(old(View()), node, key)
    {
      hide KeyIndex, NodeIndex, PointsOf, Tags, InTimeOrder, RangesInTimeOrder;
      ghost var before := View();
      ViewOfPoints();
      LockersOf(key);
      var i := FindKey(locks, key);
      assert forall m :: m in held && m.key == key ==> m in OnKey(held, key);
      if i >= 0 {
        var own := FindOwner(locks[i].locks, node);
        if own != null {
          assert own in OnKey(held, key);
          RemoveLock(own);
          return;
        }
      }
      assert !Holds(before, node, key);
      assert before.points - {(node, key)} == before.points;
    }

    // ----- Range locks

    method IndexRangeByTime(lock: RangeLock)
      requires Enumerates(rangesByTimestamp, registered) && RangesInTimeOrder(rangesByTimestamp) && lock !in registered
      modifies this`rangesByTimestamp
      ensures Enumerates(rangesByTimestamp, registered + {lock}) && RangesInTimeOrder(rangesByTimestamp)
      ensures Tags(rangesByTimestamp) == Tags(old(rangesByTimestamp)) + multiset{Tag(lock)}
    {
      hide Tags;
      var q := RangeTimePosition(rangesByTimestamp, lock.timestamp);
      InsertEnumerates(rangesByTimestamp, registered, lock, q);
      TagsInsert(rangesByTimestamp, q, lock);
      rangesByTimestamp := rangesByTimestamp[..q] + [lock] + rangesByTimestamp[q..];
    }

    method UnindexRangeByTime(lock: RangeLock)
      requires Enumerates(rangesByTimestamp, registered) && RangesInTimeOrder(rangesByTimestamp) && lock in registered
      modifies this`rangesByTimestamp
      ensures Enumerates(rangesByTimestamp, registered - {lock}) && RangesInTimeOrder(rangesByTimestamp)
      ensures Tags(rangesByTimestamp) == Tags(old(rangesByTimestamp)) - multiset{Tag(lock)}
    {
      hide Tags;
      RemoveEnumerates(rangesByTimestamp, registered, lock);
      RemoveKeepsRangeOrder(rangesByTimestamp, lock);
      TagsRemove(rangesByTimestamp, lock);
      rangesByTimestamp := Remove(rangesByTimestamp, lock);
    }

    method RegisterRange(lock: RangeLock)
      requires Valid() && lock !in registered && WellFormed(lock.range)
      modifies this`ranges, this`rangesByTimestamp, this`nodes, this`registered
      ensures Valid()
      ensures View() == RangeGranted(old(View()), lock.node, lock.range)
    {
      hide KeyIndex, NodeIndex, TreeIndex, TreeView, Enumerates, PointsOf, InTimeOrder, RangesInTimeOrder, Tags, WellFormed;
      TreeGains(ranges, registered, lock);
      ranges := ranges[lock.range := lock];
      IndexRangeByTime(lock);
      IndexRangeByNode(lock);
      registered := registered + {lock};
    }

    method IndexRangeByNode(lock: RangeLock)
      requires NodeIndex(nodes, held, registered) && lock !in registered
      modifies this`nodes
      ensures NodeIndex(nodes, held, registered + {lock})
    {
      var entry := Entry(nodes, lock.node);
      InsertEnumerates(entry.ranges, RangesOfNode(registered, lock.node), lock, 0);
      assert entry.ranges[..0] + [lock] + entry.ranges[0..] == [lock] + entry.ranges;
      assert RangesOfNode(registered + {lock}, lock.node) == RangesOfNode(registered, lock.node) + {lock};
      assert forall m: NodeId :: m != lock.node ==> RangesOfNode(registered + {lock}, m) == RangesOfNode(registered, m);
      NodeUpdated(nodes, held, registered, lock.node, entry.(ranges := [lock] + entry.ranges), held, registered + {lock});
      nodes := nodes[lock.node := entry.(ranges := [lock] + entry.ranges)];
    }

    method UnindexRangeByNode(lock: RangeLock)
      requires NodeIndex(nodes, held, registered) && lock in registered
      modifies this`nodes
      ensures NodeIndex(nodes, held, registered - {lock})
      ensures Entry(nodes, lock.node).ranges == Remove(Entry(old(nodes), lock.node).ranges, lock)
    {
      var entry := Entry(nodes, lock.node);
      assert lock in RangesOfNode(registered, lock.node);
      RemoveEnumerates(entry.ranges, RangesOfNode(registered, lock.node), lock);
      assert RangesOfNode(registered - {lock}, lock.node) == RangesOfNode(registered, lock.node) - {lock};
      assert forall m: NodeId :: m != lock.node ==> RangesOfNode(registered - {lock}, m) == RangesOfNode(registered, m);
      var entry' := entry.(ranges := Remove(entry.ranges, lock));
      NodeUpdated(nodes, held, registered, lock.node, entry', held, registered - {lock});
      nodes := Update(nodes, lock.node, entry');
    }

    method UnindexByBounds(lock: RangeLock)
      requires TreeIndex(ranges, registered)
      modifies this`ranges
      ensures TreeIndex(ranges, registered - {lock})
      ensures TreeView(ranges) == TreeView(old(ranges)) - {lock.range}
    {
      TreeLoses(ranges, registered, lock);
      ranges := ranges - {lock.range};
    }

    /** `remove_range_lock`: the tree entry is removed by its bounds, whichever lock is there. */
    method RemoveRangeLock(lock: RangeLock)
      requires Valid() && lock in registered
      modifies this`ranges, this`rangesByTimestamp, this`nodes, this`registered
      ensures Valid() && registered == old(registered) - {lock}
      ensures View() == RangeDropped(old(View()), lock.node, lock.range)
      ensures Entry(nodes, lock.node).ranges == Remove(Entry(old(nodes), lock.node).ranges, lock)
    {
      hide KeyIndex, NodeIndex, TreeIndex, TreeView, Enumerates, PointsOf, InTimeOrder, RangesInTimeOrder, Tags, WellFormed, Remove, Entry, OnePerNodeAndKey;
      UnindexByBounds(lock);
      UnindexRangeByTime(lock);
      UnindexRangeByNode(lock);
      registered := registered - {lock};
    }

    /** Looks for a write lock of another node from a position of the key sequence to its
        end, at the first locker of each key only: a writer has no company. */
    method ScanForWriter(start: nat, node: NodeId) returns (writer: Lock?, at: nat)
      requires Valid() && start <= |locks|
      ensures writer != null ==> writer in held && writer.forWrite && writer.node != node
      ensures writer != null ==> start <= at < |locks| && locks[at].key == writer.key
      ensures writer == null ==> forall l, j :: start <= j < |locks| && l in held && l.key == locks[j].key && l.node != node ==> !l.forWrite
    {
      hide NodeIndex, PointsOf, Tags, InTimeOrder, RangesInTimeOrder, Ascending;
      var i := start;
      while i < |locks|
        invariant start <= i <= |locks|
        invariant forall l, j :: start <= j < i && l in held && l.key == locks[j].key && l.node != node ==> !l.forWrite
      {
        assert Lockers(locks[i], held);
        var first := locks[i].locks[0];
        assert first in OnKey(held, locks[i].key);
        if first.forWrite && first.node != node {
          return first, i;
        }
        i := i + 1;
      }
      writer, at := null, 0;
    }

    /** The stamp belongs to another node's range that meets the requested one, or to another
        node's write lock. */
    ghost predicate RangeConflictStamp(node: NodeId, r: Interval, stamp: int)
      reads this, held
    {
      || (exists t :: t in ranges && ranges[t].node != node && Overlap(t, r) && ranges[t].timestamp == stamp)
      || (exists l :: l in held && l.forWrite && l.node != node && l.timestamp == stamp
                      && (r.lower.At? ==> Compare(r.lower.key, l.key) <= 0))
    }

    /** The tree search for another node's range that meets the requested one; it stops at
        the first it finds. */
    method FindOverlapping(node: NodeId, r: Interval, overlooked: set<Interval>) returns (found: RangeLock?)
      requires Valid() && WellFormed(r)
      ensures found != null ==> ForeignOverlap(View(), node, r) && RangeConflictStamp(node, r, found.timestamp)
      ensures found == null ==> forall t :: t in View().tree && View().tree[t] != node && Overlap(t, r) ==> Overlooked(t, r) && OwnsBefore(View(), node, r)
    {
      hide KeyIndex, NodeIndex, Enumerates, PointsOf, Tags, InTimeOrder, RangesInTimeOrder, Overlap, OverlapTest, WellFormed, Overlooked, EndsBefore;
      var stops := exists u :: u in ranges && ranges[u].node == node && EndsBefore(u, r);
      var hits := set t | t in ranges && ranges[t].node != node && OverlapTest(r, t) && !(stops && t in overlooked && Overlooked(t, r));
      forall t | t in ranges
        ensures OverlapTest(r, t) == Overlap(t, r)
      {
        OverlapTestIsOverlap(r, t);
        OverlapIsSymmetric(r, t);
      }
      if hits == {} {
        forall t | t in View().tree && View().tree[t] != node && Overlap(t, r)
          ensures Overlooked(t, r) && stops
        {
          assert t !in hits;
        }
        return null;
      }
      var t :| t in hits;
      found := ranges[t];
    }

    /** The search for another node's write lock in the way of the requested range. */
    method FindBlockingWriter(node: NodeId, r: Interval, probe: nat) returns (found: Lock?)
      requires Valid()
      ensures found != null ==> if r.lower.At? then BlockedFrom(View(), node, r.lower.key) else exists k :: ForeignWriter(View(), node, k)
      ensures found != null ==> RangeConflictStamp(node, r, found.timestamp)
      ensures found == null && r.lower.At? ==> !BlockedFrom(View(), node, r.lower.key)
    {
      hide KeyIndex, NodeIndex, Enumerates, PointsOf, Tags, InTimeOrder, RangesInTimeOrder, BlockedFrom;
      var start := if r.lower.At? then FindKey(locks, r.lower.key) else if locks == [] then -1 else probe % |locks|;
      found := null;
      if start >= 0 {
        var at;
        found, at := ScanForWriter(start, node);
        if found != null {
          ViewOfPoints();
          assert HoldsWrite(View(), found.node, found.key);
          assert ForeignWriter(View(), node, found.key);
          if r.lower.At? {
            Blocked(node, r.lower.key, start, found, at);
          }
          return;
        }
      }
      if r.lower.At? {
        Unblocked(node, r.lower.key);
      }
    }

    /** `gzochid_lock_range_check_and_set`. `overlooked` are stored ranges the tree search does
        not reach when it is open below, and `probe` where the key sequence is entered then. */
    method RangeCheckAndSet(node: NodeId, r: Interval, now: int, overlooked: set<Interval>, probe: nat)
      returns (granted: bool, conflict: int)
      requires Valid() && WellFormed(r)
      modifies this`ranges, this`rangesByTimestamp, this`nodes, this`registered
      ensures Valid()
      ensures RangeAnswer(old(View()), node, r, granted)
      ensures View() == if granted then RangeGranted(old(View()), node, r) else old(View())
      ensures !granted ==> RangeConflictStamp(node, r, conflict)
    {
      hide KeyIndex, NodeIndex, Enumerates, PointsOf, Tags, InTimeOrder, RangesInTimeOrder, BlockedFrom, ForeignWriter, Overlap, WellFormed;
      var rival := FindOverlapping(node, r, overlooked);
      if rival != null {
        return false, rival.timestamp;
      }
      var writer := FindBlockingWriter(node, r, probe);
      if writer != null {
        return false, writer.timestamp;
      }
      var lock := new RangeLock(node, r, now);
      RegisterRange(lock);
      granted, conflict := true, 0;
    }

    /** A foreign write lock at a position at or after the lower bound's blocks the range. */
    lemma Blocked(node: NodeId, k: Key, start: nat, writer: Lock, i: nat)
      requires Valid() && writer in held && writer.forWrite && writer.node != node
      requires start <= i < |locks| && locks[start].key == k && locks[i].key == writer.key
      ensures BlockedFrom(View(), node, k) && Compare(k, writer.key) <= 0
    {
      hide NodeIndex, PointsOf, Tags, InTimeOrder, RangesInTimeOrder;
      ViewOfPoints();
      var v := View();
      assert Lockers(locks[start], held);
      var first := locks[start].locks[0];
      assert first in OnKey(held, k) && Holds(v, first.node, k);
      assert HoldsWrite(v, writer.node, writer.key);
      CompareFlip(k, k);
      assert Compare(k, writer.key) <= 0;
    }

    /** What the scan of the key sequence has to have found for the range not to be blocked. */
    lemma Unblocked(node: NodeId, k: Key)
      requires Valid()
      requires var start := FindKey(locks, k);
               start >= 0 ==> forall l, j :: start <= j < |locks| && l in held && l.key == locks[j].key && l.node != node ==> !l.forWrite
      ensures !BlockedFrom(View(), node, k)
    {
      hide NodeIndex, PointsOf, Tags, InTimeOrder, RangesInTimeOrder, Enumerates;
      ViewOfPoints();
      var v := View();
      var start := FindKey(locks, k);
      if start >= 0 {
        forall m: NodeId, j | m != node && HoldsWrite(v, m, j)
          ensures Compare(k, j) > 0
        {
          assert Holds(v, m, j);
          var l :| l in held && l.node == m && l.key == j;
          assert HoldsWrite(v, l.node, l.key) == l.forWrite;
          var i :| 0 <= i < |locks| && locks[i].key == j;
          CompareFlip(j, k);
        }
      }
    }

    /** `gzochid_lock_release_range`: the tree is searched for the lower bound as a point, for
        an entry with exactly these bounds and this owner. */
    method ReleaseRange(node: NodeId, r: Interval)
      requires Valid()
      modifies this`ranges, this`rangesByTimestamp, this`nodes, this`registered
      ensures Valid()
      ensures View() == RangeReleased(old(View()), node, r)
    {
      hide KeyIndex, NodeIndex, Enumerates, PointsOf, Tags, InTimeOrder, RangesInTimeOrder;
      if r.lower.At? {
        CompareFlip(r.lower.key, r.lower.key);
      }
      if r in ranges && CompareNullFirst(r.lower, r.lower) >= 0 && CompareNullLast(r.lower, r.upper) <= 0
         && ranges[r].node == node {
        RemoveRangeLock(ranges[r]);
      }
    }

    // ----- Disconnection

    /** The first half: the node's list of point locks is walked while each visit shortens it. */
    method ReleasePoints(node: NodeId)
      requires Valid()
      modifies this
      ensures Valid() && held <= old(held)
      ensures Entry(nodes, node).locks == []
      ensures Entry(nodes, node).ranges == Entry(old(nodes), node).ranges
      ensures View().tree == old(View()).tree && View().listed == old(View()).listed
      ensures View().points == map p | p in old(View()).points && p.0 != node :: old(View()).points[p]
    {
      hide KeyIndex, TreeIndex, TreeView, PointsOf, Tags, InTimeOrder, RangesInTimeOrder;
      ghost var before := View();
      var list := Entry(nodes, node).locks;
      var i := 0;
      while i < |list|
        invariant 0 <= i <= |list|
        invariant Valid() && held <= old(held)
        invariant Entry(nodes, node).locks == list[i..]
        invariant Entry(nodes, node).ranges == Entry(old(nodes), node).ranges
        invariant View().tree == before.tree && View().listed == before.listed
        invariant forall p :: p in View().points ==> p in before.points && View().points[p] == before.points[p]
        invariant forall p :: p in before.points && p.0 != node ==> p in View().points
      {
        assert list[i] in Entry(nodes, node).locks;
        assert list[i] in OfNode(held, node);
        RemoveLock(list[i]);
        i := i + 1;
      }
      NoPointsLeft(node);
      assert forall p :: p in View().points ==> Holds(View(), p.0, p.1);
    }

    lemma NoPointsLeft(node: NodeId)
      requires Valid() && Entry(nodes, node).locks == []
      ensures forall k :: !Holds(View(), node, k)
    {
      ViewOfPoints();
      assert forall l :: l in held ==> l !in OfNode(held, node);
    }

    lemma NoRangesLeft(node: NodeId)
      requires Valid() && Entry(nodes, node).ranges == []
      ensures forall r :: (node, r) !in View().listed
    {
      forall r
        ensures (node, r) !in View().listed
      {
        TagsMember(rangesByTimestamp, (node, r));
        assert forall l :: l in registered ==> l !in RangesOfNode(registered, node);
      }
    }

    /** The node's list is what is counted for it. */
    lemma ListedOnEntry(node: NodeId, r: Interval)
      requires Valid()
      ensures (node, r) in View().listed <==> exists l :: l in Entry(nodes, node).ranges && l.range == r
    {
      TagsMember(rangesByTimestamp, (node, r));
      var list := Entry(nodes, node).ranges;
      assert forall l :: l in registered && l.node == node <==> l in RangesOfNode(registered, node);
      assert forall l :: l in list <==> l in RangesOfNode(registered, node);
    }

    lemma ListedIsRegistered(node: NodeId, l: RangeLock)
      requires Valid() && l in Entry(nodes, node).ranges
      ensures l in registered && l.node == node
    {
      assert l in RangesOfNode(registered, node);
    }

    /** Walks the node's list of range locks while each visit shortens it. */
    method DropRanges(node: NodeId) returns (ghost gone: set<Interval>)
      requires Valid()
      modifies this`ranges, this`rangesByTimestamp, this`nodes, this`registered
      ensures Valid() && Entry(nodes, node).ranges == []
      ensures Dropped(old(View()), View(), node, gone)
      ensures gone == RangesIn(Entry(old(nodes), node).ranges)
    {
      hide KeyIndex, NodeIndex, TreeIndex, TreeView, Enumerates, PointsOf, Tags, InTimeOrder, RangesInTimeOrder, Entry, OnePerNodeAndKey, RangesIn, Dropped;
      var list := Entry(nodes, node).ranges;
      gone := RangesIn([]);
      NothingDropped(View(), node);
      assert list[0..] == list && list[..0] == [];
      var i := 0;
      while i < |list|
        invariant 0 <= i <= |list|
        invariant Valid() && Entry(nodes, node).ranges == list[i..]
        invariant Dropped(old(View()), View(), node, gone)
        invariant gone == RangesIn(list[..i])
      {
        assert list[i] in list[i..];
        ListedIsRegistered(node, list[i]);
        DropOne(old(View()), View(), node, gone, list[i].range);
        RemoveRangeLock(list[i]);
        gone := gone + {list[i].range};
        RangesInGrows(list, i);
        i := i + 1;
      }
      assert list[..i] == list;
    }

    /** The second half of a disconnection. A tree entry at bounds the node lists goes, whoever
        owns it by now. */
    method ReleaseRanges(node: NodeId)
      requires Valid()
      modifies this`ranges, this`rangesByTimestamp, this`nodes, this`registered
      ensures Valid()
      ensures View().points == old(View()).points
      ensures View().tree == map r | r in old(View()).tree && (node, r) !in old(View()).listed :: old(View()).tree[r]
      ensures forall e :: View().listed[e] == if e.0 == node then 0 else old(View()).listed[e]
    {
      hide KeyIndex, NodeIndex, TreeIndex, TreeView, Enumerates, PointsOf, Tags, InTimeOrder, RangesInTimeOrder, Entry, OnePerNodeAndKey;
      forall r
        ensures (node, r) in View().listed <==> r in RangesIn(Entry(nodes, node).ranges)
      {
        ListedOnEntry(node, r);
      }
      ghost var gone := DropRanges(node);
      NoRangesLeft(node);
      assert forall e: (NodeId, Interval) :: e.0 == node ==> (node, e.1) == e;
    }

    /** `gzochid_lock_release_all`: the effect of a node's disconnection on one table. */
    method ReleaseAll(node: NodeId)
      requires Valid()
      modifies this
      ensures Valid() && held <= old(held)
      ensures View() == AllReleased(old(View()), node)
      ensures HoldsNothing(View(), node)
    {
      ViewIsSound();
      ReleaseAllLeavesNothing(View(), node);
      hide KeyIndex, TreeIndex, NodeIndex, TreeView, PointsOf, Tags, InTimeOrder, RangesInTimeOrder, Enumerates, OnePerNodeAndKey, AllReleased, Sound, WithoutNode;
      ReleaseLists(node);
    }

    method ReleaseLists(node: NodeId)
      requires Valid()
      modifies this
      ensures Valid() && held <= old(held)
      ensures View() == AllReleased(old(View()), node)
    {
      hide KeyIndex, TreeIndex, TreeView, PointsOf, Tags, InTimeOrder, RangesInTimeOrder, Enumerates;
      ghost var before := View();
      if node !in nodes {
        NoPointsLeft(node);
        NoRangesLeft(node);
        NothingToRelease(before, node);
        return;
      }
      ReleasePoints(node);
      if node in nodes {
        ReleaseRanges(node);
      } else {
        NoRangesLeft(node);
      }
      assert View().listed == WithoutNode(before.listed, node);
      assert View().tree == AllReleased(before, node).tree;
    }
  }

  ghost function RangesIn(list: seq<RangeLock>): set<Interval> {
    set l | l in list :: l.range
  }

  lemma RangesInGrows(list: seq<RangeLock>, i: nat)
    requires i < |list|
    ensures RangesIn(list[..i + 1]) == RangesIn(list[..i]) + {list[i].range}
  {
    assert list[..i + 1] == list[..i] + [list[i]];
  }

  /** The ranges are gone from the tree; nothing else changed but the node's own list. */
  ghost predicate Dropped(s: LockState, s': LockState, node: NodeId, gone: set<Interval>) {
    && s'.points == s.points && s'.tree == s.tree - gone
    && forall e: (NodeId, Interval) :: e.0 != node ==> s'.listed[e] == s.listed[e]
  }

  lemma NothingDropped(s: LockState, node: NodeId)
    ensures Dropped(s, s, node, RangesIn([]))
  {
    assert s.tree - {} == s.tree;
  }

  lemma DropOne(s: LockState, mid: LockState, node: NodeId, gone: set<Interval>, r: Interval)
    requires Dropped(s, mid, node, gone)
    ensures Dropped(s, RangeDropped(mid, node, r), node, gone + {r})
  {
    assert s.tree - gone - {r} == s.tree - (gone + {r});
  }

  lemma NothingToRelease(s: LockState, n: NodeId)
    requires (forall k :: !Holds(s, n, k)) && (forall r :: (n, r) !in s.listed)
    ensures AllReleased(s, n) == s
  {
    forall p | p in s.points
      ensures p.0 != n
    {
      assert Holds(s, p.0, p.1);
    }
    assert forall e :: e in s.listed && e.0 == n ==> e == (n, e.1);
    assert WithoutNode(s.listed, n) == s.listed;
  }

  /** The lock in the list that belongs to the node, if any: `g_list_find_custom`. */
  function FindOwner(list: seq<Lock>, node: NodeId): (l: Lock?)
    ensures l != null ==> l in list && l.node == node
    ensures l == null ==> forall m :: m in list ==> m.node != node
  {
    if list == [] then null
    else if list[0].node == node then list[0]
    else
      assert forall m :: m in list ==> m == list[0] || m in list[1..];
      FindOwner(list[1..], node)
  }
}
