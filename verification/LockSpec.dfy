/**
 What a lock table means, apart from how it is indexed: who holds which key and
 how, which node owns each locked range, and which ranges each node still lists.
 The rules are those stated for callers of the lock table; `LockTable` is proved
 to follow them and the data server's runs are built from them.
 */
module LockSpec {
  import opened Keys

  type NodeId = nat

  /**
   `points` maps (node, key) to "locked for write". `tree` is the interval tree:
   at most one owner per exact range. `listed` counts the range locks a node has on
   its own list; asking again for a range one holds lists it twice.
   */
  datatype LockState = LockState(
    points: map<(NodeId, Key), bool>,
    tree: map<Interval, NodeId>,
    listed: multiset<(NodeId, Interval)>)

  const UNLOCKED := LockState(map[], map[], multiset{})

  predicate Holds(s: LockState, n: NodeId, k: Key) {
    (n, k) in s.points
  }

  predicate HoldsWrite(s: LockState, n: NodeId, k: Key) {
    (n, k) in s.points && s.points[(n, k)]
  }

  ghost predicate ForeignHolder(s: LockState, n: NodeId, k: Key) {
    exists m :: m != n && Holds(s, m, k)
  }

  ghost predicate ForeignWriter(s: LockState, n: NodeId, k: Key) {
    exists m :: m != n && HoldsWrite(s, m, k)
  }

  ghost predicate ForeignCover(s: LockState, n: NodeId, k: Key) {
    exists r :: r in s.tree && s.tree[r] != n && Inside(k, r)
  }

  /** Another node holds a write lock on some key inside the range. */
  ghost predicate ForeignWriterInside(s: LockState, n: NodeId, r: Interval) {
    exists k :: Inside(k, r) && ForeignWriter(s, n, k)
  }

  ghost predicate ForeignOverlap(s: LockState, n: NodeId, r: Interval) {
    exists t :: t in s.tree && s.tree[t] != n && Overlap(t, r)
  }

  /** A read lock needs no foreign writer; a write lock needs no foreign point lock on
      the key and no foreign range over it, unless the node already has it. */
  ghost predicate PointGrantable(s: LockState, n: NodeId, k: Key, forWrite: bool) {
    || HoldsWrite(s, n, k)
    || (if forWrite then !ForeignHolder(s, n, k) && !ForeignCover(s, n, k) else !ForeignWriter(s, n, k))
  }

  /** A grant never lowers the level of access already held. */
  function PointGranted(s: LockState, n: NodeId, k: Key, forWrite: bool): LockState {
    s.(points := s.points[(n, k) := forWrite || HoldsWrite(s, n, k)])
  }

  function RangeGranted(s: LockState, n: NodeId, r: Interval): LockState {
    s.(tree := s.tree[r := n], listed := s.listed + multiset{(n, r)})
  }

  function PointReleased(s: LockState, n: NodeId, k: Key): LockState {
    s.(points := s.points - {(n, k)})
  }

  /** The tree is searched by the lower bound as a point, so a range that is open
      below and closed above is never found again. */
  predicate RangeReleasable(s: LockState, n: NodeId, r: Interval) {
    && r in s.tree && s.tree[r] == n
    && (if r.lower.Null? then r.upper.Null? else WellFormed(r))
  }

  function RangeReleased(s: LockState, n: NodeId, r: Interval): LockState {
    if RangeReleasable(s, n, r) then RangeDropped(s, n, r) else s
  }

  function RangeDropped(s: LockState, n: NodeId, r: Interval): LockState {
    LockState(s.points, s.tree - {r}, s.listed - multiset{(n, r)})
  }

  /** Everything the node lists goes; a range is removed from the tree by its bounds,
      whoever owns it there. */
  ghost function AllReleased(s: LockState, n: NodeId): LockState {
    LockState(
      map p | p in s.points && p.0 != n :: s.points[p],
      map r | r in s.tree && (n, r) !in s.listed :: s.tree[r],
      WithoutNode(s.listed, n))
  }

  ghost function WithoutNode(m: multiset<(NodeId, Interval)>, n: NodeId): (r: multiset<(NodeId, Interval)>)
    ensures forall e :: r[e] == if e.0 == n then 0 else m[e]
    decreases |m|
  {
    if e :| e in m && e.0 == n then
      var m' := m[e := 0];
      assert |m'| < |m| by {
        assert m == m' + (m - m');
        assert |m - m'| > 0 by { assert e in m - m'; }
      }
      WithoutNode(m', n)
    else m
  }

  // ----- What every reachable lock table keeps

  ghost predicate WriteIsAlone(s: LockState) {
    forall m, n, k :: HoldsWrite(s, m, k) && Holds(s, n, k) ==> m == n
  }

  /** Whoever owns a range in the tree has it on its list. */
  ghost predicate OwnersList(s: LockState) {
    forall r :: r in s.tree ==> (s.tree[r], r) in s.listed
  }

  ghost predicate Sound(s: LockState) {
    WriteIsAlone(s) && OwnersList(s)
  }

  /** No list entry is out of date: every listed range is in the tree, once, for its node. */
  ghost predicate NothingStale(s: LockState) {
    forall e :: e in s.listed ==> s.listed[e] == 1 && e.1 in s.tree && s.tree[e.1] == e.0
  }

  ghost predicate RangesDisjoint(s: LockState) {
    forall r, t :: r in s.tree && t in s.tree && s.tree[r] != s.tree[t] ==> !Overlap(r, t)
  }

  // ----- Steps and runs

  datatype LockOp =
    | LockPoint(node: NodeId, key: Key, forWrite: bool)
    | LockRange(node: NodeId, range: Interval)
    | ReleasePoint(node: NodeId, key: Key)
    | ReleaseRange(node: NodeId, range: Interval)
    | ReleaseAll(node: NodeId)

  /** Some node holds a lock on the key, and another node write-locks a key from it upward. */
  ghost predicate BlockedFrom(s: LockState, n: NodeId, k: Key) {
    (exists m :: Holds(s, m, k)) && (exists j :: Compare(k, j) <= 0 && ForeignWriter(s, n, j))
  }

  /** A range the pruned tree search may pass over: only when the search is open below,
      and only ranges ending before the requested one does. */
  predicate Overlooked(t: Interval, r: Interval) {
    r.lower.Null? && EndsBefore(t, r)
  }

  predicate EndsBefore(t: Interval, r: Interval) {
    CompareNullLast(r.upper, t.upper) > 0
  }

  /** A range that ends at a key can be overlooked by a request for everything up to a key above
      that, or up to the end; a range without an end never is. */
  lemma OverlookedIff(t: Interval, r: Interval)
    ensures Overlooked(t, r) <==> r.lower.Null? && t.upper.At? && (r.upper.Null? || Less(t.upper.key, r.upper.key))
  {
    KeyOrder();
  }

  /** The node owns a range that ends before the requested one. Only at such a range can a
      search that stops at the first foreign range go no further before finding one. */
  predicate OwnsBefore(s: LockState, n: NodeId, r: Interval) {
    exists u :: u in s.tree && s.tree[u] == n && EndsBefore(u, r)
  }

  /**
   The answers a range request may get. With a lower bound the answer is determined:
   no foreign range may overlap, and the point locks from the lower bound upward are
   examined only if the lower bound itself is locked. Open below, foreign ranges may be
   overlooked if the node owns a range ending before the requested one, and the point locks
   are examined from no particular place.
   */
  ghost predicate RangeAnswer(s: LockState, n: NodeId, r: Interval, granted: bool) {
    if r.lower.At? then
      granted <==> !ForeignOverlap(s, n, r) && !BlockedFrom(s, n, r.lower.key)
    else
      && (granted ==> forall t :: t in s.tree && s.tree[t] != n && Overlap(t, r) ==> Overlooked(t, r) && OwnsBefore(s, n, r))
      && (!granted ==> ForeignOverlap(s, n, r) || exists k :: ForeignWriter(s, n, k))
  }

  ghost predicate LockStep(s: LockState, op: LockOp, s': LockState) {
    match op
    case LockPoint(n, k, w) => s' == if PointGrantable(s, n, k, w) then PointGranted(s, n, k, w) else s
    case LockRange(n, r) => (RangeAnswer(s, n, r, true) && s' == RangeGranted(s, n, r)) || (RangeAnswer(s, n, r, false) && s' == s)
    case ReleasePoint(n, k) => s' == PointReleased(s, n, k)
    case ReleaseRange(n, r) => s' == RangeReleased(s, n, r)
    case ReleaseAll(n) => s' == AllReleased(s, n)
  }

  /** `states` is a run of `ops` from the empty table. */
  ghost predicate LockRun(states: seq<LockState>, ops: seq<LockOp>) {
    && |states| == |ops| + 1
    && states[0] == UNLOCKED
    && forall i :: 0 <= i < |ops| ==> LockStep(states[i], ops[i], states[i + 1])
  }

  lemma PointGrantKeepsSound(s: LockState, n: NodeId, k: Key, forWrite: bool)
    requires Sound(s) && PointGrantable(s, n, k, forWrite)
    ensures Sound(PointGranted(s, n, k, forWrite))
  {
    var s' := PointGranted(s, n, k, forWrite);
    forall a, b, j | HoldsWrite(s', a, j) && Holds(s', b, j)
      ensures a == b
    {
      if j == k && a != n && b == n {
        assert HoldsWrite(s, a, k) && Holds(s, a, k);
      } else if j == k && a == n && b != n {
        assert Holds(s, b, k);
      } else {
        assert HoldsWrite(s, a, j) || (a == n && j == k);
        assert Holds(s, b, j) || (b == n && j == k);
      }
    }
  }

  /** A grant gives the node the access asked for and never lowers what it had; it is never at
      another node's expense, and nothing else changes. */
  lemma PointGrantExcludes(s: LockState, n: NodeId, k: Key, forWrite: bool)
    requires Sound(s) && PointGrantable(s, n, k, forWrite)
    ensures var s' := PointGranted(s, n, k, forWrite);
            && Holds(s', n, k)
            && (HoldsWrite(s', n, k) <==> forWrite || HoldsWrite(s, n, k))
            && (forWrite ==> !ForeignHolder(s', n, k))
            && !ForeignWriter(s', n, k)
            && (forall m: NodeId, j: Key :: (m, j) != (n, k) ==> Holds(s', m, j) == Holds(s, m, j) && HoldsWrite(s', m, j) == HoldsWrite(s, m, j))
            && s'.tree == s.tree && s'.listed == s.listed
  {
    PointGrantKeepsSound(s, n, k, forWrite);
    var s' := PointGranted(s, n, k, forWrite);
    forall m | m != n && HoldsWrite(s', m, k)
      ensures false
    {
      assert Holds(s', n, k);
    }
    assert forWrite ==> HoldsWrite(s', n, k);
  }

  /** Releasing a key takes exactly the node's lock on it. */
  lemma PointReleaseTakesOne(s: LockState, n: NodeId, k: Key)
    ensures var s' := PointReleased(s, n, k);
            && !Holds(s', n, k)
            && (forall m: NodeId, j: Key :: (m, j) != (n, k) ==> Holds(s', m, j) == Holds(s, m, j) && HoldsWrite(s', m, j) == HoldsWrite(s, m, j))
            && s'.tree == s.tree && s'.listed == s.listed
  {
  }

  /** A granted range is the node's, in the tree and on its list, and nothing else changes but
      for whose range had these bounds before. */
  lemma RangeGrantAddsOne(s: LockState, n: NodeId, r: Interval)
    ensures var s' := RangeGranted(s, n, r);
            && r in s'.tree && s'.tree[r] == n && s'.listed[(n, r)] == s.listed[(n, r)] + 1
            && (forall t :: t != r ==> (t in s'.tree <==> t in s.tree) && (t in s.tree ==> s'.tree[t] == s.tree[t]))
            && (forall e :: e != (n, r) ==> s'.listed[e] == s.listed[e]) && s'.points == s.points
  {
  }

  /** A node's range is released exactly when it does not run from the beginning of the
      keyspace to a key; then it is gone, and nothing else is. */
  lemma RangeReleaseTakesOneIff(s: LockState, n: NodeId, r: Interval)
    requires WellFormed(r) && r in s.tree && s.tree[r] == n && (n, r) in s.listed
    ensures var s' := RangeReleased(s, n, r);
            && (r !in s'.tree <==> r.lower.At? || r.upper.Null?)
            && (r !in s'.tree ==> s'.listed[(n, r)] == s.listed[(n, r)] - 1)
            && (forall t :: t != r ==> (t in s'.tree <==> t in s.tree) && (t in s.tree ==> s'.tree[t] == s.tree[t]))
            && (forall e :: e != (n, r) ==> s'.listed[e] == s.listed[e]) && s'.points == s.points
  {
  }

  /** Another node's range, or one that is not there, is not released. */
  lemma OthersRangeIsNotReleased(s: LockState, n: NodeId, r: Interval)
    requires r !in s.tree || s.tree[r] != n
    ensures RangeReleased(s, n, r) == s
  {
  }

  ghost predicate HoldsNothing(s: LockState, n: NodeId) {
    && (forall k :: !Holds(s, n, k))
    && (forall r :: r in s.tree ==> s.tree[r] != n)
    && (forall r :: (n, r) !in s.listed)
  }

  /** A node whose locks are all released holds no key, owns no range and lists none; every
      other node holds the keys it held. */
  lemma ReleaseAllLeavesNothing(s: LockState, n: NodeId)
    requires Sound(s)
    ensures var s' := AllReleased(s, n);
            && HoldsNothing(s', n)
            && (forall m, k :: m != n ==> Holds(s', m, k) == Holds(s, m, k) && HoldsWrite(s', m, k) == HoldsWrite(s, m, k))
            && (forall m: NodeId, r :: m != n ==> s'.listed[(m, r)] == s.listed[(m, r)])
  {
    var s' := AllReleased(s, n);
    forall r | r in s'.tree
      ensures s'.tree[r] != n
    {
      assert (s.tree[r], r) in s.listed;
    }
  }

  /** Releasing everything a node holds touches no other node's range exactly when no
      other node's range sits, in the tree, at bounds the node lists. */
  lemma ReleaseAllSparesOthersIff(s: LockState, n: NodeId)
    ensures (forall r :: r in s.tree && s.tree[r] != n ==> r in AllReleased(s, n).tree)
       <==> (forall r :: r in s.tree && (n, r) in s.listed ==> s.tree[r] == n)
  {
    var s' := AllReleased(s, n);
    if forall r :: r in s.tree && s.tree[r] != n ==> r in s'.tree {
      forall r | r in s.tree && (n, r) in s.listed
        ensures s.tree[r] == n
      {
        if s.tree[r] != n {
          assert false;
        }
      }
    }
  }

  lemma FewerPointsStaySound(s: LockState, s': LockState)
    requires Sound(s) && OwnersList(s')
    requires forall p :: p in s'.points ==> p in s.points && s'.points[p] == s.points[p]
    ensures Sound(s')
  {
    forall m, n, k | HoldsWrite(s', m, k) && Holds(s', n, k)
      ensures m == n
    {
      assert HoldsWrite(s, m, k) && Holds(s, n, k);
    }
  }

  lemma RangeGrantKeepsOwnersList(s: LockState, n: NodeId, r: Interval)
    requires OwnersList(s)
    ensures OwnersList(RangeGranted(s, n, r))
  {
    var s' := RangeGranted(s, n, r);
    forall t | t in s'.tree
      ensures (s'.tree[t], t) in s'.listed
    {
      assert t != r ==> (s.tree[t], t) in s.listed;
    }
  }

  lemma RangeReleaseKeepsOwnersList(s: LockState, n: NodeId, r: Interval)
    requires OwnersList(s)
    ensures OwnersList(RangeReleased(s, n, r))
  {
    var s' := RangeReleased(s, n, r);
    forall t | t in s'.tree
      ensures (s'.tree[t], t) in s'.listed
    {
      assert (s.tree[t], t) in s.listed;
    }
  }

  lemma ReleaseAllKeepsOwnersList(s: LockState, n: NodeId)
    requires OwnersList(s)
    ensures OwnersList(AllReleased(s, n))
  {
    var s' := AllReleased(s, n);
    forall t | t in s'.tree
      ensures (s'.tree[t], t) in s'.listed
    {
      assert (s.tree[t], t) in s.listed;
    }
  }

  lemma RangeStepKeepsOwnersList(s: LockState, op: LockOp, s': LockState)
    requires OwnersList(s) && LockStep(s, op, s') && !op.LockPoint?
    ensures OwnersList(s')
    ensures forall p :: p in s'.points ==> p in s.points && s'.points[p] == s.points[p]
  {
    hide RangeAnswer, OwnersList, WithoutNode;
    match op {
      case LockRange(n, r) => RangeGrantKeepsOwnersList(s, n, r);
      case ReleasePoint(n, k) => SameRangesSameOwners(s, s');
      case ReleaseRange(n, r) => RangeReleaseKeepsOwnersList(s, n, r);
      case ReleaseAll(n) => ReleaseAllKeepsOwnersList(s, n);
    }
  }

  lemma SameRangesSameOwners(s: LockState, s': LockState)
    requires OwnersList(s) && s'.tree == s.tree && s'.listed == s.listed
    ensures OwnersList(s')
  {
  }

  lemma LockStepKeepsSound(s: LockState, op: LockOp, s': LockState)
    requires Sound(s) && LockStep(s, op, s')
    ensures Sound(s')
  {
    match op
    case LockPoint(n, k, w) =>
      hide RangeAnswer;
      if PointGrantable(s, n, k, w) {
        PointGrantKeepsSound(s, n, k, w);
      }
    case _ =>
      RangeStepKeepsOwnersList(s, op, s');
      hide LockStep, OwnersList;
      FewerPointsStaySound(s, s');
  }

  /** In every state of every run a write lock is alone on its key and owners list their ranges. */
  lemma {:induction false} EveryRunIsSound(states: seq<LockState>, ops: seq<LockOp>, i: nat)
    requires LockRun(states, ops) && i < |states|
    ensures Sound(states[i])
  {
    if i > 0 {
      EveryRunIsSound(states, ops, i - 1);
      LockStepKeepsSound(states[i - 1], ops[i - 1], states[i]);
    }
  }

  /** The request has a lower bound, or comes from a node that owns no range ending before
      the requested one. */
  predicate Guarded(s: LockState, op: LockOp) {
    op.LockRange? && op.range.lower.Null? ==> !OwnsBefore(s, op.node, op.range)
  }

  lemma GuardedGrantKeepsDisjoint(s: LockState, n: NodeId, r: Interval)
    requires RangesDisjoint(s) && RangeAnswer(s, n, r, true) && Guarded(s, LockRange(n, r))
    ensures RangesDisjoint(RangeGranted(s, n, r))
  {
    var s' := RangeGranted(s, n, r);
    forall a, b | a in s'.tree && b in s'.tree && s'.tree[a] != s'.tree[b]
      ensures !Overlap(a, b)
    {
      OverlapIsSymmetric(a, b);
      assert !ForeignOverlap(s, n, r);
    }
  }

  /** Ranges of different nodes never meet, as long as every range request that is open below
      comes from a node owning no range that ends before the requested one. */
  lemma {:induction false} GuardedRunsKeepRangesDisjoint(states: seq<LockState>, ops: seq<LockOp>, i: nat)
    requires LockRun(states, ops) && i < |states|
    requires forall j :: 0 <= j < |ops| ==> Guarded(states[j], ops[j])
    ensures RangesDisjoint(states[i])
  {
    if i > 0 {
      GuardedRunsKeepRangesDisjoint(states, ops, i - 1);
      assert Guarded(states[i - 1], ops[i - 1]);
      hide RangeAnswer, Overlap, Guarded, PointGrantable;
      var s, s' := states[i - 1], states[i];
      match ops[i - 1]
      case LockRange(n, r) =>
        if s' != s {
          GuardedGrantKeepsDisjoint(s, n, r);
        }
      case _ =>
    }
  }

  /** Otherwise the claim fails: node 2, asking for everything up to a key, is granted a range
      over node 1's because the search stops at a range of its own. The tree that does this
      is `RangeTrees.OwnRangeHidesForeign`. */
  lemma OpenBelowBreaksDisjointness() returns (states: seq<LockState>, ops: seq<LockOp>)
    ensures LockRun(states, ops)
    ensures ops == [LockRange(2, Interval(At([1]), At([1]))), LockRange(1, Interval(At([2]), At([2]))), LockRange(2, Interval(Null, At([3])))]
    ensures !RangesDisjoint(states[3])
  {
    var r1, r2, r3 := Interval(At([1]), At([1])), Interval(At([2]), At([2])), Interval(Null, At([3]));
    ops := [LockRange(2, r1), LockRange(1, r2), LockRange(2, r3)];
    var s1 := RangeGranted(UNLOCKED, 2, r1);
    var s2 := RangeGranted(s1, 1, r2);
    var s3 := RangeGranted(s2, 2, r3);
    states := [UNLOCKED, s1, s2, s3];
    assert LockStep(UNLOCKED, ops[0], s1);
    assert !Overlap(r1, r2);
    assert LockStep(s1, ops[1], s2);
    assert EndsBefore(r1, r3) && r1 in s2.tree && s2.tree[r1] == 2;
    assert LockStep(s2, ops[2], s3);
    assert s3.tree[r2] != s3.tree[r3] && Overlap(r2, r3);
  }

  /** When the lower bound is locked, a granted range has no foreign write lock at or above
      its lower bound, inside the range or not. */
  lemma LockedLowerBoundGuards(s: LockState, n: NodeId, r: Interval)
    requires r.lower.At? && RangeAnswer(s, n, r, true)
    ensures !ForeignOverlap(s, n, r)
    ensures (exists m :: Holds(s, m, r.lower.key)) ==> forall k :: Compare(r.lower.key, k) <= 0 ==> !ForeignWriter(s, n, k)
  {
  }

  /** A range is granted over another node's write lock exactly when the lower bound
      carries no lock at all: then no point lock is looked at. */
  lemma RangeGrantedOverWriterIff(s: LockState, n: NodeId, r: Interval)
    requires r.lower.At? && !ForeignOverlap(s, n, r) && ForeignWriterInside(s, n, r)
    ensures RangeAnswer(s, n, r, true) <==> !exists m :: Holds(s, m, r.lower.key)
  {
    var k :| Inside(k, r) && ForeignWriter(s, n, k);
    assert Compare(r.lower.key, k) <= 0;
  }

  /** Such a run: node 1 writes a key, and node 2 is granted a range around it. */
  lemma RangeGrantedOverWriter() returns (states: seq<LockState>, ops: seq<LockOp>)
    ensures LockRun(states, ops) && ops == [LockPoint(1, [5], true), LockRange(2, Interval(At([1]), At([9])))]
    ensures HoldsWrite(states[2], 1, [5]) && Interval(At([1]), At([9])) in states[2].tree && states[2].tree[Interval(At([1]), At([9]))] == 2
  {
    var r := Interval(At([1]), At([9]));
    ops := [LockPoint(1, [5], true), LockRange(2, r)];
    var s1 := PointGranted(UNLOCKED, 1, [5], true);
    var s2 := RangeGranted(s1, 2, r);
    states := [UNLOCKED, s1, s2];
    assert LockStep(UNLOCKED, ops[0], s1);
    assert !exists m :: Holds(s1, m, [1]);
    assert LockStep(s1, ops[1], s2);
  }

  /** The scan of the point locks does not look at the upper bound: a range nobody stands in
      the way of is refused exactly when its lower bound is locked and another node writes a
      key above its upper bound. */
  lemma RangeRefusedInVainIff(s: LockState, n: NodeId, r: Interval)
    requires r.lower.At? && WellFormed(r) && !ForeignOverlap(s, n, r) && !ForeignWriterInside(s, n, r)
    ensures RangeAnswer(s, n, r, false)
       <==> && (exists m :: Holds(s, m, r.lower.key))
            && r.upper.At? && exists k :: Less(r.upper.key, k) && ForeignWriter(s, n, k)
  {
    if r.upper.At? {
      forall k | ForeignWriter(s, n, k)
        ensures Compare(r.lower.key, k) <= 0 <==> Less(r.upper.key, k)
      {
        CompareFlip(k, r.upper.key);
        if Less(r.upper.key, k) {
          CompareTrans(r.lower.key, r.upper.key, k);
        }
        assert !Inside(k, r);
      }
    } else {
      assert forall k :: ForeignWriter(s, n, k) ==> !Inside(k, r);
    }
  }

  /** A range from the beginning of the keyspace to a key is never released by the call meant
      to release it, in whatever state. */
  lemma OpenBelowIsNotReleased(s: LockState, n: NodeId, to: Key)
    ensures RangeReleased(s, n, Interval(Null, At(to))) == s
  {
  }

  /** Such a run: the range is granted, released, and still there. */
  lemma ReleasedRangeIsStillThere(to: Key) returns (states: seq<LockState>, ops: seq<LockOp>)
    ensures LockRun(states, ops) && ops == [LockRange(1, Interval(Null, At(to))), ReleaseRange(1, Interval(Null, At(to)))]
    ensures Interval(Null, At(to)) in states[2].tree
  {
    var r := Interval(Null, At(to));
    var s1 := RangeGranted(UNLOCKED, 1, r);
    states, ops := [UNLOCKED, s1, s1], [LockRange(1, r), ReleaseRange(1, r)];
    OpenBelowIsNotReleased(s1, 1, to);
    assert LockStep(UNLOCKED, ops[0], s1);
    assert LockStep(s1, ops[1], s1);
  }

  // ----- Ranges leave the tree only by their own node's doing, unless a list is stale

  /** The step is not a node asking again for a range it still lists, nor for an
      upside-down range. */
  ghost predicate Tidy(s: LockState, op: LockOp) {
    op.LockRange? ==> WellFormed(op.range) && (op.node, op.range) !in s.listed
  }

  ghost predicate LeftOnlyBy(s: LockState, op: LockOp, s': LockState) {
    forall r :: r in s.tree && !(r in s'.tree && s'.tree[r] == s.tree[r]) ==>
                  op == ReleaseRange(s.tree[r], r) || op == ReleaseAll(s.tree[r])
  }

  lemma TidyGrant(s: LockState, n: NodeId, r: Interval)
    requires NothingStale(s) && RangeAnswer(s, n, r, true) && Tidy(s, LockRange(n, r))
    ensures NothingStale(RangeGranted(s, n, r)) && LeftOnlyBy(s, LockRange(n, r), RangeGranted(s, n, r))
  {
    if r in s.tree && s.tree[r] != n {
      CompareSelf(r.upper);
      assert Overlap(r, r);
    }
    var s' := RangeGranted(s, n, r);
    forall e | e in s'.listed
      ensures s'.listed[e] == 1 && e.1 in s'.tree && s'.tree[e.1] == e.0
    {
      assert e == (n, r) || e in s.listed;
    }
  }

  lemma TidyReleaseAll(s: LockState, n: NodeId)
    requires Sound(s) && NothingStale(s)
    ensures NothingStale(AllReleased(s, n)) && LeftOnlyBy(s, ReleaseAll(n), AllReleased(s, n))
  {
    var s' := AllReleased(s, n);
    forall e | e in s'.listed
      ensures s'.listed[e] == 1 && e.1 in s'.tree && s'.tree[e.1] == e.0
    {
      assert e in s.listed && e.0 != n;
      assert (n, e.1) !in s.listed;
    }
    forall r | r in s.tree && s.tree[r] != n
      ensures r in s'.tree
    {
      assert (n, r) !in s.listed;
    }
  }

  lemma TidyReleaseRange(s: LockState, n: NodeId, r: Interval)
    requires NothingStale(s)
    ensures NothingStale(RangeReleased(s, n, r)) && LeftOnlyBy(s, ReleaseRange(n, r), RangeReleased(s, n, r))
  {
    var s' := RangeReleased(s, n, r);
    forall e | e in s'.listed
      ensures s'.listed[e] == 1 && e.1 in s'.tree && s'.tree[e.1] == e.0
    {
      assert e in s.listed;
    }
  }

  lemma TidyPoint(s: LockState, op: LockOp, s': LockState)
    requires NothingStale(s) && s'.tree == s.tree && s'.listed == s.listed
    ensures NothingStale(s') && LeftOnlyBy(s, op, s')
  {
  }

  lemma TidyStepKeepsLists(s: LockState, op: LockOp, s': LockState)
    requires Sound(s) && NothingStale(s) && LockStep(s, op, s') && Tidy(s, op)
    ensures NothingStale(s') && LeftOnlyBy(s, op, s')
  {
    hide RangeAnswer, PointGrantable, RangeGranted, RangeReleased, AllReleased, NothingStale, LeftOnlyBy;
    match op
    case LockPoint(n, k, w) => TidyPoint(s, op, s');
    case LockRange(n, r) => if s' != s { TidyGrant(s, n, r); } else { TidyPoint(s, op, s'); }
    case ReleasePoint(n, k) => TidyPoint(s, op, s');
    case ReleaseRange(n, r) => TidyReleaseRange(s, n, r);
    case ReleaseAll(n) => TidyReleaseAll(s, n);
  }

  lemma CompareSelf(b: Bound)
    ensures CompareNullLast(b, b) == 0
  {
    if b.At? {
      CompareFlip(b.key, b.key);
    }
  }

  /** In every run that never asks again for a range still listed, a range stays with its
      owner until that owner releases it or disconnects. */
  lemma {:induction false} TidyRunsKeepRanges(states: seq<LockState>, ops: seq<LockOp>, i: nat)
    requires LockRun(states, ops) && i < |states|
    requires forall j :: 0 <= j < |ops| ==> Tidy(states[j], ops[j])
    ensures NothingStale(states[i])
    ensures i > 0 ==> LeftOnlyBy(states[i - 1], ops[i - 1], states[i])
  {
    if i > 0 {
      TidyRunsKeepRanges(states, ops, i - 1);
      EveryRunIsSound(states, ops, i - 1);
      assert Tidy(states[i - 1], ops[i - 1]);
      TidyStepKeepsLists(states[i - 1], ops[i - 1], states[i]);
    }
  }

  lemma ExtendRun(states: seq<LockState>, ops: seq<LockOp>, op: LockOp, s': LockState)
    requires LockRun(states, ops) && LockStep(states[|ops|], op, s')
    ensures LockRun(states + [s'], ops + [op])
  {
    var states', ops' := states + [s'], ops + [op];
    forall i | 0 <= i < |ops'|
      ensures LockStep(states'[i], ops'[i], states'[i + 1])
    {
      assert i < |ops| ==> LockStep(states[i], ops[i], states[i + 1]);
    }
  }

  lemma GrantedUnlessForeign(s: LockState, n: NodeId, r: Interval)
    requires s.points == map[] && r.lower.At? && forall t :: t in s.tree ==> s.tree[t] == n
    ensures LockStep(s, LockRange(n, r), RangeGranted(s, n, r))
  {
    assert RangeAnswer(s, n, r, true);
  }

  /** Two nodes come to read a key together, and a node reads a key inside another's range. */
  lemma ReadersShare(k: Key, r: Interval) returns (states: seq<LockState>, ops: seq<LockOp>)
    requires r.lower.At? && Inside(k, r)
    ensures LockRun(states, ops) && ops == [LockPoint(1, k, false), LockPoint(2, k, false), LockRange(1, r), LockPoint(3, k, false)]
    ensures Holds(states[4], 1, k) && Holds(states[4], 2, k) && Holds(states[4], 3, k) && r in states[4].tree && states[4].tree[r] == 1
  {
    var s1 := PointGranted(UNLOCKED, 1, k, false);
    var s2 := PointGranted(s1, 2, k, false);
    var s3 := RangeGranted(s2, 1, r);
    var s4 := PointGranted(s3, 3, k, false);
    states, ops := [UNLOCKED, s1, s2, s3, s4], [LockPoint(1, k, false), LockPoint(2, k, false), LockRange(1, r), LockPoint(3, k, false)];
    assert LockStep(UNLOCKED, ops[0], s1);
    assert LockStep(s1, ops[1], s2);
    assert !ForeignOverlap(s2, 1, r) && forall j :: !ForeignWriter(s2, 1, j);
    assert LockStep(s2, ops[2], s3);
    assert LockStep(s3, ops[3], s4);
  }

  /** The whole keyspace is granted to a node that finds the table empty, and released. */
  lemma WholeKeyspaceIsReleased() returns (states: seq<LockState>, ops: seq<LockOp>)
    ensures LockRun(states, ops) && ops == [LockRange(1, Interval(Null, Null)), ReleaseRange(1, Interval(Null, Null))]
    ensures Interval(Null, Null) in states[1].tree && states[2] == UNLOCKED
  {
    var r := Interval(Null, Null);
    var s1 := RangeGranted(UNLOCKED, 1, r);
    var s2 := RangeReleased(s1, 1, r);
    states, ops := [UNLOCKED, s1, s2], [LockRange(1, r), ReleaseRange(1, r)];
    assert LockStep(UNLOCKED, ops[0], s1);
    assert LockStep(s1, ops[1], s2);
    assert s2.tree == map[] && s2.listed == multiset{};
  }

  /** A run after which node 2 owns a range that node 1 still has on its list. */
  lemma TakenOverRange(r: Interval) returns (states: seq<LockState>, ops: seq<LockOp>)
    requires r.lower.At? && WellFormed(r)
    ensures LockRun(states, ops) && |ops| == 4
    ensures ops[1] == ops[0] == LockRange(1, r) && ops[2] == ReleaseRange(1, r) && ops[3] == LockRange(2, r)
    ensures r in states[4].tree && states[4].tree[r] == 2 && (1, r) in states[4].listed
  {
    var s1 := RangeGranted(UNLOCKED, 1, r);
    var s2 := RangeGranted(s1, 1, r);
    var s3 := RangeReleased(s2, 1, r);
    GrantedUnlessForeign(UNLOCKED, 1, r);
    ExtendRun([UNLOCKED], [], LockRange(1, r), s1);
    GrantedUnlessForeign(s1, 1, r);
    ExtendRun([UNLOCKED, s1], [LockRange(1, r)], LockRange(1, r), s2);
    ExtendRun([UNLOCKED, s1, s2], [LockRange(1, r), LockRange(1, r)], ReleaseRange(1, r), s3);
    GrantedUnlessForeign(s3, 2, r);
    states := [UNLOCKED, s1, s2, s3];
    ops := [LockRange(1, r), LockRange(1, r), ReleaseRange(1, r)];
    ExtendRun(states, ops, LockRange(2, r), RangeGranted(s3, 2, r));
    states, ops := states + [RangeGranted(s3, 2, r)], ops + [LockRange(2, r)];
  }

  /** Asking twice for one range is enough to break it: after its owner has released the
      range and another node has taken it, the first node's disconnection removes it. */
  lemma AskingTwiceLosesAnothersRange(r: Interval) returns (states: seq<LockState>, ops: seq<LockOp>)
    requires r.lower.At? && WellFormed(r)
    ensures LockRun(states, ops) && |ops| == 5 && ops[4] == ReleaseAll(1)
    ensures r in states[4].tree && states[4].tree[r] == 2 && r !in states[5].tree
  {
    states, ops := TakenOverRange(r);
    var s := states[4];
    ExtendRun(states, ops, ReleaseAll(1), AllReleased(s, 1));
    states, ops := states + [AllReleased(s, 1)], ops + [ReleaseAll(1)];
  }
}
