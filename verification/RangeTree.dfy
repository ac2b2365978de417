/**
 The interval tree as the lock table uses it: byte-string bounds, a null lower bound before
 every key and a null upper bound after every key. A search for overlapping ranges that is
 open below can overlook some of them; what it can overlook, and on which trees, is proved
 here, and `LockSpec` allows the lock table no more.
 */
module RangeTrees {
  import opened Keys
  import opened Wrappers
  import opened LockSpec
  import opened IntervalTrees

  function RangeOrder(): Order<Bound> {
    Order((a, b) => CompareNullFirst(a, b), (a, b) => CompareNullLast(a, b))
  }

  lemma NullFirstOrders(a: Bound, b: Bound, c: Bound)
    ensures CompareNullFirst(a, b) <= 0 <==> CompareNullFirst(b, a) >= 0
    ensures CompareNullFirst(a, b) <= 0 && CompareNullFirst(b, c) <= 0 ==> CompareNullFirst(a, c) <= 0
  {
    if a.At? && b.At? {
      CompareFlip(a.key, b.key);
      if c.At? && Compare(a.key, b.key) <= 0 && Compare(b.key, c.key) <= 0 {
        CompareTrans(a.key, b.key, c.key);
      }
    }
  }

  lemma NullLastOrders(a: Bound, b: Bound, c: Bound)
    ensures CompareNullLast(a, b) <= 0 <==> CompareNullLast(b, a) >= 0
    ensures CompareNullLast(a, b) <= 0 && CompareNullLast(b, c) <= 0 ==> CompareNullLast(a, c) <= 0
  {
    if a.At? && b.At? {
      CompareFlip(a.key, b.key);
      if c.At? && Compare(a.key, b.key) <= 0 && Compare(b.key, c.key) <= 0 {
        CompareTrans(a.key, b.key, c.key);
      }
    }
  }

  lemma RangeOrderIsValid()
    ensures RangeOrder().Valid()
  {
    hide CompareNullFirst, CompareNullLast;
    var order := RangeOrder();
    forall a, b
      ensures order.lower(a, b) <= 0 <==> order.lower(b, a) >= 0
      ensures order.upper(a, b) <= 0 <==> order.upper(b, a) >= 0
    {
      NullFirstOrders(a, b, a);
      NullLastOrders(a, b, a);
    }
    forall a, b, c | order.lower(a, b) <= 0 && order.lower(b, c) <= 0
      ensures order.lower(a, c) <= 0
    {
      NullFirstOrders(a, b, c);
    }
    forall a, b, c | order.upper(a, b) <= 0 && order.upper(b, c) <= 0
      ensures order.upper(a, c) <= 0
    {
      NullLastOrders(a, b, c);
    }
  }

  function RangeOf<D>(n: Node<Bound, D>): Interval {
    Interval(n.lower, n.upper)
  }

  /** The tree's test is overlap of ranges. */
  lemma MeetsIsOverlap<D>(tree: IntervalTree<Bound, D>, from: Bound, to: Bound, n: Node<Bound, D>)
    requires tree.order == RangeOrder() && WellFormed(Interval(from, to)) && WellFormed(RangeOf(n))
    ensures tree.Meets(from, to, n) <==> Overlap(Interval(from, to), RangeOf(n))
  {
    OverlapTestIsOverlap(Interval(from, to), RangeOf(n));
  }

  /** What a search passes over although it overlaps: nothing if the search has a lower bound;
      otherwise only ranges that end before the sought one does. */
  lemma PassedOverIsOverlooked<D>(tree: IntervalTree<Bound, D>, from: Bound, to: Bound, n: Node<Bound, D>)
    requires tree.order == RangeOrder() && WellFormed(RangeOf(n))
    requires tree.Meets(from, to, n) && tree.Beyond(from, to, n.upper)
    ensures Overlooked(RangeOf(n), Interval(from, to))
  {
    KeyOrder();
  }

  /** The search gets to this node: it has gone no further at none of those above. */
  ghost predicate Searched<D>(tree: IntervalTree<Bound, D>, sought: Interval, n: Node<Bound, D>)
    reads tree
  {
    Reached(n, tree.t, tree.b, max => tree.Beyond(sought.lower, sought.upper, max))
  }

  /** The lock table's search for overlapping ranges agrees with looking at every range: what
      it reports overlaps, nothing twice, and it misses nothing but what a search open below
      may overlook. */
  method OverlappingRanges<D>(tree: IntervalTree<Bound, D>, sought: Interval) returns (found: seq<Node<Bound, D>>)
    requires tree.ValidBut(null) && tree.order == RangeOrder() && WellFormed(sought)
    requires forall n :: n in tree.t ==> WellFormed(RangeOf(n))
    ensures forall i, j :: 0 <= i < j < |found| ==> found[i] != found[j]
    ensures forall n :: n in found ==> n in tree.t && Overlap(sought, RangeOf(n))
    ensures forall n :: n in tree.t && Overlap(sought, RangeOf(n)) && n !in found ==> Overlooked(RangeOf(n), sought)
    ensures sought.lower.At? ==> forall n :: n in tree.t && Overlap(sought, RangeOf(n)) ==> n in found
    ensures forall n :: n in tree.t && Overlap(sought, RangeOf(n)) ==> (n in found <==> Searched(tree, sought, n))
  {
    hide TreeBut, Overlap, Reached;
    var halted;
    found, halted := tree.SearchInterval(sought.lower, sought.upper, (l, u, d) => false);
    forall n | n in tree.t
      ensures tree.Meets(sought.lower, sought.upper, n) <==> Overlap(sought, RangeOf(n))
      ensures tree.Meets(sought.lower, sought.upper, n) && tree.Beyond(sought.lower, sought.upper, n.upper) ==> Overlooked(RangeOf(n), sought)
    {
      MeetsIsOverlap(tree, sought.lower, sought.upper, n);
      if tree.Meets(sought.lower, sought.upper, n) && tree.Beyond(sought.lower, sought.upper, n.upper) {
        PassedOverIsOverlooked(tree, sought.lower, sought.upper, n);
      }
    }
  }

  /** A node at which the search goes no further overlaps, and ends before the sought range. */
  lemma StopsAtOverlap<D>(tree: IntervalTree<Bound, D>, sought: Interval, a: Node<Bound, D>)
    requires tree.ValidBut(null) && tree.order == RangeOrder() && a in tree.t && a in tree.b && a in tree.b[a]
    requires sought.lower.Null? && tree.Beyond(Null, sought.upper, tree.t[a].maxUpper)
    ensures tree.Meets(Null, sought.upper, a) && EndsBefore(RangeOf(a), sought)
  {
    hide Shaped, AllSorted, MaximaRightBut, Orders;
    MaximumIsExact(a, tree.root, tree.t, tree.b, tree.order);
    var to, u, max := sought.upper, a.upper, tree.t[a].maxUpper;
    assert CompareNullLast(u, max) <= 0 && CompareNullLast(to, max) > 0;
    EndsNoLater(to, u, max);
    NullLastOrders(to, u, max);
    NullLastOrders(u, to, max);
    assert CompareNullLast(to, u) > 0 by {
      NullLastOrders(to, u, max);
      NullLastOrders(to, max, u);
    }
  }

  ghost predicate AllWellFormed<D>(tree: IntervalTree<Bound, D>)
    reads tree
  {
    forall n :: n in tree.t ==> WellFormed(RangeOf(n))
  }

  /** The lock table's search for another node's range over a tree of owners, which stops at the
      first it finds. It finds one exactly if it gets to one. If it finds none although there
      is one, the search is open below, and the node itself owns a range that ends before the
      sought one. */
  method FindForeign(tree: IntervalTree<Bound, NodeId>, node: NodeId, sought: Interval) returns (found: bool)
    requires tree.ValidBut(null) && tree.order == RangeOrder() && WellFormed(sought)
    requires AllWellFormed(tree)
    ensures found <==> exists n :: n in tree.t && n.data != node && Overlap(sought, RangeOf(n)) && Searched(tree, sought, n)
    ensures !found ==> forall n :: n in tree.t && n.data != node && Overlap(sought, RangeOf(n)) ==>
              && Overlooked(RangeOf(n), sought)
              && exists u :: u in tree.t && u.data == node && EndsBefore(RangeOf(u), sought)
  {
    hide TreeBut, Overlap, Reached;
    var nodes;
    nodes, found := tree.SearchInterval(sought.lower, sought.upper, (l, u, d) => d != node);
    forall n | n in tree.t
      ensures tree.Meets(sought.lower, sought.upper, n) <==> Overlap(sought, RangeOf(n))
    {
      assert WellFormed(RangeOf(n));
      MeetsIsOverlap(tree, sought.lower, sought.upper, n);
    }
    if !found {
      forall n | n in tree.t && n.data != node && Overlap(sought, RangeOf(n))
        ensures Overlooked(RangeOf(n), sought) && exists u :: u in tree.t && u.data == node && EndsBefore(RangeOf(u), sought)
      {
        assert n !in nodes && WellFormed(RangeOf(n));
        PassedOverIsOverlooked(tree, sought.lower, sought.upper, n);
        assert n in tree.b by {
          TreeShape(tree);
        }
        var a := StoppedBefore(tree, sought, n);
        assert a in nodes;
      }
    }
  }

  lemma TreeShape<D>(tree: IntervalTree<Bound, D>)
    requires tree.ValidBut(null)
    ensures Shaped(tree.root, tree.t, tree.b) && forall n :: n in tree.t ==> n in tree.b
  {
  }

  lemma StoppedBefore<D>(tree: IntervalTree<Bound, D>, sought: Interval, n: Node<Bound, D>) returns (a: Node<Bound, D>)
    requires tree.ValidBut(null) && tree.order == RangeOrder() && n in tree.t && n in tree.b
    requires sought.lower.Null? && !Searched(tree, sought, n)
    ensures a in tree.t && Searched(tree, sought, a) && tree.Meets(Null, sought.upper, a) && EndsBefore(RangeOf(a), sought)
  {
    hide AllSorted, MaximaRightBut, Orders, Reached;
    a := StoppedAbove(n, tree.root, tree.t, tree.b, max => tree.Beyond(sought.lower, sought.upper, max));
    StopsAtOverlap(tree, sought, a);
  }

  /** What two insertions leave in the tree. */
  lemma TwoRanges(tree: IntervalTree<Bound, NodeId>, a: Key, m: NodeId, b: Key, n: NodeId)
    requires tree.Valid() && tree.order == RangeOrder() && a != b
    requires tree.history == [Entry(At(a), At(a), m), Entry(At(b), At(b), n)]
    ensures forall x :: x in tree.t ==> (x.lower == x.upper == At(a) && x.data == m) || (x.lower == x.upper == At(b) && x.data == n)
    ensures exists x :: x in tree.t && x.lower == x.upper == At(b) && x.data == n
  {
    hide TreeBut, Orders;
    var h, order := tree.history, tree.order;
    forall l: Bound, u: Bound
      ensures order.LastData(h, l, u) == if l == u == At(b) then Some(n) else if l == u == At(a) then Some(m) else None
    {
      SameIsEqual(At(b), At(b), l, u);
      SameIsEqual(At(a), At(a), l, u);
      var e: Entry<Bound, NodeId>, f: Entry<Bound, NodeId> := Entry(At(a), At(a), m), Entry(At(b), At(b), n);
      assert h == [e] + [f] && [e] == [] + [e];
      IntervalTrees.LastOf([e], f, order, l, u);
      IntervalTrees.LastOf([], e, order, l, u);
    }
    assert order.LastData(h, At(b), At(b)).Some?;
    var x :| x in tree.t && order.Same(x.lower, x.upper, At(b), At(b));
    SameIsEqual(x.lower, x.upper, At(b), At(b));
  }

  lemma SameIsEqual(l: Bound, u: Bound, l': Bound, u': Bound)
    ensures RangeOrder().Same(l, u, l', u') <==> l == l' && u == u'
  {
    KeyOrder();
  }

  /** Two ranges in a tree of two nodes, and a search open below by the owner of the range at
      the root: it goes no further there, and does not find the other node's range, though it
      overlaps. */
  method OwnRangeHidesForeign() returns (tree: IntervalTree<Bound, NodeId>, found: bool)
    ensures tree.Valid() && tree.order == RangeOrder()
    ensures tree.history == [Entry(At([1]), At([1]), 2), Entry(At([2]), At([2]), 1)]
    ensures exists n :: n in tree.t && n.data == 1 && Overlap(Interval(Null, At([3])), RangeOf(n))
    ensures !found && (found <==> exists n :: n in tree.t && n.data != 2 && Overlap(Interval(Null, At([3])), RangeOf(n)) && Searched(tree, Interval(Null, At([3])), n))
  {
    hide TreeBut, Faithful, Matches, Reached;
    RangeOrderIsValid();
    tree := new IntervalTree(RangeOrder());
    tree.Insert(At([1]), At([1]), 2);
    tree.Insert(At([2]), At([2]), 1);
    TwoRanges(tree, [1], 2, [2], 1);
    ForeignBelowRoot(tree);
    found := FindForeign(tree, 2, Interval(Null, At([3])));
  }

  lemma ForeignBelowRoot(tree: IntervalTree<Bound, NodeId>)
    requires tree.ValidBut(null) && tree.order == RangeOrder() && tree.root != null && tree.root.upper == At([1])
    requires forall x :: x in tree.t ==> (x.lower == x.upper == At([1]) && x.data == 2) || (x.lower == x.upper == At([2]) && x.data == 1)
    ensures AllWellFormed(tree)
    ensures forall x :: x in tree.t && x.data != 2 ==> !Searched(tree, Interval(Null, At([3])), x)
  {
    hide AllSorted, MaximaRightBut, Orders, Splits, Joined;
    CompareFlip([1], [1]);
    CompareFlip([2], [2]);
    var root := tree.root;
    RootMaximum(tree);
    assert tree.Beyond(Null, At([3]), tree.t[root].maxUpper);
    forall x | x in tree.t && x.data != 2
      ensures !Searched(tree, Interval(Null, At([3])), x)
    {
      assert x != root && x in tree.b[root];
    }
  }

  lemma RootMaximum(tree: IntervalTree<Bound, NodeId>)
    requires tree.ValidBut(null) && tree.root != null
    requires forall x :: x in tree.t ==> x.upper == At([1]) || x.upper == At([2])
    ensures tree.root in tree.t && (tree.t[tree.root].maxUpper == At([1]) || tree.t[tree.root].maxUpper == At([2]))
  {
    hide AllSorted, Orders, Splits, Joined;
    var root := tree.root;
    MaximumIsExact(root, root, tree.t, tree.b, tree.order);
    var m: Node<Bound, NodeId> :| m in tree.b[root] && m.upper == tree.t[root].maxUpper;
    assert Closed(root, tree.t, tree.b);
  }

  /** The tree's test of a point is that the key lies inside the range. */
  lemma HoldsIsInside<D>(tree: IntervalTree<Bound, D>, k: Key, n: Node<Bound, D>)
    requires tree.order == RangeOrder()
    ensures tree.Holds(At(k), n) <==> Inside(k, RangeOf(n))
  {
    KeyOrder();
  }

  /** Searching for a range by its own lower bound finds it exactly when it does not run from the
      beginning of the keyspace to a key. */
  lemma FoundByLowerBoundIff<D>(tree: IntervalTree<Bound, D>, n: Node<Bound, D>)
    requires tree.order == RangeOrder() && WellFormed(RangeOf(n))
    ensures tree.Holds(n.lower, n) <==> n.lower.At? || n.upper.Null?
  {
    KeyOrder();
  }

  /** The newest stamp among other nodes' ranges over a key, found by the tree's search: there is
      one exactly if some other node's range has the key inside. */
  method NewestForeignCover(tree: IntervalTree<Bound, (NodeId, int)>, node: NodeId, k: Key) returns (stamp: Option<int>)
    requires tree.ValidBut(null) && tree.order == RangeOrder()
    ensures stamp.None? <==> forall n :: n in tree.t && Inside(k, RangeOf(n)) ==> n.data.0 == node
    ensures stamp.Some? ==> exists n :: n in tree.t && Inside(k, RangeOf(n)) && n.data.0 != node && n.data.1 == stamp.value
    ensures stamp.Some? ==> forall n :: n in tree.t && Inside(k, RangeOf(n)) && n.data.0 != node ==> n.data.1 <= stamp.value
  {
    hide TreeBut, Inside;
    forall n | n in tree.t
      ensures tree.Holds(At(k), n) <==> Inside(k, RangeOf(n))
    {
      HoldsIsInside(tree, k, n);
    }
    var found, halted := tree.Search(At(k), (l, u, d) => false);
    stamp := None;
    var i := 0;
    while i < |found|
      invariant 0 <= i <= |found|
      invariant stamp.None? ==> forall j :: 0 <= j < i ==> found[j].data.0 == node
      invariant stamp.Some? ==> exists j :: 0 <= j < i && found[j].data.0 != node && found[j].data.1 == stamp.value
      invariant stamp.Some? ==> forall j :: 0 <= j < i && found[j].data.0 != node ==> found[j].data.1 <= stamp.value
    {
      var (owner, time) := found[i].data;
      if owner != node && (stamp.None? || stamp.value < time) {
        stamp := Some(time);
      }
      i := i + 1;
    }
    assert forall n :: n in tree.t && Inside(k, RangeOf(n)) ==> n in found;
  }

  ghost predicate HasChild<D>(a: Node<Bound, D>, t: Cells<Bound, D>)
    requires a in t
  {
    t[a].left != null || t[a].right != null
  }

  /** A search that is open below finds every overlapping range if and only if it stops early
      at no node that has children. */
  lemma OpenBelowIsCompleteIff<D>(tree: IntervalTree<Bound, D>, to: Bound)
    requires tree.ValidBut(null) && tree.order == RangeOrder()
    ensures (forall n :: n in tree.t && tree.Meets(Null, to, n) ==> Reached(n, tree.t, tree.b, max => tree.Beyond(Null, to, max)))
       <==> (forall a :: a in tree.t && HasChild(a, tree.t) ==> !tree.Beyond(Null, to, tree.t[a].maxUpper))
  {
    hide AllSorted, MaximaRightBut, Shaped, Orders;
    var prune := max => tree.Beyond(Null, to, max);
    if forall a :: a in tree.t && HasChild(a, tree.t) ==> !tree.Beyond(Null, to, tree.t[a].maxUpper) {
      forall n | n in tree.t
        ensures Reached(n, tree.t, tree.b, prune)
      {
        AllAbove(tree, n, prune);
      }
    }
    if forall n :: n in tree.t && tree.Meets(Null, to, n) ==> Reached(n, tree.t, tree.b, prune) {
      forall a | a in tree.t && HasChild(a, tree.t)
        ensures !tree.Beyond(Null, to, tree.t[a].maxUpper)
      {
        ChildOfPrunedIsMissed(tree, to, a, prune);
      }
    }
  }

  /** If the search goes on from every node with children, it gets everywhere. */
  lemma AllAbove<D>(tree: IntervalTree<Bound, D>, n: Node<Bound, D>, prune: Bound -> bool)
    requires tree.ValidBut(null) && n in tree.t
    requires forall a :: a in tree.t && HasChild(a, tree.t) ==> !prune(tree.t[a].maxUpper)
    ensures Reached(n, tree.t, tree.b, prune)
  {
    forall a | a in tree.t && a in tree.b && n in tree.b[a] && n != a
      ensures HasChild(a, tree.t)
    {
      SplitsHere(a, tree.root, tree.t, tree.b);
    }
  }

  lemma AChild<D>(tree: IntervalTree<Bound, D>, a: Node<Bound, D>) returns (c: Node<Bound, D>)
    requires tree.ValidBut(null) && a in tree.t && HasChild(a, tree.t)
    ensures c in tree.t && a in tree.b && c in tree.b[a] && c != a
  {
    SplitsHere(a, tree.root, tree.t, tree.b);
    Children(a, tree.root, tree.t, tree.b);
    c := if tree.t[a].left != null then tree.t[a].left else tree.t[a].right;
    assert Closed(c, tree.t, tree.b);
  }

  /** Whatever hangs below a node the open-below search stops at overlaps and is not found. */
  lemma ChildOfPrunedIsMissed<D>(tree: IntervalTree<Bound, D>, to: Bound, a: Node<Bound, D>, prune: Bound -> bool)
    requires tree.ValidBut(null) && tree.order == RangeOrder() && a in tree.t && HasChild(a, tree.t)
    requires forall max :: prune(max) <==> tree.Beyond(Null, to, max)
    ensures exists c :: c in tree.t && (tree.Beyond(Null, to, tree.t[a].maxUpper) ==> tree.Meets(Null, to, c) && !Reached(c, tree.t, tree.b, prune))
  {
    hide Orders, AllSorted, MaximaRightBut, Shaped, Compare;
    var c := AChild(tree, a);
    MaximumIsExact(a, tree.root, tree.t, tree.b, tree.order);
    var max := tree.t[a].maxUpper;
    assert CompareNullLast(c.upper, max) <= 0;
    if tree.Beyond(Null, to, max) {
      EndsNoLater(to, c.upper, max);
    }
  }

  lemma EndsNoLater(to: Bound, u: Bound, max: Bound)
    requires CompareNullLast(u, max) <= 0 && CompareNullLast(to, max) > 0
    ensures CompareNullLast(to, u) >= 0
  {
    NullLastOrders(to, u, max);
    NullLastOrders(u, to, max);
    NullLastOrders(to, max, u);
  }
}
