/**
 The interval tree behind range locks: a pointer tree ordered by lower bound, in which each
 node caches the greatest upper bound below it. Bounds are opaque pointers compared by two
 comparison functions, as in the source: pointer equality is `==`, order is the comparators'.

 The claims are for insertion histories, for which the balance factor never leaves
 [-1, 1] and no rotation is ever performed.
 */
module IntervalTrees {
  import opened Wrappers

  class Node<T, D> {
    var parent: Node?<T, D>
    var left: Node?<T, D>
    var right: Node?<T, D>
    const lower: T
    const upper: T
    var maxUpper: T
    var data: D
    var balance: int

    constructor (lower: T, upper: T, data: D, parent: Node?<T, D>)
      ensures this.lower == lower && this.upper == upper && this.maxUpper == upper && this.data == data
      ensures this.parent == parent && left == null && right == null && balance == 0
    {
      this.lower, this.upper, this.maxUpper, this.data := lower, upper, upper, data;
      this.parent, left, right, balance := parent, null, null, 0;
    }
  }

  type Comparator<!T> = (T, T) -> int

  /** A comparison function that orders its values, equal ones included. */
  ghost predicate Orders<T(!new)>(cmp: Comparator<T>) {
    && (forall a, b :: cmp(a, b) <= 0 <==> cmp(b, a) >= 0)
    && (forall a, b, c {:trigger cmp(a, b), cmp(b, c)} :: cmp(a, b) <= 0 && cmp(b, c) <= 0 ==> cmp(a, c) <= 0)
  }

  lemma OrderFacts<T(!new)>(cmp: Comparator<T>, a: T, b: T, c: T)
    requires Orders(cmp)
    ensures cmp(a, a) == 0
    ensures cmp(a, b) < 0 <==> cmp(b, a) > 0
    ensures cmp(a, b) == 0 <==> cmp(b, a) == 0
    ensures cmp(a, b) <= 0 && cmp(b, c) < 0 ==> cmp(a, c) < 0
    ensures cmp(a, b) < 0 && cmp(b, c) <= 0 ==> cmp(a, c) < 0
  {
    assert cmp(a, a) <= 0 <==> cmp(a, a) >= 0;
    assert cmp(a, b) <= 0 <==> cmp(b, a) >= 0;
    assert cmp(b, a) <= 0 <==> cmp(a, b) >= 0;
    assert cmp(b, c) <= 0 <==> cmp(c, b) >= 0;
    assert cmp(c, b) <= 0 <==> cmp(b, c) >= 0;
    assert cmp(a, c) <= 0 <==> cmp(c, a) >= 0;
    assert cmp(c, a) <= 0 <==> cmp(a, c) >= 0;
    assert cmp(c, a) <= 0 && cmp(a, b) <= 0 ==> cmp(c, b) <= 0;
    assert cmp(b, c) <= 0 && cmp(c, a) <= 0 ==> cmp(b, a) <= 0;
  }

  /** One insertion: the interval and the data associated with it. */
  datatype Entry<T, D> = Entry(lower: T, upper: T, data: D)

  /** The comparators under which the tree is kept. */
  datatype Order<!T(!new)> = Order(lower: Comparator<T>, upper: Comparator<T>) {
    /** The comparators do not tell the two intervals apart. */
    predicate Same(l: T, u: T, l': T, u': T) {
      lower(l, l') == 0 && upper(u, u') == 0
    }

    ghost predicate Valid() {
      Orders(lower) && Orders(upper)
    }

    /** The data of the last insertion of the interval. */
    function LastData<D>(history: seq<Entry<T, D>>, l: T, u: T): Option<D> {
      if history == [] then None
      else
        var e := history[|history| - 1];
        if Same(e.lower, e.upper, l, u) then Some(e.data) else LastData(history[..|history| - 1], l, u)
    }
  }

  // ----- The tree as a value

  /** The fields of a node that change. */
  datatype Cell<T, D> = Cell(parent: Node?<T, D>, left: Node?<T, D>, right: Node?<T, D>, maxUpper: T, data: D, balance: int)

  type Cells<T, D> = map<Node<T, D>, Cell<T, D>>

  /** For each node of the tree, the nodes at and below it. */
  type Subtrees<T, D> = map<Node<T, D>, set<Node<T, D>>>

  ghost function Below<T, D>(n: Node?<T, D>, b: Subtrees<T, D>): set<Node<T, D>> {
    if n != null && n in b then b[n] else {}
  }

  /** The node's subtree is the node with its two disjoint ones. */
  ghost predicate Splits<T, D>(n: Node<T, D>, left: Node?<T, D>, right: Node?<T, D>, b: Subtrees<T, D>) {
    && n in b
    && n !in Below(left, b) && n !in Below(right, b)
    && (forall m :: m in Below(left, b) ==> m !in Below(right, b))
    && b[n] == {n} + Below(left, b) + Below(right, b)
  }

  /** Parent and child links agree. */
  ghost predicate Joined<T, D>(n: Node<T, D>, t: Cells<T, D>) {
    && n in t
    && (t[n].left != null ==> t[n].left in t && t[t[n].left].parent == n)
    && (t[n].right != null ==> t[n].right in t && t[t[n].right].parent == n)
    && (t[n].parent != null ==> t[n].parent in t && (t[t[n].parent].left == n || t[t[n].parent].right == n))
  }

  /** Whatever is below a node has its parent below it too. */
  ghost predicate Closed<T, D>(n: Node<T, D>, t: Cells<T, D>, b: Subtrees<T, D>) {
    && n in b && n in b[n]
    && (forall m :: m in b[n] ==> m in t)
    && (forall m :: m in b[n] && m in t && m != n ==> t[m].parent != null && t[m].parent in b[n])
  }

  ghost predicate Shaped<T, D>(root: Node?<T, D>, t: Cells<T, D>, b: Subtrees<T, D>) {
    && (forall n :: n in t ==> n in b) && (forall n :: n in b ==> n in t)
    && (root == null ==> t == map[])
    && (root != null ==> root in t && t[root].parent == null && forall n :: n in t ==> n in b[root])
    && (forall n :: n in t ==> Joined(n, t) && Splits(n, t[n].left, t[n].right, b) && Closed(n, t, b))
  }

  /** Lower bounds to the left are strictly below, those to the right at or above. */
  ghost predicate Sorted<T(!new), D>(n: Node<T, D>, left: Node?<T, D>, right: Node?<T, D>, b: Subtrees<T, D>, order: Order<T>) {
    && (forall m :: m in Below(left, b) ==> order.lower(m.lower, n.lower) < 0)
    && (forall m :: m in Below(right, b) ==> order.lower(m.lower, n.lower) >= 0)
  }

  /** The greater of an upper bound and, if there is a child, the child's cached maximum. */
  function Pick<T(!new)>(u: T, child: Option<T>, order: Order<T>): T {
    if child.Some? && order.upper(child.value, u) > 0 then child.value else u
  }

  ghost function Cached<T, D>(n: Node?<T, D>, t: Cells<T, D>): Option<T> {
    if n != null && n in t then Some(t[n].maxUpper) else None
  }

  /** The upper bound `update_max_upper` picks: the node's own unless a child's is greater. */
  ghost function Greatest<T(!new), D>(n: Node<T, D>, t: Cells<T, D>, order: Order<T>): T
    requires n in t
  {
    Pick(Pick(n.upper, Cached(t[n].left, t), order), Cached(t[n].right, t), order)
  }

  /** One for a left child, less one for a right child: what insertion alone ever records. */
  predicate Balanced<T, D>(c: Cell<T, D>) {
    c.balance == (if c.left == null then 0 else 1) - (if c.right == null then 0 else 1)
  }

  ghost predicate AllSorted<T(!new), D>(t: Cells<T, D>, b: Subtrees<T, D>, order: Order<T>) {
    forall n :: n in t ==> Sorted(n, t[n].left, t[n].right, b, order) && Balanced(t[n])
  }

  /** The cached maximum is right at every node but, perhaps, one. */
  ghost predicate MaximaRightBut<T(!new), D>(x: Node?<T, D>, t: Cells<T, D>, order: Order<T>) {
    forall n :: n in t && n != x ==> t[n].maxUpper == Greatest(n, t, order)
  }

  /** A well-formed tree, but for the data, and the maximum cached at one node, if any. */
  ghost predicate TreeBut<T(!new), D>(x: Node?<T, D>, root: Node?<T, D>, t: Cells<T, D>, b: Subtrees<T, D>, order: Order<T>) {
    order.Valid() && Shaped(root, t, b) && AllSorted(t, b, order) && MaximaRightBut(x, t, order)
  }

  lemma Children<T, D>(n: Node<T, D>, root: Node?<T, D>, t: Cells<T, D>, b: Subtrees<T, D>)
    requires Shaped(root, t, b) && n in t
    ensures n in b && Joined(n, t) && Closed(n, t, b)
    ensures t[n].left != null ==> t[n].left in b && b[t[n].left] < b[n]
    ensures t[n].right != null ==> t[n].right in b && b[t[n].right] < b[n]
    ensures t[n].left != null ==> t[n].left != t[n].right
  {
    assert Joined(n, t) && Splits(n, t[n].left, t[n].right, b);
    assert t[n].left != null ==> Closed(t[n].left, t, b);
  }

  // ----- Finding the place of an interval

  /** Where a new lower bound may be put: on the proper side of every node above. */
  ghost predicate Fits<T(!new), D>(l: T, n: Node<T, D>, t: Cells<T, D>, b: Subtrees<T, D>, order: Order<T>) {
    forall a :: a in t ==>
      && (n in Below(t[a].left, b) ==> order.lower(l, a.lower) < 0)
      && (n in Below(t[a].right, b) ==> order.lower(l, a.lower) >= 0)
  }

  lemma FitsStep<T(!new), D>(l: T, n: Node<T, D>, c: Node<T, D>, root: Node?<T, D>, t: Cells<T, D>, b: Subtrees<T, D>, order: Order<T>)
    requires Shaped(root, t, b) && n in t && c in t && Fits(l, n, t, b, order)
    requires (c == t[n].left && order.lower(l, n.lower) < 0) || (c == t[n].right && order.lower(l, n.lower) >= 0)
    ensures Fits(l, c, t, b, order)
  {
    Children(n, root, t, b);
    forall a | a in t
      ensures c in Below(t[a].left, b) ==> order.lower(l, a.lower) < 0
      ensures c in Below(t[a].right, b) ==> order.lower(l, a.lower) >= 0
    {
      Children(a, root, t, b);
      assert Splits(a, t[a].left, t[a].right, b);
      assert t[a].left != null ==> Closed(t[a].left, t, b);
      assert t[a].right != null ==> Closed(t[a].right, t, b);
      assert Closed(c, t, b);
    }
  }

  lemma RootFits<T(!new), D>(l: T, root: Node<T, D>, t: Cells<T, D>, b: Subtrees<T, D>, order: Order<T>)
    requires Shaped(root, t, b)
    ensures Fits(l, root, t, b, order)
  {
    forall a | a in t
      ensures root !in Below(t[a].left, b) && root !in Below(t[a].right, b)
    {
      Children(a, root, t, b);
      assert t[a].left != null ==> Closed(t[a].left, t, b);
      assert t[a].right != null ==> Closed(t[a].right, t, b);
    }
  }

  /** An interval equal to the sought one, below a node, is on the side the search takes. */
  lemma SameSide<T(!new), D>(l: T, u: T, n: Node<T, D>, left: Node?<T, D>, right: Node?<T, D>, b: Subtrees<T, D>, order: Order<T>)
    requires order.Valid() && Splits(n, left, right, b) && Sorted(n, left, right, b, order)
    ensures forall m :: m in b[n] && order.Same(m.lower, m.upper, l, u) ==>
              || (m == n && order.Same(n.lower, n.upper, l, u))
              || (if order.lower(l, n.lower) < 0 then m in Below(left, b) else m in Below(right, b))
  {
    hide Orders;
    forall m | m in b[n] && order.Same(m.lower, m.upper, l, u)
      ensures || (m == n && order.Same(n.lower, n.upper, l, u))
              || (if order.lower(l, n.lower) < 0 then m in Below(left, b) else m in Below(right, b))
    {
      OrderFacts(order.lower, m.lower, l, n.lower);
      OrderFacts(order.lower, l, m.lower, n.lower);
    }
  }

  // ----- Hanging a new leaf

  /** The subtrees once a leaf has been hung under a node: it is below whatever the node is below. */
  ghost function Grown<T, D>(b: Subtrees<T, D>, n: Node<T, D>, c: Node<T, D>): Subtrees<T, D> {
    map a | a in b.Keys + {c} :: if a == c then {c} else if n in b[a] then b[a] + {c} else b[a]
  }

  /** The cells once the leaf is linked on the side its lower bound belongs. */
  ghost function Hung<T, D>(t: Cells<T, D>, n: Node<T, D>, c: Node<T, D>, left: bool, data: D): Cells<T, D>
    requires n in t
  {
    t[n := if left then t[n].(left := c, balance := t[n].balance + 1) else t[n].(right := c, balance := t[n].balance - 1)]
     [c := Cell(n, null, null, c.upper, data, 0)]
  }

  lemma GrownBelow<T, D>(b: Subtrees<T, D>, n: Node<T, D>, c: Node<T, D>, x: Node?<T, D>)
    requires c !in b && x != c
    ensures Below(x, Grown(b, n, c)) == if n in Below(x, b) then Below(x, b) + {c} else Below(x, b)
  {
  }

  lemma GrownSplits<T, D>(b: Subtrees<T, D>, n: Node<T, D>, c: Node<T, D>, a: Node<T, D>, left: Node?<T, D>, right: Node?<T, D>)
    requires c !in b && a in b && a != n && left != c && right != c && c !in b[a] && Splits(a, left, right, b)
    ensures Splits(a, left, right, Grown(b, n, c))
  {
    GrownBelow(b, n, c, left);
    GrownBelow(b, n, c, right);
  }

  lemma LeafSplits<T, D>(b: Subtrees<T, D>, n: Node<T, D>, c: Node<T, D>, other: Node?<T, D>)
    requires c !in b && n in b && c != n && other != c && c !in b[n] && n in b[n]
    ensures Splits(n, null, other, b) ==> Splits(n, c, other, Grown(b, n, c))
    ensures Splits(n, other, null, b) ==> Splits(n, other, c, Grown(b, n, c))
    ensures Splits(c, null, null, Grown(b, n, c))
  {
    GrownBelow(b, n, c, other);
    assert Below(c, Grown(b, n, c)) == {c};
  }

  lemma HungJoined<T, D>(root: Node?<T, D>, t: Cells<T, D>, b: Subtrees<T, D>, n: Node<T, D>, c: Node<T, D>, left: bool, data: D, a: Node<T, D>)
    requires Shaped(root, t, b) && n in t && c !in t && (if left then t[n].left == null else t[n].right == null)
    requires a in Hung(t, n, c, left, data)
    ensures Joined(a, Hung(t, n, c, left, data))
  {
    hide Closed, Splits;
    assert a != c ==> Joined(a, t);
    assert Joined(n, t);
  }

  lemma HungClosed<T, D>(t: Cells<T, D>, b: Subtrees<T, D>, n: Node<T, D>, c: Node<T, D>, left: bool, data: D, a: Node<T, D>)
    requires n in t && c !in t && c !in b && (a == c || (a in t && Closed(a, t, b)))
    ensures Closed(a, Hung(t, n, c, left, data), Grown(b, n, c))
  {
  }

  lemma HungSplits<T, D>(root: Node?<T, D>, t: Cells<T, D>, b: Subtrees<T, D>, n: Node<T, D>, c: Node<T, D>, left: bool, data: D, a: Node<T, D>)
    requires Shaped(root, t, b) && n in t && c !in t && (if left then t[n].left == null else t[n].right == null)
    requires a in Hung(t, n, c, left, data)
    ensures var t' := Hung(t, n, c, left, data); Splits(a, t'[a].left, t'[a].right, Grown(b, n, c))
  {
    hide Splits;
    if a == c {
      assert Closed(n, t, b);
      LeafSplits(b, n, c, null);
    } else {
      assert Joined(a, t) && Closed(a, t, b);
      if a == n {
        LeafSplits(b, n, c, if left then t[n].right else t[n].left);
      } else {
        GrownSplits(b, n, c, a, t[a].left, t[a].right);
      }
    }
  }

  lemma HungShaped<T, D>(root: Node?<T, D>, t: Cells<T, D>, b: Subtrees<T, D>, n: Node<T, D>, c: Node<T, D>, left: bool, data: D)
    requires Shaped(root, t, b) && n in t && c !in t && (if left then t[n].left == null else t[n].right == null)
    ensures Shaped(root, Hung(t, n, c, left, data), Grown(b, n, c))
  {
    hide Joined, Closed, Splits;
    var t', b' := Hung(t, n, c, left, data), Grown(b, n, c);
    forall a | a in t'
      ensures Joined(a, t') && Splits(a, t'[a].left, t'[a].right, b') && Closed(a, t', b')
    {
      HungJoined(root, t, b, n, c, left, data, a);
      HungSplits(root, t, b, n, c, left, data, a);
      HungClosed(t, b, n, c, left, data, a);
    }
  }

  lemma GrownSorted<T(!new), D>(a: Node<T, D>, left: Node?<T, D>, right: Node?<T, D>, b: Subtrees<T, D>, order: Order<T>, n: Node<T, D>, c: Node<T, D>)
    requires c !in b && left != c && right != c && Sorted(a, left, right, b, order)
    requires n in Below(left, b) ==> order.lower(c.lower, a.lower) < 0
    requires n in Below(right, b) ==> order.lower(c.lower, a.lower) >= 0
    ensures Sorted(a, left, right, Grown(b, n, c), order)
  {
    GrownBelow(b, n, c, left);
    GrownBelow(b, n, c, right);
  }

  lemma LeafSorted<T(!new), D>(n: Node<T, D>, left: Node?<T, D>, right: Node?<T, D>, b: Subtrees<T, D>, order: Order<T>, c: Node<T, D>)
    requires c !in b && left != c && right != c && Sorted(n, left, right, b, order)
    requires n !in Below(left, b) && n !in Below(right, b)
    ensures left == null && order.lower(c.lower, n.lower) < 0 ==> Sorted(n, c, right, Grown(b, n, c), order)
    ensures right == null && order.lower(c.lower, n.lower) >= 0 ==> Sorted(n, left, c, Grown(b, n, c), order)
  {
    GrownBelow(b, n, c, left);
    GrownBelow(b, n, c, right);
    assert Below(c, Grown(b, n, c)) == {c};
  }

  lemma HungSorted<T(!new), D>(root: Node?<T, D>, t: Cells<T, D>, b: Subtrees<T, D>, order: Order<T>, n: Node<T, D>, c: Node<T, D>, data: D)
    requires Shaped(root, t, b) && AllSorted(t, b, order) && n in t && c !in t && Fits(c.lower, n, t, b, order)
    requires var left := order.lower(c.lower, n.lower) < 0; if left then t[n].left == null else t[n].right == null
    ensures AllSorted(Hung(t, n, c, order.lower(c.lower, n.lower) < 0, data), Grown(b, n, c), order)
  {
    hide Closed, Sorted, Below;
    var left := order.lower(c.lower, n.lower) < 0;
    var t', b' := Hung(t, n, c, left, data), Grown(b, n, c);
    forall a | a in t'
      ensures Sorted(a, t'[a].left, t'[a].right, b', order) && Balanced(t'[a])
    {
      if a == c {
        NoChildrenSorted(c, b', order);
      } else {
        assert Joined(a, t) && Splits(a, t[a].left, t[a].right, b);
        if a == n {
          LeafSorted(n, t[n].left, t[n].right, b, order, c);
        } else {
          GrownSorted(a, t[a].left, t[a].right, b, order, n, c);
        }
      }
    }
  }

  lemma NoChildrenSorted<T(!new), D>(c: Node<T, D>, b: Subtrees<T, D>, order: Order<T>)
    ensures Sorted(c, null, null, b, order)
  {
  }

  lemma HungMaxima<T(!new), D>(root: Node?<T, D>, t: Cells<T, D>, b: Subtrees<T, D>, order: Order<T>, n: Node<T, D>, c: Node<T, D>, left: bool, data: D)
    requires Shaped(root, t, b) && MaximaRightBut(null, t, order) && n in t && c !in t
    ensures MaximaRightBut(n, Hung(t, n, c, left, data), order)
  {
    hide Closed, Splits;
    var t' := Hung(t, n, c, left, data);
    forall a | a in t' && a != n
      ensures t'[a].maxUpper == Greatest(a, t', order)
    {
      if a != c {
        assert Joined(a, t);
      }
    }
  }

  // ----- Restoring the maxima upward

  /** Only what a node caches or carries has changed. */
  ghost predicate SameLinks<T, D>(t: Cells<T, D>, t': Cells<T, D>) {
    && (forall n :: n in t ==> n in t') && (forall n :: n in t' ==> n in t)
    && (forall n :: n in t ==> t'[n].parent == t[n].parent && t'[n].left == t[n].left && t'[n].right == t[n].right && t'[n].balance == t[n].balance)
  }

  lemma SameLinksJoined<T, D>(t: Cells<T, D>, t': Cells<T, D>, n: Node<T, D>)
    requires SameLinks(t, t') && Joined(n, t)
    ensures Joined(n, t')
  {
  }

  lemma SameLinksClosed<T, D>(t: Cells<T, D>, t': Cells<T, D>, b: Subtrees<T, D>, n: Node<T, D>)
    requires SameLinks(t, t') && Closed(n, t, b)
    ensures Closed(n, t', b)
  {
  }

  lemma SameLinksShaped<T, D>(root: Node?<T, D>, t: Cells<T, D>, t': Cells<T, D>, b: Subtrees<T, D>)
    requires Shaped(root, t, b) && SameLinks(t, t')
    ensures Shaped(root, t', b)
  {
    hide Splits, Joined, Closed;
    forall n | n in t'
      ensures Joined(n, t') && Closed(n, t', b)
    {
      SameLinksJoined(t, t', n);
      SameLinksClosed(t, t', b, n);
    }
  }

  lemma SameLinksSorted<T(!new), D>(t: Cells<T, D>, t': Cells<T, D>, b: Subtrees<T, D>, order: Order<T>)
    requires AllSorted(t, b, order) && SameLinks(t, t')
    ensures AllSorted(t', b, order)
  {
    hide Sorted;
  }

  ghost function Raised<T(!new), D>(x: Node<T, D>, t: Cells<T, D>, order: Order<T>): Cells<T, D>
    requires x in t
  {
    t[x := t[x].(maxUpper := Greatest(x, t, order))]
  }

  lemma GreatestIgnores<T(!new), D>(n: Node<T, D>, t: Cells<T, D>, x: Node<T, D>, g: T, order: Order<T>)
    requires n in t && x in t && t[n].left != x && t[n].right != x
    ensures Greatest(n, t[x := t[x].(maxUpper := g)], order) == Greatest(n, t, order)
  {
  }

  lemma RaisedMaxima<T(!new), D>(x: Node<T, D>, root: Node?<T, D>, t: Cells<T, D>, b: Subtrees<T, D>, order: Order<T>)
    requires Shaped(root, t, b) && MaximaRightBut(x, t, order) && x in t
    ensures MaximaRightBut(t[x].parent, Raised(x, t, order), order)
  {
    hide Splits, Closed, Greatest;
    var t' := Raised(x, t, order);
    forall n | n in t' && n != t[x].parent
      ensures t'[n].maxUpper == Greatest(n, t', order)
    {
      assert Joined(n, t);
      assert Splits(x, t[x].left, t[x].right, b) && Closed(x, t, b);
      NotItsOwnChild(x, t, b);
      GreatestIgnores(n, t, x, Greatest(x, t, order), order);
    }
  }

  lemma NotItsOwnChild<T, D>(x: Node<T, D>, t: Cells<T, D>, b: Subtrees<T, D>)
    requires x in t && Splits(x, t[x].left, t[x].right, b) && Closed(x, t, b)
    ensures t[x].left != x && t[x].right != x
  {
  }

  /** Only cached maxima have changed. */
  ghost predicate SameButMaxima<T, D>(t: Cells<T, D>, t': Cells<T, D>) {
    SameLinks(t, t') && forall n :: n in t ==> t'[n].data == t[n].data
  }

  lemma NothingRaised<T, D>(t: Cells<T, D>)
    ensures SameButMaxima(t, t)
  {
  }

  lemma RaisedAgain<T(!new), D>(t0: Cells<T, D>, t: Cells<T, D>, x: Node<T, D>, order: Order<T>)
    requires SameButMaxima(t0, t) && x in t
    ensures SameButMaxima(t0, Raised(x, t, order)) && Raised(x, t, order).Keys == t.Keys
  {
    hide Greatest;
  }

  /** Recomputing one node's maximum leaves at most its parent's to be recomputed; and if it
      did not change there is nothing left to do, all the way up. */
  lemma RaiseStep<T(!new), D>(x: Node<T, D>, root: Node?<T, D>, t: Cells<T, D>, b: Subtrees<T, D>, order: Order<T>)
    requires TreeBut(x, root, t, b, order) && x in t
    ensures TreeBut(t[x].parent, root, Raised(x, t, order), b, order)
    ensures t[x].maxUpper == Greatest(x, t, order) ==> TreeBut(null, root, t, b, order)
  {
    hide Shaped, AllSorted, Greatest;
    RaisedMaxima(x, root, t, b, order);
    SameLinksShaped(root, t, Raised(x, t, order), b);
    SameLinksSorted(t, Raised(x, t, order), b, order);
  }

  /** Exactness: the cached maximum bounds every upper bound below the node and is one of them. */
  lemma {:induction false} MaximumIsExact<T(!new), D>(x: Node<T, D>, root: Node?<T, D>, t: Cells<T, D>, b: Subtrees<T, D>, order: Order<T>)
    requires TreeBut(null, root, t, b, order) && x in t && x in b
    ensures forall m :: m in b[x] ==> order.upper(m.upper, t[x].maxUpper) <= 0
    ensures exists m :: m in b[x] && m.upper == t[x].maxUpper
    decreases b[x]
  {
    Children(x, root, t, b);
    var left, right := t[x].left, t[x].right;
    assert Splits(x, left, right, b);
    if left != null {
      MaximumIsExact(left, root, t, b, order);
    }
    if right != null {
      MaximumIsExact(right, root, t, b, order);
    }
    var own := Pick(x.upper, Cached(left, t), order);
    PickIsGreater(x.upper, Cached(left, t), order);
    PickIsGreater(own, Cached(right, t), order);
    var g := t[x].maxUpper;
    forall m | m in b[x]
      ensures order.upper(m.upper, g) <= 0
    {
      assert m == x || m in Below(left, b) || m in Below(right, b);
    }
    assert x in b[x];
  }

  lemma PickIsGreater<T(!new)>(u: T, child: Option<T>, order: Order<T>)
    requires order.Valid()
    ensures order.upper(u, Pick(u, child, order)) <= 0
    ensures child.Some? ==> order.upper(child.value, Pick(u, child, order)) <= 0
    ensures Pick(u, child, order) == u || child == Some(Pick(u, child, order))
  {
    OrderFacts(order.upper, u, u, u);
    if child.Some? {
      OrderFacts(order.upper, u, child.value, u);
      OrderFacts(order.upper, child.value, child.value, u);
    }
  }

  // ----- The tree in memory

  /** The nodes' fields are what the cells say. */
  ghost predicate Matches<T, D>(t: Cells<T, D>)
    reads t.Keys
  {
    forall n :: n in t ==> t[n] == Cell(n.parent, n.left, n.right, n.maxUpper, n.data, n.balance)
  }

  /** No two nodes for one interval; each carries the data of its last insertion; every
      interval inserted is there. */
  ghost predicate Faithful<T(!new), D>(t: Cells<T, D>, history: seq<Entry<T, D>>, order: Order<T>) {
    && (forall m, n :: m in t && n in t && order.Same(m.lower, m.upper, n.lower, n.upper) ==> m == n)
    && (forall n :: n in t ==> order.LastData(history, n.lower, n.upper) == Some(t[n].data))
    && (forall l, u :: order.LastData(history, l, u).Some? ==> exists n :: n in t && order.Same(n.lower, n.upper, l, u))
  }

  lemma SameIsEquivalence<T(!new)>(order: Order<T>, l: T, u: T, l': T, u': T, l'': T, u'': T)
    requires order.Valid()
    ensures order.Same(l, u, l, u)
    ensures order.Same(l, u, l', u') == order.Same(l', u', l, u)
    ensures order.Same(l, u, l', u') && order.Same(l', u', l'', u'') ==> order.Same(l, u, l'', u'')
  {
    OrderFacts(order.lower, l, l', l'');
    OrderFacts(order.upper, u, u', u'');
    OrderFacts(order.lower, l', l'', l);
    OrderFacts(order.upper, u', u'', u);
    OrderFacts(order.lower, l'', l', l);
    OrderFacts(order.upper, u'', u', u);
    OrderFacts(order.lower, l, l'', l');
    OrderFacts(order.upper, u, u'', u');
  }

  lemma LastOf<T(!new), D>(history: seq<Entry<T, D>>, e: Entry<T, D>, order: Order<T>, l: T, u: T)
    ensures order.LastData(history + [e], l, u) == if order.Same(e.lower, e.upper, l, u) then Some(e.data) else order.LastData(history, l, u)
  {
    assert (history + [e])[..|history|] == history;
  }

  /** Inserting an interval not there yet. */
  lemma FaithfulWith<T(!new), D>(t: Cells<T, D>, t': Cells<T, D>, history: seq<Entry<T, D>>, order: Order<T>, c: Node<T, D>)
    requires order.Valid() && Faithful(t, history, order)
    requires forall m :: m in t ==> !order.Same(m.lower, m.upper, c.lower, c.upper)
    requires c in t' && (forall m :: m in t' ==> m == c || m in t) && (forall m :: m in t ==> m in t' && t'[m].data == t[m].data)
    ensures Faithful(t', history + [Entry(c.lower, c.upper, t'[c].data)], order)
  {
    hide Orders;
    var e := Entry(c.lower, c.upper, t'[c].data);
    forall m | m in t'
      ensures order.Same(c.lower, c.upper, m.lower, m.upper) <==> m == c
      ensures order.Same(m.lower, m.upper, c.lower, c.upper) <==> m == c
      ensures order.LastData(history + [e], m.lower, m.upper) == Some(t'[m].data)
    {
      SameIsEquivalence(order, c.lower, c.upper, m.lower, m.upper, c.lower, c.upper);
      LastOf(history, e, order, m.lower, m.upper);
    }
    forall l, u | order.LastData(history + [e], l, u).Some?
      ensures exists n :: n in t' && order.Same(n.lower, n.upper, l, u)
    {
      LastOf(history, e, order, l, u);
      if !order.Same(c.lower, c.upper, l, u) {
        var n :| n in t && order.Same(n.lower, n.upper, l, u);
        assert n in t';
      }
    }
  }

  /** Inserting an interval that is there replaces its data. */
  lemma FaithfulReplacing<T(!new), D>(t: Cells<T, D>, history: seq<Entry<T, D>>, order: Order<T>, n: Node<T, D>, l: T, u: T, d: D)
    requires order.Valid() && Faithful(t, history, order) && n in t && order.Same(n.lower, n.upper, l, u)
    ensures Faithful(t[n := t[n].(data := d)], history + [Entry(l, u, d)], order)
  {
    hide Orders;
    var t', e := t[n := t[n].(data := d)], Entry(l, u, d);
    forall m | m in t'
      ensures order.LastData(history + [e], m.lower, m.upper) == Some(t'[m].data)
    {
      SameIsEquivalence(order, n.lower, n.upper, l, u, m.lower, m.upper);
      LastOf(history, e, order, m.lower, m.upper);
    }
    forall l', u' | order.LastData(history + [e], l', u').Some?
      ensures exists m :: m in t' && order.Same(m.lower, m.upper, l', u')
    {
      LastOf(history, e, order, l', u');
      if order.Same(l, u, l', u') {
        SameIsEquivalence(order, n.lower, n.upper, l, u, l', u');
      } else {
        var m :| m in t && order.Same(m.lower, m.upper, l', u');
        assert m in t';
      }
    }
  }

  lemma SingleTree<T(!new), D>(c: Node<T, D>, d: D, order: Order<T>)
    requires order.Valid()
    ensures TreeBut(null, c, map[c := Cell(null, null, null, c.upper, d, 0)], map[c := {c}], order)
  {
  }

  lemma GreatestIgnoresData<T(!new), D>(m: Node<T, D>, t: Cells<T, D>, n: Node<T, D>, d: D, order: Order<T>)
    requires m in t && n in t
    ensures Greatest(m, t[n := t[n].(data := d)], order) == Greatest(m, t, order)
  {
  }

  lemma DataChanged<T(!new), D>(n: Node<T, D>, d: D, root: Node?<T, D>, t: Cells<T, D>, b: Subtrees<T, D>, order: Order<T>)
    requires TreeBut(null, root, t, b, order) && n in t
    ensures TreeBut(null, root, t[n := t[n].(data := d)], b, order)
  {
    hide Shaped, AllSorted, Greatest;
    var t' := t[n := t[n].(data := d)];
    SameLinksShaped(root, t, t', b);
    SameLinksSorted(t, t', b, order);
    forall m | m in t'
      ensures t'[m].maxUpper == Greatest(m, t', order)
    {
      GreatestIgnoresData(m, t, n, d, order);
    }
  }

  lemma HungThenRaised<T, D>(t0: Cells<T, D>, t1: Cells<T, D>, t2: Cells<T, D>, n: Node<T, D>, c: Node<T, D>, left: bool, data: D)
    requires n in t0 && c !in t0 && t1 == Hung(t0, n, c, left, data) && (t2 == t1 || SameButMaxima(t1, t2))
    ensures t2.Keys == t0.Keys + {c} && t2[c].data == data
    ensures forall m :: m in t0 ==> m in t2 && t2[m].data == t0[m].data
  {
  }

  // ----- Searching

  /** No node above is passed over: the traversal gets to this node. */
  ghost predicate Reached<T, D>(m: Node<T, D>, t: Cells<T, D>, b: Subtrees<T, D>, prune: T -> bool) {
    forall a :: a in t && a in b && m in b[a] && m != a ==> !prune(t[a].maxUpper)
  }

  /** What is on the stack and what has been visited make up, without overlap, all the nodes
      the traversal gets to. */
  ghost predicate Frontier<T, D>(stack: seq<Node<T, D>>, visited: set<Node<T, D>>, t: Cells<T, D>, b: Subtrees<T, D>, prune: T -> bool) {
    && (forall x :: x in stack ==> x in t && x in b && Reached(x, t, b, prune))
    && (forall i, j, m :: 0 <= i < j < |stack| && m in Below(stack[i], b) ==> m !in Below(stack[j], b))
    && (forall x, m :: x in stack && m in Below(x, b) ==> m !in visited)
    && (forall m :: m in t && Reached(m, t, b, prune) ==> m in visited || exists x :: x in stack && m in Below(x, b))
    && (forall m :: m in visited ==> m in t && Reached(m, t, b, prune))
  }

  lemma FrontierStart<T, D>(root: Node<T, D>, t: Cells<T, D>, b: Subtrees<T, D>, prune: T -> bool)
    requires Shaped(root, t, b)
    ensures Frontier([root], {}, t, b, prune)
  {
    hide Joined, Splits;
    RootReached(root, t, b, prune);
    assert forall m :: m in t ==> m in Below(root, b) && root in [root];
  }

  lemma ChildReached<T, D>(x: Node<T, D>, c: Node<T, D>, root: Node?<T, D>, t: Cells<T, D>, b: Subtrees<T, D>, prune: T -> bool)
    requires Shaped(root, t, b) && x in t && Reached(x, t, b, prune) && !prune(t[x].maxUpper)
    requires c == t[x].left || c == t[x].right
    ensures c in t && c in b && Reached(c, t, b, prune)
  {
    hide Splits;
    assert Joined(x, t);
    forall a | a in t && a in b && c in b[a] && c != a
      ensures !prune(t[a].maxUpper)
    {
      assert Closed(a, t, b);
    }
  }

  lemma RootReached<T, D>(root: Node<T, D>, t: Cells<T, D>, b: Subtrees<T, D>, prune: T -> bool)
    requires Shaped(root, t, b)
    ensures Reached(root, t, b, prune)
  {
    hide Joined, Splits;
    assert forall a :: a in t && root in b[a] ==> Closed(a, t, b) && root == a;
  }

  /** When the traversal does not get to a node, it has gone no further at one it did get to. */
  lemma {:induction false} StoppedAbove<T, D>(n: Node<T, D>, root: Node?<T, D>, t: Cells<T, D>, b: Subtrees<T, D>, prune: T -> bool)
    returns (a: Node<T, D>)
    requires Shaped(root, t, b) && n in t && n in b && !Reached(n, t, b, prune)
    ensures a in t && a in b && a in b[a] && Reached(a, t, b, prune) && prune(t[a].maxUpper)
    decreases t.Keys - b[n]
  {
    hide Reached;
    RootReached(root, t, b, prune);
    assert Closed(root, t, b) && Joined(n, t);
    var p := t[n].parent;
    Children(p, root, t, b);
    assert Closed(n, t, b);
    if Reached(p, t, b, prune) {
      if !prune(t[p].maxUpper) {
        ChildReached(p, n, root, t, b, prune);
      }
      a := p;
    } else {
      assert Closed(p, t, b);
      a := StoppedAbove(p, root, t, b, prune);
    }
  }

  /** Passing over a node's children loses only nodes the traversal does not get to. */
  lemma FrontierPruned<T, D>(x: Node<T, D>, rest: seq<Node<T, D>>, visited: set<Node<T, D>>, t: Cells<T, D>, b: Subtrees<T, D>, prune: T -> bool)
    requires Frontier([x] + rest, visited, t, b, prune) && x in b && x in b[x] && prune(t[x].maxUpper)
    ensures Frontier(rest, visited + {x}, t, b, prune) && x !in visited
  {
    var stack := [x] + rest;
    assert x in stack && forall y :: y in rest ==> y in stack;
    forall y, m | y in rest && m in Below(y, b)
      ensures m !in visited + {x}
    {
      var j :| 0 <= j < |rest| && rest[j] == y;
      assert stack[0] == x && stack[j + 1] == y;
    }
    forall m | m in t && Reached(m, t, b, prune)
      ensures m in visited + {x} || exists y :: y in rest && m in Below(y, b)
    {
      if m !in visited {
        var y :| y in stack && m in Below(y, b);
        assert y == x ==> m == x;
      }
    }
    forall i, j, m | 0 <= i < j < |rest| && m in Below(rest[i], b)
      ensures m !in Below(rest[j], b)
    {
      assert stack[i + 1] == rest[i] && stack[j + 1] == rest[j];
    }
  }

  /** The children of a node, left first. */
  function KidsOf<T, D>(left: Node?<T, D>, right: Node?<T, D>): seq<Node<T, D>> {
    (if left != null then [left] else []) + (if right != null then [right] else [])
  }

  /** The nodes divide what is below another one among themselves. */
  ghost predicate Kids<T, D>(kids: seq<Node<T, D>>, x: Node<T, D>, t: Cells<T, D>, b: Subtrees<T, D>, prune: T -> bool)
    requires x in b
  {
    && (forall k :: k in kids ==> k in t && k in b && Reached(k, t, b, prune))
    && (forall k, m :: k in kids && m in Below(k, b) ==> m in b[x] && m != x)
    && (forall i, j, m :: 0 <= i < j < |kids| && m in Below(kids[i], b) ==> m !in Below(kids[j], b))
    && (forall m :: m in b[x] && m != x ==> exists k :: k in kids && m in Below(k, b))
  }

  lemma KidsOfAreKids<T, D>(x: Node<T, D>, root: Node?<T, D>, t: Cells<T, D>, b: Subtrees<T, D>, prune: T -> bool)
    requires Shaped(root, t, b) && x in t && x in b && Reached(x, t, b, prune) && !prune(t[x].maxUpper)
    ensures Kids(KidsOf(t[x].left, t[x].right), x, t, b, prune)
  {
    hide Shaped, Reached;
    var left, right := t[x].left, t[x].right;
    var kids := KidsOf(left, right);
    if left != null {
      ChildReached(x, left, root, t, b, prune);
    }
    if right != null {
      ChildReached(x, right, root, t, b, prune);
    }
    SplitsHere(x, root, t, b);
    forall m | m in b[x] && m != x
      ensures exists k :: k in kids && m in Below(k, b)
    {
      if m in Below(left, b) {
        assert left in kids;
      } else {
        assert right in kids;
      }
    }
  }

  lemma SplitsHere<T, D>(x: Node<T, D>, root: Node?<T, D>, t: Cells<T, D>, b: Subtrees<T, D>)
    requires Shaped(root, t, b) && x in t
    ensures Splits(x, t[x].left, t[x].right, b) && x in b && x in b[x]
  {
    assert Closed(x, t, b);
  }

  lemma FrontierExpanded<T, D>(x: Node<T, D>, kids: seq<Node<T, D>>, rest: seq<Node<T, D>>, visited: set<Node<T, D>>,
                               t: Cells<T, D>, b: Subtrees<T, D>, prune: T -> bool)
    requires Frontier([x] + rest, visited, t, b, prune) && x in b && x in b[x] && Kids(kids, x, t, b, prune)
    ensures Frontier(kids + rest, visited + {x}, t, b, prune) && x !in visited
  {
    hide Reached;
    var stack, stack' := [x] + rest, kids + rest;
    assert x in stack && forall y :: y in rest ==> y in stack;
    forall y, m | y in rest && m in Below(y, b)
      ensures m !in b[x] && m !in visited + {x}
    {
      var j :| 0 <= j < |rest| && rest[j] == y;
      assert stack[0] == x && stack[j + 1] == y;
    }
    forall m | m in t && Reached(m, t, b, prune)
      ensures m in visited + {x} || exists y :: y in stack' && m in Below(y, b)
    {
      if m !in visited + {x} {
        var y :| y in stack && m in Below(y, b);
        if y == x {
          var k :| k in kids && m in Below(k, b);
          assert k in stack';
        } else {
          assert y in stack';
        }
      }
    }
    DisjointTail(x, kids, rest, b);
  }

  lemma DisjointTail<T, D>(x: Node<T, D>, kids: seq<Node<T, D>>, rest: seq<Node<T, D>>, b: Subtrees<T, D>)
    requires x in b
    requires forall i, j, m :: 0 <= i < j < |kids| && m in Below(kids[i], b) ==> m !in Below(kids[j], b)
    requires forall i, j, m :: 0 <= i < j < |[x] + rest| && m in Below(([x] + rest)[i], b) ==> m !in Below(([x] + rest)[j], b)
    requires forall k, m :: k in kids && m in Below(k, b) ==> m in b[x]
    ensures forall i, j, m :: 0 <= i < j < |kids + rest| && m in Below((kids + rest)[i], b) ==> m !in Below((kids + rest)[j], b)
  {
    var stack, stack' := [x] + rest, kids + rest;
    forall i, j, m | 0 <= i < j < |stack'| && m in Below(stack'[i], b)
      ensures m !in Below(stack'[j], b)
    {
      if i < |kids| {
        assert stack'[i] in kids;
        if j >= |kids| {
          assert stack[0] == x && stack[j - |kids| + 1] == stack'[j];
          assert m in Below(stack[0], b);
        }
      } else {
        assert stack[i - |kids| + 1] == stack'[i] && stack[j - |kids| + 1] == stack'[j];
      }
    }
  }

  class IntervalTree<T(==, !new), D> {
    var root: Node?<T, D>
    const order: Order<T>
    ghost var t: Cells<T, D>
    ghost var b: Subtrees<T, D>
    ghost var history: seq<Entry<T, D>>

    /** A tree in memory, but for the data, and the maximum cached at one node, if any. */
    ghost predicate ValidBut(x: Node?<T, D>)
      reads this, t.Keys
    {
      Matches(t) && TreeBut(x, root, t, b, order)
    }

    ghost predicate Valid()
      reads this, t.Keys
    {
      ValidBut(null) && Faithful(t, history, order)
    }

    constructor (order: Order<T>)
      requires order.Valid()
      ensures Valid() && history == [] && t == map[] && root == null && this.order == order
    {
      this.order := order;
      root := null;
      t, b, history := map[], map[], [];
    }

    /** `itree_location`: the node of the interval, or the node to hang it under. */
    method Location(l: T, u: T) returns (node: Node?<T, D>)
      requires ValidBut(null)
      ensures node == null <==> root == null
      ensures node != null ==> node in t && Fits(l, node, t, b, order)
      ensures node != null && !order.Same(node.lower, node.upper, l, u) ==>
                && (if order.lower(l, node.lower) < 0 then node.left == null else node.right == null)
                && forall m :: m in t ==> !order.Same(m.lower, m.upper, l, u)
    {
      hide Fits, Orders, Splits, Sorted, Closed, Joined, MaximaRightBut;
      node := root;
      if node == null {
        return;
      }
      RootFits(l, root, t, b, order);
      while true
        invariant node != null && node in t && node in b && Fits(l, node, t, b, order)
        invariant forall m :: m in t && order.Same(m.lower, m.upper, l, u) ==> m in b[node]
        decreases b[node]
      {
        var lowerComparison, upperComparison := order.lower(l, node.lower), order.upper(u, node.upper);
        OrderFacts(order.lower, l, node.lower, l);
        OrderFacts(order.upper, u, node.upper, u);
        SameSide(l, u, node, node.left, node.right, b, order);
        Children(node, root, t, b);
        if lowerComparison == 0 && upperComparison == 0 {
          return;
        } else if lowerComparison < 0 {
          if node.left == null {
            return;
          }
          FitsStep(l, node, node.left, root, t, b, order);
          node := node.left;
        } else {
          if node.right == null {
            return;
          }
          FitsStep(l, node, node.right, root, t, b, order);
          node := node.right;
        }
      }
    }

    /** Links a new leaf under the node found for it and adjusts that node's balance factor. */
    method Link(n: Node<T, D>, c: Node<T, D>)
      requires ValidBut(null) && n in t && c !in t && Fits(c.lower, n, t, b, order)
      requires c.parent == n && c.left == null && c.right == null && c.balance == 0 && c.maxUpper == c.upper
      requires if order.lower(c.lower, n.lower) < 0 then n.left == null else n.right == null
      modifies this`t, this`b, n`left, n`right, n`balance
      ensures ValidBut(n) && t == Hung(old(t), n, c, order.lower(c.lower, n.lower) < 0, c.data)
    {
      hide Fits, Shaped, AllSorted, MaximaRightBut, Grown;
      ghost var left := order.lower(c.lower, n.lower) < 0;
      HungShaped(root, t, b, n, c, left, c.data);
      HungSorted(root, t, b, order, n, c, c.data);
      HungMaxima(root, t, b, order, n, c, left, c.data);
      if order.lower(c.lower, n.lower) < 0 {
        n.left := c;
        n.balance := n.balance + 1;
      } else {
        n.right := c;
        n.balance := n.balance - 1;
      }
      t, b := Hung(t, n, c, left, c.data), Grown(b, n, c);
    }

    method PickMaxUpper(x: Node<T, D>) returns (newMax: T)
      requires ValidBut(x) && x in t
      ensures newMax == Greatest(x, t, order)
    {
      hide Shaped, AllSorted, MaximaRightBut;
      ChildrenInTree(x);
      newMax := x.upper;
      if x.left != null && order.upper(x.left.maxUpper, newMax) > 0 {
        newMax := x.left.maxUpper;
      }
      if x.right != null && order.upper(x.right.maxUpper, newMax) > 0 {
        newMax := x.right.maxUpper;
      }
    }

    /** `update_max_upper`: recomputes one node's maximum from its own upper bound and its
        children's maxima, and says whether the pointer changed. */
    method UpdateMaxUpper(x: Node<T, D>) returns (changed: bool)
      requires ValidBut(x) && x in t
      modifies this`t, x`maxUpper
      ensures x in old(t) && t == if changed then Raised(x, old(t), order) else old(t)
      ensures ValidBut(if changed then x.parent else null)
    {
      hide TreeBut, Greatest;
      RaiseStep(x, root, t, b, order);
      var newMax := PickMaxUpper(x);
      changed := x.maxUpper != newMax;
      if changed {
        x.maxUpper := newMax;
        t := Raised(x, t, order);
      }
    }

    lemma ChildrenInTree(x: Node<T, D>)
      requires ValidBut(x) && x in t
      ensures x.left != null ==> x.left in t
      ensures x.right != null ==> x.right in t
      ensures x.parent != null ==> x.parent in t && x in b && x.parent in b && b[x] < b[x.parent]
    {
      assert Joined(x, t);
      if x.parent != null {
        Children(x.parent, root, t, b);
      }
    }

    /** `itree_retrace_insert`: no rotation is due, and the maxima are recomputed upward until
        one does not change. */
    method RetraceInsert(n: Node<T, D>)
      requires ValidBut(n) && n in t
      modifies this`t, t.Keys
      ensures ValidBut(null) && SameButMaxima(old(t), t)
    {
      hide TreeBut, Greatest, SameButMaxima;
      BalanceInRange(n);
      if n.balance < -1 || n.balance > 1 {
        assert false;
      }
      var x: Node?<T, D> := n;
      ghost var all := t.Keys;
      NothingRaised(t);
      while x != null
        invariant ValidBut(x) && (x != null ==> x in t)
        invariant t.Keys == all && SameButMaxima(old(t), t)
        decreases x != null, all - Below(x, b)
      {
        var y: Node<T, D> := x;
        ChildrenInTree(y);
        SubtreeInTree(y);
        RaisedAgain(old(t), t, y, order);
        var changed := UpdateMaxUpper(y);
        if !changed {
          break;
        }
        x := y.parent;
      }
    }

    lemma SubtreeInTree(x: Node<T, D>)
      requires ValidBut(x) && x in t
      ensures x in b && b[x] <= t.Keys
      ensures x.parent != null ==> x.parent in b && b[x.parent] <= t.Keys
    {
      Children(x, root, t, b);
      if x.parent != null {
        Children(x.parent, root, t, b);
      }
    }

    lemma BalanceInRange(n: Node<T, D>)
      requires ValidBut(n) && n in t
      ensures -1 <= n.balance <= 1
    {
      assert Balanced(t[n]);
    }

    method InsertFirst(l: T, u: T, d: D)
      requires Valid() && root == null
      modifies this
      ensures Valid() && history == old(history) + [Entry(l, u, d)]
      ensures fresh(t.Keys) && root != null && root.lower == l && root.upper == u
    {
      hide TreeBut, Faithful, Orders;
      OrderIsValid();
      NoNodes();
      ghost var t0 := t;
      var c := new Node(l, u, d, null);
      root := c;
      t, b := map[c := Cell(null, null, null, u, d, 0)], map[c := {c}];
      SingleTree(c, d, order);
      FaithfulWith(t0, t, history, order, c);
      history := history + [Entry(l, u, d)];
    }

    method ReplaceData(node: Node<T, D>, l: T, u: T, d: D)
      requires Valid() && node in t && order.Same(node.lower, node.upper, l, u)
      modifies this`t, this`history, node`data
      ensures Valid() && history == old(history) + [Entry(l, u, d)] && t.Keys == old(t.Keys)
    {
      hide TreeBut, Faithful, Orders;
      OrderIsValid();
      FaithfulReplacing(t, history, order, node, l, u, d);
      DataChanged(node, d, root, t, b, order);
      node.data := d;
      t := t[node := t[node].(data := d)];
      history := history + [Entry(l, u, d)];
    }

    method InsertBelow(node: Node<T, D>, c: Node<T, D>)
      requires Valid() && node in t && c !in t && Fits(c.lower, node, t, b, order)
      requires c.parent == node && c.left == null && c.right == null && c.balance == 0 && c.maxUpper == c.upper
      requires if order.lower(c.lower, node.lower) < 0 then node.left == null else node.right == null
      requires forall m :: m in t ==> !order.Same(m.lower, m.upper, c.lower, c.upper)
      modifies this`t, this`b, this`history, t.Keys, c
      ensures Valid() && history == old(history) + [Entry(c.lower, c.upper, old(c.data))] && t.Keys == old(t.Keys) + {c}
    {
      hide TreeBut, Faithful, Orders, Fits, Hung, SameButMaxima, Matches;
      OrderIsValid();
      ghost var t0 := t;
      Link(node, c);
      HungThenRaised(t0, t, t, node, c, order.lower(c.lower, node.lower) < 0, c.data);
      ghost var t1 := t;
      RetraceInsert(node);
      HungThenRaised(t0, t1, t, node, c, order.lower(c.lower, node.lower) < 0, old(c.data));
      FaithfulWith(t0, t, history, order, c);
      history := history + [Entry(c.lower, c.upper, t[c].data)];
    }

    /** `gzochid_itree_insert`. */
    method Insert(l: T, u: T, d: D)
      requires Valid()
      modifies this, t.Keys
      ensures Valid() && history == old(history) + [Entry(l, u, d)]
      ensures fresh(t.Keys - old(t.Keys))
      ensures root != null && if old(root) != null then root == old(root) else root.lower == l && root.upper == u
    {
      hide TreeBut, Faithful, Orders, Fits;
      var node := Location(l, u);
      if node == null {
        InsertFirst(l, u, d);
      } else if order.lower(node.lower, l) == 0 && order.upper(node.upper, u) == 0 {
        ReplaceData(node, l, u, d);
      } else {
        var c := new Node(l, u, d, node);
        InsertBelow(node, c);
      }
    }

    lemma NoNodes()
      requires ValidBut(null) && root == null
      ensures t == map[]
    {
    }

    lemma OrderIsValid()
      requires Valid()
      ensures order.Valid()
    {
    }

    /**
     The traversal both searches share: an explicit stack, a test at each node, and a decision
     from the cached maximum whether to go further down. It reports nodes in turn until the
     callback (`halts`) asks it to stop.
     */
    method Traverse(hit: (T, T) -> bool, prune: T -> bool, halts: (T, T, D) -> bool)
      returns (found: seq<Node<T, D>>, halted: bool)
      requires ValidBut(null)
      ensures forall i, j :: 0 <= i < j < |found| ==> found[i] != found[j]
      ensures forall n :: n in found ==> n in t && hit(n.lower, n.upper) && Reached(n, t, b, prune)
      ensures !halted ==> forall n :: n in t && hit(n.lower, n.upper) && Reached(n, t, b, prune) ==> n in found
      ensures halted <==> exists n :: n in found && halts(n.lower, n.upper, n.data)
      ensures forall i :: 0 <= i < |found| - 1 ==> !halts(found[i].lower, found[i].upper, found[i].data)
    {
      hide Frontier, Reached, Splits, Joined, Closed, AllSorted, MaximaRightBut, Kids;
      found, halted := [], false;
      if root == null {
        return;
      }
      var stack: seq<Node<T, D>> := [root];
      ghost var visited: set<Node<T, D>> := {};
      FrontierStart(root, t, b, prune);
      while stack != []
        invariant Frontier(stack, visited, t, b, prune)
        invariant visited <= t.Keys
        invariant forall i, j :: 0 <= i < j < |found| ==> found[i] != found[j]
        invariant forall n :: n in found ==> n in visited && hit(n.lower, n.upper) && !halts(n.lower, n.upper, n.data)
        invariant forall n :: n in visited && hit(n.lower, n.upper) ==> n in found
        decreases t.Keys - visited
      {
        var node, rest := stack[0], stack[1..];
        assert stack == [node] + rest;
        TopOfStack(node, rest, visited, prune);
        if hit(node.lower, node.upper) {
          found := found + [node];
          if halts(node.lower, node.upper, node.data) {
            VisitedAreReached(stack, visited, prune);
            halted := true;
            assert node in found;
            return;
          }
        }
        if prune(node.maxUpper) {
          FrontierPruned(node, rest, visited, t, b, prune);
          stack := rest;
        } else {
          KidsOfAreKids(node, root, t, b, prune);
          FrontierExpanded(node, KidsOf(node.left, node.right), rest, visited, t, b, prune);
          stack := KidsOf(node.left, node.right) + rest;
        }
        visited := visited + {node};
      }
      VisitedAreReached(stack, visited, prune);
    }

    lemma TopOfStack(x: Node<T, D>, rest: seq<Node<T, D>>, visited: set<Node<T, D>>, prune: T -> bool)
      requires ValidBut(null) && Frontier([x] + rest, visited, t, b, prune)
      ensures x in t && x in b && x in b[x] && x !in visited && Reached(x, t, b, prune)
    {
      hide Reached, Shaped, AllSorted, MaximaRightBut;
      assert x in [x] + rest;
      SplitsHere(x, root, t, b);
      assert x in Below(x, b);
    }

    lemma VisitedAreReached(stack: seq<Node<T, D>>, visited: set<Node<T, D>>, prune: T -> bool)
      requires Frontier(stack, visited, t, b, prune)
      ensures forall m :: m in visited ==> m in t && Reached(m, t, b, prune)
      ensures stack == [] ==> forall m :: m in t && Reached(m, t, b, prune) ==> m in visited
    {
    }

    /** The stored interval holds the point. */
    predicate Holds(p: T, n: Node<T, D>) {
      order.lower(p, n.lower) >= 0 && order.upper(p, n.upper) <= 0
    }

    /** The overlap test of the interval search. */
    predicate Meets(from: T, to: T, n: Node<T, D>) {
      || (order.lower(from, n.lower) >= 0 && order.upper(from, n.upper) <= 0)
      || (order.lower(to, n.lower) >= 0 && order.upper(to, n.upper) <= 0)
      || (order.lower(from, n.lower) <= 0 && order.upper(to, n.upper) >= 0)
    }

    /** Both ends of the sought interval compare above the bound: the search goes no further. */
    predicate Beyond(from: T, to: T, max: T) {
      order.upper(from, max) > 0 && order.upper(to, max) > 0
    }

    /** Pruning on a cached maximum passes over nothing whose own upper bound would not be
        pruned: the maximum bounds every upper bound below. */
    lemma NotPrunedIsReached(n: Node<T, D>, prune: T -> bool)
      requires ValidBut(null) && n in t && !prune(n.upper)
      requires forall u, max :: order.upper(u, max) <= 0 && prune(max) ==> prune(u)
      ensures Reached(n, t, b, prune)
    {
      hide Shaped, AllSorted, MaximaRightBut;
      forall a | a in t && a in b && n in b[a] && n != a
        ensures !prune(t[a].maxUpper)
      {
        MaximumIsExact(a, root, t, b, order);
      }
    }

    /** `gzochid_itree_search`: unless stopped, it reports exactly the intervals that hold the
        point, each once. */
    method Search(point: T, halts: (T, T, D) -> bool) returns (found: seq<Node<T, D>>, halted: bool)
      requires ValidBut(null)
      ensures forall i, j :: 0 <= i < j < |found| ==> found[i] != found[j]
      ensures forall n :: n in found ==> n in t && Holds(point, n)
      ensures !halted ==> forall n :: n in t && Holds(point, n) ==> n in found
      ensures halted <==> exists n :: n in found && halts(n.lower, n.upper, n.data)
    {
      hide TreeBut, Reached;
      var prune := max => order.upper(point, max) > 0;
      found, halted := Traverse((l, u) => order.lower(point, l) >= 0 && order.upper(point, u) <= 0, prune, halts);
      forall n | n in t && Holds(point, n)
        ensures Reached(n, t, b, prune)
      {
        PointPruneIsMonotone(point);
        NotPrunedIsReached(n, prune);
      }
    }

    lemma PointPruneIsMonotone(point: T)
      requires ValidBut(null)
      ensures forall u, max :: order.upper(u, max) <= 0 && order.upper(point, max) > 0 ==> order.upper(point, u) > 0
    {
      forall u, max | order.upper(u, max) <= 0 && order.upper(point, max) > 0
        ensures order.upper(point, u) > 0
      {
        OrderFacts(order.upper, u, max, point);
        OrderFacts(order.upper, point, max, u);
        OrderFacts(order.upper, point, u, max);
      }
    }

    /** `gzochid_itree_search_interval`: it reports, each once, exactly the intervals that pass
        the test and lie under no node it goes no further from; in particular every one that
        passes the test and does not itself end before both ends of the sought interval. */
    method SearchInterval(from: T, to: T, halts: (T, T, D) -> bool) returns (found: seq<Node<T, D>>, halted: bool)
      requires ValidBut(null)
      ensures forall i, j :: 0 <= i < j < |found| ==> found[i] != found[j]
      ensures forall n :: n in found ==> n in t && Meets(from, to, n) && Reached(n, t, b, max => Beyond(from, to, max))
      ensures !halted ==> forall n :: n in t && Meets(from, to, n) && Reached(n, t, b, max => Beyond(from, to, max)) ==> n in found
      ensures !halted ==> forall n :: n in t && Meets(from, to, n) && !Beyond(from, to, n.upper) ==> n in found
      ensures halted <==> exists n :: n in found && halts(n.lower, n.upper, n.data)
    {
      hide TreeBut, Reached;
      var prune := max => Beyond(from, to, max);
      var hit := (l, u) =>
        || (order.lower(from, l) >= 0 && order.upper(from, u) <= 0)
        || (order.lower(to, l) >= 0 && order.upper(to, u) <= 0)
        || (order.lower(from, l) <= 0 && order.upper(to, u) >= 0);
      found, halted := Traverse(hit, prune, halts);
      forall n | n in t && !Beyond(from, to, n.upper)
        ensures Reached(n, t, b, prune)
      {
        PointPruneIsMonotone(from);
        PointPruneIsMonotone(to);
        NotPrunedIsReached(n, prune);
      }
    }
  }
}
