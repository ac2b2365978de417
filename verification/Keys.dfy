/**
 Byte-string keys, their `g_bytes_compare` order, and the two orders on nullable
 interval bounds used by the lock table: a null lower bound sorts before every key,
 a null upper bound sorts after every key.
 */
module Keys {
  newtype byte = x: int | 0 <= x < 256

  type Bytes = seq<byte>

  type Key = Bytes

  /** An object id. */
  type Oid = nat

  /** A nullable key: the bound of a range, or "no key". */
  datatype Bound = Null | At(key: Key)

  /** A closed range of keys, either end of which may be open-ended. */
  datatype Interval = Interval(lower: Bound, upper: Bound)

  /** `g_bytes_compare`: bytewise, a proper prefix sorting first. */
  function Compare(a: Key, b: Key): (c: int)
    ensures -1 <= c <= 1
  {
    if a == [] then (if b == [] then 0 else -1)
    else if b == [] then 1
    else if a[0] < b[0] then -1
    else if b[0] < a[0] then 1
    else Compare(a[1..], b[1..])
  }

  predicate Less(a: Key, b: Key) {
    Compare(a, b) < 0
  }

  function CompareNullFirst(x: Bound, y: Bound): int {
    match x
    case Null => if y.Null? then 0 else -1
    case At(a) => if y.Null? then 1 else Compare(a, y.key)
  }

  function CompareNullLast(x: Bound, y: Bound): int {
    match x
    case Null => if y.Null? then 0 else 1
    case At(a) => if y.Null? then -1 else Compare(a, y.key)
  }

  /** The key lies inside the closed range. */
  predicate Inside(k: Key, r: Interval) {
    && (r.lower.Null? || Compare(r.lower.key, k) <= 0)
    && (r.upper.Null? || Compare(k, r.upper.key) <= 0)
  }

  /** The range holds its own lower end: it is not upside down. */
  predicate WellFormed(r: Interval) {
    r.lower.Null? || r.upper.Null? || Compare(r.lower.key, r.upper.key) <= 0
  }

  /** Two closed ranges meet: neither ends before the other begins. */
  predicate Overlap(r: Interval, s: Interval) {
    && (r.lower.Null? || s.upper.Null? || Compare(r.lower.key, s.upper.key) <= 0)
    && (s.lower.Null? || r.upper.Null? || Compare(s.lower.key, r.upper.key) <= 0)
  }

  /** The interval tree's overlap test: one end of the sought range lies in the stored one,
      or the sought range spans it. */
  predicate OverlapTest(sought: Interval, stored: Interval) {
    || (CompareNullFirst(sought.lower, stored.lower) >= 0 && CompareNullLast(sought.lower, stored.upper) <= 0)
    || (CompareNullFirst(sought.upper, stored.lower) >= 0 && CompareNullLast(sought.upper, stored.upper) <= 0)
    || (CompareNullFirst(sought.lower, stored.lower) <= 0 && CompareNullLast(sought.upper, stored.upper) >= 0)
  }

  /** The test is right for every combination of null bounds. */
  lemma OverlapTestIsOverlap(r: Interval, s: Interval)
    requires WellFormed(r) && WellFormed(s)
    ensures OverlapTest(r, s) <==> Overlap(r, s)
  {
    KeyOrder();
  }

  lemma OverlapIsSymmetric(r: Interval, s: Interval)
    ensures Overlap(r, s) == Overlap(s, r)
  {
  }

  lemma {:induction false} CompareFlip(a: Key, b: Key)
    ensures Compare(a, b) == -Compare(b, a)
    ensures Compare(a, b) == 0 <==> a == b
  {
    if a != [] && b != [] && a[0] == b[0] {
      CompareFlip(a[1..], b[1..]);
      assert a == [a[0]] + a[1..] && b == [b[0]] + b[1..];
    }
  }

  lemma {:induction false} CompareTrans(a: Key, b: Key, c: Key)
    requires Compare(a, b) <= 0 && Compare(b, c) <= 0
    ensures Compare(a, c) <= 0
    ensures Compare(a, b) < 0 || Compare(b, c) < 0 ==> Compare(a, c) < 0
  {
    if a != [] && b != [] && c != [] && a[0] == b[0] && b[0] == c[0] {
      CompareTrans(a[1..], b[1..], c[1..]);
    }
  }

  /** The keys agree up to here, and then the first ends or has the lesser byte. */
  predicate Precedes(a: Key, b: Key, i: nat) {
    && i <= |a| && i < |b| && a[..i] == b[..i]
    && (i == |a| || a[i] < b[i])
  }

  /** The order, without the recursion: a key comes before another exactly if it is a proper
      prefix of it, or has the lesser byte where they first differ. */
  lemma {:induction false} LessIff(a: Key, b: Key)
    ensures Less(a, b) <==> exists i: nat :: Precedes(a, b, i)
  {
    if a == [] || b == [] {
      if b != [] {
        assert Precedes(a, b, 0);
      }
    } else if a[0] != b[0] {
      if a[0] < b[0] {
        assert Precedes(a, b, 0);
      }
      assert forall i: nat :: Precedes(a, b, i) && i > 0 ==> a[..i][0] == b[..i][0];
    } else {
      LessIff(a[1..], b[1..]);
      if i: nat :| Precedes(a[1..], b[1..], i) {
        assert a[..i + 1] == [a[0]] + a[1..][..i] && b[..i + 1] == [b[0]] + b[1..][..i];
        assert Precedes(a, b, i + 1);
      }
      if i: nat :| Precedes(a, b, i) {
        assert i > 0;
        assert a[1..][..i - 1] == a[..i][1..] && b[1..][..i - 1] == b[..i][1..];
        assert Precedes(a[1..], b[1..], i - 1);
      }
    }
  }

  /** A key comes before whatever extends it, and the first byte that differs decides. */
  lemma ByteOrder(p: Key, x: byte, a: Key, y: byte, b: Key)
    ensures Less(p, p + [x] + a)
    ensures x < y ==> Less(p + [x] + a, p + [y] + b)
  {
    LessIff(p, p + [x] + a);
    assert Precedes(p, p + [x] + a, |p|);
    if x < y {
      LessIff(p + [x] + a, p + [y] + b);
      assert (p + [x] + a)[..|p|] == p == (p + [y] + b)[..|p|];
      assert Precedes(p + [x] + a, p + [y] + b, |p|);
    }
  }

  /** The order facts in quantified form, for proofs that range over many keys. */
  lemma KeyOrder()
    ensures forall a, b :: Compare(a, b) == -Compare(b, a)
    ensures forall a, b :: Compare(a, b) == 0 <==> a == b
    ensures forall a, b, c {:trigger Compare(a, b), Compare(b, c)} ::
              Compare(a, b) <= 0 && Compare(b, c) <= 0 ==>
              Compare(a, c) <= 0 && (Compare(a, b) < 0 || Compare(b, c) < 0 ==> Compare(a, c) < 0)
  {
    forall a, b
      ensures Compare(a, b) == -Compare(b, a)
      ensures Compare(a, b) == 0 <==> a == b
    {
      CompareFlip(a, b);
    }
    forall a, b, c | Compare(a, b) <= 0 && Compare(b, c) <= 0
      ensures Compare(a, c) <= 0 && (Compare(a, b) < 0 || Compare(b, c) < 0 ==> Compare(a, c) < 0)
    {
      CompareTrans(a, b, c);
    }
  }

  /** A non-empty finite set of keys has a least element. */
  lemma {:induction false} LeastExists(s: set<Key>) returns (m: Key)
    requires s != {}
    ensures m in s && forall k :: k in s ==> Compare(m, k) <= 0
  {
    var x :| x in s;
    CompareFlip(x, x);
    if s == {x} {
      m := x;
    } else {
      var y := LeastExists(s - {x});
      CompareFlip(x, y);
      m := if Compare(x, y) <= 0 then x else y;
      forall k | k in s
        ensures Compare(m, k) <= 0
      {
        if k != x && m == x {
          CompareTrans(x, y, k);
        }
      }
    }
  }
}
