/**
 The least-recently-used cache of the server: a table by key and an index sorted by access
 counter. What it holds is stated twice, as a list edited by each access and as the keys
 with few enough others accessed since, and the cache is proved to hold exactly that.
 */
module LruCaches {
  import opened Lists

  // What a cache should hold

  /** The keys of an access trace, least recently accessed first. */
  function Recency<K(==)>(trace: seq<K>): seq<K> {
    if trace == [] then [] else
      var k := trace[|trace| - 1];
      Remove(Recency(trace[..|trace| - 1]), k) + [k]
  }

  function LastOf<K>(s: seq<K>, n: nat): seq<K> {
    if |s| <= n then s else s[|s| - n..]
  }

  /** One access to a cache of at most `n` keys. */
  function Touched<K(==)>(keys: seq<K>, k: K, n: nat): seq<K> {
    if k in keys then Remove(keys, k) + [k]
    else if |keys| + 1 > n then (keys + [k])[1..]
    else keys + [k]
  }

  /** What the accesses leave in a cache of at most `n` keys, one by one. */
  function Cached<K(==)>(trace: seq<K>, n: nat): seq<K> {
    if trace == [] then [] else Touched(Cached(trace[..|trace| - 1], n), trace[|trace| - 1], n)
  }

  ghost function Elements<K>(s: seq<K>): set<K> {
    set k | k in s
  }

  /** The key was accessed, and fewer than `n` different keys have been accessed since. */
  ghost predicate AmongLast<K(!new)>(trace: seq<K>, k: K, n: nat) {
    exists i :: LastAccess(trace, k, i) && |Elements(trace[i + 1..])| < n
  }

  ghost predicate LastAccess<K>(trace: seq<K>, k: K, i: int) {
    0 <= i < |trace| && trace[i] == k && forall j :: i < j < |trace| ==> trace[j] != k
  }

  lemma {:induction false} RecencyEnumerates<K>(trace: seq<K>)
    ensures Enumerates(Recency(trace), Elements(trace))
  {
    if trace != [] {
      var before, k := trace[..|trace| - 1], trace[|trace| - 1];
      RecencyEnumerates(before);
      assert trace == before + [k];
      var r := Recency(before);
      if k in r {
        RemoveEnumerates(r, Elements(before), k);
        InsertEnumerates(Remove(r, k), Elements(before) - {k}, k, |Remove(r, k)|);
        assert Remove(r, k)[..|Remove(r, k)|] + [k] + Remove(r, k)[|Remove(r, k)|..] == Recency(trace);
        assert Elements(before) - {k} + {k} == Elements(trace);
      } else {
        RemoveAbsent(r, k);
        InsertEnumerates(r, Elements(before), k, |r|);
        assert r[..|r|] + [k] + r[|r|..] == Recency(trace);
        assert Elements(before) + {k} == Elements(trace);
      }
    }
  }

  lemma {:induction false} RemoveAbsent<K>(s: seq<K>, k: K)
    requires k !in s
    ensures Remove(s, k) == s
  {
    if s != [] {
      RemoveAbsent(s[1..], k);
    }
  }

  lemma RemoveMiddle<K>(a: seq<K>, k: K, b: seq<K>)
    requires k !in a
    ensures Remove(a + [k] + b, k) == a + b
  {
    hide Remove;
    var s := a + [k] + b;
    assert s[|a|] == k;
    var i := RemoveSplits(s, k);
    assert forall x :: 0 <= x < |a| ==> s[x] == a[x];
    assert forall x :: 0 <= x < i ==> s[x] == s[..i][x];
    assert s[..i] == a && s[i + 1..] == b;
  }

  lemma Split<K>(s: seq<K>, k: K) returns (a: seq<K>, b: seq<K>)
    requires k in s
    ensures s == a + [k] + b && k !in a && Remove(s, k) == a + b
  {
    var i := RemoveSplits(s, k);
    a, b := s[..i], s[i + 1..];
  }

  lemma LastOfSplit<K>(a: seq<K>, b: seq<K>, n: nat)
    ensures LastOf(a + b, n) == if |b| >= n then LastOf(b, n) else LastOf(a, n - |b|) + b
  {
  }

  lemma TouchedNear<K>(a: seq<K>, k: K, b: seq<K>, n: nat)
    requires k !in a && |b| < n
    ensures Touched(LastOf(a + [k] + b, n), k, n) == LastOf(a + b + [k], n)
  {
    LastOfSplit(a, [k] + b, n);
    LastOfSplit(a, b + [k], n);
    var c := LastOf(a, n - |b| - 1);
    assert k !in c;
    hide LastOf;
    assert a + ([k] + b) == a + [k] + b && a + (b + [k]) == a + b + [k];
    assert c + ([k] + b) == c + [k] + b && c + (b + [k]) == c + b + [k];
    RemoveMiddle(c, k, b);
    assert (c + [k] + b)[|c|] == k;
  }

  lemma TouchedFar<K>(a: seq<K>, b: seq<K>, k: K, n: nat)
    requires k !in b && |b| >= n
    ensures Touched(LastOf(a + b, n), k, n) == LastOf(a + b + [k], n)
  {
    LastOfSplit(a, b, n);
    LastOfSplit(a, b + [k], n);
    assert a + (b + [k]) == a + b + [k];
  }

  ghost predicate Distinct<K>(s: seq<K>) {
    forall i, j :: 0 <= i < j < |s| ==> s[i] != s[j]
  }

  lemma DistinctParts<K>(a: seq<K>, k: K, b: seq<K>)
    requires Distinct(a + [k] + b)
    ensures k !in b && Distinct(b)
  {
    var s := a + [k] + b;
    assert s[|a|] == k;
    assert forall x :: 0 <= x < |b| ==> b[x] == s[|a| + 1 + x];
  }

  /** One access keeps a cache of `n` keys at the end of the recency list. */
  lemma TouchedStaysLast<K>(r: seq<K>, k: K, n: nat)
    requires Distinct(r)
    ensures Touched(LastOf(r, n), k, n) == LastOf(Remove(r, k) + [k], n)
  {
    if k !in r {
      RemoveAbsent(r, k);
      hide Remove;
      if |r| < n {
        assert LastOf(r, n) == r;
      } else {
        TouchedFar([], r, k, n);
        assert [] + r == r;
      }
    } else {
      var a, b := Split(r, k);
      hide Remove, LastOf, Touched;
      DistinctParts(a, k, b);
      hide Distinct;
      if |b| < n {
        TouchedNear(a, k, b, n);
      } else {
        LastOfSplit(a + [k], b, n);
        LastOfSplit(a, b, n);
        TouchedFar(a, b, k, n);
      }
    }
  }

  /** The cache edited access by access holds the last `n` keys of the recency list. */
  lemma {:induction false} CachedIsLastOfRecency<K>(trace: seq<K>, n: nat)
    ensures Cached(trace, n) == LastOf(Recency(trace), n)
  {
    if trace != [] {
      var before := trace[..|trace| - 1];
      CachedIsLastOfRecency(before, n);
      RecencyEnumerates(before);
      TouchedStaysLast(Recency(before), trace[|trace| - 1], n);
    }
  }

  /** Another access leaves behind a key what was there, and the key accessed. */
  lemma BehindAfter<K>(a: seq<K>, k: K, b: seq<K>, last: K) returns (a': seq<K>, b': seq<K>)
    requires last != k
    ensures Remove(a + [k] + b, last) + [last] == a' + [k] + b'
    ensures forall x :: x in b' <==> x in b || x == last
  {
    hide Remove;
    var r := a + [k] + b;
    if last in a {
      var a1, a2 := Split(a, last);
      RemoveMiddle(a1, last, a2 + [k] + b);
      assert r == a1 + [last] + (a2 + [k] + b);
      a', b' := a1 + a2, b + [last];
      assert a1 + (a2 + [k] + b) + [last] == a' + [k] + b';
    } else if last in b {
      var b1, b2 := Split(b, last);
      RemoveMiddle(a + [k] + b1, last, b2);
      assert r == a + [k] + b1 + [last] + b2;
      a', b' := a, b1 + b2 + [last];
      assert a + [k] + b1 + b2 + [last] == a' + [k] + b';
    } else {
      RemoveAbsent(r, last);
      a', b' := a, b + [last];
      assert r + [last] == a' + [k] + b';
    }
  }

  /** Behind a key in the recency list stand exactly the keys accessed since. */
  lemma {:induction false} BehindInRecency<K(!new)>(trace: seq<K>, k: K) returns (a: seq<K>, b: seq<K>, i: nat)
    requires k in trace
    ensures Recency(trace) == a + [k] + b
    ensures LastAccess(trace, k, i) && Elements(trace[i + 1..]) == Elements(b)
  {
    var n := |trace| - 1;
    var before, last := trace[..n], trace[n];
    if last == k {
      a, b, i := Remove(Recency(before), k), [], n;
    } else {
      a, b, i := BehindInRecency(before, k);
      assert trace[i + 1..] == before[i + 1..] + [last];
      var since := before[i + 1..];
      assert forall x :: x in since <==> x in Elements(since);
      assert forall x :: x in b <==> x in Elements(b);
      a, b := BehindAfter(a, k, b, last);
    }
  }

  lemma {:induction false} DistinctSize<K>(s: seq<K>)
    requires Distinct(s)
    ensures |Elements(s)| == |s|
  {
    if s != [] {
      DistinctSize(s[1..]);
      assert s == [s[0]] + s[1..];
      assert Elements(s) == {s[0]} + Elements(s[1..]);
    }
  }

  lemma AmongLastIff<K(!new)>(trace: seq<K>, n: nat, k: K, i: nat)
    requires LastAccess(trace, k, i)
    ensures AmongLast(trace, k, n) <==> |Elements(trace[i + 1..])| < n
  {
  }

  /** A cache of at most `n` keys holds a key if and only if it was accessed and fewer than
      `n` other keys have been since. */
  lemma CachedIffAmongLast<K(!new)>(trace: seq<K>, n: nat, k: K)
    ensures k in Cached(trace, n) <==> AmongLast(trace, k, n)
  {
    CachedIsLastOfRecency(trace, n);
    RecencyEnumerates(trace);
    var r := Recency(trace);
    assert k in r <==> k in Elements(trace);
    if k in trace {
      var a, b, i := BehindInRecency(trace, k);
      AmongLastIff(trace, n, k, i);
      hide AmongLast, LastAccess, Recency, Cached;
      DistinctParts(a, k, b);
      DistinctSize(b);
      hide Elements, Enumerates, Distinct;
      LastOfSplit(a, [k] + b, n);
      assert r == a + ([k] + b);
      if |b| >= n {
        LastOfSplit([k], b, n);
      } else {
        assert ([k] + b)[0] == k;
      }
    }
  }

  /** A larger cache contains a smaller one that saw the same accesses. */
  lemma LargerContainsSmaller<K>(trace: seq<K>, m: nat, n: nat)
    requires m <= n
    ensures Cached(trace, m) == LastOf(Cached(trace, n), m)
    ensures forall k :: k in Cached(trace, m) ==> k in Cached(trace, n)
    ensures |Cached(trace, n)| <= n
  {
    CachedIsLastOfRecency(trace, m);
    CachedIsLastOfRecency(trace, n);
  }

  // The cache

  class CacheValue<K, V> {
    const key: K
    const value: V
    var accessCounter: nat

    constructor (key: K, value: V, accessCounter: nat)
      ensures this.key == key && this.value == value && this.accessCounter == accessCounter
    {
      this.key, this.value, this.accessCounter := key, value, accessCounter;
    }
  }

  ghost function KeysOf<K, V>(index: seq<CacheValue<K, V>>): (r: seq<K>)
    ensures |r| == |index|
  {
    seq(|index|, i requires 0 <= i < |index| => index[i].key)
  }

  ghost function ValuesOf<K, V>(index: seq<CacheValue<K, V>>): (r: seq<V>)
    ensures |r| == |index|
  {
    seq(|index|, i requires 0 <= i < |index| => index[i].value)
  }

  ghost predicate Sorted<K, V>(index: seq<CacheValue<K, V>>, next: nat)
    reads set v | v in index
  {
    && (forall i, j :: 0 <= i < j < |index| ==> index[i].accessCounter < index[j].accessCounter)
    && (forall i :: 0 <= i < |index| ==> index[i].accessCounter < next)
  }

  /** The table has exactly the entries of the index, each under its own key. */
  ghost predicate Tabled<K, V>(cache: map<K, CacheValue<K, V>>, index: seq<CacheValue<K, V>>) {
    && (forall k :: k in cache ==> cache[k] in index && cache[k].key == k)
    && (forall i :: 0 <= i < |index| ==> index[i].key in cache && cache[index[i].key] == index[i])
  }

  lemma TableSize<K, V>(cache: map<K, CacheValue<K, V>>, index: seq<CacheValue<K, V>>, next: nat)
    requires Tabled(cache, index) && Sorted(index, next)
    ensures |cache| == |index| && Distinct(KeysOf(index))
  {
    var keys := KeysOf(index);
    forall i, j | 0 <= i < j < |index|
      ensures keys[i] != keys[j]
    {
      assert index[i] != index[j];
    }
    DistinctSize(keys);
    forall k
      ensures k in cache.Keys <==> k in Elements(keys)
    {
      if k in cache {
        var i :| 0 <= i < |index| && index[i] == cache[k];
        assert keys[i] == k;
      }
    }
    assert cache.Keys == Elements(keys);
  }

  /** The list with one entry moved to its end. */
  ghost function Moved<T>(s: seq<T>, p: nat): seq<T>
    requires p < |s|
  {
    s[..p] + s[p + 1..] + [s[p]]
  }

  lemma MovedKeys<K, V>(index: seq<CacheValue<K, V>>, p: nat)
    requires p < |index| && Distinct(KeysOf(index))
    ensures KeysOf(Moved(index, p)) == Remove(KeysOf(index), index[p].key) + [index[p].key]
  {
    var keys, k := KeysOf(index), index[p].key;
    hide Remove;
    assert keys == keys[..p] + [k] + keys[p + 1..];
    assert forall i :: 0 <= i < p ==> keys[..p][i] == keys[i] && keys[i] != keys[p];
    RemoveMiddle(keys[..p], k, keys[p + 1..]);
    assert KeysOf(Moved(index, p)) == keys[..p] + keys[p + 1..] + [k];
  }

  lemma MovedValues<K, V>(index: seq<CacheValue<K, V>>, p: nat)
    requires p < |index|
    ensures multiset(ValuesOf(Moved(index, p))) == multiset(ValuesOf(index))
    ensures forall v :: v in Moved(index, p) <==> v in index
  {
    var values, v := ValuesOf(index), index[p].value;
    assert values == values[..p] + [v] + values[p + 1..];
    assert ValuesOf(Moved(index, p)) == values[..p] + values[p + 1..] + [v];
    assert index == index[..p] + [index[p]] + index[p + 1..];
  }

  lemma SortedAppend<K, V>(index: seq<CacheValue<K, V>>, value: CacheValue<K, V>, next: nat)
    requires Sorted(index, value.accessCounter) && value.accessCounter < next
    ensures Sorted(index + [value], next)
  {
  }

  lemma SortedWithout<K, V>(index: seq<CacheValue<K, V>>, p: nat, next: nat)
    requires Sorted(index, next) && p < |index|
    ensures Sorted(index[..p] + index[p + 1..], next) && index[p] !in index[..p] + index[p + 1..]
  {
    var rest := index[..p] + index[p + 1..];
    assert forall i :: 0 <= i < |rest| ==> rest[i] == index[if i < p then i else i + 1];
  }

  lemma SortedPosition<K, V>(index: seq<CacheValue<K, V>>, value: CacheValue<K, V>, p: nat, next: nat)
    requires Sorted(index, next) && value in index && p <= |index|
    requires forall i :: 0 <= i < p ==> index[i].accessCounter < value.accessCounter
    requires forall i :: p <= i < |index| ==> value.accessCounter <= index[i].accessCounter
    ensures p < |index| && index[p] == value
  {
    var at :| 0 <= at < |index| && index[at] == value;
  }

  lemma TabledAdd<K, V>(cache: map<K, CacheValue<K, V>>, index: seq<CacheValue<K, V>>, value: CacheValue<K, V>)
    requires Tabled(cache, index) && value.key !in cache
    ensures Tabled(cache[value.key := value], index + [value])
  {
    var c, s := cache[value.key := value], index + [value];
    assert s[|index|] == value;
    forall k | k in c
      ensures c[k] in s
    {
      assert k != value.key ==> c[k] in index;
    }
  }

  lemma AppendedKeys<K, V>(index: seq<CacheValue<K, V>>, value: CacheValue<K, V>)
    ensures KeysOf(index + [value]) == KeysOf(index) + [value.key]
    ensures ValuesOf(index + [value]) == ValuesOf(index) + [value.value]
  {
  }

  lemma DroppedKeys<K, V>(index: seq<CacheValue<K, V>>)
    requires index != []
    ensures KeysOf(index[1..]) == KeysOf(index)[1..]
    ensures ValuesOf(index) == [index[0].value] + ValuesOf(index[1..])
  {
  }

  lemma EntryTabled<K, V>(cache: map<K, CacheValue<K, V>>, index: seq<CacheValue<K, V>>, k: K)
    requires Tabled(cache, index) && k in cache
    ensures cache[k] in index && cache[k].key == k
  {
  }

  lemma MovedParts<T>(s: seq<T>, p: nat)
    requires p < |s|
    ensures Moved(s, p) == s[..p] + s[p + 1..] + [s[p]]
  {
  }

  lemma LastTabled<K, V>(cache: map<K, CacheValue<K, V>>, index: seq<CacheValue<K, V>>)
    requires Tabled(cache, index)
    ensures index != [] ==> index[|index| - 1].key in cache && cache[index[|index| - 1].key] == index[|index| - 1]
  {
  }

  lemma KeysTabled<K, V>(cache: map<K, CacheValue<K, V>>, index: seq<CacheValue<K, V>>, k: K)
    requires Tabled(cache, index)
    ensures k in cache <==> k in KeysOf(index)
  {
    if k in cache {
      var i :| 0 <= i < |index| && index[i] == cache[k];
      assert KeysOf(index)[i] == k;
    }
  }

  lemma MovedStaysTabled<K, V>(cache: map<K, CacheValue<K, V>>, index: seq<CacheValue<K, V>>, p: nat)
    requires Tabled(cache, index) && p < |index| && forall v :: v in Moved(index, p) <==> v in index
    ensures Tabled(cache, Moved(index, p))
  {
    var m := Moved(index, p);
    forall i | 0 <= i < |m|
      ensures m[i].key in cache && cache[m[i].key] == m[i]
    {
      assert m[i] in m;
    }
  }

  class LruCache<K(==, !new), V> {
    var cache: map<K, CacheValue<K, V>>
    var index: seq<CacheValue<K, V>>
    var nextAccessCounter: nat
    const maxSize: nat

    /** The accesses so far, and the values generated and evicted. */
    ghost var trace: seq<K>
    ghost var generated: seq<V>
    ghost var evicted: seq<V>

    ghost predicate Valid()
      reads this, index
    {
      && Sorted(index, nextAccessCounter)
      && Tabled(cache, index)
      && KeysOf(index) == Cached(trace, maxSize)
      && multiset(generated) == multiset(evicted) + multiset(ValuesOf(index))
    }

    constructor (maxSize: nat)
      ensures Valid() && this.maxSize == maxSize && trace == [] && generated == [] && evicted == [] && index == []
    {
      cache, index, nextAccessCounter, this.maxSize := map[], [], 0, maxSize;
      trace, generated, evicted := [], [], [];
    }

    /** Where a value with this counter belongs in the index. */
    method Position(counter: nat) returns (p: nat)
      requires Sorted(index, nextAccessCounter)
      ensures p <= |index| && (forall i :: 0 <= i < p ==> index[i].accessCounter < counter)
      ensures forall i :: p <= i < |index| ==> counter <= index[i].accessCounter
      ensures Sorted(index, counter) ==> p == |index|
    {
      p := |index|;
      while p > 0 && counter <= index[p - 1].accessCounter
        invariant p <= |index| && forall i :: p <= i < |index| ==> counter <= index[i].accessCounter
      {
        p := p - 1;
      }
    }

    /** The counter of a value in the cache becomes the latest, and the value moves to where
        that belongs in the index. */
    method Bump(key: K) returns (value: CacheValue<K, V>)
      requires Sorted(index, nextAccessCounter) && Tabled(cache, index) && key in cache
      modifies this`index, this`nextAccessCounter, index
      ensures Sorted(index, nextAccessCounter) && Tabled(cache, index) && value == old(cache[key])
      ensures KeysOf(index) == Remove(KeysOf(old(index)), key) + [key]
      ensures multiset(ValuesOf(index)) == multiset(ValuesOf(old(index)))
      ensures forall v :: v in index ==> v in old(index)
    {
      hide Sorted, Tabled, KeysOf, ValuesOf, Remove, Distinct, Moved;
      value := cache[key];
      EntryTabled(cache, index, key);
      var p := Position(value.accessCounter);
      SortedPosition(index, value, p, nextAccessCounter);
      TableSize(cache, index, nextAccessCounter);
      MovedKeys(index, p);
      MovedValues(index, p);
      MovedStaysTabled(cache, index, p);
      SortedWithout(index, p, nextAccessCounter);
      ghost var moved := Moved(index, p);
      index := index[..p] + index[p + 1..];
      value.accessCounter := nextAccessCounter;
      var q := Position(value.accessCounter);
      nextAccessCounter := nextAccessCounter + 1;
      SortedAppend(index, value, nextAccessCounter);
      MovedParts(old(index), p);
      assert index[..q] == index && index[q..] == [];
      index := index[..q] + [value] + index[q..];
      assert index == moved;
    }

    /** A generated value goes in under its key. */
    method Add(key: K, made: V)
      requires Sorted(index, nextAccessCounter) && Tabled(cache, index) && key !in cache
      modifies this`index, this`cache, this`nextAccessCounter
      ensures Sorted(index, nextAccessCounter) && Tabled(cache, index)
      ensures |index| > 0 && fresh(index[|index| - 1]) && index == old(index) + [index[|index| - 1]]
      ensures index[|index| - 1].key == key && index[|index| - 1].value == made
    {
      hide Sorted, Tabled;
      var value := new CacheValue(key, made, nextAccessCounter);
      var q := Position(value.accessCounter);
      nextAccessCounter := nextAccessCounter + 1;
      SortedAppend(index, value, nextAccessCounter);
      TabledAdd(cache, index, value);
      index := index[..q] + [value] + index[q..];
      assert index == old(index) + [value];
      cache := cache[key := value];
    }

    /** The least recently used value goes out. */
    method EvictFirst()
      requires Sorted(index, nextAccessCounter) && Tabled(cache, index) && index != []
      modifies this`index, this`cache, this`evicted
      ensures Sorted(index, nextAccessCounter) && Tabled(cache, index)
      ensures index == old(index)[1..] && evicted == old(evicted) + [old(index)[0].value]
    {
      var oldest := index[0];
      evicted := evicted + [oldest.value];
      cache := map k | k in cache && k != oldest.key :: cache[k];
      index := index[1..];
    }

    /** A generated value goes in, and the least recently used one goes out if the table has
        outgrown the cache. */
    method Generate(key: K, made: V)
      requires Sorted(index, nextAccessCounter) && Tabled(cache, index) && key !in cache
      modifies this`index, this`cache, this`nextAccessCounter, this`generated, this`evicted
      ensures Sorted(index, nextAccessCounter) && Tabled(cache, index)
      ensures KeysOf(index) == Touched(KeysOf(old(index)), key, maxSize)
      ensures generated == old(generated) + [made]
      ensures evicted + ValuesOf(index) == old(evicted) + (ValuesOf(old(index)) + [made])
      ensures maxSize > 0 && |KeysOf(old(index))| <= maxSize ==> key in cache && cache[key].value == made
      ensures forall v :: v in index ==> v in old(index) || fresh(v)
    {
      hide Sorted, Tabled, KeysOf, ValuesOf;
      KeysTabled(cache, index, key);
      Add(key, made);
      AppendedKeys(old(index), index[|index| - 1]);
      ghost var added := index;
      generated := generated + [made];
      TableSize(cache, index, nextAccessCounter);
      if |cache| > maxSize {
        EvictFirst();
        DroppedKeys(added);
      }
      LastTabled(cache, index);
    }

    /** Returns the value of a key, generating one if there is none. */
    method Lookup(key: K, made: V) returns (value: V)
      requires Valid()
      modifies this, index
      ensures Valid() && trace == old(trace) + [key] && forall v :: v in index ==> v in old(index) || fresh(v)
      ensures key in old(cache) ==> value == old(cache[key].value) && generated == old(generated) && evicted == old(evicted)
      ensures key !in old(cache) ==> value == made && generated == old(generated) + [made]
      ensures maxSize > 0 ==> key in cache && cache[key].value == value
    {
      hide Sorted, Tabled, KeysOf, ValuesOf;
      trace := trace + [key];
      assert trace[..|trace| - 1] == old(trace);
      KeysTabled(cache, index, key);
      LargerContainsSmaller(old(trace), maxSize, maxSize);
      if key in cache {
        var entry := Bump(key);
        value := entry.value;
      } else {
        value := made;
        Generate(key, made);
        assert multiset(evicted + ValuesOf(index)) == multiset(evicted) + multiset(ValuesOf(index));
      }
    }

    /** Evicts what is left. The cache is not used again. */
    method Destroy()
      requires Valid()
      modifies this`evicted
      ensures multiset(evicted) == multiset(generated)
    {
      hide Sorted, Tabled, Cached;
      ghost var was := evicted;
      ghost var values := ValuesOf(index);
      var i := 0;
      while i < |index|
        modifies this`evicted
        invariant 0 <= i <= |index| && evicted == was + values[..i]
      {
        evicted := evicted + [index[i].value];
        i := i + 1;
      }
      assert values[..i] == values;
    }
  }
}
