/** Lists used as duplicate-free indexes over a set, and the edits the source makes to them. */
module Lists {
  /** The sequence enumerates the set, each element once. */
  ghost predicate Enumerates<T>(s: seq<T>, elements: set<T>) {
    && (forall i, j :: 0 <= i < j < |s| ==> s[i] != s[j])
    && (forall x :: x in s ==> x in elements)
    && (forall x :: x in elements ==> x in s)
  }

  /** `g_list_delete_link` at the first link holding the element. */
  function Remove<T(==)>(s: seq<T>, x: T): seq<T> {
    if s == [] then [] else if s[0] == x then s[1..] else [s[0]] + Remove(s[1..], x)
  }

  lemma {:induction false} RemoveSplits<T>(s: seq<T>, x: T) returns (i: nat)
    requires x in s
    ensures i < |s| && s[i] == x && x !in s[..i] && Remove(s, x) == s[..i] + s[i + 1..]
  {
    if s[0] == x {
      i := 0;
    } else {
      var j := RemoveSplits(s[1..], x);
      i := j + 1;
      assert s[..i] == [s[0]] + s[1..][..j];
    }
  }

  lemma RemoveEnumerates<T>(s: seq<T>, elements: set<T>, x: T)
    requires Enumerates(s, elements) && x in elements
    ensures Enumerates(Remove(s, x), elements - {x})
    ensures |Remove(s, x)| == |s| - 1
  {
    var i := RemoveSplits(s, x);
    var r := Remove(s, x);
    forall y | y in elements - {x}
      ensures y in r
    {
      var j :| 0 <= j < |s| && s[j] == y;
      assert r[if j < i then j else j - 1] == y;
    }
  }

  lemma InsertEnumerates<T>(s: seq<T>, elements: set<T>, x: T, p: nat)
    requires Enumerates(s, elements) && x !in elements && p <= |s|
    ensures Enumerates(s[..p] + [x] + s[p..], elements + {x})
  {
    var r := s[..p] + [x] + s[p..];
    forall y | y in elements + {x}
      ensures y in r
    {
      if y == x {
        assert r[p] == x;
      } else {
        var j :| 0 <= j < |s| && s[j] == y;
        assert r[if j < p then j else j + 1] == y;
      }
    }
    forall i, j | 0 <= i < j < |r|
      ensures r[i] != r[j]
    {
      assert i < p ==> r[i] == s[i];
      assert i > p ==> r[i] == s[i - 1];
      assert j < p ==> r[j] == s[j];
      assert j > p ==> r[j] == s[j - 1];
    }
  }
}
