/** Sorted insertion by an integer key, shared by the edge-table sort and the pair
    queue: an element goes after every element whose key is not larger. */
module Sorting {

  predicate SortedBy<T>(s: seq<T>, key: T -> int)
  {
    forall i, j :: 0 <= i < j < |s| ==> key(s[i]) <= key(s[j])
  }

  function InsertBy<T>(s: seq<T>, e: T, key: T -> int): (r: seq<T>)
    requires SortedBy(s, key)
    ensures SortedBy(r, key) && multiset(r) == multiset(s) + multiset{e}
  {
    if s == [] || key(e) < key(s[0]) then
      SortedCons(e, s, key);
      [e] + s
    else
      var rest := InsertBy(s[1..], e, key);
      assert s == [s[0]] + s[1..];
      BoundedBelow(s[0], rest, s[1..], e, key);
      SortedCons(s[0], rest, key);
      [s[0]] + rest
  }

  /** A sorted sequence stays sorted under a head whose key is not above any of its keys. */
  lemma SortedCons<T>(x: T, s: seq<T>, key: T -> int)
    requires SortedBy(s, key)
    requires forall k :: 0 <= k < |s| ==> key(x) <= key(s[k])
    ensures SortedBy([x] + s, key)
  {
    forall i, j | 0 <= i < j < |[x] + s|
      ensures key(([x] + s)[i]) <= key(([x] + s)[j])
    {
      assert ([x] + s)[j] == s[j - 1];
      if i > 0 {
        assert ([x] + s)[i] == s[i - 1];
      }
    }
  }

  /** Everything in `rest`, a permutation of a sorted tail plus an element with a key
      not below the head's, has a key not below the head's. */
  lemma BoundedBelow<T>(x: T, rest: seq<T>, tail: seq<T>, e: T, key: T -> int)
    requires SortedBy([x] + tail, key) && key(x) <= key(e)
    requires multiset(rest) == multiset(tail) + multiset{e}
    ensures forall k :: 0 <= k < |rest| ==> key(x) <= key(rest[k])
  {
    forall k | 0 <= k < |rest|
      ensures key(x) <= key(rest[k])
    {
      assert rest[k] in multiset(rest);
      if rest[k] != e {
        assert rest[k] in multiset(tail);
        var j :| 0 <= j < |tail| && tail[j] == rest[k];
        assert ([x] + tail)[0] == x && ([x] + tail)[j + 1] == rest[k];
      }
    }
  }

  /** The first element of a sorted sequence has the smallest key. */
  lemma HeadIsSmallest<T>(s: seq<T>, key: T -> int)
    requires SortedBy(s, key) && s != []
    ensures forall k :: 0 <= k < |s| ==> key(s[0]) <= key(s[k])
  {
  }
}
