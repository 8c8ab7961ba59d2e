/**
 * `ORDER BY <key> DESC` over a scanned table: a stable insertion sort on an integer key,
 * newest (largest key) first. Rows with equal keys keep their scan order.
 */
module Sorting {

  ghost predicate SortedDesc<T>(s: seq<T>, key: T -> int) {
    forall i, j :: 0 <= i < j < |s| ==> key(s[j]) <= key(s[i])
  }

  function Insert<T>(x: T, s: seq<T>, key: T -> int): (r: seq<T>)
    requires SortedDesc(s, key)
    ensures multiset(r) == multiset(s) + multiset{x}
    ensures |r| == |s| + 1
    ensures SortedDesc(r, key)
  {
    if s == [] then [x]
    else if key(s[0]) <= key(x) then [x] + s
    else
      var tail := Insert(x, s[1..], key);
      assert s == [s[0]] + s[1..];
      HeadBoundsRest(x, s, tail, key);
      ConsSorted(s[0], tail, key);
      [s[0]] + tail
  }

  /** Everything in `tail` (a rearrangement of `x` and `s[1..]`) is no larger than `s[0]`. */
  lemma HeadBoundsRest<T>(x: T, s: seq<T>, tail: seq<T>, key: T -> int)
    requires s != [] && SortedDesc(s, key) && key(x) < key(s[0])
    requires multiset(tail) == multiset(s[1..]) + multiset{x}
    ensures forall k :: 0 <= k < |tail| ==> key(tail[k]) <= key(s[0])
  {
    forall k | 0 <= k < |tail|
      ensures key(tail[k]) <= key(s[0])
    {
      assert tail[k] in multiset(tail);
      if tail[k] != x {
        assert tail[k] in multiset(s[1..]);
        var j :| 0 <= j < |s[1..]| && s[1..][j] == tail[k];
        assert s[j + 1] == tail[k];
      }
    }
  }

  /** Putting a bound in front of a descending sequence keeps it descending. */
  lemma ConsSorted<T>(head: T, tail: seq<T>, key: T -> int)
    requires SortedDesc(tail, key)
    requires forall k :: 0 <= k < |tail| ==> key(tail[k]) <= key(head)
    ensures SortedDesc([head] + tail, key)
  {
    var r := [head] + tail;
    forall i, j | 0 <= i < j < |r|
      ensures key(r[j]) <= key(r[i])
    {
      assert r[j] == tail[j - 1];
      if 0 < i {
        assert r[i] == tail[i - 1];
      }
    }
  }

  /** The rows ordered by descending key; a permutation of the input. */
  function SortDesc<T>(s: seq<T>, key: T -> int): (r: seq<T>)
    ensures multiset(r) == multiset(s)
    ensures |r| == |s|
    ensures SortedDesc(r, key)
  {
    if s == [] then []
    else
      assert s == [s[0]] + s[1..];
      Insert(s[0], SortDesc(s[1..], key), key)
  }
}
