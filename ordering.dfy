/** Descending order on an integer key, the order a query with
    `order_by('-field')` returns its rows in. The poll index orders questions
    by publication date this way, and every Vote listing is ordered by its
    timestamp this way. Rows with equal keys keep their original order. */
module Ordering {

  /** Keys never increase from left to right. */
  predicate NonIncreasing<T>(s: seq<T>, key: T -> int)
  {
    forall i, j :: 0 <= i < j < |s| ==> key(s[i]) >= key(s[j])
  }

  /** Puts `x` in front of the first element whose key is not larger than its own. */
  function Insert<T>(x: T, s: seq<T>, key: T -> int): (r: seq<T>)
    requires NonIncreasing(s, key)
    ensures NonIncreasing(r, key)
    ensures multiset(r) == multiset(s) + multiset{x}
    ensures |r| == |s| + 1 && (r[0] == x || (s != [] && r[0] == s[0]))
  {
    if s == [] || key(s[0]) <= key(x) then
      [x] + s
    else
      var rest := Insert(x, s[1..], key);
      assert key(rest[0]) <= key(s[0]);
      assert s == [s[0]] + s[1..];
      [s[0]] + rest
  }

  /** Insertion sort into non-increasing key order. */
  function SortDescending<T>(s: seq<T>, key: T -> int): (r: seq<T>)
    ensures NonIncreasing(r, key)
    ensures multiset(r) == multiset(s)
    ensures |r| == |s|
  {
    if s == [] then
      []
    else
      assert s == [s[0]] + s[1..];
      Insert(s[0], SortDescending(s[1..], key), key)
  }

  /** In a non-increasing sequence, nothing left out of a prefix has a larger
      key than anything in the prefix. */
  lemma PrefixDominates<T>(s: seq<T>, key: T -> int, n: nat)
    requires NonIncreasing(s, key) && n <= |s|
    ensures forall x, y :: x in s && x !in s[..n] && y in s[..n] ==> key(x) <= key(y)
  {
    forall x, y | x in s && x !in s[..n] && y in s[..n] ensures key(x) <= key(y) {
      var j :| 0 <= j < |s| && s[j] == x;
      var i :| 0 <= i < n && s[..n][i] == y;
      assert s[i] == y;
    }
  }
}
