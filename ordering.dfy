/**
 * Three-way comparers, as taken by `qsort` and by the priority queue: a
 * negative result puts the first argument ahead of the second.
 */
module Ordering {

  function Sign(n: int): int
  {
    if n < 0 then -1 else if n > 0 then 1 else 0
  }

  /**
   * A comparer that orders consistently: swapping its arguments flips the sign
   * of its result, and "not after" is transitive.
   */
  ghost predicate Consistent<T(!new)>(cmp: (T, T) -> int)
  {
    (forall a, b :: Sign(cmp(a, b)) == -Sign(cmp(b, a))) &&
    (forall a, b, c :: cmp(a, b) <= 0 && cmp(b, c) <= 0 ==> cmp(a, c) <= 0)
  }

  /** No element is put after a later one. */
  ghost predicate Sorted<T>(cmp: (T, T) -> int, s: seq<T>)
  {
    forall i, j :: 0 <= i < j < |s| ==> cmp(s[i], s[j]) <= 0
  }
}
