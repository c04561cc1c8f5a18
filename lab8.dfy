/**
 * lab8/main.c: an array of processes sorted twice with `qsort`, first by
 * arrival time and then by priority with arrival time breaking ties.
 */
module Lab8 {
  import opened Ordering

  /** process_t */
  datatype Process = Process(pid: int, arrTime: int, priority: int)

  /** compareArr: the sign of the arrival-time difference, so earlier arrivals go first. */
  function CompareArr(a: Process, b: Process): (r: int)
    ensures r < 0 <==> a.arrTime < b.arrTime
    ensures r == 0 <==> a.arrTime == b.arrTime
    ensures r > 0 <==> a.arrTime > b.arrTime
  {
    a.arrTime - b.arrTime
  }

  /**
   * comparePri: the lexicographic order on (priority, arrTime), lower values
   * first, and 0 only when both fields are equal.
   */
  function ComparePri(a: Process, b: Process): (r: int)
    ensures r < 0 <==>
      a.priority < b.priority || (a.priority == b.priority && a.arrTime < b.arrTime)
    ensures r == 0 <==> a.priority == b.priority && a.arrTime == b.arrTime
  {
    var compare := a.priority - b.priority;
    if compare == 0 then a.arrTime - b.arrTime else compare
  }

  /** Both comparators are consistent orders, as `qsort` needs. */
  lemma ComparatorsConsistent()
    ensures Consistent(CompareArr)
    ensures Consistent(ComparePri)
  {
  }

  /** An array sorted by comparePri lists priorities in ascending order, and arrival times ascending within a priority. */
  lemma SortedByPriority(s: seq<Process>)
    requires Sorted(ComparePri, s)
    ensures forall i, j :: 0 <= i < j < |s| ==>
      s[i].priority < s[j].priority || (s[i].priority == s[j].priority && s[i].arrTime <= s[j].arrTime)
  {
  }

  /**
   * qsort, as far as the program relies on it: afterwards the array holds
   * the same elements, none put after a later one by `cmp`. (An insertion
   * sort stands in for the library's algorithm; stability is not stated.)
   */
  method QSort<T(!new)>(a: array<T>, cmp: (T, T) -> int)
    requires Consistent(cmp)
    modifies a
    ensures Sorted(cmp, a[..])
    ensures multiset(a[..]) == multiset(old(a[..]))
  {
    var i := 0;
    while i < a.Length
      invariant 0 <= i <= a.Length
      invariant SortedUpTo(cmp, a[..], i)
      invariant multiset(a[..]) == multiset(old(a[..]))
    {
      SiftDown(a, i, cmp);
      i := i + 1;
    }
  }

  /** The first `n` elements of `s` are sorted. */
  ghost predicate SortedUpTo<T>(cmp: (T, T) -> int, s: seq<T>, n: int)
    requires n <= |s|
  {
    forall p, q :: 0 <= p < q < n ==> cmp(s[p], s[q]) <= 0
  }

  /**
   * One pass of the insertion sort: the element at `i` is swapped down past
   * every element of the sorted prefix that belongs after it.
   */
  method SiftDown<T(!new)>(a: array<T>, i: int, cmp: (T, T) -> int)
    requires Consistent(cmp) && 0 <= i < a.Length
    requires SortedUpTo(cmp, a[..], i)
    modifies a
    ensures SortedUpTo(cmp, a[..], i + 1)
    ensures multiset(a[..]) == multiset(old(a[..]))
  {
    var j := i;
    while j > 0 && cmp(a[j - 1], a[j]) > 0
      invariant 0 <= j <= i
      invariant SortedBut(cmp, a[..], i, j) && AheadOfRest(cmp, a[..], i, j)
      invariant multiset(a[..]) == multiset(old(a[..]))
    {
      SwapStep(cmp, a[..], i, j);
      Swap(a, j);
      j := j - 1;
    }
    SiftDone(cmp, a[..], i, j);
  }

  /** Exchanges the elements at `j - 1` and `j`. */
  method Swap<T>(a: array<T>, j: int)
    requires 0 < j < a.Length
    modifies a
    ensures a[..] == old(a[..])[j - 1 := old(a[j])][j := old(a[j - 1])]
    ensures multiset(a[..]) == multiset(old(a[..]))
  {
    a[j - 1], a[j] := a[j], a[j - 1];
  }

  /** `s[..n + 1]` is sorted except for the element at `j`. */
  ghost predicate SortedBut<T>(cmp: (T, T) -> int, s: seq<T>, n: int, j: int)
    requires n < |s|
  {
    forall p, q :: 0 <= p < q <= n && p != j && q != j ==> cmp(s[p], s[q]) <= 0
  }

  /** The element at `j` belongs before every later one up to `n`. */
  ghost predicate AheadOfRest<T>(cmp: (T, T) -> int, s: seq<T>, n: int, j: int)
    requires 0 <= j <= n < |s|
  {
    forall q :: j < q <= n ==> cmp(s[j], s[q]) <= 0
  }

  /** Swapping the moving element with a predecessor that belongs after it keeps both facts. */
  lemma SwapStep<T(!new)>(cmp: (T, T) -> int, s: seq<T>, n: int, j: int)
    requires Consistent(cmp) && 0 < j <= n < |s|
    requires SortedBut(cmp, s, n, j) && AheadOfRest(cmp, s, n, j) && cmp(s[j - 1], s[j]) > 0
    ensures var t := s[j - 1 := s[j]][j := s[j - 1]];
      SortedBut(cmp, t, n, j - 1) && AheadOfRest(cmp, t, n, j - 1)
  {
    assert Sign(cmp(s[j], s[j - 1])) == -Sign(cmp(s[j - 1], s[j]));
  }

  /** Once the moving element's predecessor (if any) does not belong after it, the prefix is sorted. */
  lemma SiftDone<T(!new)>(cmp: (T, T) -> int, s: seq<T>, n: int, j: int)
    requires Consistent(cmp) && 0 <= j <= n < |s|
    requires SortedBut(cmp, s, n, j) && AheadOfRest(cmp, s, n, j)
    requires j == 0 || cmp(s[j - 1], s[j]) <= 0
    ensures SortedUpTo(cmp, s, n + 1)
  {
    forall p | 0 <= p < j - 1
      ensures cmp(s[p], s[j]) <= 0
    {
      assert cmp(s[p], s[j - 1]) <= 0;
    }
  }

  /**
   * The two sorts of `main`: `byArrival` is the array as printed after the
   * first one (arrival times ascending), and the array ends sorted by
   * (priority, arrTime); both are permutations of the input.
   */
  method SortProcesses(processes: array<Process>) returns (byArrival: seq<Process>)
    modifies processes
    ensures Sorted(CompareArr, byArrival) && multiset(byArrival) == multiset(old(processes[..]))
    ensures Sorted(ComparePri, processes[..]) && multiset(processes[..]) == multiset(old(processes[..]))
  {
    ComparatorsConsistent();
    QSort(processes, CompareArr);
    byArrival := processes[..];
    QSort(processes, ComparePri);
  }
}
