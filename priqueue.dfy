/**
 * The sorted priority queue of libpriqueue/libpriqueue.c. The linked list of
 * nodes is modelled by the sequence of the elements they hold, head first;
 * `size` is kept alongside it as in `priqueue_t`.
 */
module PriorityQueue {
  import opened Wrappers
  import opened Ordering

  /** A list node: the element it holds and the elements of the nodes after it. */
  datatype Node<T> = Node(ptr: T, next: seq<T>)

  /**
   * Where `priqueue_offer` puts `x`: before the first element `e` that
   * `cmp(x, e) < 0` puts after `x`, and at the end if there is none.
   */
  function InsertPos<T>(cmp: (T, T) -> int, s: seq<T>, x: T): (j: int)
    ensures 0 <= j <= |s|
    ensures forall k :: 0 <= k < j ==> cmp(x, s[k]) >= 0
    ensures j < |s| ==> cmp(x, s[j]) < 0
  {
    if s == [] then 0
    else if cmp(x, s[0]) < 0 then 0
    else 1 + InsertPos(cmp, s[1..], x)
  }

  /** The queue `s` after `priqueue_offer` of `x`: the same elements, with `x` added at its position. */
  function Insert<T>(cmp: (T, T) -> int, s: seq<T>, x: T): (r: seq<T>)
    ensures |r| == |s| + 1 && multiset(r) == multiset(s) + multiset{x}
    ensures r[InsertPos(cmp, s, x)] == x
  {
    var j := InsertPos(cmp, s, x);
    assert s == s[..j] + s[j..];
    s[..j] + [x] + s[j..]
  }

  /** That position is the only one with those two properties. */
  lemma InsertPosUnique<T>(cmp: (T, T) -> int, s: seq<T>, x: T, j: int)
    requires 0 <= j <= |s| && (forall k :: 0 <= k < j ==> cmp(x, s[k]) >= 0) && (j < |s| ==> cmp(x, s[j]) < 0)
    ensures j == InsertPos(cmp, s, x)
  {
  }

  /** Inserting at that position keeps a sorted queue sorted under a consistent comparer. */
  lemma InsertKeepsSorted<T(!new)>(cmp: (T, T) -> int, s: seq<T>, x: T)
    requires Consistent(cmp) && Sorted(cmp, s)
    ensures Sorted(cmp, Insert(cmp, s, x))
  {
    var j := InsertPos(cmp, s, x);
    var t := s[..j] + [x] + s[j..];
    forall a, b | 0 <= a < b < |t| ensures cmp(t[a], t[b]) <= 0
    {
      InsertAt(s, j, x, a);
      InsertAt(s, j, x, b);
      if b == j {
        assert Sign(cmp(s[a], x)) == -Sign(cmp(x, s[a]));
      } else if a == j && b - 1 > j {
        assert cmp(s[j], s[b - 1]) <= 0;
      }
    }
  }

  /** The elements of `s` with `x` inserted at `j`. */
  lemma InsertAt<T>(s: seq<T>, j: int, x: T, k: int)
    requires 0 <= j <= |s| && 0 <= k <= |s|
    ensures (s[..j] + [x] + s[j..])[k] == if k < j then s[k] else if k == j then x else s[k - 1]
  {
  }

  /** A comparer that never puts its first argument ahead makes the queue first-in first-out. */
  lemma NeverAheadAppends<T>(cmp: (T, T) -> int, s: seq<T>, x: T)
    requires forall a, b :: cmp(a, b) > 0
    ensures InsertPos(cmp, s, x) == |s| && Insert(cmp, s, x) == s + [x]
  {
    assert s[..|s|] == s;
  }

  class PriQueue<T> {
    /** The elements of the nodes from `head` on. */
    var contents: seq<T>
    var size: int
    const comparer: (T, T) -> int

    ghost predicate Valid()
      reads this
    {
      size == |contents|
    }

    /** priqueue_init: an empty queue, NULL head, with the given comparer. */
    constructor Init(comparer: (T, T) -> int)
      ensures Valid() && size == 0 && contents == [] && this.comparer == comparer
    {
      size := 0;
      contents := [];
      this.comparer := comparer;
    }

    /**
     * priqueue_offer: `ptr` is inserted before the first element it compares
     * below, so elements it ties with stay ahead of it; the result is its index.
     */
    method Offer(ptr: T) returns (index: int)
      requires Valid()
      modifies this
      ensures Valid() && size == old(size) + 1
      ensures index == InsertPos(comparer, old(contents), ptr)
      ensures contents == old(contents)[..index] + [ptr] + old(contents)[index..]
      ensures contents == Insert(comparer, old(contents), ptr)
    {
      if size == 0 {
        contents := [ptr];
        index := size;
        size := size + 1;
        return;
      }
      ghost var s := contents;
      var add := ptr;
      index := 0;
      size := size + 1;
      var pos := 0;
      while pos < |contents|
        invariant 0 <= pos < |contents| && contents == s && index == pos && add == ptr && size == |s| + 1
        invariant forall k :: 0 <= k < pos ==> comparer(ptr, s[k]) >= 0
        decreases |contents| - pos
      {
        if comparer(ptr, contents[pos]) < 0 {
          InsertPosUnique(comparer, s, ptr, pos);
          ShiftIn(pos, add);
          return;
        }
        index := index + 1;
        if pos == |contents| - 1 {
          contents := contents + [add];
          InsertPosUnique(comparer, s, ptr, index);
          return;
        }
        pos := pos + 1;
      }
    }

    /**
     * The inner loop of priqueue_offer (libpriqueue.c line 61-74): from node
     * `j` on, every node takes the element carried down from the node before,
     * and the last one's element goes into a new node at the end.
     */
    method ShiftIn(j: int, add: T)
      requires 0 <= j < |contents|
      modifies this
      ensures contents == old(contents)[..j] + [add] + old(contents)[j..]
      ensures size == old(size)
    {
      ghost var s := contents;
      ghost var t := s[..j] + [add] + s[j..];
      var carried := add;
      var pos := j;
      while pos < |contents|
        invariant j <= pos < |s| && |contents| == |s| && size == old(size)
        invariant contents == t[..pos] + s[pos..] && carried == t[pos]
        decreases |contents| - pos
      {
        var tempPtr := contents[pos];
        contents := contents[pos := carried];
        carried := tempPtr;
        if pos == |contents| - 1 {
          contents := contents + [carried];
          assert contents == t;
          return;
        }
        pos := pos + 1;
      }
    }

    /** priqueue_peek: the head node (not its element), NULL exactly when the queue is empty. */
    method Peek() returns (r: Option<Node<T>>)
      requires Valid()
      ensures r.Some? <==> size != 0
      ensures r.Some? ==> r.value == Node(contents[0], contents[1..])
    {
      if size != 0 {
        r := Some(Node(contents[0], contents[1..]));
      } else {
        r := None;
      }
    }

    /** priqueue_poll: the head element is removed and returned; NULL on an empty queue. */
    method Poll() returns (r: Option<T>)
      requires Valid()
      modifies this
      ensures Valid()
      ensures old(size) == 0 ==> r == None && contents == old(contents) && size == old(size)
      ensures old(size) != 0 ==>
        r == Some(old(contents)[0]) && contents == old(contents)[1..] && size == old(size) - 1
    {
      if size != 0 {
        var temp := contents[0];
        contents := contents[1..];
        size := size - 1;
        r := Some(temp);
      } else {
        r := None;
      }
    }

    /** priqueue_at: the element at `index`, NULL for an index outside the queue. */
    method At(index: int) returns (r: Option<T>)
      requires Valid()
      ensures 0 <= index < size ==> r == Some(contents[index])
      ensures !(0 <= index < size) ==> r == None
    {
      if index < 0 || index > size - 1 {
        return None;
      }
      var pos := 0;
      var i := 0;
      while pos < |contents|
        invariant 0 <= pos <= |contents| && i == pos && pos <= index
        decreases |contents| - pos
      {
        if i == index {
          return Some(contents[pos]);
        }
        i := i + 1;
        pos := pos + 1;
      }
      return None;
    }

    /** priqueue_size. */
    method Size() returns (r: int)
      requires Valid()
      ensures r == |contents|
    {
      r := size;
    }
  }
}
