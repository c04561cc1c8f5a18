/**
 * The abstract state of the buddy allocator and the steps its operations take.
 *
 * The state is the page table (`g_pages`, one `Page` per 4 KiB page), the free
 * lists (`free_area`, a sequence of page indices per order, head first) and a
 * ghost partition `lvl`: `lvl[p]` is the order of the block, free or allocated,
 * that page `p` currently belongs to. The partition is consistent when all pages
 * of the aligned block of order `lvl[p]` around `p` agree on that order; blocks
 * then never overlap and every page belongs to one.
 */
module BuddyState {
  import opened Wrappers
  import opened BuddyAddress

  /** One entry of `g_pages`: its list link is membership of a free list. */
  datatype Page = Page(blockSizeOrder: int, index: int, blockAddr: int)

  /** The outcome of coalescing: the free lists, and the base page and order of the block inserted. */
  datatype Coalesced = Coalesced(lists: seq<seq<int>>, base: int, order: int)

  // ---------------------------------------------------------------------------
  // The invariant

  ghost predicate PagesOk(pages: seq<Page>)
  {
    |pages| == N_PAGES &&
    forall i :: 0 <= i < N_PAGES ==> pages[i].index == i && pages[i].blockAddr == PageToAddr(i)
  }

  /** `free_area[0 .. MAX_ORDER]`; the lists below `MIN_ORDER` are never used. */
  predicate InRange(fa: seq<seq<int>>)
  {
    |fa| == MAX_ORDER + 1 &&
    (forall o :: 0 <= o < MIN_ORDER ==> fa[o] == []) &&
    (forall o, x :: MIN_ORDER <= o <= MAX_ORDER && x in fa[o] ==> 0 <= x < N_PAGES)
  }

  ghost predicate Levels(lvl: seq<int>)
  {
    |lvl| == N_PAGES && forall p :: 0 <= p < N_PAGES ==> MIN_ORDER <= lvl[p] <= MAX_ORDER
  }

  ghost predicate Consistent(lvl: seq<int>)
  {
    Levels(lvl) &&
    forall p, q :: 0 <= p < N_PAGES && 0 <= q < N_PAGES && q / Span(lvl[p]) == p / Span(lvl[p]) ==>
      lvl[q] == lvl[p]
  }

  /** `x` is the base page of a current block of order `o`. */
  ghost predicate IsBlock(lvl: seq<int>, x: int, o: int)
    requires Levels(lvl)
  {
    0 <= x < N_PAGES && lvl[x] == o && x % Span(o) == 0
  }

  /** Every free-list entry is the base of a block of the list's order. */
  ghost predicate FreeOk(fa: seq<seq<int>>, lvl: seq<int>)
    requires InRange(fa) && Levels(lvl)
  {
    forall o, x {:trigger x in fa[o]} :: MIN_ORDER <= o <= MAX_ORDER && x in fa[o] ==> lvl[x] == o && x % Span(o) == 0
  }

  /** A free list never holds the same page twice. */
  predicate NoDups(s: seq<int>)
  {
    forall j, k :: 0 <= j < k < |s| ==> s[j] != s[k]
  }

  predicate Distinct(fa: seq<seq<int>>)
    requires |fa| == MAX_ORDER + 1
  {
    forall o :: MIN_ORDER <= o <= MAX_ORDER ==> NoDups(fa[o])
  }

  /** Two free buddies of equal order never coexist: they would have been merged. */
  ghost predicate NoFreeBuddies(fa: seq<seq<int>>)
    requires InRange(fa)
  {
    forall o, x :: MIN_ORDER <= o < MAX_ORDER && x in fa[o] ==> BuddyPage(x, o) !in fa[o]
  }

  /**
   * The base page of every allocated block (a block absent from the free lists)
   * records the block's order — except `hole`, the block `buddy_free` is merging.
   */
  ghost predicate UsedOk(pages: seq<Page>, fa: seq<seq<int>>, lvl: seq<int>, hole: int)
    requires |pages| == N_PAGES && InRange(fa) && Levels(lvl)
  {
    forall b :: 0 <= b < N_PAGES && b != hole && b % Span(lvl[b]) == 0 && b !in fa[lvl[b]] ==>
      pages[b].blockSizeOrder == lvl[b]
  }

  ghost predicate Inv(pages: seq<Page>, fa: seq<seq<int>>, lvl: seq<int>, hole: int)
  {
    PagesOk(pages) && InRange(fa) && Consistent(lvl) && FreeOk(fa, lvl) && Distinct(fa) &&
    NoFreeBuddies(fa) && UsedOk(pages, fa, lvl, hole)
  }

  // ---------------------------------------------------------------------------
  // The partition the invariant describes

  /** The first page of the order-`o` aligned block that contains page `p`. */
  function BlockBase(p: nat, o: int): (b: nat)
    requires MIN_ORDER <= o
  {
    var s := Span(o);
    DivBelow(p, s);
    p - p % s
  }

  /** The remainder is at most the dividend, and the dividend less it is the quotient times the divisor. */
  lemma DivBelow(p: nat, s: nat)
    requires s > 0
    ensures p % s <= p && p - p % s == (p / s) * s
  {
    if p < s {
      DivUnique(p, s, 0, p);
    } else {
      MulAtLeast(p / s, s);
    }
  }

  /** Page `r` lies in the order-`o` block starting at page `x`. */
  predicate InBlockRange(r: int, x: int, o: int)
    requires MIN_ORDER <= o
  {
    x <= r < x + Span(o)
  }

  /** Two blocks of the partition that share a page are the same block. */
  lemma BlocksDisjoint(lvl: seq<int>, x1: int, o1: int, x2: int, o2: int, r: int)
    requires Consistent(lvl) && MIN_ORDER <= o1 <= MAX_ORDER && MIN_ORDER <= o2 <= MAX_ORDER
    requires IsBlock(lvl, x1, o1) && IsBlock(lvl, x2, o2)
    requires InBlockRange(r, x1, o1) && InBlockRange(r, x2, o2)
    ensures x1 == x2 && o1 == o2
  {
    BlockFits(x1, o1);
    InBlock(r, x1, o1);
    InBlock(r, x2, o2);
    assert lvl[r] == o1 && lvl[r] == o2;
    AlignedEq(x1, x2, o1);
  }

  /** Every page lies in the block of its own level, which the partition records. */
  lemma Coverage(lvl: seq<int>)
    requires Consistent(lvl)
    ensures forall p :: 0 <= p < N_PAGES ==>
      IsBlock(lvl, BlockBase(p, lvl[p]), lvl[p]) && InBlockRange(p, BlockBase(p, lvl[p]), lvl[p])
  {
    forall p | 0 <= p < N_PAGES
      ensures IsBlock(lvl, BlockBase(p, lvl[p]), lvl[p]) && InBlockRange(p, BlockBase(p, lvl[p]), lvl[p])
    {
      CoverageAt(lvl, p);
    }
  }

  lemma CoverageAt(lvl: seq<int>, p: nat)
    requires Consistent(lvl) && p < N_PAGES
    ensures IsBlock(lvl, BlockBase(p, lvl[p]), lvl[p]) && InBlockRange(p, BlockBase(p, lvl[p]), lvl[p])
  {
    var o := lvl[p];
    var b := BlockBase(p, o);
    DivBelow(p, Span(o));
    DivUnique(b, Span(o), p / Span(o), 0);
    InBlock(p, b, o);
    assert b <= p;
    assert lvl[b] == o;
  }

  /**
   * The blocks (free or allocated) are pairwise disjoint, every page of the
   * arena belongs to one, and so every free block lies inside the arena.
   */
  lemma Partition(pages: seq<Page>, fa: seq<seq<int>>, lvl: seq<int>, hole: int)
    requires Inv(pages, fa, lvl, hole)
    ensures forall x1, o1, x2, o2, r ::
      MIN_ORDER <= o1 <= MAX_ORDER && MIN_ORDER <= o2 <= MAX_ORDER &&
      IsBlock(lvl, x1, o1) && IsBlock(lvl, x2, o2) && InBlockRange(r, x1, o1) && InBlockRange(r, x2, o2) ==>
        x1 == x2 && o1 == o2
    ensures forall o, x :: MIN_ORDER <= o <= MAX_ORDER && x in fa[o] ==>
      IsBlock(lvl, x, o) && x + Span(o) <= N_PAGES
  {
    forall x1, o1, x2, o2, r |
      MIN_ORDER <= o1 <= MAX_ORDER && MIN_ORDER <= o2 <= MAX_ORDER &&
      IsBlock(lvl, x1, o1) && IsBlock(lvl, x2, o2) && InBlockRange(r, x1, o1) && InBlockRange(r, x2, o2)
      ensures x1 == x2 && o1 == o2
    {
      BlocksDisjoint(lvl, x1, o1, x2, o2, r);
    }
    forall o, x | MIN_ORDER <= o <= MAX_ORDER && x in fa[o]
      ensures IsBlock(lvl, x, o) && x + Span(o) <= N_PAGES
    {
      assert 0 <= x < N_PAGES;
      BlockFits(x, o);
    }
  }

  // ---------------------------------------------------------------------------
  // Free-list operations

  /** `list_del` of the first entry equal to `x`; the list is unchanged if there is none. */
  function Remove(s: seq<int>, x: int): seq<int>
  {
    if s == [] then []
    else if s[0] == x then s[1..]
    else [s[0]] + Remove(s[1..], x)
  }

  /** Removing the first occurrence, found at index `j`, cuts the list at `j`. */
  lemma {:induction false} RemoveAt(s: seq<int>, x: int, j: int)
    requires 0 <= j < |s| && s[j] == x && forall k :: 0 <= k < j ==> s[k] != x
    ensures Remove(s, x) == s[..j] + s[j + 1..]
    decreases j
  {
    if j > 0 {
      RemoveAt(s[1..], x, j - 1);
      assert s[1..][..j - 1] == s[1..j];
      assert s[1..][j..] == s[j + 1..];
      assert [s[0]] + s[1..j] == s[..j];
    }
  }

  /** Cutting entry `j` out of a duplicate-free list drops exactly that entry. */
  lemma DropAt(s: seq<int>, j: int)
    requires NoDups(s) && 0 <= j < |s|
    ensures NoDups(s[..j] + s[j + 1..])
    ensures forall y :: y in s[..j] + s[j + 1..] <==> y in s && y != s[j]
  {
    var t := s[..j] + s[j + 1..];
    assert forall k :: 0 <= k < |t| ==> t[k] == if k < j then s[k] else s[k + 1];
    forall y | y in s && y != s[j] ensures y in t
    {
      var k :| 0 <= k < |s| && s[k] == y;
      if k < j { assert t[k] == y; } else { assert t[k - 1] == y; }
    }
  }

  /** Removing a member of a duplicate-free list keeps it duplicate-free and drops only that member. */
  lemma RemoveMember(s: seq<int>, x: int)
    requires NoDups(s) && x in s
    ensures NoDups(Remove(s, x))
    ensures forall y :: y in Remove(s, x) <==> y in s && y != x
  {
    var j :| 0 <= j < |s| && s[j] == x;
    RemoveAt(s, x, j);
    DropAt(s, j);
  }

  // ---------------------------------------------------------------------------
  // Re-partitioning

  /** The partition after pages `lo .. lo + Span(w) - 1` become blocks of order `v`. */
  ghost function SetLevel(lvl: seq<int>, lo: int, w: int, v: int): seq<int>
    requires |lvl| == N_PAGES && MIN_ORDER <= w
  {
    seq(N_PAGES, p requires 0 <= p < N_PAGES => if lo <= p < lo + Span(w) then v else lvl[p])
  }

  /** Every block of `lvl` that meets pages `lo .. lo + Span(w) - 1` lies inside them. */
  ghost predicate Covers(lvl: seq<int>, lo: nat, w: int)
    requires Levels(lvl) && MIN_ORDER <= w
  {
    forall q :: 0 <= q < N_PAGES && lo <= q < lo + Span(w) ==>
      lo <= BlockBase(q, lvl[q]) && BlockBase(q, lvl[q]) + Span(lvl[q]) <= lo + Span(w)
  }

  /**
   * Re-partitioning a region that no outside block reaches into, into one block
   * of its own order or into its two halves, leaves the partition consistent.
   */
  lemma SetLevelConsistent(lvl: seq<int>, lo: nat, w: int, v: int)
    requires Consistent(lvl) && MIN_ORDER <= v <= w <= MAX_ORDER && (v == w || v + 1 == w)
    requires lo % Span(w) == 0 && lo + Span(w) <= N_PAGES && Covers(lvl, lo, w)
    ensures Consistent(SetLevel(lvl, lo, w, v))
  {
    var r := SetLevel(lvl, lo, w, v);
    forall p, q | 0 <= p < N_PAGES && 0 <= q < N_PAGES && q / Span(r[p]) == p / Span(r[p])
      ensures r[q] == r[p]
    {
      if lo <= p < lo + Span(w) {
        InsideStaysInside(lo, w, v, p, q);
      } else {
        assert r[p] == lvl[p];
        OutsideStaysOutside(lvl, lo, w, p, q);
      }
    }
  }

  /** A page in the same order-`v` block as a page of the region lies in the region. */
  lemma InsideStaysInside(lo: nat, w: int, v: int, p: nat, q: nat)
    requires MIN_ORDER <= v <= w && (v == w || v + 1 == w) && lo % Span(w) == 0
    requires lo <= p < lo + Span(w) && q / Span(v) == p / Span(v)
    ensures lo <= q < lo + Span(w)
  {
    if v + 1 == w {
      SameBlockUp(p, q, v);
    }
    InBlock(p, lo, w);
    InBlock(q, lo, w);
  }

  /** A page in the same block as a page outside the region lies outside the region. */
  lemma OutsideStaysOutside(lvl: seq<int>, lo: nat, w: int, p: nat, q: nat)
    requires Consistent(lvl) && MIN_ORDER <= w && Covers(lvl, lo, w)
    requires p < N_PAGES && q < N_PAGES && !(lo <= p < lo + Span(w)) && q / Span(lvl[p]) == p / Span(lvl[p])
    ensures !(lo <= q < lo + Span(w)) && lvl[q] == lvl[p]
  {
    var o := lvl[p];
    assert lvl[q] == o;
    if lo <= q < lo + Span(w) {
      CoverageAt(lvl, q);
      var b := BlockBase(q, o);
      InBlock(q, b, o);
      InBlock(p, b, o);
      assert false;
    }
  }

  // ---------------------------------------------------------------------------
  // The steps of buddy_alloc and buddy_free

  /** The page table after `g_pages[x].block_size_order = k`. */
  function SetOrder(pages: seq<Page>, x: int, k: int): seq<Page>
    requires 0 <= x < |pages|
  {
    pages[x := pages[x].(blockSizeOrder := k)]
  }

  /** `x` is the base page of an allocated block: a block that is on no free list. */
  ghost predicate Allocated(lvl: seq<int>, fa: seq<seq<int>>, x: int)
    requires Levels(lvl) && InRange(fa)
  {
    0 <= x < N_PAGES && IsBlock(lvl, x, lvl[x]) && x !in fa[lvl[x]]
  }

  /** Taking the head of a non-empty list (buddy.c line 174-177) and recording its order. */
  lemma TakeHead(pages: seq<Page>, fa: seq<seq<int>>, lvl: seq<int>, i: int)
    requires Inv(pages, fa, lvl, -1) && MIN_ORDER <= i <= MAX_ORDER && fa[i] != []
    ensures IsBlock(lvl, fa[i][0], i) && fa[i][0] !in fa[i][1..]
    ensures Inv(SetOrder(pages, fa[i][0], i), fa[i := fa[i][1..]], lvl, -1)
  {
    var x := fa[i][0];
    assert x in fa[i];
    var fa' := fa[i := fa[i][1..]];
    RemoveMember(fa[i], x);
    assert Remove(fa[i], x) == fa[i][1..];
    assert forall o, y :: MIN_ORDER <= o <= MAX_ORDER && y in fa'[o] ==> y in fa[o];
  }

  /** A block covers itself: no other block reaches into it. */
  lemma BlockCovers(lvl: seq<int>, x: int, o: int)
    requires Consistent(lvl) && MIN_ORDER <= o <= MAX_ORDER && IsBlock(lvl, x, o)
    ensures Covers(lvl, x, o)
  {
    forall q | 0 <= q < N_PAGES && x <= q < x + Span(o)
      ensures x <= BlockBase(q, lvl[q]) && BlockBase(q, lvl[q]) + Span(lvl[q]) <= x + Span(o)
    {
      CoverageAt(lvl, q);
      BlocksDisjoint(lvl, BlockBase(q, lvl[q]), lvl[q], x, o, q);
    }
  }

  /** No free block lies inside an allocated block. */
  lemma NoFreeInside(fa: seq<seq<int>>, lvl: seq<int>, x: int, o: int)
    requires InRange(fa) && Consistent(lvl) && FreeOk(fa, lvl)
    requires MIN_ORDER <= o <= MAX_ORDER && IsBlock(lvl, x, o) && x !in fa[o]
    ensures forall o', z :: MIN_ORDER <= o' <= MAX_ORDER && z in fa[o'] ==> !(x <= z < x + Span(o))
  {
    forall o', z | MIN_ORDER <= o' <= MAX_ORDER && z in fa[o']
      ensures !(x <= z < x + Span(o))
    {
      if x <= z < x + Span(o) {
        BlocksDisjoint(lvl, z, o', x, o, z);
      }
    }
  }

  /**
   * Splitting the allocated block `x` of order `k + 1` into halves: the right half
   * (`x + Span(k)`) is pushed onto `free_area[k]`, the left one keeps being
   * allocated with order `k` recorded.
   */
  lemma SplitStep(pages: seq<Page>, fa: seq<seq<int>>, lvl: seq<int>, x: int, k: int)
    requires Inv(pages, fa, lvl, -1) && MIN_ORDER <= k < MAX_ORDER
    requires IsBlock(lvl, x, k + 1) && x !in fa[k + 1]
    ensures var lvl' := SetLevel(lvl, x, k + 1, k);
      Inv(SetOrder(pages, x, k), fa[k := [x + Span(k)] + fa[k]], lvl', -1) &&
      IsBlock(lvl', x, k) && x !in fa[k]
  {
    var lvl' := SetLevel(lvl, x, k + 1, k);
    BlockFits(x, k + 1);
    BlockCovers(lvl, x, k + 1);
    SetLevelConsistent(lvl, x, k + 1, k);
    SplitLists(fa, lvl, x, k);
    SplitUsed(pages, fa, lvl, x, k);
  }

  /** The free lists after a split are consistent with the new partition. */
  lemma SplitLists(fa: seq<seq<int>>, lvl: seq<int>, x: int, k: int)
    requires InRange(fa) && Consistent(lvl) && FreeOk(fa, lvl) && Distinct(fa) && NoFreeBuddies(fa)
    requires MIN_ORDER <= k < MAX_ORDER && IsBlock(lvl, x, k + 1) && x !in fa[k + 1]
    ensures var lvl' := SetLevel(lvl, x, k + 1, k); var fa' := fa[k := [x + Span(k)] + fa[k]];
      InRange(fa') && Levels(lvl') && FreeOk(fa', lvl') && Distinct(fa') && NoFreeBuddies(fa') &&
      IsBlock(lvl', x, k) && x !in fa[k]
  {
    var y := x + Span(k);
    var lvl' := SetLevel(lvl, x, k + 1, k);
    var fa' := fa[k := [y] + fa[k]];
    SpanNext(k);
    Halves(x, k);
    BlockFits(x, k + 1);
    NoFreeInside(fa, lvl, x, k + 1);
    assert lvl[y] == k + 1 by { InBlock(y, x, k + 1); }
    assert y !in fa[k];
    assert x !in fa[k];
    NoBuddyPushed(fa[k], x, y, k);
    assert Levels(lvl');
    assert FreeOk(fa', lvl');
    assert NoDups(fa'[k]);
    assert NoFreeBuddies(fa');
  }

  /**
   * The right half `y` of a split, whose buddy `x` is not listed, is the buddy
   * of no listed block either.
   */
  lemma NoBuddyPushed(list: seq<int>, x: int, y: int, k: int)
    requires MIN_ORDER <= k && 0 <= x && y == x + Span(k) && x % Span(k + 1) == 0 && x !in list
    requires forall z :: z in list ==> z >= 0
    ensures y >= 0 && BuddyPage(y, k) == x
    ensures forall z :: z in list ==> BuddyPage(z, k) != y
  {
    Halves(x, k);
    BuddyPageForm(y, k);
    forall z | z in list ensures BuddyPage(z, k) != y
    {
      if BuddyPage(z, k) == y {
        XorInvolution(z, Span(k));
      }
    }
  }

  /** The page table after a split records the order of every allocated block. */
  lemma SplitUsed(pages: seq<Page>, fa: seq<seq<int>>, lvl: seq<int>, x: int, k: int)
    requires |pages| == N_PAGES && InRange(fa) && Consistent(lvl) && UsedOk(pages, fa, lvl, -1)
    requires MIN_ORDER <= k < MAX_ORDER && IsBlock(lvl, x, k + 1)
    ensures var lvl' := SetLevel(lvl, x, k + 1, k); var fa' := fa[k := [x + Span(k)] + fa[k]];
      InRange(fa') && UsedOk(SetOrder(pages, x, k), fa', lvl', -1)
  {
    var lvl' := SetLevel(lvl, x, k + 1, k);
    var fa' := fa[k := [x + Span(k)] + fa[k]];
    var pages' := SetOrder(pages, x, k);
    SpanNext(k);
    BlockFits(x, k + 1);
    assert InRange(fa');
    forall b | 0 <= b < N_PAGES && b % Span(lvl'[b]) == 0 && b !in fa'[lvl'[b]]
      ensures pages'[b].blockSizeOrder == lvl'[b]
    {
      if x <= b < x + Span(k + 1) {
        OnlyHalves(b, x, k);
      }
    }
  }

  /** The lower of two buddies, where the merged block starts (buddy.c line 262-267). */
  function MergedBase(c: int, d: int): int
  {
    if c > d then d else c
  }

  /** Two buddy blocks of order `o` together cover their order-`o + 1` parent. */
  lemma PairCovers(lvl: seq<int>, c: int, o: int)
    requires Consistent(lvl) && MIN_ORDER <= o < MAX_ORDER && IsBlock(lvl, c, o)
    requires IsBlock(lvl, BuddyPage(c, o), o)
    ensures var m := MergedBase(c, BuddyPage(c, o));
      m % Span(o + 1) == 0 && m + Span(o + 1) <= N_PAGES && Covers(lvl, m, o + 1)
  {
    var d := BuddyPage(c, o);
    var m := MergedBase(c, d);
    MergeBase(c, o);
    SpanNext(o);
    BlockFits(m, o + 1);
    forall q | 0 <= q < N_PAGES && m <= q < m + Span(o + 1)
      ensures m <= BlockBase(q, lvl[q]) && BlockBase(q, lvl[q]) + Span(lvl[q]) <= m + Span(o + 1)
    {
      CoverageAt(lvl, q);
      if c <= q < c + Span(o) {
        BlocksDisjoint(lvl, BlockBase(q, lvl[q]), lvl[q], c, o, q);
      } else {
        BlocksDisjoint(lvl, BlockBase(q, lvl[q]), lvl[q], d, o, q);
      }
    }
  }

  /**
   * Merging the block `c` of order `o` that is being freed with its free buddy:
   * the buddy leaves `free_area[o]` and the merge continues with the parent block
   * of order `o + 1` starting at the lower of the two.
   */
  lemma MergeStep(pages: seq<Page>, fa: seq<seq<int>>, lvl: seq<int>, c: int, o: int)
    requires Inv(pages, fa, lvl, c) && MIN_ORDER <= o <= MAX_ORDER
    requires IsBlock(lvl, c, o) && c !in fa[o] && BuddyPage(c, o) in fa[o]
    ensures o < MAX_ORDER
    ensures var d := BuddyPage(c, o); var m := MergedBase(c, d);
      var lvl' := SetLevel(lvl, m, o + 1, o + 1); var fa' := fa[o := Remove(fa[o], d)];
      Inv(pages, fa', lvl', m) && IsBlock(lvl', m, o + 1) && m !in fa'[o + 1]
  {
    if o == MAX_ORDER {
      BuddyAtTop(c);
    }
    var d := BuddyPage(c, o);
    var m := MergedBase(c, d);
    PairCovers(lvl, c, o);
    SetLevelConsistent(lvl, m, o + 1, o + 1);
    MergeLists(fa, lvl, c, o);
    MergeUsed(pages, fa, lvl, c, o);
  }

  /** The free lists after a merge are consistent with the new partition. */
  lemma MergeLists(fa: seq<seq<int>>, lvl: seq<int>, c: int, o: int)
    requires InRange(fa) && Consistent(lvl) && FreeOk(fa, lvl) && Distinct(fa) && NoFreeBuddies(fa)
    requires MIN_ORDER <= o < MAX_ORDER && IsBlock(lvl, c, o) && c !in fa[o] && BuddyPage(c, o) in fa[o]
    ensures var d := BuddyPage(c, o); var m := MergedBase(c, d);
      var lvl' := SetLevel(lvl, m, o + 1, o + 1); var fa' := fa[o := Remove(fa[o], d)];
      InRange(fa') && Levels(lvl') && FreeOk(fa', lvl') && Distinct(fa') && NoFreeBuddies(fa') &&
      IsBlock(lvl', m, o + 1) && m !in fa'[o + 1] &&
      forall y :: y in fa'[o] <==> y in fa[o] && y != d
  {
    var d := BuddyPage(c, o);
    var m := MergedBase(c, d);
    var lvl' := SetLevel(lvl, m, o + 1, o + 1);
    var fa' := fa[o := Remove(fa[o], d)];
    MergeBase(c, o);
    SpanNext(o);
    BlockFits(m, o + 1);
    RemoveMember(fa[o], d);
    NoFreeInside(fa, lvl, c, o);
    forall o', z | MIN_ORDER <= o' <= MAX_ORDER && z in fa'[o']
      ensures z in fa[o'] && !(m <= z < m + Span(o + 1))
    {
      if d <= z < d + Span(o) {
        BlocksDisjoint(lvl, z, o', d, o, z);
      }
    }
    assert Levels(lvl');
    assert FreeOk(fa', lvl');
    assert lvl[m] == o;
    assert m !in fa[o + 1];
  }

  /** The page table after a merge records the order of every allocated block but the merged one. */
  lemma MergeUsed(pages: seq<Page>, fa: seq<seq<int>>, lvl: seq<int>, c: int, o: int)
    requires |pages| == N_PAGES && InRange(fa) && Consistent(lvl) && UsedOk(pages, fa, lvl, c)
    requires MIN_ORDER <= o < MAX_ORDER && IsBlock(lvl, c, o)
    requires var fa' := fa[o := Remove(fa[o], BuddyPage(c, o))];
      InRange(fa') && forall y :: y in fa'[o] <==> y in fa[o] && y != BuddyPage(c, o)
    ensures var d := BuddyPage(c, o); var m := MergedBase(c, d);
      UsedOk(pages, fa[o := Remove(fa[o], d)], SetLevel(lvl, m, o + 1, o + 1), m)
  {
    var d := BuddyPage(c, o);
    var m := MergedBase(c, d);
    var lvl' := SetLevel(lvl, m, o + 1, o + 1);
    var fa' := fa[o := Remove(fa[o], d)];
    MergeBase(c, o);
    SpanNext(o);
    forall b | 0 <= b < N_PAGES && b != m && b % Span(lvl'[b]) == 0 && b !in fa'[lvl'[b]]
      ensures pages[b].blockSizeOrder == lvl'[b]
    {
      if m <= b < m + Span(o + 1) {
        InBlock(b, m, o + 1);
        AlignedEq(b, m, o + 1);
      }
    }
  }

  /**
   * Ending buddy_free: the block `c` of order `o` whose buddy is not free is
   * pushed onto `free_area[o]` and its base page gets order -1 (buddy.c line 248-257).
   */
  lemma PushStep(pages: seq<Page>, fa: seq<seq<int>>, lvl: seq<int>, c: int, o: int)
    requires Inv(pages, fa, lvl, c) && MIN_ORDER <= o <= MAX_ORDER
    requires IsBlock(lvl, c, o) && c !in fa[o]
    requires o == MAX_ORDER || BuddyPage(c, o) !in fa[o]
    ensures Inv(SetOrder(pages, c, -1), fa[o := [c] + fa[o]], lvl, -1)
  {
    var fa' := fa[o := [c] + fa[o]];
    if o < MAX_ORDER {
      BuddyPageForm(c, o);
      forall z | z in fa[o] ensures BuddyPage(z, o) != c
      {
        if BuddyPage(z, o) == c {
          XorInvolution(z, Span(o));
        }
      }
    }
    assert NoDups(fa'[o]);
    assert NoFreeBuddies(fa');
  }

  // ---------------------------------------------------------------------------
  // What buddy_alloc and buddy_free compute

  /** Every entry of `Remove(s, x)` is an entry of `s`. */
  lemma {:induction false} RemoveSub(s: seq<int>, x: int)
    ensures forall y :: y in Remove(s, x) ==> y in s
  {
    if s != [] && s[0] != x {
      RemoveSub(s[1..], x);
    }
  }

  /**
   * The free lists, and the block finally inserted, after buddy_free has
   * coalesced page `p` of order `o` upwards (buddy.c line 231-271). At order
   * `MAX_ORDER` the buddy lies past the arena, so the merging always stops there.
   */
  function Coalesce(lists: seq<seq<int>>, p: int, o: int): (r: Coalesced)
    requires InRange(lists) && MIN_ORDER <= o <= MAX_ORDER && 0 <= p < N_PAGES
    ensures o <= r.order <= MAX_ORDER && 0 <= r.base < N_PAGES && |r.lists| == MAX_ORDER + 1
    ensures r.lists[r.order] == [r.base] + lists[r.order]
    ensures forall j :: 0 <= j <= MAX_ORDER && (j < o || r.order < j) ==> r.lists[j] == lists[j]
    decreases MAX_ORDER - o
  {
    var d := BuddyPage(p, o);
    if d in lists[o] then
      TopHasNoBuddy(lists, p);
      RemoveSub(lists[o], d);
      Coalesce(lists[o := Remove(lists[o], d)], MergedBase(p, d), o + 1)
    else
      Coalesced(lists[o := [p] + lists[o]], p, o)
  }

  /** The buddy of any page at order `MAX_ORDER` is on no free list: it is past the arena. */
  lemma TopHasNoBuddy(lists: seq<seq<int>>, p: int)
    requires InRange(lists) && 0 <= p < N_PAGES
    ensures BuddyPage(p, MAX_ORDER) !in lists[MAX_ORDER]
  {
    BuddyAtTop(p);
  }

  /** A page in the same block as `q` at order `o` is so at every higher order. */
  lemma {:induction false} SameBlockUpTo(p: nat, q: nat, o: int, r: int)
    requires MIN_ORDER <= o <= r && p / Span(o) == q / Span(o)
    ensures p / Span(r) == q / Span(r)
    decreases r - o
  {
    if o < r {
      SameBlockUp(p, q, o);
      SameBlockUpTo(p, q, o + 1, r);
    }
  }

  /** The block that coalescing an aligned block inserts is aligned and contains that block. */
  lemma {:induction false} CoalesceContains(lists: seq<seq<int>>, p: int, o: int)
    requires InRange(lists) && MIN_ORDER <= o <= MAX_ORDER && 0 <= p < N_PAGES && p % Span(o) == 0
    ensures var r := Coalesce(lists, p, o);
      r.base % Span(r.order) == 0 && r.base <= p < r.base + Span(r.order)
    decreases MAX_ORDER - o
  {
    var d := BuddyPage(p, o);
    if d in lists[o] {
      TopHasNoBuddy(lists, p);
      RemoveSub(lists[o], d);
      var m := MergedBase(p, d);
      var lists' := lists[o := Remove(lists[o], d)];
      MergeBase(p, o);
      CoalesceContains(lists', m, o + 1);
      var r := Coalesce(lists', m, o + 1);
      ContainedUp(p, m, o, r.base, r.order);
      assert Coalesce(lists, p, o) == r;
    }
  }

  /**
   * A page of the order-(o+1) block at `m` lies in every aligned block that
   * contains `m` at order `o + 1` or above.
   */
  lemma ContainedUp(p: nat, m: nat, o: int, b: nat, k: int)
    requires MIN_ORDER <= o && o + 1 <= k && m % Span(o + 1) == 0 && m <= p < m + Span(o + 1)
    requires b % Span(k) == 0 && b <= m < b + Span(k)
    ensures b <= p < b + Span(k)
  {
    InBlock(p, m, o + 1);
    SameBlockUpTo(p, m, o + 1, k);
    InBlock(p, b, k);
    InBlock(m, b, k);
  }

  /** The first non-empty free list at order `o` or above (buddy.c line 153-156). */
  function FirstFree(fa: seq<seq<int>>, o: int): (r: Option<int>)
    requires |fa| == MAX_ORDER + 1 && MIN_ORDER <= o
    ensures r.Some? ==> o <= r.value <= MAX_ORDER && fa[r.value] != [] && forall j :: o <= j < r.value ==> fa[j] == []
    ensures r.None? ==> forall j :: o <= j <= MAX_ORDER ==> fa[j] == []
    decreases MAX_ORDER + 1 - o
  {
    if o > MAX_ORDER then None
    else if fa[o] != [] then Some(o)
    else FirstFree(fa, o + 1)
  }

  /** The order the loop at buddy.c line 143-145 reaches when started at `o`. */
  function OrderFrom(size: int, o: int): (r: int)
    requires MIN_ORDER <= o <= MAX_ORDER + 1
    ensures o <= r <= MAX_ORDER + 1 && (r <= MAX_ORDER ==> size <= Pow2(r))
    ensures forall j :: o <= j < r ==> Pow2(j) < size
    decreases MAX_ORDER + 1 - o
  {
    if o <= MAX_ORDER && Pow2(o) < size then OrderFrom(size, o + 1) else o
  }

  /** The order buddy_alloc serves a request of `size` bytes with: the least that holds it. */
  function OrderFor(size: int): (r: int)
    requires 0 < size <= ARENA_SIZE
    ensures MIN_ORDER <= r <= MAX_ORDER && size <= Pow2(r)
    ensures forall j :: MIN_ORDER <= j < r ==> Pow2(j) < size
  {
    Pow2Page();
    OrderFrom(size, MIN_ORDER)
  }

  /**
   * The free lists once buddy_alloc has taken block `b` off list `i` and split it
   * down to order `k`: each order `j` in `k .. i - 1` got the right half at
   * `b + Span(j)` pushed on its head.
   */
  function AllocLists(fa: seq<seq<int>>, b: int, i: int, k: int): (r: seq<seq<int>>)
    requires |fa| == MAX_ORDER + 1 && MIN_ORDER <= k <= i <= MAX_ORDER && fa[i] != []
    ensures |r| == MAX_ORDER + 1
    ensures r[i] == fa[i][1..] && |r[i]| == |fa[i]| - 1
    ensures k < i ==> r[k] == [b + Span(k)] + fa[k]
  {
    seq(MAX_ORDER + 1, j requires 0 <= j <= MAX_ORDER =>
      if j == i then fa[i][1..] else if k <= j < i then [b + Span(j)] + fa[j] else fa[j])
  }

  /**
   * The whole effect of an allocation on the lists: every order from `k` up
   * to `i - 1` has one right half more, at its head, and every list outside
   * `k .. i` is untouched.
   */
  lemma AllocListsShape(fa: seq<seq<int>>, b: int, i: int, k: int)
    requires |fa| == MAX_ORDER + 1 && MIN_ORDER <= k <= i <= MAX_ORDER && fa[i] != []
    ensures var r := AllocLists(fa, b, i, k);
      forall j :: k <= j < i ==> r[j] != [] && r[j][0] == b + Span(j) && r[j][1..] == fa[j]
    ensures var r := AllocLists(fa, b, i, k);
      forall j :: 0 <= j < k || i < j <= MAX_ORDER ==> r[j] == fa[j]
  {
  }

  /** One more split pushes the next right half onto the next list down. */
  lemma AllocListsStep(fa: seq<seq<int>>, b: int, i: int, k: int)
    requires |fa| == MAX_ORDER + 1 && MIN_ORDER <= k < i <= MAX_ORDER && fa[i] != []
    ensures var l := AllocLists(fa, b, i, k + 1); l[k := [b + Span(k)] + l[k]] == AllocLists(fa, b, i, k)
  {
    var l := AllocLists(fa, b, i, k + 1);
    assert forall j :: 0 <= j <= MAX_ORDER ==> l[k := [b + Span(k)] + l[k]][j] == AllocLists(fa, b, i, k)[j];
  }

  /**
   * Coalescing the left block of a split puts every right half back where it
   * came from and restores the block that was taken, in place and order.
   */
  lemma {:induction false} RoundTripFrom(fa: seq<seq<int>>, b: int, i: int, k: int)
    requires InRange(fa) && MIN_ORDER <= k <= i <= MAX_ORDER && fa[i] != [] && b == fa[i][0]
    requires 0 <= b < N_PAGES && b % Span(i) == 0 && (i < MAX_ORDER ==> BuddyPage(b, i) !in fa[i])
    ensures InRange(AllocLists(fa, b, i, k))
    ensures Coalesce(AllocLists(fa, b, i, k), b, k) == Coalesced(fa, b, i)
    decreases i - k
  {
    AllocListsInRange(fa, b, i, k);
    if k == i {
      RoundTripLast(fa, b, i);
    } else {
      AllocListsInRange(fa, b, i, k + 1);
      RoundTripSplit(fa, b, i, k);
      RoundTripFrom(fa, b, i, k + 1);
      var l, l' := AllocLists(fa, b, i, k), AllocLists(fa, b, i, k + 1);
      assert Coalesce(l, b, k) == Coalesce(l', b, k + 1) == Coalesced(fa, b, i);
    }
  }

  /** The right halves pushed by a split all lie inside the arena. */
  lemma AllocListsInRange(fa: seq<seq<int>>, b: int, i: int, k: int)
    requires InRange(fa) && MIN_ORDER <= k <= i <= MAX_ORDER && fa[i] != [] && b == fa[i][0]
    requires 0 <= b < N_PAGES && b % Span(i) == 0
    ensures InRange(AllocLists(fa, b, i, k))
  {
    var l := AllocLists(fa, b, i, k);
    BlockFits(b, i);
    forall j | k <= j < i ensures b + Span(j) < N_PAGES
    {
      SpanLess(j, i);
    }
    assert forall y :: y in fa[i][1..] ==> y in fa[i];
  }

  /** With nothing split, coalescing finds no free buddy and puts the block back at the head of its list. */
  lemma RoundTripLast(fa: seq<seq<int>>, b: int, i: int)
    requires InRange(fa) && MIN_ORDER <= i <= MAX_ORDER && fa[i] != [] && b == fa[i][0]
    requires 0 <= b < N_PAGES && b % Span(i) == 0 && (i < MAX_ORDER ==> BuddyPage(b, i) !in fa[i])
    requires InRange(AllocLists(fa, b, i, i))
    ensures Coalesce(AllocLists(fa, b, i, i), b, i) == Coalesced(fa, b, i)
  {
    var l := AllocLists(fa, b, i, i);
    if i == MAX_ORDER {
      TopHasNoBuddy(fa, b);
    }
    assert forall y :: y in fa[i][1..] ==> y in fa[i];
    assert BuddyPage(b, i) !in l[i];
    assert [b] + fa[i][1..] == fa[i];
    assert l[i := [b] + l[i]] == fa;
  }

  /** Below the taken order, coalescing meets the right half of the split and merges it back. */
  lemma RoundTripSplit(fa: seq<seq<int>>, b: int, i: int, k: int)
    requires InRange(fa) && MIN_ORDER <= k < i <= MAX_ORDER && fa[i] != [] && b == fa[i][0]
    requires 0 <= b < N_PAGES && b % Span(i) == 0
    requires InRange(AllocLists(fa, b, i, k)) && InRange(AllocLists(fa, b, i, k + 1))
    ensures Coalesce(AllocLists(fa, b, i, k), b, k) == Coalesce(AllocLists(fa, b, i, k + 1), b, k + 1)
  {
    var l := AllocLists(fa, b, i, k);
    var d := BuddyPage(b, k);
    AlignedBelow(b, k, i);
    BuddyPageForm(b, k);
    assert d == b + Span(k) && l[k] == [d] + fa[k];
    assert Remove(l[k], d) == fa[k];
    assert l[k := fa[k]] == AllocLists(fa, b, i, k + 1);
    assert MergedBase(b, d) == b;
  }

  /**
   * buddy_free of the block buddy_alloc has just returned restores every
   * free list exactly (buddy.c line 127-272).
   */
  lemma AllocFreeRoundTrip(pages: seq<Page>, fa: seq<seq<int>>, lvl: seq<int>, size: int)
    requires Inv(pages, fa, lvl, -1) && 0 < size <= ARENA_SIZE && FirstFree(fa, OrderFor(size)).Some?
    ensures var o := OrderFor(size); var i := FirstFree(fa, o).value;
      0 <= fa[i][0] < N_PAGES && InRange(AllocLists(fa, fa[i][0], i, o)) && Coalesce(AllocLists(fa, fa[i][0], i, o), fa[i][0], o).lists == fa
  {
    var o := OrderFor(size);
    var i := FirstFree(fa, o).value;
    var b := fa[i][0];
    assert b in fa[i];
    RoundTripFrom(fa, b, i, o);
  }

  // ---------------------------------------------------------------------------
  // The initial state (buddy_init)

  /** Page `i` after buddy_init: order -1, except page 0, which heads the whole arena. */
  function InitPage(i: int): Page
  {
    Page(if i == 0 then MAX_ORDER else -1, i, PageToAddr(i))
  }

  /** The free lists after buddy_init: the whole arena as one free block of order `MAX_ORDER`. */
  function InitLists(): seq<seq<int>>
  {
    seq(MAX_ORDER + 1, j => if j == MAX_ORDER then [0] else [])
  }

  /** The state buddy_init sets up satisfies the invariant, with one block spanning the arena. */
  lemma InitInv()
    ensures Inv(seq(N_PAGES, InitPage), InitLists(), seq(N_PAGES, _ => MAX_ORDER), -1)
  {
    var lvl := seq(N_PAGES, _ => MAX_ORDER);
    var fa := InitLists();
    Pow2Page();
    assert Span(MAX_ORDER) == N_PAGES by {
      assert MAX_ORDER - MIN_ORDER == 8;
    }
    assert fa[MAX_ORDER] == [0];
    forall o, x | MIN_ORDER <= o <= MAX_ORDER && x in fa[o] ensures x == 0 && o == MAX_ORDER
    {
    }
    forall b | 0 <= b < N_PAGES && b % Span(lvl[b]) == 0 ensures b == 0
    {
    }
  }
}
