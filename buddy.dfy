/**
 * The buddy allocator of project3/buddy.c: a 1 MiB arena of 256 pages of
 * 4 KiB, a page table `g_pages` and one free list per order 12 .. 20.
 * Addresses are byte offsets from the start of the arena.
 */
module Buddy {
  import opened Wrappers
  import opened BuddyAddress
  import opened BuddyState

  class BuddyAllocator {
    /** `g_pages`: one entry per page. */
    const pages: array<Page>
    /** `free_area`: for every order, the base pages of its free blocks, head first. */
    var freeArea: seq<seq<int>>
    /** For every page, the order of the block (free or allocated) that holds it. */
    ghost var level: seq<int>

    ghost predicate Valid()
      reads this, pages
    {
      pages.Length == N_PAGES && Inv(pages[..], freeArea, level, -1)
    }

    /** buddy_init: every page entry is reset and the whole arena is one free block. */
    constructor Init()
      ensures Valid() && fresh(pages)
      ensures freeArea == InitLists()
      ensures pages[..] == seq(N_PAGES, InitPage)
    {
      var a := new Page[N_PAGES];
      var i := 0;
      while i < N_PAGES
        invariant 0 <= i <= N_PAGES
        invariant forall j :: 0 <= j < i ==> a[j] == Page(-1, j, PageToAddr(j))
      {
        a[i] := Page(-1, i, PageToAddr(i));
        i := i + 1;
      }
      a[0] := a[0].(blockSizeOrder := MAX_ORDER);
      pages := a;
      freeArea := seq(MAX_ORDER + 1, _ => []);
      level := seq(N_PAGES, _ => MAX_ORDER);
      new;
      freeArea := freeArea[MAX_ORDER := [0] + freeArea[MAX_ORDER]];
      assert forall j :: 0 <= j <= MAX_ORDER ==> freeArea[j] == InitLists()[j];
      assert pages[..] == seq(N_PAGES, InitPage);
      InitInv();
    }

    /**
     * buddy_alloc: `None` (NULL) for a size outside `1 .. 2^20` or when no free
     * block is large enough, with nothing changed; otherwise the offset of a
     * block of the least order that holds `size`.
     */
    method Alloc(size: int) returns (r: Option<int>)
      requires Valid()
      modifies this, pages
      ensures Valid()
      ensures size <= 0 || ARENA_SIZE < size ==>
        r == None && freeArea == old(freeArea) && pages[..] == old(pages[..])
      ensures 0 < size <= ARENA_SIZE && FirstFree(old(freeArea), OrderFor(size)).None? ==>
        r == None && freeArea == old(freeArea) && pages[..] == old(pages[..])
      ensures 0 < size <= ARENA_SIZE && FirstFree(old(freeArea), OrderFor(size)).Some? ==>
        var o := OrderFor(size);
        var i := FirstFree(old(freeArea), o).value;
        var b := old(freeArea)[i][0];
        0 <= b < N_PAGES && r == Some(PageToAddr(b)) &&
        freeArea == AllocLists(old(freeArea), b, i, o) &&
        pages[..] == SetOrder(old(pages[..]), b, o) &&
        level[b] == o && Allocated(level, freeArea, b) &&
        r.value % Pow2(o) == 0 && r.value + Pow2(o) <= ARENA_SIZE
    {
      if size > ARENA_SIZE || size <= 0 {
        return None;
      }
      var sizeOrder := MIN_ORDER;
      Pow2Page();
      while sizeOrder <= MAX_ORDER && Pow2(sizeOrder) < size
        invariant MIN_ORDER <= sizeOrder <= MAX_ORDER + 1
        invariant OrderFrom(size, sizeOrder) == OrderFor(size)
        decreases MAX_ORDER + 1 - sizeOrder
      {
        sizeOrder := sizeOrder + 1;
      }
      var i := sizeOrder;
      while i <= MAX_ORDER
        invariant sizeOrder <= i <= MAX_ORDER + 1
        invariant FirstFree(freeArea, sizeOrder) == FirstFree(freeArea, i)
        invariant freeArea == old(freeArea) && pages[..] == old(pages[..]) && level == old(level)
      {
        if freeArea[i] != [] {
          ghost var fa0 := freeArea;
          ghost var pages0 := pages[..];
          var left := TakeBlock(i);
          var k := i;
          while k > sizeOrder
            invariant sizeOrder <= k <= i && 0 <= left < N_PAGES && left == fa0[i][0]
            invariant Valid() && IsBlock(level, left, k) && left !in freeArea[k]
            invariant freeArea == AllocLists(fa0, left, i, k)
            invariant pages[..] == SetOrder(pages0, left, k)
          {
            k := k - 1;
            ghost var before := pages[..];
            SplitBlock(left, k);
            AllocListsStep(fa0, left, i, k);
            assert SetOrder(before, left, k) == SetOrder(pages0, left, k);
          }
          assert left in fa0[i];
          PageAligned(left, sizeOrder, i);
          return Some(PageToAddr(pages[left].index));
        }
        i := i + 1;
      }
      return None;
    }

    /** Taking the head of `free_area[i]` for allocation, recording order `i` (buddy.c line 174-177, 196). */
    method TakeBlock(i: int) returns (left: int)
      requires Valid() && MIN_ORDER <= i <= MAX_ORDER && freeArea[i] != []
      modifies this, pages
      ensures Valid() && left == old(freeArea)[i][0] && 0 <= left < N_PAGES
      ensures IsBlock(level, left, i) && left !in freeArea[i] && level == old(level)
      ensures freeArea == old(freeArea)[i := old(freeArea)[i][1..]]
      ensures pages[..] == SetOrder(old(pages[..]), left, i)
    {
      left := freeArea[i][0];
      assert left in freeArea[i];
      TakeHead(pages[..], freeArea, level, i);
      freeArea := freeArea[i := freeArea[i][1..]];
      pages[left] := pages[left].(blockSizeOrder := i);
    }

    /**
     * One level of buddy_alloc's recursion (buddy.c line 185-196): block `left`
     * of order `k + 1` is split, its right half pushed onto `free_area[k]` and
     * the left half given order `k`.
     */
    method SplitBlock(left: int, k: int)
      requires Valid() && MIN_ORDER <= k < MAX_ORDER && IsBlock(level, left, k + 1) && left !in freeArea[k + 1]
      modifies this, pages
      ensures Valid() && IsBlock(level, left, k) && left !in freeArea[k]
      ensures freeArea == old(freeArea)[k := [left + Span(k)] + old(freeArea)[k]]
      ensures pages[..] == SetOrder(old(pages[..]), left, k)
    {
      SpanBytes(k);
      var right := pages[left].index + Pow2(k) / PAGE_SIZE;
      SplitStep(pages[..], freeArea, level, left, k);
      level := SetLevel(level, left, k + 1, k);
      freeArea := freeArea[k := [right] + freeArea[k]];
      pages[left] := pages[left].(blockSizeOrder := k);
    }

    /**
     * buddy_free of the base address of an allocated block: the block is
     * coalesced with its free buddies upwards and the resulting block pushed
     * onto its free list, its base page getting order -1.
     */
    method Free(addr: int)
      requires Valid()
      requires 0 <= addr < ARENA_SIZE && addr % PAGE_SIZE == 0 && Allocated(level, freeArea, addr / PAGE_SIZE)
      modifies this, pages
      ensures Valid()
      ensures var p := addr / PAGE_SIZE;
        MIN_ORDER <= old(pages[p].blockSizeOrder) <= MAX_ORDER &&
        var c := Coalesce(old(freeArea), p, old(pages[p].blockSizeOrder));
        freeArea == c.lists && pages[..] == SetOrder(old(pages[..]), c.base, -1) &&
        c.base % Span(c.order) == 0 && c.base <= p < c.base + Span(c.order)
    {
      var index := AddrToPage(addr);
      var order := pages[index].blockSizeOrder;
      var a := addr;
      AddrPageRoundTrip(addr);
      CoalesceContains(freeArea, index, order);
      ghost var p0, o0 := index, order;
      while true
        invariant 0 <= index < N_PAGES && a == PageToAddr(index) && MIN_ORDER <= order <= MAX_ORDER
        invariant pages.Length == N_PAGES && Inv(pages[..], freeArea, level, index)
        invariant IsBlock(level, index, order) && index !in freeArea[order]
        invariant pages[..] == old(pages[..])
        invariant o0 == old(pages[p0].blockSizeOrder) && p0 == addr / PAGE_SIZE
        invariant Coalesce(freeArea, index, order) == Coalesce(old(freeArea), p0, o0)
        decreases MAX_ORDER - order
      {
        var temp, j := FindBuddy(a, index, order);
        if temp == None {
          PushBlock(index, order);
          return;
        } else if pages[temp.value].blockAddr != BuddyAddr(a, order) {
          PushBlock(index, order);
          return;
        }
        a, index := MergeBuddy(a, index, order, j);
        order := order + 1;
      }
    }

    /**
     * The search of `free_area[order]` for the buddy of the block at `a`
     * (buddy.c line 232-245): `temp` is the entry the search stopped at, the
     * buddy if it is listed and otherwise the last entry, and `None` (NULL)
     * for an empty list.
     */
    method FindBuddy(a: int, index: int, order: int) returns (temp: Option<int>, j: int)
      requires pages.Length == N_PAGES && PagesOk(pages[..]) && InRange(freeArea)
      requires MIN_ORDER <= order <= MAX_ORDER && 0 <= index < N_PAGES && a == PageToAddr(index)
      ensures temp == None <==> freeArea[order] == []
      ensures temp.Some? ==> 0 <= j < |freeArea[order]| && temp.value == freeArea[order][j] && 0 <= temp.value < N_PAGES
      ensures temp.Some? ==> (pages[temp.value].blockAddr == BuddyAddr(a, order) <==> temp.value == BuddyPage(index, order))
      ensures BuddyPage(index, order) in freeArea[order] ==>
        temp == Some(BuddyPage(index, order)) && forall k :: 0 <= k < j ==> freeArea[order][k] != BuddyPage(index, order)
      ensures BuddyPage(index, order) !in freeArea[order] && temp.Some? ==> j == |freeArea[order]| - 1
    {
      var list := freeArea[order];
      BuddyPageForm(index, order);
      ghost var d := BuddyPage(index, order);
      temp := None;
      j := 0;
      while j < |list|
        invariant 0 <= j <= |list|
        invariant temp == if j == 0 then None else Some(list[j - 1])
        invariant forall k :: 0 <= k < j ==> list[k] != d
      {
        assert list[j] in freeArea[order];
        temp := Some(list[j]);
        SameAddr(list[j], d);
        if pages[list[j]].blockAddr == BuddyAddr(a, order) {
          return;
        }
        j := j + 1;
      }
      if temp.Some? {
        j := j - 1;
        assert list[j] in freeArea[order];
        SameAddr(list[j], d);
      }
    }

    /**
     * Ending buddy_free (buddy.c line 248-251, 254-257): block `index`, whose
     * buddy is not free, gets order -1 and is pushed onto `free_area[order]`.
     */
    method PushBlock(index: int, order: int)
      requires pages.Length == N_PAGES && Inv(pages[..], freeArea, level, index)
      requires MIN_ORDER <= order <= MAX_ORDER && IsBlock(level, index, order) && index !in freeArea[order]
      requires order == MAX_ORDER || BuddyPage(index, order) !in freeArea[order]
      modifies this, pages
      ensures Valid() && level == old(level)
      ensures freeArea == old(freeArea)[order := [index] + old(freeArea)[order]]
      ensures pages[..] == SetOrder(old(pages[..]), index, -1)
    {
      PushStep(pages[..], freeArea, level, index, order);
      pages[index] := pages[index].(blockSizeOrder := -1);
      freeArea := freeArea[order := [index] + freeArea[order]];
    }

    /**
     * Merging block `index` with its free buddy, entry `j` of `free_area[order]`
     * (buddy.c line 262-270): the merge continues from the lower address, and
     * the buddy leaves its list.
     */
    method MergeBuddy(a: int, index: int, order: int, j: int) returns (a': int, index': int)
      requires pages.Length == N_PAGES && Inv(pages[..], freeArea, level, index)
      requires MIN_ORDER <= order <= MAX_ORDER && IsBlock(level, index, order) && index !in freeArea[order]
      requires a == PageToAddr(index) && 0 <= j < |freeArea[order]| && freeArea[order][j] == BuddyPage(index, order)
      requires forall k :: 0 <= k < j ==> freeArea[order][k] != BuddyPage(index, order)
      modifies this
      ensures order < MAX_ORDER && index' == MergedBase(index, BuddyPage(index, order)) && a' == PageToAddr(index')
      ensures freeArea == old(freeArea)[order := Remove(old(freeArea)[order], BuddyPage(index, order))]
      ensures level == SetLevel(old(level), index', order + 1, order + 1)
      ensures 0 <= index' < N_PAGES && Inv(pages[..], freeArea, level, index')
      ensures IsBlock(level, index', order + 1) && index' !in freeArea[order + 1]
    {
      var list := freeArea[order];
      var t := list[j];
      assert t in freeArea[order];
      MergeStep(pages[..], freeArea, level, index, order);
      RemoveAt(list, t, j);
      a', index' := a, index;
      if a > pages[t].blockAddr {
        a' := pages[t].blockAddr;
        index' := AddrToPage(a');
        PageAddrRoundTrip(t);
      }
      freeArea := freeArea[order := list[..j] + list[j + 1..]];
      level := SetLevel(level, index', order + 1, order + 1);
    }

    /**
     * buddy_dump: for every order 12 .. 20, the number of free blocks and the
     * block size in KiB. Nothing changes.
     */
    method Dump() returns (report: seq<(int, int)>)
      requires |freeArea| == MAX_ORDER + 1
      ensures |report| == MAX_ORDER - MIN_ORDER + 1
      ensures forall k :: 0 <= k < |report| ==>
        report[k] == (|freeArea[MIN_ORDER + k]|, Pow2(MIN_ORDER + k) / 1024)
    {
      report := [];
      var o := MIN_ORDER;
      while o <= MAX_ORDER
        invariant MIN_ORDER <= o <= MAX_ORDER + 1 && |report| == o - MIN_ORDER
        invariant forall k :: 0 <= k < |report| ==>
          report[k] == (|freeArea[MIN_ORDER + k]|, Pow2(MIN_ORDER + k) / 1024)
      {
        // The list_for_each walk of buddy_dump: one step per node of list o.
        var cnt := 0;
        while cnt < |freeArea[o]|
          invariant 0 <= cnt <= |freeArea[o]|
        {
          cnt := cnt + 1;
        }
        report := report + [(cnt, Pow2(o) / 1024)];
        o := o + 1;
      }
    }

    /** buddy_free of what buddy_alloc has just returned leaves the free lists as they were. */
    method AllocThenFree(size: int) returns (r: Option<int>)
      requires Valid()
      modifies this, pages
      ensures Valid() && freeArea == old(freeArea)
    {
      ghost var fa, pg, lv := freeArea, pages[..], level;
      r := Alloc(size);
      if r.Some? {
        AllocFreeRoundTrip(pg, fa, lv, size);
        var b := fa[FirstFree(fa, OrderFor(size)).value][0];
        PageAddrRoundTrip(b);
        DivUnique(r.value, PAGE_SIZE, b, 0);
        Free(r.value);
      }
    }
  }

  /** buddy_dump right after buddy_init: one free block of 1024 KiB and none of any other size. */
  method InitThenDump() returns (report: seq<(int, int)>)
    ensures report == [(0, 4), (0, 8), (0, 16), (0, 32), (0, 64), (0, 128), (0, 256), (0, 512), (1, 1024)]
  {
    var a := new BuddyAllocator.Init();
    report := a.Dump();
    Pow2Page();
    assert Pow2(13) == 8192 && Pow2(14) == 16384 && Pow2(15) == 32768 && Pow2(16) == 65536;
    assert Pow2(17) == 131072 && Pow2(18) == 262144 && Pow2(19) == 524288;
  }

  /** The page address of two pages is the same exactly when the pages are. */
  lemma SameAddr(x: int, y: int)
    ensures PageToAddr(x) == PageToAddr(y) <==> x == y
  {
  }

  /** A block of order `i` is aligned, in bytes, to every order `o <= i`, and lies in the arena. */
  lemma PageAligned(b: int, o: int, i: int)
    requires 0 <= b < N_PAGES && MIN_ORDER <= o <= i <= MAX_ORDER && b % Span(i) == 0
    ensures PageToAddr(b) % Pow2(o) == 0 && PageToAddr(b) + Pow2(o) <= ARENA_SIZE
  {
    AlignedBelow(b, o, i);
    BlockFits(b, o);
    SpanBytes(o);
    var sp := Span(o);
    var t := b / sp;
    DivExact(b, sp);
    MulAssoc(t, sp, PAGE_SIZE);
    DivUnique(PageToAddr(b), Pow2(o), t, 0);
    Pow2Page();
  }
}
