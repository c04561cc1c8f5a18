/**
 * The arena geometry of the buddy allocator and its address macros
 * (`PAGE_TO_ADDR`, `ADDR_TO_PAGE`, `BUDDY_ADDR`).
 *
 * Addresses are byte offsets from the start of the arena (`g_memory`), so the
 * macros' "+ g_memory" and "- g_memory" disappear. `BUDDY_ADDR` XORs the offset
 * with `1 << o`; XOR on natural numbers is defined here bit by bit.
 */
module BuddyAddress {

  const MIN_ORDER: int := 12
  const MAX_ORDER: int := 20
  /** `PAGE_SIZE` is `1 << MIN_ORDER`. */
  const PAGE_SIZE: int := 4096
  /** Number of entries of the page table: `(1 << MAX_ORDER) / PAGE_SIZE`. */
  const N_PAGES: int := 256
  /** Size of the arena in bytes: `1 << MAX_ORDER`. */
  const ARENA_SIZE: int := 1048576

  /** `1 << n`. */
  function Pow2(n: nat): (r: nat)
    ensures r >= 1
  {
    if n == 0 then 1 else 2 * Pow2(n - 1)
  }

  /** Number of pages in a block of order `o`. */
  function Span(o: int): (r: nat)
    requires MIN_ORDER <= o
    ensures r >= 1
  {
    Pow2(o - MIN_ORDER)
  }

  /** Bitwise exclusive or of two natural numbers (C's `^` on non-negative values). */
  function Xor(a: nat, b: nat): nat
    decreases a + b
  {
    if a == 0 then b
    else if b == 0 then a
    else 2 * Xor(a / 2, b / 2) + (if a % 2 == b % 2 then 0 else 1)
  }

  /** `PAGE_TO_ADDR(i)`: byte offset of page `i`, which is page-aligned and inside the arena for a page of the table. */
  function PageToAddr(i: int): (a: int)
    ensures a % PAGE_SIZE == 0
    ensures 0 <= i < N_PAGES ==> 0 <= a < ARENA_SIZE
  {
    i * PAGE_SIZE
  }

  /** `ADDR_TO_PAGE(a)`: the index of the page that holds byte offset `a` (unsigned division). */
  function AddrToPage(a: int): (p: int)
    requires a >= 0
    ensures p >= 0 && PageToAddr(p) <= a < PageToAddr(p) + PAGE_SIZE
  {
    a / PAGE_SIZE
  }

  /**
   * `BUDDY_ADDR(a, o)`: the offset `a` with bit `o` flipped, that is the block
   * of size `2^o` just above `a` when bit `o` is clear and just below it when set.
   */
  function BuddyAddr(a: nat, o: nat): (r: nat)
    ensures r == if (a / Pow2(o)) % 2 == 0 then a + Pow2(o) else a - Pow2(o)
  {
    XorPow2(a, o);
    Xor(a, Pow2(o))
  }

  /**
   * The page index of the buddy, at order `o`, of the block whose base page is
   * `b`: `Span(o)` pages up when bit `o - MIN_ORDER` of `b` is clear, down when set.
   */
  function BuddyPage(b: nat, o: int): (r: nat)
    requires MIN_ORDER <= o
    ensures r == if (b / Span(o)) % 2 == 0 then b + Span(o) else b - Span(o)
  {
    XorPow2(b, o - MIN_ORDER);
    Xor(b, Span(o))
  }

  // ---------------------------------------------------------------------------
  // Arithmetic toolkit

  lemma MulAtLeast(k: int, d: int)
    requires k >= 1 && d > 0
    ensures k * d >= d
  {
    if k > 1 {
      MulAtLeast(k - 1, d);
      assert k * d == (k - 1) * d + d;
    }
  }

  /** Division is determined by quotient and remainder. */
  lemma DivUnique(x: int, d: int, q: int, r: int)
    requires d > 0 && 0 <= r < d && x == q * d + r
    ensures x / d == q && x % d == r
  {
    var q', r' := x / d, x % d;
    assert x == q' * d + r';
    assert (q - q') * d == r' - r;
    if q > q' {
      MulAtLeast(q - q', d);
    } else if q < q' {
      MulAtLeast(q' - q, d);
    }
  }

  /** Halving and then dividing by `m` is dividing by `2 * m`. */
  lemma DivDiv(a: nat, m: nat)
    requires m > 0
    ensures (a / 2) / m == a / (2 * m)
  {
    var q, r := a / (2 * m), a % (2 * m);
    assert a == (2 * m) * q + r;
    assert a == 2 * (m * q) + r;
    DivUnique(a, 2, m * q + r / 2, r % 2);
    DivUnique(a / 2, m, q, r / 2);
  }

  lemma Pow2Add(a: nat, b: nat)
    ensures Pow2(a + b) == Pow2(a) * Pow2(b)
    decreases a
  {
    if a > 0 {
      Pow2Add(a - 1, b);
      calc {
        Pow2(a + b);
        2 * Pow2(a - 1 + b);
        2 * (Pow2(a - 1) * Pow2(b));
        (2 * Pow2(a - 1)) * Pow2(b);
      }
    }
  }

  lemma Pow2Page()
    ensures Pow2(12) == PAGE_SIZE && Pow2(20) == ARENA_SIZE && Pow2(8) == N_PAGES
  {
  }

  /** A block of order `o` is `Span(o)` pages of `PAGE_SIZE` bytes. */
  lemma SpanBytes(o: int)
    requires MIN_ORDER <= o
    ensures Pow2(o) == Span(o) * PAGE_SIZE
    ensures Pow2(o) / PAGE_SIZE == Span(o)
  {
    Pow2Add(o - MIN_ORDER, 12);
    Pow2Page();
    DivUnique(Pow2(o), PAGE_SIZE, Span(o), 0);
  }

  // ---------------------------------------------------------------------------
  // Properties of the macros

  /** `ADDR_TO_PAGE(PAGE_TO_ADDR(i)) == i`. */
  lemma PageAddrRoundTrip(i: nat)
    ensures PageToAddr(i) >= 0 && AddrToPage(PageToAddr(i)) == i
  {
    DivUnique(PageToAddr(i), PAGE_SIZE, i, 0);
  }

  /** `PAGE_TO_ADDR(ADDR_TO_PAGE(a)) == a` for page-aligned offsets. */
  lemma AddrPageRoundTrip(a: nat)
    requires a % PAGE_SIZE == 0
    ensures PageToAddr(AddrToPage(a)) == a
  {
  }

  lemma XorSelf(a: nat)
    ensures Xor(a, a) == 0
    decreases a
  {
    if a != 0 {
      XorSelf(a / 2);
    }
  }

  /** XOR with a fixed value is its own inverse. */
  lemma {:induction false} XorInvolution(a: nat, b: nat)
    ensures Xor(Xor(a, b), b) == a
    decreases a + b
  {
    if a == 0 {
      XorSelf(b);
    } else if b != 0 {
      XorInvolution(a / 2, b / 2);
      var x := Xor(a / 2, b / 2);
      var c := Xor(a, b);
      var bit := if a % 2 == b % 2 then 0 else 1;
      assert c == 2 * x + bit;
      if c == 0 {
        assert x == 0 && bit == 0;
        assert a / 2 == b / 2;
      } else {
        assert c / 2 == x && c % 2 == bit;
      }
    }
  }

  /** `BUDDY_ADDR` is an involution: the buddy of the buddy is the block itself. */
  lemma BuddyAddrInvolution(a: nat, o: nat)
    ensures BuddyAddr(BuddyAddr(a, o), o) == a
  {
    XorInvolution(a, Pow2(o));
  }

  lemma XorDouble(x: nat, y: nat)
    ensures Xor(2 * x, 2 * y) == 2 * Xor(x, y)
  {
    if x != 0 && y != 0 {
      assert (2 * x) / 2 == x && (2 * y) / 2 == y;
    }
  }

  lemma MulTwice(x: nat, p: nat)
    ensures x * (2 * p) == 2 * (x * p)
  {
  }

  /** XOR commutes with shifting both operands left by `n` bits. */
  lemma XorScale(x: nat, y: nat, n: nat)
    ensures Xor(x * Pow2(n), y * Pow2(n)) == Xor(x, y) * Pow2(n)
  {
    ShlMul(x, n);
    ShlMul(y, n);
    ShlMul(Xor(x, y), n);
    XorShl(x, y, n);
  }

  /** `x << n`, by doubling. */
  function Shl(x: nat, n: nat): nat
  {
    if n == 0 then x else 2 * Shl(x, n - 1)
  }

  lemma {:induction false} ShlMul(x: nat, n: nat)
    ensures Shl(x, n) == x * Pow2(n)
  {
    if n > 0 {
      ShlMul(x, n - 1);
      MulTwice(x, Pow2(n - 1));
    }
  }

  lemma {:induction false} XorShl(x: nat, y: nat, n: nat)
    ensures Xor(Shl(x, n), Shl(y, n)) == Shl(Xor(x, y), n)
  {
    if n > 0 {
      XorShl(x, y, n - 1);
      XorDouble(Shl(x, n - 1), Shl(y, n - 1));
    }
  }

  /** XOR with `1 << s` adds `1 << s` when bit `s` is clear and subtracts it when it is set. */
  lemma {:induction false} XorPow2(a: nat, s: nat)
    ensures Xor(a, Pow2(s)) == if (a / Pow2(s)) % 2 == 0 then a + Pow2(s) else a - Pow2(s)
    decreases s
  {
    if s == 0 {
      if a != 0 {
        assert Xor(a, 1) == 2 * Xor(a / 2, 0) + (if a % 2 == 1 then 0 else 1);
      }
    } else if a != 0 {
      var p := Pow2(s - 1);
      XorPow2(a / 2, s - 1);
      DivDiv(a, p);
      assert Pow2(s) / 2 == p && Pow2(s) % 2 == 0;
      assert Xor(a, Pow2(s)) == 2 * Xor(a / 2, p) + a % 2;
    }
  }

  /**
   * At page granularity, the buddy of an order-`o` block is the block `Span(o)`
   * pages to the right when bit `o - MIN_ORDER` of the page index is clear, and
   * `Span(o)` pages to the left when it is set; `BUDDY_ADDR` on byte offsets
   * agrees with it.
   */
  lemma BuddyPageForm(b: nat, o: int)
    requires MIN_ORDER <= o
    ensures BuddyPage(b, o) == if (b / Span(o)) % 2 == 0 then b + Span(o) else b - Span(o)
    ensures BuddyAddr(PageToAddr(b), o) == PageToAddr(BuddyPage(b, o))
  {
    XorPow2(b, o - MIN_ORDER);
    SpanBytes(o);
    Pow2Page();
    XorScale(b, Span(o), 12);
  }

  lemma MulMono(x: nat, y: nat, p: nat)
    requires x <= y
    ensures x * p <= y * p
  {
    if x < y {
      MulMono(x, y - 1, p);
      assert y * p == (y - 1) * p + p;
    }
  }

  lemma MulAssoc(a: int, b: int, c: int)
    ensures (a * b) * c == a * (b * c)
  {
  }

  lemma DivExact(x: int, d: int)
    requires d > 0 && x % d == 0
    ensures x == (x / d) * d
  {
  }

  lemma MulSucc(q: int, p: int)
    ensures (q + 1) * p == q * p + p
  {
  }

  /** The arena holds an even number of order-`o` blocks, `o < MAX_ORDER`. */
  lemma BlockCount(o: int)
    requires MIN_ORDER <= o < MAX_ORDER
    ensures Pow2(MAX_ORDER - o) % 2 == 0
    ensures ARENA_SIZE == Pow2(MAX_ORDER - o) * Pow2(o)
  {
    Pow2Add(MAX_ORDER - o, o);
    Pow2Page();
    var h := Pow2(MAX_ORDER - o - 1);
    assert Pow2(MAX_ORDER - o) == 2 * h;
    DivUnique(2 * h, 2, h, 0);
  }

  /** `BUDDY_ADDR` of an order-`o` aligned offset inside the arena, `o < MAX_ORDER`,
      lies inside the arena, is aligned the same way and differs from the offset. */
  lemma BuddyAddrInArena(a: nat, o: int)
    requires MIN_ORDER <= o < MAX_ORDER
    requires a < ARENA_SIZE && a % Pow2(o) == 0
    ensures BuddyAddr(a, o) < ARENA_SIZE && BuddyAddr(a, o) % Pow2(o) == 0
    ensures BuddyAddr(a, o) != a
  {
    var p := Pow2(o);
    var m := Pow2(MAX_ORDER - o);
    var r := BuddyAddr(a, o);
    XorPow2(a, o);
    BlockCount(o);
    AlignedNeighbour(a, p, m, ARENA_SIZE);
    if (a / p) % 2 == 0 {
      assert r == a + p;
    } else {
      assert r == a - p;
    }
  }

  /**
   * The neighbouring multiple of `p` (upward when the block index `a / p` is
   * even, downward when it is odd) stays within `total == m * p`, `m` even.
   */
  lemma AlignedNeighbour(a: nat, p: nat, m: nat, total: nat)
    requires p > 0 && m % 2 == 0 && total == m * p && a < total && a % p == 0
    ensures (a / p) % 2 == 0 ==> a + p < total && (a + p) % p == 0
    ensures (a / p) % 2 == 1 ==> p <= a && (a - p) % p == 0
  {
    var q := a / p;
    DivExact(a, p);
    if q >= m {
      MulMono(m, q, p);
    }
    if q % 2 == 0 {
      MulSucc(q, p);
      MulSucc(q + 1, p);
      MulMono(q + 2, m, p);
      DivUnique(a + p, p, q + 1, 0);
    } else {
      MulSucc(q - 1, p);
      DivUnique(a - p, p, q - 1, 0);
    }
  }

  // ---------------------------------------------------------------------------
  // Block geometry at page granularity: a block of order o is Span(o) pages
  // starting at a multiple of Span(o); page p lies in block number p / Span(o).

  lemma SpanNext(o: int)
    requires MIN_ORDER <= o
    ensures Span(o + 1) == 2 * Span(o)
  {
    assert o + 1 - MIN_ORDER == (o - MIN_ORDER) + 1;
  }

  /** Dividing by `m` and then halving is dividing by `2 * m`. */
  lemma DivHalf(a: nat, m: nat)
    requires m > 0
    ensures (a / m) / 2 == a / (2 * m)
  {
    var q, r := a / (2 * m), a % (2 * m);
    assert a == (2 * m) * q + r;
    if r < m {
      assert a == m * (2 * q) + r;
      DivUnique(a, m, 2 * q, r);
      DivUnique(a / m, 2, q, 0);
    } else {
      assert a == m * (2 * q + 1) + (r - m);
      DivUnique(a, m, 2 * q + 1, r - m);
      DivUnique(a / m, 2, q, 1);
    }
  }

  /** Two pages in the same block of order `o` are in the same block of order `o + 1`. */
  lemma SameBlockUp(p: nat, q: nat, o: int)
    requires MIN_ORDER <= o
    requires p / Span(o) == q / Span(o)
    ensures p / Span(o + 1) == q / Span(o + 1)
  {
    SpanNext(o);
    DivHalf(p, Span(o));
    DivHalf(q, Span(o));
  }

  /** The block of order `o` that starts at the aligned page `b` is the pages `b .. b + Span(o) - 1`. */
  lemma InBlock(p: nat, b: nat, o: int)
    requires MIN_ORDER <= o && b % Span(o) == 0
    ensures p / Span(o) == b / Span(o) <==> b <= p < b + Span(o)
  {
    var s := Span(o);
    var t := b / s;
    assert b == t * s;
    if b <= p < b + s {
      DivUnique(p, s, t, p - b);
    }
    if p / s == t {
      assert p == t * s + p % s;
    }
  }

  /** Aligned pages with the same block number are equal. */
  lemma AlignedEq(x: nat, y: nat, o: int)
    requires MIN_ORDER <= o && x % Span(o) == 0 && y % Span(o) == 0
    requires x / Span(o) == y / Span(o)
    ensures x == y
  {
    DivExact(x, Span(o));
    DivExact(y, Span(o));
  }

  /** An order-(o+1) aligned block splits into two order-o aligned halves, left then right. */
  lemma Halves(b: nat, o: int)
    requires MIN_ORDER <= o && b % Span(o + 1) == 0
    ensures b % Span(o) == 0 && (b + Span(o)) % Span(o) == 0
    ensures (b / Span(o)) % 2 == 0 && ((b + Span(o)) / Span(o)) % 2 == 1
  {
    var s := Span(o);
    SpanNext(o);
    var t := b / (2 * s);
    assert b == (2 * t) * s by {
      DivExact(b, 2 * s);
      MulAssoc(2, t, s);
      MulTwice(t, s);
    }
    DivUnique(b, s, 2 * t, 0);
    MulSucc(2 * t, s);
    DivUnique(b + s, s, 2 * t + 1, 0);
  }

  /** The only order-o aligned pages of an order-(o+1) block are its two halves. */
  lemma OnlyHalves(x: nat, b: nat, o: int)
    requires MIN_ORDER <= o && b % Span(o + 1) == 0
    requires b <= x < b + Span(o + 1) && x % Span(o) == 0
    ensures x == b || x == b + Span(o)
  {
    SpanNext(o);
    Halves(b, o);
    var s := Span(o);
    if b + s <= x {
      InBlock(x, b + s, o);
      AlignedEq(x, b + s, o);
    } else {
      InBlock(x, b, o);
      AlignedEq(x, b, o);
    }
  }

  /**
   * A block aligned at order `o` and its buddy are the two halves of the
   * order-(o+1) block that starts at the lower of the two.
   */
  lemma MergeBase(c: nat, o: int)
    requires MIN_ORDER <= o && c % Span(o) == 0
    ensures var d := BuddyPage(c, o);
            var m := if c < d then c else d;
            m % Span(o + 1) == 0 && m <= c < m + Span(o + 1) && m <= d < m + Span(o + 1) &&
            ((c == m && d == m + Span(o)) || (d == m && c == m + Span(o)))
  {
    var s := Span(o);
    SpanNext(o);
    BuddyPageForm(c, o);
    PairBase(c, s);
  }

  /**
   * A multiple `c` of `s` is a multiple of `2 * s` when `c / s` is even, and
   * `c - s` is one when it is odd.
   */
  lemma PairBase(c: nat, s: nat)
    requires s > 0 && c % s == 0
    ensures (c / s) % 2 == 0 ==> c % (2 * s) == 0
    ensures (c / s) % 2 == 1 ==> s <= c && (c - s) % (2 * s) == 0
  {
    var t := c / s;
    var u := t / 2;
    assert c == t * s by { DivExact(c, s); }
    assert (2 * u) * s == u * (2 * s) by {
      MulAssoc(2, u, s);
      MulTwice(u, s);
    }
    if t % 2 == 0 {
      assert c == u * (2 * s);
      DivUnique(c, 2 * s, u, 0);
    } else {
      assert c - s == u * (2 * s) by { MulSucc(t - 1, s); }
      DivUnique(c - s, 2 * s, u, 0);
    }
  }

  /** A block of a higher order is at least twice as long. */
  lemma {:induction false} SpanLess(j: int, i: int)
    requires MIN_ORDER <= j < i
    ensures 2 * Span(j) <= Span(i)
    decreases i - j
  {
    SpanNext(i - 1);
    if j < i - 1 {
      SpanLess(j, i - 1);
    }
  }

  lemma SpanLeq(k: int, i: int)
    requires MIN_ORDER <= k <= i
    ensures Span(i) == Span(k) * Pow2(i - k)
  {
    Pow2Add(k - MIN_ORDER, i - k);
  }

  /** A page aligned at order `i` is aligned at every lower order `k`, and bit `k` of it is clear. */
  lemma AlignedBelow(b: nat, k: int, i: int)
    requires MIN_ORDER <= k <= i && b % Span(i) == 0
    ensures b % Span(k) == 0
    ensures k < i ==> (b / Span(k)) % 2 == 0
  {
    SpanLeq(k, i);
    var m := Pow2(i - k);
    var t := b / Span(i);
    AlignedMultiple(b, Span(k), Span(i), m);
    if k < i {
      var h := Pow2(i - k - 1);
      assert m == 2 * h;
      MulTwice(t, h);
    }
  }

  /** A multiple of `sk * m` is a multiple of `sk`, `m` times as many. */
  lemma AlignedMultiple(b: nat, sk: nat, si: nat, m: nat)
    requires sk > 0 && si == sk * m && si > 0 && b % si == 0
    ensures b % sk == 0 && b / sk == (b / si) * m
  {
    var t := b / si;
    assert b == t * si;
    MulAssoc(t, m, sk);
    DivUnique(b, sk, t * m, 0);
  }

  /** An aligned block that starts inside the arena ends inside it. */
  lemma BlockFits(b: nat, o: int)
    requires MIN_ORDER <= o <= MAX_ORDER && b < N_PAGES && b % Span(o) == 0
    ensures b + Span(o) <= N_PAGES
  {
    SpanLeq(o, MAX_ORDER);
    Pow2Page();
    FitsIn(b, Span(o), Pow2(MAX_ORDER - o), N_PAGES);
  }

  /** A multiple of `s` below `total == s * m` is followed by `s` more within `total`. */
  lemma FitsIn(b: nat, s: nat, m: nat, total: nat)
    requires s > 0 && total == s * m && b < total && b % s == 0
    ensures b + s <= total
  {
    var t := b / s;
    assert b == t * s;
    if t >= m {
      MulMono(m, t, s);
    }
    MulMono(t + 1, m, s);
    MulSucc(t, s);
  }

  /** At the top order the buddy of any arena page lies beyond the arena. */
  lemma BuddyAtTop(b: nat)
    requires b < N_PAGES
    ensures BuddyPage(b, MAX_ORDER) == b + N_PAGES
  {
    BuddyPageForm(b, MAX_ORDER);
    Pow2Page();
  }
}
