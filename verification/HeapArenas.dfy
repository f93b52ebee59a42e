/**
 The geometry of the slab heap (src/mem/malloc.rs): size classes, the blocks of an arena
 page, its header, and what handing out or taking back one block does to them.
 */
module HeapArenas {
  import opened Bits
  import opened InMemLists
  import opened BuddyBlocks
  import opened BuddyAllocators

  const ARENA_MAGIC: nat := 0x9a548eed
  const MAX_BLKSIZE: nat := 1024
  const ARENA_BYTES: nat := 16     // the size of an arena header
  const DESC_BYTES: nat := 48      // the size of a descriptor
  const CLASSES: nat := 8

  /** The block size of the i-th descriptor. */
  function BlockSize(i: nat): nat {
    Pow2(i + 3)
  }

  /** Where the blocks of an arena start: past the header. */
  function FirstOffset(bs: nat): nat
    requires bs > 0
  {
    RoundUp(ARENA_BYTES, bs)
  }

  /** The number of blocks is computed from the size of the descriptor, not of the header. */
  function BlocksPerArena(bs: nat): nat
    requires 0 < bs <= MAX_BLKSIZE
  {
    (PG_SIZE - RoundUp(DESC_BYTES, bs)) / bs
  }

  /** Where the blocks of an arena end. */
  function LastOffset(bs: nat): nat
    requires 0 < bs <= MAX_BLKSIZE
  {
    FirstOffset(bs) + BlocksPerArena(bs) * bs
  }

  lemma ClassSizes(i: nat)
    requires i < CLASSES
    ensures 8 <= BlockSize(i) <= MAX_BLKSIZE && IsMultiple(PG_SIZE, BlockSize(i))
  {
    assert Pow2(10) == 1024 by { Pow2Add(5, 5); assert Pow2(5) == 32; }
    Pow2Monotone(i + 3, 10);
    Pow2Monotone(3, i + 3);
    assert Pow2(3) == 8;
    Pow2PageShift(0);
    Pow2Add(9 - i, i + 3);
    ModOfMultiple(Pow2(9 - i), BlockSize(i));
    MultipleIffMod(PG_SIZE, BlockSize(i));
  }

  lemma {:induction false} MultipleSum(a: nat, b: nat, s: nat)
    requires s > 0 && IsMultiple(a, s) && IsMultiple(b, s)
    ensures IsMultiple(a + b, s)
  {
    if b > 0 {
      MultipleSum(a, b - s, s);
    }
  }

  lemma {:induction false} MultipleTimes(k: nat, s: nat)
    requires s > 0
    ensures IsMultiple(k * s, s)
  {
    ModOfMultiple(k, s);
    MultipleIffMod(k * s, s);
  }

  /** A multiple of a multiple is a multiple. */
  lemma {:induction false} MultipleTrans(a: nat, s: nat, t: nat)
    requires s > 0 && t > 0 && IsMultiple(a, s) && IsMultiple(s, t)
    ensures IsMultiple(a, t)
  {
    if a > 0 {
      MultipleTrans(a - s, s, t);
      MultipleSum(a - s, s, t);
    }
  }

  lemma {:induction false} Pow2Multiple(a: nat, b: nat)
    requires a <= b
    ensures IsMultiple(Pow2(b), Pow2(a))
  {
    Pow2Add(b - a, a);
    MultipleTimes(Pow2(b - a), Pow2(a));
  }

  lemma Quotient(a: nat, s: nat)
    requires 0 < s <= a
    ensures 1 <= a / s && (a / s) * s <= a
  {
    DivStep(a, s);
  }

  /** The blocks start past the header, are aligned, and end within the page. */
  lemma ArenaFits(bs: nat)
    requires 0 < bs <= MAX_BLKSIZE
    ensures ARENA_BYTES <= FirstOffset(bs) && IsMultiple(FirstOffset(bs), bs)
    ensures LastOffset(bs) <= PG_SIZE && IsMultiple(LastOffset(bs), bs)
    ensures BlocksPerArena(bs) >= 1
  {
    var f, d := FirstOffset(bs), RoundUp(DESC_BYTES, bs);
    MultipleIffMod(f, bs);
    MultipleIffMod(d, bs);
    assert f <= d by {
      if f > d {
        CloseMultiples(f, d, bs);
      }
    }
    hide RoundUp, IsMultiple;
    var n := BlocksPerArena(bs);
    Quotient(PG_SIZE - d, bs);
    MultipleTimes(n, bs);
    MultipleSum(f, n * bs, bs);
  }

  /** The block sizes are 8, 16, ..., 1024. */
  lemma BlockSizes()
    ensures BlockSize(0) == 8 && forall i: nat :: BlockSize(i + 1) == 2 * BlockSize(i)
  {
    assert Pow2(3) == 8;
  }

  /** The first block is the first multiple of the block size behind the header. */
  lemma FirstBlock(bs: nat, p: nat)
    requires bs > 0
    ensures GetBlock(bs, p, 0) == p + FirstOffset(bs)
    ensures FirstOffset(bs) % bs == 0 && ARENA_BYTES <= FirstOffset(bs) < ARENA_BYTES + bs
  {
  }

  /** As many blocks as fit behind a descriptor's size, and no more. */
  lemma ArenaFull(bs: nat)
    requires 0 < bs <= MAX_BLKSIZE
    ensures var d, n := RoundUp(DESC_BYTES, bs), BlocksPerArena(bs);
            d + n * bs <= PG_SIZE < d + (n + 1) * bs
  {
    var d, n := RoundUp(DESC_BYTES, bs), BlocksPerArena(bs);
    assert PG_SIZE - d == n * bs + (PG_SIZE - d) % bs;
    assert (n + 1) * bs == n * bs + bs;
  }

  // ---- Requests ----

  datatype Layout = Layout(size: nat, align: nat)

  predicate IsPowerOfTwo(n: nat) {
    n > 0 && Pow2(TrailingZeros(n)) == n
  }

  /** The requests `alloc` accepts. */
  predicate Acceptable(l: Layout) {
    l.size > 0 && IsPowerOfTwo(l.align) && l.align <= PG_SIZE
  }

  function RoundedSize(l: Layout): nat {
    Max(NextPowerOfTwo(l.size), l.align)
  }

  predicate Spilled(l: Layout) {
    RoundedSize(l) > MAX_BLKSIZE
  }

  /** The descriptor that serves a request. */
  function ClassOf(l: Layout): nat
    requires RoundedSize(l) > 0
  {
    Max(TrailingZeros(RoundedSize(l)) - 3, 0)
  }

  function PagesFor(l: Layout): nat {
    (l.size + PG_SIZE - 1) / PG_SIZE
  }

  /** The exponent of the rounded size. */
  lemma RoundedExponent(l: Layout)
    requires Acceptable(l)
    ensures RoundedSize(l) == Pow2(TrailingZeros(RoundedSize(l)))
    ensures l.size <= RoundedSize(l)
    ensures TrailingZeros(l.align) <= TrailingZeros(RoundedSize(l))
  {
    TrailingZerosOfPow2(CeilLog2(l.size));
    var k, j := CeilLog2(l.size), TrailingZeros(l.align);
    if j > k { Pow2Monotone(k, j); } else { Pow2Monotone(j, k); }
    if j < k { Pow2Strict(j, k); }
  }

  /** A request that is not spilled fits its class in size and alignment. */
  lemma ClassFits(l: Layout)
    requires Acceptable(l) && !Spilled(l)
    ensures ClassOf(l) < CLASSES && l.size <= BlockSize(ClassOf(l)) && IsMultiple(BlockSize(ClassOf(l)), l.align)
    ensures BlockSize(ClassOf(l)) == Max(RoundedSize(l), 8)
  {
    hide Pow2, TrailingZeros, RoundedSize, IsMultiple;
    RoundedExponent(l);
    ClassExponent(TrailingZeros(RoundedSize(l)));
    Pow2Multiple(TrailingZeros(l.align), ClassOf(l) + 3);
  }

  lemma ClassExponent(e: nat)
    requires Pow2(e) <= MAX_BLKSIZE
    ensures e <= 10 && Pow2(Max(e - 3, 0) + 3) == Max(Pow2(e), 8)
  {
    assert Pow2(10) == 1024 by { Pow2Add(5, 5); assert Pow2(5) == 32; }
    assert Pow2(3) == 8;
    if e > 10 { Pow2Strict(10, e); }
    if e < 3 { Pow2Monotone(e, 3); } else { Pow2Monotone(3, e); }
  }

  lemma {:induction false} PowerOfTwoIff(n: nat)
    ensures IsPowerOfTwo(n) <==> exists k :: n == Pow2(k)
  {
    if k :| n == Pow2(k) {
      TrailingZerosOfPow2(k);
    }
  }

  /** Which powers of two are large enough for a request and suit its alignment. */
  lemma {:induction false} PowerSuits(l: Layout, k: nat)
    requires Acceptable(l)
    ensures l.size <= Pow2(k) && Pow2(k) % l.align == 0 <==> RoundedSize(l) <= Pow2(k)
    ensures RoundedSize(l) <= Pow2(k) <==> TrailingZeros(RoundedSize(l)) <= k
  {
    RoundedExponent(l);
    var j, e := TrailingZeros(l.align), TrailingZeros(RoundedSize(l));
    if e <= k { Pow2Monotone(e, k); } else { Pow2Strict(k, e); }
    TrailingZerosDivides(Pow2(k), j);
    TrailingZerosOfPow2(k);
    if l.align <= Pow2(k) && j > k { Pow2Strict(k, j); }
    if j <= k { Pow2Monotone(j, k); }
    if l.size <= Pow2(k) {
      CeilLog2Least(l.size, k);
      Pow2Monotone(CeilLog2(l.size), k);
    }
  }

  /** The rounded size is the least power of two that is large enough and suits the alignment. */
  lemma {:induction false} RoundedLeast(l: Layout)
    requires Acceptable(l)
    ensures exists k :: RoundedSize(l) == Pow2(k)
    ensures forall k: nat :: l.size <= Pow2(k) && Pow2(k) % l.align == 0 <==> RoundedSize(l) <= Pow2(k)
  {
    RoundedExponent(l);
    forall k: nat ensures l.size <= Pow2(k) && Pow2(k) % l.align == 0 <==> RoundedSize(l) <= Pow2(k) {
      PowerSuits(l, k);
    }
  }

  /** The descriptor chosen is the least whose blocks are large enough and suit the alignment. */
  lemma {:induction false} ClassLeast(l: Layout)
    requires Acceptable(l) && !Spilled(l)
    ensures forall i: nat :: l.size <= BlockSize(i) && BlockSize(i) % l.align == 0 <==> ClassOf(l) <= i
  {
    forall i: nat ensures l.size <= BlockSize(i) && BlockSize(i) % l.align == 0 <==> ClassOf(l) <= i {
      PowerSuits(l, i + 3);
    }
  }

  /** Exactly the requests beyond 1024 bytes or an alignment of 1024 go to the page allocator. */
  lemma {:induction false} SpilledIff(l: Layout)
    requires Acceptable(l)
    ensures Spilled(l) <==> l.size > MAX_BLKSIZE || l.align > MAX_BLKSIZE
  {
    assert Pow2(10) == 1024 by { Pow2Add(5, 5); assert Pow2(5) == 32; }
    PowerSuits(l, 10);
    var j := TrailingZeros(l.align);
    TrailingZerosDivides(Pow2(10), j);
    TrailingZerosOfPow2(10);
    if j > 10 { Pow2Strict(10, j); }
    if j <= 10 { Pow2Monotone(j, 10); }
  }

  /** The pages of a request are the least number that holds it. */
  lemma PagesLeast(l: Layout)
    requires l.size > 0
    ensures PG_SIZE * (PagesFor(l) - 1) < l.size <= PG_SIZE * PagesFor(l)
  {
  }

  /** A spilled request fits its pages, and its alignment divides the page size. */
  lemma SpillFits(l: Layout)
    requires Acceptable(l)
    ensures 1 <= PagesFor(l) && l.size <= PG_SIZE * PagesFor(l) <= Size(OrderFor(PagesFor(l)))
    ensures IsMultiple(PG_SIZE, l.align)
  {
    Pow2PageShift(0);
    var j := TrailingZeros(l.align);
    if j > 12 { Pow2Strict(12, j); }
    Pow2Multiple(j, 12);
  }

  /** The pages a spilled request takes from the page allocator hold its rounded size exactly. */
  lemma SpillPages(l: Layout)
    requires Acceptable(l)
    ensures Max(RoundedSize(l), PG_SIZE) == Size(OrderFor(PagesFor(l)))
  {
    var n := PagesFor(l);
    var k, c := OrderFor(n), CeilLog2(l.size);
    Pow2PageShift(k);
    assert l.size <= PG_SIZE * n;
    CeilLog2Least(l.size, k + PG_SHIFT);
    Pow2Monotone(c, k + PG_SHIFT);
    if k > 0 {
      Pow2PageShift(k - 1);
      assert Pow2(k - 1 + PG_SHIFT) <= PG_SIZE * (n - 1) < l.size;
      if c < k + PG_SHIFT { Pow2Monotone(c, k - 1 + PG_SHIFT); }
    }
  }

  /**
   `spilled_total` counts the pages asked for, not the pages taken. The two agree, and the
   counted pages cover the counted bytes, exactly for requests of a power of two pages.
   */
  lemma SpillCountedExactly(l: Layout)
    requires Acceptable(l) && Spilled(l)
    ensures PG_SIZE * PagesFor(l) == Size(OrderFor(PagesFor(l))) <==> IsPowerOfTwo(PagesFor(l))
    ensures RoundedSize(l) <= PG_SIZE * PagesFor(l) <==> IsPowerOfTwo(PagesFor(l))
  {
    var n := PagesFor(l);
    var k := OrderFor(n);
    SpillPages(l);
    if IsPowerOfTwo(n) {
      var e := TrailingZeros(n);
      CeilLog2Least(n, e);
      TrailingZerosOfPow2(CeilLog2(n));
      Pow2Monotone(k, e);
    }
    if Pow2(k) == n {
      TrailingZerosOfPow2(k);
    }
    if k == 0 {
      assert Pow2(0) == 1;
    }
  }

  lemma SpillUndercounted()
    ensures var l := Layout(8193, 8);
            Acceptable(l) && Spilled(l) && PagesFor(l) == 3 && RoundedSize(l) == 16384
  {
    hide NextPowerOfTwo, IsPowerOfTwo;
    EightIsPower();
    RoundsTo16384();
  }

  lemma EightIsPower()
    ensures IsPowerOfTwo(8)
  {
    assert Pow2(3) == 8;
    TrailingZerosOfPow2(3);
  }

  lemma RoundsTo16384()
    ensures NextPowerOfTwo(8193) == 16384
  {
    assert Pow2(2) == 4 && Pow2(1) == 2;
    Pow2PageShift(1);
    Pow2PageShift(2);
    hide Pow2, CeilLog2;
    CeilLog2Least(8193, 14);
    CeilLog2Above(8193, 13);
  }

  // ---- Blocks of a page ----

  function PageOf(a: nat): nat {
    RoundDown(a, PG_SIZE)
  }

  predicate IsPage(p: nat) {
    p > 0 && p % PG_SIZE == 0
  }

  /** a is one of the blocks of the arena at page p. */
  predicate IsBlock(bs: nat, p: nat, a: nat)
    requires 0 < bs <= MAX_BLKSIZE
  {
    IsMultiple(a, bs) && p + FirstOffset(bs) <= a && a + bs <= p + LastOffset(bs)
  }

  /** The blocks of page p below `limit`. */
  ghost function BlocksBelow(bs: nat, p: nat, limit: nat): set<nat>
    requires 0 < bs <= MAX_BLKSIZE
  {
    set a: nat | p + FirstOffset(bs) <= a < limit && IsMultiple(a, bs)
  }

  lemma BlocksBelowStart(bs: nat, p: nat)
    requires 0 < bs <= MAX_BLKSIZE
    ensures BlocksBelow(bs, p, p + FirstOffset(bs)) == {}
  {
  }

  lemma {:induction false} BlocksBelowStep(bs: nat, p: nat, limit: nat)
    requires 0 < bs <= MAX_BLKSIZE && p + FirstOffset(bs) <= limit && IsMultiple(limit, bs)
    ensures BlocksBelow(bs, p, limit + bs) == BlocksBelow(bs, p, limit) + {limit}
    ensures limit !in BlocksBelow(bs, p, limit)
  {
    forall a: nat | p + FirstOffset(bs) <= a < limit + bs && IsMultiple(a, bs) ensures a <= limit {
      if a > limit {
        CloseMultiples(a, limit, bs);
      }
    }
  }

  lemma {:induction false} BlocksBelowAll(i: nat, p: nat, a: nat)
    requires i < CLASSES && IsPage(p)
    ensures var bs := BlockSize(i);
            0 < bs <= MAX_BLKSIZE && (a in BlocksBelow(bs, p, p + LastOffset(bs)) <==> IsBlock(bs, p, a))
  {
    hide Pow2, IsMultiple, FirstOffset, LastOffset;
    var bs := BlockSize(i);
    ClassSizes(i);
    ArenaFits(bs);
    PageMultiple(i, p);
    MultipleSum(p, LastOffset(bs), bs);
    if a in BlocksBelow(bs, p, p + LastOffset(bs)) && a + bs > p + LastOffset(bs) {
      CloseMultiples(a, p + LastOffset(bs), bs);
    }
  }

  lemma PageMultiple(i: nat, p: nat)
    requires i < CLASSES && IsPage(p)
    ensures IsMultiple(p, BlockSize(i))
  {
    ClassSizes(i);
    MultipleIffMod(p, PG_SIZE);
    MultipleTrans(p, PG_SIZE, BlockSize(i));
  }

  /** A block lies in its own page, past the header. */
  lemma BlockInPage(bs: nat, p: nat, a: nat)
    requires 0 < bs <= MAX_BLKSIZE && IsPage(p) && IsBlock(bs, p, a)
    ensures PageOf(a) == p && p + ARENA_BYTES <= a && a + bs <= p + PG_SIZE
  {
    ArenaFits(bs);
  }

  /** `get_block`: the i-th block of the arena at page p. */
  function GetBlock(bs: nat, p: nat, i: nat): nat
    requires bs > 0
  {
    p + FirstOffset(bs) + i * bs
  }

  /** `get_block` enumerates the blocks: each index below the count is one of them. */
  lemma GetBlockIsBlock(c: nat, p: nat, i: nat)
    requires c < CLASSES && IsPage(p) && 0 < BlockSize(c) <= MAX_BLKSIZE && i < BlocksPerArena(BlockSize(c))
    ensures IsBlock(BlockSize(c), p, GetBlock(BlockSize(c), p, i))
    ensures GetBlock(BlockSize(c), p, i) + BlockSize(c) == GetBlock(BlockSize(c), p, i + 1)
  {
    hide Pow2, IsMultiple, BlocksPerArena, FirstOffset;
    var bs, n := BlockSize(c), BlocksPerArena(BlockSize(c));
    ArenaFits(bs);
    PageMultiple(c, p);
    MultipleTimes(i, bs);
    MultipleSum(p, FirstOffset(bs), bs);
    MultipleSum(p + FirstOffset(bs), i * bs, bs);
    TimesNext(i, n, bs);
  }

  lemma TimesNext(i: nat, n: nat, s: nat)
    requires i < n
    ensures (i + 1) * s == i * s + s && i * s + s <= n * s
  {
    assert (i + 1) * s == i * s + s;
    MulMonotone(i + 1, n, s);
  }

  lemma {:induction false} MulMonotone(a: nat, b: nat, s: nat)
    requires a <= b
    ensures a * s <= b * s
    decreases b
  {
    if a < b {
      MulMonotone(a, b - 1, s);
      assert b * s == (b - 1) * s + s;
    }
  }

  // ---- Counting the blocks of one page ----

  ghost function InPage(s: set<nat>, p: nat): set<nat> {
    set a | a in s && PageOf(a) == p
  }

  lemma InPageAdd(s: set<nat>, x: nat, p: nat)
    requires x !in s
    ensures |InPage(s + {x}, p)| == |InPage(s, p)| + (if PageOf(x) == p then 1 else 0)
  {
    if PageOf(x) == p {
      assert InPage(s + {x}, p) == InPage(s, p) + {x};
    } else {
      assert InPage(s + {x}, p) == InPage(s, p);
    }
  }

  lemma InPageRemove(s: set<nat>, x: nat, p: nat)
    requires x in s
    ensures |InPage(s - {x}, p)| == |InPage(s, p)| - (if PageOf(x) == p then 1 else 0)
  {
    InPageAdd(s - {x}, x, p);
    assert s - {x} + {x} == s;
  }

  // ---- Arenas of one descriptor ----

  function HeaderWord(freeCnt: nat): nat {
    ARENA_MAGIC + 0x1_0000_0000 * freeCnt
  }

  lemma HeaderParts(freeCnt: nat)
    ensures HeaderWord(freeCnt) % 0x1_0000_0000 == ARENA_MAGIC && HeaderWord(freeCnt) / 0x1_0000_0000 == freeCnt
  {
  }

  /** The header at page p: the magic number with the free count, and the descriptor. */
  ghost predicate HeaderAt(m: map<nat, nat>, p: nat, c: nat, freeCnt: nat) {
    && p in m && m[p] == HeaderWord(freeCnt)
    && p + 8 in m && m[p + 8] == c + 1
  }

  /** The header of page p counts its free blocks, and free and used blocks fill the arena. */
  ghost predicate PageOk(m: map<nat, nat>, p: nat, avail: set<nat>, used: set<nat>, c: nat)
    requires 0 < BlockSize(c) <= MAX_BLKSIZE
  {
    && IsPage(p)
    && HeaderAt(m, p, c, |InPage(avail, p)|)
    && |InPage(avail, p)| + |InPage(used, p)| == BlocksPerArena(BlockSize(c))
  }

  /** The free and the used blocks are exactly the blocks of the pages. */
  ghost predicate BlocksExact(pages: set<nat>, avail: set<nat>, used: set<nat>, c: nat)
    requires 0 < BlockSize(c) <= MAX_BLKSIZE
  {
    && (forall a :: a in avail || a in used ==> PageOf(a) in pages && IsBlock(BlockSize(c), PageOf(a), a))
    && (forall p, a :: p in pages && IsBlock(BlockSize(c), p, a) ==> a in avail || a in used)
  }

  ghost predicate ArenasOk(m: map<nat, nat>, pages: set<nat>, avail: set<nat>, used: set<nat>, c: nat) {
    && c < CLASSES && 0 < BlockSize(c) <= MAX_BLKSIZE
    && avail !! used
    && (forall p :: p in pages ==> PageOk(m, p, avail, used, c))
    && BlocksExact(pages, avail, used, c)
  }

  /** What the invariant says about one free or used block. */
  lemma KnownBlock(m: map<nat, nat>, pages: set<nat>, avail: set<nat>, used: set<nat>, c: nat, x: nat)
    requires ArenasOk(m, pages, avail, used, c) && (x in avail || x in used)
    ensures PageOf(x) in pages && IsPage(PageOf(x)) && PageOf(x) + ARENA_BYTES <= x
    ensures x + BlockSize(c) <= PageOf(x) + PG_SIZE && IsMultiple(x, BlockSize(c))
    ensures HeaderAt(m, PageOf(x), c, |InPage(avail, PageOf(x))|)
  {
    assert PageOk(m, PageOf(x), avail, used, c);
    BlockInPage(BlockSize(c), PageOf(x), x);
  }

  /** The two memories agree on all of the given pages. */
  ghost predicate PagesKept(m: map<nat, nat>, n: map<nat, nat>, pages: set<nat>) {
    forall a :: PageOf(a) in pages ==> SameAt(m, n, a)
  }

  lemma HeaderKept(m: map<nat, nat>, n: map<nat, nat>, p: nat, c: nat, cnt: nat)
    requires IsPage(p) && HeaderAt(m, p, c, cnt) && SameAt(m, n, p) && SameAt(m, n, p + 8)
    ensures HeaderAt(n, p, c, cnt)
  {
  }

  lemma HeaderInPage(p: nat)
    requires IsPage(p)
    ensures PageOf(p) == p && PageOf(p + 8) == p
  {
  }

  lemma {:induction false} ArenasFrame(m: map<nat, nat>, n: map<nat, nat>, pages: set<nat>, avail: set<nat>,
                                       used: set<nat>, c: nat)
    requires ArenasOk(m, pages, avail, used, c) && PagesKept(m, n, pages)
    ensures ArenasOk(n, pages, avail, used, c)
  {
    hide Pow2, IsMultiple, IsBlock, BlocksPerArena, InPage, HeaderAt, SameAt;
    forall p | p in pages ensures PageOk(n, p, avail, used, c) {
      assert PageOk(m, p, avail, used, c);
      HeaderInPage(p);
      HeaderKept(m, n, p, c, |InPage(avail, p)|);
    }
  }

  lemma NotHeader(x: nat, p: nat)
    requires IsPage(p) && PageOf(x) + ARENA_BYTES <= x
    ensures x != p && x != p + 8 && PageOf(x) != p + 8
  {
  }

  /** Handing out a free block and counting it in its header. */
  lemma {:induction false} BlockTaken(m: map<nat, nat>, n: map<nat, nat>, pages: set<nat>, avail: set<nat>,
                                      used: set<nat>, c: nat, x: nat, cnt: nat)
    requires ArenasOk(m, pages, avail, used, c) && x in avail
    requires cnt + 1 == |InPage(avail, PageOf(x))| && n == m[PageOf(x) := HeaderWord(cnt)]
    ensures ArenasOk(n, pages, avail - {x}, used + {x}, c)
  {
    hide Pow2, IsMultiple, IsBlock, BlocksPerArena, PageOf, InPage;
    KnownBlock(m, pages, avail, used, c, x);
    forall p | p in pages ensures PageOk(n, p, avail - {x}, used + {x}, c) {
      assert PageOk(m, p, avail, used, c);
      NotHeader(x, p);
      InPageRemove(avail, x, p);
      InPageAdd(used, x, p);
    }
  }

  /** Taking back a used block: it becomes a list node and is counted in its header. */
  lemma {:induction false} BlockReturned(m: map<nat, nat>, n: map<nat, nat>, pages: set<nat>, avail: set<nat>,
                                         used: set<nat>, c: nat, x: nat, w: nat)
    requires ArenasOk(m, pages, avail, used, c) && x in used
    requires n == m[x := w][PageOf(x) := HeaderWord(|InPage(avail, PageOf(x))| + 1)]
    ensures ArenasOk(n, pages, avail + {x}, used - {x}, c)
  {
    hide Pow2, IsMultiple, IsBlock, BlocksPerArena, PageOf, InPage;
    KnownBlock(m, pages, avail, used, c, x);
    forall p | p in pages ensures PageOk(n, p, avail + {x}, used - {x}, c) {
      assert PageOk(m, p, avail, used, c);
      NotHeader(x, p);
      InPageAdd(avail, x, p);
      InPageRemove(used, x, p);
    }
  }

  /** A new page whose blocks are all free joins the arenas. */
  lemma {:induction false} ArenaAdded(m: map<nat, nat>, n: map<nat, nat>, pages: set<nat>, used: set<nat>, c: nat,
                                      p: nat, fresh': set<nat>)
    requires ArenasOk(m, pages, {}, used, c) && IsPage(p) && p !in pages && PagesKept(m, n, pages)
    requires fresh' == BlocksBelow(BlockSize(c), p, p + LastOffset(BlockSize(c)))
    requires |fresh'| == BlocksPerArena(BlockSize(c)) && HeaderAt(n, p, c, |fresh'|)
    ensures ArenasOk(n, pages + {p}, fresh', used, c)
  {
    var bs := BlockSize(c);
    ArenasFrame(m, n, pages, {}, used, c);
    forall a ensures a in fresh' <==> IsBlock(bs, p, a) {
      BlocksBelowAll(c, p, a);
    }
    forall a | a in fresh' ensures PageOf(a) == p {
      BlockInPage(bs, p, a);
    }
    assert InPage(fresh', p) == fresh';
    assert InPage(used, p) == {};
    forall q | q in pages ensures PageOk(n, q, fresh', used, c) {
      assert PageOk(n, q, {}, used, c);
      assert InPage(fresh', q) == {} == InPage({}, q);
    }
  }
}
