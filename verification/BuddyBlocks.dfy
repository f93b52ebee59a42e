/**
 The mathematics of buddy blocks: aligned power-of-two blocks, buddies, tilings of a
 memory range, and the canonical form that eager merging maintains.
 */
module BuddyBlocks {
  import opened Bits

  /** Blocks have 2^order pages, with order at most this. */
  const MAX_ORDER: nat := 8

  datatype Block = Block(addr: nat, order: nat)

  /** Size in bytes of a block of 2^k pages. */
  function Size(k: nat): (s: nat)
    ensures s > 0
  {
    PG_SIZE * Pow2(k)
  }

  function End(b: Block): nat {
    b.addr + Size(b.order)
  }

  predicate Covers(b: Block, x: int) {
    b.addr <= x < End(b)
  }

  predicate Contains(outer: Block, inner: Block) {
    outer.addr <= inner.addr && End(inner) <= End(outer)
  }

  predicate Disjoint(b: Block, c: Block) {
    End(b) <= c.addr || End(c) <= b.addr
  }

  predicate Aligned(b: Block) {
    b.order <= MAX_ORDER && IsMultiple(b.addr, Size(b.order))
  }

  /** The buddy of a block, computed as the allocator does. */
  function BuddyOf(b: Block): Block {
    Block(Xor(b.addr, Pow2(b.order + PG_SHIFT)), b.order)
  }

  /** The block that a block and its buddy form together. */
  function ParentOf(b: Block): Block {
    Block(Min(b.addr, BuddyOf(b).addr), b.order + 1)
  }

  function LeftHalf(b: Block): Block
    requires b.order > 0
  {
    Block(b.addr, b.order - 1)
  }

  function RightHalf(b: Block): Block
    requires b.order > 0
  {
    Block(b.addr + Size(b.order - 1), b.order - 1)
  }

  predicate AreHalves(b: Block, d: Block, p: Block) {
    && p.order > 0
    && ((b == LeftHalf(p) && d == RightHalf(p)) || (b == RightHalf(p) && d == LeftHalf(p)))
  }

  // ---- Geometry of aligned blocks ----

  /** A multiple of s is an even or an odd one. */
  lemma {:induction false} EvenOrOddMultiple(a: nat, s: nat)
    requires s > 0 && IsMultiple(a, s)
    ensures (a / s) % 2 == 0 <==> IsMultiple(a, 2 * s)
    ensures !IsMultiple(a, 2 * s) ==> a >= s && IsMultiple(a - s, 2 * s)
  {
    if a == 0 {
    } else if a == s {
      DivModUnique(s, s, 1, 0);
    } else {
      EvenOrOddMultiple(a - 2 * s, s);
      TwoSteps(a, s);
    }
  }

  lemma {:induction false} TwoSteps(a: nat, s: nat)
    requires 0 < s && 2 * s <= a
    ensures (a / s) % 2 == ((a - 2 * s) / s) % 2
    ensures IsMultiple(a, 2 * s) <==> IsMultiple(a - 2 * s, 2 * s)
  {
    DivStep(a, s);
    DivStep(a - s, s);
    assert a - s - s == a - 2 * s;
  }

  lemma {:induction false} HalvesOfMultiple(a: nat, s: nat)
    requires s > 0 && IsMultiple(a, 2 * s)
    ensures IsMultiple(a, s) && IsMultiple(a + s, s) && !IsMultiple(a + s, 2 * s)
  {
    if a > 0 {
      HalvesOfMultiple(a - 2 * s, s);
    }
  }

  /** Flipping the size bit moves an aligned block up or down by its size. */
  lemma {:induction false} BuddyAddress(b: Block)
    requires Aligned(b)
    ensures BuddyOf(b).addr ==
              if IsMultiple(b.addr, Size(b.order + 1)) then b.addr + Size(b.order) else b.addr - Size(b.order)
  {
    Pow2PageShift(b.order);
    XorSingleBit(b.addr, b.order + PG_SHIFT);
    EvenOrOddMultiple(b.addr, Size(b.order));
  }

  /** The buddy is the other half of an aligned block of twice the size. */
  lemma {:induction false} BuddyShape(b: Block)
    requires Aligned(b)
    ensures Aligned(BuddyOf(b)) && BuddyOf(b) != b
    ensures IsMultiple(BuddyOf(b).addr, Size(b.order + 1)) <==> !IsMultiple(b.addr, Size(b.order + 1))
    ensures IsMultiple(ParentOf(b).addr, Size(b.order + 1))
    ensures AreHalves(b, BuddyOf(b), ParentOf(b))
  {
    var s := Size(b.order);
    BuddyAddress(b);
    EvenOrOddMultiple(b.addr, s);
    if IsMultiple(b.addr, 2 * s) {
      HalvesOfMultiple(b.addr, s);
    } else {
      HalvesOfMultiple(b.addr - s, s);
    }
  }

  lemma {:induction false} BuddyInvolution(b: Block)
    requires Aligned(b)
    ensures BuddyOf(BuddyOf(b)) == b && ParentOf(BuddyOf(b)) == ParentOf(b)
  {
    BuddyShape(b);
    BuddyAddress(b);
    BuddyAddress(BuddyOf(b));
  }

  /** The halves of an aligned block are aligned and are each other's buddies. */
  lemma {:induction false} HalvesAreBuddies(b: Block)
    requires Aligned(b) && b.order > 0
    ensures Aligned(LeftHalf(b)) && Aligned(RightHalf(b))
    ensures BuddyOf(LeftHalf(b)) == RightHalf(b) && BuddyOf(RightHalf(b)) == LeftHalf(b)
    ensures ParentOf(LeftHalf(b)) == b
  {
    HalvesOfMultiple(b.addr, Size(b.order - 1));
    BuddyShape(LeftHalf(b));
    BuddyInvolution(LeftHalf(b));
  }

  /** Multiples of s that are less than s apart are equal. */
  lemma {:induction false} CloseMultiples(a: nat, b: nat, s: nat)
    requires s > 0 && IsMultiple(a, s) && IsMultiple(b, s) && a < b + s && b < a + s
    ensures a == b
  {
    if a >= s && b >= s {
      CloseMultiples(a - s, b - s, s);
    }
  }

  /** Two aligned blocks are nested or disjoint. */
  lemma {:induction false} NestedOrDisjoint(b: Block, c: Block)
    requires Aligned(b) && Aligned(c) && b.order <= c.order && !Disjoint(b, c)
    ensures Contains(c, b)
    ensures b.order == c.order ==> b == c
    decreases c.order
  {
    if b.order == c.order {
      CloseMultiples(b.addr, c.addr, Size(b.order));
    } else {
      HalvesAreBuddies(c);
      if Disjoint(b, LeftHalf(c)) {
        NestedOrDisjoint(b, RightHalf(c));
      } else {
        NestedOrDisjoint(b, LeftHalf(c));
      }
    }
  }

  /** A block strictly inside an aligned block lies inside one with its parent. */
  lemma {:induction false} ParentInside(b: Block, c: Block)
    requires Aligned(b) && Aligned(c) && b.order < c.order && Contains(c, b)
    ensures Aligned(ParentOf(b)) && Contains(c, ParentOf(b)) && Contains(ParentOf(b), b)
  {
    BuddyShape(b);
    var p := ParentOf(b);
    assert Aligned(p);
    assert Covers(p, b.addr) && Covers(c, b.addr);
    NestedOrDisjoint(p, c);
  }

  // ---- Total size of a set of blocks ----

  ghost function Weight(s: set<Block>): nat {
    if s == {} then 0 else
      var b :| b in s;
      Size(b.order) + Weight(s - {b})
  }

  lemma {:induction false} WeightRemove(s: set<Block>, b: Block)
    requires b in s
    ensures Weight(s) == Weight(s - {b}) + Size(b.order)
  {
    var c :| c in s && Weight(s) == Size(c.order) + Weight(s - {c});
    if c != b {
      WeightRemove(s - {c}, b);
      assert s - {c} - {b} == s - {b} - {c};
      WeightRemove(s - {b}, c);
    }
  }

  lemma {:induction false} WeightAdd(s: set<Block>, b: Block)
    requires b !in s
    ensures Weight(s + {b}) == Weight(s) + Size(b.order)
  {
    WeightRemove(s + {b}, b);
    assert s + {b} - {b} == s;
  }

  // ---- Tilings ----

  ghost predicate InRange(s: set<Block>, lo: nat, hi: nat) {
    forall b :: b in s ==> Aligned(b) && lo <= b.addr && End(b) <= hi
  }

  ghost predicate PairwiseDisjoint(s: set<Block>) {
    forall b, c :: b in s && c in s && b != c ==> Disjoint(b, c)
  }

  ghost predicate CoveredBy(s: set<Block>, x: int) {
    exists b :: b in s && Covers(b, x)
  }

  ghost predicate CoversRange(s: set<Block>, lo: nat, hi: nat) {
    forall x: int :: lo <= x < hi ==> CoveredBy(s, x)
  }

  /** Aligned, pairwise disjoint blocks that together cover [lo, hi) exactly. */
  ghost predicate Tiles(s: set<Block>, lo: nat, hi: nat) {
    InRange(s, lo, hi) && PairwiseDisjoint(s) && CoversRange(s, lo, hi)
  }

  /** The free and the live blocks tile the range, and their sizes add up to its size. */
  ghost predicate Tiling(free: set<Block>, live: set<Block>, lo: nat, hi: nat) {
    && free !! live
    && Tiles(free + live, lo, hi)
    && lo + Weight(free) + Weight(live) == hi
  }

  /** Replacing blocks by others that cover the same bytes. */
  lemma {:induction false} SwapTiles(s: set<Block>, lo: nat, hi: nat, out: set<Block>, inn: set<Block>)
    requires Tiles(s, lo, hi) && out <= s
    requires InRange(inn, lo, hi) && PairwiseDisjoint(inn)
    requires forall b, c :: b in inn && c in s - out ==> Disjoint(b, c)
    requires forall b, x: int :: b in out && Covers(b, x) ==> CoveredBy(inn, x)
    ensures inn !! (s - out)
    ensures Tiles(s - out + inn, lo, hi)
  {
    var t := s - out + inn;
    forall x: int | lo <= x < hi ensures CoveredBy(t, x) {
      assert CoveredBy(s, x);
      var b :| b in s && Covers(b, x);
      if b in out {
        assert CoveredBy(inn, x);
        var c :| c in inn && Covers(c, x);
        assert c in t;
      } else {
        assert b in t;
      }
    }
  }

  /** Halves cover the whole, and a block that misses both misses it. */
  lemma {:induction false} HalvesCover(p: Block, b: Block, d: Block)
    requires AreHalves(b, d, p)
    ensures forall x: int :: Covers(p, x) <==> Covers(b, x) || Covers(d, x)
    ensures forall c :: Disjoint(b, c) && Disjoint(d, c) <==> Disjoint(p, c)
    ensures Disjoint(b, d)
  {
  }

  lemma {:induction false} SplitTiles(s: set<Block>, lo: nat, hi: nat, b: Block)
    requires Tiles(s, lo, hi) && b in s && b.order > 0
    ensures LeftHalf(b) !in s && RightHalf(b) !in s
    ensures Tiles(s - {b} + {LeftHalf(b), RightHalf(b)}, lo, hi)
  {
    var l, r := LeftHalf(b), RightHalf(b);
    HalvesAreBuddies(b);
    HalvesCover(b, l, r);
    SwapTiles(s, lo, hi, {b}, {l, r});
  }

  lemma {:induction false} MergeTiles(s: set<Block>, lo: nat, hi: nat, b: Block, d: Block, p: Block)
    requires Tiles(s, lo, hi) && b in s && d in s && AreHalves(b, d, p) && Aligned(p)
    ensures p !in s && lo <= p.addr
    ensures Tiles(s - {b, d} + {p}, lo, hi)
  {
    HalvesCover(p, b, d);
    SwapTiles(s, lo, hi, {b, d}, {p});
  }

  /** Replacing a free block by its halves. */
  lemma {:induction false} SplitTiling(free: set<Block>, live: set<Block>, lo: nat, hi: nat, b: Block)
    requires Tiling(free, live, lo, hi) && b in free && b.order > 0
    ensures LeftHalf(b) !in free && RightHalf(b) !in free
    ensures Tiling(free - {b} + {LeftHalf(b), RightHalf(b)}, live, lo, hi)
  {
    var l, r := LeftHalf(b), RightHalf(b);
    SplitTiles(free + live, lo, hi, b);
    SplitWeight(free, b);
    assert free - {b} + {l, r} + live == (free + live) - {b} + {l, r};
  }

  lemma {:induction false} SplitWeight(free: set<Block>, b: Block)
    requires b in free && b.order > 0 && LeftHalf(b) !in free && RightHalf(b) !in free
    ensures Weight(free - {b} + {LeftHalf(b), RightHalf(b)}) == Weight(free)
  {
    var l, r, rest := LeftHalf(b), RightHalf(b), free - {b};
    assert rest + {l, r} == rest + {l} + {r};
    WeightRemove(free, b);
    WeightAdd(rest, l);
    WeightAdd(rest + {l}, r);
  }

  /** Replacing a free block and its free buddy by the block they form. */
  lemma {:induction false} MergeTiling(free: set<Block>, live: set<Block>, lo: nat, hi: nat, b: Block)
    requires Tiling(free, live, lo, hi) && b in free && b.order < MAX_ORDER && BuddyOf(b) in free
    ensures Aligned(ParentOf(b)) && ParentOf(b) !in free + live && lo <= ParentOf(b).addr
    ensures Tiling(free - {b, BuddyOf(b)} + {ParentOf(b)}, live, lo, hi)
  {
    BuddyShape(b);
    var d, p := BuddyOf(b), ParentOf(b);
    hide Pow2, Xor, IsMultiple, Size;
    MergeTiles(free + live, lo, hi, b, d, p);
    assert free - {b, d} + {p} + live == (free + live) - {b, d} + {p};
    MergeWeight(free, b, d, p);
  }

  lemma {:induction false} MergeWeight(free: set<Block>, b: Block, d: Block, p: Block)
    requires b in free && d in free && b != d && p !in free && AreHalves(b, d, p)
    ensures Weight(free - {b, d} + {p}) == Weight(free)
  {
    var rest := free - {b, d};
    assert rest == free - {b} - {d};
    WeightRemove(free, b);
    WeightRemove(free - {b}, d);
    WeightAdd(rest, p);
    hide Weight;
    assert Size(p.order) == 2 * Size(p.order - 1);
  }

  /** Handing a free block out, or taking it back, moves it across the tiling. */
  lemma {:induction false} MoveTiling(from: set<Block>, to: set<Block>, b: Block)
    requires b in from && from !! to
    ensures (from - {b}) + (to + {b}) == from + to && (from - {b}) !! (to + {b})
    ensures Weight(from - {b}) + Weight(to + {b}) == Weight(from) + Weight(to)
  {
    WeightRemove(from, b);
    WeightAdd(to, b);
  }

  lemma {:induction false} AllocTiling(free: set<Block>, live: set<Block>, lo: nat, hi: nat, b: Block)
    requires Tiling(free, live, lo, hi) && b in free
    ensures Tiling(free - {b}, live + {b}, lo, hi)
  {
    MoveTiling(free, live, b);
  }

  lemma {:induction false} FreeTiling(free: set<Block>, live: set<Block>, lo: nat, hi: nat, b: Block)
    requires Tiling(free, live, lo, hi) && b in live
    ensures Tiling(free + {b}, live - {b}, lo, hi)
  {
    MoveTiling(live, free, b);
    assert (free + {b}) + (live - {b}) == free + live;
  }

  /** Extending a tiling of [lo, mid) by one block placed at mid. */
  lemma {:induction false} AppendTiling(free: set<Block>, lo: nat, mid: nat, b: Block)
    requires Tiling(free, {}, lo, mid) && Aligned(b) && b.addr == mid && lo <= mid
    ensures b !in free && Tiling(free + {b}, {}, lo, End(b))
  {
    assert free + {} == free && free + {b} + {} == free + {b};
    WeightAdd(free, b);
    forall x: int | lo <= x < End(b) ensures CoveredBy(free + {b}, x) {
      if x < mid {
        assert CoveredBy(free, x);
      } else {
        assert Covers(b, x);
      }
    }
  }

  // ---- Canonical form ----

  /** No two buddies below the maximal order are both free. */
  ghost predicate Canonical(free: set<Block>) {
    forall b :: b in free && b.order < MAX_ORDER ==> BuddyOf(b) !in free
  }

  /** Canonical, except that `c` and its buddy may both be free. */
  ghost predicate CanonicalExcept(free: set<Block>, c: Block) {
    forall b :: b in free && b.order < MAX_ORDER && b != c && BuddyOf(b) != c ==> BuddyOf(b) !in free
  }

  lemma {:induction false} CanonicalAfterSplit(free: set<Block>, b: Block)
    requires b in free && b.order > 0 && CanonicalExcept(free, b)
    requires forall c :: c in free ==> Aligned(c)
    ensures CanonicalExcept(free - {b} + {LeftHalf(b), RightHalf(b)}, LeftHalf(b))
  {
    hide Pow2, Xor, IsMultiple, Size;
    var l, r := LeftHalf(b), RightHalf(b);
    HalvesAreBuddies(b);
    var free' := free - {b} + {l, r};
    forall c | c in free' && c.order < MAX_ORDER && c != l && BuddyOf(c) != l
      ensures BuddyOf(c) !in free'
    {
      if c != r {
        BuddyInvolution(c);
      }
    }
  }

  lemma {:induction false} CanonicalAfterMerge(free: set<Block>, b: Block)
    requires b in free && b.order < MAX_ORDER && CanonicalExcept(free, b) && BuddyOf(b) in free
    requires forall c :: c in free ==> Aligned(c)
    ensures CanonicalExcept(free - {b, BuddyOf(b)} + {ParentOf(b)}, ParentOf(b))
  {
    var d, p := BuddyOf(b), ParentOf(b);
    var free' := free - {b, d} + {p};
    forall c | c in free' && c.order < MAX_ORDER && c != p && BuddyOf(c) != p
      ensures BuddyOf(c) !in free'
    {
      BuddyInvolution(c);
    }
  }

  lemma {:induction false} CanonicalWhenMergingStops(free: set<Block>, c: Block)
    requires CanonicalExcept(free, c) && c in free
    requires c.order == MAX_ORDER || BuddyOf(c) !in free
    requires forall b :: b in free ==> Aligned(b)
    ensures Canonical(free)
  {
    forall b | b in free && b.order < MAX_ORDER ensures BuddyOf(b) !in free {
      BuddyInvolution(b);
    }
  }

  /** What greedy seeding leaves: each block is as large as its alignment and the end allow. */
  ghost predicate Greedy(b: Block, end: nat) {
    b.order == MAX_ORDER || !IsMultiple(b.addr, Size(b.order + 1)) || b.addr + Size(b.order + 1) > end
  }

  lemma {:induction false} GreedyIsCanonical(free: set<Block>, lo: nat, hi: nat)
    requires Tiling(free, {}, lo, hi) && forall b :: b in free ==> Greedy(b, hi)
    ensures Canonical(free)
  {
    forall b | b in free && b.order < MAX_ORDER ensures BuddyOf(b) !in free {
      GreedyHasNoBuddy(free, lo, hi, b);
    }
  }

  lemma {:induction false} GreedyHasNoBuddy(free: set<Block>, lo: nat, hi: nat, b: Block)
    requires Tiling(free, {}, lo, hi) && b in free && b.order < MAX_ORDER && forall c :: c in free ==> Greedy(c, hi)
    ensures BuddyOf(b) !in free
  {
    hide Pow2, Xor, IsMultiple, Weight, CoversRange, PairwiseDisjoint, Greedy, Size;
    var p := ParentOf(b);
    assert b in free + {};
    BuddyShape(b);
    if BuddyOf(b) in free {
      assert BuddyOf(b) in free + {};
      LeftNotGreedy(p, hi);
    }
  }

  /** A left half could have been twice as large if the right half fits. */
  lemma LeftNotGreedy(p: Block, end: nat)
    requires 0 < p.order <= MAX_ORDER && IsMultiple(p.addr, Size(p.order)) && End(RightHalf(p)) <= end
    ensures !Greedy(LeftHalf(p), end)
  {
  }

  // ---- What the canonical form buys ----

  ghost predicate FullyFree(free: set<Block>, b: Block) {
    forall x: int :: Covers(b, x) ==> CoveredBy(free, x)
  }

  lemma {:induction false} FullyFreeInside(free: set<Block>, outer: Block, inner: Block)
    requires FullyFree(free, outer) && Contains(outer, inner)
    ensures FullyFree(free, inner)
  {
    forall x: int | Covers(inner, x) ensures CoveredBy(free, x) {
      assert Covers(outer, x);
    }
  }

  /** In canonical form, free blocks around the two halves of b are one block around b. */
  lemma {:induction false} OneBlockAroundBoth(free: set<Block>, b: Block, c: Block, d: Block)
    requires Canonical(free) && c in free && d in free && Aligned(b) && Aligned(c) && Aligned(d) && b.order > 0
    requires Contains(c, LeftHalf(b)) && LeftHalf(b).order <= c.order
    requires Contains(d, RightHalf(b)) && RightHalf(b).order <= d.order
    ensures (Contains(c, b) && b.order <= c.order) || (Contains(d, b) && b.order <= d.order)
  {
    HalvesAreBuddies(b);
    var l, r := LeftHalf(b), RightHalf(b);
    if c.order > l.order {
      ParentInside(l, c);
    } else {
      NestedOrDisjoint(l, c);
      BuddyInvolution(l);
      if d.order > r.order {
        ParentInside(r, d);
      } else {
        NestedOrDisjoint(r, d);
      }
    }
  }

  /** In canonical form an aligned run of free pages always lies inside one free block. */
  lemma {:induction false} FreeRunInOneBlock(free: set<Block>, live: set<Block>, lo: nat, hi: nat, b: Block)
      returns (c: Block)
    requires Tiling(free, live, lo, hi) && Canonical(free)
    requires Aligned(b) && FullyFree(free, b)
    ensures c in free && Aligned(c) && Contains(c, b) && b.order <= c.order
    decreases b.order
  {
    if b.order == 0 {
      assert Covers(b, b.addr);
      c :| c in free && Covers(c, b.addr);
      assert c in free + live;
      NestedOrDisjoint(b, c);
    } else {
      HalvesAreBuddies(b);
      FullyFreeInside(free, b, LeftHalf(b));
      FullyFreeInside(free, b, RightHalf(b));
      c := FreeRunInOneBlock(free, live, lo, hi, LeftHalf(b));
      var d := FreeRunInOneBlock(free, live, lo, hi, RightHalf(b));
      OneBlockAroundBoth(free, b, c, d);
      c := if b.order <= c.order && Contains(c, b) then c else d;
    }
  }

  /** Maximal among the aligned blocks made only of free pages. */
  ghost predicate MaximalFree(free: set<Block>, b: Block) {
    && Aligned(b)
    && FullyFree(free, b)
    && (b.order == MAX_ORDER || !FullyFree(free, ParentOf(b)))
  }

  lemma {:induction false} NestedInTiling(s: set<Block>, b: Block, c: Block)
    requires PairwiseDisjoint(s) && b in s && c in s && Contains(c, b)
    ensures b == c
  {
    assert !Disjoint(b, c);
  }

  lemma {:induction false} FullyFreeMember(free: set<Block>, b: Block)
    requires b in free
    ensures FullyFree(free, b)
  {
  }

  lemma {:induction false} FreeBlockIsMaximal(free: set<Block>, live: set<Block>, lo: nat, hi: nat, b: Block)
    requires Tiling(free, live, lo, hi) && Canonical(free) && b in free
    ensures MaximalFree(free, b)
  {
    hide Pow2, Xor, IsMultiple, Weight, CoversRange, FullyFree, Canonical, PairwiseDisjoint;
    assert b in free + live;
    FullyFreeMember(free, b);
    if b.order < MAX_ORDER && FullyFree(free, ParentOf(b)) {
      InsideParent(b);
      var c := FreeRunInOneBlock(free, live, lo, hi, ParentOf(b));
      NestedInTiling(free + live, b, c);
    }
  }

  lemma InsideParent(b: Block)
    requires Aligned(b) && b.order < MAX_ORDER
    ensures Aligned(ParentOf(b)) && Contains(ParentOf(b), b) && ParentOf(b).order == b.order + 1
  {
    BuddyShape(b);
    HalfInside(ParentOf(b), b);
    hide Pow2, Xor, IsMultiple;
  }

  lemma HalfInside(p: Block, b: Block)
    requires p.order > 0 && (b == LeftHalf(p) || b == RightHalf(p))
    ensures Contains(p, b)
  {
    assert Size(p.order) == 2 * Size(p.order - 1);
  }

  lemma {:induction false} MaximalBlockIsFree(free: set<Block>, live: set<Block>, lo: nat, hi: nat, b: Block)
    requires Tiling(free, live, lo, hi) && Canonical(free) && MaximalFree(free, b)
    ensures b in free
  {
    var c := FreeRunInOneBlock(free, live, lo, hi, b);
    if c.order > b.order {
      ParentInside(b, c);
      FullyFreeMember(free, c);
      FullyFreeInside(free, c, ParentOf(b));
    } else {
      NestedOrDisjoint(b, c);
    }
  }

  /** The free blocks are exactly the maximal aligned blocks of the free page set. */
  lemma {:induction false} FreeBlocksAreMaximal(free: set<Block>, live: set<Block>, lo: nat, hi: nat, b: Block)
    requires Tiling(free, live, lo, hi) && Canonical(free)
    ensures b in free <==> MaximalFree(free, b)
  {
    if b in free {
      FreeBlockIsMaximal(free, live, lo, hi, b);
    }
    if MaximalFree(free, b) {
      MaximalBlockIsFree(free, live, lo, hi, b);
    }
  }

  /** Canonical free sets over the same range are determined by the live blocks alone. */
  lemma {:induction false} CanonicalFormUnique(f: set<Block>, g: set<Block>, live: set<Block>, lo: nat, hi: nat)
    requires Tiling(f, live, lo, hi) && Canonical(f)
    requires Tiling(g, live, lo, hi) && Canonical(g)
    ensures f == g
  {
    SameFreePages(f, g, live, lo, hi);
    SameFreePages(g, f, live, lo, hi);
    forall b ensures b in f <==> b in g {
      FreeBlocksAreMaximal(f, live, lo, hi, b);
      FreeBlocksAreMaximal(g, live, lo, hi, b);
      assert FullyFree(f, b) <==> FullyFree(g, b);
      assert FullyFree(f, ParentOf(b)) <==> FullyFree(g, ParentOf(b));
    }
  }

  lemma {:induction false} SameFreePages(f: set<Block>, g: set<Block>, live: set<Block>, lo: nat, hi: nat)
    requires Tiling(f, live, lo, hi) && Tiling(g, live, lo, hi)
    ensures forall x: int :: CoveredBy(f, x) ==> CoveredBy(g, x)
  {
    hide Pow2, IsMultiple, Weight;
    forall x: int | CoveredBy(f, x) ensures CoveredBy(g, x) {
      var b :| b in f && Covers(b, x);
      assert b in f + live;
      assert CoveredBy(g + live, x);
      var c :| c in g + live && Covers(c, x);
      assert c in live ==> c in f + live;
    }
  }

  /** The first pages of an aligned block form a smaller aligned block. */
  lemma {:induction false} SmallerPrefix(b: Block, order: nat)
    requires Aligned(b) && order <= b.order
    ensures Aligned(Block(b.addr, order)) && Contains(b, Block(b.addr, order))
    decreases b.order
  {
    if order < b.order {
      HalvesAreBuddies(b);
      SmallerPrefix(LeftHalf(b), order);
    }
  }

  /**
   A request of a given order can be served exactly when some aligned run of that many
   pages is free: fragmentation never hides a usable run.
   */
  lemma {:induction false} ServableIffFreeRun(free: set<Block>, live: set<Block>, lo: nat, hi: nat, order: nat)
    requires Tiling(free, live, lo, hi) && Canonical(free) && order <= MAX_ORDER
    ensures (exists b :: b in free && b.order >= order)
            <==> (exists b :: Aligned(b) && b.order == order && FullyFree(free, b))
  {
    if b :| b in free && b.order >= order {
      assert b in free + live;
      var c := Block(b.addr, order);
      SmallerPrefix(b, order);
      forall x: int | Covers(c, x) ensures CoveredBy(free, x) {
        assert Covers(b, x);
      }
      assert FullyFree(free, c);
    }
    if b :| Aligned(b) && b.order == order && FullyFree(free, b) {
      var c := FreeRunInOneBlock(free, live, lo, hi, b);
    }
  }
}
