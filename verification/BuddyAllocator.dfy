/**
 The buddy page allocator (src/mem/palloc.rs). The i-th free list holds the free blocks
 of 2^i pages; the lists are threaded through the free pages themselves.
 */
module BuddyAllocators {
  import opened Options
  import opened Bits
  import opened InMemLists
  import opened BuddyBlocks

  datatype AllocResult =
    | TooLarge              // assertion "request is too large"
    | Exhausted             // "memory is exhausted"
    | Allocated(ptr: nat)

  /** The order that serves a request of n pages. */
  function OrderFor(n: nat): (k: nat)
    ensures n <= Pow2(k) && (k > 0 ==> Pow2(k - 1) < n)
  {
    TrailingZerosOfPow2(CeilLog2(n));
    TrailingZeros(NextPowerOfTwo(n))
  }

  lemma OrderForBound(n: nat)
    ensures OrderFor(n) <= MAX_ORDER <==> n <= 256
  {
    assert Pow2(8) == 256 by { Pow2Add(4, 4); assert Pow2(4) == 16; }
    if n <= 256 {
      if OrderFor(n) > MAX_ORDER {
        Pow2Monotone(MAX_ORDER, OrderFor(n) - 1);
      }
    } else if OrderFor(n) <= MAX_ORDER {
      Pow2Monotone(OrderFor(n), MAX_ORDER);
    }
  }

  // ---- The free lists as a set of blocks ----

  ghost function FreeSet(items: seq<seq<nat>>): set<Block> {
    set k: nat, a | k < |items| && a in items[k] :: Block(a, k)
  }

  lemma {:induction false} FreeSetMember(items: seq<seq<nat>>, b: Block)
    ensures b in FreeSet(items) <==> b.order < |items| && b.addr in items[b.order]
  {
  }

  lemma {:induction false} FreeSetPush(items: seq<seq<nat>>, j: nat, x: nat)
    requires j < |items|
    ensures FreeSet(items[j := [x] + items[j]]) == FreeSet(items) + {Block(x, j)}
  {
    var items' := items[j := [x] + items[j]];
    forall b: Block ensures b in FreeSet(items') <==> b in FreeSet(items) + {Block(x, j)} {
      FreeSetMember(items, b);
      FreeSetMember(items', b);
    }
  }

  lemma {:induction false} FreeSetRemove(items: seq<seq<nat>>, j: nat, i: nat)
    requires j < |items| && i < |items[j]| && Distinct(items[j])
    ensures FreeSet(items[j := RemoveAt(items[j], i)]) == FreeSet(items) - {Block(items[j][i], j)}
  {
    var items' := items[j := RemoveAt(items[j], i)];
    forall b: Block ensures b in FreeSet(items') <==> b in FreeSet(items) - {Block(items[j][i], j)} {
      FreeSetMember(items, b);
      FreeSetMember(items', b);
      RemoveAtMember(items[j], i, b.addr);
    }
  }

  lemma {:induction false} RemoveAtMember(s: seq<nat>, i: nat, x: nat)
    requires i < |s| && Distinct(s)
    ensures x in RemoveAt(s, i) <==> x in s && x != s[i]
  {
    var t := RemoveAt(s, i);
    if x in s && x != s[i] {
      var k :| 0 <= k < |s| && s[k] == x;
      assert t[if k < i then k else k - 1] == x;
    }
    if x in t {
      var k :| 0 <= k < |t| && t[k] == x;
      assert s[if k < i then k else k + 1] == x;
    }
  }

  /** The base of a free block is not covered by any live block. */
  lemma {:induction false} FreeBaseNotLive(free: set<Block>, live: set<Block>, lo: nat, hi: nat, b: Block, c: Block)
    requires Tiling(free, live, lo, hi) && b in free && c in live
    ensures !Covers(c, b.addr)
  {
    assert b in free + live && c in free + live;
  }

  lemma {:induction false} NodeNotLive(items: seq<seq<nat>>, live: set<Block>, lo: nat, hi: nat, k: nat, c: Block,
                                       a: nat)
    requires Tiling(FreeSet(items), live, lo, hi) && k < |items| && c in live && Covers(c, a)
    ensures a !in items[k]
  {
    if a in items[k] {
      FreeBaseNotLive(FreeSet(items), live, lo, hi, Block(a, k), c);
    }
  }

  /** Words inside live blocks are the same in both memories. */
  ghost predicate LiveWordsKept(m: map<nat, nat>, n: map<nat, nat>, live: set<Block>) {
    forall b, a: nat :: b in live && Covers(b, a) ==> SameAt(m, n, a)
  }

  lemma LiveWordsReflexive(m: map<nat, nat>, live: set<Block>)
    ensures LiveWordsKept(m, m, live)
  {
  }

  lemma {:induction false} LiveWordsTransitive(m: map<nat, nat>, n: map<nat, nat>, o: map<nat, nat>, live: set<Block>)
    requires LiveWordsKept(m, n, live) && LiveWordsKept(n, o, live)
    ensures LiveWordsKept(m, o, live)
  {
    forall b, a: nat | b in live && Covers(b, a) ensures SameAt(m, o, a) {
      assert SameAt(m, n, a) && SameAt(n, o, a);
    }
  }

  lemma {:induction false} KeptAfterPushes(m: map<nat, nat>, n: map<nat, nat>,
                                           free: set<Block>, live: set<Block>, lo: nat, hi: nat, b: Block, c: Block)
    requires Tiling(free, live, lo, hi) && b in free && c in free
    requires forall a :: a != b.addr && a != c.addr ==> SameAt(m, n, a)
    ensures LiveWordsKept(m, n, live)
  {
    forall d, a: nat | d in live && Covers(d, a) ensures SameAt(m, n, a) {
      FreeBaseNotLive(free, live, lo, hi, b, d);
      FreeBaseNotLive(free, live, lo, hi, c, d);
    }
  }

  lemma {:induction false} KeptAfterMerge(m: map<nat, nat>, n: map<nat, nat>, items: seq<seq<nat>>,
                                          free: set<Block>, live: set<Block>, lo: nat, hi: nat, k: nat, p: Block,
                                            merged: bool)
    requires Tiling(FreeSet(items), live, lo, hi) && Tiling(free, live, lo, hi) && k < |items|
    requires merged ==> p in free
    requires forall a :: a !in items[k] && (merged ==> a != p.addr) ==> SameAt(m, n, a)
    ensures LiveWordsKept(m, n, live)
  {
    forall d, a: nat | d in live && Covers(d, a) ensures SameAt(m, n, a) {
      NodeNotLive(items, live, lo, hi, k, d, a);
      if merged {
        FreeBaseNotLive(free, live, lo, hi, p, d);
      }
    }
  }

  lemma {:induction false} ListsHaveNoCommonBlock(items: seq<seq<nat>>, live: set<Block>, lo: nat, hi: nat, j: nat)
    requires Tiling(FreeSet(items), live, lo, hi) && j < |items|
    ensures forall k, a :: 0 <= k < |items| && k != j && a in items[k] ==> a !in items[j]
  {
    var free := FreeSet(items);
    forall k, a | 0 <= k < |items| && k != j && a in items[k] ensures a !in items[j] {
      var b, c := Block(a, k), Block(a, j);
      FreeSetMember(items, b);
      FreeSetMember(items, c);
      assert b in free + live && !Disjoint(b, c);
      assert c in free ==> c in free + live;
    }
  }

  lemma CanonicalIsExcept(free: set<Block>, b: Block)
    requires Canonical(free)
    ensures CanonicalExcept(free, b)
  {
  }

  lemma {:induction false} StartEmpty(free: set<Block>, live: set<Block>, lo: nat, hi: nat, first: nat)
    requires Tiling(free, live, lo, hi) && lo == hi
    ensures free == {} && live == {} && Tiling({}, {}, first, first)
  {
    EmptyRange(free, live, lo, hi);
  }

  // ---- Arithmetic of seeding ----

  lemma {:induction false} SeedExponents(cur: nat, end: nat)
    requires 0 < cur < end && IsMultiple(cur, PG_SIZE) && IsMultiple(end - cur, PG_SIZE)
    ensures TrailingZeros(cur) >= PG_SHIFT && FloorLog2(end - cur) >= PG_SHIFT
  {
    Pow2PageShift(0);
    MultipleIffMod(cur, PG_SIZE);
    TrailingZerosDivides(cur, PG_SHIFT);
    if FloorLog2(end - cur) < PG_SHIFT {
      Pow2Strict(FloorLog2(end - cur), PG_SHIFT);
    }
  }

  lemma {:induction false} SeedOrderFits(cur: nat, end: nat, order: nat)
    requires 0 < cur < end && TrailingZeros(cur) >= PG_SHIFT && FloorLog2(end - cur) >= PG_SHIFT
    requires order == Min(Min(TrailingZeros(cur), FloorLog2(end - cur)) - PG_SHIFT, MAX_ORDER)
    ensures Aligned(Block(cur, order)) && End(Block(cur, order)) <= end && Greedy(Block(cur, order), end)
  {
    var t, q := TrailingZeros(cur), FloorLog2(end - cur);
    Pow2PageShift(order);
    TrailingZerosDivides(cur, order + PG_SHIFT);
    MultipleIffMod(cur, Size(order));
    Pow2Monotone(order + PG_SHIFT, q);
    if order < MAX_ORDER && order + PG_SHIFT == t {
      Pow2PageShift(order + 1);
      TrailingZerosDivides(cur, t + 1);
      MultipleIffMod(cur, Size(order + 1));
    }
  }

  lemma {:induction false} SeedAdvance(cur: nat, end: nat, order: nat)
    requires IsMultiple(cur, PG_SIZE) && cur + Size(order) <= end && IsMultiple(end - cur, PG_SIZE)
    ensures IsMultiple(cur + Size(order), PG_SIZE) && IsMultiple(end - (cur + Size(order)), PG_SIZE)
  {
    MultipleIffMod(cur, PG_SIZE);
    MultipleIffMod(end - cur, PG_SIZE);
    MultipleIffMod(cur + Size(order), PG_SIZE);
    MultipleIffMod(end - (cur + Size(order)), PG_SIZE);
  }

  lemma {:induction false} EmptyRange(free: set<Block>, live: set<Block>, lo: nat, hi: nat)
    requires Tiling(free, live, lo, hi) && lo == hi
    ensures free == {} && live == {}
  {
    forall b: Block ensures b !in free + live {
      assert Size(b.order) > 0;
    }
    assert free <= free + live && live <= free + live;
  }

  /** A list that is empty holds no block, and the head of a list is a free block. */
  lemma {:induction false} ListsAndBlocks(items: seq<seq<nat>>)
    ensures forall b :: b in FreeSet(items) ==> b.order < |items| && items[b.order] != []
    ensures forall i :: 0 <= i < |items| && items[i] != [] ==> Block(items[i][0], i) in FreeSet(items)
  {
    forall b | b in FreeSet(items) ensures b.order < |items| && items[b.order] != [] {
      FreeSetMember(items, b);
    }
    forall i | 0 <= i < |items| && items[i] != [] ensures Block(items[i][0], i) in FreeSet(items) {
      FreeSetMember(items, Block(items[i][0], i));
    }
  }

  /** The lists once the first block of list i is split down to list j, right halves left behind. */
  ghost predicate SplitDown(items: seq<seq<nat>>, items': seq<seq<nat>>, i: nat, j: nat) {
    && j <= i < |items| == |items'| && items[i] != []
    && (forall k :: 0 <= k < j || i < k < |items| ==> items'[k] == items[k])
    && (j == i ==> items'[i] == items[i])
    && (j < i ==> items'[i] == items[i][1..])
    && (j < i ==> items'[j] == [items[i][0], items[i][0] + Pow2(j) * PG_SIZE] + items[j])
    && (forall k :: j < k < i ==> items'[k] == [items[i][0] + Pow2(k) * PG_SIZE] + items[k])
  }

  lemma SplitDownStep(items: seq<seq<nat>>, now: seq<seq<nat>>, next: seq<seq<nat>>, i: nat, j: nat)
    requires SplitDown(items, now, i, j + 1) && now[j + 1] != []
    requires var base := now[j + 1][0];
             next == now[j + 1 := now[j + 1][1..]][j := [base, base + Pow2(j) * PG_SIZE] + now[j]]
    ensures SplitDown(items, next, i, j)
  {
  }

  // ---- What one step of the allocator does to the tiling ----

  /** A block taken from the free set leaves room for the two halves. */
  lemma {:induction false} SplitStepTiling(free: set<Block>, live: set<Block>, lo: nat, hi: nat, b: Block)
    requires Tiling(free, live, lo, hi) && b in free && b.order > 0 && CanonicalExcept(free, b)
    ensures var l, r := LeftHalf(b), RightHalf(b);
            && Tiling(free - {b} + {r} + {l}, live, lo, hi)
            && CanonicalExcept(free - {b} + {r} + {l}, l)
            && (forall d :: d in free - {b} ==> Disjoint(r, d))
            && (forall d :: d in free - {b} + {r} ==> Disjoint(l, d))
            && lo <= l.addr && lo <= r.addr
  {
    var l, r := LeftHalf(b), RightHalf(b);
    assert b in free + live;
    SplitTiling(free, live, lo, hi, b);
    assert forall c :: c in free ==> c in free + live;
    CanonicalAfterSplit(free, b);
    HalvesCover(b, l, r);
    assert free - {b} + {l, r} == free - {b} + {r} + {l};
  }

  lemma {:induction false} MergeStepTiling(free: set<Block>, live: set<Block>, lo: nat, hi: nat, b: Block)
    requires Tiling(free, live, lo, hi) && b in free && b.order < MAX_ORDER && BuddyOf(b) in free
    requires CanonicalExcept(free, b)
    ensures var d, p := BuddyOf(b), ParentOf(b);
            && Tiling(free - {d} - {b} + {p}, live, lo, hi)
            && CanonicalExcept(free - {d} - {b} + {p}, p)
            && (forall c :: c in free - {d} - {b} ==> Disjoint(p, c))
            && lo <= p.addr && d != b
  {
    var d, p := BuddyOf(b), ParentOf(b);
    assert forall c :: c in free ==> c in free + live;
    MergeTiling(free, live, lo, hi, b);
    CanonicalAfterMerge(free, b);
    BuddyShape(b);
    var t := free - {d} - {b} + {p};
    assert t == free - {b, d} + {p};
    assert forall c :: c in free - {d} - {b} ==> c in t + live && c != p;
    assert p in t + live;
  }

  lemma {:induction false} MergeStopTiling(free: set<Block>, live: set<Block>, lo: nat, hi: nat, b: Block)
    requires Tiling(free, live, lo, hi) && b in free && CanonicalExcept(free, b)
    requires b.order == MAX_ORDER || BuddyOf(b) !in free
    ensures Canonical(free)
  {
    assert forall c :: c in free ==> c in free + live;
    CanonicalWhenMergingStops(free, b);
  }

  lemma {:induction false} DeallocTiling(free: set<Block>, live: set<Block>, lo: nat, hi: nat, b: Block)
    requires Tiling(free, live, lo, hi) && b in live && Canonical(free)
    ensures Tiling(free + {b}, live - {b}, lo, hi) && CanonicalExcept(free + {b}, b)
    ensures Weight(live) == Weight(live - {b}) + Size(b.order)
    ensures forall d :: d in free ==> Disjoint(b, d)
    ensures Aligned(b) && lo <= b.addr
  {
    FreeTiling(free, live, lo, hi, b);
    WeightRemove(live, b);
    assert b in free + live;
    assert forall c :: c in free ==> c in free + live;
    assert CanonicalExcept(free + {b}, b);
  }

  lemma {:induction false} HandOutTiling(free: set<Block>, live: set<Block>, lo: nat, hi: nat, b: Block)
    requires Tiling(free, live, lo, hi) && b in free && CanonicalExcept(free, b)
    ensures Tiling(free - {b}, live + {b}, lo, hi) && Canonical(free - {b})
    ensures Weight(live + {b}) == Weight(live) + Size(b.order)
  {
    AllocTiling(free, live, lo, hi, b);
    WeightAdd(live, b);
  }

  lemma {:induction false} SeedStepTiling(free: set<Block>, lo: nat, cur: nat, end: nat, b: Block)
    requires Tiling(free, {}, lo, cur) && Aligned(b) && b.addr == cur && lo <= cur
    requires Greedy(b, end) && forall c :: c in free ==> Greedy(c, end)
    ensures Tiling(free + {b}, {}, lo, End(b)) && forall c :: c in free + {b} ==> Greedy(c, end)
    ensures forall d :: d in free ==> Disjoint(b, d)
  {
    AppendTiling(free, lo, cur, b);
    assert forall c :: c in free ==> c in free + {};
  }

  /** The lowest part of a free block is an aligned free run that overlaps no live block. */
  lemma {:induction false} PrefixOfFreeBlock(free: set<Block>, live: set<Block>, lo: nat, hi: nat, big: Block,
                                             order: nat)
    requires Tiling(free, live, lo, hi) && big in free && order <= big.order
    ensures var b := Block(big.addr, order); Aligned(b) && FullyFree(free, b) && b !in live
  {
    var b := Block(big.addr, order);
    assert big in free + live;
    SmallerPrefix(big, order);
    FullyFreeMember(free, big);
    FullyFreeInside(free, big, b);
    assert !Disjoint(b, big);
    assert b in live ==> b in free + live;
  }

  class BuddyAllocator {
    const mem: Memory
    const lists: seq<InMemList>
    var total: nat
    var allocatedPages: nat
    // The contents of the lists, as sequences and as a set of blocks.
    ghost var items: seq<seq<nat>>
    ghost var free: set<Block>
    // The range under control, the blocks handed out, and the blocks seeded at first.
    ghost var lo: nat
    ghost var hi: nat
    ghost var live: set<Block>
    ghost var seeded: set<Block>

    ghost predicate ListsOk()
      reads `items, `free, lists, mem
    {
      && |lists| == |items| == MAX_ORDER + 1
      && (forall j, k :: 0 <= j < k < |lists| ==> lists[j] != lists[k])
      && (forall k :: 0 <= k < |lists| ==> lists[k].mem == mem && lists[k].Valid() && lists[k].items == items[k])
      && free == FreeSet(items)
    }

    ghost predicate Tiled()
      reads `items, `free, `lo, `hi, `live, lists, mem
    {
      ListsOk() && lo > 0 && Tiling(free, live, lo, hi)
    }

    /** What every operation keeps. */
    ghost predicate Valid()
      reads this, lists, mem
    {
      && Tiled()
      && Canonical(free)
      && Tiling(seeded, {}, lo, hi) && Canonical(seeded)
      && lo + total == hi
      && allocatedPages * PG_SIZE == Weight(live)
    }

    constructor (mem: Memory)
      ensures Valid() && this.mem == mem && fresh(lists)
      ensures total == 0 && allocatedPages == 0 && live == {}
    {
      var ls: seq<InMemList> := [];
      ghost var empty: seq<seq<nat>> := [];
      while |ls| < MAX_ORDER + 1
        invariant |ls| == |empty| <= MAX_ORDER + 1 && fresh(ls)
        invariant forall j, k :: 0 <= j < k < |ls| ==> ls[j] != ls[k]
        invariant forall k :: 0 <= k < |ls| ==> ls[k].mem == mem && ls[k].Valid() && ls[k].items == empty[k] == []
      {
        var l := new InMemList(mem);
        ls := ls + [l];
        empty := empty + [[]];
      }
      this.mem, lists, total, allocatedPages := mem, ls, 0, 0;
      items, free, lo, hi, live, seeded := empty, FreeSet(empty), 1, 1, {}, {};
    }

    lemma Shape()
      requires ListsOk()
      ensures |lists| == |items| == MAX_ORDER + 1 && free == FreeSet(items)
    {
    }

    // ---- List operations lifted to the whole array of lists ----

    method PushTo(j: nat, item: nat)
      requires ListsOk() && j < |lists| && item != 0
      requires forall d :: d in free ==> Disjoint(Block(item, j), d)
      modifies `items, `free, lists[j], mem
      ensures ListsOk() && |lists| == |items| == MAX_ORDER + 1
      ensures items == old(items)[j := [item] + old(items)[j]]
      ensures free == old(free) + {Block(item, j)}
      ensures item in mem.words && mem.words == old(mem.words)[item := mem.words[item]]
    {
      forall k | 0 <= k < |lists| ensures item !in lists[k].items {
        FreeSetMember(items, Block(item, k));
        assert !Disjoint(Block(item, j), Block(item, k));
      }
      FreeSetPush(items, j, item);
      lists[j].Push(item);
      items := items[j := [item] + items[j]];
      free := free + {Block(item, j)};
      forall k | 0 <= k < |lists| && k != j ensures lists[k].Valid() {
        ChainFrame(old(mem.words), mem.words, lists[k].head, lists[k].items);
      }
    }

    method PopFrom(j: nat) returns (item: nat)
      requires ListsOk() && j < |lists| && items[j] != []
      modifies `items, `free, lists[j]
      ensures ListsOk() && |lists| == |items| == MAX_ORDER + 1
      ensures items == old(items)[j := old(items)[j][1..]]
      ensures item == old(items)[j][0]
      ensures free == old(free) - {Block(item, j)}
    {
      ChainDistinct(mem.words, lists[j].head, lists[j].items);
      FreeSetRemove(items, j, 0);
      assert RemoveAt(items[j], 0) == items[j][1..];
      var r := lists[j].Pop();
      item := r.value;
      items := items[j := items[j][1..]];
      free := free - {Block(item, j)};
    }

    /** Finds `target` in list j and unlinks it. */
    method TakeOut(j: nat, target: nat) returns (found: bool)
      requires Tiled() && j < |lists|
      modifies `items, `free, lists[j], mem
      ensures ListsOk() && |lists| == |items| == MAX_ORDER + 1
      ensures found <==> Block(target, j) in old(free)
      ensures !found ==> items == old(items)
      ensures free == old(free) - {Block(target, j)}
      ensures old(items)[j] != [] && old(items)[j][0] != target ==>
                items[j] != [] && items[j][0] == old(items)[j][0]
      ensures forall a :: a !in old(items)[j] ==> SameAt(old(mem.words), mem.words, a)
    {
      FreeSetMember(items, Block(target, j));
      var node, at := lists[j].Find(target);
      found := node.Some?;
      if found {
        ChainDistinct(mem.words, lists[j].head, lists[j].items);
        FreeSetRemove(items, j, at);
        ListsHaveNoCommonBlock(items, live, lo, hi, j);
        lists[j].Unlink(node.value, at);
        items := items[j := RemoveAt(items[j], at)];
        free := free - {Block(target, j)};
        forall k | 0 <= k < |lists| && k != j ensures lists[k].Valid() {
          ChainFrame(old(mem.words), mem.words, lists[k].head, lists[k].items);
        }
      }
    }

    // ---- Operations ----

    /** The order `insert_range` chooses at `cur`: the largest that fits and is aligned. */
    static method SeedOrder(cur: nat, end: nat) returns (order: nat)
      requires 0 < cur < end && IsMultiple(cur, PG_SIZE) && IsMultiple(end - cur, PG_SIZE)
      ensures Aligned(Block(cur, order)) && End(Block(cur, order)) <= end
      ensures Greedy(Block(cur, order), end)
    {
      var size := Min(Pow2(TrailingZeros(cur)), PrevPowerOfTwo(end - cur));
      SeedExponents(cur, end);
      ghost var t, q := TrailingZeros(cur), FloorLog2(end - cur);
      if t <= q { Pow2Monotone(t, q); } else { Pow2Monotone(q, t); }
      TrailingZerosOfPow2(Min(t, q));
      order := Min(TrailingZeros(size) - PG_SHIFT, MAX_ORDER);
      SeedOrderFits(cur, end, order);
    }

    /** One round of the seeding loop: the next free block, and where the one after it starts. */
    method SeedBlock(ghost first: nat, current: nat, last: nat) returns (next: nat)
      requires first <= current < last && 0 < current
      requires IsMultiple(current, PG_SIZE) && IsMultiple(last - current, PG_SIZE)
      requires ListsOk() && Tiling(free, {}, first, current) && forall b :: b in free ==> Greedy(b, last)
      modifies `items, `free, lists, mem
      ensures current < next <= last && IsMultiple(next, PG_SIZE) && IsMultiple(last - next, PG_SIZE)
      ensures ListsOk() && Tiling(free, {}, first, next) && forall b :: b in free ==> Greedy(b, last)
    {
      hide ListsOk, Tiling, Greedy, Canonical, Aligned, IsMultiple, FreeSet, Disjoint, SameAt;
      Shape();
      var order := SeedOrder(current, last);
      SeedAdvance(current, last, order);
      SeedStepTiling(free, first, current, last, Block(current, order));
      PushTo(order, current);
      next := current + Pow2(order) * PG_SIZE;
    }

    /** Take the pages of [start, end) under control. */
    method InsertRange(start: nat, end: nat)
      requires Valid() && total == 0
      requires 0 < start && RoundUp(start, PG_SIZE) <= RoundDown(end, PG_SIZE)
      modifies this, lists, mem
      ensures Valid() && live == {} && seeded == free
      ensures lo == RoundUp(start, PG_SIZE) && hi == RoundDown(end, PG_SIZE)
    {
      hide ListsOk, Tiling, Greedy, Canonical, Aligned, IsMultiple, FreeSet, Disjoint, SameAt;
      Shape();
      var first, last := RoundUp(start, PG_SIZE), RoundDown(end, PG_SIZE);
      StartEmpty(free, live, lo, hi, first);
      total := total + (last - first);
      lo, hi, live := first, last, {};
      var current := first;
      MultipleIffMod(first, PG_SIZE);
      MultipleIffMod(last - first, PG_SIZE);
      while current < last
        invariant first <= current <= last
        invariant IsMultiple(current, PG_SIZE) && IsMultiple(last - current, PG_SIZE)
        invariant ListsOk() && |lists| == MAX_ORDER + 1 && Tiling(free, {}, first, current)
        invariant forall b :: b in free ==> Greedy(b, last)
        invariant total == last - first && lo == first && hi == last && live == {} && allocatedPages == 0
      {
        current := SeedBlock(first, current, last);
      }
      GreedyIsCanonical(free, first, last);
      seeded := free;
    }

    /** Split the first block of list j + 1 and push its halves onto list j. */
    method SplitStep(j: nat)
      requires Tiled() && j < MAX_ORDER && items[j + 1] != []
      requires CanonicalExcept(free, Block(items[j + 1][0], j + 1))
      modifies `items, `free, lists[j], lists[j + 1], mem
      ensures Tiled() && |items| == MAX_ORDER + 1 && items[j] != [] && items[j][0] == old(items[j + 1][0])
      ensures CanonicalExcept(free, Block(items[j][0], j))
      ensures var base := old(items)[j + 1][0];
              items ==
              old(items)[j + 1 := old(items)[j + 1][1..]][j := [base, base + Pow2(j) * PG_SIZE] + old(items)[j]]
      ensures LiveWordsKept(old(mem.words), mem.words, live)
    {
      hide ListsOk, Tiling, CanonicalExcept, Disjoint, FreeSet, LiveWordsKept;
      Shape();
      ghost var b := Block(items[j + 1][0], j + 1);
      FreeSetMember(items, b);
      SplitStepTiling(free, live, lo, hi, b);
      var block := PopFrom(j + 1);
      var half := block + Pow2(j) * PG_SIZE;
      PushTo(j, half);
      PushTo(j, block);
      assert [block] + ([half] + old(items)[j]) == [block, half] + old(items)[j];
      KeptAfterPushes(old(mem.words), mem.words, free, live, lo, hi, LeftHalf(b), RightHalf(b));
    }

    /** Split the first block of list i down to the wanted order and hand out its lowest part. */
    method TakeFrom(order: nat, i: nat) returns (ptr: nat)
      requires Valid() && order <= i <= MAX_ORDER && items[i] != []
      modifies this, lists, mem
      ensures Valid() && lo == old(lo) && hi == old(hi) && seeded == old(seeded)
      ensures ptr == old(items)[i][0]
      ensures |items| == |old(items)|
      ensures forall k :: 0 <= k < order || i < k < |items| ==> items[k] == old(items)[k]
      ensures items[i] == old(items)[i][1..]
      ensures forall k :: order <= k < i ==> items[k] == [ptr + Pow2(k) * PG_SIZE] + old(items)[k]
      ensures live == old(live) + {Block(ptr, order)}
      ensures LiveWordsKept(old(mem.words), mem.words, old(live))
    {
      hide ListsOk, Tiling, Canonical, CanonicalExcept, FreeSet, Disjoint, LiveWordsKept, Pow2;
      Shape();
      ghost var base := items[i][0];
      CanonicalIsExcept(free, Block(base, i));
      LiveWordsReflexive(mem.words, live);
      var j := i;
      while j > order
        invariant order <= j <= i && Tiled() && |items| == MAX_ORDER + 1
        invariant items[j] != [] && items[j][0] == base
        invariant CanonicalExcept(free, Block(base, j))
        invariant SplitDown(old(items), items, i, j)
        invariant LiveWordsKept(old(mem.words), mem.words, live)
        invariant lo == old(lo) && hi == old(hi) && seeded == old(seeded) && live == old(live)
        invariant total == old(total) && allocatedPages == old(allocatedPages)
      {
        j := j - 1;
        ghost var words, now := mem.words, items;
        SplitStep(j);
        SplitDownStep(old(items), now, items, i, j);
        LiveWordsTransitive(old(mem.words), words, mem.words, live);
      }
      ghost var b := Block(base, order);
      Shape();
      FreeSetMember(items, b);
      HandOutTiling(free, live, lo, hi, b);
      allocatedPages := allocatedPages + Pow2(order);
      ptr := PopFrom(order);
      live := live + {b};
    }

    /**
     Allocate n consecutive pages: the lowest part of the first block that is large
     enough. The request fails exactly when no aligned run of that many pages is free.
     */
    method Alloc(n: nat) returns (r: AllocResult)
      requires Valid()
      modifies this, lists, mem
      ensures Valid() && lo == old(lo) && hi == old(hi) && seeded == old(seeded)
      ensures r == TooLarge <==> n > 256
      ensures r == Exhausted <==>
                n <= 256 && !exists b :: Aligned(b) && b.order == OrderFor(n) && FullyFree(old(free), b)
      ensures !r.Allocated? ==> live == old(live) && items == old(items)
      ensures r.Allocated? ==>
                && (exists i :: OrderFor(n) <= i < |old(items)| && old(items)[i] != [] && r.ptr == old(items)[i][0]
                             && (forall k :: OrderFor(n) <= k < i ==> old(items)[k] == [])
                             && (forall b :: b in old(free) ==> b.order < OrderFor(n) || i <= b.order))
                && var b := Block(r.ptr, OrderFor(n));
                   Aligned(b) && FullyFree(old(free), b) && b !in old(live) && live == old(live) + {b}
      ensures LiveWordsKept(old(mem.words), mem.words, old(live))
    {
      hide ListsOk, Tiling, Canonical, FreeSet, Aligned, FullyFree, LiveWordsKept;
      Shape();
      LiveWordsReflexive(mem.words, live);
      OrderForBound(n);
      if n > 256 {
        return TooLarge;
      }
      var order := OrderFor(n);
      ServableIffFreeRun(free, live, lo, hi, order);
      ListsAndBlocks(items);
      var i := FindFit(order);
      if i < |lists| {
        PrefixOfFreeBlock(free, live, lo, hi, Block(items[i][0], i), order);
        var ptr := TakeFrom(order, i);
        r := Allocated(ptr);
      } else {
        r := Exhausted;
      }
    }

    /** The first non-empty list at or above the wanted order. */
    method FindFit(order: nat) returns (i: nat)
      requires ListsOk() && order <= MAX_ORDER
      ensures order <= i <= |lists| == |items|
      ensures i < |lists| ==> items[i] != []
      ensures forall k :: order <= k < i ==> items[k] == []
    {
      i := order;
      while i < |lists|
        invariant order <= i <= |lists|
        invariant forall k :: order <= k < i ==> items[k] == []
      {
        var empty := lists[i].IsEmpty();
        if !empty {
          return;
        }
        i := i + 1;
      }
    }

    /**
     Merge the first block of list k with its buddy, if the buddy is free. The two
     removals take out exactly the buddy and the block itself.
     */
    method MergeStep(k: nat, curr: nat) returns (merged: bool, next: nat)
      requires Tiled() && k < MAX_ORDER && items[k] != [] && items[k][0] == curr
      requires CanonicalExcept(free, Block(curr, k))
      modifies `items, `free, lists[k], lists[k + 1], mem
      ensures Tiled() && |items| == MAX_ORDER + 1
      ensures merged <==> BuddyOf(Block(curr, k)) in old(free)
      ensures !merged ==> Canonical(free) && items == old(items)
      ensures merged ==>
                && Block(next, k + 1) == ParentOf(Block(curr, k))
                && free == old(free) - {BuddyOf(Block(curr, k))} - {Block(curr, k)} + {Block(next, k + 1)}
                && items[k + 1] != [] && items[k + 1][0] == next
                && CanonicalExcept(free, Block(next, k + 1))
      ensures LiveWordsKept(old(mem.words), mem.words, live)
    {
      hide ListsOk, Tiling, Canonical, CanonicalExcept, Disjoint, FreeSet, LiveWordsKept;
      Shape();
      var buddy := Xor(curr, Pow2(k + PG_SHIFT));
      ghost var b := Block(curr, k);
      FreeSetMember(items, b);
      next := curr;
      if BuddyOf(b) in free {
        MergeStepTiling(free, live, lo, hi, b);
      } else {
        MergeStopTiling(free, live, lo, hi, b);
      }
      merged := TakeOut(k, buddy);
      ghost var words := mem.words;
      if merged {
        var popped := PopFrom(k);
        next := Min(curr, buddy);
        PushTo(k + 1, next);
      }
      forall a | a !in old(items)[k] && (merged ==> a != next) ensures SameAt(old(mem.words), mem.words, a) {
        assert SameAt(old(mem.words), words, a);
      }
      KeptAfterMerge(old(mem.words), mem.words, old(items), free, live, lo, hi, k, Block(next, k + 1), merged);
    }

    /** Return the block at ptr, obtained by a request of n pages. */
    method Dealloc(ptr: nat, n: nat)
      requires Valid() && Block(ptr, OrderFor(n)) in live
      modifies this, lists, mem
      ensures Valid() && lo == old(lo) && hi == old(hi) && seeded == old(seeded)
      ensures live == old(live) - {Block(ptr, OrderFor(n))}
      ensures LiveWordsKept(old(mem.words), mem.words, live)
    {
      hide ListsOk, Tiling, Canonical, CanonicalExcept, FreeSet, Disjoint, LiveWordsKept;
      Shape();
      var order := OrderFor(n);
      ghost var b := Block(ptr, order);
      DeallocTiling(free, live, lo, hi, b);
      live := live - {b};
      PushTo(order, ptr);
      KeptAfterPushes(old(mem.words), mem.words, free, live, lo, hi, b, b);
      var curr, k := ptr, order;
      var merging := true;
      while k < MAX_ORDER && merging
        invariant order <= k <= MAX_ORDER && Tiled() && |items| == MAX_ORDER + 1
        invariant items[k] != [] && items[k][0] == curr
        invariant if merging then CanonicalExcept(free, Block(curr, k)) else Canonical(free)
        invariant lo == old(lo) && hi == old(hi) && seeded == old(seeded) && live == old(live) - {b}
        invariant total == old(total) && allocatedPages == old(allocatedPages)
        invariant LiveWordsKept(old(mem.words), mem.words, live)
        decreases MAX_ORDER - k, merging
      {
        ghost var words := mem.words;
        var next;
        merging, next := MergeStep(k, curr);
        LiveWordsTransitive(old(mem.words), words, mem.words, live);
        if merging {
          curr := next;
          k := k + 1;
        }
      }
      if merging {
        Shape();
        FreeSetMember(items, Block(curr, k));
        MergeStopTiling(free, live, lo, hi, Block(curr, k));
      }
      allocatedPages := allocatedPages - Pow2(order);
    }

    /** Writes inside live blocks disturb neither the lists nor the invariant. */
    twostate lemma LiveWritesHarmless()
      requires old(Valid()) && unchanged(this) && unchanged(lists)
      requires forall a: nat :: SameAt(old(mem.words), mem.words, a) || CoveredBy(live, a)
      ensures Valid()
    {
      forall k | 0 <= k < |lists| ensures lists[k].Valid() {
        forall a | a in lists[k].items ensures SameAt(old(mem.words), mem.words, a) {
          if b: Block :| b in live && Covers(b, a) {
            NodeNotLive(items, live, lo, hi, k, b, a);
            assert false;
          }
          assert !CoveredBy(live, a);
        }
        ChainFrame(old(mem.words), mem.words, lists[k].head, lists[k].items);
      }
    }

    method ClientStore(ghost b: Block, addr: nat, w: nat)
      requires Valid() && b in live && Covers(b, addr)
      modifies mem
      ensures Valid() && mem.words == old(mem.words)[addr := w]
    {
      mem.Store(addr, w);
      LiveWritesHarmless();
    }

    /** Once everything is returned, the free blocks are again exactly the seeded ones. */
    lemma AllFreedRestoresSeed()
      requires Valid() && live == {}
      ensures free == seeded
    {
      CanonicalFormUnique(free, seeded, {}, lo, hi);
    }

    /** No byte is lost: what is handed out and what is free add up to `total`. */
    lemma Conservation()
      requires Valid()
      ensures allocatedPages * PG_SIZE + Weight(free) == total
    {
    }
  }
}
