/**
 Who owns which bytes of the kernel heap: live requests, the arenas that hold the small
 ones and the page blocks behind the large ones, and what the byte counters add up to.
 */
module HeapOwnership {
  import opened Bits
  import opened InMemLists
  import opened BuddyBlocks
  import opened BuddyAllocators
  import opened HeapArenas

  /** The bytes a request is accounted with: its class's block size, or its rounded size. */
  function Footprint(l: Layout): nat {
    Max(RoundedSize(l), 8)
  }

  lemma FootprintIs(l: Layout)
    requires Acceptable(l)
    ensures Footprint(l) == if Spilled(l) then RoundedSize(l) else BlockSize(ClassOf(l))
  {
    if !Spilled(l) {
      ClassFits(l);
    }
  }

  /** The bytes a live request owns. */
  function OwnedBytes(l: Layout): nat
    requires RoundedSize(l) > 0
  {
    if Spilled(l) then Size(OrderFor(PagesFor(l))) else BlockSize(ClassOf(l))
  }

  type Requests = map<nat, Layout>

  lemma AcceptableSize(l: Layout)
    requires Acceptable(l)
    ensures RoundedSize(l) > 0
  {
  }

  /** The live blocks of descriptor i. */
  ghost predicate Uses(live: Requests, p: nat, i: nat) {
    p in live && Acceptable(live[p]) && !Spilled(live[p]) && ClassOf(live[p]) == i
  }

  ghost function UsedBy(live: Requests, i: nat): set<nat> {
    set p | p in live && Uses(live, p, i)
  }

  ghost function SpilledPtrs(live: Requests): set<nat> {
    set p | p in live && Spilled(live[p])
  }

  /** A small request is served by a block of one of its class's arenas. */
  ghost predicate InArena(p: nat, pages: set<nat>, i: nat) {
    && PageOf(p) in pages && PageOf(p) + ARENA_BYTES <= p
    && p + BlockSize(i) <= PageOf(p) + PG_SIZE && IsMultiple(p, BlockSize(i))
  }

  ghost predicate PlacedOk(live: Requests, p: nat, pages: seq<set<nat>>, blocks: set<Block>)
    requires |pages| == CLASSES && p in live
  {
    && Acceptable(live[p])
    && (!Spilled(live[p]) ==> ClassOf(live[p]) < CLASSES && InArena(p, pages[ClassOf(live[p])], ClassOf(live[p])))
    && (Spilled(live[p]) ==> Block(p, OrderFor(PagesFor(live[p]))) in blocks)
    && (Spilled(live[p]) ==> forall i :: 0 <= i < CLASSES ==> p !in pages[i])
  }

  /** Arenas are live page blocks of exactly one class, and every live request has its place. */
  ghost predicate HeapOwned(blocks: set<Block>, pages: seq<set<nat>>, live: Requests) {
    && |pages| == CLASSES
    && (forall i, p :: 0 <= i < CLASSES && p in pages[i] ==> IsPage(p) && Block(p, 0) in blocks)
    && (forall i, j :: 0 <= i < j < CLASSES ==> pages[i] !! pages[j])
    && (forall p :: p in live ==> PlacedOk(live, p, pages, blocks))
  }

  // ---- Geometry: what callers of the heap rely on ----

  /** A live block is aligned as requested and at least as large as requested. */
  lemma LiveBlockServes(blocks: set<Block>, pages: seq<set<nat>>, live: Requests, free: set<Block>, lo: nat, hi: nat,
                        p: nat)
    requires HeapOwned(blocks, pages, live) && Tiling(free, blocks, lo, hi) && p in live
    ensures Acceptable(live[p]) && p % live[p].align == 0
    ensures RoundedSize(live[p]) > 0 && live[p].size <= OwnedBytes(live[p])
    ensures !Spilled(live[p]) ==> PageOf(p) + ARENA_BYTES <= p && p + OwnedBytes(live[p]) <= PageOf(p) + PG_SIZE
  {
    hide Tiling, Pow2, IsMultiple;
    assert PlacedOk(live, p, pages, blocks);
    var l := live[p];
    if Spilled(l) {
      SpillFits(l);
      SpilledOnPage(free, blocks, lo, hi, Block(p, OrderFor(PagesFor(l))));
      MultipleTrans(p, PG_SIZE, l.align);
    } else {
      ClassFits(l);
      MultipleTrans(p, BlockSize(ClassOf(l)), l.align);
    }
    MultipleIffMod(p, l.align);
  }

  lemma SpilledOnPage(free: set<Block>, live: set<Block>, lo: nat, hi: nat, b: Block)
    requires Tiling(free, live, lo, hi) && b in live
    ensures IsMultiple(b.addr, PG_SIZE)
  {
    assert b in free + live;
    MultipleTimes(Pow2(b.order), PG_SIZE);
    MultipleTrans(b.addr, Size(b.order), PG_SIZE);
  }

  /** The page block that a live request lies in. */
  ghost function HomeOf(live: Requests, p: nat): Block
    requires p in live
  {
    if Spilled(live[p]) then Block(p, OrderFor(PagesFor(live[p]))) else Block(PageOf(p), 0)
  }

  lemma AtHome(blocks: set<Block>, pages: seq<set<nat>>, live: Requests, p: nat)
    requires HeapOwned(blocks, pages, live) && p in live
    ensures RoundedSize(live[p]) > 0 && HomeOf(live, p) in blocks
    ensures HomeOf(live, p).addr <= p && p + OwnedBytes(live[p]) <= End(HomeOf(live, p))
  {
    assert PlacedOk(live, p, pages, blocks);
    assert Size(0) == PG_SIZE;
  }

  /** Two live requests share no byte. */
  lemma LiveBlocksDisjoint(blocks: set<Block>, pages: seq<set<nat>>, live: Requests, free: set<Block>, lo: nat,
                           hi: nat, p: nat, q: nat)
    requires HeapOwned(blocks, pages, live) && Tiling(free, blocks, lo, hi) && p in live && q in live && p < q
    ensures RoundedSize(live[p]) > 0 && p + OwnedBytes(live[p]) <= q
  {
    hide Pow2, IsMultiple, OrderFor, ClassOf;
    AtHome(blocks, pages, live, p);
    AtHome(blocks, pages, live, q);
    AcceptableSize(live[q]);
    var b, c := HomeOf(live, p), HomeOf(live, q);
    assert b in free + blocks && c in free + blocks;
    if b == c {
      assert PlacedOk(live, p, pages, blocks) && PlacedOk(live, q, pages, blocks);
      SamePageSameClass(blocks, pages, live, p, q);
      if p + BlockSize(ClassOf(live[p])) > q {
        CloseMultiples(p, q, BlockSize(ClassOf(live[p])));
      }
    }
  }

  lemma SamePageSameClass(blocks: set<Block>, pages: seq<set<nat>>, live: Requests, p: nat, q: nat)
    requires HeapOwned(blocks, pages, live) && p in live && q in live && p < q && HomeOf(live, p) == HomeOf(live, q)
    ensures !Spilled(live[p]) && !Spilled(live[q]) && Acceptable(live[p]) && Acceptable(live[q])
    ensures ClassOf(live[p]) == ClassOf(live[q])
  {
    hide Pow2, IsMultiple, OrderFor, ClassOf, PageOf;
    assert PlacedOk(live, p, pages, blocks) && PlacedOk(live, q, pages, blocks);
  }

  /** A block fresh from a descriptor is not live yet. */
  lemma NotYetLive(blocks: set<Block>, pages: seq<set<nat>>, live: Requests, free: set<Block>, lo: nat, hi: nat,
                   i: nat, x: nat)
    requires HeapOwned(blocks, pages, live) && Tiling(free, blocks, lo, hi)
    requires i < CLASSES && PageOf(x) in pages[i] && PageOf(x) + ARENA_BYTES <= x && x !in UsedBy(live, i)
    ensures x !in live
  {
    hide Pow2, IsMultiple, OrderFor, ClassOf;
    if x in live {
      assert PlacedOk(live, x, pages, blocks);
      if Spilled(live[x]) {
        OverlapsHome(blocks, pages, live, free, lo, hi, x, Block(PageOf(x), 0));
      }
    }
  }

  lemma OverlapsHome(blocks: set<Block>, pages: seq<set<nat>>, live: Requests, free: set<Block>, lo: nat, hi: nat,
                     x: nat, b: Block)
    requires HeapOwned(blocks, pages, live) && Tiling(free, blocks, lo, hi) && x in live && b in blocks && Covers(b, x)
    ensures b == HomeOf(live, x)
  {
    hide Pow2, IsMultiple, OrderFor, ClassOf, PageOf;
    AtHome(blocks, pages, live, x);
    assert b in free + blocks && HomeOf(live, x) in free + blocks;
  }

  // ---- One request more or less ----

  lemma OwnedGrows(blocks: set<Block>, pages: seq<set<nat>>, live: Requests, free: set<Block>, blocks': set<Block>,
                   lo: nat, hi: nat, i: nat, more: set<nat>)
    requires HeapOwned(blocks, pages, live) && i < CLASSES && blocks <= blocks' && pages[i] <= more
    requires Tiling(free, blocks', lo, hi)
    requires forall p :: p in more ==> IsPage(p) && Block(p, 0) in blocks'
    requires forall p :: p in more && p !in pages[i] ==> Block(p, 0) !in blocks
    ensures HeapOwned(blocks', pages[i := more], live)
  {
    hide Pow2, IsMultiple, OrderFor, ClassOf, PageOf;
    var pages' := pages[i := more];
    forall p | p in live ensures PlacedOk(live, p, pages', blocks') {
      assert PlacedOk(live, p, pages, blocks);
      if Spilled(live[p]) && p in more {
        NotAtSpill(free, blocks', lo, hi, p, OrderFor(PagesFor(live[p])));
      }
    }
  }

  lemma NotAtSpill(free: set<Block>, blocks: set<Block>, lo: nat, hi: nat, p: nat, k: nat)
    requires Tiling(free, blocks, lo, hi) && Block(p, 0) in blocks && Block(p, k) in blocks
    ensures k == 0
  {
    assert Block(p, 0) in free + blocks && Block(p, k) in free + blocks;
  }

  lemma OwnedAdd(blocks: set<Block>, pages: seq<set<nat>>, live: Requests, x: nat, l: Layout)
    requires HeapOwned(blocks, pages, live) && x !in live && PlacedOk(live[x := l], x, pages, blocks)
    ensures HeapOwned(blocks, pages, live[x := l])
  {
    hide Pow2, IsMultiple, OrderFor, ClassOf, PageOf;
    var live' := live[x := l];
    forall p | p in live' ensures PlacedOk(live', p, pages, blocks) {
      if p != x {
        assert PlacedOk(live, p, pages, blocks);
      }
    }
  }

  lemma OwnedRemove(blocks: set<Block>, pages: seq<set<nat>>, live: Requests, x: nat)
    requires HeapOwned(blocks, pages, live)
    ensures HeapOwned(blocks, pages, live - {x})
  {
    hide Pow2, IsMultiple, OrderFor, ClassOf, PageOf;
    var live' := live - {x};
    forall p | p in live' ensures PlacedOk(live', p, pages, blocks) {
      assert PlacedOk(live, p, pages, blocks);
    }
  }

  lemma UsedByAdd(live: Requests, x: nat, l: Layout, i: nat)
    requires x !in live && Acceptable(l)
    ensures UsedBy(live[x := l], i) == if !Spilled(l) && ClassOf(l) == i then UsedBy(live, i) + {x} else UsedBy(live, i)
  {
    hide Pow2, ClassOf, Acceptable, Spilled;
    forall p ensures Uses(live[x := l], p, i) <==> Uses(live, p, i) || (p == x && !Spilled(l) && ClassOf(l) == i) {
    }
  }

  lemma UsedByRemove(live: Requests, x: nat, i: nat)
    requires x in live
    ensures UsedBy(live - {x}, i) == UsedBy(live, i) - {x}
  {
    hide Pow2, ClassOf, Acceptable, Spilled;
    forall p ensures Uses(live - {x}, p, i) <==> Uses(live, p, i) && p != x {
    }
  }

  // ---- Sums over the live requests ----

  ghost function Sum(live: Requests, s: set<nat>, w: Layout -> nat): nat
    requires s <= live.Keys
  {
    if s == {} then 0 else
      var p :| p in s;
      w(live[p]) + Sum(live, s - {p}, w)
  }

  lemma {:induction false} SumRemove(live: Requests, s: set<nat>, w: Layout -> nat, p: nat)
    requires s <= live.Keys && p in s
    ensures Sum(live, s, w) == w(live[p]) + Sum(live, s - {p}, w)
  {
    var q :| q in s && Sum(live, s, w) == w(live[q]) + Sum(live, s - {q}, w);
    if q != p {
      SumRemove(live, s - {q}, w, p);
      assert s - {q} - {p} == s - {p} - {q};
      SumRemove(live, s - {p}, w, q);
    }
  }

  lemma {:induction false} SumUnion(live: Requests, s: set<nat>, t: set<nat>, w: Layout -> nat)
    requires s <= live.Keys && t <= live.Keys && s !! t
    ensures Sum(live, s + t, w) == Sum(live, s, w) + Sum(live, t, w)
  {
    if s == {} {
      assert s + t == t;
    } else {
      var p :| p in s;
      SumRemove(live, s, w, p);
      SumRemove(live, s + t, w, p);
      assert s + t - {p} == (s - {p}) + t;
      SumUnion(live, s - {p}, t, w);
    }
  }

  lemma {:induction false} SumConstant(live: Requests, s: set<nat>, w: Layout -> nat, k: nat)
    requires s <= live.Keys && forall p :: p in s ==> w(live[p]) == k
    ensures Sum(live, s, w) == k * |s|
  {
    if s != {} {
      var p :| p in s;
      SumRemove(live, s, w, p);
      SumConstant(live, s - {p}, w, k);
      assert |s| == |s - {p}| + 1;
      assert k * |s| == k * |s - {p}| + k;
    }
  }

  lemma {:induction false} SumSame(live: Requests, live': Requests, s: set<nat>, w: Layout -> nat)
    requires s <= live.Keys && s <= live'.Keys && forall p :: p in s ==> live[p] == live'[p]
    ensures Sum(live, s, w) == Sum(live', s, w)
  {
    if s != {} {
      var p :| p in s;
      SumRemove(live, s, w, p);
      SumRemove(live', s, w, p);
      SumSame(live, live', s - {p}, w);
    }
  }

  /** The counters of spilled requests. */
  ghost predicate SpillCounted(live: Requests, bytes: nat, pages: nat) {
    && bytes == Sum(live, SpilledPtrs(live), RoundedSize)
    && pages == Sum(live, SpilledPtrs(live), PagesFor)
  }

  lemma SpillSum(live: Requests, x: nat, l: Layout, w: Layout -> nat)
    requires x !in live
    ensures Sum(live[x := l], SpilledPtrs(live[x := l]), w)
         == Sum(live, SpilledPtrs(live), w) + (if Spilled(l) then w(l) else 0)
  {
    hide Spilled;
    var live', s := live[x := l], SpilledPtrs(live);
    SumSame(live, live', s, w);
    if Spilled(l) {
      assert SpilledPtrs(live') == s + {x};
      SumRemove(live', s + {x}, w, x);
      assert s + {x} - {x} == s;
    } else {
      assert SpilledPtrs(live') == s;
    }
  }

  lemma SpillCountedAdd(live: Requests, x: nat, l: Layout, bytes: nat, pages: nat)
    requires x !in live && SpillCounted(live, bytes, pages)
    ensures if Spilled(l) then SpillCounted(live[x := l], bytes + RoundedSize(l), pages + PagesFor(l))
            else SpillCounted(live[x := l], bytes, pages)
  {
    SpillSum(live, x, l, RoundedSize);
    SpillSum(live, x, l, PagesFor);
  }

  lemma SpillCountedRemove(live: Requests, x: nat, bytes: nat, pages: nat)
    requires x in live && SpillCounted(live, bytes, pages)
    ensures if Spilled(live[x]) then
              && bytes >= RoundedSize(live[x]) && pages >= PagesFor(live[x])
              && SpillCounted(live - {x}, bytes - RoundedSize(live[x]), pages - PagesFor(live[x]))
            else SpillCounted(live - {x}, bytes, pages)
  {
    hide Spilled, RoundedSize, PagesFor;
    var rest := live - {x};
    assert rest[x := live[x]] == live;
    SpillSum(rest, x, live[x], RoundedSize);
    SpillSum(rest, x, live[x], PagesFor);
  }

  // ---- The classes together ----

  /** The small requests of the classes below k. */
  ghost function Below(live: Requests, k: nat): set<nat> {
    set p | p in live && exists i :: 0 <= i < k && Uses(live, p, i)
  }

  function Bytes(size: nat, count: nat): nat {
    size * count
  }

  ghost function UsedBytes(live: Requests, k: nat): nat {
    if k == 0 then 0 else UsedBytes(live, k - 1) + Bytes(BlockSize(k - 1), |UsedBy(live, k - 1)|)
  }

  lemma {:induction false} UsedBytesSum(live: Requests, k: nat)
    ensures Below(live, k) <= live.Keys
    ensures UsedBytes(live, k) == Sum(live, Below(live, k), Footprint)
  {
    hide Below, UsedBy, Footprint, BlockSize, Uses, Sum, Bytes;
    BelowKeys(live, k);
    if k == 0 {
      NoneBelow(live);
    } else {
      UsedBytesSum(live, k - 1);
      BelowStep(live, k);
      SumUnion(live, Below(live, k - 1), UsedBy(live, k - 1), Footprint);
      ClassSum(live, k - 1);
    }
  }

  lemma NoneBelow(live: Requests)
    ensures Below(live, 0) <= live.Keys && Sum(live, Below(live, 0), Footprint) == 0
  {
    hide Uses, Footprint;
    assert Below(live, 0) == {};
  }

  lemma BelowKeys(live: Requests, k: nat)
    ensures Below(live, k) <= live.Keys && (k > 0 ==> UsedBy(live, k - 1) <= live.Keys)
  {
  }

  /** All blocks of one class are accounted with the same size. */
  lemma {:induction false} ClassSum(live: Requests, i: nat)
    ensures UsedBy(live, i) <= live.Keys
    ensures Sum(live, UsedBy(live, i), Footprint) == Bytes(BlockSize(i), |UsedBy(live, i)|)
  {
    hide Pow2, ClassOf, RoundedSize, Acceptable, Spilled, Sum;
    var t := UsedBy(live, i);
    forall p | p in t ensures Footprint(live[p]) == BlockSize(i) {
      assert Uses(live, p, i);
      ClassFits(live[p]);
    }
    SumConstant(live, t, Footprint, BlockSize(i));
  }

  lemma BelowStep(live: Requests, k: nat)
    requires k > 0
    ensures Below(live, k) == Below(live, k - 1) + UsedBy(live, k - 1) && Below(live, k - 1) !! UsedBy(live, k - 1)
  {
    hide Pow2, ClassOf, Acceptable, Spilled;
    forall p | p in Below(live, k) ensures p in Below(live, k - 1) || p in UsedBy(live, k - 1) {
      var i :| 0 <= i < k && Uses(live, p, i);
      if i < k - 1 { assert p in Below(live, k - 1); }
    }
    forall p | p in UsedBy(live, k - 1) ensures p in Below(live, k) && p !in Below(live, k - 1) {
      assert Uses(live, p, k - 1);
    }
  }

  /** `allocated` is the sum of what each live request is accounted with. */
  lemma AllocatedIsSum(blocks: set<Block>, pages: seq<set<nat>>, live: Requests, bytes: nat, spilledPages: nat)
    requires HeapOwned(blocks, pages, live) && SpillCounted(live, bytes, spilledPages)
    ensures UsedBytes(live, CLASSES) + bytes == Sum(live, live.Keys, Footprint)
  {
    hide Pow2, IsMultiple, ClassOf, PageOf;
    UsedBytesSum(live, CLASSES);
    var s, t := Below(live, CLASSES), SpilledPtrs(live);
    forall p | p in live ensures p in s + t {
      assert PlacedOk(live, p, pages, blocks);
      if !Spilled(live[p]) { assert Uses(live, p, ClassOf(live[p])); }
    }
    assert s + t == live.Keys;
    assert s !! t;
    SumUnion(live, s, t, Footprint);
    SumAgree(live, t, RoundedSize, Footprint);
  }

  lemma {:induction false} SumAgree(live: Requests, s: set<nat>, v: Layout -> nat, w: Layout -> nat)
    requires s <= live.Keys && forall p :: p in s ==> v(live[p]) == w(live[p])
    ensures Sum(live, s, v) == Sum(live, s, w)
  {
    if s != {} {
      var p :| p in s;
      SumRemove(live, s, v, p);
      SumRemove(live, s, w, p);
      SumAgree(live, s - {p}, v, w);
    }
  }

  // ---- What spilled requests are counted with ----

  /** The bytes of the pages counted for a spilled request. */
  function CountedSpill(l: Layout): nat {
    PG_SIZE * PagesFor(l)
  }

  /** The bytes of the pages taken for it. */
  function TakenSpill(l: Layout): nat {
    Size(OrderFor(PagesFor(l)))
  }

  ghost predicate WholePowers(live: Requests, s: set<nat>) {
    forall p :: p in s && p in live ==> IsPowerOfTwo(PagesFor(live[p]))
  }

  lemma {:induction false} SumScaled(live: Requests, s: set<nat>)
    requires s <= live.Keys
    ensures Sum(live, s, CountedSpill) == PG_SIZE * Sum(live, s, PagesFor)
  {
    if s != {} {
      var p :| p in s;
      SumRemove(live, s, CountedSpill, p);
      SumRemove(live, s, PagesFor, p);
      SumScaled(live, s - {p});
    }
  }

  /** Of two weights, one never above the other, the sums agree exactly if all weights do. */
  lemma {:induction false} SumBelow(live: Requests, s: set<nat>, v: Layout -> nat, w: Layout -> nat)
    requires s <= live.Keys && forall p :: p in s ==> v(live[p]) <= w(live[p])
    ensures Sum(live, s, v) <= Sum(live, s, w)
    ensures Sum(live, s, v) == Sum(live, s, w) <==> forall p :: p in s ==> v(live[p]) == w(live[p])
  {
    if s != {} {
      var p :| p in s;
      SumRemove(live, s, v, p);
      SumRemove(live, s, w, p);
      SumBelow(live, s - {p}, v, w);
      assert forall q :: q in s <==> q == p || q in s - {p};
    }
  }

  /** One spilled request: counted against taken, and against its rounded size. */
  lemma SpillOne(l: Layout)
    requires Acceptable(l) && Spilled(l)
    ensures CountedSpill(l) <= TakenSpill(l) && (CountedSpill(l) == TakenSpill(l) <==> IsPowerOfTwo(PagesFor(l)))
    ensures IsPowerOfTwo(PagesFor(l)) ==> RoundedSize(l) <= CountedSpill(l)
  {
    SpillFits(l);
    SpillCountedExactly(l);
  }

  /**
   Over all live spilled requests, the pages counted hold the bytes taken if and only if
   each asks for a power of two of pages; then they also cover the bytes counted.
   */
  lemma SpillTotalsExact(blocks: set<Block>, pages: seq<set<nat>>, live: Requests, bytes: nat, spilledPages: nat)
    requires HeapOwned(blocks, pages, live) && SpillCounted(live, bytes, spilledPages)
    ensures PG_SIZE * spilledPages <= Sum(live, SpilledPtrs(live), TakenSpill)
    ensures PG_SIZE * spilledPages == Sum(live, SpilledPtrs(live), TakenSpill) <==> WholePowers(live, SpilledPtrs(live))
    ensures WholePowers(live, SpilledPtrs(live)) ==> bytes <= PG_SIZE * spilledPages
  {
    hide Spilled, RoundedSize, PagesFor, OrderFor, IsPowerOfTwo, CountedSpill, TakenSpill;
    var s := SpilledPtrs(live);
    SumScaled(live, s);
    forall p | p in s
      ensures CountedSpill(live[p]) <= TakenSpill(live[p])
      ensures CountedSpill(live[p]) == TakenSpill(live[p]) <==> IsPowerOfTwo(PagesFor(live[p]))
      ensures IsPowerOfTwo(PagesFor(live[p])) ==> RoundedSize(live[p]) <= CountedSpill(live[p])
    {
      assert PlacedOk(live, p, pages, blocks);
      SpillOne(live[p]);
    }
    SumBelow(live, s, CountedSpill, TakenSpill);
    if WholePowers(live, s) {
      SumBelow(live, s, RoundedSize, CountedSpill);
    }
  }
}
