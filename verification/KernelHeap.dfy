/**
 The kernel heap as its callers see it (src/mem/malloc.rs): small requests go to the
 descriptor of their class, larger ones to the page allocator.
 */
module KernelHeaps {
  import opened Options
  import opened Bits
  import opened InMemLists
  import opened BuddyBlocks
  import opened BuddyAllocators
  import opened HeapArenas
  import opened HeapOwnership
  import opened Heaps

  datatype HeapResult =
    | Dangling(ptr: nat)   // zero-sized requests get a pointer to nothing
    | Rejected             // the assertions on the alignment
    | NoMemory             // the page allocator halts
    | Served(ptr: nat)

  /** `NonNull::<u8>::dangling()` */
  const DANGLING: nat := 1

  /** The pointer for zero-sized requests is aligned only for an alignment of 1. */
  lemma DanglingMisaligned()
    ensures DANGLING % Layout(0, 8).align != 0
  {
  }

  /** The words of class j's pages survive what class i does. */
  lemma OtherClassKept(m: map<nat, nat>, n: map<nat, nat>, blocks: set<Block>, pages: seq<set<nat>>, live: Requests,
                       i: nat, j: nat)
    requires HeapOwned(blocks, pages, live) && i < CLASSES && j < CLASSES && i != j
    requires OtherPagesKept(m, n, blocks, pages[i])
    ensures PagesKept(m, n, pages[j])
  {
    hide PageOf, Pow2, LiveWordsKept, PlacedOk, PagesKept;
    assert pages[i] !! pages[j];
    forall b | b in PageBlocks(pages[j]) ensures b in blocks - PageBlocks(pages[i]) {
      assert b.addr in pages[j];
    }
    LivePagesKept(m, n, blocks - PageBlocks(pages[i]), pages[j]);
  }

  /** A class's pages are live blocks of the page allocator. */
  lemma ClassBacked(blocks: set<Block>, pages: seq<set<nat>>, live: Requests, i: nat)
    requires HeapOwned(blocks, pages, live) && i < CLASSES
    ensures PageBlocks(pages[i]) <= blocks
  {
    hide PageOf, Pow2, PlacedOk;
    forall b | b in PageBlocks(pages[i]) ensures b in blocks {
      assert b.addr in pages[i];
    }
  }

  lemma NothingLive(blocks: set<Block>)
    ensures SpillCounted(map[], 0, 0) && HeapOwned(blocks, seq(CLASSES, i => {}), map[])
    ensures forall i :: UsedBy(map[], i) == {}
  {
    assert SpilledPtrs(map[]) == {};
  }

  lemma GrownOwned(blocks: set<Block>, pages: seq<set<nat>>, live: Requests, free: set<Block>, blocks': set<Block>,
                   lo: nat, hi: nat, i: nat, more: set<nat>)
    requires HeapOwned(blocks, pages, live) && i < CLASSES && Grown(pages[i], more, blocks, blocks')
    requires Tiling(free, blocks', lo, hi) && PageBlocks(more) <= blocks' && forall p :: p in more ==> IsPage(p)
    ensures HeapOwned(blocks', pages[i := more], live)
  {
    hide Pow2, PageOf, PlacedOk, Tiling;
    forall p | p in more ensures Block(p, 0) in blocks' && (p !in pages[i] ==> Block(p, 0) !in blocks) {
      assert Block(p, 0) in PageBlocks(more);
      assert p !in pages[i] ==> Block(p, 0) in PageBlocks(more - pages[i]);
    }
    OwnedGrows(blocks, pages, live, free, blocks', lo, hi, i, more);
  }

  lemma OwnedAddSmall(blocks: set<Block>, pages: seq<set<nat>>, live: Requests, x: nat, l: Layout)
    requires HeapOwned(blocks, pages, live) && x !in live && Acceptable(l) && !Spilled(l)
    requires ClassOf(l) < CLASSES && InArena(x, pages[ClassOf(l)], ClassOf(l))
    ensures HeapOwned(blocks, pages, live[x := l])
  {
    hide Pow2, PageOf, ClassOf, IsMultiple;
    OwnedAdd(blocks, pages, live, x, l);
  }

  lemma OwnedAddSpilled(blocks: set<Block>, pages: seq<set<nat>>, live: Requests, free: set<Block>,
                        blocks': set<Block>, lo: nat, hi: nat, x: nat, l: Layout)
    requires HeapOwned(blocks, pages, live) && Acceptable(l) && Spilled(l) && Tiling(free, blocks', lo, hi)
    requires var b := Block(x, OrderFor(PagesFor(l))); b !in blocks && blocks' == blocks + {b}
    ensures x !in live && HeapOwned(blocks', pages, live[x := l])
  {
    hide Pow2, ClassOf, IsMultiple, OrderFor;
    var b := Block(x, OrderFor(PagesFor(l)));
    forall p | p in live ensures PlacedOk(live, p, pages, blocks') {
      assert PlacedOk(live, p, pages, blocks);
    }
    if x in live {
      OverlapsHome(blocks', pages, live, free, lo, hi, x, b);
      AtHome(blocks, pages, live, x);
    }
    forall i | 0 <= i < CLASSES ensures x !in pages[i] {
      if x in pages[i] {
        assert Block(x, 0) in blocks && b in blocks';
        NotAtSpill(free, blocks', lo, hi, x, b.order);
      }
    }
    OwnedAdd(blocks', pages, live, x, l);
  }

  lemma ClassKept(m: map<nat, nat>, n: map<nat, nat>, blocks: set<Block>, pages: seq<set<nat>>, live: Requests, j: nat)
    requires HeapOwned(blocks, pages, live) && j < CLASSES && LiveWordsKept(m, n, blocks)
    ensures PagesKept(m, n, pages[j])
  {
    hide PageOf, Pow2, LiveWordsKept, PlacedOk, PagesKept;
    ClassBacked(blocks, pages, live, j);
    LivePagesKept(m, n, blocks, pages[j]);
  }

  lemma LiveAcceptable(blocks: set<Block>, pages: seq<set<nat>>, live: Requests, p: nat)
    requires HeapOwned(blocks, pages, live) && p in live
    ensures Acceptable(live[p])
  {
    assert PlacedOk(live, p, pages, blocks);
  }

  lemma ClassCount(blocks: set<Block>, pages: seq<set<nat>>, live: Requests)
    requires HeapOwned(blocks, pages, live)
    ensures |pages| == CLASSES
  {
  }

  lemma IsUsed(live: Requests, p: nat)
    requires p in live && Acceptable(live[p]) && !Spilled(live[p])
    ensures p in UsedBy(live, ClassOf(live[p]))
  {
    assert Uses(live, p, ClassOf(live[p]));
  }

  lemma NotUsed(live: Requests, p: nat, i: nat)
    requires p in live && Acceptable(live[p]) && (Spilled(live[p]) || ClassOf(live[p]) != i)
    ensures UsedBy(live, i) - {p} == UsedBy(live, i)
  {
    assert !Uses(live, p, i);
  }

  lemma SpilledBlock(blocks: set<Block>, pages: seq<set<nat>>, live: Requests, p: nat)
    requires HeapOwned(blocks, pages, live) && p in live && Spilled(live[p])
    ensures Block(p, OrderFor(PagesFor(live[p]))) in blocks
  {
    assert PlacedOk(live, p, pages, blocks);
  }

  /** Returning a spilled block takes nothing from the other requests or the arenas. */
  lemma OwnedRemoveSpilled(blocks: set<Block>, pages: seq<set<nat>>, live: Requests, free: set<Block>, lo: nat,
                           hi: nat, x: nat)
    requires HeapOwned(blocks, pages, live) && x in live && Spilled(live[x]) && Tiling(free, blocks, lo, hi)
    ensures HeapOwned(blocks - {Block(x, OrderFor(PagesFor(live[x])))}, pages, live - {x})
  {
    hide Pow2, ClassOf, IsMultiple, OrderFor, PageOf, Tiling;
    var b := Block(x, OrderFor(PagesFor(live[x])));
    assert PlacedOk(live, x, pages, blocks);
    var live' := live - {x};
    forall p | p in live' ensures PlacedOk(live', p, pages, blocks - {b}) {
      assert PlacedOk(live, p, pages, blocks);
    }
  }

  /** All blocks of all arenas of the first k classes, in bytes. */
  ghost function ArenaBytes(pages: seq<set<nat>>, k: nat): nat
    requires k <= |pages| == CLASSES
  {
    if k == 0 then 0 else
      ClassSizes(k - 1);
      ArenaBytes(pages, k - 1) + Bytes(BlockSize(k - 1), Bytes(BlocksPerArena(BlockSize(k - 1)), |pages[k - 1]|))
  }

  ghost function ArenaCount(pages: seq<set<nat>>, k: nat): nat
    requires k <= |pages|
  {
    if k == 0 then 0 else ArenaCount(pages, k - 1) + |pages[k - 1]|
  }

  lemma CountedBytes(c: nat, al: nat, fr: nat, total: nat, frees: nat, useds: nat, pages: nat)
    requires 0 < BlockSize(c) <= MAX_BLKSIZE && Counted(c, al, fr, total, frees, useds, pages)
    ensures al == Bytes(BlockSize(c), useds)
    ensures fr + al == Bytes(BlockSize(c), Bytes(BlocksPerArena(BlockSize(c)), pages))
  {
    hide Pow2, BlocksPerArena;
    var bs := BlockSize(c);
    assert bs * frees + bs * useds == bs * (frees + useds);
  }

  /** The bytes of a live request. */
  ghost predicate Inside(live: Requests, p: nat, addr: nat) {
    p in live && RoundedSize(live[p]) > 0 && p <= addr < p + OwnedBytes(live[p])
  }

  lemma StoreHome(blocks: set<Block>, pages: seq<set<nat>>, live: Requests, p: nat, addr: nat) returns (home: Block)
    requires HeapOwned(blocks, pages, live) && Inside(live, p, addr)
    ensures home in blocks && Covers(home, addr)
  {
    AtHome(blocks, pages, live, p);
    home := HomeOf(live, p);
  }

  lemma InsideLive(blocks: set<Block>, pages: seq<set<nat>>, live: Requests, p: nat, addr: nat)
    requires HeapOwned(blocks, pages, live) && Inside(live, p, addr)
    ensures p in live && Acceptable(live[p])
  {
    assert PlacedOk(live, p, pages, blocks);
  }

  /** An address inside a spilled request is outside all arenas. */
  lemma WhereStored(blocks: set<Block>, pages: seq<set<nat>>, live: Requests, free: set<Block>, lo: nat, hi: nat,
                    p: nat, addr: nat, j: nat)
    requires HeapOwned(blocks, pages, live) && Tiling(free, blocks, lo, hi) && j < CLASSES
    requires Inside(live, p, addr) && Spilled(live[p])
    ensures PageOf(addr) !in pages[j]
  {
    hide Pow2, IsMultiple, OrderFor, ClassOf;
    AtHome(blocks, pages, live, p);
    assert PlacedOk(live, p, pages, blocks);
    var b, c := HomeOf(live, p), Block(PageOf(addr), 0);
    assert b in free + blocks && (PageOf(addr) in pages[j] ==> c in free + blocks);
    if PageOf(addr) in pages[j] {
      InPageBlock(PageOf(addr), addr);
    }
  }

  lemma StoredElsewhere(m: map<nat, nat>, n: map<nat, nat>, pages: set<nat>, addr: nat, w: nat)
    requires PageOf(addr) !in pages && n == m[addr := w]
    ensures PagesKept(m, n, pages)
  {
  }

  /** The request at p is aligned, large enough and, if small, in one page past the header. */
  ghost predicate Serves(live: Requests, p: nat)
    requires p in live
  {
    && Acceptable(live[p]) && RoundedSize(live[p]) > 0
    && p % live[p].align == 0 && live[p].size <= OwnedBytes(live[p])
    && (!Spilled(live[p]) ==> PageOf(p) + ARENA_BYTES <= p && p + OwnedBytes(live[p]) <= PageOf(p) + PG_SIZE)
  }

  lemma ServedAligned(live: Requests, p: nat)
    requires p in live && Serves(live, p)
    ensures live[p].align > 0 && p % live[p].align == 0
  {
  }

  lemma ServesAll(blocks: set<Block>, pages: seq<set<nat>>, live: Requests, free: set<Block>, lo: nat, hi: nat, p: nat)
    requires HeapOwned(blocks, pages, live) && Tiling(free, blocks, lo, hi) && p in live
    ensures Serves(live, p) && RoundedSize(live[p]) > 0
  {
    LiveBlockServes(blocks, pages, live, free, lo, hi, p);
  }

  /** The blocks of the arenas never exceed the pages counted for them. */
  lemma {:induction false} ArenaBytesFit(pages: seq<set<nat>>, k: nat)
    requires k <= |pages| == CLASSES
    ensures ArenaBytes(pages, k) <= PG_SIZE * ArenaCount(pages, k)
  {
    if k > 0 {
      hide BlocksPerArena, BlockSize, Bytes;
      ArenaBytesFit(pages, k - 1);
      ClassSizes(k - 1);
      OneArenaFits(BlockSize(k - 1));
      ScaledFit(BlockSize(k - 1), BlocksPerArena(BlockSize(k - 1)), |pages[k - 1]|);
    }
  }

  lemma OneArenaFits(bs: nat)
    requires 0 < bs <= MAX_BLKSIZE
    ensures BlocksPerArena(bs) * bs <= PG_SIZE
  {
    hide BlocksPerArena, RoundUp, IsMultiple;
    ArenaFits(bs);
  }

  lemma ScaledFit(bs: nat, n: nat, m: nat)
    requires n * bs <= PG_SIZE
    ensures Bytes(bs, Bytes(n, m)) <= PG_SIZE * m
  {
    assert bs * (n * m) == (n * bs) * m;
    MulMonotone(n * bs, PG_SIZE, m);
  }

  class Heap {
    const mem: Memory
    const buddy: BuddyAllocator
    const descs: seq<Desc>
    const lists: seq<InMemList>
    var spilledAlloc: nat
    var spilledTotal: nat
    ghost var live: Requests             // what is handed out, and for which request
    ghost var pages: seq<set<nat>>       // the arenas of each descriptor

    ghost predicate Wired() {
      && |descs| == |lists| == CLASSES && buddy.mem == mem
      && (forall i, j :: 0 <= i < j < CLASSES ==> descs[i] != descs[j] && lists[i] != lists[j])
      && (forall i :: 0 <= i < CLASSES ==>
            descs[i].cls == i && descs[i].mem == mem && descs[i].freeList == lists[i] && lists[i] !in buddy.lists)
    }

    /** Descriptor i is in the state it must have once the live requests are `requests`. */
    ghost predicate Matches(i: nat, requests: Requests)
      requires Wired() && i < CLASSES
      reads `pages, descs[i], lists[i], mem
    {
      && descs[i].Valid() && |pages| == CLASSES
      && descs[i].pages == pages[i] && descs[i].used == UsedBy(requests, i)
    }

    ghost predicate DescOk(i: nat)
      requires Wired() && i < CLASSES
      reads `live, `pages, descs[i], lists[i], mem
    {
      Matches(i, live)
    }

    ghost method Record(requests: Requests)
      requires Wired() && forall j :: 0 <= j < CLASSES ==> Matches(j, requests)
      modifies `live
      ensures live == requests && forall j :: 0 <= j < CLASSES ==> DescOk(j)
    {
      live := requests;
    }

    /** What every operation keeps. */
    ghost predicate Valid()
      reads this, descs, lists, mem, buddy, buddy.lists
    {
      && Wired() && buddy.Valid()
      && (forall i :: 0 <= i < CLASSES ==> DescOk(i))
      && HeapOwned(buddy.live, pages, live)
      && SpillCounted(live, spilledAlloc, spilledTotal)
    }

    /** The descriptors, with block sizes from 8 to 1024. */
    static method MakeDescs(mem: Memory) returns (ds: seq<Desc>, ls: seq<InMemList>)
      ensures |ds| == |ls| == CLASSES && fresh(ds) && fresh(ls)
      ensures forall i, j :: 0 <= i < j < CLASSES ==> ds[i] != ds[j] && ls[i] != ls[j]
      ensures forall i :: 0 <= i < CLASSES ==> ds[i].cls == i && ds[i].mem == mem && ds[i].freeList == ls[i]
      ensures forall i :: 0 <= i < CLASSES ==> ds[i].Valid() && ds[i].pages == {} && ds[i].used == {}
    {
      hide ArenasOk, Counted, Chain, Pow2;
      ds, ls := [], [];
      while |ds| < CLASSES
        invariant |ds| == |ls| <= CLASSES && fresh(ds) && fresh(ls)
        invariant forall i, j :: 0 <= i < j < |ds| ==> ds[i] != ds[j] && ls[i] != ls[j]
        invariant forall i :: 0 <= i < |ds| ==> ds[i].cls == i && ds[i].mem == mem && ds[i].freeList == ls[i]
        invariant forall i :: 0 <= i < |ds| ==> ds[i].Valid() && ds[i].pages == {} && ds[i].used == {}
      {
        var d := new Desc(|ds|, mem);
        ds, ls := ds + [d], ls + [d.freeList];
      }
    }

    constructor (mem: Memory, buddy: BuddyAllocator)
      requires buddy.Valid() && buddy.mem == mem
      ensures Valid() && this.mem == mem && this.buddy == buddy && live == map[]
    {
      hide ArenasOk, Counted, Chain, Tiling, Canonical, HeapOwned, SpillCounted;
      var ds, ls := MakeDescs(mem);
      this.mem, this.buddy, descs, lists, spilledAlloc, spilledTotal := mem, buddy, ds, ls, 0, 0;
      live, pages := map[], seq(CLASSES, i => {});
      NothingLive(buddy.live);
    }

    /** Descriptor i allocates; the others do not notice. */
    method AllocIn(i: nat) returns (r: Option<nat>)
      requires Valid() && i < CLASSES
      modifies `pages, descs[i], lists[i], mem, buddy, buddy.lists
      ensures Wired() && buddy.Valid() && |pages| == CLASSES && HeapOwned(buddy.live, pages, live)
      ensures forall j :: 0 <= j < CLASSES && j != i ==> DescOk(j)
      ensures r == None <==>
                old(lists[i].items) == [] && !exists b :: Aligned(b) && b.order == 0 && FullyFree(old(buddy.free), b)
      ensures pages == old(pages)[i := pages[i]] && i < |old(pages)|
      ensures Grown(old(pages)[i], pages[i], old(buddy.live), buddy.live)
      ensures old(lists[i].items) != [] ==> pages == old(pages) && r == Some(old(lists[i].items)[0])
      ensures old(lists[i].items) == [] && r.Some? ==> |pages[i]| == |old(pages)[i]| + 1
      ensures r == None ==> DescOk(i)
      ensures r.Some? ==> r.value !in live && descs[i].Valid() && descs[i].pages == pages[i]
                          && descs[i].used == UsedBy(live, i) + {r.value} && InArena(r.value, pages[i], i)
    {
      hide HeapOwned, SpillCounted, OtherPagesKept, PagesKept, Grown, FullyFree, Aligned, Tiling, Canonical, ArenasOk,
        Counted, Chain, UsedBy, Pow2, BlocksPerArena, FreeSet, Weight;
      assert DescOk(i);
      ClassBacked(buddy.live, pages, live, i);
      r := descs[i].Alloc(buddy);
      pages := pages[i := descs[i].pages];
      forall j | 0 <= j < CLASSES && j != i ensures DescOk(j) {
        assert old(DescOk(j));
        OtherClassKept(old(mem.words), mem.words, old(buddy.live), old(pages), live, i, j);
        descs[j].Undisturbed();
      }
      ArenaPages(mem.words, pages[i], Elems(lists[i].items), descs[i].used, i);
      GrownOwned(old(buddy.live), old(pages), live, buddy.free, buddy.live, buddy.lo, buddy.hi, i, pages[i]);
      if r.Some? {
        KnownBlock(mem.words, pages[i], Elems(lists[i].items), descs[i].used, i, r.value);
        NotYetLive(buddy.live, pages, live, buddy.free, buddy.lo, buddy.hi, i, r.value);
      }
    }

    /** A request served by a descriptor. */
    method AllocSmall(l: Layout) returns (r: HeapResult)
      requires Valid() && Acceptable(l) && !Spilled(l)
      modifies this, descs, lists, mem, buddy, buddy.lists
      ensures Valid() && spilledAlloc == old(spilledAlloc) && spilledTotal == old(spilledTotal)
      ensures r.Served? || r.NoMemory?
      ensures ClassOf(l) < CLASSES
      ensures r == NoMemory <==>
                && old(lists[ClassOf(l)].items) == []
                && !exists b :: Aligned(b) && b.order == 0 && FullyFree(old(buddy.free), b)
      ensures r == NoMemory ==> live == old(live)
      ensures r.Served? ==> r.ptr !in old(live) && live == old(live)[r.ptr := l]
      ensures ClassOf(l) < |pages| == |old(pages)| && pages == old(pages)[ClassOf(l) := pages[ClassOf(l)]]
      ensures Grown(old(pages)[ClassOf(l)], pages[ClassOf(l)], old(buddy.live), buddy.live)
      ensures old(lists[ClassOf(l)].items) != [] ==> pages == old(pages) && r == Served(old(lists[ClassOf(l)].items)[0])
      ensures old(lists[ClassOf(l)].items) == [] && r.Served? ==> |pages[ClassOf(l)]| == |old(pages)[ClassOf(l)]| + 1
    {
      hide HeapOwned, SpillCounted, FullyFree, Aligned, Tiling, Canonical, ArenasOk, Counted, Chain, Acceptable,
        Spilled, ClassOf, UsedBy, InArena, Pow2, Grown;
      ClassFits(l);
      var i := ClassOf(l);
      var b := AllocIn(i);
      if b == None {
        r := NoMemory;
      } else {
        r := Served(b.value);
        OwnedAddSmall(buddy.live, pages, live, b.value, l);
        SpillCountedAdd(live, b.value, l, spilledAlloc, spilledTotal);
        ghost var requests := live[b.value := l];
        forall j | 0 <= j < CLASSES ensures Matches(j, requests) {
          assert j != i ==> DescOk(j);
          UsedByAdd(live, b.value, l, j);
        }
        Record(requests);
      }
    }

    /** A request delegated to the page allocator. */
    method AllocSpilled(l: Layout) returns (r: HeapResult)
      requires Valid() && Acceptable(l) && Spilled(l)
      modifies this, mem, buddy, buddy.lists
      ensures r.Served? || r.NoMemory?
      ensures r == NoMemory <==>
                PagesFor(l) > 256
                || !exists b :: Aligned(b) && b.order == OrderFor(PagesFor(l)) && FullyFree(old(buddy.free), b)
      ensures r == NoMemory ==> live == old(live)
      ensures r.Served? ==> Valid() && r.ptr !in old(live) && live == old(live)[r.ptr := l]
      ensures r.Served? ==> pages == old(pages) && buddy.live == old(buddy.live) + {Block(r.ptr, OrderFor(PagesFor(l)))}
    {
      hide HeapOwned, SpillCounted, FullyFree, Aligned, Tiling, Canonical, ArenasOk, Counted, Chain, Acceptable,
        Spilled, UsedBy, Pow2, LiveWordsKept, PagesKept, RoundedSize, PagesFor;
      var n := PagesFor(l);
      spilledAlloc := spilledAlloc + RoundedSize(l);
      spilledTotal := spilledTotal + n;
      var p := buddy.Alloc(n);
      if !p.Allocated? {
        r := NoMemory;
      } else {
        r := Served(p.ptr);
        OwnedAddSpilled(old(buddy.live), pages, live, buddy.free, buddy.live, buddy.lo, buddy.hi, p.ptr, l);
        ghost var requests := live[p.ptr := l];
        forall j | 0 <= j < CLASSES ensures Matches(j, requests) {
          assert old(DescOk(j));
          ClassKept(old(mem.words), mem.words, old(buddy.live), pages, live, j);
          descs[j].Undisturbed();
          UsedByAdd(live, p.ptr, l, j);
        }
        SpillCountedAdd(live, p.ptr, l, old(spilledAlloc), old(spilledTotal));
        Record(requests);
      }
    }

    /**
     `alloc`: every kind of request, and exactly when each is turned down. What is served
     was not live before; `Valid` then says that it is aligned, large enough and disjoint
     from everything else that is live.
     */
    method Alloc(l: Layout) returns (r: HeapResult)
      requires Valid()
      modifies this, descs, lists, mem, buddy, buddy.lists
      ensures r.Dangling? <==> l.size == 0
      ensures r.Dangling? ==> r.ptr == DANGLING
      ensures (r.Dangling? || r.Served?) && l.align > 0 ==> (r.ptr % l.align == 0 <==> l.size > 0 || l.align == 1)
      ensures r == Rejected <==> l.size > 0 && !(IsPowerOfTwo(l.align) && l.align <= PG_SIZE)
      ensures !r.NoMemory? ==> Valid()
      ensures Acceptable(l) && Spilled(l) ==>
                (r == NoMemory <==>
                  PagesFor(l) > 256
                  || !exists b :: Aligned(b) && b.order == OrderFor(PagesFor(l)) && FullyFree(old(buddy.free), b))
      ensures Acceptable(l) && !Spilled(l) ==>
                && ClassOf(l) < |lists|
                && (r == NoMemory <==>
                     && old(lists[ClassOf(l)].items) == []
                     && !exists b :: Aligned(b) && b.order == 0 && FullyFree(old(buddy.free), b))
      ensures live == if r.Served? then old(live)[r.ptr := l] else old(live)
      ensures r.Served? ==> r.ptr !in old(live)
      ensures r.Served? && Spilled(l) ==>
                pages == old(pages) && buddy.live == old(buddy.live) + {Block(r.ptr, OrderFor(PagesFor(l)))}
      ensures r.Served? && !Spilled(l) ==>
                && ClassOf(l) < |pages| == |old(pages)| && pages == old(pages)[ClassOf(l) := pages[ClassOf(l)]]
                && Grown(old(pages)[ClassOf(l)], pages[ClassOf(l)], old(buddy.live), buddy.live)
                && (if old(lists[ClassOf(l)].items) != [] then
                      pages == old(pages) && r.ptr == old(lists[ClassOf(l)].items)[0]
                    else
                      |pages[ClassOf(l)]| == |old(pages)[ClassOf(l)]| + 1)
    {
      hide DescOk, HeapOwned, SpillCounted, FullyFree, Aligned, Tiling, Canonical, Spilled, IsPowerOfTwo, OrderFor,
        PagesFor, Grown, Serves;
      if l.size == 0 {
        assert l.align > 1 ==> DANGLING % l.align == DANGLING;
        return Dangling(DANGLING);
      }
      if !IsPowerOfTwo(l.align) || l.align > PG_SIZE {
        return Rejected;
      }
      if Spilled(l) {
        r := AllocSpilled(l);
      } else {
        r := AllocSmall(l);
      }
      if r.Served? {
        ServesAll(buddy.live, pages, live, buddy.free, buddy.lo, buddy.hi, r.ptr);
        ServedAligned(live, r.ptr);
      }
    }

    /** `dealloc` of what `alloc` handed out for the same layout; null is ignored. */
    method Dealloc(ptr: nat, l: Layout)
      requires Valid() && (ptr == 0 || (ptr in live && live[ptr] == l))
      modifies this, descs, lists, mem, buddy, buddy.lists
      ensures Valid() && live == (if ptr == 0 then old(live) else old(live) - {ptr}) && pages == old(pages)
      ensures ptr != 0 && Spilled(l) ==> buddy.live == old(buddy.live) - {Block(ptr, OrderFor(PagesFor(l)))}
      ensures ptr == 0 || !Spilled(l) ==> buddy.live == old(buddy.live)
    {
      hide DescOk, HeapOwned, SpillCounted, Tiling, Canonical, Spilled;
      if ptr == 0 {
        return;
      }
      LiveAcceptable(buddy.live, pages, live, ptr);
      if Spilled(l) {
        FreeSpilled(ptr, l);
      } else {
        FreeSmall(ptr, l);
      }
    }

    method FreeSmall(ptr: nat, l: Layout)
      requires Valid() && ptr in live && live[ptr] == l && Acceptable(l) && !Spilled(l)
      modifies this, descs, lists, mem
      ensures Valid() && live == old(live) - {ptr} && pages == old(pages)
    {
      hide HeapOwned, SpillCounted, Tiling, Canonical, ArenasOk, Counted, Chain, Acceptable, Spilled, ClassOf,
        UsedBy, Pow2, OtherPagesKept, PagesKept;
      ClassFits(l);
      var i := ClassOf(l);
      assert DescOk(i);
      IsUsed(live, ptr);
      ClassBacked(buddy.live, pages, live, i);
      descs[i].Dealloc(buddy, ptr);
      ghost var requests := live - {ptr};
      forall j | 0 <= j < CLASSES ensures Matches(j, requests) {
        assert old(DescOk(j));
        UsedByRemove(live, ptr, j);
        if j != i {
          OtherClassKept(old(mem.words), mem.words, buddy.live, pages, live, i, j);
          descs[j].Undisturbed();
          NotUsed(live, ptr, j);
        }
      }
      OwnedRemove(buddy.live, pages, live, ptr);
      SpillCountedRemove(live, ptr, spilledAlloc, spilledTotal);
      Record(requests);
    }

    method FreeSpilled(ptr: nat, l: Layout)
      requires Valid() && ptr in live && live[ptr] == l && Acceptable(l) && Spilled(l)
      modifies this, mem, buddy, buddy.lists
      ensures Valid() && live == old(live) - {ptr} && pages == old(pages)
      ensures buddy.live == old(buddy.live) - {Block(ptr, OrderFor(PagesFor(l)))}
    {
      hide HeapOwned, SpillCounted, Tiling, Canonical, ArenasOk, Counted, Chain, Acceptable, Spilled, UsedBy, Pow2,
        LiveWordsKept, PagesKept, RoundedSize, PagesFor, OrderFor;
      var n := PagesFor(l);
      SpillCountedRemove(live, ptr, spilledAlloc, spilledTotal);
      SpilledBlock(buddy.live, pages, live, ptr);
      OwnedRemoveSpilled(buddy.live, pages, live, buddy.free, buddy.lo, buddy.hi, ptr);
      spilledAlloc := spilledAlloc - RoundedSize(l);
      spilledTotal := spilledTotal - n;
      assert ptr % PG_SIZE == 0 by {
        SpilledOnPage(buddy.free, buddy.live, buddy.lo, buddy.hi, Block(ptr, OrderFor(n)));
        MultipleIffMod(ptr, PG_SIZE);
      }
      buddy.Dealloc(ptr, n);
      ghost var requests := live - {ptr};
      forall j | 0 <= j < CLASSES ensures Matches(j, requests) {
        assert old(DescOk(j));
        ClassKept(old(mem.words), mem.words, buddy.live, pages, requests, j);
        descs[j].Undisturbed();
        UsedByRemove(live, ptr, j);
        NotUsed(live, ptr, j);
      }
      Record(requests);
    }

    /** A caller may write anywhere in what it was given. */
    method ClientStore(ptr: nat, l: Layout, addr: nat, w: nat)
      requires Valid() && Inside(live, ptr, addr) && live[ptr] == l
      modifies mem
      ensures Valid() && mem.words == old(mem.words)[addr := w]
    {
      hide HeapOwned, SpillCounted, Tiling, Canonical, ArenasOk, Counted, Chain, Acceptable, Spilled, Inside;
      InsideLive(buddy.live, pages, live, ptr, addr);
      if Spilled(l) {
        StoreSpilled(ptr, addr, w);
      } else {
        StoreSmall(ptr, l, addr, w);
      }
    }

    method StoreSmall(ptr: nat, l: Layout, addr: nat, w: nat)
      requires Valid() && Inside(live, ptr, addr) && live[ptr] == l && Acceptable(l) && !Spilled(l)
      modifies mem
      ensures Valid() && mem.words == old(mem.words)[addr := w]
    {
      hide HeapOwned, SpillCounted, Tiling, Canonical, ArenasOk, Counted, Chain, Acceptable, Spilled, ClassOf,
        UsedBy, Pow2, OtherPagesKept, PagesKept;
      ClassFits(l);
      var i := ClassOf(l);
      assert DescOk(i);
      IsUsed(live, ptr);
      ClassBacked(buddy.live, pages, live, i);
      descs[i].Store(buddy, ptr, addr, w);
      forall j | 0 <= j < CLASSES && j != i ensures DescOk(j) {
        assert old(DescOk(j));
        OtherClassKept(old(mem.words), mem.words, buddy.live, pages, live, i, j);
        descs[j].Undisturbed();
      }
    }

    method StoreSpilled(ghost ptr: nat, addr: nat, w: nat)
      requires Valid() && Inside(live, ptr, addr) && Spilled(live[ptr])
      modifies mem
      ensures Valid() && mem.words == old(mem.words)[addr := w]
    {
      hide HeapOwned, SpillCounted, Tiling, Canonical, ArenasOk, Counted, Chain, Spilled, UsedBy, Pow2, PagesKept,
        Inside, Covers, PageOf;
      ghost var home := StoreHome(buddy.live, pages, live, ptr, addr);
      buddy.ClientStore(home, addr, w);
      forall j | 0 <= j < CLASSES ensures DescOk(j) {
        assert old(DescOk(j));
        WhereStored(buddy.live, pages, live, buddy.free, buddy.lo, buddy.hi, ptr, addr, j);
        StoredElsewhere(old(mem.words), mem.words, pages[j], addr, w);
        descs[j].Undisturbed();
      }
    }

    /** `free`: the bytes of all free blocks, that is, of all blocks that are not live. */
    method Free() returns (bytes: nat)
      requires Valid()
      ensures bytes + UsedBytes(live, CLASSES) == ArenaBytes(pages, CLASSES)
    {
      hide HeapOwned, SpillCounted, Tiling, Canonical, ArenasOk, Chain, Pow2, UsedBy, BlocksPerArena, Bytes;
      assert DescOk(0);
      bytes := 0;
      var i := 0;
      while i < |descs|
        invariant 0 <= i <= |descs| && |pages| == CLASSES && bytes + UsedBytes(live, i) == ArenaBytes(pages, i)
      {
        assert DescOk(i);
        CountedBytes(i, descs[i].allocatedBytes, descs[i].freeBytes, descs[i].total, |lists[i].items|,
          |descs[i].used|, |pages[i]|);
        bytes := bytes + descs[i].freeBytes;
        i := i + 1;
      }
    }

    /** `allocated`: the sum, over all live requests, of the bytes each is accounted with. */
    method Allocated() returns (bytes: nat)
      requires Valid()
      ensures bytes == Sum(live, live.Keys, Footprint)
    {
      hide HeapOwned, SpillCounted, Tiling, Canonical, ArenasOk, Chain, Pow2, UsedBy, BlocksPerArena, Bytes;
      bytes := 0;
      var i := 0;
      while i < |descs|
        invariant 0 <= i <= |descs| && bytes == UsedBytes(live, i)
      {
        assert DescOk(i);
        CountedBytes(i, descs[i].allocatedBytes, descs[i].freeBytes, descs[i].total, |lists[i].items|,
          |descs[i].used|, |pages[i]|);
        bytes := bytes + descs[i].allocatedBytes;
        i := i + 1;
      }
      AllocatedIsSum(buddy.live, pages, live, spilledAlloc, spilledTotal);
      bytes := bytes + spilledAlloc;
    }

    /** `total`: the pages of all arenas and those asked for by spilled requests. */
    method Total() returns (bytes: nat)
      requires Valid()
      ensures bytes == PG_SIZE * (ArenaCount(pages, CLASSES) + Sum(live, SpilledPtrs(live), PagesFor))
    {
      hide HeapOwned, Tiling, Canonical, ArenasOk, Chain, Pow2, UsedBy, BlocksPerArena;
      assert DescOk(0);
      bytes := 0;
      var i := 0;
      while i < |descs|
        invariant 0 <= i <= |descs| && |pages| == CLASSES && bytes == PG_SIZE * ArenaCount(pages, i)
      {
        assert DescOk(i);
        bytes := bytes + descs[i].total;
        i := i + 1;
      }
      bytes := bytes + spilledTotal * PG_SIZE;
    }

    /**
     In every state: live requests are aligned and served in full, small ones inside one
     page past the arena header, and no two of them share a byte.
     */
    lemma HeapSafe()
      requires Valid()
      ensures forall p :: p in live ==> Serves(live, p)
      ensures forall p, q :: p in live && q in live && p < q ==> Serves(live, p) && p + OwnedBytes(live[p]) <= q
    {
      hide HeapOwned, Tiling, Serves, SpillCounted, Canonical;
      forall p | p in live ensures Serves(live, p) {
        ServesAll(buddy.live, pages, live, buddy.free, buddy.lo, buddy.hi, p);
      }
      forall p, q | p in live && q in live && p < q ensures Serves(live, p) && p + OwnedBytes(live[p]) <= q {
        LiveBlocksDisjoint(buddy.live, pages, live, buddy.free, buddy.lo, buddy.hi, p, q);
      }
    }

    /** Each arena's header counts its free blocks, and the rest of its blocks are live. */
    lemma ArenaHeaderExact(i: nat, p: nat)
      requires Valid() && i < CLASSES && p in pages[i]
      ensures 0 < BlockSize(i) <= MAX_BLKSIZE && p in mem.words
      ensures mem.words[p] / 0x1_0000_0000 + |InPage(UsedBy(live, i), p)| == BlocksPerArena(BlockSize(i))
      ensures mem.words[p] / 0x1_0000_0000 == |InPage(Elems(lists[i].items), p)|
    {
      hide HeapOwned, Tiling, SpillCounted, Canonical, Chain, Counted, InPage, Pow2, BlocksPerArena;
      assert DescOk(i);
      assert PageOk(mem.words, p, Elems(lists[i].items), UsedBy(live, i), i);
      HeaderParts(|InPage(Elems(lists[i].items), p)|);
    }

    /**
     The pages counted for spilled requests are the pages taken, exactly if each request is
     for a power of two of pages; and then `allocated` does not exceed `total`.
     */
    lemma AccountingExact()
      requires Valid()
      ensures PG_SIZE * spilledTotal == Sum(live, SpilledPtrs(live), TakenSpill) <==>
                WholePowers(live, SpilledPtrs(live))
      ensures WholePowers(live, SpilledPtrs(live)) ==>
                |pages| == CLASSES
                && Sum(live, live.Keys, Footprint)
                   <= PG_SIZE * (ArenaCount(pages, CLASSES) + Sum(live, SpilledPtrs(live), PagesFor))
    {
      hide HeapOwned, Tiling, Canonical, ArenasOk, Chain, UsedBy, WholePowers, DescOk, Sum;
      SpillTotalsExact(buddy.live, pages, live, spilledAlloc, spilledTotal);
      AllocatedIsSum(buddy.live, pages, live, spilledAlloc, spilledTotal);
      ClassCount(buddy.live, pages, live);
      UsedFits(CLASSES);
      ArenaBytesFit(pages, CLASSES);
    }

    lemma {:induction false} UsedFits(k: nat)
      requires Valid() && k <= CLASSES == |pages|
      ensures UsedBytes(live, k) <= ArenaBytes(pages, k)
      decreases k
    {
      hide HeapOwned, Tiling, SpillCounted, Canonical, ArenasOk, Chain, Pow2, UsedBy, BlocksPerArena, Bytes;
      if k > 0 {
        UsedFits(k - 1);
        assert DescOk(k - 1);
        var d := descs[k - 1];
        CountedBytes(k - 1, d.allocatedBytes, d.freeBytes, d.total, |lists[k - 1].items|, |d.used|, |pages[k - 1]|);
      }
    }
  }
}
