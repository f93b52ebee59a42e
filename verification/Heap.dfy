/**
 The kernel heap (src/mem/malloc.rs): eight descriptors, each with a free list threaded
 through the blocks of its arena pages, on top of the page allocator. Arena headers, free
 blocks and the page allocator's lists share one memory.
 */
module Heaps {
  import opened Options
  import opened Bits
  import opened InMemLists
  import opened BuddyBlocks
  import opened BuddyAllocators
  import opened HeapArenas

  // ---- Lists as sets ----

  ghost function Elems(s: seq<nat>): set<nat> {
    set x | x in s
  }

  lemma ElemsPush(x: nat, s: seq<nat>)
    ensures Elems([x] + s) == Elems(s) + {x}
  {
  }

  lemma ElemsPop(s: seq<nat>)
    requires s != [] && Distinct(s)
    ensures Elems(s[1..]) == Elems(s) - {s[0]} && s[0] in Elems(s)
  {
    assert s == [s[0]] + s[1..];
    ElemsPush(s[0], s[1..]);
    forall i | 0 <= i < |s[1..]| ensures s[1..][i] != s[0] {
      assert s[1..][i] == s[i + 1];
    }
  }

  /** Page blocks of the arenas, as the page allocator sees them. */
  ghost function PageBlocks(pages: set<nat>): set<Block> {
    set p | p in pages :: Block(p, 0)
  }

  lemma InPageBlock(p: nat, a: nat)
    requires IsPage(p)
    ensures Covers(Block(p, 0), a) <==> PageOf(a) == p
  {
    assert Size(0) == PG_SIZE;
  }

  /** Live words outside the given pages are unchanged. */
  ghost predicate OtherPagesKept(m: map<nat, nat>, n: map<nat, nat>, live: set<Block>, pages: set<nat>) {
    LiveWordsKept(m, n, live - PageBlocks(pages))
  }

  /** The pages gained are exactly the blocks that became live. */
  ghost predicate Grown(pages: set<nat>, pages': set<nat>, live: set<Block>, live': set<Block>) {
    && pages <= pages'
    && live' == live + PageBlocks(pages' - pages)
    && live !! PageBlocks(pages' - pages)
  }

  lemma GrownByOne(pages: set<nat>, live: set<Block>, p: nat)
    requires p !in pages && Block(p, 0) !in live
    ensures Grown(pages, pages + {p}, live, live + {Block(p, 0)})
  {
    assert pages + {p} - pages == {p};
    assert PageBlocks({p}) == {Block(p, 0)};
  }

  lemma NotGrown(pages: set<nat>, live: set<Block>)
    ensures Grown(pages, pages, live, live)
  {
    assert pages - pages == {};
  }

  /** What the page allocator guarantees about live words keeps all owned pages. */
  lemma LivePagesKept(m: map<nat, nat>, n: map<nat, nat>, live: set<Block>, pages: set<nat>)
    requires LiveWordsKept(m, n, live) && PageBlocks(pages) <= live && forall p :: p in pages ==> IsPage(p)
    ensures PagesKept(m, n, pages)
  {
    forall a | PageOf(a) in pages ensures SameAt(m, n, a) {
      InPageBlock(PageOf(a), a);
      assert Block(PageOf(a), 0) in PageBlocks(pages);
    }
  }

  /** A page handed out by the page allocator. */
  lemma NewPage(free: set<Block>, live: set<Block>, lo: nat, hi: nat, p: nat)
    requires Tiling(free, live, lo, hi) && lo > 0 && Block(p, 0) in live
    ensures IsPage(p)
  {
    assert Block(p, 0) in free + live;
    assert Size(0) == PG_SIZE;
    MultipleIffMod(p, PG_SIZE);
  }

  /** The byte counters agree with the numbers of free blocks, used blocks and pages. */
  ghost predicate Counted(c: nat, allocatedBytes: nat, freeBytes: nat, total: nat, frees: nat, useds: nat, pages: nat)
    requires 0 < BlockSize(c) <= MAX_BLKSIZE
  {
    && freeBytes == BlockSize(c) * frees
    && allocatedBytes == BlockSize(c) * useds
    && total == PG_SIZE * pages
    && frees + useds == BlocksPerArena(BlockSize(c)) * pages
  }

  lemma CountedMove(c: nat, al: nat, fr: nat, total: nat, frees: nat, useds: nat, pages: nat)
    requires 0 < BlockSize(c) <= MAX_BLKSIZE && Counted(c, al, fr, total, frees, useds, pages)
    ensures frees > 0 ==>
              fr >= BlockSize(c) && Counted(c, al + BlockSize(c), fr - BlockSize(c), total, frees - 1, useds + 1, pages)
    ensures useds > 0 ==>
              al >= BlockSize(c) && Counted(c, al - BlockSize(c), fr + BlockSize(c), total, frees + 1, useds - 1, pages)
  {
    hide Pow2, BlocksPerArena;
    var bs := BlockSize(c);
    assert bs * (frees + 1) == bs * frees + bs && bs * (useds + 1) == bs * useds + bs;
    if frees > 0 { assert bs * frees == bs * (frees - 1) + bs; MulAtLeast(frees, bs); }
    if useds > 0 { assert bs * useds == bs * (useds - 1) + bs; MulAtLeast(useds, bs); }
  }

  lemma NoArenas(m: map<nat, nat>, i: nat)
    requires i < CLASSES
    ensures 0 < BlockSize(i) <= MAX_BLKSIZE && ArenasOk(m, {}, Elems([]), {}, i) && Counted(i, 0, 0, 0, 0, 0, 0)
  {
    ClassSizes(i);
    hide BlocksPerArena;
  }

  /** Only words of the page p changed. */
  ghost predicate OnlyPage(m: map<nat, nat>, n: map<nat, nat>, p: nat) {
    forall a :: PageOf(a) != p ==> SameAt(m, n, a)
  }

  lemma OnlyPageCovered(m: map<nat, nat>, n: map<nat, nat>, p: nat, free: set<Block>, live: set<Block>, lo: nat,
                        hi: nat)
    requires IsPage(p) && OnlyPage(m, n, p) && Block(p, 0) in live && Tiling(free, live, lo, hi)
    ensures forall a: nat :: SameAt(m, n, a) || CoveredBy(live, a)
    ensures LiveWordsKept(m, n, live - {Block(p, 0)})
  {
    var page := Block(p, 0);
    forall a: nat ensures SameAt(m, n, a) || CoveredBy(live, a) {
      InPageBlock(p, a);
    }
    forall b, a: nat | b in live - {page} && Covers(b, a) ensures SameAt(m, n, a) {
      assert b in free + live && page in free + live;
      InPageBlock(p, a);
    }
  }

  lemma ArenaPages(m: map<nat, nat>, pages: set<nat>, avail: set<nat>, used: set<nat>, c: nat)
    requires ArenasOk(m, pages, avail, used, c)
    ensures forall p :: p in pages ==> IsPage(p)
  {
    forall p | p in pages ensures IsPage(p) {
      assert PageOk(m, p, avail, used, c);
    }
  }

  lemma {:induction false} ElemsCount(s: seq<nat>)
    requires Distinct(s)
    ensures |Elems(s)| == |s|
  {
    if s != [] {
      ElemsPop(s);
      assert forall i :: 0 <= i < |s[1..]| ==> s[1..][i] == s[i + 1];
      ElemsCount(s[1..]);
    }
  }

  /** Writing the header and threading the list through the blocks of page p. */
  lemma HeaderAndBlocks(m: map<nat, nat>, h: map<nat, nat>, n: map<nat, nat>, p: nat, c: nat, cnt: nat,
                        blocks: set<nat>)
    requires c < CLASSES && 0 < BlockSize(c) <= MAX_BLKSIZE && IsPage(p)
    requires h == m[p := HeaderWord(cnt)][p + 8 := c + 1]
    requires blocks == BlocksBelow(BlockSize(c), p, p + LastOffset(BlockSize(c)))
    requires forall a :: a !in blocks ==> SameAt(h, n, a)
    ensures OnlyPage(m, n, p) && HeaderAt(n, p, c, cnt)
  {
    hide IsMultiple, LastOffset, FirstOffset, Pow2;
    forall a | a in blocks ensures PageOf(a) == p && a >= p + ARENA_BYTES {
      BlocksBelowAll(c, p, a);
      BlockInPage(BlockSize(c), p, a);
    }
    forall a | PageOf(a) != p ensures SameAt(m, n, a) {
      assert SameAt(h, n, a);
    }
    assert SameAt(h, n, p) && SameAt(h, n, p + 8);
  }

  lemma OnlyPageKeeps(m: map<nat, nat>, n: map<nat, nat>, p: nat, pages: set<nat>)
    requires OnlyPage(m, n, p) && p !in pages
    ensures PagesKept(m, n, pages)
  {
  }

  lemma CountedArena(c: nat, al: nat, fr: nat, total: nat, useds: nat, pages: nat)
    requires 0 < BlockSize(c) <= MAX_BLKSIZE && Counted(c, al, fr, total, 0, useds, pages)
    ensures var n := BlocksPerArena(BlockSize(c));
            Counted(c, al, fr + BlockSize(c) * n, total + PG_SIZE, n, useds, pages + 1)
  {
    hide Pow2, BlocksPerArena;
    var n := BlocksPerArena(BlockSize(c));
    assert n * (pages + 1) == n * pages + n;
  }

  lemma BlockCounts(s: set<nat>, x: nat)
    requires x in s
    ensures |InPage(s, PageOf(x))| > 0
  {
    assert x in InPage(s, PageOf(x));
  }

  lemma PageItself(p: nat, x: nat)
    requires p == PageOf(x)
    ensures PageOf(p) == p
  {
  }

  lemma BothInPage(m: map<nat, nat>, x: nat, v: nat, w: nat)
    ensures OnlyPage(m, m[x := v][PageOf(x) := w], PageOf(x))
  {
    PageItself(PageOf(x), x);
  }

  lemma ChainElsewhere(m: map<nat, nat>, head: nat, items: seq<nat>, a: nat, w: nat)
    requires Chain(m, head, items) && a !in items
    ensures Chain(m[a := w], head, items)
  {
  }

  lemma SeparateSets(m: map<nat, nat>, pages: set<nat>, avail: set<nat>, used: set<nat>, c: nat, x: nat)
    requires ArenasOk(m, pages, avail, used, c)
    ensures x in avail ==> x !in used
  {
  }

  /** No free or used block sits on a page boundary, where the headers are. */
  lemma Avoids(m: map<nat, nat>, pages: set<nat>, avail: set<nat>, used: set<nat>, c: nat, items: seq<nat>, p: nat)
    requires ArenasOk(m, pages, avail, used, c) && IsPage(p) && forall a :: a in items ==> a in avail || a in used
    ensures p !in items
  {
    if p in items {
      KnownBlock(m, pages, avail, used, c, p);
    }
  }

  lemma KeptFewer(m: map<nat, nat>, n: map<nat, nat>, live: set<Block>, pages: set<nat>)
    requires LiveWordsKept(m, n, live)
    ensures OtherPagesKept(m, n, live, pages)
  {
  }

  /** Adding an arena and then changing one of the descriptor's pages. */
  lemma KeptAfterTake(m: map<nat, nat>, n: map<nat, nat>, o: map<nat, nat>, live: set<Block>, live': set<Block>,
                      pages: set<nat>, pages': set<nat>, p: nat)
    requires Grown(pages, pages', live, live') && p in pages'
    requires LiveWordsKept(m, n, live) && LiveWordsKept(n, o, live' - {Block(p, 0)})
    ensures OtherPagesKept(m, o, live, pages)
  {
    hide Covers, SameAt;
    var rest := live - PageBlocks(pages);
    assert Block(p, 0) in PageBlocks(pages) || Block(p, 0) in PageBlocks(pages' - pages);
    assert forall b :: b in rest ==> b in live && b in live' - {Block(p, 0)};
    assert LiveWordsKept(m, n, rest) && LiveWordsKept(n, o, rest);
    LiveWordsTransitive(m, n, o, rest);
  }

  /** No free block starts inside a used one. */
  lemma NotFree(m: map<nat, nat>, pages: set<nat>, avail: set<nat>, used: set<nat>, c: nat, x: nat, addr: nat)
    requires ArenasOk(m, pages, avail, used, c) && x in used && x <= addr < x + BlockSize(c)
    ensures addr !in avail
  {
    if addr in avail {
      KnownBlock(m, pages, avail, used, c, x);
      KnownBlock(m, pages, avail, used, c, addr);
      CloseMultiples(x, addr, BlockSize(c));
    }
  }

  lemma StoredInPage(m: map<nat, nat>, x: nat, addr: nat, w: nat, bs: nat)
    requires x <= addr < x + bs && x + bs <= PageOf(x) + PG_SIZE
    ensures OnlyPage(m, m[addr := w], PageOf(x)) && PageOf(addr) == PageOf(x)
  {
    assert PageOf(addr) == PageOf(x);
  }

  lemma StoreInBlock(m: map<nat, nat>, n: map<nat, nat>, pages: set<nat>, avail: set<nat>, used: set<nat>, c: nat,
                     x: nat, addr: nat, w: nat)
    requires ArenasOk(m, pages, avail, used, c) && x in used && x <= addr < x + BlockSize(c)
    requires n == m[addr := w]
    ensures ArenasOk(n, pages, avail, used, c)
  {
    hide Pow2, IsMultiple, IsBlock, BlocksPerArena, InPage, PageOf, HeaderAt;
    KnownBlock(m, pages, avail, used, c, x);
    StoredInPage(m, x, addr, w, BlockSize(c));
    forall p | p in pages ensures PageOk(n, p, avail, used, c) {
      assert PageOk(m, p, avail, used, c);
      NotHeader(addr, p);
      HeaderKept(m, n, p, c, |InPage(avail, p)|);
    }
  }

  class Desc {
    const cls: nat                     // the index of this descriptor
    const blockSize: nat
    const blocksPerArena: nat
    const mem: Memory
    const freeList: InMemList
    var allocatedBytes: nat
    var freeBytes: nat
    var total: nat
    ghost var pages: set<nat>          // the arenas
    ghost var used: set<nat>           // the blocks handed out

    ghost predicate Shaped() {
      && cls < CLASSES && blockSize == BlockSize(cls) && 0 < blockSize <= MAX_BLKSIZE
      && blocksPerArena == BlocksPerArena(blockSize) && freeList.mem == mem
    }

    ghost predicate Valid()
      reads this, freeList, mem
    {
      && Shaped() && freeList.Valid()
      && ArenasOk(mem.words, pages, Elems(freeList.items), used, cls)
      && Counted(cls, allocatedBytes, freeBytes, total, |freeList.items|, |used|, |pages|)
    }

    constructor (i: nat, mem: Memory)
      requires i < CLASSES
      ensures Valid() && fresh(freeList) && cls == i && this.mem == mem && pages == {} && used == {}
      ensures freeList.items == []
    {
      hide ArenasOk, Counted, RoundUp, IsMultiple;
      NoArenas(mem.words, i);
      cls, blockSize := i, Pow2(i + 3);
      blocksPerArena := (PG_SIZE - RoundUp(DESC_BYTES, Pow2(i + 3))) / Pow2(i + 3);
      this.mem := mem;
      freeList := new InMemList(mem);
      allocatedBytes, freeBytes, total := 0, 0, 0;
      pages, used := {}, {};
    }

    /** Every page of this descriptor is a live block of the page allocator. */
    ghost predicate Backed(buddy: BuddyAllocator)
      reads `pages, buddy`live
    {
      && buddy.mem == mem && freeList !in buddy.lists
      && PageBlocks(pages) <= buddy.live
    }

    /** Only this descriptor's own pages matter to it. */
    twostate lemma Undisturbed()
      requires old(Valid()) && unchanged(this) && unchanged(freeList)
      requires PagesKept(old(mem.words), mem.words, pages)
      ensures Valid()
    {
      ArenasFrame(old(mem.words), mem.words, pages, Elems(freeList.items), used, cls);
      forall a | a in freeList.items ensures SameAt(old(mem.words), mem.words, a) {
        assert a in Elems(freeList.items);
      }
      ChainFrame(old(mem.words), mem.words, freeList.head, freeList.items);
    }

    /** A caller writes into a used block. */
    method Write(ghost ptr: nat, addr: nat, w: nat)
      requires Valid() && ptr in used && ptr <= addr < ptr + blockSize
      modifies mem
      ensures Valid() && mem.words == old(mem.words)[addr := w]
    {
      hide ArenasOk, Counted, Chain, PageOf;
      ghost var avail := Elems(freeList.items);
      mem.words := mem.words[addr := w];
      StoreInBlock(old(mem.words), mem.words, pages, avail, used, cls, ptr, addr, w);
      NotFree(old(mem.words), pages, avail, used, cls, ptr, addr);
      ChainElsewhere(old(mem.words), freeList.head, freeList.items, addr, w);
    }

    /** Neither the page allocator nor the owners of other live pages notice such a write. */
    method Store(buddy: BuddyAllocator, ghost ptr: nat, addr: nat, w: nat)
      requires Valid() && buddy.Valid() && Backed(buddy) && ptr in used && ptr <= addr < ptr + blockSize
      modifies mem
      ensures Valid() && buddy.Valid() && mem.words == old(mem.words)[addr := w]
      ensures OtherPagesKept(old(mem.words), mem.words, buddy.live, pages)
    {
      hide ArenasOk, Counted, Chain, LiveWordsKept, Tiling, Canonical, OnlyPage, PageOf, OtherPagesKept;
      ArenaPages(mem.words, pages, Elems(freeList.items), used, cls);
      KnownBlock(mem.words, pages, Elems(freeList.items), used, cls, ptr);
      Write(ptr, addr, w);
      StoredInPage(old(mem.words), ptr, addr, w, blockSize);
      OnlyPageCovered(old(mem.words), mem.words, PageOf(ptr), buddy.free, buddy.live, buddy.lo, buddy.hi);
      buddy.LiveWritesHarmless();
      LiveWordsReflexive(old(mem.words), buddy.live);
      NotGrown(pages, buddy.live);
      KeptAfterTake(old(mem.words), old(mem.words), mem.words, buddy.live, buddy.live, pages, pages, PageOf(ptr));
    }

    /** `from_block`: the arena of a block and its free count; no assertion can fail. */
    method FromBlock(blk: nat, ghost cnt: nat) returns (arena: nat, freeCnt: nat)
      requires Shaped() && IsMultiple(blk, blockSize) && HeaderAt(mem.words, PageOf(blk), cls, cnt)
      ensures arena == PageOf(blk) && freeCnt == cnt
    {
      hide Pow2, IsMultiple, HeaderWord;
      arena := PageOf(blk);
      HeaderParts(cnt);
      MultipleIffMod(blk, blockSize);
      assert mem.words[arena] % 0x1_0000_0000 == ARENA_MAGIC;
      assert mem.words[arena + 8] != 0;
      assert blk % blockSize == 0;
      freeCnt := mem.words[arena] / 0x1_0000_0000;
    }

    /** Push every block of a new arena. */
    method Fill(page: nat)
      requires Shaped() && IsPage(page) && freeList.Valid() && freeList.items == []
      modifies freeList, mem
      ensures freeList.Valid() && |freeList.items| == blocksPerArena
      ensures Elems(freeList.items) == BlocksBelow(blockSize, page, page + LastOffset(blockSize))
      ensures forall a :: a !in Elems(freeList.items) ==> SameAt(old(mem.words), mem.words, a)
    {
      hide Pow2, IsMultiple, FirstOffset, BlocksPerArena, Chain, BlocksBelow;
      BlocksBelowStart(blockSize, page);
      var i := 0;
      while i < blocksPerArena
        invariant 0 <= i <= blocksPerArena && freeList.Valid() && |freeList.items| == i
        invariant Elems(freeList.items) == BlocksBelow(blockSize, page, GetBlock(blockSize, page, i))
        invariant forall a :: a !in Elems(freeList.items) ==> SameAt(old(mem.words), mem.words, a)
      {
        var block := GetBlock(blockSize, page, i);
        GetBlockIsBlock(cls, page, i);
        BlocksBelowStep(blockSize, page, block);
        ElemsPush(block, freeList.items);
        assert block !in Elems(freeList.items);
        freeList.Push(block);
        i := i + 1;
      }
    }

    /** Give a new page its header, make all its blocks free and account for them. */
    method Install(page: nat)
      requires Valid() && freeList.items == [] && IsPage(page) && page !in pages
      modifies this, freeList, mem
      ensures Valid() && freeList.items != [] && pages == old(pages) + {page} && used == old(used)
      ensures OnlyPage(old(mem.words), mem.words, page)
    {
      hide Pow2, IsMultiple, FirstOffset, BlocksPerArena, Chain, BlocksBelow, ArenasOk, Counted;
      mem.words := mem.words[page := HeaderWord(blocksPerArena)][page + 8 := cls + 1];
      ghost var h := mem.words;
      ChainFrame(old(mem.words), h, freeList.head, freeList.items);
      Fill(page);
      ghost var blocks := Elems(freeList.items);
      ChainDistinct(mem.words, freeList.head, freeList.items);
      ElemsCount(freeList.items);
      HeaderAndBlocks(old(mem.words), h, mem.words, page, cls, blocksPerArena, blocks);
      OnlyPageKeeps(old(mem.words), mem.words, page, pages);
      assert Elems([]) == {};
      ArenaAdded(old(mem.words), mem.words, pages, used, cls, page, blocks);
      CountedArena(cls, allocatedBytes, freeBytes, total, |used|, |pages|);
      ArenaFits(blockSize);
      total := total + PG_SIZE;
      freeBytes := freeBytes + blockSize * blocksPerArena;
      pages := pages + {page};
    }

    /** Turn a page of the page allocator into an arena. */
    method AddArena(buddy: BuddyAllocator) returns (ok: bool)
      requires Valid() && buddy.Valid() && Backed(buddy) && freeList.items == []
      modifies this, freeList, mem, buddy, buddy.lists
      ensures Valid() && buddy.Valid() && Backed(buddy) && used == old(used)
      ensures ok <==> exists b :: Aligned(b) && b.order == 0 && FullyFree(old(buddy.free), b)
      ensures ok <==> freeList.items != []
      ensures Grown(old(pages), pages, old(buddy.live), buddy.live) && (!ok ==> pages == old(pages))
      ensures ok ==> |pages| == |old(pages)| + 1
      ensures LiveWordsKept(old(mem.words), mem.words, old(buddy.live))
    {
      hide Pow2, IsMultiple, FirstOffset, BlocksPerArena, Chain, BlocksBelow, LiveWordsKept, Tiling, Canonical,
        FullyFree, Aligned, ArenasOk, Counted, OnlyPage, PagesKept, Grown;
      NotGrown(pages, buddy.live);
      ArenaPages(mem.words, pages, Elems(freeList.items), used, cls);
      var r := buddy.Alloc(1);
      assert OrderFor(1) == 0;
      LivePagesKept(old(mem.words), mem.words, old(buddy.live), pages);
      Undisturbed();
      ok := r.Allocated?;
      if ok {
        NewPage(buddy.free, buddy.live, buddy.lo, buddy.hi, r.ptr);
        ghost var words := mem.words;
        label Paged:
        Install(r.ptr);
        OnlyPageCovered(words, mem.words, r.ptr, buddy.free, buddy.live, buddy.lo, buddy.hi);
        buddy.LiveWritesHarmless@Paged();
        assert buddy.live - {Block(r.ptr, 0)} == old(buddy.live);
        GrownByOne(old(pages), old(buddy.live), r.ptr);
        LiveWordsTransitive(old(mem.words), words, mem.words, old(buddy.live));
      }
    }

    /** Pop a free block and count it out of its arena. */
    method Take() returns (ptr: nat)
      requires Valid() && freeList.items != []
      modifies this, freeList, mem
      ensures Valid() && pages == old(pages)
      ensures ptr == old(freeList.items)[0] && freeList.items == old(freeList.items)[1..]
      ensures ptr !in old(used) && used == old(used) + {ptr}
      ensures PageOf(ptr) in pages && OnlyPage(old(mem.words), mem.words, PageOf(ptr))
    {
      hide Pow2, IsMultiple, BlocksPerArena, Chain, ArenasOk, Counted, PageOf, HeaderWord;
      ghost var avail := Elems(freeList.items);
      ChainDistinct(mem.words, freeList.head, freeList.items);
      ElemsPop(freeList.items);
      CountedMove(cls, allocatedBytes, freeBytes, total, |freeList.items|, |used|, |pages|);
      allocatedBytes := allocatedBytes + blockSize;
      freeBytes := freeBytes - blockSize;
      var block := freeList.Pop();
      ptr := block.value;
      KnownBlock(mem.words, pages, avail, used, cls, ptr);
      var arena, cnt := FromBlock(ptr, |InPage(avail, PageOf(ptr))|);
      BlockCounts(avail, ptr);
      mem.words := mem.words[arena := HeaderWord(cnt - 1)];
      BlockTaken(old(mem.words), mem.words, pages, avail, used, cls, ptr, cnt - 1);
      Avoids(old(mem.words), pages, avail, used, cls, freeList.items, arena);
      ChainElsewhere(old(mem.words), freeList.head, freeList.items, arena, HeaderWord(cnt - 1));
      SeparateSets(old(mem.words), pages, avail, used, cls, ptr);
      used := used + {ptr};
      PageItself(arena, ptr);
    }

    /** `dealloc`: push the block back and count it in its arena. */
    method Give(ptr: nat)
      requires Valid() && ptr in used
      modifies this, freeList, mem
      ensures Valid() && pages == old(pages)
      ensures freeList.items == [ptr] + old(freeList.items) && used == old(used) - {ptr}
      ensures PageOf(ptr) in pages && OnlyPage(old(mem.words), mem.words, PageOf(ptr))
    {
      hide Pow2, IsMultiple, BlocksPerArena, Chain, ArenasOk, Counted, PageOf, HeaderWord, OnlyPage, SameAt, InPage;
      ghost var avail := Elems(freeList.items);
      KnownBlock(mem.words, pages, avail, used, cls, ptr);
      SeparateSets(mem.words, pages, avail, used, cls, ptr);
      CountedMove(cls, allocatedBytes, freeBytes, total, |freeList.items|, |used|, |pages|);
      ElemsPush(ptr, freeList.items);
      NotHeader(ptr, PageOf(ptr));
      freeList.Push(ptr);
      ghost var words := mem.words;
      allocatedBytes := allocatedBytes - blockSize;
      freeBytes := freeBytes + blockSize;
      var arena, cnt := FromBlock(ptr, |InPage(avail, PageOf(ptr))|);
      mem.words := mem.words[arena := HeaderWord(cnt + 1)];
      BlockReturned(old(mem.words), mem.words, pages, avail, used, cls, ptr, old(freeList.head));
      Avoids(old(mem.words), pages, avail, used, cls, freeList.items, arena);
      ChainElsewhere(words, freeList.head, freeList.items, arena, HeaderWord(cnt + 1));
      used := used - {ptr};
      BothInPage(old(mem.words), ptr, old(freeList.head), HeaderWord(cnt + 1));
    }

    /** `alloc`: a free block, from a new arena if there is none. */
    method Alloc(buddy: BuddyAllocator) returns (r: Option<nat>)
      requires Valid() && buddy.Valid() && Backed(buddy)
      modifies this, freeList, mem, buddy, buddy.lists
      ensures Valid() && buddy.Valid() && Backed(buddy)
      ensures r == None <==>
                old(freeList.items) == [] && !exists b :: Aligned(b) && b.order == 0 && FullyFree(old(buddy.free), b)
      ensures r == None ==> used == old(used) && pages == old(pages)
      ensures r.Some? ==> r.value !in old(used) && used == old(used) + {r.value}
      ensures Grown(old(pages), pages, old(buddy.live), buddy.live)
      ensures old(freeList.items) != [] ==> pages == old(pages)
      ensures old(freeList.items) != [] ==>
                r == Some(old(freeList.items)[0]) && freeList.items == old(freeList.items)[1..]
      ensures old(freeList.items) == [] && r.Some? ==> |pages| == |old(pages)| + 1
      ensures OtherPagesKept(old(mem.words), mem.words, old(buddy.live), old(pages))
    {
      hide ArenasOk, Counted, Chain, LiveWordsKept, Tiling, Canonical, FullyFree, Aligned, OnlyPage, Grown, PageOf,
        OtherPagesKept;
      NotGrown(pages, buddy.live);
      LiveWordsReflexive(mem.words, buddy.live);
      var empty := freeList.IsEmpty();
      var ok := true;
      if empty {
        ok := AddArena(buddy);
      }
      ghost var words := mem.words;
      r := None;
      label Stocked:
      if ok {
        var ptr := TakeBacked(buddy);
        r := Some(ptr);
        KeptAfterTake(old(mem.words), words, mem.words, old(buddy.live), buddy.live, old(pages), pages, PageOf(ptr));
      } else {
        KeptFewer(old(mem.words), mem.words, old(buddy.live), old(pages));
      }
    }

    /** `Take` within arenas that the page allocator considers live. */
    method TakeBacked(buddy: BuddyAllocator) returns (ptr: nat)
      requires Valid() && buddy.Valid() && Backed(buddy) && freeList.items != []
      modifies this, freeList, mem
      ensures Valid() && buddy.Valid() && Backed(buddy) && pages == old(pages)
      ensures ptr !in old(used) && used == old(used) + {ptr} && PageOf(ptr) in pages
      ensures ptr == old(freeList.items)[0] && freeList.items == old(freeList.items)[1..]
      ensures LiveWordsKept(old(mem.words), mem.words, buddy.live - {Block(PageOf(ptr), 0)})
    {
      hide ArenasOk, Counted, Chain, LiveWordsKept, Tiling, Canonical, OnlyPage, PageOf;
      ptr := Take();
      ArenaPages(mem.words, pages, Elems(freeList.items), used, cls);
      OnlyPageCovered(old(mem.words), mem.words, PageOf(ptr), buddy.free, buddy.live, buddy.lo, buddy.hi);
      buddy.LiveWritesHarmless();
    }

    /** `dealloc` within arenas that the page allocator considers live. */
    method Dealloc(buddy: BuddyAllocator, ptr: nat)
      requires Valid() && buddy.Valid() && Backed(buddy) && ptr in used
      modifies this, freeList, mem
      ensures Valid() && buddy.Valid() && Backed(buddy) && pages == old(pages)
      ensures freeList.items == [ptr] + old(freeList.items) && used == old(used) - {ptr}
      ensures OtherPagesKept(old(mem.words), mem.words, buddy.live, pages)
    {
      hide ArenasOk, Counted, Chain, LiveWordsKept, Tiling, Canonical, OnlyPage, PageOf, OtherPagesKept;
      Give(ptr);
      ArenaPages(mem.words, pages, Elems(freeList.items), used, cls);
      OnlyPageCovered(old(mem.words), mem.words, PageOf(ptr), buddy.free, buddy.live, buddy.lo, buddy.hi);
      buddy.LiveWritesHarmless();
      LiveWordsReflexive(old(mem.words), buddy.live);
      NotGrown(pages, buddy.live);
      KeptAfterTake(old(mem.words), old(mem.words), mem.words, buddy.live, buddy.live, pages, pages, PageOf(ptr));
    }
  }
}
