/** The page-table operations of the kernel (src/mem/pagetable.rs), over shared table pages. */
module AddressSpaces {
  import opened Options
  import opened Bits
  import opened PageEntries
  import opened PageTables
  import opened Teardown
  import opened PrivateTables

  /** Pages that can be handed out are no tables, and all page numbers fit into an entry. */
  ghost predicate PoolOk(pool: set<nat>, tables: Tables) {
    pool !! tables.Keys && forall p :: p in pool || p in tables ==> p < PPN_LIMIT
  }

  lemma PagesReturned(pool: set<nat>, tables: Tables, gone: set<nat>)
    requires PoolOk(pool, tables) && gone <= tables.Keys
    ensures PoolOk(pool + gone, tables - gone)
  {
  }

  /** How many tables have to be created before page v of root c can be mapped. */
  function TablesMissing(tables: Tables, c: nat, v: VPage): nat {
    match Walk(tables, c, v.i2)
    case None => 2
    case Some(t1) => if Walk(tables, t1, v.i1) == None then 1 else 0
  }

  /** The tables and the pages left are the same pages as before. */
  ghost predicate SamePages(tables: Tables, pool: set<nat>, tables': Tables, pool': set<nat>) {
    tables.Keys + pool == tables'.Keys + pool'
  }

  /** The first step of mapping page v: the level-1 table exists, or is linked now. */
  lemma {:induction false} LinkedRoot(tables: Tables, l: Roles, kernel: nat, c: nat, v: VPage, p: nat, tables': Tables,
                                      global: bool)
    requires WellFormed(tables, l) && c in l.roots && kernel in l.roots && InBounds(v)
    requires c in tables && |tables[c]| == NENTRY
    requires Walk(tables, c, v.i2).Some? ==> tables' == tables && Walk(tables, c, v.i2) == Some(p)
    requires Walk(tables, c, v.i2) == None ==>
               p < PPN_LIMIT && p !in tables && tables' == LinkTable(tables, c, v.i2, p, TableEntry(p, global))
    ensures tables'.Keys == tables.Keys + (if Walk(tables, c, v.i2) == None then {p} else {})
    ensures TablesMissing(tables', c, v) == if Walk(tables, c, v.i2) == None then 1 else TablesMissing(tables, c, v)
    ensures c != kernel ==> forall i :: Walk(tables', kernel, i) == Walk(tables, kernel, i)
    ensures c != kernel && !global && Walk(tables, kernel, v.i2) == None ==>
              && OwnMiddle(tables', kernel, c, p)
              && forall base :: Private(tables, base, kernel, c) ==> Private(tables', base, kernel, c)
  {
    hide Private, TableEntry, WellFormed;
    if Walk(tables, c, v.i2) == None {
      var e := TableEntry(p, global);
      TableEntryFields(p, global);
      forall u, k ensures Walk(tables', u, k) == if u == c && k == v.i2 then Some(p) else Walk(tables, u, k) {
        WalkAfterLink(tables, c, v.i2, p, e, u, k);
      }
      if c != kernel && !global && Walk(tables, kernel, v.i2) == None {
        forall base | Private(tables, base, kernel, c) ensures Private(tables', base, kernel, c) {
          LinkRoot(tables, l, base, kernel, c, v.i2, p, e);
        }
      }
    }
  }

  /** The second step: the level-0 table exists, or is linked now, or there is no page left. */
  lemma {:induction false} LinkedOwn(tables: Tables, l: Roles, kernel: nat, c: nat, v: VPage, t: nat, r: Option<nat>,
                                     tables': Tables, global: bool)
    requires WellFormed(tables, l) && c in l.roots && kernel in l.roots && InBounds(v)
    requires Walk(tables, c, v.i2) == Some(t)
    requires Walk(tables, t, v.i1).Some? || r == None ==> tables' == tables
    requires Walk(tables, t, v.i1) == None && r.Some? ==>
               && r.value < PPN_LIMIT && r.value !in tables && t in tables && v.i1 < |tables[t]|
               && tables' == LinkTable(tables, t, v.i1, r.value, TableEntry(r.value, global))
    ensures t !in l.roots
    ensures tables'.Keys == tables.Keys + (if Walk(tables, t, v.i1) == None && r.Some? then {r.value} else {})
    ensures r == None ==> TablesMissing(tables', c, v) == if Walk(tables, t, v.i1) == None then 1 else 0
    ensures forall u, i :: u in l.roots ==> Walk(tables', u, i) == Walk(tables, u, i)
    ensures c != kernel && !global && Walk(tables, kernel, v.i2) == None ==>
              forall base :: Private(tables, base, kernel, c) ==> Private(tables', base, kernel, c)
  {
    hide Private, TableEntry;
    RootWalkIsMiddle(tables, l, c, v.i2);
    if Walk(tables, t, v.i1) == None && r.Some? {
      var p := r.value;
      var e := TableEntry(p, global);
      TableEntryFields(p, global);
      forall u, k ensures Walk(tables', u, k) == if u == t && k == v.i1 then Some(p) else Walk(tables, u, k) {
        WalkAfterLink(tables, t, v.i1, p, e, u, k);
      }
      if c != kernel && !global && Walk(tables, kernel, v.i2) == None {
        assert OwnMiddle(tables, kernel, c, t);
        forall base | Private(tables, base, kernel, c) ensures Private(tables', base, kernel, c) {
          LinkOwn(tables, l, base, kernel, c, t, v.i1, p, e);
        }
      }
    }
  }

  /** The last step: the level-0 entry is written. */
  lemma {:induction false} Written(tables: Tables, l: Roles, kernel: nat, c: nat, t0: nat, i0: nat, e: nat)
    requires WellFormed(tables, l) && c in l.roots && kernel in l.roots && t0 in l.parent
    requires t0 in tables && i0 < |tables[t0]|
    ensures Write(tables, t0, i0, e).Keys == tables.Keys
    ensures forall u :: u in l.roots ==> u in tables && Write(tables, t0, i0, e)[u] == tables[u]
    ensures forall u, i :: u in l.roots ==> Walk(Write(tables, t0, i0, e), u, i) == Walk(tables, u, i)
    ensures forall base :: Private(tables, base, kernel, c) ==> Private(Write(tables, t0, i0, e), base, kernel, c)
  {
    hide Private;
    forall base | Private(tables, base, kernel, c) ensures Private(Write(tables, t0, i0, e), base, kernel, c) {
      WriteOwn(tables, l, base, kernel, c, t0, i0, e);
    }
  }

  /** What mapping page v did: one round of the loop of `map`. */
  ghost predicate PageEffect(roots: set<nat>, tables: Tables, tables': Tables, kernel: nat, c: nat, v: VPage, pa: nat,
                             flags: nat, ok: bool)
    requires flags < FLAG_LIMIT
  {
    && (forall s, w :: s in roots && InBounds(w) ==>
          Translation(tables', s, w) ==
          if ok && w == v && Follows(tables, s, c, v.i2) then ValidOnly(NewEntry(pa, flags))
          else Translation(tables, s, w))
    && (forall s, q, k :: s in roots && q in roots && s != q ==>
      (Shares(tables', s, q, k) <==> Shares(tables, s, q, k)))
    && (c != kernel ==> forall i :: Walk(tables', kernel, i) == Walk(tables, kernel, i))
    && (c != kernel && !Has(flags, G) && Walk(tables, kernel, v.i2) == None ==>
          forall base :: Private(tables, base, kernel, c) ==> Private(tables', base, kernel, c))
  }

  /** Linking the tables and then writing the entry has that effect. */
  lemma {:induction false} PageDone(roots: set<nat>, before: Tables, linked: Tables, next: Tables, kernel: nat, c: nat,
                                    v: VPage, pa: nat, flags: nat)
    requires flags < FLAG_LIMIT && c in roots && Shares(linked, c, c, v.i2)
    requires forall s, w :: s in roots ==> Translation(linked, s, w) == Translation(before, s, w)
    requires forall s, w :: s in roots && InBounds(w) ==>
               Translation(next, s, w) ==
               if w == v && Shares(linked, s, c, v.i2) then ValidOnly(NewEntry(pa, flags))
               else Translation(linked, s, w)
    requires forall s, q, k :: s in roots && q in roots && s != q ==>
               (Shares(linked, s, q, k) <==> Shares(before, s, q, k))
    requires forall s, q, k :: s in roots && q in roots ==> (Shares(next, s, q, k) <==> Shares(linked, s, q, k))
    requires c != kernel ==> forall i :: Walk(linked, kernel, i) == Walk(before, kernel, i)
    requires c != kernel ==> forall i :: Walk(next, kernel, i) == Walk(linked, kernel, i)
    requires c != kernel && !Has(flags, G) && Walk(before, kernel, v.i2) == None ==>
               forall base :: Private(before, base, kernel, c) ==> Private(linked, base, kernel, c)
    requires forall base :: Private(linked, base, kernel, c) ==> Private(next, base, kernel, c)
    ensures PageEffect(roots, before, next, kernel, c, v, pa, flags, true)
  {
    hide Translation, Shares, ValidOnly, NewEntry, Has, Private, Walk;
  }

  lemma PageRefused(roots: set<nat>, before: Tables, next: Tables, kernel: nat, c: nat, v: VPage, pa: nat, flags: nat)
    requires flags < FLAG_LIMIT && c in roots
    requires forall s, w :: s in roots ==> Translation(next, s, w) == Translation(before, s, w)
    requires forall s, q, k :: s in roots && q in roots && s != q ==>
               (Shares(next, s, q, k) <==> Shares(before, s, q, k))
    requires c != kernel ==> forall i :: Walk(next, kernel, i) == Walk(before, kernel, i)
    requires c != kernel && !Has(flags, G) && Walk(before, kernel, v.i2) == None ==>
               forall base :: Private(before, base, kernel, c) ==> Private(next, base, kernel, c)
    ensures PageEffect(roots, before, next, kernel, c, v, pa, flags, false)
  {
    hide Translation, Shares, ValidOnly, NewEntry, Has, Private, Walk;
  }

  /** What the first n rounds did. */
  ghost predicate RangeEffect(roots: set<nat>, tables: Tables, tables': Tables, kernel: nat, c: nat, va: nat, pa: nat,
                              size: nat, flags: nat, n: nat)
    requires flags < FLAG_LIMIT
  {
    && (forall s, w :: s in roots && InBounds(w) ==>
          Translation(tables', s, w) == Mapped(tables, c, va, pa, flags, n, s, w))
    && (forall s, q, k :: s in roots && q in roots && s != q ==>
      (Shares(tables', s, q, k) <==> Shares(tables, s, q, k)))
    && (c != kernel ==> forall i :: Walk(tables', kernel, i) == Walk(tables, kernel, i))
    && (c != kernel && !Has(flags, G) && InOwnSlots(tables, kernel, va, size) ==>
          forall base :: Private(tables, base, kernel, c) ==> Private(tables', base, kernel, c))
  }

  lemma {:induction false} RangeEffectNone(roots: set<nat>, tables: Tables, kernel: nat, c: nat, va: nat, pa: nat,
                                           size: nat,
                                           flags: nat)
    requires flags < FLAG_LIMIT
    ensures RangeEffect(roots, tables, tables, kernel, c, va, pa, size, flags, 0)
  {
  }

  lemma {:induction false} RangeEffectMore(roots: set<nat>, tables: Tables, now: Tables, next: Tables, kernel: nat,
                                           c: nat,
                                           va: nat, pa: nat, size: nat, flags: nat, n: nat, ok: bool)
    requires flags < FLAG_LIMIT && c in roots && n * PG_SIZE < size
    requires RangeEffect(roots, tables, now, kernel, c, va, pa, size, flags, n)
    requires PageEffect(roots, now, next, kernel, c, PageAt(va, n), pa + n * PG_SIZE, flags, ok)
    ensures RangeEffect(roots, tables, next, kernel, c, va, pa, size, flags, if ok then n + 1 else n)
  {
    hide Private, Translation, NewEntry, ValidOnly, Has, Px, IndicesOf, Walk, Shares;
    var v, n' := PageAt(va, n), if ok then n + 1 else n;
    forall s, w | s in roots && InBounds(w)
      ensures Translation(next, s, w) == Mapped(tables, c, va, pa, flags, n', s, w)
    {
      assert Follows(now, s, c, v.i2) <==> Follows(tables, s, c, v.i2);
      assert Translation(now, s, w) == Mapped(tables, c, va, pa, flags, n, s, w);
    }
    if c != kernel && InOwnSlots(tables, kernel, va, size) {
      assert Walk(now, kernel, v.i2) == Walk(tables, kernel, v.i2) == None;
    }
  }

  /** The whole range lies in slots that the kernel leaves empty. */
  ghost predicate InOwnSlots(tables: Tables, kernel: nat, va: nat, size: nat) {
    forall j: nat :: j * PG_SIZE < size ==> Walk(tables, kernel, PageAt(va, j).i2) == None
  }

  lemma {:induction false} RangeMapped(tables: Tables, tables': Tables, c: nat, va: nat, pa: nat, size: nat, flags: nat,
                                       done: nat)
    requires flags < FLAG_LIMIT && pa % PG_SIZE == 0 && done * PG_SIZE < size + PG_SIZE
    requires forall w :: InBounds(w) ==> Translation(tables', c, w) == Mapped(tables, c, va, pa, flags, done, c, w)
    ensures done <= 0x800_0000 && flags % 2 == 1 && pa + size <= PPN_LIMIT * PG_SIZE ==>
              forall j: nat :: j < done ==> MapsTo(tables', c, PageAt(va, j), pa + j * PG_SIZE, flags)
  {
    if done <= 0x800_0000 && flags % 2 == 1 && pa + size <= PPN_LIMIT * PG_SIZE {
      forall j: nat | j < done ensures MapsTo(tables', c, PageAt(va, j), pa + j * PG_SIZE, flags) {
        hide Translation, Mapped, NewEntry, Px;
        MappedRange(tables, c, va, pa, flags, done, PageAt(va, j));
        PageAligned(pa, size, j, done);
        EntryRoundTrip(pa + j * PG_SIZE, flags);
        assert InBounds(PageAt(va, j));
      }
    }
  }

  lemma RangeMeans(roots: set<nat>, tables: Tables, tables': Tables, kernel: nat, c: nat, va: nat, pa: nat, size: nat,
                   flags: nat, n: nat)
    requires c in roots && pa % PG_SIZE == 0 && n * PG_SIZE < size + PG_SIZE
    requires flags < FLAG_LIMIT && RangeEffect(roots, tables, tables', kernel, c, va, pa, size, flags, n)
    ensures forall s, w :: s in roots && InBounds(w) ==>
              Translation(tables', s, w) == Mapped(tables, c, va, pa, flags, n, s, w)
    ensures n <= 0x800_0000 && flags % 2 == 1 && pa + size <= PPN_LIMIT * PG_SIZE ==>
              forall j: nat :: j < n ==> MapsTo(tables', c, PageAt(va, j), pa + j * PG_SIZE, flags)
    ensures c != kernel ==> forall i :: Walk(tables', kernel, i) == Walk(tables, kernel, i)
    ensures c != kernel && !Has(flags, G) && InOwnSlots(tables, kernel, va, size) ==>
              forall base :: Private(tables, base, kernel, c) ==> Private(tables', base, kernel, c)
  {
    hide Translation, Mapped, Private, Walk, MapsTo, Has;
    RangeMapped(tables, tables', c, va, pa, size, flags, n);
  }

  lemma PageAligned(pa: nat, size: nat, j: nat, done: nat)
    requires pa % PG_SIZE == 0 && j < done && done * PG_SIZE < size + PG_SIZE && pa + size <= PPN_LIMIT * PG_SIZE
    ensures (pa + j * PG_SIZE) % PG_SIZE == 0 && (pa + j * PG_SIZE) / PG_SIZE < PPN_LIMIT
  {
  }

  /** A clone c of the kernel with the first n pages of a range mapped in its own slots. */
  ghost predicate FilledClone(tables: Tables, l: Roles, kernel: nat, c: nat, va: nat, pa: nat, flags: nat, n: nat)
    requires flags < FLAG_LIMIT
  {
    && WellFormed(tables, l) && c in l.roots && kernel in l.roots && Shaped(tables, kernel, c)
    && n <= 0x800_0000 && pa % PG_SIZE == 0 && pa + n * PG_SIZE <= PPN_LIMIT * PG_SIZE
    && (forall j: nat :: j < n ==> Walk(tables, kernel, PageAt(va, j).i2) == None)
    && (forall w :: InBounds(w) && Walk(tables, kernel, w.i2) == None ==>
          Translation(tables, c, w) ==
          match LastWrite(va, n, w)
          case None => None
          case Some(j) => ValidOnly(NewEntry(pa + j * PG_SIZE, flags)))
  }

  predicate UserFlags(flags: nat) {
    flags < FLAG_LIMIT && flags % 2 == 1 && flags % 16 >= 2 && (flags / 32) % 2 == 0
  }

  /** The entry written for the j-th page. */
  lemma {:induction false} RangeEntry(pa: nat, flags: nat, j: nat, n: nat)
    requires UserFlags(flags) && pa % PG_SIZE == 0 && pa + n * PG_SIZE <= PPN_LIMIT * PG_SIZE && j < n
    ensures var e := NewEntry(pa + j * PG_SIZE, flags);
            IsValid(e) && !IsGlobal(e) && IsLeaf(e) && Ppn(e) == pa / PG_SIZE + j
  {
    EntryRoundTrip(pa + j * PG_SIZE, flags);
    assert (pa + j * PG_SIZE) / PG_SIZE == pa / PG_SIZE + j;
    assert pa + j * PG_SIZE < PPN_LIMIT * PG_SIZE;
  }

  /** Its user pages are exactly the pages mapped, and all its private level-0 entries are leaves. */
  lemma {:induction false} FilledUsers(tables: Tables, l: Roles, kernel: nat, c: nat, va: nat, pa: nat, flags: nat,
                                       n: nat,
                                       v: VPage, p: nat)
    requires UserFlags(flags) && FilledClone(tables, l, kernel, c, va, pa, flags, n) && InBounds(v)
    ensures UserLeaf(tables, c, v, p) <==> exists j: nat :: j < n && v == PageAt(va, j) && p == pa / PG_SIZE + j
    ensures var b := Sub(tables, Sub(tables, c, v.i2), v.i1);
            Doomed(tables, c, v.i2) && Doomed(tables, Sub(tables, c, v.i2), v.i1) && Doomed(tables, b, v.i0) ==>
              IsLeaf(EntryAt(tables, b, v.i0))
  {
    hide IsValid, IsGlobal, IsLeaf, Ppn, NewEntry, PageAt, Shaped;
    OwnLeaf(tables, l, kernel, c, v);
    LastWriteIsWrite(va, n, v);
    if LastWrite(va, n, v).Some? {
      RangeEntry(pa, flags, LastWrite(va, n, v).value, n);
    }
    if j: nat :| j < n && v == PageAt(va, j) && p == pa / PG_SIZE + j {
      WrittenOnce(va, n, j);
      RangeEntry(pa, flags, j, n);
    }
  }

  lemma {:induction false} FilledDestroy(tables: Tables, l: Roles, kernel: nat, c: nat, va: nat, pa: nat, flags: nat,
                                         n: nat)
    requires UserFlags(flags) && FilledClone(tables, l, kernel, c, va, pa, flags, n)
    ensures LeavesOnly(tables, c) && InjectiveUsers(tables, c)
    ensures forall p: nat :: IsUser(tables, c, p) <==> pa / PG_SIZE <= p < pa / PG_SIZE + n
  {
    hide FilledClone, Doomed, IsLeaf;
    forall v | InBounds(v) && Doomed(tables, c, v.i2) && Doomed(tables, Sub(tables, c, v.i2), v.i1)
               && Doomed(tables, Sub(tables, Sub(tables, c, v.i2), v.i1), v.i0)
      ensures IsLeaf(EntryAt(tables, Sub(tables, Sub(tables, c, v.i2), v.i1), v.i0))
    {
      FilledUsers(tables, l, kernel, c, va, pa, flags, n, v, 0);
    }
    hide LeavesOnly;
    forall v, w, p | UserLeaf(tables, c, v, p) && UserLeaf(tables, c, w, p) ensures v == w {
      LeafBounds(tables, c, v, p);
      LeafBounds(tables, c, w, p);
      FilledUsers(tables, l, kernel, c, va, pa, flags, n, v, p);
      FilledUsers(tables, l, kernel, c, va, pa, flags, n, w, p);
    }
    hide UserLeaf;
    forall p: nat
      ensures IsUser(tables, c, p) <==> pa / PG_SIZE <= p < pa / PG_SIZE + n
    {
      if v :| UserLeaf(tables, c, v, p) {
        LeafBounds(tables, c, v, p);
        FilledUsers(tables, l, kernel, c, va, pa, flags, n, v, p);
      }
      if pa / PG_SIZE <= p < pa / PG_SIZE + n {
        var j: nat := p - pa / PG_SIZE;
        FilledUsers(tables, l, kernel, c, va, pa, flags, n, PageAt(va, j), p);
        assert UserLeaf(tables, c, PageAt(va, j), p);
      }
    }
  }

  /** Cloning and mapping fill the clone. */
  lemma {:induction false} CloneFilled(before: Tables, cloned: Tables, tables: Tables, l: Roles, kernel: nat, c: nat,
                                       va: nat,
                                       pa: nat, size: nat, flags: nat, n: nat)
    requires flags < FLAG_LIMIT && WellFormed(tables, l) && c in l.roots && kernel in l.roots
    requires Shaped(tables, kernel, c) && pa % PG_SIZE == 0 && n * PG_SIZE < size + PG_SIZE && size % PG_SIZE == 0
    requires size <= 0x800_0000 * PG_SIZE && pa + size <= PPN_LIMIT * PG_SIZE
    requires InOwnSlots(before, kernel, va, size)
    requires forall i :: Walk(tables, kernel, i) == Walk(before, kernel, i)
    requires forall v :: Translation(cloned, c, v) == Translation(before, kernel, v)
    requires forall w :: InBounds(w) ==> Translation(tables, c, w) == Mapped(cloned, c, va, pa, flags, n, c, w)
    ensures FilledClone(tables, l, kernel, c, va, pa, flags, n)
  {
    hide IsValid, Ppn, NewEntry, PageAt, Shaped, WellFormed;
    forall w | InBounds(w) && Walk(tables, kernel, w.i2) == None
      ensures Translation(tables, c, w) ==
              match LastWrite(va, n, w)
              case None => None
              case Some(j) => ValidOnly(NewEntry(pa + j * PG_SIZE, flags))
    {
      assert Translation(tables, c, w) == Mapped(cloned, c, va, pa, flags, n, c, w);
      assert Walk(before, kernel, w.i2) == None;
      assert Translation(before, kernel, w) == None;
    }
    forall j: nat | j < n ensures Walk(tables, kernel, PageAt(va, j).i2) == None {
      assert j * PG_SIZE < size;
    }
  }

  /** Destroying c gives back exactly the tables that were not there before. */
  lemma {:induction false} TabsAreRest(tables: Tables, l: Roles, base: set<nat>, kernel: nat, c: nat, tabs: seq<nat>)
    requires WellFormed(tables, l) && c in l.roots && kernel in l.roots && Private(tables, base, kernel, c)
    requires forall x :: x in tabs <==> PrivateTable(tables, c, 2, x)
    ensures (set x | x in tabs) == tables.Keys - base
  {
    hide Shaped, WellFormed;
    forall x ensures x in tabs <==> x in tables && x !in base {
      PrivateIsOwned(tables, l, kernel, c, x);
      if x in tabs {
        PrivateOfRoot(tables, l, c, x);
      }
    }
  }

  lemma SlotsKept(tables: Tables, tables': Tables, kernel: nat, va: nat, size: nat)
    requires forall i :: Walk(tables', kernel, i) == Walk(tables, kernel, i)
    requires InOwnSlots(tables, kernel, va, size)
    ensures InOwnSlots(tables', kernel, va, size)
  {
  }

  lemma Owned(tables: Tables, base: set<nat>, kernel: nat, c: nat)
    requires Private(tables, base, kernel, c)
    ensures Shaped(tables, kernel, c) && base <= tables.Keys
  {
  }

  lemma PagesBack(base: set<nat>, pool: set<nat>, keys: set<nat>, left: set<nat>)
    requires base <= keys && base !! pool && keys !! left && base + pool == keys + left
    ensures keys - (keys - base) == base && left + (keys - base) == pool
  {
  }

  /** Mapping in its own slots, a clone changes nothing for the others. */
  lemma {:induction false} MappedElsewhere(tables: Tables, l: Roles, kernel: nat, c: nat, va: nat, pa: nat, size: nat,
                                           flags: nat)
    requires WellFormed(tables, l) && KernelShared(tables, l, kernel) && c in l.roots && c != kernel
    requires flags < FLAG_LIMIT && InOwnSlots(tables, kernel, va, size)
    ensures forall n: nat, s, w ::
              n * PG_SIZE < size + PG_SIZE && size % PG_SIZE == 0 && s in l.roots && s != c && InBounds(w) ==>
                Mapped(tables, c, va, pa, flags, n, s, w) == Translation(tables, s, w)
  {
    forall n: nat, s, w | n * PG_SIZE < size + PG_SIZE && size % PG_SIZE == 0 && s in l.roots && s != c && InBounds(w)
      ensures Mapped(tables, c, va, pa, flags, n, s, w) == Translation(tables, s, w)
    {
      hide WellFormed, KernelShared, Mapped, Translation, PageAt;
      forall j: nat | j < n ensures Walk(tables, kernel, PageAt(va, j).i2) == None {
        assert j * PG_SIZE < size;
      }
      CloneIsolation(tables, l, kernel, c, va, pa, flags, n, s, w);
    }
  }

  lemma PagesLeft(pool: set<nat>, p: nat)
    ensures p in pool ==> |pool - {p}| + 1 == |pool|
  {
  }

  class AddressSpaces {
    var tables: Tables
    var pool: set<nat>      // physical pages that kalloc can still hand out
    const kernel: nat
    ghost var roles: Roles

    ghost predicate Valid()
      reads this
    {
      && WellFormed(tables, roles)
      && KernelShared(tables, roles, kernel)
      && PoolOk(pool, tables)
    }

    /** The kernel table, still empty. */
    constructor (pool: set<nat>, page: nat)
      requires forall p :: p in pool ==> p < PPN_LIMIT
      requires page in pool
      ensures Valid() && kernel == page && roles.roots == {page}
      ensures forall v :: Translation(tables, page, v) == None
    {
      tables := map[page := EmptyTable()];
      this.pool := pool - {page};
      kernel := page;
      roles := Roles({page}, map[], map[]);
    }

    /** `walk_or_create`; None stands for kalloc running out of memory. */
    method WalkOrCreate(t: nat, i: nat, global: bool) returns (r: Option<nat>)
      requires Valid() && i < NENTRY && (t in roles.roots || t in roles.slot)
      requires t == kernel ==> global
      modifies this
      ensures Valid() && roles.roots == old(roles).roots
      ensures t in roles.roots || t in roles.slot
      ensures forall u :: u in old(roles).slot ==> u in roles.slot
      ensures r == None <==> old(Walk(tables, t, i)) == None && old(pool) == {}
      ensures r == None ==> pool == {}
      ensures old(Walk(tables, t, i)).Some? || r == None ==>
                tables == old(tables) && pool == old(pool) && roles == old(roles)
      ensures old(Walk(tables, t, i)) == None && r.Some? ==>
                && r.value in old(pool) && pool == old(pool) - {r.value} && r.value < PPN_LIMIT
                && r.value !in old(tables) && t in old(tables) && i < |old(tables)[t]|
                && tables == LinkTable(old(tables), t, i, r.value, TableEntry(r.value, global))
      ensures r.Some? ==> Walk(tables, t, i) == r && (t in roles.roots ==> r.value in roles.slot)
      ensures forall u, k :: u in old(tables) && (u != t || k != i) ==> Walk(tables, u, k) == old(Walk(tables, u, k))
      ensures forall s, v :: s in roles.roots ==> Translation(tables, s, v) == old(Translation(tables, s, v))
      ensures forall s, q, k :: s in roles.roots && q in roles.roots && s != q ==>
                (Shares(tables, s, q, k) <==> old(Shares(tables, s, q, k)))
    {
      hide WellFormed, KernelShared, Translation, Shares, TableEntry;
      r := Walk(tables, t, i);
      Members(t, i);
      if r == None && pool != {} {
        var p :| p in pool;
        var e := TableEntry(p, global);
        TableEntryFields(p, global);
        LinkKeepsSharing(tables, roles, kernel, t, i, p, e);
        ghost var before := roles;
        if t in roles.roots {
          roles := LinkMiddle(tables, roles, t, i, p, e);
        } else {
          roles := LinkBottom(tables, roles, t, i, p, e);
        }
        KernelSharedByRoots(LinkTable(tables, t, i, p, e), before, roles, kernel);
        forall u, k
          ensures Walk(LinkTable(tables, t, i, p, e), u, k) == if u == t && k == i then Some(p) else Walk(tables, u, k)
        {
          WalkAfterLink(tables, t, i, p, e, u, k);
        }
        pool := pool - {p};
        tables := LinkTable(tables, t, i, p, e);
        r := Some(p);
      }
    }

    lemma Members(t: nat, i: nat)
      requires Valid() && (t in roles.roots || t in roles.slot)
      ensures t in tables && |tables[t]| == NENTRY && roles.slot.Keys <= tables.Keys && roles.roots !! roles.slot.Keys
      ensures t in roles.roots && Walk(tables, t, i).Some? ==> Walk(tables, t, i).value in roles.slot
      ensures kernel in roles.roots
    {
    }

    /** The first call of `walk_or_create` in `map`: the level-1 table of page v. */
    method MiddleTable(c: nat, v: VPage, global: bool) returns (l1: Option<nat>)
      requires Valid() && c in roles.roots && InBounds(v) && (c == kernel ==> global)
      modifies this
      ensures Valid() && roles.roots == old(roles.roots)
      ensures l1 == None ==>
                pool == old(pool) == {} && TablesMissing(tables, c, v) == old(TablesMissing(tables, c, v)) == 2
      ensures l1.Some? ==> Walk(tables, c, v.i2) == l1 && l1.value in roles.slot
      ensures l1.Some? ==> |pool| + old(TablesMissing(tables, c, v)) == |old(pool)| + TablesMissing(tables, c, v)
      ensures SamePages(old(tables), old(pool), tables, pool)
      ensures c != kernel ==> forall i :: Walk(tables, kernel, i) == old(Walk(tables, kernel, i))
      ensures c != kernel && !global && old(Walk(tables, kernel, v.i2)) == None ==>
                forall base :: old(Private(tables, base, kernel, c)) ==> Private(tables, base, kernel, c)
      ensures forall s, w :: s in roles.roots ==> Translation(tables, s, w) == old(Translation(tables, s, w))
      ensures forall s, q, k :: s in roles.roots && q in roles.roots && s != q ==>
                (Shares(tables, s, q, k) <==> old(Shares(tables, s, q, k)))
    {
      hide WellFormed, KernelShared, Translation, Shares, Private, PoolOk, TableEntry, LinkTable, Walk;
      Members(c, v.i2);
      Members(kernel, v.i2);
      l1 := WalkOrCreate(c, v.i2, global);
      if l1.Some? {
        LinkedRoot(old(tables), old(roles), kernel, c, v, l1.value, tables, global);
        PagesLeft(old(pool), l1.value);
      }
    }

    /** And the second call: the level-0 table. */
    method LeafTable(c: nat, v: VPage, global: bool) returns (l0: Option<nat>)
      requires Valid() && c in roles.roots && InBounds(v) && (c == kernel ==> global)
      modifies this
      ensures Valid() && roles.roots == old(roles.roots)
      ensures l0.Some? <==> old(TablesMissing(tables, c, v)) <= |old(pool)|
      ensures l0 == None ==> pool == {} && TablesMissing(tables, c, v) > 0
      ensures l0.Some? ==> WalkToLeafTable(tables, c, v) == l0
      ensures SamePages(old(tables), old(pool), tables, pool)
      ensures c != kernel ==> forall i :: Walk(tables, kernel, i) == old(Walk(tables, kernel, i))
      ensures c != kernel && !global && old(Walk(tables, kernel, v.i2)) == None ==>
                forall base :: old(Private(tables, base, kernel, c)) ==> Private(tables, base, kernel, c)
      ensures forall s, w :: s in roles.roots ==> Translation(tables, s, w) == old(Translation(tables, s, w))
      ensures forall s, q, k :: s in roles.roots && q in roles.roots && s != q ==>
                (Shares(tables, s, q, k) <==> old(Shares(tables, s, q, k)))
    {
      hide WellFormed, KernelShared, Translation, Shares, Private, PoolOk, TableEntry, LinkTable, Walk;
      l0 := None;
      Members(c, v.i2);
      Members(kernel, v.i2);
      var l1 := MiddleTable(c, v, global);
      if l1.Some? {
        Members(l1.value, v.i1);
        assert l1.value != c;
        ghost var tables1, roles1 := tables, roles;
        assert TablesMissing(tables, c, v) == if Walk(tables, l1.value, v.i1) == None then 1 else 0;
        assert pool == {} <==> |pool| == 0;
        l0 := WalkOrCreate(l1.value, v.i1, global);
        LinkedOwn(tables1, roles1, kernel, c, v, l1.value, l0, tables, global);
      }
    }

    /** One round of the loop of `map`: false if a table could not be created. */
    method MapPage(c: nat, v: VPage, pa: nat, flags: nat) returns (ok: bool)
      requires Valid() && c in roles.roots && InBounds(v) && flags < FLAG_LIMIT
      requires c == kernel ==> Has(flags, G)
      modifies this
      ensures Valid() && roles.roots == old(roles.roots)
      ensures ok <==> old(TablesMissing(tables, c, v)) <= |old(pool)|
      ensures !ok ==> pool == {} && TablesMissing(tables, c, v) > 0
      ensures SamePages(old(tables), old(pool), tables, pool)
      ensures PageEffect(roles.roots, old(tables), tables, kernel, c, v, pa, flags, ok)
    {
      hide WellFormed, KernelShared, Translation, NewEntry, ValidOnly, Shares, Has, Private, Write, TablesMissing,
        PageEffect, Walk;
      Members(c, v.i2);
      Members(kernel, v.i2);
      var l0 := LeafTable(c, v, Has(flags, G));
      ok := l0.Some?;
      if ok {
        ghost var linked := tables;
        WriteLeaf(tables, roles, c, v, l0.value, NewEntry(pa, flags));
        SharesWithItself(linked, c, v.i2);
        RootsAreTables(linked, roles, l0.value);
        Written(linked, roles, kernel, c, l0.value, v.i0, NewEntry(pa, flags));
        tables := Write(tables, l0.value, v.i0, NewEntry(pa, flags));
        SharingOfRoots(linked, tables, roles, roles, kernel);
        PageDone(roles.roots, old(tables), linked, tables, kernel, c, v, pa, flags);
      } else {
        PageRefused(roles.roots, old(tables), tables, kernel, c, v, pa, flags);
      }
    }

    /**
     Maps `size` bytes at pa to va, page by page. `done` is the number of pages mapped;
     the loop stops early exactly when no page is left for a table that is missing.
     */
    method Map(c: nat, pa: nat, va: nat, size: nat, flags: nat) returns (done: nat)
      requires Valid() && c in roles.roots && flags < FLAG_LIMIT
      requires pa % PG_SIZE == 0 && va % PG_SIZE == 0
      requires c == kernel ==> Has(flags, G)
      modifies this
      ensures Valid() && roles.roots == old(roles.roots)
      ensures done * PG_SIZE < size + PG_SIZE
      ensures done * PG_SIZE < size ==> pool == {} && TablesMissing(tables, c, PageAt(va, done)) > 0
      ensures SamePages(old(tables), old(pool), tables, pool)
      ensures forall s, w :: s in roles.roots && InBounds(w) ==>
                Translation(tables, s, w) == old(Mapped(tables, c, va, pa, flags, done, s, w))
      ensures done <= 0x800_0000 && flags % 2 == 1 && pa + size <= PPN_LIMIT * PG_SIZE ==>
                forall j: nat :: j < done ==> MapsTo(tables, c, PageAt(va, j), pa + j * PG_SIZE, flags)
      ensures c != kernel ==> forall i :: Walk(tables, kernel, i) == old(Walk(tables, kernel, i))
      ensures c != kernel && !Has(flags, G) && InOwnSlots(old(tables), kernel, va, size) ==>
                forall base :: old(Private(tables, base, kernel, c)) ==> Private(tables, base, kernel, c)
    {
      hide WellFormed, KernelShared, Translation, ValidOnly, Private, PoolOk, TablesMissing, Walk, MapsTo, RangeEffect,
        InOwnSlots, Mapped, SamePages, PageAt;
      done := MapPages(c, pa, va, size, flags);
      RangeMeans(roles.roots, old(tables), tables, kernel, c, va, pa, size, flags, done);
    }

    /** The loop of `map`. */
    method MapPages(c: nat, pa: nat, va: nat, size: nat, flags: nat) returns (done: nat)
      requires Valid() && c in roles.roots && flags < FLAG_LIMIT
      requires c == kernel ==> Has(flags, G)
      modifies this
      ensures Valid() && roles.roots == old(roles.roots)
      ensures done * PG_SIZE < size + PG_SIZE
      ensures done * PG_SIZE < size ==> pool == {} && TablesMissing(tables, c, PageAt(va, done)) > 0
      ensures SamePages(old(tables), old(pool), tables, pool)
      ensures RangeEffect(roles.roots, old(tables), tables, kernel, c, va, pa, size, flags, done)
    {
      hide WellFormed, KernelShared, Translation, NewEntry, ValidOnly, Shares, Has, IndicesOf, Px, Private, PoolOk,
        TablesMissing, Walk, MapsTo, RangeEffect, PageEffect, InOwnSlots, Mapped;
      var paEnd := pa + size;
      var p, a, ok := pa, va, true;
      done := 0;
      RangeEffectNone(roles.roots, tables, kernel, c, va, pa, size, flags);
      while p < paEnd && ok
        invariant p == pa + done * PG_SIZE && a == va + done * PG_SIZE
        invariant done * PG_SIZE < size + PG_SIZE
        invariant !ok ==> pool == {} && TablesMissing(tables, c, IndicesOf(a)) > 0
        invariant Valid() && roles.roots == old(roles.roots)
        invariant SamePages(old(tables), old(pool), tables, pool)
        invariant RangeEffect(roles.roots, old(tables), tables, kernel, c, va, pa, size, flags, done)
        decreases paEnd - p, ok
      {
        assert PageAt(va, done) == IndicesOf(a);
        ghost var now := tables;
        ok := MapPage(c, IndicesOf(a), p, flags);
        RangeEffectMore(roles.roots, old(tables), now, tables, kernel, c, va, pa, size, flags, done, ok);
        if ok {
          p, a, done := p + PG_SIZE, a + PG_SIZE, done + 1;
        }
      }
    }

    /** `KernelPgTable::clone`: a new root with the kernel's entries. */
    method Clone() returns (r: Option<nat>)
      requires Valid()
      modifies this
      ensures Valid()
      ensures r == None <==> old(pool) == {}
      ensures r == None ==> tables == old(tables) && pool == old(pool) && roles == old(roles)
      ensures r.Some? ==>
                && r.value !in old(roles.roots) && roles.roots == old(roles.roots) + {r.value}
                && r.value != kernel && SamePages(old(tables), old(pool), tables, pool)
                && Private(tables, old(tables).Keys, kernel, r.value)
                && (forall i :: Walk(tables, kernel, i) == old(Walk(tables, kernel, i)))
                && (forall v :: Translation(tables, r.value, v) == old(Translation(tables, kernel, v)))
                && (forall s, v :: s in old(roles.roots) ==>
                  Translation(tables, s, v) == old(Translation(tables, s, v)))
    {
      if pool == {} {
        return None;
      }
      var page :| page in pool;
      CloneRoot(tables, roles, kernel, page);
      ClonePrivate(tables, roles, kernel, page);
      pool := pool - {page};
      tables := tables[page := tables[kernel]];
      roles := roles.(roots := roles.roots + {page});
      r := Some(page);
    }

    /** `destroy_imp`: collects what the recursion gives back, entry by entry. */
    method DestroyImp(t: nat, level: nat) returns (r: Option<Freed>)
      ensures r == DestroyTable(tables, t, level)
      decreases level
    {
      r := Some(Freed([], []));
      var i := 0;
      while i < NENTRY
        invariant i <= NENTRY && r == DestroyEntries(tables, t, level, i)
      {
        var e := EntryAt(tables, t, i);
        if IsValid(e) && !IsGlobal(e) {
          if IsLeaf(e) {
            r := Joined(r, Some(Freed([(Ppn(e), Pow2(9 * level))], [])));
          } else if level == 0 {
            r := None;
          } else {
            var below := DestroyImp(Ppn(e), level - 1);
            r := Joined(r, below);
          }
        } else {
          r := Joined(r, Some(Freed([], [])));
        }
        i := i + 1;
      }
      r := Joined(r, Some(Freed([], [t])));
    }

    /**
     Destroys a user table. It completes exactly when every private level-0 entry is a
     leaf, and then returns each private table page and each user page exactly once.
     */
    method Destroy(c: nat) returns (r: Option<Freed>)
      requires Valid() && c in roles.roots && c != kernel
      modifies this
      ensures Valid()
      ensures r.Some? <==> old(LeavesOnly(tables, c))
      ensures r == None ==> tables == old(tables) && pool == old(pool) && roles == old(roles)
      ensures r.Some? ==>
                && NoRepeats(r.value.tabs) && (forall x :: x in r.value.tabs <==> old(PrivateTable(tables, c, 2, x)))
                && (forall u :: u in r.value.users <==> u.1 == 1 && old(IsUser(tables, c, u.0)))
                && (old(InjectiveUsers(tables, c)) ==> NoRepeats(r.value.users))
                && roles.roots == old(roles.roots) - {c}
                && pool == old(pool) + (set x | x in r.value.tabs)
                && tables.Keys == old(tables).Keys - (set x | x in r.value.tabs)
      ensures forall s, v :: s in roles.roots && s != c ==> Translation(tables, s, v) == old(Translation(tables, s, v))
    {
      hide PoolOk, WellFormed, KernelShared, PrivateTable, PrivateUser, DepthOk, LeavesOnly, UserLeaf, InjectiveUsers,
        NoRepeats, Translation;
      r := DestroyImp(c, 2);
      DestroyReturnsPrivate(tables, c, 2);
      DepthIffLeaves(tables, roles, c);
      if r.Some? {
        RootApart(tables, roles, c);
        TablesReturnedOnce(tables, c, 2);
        forall u ensures u in r.value.users <==> u.1 == 1 && IsUser(tables, c, u.0) {
          UsersOfRoot(tables, roles, c, u);
        }
        if InjectiveUsers(tables, c) {
          InjectiveUsersApart(tables, roles, c);
          UsersReturnedOnce(tables, c, 2);
        }
        var gone := set x | x in r.value.tabs;
        DestroyKeepsOthers(tables, roles, kernel, c, gone);
        PagesReturned(pool, tables, gone);
        tables := tables - gone;
        pool := pool + gone;
        roles := RolesWithout(roles, gone);
      }
    }

    /**
     The life of an address space: cloned from the kernel table, given non-global pages in
     slots of its own, and destroyed. Destroying it completes, gives back exactly the pages
     mapped, each once, and leaves the same tables and the same free pages as before.
     */
    method CloneMapDestroy(pa: nat, va: nat, size: nat, flags: nat) returns (done: nat, r: Option<Freed>)
      requires Valid() && pa % PG_SIZE == 0 && va % PG_SIZE == 0
      requires size % PG_SIZE == 0 && size <= 0x800_0000 * PG_SIZE && pa + size <= PPN_LIMIT * PG_SIZE
      requires flags < FLAG_LIMIT && flags % 2 == 1 && flags % 16 >= 2 && (flags / 32) % 2 == 0
      requires InOwnSlots(tables, kernel, va, size)
      modifies this
      ensures Valid() && roles.roots == old(roles.roots)
      ensures tables.Keys == old(tables).Keys && pool == old(pool)
      ensures old(pool) != {} ==> r.Some?
      ensures r.Some? ==>
                && NoRepeats(r.value.users)
                && forall u :: u in r.value.users <==> u.1 == 1 && pa / PG_SIZE <= u.0 < pa / PG_SIZE + done
      ensures forall s, v :: s in roles.roots && InBounds(v) ==>
                Translation(tables, s, v) == old(Translation(tables, s, v))
    {
      hide WellFormed, KernelShared, Translation, Private, PrivateTable, LeavesOnly, IsUser, InjectiveUsers, NoRepeats,
        FilledClone, Mapped, MapsTo, InOwnSlots, Walk, TablesMissing;
      done, r := 0, None;
      var c := Clone();
      if c.Some? {
        ghost var cloned, base := tables, old(tables).Keys;
        SlotsKept(old(tables), cloned, kernel, va, size);
        MappedElsewhere(cloned, roles, kernel, c.value, va, pa, size, flags);
        done := Map(c.value, pa, va, size, flags);
        Members(c.value, 0);
        Owned(tables, base, kernel, c.value);
        CloneFilled(old(tables), cloned, tables, roles, kernel, c.value, va, pa, size, flags, done);
        FilledDestroy(tables, roles, kernel, c.value, va, pa, flags, done);
        ghost var filled, left, l := tables, pool, roles;
        r := Destroy(c.value);
        TabsAreRest(filled, l, base, kernel, c.value, r.value.tabs);
        PagesBack(base, old(pool), filled.Keys, left);
      }
    }
  }
}
