/**
 Sv39 page-table entries (src/mem/pagetable/entry.rs): a word holding a 44-bit physical
 page number above ten flag bits. Shifts and masks by constants are written as division,
 remainder and multiplication.
 */
module PageEntries {
  import opened Bits

  const PPN_LIMIT: nat := 0x1000_0000_0000    // 2^44
  const FLAG_LIMIT: nat := 256

  const V: nat := 1
  const R: nat := 2
  const W: nat := 4
  const X: nat := 8
  const U: nat := 16
  const G: nat := 32
  const A: nat := 64
  const D: nat := 128

  /** Is the flag with bit value `m` set in the word or flag set `e`? */
  predicate Has(e: nat, m: nat)
    requires m > 0
  {
    (e / m) % 2 == 1
  }

  /** `Entry::new`: the flags occupy bits that the shifted page number leaves clear. */
  function NewEntry(pa: nat, flags: nat): nat
    requires flags < FLAG_LIMIT
  {
    ((pa / PG_SIZE) % PPN_LIMIT) * 1024 + flags
  }

  function Ppn(e: nat): nat {
    (e / 1024) % PPN_LIMIT
  }

  function Pa(e: nat): nat {
    Ppn(e) * PG_SIZE
  }

  predicate IsValid(e: nat) { Has(e, V) }

  predicate IsGlobal(e: nat) { Has(e, G) }

  predicate IsLeaf(e: nat) { Has(e, R) || Has(e, W) || Has(e, X) }

  /** Adding an even number of steps of size m leaves the bit of value m alone. */
  lemma {:induction false} FlagKept(n: nat, flags: nat, m: nat, k: nat)
    requires m > 0 && m * (2 * k) == 1024
    ensures Has(n * 1024 + flags, m) <==> Has(flags, m)
    decreases n
  {
    if n > 0 {
      FlagKept(n - 1, flags, m, k);
      var x := (n - 1) * 1024 + flags;
      EvenSteps(x, m, k);
    }
  }

  lemma {:induction false} EvenSteps(x: nat, m: nat, k: nat)
    requires m > 0
    ensures Has(x + m * (2 * k), m) <==> Has(x, m)
  {
    var q, r := x / m, x % m;
    assert x == q * m + r;
    assert x + m * (2 * k) == (q + 2 * k) * m + r;
    DivModUnique(x + m * (2 * k), m, q + 2 * k, r);
  }

  /** An entry gives back the aligned 56-bit address and every flag it was built from. */
  /** The flag tests as arithmetic on the word: bit 0, bit 5, and any of bits 1 to 3. */
  lemma FlagBits(e: nat)
    ensures IsValid(e) <==> e % 2 == 1
    ensures IsGlobal(e) <==> (e / 32) % 2 == 1
    ensures IsLeaf(e) <==> e % 16 >= 2
  {
    var q, r := e / 16, e % 16;
    assert e / 2 == 8 * q + r / 2 && e / 4 == 4 * q + r / 4 && e / 8 == 2 * q + r / 8;
  }

  lemma {:induction false} EntryRoundTrip(pa: nat, flags: nat)
    requires flags < FLAG_LIMIT
    ensures pa % PG_SIZE == 0 && pa / PG_SIZE < PPN_LIMIT ==> Pa(NewEntry(pa, flags)) == pa
    ensures NewEntry(pa, flags) % 1024 == flags
    ensures forall m :: m in {V, R, W, X, U, G, A, D} ==> (Has(NewEntry(pa, flags), m) <==> Has(flags, m))
    ensures IsLeaf(NewEntry(pa, flags)) <==> flags % 16 >= 2
    ensures IsValid(NewEntry(pa, flags)) <==> flags % 2 == 1
    ensures IsGlobal(NewEntry(pa, flags)) <==> (flags / 32) % 2 == 1
  {
    hide Has;
    var n := (pa / PG_SIZE) % PPN_LIMIT;
    FlagKept(n, flags, V, 512);
    FlagKept(n, flags, R, 256);
    FlagKept(n, flags, W, 128);
    FlagKept(n, flags, X, 64);
    FlagKept(n, flags, U, 32);
    FlagKept(n, flags, G, 16);
    FlagKept(n, flags, A, 8);
    FlagKept(n, flags, D, 4);
    FlagBits(flags);
    assert (n * 1024 + flags) / 1024 == n;
  }
}

/**
 Three-level page tables (src/mem/pagetable.rs). The model of memory is the map from the
 page number of each table page to its 512 entries. User tables share the kernel's lower
 tables physically: their roots hold the same entries.
 */
module PageTables {
  import opened Options
  import opened Bits
  import opened PageEntries

  const NENTRY: nat := 512

  type Tables = map<nat, seq<nat>>

  /** The level-2, level-1 and level-0 indices of a virtual page. */
  datatype VPage = VPage(i2: nat, i1: nat, i0: nat)

  predicate InBounds(v: VPage) {
    v.i2 < NENTRY && v.i1 < NENTRY && v.i0 < NENTRY
  }

  /** `px`: nine index bits of the address at the given level. */
  function Px(level: nat, va: nat): (i: nat)
    requires level <= 2
    ensures i < NENTRY
  {
    if level == 0 then (va / 0x1000) % NENTRY
    else if level == 1 then (va / 0x20_0000) % NENTRY
    else (va / 0x4000_0000) % NENTRY
  }

  function IndicesOf(va: nat): (v: VPage)
    ensures InBounds(v)
  {
    VPage(Px(2, va), Px(1, va), Px(0, va))
  }

  /** The j-th page from `va` on. */
  function PageAt(va: nat, j: nat): VPage {
    IndicesOf(va + j * PG_SIZE)
  }

  /** `walk`: the next table, if the entry is valid. */
  function Walk(tables: Tables, t: nat, i: nat): Option<nat> {
    if t in tables && i < |tables[t]| && IsValid(tables[t][i]) then Some(Ppn(tables[t][i])) else None
  }

  /** The table of level 0 responsible for a page. */
  function WalkToLeafTable(tables: Tables, root: nat, v: VPage): Option<nat> {
    match Walk(tables, root, v.i2)
    case None => None
    case Some(t1) => Walk(tables, t1, v.i1)
  }

  /** `get_pte`: the level-0 entry, valid or not, if the tables above it exist. */
  function GetPte(tables: Tables, root: nat, v: VPage): Option<nat> {
    match WalkToLeafTable(tables, root, v)
    case None => None
    case Some(t0) => if t0 in tables && v.i0 < |tables[t0]| then Some(tables[t0][v.i0]) else None
  }

  function ValidOnly(e: nat): Option<nat> {
    if IsValid(e) then Some(e) else None
  }

  /** The flat map that the tree represents: the valid translation of a page. */
  function Translation(tables: Tables, root: nat, v: VPage): Option<nat> {
    match GetPte(tables, root, v)
    case None => None
    case Some(e) => ValidOnly(e)
  }

  // ---- Well-formed table trees ----

  /**
   What each table page is for: the roots, the level-1 tables with the slot they are
   linked from, and the level-0 tables with the table and index they are linked from.
   */
  datatype Roles = Roles(roots: set<nat>, slot: map<nat, nat>, parent: map<nat, (nat, nat)>)

  ghost predicate PagesPartitioned(tables: Tables, l: Roles) {
    && tables.Keys == l.roots + l.slot.Keys + l.parent.Keys
    && l.roots !! l.slot.Keys && l.roots !! l.parent.Keys && l.slot.Keys !! l.parent.Keys
    && forall t :: t in tables ==> |tables[t]| == NENTRY
  }

  ghost predicate RootsLinked(tables: Tables, l: Roles) {
    forall r, i: nat :: r in l.roots && i < NENTRY && r in tables && |tables[r]| == NENTRY && IsValid(tables[r][i]) ==>
      && !IsLeaf(tables[r][i])
      && Ppn(tables[r][i]) in l.slot && l.slot[Ppn(tables[r][i])] == i
  }

  ghost predicate MiddlesLinked(tables: Tables, l: Roles) {
    forall t, i: nat :: t in l.slot && i < NENTRY && t in tables && |tables[t]| == NENTRY && IsValid(tables[t][i]) ==>
      && !IsLeaf(tables[t][i])
      && Ppn(tables[t][i]) in l.parent && l.parent[Ppn(tables[t][i])] == (t, i)
  }

  ghost predicate WellFormed(tables: Tables, l: Roles) {
    PagesPartitioned(tables, l) && RootsLinked(tables, l) && MiddlesLinked(tables, l)
  }

  /** Two roots reach the same level-1 table through the same slot. */
  ghost predicate Shares(tables: Tables, r: nat, s: nat, i: nat) {
    Walk(tables, r, i).Some? && Walk(tables, r, i) == Walk(tables, s, i)
  }

  function Write(tables: Tables, t: nat, i: nat, e: nat): Tables
    requires t in tables && i < |tables[t]|
  {
    var row: seq<nat> := tables[t][i := e];
    tables[t := row]
  }

  function EmptyTable(): seq<nat> {
    seq(NENTRY, _ => 0)
  }

  /** A fresh empty table `p`, linked at entry `i` of `t` by the entry `e`. */
  function LinkTable(tables: Tables, t: nat, i: nat, p: nat, e: nat): Tables
    requires t in tables && i < |tables[t]|
  {
    var row: seq<nat> := tables[t][i := e];
    tables[p := EmptyTable()][t := row]
  }

  /** The entry that points to table page `p`, as `walk_or_create` builds it. */
  function TableEntry(p: nat, global: bool): nat {
    NewEntry(p * PG_SIZE, if global then V + G else V)
  }

  lemma TableEntryFields(p: nat, global: bool)
    requires p < PPN_LIMIT
    ensures var e := TableEntry(p, global);
            IsValid(e) && !IsLeaf(e) && Ppn(e) == p && (IsGlobal(e) <==> global)
  {
    EntryRoundTrip(p * PG_SIZE, if global then V + G else V);
  }

  // ---- Creating a table on the way changes no translation ----

  lemma {:induction false} WalkAfterLink(tables: Tables, t: nat, i: nat, p: nat, e: nat, u: nat, k: nat)
    requires t in tables && i < |tables[t]| && p !in tables && p != t
    requires IsValid(e) && Walk(tables, t, i) == None
    ensures Walk(LinkTable(tables, t, i, p, e), u, k) ==
            if u == t && k == i then Some(Ppn(e)) else Walk(tables, u, k)
  {
  }

  lemma {:induction false} LinkMiddle(tables: Tables, l: Roles, r: nat, i: nat, p: nat, e: nat) returns (l': Roles)
    requires WellFormed(tables, l) && r in l.roots && i < NENTRY && p !in tables
    requires IsValid(e) && !IsLeaf(e) && Ppn(e) == p && Walk(tables, r, i) == None
    ensures l' == l.(slot := l.slot[p := i])
    ensures WellFormed(LinkTable(tables, r, i, p, e), l')
    ensures forall s, v :: s in l.roots ==>
              Translation(LinkTable(tables, r, i, p, e), s, v) == Translation(tables, s, v)
  {
    l' := l.(slot := l.slot[p := i]);
    var tables' := LinkTable(tables, r, i, p, e);
    assert PagesPartitioned(tables', l');
    forall s, v | s in l.roots ensures Translation(tables', s, v) == Translation(tables, s, v) {
      SameThroughMiddle(tables, l, r, i, p, e, s, v);
    }
  }

  lemma {:induction false} SameThroughMiddle(tables: Tables, l: Roles, r: nat, i: nat, p: nat, e: nat, s: nat, v: VPage)
    requires WellFormed(tables, l) && r in l.roots && i < NENTRY && p !in tables && s in l.roots
    requires IsValid(e) && !IsLeaf(e) && Ppn(e) == p && Walk(tables, r, i) == None
    ensures Translation(LinkTable(tables, r, i, p, e), s, v) == Translation(tables, s, v)
  {
    WalkAfterLink(tables, r, i, p, e, s, v.i2);
    if s == r && v.i2 == i {
      WalkAfterLink(tables, r, i, p, e, p, v.i1);
    } else if Walk(tables, s, v.i2).Some? {
      var t1 := Walk(tables, s, v.i2).value;
      assert t1 in l.slot;
      WalkAfterLink(tables, r, i, p, e, t1, v.i1);
    }
  }

  lemma {:induction false} LinkBottom(tables: Tables, l: Roles, t: nat, i: nat, p: nat, e: nat) returns (l': Roles)
    requires WellFormed(tables, l) && t in l.slot && i < NENTRY && p !in tables
    requires IsValid(e) && !IsLeaf(e) && Ppn(e) == p && Walk(tables, t, i) == None
    ensures l' == l.(parent := l.parent[p := (t, i)])
    ensures WellFormed(LinkTable(tables, t, i, p, e), l')
    ensures forall s, v :: s in l.roots ==>
              Translation(LinkTable(tables, t, i, p, e), s, v) == Translation(tables, s, v)
  {
    l' := l.(parent := l.parent[p := (t, i)]);
    var tables' := LinkTable(tables, t, i, p, e);
    assert PagesPartitioned(tables', l');
    forall s, v | s in l.roots ensures Translation(tables', s, v) == Translation(tables, s, v) {
      WalkAfterLink(tables, t, i, p, e, s, v.i2);
      if Walk(tables, s, v.i2).Some? {
        var t1 := Walk(tables, s, v.i2).value;
        assert t1 in l.slot;
        WalkAfterLink(tables, t, i, p, e, t1, v.i1);
      }
    }
  }

  // ---- Writing a level-0 entry ----

  /**
   A level-0 write reaches exactly the roots that share its level-1 table, and there it
   changes exactly one page.
   */
  lemma {:induction false} WriteLeaf(tables: Tables, l: Roles, c: nat, v: VPage, t0: nat, e: nat)
    requires WellFormed(tables, l) && c in l.roots && InBounds(v) && WalkToLeafTable(tables, c, v) == Some(t0)
    ensures t0 in l.parent && t0 in tables && |tables[t0]| == NENTRY
    ensures WellFormed(Write(tables, t0, v.i0, e), l)
    ensures forall s, w :: s in l.roots && InBounds(w) ==>
              Translation(Write(tables, t0, v.i0, e), s, w) ==
              if w == v && Shares(tables, s, c, v.i2) then ValidOnly(e) else Translation(tables, s, w)
  {
    var t1 := Walk(tables, c, v.i2).value;
    assert t1 in l.slot && l.slot[t1] == v.i2;
    assert t0 in l.parent && l.parent[t0] == (t1, v.i1);
    var tables' := Write(tables, t0, v.i0, e);
    forall s, w | s in l.roots && InBounds(w)
      ensures Translation(tables', s, w) ==
              if w == v && Shares(tables, s, c, v.i2) then ValidOnly(e) else Translation(tables, s, w)
    {
      assert Walk(tables', s, w.i2) == Walk(tables, s, w.i2);
      if Walk(tables, s, w.i2).Some? {
        var u1 := Walk(tables, s, w.i2).value;
        assert u1 in l.slot && l.slot[u1] == w.i2;
        assert Walk(tables', u1, w.i1) == Walk(tables, u1, w.i1);
        if Walk(tables, u1, w.i1).Some? {
          var u0 := Walk(tables, u1, w.i1).value;
          assert u0 in l.parent && l.parent[u0] == (u1, w.i1);
        }
      }
    }
  }

  // ---- The flat map after mapping a range ----

  /** Roots whose translations follow a write made through slot `i` of root `c`. */
  ghost predicate Follows(tables: Tables, s: nat, c: nat, i: nat) {
    s == c || Shares(tables, s, c, i)
  }

  /** The last of the first n pages of a mapping at `va` that lands on page w. */
  function LastWrite(va: nat, n: nat, w: VPage): Option<nat> {
    if n == 0 then None
    else if PageAt(va, n - 1) == w then Some(n - 1)
    else LastWrite(va, n - 1, w)
  }

  /** The flat map after the first n pages of pa.. are mapped at va.. through root c. */
  ghost function Mapped(tables: Tables, c: nat, va: nat, pa: nat, flags: nat, n: nat, s: nat, w: VPage): Option<nat>
    requires flags < FLAG_LIMIT
  {
    match LastWrite(va, n, w)
    case None => Translation(tables, s, w)
    case Some(j) =>
      if Follows(tables, s, c, w.i2) then ValidOnly(NewEntry(pa + j * PG_SIZE, flags)) else Translation(tables, s, w)
  }

  /** The three indices are the 27 bits of the page number. */
  lemma PageNumber(va: nat)
    ensures (va / PG_SIZE) % 0x800_0000 == IndicesOf(va).i0 + 512 * IndicesOf(va).i1 + 0x4_0000 * IndicesOf(va).i2
  {
    var n := va / PG_SIZE;
    NestedShifts(va);
    NineBitDigits(n);
  }

  lemma NestedShifts(va: nat)
    ensures va / 0x20_0000 == (va / 0x1000) / 512 && va / 0x4000_0000 == (va / 0x1000) / 0x4_0000
  {
    var n := va / 0x1000;
    var q, p := n / 512, n / 0x4_0000;
    assert 0x20_0000 * q <= va < 0x20_0000 * q + 0x20_0000;
    assert 0x4000_0000 * p <= va < 0x4000_0000 * p + 0x4000_0000;
  }

  lemma NineBitDigits(n: nat)
    ensures n % 0x800_0000 == n % 512 + 512 * ((n / 512) % 512) + 0x4_0000 * ((n / 0x4_0000) % 512)
  {
    var p := n / 0x4_0000;
    var m := n / 512;
    assert m / 512 == p;
    assert n / 0x800_0000 == p / 512;
  }

  lemma ResiduesDiffer(x: nat, y: nat)
    requires x < y < x + 0x800_0000
    ensures x % 0x800_0000 != y % 0x800_0000
  {
    var p, q := x / 0x800_0000, y / 0x800_0000;
  }

  lemma {:induction false} PagesDiffer(va: nat, j: nat, k: nat)
    requires j < k < j + 0x800_0000
    ensures PageAt(va, j) != PageAt(va, k)
  {
    hide IndicesOf;
    PageNumber(va + j * PG_SIZE);
    PageNumber(va + k * PG_SIZE);
    var n := va / PG_SIZE;
    ResiduesDiffer(n + j, n + k);
  }

  lemma {:induction false} LastWriteIsWrite(va: nat, n: nat, w: VPage)
    ensures match LastWrite(va, n, w)
            case Some(j) => j < n && PageAt(va, j) == w
            case None => forall j: nat :: j < n ==> PageAt(va, j) != w
  {
    hide PageAt;
    if n > 0 {
      LastWriteIsWrite(va, n - 1, w);
    }
  }

  /** Within the 39-bit space every page of the range is written once. */
  lemma {:induction false} WrittenOnce(va: nat, n: nat, j: nat)
    requires j < n <= 0x800_0000
    ensures LastWrite(va, n, PageAt(va, j)) == Some(j)
  {
    LastWriteIsWrite(va, n, PageAt(va, j));
    var k := LastWrite(va, n, PageAt(va, j)).value;
    if k < j {
      PagesDiffer(va, k, j);
    } else if j < k {
      PagesDiffer(va, j, k);
    }
  }

  /**
   Mapping refines a flat map: every page of the range gets its new entry, every other
   page keeps its translation.
   */
  /** Page v of root s translates to the page at pa with exactly the given flags. */
  ghost predicate MapsTo(tables: Tables, s: nat, v: VPage, pa: nat, flags: nat) {
    match Translation(tables, s, v)
    case None => false
    case Some(e) => Pa(e) == pa && e % 1024 == flags
  }

  lemma {:induction false} MappedRange(tables: Tables, c: nat, va: nat, pa: nat, flags: nat, n: nat, w: VPage)
    requires flags < FLAG_LIMIT && n <= 0x800_0000
    ensures forall j: nat :: j < n && w == PageAt(va, j) ==>
              Mapped(tables, c, va, pa, flags, n, c, w) == ValidOnly(NewEntry(pa + j * PG_SIZE, flags))
    ensures (forall j: nat :: j < n ==> w != PageAt(va, j)) ==>
              forall s :: Mapped(tables, c, va, pa, flags, n, s, w) == Translation(tables, s, w)
  {
    hide PageAt, Translation, ValidOnly, NewEntry;
    LastWriteIsWrite(va, n, w);
    forall j: nat | j < n && w == PageAt(va, j) ensures LastWrite(va, n, w) == Some(j) {
      WrittenOnce(va, n, j);
    }
  }

  // ---- Sharing with the kernel ----

  /**
   Kernel entries are global, and whatever two roots share they share with the kernel,
   through global entries.
   */
  ghost predicate KernelShared(tables: Tables, l: Roles, kernel: nat) {
    && kernel in l.roots && kernel in tables && |tables[kernel]| == NENTRY
    && (forall i: nat :: i < NENTRY && IsValid(tables[kernel][i]) ==> IsGlobal(tables[kernel][i]))
    && (forall r, s, i: nat :: r in l.roots && s in l.roots && r != s && Shares(tables, r, s, i) ==>
          Shares(tables, kernel, r, i) && i < |tables[r]| && IsGlobal(tables[r][i]))
  }

  lemma {:induction false} RootWalkIsMiddle(tables: Tables, l: Roles, r: nat, k: nat)
    requires WellFormed(tables, l) && r in l.roots && Walk(tables, r, k).Some?
    ensures k < NENTRY && Walk(tables, r, k).value in l.slot && Walk(tables, r, k).value in tables
  {
  }

  lemma KernelSharedByRoots(tables: Tables, l: Roles, l': Roles, kernel: nat)
    requires KernelShared(tables, l, kernel) && l'.roots == l.roots
    ensures KernelShared(tables, l', kernel)
  {
  }

  /** Sharing is a matter of the root pages alone. */
  lemma {:induction false} SharingOfRoots(tables: Tables, tables': Tables, l: Roles, l': Roles, kernel: nat)
    requires KernelShared(tables, l, kernel) && kernel in l'.roots && l'.roots <= l.roots
    requires forall r :: r in l'.roots ==> r in tables && r in tables' && tables'[r] == tables[r]
    ensures KernelShared(tables', l', kernel)
    ensures forall s, q, k :: s in l'.roots && q in l'.roots ==> (Shares(tables', s, q, k) <==> Shares(tables, s, q, k))
  {
    assert forall r, k :: r in l'.roots ==> Walk(tables', r, k) == Walk(tables, r, k);
    forall r, s, k: nat | r in l'.roots && s in l'.roots && r != s && Shares(tables', r, s, k)
      ensures Shares(tables', kernel, r, k) && k < |tables'[r]| && IsGlobal(tables'[r][k])
    {
      assert Shares(tables, r, s, k);
      assert Shares(tables, kernel, r, k);
    }
  }

  lemma SharesWithItself(tables: Tables, c: nat, i: nat)
    requires Walk(tables, c, i).Some?
    ensures Shares(tables, c, c, i)
  {
  }

  lemma RootsAreTables(tables: Tables, l: Roles, t0: nat)
    requires WellFormed(tables, l) && t0 in l.parent
    ensures t0 !in l.roots && forall r :: r in l.roots ==> r in tables
  {
  }

  /** A fresh table is shared by nobody. */
  lemma {:induction false} LinkKeepsSharing(tables: Tables, l: Roles, kernel: nat, t: nat, i: nat, p: nat, e: nat)
    requires WellFormed(tables, l) && KernelShared(tables, l, kernel)
    requires t in tables && i < NENTRY && p !in tables && Walk(tables, t, i) == None
    requires IsValid(e) && Ppn(e) == p && (t == kernel ==> IsGlobal(e))
    ensures forall s, q, k :: s in l.roots && q in l.roots && s != q ==>
              (Shares(LinkTable(tables, t, i, p, e), s, q, k) <==> Shares(tables, s, q, k))
    ensures KernelShared(LinkTable(tables, t, i, p, e), l, kernel)
  {
    var tables' := LinkTable(tables, t, i, p, e);
    forall s, q, k | s in l.roots && q in l.roots && s != q
      ensures Shares(tables', s, q, k) <==> Shares(tables, s, q, k)
    {
      WalkAfterLink(tables, t, i, p, e, s, k);
      WalkAfterLink(tables, t, i, p, e, q, k);
      if Walk(tables, s, k).Some? { RootWalkIsMiddle(tables, l, s, k); }
      if Walk(tables, q, k).Some? { RootWalkIsMiddle(tables, l, q, k); }
    }
    forall r, s, k: nat | r in l.roots && s in l.roots && r != s && Shares(tables', r, s, k)
      ensures Shares(tables', kernel, r, k) && k < |tables'[r]| && IsGlobal(tables'[r][k])
    {
      assert Shares(tables, r, s, k);
      assert Shares(tables, kernel, r, k);
      WalkAfterLink(tables, t, i, p, e, r, k);
    }
  }

  /** Where the mapping touches page w, it writes the translation that the kernel already has. */
  ghost predicate RepeatsKernel(tables: Tables, kernel: nat, va: nat, pa: nat, flags: nat, n: nat, w: VPage)
    requires flags < FLAG_LIMIT
  {
    LastWrite(va, n, w).Some? ==>
      Translation(tables, kernel, w) == ValidOnly(NewEntry(pa + LastWrite(va, n, w).value * PG_SIZE, flags))
  }

  ghost predicate Invisible(tables: Tables, c: nat, va: nat, pa: nat, flags: nat, n: nat, s: nat, w: VPage)
    requires flags < FLAG_LIMIT
  {
    Mapped(tables, c, va, pa, flags, n, s, w) == Translation(tables, s, w)
  }

  /**
   Exactly when a mapping made in a clone is invisible to the kernel and to every other
   clone: where it goes through a slot still shared with the kernel it must rewrite the
   kernel's own translation.
   */
  lemma {:induction false} IsolationExact(tables: Tables, l: Roles, kernel: nat, c: nat,
                                          va: nat, pa: nat, flags: nat, n: nat)
    requires WellFormed(tables, l) && KernelShared(tables, l, kernel)
    requires c in l.roots && c != kernel && flags < FLAG_LIMIT
    ensures (forall s, w :: s in l.roots && s != c && InBounds(w) ==> Invisible(tables, c, va, pa, flags, n, s, w))
            <==>
            (forall w :: InBounds(w) && Shares(tables, kernel, c, w.i2) ==>
              RepeatsKernel(tables, kernel, va, pa, flags, n, w))
  {
    assert kernel in l.roots;
    hide WellFormed, KernelShared, Shares, Invisible, RepeatsKernel;
    forall s, w: VPage | s in l.roots && s != c
      ensures Invisible(tables, c, va, pa, flags, n, s, w) <==>
              (Shares(tables, s, c, w.i2) ==> RepeatsKernel(tables, kernel, va, pa, flags, n, w))
      ensures Shares(tables, s, c, w.i2) ==> Shares(tables, kernel, c, w.i2)
    {
      InvisibleAt(tables, l, kernel, c, va, pa, flags, n, s, w);
    }
  }

  lemma {:induction false} InvisibleAt(tables: Tables, l: Roles, kernel: nat, c: nat, va: nat, pa: nat, flags: nat,
                                       n: nat, s: nat, w: VPage)
    requires KernelShared(tables, l, kernel) && c in l.roots && flags < FLAG_LIMIT && s in l.roots && s != c
    ensures Invisible(tables, c, va, pa, flags, n, s, w) <==>
            (Shares(tables, s, c, w.i2) ==> RepeatsKernel(tables, kernel, va, pa, flags, n, w))
    ensures Shares(tables, s, c, w.i2) ==> Shares(tables, kernel, c, w.i2)
  {
    hide Translation, NewEntry, LastWrite, ValidOnly;
    if Shares(tables, s, c, w.i2) {
      SharedTranslation(tables, l, kernel, c, s, w);
    }
  }

  lemma {:induction false} SharedTranslation(tables: Tables, l: Roles, kernel: nat, c: nat, s: nat, w: VPage)
    requires KernelShared(tables, l, kernel) && c in l.roots && s in l.roots && s != c && Shares(tables, s, c, w.i2)
    ensures Shares(tables, kernel, c, w.i2) && Translation(tables, s, w) == Translation(tables, kernel, w)
  {
    assert Shares(tables, c, s, w.i2);
  }

  /** In particular, slots that are empty in the kernel table are private to the clone. */
  lemma {:induction false} CloneIsolation(tables: Tables, l: Roles, kernel: nat, c: nat,
                                          va: nat, pa: nat, flags: nat, n: nat, s: nat, w: VPage)
    requires WellFormed(tables, l) && KernelShared(tables, l, kernel)
    requires c in l.roots && c != kernel && flags < FLAG_LIMIT
    requires forall j: nat :: j < n ==> Walk(tables, kernel, PageAt(va, j).i2) == None
    requires s in l.roots && s != c && InBounds(w)
    ensures Mapped(tables, c, va, pa, flags, n, s, w) == Translation(tables, s, w)
  {
    LastWriteIsWrite(va, n, w);
    assert Shares(tables, s, c, w.i2) ==> Shares(tables, c, s, w.i2);
  }

  /** The clone at page 2 of a kernel root at page 1, with one level-1 table, page 3, at slot 0. */
  function KernelAndClone(): Tables {
    var root: seq<nat> := EmptyTable()[0 := TableEntry(3, true)];
    map[1 := root, 2 := root, 3 := EmptyTable()]
  }

  /** Through a slot that the kernel uses, a clone's mapping does reach the kernel table. */
  lemma SharedSlotLeaks()
    ensures var tables, l := KernelAndClone(), Roles({1, 2}, map[3 := 0], map[]);
            && WellFormed(tables, l) && KernelShared(tables, l, 1)
            && Translation(tables, 1, PageAt(0, 0)) == None
            && Mapped(tables, 2, 0, 0, V + R, 1, 1, PageAt(0, 0)).Some?
  {
    var tables, l := KernelAndClone(), Roles({1, 2}, map[3 := 0], map[]);
    TableEntryFields(3, true);
    EntryRoundTrip(0, V + R);
    assert PageAt(0, 0) == VPage(0, 0, 0);
    assert !IsValid(0);
    assert LastWrite(0, 1, PageAt(0, 0)) == Some(0);
    assert Walk(tables, 1, 0) == Some(3) == Walk(tables, 2, 0) && Walk(tables, 3, 0) == None;
  }

  /** Copying the kernel root: the copy translates alike and nothing else changes. */
  lemma {:induction false} CloneRoot(tables: Tables, l: Roles, kernel: nat, page: nat)
    requires WellFormed(tables, l) && KernelShared(tables, l, kernel) && page !in tables
    ensures var tables', l' := tables[page := tables[kernel]], l.(roots := l.roots + {page});
            && WellFormed(tables', l') && KernelShared(tables', l', kernel)
            && (forall v :: Translation(tables', page, v) == Translation(tables, kernel, v))
            && (forall s, v :: s in l.roots ==> Translation(tables', s, v) == Translation(tables, s, v))
  {
    var tables', l' := tables[page := tables[kernel]], l.(roots := l.roots + {page});
    assert WellFormed(tables', l');
    assert forall u, k :: Walk(tables', u, k) == Walk(tables, if u == page then kernel else u, k);
    forall s, v ensures s in l.roots ==> Translation(tables', s, v) == Translation(tables, s, v)
                ensures Translation(tables', page, v) == Translation(tables, kernel, v)
    {
      CloneWalk(tables, l, kernel, page, kernel, v);
      if s in l.roots {
        CloneWalk(tables, l, kernel, page, s, v);
      }
    }
    forall r, s, k: nat | r in l'.roots && s in l'.roots && r != s && Shares(tables', r, s, k)
      ensures Shares(tables', kernel, r, k) && k < |tables'[r]| && IsGlobal(tables'[r][k])
    {
      var r', s' := if r == page then kernel else r, if s == page then kernel else s;
      assert Shares(tables, r', s', k);
    }
  }

  /** Walks from an old root never meet the new page. */
  lemma {:induction false} CloneWalk(tables: Tables, l: Roles, kernel: nat, page: nat, s: nat, v: VPage)
    requires WellFormed(tables, l) && s in l.roots && kernel in tables && page !in tables
    ensures match Walk(tables, s, v.i2)
            case None => true
            case Some(t1) =>
              && t1 != page && t1 in tables
              && match Walk(tables, t1, v.i1) case None => true case Some(t0) => t0 != page && t0 in tables
  {
  }
}
