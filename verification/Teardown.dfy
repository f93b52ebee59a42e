/**
 Destroying a page table (`PageTable::destroy`, src/mem/pagetable.rs): which pages the
 recursion returns, that it returns each exactly once, and that nothing shared is touched.
 */
module Teardown {
  import opened Options
  import opened Bits
  import opened PageEntries
  import opened PageTables

  /** Pages given back: user pages with their page counts, and table pages, in order. */
  datatype Freed = Freed(users: seq<(nat, nat)>, tabs: seq<nat>)

  function EntryAt(tables: Tables, t: nat, i: nat): nat {
    if t in tables && i < |tables[t]| then tables[t][i] else 0
  }

  /** The entries that `destroy` follows. */
  predicate Doomed(tables: Tables, t: nat, i: nat) {
    IsValid(EntryAt(tables, t, i)) && !IsGlobal(EntryAt(tables, t, i))
  }

  function Sub(tables: Tables, t: nat, i: nat): nat {
    Ppn(EntryAt(tables, t, i))
  }

  /**
   What one entry of table t makes `destroy_imp` give back; None where the recursion
   would go below level 0.
   */
  function Part(tables: Tables, t: nat, level: nat, i: nat): Option<Freed>
    decreases level, 0, 0
  {
    if !Doomed(tables, t, i) then Some(Freed([], []))
    else if IsLeaf(EntryAt(tables, t, i)) then Some(Freed([(Sub(tables, t, i), Pow2(9 * level))], []))
    else if level == 0 then None
    else DestroyTable(tables, Sub(tables, t, i), level - 1)
  }

  /** What the first n entries of table t make it give back. */
  function DestroyEntries(tables: Tables, t: nat, level: nat, n: nat): Option<Freed>
    decreases level, 1, n
  {
    if n == 0 then Some(Freed([], []))
    else Joined(DestroyEntries(tables, t, level, n - 1), Part(tables, t, level, n - 1))
  }

  function DestroyTable(tables: Tables, t: nat, level: nat): Option<Freed>
    decreases level, 2, 0
  {
    Joined(DestroyEntries(tables, t, level, NENTRY), Some(Freed([], [t])))
  }

  function Joined(a: Option<Freed>, b: Option<Freed>): Option<Freed> {
    if a.Some? && b.Some? then Some(Freed(a.value.users + b.value.users, a.value.tabs + b.value.tabs)) else None
  }

  ghost predicate NoRepeats<T>(s: seq<T>) {
    forall i, j :: 0 <= i < j < |s| ==> s[i] != s[j]
  }

  lemma {:induction false} NoRepeatsConcat<T>(s: seq<T>, t: seq<T>)
    requires NoRepeats(s) && NoRepeats(t) && forall x :: x in s ==> x !in t
    ensures NoRepeats(s + t)
  {
    var u := s + t;
    forall i, j | 0 <= i < j < |u| ensures u[i] != u[j] {
      if i < |s| <= j {
        assert s[i] in s && t[j - |s|] in t;
      }
    }
  }

  // ---- One table: its result is made of the parts of its entries ----

  ghost predicate PartOk(tables: Tables, t: nat, level: nat, i: nat) {
    Part(tables, t, level, i).Some?
  }

  ghost predicate TabFromPart(tables: Tables, t: nat, level: nat, i: nat, x: nat) {
    Part(tables, t, level, i).Some? && x in Part(tables, t, level, i).value.tabs
  }

  ghost predicate UserFromPart(tables: Tables, t: nat, level: nat, i: nat, u: (nat, nat)) {
    Part(tables, t, level, i).Some? && u in Part(tables, t, level, i).value.users
  }

  lemma {:induction false} EntriesJoinParts(tables: Tables, t: nat, level: nat, n: nat)
    ensures DestroyEntries(tables, t, level, n).Some? <==> forall i: nat :: i < n ==> PartOk(tables, t, level, i)
    ensures DestroyEntries(tables, t, level, n).Some? ==>
              var f := DestroyEntries(tables, t, level, n).value;
              && (forall x :: x in f.tabs <==> exists i: nat :: i < n && TabFromPart(tables, t, level, i, x))
              && (forall u :: u in f.users <==> exists i: nat :: i < n && UserFromPart(tables, t, level, i, u))
    decreases n
  {
    if n > 0 {
      EntriesJoinParts(tables, t, level, n - 1);
      assert DestroyEntries(tables, t, level, n)
          == Joined(DestroyEntries(tables, t, level, n - 1), Part(tables, t, level, n - 1));
      assert PartOk(tables, t, level, n - 1) <==> Part(tables, t, level, n - 1).Some?;
      if DestroyEntries(tables, t, level, n).Some? {
        var f, e, g := DestroyEntries(tables, t, level, n).value, DestroyEntries(tables, t, level, n - 1).value,
          Part(tables, t, level, n - 1).value;
        assert f.tabs == e.tabs + g.tabs && f.users == e.users + g.users;
        forall x ensures x in f.tabs <==> exists i: nat :: i < n && TabFromPart(tables, t, level, i, x) {
          assert x in g.tabs <==> TabFromPart(tables, t, level, n - 1, x);
        }
        forall u ensures u in f.users <==> exists i: nat :: i < n && UserFromPart(tables, t, level, i, u) {
          assert u in g.users <==> UserFromPart(tables, t, level, n - 1, u);
        }
      }
    }
  }

  /** Different entries contribute different tables, each entry none twice. */
  ghost predicate TabPartsApart(tables: Tables, t: nat, level: nat) {
    && (forall i: nat :: i < NENTRY && PartOk(tables, t, level, i) ==> NoRepeats(Part(tables, t, level, i).value.tabs))
    && (forall i: nat, j: nat, x ::
        i < NENTRY && j < NENTRY && TabFromPart(tables, t, level, i, x) && TabFromPart(tables, t, level, j, x) ==>
          i == j)
  }

  ghost predicate UserPartsApart(tables: Tables, t: nat, level: nat) {
    && (forall i: nat :: i < NENTRY && PartOk(tables, t, level, i) ==> NoRepeats(Part(tables, t, level, i).value.users))
    && (forall i: nat, j: nat, u ::
        i < NENTRY && j < NENTRY && UserFromPart(tables, t, level, i, u) && UserFromPart(tables, t, level, j, u) ==>
          i == j)
  }

  lemma {:induction false} EntriesNoRepeats(tables: Tables, t: nat, level: nat, n: nat)
    requires n <= NENTRY && DestroyEntries(tables, t, level, n).Some?
    ensures TabPartsApart(tables, t, level) ==> NoRepeats(DestroyEntries(tables, t, level, n).value.tabs)
    ensures UserPartsApart(tables, t, level) ==> NoRepeats(DestroyEntries(tables, t, level, n).value.users)
    decreases n
  {
    if n > 0 {
      EntriesNoRepeats(tables, t, level, n - 1);
      EntriesJoinParts(tables, t, level, n - 1);
      var f, g := DestroyEntries(tables, t, level, n - 1).value, Part(tables, t, level, n - 1).value;
      assert PartOk(tables, t, level, n - 1);
      if TabPartsApart(tables, t, level) {
        assert forall x :: x in g.tabs ==> TabFromPart(tables, t, level, n - 1, x);
        NoRepeatsConcat(f.tabs, g.tabs);
      }
      if UserPartsApart(tables, t, level) {
        assert forall u :: u in g.users ==> UserFromPart(tables, t, level, n - 1, u);
        NoRepeatsConcat(f.users, g.users);
      }
    }
  }

  // ---- The whole tree, described without the recursion's bookkeeping ----

  /** x is t or a table below it, reached through non-global entries only. */
  ghost predicate PrivateTable(tables: Tables, t: nat, level: nat, x: nat)
    decreases level
  {
    || x == t
    || (level > 0 && exists i: nat ::
        i < NENTRY && BelowEntry(tables, t, i) && PrivateTable(tables, Sub(tables, t, i), level - 1, x))
  }

  /** The entry is followed and leads to a table. */
  predicate BelowEntry(tables: Tables, t: nat, i: nat) {
    Doomed(tables, t, i) && !IsLeaf(EntryAt(tables, t, i))
  }

  /** u is a user page (with its page count) below t, reached through non-global entries only. */
  ghost predicate PrivateUser(tables: Tables, t: nat, level: nat, u: (nat, nat))
    decreases level
  {
    || (exists i: nat ::
        i < NENTRY && Doomed(tables, t, i) && IsLeaf(EntryAt(tables, t, i))
        && u == (Sub(tables, t, i), Pow2(9 * level)))
    || (level > 0 && exists i: nat ::
        i < NENTRY && BelowEntry(tables, t, i) && PrivateUser(tables, Sub(tables, t, i), level - 1, u))
  }

  /** No table below level 0 is ever needed. */
  ghost predicate DepthOk(tables: Tables, t: nat, level: nat)
    decreases level
  {
    forall i: nat :: i < NENTRY && BelowEntry(tables, t, i) ==>
      level > 0 && DepthOk(tables, Sub(tables, t, i), level - 1)
  }

  /** The recursion completes exactly when the depth is respected, and returns exactly the private pages. */
  lemma {:induction false} DestroyReturnsPrivate(tables: Tables, t: nat, level: nat)
    ensures DestroyTable(tables, t, level).Some? <==> DepthOk(tables, t, level)
    ensures DestroyTable(tables, t, level).Some? ==>
              var f := DestroyTable(tables, t, level).value;
              && (forall x :: x in f.tabs <==> PrivateTable(tables, t, level, x))
              && (forall u :: u in f.users <==> PrivateUser(tables, t, level, u))
    decreases level
  {
    EntriesJoinParts(tables, t, level, NENTRY);
    forall i: nat | i < NENTRY
      ensures PartOk(tables, t, level, i) <==>
              (BelowEntry(tables, t, i) ==> level > 0 && DepthOk(tables, Sub(tables, t, i), level - 1))
      ensures PartOk(tables, t, level, i) ==> PartIsPrivate(tables, t, level, i)
    {
      if level > 0 {
        DestroyReturnsPrivate(tables, Sub(tables, t, i), level - 1);
      }
    }
    if DestroyTable(tables, t, level).Some? {
      PrivateFromParts(tables, t, level);
    }
  }

  /** The part of entry i is exactly the private pages below that entry. */
  ghost predicate PartIsPrivate(tables: Tables, t: nat, level: nat, i: nat) {
    && (forall x :: TabFromPart(tables, t, level, i, x) <==>
          level > 0 && BelowEntry(tables, t, i) && PrivateTable(tables, Sub(tables, t, i), level - 1, x))
    && (forall u :: UserFromPart(tables, t, level, i, u) <==>
          if Doomed(tables, t, i) && IsLeaf(EntryAt(tables, t, i)) then u == (Sub(tables, t, i), Pow2(9 * level))
          else level > 0 && BelowEntry(tables, t, i) && PrivateUser(tables, Sub(tables, t, i), level - 1, u))
  }

  lemma {:induction false} PrivateFromParts(tables: Tables, t: nat, level: nat)
    requires DestroyTable(tables, t, level).Some?
    requires forall i: nat :: i < NENTRY ==> PartIsPrivate(tables, t, level, i)
    ensures var f := DestroyTable(tables, t, level).value;
            && (forall x :: x in f.tabs <==> PrivateTable(tables, t, level, x))
            && (forall u :: u in f.users <==> PrivateUser(tables, t, level, u))
  {
    EntriesJoinParts(tables, t, level, NENTRY);
    var e, f := DestroyEntries(tables, t, level, NENTRY).value, DestroyTable(tables, t, level).value;
    assert f.tabs == e.tabs + [t] && f.users == e.users + [];
    forall x ensures x in e.tabs <==>
        level > 0 && exists i: nat ::
            i < NENTRY && BelowEntry(tables, t, i) && PrivateTable(tables, Sub(tables, t, i), level - 1, x)
    {
      if x in e.tabs {
        var i: nat :| i < NENTRY && TabFromPart(tables, t, level, i, x);
        assert PartIsPrivate(tables, t, level, i);
      }
      if i: nat :|
          level > 0 && i < NENTRY && BelowEntry(tables, t, i)
          && PrivateTable(tables, Sub(tables, t, i), level - 1, x) {
        assert PartIsPrivate(tables, t, level, i);
        assert TabFromPart(tables, t, level, i, x);
      }
    }
    forall u ensures u in f.users <==> PrivateUser(tables, t, level, u) {
      if u in f.users {
        var i: nat :| i < NENTRY && UserFromPart(tables, t, level, i, u);
        assert PartIsPrivate(tables, t, level, i);
      }
      if i: nat :|
          level > 0 && i < NENTRY && BelowEntry(tables, t, i) && PrivateUser(tables, Sub(tables, t, i), level - 1, u) {
        assert PartIsPrivate(tables, t, level, i);
        assert UserFromPart(tables, t, level, i, u);
      }
      if i: nat :|
          i < NENTRY && Doomed(tables, t, i) && IsLeaf(EntryAt(tables, t, i))
          && u == (Sub(tables, t, i), Pow2(9 * level)) {
        assert PartIsPrivate(tables, t, level, i);
        assert UserFromPart(tables, t, level, i, u);
      }
    }
  }

  // ---- Nothing is returned twice ----

  /** Subtrees below different entries have no table in common. */
  ghost predicate TreeApart(tables: Tables, t: nat, level: nat)
    decreases level
  {
    level > 0 ==>
      && (forall i: nat :: i < NENTRY && BelowEntry(tables, t, i) ==>
            TreeApart(tables, Sub(tables, t, i), level - 1) && !PrivateTable(tables, Sub(tables, t, i), level - 1, t))
      && (forall i: nat, j: nat, x ::
          TableOfEntry(tables, t, level, i, x) && TableOfEntry(tables, t, level, j, x) ==> i == j)
  }

  /** x is given back on account of entry i of t. */
  ghost predicate TableOfEntry(tables: Tables, t: nat, level: nat, i: nat, x: nat) {
    level > 0 && i < NENTRY && BelowEntry(tables, t, i) && PrivateTable(tables, Sub(tables, t, i), level - 1, x)
  }

  /** u is given back on account of entry i of t. */
  ghost predicate UserOfEntry(tables: Tables, t: nat, level: nat, i: nat, u: (nat, nat)) {
    if Doomed(tables, t, i) && IsLeaf(EntryAt(tables, t, i)) then u == (Sub(tables, t, i), Pow2(9 * level))
    else level > 0 && BelowEntry(tables, t, i) && PrivateUser(tables, Sub(tables, t, i), level - 1, u)
  }

  /** Different entries lead to different user pages. */
  ghost predicate UsersApart(tables: Tables, t: nat, level: nat)
    decreases level
  {
    && (level > 0 ==> forall i: nat :: i < NENTRY && BelowEntry(tables, t, i) ==>
      UsersApart(tables, Sub(tables, t, i), level - 1))
    && (forall i: nat, j: nat, u :: i < NENTRY && j < NENTRY ==>
          UserOfEntry(tables, t, level, i, u) && UserOfEntry(tables, t, level, j, u) ==> i == j)
  }

  lemma {:induction false} TablePartOnce(tables: Tables, t: nat, level: nat, i: nat)
    requires TreeApart(tables, t, level) && i < NENTRY && PartOk(tables, t, level, i)
    ensures Part(tables, t, level, i).Some? && NoRepeats(Part(tables, t, level, i).value.tabs)
    ensures forall x :: TabFromPart(tables, t, level, i, x) <==> TableOfEntry(tables, t, level, i, x)
    decreases level, 0
  {
    if level > 0 && BelowEntry(tables, t, i) {
      TablesReturnedOnce(tables, Sub(tables, t, i), level - 1);
      DestroyReturnsPrivate(tables, Sub(tables, t, i), level - 1);
    }
  }

  lemma {:induction false} TablesReturnedOnce(tables: Tables, t: nat, level: nat)
    requires DestroyTable(tables, t, level).Some? && TreeApart(tables, t, level)
    ensures NoRepeats(DestroyTable(tables, t, level).value.tabs)
    decreases level, 1
  {
    EntriesJoinParts(tables, t, level, NENTRY);
    forall i: nat | i < NENTRY && PartOk(tables, t, level, i)
      ensures Part(tables, t, level, i).Some? && NoRepeats(Part(tables, t, level, i).value.tabs)
      ensures forall x :: TabFromPart(tables, t, level, i, x) <==> TableOfEntry(tables, t, level, i, x)
    {
      TablePartOnce(tables, t, level, i);
    }
    assert forall i: nat :: i < NENTRY ==> PartOk(tables, t, level, i);
    assert TabPartsApart(tables, t, level);
    EntriesNoRepeats(tables, t, level, NENTRY);
    var e := DestroyEntries(tables, t, level, NENTRY).value;
    NoRepeatsConcat(e.tabs, [t]);
  }

  lemma {:induction false} UserPartOnce(tables: Tables, t: nat, level: nat, i: nat)
    requires UsersApart(tables, t, level) && i < NENTRY && PartOk(tables, t, level, i)
    ensures Part(tables, t, level, i).Some? && NoRepeats(Part(tables, t, level, i).value.users)
    ensures forall u :: UserFromPart(tables, t, level, i, u) <==> UserOfEntry(tables, t, level, i, u)
    decreases level, 0
  {
    if level > 0 && BelowEntry(tables, t, i) {
      UsersReturnedOnce(tables, Sub(tables, t, i), level - 1);
      DestroyReturnsPrivate(tables, Sub(tables, t, i), level - 1);
    }
  }

  lemma {:induction false} UsersReturnedOnce(tables: Tables, t: nat, level: nat)
    requires DestroyTable(tables, t, level).Some? && UsersApart(tables, t, level)
    ensures NoRepeats(DestroyTable(tables, t, level).value.users)
    decreases level, 1
  {
    EntriesJoinParts(tables, t, level, NENTRY);
    forall i: nat | i < NENTRY && PartOk(tables, t, level, i)
      ensures Part(tables, t, level, i).Some? && NoRepeats(Part(tables, t, level, i).value.users)
      ensures forall u :: UserFromPart(tables, t, level, i, u) <==> UserOfEntry(tables, t, level, i, u)
    {
      UserPartOnce(tables, t, level, i);
    }
    assert forall i: nat :: i < NENTRY ==> PartOk(tables, t, level, i);
    assert UserPartsApart(tables, t, level);
    EntriesNoRepeats(tables, t, level, NENTRY);
    var e := DestroyEntries(tables, t, level, NENTRY).value;
    assert e.users + [] == e.users;
  }

  // ---- A root of the kernel's tables ----

  /** The private tables below a root are told apart by where they are linked. */
  lemma {:induction false} PrivateBelowRoot(tables: Tables, l: Roles, c: nat, i: nat, x: nat)
    requires WellFormed(tables, l) && c in l.roots && i < NENTRY && Doomed(tables, c, i)
    ensures BelowEntry(tables, c, i) && Sub(tables, c, i) in l.slot && l.slot[Sub(tables, c, i)] == i
    ensures PrivateTable(tables, Sub(tables, c, i), 1, x) ==>
              || x == Sub(tables, c, i)
              || (x in l.parent && l.parent[x].0 == Sub(tables, c, i) && Doomed(tables, l.parent[x].0, l.parent[x].1))
  {
    var m := Sub(tables, c, i);
    assert c in tables && |tables[c]| == NENTRY;
    assert m in l.slot;
    if PrivateTable(tables, m, 1, x) && x != m {
      var k: nat :| k < NENTRY && BelowEntry(tables, m, k) && PrivateTable(tables, Sub(tables, m, k), 0, x);
      PrivateBelowMiddle(tables, l, m, k);
    }
  }

  lemma {:induction false} PrivateBelowMiddle(tables: Tables, l: Roles, m: nat, k: nat)
    requires WellFormed(tables, l) && m in l.slot && k < NENTRY && Doomed(tables, m, k)
    ensures BelowEntry(tables, m, k) && Sub(tables, m, k) in l.parent && l.parent[Sub(tables, m, k)] == (m, k)
  {
    assert m in tables && |tables[m]| == NENTRY;
  }

  lemma {:induction false} MiddleApart(tables: Tables, l: Roles, m: nat)
    requires WellFormed(tables, l) && m in l.slot
    ensures TreeApart(tables, m, 1)
  {
    forall i: nat | i < NENTRY && BelowEntry(tables, m, i)
      ensures TreeApart(tables, Sub(tables, m, i), 0) && !PrivateTable(tables, Sub(tables, m, i), 0, m)
    {
      PrivateBelowMiddle(tables, l, m, i);
    }
    forall i: nat, j: nat, x | TableOfEntry(tables, m, 1, i, x) && TableOfEntry(tables, m, 1, j, x) ensures i == j
    {
      PrivateBelowMiddle(tables, l, m, i);
      PrivateBelowMiddle(tables, l, m, j);
    }
  }

  lemma {:induction false} RootApart(tables: Tables, l: Roles, c: nat)
    requires WellFormed(tables, l) && c in l.roots
    ensures TreeApart(tables, c, 2)
  {
    forall i: nat | i < NENTRY && BelowEntry(tables, c, i)
      ensures TreeApart(tables, Sub(tables, c, i), 1) && !PrivateTable(tables, Sub(tables, c, i), 1, c)
    {
      PrivateBelowRoot(tables, l, c, i, c);
      MiddleApart(tables, l, Sub(tables, c, i));
    }
    forall i: nat, j: nat, x | TableOfEntry(tables, c, 2, i, x) && TableOfEntry(tables, c, 2, j, x) ensures i == j
    {
      PrivateBelowRoot(tables, l, c, i, x);
      PrivateBelowRoot(tables, l, c, j, x);
    }
  }

  /** Page v of root c is a private user page p: a level-0 leaf below non-global entries. */
  ghost predicate UserLeaf(tables: Tables, c: nat, v: VPage, p: nat) {
    var m := Sub(tables, c, v.i2);
    var b := Sub(tables, m, v.i1);
    InBounds(v) && Doomed(tables, c, v.i2) && Doomed(tables, m, v.i1) && Doomed(tables, b, v.i0)
    && IsLeaf(EntryAt(tables, b, v.i0)) && Sub(tables, b, v.i0) == p
  }

  /** p is a user page of root c. */
  ghost predicate IsUser(tables: Tables, c: nat, p: nat) {
    exists v :: UserLeaf(tables, c, v, p)
  }

  lemma LeafBounds(tables: Tables, c: nat, v: VPage, p: nat)
    requires UserLeaf(tables, c, v, p)
    ensures InBounds(v)
  {
  }

  /** Every page of physical memory backs at most one virtual page of c. */
  ghost predicate InjectiveUsers(tables: Tables, c: nat) {
    forall v, w, p :: UserLeaf(tables, c, v, p) && UserLeaf(tables, c, w, p) ==> v == w
  }

  /** The user pages given back are exactly those of the user leaves. */
  lemma {:induction false} PrivateUsersAreLeaves(tables: Tables, l: Roles, c: nat, i: nat, u: (nat, nat))
    requires WellFormed(tables, l) && c in l.roots && i < NENTRY
    ensures UserOfEntry(tables, c, 2, i, u) <==> u.1 == 1 && exists v: VPage :: v.i2 == i && UserLeaf(tables, c, v, u.0)
  {
    if UserOfEntry(tables, c, 2, i, u) {
      PrivateBelowRoot(tables, l, c, i, c);
      var m := Sub(tables, c, i);
      var v := UserBelowMiddle(tables, l, m, u);
      assert UserLeaf(tables, c, v.(i2 := i), u.0);
    }
    if v: VPage :| u.1 == 1 && v.i2 == i && UserLeaf(tables, c, v, u.0) {
      PrivateBelowRoot(tables, l, c, i, c);
      var m := Sub(tables, c, i);
      PrivateBelowMiddle(tables, l, m, v.i1);
      assert PrivateUser(tables, Sub(tables, m, v.i1), 0, u);
      assert PrivateUser(tables, m, 1, u);
    }
  }

  lemma {:induction false} UserBelowMiddle(tables: Tables, l: Roles, m: nat, u: (nat, nat)) returns (v: VPage)
    requires WellFormed(tables, l) && m in l.slot && PrivateUser(tables, m, 1, u)
    ensures var b := Sub(tables, m, v.i1);
            v.i1 < NENTRY && v.i0 < NENTRY && Doomed(tables, m, v.i1) && Doomed(tables, b, v.i0)
            && IsLeaf(EntryAt(tables, b, v.i0)) && u == (Sub(tables, b, v.i0), 1)
  {
    if k: nat :| k < NENTRY && Doomed(tables, m, k) && IsLeaf(EntryAt(tables, m, k)) {
      PrivateBelowMiddle(tables, l, m, k);
    }
    var k: nat :| k < NENTRY && BelowEntry(tables, m, k) && PrivateUser(tables, Sub(tables, m, k), 0, u);
    var b := Sub(tables, m, k);
    var j: nat :| j < NENTRY && Doomed(tables, b, j) && IsLeaf(EntryAt(tables, b, j))
      && u == (Sub(tables, b, j), Pow2(0));
    v := VPage(0, k, j);
  }

  lemma {:induction false} UserHasEntry(tables: Tables, t: nat, level: nat, u: (nat, nat))
    ensures PrivateUser(tables, t, level, u) <==> exists i: nat :: i < NENTRY && UserOfEntry(tables, t, level, i, u)
  {
    if i: nat :|
        i < NENTRY && Doomed(tables, t, i) && IsLeaf(EntryAt(tables, t, i))
        && u == (Sub(tables, t, i), Pow2(9 * level)) {
      assert UserOfEntry(tables, t, level, i, u);
    }
    if i: nat :|
        level > 0 && i < NENTRY && BelowEntry(tables, t, i) && PrivateUser(tables, Sub(tables, t, i), level - 1, u) {
      assert UserOfEntry(tables, t, level, i, u);
    }
  }

  lemma {:induction false} UsersOfRoot(tables: Tables, l: Roles, c: nat, u: (nat, nat))
    requires WellFormed(tables, l) && c in l.roots
    ensures PrivateUser(tables, c, 2, u) <==> u.1 == 1 && exists v :: UserLeaf(tables, c, v, u.0)
  {
    hide UserOfEntry, UserLeaf, WellFormed, PrivateUser;
    UserHasEntry(tables, c, 2, u);
    if PrivateUser(tables, c, 2, u) {
      var i: nat :| i < NENTRY && UserOfEntry(tables, c, 2, i, u);
      PrivateUsersAreLeaves(tables, l, c, i, u);
    }
    if v :| u.1 == 1 && UserLeaf(tables, c, v, u.0) {
      LeafBounds(tables, c, v, u.0);
      PrivateUsersAreLeaves(tables, l, c, v.i2, u);
    }
  }

  lemma {:induction false} InjectiveUsersApart(tables: Tables, l: Roles, c: nat)
    requires WellFormed(tables, l) && c in l.roots && InjectiveUsers(tables, c)
    ensures UsersApart(tables, c, 2)
  {
    forall i: nat | i < NENTRY && BelowEntry(tables, c, i) ensures UsersApart(tables, Sub(tables, c, i), 1) {
      MiddleUsersApart(tables, l, c, i);
    }
    forall i: nat, j: nat, u | i < NENTRY && j < NENTRY && UserOfEntry(tables, c, 2, i, u)
      && UserOfEntry(tables, c, 2, j, u)
      ensures i == j
    {
      PrivateUsersAreLeaves(tables, l, c, i, u);
      PrivateUsersAreLeaves(tables, l, c, j, u);
    }
  }

  lemma {:induction false} MiddleUsersApart(tables: Tables, l: Roles, c: nat, i: nat)
    requires WellFormed(tables, l) && c in l.roots && InjectiveUsers(tables, c) && i < NENTRY
    requires BelowEntry(tables, c, i)
    ensures UsersApart(tables, Sub(tables, c, i), 1)
  {
    var m := Sub(tables, c, i);
    PrivateBelowRoot(tables, l, c, i, c);
    forall k: nat | k < NENTRY && BelowEntry(tables, m, k) ensures UsersApart(tables, Sub(tables, m, k), 0) {
      var b := Sub(tables, m, k);
      forall x: nat, y: nat, u | x < NENTRY && y < NENTRY && UserOfEntry(tables, b, 0, x, u)
        && UserOfEntry(tables, b, 0, y, u)
        ensures x == y
      {
        assert UserLeaf(tables, c, VPage(i, k, x), u.0) && UserLeaf(tables, c, VPage(i, k, y), u.0);
      }
    }
    forall x: nat, y: nat, u | x < NENTRY && y < NENTRY && UserOfEntry(tables, m, 1, x, u)
      && UserOfEntry(tables, m, 1, y, u)
      ensures x == y
    {
      var v := LeafBelow(tables, l, c, i, x, u);
      var w := LeafBelow(tables, l, c, i, y, u);
    }
  }

  lemma {:induction false} LeafBelow(tables: Tables, l: Roles, c: nat, i: nat, x: nat, u: (nat, nat)) returns (v: VPage)
    requires WellFormed(tables, l) && i < NENTRY && x < NENTRY && Doomed(tables, c, i) && Sub(tables, c, i) in l.slot
    requires UserOfEntry(tables, Sub(tables, c, i), 1, x, u)
    ensures v.i1 == x && UserLeaf(tables, c, v, u.0)
  {
    var m := Sub(tables, c, i);
    PrivateBelowMiddle(tables, l, m, x);
    var b := Sub(tables, m, x);
    var k: nat :| k < NENTRY && Doomed(tables, b, k) && IsLeaf(EntryAt(tables, b, k))
      && u == (Sub(tables, b, k), Pow2(0));
    v := VPage(i, x, k);
  }

  // ---- What remains ----

  /** The recursion completes exactly when every followed level-0 entry is a leaf. */
  ghost predicate LeavesOnly(tables: Tables, c: nat) {
    forall v :: InBounds(v) && Doomed(tables, c, v.i2) && Doomed(tables, Sub(tables, c, v.i2), v.i1)
        && Doomed(tables, Sub(tables, Sub(tables, c, v.i2), v.i1), v.i0)
      ==> IsLeaf(EntryAt(tables, Sub(tables, Sub(tables, c, v.i2), v.i1), v.i0))
  }

  lemma {:induction false} DepthIffLeaves(tables: Tables, l: Roles, c: nat)
    requires WellFormed(tables, l) && c in l.roots
    ensures DepthOk(tables, c, 2) <==> LeavesOnly(tables, c)
  {
    if LeavesOnly(tables, c) {
      forall i: nat | i < NENTRY && BelowEntry(tables, c, i) ensures DepthOk(tables, Sub(tables, c, i), 1) {
        var m := Sub(tables, c, i);
        forall k: nat | k < NENTRY && BelowEntry(tables, m, k) ensures DepthOk(tables, Sub(tables, m, k), 0) {
          forall x: nat | x < NENTRY ensures !BelowEntry(tables, Sub(tables, m, k), x) {
            assert InBounds(VPage(i, k, x));
          }
        }
      }
    }
    if DepthOk(tables, c, 2) {
      forall v | InBounds(v) && Doomed(tables, c, v.i2) && Doomed(tables, Sub(tables, c, v.i2), v.i1)
          && Doomed(tables, Sub(tables, Sub(tables, c, v.i2), v.i1), v.i0)
        ensures IsLeaf(EntryAt(tables, Sub(tables, Sub(tables, c, v.i2), v.i1), v.i0))
      {
        DepthGivesLeaf(tables, l, c, v);
      }
    }
  }

  lemma {:induction false} DepthGivesLeaf(tables: Tables, l: Roles, c: nat, v: VPage)
    requires WellFormed(tables, l) && c in l.roots && DepthOk(tables, c, 2) && InBounds(v)
    requires Doomed(tables, c, v.i2) && Doomed(tables, Sub(tables, c, v.i2), v.i1)
    ensures !BelowEntry(tables, Sub(tables, Sub(tables, c, v.i2), v.i1), v.i0)
  {
    var m := Sub(tables, c, v.i2);
    PrivateBelowRoot(tables, l, c, v.i2, c);
    PrivateBelowMiddle(tables, l, m, v.i1);
    assert DepthOk(tables, m, 1);
    assert DepthOk(tables, Sub(tables, m, v.i1), 0);
  }

  /** A private table of c is the root itself, a middle linked by a doomed entry, or below one. */
  lemma {:induction false} PrivateOfRoot(tables: Tables, l: Roles, c: nat, x: nat)
    requires WellFormed(tables, l) && c in l.roots && PrivateTable(tables, c, 2, x)
    ensures x in tables && (x in l.roots ==> x == c)
    ensures x in l.slot ==> Doomed(tables, c, l.slot[x]) && Sub(tables, c, l.slot[x]) == x && l.slot[x] < NENTRY
    ensures x in l.parent ==> l.parent[x].0 in l.slot && PrivateTable(tables, c, 2, l.parent[x].0)
                              && Doomed(tables, l.parent[x].0, l.parent[x].1)
  {
    if x != c {
      var i: nat :| i < NENTRY && BelowEntry(tables, c, i) && PrivateTable(tables, Sub(tables, c, i), 1, x);
      PrivateBelowRoot(tables, l, c, i, x);
      assert PrivateTable(tables, Sub(tables, c, i), 1, Sub(tables, c, i));
      assert PrivateTable(tables, c, 2, Sub(tables, c, i));
    }
  }

  /** No other root, and no global entry of c, leads to a private table of c. */
  lemma {:induction false} SharedTablesStay(tables: Tables, l: Roles, kernel: nat, c: nat, s: nat, v: VPage)
    requires WellFormed(tables, l) && KernelShared(tables, l, kernel) && c in l.roots && s in l.roots
    requires Walk(tables, s, v.i2).Some?
    ensures s != c || IsGlobal(EntryAt(tables, c, v.i2)) ==> !PrivateTable(tables, c, 2, Walk(tables, s, v.i2).value)
    ensures WalkToLeafTable(tables, s, v).Some?
            && (s != c || IsGlobal(EntryAt(tables, c, v.i2))
              || IsGlobal(EntryAt(tables, Walk(tables, s, v.i2).value, v.i1)))
            ==> !PrivateTable(tables, c, 2, WalkToLeafTable(tables, s, v).value)
  {
    var m := Walk(tables, s, v.i2).value;
    RootWalkIsMiddle(tables, l, s, v.i2);
    assert l.slot[m] == v.i2;
    if PrivateTable(tables, c, 2, m) {
      PrivateOfRoot(tables, l, c, m);
      assert s != c ==> Shares(tables, c, s, v.i2);
    }
    if WalkToLeafTable(tables, s, v).Some? {
      var b := WalkToLeafTable(tables, s, v).value;
      assert b in l.parent && l.parent[b] == (m, v.i1);
      if PrivateTable(tables, c, 2, b) {
        PrivateOfRoot(tables, l, c, b);
      }
    }
  }

  ghost function RolesWithout(l: Roles, gone: set<nat>): Roles {
    Roles(l.roots - gone, l.slot - gone, l.parent - gone)
  }

  /** Removing a destroyed clone leaves a well-formed forest in which all others translate as before. */
  lemma {:induction false} DestroyKeepsOthers(tables: Tables, l: Roles, kernel: nat, c: nat, gone: set<nat>)
    requires WellFormed(tables, l) && KernelShared(tables, l, kernel) && c in l.roots && c != kernel
    requires forall x :: x in gone <==> PrivateTable(tables, c, 2, x)
    ensures gone <= tables.Keys && RolesWithout(l, gone).roots == l.roots - {c}
    ensures WellFormed(tables - gone, RolesWithout(l, gone))
    ensures KernelShared(tables - gone, RolesWithout(l, gone), kernel)
    ensures forall s, v :: s in l.roots && s != c ==> Translation(tables - gone, s, v) == Translation(tables, s, v)
  {
    var tables', l' := tables - gone, RolesWithout(l, gone);
    forall x | x in gone ensures x in tables && (x in l.roots ==> x == c) {
      PrivateOfRoot(tables, l, c, x);
    }
    assert PrivateTable(tables, c, 2, c);
    LinksStay(tables, l, kernel, c, gone);
    forall r | r in l'.roots ensures r in tables && r in tables' && tables'[r] == tables[r] {
      assert r in l.roots && r !in gone;
    }
    SharingOfRoots(tables, tables', l, l', kernel);
    forall s, v | s in l.roots && s != c ensures Translation(tables', s, v) == Translation(tables, s, v) {
      TranslationStays(tables, l, kernel, c, gone, s, v);
    }
  }

  lemma {:induction false} LinksStay(tables: Tables, l: Roles, kernel: nat, c: nat, gone: set<nat>)
    requires WellFormed(tables, l) && KernelShared(tables, l, kernel) && c in l.roots
    requires forall x :: x in gone <==> PrivateTable(tables, c, 2, x)
    ensures WellFormed(tables - gone, RolesWithout(l, gone))
  {
    var tables', l' := tables - gone, RolesWithout(l, gone);
    assert PagesPartitioned(tables', l');
    forall s, i: nat | s in l'.roots && i < NENTRY && IsValid(tables[s][i]) ensures Ppn(tables[s][i]) !in gone {
      assert PrivateTable(tables, c, 2, c);
      SharedTablesStay(tables, l, kernel, c, s, VPage(i, 0, 0));
    }
    forall m, i: nat | m in l'.slot && i < NENTRY && IsValid(tables[m][i]) ensures Ppn(tables[m][i]) !in gone {
      var b := Ppn(tables[m][i]);
      assert b in l.parent && l.parent[b] == (m, i);
      if b in gone {
        PrivateOfRoot(tables, l, c, b);
      }
    }
  }

  lemma {:induction false} TranslationStays(tables: Tables, l: Roles, kernel: nat, c: nat, gone: set<nat>, s: nat,
                                            v: VPage)
    requires WellFormed(tables, l) && KernelShared(tables, l, kernel) && c in l.roots && s in l.roots && s != c
    requires s !in gone && forall x :: x in gone ==> PrivateTable(tables, c, 2, x)
    ensures Translation(tables - gone, s, v) == Translation(tables, s, v)
  {
    if Walk(tables, s, v.i2).Some? {
      SharedTablesStay(tables, l, kernel, c, s, v);
    }
  }
}
