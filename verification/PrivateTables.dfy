/**
 What a user table owns (src/mem/pagetable.rs): the tables created for non-global mappings
 in slots that the kernel table leaves empty. They are what `destroy` gives back.
 */
module PrivateTables {
  import opened Options
  import opened Bits
  import opened PageEntries
  import opened PageTables
  import opened Teardown

  /** Slot i of root c: its entry and those of the table below are not global. */
  ghost predicate SlotPrivate(tables: Tables, c: nat, i: nat) {
    IsValid(EntryAt(tables, c, i)) ==>
      && !IsGlobal(EntryAt(tables, c, i))
      && forall k: nat :: k < NENTRY && IsValid(EntryAt(tables, Sub(tables, c, i), k)) ==>
           !IsGlobal(EntryAt(tables, Sub(tables, c, i), k))
  }

  /** Root c has global entries in the kernel's slots, and private ones in all others. */
  ghost predicate Shaped(tables: Tables, kernel: nat, c: nat) {
    forall i: nat :: i < NENTRY ==>
      if Walk(tables, kernel, i) == None then SlotPrivate(tables, c, i) else !Doomed(tables, c, i)
  }

  /** Table t is linked from root c through a slot that the kernel leaves empty. */
  ghost predicate OwnMiddle(tables: Tables, kernel: nat, c: nat, t: nat) {
    exists i: nat :: i < NENTRY && Walk(tables, kernel, i) == None && Walk(tables, c, i) == Some(t)
  }

  ghost predicate OwnBottom(tables: Tables, kernel: nat, c: nat, t: nat) {
    exists m, k: nat :: k < NENTRY && OwnMiddle(tables, kernel, c, m) && Walk(tables, m, k) == Some(t)
  }

  /** The tables that were not there in `base` are exactly those of root c. */
  ghost predicate OwnsRest(tables: Tables, base: set<nat>, kernel: nat, c: nat) {
    && base <= tables.Keys
    && forall t :: t in tables ==>
         (t !in base <==> t == c || OwnMiddle(tables, kernel, c, t) || OwnBottom(tables, kernel, c, t))
  }

  ghost predicate Private(tables: Tables, base: set<nat>, kernel: nat, c: nat) {
    Shaped(tables, kernel, c) && OwnsRest(tables, base, kernel, c)
  }

  lemma WalkEntry(tables: Tables, t: nat, i: nat)
    ensures IsValid(EntryAt(tables, t, i)) ==> Walk(tables, t, i) == Some(Sub(tables, t, i))
    ensures Walk(tables, t, i).Some? ==> IsValid(EntryAt(tables, t, i))
  {
    assert !IsValid(0);
  }

  /** A fresh clone owns its root and nothing else. */
  lemma {:induction false} ClonePrivate(tables: Tables, l: Roles, kernel: nat, page: nat)
    requires WellFormed(tables, l) && KernelShared(tables, l, kernel) && page !in tables
    ensures Private(tables[page := tables[kernel]], tables.Keys, kernel, page)
  {
    var tables' := tables[page := tables[kernel]];
    forall i: nat | i < NENTRY
      ensures if Walk(tables', kernel, i) == None then SlotPrivate(tables', page, i) else !Doomed(tables', page, i)
    {
      WalkEntry(tables', kernel, i);
      assert EntryAt(tables', page, i) == EntryAt(tables', kernel, i) == tables[kernel][i];
    }
    forall i: nat | i < NENTRY ensures Walk(tables', page, i) == Walk(tables', kernel, i) {
    }
  }

  // ---- Linking a table keeps what c owns exact ----

  lemma {:induction false} LinkedEntry(tables: Tables, t: nat, i: nat, p: nat, e: nat, u: nat, k: nat)
    requires t in tables && i < |tables[t]| && p !in tables && p != t
    ensures EntryAt(LinkTable(tables, t, i, p, e), u, k) ==
            if u == t && k == i then e else EntryAt(tables, u, k)
  {
  }

  lemma {:induction false} LinkRoot(tables: Tables, l: Roles, base: set<nat>, kernel: nat, c: nat, i: nat, p: nat,
                                    e: nat)
    requires WellFormed(tables, l) && c in l.roots && kernel in l.roots && c != kernel && i < NENTRY
    requires p !in tables && IsValid(e) && !IsGlobal(e) && Ppn(e) == p
    requires Walk(tables, c, i) == None && Walk(tables, kernel, i) == None
    requires Private(tables, base, kernel, c)
    ensures Private(LinkTable(tables, c, i, p, e), base, kernel, c)
  {
    var tables' := LinkTable(tables, c, i, p, e);
    assert c in tables && |tables[c]| == NENTRY;
    forall u, k
      ensures EntryAt(tables', u, k) == if u == c && k == i then e else EntryAt(tables, u, k)
      ensures Walk(tables', u, k) == if u == c && k == i then Some(p) else Walk(tables, u, k)
    {
      LinkedEntry(tables, c, i, p, e, u, k);
      WalkAfterLink(tables, c, i, p, e, u, k);
    }
    RootLinkShape(tables, tables', l, kernel, c, i, p, e);
    RootLinkOwns(tables, tables', l, base, kernel, c, i, p, e);
  }

  lemma {:induction false} RootLinkShape(tables: Tables, tables': Tables, l: Roles, kernel: nat, c: nat, i: nat,
                                         p: nat, e: nat)
    requires WellFormed(tables, l) && c in l.roots && kernel in l.roots && c != kernel && i < NENTRY
    requires p !in tables && IsValid(e) && !IsGlobal(e) && Ppn(e) == p && Walk(tables, kernel, i) == None
    requires forall u, k :: EntryAt(tables', u, k) == if u == c && k == i then e else EntryAt(tables, u, k)
    requires forall u, k :: Walk(tables', u, k) == if u == c && k == i then Some(p) else Walk(tables, u, k)
    requires Shaped(tables, kernel, c)
    ensures Shaped(tables', kernel, c)
  {
    forall j: nat | j < NENTRY
      ensures if Walk(tables', kernel, j) == None then SlotPrivate(tables', c, j) else !Doomed(tables', c, j)
    {
      if j == i {
        assert forall k :: EntryAt(tables', p, k) == 0 && !IsValid(0);
      } else if IsValid(EntryAt(tables, c, j)) {
        WalkEntry(tables, c, j);
        RootWalkIsMiddle(tables, l, c, j);
        assert Sub(tables', c, j) == Sub(tables, c, j) != c;
      }
    }
  }

  lemma {:induction false} RootLinkOwns(tables: Tables, tables': Tables, l: Roles, base: set<nat>, kernel: nat,
                                        c: nat, i: nat,
                                        p: nat, e: nat)
    requires WellFormed(tables, l) && c in l.roots && kernel in l.roots && c != kernel && i < NENTRY && p !in tables
    requires tables'.Keys == tables.Keys + {p} && Walk(tables, c, i) == None && Walk(tables, kernel, i) == None
    requires forall u, k :: Walk(tables', u, k) == if u == c && k == i then Some(p) else Walk(tables, u, k)
    requires OwnsRest(tables, base, kernel, c)
    ensures OwnsRest(tables', base, kernel, c)
  {
    forall t ensures OwnMiddle(tables', kernel, c, t) <==> t == p || OwnMiddle(tables, kernel, c, t) {
      if OwnMiddle(tables, kernel, c, t) {
        var j: nat :| j < NENTRY && Walk(tables, kernel, j) == None && Walk(tables, c, j) == Some(t);
        assert Walk(tables', c, j) == Some(t) && Walk(tables', kernel, j) == None;
      }
      if t == p {
        assert Walk(tables', c, i) == Some(p) && Walk(tables', kernel, i) == None;
      }
    }
    forall t ensures OwnBottom(tables', kernel, c, t) <==> OwnBottom(tables, kernel, c, t) {
      forall m, k: nat | k < NENTRY && OwnMiddle(tables, kernel, c, m)
        ensures Walk(tables', m, k) == Walk(tables, m, k) && m != p
      {
        var j: nat :| j < NENTRY && Walk(tables, kernel, j) == None && Walk(tables, c, j) == Some(m);
        RootWalkIsMiddle(tables, l, c, j);
      }
      assert forall k :: Walk(tables', p, k) == None;
    }
    forall t | t in tables' && t in tables && t !in base ensures t != p {
    }
  }

  lemma {:induction false} OwnMiddleIsMiddle(tables: Tables, l: Roles, kernel: nat, c: nat, t: nat)
    requires WellFormed(tables, l) && c in l.roots && OwnMiddle(tables, kernel, c, t)
    ensures t in l.slot && t in tables && |tables[t]| == NENTRY && t !in l.roots && t !in l.parent
    ensures l.slot[t] < NENTRY && Walk(tables, c, l.slot[t]) == Some(t) && Walk(tables, kernel, l.slot[t]) == None
  {
    var i: nat :| i < NENTRY && Walk(tables, kernel, i) == None && Walk(tables, c, i) == Some(t);
    RootWalkIsMiddle(tables, l, c, i);
  }

  /** The same for a new table below one that c owns. */
  lemma {:induction false} LinkOwn(tables: Tables, l: Roles, base: set<nat>, kernel: nat, c: nat, t: nat, i: nat,
                                   p: nat, e: nat)
    requires WellFormed(tables, l) && c in l.roots && kernel in l.roots && i < NENTRY
    requires p !in tables && IsValid(e) && !IsGlobal(e) && Ppn(e) == p
    requires OwnMiddle(tables, kernel, c, t) && Walk(tables, t, i) == None
    requires Private(tables, base, kernel, c)
    ensures t in tables && i < |tables[t]| && Private(LinkTable(tables, t, i, p, e), base, kernel, c)
  {
    OwnMiddleIsMiddle(tables, l, kernel, c, t);
    var tables' := LinkTable(tables, t, i, p, e);
    forall u, k
      ensures EntryAt(tables', u, k) == if u == t && k == i then e else EntryAt(tables, u, k)
      ensures Walk(tables', u, k) == if u == t && k == i then Some(p) else Walk(tables, u, k)
    {
      LinkedEntry(tables, t, i, p, e, u, k);
      WalkAfterLink(tables, t, i, p, e, u, k);
    }
    OwnLinkShape(tables, tables', l, kernel, c, t, i, e);
    OwnLinkOwns(tables, tables', l, base, kernel, c, t, i, p);
  }

  lemma {:induction false} OwnLinkShape(tables: Tables, tables': Tables, l: Roles, kernel: nat, c: nat, t: nat,
                                        i: nat, e: nat)
    requires c in l.roots && kernel in l.roots && t !in l.roots && IsValid(e) && !IsGlobal(e)
    requires forall u, k :: EntryAt(tables', u, k) == if u == t && k == i then e else EntryAt(tables, u, k)
    requires forall u, k :: u in l.roots ==> Walk(tables', u, k) == Walk(tables, u, k)
    requires Shaped(tables, kernel, c)
    ensures Shaped(tables', kernel, c)
  {
    hide IsValid, IsGlobal, Ppn;
    forall j: nat | j < NENTRY
      ensures if Walk(tables', kernel, j) == None then SlotPrivate(tables', c, j) else !Doomed(tables', c, j)
    {
      assert Walk(tables', kernel, j) == Walk(tables, kernel, j);
      assert EntryAt(tables', c, j) == EntryAt(tables, c, j);
      if Walk(tables, kernel, j) == None && IsValid(EntryAt(tables, c, j)) {
        assert SlotPrivate(tables, c, j);
        var m := Sub(tables, c, j);
        forall k: nat | k < NENTRY && IsValid(EntryAt(tables', m, k)) ensures !IsGlobal(EntryAt(tables', m, k)) {
          assert EntryAt(tables', m, k) == if m == t && k == i then e else EntryAt(tables, m, k);
        }
      }
    }
  }

  lemma {:induction false} OwnLinkOwns(tables: Tables, tables': Tables, l: Roles, base: set<nat>, kernel: nat, c: nat,
                                       t: nat,
                                       i: nat, p: nat)
    requires WellFormed(tables, l) && c in l.roots && kernel in l.roots && i < NENTRY && p !in tables
    requires OwnMiddle(tables, kernel, c, t) && t !in l.roots && tables'.Keys == tables.Keys + {p}
    requires Walk(tables, t, i) == None
    requires forall u, k :: Walk(tables', u, k) == if u == t && k == i then Some(p) else Walk(tables, u, k)
    requires OwnsRest(tables, base, kernel, c)
    ensures OwnsRest(tables', base, kernel, c)
  {
    SameMiddles(tables, tables', l, kernel, c);
    forall x ensures OwnBottom(tables', kernel, c, x) <==> x == p || OwnBottom(tables, kernel, c, x) {
      if OwnBottom(tables, kernel, c, x) {
        var m, k: nat :| k < NENTRY && OwnMiddle(tables, kernel, c, m) && Walk(tables, m, k) == Some(x);
        assert OwnMiddle(tables', kernel, c, m) && Walk(tables', m, k) == Some(x);
      }
      if x == p {
        assert OwnMiddle(tables', kernel, c, t) && Walk(tables', t, i) == Some(p);
      }
    }
    forall x ensures OwnMiddle(tables, kernel, c, x) ==> x != p {
      if OwnMiddle(tables, kernel, c, x) {
        OwnMiddleIsMiddle(tables, l, kernel, c, x);
      }
    }
  }

  /** As long as the roots link the same tables, c owns the same level-1 tables. */
  lemma {:induction false} SameMiddles(tables: Tables, tables': Tables, l: Roles, kernel: nat, c: nat)
    requires c in l.roots && kernel in l.roots
    requires forall u, k :: u in l.roots ==> Walk(tables', u, k) == Walk(tables, u, k)
    ensures forall x :: OwnMiddle(tables', kernel, c, x) <==> OwnMiddle(tables, kernel, c, x)
  {
    forall x ensures OwnMiddle(tables', kernel, c, x) <==> OwnMiddle(tables, kernel, c, x) {
      assert forall i :: Walk(tables', kernel, i) == Walk(tables, kernel, i);
      assert forall i :: Walk(tables', c, i) == Walk(tables, c, i);
    }
  }

  /** Writing a level-0 entry changes nothing about which tables c owns. */
  lemma {:induction false} WriteOwn(tables: Tables, l: Roles, base: set<nat>, kernel: nat, c: nat, t0: nat, i0: nat,
                                    e: nat)
    requires WellFormed(tables, l) && c in l.roots && kernel in l.roots && t0 in l.parent
    requires t0 in tables && i0 < |tables[t0]| && Private(tables, base, kernel, c)
    ensures Private(Write(tables, t0, i0, e), base, kernel, c)
  {
    var tables' := Write(tables, t0, i0, e);
    forall u, k | u != t0
      ensures EntryAt(tables', u, k) == EntryAt(tables, u, k) && Walk(tables', u, k) == Walk(tables, u, k)
    {
    }
    SameMiddles(tables, tables', l, kernel, c);
    forall j: nat | j < NENTRY
      ensures if Walk(tables', kernel, j) == None then SlotPrivate(tables', c, j) else !Doomed(tables', c, j)
    {
      if IsValid(EntryAt(tables, c, j)) {
        WalkEntry(tables, c, j);
        RootWalkIsMiddle(tables, l, c, j);
        assert Sub(tables', c, j) == Sub(tables, c, j) != t0;
        assert forall k :: EntryAt(tables', Sub(tables, c, j), k) == EntryAt(tables, Sub(tables, c, j), k);
      }
      assert Walk(tables', kernel, j) == Walk(tables, kernel, j);
      assert EntryAt(tables', c, j) == EntryAt(tables, c, j);
    }
    forall x ensures OwnBottom(tables', kernel, c, x) <==> OwnBottom(tables, kernel, c, x) {
      forall m, k: nat | k < NENTRY && OwnMiddle(tables, kernel, c, m)
        ensures Walk(tables', m, k) == Walk(tables, m, k)
      {
        OwnMiddleIsMiddle(tables, l, kernel, c, m);
      }
    }
  }

  // ---- What destroying c gives back ----

  /** The tables returned are the root and what it owns. */
  lemma {:induction false} PrivateIsOwned(tables: Tables, l: Roles, kernel: nat, c: nat, x: nat)
    requires WellFormed(tables, l) && c in l.roots && kernel in l.roots && Shaped(tables, kernel, c)
    ensures PrivateTable(tables, c, 2, x) <==>
              x == c || OwnMiddle(tables, kernel, c, x) || OwnBottom(tables, kernel, c, x)
  {
    if PrivateTable(tables, c, 2, x) && x != c {
      var i: nat :| i < NENTRY && BelowEntry(tables, c, i) && PrivateTable(tables, Sub(tables, c, i), 1, x);
      OwnedSlot(tables, l, kernel, c, i);
      var m := Sub(tables, c, i);
      if x != m {
        var k: nat :| k < NENTRY && BelowEntry(tables, m, k) && PrivateTable(tables, Sub(tables, m, k), 0, x);
        WalkEntry(tables, m, k);
        assert Walk(tables, m, k) == Some(x);
      }
    }
    forall m | OwnMiddle(tables, kernel, c, m) ensures PrivateTable(tables, c, 2, m) {
      MiddleIsPrivate(tables, l, kernel, c, m, m);
    }
    if OwnBottom(tables, kernel, c, x) {
      var m, k: nat :| k < NENTRY && OwnMiddle(tables, kernel, c, m) && Walk(tables, m, k) == Some(x);
      BottomIsPrivate(tables, l, kernel, c, m, k, x);
      MiddleIsPrivate(tables, l, kernel, c, m, x);
    }
  }

  lemma {:induction false} OwnedSlot(tables: Tables, l: Roles, kernel: nat, c: nat, i: nat)
    requires WellFormed(tables, l) && c in l.roots && Shaped(tables, kernel, c) && i < NENTRY && Doomed(tables, c, i)
    ensures Walk(tables, kernel, i) == None && Walk(tables, c, i) == Some(Sub(tables, c, i))
    ensures OwnMiddle(tables, kernel, c, Sub(tables, c, i))
  {
    WalkEntry(tables, c, i);
  }

  lemma {:induction false} MiddleIsPrivate(tables: Tables, l: Roles, kernel: nat, c: nat, m: nat, x: nat)
    requires WellFormed(tables, l) && c in l.roots && Shaped(tables, kernel, c) && OwnMiddle(tables, kernel, c, m)
    requires PrivateTable(tables, m, 1, x)
    ensures PrivateTable(tables, c, 2, x)
  {
    OwnMiddleIsMiddle(tables, l, kernel, c, m);
    var i := l.slot[m];
    WalkEntry(tables, c, i);
    assert SlotPrivate(tables, c, i);
    PrivateBelowRoot(tables, l, c, i, x);
    assert BelowEntry(tables, c, i) && PrivateTable(tables, Sub(tables, c, i), 1, x);
  }

  lemma {:induction false} BottomIsPrivate(tables: Tables, l: Roles, kernel: nat, c: nat, m: nat, k: nat, x: nat)
    requires WellFormed(tables, l) && c in l.roots && Shaped(tables, kernel, c) && OwnMiddle(tables, kernel, c, m)
    requires k < NENTRY && Walk(tables, m, k) == Some(x)
    ensures PrivateTable(tables, m, 1, x)
  {
    OwnMiddleIsMiddle(tables, l, kernel, c, m);
    var i := l.slot[m];
    WalkEntry(tables, c, i);
    WalkEntry(tables, m, k);
    assert SlotPrivate(tables, c, i) && Sub(tables, c, i) == m;
    PrivateBelowMiddle(tables, l, m, k);
    assert PrivateTable(tables, Sub(tables, m, k), 0, x);
  }

  /** The user pages returned are the targets of the non-global translations in c's own slots. */
  lemma {:induction false} OwnLeaf(tables: Tables, l: Roles, kernel: nat, c: nat, v: VPage)
    requires WellFormed(tables, l) && c in l.roots && kernel in l.roots && Shaped(tables, kernel, c) && InBounds(v)
    ensures var b := Sub(tables, Sub(tables, c, v.i2), v.i1);
            (Doomed(tables, c, v.i2) && Doomed(tables, Sub(tables, c, v.i2), v.i1) && Doomed(tables, b, v.i0)) <==>
            (Walk(tables, kernel, v.i2) == None && Translation(tables, c, v).Some?
             && !IsGlobal(Translation(tables, c, v).value))
    ensures var b := Sub(tables, Sub(tables, c, v.i2), v.i1);
            Walk(tables, kernel, v.i2) == None && Translation(tables, c, v).Some? ==>
              Translation(tables, c, v) == Some(EntryAt(tables, b, v.i0))
  {
    var m := Sub(tables, c, v.i2);
    WalkEntry(tables, c, v.i2);
    WalkEntry(tables, m, v.i1);
    if Walk(tables, c, v.i2).Some? {
      RootWalkIsMiddle(tables, l, c, v.i2);
    }
    if Walk(tables, kernel, v.i2) == None {
      assert SlotPrivate(tables, c, v.i2);
    }
    assert !IsValid(0);
  }
}
