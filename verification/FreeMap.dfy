/**
 The bitmap of disk sectors in use (src/fs/disk/free_map.rs): one bit per sector, changed
 in place.
 */
module FreeMaps {
  import opened Options

  /** `1 << k` in a byte. */
  function Mask(k: nat): (m: bv8)
    requires k < 8
    ensures m != 0
  {
    if k == 0 then 1 else if k == 1 then 2 else if k == 2 then 4 else if k == 3 then 8
    else if k == 4 then 16 else if k == 5 then 32 else if k == 6 then 64 else 128
  }

  lemma MasksDisjoint(j: nat, k: nat)
    requires j < 8 && k < 8 && j != k
    ensures Mask(j) & Mask(k) == 0
  {
  }

  /** Sector s is bit s % 8 of its byte, counted from the lowest. */
  lemma MaskValues()
    ensures Mask(0) == 1 && Mask(1) == 2 && Mask(2) == 4 && Mask(3) == 8
    ensures Mask(4) == 16 && Mask(5) == 32 && Mask(6) == 64 && Mask(7) == 128
  {
  }

  lemma SetBit(b: bv8, m: bv8, n: bv8)
    requires m != 0 && m & n == 0
    ensures (b | m) & m != 0 && (b | m) & n == b & n
  {
  }

  lemma ClearBit(b: bv8, m: bv8, n: bv8)
    requires m & n == 0
    ensures (b & !m) & m == 0 && (b & !m) & n == b & n
  {
  }

  function WithBit(b: bv8, k: nat): bv8
    requires k < 8
  {
    b | Mask(k)
  }

  function WithoutBit(b: bv8, k: nat): bv8
    requires k < 8
  {
    b & !Mask(k)
  }

  /** The bit of sector s. */
  predicate Bit(bits: seq<bv8>, s: nat)
    requires s / 8 < |bits|
  {
    bits[s / 8] & Mask(s % 8) != 0
  }

  /** Changing one byte by setting a bit changes exactly that bit. */
  lemma BitAfterSet(bits: seq<bv8>, s: nat, t: nat)
    requires s / 8 < |bits| && t / 8 < |bits|
    ensures Bit(bits[s / 8 := WithBit(bits[s / 8], s % 8)], t) <==> t == s || Bit(bits, t)
  {
    if t / 8 == s / 8 && t != s {
      MasksDisjoint(s % 8, t % 8);
      SetBit(bits[s / 8], Mask(s % 8), Mask(t % 8));
    } else if t == s {
      SetBit(bits[s / 8], Mask(s % 8), 0);
    }
  }

  lemma BitAfterReset(bits: seq<bv8>, s: nat, t: nat)
    requires s / 8 < |bits| && t / 8 < |bits|
    ensures Bit(bits[s / 8 := WithoutBit(bits[s / 8], s % 8)], t) <==> t != s && Bit(bits, t)
  {
    if t / 8 == s / 8 && t != s {
      MasksDisjoint(s % 8, t % 8);
      ClearBit(bits[s / 8], Mask(s % 8), Mask(t % 8));
    } else if t == s {
      ClearBit(bits[s / 8], Mask(s % 8), 0);
    }
  }

  predicate InRun(start: nat, cnt: nat, s: nat) {
    start <= s < start + cnt
  }

  /** The sectors start, ..., start + cnt - 1. */
  function Run(start: nat, cnt: nat): set<nat> {
    set s: nat | s < start + cnt && InRun(start, cnt, s)
  }

  lemma RunMember(start: nat, cnt: nat, s: nat)
    ensures s in Run(start, cnt) <==> start <= s < start + cnt
  {
  }

  predicate RunFree(marked: set<nat>, start: nat, cnt: nat) {
    forall s :: start <= s < start + cnt ==> s !in marked
  }

  predicate RunMarked(marked: set<nat>, start: nat, cnt: nat) {
    forall s :: start <= s < start + cnt ==> s in marked
  }

  /** No run of cnt free sectors can be found: `alloc` stops short of the last start. */
  ghost predicate NoRun(marked: set<nat>, size: nat, cnt: nat) {
    forall s: nat :: s + cnt < size ==> !RunFree(marked, s, cnt)
  }

  /** The run that first fit chooses. */
  ghost predicate FirstRun(marked: set<nat>, size: nat, cnt: nat, start: nat) {
    start + cnt < size && RunFree(marked, start, cnt) && forall s: nat :: s < start ==> !RunFree(marked, s, cnt)
  }

  /** `alloc` stops short of the last start, so a free run at the very end is not found. */
  lemma LastRunNeverTried()
    ensures RunFree({0, 1}, 2, 2) && NoRun({0, 1}, 4, 2)
  {
    assert InRun(0, 2, 1) && InRun(1, 2, 1);
    assert forall s: nat :: s + 2 < 4 ==> InRun(s, 2, 1);
  }

  /** Outcome of asking for given sectors; Halted is the assertion that a sector exists. */
  datatype InPlace = Granted | Refused | Halted

  class FreeMap {
    const size: nat
    const bits: array<bv8>
    ghost var marked: set<nat>

    ghost predicate Valid()
      reads this, bits
    {
      && bits.Length == (size + 7) / 8
      && (forall s: nat :: s < size ==> (Bit(bits[..], s) <==> s in marked))
      && (forall s :: s in marked ==> s < size)
    }

    constructor (size: nat)
      ensures Valid() && this.size == size && marked == {} && fresh(bits)
    {
      this.size := size;
      bits := new bv8[(size + 7) / 8](_ => 0);
      marked := {};
    }

    method Get(s: nat) returns (b: bool)
      requires Valid() && s < size
      ensures b <==> s in marked
    {
      assert bits[..][s / 8] == bits[s / 8];
      b := bits[s / 8] & Mask(s % 8) != 0;
      assert b <==> Bit(bits[..], s);
    }

    method Set(s: nat)
      requires Valid() && s < size
      modifies this, bits
      ensures Valid() && marked == old(marked) + {s}
    {
      hide Bit, Mask, WithBit, WithoutBit;
      bits[s / 8] := WithBit(bits[s / 8], s % 8);
      assert bits[..] == old(bits[..])[s / 8 := WithBit(old(bits[..])[s / 8], s % 8)];
      forall t: nat | t < size ensures Bit(bits[..], t) <==> t in old(marked) + {s} {
        BitAfterSet(old(bits[..]), s, t);
      }
      marked := marked + {s};
    }

    method Reset(s: nat)
      requires Valid() && s < size
      modifies this, bits
      ensures Valid() && marked == old(marked) - {s}
    {
      hide Bit, Mask, WithBit, WithoutBit;
      bits[s / 8] := WithoutBit(bits[s / 8], s % 8);
      assert bits[..] == old(bits[..])[s / 8 := WithoutBit(old(bits[..])[s / 8], s % 8)];
      forall t: nat | t < size ensures Bit(bits[..], t) <==> t in old(marked) - {s} {
        BitAfterReset(old(bits[..]), s, t);
      }
      marked := marked - {s};
    }

    /** `for j in start..start + cnt { self.set(j) }` */
    method SetRun(start: nat, cnt: nat)
      requires Valid() && start + cnt <= size
      modifies this, bits
      ensures Valid() && marked == old(marked) + Run(start, cnt)
    {
      var j := start;
      while j < start + cnt
        invariant start <= j <= start + cnt
        invariant Valid() && marked == old(marked) + Run(start, j - start)
      {
        Set(j);
        j := j + 1;
      }
    }

    /** Scans cnt sectors from start; stops at the first marked one. */
    method ScanFree(start: nat, cnt: nat) returns (free: bool)
      requires Valid() && start + cnt <= size
      ensures free <==> RunFree(marked, start, cnt)
    {
      var i := start;
      while i < start + cnt
        invariant start <= i <= start + cnt && RunFree(marked, start, i - start)
      {
        var b := Get(i);
        if b {
          return false;
        }
        i := i + 1;
      }
      free := true;
    }

    /**
     First fit: the least start below size - cnt whose cnt sectors are all free. (The run
     that ends with the last sector is never tried.)
     */
    method Alloc(cnt: nat) returns (r: Option<nat>)
      requires Valid()
      modifies this, bits
      ensures Valid()
      ensures cnt == 0 ==> r == Some(0) && marked == old(marked)
      ensures cnt > 0 ==> (r == None <==> NoRun(old(marked), size, cnt))
      ensures r == None ==> marked == old(marked)
      ensures cnt > 0 && r.Some? ==>
                && FirstRun(old(marked), size, cnt, r.value)
                && marked == old(marked) + Run(r.value, cnt)
    {
      if cnt == 0 {
        return Some(0);
      }
      if cnt >= size {
        return None;
      }
      var i := 0;
      while i < size - cnt
        invariant 0 <= i <= size - cnt && Valid() && marked == old(marked)
        invariant forall s: nat :: s < i ==> !RunFree(marked, s, cnt)
      {
        var free := ScanFree(i, cnt);
        if free {
          SetRun(i, cnt);
          return Some(i);
        }
        i := i + 1;
      }
      r := None;
    }

    method InPlaceAlloc(start: nat, cnt: nat) returns (r: InPlace)
      requires Valid()
      modifies this, bits
      ensures Valid()
      ensures r == Refused <==> !RunFree(old(marked), start, cnt)
      ensures r == Halted <==> cnt > 0 && start + cnt > size && RunFree(old(marked), start, cnt)
      ensures marked == if r == Granted then old(marked) + Run(start, cnt) else old(marked)
    {
      if cnt == 0 {
        assert Run(start, 0) == {};
        return Granted;
      }
      var i := start;
      while i < start + cnt
        invariant start <= i <= start + cnt && RunFree(marked, start, i - start)
        invariant Valid() && marked == old(marked) && (i > start ==> i <= size)
      {
        if i >= size {
          return Halted;
        }
        var b := Get(i);
        if b {
          return Refused;
        }
        i := i + 1;
      }
      SetRun(start, cnt);
      r := Granted;
    }

    /**
     Frees sectors from `sector` on, up to cnt of them, stopping at the first that is not in
     use. False stands for the failed assertion that a sector exists.
     */
    method Dealloc(sector: nat, cnt: nat) returns (ok: bool, ghost freed: nat)
      requires Valid()
      modifies this, bits
      ensures Valid()
      ensures freed <= cnt && RunMarked(old(marked), sector, freed)
      ensures freed < cnt ==> sector + freed !in old(marked)
      ensures ok <==> freed == cnt || sector + freed < size
      ensures marked == old(marked) - Run(sector, freed)
    {
      var i := sector;
      freed := 0;
      ok := true;
      while i < sector + cnt
        invariant i == sector + freed && freed <= cnt
        invariant Valid() && marked == old(marked) - Run(sector, freed)
        invariant RunMarked(old(marked), sector, freed)
      {
        if i >= size {
          return false, freed;
        }
        var b := Get(i);
        if !b {
          break;
        }
        Reset(i);
        i := i + 1;
        freed := freed + 1;
      }
    }
  }
}
