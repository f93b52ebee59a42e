/**
 Files on disk (src/fs/disk/inode.rs, src/fs/disk.rs): inodes with one contiguous extent
 each, lazily shrunk, grown in place or by relocation, and read and written in chunks.
 */
module DiskFiles {
  import opened Options
  import opened Bits
  import opened FreeMaps
  import opened DiskLayout

  /** The in-memory inode: where the file is, and how much of its extent it has given up. */
  datatype Inode = Inode(start: nat, len: nat, shrink: nat, removed: bool, denyWrite: nat)

  /** The extent an open file holds: also the lazily shrunk tail stays allocated. */
  function ExtentOf(i: Inode): Extent {
    Extent(i.start, i.len, SectorsFor(i.len + i.shrink))
  }

  datatype WriteResult = Denied | Failed(why: Outcome) | Written(count: nat)

  /** How many of n bytes written at `off` a file of length len takes. */
  function Writable(len: nat, off: nat, n: nat): nat {
    if off < len then Min(n, len - off) else 0
  }

  /** What writing `data` at `off` makes of a file's bytes when its new length is len. */
  ghost predicate WriteEffect(before: seq<byte>, after: seq<byte>, len: nat, off: nat, data: seq<byte>) {
    && |after| == len
    && (data != [] ==> off + |data| <= len && after[off..off + |data|] == data)
    && forall k :: 0 <= k < |before| && k < len && !(off <= k < off + |data|) ==> after[k] == before[k]
  }

  /** The buffer after its first `count` bytes were read from byte `start` of content c. */
  function ReadInto(orig: seq<byte>, c: seq<byte>, start: nat, count: nat): (r: seq<byte>)
    requires count <= |orig| && (count > 0 ==> start + count <= |c|)
    ensures |r| == |orig|
  {
    if count == 0 then orig else c[start..start + count] + orig[count..]
  }

  /** Reading back what was written. */
  lemma ReadBack(before: seq<byte>, after: seq<byte>, len: nat, off: nat, data: seq<byte>, orig: seq<byte>)
    requires WriteEffect(before, after, len, off, data) && |data| <= |orig|
    ensures data != [] ==> off + |data| <= |after|
    ensures ReadInto(orig, after, off, |data|)[..|data|] == data
  {
    if data != [] {
      assert (after[off..off + |data|] + orig[|data|..])[..|data|] == data;
    }
  }

  lemma {:induction false} ReadMore(orig: seq<byte>, c: seq<byte>, start: nat, count: nat, n: nat)
    requires count + n <= |orig| && n > 0 && start + count + n <= |c|
    ensures var buf, off := ReadInto(orig, c, start, count), start + count;
            buf[..count] + c[off..off + n] + buf[count + n..] == ReadInto(orig, c, start, count + n)
  {
  }

  lemma NothingRead(orig: seq<byte>, c: seq<byte>, start: nat)
    ensures ReadInto(orig, c, start, 0) == orig
  {
  }

  predicate WithinSector(off: nat, n: nat) {
    off % SECTOR_SIZE + n <= SECTOR_SIZE
  }

  /** How much one round moves: no more than the file, the sector and the buffer have left. */
  function ChunkSize(off: nat, len: nat, left: nat): (c: nat)
    ensures c <= left && WithinSector(off, c) && (c > 0 ==> off + c <= len)
    ensures c == 0 <==> left == 0 || len <= off
  {
    var inodeLeft := if off < len then len - off else 0;
    Min(Min(inodeLeft, SECTOR_SIZE - off % SECTOR_SIZE), left)
  }

  lemma NothingPatched(disk: seq<Sector>, e: Extent, off: nat)
    ensures Patched(disk, disk, e, off, [])
  {
  }

  lemma WithinExtent(disk: seq<Sector>, e: Extent, k: nat)
    requires Fits(e, |disk|) && k <= e.len
    ensures k <= SECTOR_SIZE * e.cnt
  {
  }

  lemma SamePatchedSize(disk: seq<Sector>, disk': seq<Sector>, e: Extent, off: nat, data: seq<byte>)
    requires Patched(disk, disk', e, off, data)
    ensures |disk'| == |disk|
  {
  }

  /** Changing the length and then overwriting is a write. */
  lemma {:induction false} AfterWrite(disk: seq<Sector>, e: Extent, grown: seq<Sector>, disk': seq<Sector>, e': Extent,
                                      off: nat, data: seq<byte>)
    requires PrefixSame(disk, e, grown, e') && Patched(grown, disk', e', off, data)
    requires data != [] ==> off + |data| <= e'.len
    ensures Fits(e', |disk'|) && Fits(e, |disk|)
    ensures WriteEffect(Content(disk, e), Content(disk', e'), e'.len, off, data)
  {
    hide Content, Patched;
    PatchedContent(grown, disk', e', off, data);
    var before, middle, after := Content(disk, e), Content(grown, e'), Content(disk', e');
    var m := Min(e.len, e'.len);
    forall k | 0 <= k < m && !(off <= k < off + |data|) ensures after[k] == before[k] {
      assert middle[k] == middle[..m][k] == before[..m][k];
    }
    if data != [] {
      assert after[off..off + |data|] == data;
    }
  }

  /** Whether a chunk can go to or from the device without a bounce buffer. */
  predicate Direct(chunk: nat, addr: nat) {
    chunk == SECTOR_SIZE && addr % PG_SIZE <= PG_SIZE - SECTOR_SIZE
  }

  datatype Outcome = Done | NoSpace | Halt

  /** The in-memory inodes describe the extents; a file that is not open has no shrunk tail. */
  ghost predicate InodesMatch(inodes: map<nat, Inode>, files: map<nat, Extent>) {
    && (forall n :: n in inodes ==>
          n in files && files[n] == ExtentOf(inodes[n]) && inodes[n].len + inodes[n].shrink < U32
            && inodes[n].start < U32)
    && (forall n :: n in files && n !in inodes ==> files[n].cnt == SectorsFor(files[n].len))
  }

  /** The two sets of inodes differ at n only. */
  ghost predicate SameExcept<T>(before: map<nat, T>, after: map<nat, T>, n: nat) {
    before.Keys == after.Keys && forall m :: m in before && m != n ==> after[m] == before[m]
  }

  lemma InodeUpdated(inodes: map<nat, Inode>, files: map<nat, Extent>, n: nat, i: Inode)
    requires InodesMatch(inodes, files) && n in inodes && i.len + i.shrink < U32 && i.start < U32
    ensures n in files && files[n] == ExtentOf(inodes[n])
    ensures InodesMatch(inodes[n := i], files[n := ExtentOf(i)])
    ensures SameExcept(inodes, inodes[n := i], n) && SameExcept(files, files[n := ExtentOf(i)], n)
  {
  }

  /** The bounds that moving file n to fresh sectors relies on. */
  lemma {:induction false} MoveFacts(files: map<nat, Extent>, marked: set<nat>, size: nat, n: nat, i: Inode,
                                     newlen: nat, start: nat)
    requires Ownership(files, marked, size) && n in files && files[n] == ExtentOf(i)
    requires newlen > i.len + i.shrink && start + SectorsFor(newlen) <= size
    requires RunFree(marked, start, SectorsFor(newlen))
    ensures n < size && SectorsFor(i.len + i.shrink) <= SectorsFor(newlen)
    ensures Fits(Extent(start, newlen, SectorsFor(newlen)), size)
    ensures var cnt := SectorsFor(i.len + i.shrink);
            && (cnt > 0 ==> i.start + cnt <= size)
            && (cnt == 0 || i.start + cnt <= start || start + cnt <= i.start)
  {
    SectorsForMonotone(i.len + i.shrink, newlen);
    FreshRunApart(files, marked, size, n, start, SectorsFor(newlen));
  }

  lemma UnownedExists(files: map<nat, Extent>, marked: set<nat>, size: nat, n: nat)
    requires Unowned(files, marked, size, n, 1)
    ensures n < size && n in marked
  {
    assert InRun(n, 1, n);
  }

  lemma {:induction false} ZeroContent(disk: seq<Sector>, e: Extent)
    requires Fits(e, |disk|) && forall s: nat :: InExtent(e, s) && s < |disk| ==> disk[s] == ZeroSector()
    ensures Content(disk, e) == seq(e.len, _ => 0)
  {
    forall k: nat | k < e.len ensures Content(disk, e)[k] == 0 {
      FlatInside(e, |disk|, k);
      assert Content(disk, e)[k] == Flat(disk, e.start, k);
    }
  }

  lemma InodeAdded(inodes: map<nat, Inode>, files: map<nat, Extent>, n: nat, i: Inode)
    requires InodesMatch(inodes, files) && n !in files && i.len + i.shrink < U32 && i.start < U32
    ensures InodesMatch(inodes[n := i], files[n := ExtentOf(i)])
  {
  }

  /** A sector that was free before it was marked is owned by nobody. */
  lemma {:induction false} FreshInode(files: map<nat, Extent>, marked: set<nat>, size: nat, n: nat)
    requires Ownership(files, marked, size) && n !in marked && n < size
    ensures Unowned(files, marked + {n}, size, n, 1) && Ownership(files, marked + {n}, size)
  {
    assert !SectorOwned(files, n);
  }

  lemma WordBound(s: Sector, i: nat)
    requires i + 4 <= SECTOR_SIZE
    ensures WordAt(s, i) < U32
  {
  }

  lemma CeilingDivision(n: nat)
    ensures SectorsFor(n) == (n + SECTOR_SIZE - 1) / SECTOR_SIZE
  {
  }

  lemma FitsBound(e: Extent, size: nat)
    requires Fits(e, size)
    ensures e.cnt > 0 ==> e.start + e.cnt <= size
  {
  }

  /** Deallocating a run that is all in use frees the whole run. */
  lemma FreedAll(marked: set<nat>, start: nat, cnt: nat, freed: nat)
    requires RunMarked(marked, start, cnt) && freed <= cnt && (freed < cnt ==> start + freed !in marked)
    ensures freed == cnt
  {
  }

  lemma EmptyRun(marked: set<nat>, start: nat)
    ensures marked - Run(start, 0) == marked
  {
  }

  lemma FreedOne(marked: set<nat>, n: nat, freed: nat)
    requires n in marked && freed <= 1 && (freed < 1 ==> n + freed !in marked)
    ensures freed == 1
  {
  }

  lemma InodesDropped(inodes: map<nat, Inode>, files: map<nat, Extent>, n: nat)
    requires InodesMatch(inodes, files)
    ensures InodesMatch(inodes - {n}, files - {n})
  {
  }

  lemma InodesClosed(inodes: map<nat, Inode>, files: map<nat, Extent>, n: nat)
    requires InodesMatch(inodes, files) && n in inodes && inodes[n].shrink == 0
    ensures InodesMatch(inodes - {n}, files)
  {
  }

  lemma SectorCount(disk: seq<Sector>, disk': seq<Sector>, n: nat)
    requires OnlySector(disk, disk', n)
    ensures |disk'| == |disk|
  {
  }

  /** The bytes left in the last kept sector are fewer than those beyond the tail's whole sectors. */
  predicate LosesSector(len: nat, shrink: nat) {
    (SECTOR_SIZE - len % SECTOR_SIZE) % SECTOR_SIZE < shrink % SECTOR_SIZE
  }

  /** Some sector that growing to newlen in place would need is in use. */
  ghost predicate GrowthRefused(marked: set<nat>, i: Inode, newlen: nat)
    requires i.len + i.shrink <= newlen
  {
    SectorsForMonotone(i.len + i.shrink, newlen);
    !RunFree(marked, i.start + SectorsFor(i.len + i.shrink), SectorsFor(newlen) - SectorsFor(i.len + i.shrink))
  }

  /** Growing fails for lack of space: neither the sectors behind nor any other run will do. */
  ghost predicate OutOfSpace(marked: set<nat>, size: nat, i: Inode, newlen: nat) {
    && i.len + i.shrink < newlen
    && GrowthRefused(marked, i, newlen) && NoRun(marked, size, SectorsFor(newlen))
  }

  /** Growing in place runs past the end of the disk before it meets a sector in use. */
  ghost predicate PastDisk(marked: set<nat>, size: nat, i: Inode, newlen: nat) {
    && i.len + i.shrink < newlen
    && !GrowthRefused(marked, i, newlen)
    && SectorsFor(i.len + i.shrink) < SectorsFor(newlen) && i.start + SectorsFor(newlen) > size
  }

  /** Where a file of length newlen starts: where it did, or at the first run it fits in. */
  ghost predicate StartsAt(marked: set<nat>, size: nat, i: Inode, newlen: nat, start: nat) {
    if i.len + i.shrink < newlen && GrowthRefused(marked, i, newlen)
    then FirstRun(marked, size, SectorsFor(newlen), start)
    else start == i.start
  }

  /** The length of a file of length len after a write that ends at byte `end`. */
  function WrittenLength(len: nat, end: nat): nat {
    if len < end then end % U32 else len
  }

  /** A write has the length it should have exactly when it ends below 2^32, and then all is written. */
  lemma WroteAll(len: nat, off: nat, n: nat)
    requires len < U32
    ensures WrittenLength(len, off + n) == Max(len, off + n) <==> off + n < U32
    ensures Writable(WrittenLength(len, off + n), off, n) == n <==> n == 0 || off + n < U32
  {
  }

  /** One byte written at the end of the 32-bit range empties the file and writes nothing. */
  lemma WriteEmptiesFile(len: nat)
    requires len < U32
    ensures WrittenLength(len, U32 - 1 + 1) == 0 && Writable(0, U32 - 1, 1) == 0
  {
  }

  lemma WrittenLengths(marked: set<nat>, size: nat, i: Inode, end: nat)
    requires i.len < U32
    ensures WrittenLength(i.len, end) == if i.len < end then end % U32 else i.len
    ensures i.len >= end ==> !OutOfSpace(marked, size, i, end % U32) && !PastDisk(marked, size, i, end % U32)
    ensures i.len >= end ==> StartsAt(marked, size, i, i.len, i.start)
  {
  }

  lemma WritableFits(len: nat, off: nat, n: nat)
    ensures Writable(len, off, n) <= n && (Writable(len, off, n) > 0 ==> off + Writable(len, off, n) <= len)
  {
  }

  lemma WrittenSize(before: seq<byte>, after: seq<byte>, len: nat, off: nat, data: seq<byte>)
    requires WriteEffect(before, after, len, off, data)
    ensures |after| == len
  {
  }

  class DiskFs {
    var disk: seq<Sector>
    const freeMap: FreeMap
    var inodes: map<nat, Inode>
    // All files, open or not, by inode number.
    ghost var files: map<nat, Extent>

    ghost predicate Valid()
      reads this, freeMap, freeMap.bits
    {
      && freeMap.Valid() && freeMap.size == |disk| < U32
      && Ownership(files, freeMap.marked, |disk|)
      && InodesOnDisk(files, disk)
      && InodesMatch(inodes, files)
    }

    /** A disk without files. */
    constructor (disk: seq<Sector>, freeMap: FreeMap)
      requires freeMap.Valid() && freeMap.size == |disk| < U32
      ensures Valid() && this.disk == disk && this.freeMap == freeMap && files == map[] && inodes == map[]
    {
      this.disk, this.freeMap := disk, freeMap;
      inodes, files := map[], map[];
    }

    // ---- Steps of resize_inner ----

    /** Copies cnt sectors, one at a time, through a bounce buffer. */
    method CopySectors(from: nat, to: nat, cnt: nat)
      requires cnt > 0 ==> from + cnt <= |disk| && to + cnt <= |disk|
      requires cnt == 0 || from + cnt <= to || to + cnt <= from
      modifies `disk
      ensures |disk| == |old(disk)|
      ensures Copied(old(disk), from, disk, to, cnt) && OutsideSame(old(disk), disk, to, cnt)
    {
      var i := 0;
      while i < cnt
        invariant i <= cnt && |disk| == |old(disk)|
        invariant Copied(old(disk), from, disk, to, i)
        invariant forall s: nat :: s < |disk| && !(to <= s < to + i) ==> disk[s] == old(disk)[s]
      {
        var bounce := disk[from + i];
        CopyOneMore(old(disk), from, disk, to, i);
        disk := disk[to + i := bounce];
        i := i + 1;
      }
    }

    /** Sets the length and the other fields of inode n and flushes it to its sector. */
    method Flush(n: nat, i: Inode)
      requires n in inodes && n < |disk| && i.start < U32 && i.len < U32
      modifies `disk, `inodes, `files
      ensures inodes == old(inodes)[n := i] && files == old(files)[n := ExtentOf(i)]
      ensures OnlySector(old(disk), disk, n) && n < |disk| && InodeSays(disk[n], ExtentOf(i))
    {
      InodeRoundTrip(i.start, i.len);
      inodes := inodes[n := i];
      disk := disk[n := InodeSector(i.start, i.len)];
      files := files[n := ExtentOf(i)];
    }

    /** What every change of file n leaves alone. */
    twostate predicate OnlyChanges(n: nat)
      reads this
    {
      && SameExcept(old(inodes), inodes, n) && SameExcept(old(files), files, n)
      && OtherFilesKept(old(files), old(disk), files, disk, n)
    }

    twostate predicate NothingChanged()
      reads this, freeMap
    {
      disk == old(disk) && inodes == old(inodes) && files == old(files) && freeMap.marked == old(freeMap.marked)
    }

    /** File n has a new length, and its bytes are kept as far as that reaches. */
    twostate predicate Resized(n: nat, newlen: nat)
      reads this
    {
      && n in inodes && n in old(inodes) && n in files && n in old(files)
      && inodes[n].len == newlen
      && inodes[n].removed == old(inodes)[n].removed && inodes[n].denyWrite == old(inodes)[n].denyWrite
      && PrefixSame(old(disk), old(files)[n], disk, files[n])
    }

    /** `resize`: the length is truncated to 32 bits first. */
    method Resize(n: nat, size: nat) returns (r: Outcome)
      requires Valid() && n in inodes
      modifies this, freeMap, freeMap.bits
      ensures Valid() && OnlyChanges(n)
      ensures r == Done ==> Resized(n, size % U32)
      ensures r == Done ==> Rebooked(old(freeMap.marked), old(files)[n], files[n], freeMap.marked)
      ensures r == Done ==> StartsAt(old(freeMap.marked), |disk|, old(inodes[n]), size % U32, inodes[n].start)
      ensures r == Done ==>
                inodes[n].len + inodes[n].shrink == Max(old(inodes[n].len + inodes[n].shrink), size % U32)
      ensures r != Done ==> NothingChanged()
      ensures r == NoSpace <==> OutOfSpace(old(freeMap.marked), |disk|, old(inodes[n]), size % U32)
      ensures r == Halt <==> PastDisk(old(freeMap.marked), |disk|, old(inodes[n]), size % U32)
    {
      r := ResizeTo(n, size % U32);
    }

    /**
     Changes the length of open file n. Growing beyond the allocated bytes first tries the
     sectors right behind the extent, and else moves the file.
     */
    method ResizeTo(n: nat, newlen: nat) returns (r: Outcome)
      requires Valid() && n in inodes && newlen < U32
      modifies this, freeMap, freeMap.bits
      ensures Valid() && OnlyChanges(n)
      ensures r == Done ==> Resized(n, newlen)
      ensures r == Done ==> Rebooked(old(freeMap.marked), old(files)[n], files[n], freeMap.marked)
      ensures r == Done ==> StartsAt(old(freeMap.marked), |disk|, old(inodes[n]), newlen, inodes[n].start)
      ensures r == Done ==> inodes[n].len + inodes[n].shrink == Max(old(inodes[n].len + inodes[n].shrink), newlen)
      ensures r != Done ==> NothingChanged()
      ensures r == NoSpace <==> OutOfSpace(old(freeMap.marked), |disk|, old(inodes[n]), newlen)
      ensures r == Halt <==> PastDisk(old(freeMap.marked), |disk|, old(inodes[n]), newlen)
    {
      hide Ownership, InodesOnDisk, InodesMatch, SameExcept, OtherFilesKept, PrefixSame, SectorsFor, OnlySector,
        InodeSays, Copied, FreeMap.Valid, RunFree, Run, NoRun, FirstRun, Rebooked;
      var i := inodes[n];
      var oldlen := i.len + i.shrink;
      if newlen == i.len {
        Unchanged(n);
        RebookedSame(files, freeMap.marked, |disk|, n, files[n]);
        r := Done;
      } else if newlen < i.len {
        KeepExtent(n, i.(len := newlen, shrink := i.shrink + (i.len - newlen)));
        r := Done;
      } else if newlen <= oldlen {
        KeepExtent(n, i.(len := newlen, shrink := oldlen - newlen));
        r := Done;
      } else {
        SectorsForMonotone(oldlen, newlen);
        r := Grow(n, newlen);
      }
    }

    lemma Unchanged(n: nat)
      requires Valid()
      ensures OtherFilesKept(files, disk, files, disk, n)
      ensures SameExcept(inodes, inodes, n) && SameExcept(files, files, n)
      ensures n in files ==> PrefixSame(disk, files[n], disk, files[n])
      ensures n in inodes ==> n in files && files[n] == ExtentOf(inodes[n])
                               && inodes[n].start < U32 && inodes[n].len + inodes[n].shrink < U32
    {
    }

    /** A new length within the allocated bytes: only the inode changes. */
    method KeepExtent(n: nat, j: Inode)
      requires Valid() && n in inodes && j.start == inodes[n].start
      requires j.len + j.shrink == inodes[n].len + inodes[n].shrink
      requires j.removed == inodes[n].removed && j.denyWrite == inodes[n].denyWrite
      modifies this
      ensures Valid() && OnlyChanges(n) && Resized(n, j.len) && inodes[n] == j
      ensures Rebooked(old(freeMap.marked), old(files)[n], files[n], freeMap.marked)
    {
      hide Ownership, InodesOnDisk, InodesMatch, SameExcept, OtherFilesKept, PrefixSame, SectorsFor, OnlySector,
        InodeSays, Copied, FreeMap.Valid, RunFree, Run, NoRun, FirstRun, Rebooked;
      Unchanged(n);
      InodeSectorExists(n);
      InodeUpdated(inodes, files, n, j);
      Flush(n, j);
      SameExtent(old(files), old(disk), freeMap.marked, n, ExtentOf(j), disk);
      RebookedSame(old(files), freeMap.marked, |disk|, n, files[n]);
      SectorCount(old(disk), disk, n);
    }

    lemma InodeSectorExists(n: nat)
      requires Valid() && n in files
      ensures n < |disk| && Fits(files[n], |disk|)
    {
    }

    /** Beyond the allocated bytes: in place if the sectors behind are free, else elsewhere. */
    method Grow(n: nat, newlen: nat) returns (r: Outcome)
      requires Valid() && n in inodes && newlen < U32 && newlen > inodes[n].len + inodes[n].shrink
      modifies this, freeMap, freeMap.bits
      ensures Valid() && OnlyChanges(n)
      ensures r == Done ==> Resized(n, newlen) && inodes[n].shrink == 0
      ensures r == Done ==> Rebooked(old(freeMap.marked), old(files)[n], files[n], freeMap.marked)
      ensures r == Done ==> StartsAt(old(freeMap.marked), |disk|, old(inodes[n]), newlen, inodes[n].start)
      ensures r != Done ==> NothingChanged()
      ensures r == NoSpace <==> OutOfSpace(old(freeMap.marked), |disk|, old(inodes[n]), newlen)
      ensures r == Halt <==> PastDisk(old(freeMap.marked), |disk|, old(inodes[n]), newlen)
    {
      hide Ownership, InodesOnDisk, InodesMatch, SameExcept, OtherFilesKept, PrefixSame, SectorsFor, OnlySector,
        InodeSays, Copied, FreeMap.Valid, RunFree, Run, NoRun, FirstRun, Rebooked;
      var granted := GrowInPlace(n, newlen);
      if granted == Granted {
        r := Done;
      } else if granted == Halted {
        r := Halt;
      } else {
        r := Relocate(n, newlen);
      }
    }

    method GrowInPlace(n: nat, newlen: nat) returns (r: InPlace)
      requires Valid() && n in inodes && newlen < U32 && newlen > inodes[n].len + inodes[n].shrink
      modifies this, freeMap, freeMap.bits
      ensures Valid() && OnlyChanges(n)
      ensures r == Granted ==> Resized(n, newlen) && inodes[n].shrink == 0 && inodes[n].start == old(inodes[n].start)
      ensures r == Granted ==> Rebooked(old(freeMap.marked), old(files)[n], files[n], freeMap.marked)
      ensures r != Granted ==> NothingChanged()
      ensures r == Refused <==> GrowthRefused(old(freeMap.marked), old(inodes[n]), newlen)
      ensures r == Halted <==> PastDisk(old(freeMap.marked), |disk|, old(inodes[n]), newlen)
    {
      hide Ownership, InodesOnDisk, InodesMatch, SameExcept, OtherFilesKept, PrefixSame, SectorsFor, OnlySector,
        InodeSays, Copied, FreeMap.Valid, RunFree, Run, NoRun, FirstRun, Rebooked;
      var i := inodes[n];
      var oldlen := i.len + i.shrink;
      SectorsForMonotone(oldlen, newlen);
      Unchanged(n);
      InodeSectorExists(n);
      InodeUpdated(inodes, files, n, i.(len := newlen, shrink := 0));
      var cnt := SectorsFor(newlen) - SectorsFor(oldlen);
      r := freeMap.InPlaceAlloc(i.start + SectorsFor(oldlen), cnt);
      if r == Granted {
        Flush(n, i.(len := newlen, shrink := 0));
        GrownExtent(old(files), old(disk), old(freeMap.marked), n, files[n], disk);
        RebookedGrown(old(files), old(freeMap.marked), |old(disk)|, n, files[n]);
        SectorCount(old(disk), disk, n);
      }
    }

    /** Moves file n to a fresh extent that is large enough. */
    method Relocate(n: nat, newlen: nat) returns (r: Outcome)
      requires Valid() && n in inodes && newlen < U32 && newlen > inodes[n].len + inodes[n].shrink
      modifies this, freeMap, freeMap.bits
      ensures Valid() && OnlyChanges(n) && r != Halt
      ensures r == Done ==> Resized(n, newlen) && inodes[n].shrink == 0
      ensures r == Done ==> Rebooked(old(freeMap.marked), old(files)[n], files[n], freeMap.marked)
      ensures r == Done ==> FirstRun(old(freeMap.marked), |disk|, SectorsFor(newlen), inodes[n].start)
      ensures r != Done ==> NothingChanged()
      ensures r == NoSpace <==> NoRun(old(freeMap.marked), |disk|, SectorsFor(newlen))
    {
      hide Ownership, InodesOnDisk, InodesMatch, SameExcept, OtherFilesKept, PrefixSame, SectorsFor, OnlySector,
        InodeSays, Copied, OutsideSame, FreeMap.Valid, RunFree, RunMarked, Run, FirstRun, Rebooked;
      Unchanged(n);
      var start := freeMap.Alloc(SectorsFor(newlen));
      if start == None {
        r := NoSpace;
      } else {
        MoveTo(n, newlen, start.value, old(freeMap.marked));
        r := Done;
      }
    }

    /** Copies file n to the fresh sectors from `start` on and gives the old ones back. */
    method MoveTo(n: nat, newlen: nat, start: nat, ghost marked: set<nat>)
      requires freeMap.Valid() && freeMap.size == |disk| < U32 && n in inodes && newlen < U32
      requires Ownership(files, marked, |disk|) && InodesOnDisk(files, disk) && InodesMatch(inodes, files)
      requires newlen > inodes[n].len + inodes[n].shrink && start + SectorsFor(newlen) <= |disk|
      requires RunFree(marked, start, SectorsFor(newlen)) && freeMap.marked == marked + Run(start, SectorsFor(newlen))
      modifies this, freeMap, freeMap.bits
      ensures Valid() && OnlyChanges(n) && Resized(n, newlen) && inodes[n].shrink == 0 && inodes[n].start == start
      ensures |disk| == |old(disk)| && Rebooked(marked, old(files)[n], files[n], freeMap.marked)
    {
      hide Ownership, InodesOnDisk, InodesMatch, SameExcept, OtherFilesKept, PrefixSame, SectorsFor, OnlySector,
        InodeSays, Copied, OutsideSame, FreeMap.Valid, RunFree, RunMarked, Run, Fits, Rebooked;
      var i := inodes[n];
      var cnt := SectorsFor(i.len + i.shrink);
      InodeUpdated(inodes, files, n, i.(start := start, len := newlen, shrink := 0));
      MoveFacts(files, marked, |disk|, n, i, newlen, start);
      CopySectors(i.start, start, cnt);
      ghost var copied := disk;
      var ok;
      ghost var freed;
      ok, freed := freeMap.Dealloc(i.start, cnt);
      RelocationMarks(files, marked, |disk|, n, Extent(start, newlen, SectorsFor(newlen)), freed);
      assert ok;
      Flush(n, i.(start := start, len := newlen, shrink := 0));
      MovedExtent(old(files), old(disk), marked, n, files[n], copied, disk, freed);
      RebookedMoved(old(files), marked, |old(disk)|, n, files[n], freed);
      SectorCount(copied, disk, n);
    }

    // ---- Reading and writing ----

    /** `buf[at..at + data.len()].copy_from_slice(data)` */
    static method CopyFromSlice(buf: array<byte>, at: nat, data: seq<byte>)
      requires at + |data| <= buf.Length
      modifies buf
      ensures buf[..] == old(buf[..])[..at] + data + old(buf[..])[at + |data|..]
    {
      forall k | 0 <= k < |data| {
        buf[at + k] := data[k];
      }
    }

    /** One round of reading: the chunk goes to the buffer directly or through a bounce buffer. */
    static method ReadChunk(disk: seq<Sector>, ghost e: Extent, first: nat, off: nat, chunk: nat, buf: array<byte>,
                            addr: nat, count: nat)
      requires Fits(e, |disk|) && e.start == first && off + chunk <= e.len
      requires 0 < chunk && WithinSector(off, chunk) && count + chunk <= buf.Length
      modifies buf
      ensures buf[..] == old(buf[..])[..count] + Content(disk, e)[off..off + chunk] + old(buf[..])[count + chunk..]
    {
      ChunkOfContent(disk, e, off, chunk);
      var sector, at := disk[first + off / SECTOR_SIZE], off % SECTOR_SIZE;
      if Direct(chunk, addr + count) {
        assert sector[at..at + chunk] == sector;
        CopyFromSlice(buf, count, sector);
      } else {
        var bounce := sector;
        CopyFromSlice(buf, count, bounce[at..at + chunk]);
      }
    }

    /**
     Reads into `buf`, which lies at address `addr`, from byte `start` of file n on, sector
     by sector.
     */
    method ReadAt(n: nat, buf: array<byte>, addr: nat, start: nat) returns (count: nat)
      requires Valid() && n in inodes
      modifies buf
      ensures count == if start < inodes[n].len then Min(buf.Length, inodes[n].len - start) else 0
      ensures n in files && Fits(files[n], |disk|) && files[n].len == inodes[n].len
      ensures buf[..] == ReadInto(old(buf[..]), Content(disk, files[n]), start, count)
    {
      hide Ownership, InodesOnDisk, InodesMatch, SectorsFor, FreeMap.Valid, Content;
      Unchanged(n);
      InodeSectorExists(n);
      count := ReadLoop(disk, inodes[n].start, inodes[n].len, files[n], buf, addr, start);
    }

    /** The loop of `read_at`: at most one sector per round. */
    static method ReadLoop(disk: seq<Sector>, first: nat, len: nat, ghost e: Extent, buf: array<byte>, addr: nat,
                           start: nat)
        returns (count: nat)
      requires Fits(e, |disk|) && e.start == first && e.len == len
      modifies buf
      ensures count == if start < len then Min(buf.Length, len - start) else 0
      ensures count <= buf.Length
      ensures count > 0 ==> start + count <= |Content(disk, e)|
      ensures buf[..] == ReadInto(old(buf[..]), Content(disk, e), start, count)
    {
      hide Content, Fits, ChunkSize, WithinSector, ReadInto;
      var off, left := start, buf.Length;
      ghost var c, orig := Content(disk, e), buf[..];
      count := 0;
      NothingRead(orig, c, start);
      while true
        invariant off == start + count && left == buf.Length - count && count <= buf.Length
        invariant count > 0 ==> off <= len
        invariant buf[..] == ReadInto(orig, c, start, count)
        decreases left
      {
        var chunk := ChunkSize(off, len, left);
        if chunk == 0 {
          break;
        }
        ReadMore(orig, c, start, count, chunk);
        ReadChunk(disk, e, first, off, chunk, buf, addr, count);
        left, off, count := left - chunk, off + chunk, count + chunk;
      }
    }

    /** One round of writing, directly or through a bounce buffer that keeps the rest of the sector. */
    static method WriteChunk(disk: seq<Sector>, first: nat, off: nat, chunk: seq<byte>,
                             addr: nat) returns (disk': seq<Sector>)
      requires first + off / SECTOR_SIZE < |disk| && WithinSector(off, |chunk|)
      ensures var n := first + off / SECTOR_SIZE; disk' == disk[n := Splice(disk[n], off % SECTOR_SIZE, chunk)]
    {
      var n := first + off / SECTOR_SIZE;
      if Direct(|chunk|, addr) {
        assert Splice(disk[n], off % SECTOR_SIZE, chunk) == chunk;
        disk' := disk[n := chunk];
      } else {
        var bounce := Splice(disk[n], off % SECTOR_SIZE, chunk);
        disk' := disk[n := bounce];
      }
    }

    /** The loop of `write_at`: at most one sector per round, until the buffer or the file ends. */
    static method WriteLoop(disk: seq<Sector>, first: nat, len: nat, ghost e: Extent, buf: seq<byte>, addr: nat,
                            start: nat)
        returns (disk': seq<Sector>, count: nat)
      requires Fits(e, |disk|) && e.start == first && e.len == len
      ensures count == Writable(len, start, |buf|) <= |buf| && Patched(disk, disk', e, start, buf[..count])
    {
      hide Fits, ChunkSize, Patched, Splice;
      var off, left := start, |buf|;
      disk', count := disk, 0;
      NothingPatched(disk, e, start);
      assert buf[..0] == [];
      while true
        invariant off == start + count && left == |buf| - count && count <= |buf| && (count > 0 ==> off <= len)
        invariant Patched(disk, disk', e, start, buf[..count])
        decreases left
      {
        var chunk := ChunkSize(off, len, left);
        if chunk == 0 {
          break;
        }
        var data := buf[count..count + chunk];
        WithinExtent(disk, e, off + chunk);
        PatchMore(disk, disk', e, start, buf[..count], data);
        assert buf[..count] + data == buf[..count + chunk];
        disk' := WriteChunk(disk', first, off, data, addr + count);
        left, off, count := left - chunk, off + chunk, count + chunk;
      }
    }

    /**
     Writes `buf` at byte `off` of file n, growing the file first if it is too short. The
     length it asks for is truncated to 32 bits. If that changes nothing, a successful write
     writes all of the buffer and changes nothing else below the old length.
     */
    method WriteAt(n: nat, buf: seq<byte>, addr: nat, off: nat) returns (r: WriteResult)
      requires Valid() && n in inodes
      modifies this, freeMap, freeMap.bits
      ensures Valid() && OnlyChanges(n)
      ensures r == Denied <==> old(inodes[n].denyWrite) > 0
      ensures !r.Written? ==> NothingChanged()
      ensures r == Failed(NoSpace) <==>
                old(inodes[n].denyWrite) == 0
                && OutOfSpace(old(freeMap.marked), |disk|, old(inodes[n]), (off + |buf|) % U32)
      ensures r == Failed(Halt) <==>
                old(inodes[n].denyWrite) == 0
                && PastDisk(old(freeMap.marked), |disk|, old(inodes[n]), (off + |buf|) % U32)
      ensures r != Failed(Done)
      ensures r.Written? ==>
                var len := WrittenLength(old(inodes[n].len), off + |buf|);
                && r.count == Writable(len, off, |buf|) <= |buf| && n in files && n in old(files)
                && Fits(files[n], |disk|) && Fits(old(files)[n], |old(disk)|)
                && WriteEffect(Content(old(disk), old(files)[n]), Content(disk, files[n]), len, off, buf[..r.count])
                && inodes[n].len == len
                && inodes[n].len + inodes[n].shrink == Max(old(inodes[n].len + inodes[n].shrink), len)
                && inodes[n].removed == old(inodes[n].removed) && inodes[n].denyWrite == old(inodes[n].denyWrite)
                && StartsAt(old(freeMap.marked), |disk|, old(inodes[n]), len, inodes[n].start)
                && Rebooked(old(freeMap.marked), old(files)[n], files[n], freeMap.marked)
    {
      hide Ownership, InodesOnDisk, InodesMatch, SameExcept, OtherFilesKept, PrefixSame, SectorsFor, FreeMap.Valid,
        Content, Fits, Patched, WriteEffect, Rebooked, StartsAt, OutOfSpace, PastDisk, Writable, WrittenLength;
      Unchanged(n);
      RebookedSame(files, freeMap.marked, |disk|, n, files[n]);
      if inodes[n].denyWrite > 0 {
        return Denied;
      }
      WrittenLengths(freeMap.marked, |disk|, inodes[n], off + |buf|);
      if inodes[n].len < off + |buf| {
        var resized := Resize(n, off + |buf|);
        if resized != Done {
          return Failed(resized);
        }
      }
      ghost var len := WrittenLength(old(inodes[n].len), off + |buf|);
      assert Resized(n, len);
      Unchanged(n);
      ghost var grown := disk;
      var count := WriteBytes(n, buf, addr, off);
      WritableFits(len, off, |buf|);
      AfterWrite(old(disk), old(files)[n], grown, disk, files[n], off, buf[..count]);
      OthersKeptTransitive(old(files), old(disk), files, grown, files, disk, n);
      r := Written(count);
    }

    /** What can be read back after a successful write is what was written. */
    method WriteThenRead(n: nat, data: seq<byte>, buf: array<byte>, addr: nat, off: nat) returns (r: WriteResult)
      requires Valid() && n in inodes && buf.Length == |data|
      requires (buf as object) != (freeMap.bits as object)
      modifies this, freeMap, freeMap.bits, buf
      ensures r.Written? ==> Valid() && r.count <= |data| && buf[..][..r.count] == data[..r.count]
      ensures r.Written? && off + |data| < U32 ==> buf[..] == data
    {
      hide Ownership, InodesOnDisk, InodesMatch, OtherFilesKept, SectorsFor, FreeMap.Valid, Fits, Content,
        WriteEffect, ReadInto, OutOfSpace, PastDisk, Rebooked, WrittenLength;
      Unchanged(n);
      ghost var len := WrittenLength(inodes[n].len, off + |data|);
      r := WriteAt(n, data, addr, off);
      if r.Written? {
        WroteAll(old(inodes[n].len), off, |data|);
        Unchanged(n);
        ghost var before, after, orig := Content(old(disk), old(files)[n]), Content(disk, files[n]), buf[..];
        var count := ReadAt(n, buf, addr, off);
        WrittenSize(before, after, len, off, data[..r.count]);
        ReadBack(before, after, len, off, data[..r.count], orig);
        assert r.count == |data| ==> buf[..][..r.count] == buf[..] && data[..r.count] == data;
      }
    }

    /** The write loop, as far as the length of the file allows. */
    method WriteBytes(n: nat, buf: seq<byte>, addr: nat, off: nat) returns (count: nat)
      requires Valid() && n in inodes
      modifies `disk
      ensures Valid() && n in files && |disk| == |old(disk)|
      ensures count == Writable(inodes[n].len, off, |buf|) <= |buf|
      ensures Patched(old(disk), disk, files[n], off, buf[..count]) && OtherFilesKept(files, old(disk), files, disk, n)
    {
      hide Ownership, InodesOnDisk, InodesMatch, OtherFilesKept, SectorsFor, FreeMap.Valid, Patched, Fits, Writable;
      Unchanged(n);
      InodeSectorExists(n);
      var i := inodes[n];
      var disk';
      disk', count := WriteLoop(disk, i.start, i.len, files[n], buf, addr, off);
      PatchedKeepsOthers(files, disk, disk', freeMap.marked, n, off, buf[..count]);
      SamePatchedSize(disk, disk', files[n], off, buf[..count]);
      disk := disk';
    }

    // ---- Creating, opening, removing and closing ----

    /** Writes a new inode at sector n and zeroes its data sectors, all of them already allocated. */
    method CreateInode(n: nat, start: nat, len: nat)
      requires Valid() && len < U32 && start < U32 && (SectorsFor(len) > 0 ==> start + SectorsFor(len) <= |disk|)
      requires Unowned(files, freeMap.marked, |disk|, n, 1) && !(start <= n < start + SectorsFor(len))
      requires Unowned(files, freeMap.marked, |disk|, start, SectorsFor(len))
      modifies this
      ensures Valid() && n !in old(files)
      ensures files == old(files)[n := Extent(start, len, SectorsFor(len))]
      ensures inodes == old(inodes)[n := Inode(start, len, 0, false, 0)]
      ensures OtherFilesKept(old(files), old(disk), files, disk, n)
      ensures Fits(files[n], |disk|) && Content(disk, files[n]) == seq(len, _ => 0)
    {
      hide Ownership, InodesOnDisk, InodesMatch, OtherFilesKept, SectorsFor, FreeMap.Valid, Content, WordAt;
      UnownedExists(files, freeMap.marked, |disk|, n);
      var cnt := SectorsFor(len);
      InodeRoundTrip(start, len);
      disk := disk[n := InodeSector(start, len)];
      ZeroSectors(start, cnt);
      ghost var e := Extent(start, len, cnt);
      AddFile(files, old(disk), freeMap.marked, n, e, disk);
      ZeroContent(disk, e);
      InodeAdded(inodes, files, n, Inode(start, len, 0, false, 0));
      inodes := inodes[n := Inode(start, len, 0, false, 0)];
      files := files[n := e];
    }

    method ZeroSectors(start: nat, cnt: nat)
      requires cnt > 0 ==> start + cnt <= |disk|
      modifies `disk
      ensures OutsideSame(old(disk), disk, start, cnt)
      ensures forall s: nat :: start <= s < start + cnt ==> s < |disk| && disk[s] == ZeroSector()
    {
      var i := 0;
      while i < cnt
        invariant i <= cnt && OutsideSame(old(disk), disk, start, i)
        invariant forall s: nat :: start <= s < start + i ==> s < |disk| && disk[s] == ZeroSector()
      {
        disk := disk[start + i := ZeroSector()];
        i := i + 1;
      }
    }

    /** The new-file path of `create`: an inode sector from the free map and no data yet. */
    method CreateFile() returns (r: Option<nat>)
      requires Valid()
      modifies this, freeMap, freeMap.bits
      ensures Valid()
      ensures r == None <==> NoRun(old(freeMap.marked), |disk|, 1)
      ensures r == None ==> NothingChanged()
      ensures r.Some? ==>
                && FirstRun(old(freeMap.marked), |old(disk)|, 1, r.value) && r.value !in old(files)
                && freeMap.marked == old(freeMap.marked) + {r.value}
                && files == old(files)[r.value := Extent(0, 0, 0)]
                && inodes == old(inodes)[r.value := Inode(0, 0, 0, false, 0)]
                && |disk| == |old(disk)| && OtherFilesKept(old(files), old(disk), files, disk, r.value)
    {
      var sector := freeMap.Alloc(1);
      if sector == None {
        return None;
      }
      var n := sector.value;
      assert Run(n, 1) == {n};
      FreshInode(files, old(freeMap.marked), |disk|, n);
      var start := freeMap.Alloc(0);
      assert SectorsFor(0) == 0;
      CreateInode(n, start.value, 0);
      r := sector;
    }

    /** Reads the inode at sector n into memory, unless the magic number is wrong. */
    method OpenInode(n: nat) returns (ok: bool)
      requires Valid() && n < |disk| && n !in inodes && (HasMagic(disk[n]) ==> n in files)
      modifies `inodes
      ensures Valid() && (ok <==> HasMagic(disk[n]))
      ensures inodes == if ok then old(inodes)[n := Inode(files[n].start, files[n].len, 0, false, 0)] else old(inodes)
    {
      ok := HasMagic(disk[n]);
      if ok {
        WordBound(disk[n], 0);
        WordBound(disk[n], 4);
        inodes := inodes[n := Inode(WordAt(disk[n], 0), WordAt(disk[n], 4), 0, false, 0)];
      }
    }

    /** Tags the file to be deleted when it is closed. */
    method MarkRemoved(n: nat)
      requires Valid() && n in inodes
      modifies `inodes
      ensures Valid() && inodes == old(inodes)[n := old(inodes)[n].(removed := true)]
    {
      inodes := inodes[n := inodes[n].(removed := true)];
    }

    /**
     The last reference to file n is dropped: the whole sectors of its shrunk tail are
     freed, and if it was removed the rest of the file as well. Of the tail one sector stays
     marked without an owner exactly in the case of `TailLost`.
     */
    method Close(n: nat)
      requires Valid() && n in inodes
      modifies this, freeMap, freeMap.bits
      ensures Valid() && disk == old(disk) && inodes == old(inodes) - {n}
      ensures OtherFilesKept(old(files), old(disk), files, disk, n) && n in old(files)
      ensures var i := old(inodes[n]);
              var kept, tail := SectorsFor(i.len), i.shrink / SECTOR_SIZE;
              && old(files)[n].cnt == kept + tail + (if LosesSector(i.len, i.shrink) then 1 else 0)
              && (!i.removed ==>
                    && files == old(files)[n := Extent(i.start, i.len, kept)]
                    && freeMap.marked == old(freeMap.marked) - Run(i.start + kept, tail)
                    && Fits(files[n], |disk|) && Fits(old(files)[n], |disk|)
                    && Content(disk, files[n]) == Content(disk, old(files)[n]))
              && (i.removed ==>
                    && files == old(files) - {n}
                    && freeMap.marked ==
                      old(freeMap.marked) - Run(i.start + kept, tail) - Run(i.start, kept) - Run(n, 1))
    {
      hide Ownership, InodesOnDisk, InodesMatch, OtherFilesKept, SectorsFor, FreeMap.Valid, Content, Run, RunMarked,
        Fits;
      Unchanged(n);
      var i := inodes[n];
      Trim(n);
      if i.removed {
        KeptWithout(n);
        OthersKeptTransitive(old(files), disk, files, disk, files - {n}, disk, n);
        Drop(n);
      } else {
        InodesClosed(inodes, files, n);
        inodes := inodes - {n};
      }
    }

    lemma KeptWithout(n: nat)
      requires Valid() && n in files
      ensures OtherFilesKept(files, disk, files - {n}, disk, n)
    {
      DropFile(files, disk, freeMap.marked, n);
    }

    /** The second half of `close` for a removed file: free its sectors and its inode sector. */
    method Drop(n: nat)
      requires Valid() && n in inodes && inodes[n].shrink == 0
      modifies `inodes, `files, freeMap, freeMap.bits
      ensures Valid() && inodes == old(inodes) - {n} && files == old(files) - {n}
      ensures var i := old(inodes[n]);
              freeMap.marked == old(freeMap.marked) - Run(i.start, SectorsFor(i.len)) - Run(n, 1)
    {
      hide Ownership, InodesOnDisk, InodesMatch, OtherFilesKept, SectorsFor, FreeMap.Valid, Run, RunMarked, Fits;
      Unchanged(n);
      var i := inodes[n];
      ghost var marked := freeMap.marked;
      OwnedFits(files, marked, |disk|, n);
      DropFile(files, disk, marked, n);
      FitsBound(files[n], |disk|);
      var ok;
      ghost var freed;
      ok, freed := freeMap.Dealloc(i.start, SectorsFor(i.len));
      FreedAll(marked, i.start, SectorsFor(i.len), freed);
      assert ok;
      ok, freed := freeMap.Dealloc(n, 1);
      FreedOne(marked - Run(i.start, SectorsFor(i.len)), n, freed);
      assert ok;
      InodesDropped(inodes, files, n);
      inodes, files := inodes - {n}, files - {n};
    }

    /** The first half of `close`: give back the whole sectors of the shrunk tail. */
    method Trim(n: nat)
      requires Valid() && n in inodes
      modifies `inodes, `files, freeMap, freeMap.bits
      ensures Valid() && n in old(files)
      ensures var i := old(inodes[n]);
              var kept, tail := SectorsFor(i.len), i.shrink / SECTOR_SIZE;
              && inodes == old(inodes)[n := i.(shrink := 0)] && files == old(files)[n := Extent(i.start, i.len, kept)]
              && old(files)[n].cnt == kept + tail + (if LosesSector(i.len, i.shrink) then 1 else 0)
              && freeMap.marked == old(freeMap.marked) - Run(i.start + kept, tail)
              && Fits(files[n], |disk|) && Fits(old(files)[n], |disk|)
              && Content(disk, files[n]) == Content(disk, old(files)[n])
      ensures OtherFilesKept(old(files), disk, files, disk, n)
    {
      hide Ownership, InodesOnDisk, InodesMatch, OtherFilesKept, SectorsFor, FreeMap.Valid, Content, Run, RunMarked,
        Fits;
      Unchanged(n);
      var i := inodes[n];
      var tail := i.shrink / SECTOR_SIZE;
      var sector := i.start + (i.len + SECTOR_SIZE - 1) / SECTOR_SIZE;
      ghost var e := Extent(i.start, i.len, SectorsFor(i.len));
      assert sector == i.start + SectorsFor(i.len) by { CeilingDivision(i.len); }
      TailBounds(i.len, i.shrink);
      TailLost(i.len, i.shrink);
      OwnedFits(files, freeMap.marked, |disk|, n);
      FitsBound(files[n], |disk|);
      TrimFile(files, disk, freeMap.marked, n, e, sector, tail);
      InodeUpdated(inodes, files, n, i.(shrink := 0));
      ghost var marked := freeMap.marked;
      ghost var freed := 0;
      var ok := true;
      if i.shrink > 0 {
        ok, freed := freeMap.Dealloc(sector, tail);
      }
      EmptyRun(marked, sector);
      FreedAll(marked, sector, tail, freed);
      assert ok;
      inodes := inodes[n := i.(shrink := 0)];
      files := files[n := e];
    }
  }
  /**
   On a disk of 4 sectors, a file is created at sector 0 and grown to one sector at sector 1.
   Growing it to 4 sectors in place runs past the end of the disk: the kernel halts.
   */
  method GrowthHaltsAtDiskEnd() returns (fs: DiskFs, n: nat, r: Outcome)
    ensures fresh(fs) && fs.Valid() && r == Halt
  {
    hide Ownership, InodesOnDisk, InodesMatch, OtherFilesKept, SameExcept, PrefixSame, FreeMap.Valid, OutOfSpace,
      PastDisk, StartsAt, Rebooked, FirstRun, NoRun;
    FirstGrowth();
    SecondGrowth();
    var freeMap := new FreeMap(4);
    fs := new DiskFs(seq(4, _ => ZeroSector()), freeMap);
    var c := fs.CreateFile();
    n := c.value;
    FirstRunIs({}, 4, 1, n, 0);
    assert fs.freeMap.marked == {0} && fs.inodes[n] == EMPTY_FILE && fs.files[n] == Extent(0, 0, 0);
    var grown := fs.Resize(n, 512);
    assert grown == Done;
    MovedToOne(fs.inodes[n].start);
    fs.Unchanged(n);
    MarksAfterMove(fs.files[n], fs.freeMap.marked);
    assert fs.inodes[n] == Inode(1, 512, 0, false, 0);
    r := fs.Resize(n, 2048);
  }

  lemma FirstRunIs(marked: set<nat>, size: nat, cnt: nat, start: nat, first: nat)
    requires FirstRun(marked, size, cnt, start) && FirstRun(marked, size, cnt, first)
    ensures start == first
  {
  }

  const EMPTY_FILE := Inode(0, 0, 0, false, 0)

  lemma FirstGrowth()
    ensures !NoRun({}, 4, 1) && FirstRun({}, 4, 1, 0)
    ensures !OutOfSpace({0}, 4, EMPTY_FILE, 512) && !PastDisk({0}, 4, EMPTY_FILE, 512)
  {
    assert RunFree({}, 0, 1) && RunFree({0}, 1, 1);
    assert SectorsFor(512) == 1 && SectorsFor(0) == 0;
    assert !RunFree({0}, 0, 1) by { assert 0 in {0}; }
  }

  lemma MovedToOne(start: nat)
    requires StartsAt({0}, 4, EMPTY_FILE, 512, start)
    ensures start == 1
  {
    assert SectorsFor(512) == 1 && SectorsFor(0) == 0;
    assert !RunFree({0}, 0, 1) by { assert 0 in {0}; }
    assert RunFree({0}, 1, 1);
  }

  lemma MarksAfterMove(e: Extent, marked: set<nat>)
    requires e.start == 1 && e.cnt == SectorsFor(512) && Rebooked({0}, Extent(0, 0, 0), e, marked)
    ensures marked == {0, 1}
  {
    assert Run(0, 0) == {} && Run(1, 1) == {1};
  }

  lemma SecondGrowth()
    ensures PastDisk({0, 1}, 4, Inode(1, 512, 0, false, 0), 2048)
  {
    assert SectorsFor(512) == 1 && SectorsFor(2048) == 4;
    assert RunFree({0, 1}, 2, 3);
  }
}
