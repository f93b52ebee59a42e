/**
 What is on the disk: 512-byte sectors, on-disk inodes, and contiguous file extents with
 their byte contents (src/fs/disk/inode.rs).
 */
module DiskLayout {
  import opened Bits
  import opened FreeMaps

  newtype byte = x: int | 0 <= x < 256

  const SECTOR_SIZE: nat := 512
  const INODE_MAGIC: nat := 0x494e4f44
  const U32: nat := 0x1_0000_0000

  type Sector = s: seq<byte> | |s| == SECTOR_SIZE witness seq(SECTOR_SIZE, _ => 0)

  function ZeroSector(): Sector {
    seq(SECTOR_SIZE, _ => 0)
  }

  /** `bytes_to_sectors`: how many sectors n bytes need. */
  function SectorsFor(n: nat): (c: nat)
    ensures n <= SECTOR_SIZE * c < n + SECTOR_SIZE
  {
    (n + SECTOR_SIZE - 1) / SECTOR_SIZE
  }

  lemma SectorsForMonotone(m: nat, n: nat)
    requires m <= n
    ensures SectorsFor(m) <= SectorsFor(n)
  {
  }

  // ---- On-disk inodes: start, length and magic number as little-endian words ----

  function Word(n: nat): (w: seq<byte>)
    requires n < U32
    ensures |w| == 4
  {
    [(n % 256) as byte, (n / 256 % 256) as byte, (n / 0x1_0000 % 256) as byte, (n / 0x100_0000) as byte]
  }

  function WordAt(s: Sector, i: nat): (n: nat)
    requires i + 4 <= SECTOR_SIZE
  {
    s[i] as nat + 256 * s[i + 1] as nat + 0x1_0000 * s[i + 2] as nat + 0x100_0000 * s[i + 3] as nat
  }

  lemma WordDigits(n: nat)
    requires n < U32
    ensures n == n % 256 + 256 * (n / 256 % 256) + 0x1_0000 * (n / 0x1_0000 % 256) + 0x100_0000 * (n / 0x100_0000)
  {
    var a, b, c := n / 256, n / 0x1_0000, n / 0x100_0000;
    assert a / 256 == b;
    assert b / 256 == c;
  }

  function InodeSector(start: nat, len: nat): Sector
    requires start < U32 && len < U32
  {
    Word(start) + Word(len) + Word(INODE_MAGIC) + seq(SECTOR_SIZE - 12, _ => 0)
  }

  predicate HasMagic(s: Sector) { WordAt(s, 8) == INODE_MAGIC }

  /** Reading back an inode sector gives what was written. */
  lemma InodeRoundTrip(start: nat, len: nat)
    requires start < U32 && len < U32
    ensures var s := InodeSector(start, len);
            WordAt(s, 0) == start && WordAt(s, 4) == len && HasMagic(s)
  {
    WordDigits(start);
    WordDigits(len);
    WordDigits(INODE_MAGIC);
  }

  // ---- Extents ----

  /** A file: its data sectors start, ..., start + cnt - 1, and its length in bytes. */
  datatype Extent = Extent(start: nat, len: nat, cnt: nat)

  predicate InExtent(e: Extent, s: nat) {
    e.start <= s < e.start + e.cnt
  }

  predicate Fits(e: Extent, size: nat) {
    e.len <= SECTOR_SIZE * e.cnt && (e.cnt > 0 ==> e.start + e.cnt <= size)
  }

  /** Byte k of the extent. */
  function Flat(disk: seq<Sector>, start: nat, k: nat): byte
    requires start + k / SECTOR_SIZE < |disk|
  {
    disk[start + k / SECTOR_SIZE][k % SECTOR_SIZE]
  }

  lemma FlatInside(e: Extent, size: nat, k: nat)
    requires Fits(e, size) && k < SECTOR_SIZE * e.cnt
    ensures e.start + k / SECTOR_SIZE < size && InExtent(e, e.start + k / SECTOR_SIZE)
  {
    assert k / SECTOR_SIZE < e.cnt;
  }

  /** An inode sector, byte by byte. */
  lemma InodeBytes(start: nat, len: nat)
    requires start < U32 && len < U32
    ensures var s := InodeSector(start, len);
            && s[0] as nat == start % 256 && s[1] as nat == start / 256 % 256
            && s[2] as nat == start / 0x1_0000 % 256 && s[3] as nat == start / 0x100_0000
            && s[4] as nat == len % 256 && s[5] as nat == len / 256 % 256
            && s[6] as nat == len / 0x1_0000 % 256 && s[7] as nat == len / 0x100_0000
            && s[8] == 0x44 && s[9] == 0x4f && s[10] == 0x4e && s[11] == 0x49
  {
  }

  /** The bytes of the file. */
  ghost function Content(disk: seq<Sector>, e: Extent): (c: seq<byte>)
    requires Fits(e, |disk|)
    ensures |c| == e.len
  {
    seq(e.len, k requires 0 <= k < e.len =>
      FlatInside(e, |disk|, k);
      Flat(disk, e.start, k))
  }

  /** A file's bytes depend on its own sectors only. */
  /** Byte r of the i-th sector of a file. */
  lemma ContentAt(disk: seq<Sector>, e: Extent, i: nat, r: nat)
    requires Fits(e, |disk|) && r < SECTOR_SIZE && SECTOR_SIZE * i + r < e.len
    ensures e.start + i < |disk| && Content(disk, e)[SECTOR_SIZE * i + r] == disk[e.start + i][r]
  {
    var k := SECTOR_SIZE * i + r;
    assert k / SECTOR_SIZE == i && k % SECTOR_SIZE == r;
    FlatInside(e, |disk|, k);
    assert Content(disk, e)[k] == Flat(disk, e.start, k);
  }

  lemma ContentFrame(disk: seq<Sector>, disk': seq<Sector>, e: Extent)
    requires Fits(e, |disk|) && |disk'| == |disk|
    requires forall s: nat :: InExtent(e, s) && s < |disk| ==> disk'[s] == disk[s]
    ensures Content(disk', e) == Content(disk, e)
  {
    forall k | 0 <= k < e.len ensures Content(disk', e)[k] == Content(disk, e)[k] {
      FlatInside(e, |disk|, k);
    }
  }

  /** `data` written over a sector from offset `at` on. */
  function Splice(s: Sector, at: nat, data: seq<byte>): Sector
    requires at + |data| <= SECTOR_SIZE
  {
    s[..at] + data + s[at + |data|..]
  }

  /** Splicing inside one sector changes exactly those bytes of the extent. */
  lemma {:induction false} SpliceFlat(disk: seq<Sector>, start: nat, off: nat, data: seq<byte>, k: nat)
    requires off % SECTOR_SIZE + |data| <= SECTOR_SIZE
    requires start + off / SECTOR_SIZE < |disk| && start + k / SECTOR_SIZE < |disk|
    ensures var n := start + off / SECTOR_SIZE;
            Flat(disk[n := Splice(disk[n], off % SECTOR_SIZE, data)], start, k)
            == if off <= k < off + |data| then data[k - off] else Flat(disk, start, k)
  {
    var at := off % SECTOR_SIZE;
    if k / SECTOR_SIZE == off / SECTOR_SIZE {
      assert k - off == k % SECTOR_SIZE - at;
    } else {
      DifferentSectors(off, k, |data|);
    }
  }

  lemma DifferentSectors(off: nat, k: nat, n: nat)
    requires off % SECTOR_SIZE + n <= SECTOR_SIZE && k / SECTOR_SIZE != off / SECTOR_SIZE
    ensures !(off <= k < off + n)
  {
  }

  // ---- Who owns which sector ----

  /**
   Inode sectors and extents of all files exist, are in use in the free map, and are
   pairwise disjoint.
   */
  ghost predicate Ownership(files: map<nat, Extent>, marked: set<nat>, size: nat) {
    && (forall n :: n in files ==> n < size && n in marked && Fits(files[n], size))
    && (forall n, s :: n in files && InExtent(files[n], s) ==> s in marked && s !in files)
    && (forall n, m, s :: n in files && m in files && InExtent(files[n], s) && InExtent(files[m], s) ==> n == m)
  }

  /** The on-disk inode of every file says where the file is. */
  ghost predicate InodesOnDisk(files: map<nat, Extent>, disk: seq<Sector>) {
    forall n :: n in files ==>
      && n < |disk| && HasMagic(disk[n])
      && WordAt(disk[n], 0) == files[n].start && WordAt(disk[n], 4) == files[n].len
  }

  /** Every file but n keeps its extent and its bytes. */
  ghost predicate OtherFilesKept(files: map<nat, Extent>, disk: seq<Sector>, files': map<nat, Extent>,
                                 disk': seq<Sector>, n: nat) {
    forall m :: m in files && m != n ==>
      m in files' && files'[m] == files[m] && Fits(files[m], |disk|) && Fits(files[m], |disk'|)
      && Content(disk', files[m]) == Content(disk, files[m])
  }

  /** The sectors that changed are free ones or belong to file n. */
  ghost predicate OnlyTouches(disk: seq<Sector>, disk': seq<Sector>, files: map<nat, Extent>, n: nat) {
    && |disk'| == |disk|
    && forall m, s: nat :: m in files && m != n && s < |disk| && (s == m || InExtent(files[m], s)) ==>
      disk'[s] == disk[s]
  }

  lemma {:induction false} TouchingKeepsOthers(files: map<nat, Extent>, disk: seq<Sector>, files': map<nat, Extent>,
                                               disk': seq<Sector>,
                                               marked: set<nat>, n: nat)
    requires Ownership(files, marked, |disk|) && OnlyTouches(disk, disk', files, n)
    requires forall m :: m in files && m != n ==> m in files' && files'[m] == files[m]
    ensures OtherFilesKept(files, disk, files', disk', n)
  {
    forall m | m in files && m != n ensures Content(disk', files[m]) == Content(disk, files[m]) {
      ContentFrame(disk, disk', files[m]);
    }
  }

  /** File n may take over any extent made of its own old sectors and of free ones. */
  lemma {:induction false} Reextent(files: map<nat, Extent>, marked: set<nat>, size: nat, n: nat, e: Extent,
                                    marked': set<nat>)
    requires Ownership(files, marked, size) && n in files && Fits(e, size)
    requires forall s: nat :: InExtent(e, s) ==> s in marked' && (InExtent(files[n], s) || s !in marked)
    requires forall s :: s in marked && !InExtent(files[n], s) ==> s in marked'
    ensures Ownership(files[n := e], marked', size)
  {
    var files' := files[n := e];
    forall m, s | m in files' && InExtent(files'[m], s) ensures s in marked' && s !in files' {
      if m != n {
        assert InExtent(files[m], s);
      }
    }
    forall m, k, s | m in files' && k in files' && InExtent(files'[m], s) && InExtent(files'[k], s) ensures m == k {
    }
  }

  /** The c sectors at `from` of one disk are the c sectors at `to` of the other. */
  ghost predicate Copied(disk: seq<Sector>, from: nat, disk': seq<Sector>, to: nat, c: nat) {
    c > 0 ==> from + c <= |disk| && to + c <= |disk'|
              && forall s: nat :: from <= s < from + c ==> disk'[to + (s - from)] == disk[s]
  }

  /** The disks agree outside the c sectors from `to` on. */
  ghost predicate OutsideSame(disk: seq<Sector>, disk': seq<Sector>, to: nat, c: nat) {
    |disk'| == |disk| && forall s: nat :: s < |disk| && !(to <= s < to + c) ==> disk'[s] == disk[s]
  }

  lemma {:induction false} CopyOneMore(disk: seq<Sector>, from: nat, disk': seq<Sector>, to: nat, c: nat)
    requires |disk'| == |disk| && from + c < |disk| && to + c < |disk| && (from + c < to || to + c < from)
    requires Copied(disk, from, disk', to, c)
    ensures Copied(disk, from, disk'[to + c := disk[from + c]], to, c + 1)
  {
    var d := disk'[to + c := disk[from + c]];
    forall s: nat | from <= s < from + c + 1 ensures d[to + (s - from)] == disk[s] {
      if s < from + c {
        assert disk'[to + (s - from)] == disk[s];
      }
    }
  }

  /** A file that keeps its first sector numbers keeps the bytes in unchanged sectors. */
  lemma {:induction false} PrefixKept(disk: seq<Sector>, e: Extent, disk': seq<Sector>, e': Extent, c: nat)
    requires Fits(e, |disk|) && Fits(e', |disk'|)
    requires c <= e.cnt && c <= e'.cnt && Min(e.len, e'.len) <= SECTOR_SIZE * c
    requires Copied(disk, e.start, disk', e'.start, c)
    ensures var m := Min(e.len, e'.len);
            Content(disk', e')[..m] == Content(disk, e)[..m]
  {
    var m := Min(e.len, e'.len);
    forall k | 0 <= k < m ensures Content(disk', e')[k] == Content(disk, e)[k] {
      FlatInside(e, |disk|, k);
      FlatInside(e', |disk'|, k);
      assert k / SECTOR_SIZE < c;
      assert disk'[e'.start + (e.start + k / SECTOR_SIZE - e.start)] == disk[e.start + k / SECTOR_SIZE];
    }
  }

  /** As far as both reach, the two versions of a file have the same bytes. */
  ghost predicate PrefixSame(disk: seq<Sector>, e: Extent, disk': seq<Sector>, e': Extent) {
    && Fits(e, |disk|) && Fits(e', |disk'|)
    && var m := Min(e.len, e'.len); Content(disk', e')[..m] == Content(disk, e)[..m]
  }

  /** Only the inode sector of n and formerly free sectors of its new extent changed. */
  ghost predicate TouchesOwn(disk: seq<Sector>, disk': seq<Sector>, marked: set<nat>, n: nat, e: Extent) {
    && |disk'| == |disk|
    && forall s: nat :: s < |disk| && s != n && !(InExtent(e, s) && s !in marked) ==> disk'[s] == disk[s]
  }

  ghost predicate InodeSays(s: Sector, e: Extent) {
    HasMagic(s) && WordAt(s, 0) == e.start && WordAt(s, 4) == e.len
  }

  /** Giving file n a new extent: nobody loses a sector, a byte or an inode. */
  lemma {:induction false} NewExtent(files: map<nat, Extent>, disk: seq<Sector>, marked: set<nat>,
                                     n: nat, e: Extent, disk': seq<Sector>, marked': set<nat>, c: nat)
    requires Ownership(files, marked, |disk|) && InodesOnDisk(files, disk) && n in files && Fits(e, |disk|)
    requires forall s: nat :: InExtent(e, s) ==> s in marked' && (InExtent(files[n], s) || s !in marked)
    requires forall s :: s in marked && !InExtent(files[n], s) ==> s in marked'
    requires TouchesOwn(disk, disk', marked, n, e) && InodeSays(disk'[n], e)
    requires c <= files[n].cnt && c <= e.cnt && Min(files[n].len, e.len) <= SECTOR_SIZE * c
    requires Copied(disk, files[n].start, disk', e.start, c)
    ensures Ownership(files[n := e], marked', |disk'|) && InodesOnDisk(files[n := e], disk')
    ensures OtherFilesKept(files, disk, files[n := e], disk', n)
    ensures PrefixSame(disk, files[n], disk', e)
  {
    hide SectorsFor, WordAt, HasMagic, Content;
    Reextent(files, marked, |disk|, n, e, marked');
    PrefixKept(disk, files[n], disk', e, c);
    assert OnlyTouches(disk, disk', files, n);
    TouchingKeepsOthers(files, disk, files[n := e], disk', marked, n);
    forall m | m in files && m != n ensures disk'[m] == disk[m] {
      assert m in marked;
    }
  }

  /** The sectors of a fresh run are not among those of an owned extent. */
  lemma {:induction false} FreshRunApart(files: map<nat, Extent>, marked: set<nat>, size: nat, n: nat, start: nat,
                                         cnt: nat)
    requires Ownership(files, marked, size) && n in files && RunFree(marked, start, cnt)
    ensures files[n].cnt == 0 || cnt == 0 || files[n].start + files[n].cnt <= start || start + cnt <= files[n].start
  {
    var e := files[n];
    var s := Max(e.start, start);
    assert InExtent(e, s) ==> s in marked;
  }

  lemma OwnedFits(files: map<nat, Extent>, marked: set<nat>, size: nat, n: nat)
    requires Ownership(files, marked, size) && n in files
    ensures n < size && Fits(files[n], size)
  {
  }

  lemma OwnedIsMarked(files: map<nat, Extent>, marked: set<nat>, size: nat, n: nat, s: nat)
    requires Ownership(files, marked, size) && n in files
    ensures InExtent(files[n], s) ==> s in marked
  {
  }

  /** No sector is leaked or freed twice: exactly the old extent's marks gave way to the new one's. */
  ghost predicate Rebooked(marked: set<nat>, o: Extent, e: Extent, marked': set<nat>) {
    marked' == marked - Run(o.start, o.cnt) + Run(e.start, e.cnt)
  }

  lemma ExtentMarked(files: map<nat, Extent>, marked: set<nat>, size: nat, n: nat)
    requires Ownership(files, marked, size) && n in files
    ensures Run(files[n].start, files[n].cnt) <= marked
  {
    forall s | s in Run(files[n].start, files[n].cnt) ensures s in marked {
      OwnedIsMarked(files, marked, size, n, s);
    }
  }

  lemma RebookedSame(files: map<nat, Extent>, marked: set<nat>, size: nat, n: nat, e: Extent)
    requires Ownership(files, marked, size) && n in files && e.start == files[n].start && e.cnt == files[n].cnt
    ensures Rebooked(marked, files[n], e, marked)
  {
    ExtentMarked(files, marked, size, n);
  }

  lemma RebookedGrown(files: map<nat, Extent>, marked: set<nat>, size: nat, n: nat, e: Extent)
    requires Ownership(files, marked, size) && n in files && e.start == files[n].start && e.cnt >= files[n].cnt
    ensures Rebooked(marked, files[n], e, marked + Run(e.start + files[n].cnt, e.cnt - files[n].cnt))
  {
    var o := files[n];
    ExtentMarked(files, marked, size, n);
    hide Ownership;
    assert Run(e.start, e.cnt) == Run(o.start, o.cnt) + Run(e.start + o.cnt, e.cnt - o.cnt);
  }

  lemma RebookedMoved(files: map<nat, Extent>, marked: set<nat>, size: nat, n: nat, e: Extent, freed: nat)
    requires Ownership(files, marked, size) && n in files && RunFree(marked, e.start, e.cnt) && freed <= files[n].cnt
    requires freed < files[n].cnt ==> files[n].start + freed !in marked + Run(e.start, e.cnt)
    ensures Rebooked(marked, files[n], e, marked + Run(e.start, e.cnt) - Run(files[n].start, freed))
  {
    var o := files[n];
    ExtentMarked(files, marked, size, n);
    RelocationMarks(files, marked, size, n, e, freed);
    hide Ownership;
    assert Run(o.start, o.cnt) !! Run(e.start, e.cnt);
  }

  /** Taking a fresh run and giving back the old extent. */
  lemma {:induction false} RelocationMarks(files: map<nat, Extent>, marked: set<nat>, size: nat, n: nat, e: Extent,
                                           freed: nat)
    requires Ownership(files, marked, size) && n in files && RunFree(marked, e.start, e.cnt)
    requires freed <= files[n].cnt
    requires freed < files[n].cnt ==> files[n].start + freed !in marked + Run(e.start, e.cnt)
    ensures freed == files[n].cnt
    ensures var marked' := marked + Run(e.start, e.cnt) - Run(files[n].start, freed);
            && (forall s: nat :: InExtent(e, s) ==> s in marked' && (InExtent(files[n], s) || s !in marked))
            && (forall s :: s in marked && !InExtent(files[n], s) ==> s in marked')
  {
    var o := files[n];
    OwnedIsMarked(files, marked, size, n, o.start + freed);
    FreshRunApart(files, marked, size, n, e.start, e.cnt);
  }

  lemma {:induction false} GrowthMarks(files: map<nat, Extent>, marked: set<nat>, size: nat, n: nat, e: Extent)
    requires Ownership(files, marked, size) && n in files && e.start == files[n].start && files[n].cnt <= e.cnt
    requires RunFree(marked, e.start + files[n].cnt, e.cnt - files[n].cnt)
    ensures var marked' := marked + Run(e.start + files[n].cnt, e.cnt - files[n].cnt);
            && (forall s: nat :: InExtent(e, s) ==> s in marked' && (InExtent(files[n], s) || s !in marked))
            && (forall s :: s in marked && !InExtent(files[n], s) ==> s in marked')
  {
    forall s: nat | InExtent(e, s) && !InExtent(files[n], s) ensures s !in marked {
    }
  }

  ghost predicate OnlySector(disk: seq<Sector>, disk': seq<Sector>, n: nat) {
    |disk'| == |disk| && forall s: nat :: s < |disk| && s != n ==> disk'[s] == disk[s]
  }

  lemma {:induction false} OwnSectorApart(files: map<nat, Extent>, disk: seq<Sector>, marked: set<nat>, n: nat,
                                          disk': seq<Sector>, c: nat)
    requires Ownership(files, marked, |disk|) && n in files && OnlySector(disk, disk', n) && c <= files[n].cnt
    ensures Copied(disk, files[n].start, disk', files[n].start, c) && n < |disk| && Fits(files[n], |disk|)
  {
    assert forall s :: InExtent(files[n], s) ==> s != n;
  }

  /** Rewriting the inode of n with a length that fits its extent. */
  lemma {:induction false} SameExtent(files: map<nat, Extent>, disk: seq<Sector>, marked: set<nat>, n: nat, e: Extent,
                                      disk': seq<Sector>)
    requires Ownership(files, marked, |disk|) && InodesOnDisk(files, disk) && n in files
    requires e.start == files[n].start && e.cnt == files[n].cnt && e.len <= SECTOR_SIZE * e.cnt
    requires OnlySector(disk, disk', n) && n < |disk'| && InodeSays(disk'[n], e)
    ensures Ownership(files[n := e], marked, |disk'|) && InodesOnDisk(files[n := e], disk')
    ensures OtherFilesKept(files, disk, files[n := e], disk', n) && PrefixSame(disk, files[n], disk', e)
  {
    OwnSectorApart(files, disk, marked, n, disk', e.cnt);
    NewExtent(files, disk, marked, n, e, disk', marked, e.cnt);
  }

  /** The extent of n has grown into free sectors right behind it. */
  lemma {:induction false} GrownExtent(files: map<nat, Extent>, disk: seq<Sector>, marked: set<nat>, n: nat,
                                       e: Extent, disk': seq<Sector>)
    requires Ownership(files, marked, |disk|) && InodesOnDisk(files, disk) && n in files && Fits(e, |disk|)
    requires e.start == files[n].start && files[n].cnt <= e.cnt
    requires RunFree(marked, e.start + files[n].cnt, e.cnt - files[n].cnt)
    requires OnlySector(disk, disk', n) && n < |disk'| && InodeSays(disk'[n], e)
    ensures var marked' := marked + Run(e.start + files[n].cnt, e.cnt - files[n].cnt);
            Ownership(files[n := e], marked', |disk'|) && InodesOnDisk(files[n := e], disk')
    ensures OtherFilesKept(files, disk, files[n := e], disk', n) && PrefixSame(disk, files[n], disk', e)
  {
    OwnSectorApart(files, disk, marked, n, disk', files[n].cnt);
    GrowthMarks(files, marked, |disk|, n, e);
    NewExtent(files, disk, marked, n, e, disk', marked + Run(e.start + files[n].cnt, e.cnt - files[n].cnt),
      files[n].cnt);
  }

  /** The sectors of n have been copied to a fresh extent and its inode rewritten. */
  lemma {:induction false} MovedExtent(files: map<nat, Extent>, disk: seq<Sector>, marked: set<nat>, n: nat, e: Extent,
                                       copied: seq<Sector>, disk': seq<Sector>, freed: nat)
    requires Ownership(files, marked, |disk|) && InodesOnDisk(files, disk) && n in files && Fits(e, |disk|)
    requires files[n].cnt <= e.cnt && RunFree(marked, e.start, e.cnt)
    requires freed <= files[n].cnt
    requires freed < files[n].cnt ==> files[n].start + freed !in marked + Run(e.start, e.cnt)
    requires Copied(disk, files[n].start, copied, e.start, files[n].cnt)
    requires OutsideSame(disk, copied, e.start, files[n].cnt)
    requires OnlySector(copied, disk', n) && n < |disk'| && InodeSays(disk'[n], e)
    ensures var marked' := marked + Run(e.start, e.cnt) - Run(files[n].start, freed);
            Ownership(files[n := e], marked', |disk'|) && InodesOnDisk(files[n := e], disk')
    ensures OtherFilesKept(files, disk, files[n := e], disk', n) && PrefixSame(disk, files[n], disk', e)
  {
    RelocationMarks(files, marked, |disk|, n, e, freed);
    var o := files[n];
    assert n in marked && !InExtent(e, n);
    assert Copied(disk, o.start, disk', e.start, o.cnt) by {
      forall s: nat | o.start <= s < o.start + o.cnt ensures o.cnt > 0 ==> disk'[e.start + (s - o.start)] == disk[s] {
        assert InExtent(e, e.start + (s - o.start));
      }
    }
    assert TouchesOwn(disk, disk', marked, n, e);
    NewExtent(files, disk, marked, n, e, disk', marked + Run(e.start, e.cnt) - Run(o.start, freed), o.cnt);
  }

  // ---- Reading and writing in chunks ----

  /** A chunk that stays within one sector is a slice of that sector. */
  lemma {:induction false} ChunkOfContent(disk: seq<Sector>, e: Extent, off: nat, n: nat)
    requires Fits(e, |disk|) && off + n <= e.len && off % SECTOR_SIZE + n <= SECTOR_SIZE && n > 0
    ensures e.start + off / SECTOR_SIZE < |disk|
    ensures var at := off % SECTOR_SIZE;
            Content(disk, e)[off..off + n] == disk[e.start + off / SECTOR_SIZE][at..at + n]
  {
    FlatInside(e, |disk|, off);
    forall k: nat | off <= k < off + n
      ensures Content(disk, e)[k] == disk[e.start + off / SECTOR_SIZE][off % SECTOR_SIZE + (k - off)]
    {
      FlatInside(e, |disk|, k);
      assert k / SECTOR_SIZE == off / SECTOR_SIZE && k % SECTOR_SIZE == off % SECTOR_SIZE + (k - off);
    }
  }

  /** `disk'` is `disk` with `data` written from byte `off` of the extent on. */
  ghost predicate Patched(disk: seq<Sector>, disk': seq<Sector>, e: Extent, off: nat, data: seq<byte>) {
    && |disk'| == |disk|
    && (forall s: nat :: s < |disk| && !InExtent(e, s) ==> disk'[s] == disk[s])
    && (forall k: nat :: k < SECTOR_SIZE * e.cnt && e.start + k / SECTOR_SIZE < |disk| ==>
          Flat(disk', e.start, k) == if off <= k < off + |data| then data[k - off] else Flat(disk, e.start, k))
  }

  /** Writing the next chunk into its sector extends the patch. */
  lemma {:induction false} PatchMore(disk: seq<Sector>, disk': seq<Sector>, e: Extent, off: nat, data: seq<byte>,
                                     chunk: seq<byte>)
    requires Fits(e, |disk|) && Patched(disk, disk', e, off, data) && chunk != []
    requires (off + |data|) % SECTOR_SIZE + |chunk| <= SECTOR_SIZE && off + |data| + |chunk| <= SECTOR_SIZE * e.cnt
    ensures e.start + (off + |data|) / SECTOR_SIZE < |disk'|
    ensures var at := off + |data|;
            var n := e.start + at / SECTOR_SIZE;
            Patched(disk, disk'[n := Splice(disk'[n], at % SECTOR_SIZE, chunk)], e, off, data + chunk)
  {
    var at := off + |data|;
    FlatInside(e, |disk|, at);
    var n := e.start + at / SECTOR_SIZE;
    var disk'' := disk'[n := Splice(disk'[n], at % SECTOR_SIZE, chunk)];
    forall k: nat | k < SECTOR_SIZE * e.cnt && e.start + k / SECTOR_SIZE < |disk|
      ensures Flat(disk'', e.start, k) ==
                if off <= k < off + |data + chunk| then (data + chunk)[k - off] else Flat(disk, e.start, k)
    {
      SpliceFlat(disk', e.start, at, chunk, k);
    }
  }

  /** The content with `data` in place of what was at `off`. */
  /** A patch of the extent is a patch of the file's bytes. */
  lemma {:induction false} PatchedContent(disk: seq<Sector>, disk': seq<Sector>, e: Extent, off: nat, data: seq<byte>)
    requires Fits(e, |disk|) && Patched(disk, disk', e, off, data)
    ensures Fits(e, |disk'|)
    ensures forall k :: 0 <= k < e.len ==>
              Content(disk', e)[k] == if off <= k < off + |data| then data[k - off] else Content(disk, e)[k]
  {
    forall k: nat | k < e.len
      ensures Content(disk', e)[k] == if off <= k < off + |data| then data[k - off] else Content(disk, e)[k]
    {
      FlatInside(e, |disk|, k);
      assert Content(disk', e)[k] == Flat(disk', e.start, k) && Content(disk, e)[k] == Flat(disk, e.start, k);
    }
  }

  /** A patch of file n leaves all inodes and all other files alone. */
  lemma {:induction false} PatchedKeepsOthers(files: map<nat, Extent>, disk: seq<Sector>, disk': seq<Sector>,
                                              marked: set<nat>,
                                              n: nat, off: nat, data: seq<byte>)
    requires Ownership(files, marked, |disk|) && InodesOnDisk(files, disk) && n in files
    requires Patched(disk, disk', files[n], off, data)
    ensures Ownership(files, marked, |disk'|) && InodesOnDisk(files, disk')
    ensures OtherFilesKept(files, disk, files, disk', n)
  {
    forall m | m in files ensures disk'[m] == disk[m] {
      assert !InExtent(files[n], m);
    }
    forall m, s: nat | m in files && m != n && s < |disk| && (s == m || InExtent(files[m], s))
      ensures disk'[s] == disk[s]
    {
      assert !InExtent(files[n], s);
    }
    assert OnlyTouches(disk, disk', files, n);
    TouchingKeepsOthers(files, disk, files, disk', marked, n);
  }

  lemma {:induction false} OthersKeptTransitive(f: map<nat, Extent>, d: seq<Sector>, f': map<nat, Extent>,
                                                d': seq<Sector>,
                                                f'': map<nat, Extent>, d'': seq<Sector>, n: nat)
    requires OtherFilesKept(f, d, f', d', n) && OtherFilesKept(f', d', f'', d'', n)
    ensures OtherFilesKept(f, d, f'', d'', n)
  {
  }

  // ---- Creating, closing and removing files ----

  /** Sector s is the inode sector or a data sector of some file. */
  ghost predicate SectorOwned(files: map<nat, Extent>, s: nat) {
    s in files || exists m :: m in files && InExtent(files[m], s)
  }

  /** Sectors in use that belong to no file. */
  ghost predicate Unowned(files: map<nat, Extent>, marked: set<nat>, size: nat, start: nat, cnt: nat) {
    forall s: nat :: InRun(start, cnt, s) ==> s < size && s in marked && !SectorOwned(files, s)
  }

  lemma {:induction false} AddOwner(files: map<nat, Extent>, marked: set<nat>, size: nat, n: nat, e: Extent)
    requires Ownership(files, marked, size) && Fits(e, size)
    requires Unowned(files, marked, size, n, 1) && Unowned(files, marked, size, e.start, e.cnt) && !InExtent(e, n)
    ensures Ownership(files[n := e], marked, size) && n !in files
  {
    var files' := files[n := e];
    assert InRun(n, 1, n);
    assert !SectorOwned(files, n);
    forall s: nat | InExtent(e, s) ensures !SectorOwned(files, s) && s in marked {
      assert InRun(e.start, e.cnt, s);
    }
    forall m, s | m in files' && InExtent(files'[m], s) ensures s in marked && s !in files' {
      assert m != n ==> SectorOwned(files, s);
    }
    forall m, k, s | m in files' && k in files' && InExtent(files'[m], s) && InExtent(files'[k], s) ensures m == k {
      assert m != n ==> SectorOwned(files, s);
      assert k != n ==> SectorOwned(files, s);
    }
  }

  lemma {:induction false} AddFile(files: map<nat, Extent>, disk: seq<Sector>, marked: set<nat>, n: nat, e: Extent,
                                   disk': seq<Sector>)
    requires Ownership(files, marked, |disk|) && InodesOnDisk(files, disk) && Fits(e, |disk|)
    requires Unowned(files, marked, |disk|, n, 1) && Unowned(files, marked, |disk|, e.start, e.cnt) && !InExtent(e, n)
    requires |disk'| == |disk| && n < |disk| && InodeSays(disk'[n], e)
    requires forall s: nat :: s < |disk| && s != n && !InExtent(e, s) ==> disk'[s] == disk[s]
    ensures Ownership(files[n := e], marked, |disk'|) && InodesOnDisk(files[n := e], disk')
    ensures OtherFilesKept(files, disk, files[n := e], disk', n) && n !in files
  {
    hide Content, Ownership, WordAt;
    AddOwner(files, marked, |disk|, n, e);
    forall s: nat | s < |disk| && SectorOwned(files, s) ensures disk'[s] == disk[s] {
    }
    forall m, s: nat | m in files && m != n && s < |disk| && (s == m || InExtent(files[m], s))
      ensures disk'[s] == disk[s]
    {
      assert SectorOwned(files, s);
    }
    assert OnlyTouches(disk, disk', files, n);
    TouchingKeepsOthers(files, disk, files[n := e], disk', marked, n);
    forall m | m in files ensures disk'[m] == disk[m] {
      assert SectorOwned(files, m);
    }
  }

  /** How many whole sectors of a lazily shrunk tail can be given back: all but at most one. */
  lemma {:induction false} TailBounds(len: nat, shrink: nat)
    ensures var freed := SectorsFor(len) + shrink / SECTOR_SIZE;
            freed <= SectorsFor(len + shrink) <= freed + 1
  {
  }

  /**
   A sector of the tail stays marked without an owner exactly when the bytes left in the
   last kept sector are fewer than the bytes beyond the tail's whole sectors.
   */
  lemma {:induction false} TailLost(len: nat, shrink: nat)
    ensures SectorsFor(len) + shrink / SECTOR_SIZE < SectorsFor(len + shrink)
            <==> (SECTOR_SIZE - len % SECTOR_SIZE) % SECTOR_SIZE < shrink % SECTOR_SIZE
  {
  }

  /** A file of 513 bytes that is shrunk to 512 loses its second sector when it is closed. */
  lemma SectorLost()
    ensures SectorsFor(512) + 1 / SECTOR_SIZE == 1 && SectorsFor(512 + 1) == 2
  {
  }

  /** Giving back sectors of n's own extent behind its kept part. */
  lemma {:induction false} TrimFile(files: map<nat, Extent>, disk: seq<Sector>, marked: set<nat>, n: nat, e: Extent,
                                    from: nat, cnt: nat)
    requires Ownership(files, marked, |disk|) && InodesOnDisk(files, disk) && n in files
    requires e.start == files[n].start && e.len == files[n].len && e.len <= SECTOR_SIZE * e.cnt
    requires e.cnt <= files[n].cnt && e.start + e.cnt <= from && from + cnt <= e.start + files[n].cnt
    ensures RunMarked(marked, from, cnt)
    ensures Ownership(files[n := e], marked - Run(from, cnt), |disk|) && InodesOnDisk(files[n := e], disk)
    ensures OtherFilesKept(files, disk, files[n := e], disk, n) && Fits(files[n], |disk|) && Fits(e, |disk|)
    ensures Content(disk, e) == Content(disk, files[n])
  {
    hide Content;
    assert forall s: nat :: from <= s < from + cnt ==> InExtent(files[n], s);
    Reextent(files, marked, |disk|, n, e, marked - Run(from, cnt));
    TouchingKeepsOthers(files, disk, files[n := e], disk, marked, n);
    SameContent(disk, e, files[n]);
  }

  lemma SameContent(disk: seq<Sector>, e: Extent, o: Extent)
    requires Fits(e, |disk|) && Fits(o, |disk|) && e.start == o.start && e.len == o.len
    ensures Content(disk, e) == Content(disk, o)
  {
  }

  lemma {:induction false} DropFile(files: map<nat, Extent>, disk: seq<Sector>, marked: set<nat>, n: nat)
    requires Ownership(files, marked, |disk|) && InodesOnDisk(files, disk) && n in files
    ensures RunMarked(marked, files[n].start, files[n].cnt) && n in marked - Run(files[n].start, files[n].cnt)
    ensures var marked' := marked - Run(files[n].start, files[n].cnt) - Run(n, 1);
            Ownership(files - {n}, marked', |disk|) && InodesOnDisk(files - {n}, disk)
    ensures OtherFilesKept(files, disk, files - {n}, disk, n)
  {
    var e, files' := files[n], files - {n};
    assert forall s: nat :: e.start <= s < e.start + e.cnt ==> InExtent(e, s);
    var marked' := marked - Run(e.start, e.cnt) - Run(n, 1);
    forall m | m in files' ensures m in marked' {
      assert !InExtent(e, m);
    }
    TouchingKeepsOthers(files, disk, files', disk, marked, n);
  }
}
