/** Writing a volume back, mounting it again, and making a new one. */
module SfsMount {
  import opened Words
  import opened BitOps
  import opened SfsLayout
  import opened SfsState
  import opened SfsVnode
  import opened SfsDir
  import opened SfsOps

  // ---- Packing bits ------------------------------------------------------

  /** Block j of the bitmap. */
  function MapBlockOf(used: Bits, j: nat): Block
    requires (j + 1) * BLOCKBITS <= |used|
  {
    seq(BLOCKSIZE, o requires 0 <= o < BLOCKSIZE => PackByte(used[BLOCKBITS * j + 8 * o..BLOCKBITS * j + 8 * o + 8]))
  }

  lemma MapBlockBit(used: Bits, b: nat)
    requires b < |used| && |used| % BLOCKBITS == 0
    ensures (b / BLOCKBITS + 1) * BLOCKBITS <= |used|
    ensures BitOf(MapBlockOf(used, b / BLOCKBITS)[b % BLOCKBITS / 8], b % 8) <==> used[b]
  {
    var j := b / BLOCKBITS;
    var o := b % BLOCKBITS / 8;
    MapBlockFits(|used|, b);
    var s := used[BLOCKBITS * j + 8 * o..BLOCKBITS * j + 8 * o + 8];
    assert BLOCKBITS * j + 8 * o + b % 8 == b;
    assert s[b % 8] == used[b];
    PackBit(s, b % 8);
  }

  lemma MapBlockFits(n: nat, b: nat)
    requires b < n && n % BLOCKBITS == 0
    ensures (b / BLOCKBITS + 1) * BLOCKBITS <= n
  {
    var q := n / BLOCKBITS;
    assert n == q * BLOCKBITS;
    assert b / BLOCKBITS < q;
  }

  // ---- Sync --------------------------------------------------------------

  /** Write back the cached inodes of the first n vnodes of the table, in order. */
  function SyncInodes(fs: Fs, n: nat): Fs
    requires n <= |fs.vnodes|
    ensures |SyncInodes(fs, n).vnodes| == |fs.vnodes|
  {
    if n == 0 then fs
    else
      var fs1 := SyncInodes(fs, n - 1);
      SyncInode(fs1, fs1.vnodes[n - 1].ino)
  }

  /** Write the first n blocks of the bitmap. */
  function WriteMap(fs: Fs, n: nat): Fs
    requires n * BLOCKBITS <= |fs.used|
    ensures WriteMap(fs, n).used == fs.used
  {
    if n == 0 then fs
    else WriteBlock(WriteMap(fs, n - 1), MAP + n - 1, MapBlockOf(fs.used, n - 1))
  }

  function SyncMap(fs: Fs): Fs {
    if fs.mapDirty && BitBlocks(fs.nblocks) * BLOCKBITS <= |fs.used| then
      WriteMap(fs, BitBlocks(fs.nblocks)).(mapDirty := false)
    else fs
  }

  function Sync(fs: Fs): Fs {
    SyncMap(SyncInodes(fs, |fs.vnodes|))
  }

  // ---- Mount -------------------------------------------------------------

  function MapBits(disk: seq<Block>, nblocks: nat): Bits
    requires BitmapSize(nblocks) <= 0xffff_ffff
  {
    seq(BitmapSize(nblocks), b requires 0 <= b =>
      BitOf((if MAP + b / BLOCKBITS < |disk| then disk[MAP + b / BLOCKBITS] else Zeros(BLOCKSIZE))[b % BLOCKBITS / 8],
            b % 8))
  }

  /** Mounting a device: the superblock's magic number is checked, its block count believed, the bitmap read. */
  function Mount(disk: seq<Block>): Res<Fs>
    requires |disk| > 0 && BitmapSize(WordAt(disk[SB], 1)) <= 0xffff_ffff
  {
    if WordAt(disk[SB], 0) != MAGIC then Err(EINVAL)
    else Ok(Fs(WordAt(disk[SB], 1), disk, MapBits(disk, WordAt(disk[SB], 1)), false, []))
  }

  /**
   * A device is refused exactly if its first four bytes are not the magic number. What is mounted is as many blocks as
   * the next four say, the disk as it is, nothing loaded, and the bits of the bitmap's blocks, the lowest of each byte
   * first.
   */
  lemma MountIff(disk: seq<Block>)
    requires |disk| > 0 && BitmapSize(WordAt(disk[SB], 1)) <= 0xffff_ffff
    ensures Mount(disk).Ok? <==> Long(disk[0], 0) == 0xabadf001
    ensures Mount(disk).Ok? ==>
      var fs := Mount(disk).v;
      && fs.nblocks == Long(disk[0], 4) && fs.disk == disk && fs.vnodes == [] && !fs.mapDirty
      && |fs.used| == BitmapSize(fs.nblocks)
      && forall b :: 0 <= b < |fs.used| && 2 + b / 4096 < |disk| ==>
           (fs.used[b] <==> disk[2 + b / 4096][b % 4096 / 8] / Pow2(b % 8) % 2 == 1)
  {
    LongWord(disk[SB], 0);
    LongWord(disk[SB], 1);
    hide WordAt, Long, BitmapSize, Pow2, BitOf;
    if Mount(disk).Ok? {
      var fs := Mount(disk).v;
      forall b | 0 <= b < |fs.used| && 2 + b / 4096 < |disk|
        ensures fs.used[b] <==> disk[2 + b / 4096][b % 4096 / 8] / Pow2(b % 8) % 2 == 1
      {
        var x := disk[MAP + b / BLOCKBITS][b % BLOCKBITS / 8];
        BitIs(x, b % 8);
        assert fs.used[b] == BitOf(x, b % 8);
      }
    }
  }

  // ---- What sync leaves on the disk --------------------------------------

  lemma SyncInodeInv(fs: Fs, live: set<nat>, i: nat)
    requires Inv(fs, live) && Loaded(fs, i)
    ensures var fs' := SyncInode(fs, i);
      && Inv(fs', live) && SlotsOf(fs') == SlotsOf(fs) && (forall j :: j in live ==> FileOf(fs', j) == FileOf(fs, j))
      && fs'.used == fs.used && fs'.mapDirty == fs.mapDirty && fs'.nblocks == fs.nblocks
      && Loaded(fs', i) && VnodeOf(fs', i) == VnodeOf(fs, i).(dirty := false)
      && (forall j :: j != i && Loaded(fs, j) ==> Loaded(fs', j) && VnodeOf(fs', j) == VnodeOf(fs, j))
      && (forall j :: Loaded(fs', j) ==> Loaded(fs, j))
  {
    LoadedLive(fs, live, i);
    SyncCorrect(fs, live, i);
    hide FileOf, Store, SyncInode, SlotsOf, VnodeOf, IndexOf, Distinct, Attrs, MapSaved, Named, DirFile, ReadBlock, Cur;
    hide Files;
    var fs' := SyncInode(fs, i);
    SameInv(fs, fs', live, ROOT, 0);
    FilesAt(fs, fs', live);
  }

  lemma SyncSize(fs: Fs, i: nat)
    ensures var fs' := SyncInode(fs, i);
      |fs'.vnodes| == |fs.vnodes| && forall k :: 0 <= k < |fs.vnodes| ==> fs'.vnodes[k].ino == fs.vnodes[k].ino
  {
    hide EncodeInode;
  }

  /** The first n vnodes written back; files, free map and table otherwise as they were. */
  ghost predicate Flushed(fs: Fs, fs': Fs, live: set<nat>, n: nat) {
    && Inv(fs', live) && SlotsOf(fs') == SlotsOf(fs) && (forall j :: j in live ==> FileOf(fs', j) == FileOf(fs, j))
    && fs'.used == fs.used && fs'.mapDirty == fs.mapDirty && fs'.nblocks == fs.nblocks
    && |fs'.vnodes| == |fs.vnodes|
    && (forall k :: 0 <= k < |fs.vnodes| ==>
          && fs'.vnodes[k].ino == fs.vnodes[k].ino
          && fs'.vnodes[k] == if k < n then fs.vnodes[k].(dirty := false) else fs.vnodes[k])
  }

  lemma AtIndex(fs: Fs, k: nat)
    requires k < |fs.vnodes|
    requires forall j, l :: 0 <= j < l < |fs.vnodes| ==> fs.vnodes[j].ino != fs.vnodes[l].ino
    ensures Loaded(fs, fs.vnodes[k].ino) && VnodeOf(fs, fs.vnodes[k].ino) == fs.vnodes[k]
  {
    IndexUnique(fs.vnodes, k);
  }

  lemma InvTable(fs: Fs, live: set<nat>)
    requires Inv(fs, live)
    ensures forall j, l :: 0 <= j < l < |fs.vnodes| ==> fs.vnodes[j].ino != fs.vnodes[l].ino
  {
    hide SlotsOf, FileOf, Attrs, LiveIs, MapSaved, SlotsOk, Unshared, MapExact, Clean, Placed;
  }

  lemma {:induction false} SyncInodesFlush(fs: Fs, live: set<nat>, n: nat)
    requires Inv(fs, live) && n <= |fs.vnodes|
    ensures Flushed(fs, SyncInodes(fs, n), live, n)
  {
    hide FileOf, SlotsOf, SyncInode, VnodeOf, IndexOf, InvBut, Loaded;
    if n > 0 {
      SyncInodesFlush(fs, live, n - 1);
      var fs1 := SyncInodes(fs, n - 1);
      var i := fs1.vnodes[n - 1].ino;
      var fs2 := SyncInode(fs1, i);
      InvTable(fs1, live);
      AtIndex(fs1, n - 1);
      SyncInodeInv(fs1, live, i);
      SyncSize(fs1, i);
      InvTable(fs2, live);
      forall k | 0 <= k < |fs.vnodes|
        ensures fs2.vnodes[k] == if k < n then fs.vnodes[k].(dirty := false) else fs.vnodes[k]
      {
        AtIndex(fs1, k);
        AtIndex(fs2, k);
      }
    }
  }

  lemma {:induction false} WriteMapRead(fs: Fs, n: nat, b: nat)
    requires n * BLOCKBITS <= |fs.used|
    ensures var fs' := WriteMap(fs, n);
      && fs'.nblocks == fs.nblocks && fs'.mapDirty == fs.mapDirty && fs'.vnodes == fs.vnodes && |fs'.disk| == |fs.disk|
      && ReadBlock(fs', b) ==
           if MAP <= b < MAP + n && b < |fs.disk| then MapBlockOf(fs.used, b - MAP) else ReadBlock(fs, b)
  {
    hide MapBlockOf;
    if n > 0 {
      WriteMapRead(fs, n - 1, b);
    }
  }

  lemma BitmapWhole(n: nat)
    ensures BitmapSize(n) == BitBlocks(n) * BLOCKBITS && BitmapSize(n) % BLOCKBITS == 0
  {
  }

  lemma WroteMapBit(fs: Fs, n: nat, b: nat)
    requires |fs.used| == n * BLOCKBITS && MAP + n <= |fs.disk| && b < |fs.used|
    ensures DiskBit(WriteMap(fs, n), b) <==> fs.used[b]
  {
    hide WriteMap, MapBlockOf, BitOf, ReadBlock;
    MapBlockBit(fs.used, b);
    assert b / BLOCKBITS < n;
    WriteMapRead(fs, n, MAP + b / BLOCKBITS);
  }

  lemma WroteMapSaved(fs: Fs, live: set<nat>)
    requires Store(fs, live, {})
    ensures BitBlocks(fs.nblocks) * BLOCKBITS <= |fs.used|
    ensures MapSaved(WriteMap(fs, BitBlocks(fs.nblocks)))
  {
    hide Store, WriteMap, MapBlockOf, BitOf, BitBlocks, DiskBit;
    StoreRoot(fs, live);
    BitmapWhole(fs.nblocks);
    var n := BitBlocks(fs.nblocks);
    forall b | 0 <= b < |fs.used|
      ensures DiskBit(WriteMap(fs, n), b) <==> fs.used[b]
    {
      WroteMapBit(fs, n, b);
    }
  }

  /** Only bitmap blocks differ: the superblock, every live inode and every data block read the same. */
  ghost predicate OnlyMap(fs: Fs, fs': Fs) {
    && fs'.nblocks == fs.nblocks && fs'.vnodes == fs.vnodes && |fs'.disk| == |fs.disk| && fs'.used == fs.used
    && forall b: nat :: !(MAP <= b < MetaEnd(fs.nblocks)) ==> ReadBlock(fs', b) == ReadBlock(fs, b)
  }

  lemma WroteOnlyMap(fs: Fs)
    requires BitBlocks(fs.nblocks) * BLOCKBITS <= |fs.used|
    ensures OnlyMap(fs, WriteMap(fs, BitBlocks(fs.nblocks)).(mapDirty := false))
  {
    hide WriteMap, MapBlockOf, BitBlocks;
    var n := BitBlocks(fs.nblocks);
    var fs1 := WriteMap(fs, n);
    forall b: nat
      ensures !(MAP <= b < MetaEnd(fs.nblocks)) ==> ReadBlock(fs1, b) == ReadBlock(fs, b)
      ensures fs1.nblocks == fs.nblocks && fs1.vnodes == fs.vnodes && |fs1.disk| == |fs.disk|
    {
      WriteMapRead(fs, n, b);
    }
    WriteMapRead(fs, n, 0);
  }

  lemma OnlyMapLive(fs: Fs, fs': Fs, live: set<nat>)
    requires Store(fs, live, {}) && OnlyMap(fs, fs')
    ensures SameLive(fs, fs', live)
  {
    hide BitBlocks, SlotsOk, Unshared, MapExact, DecodeInode, Clean, Shape, ReadBlock, IndexOf;
    forall i | i in live
      ensures Cur(fs', i) == Cur(fs, i)
    {
      assert ReadBlock(fs', i) == ReadBlock(fs, i);
    }
  }

  lemma OnlyMapShape(fs: Fs, fs': Fs, live: set<nat>)
    requires Store(fs, live, {}) && OnlyMap(fs, fs')
    ensures Shape(fs') && Placed(fs', live) && Clean(fs')
  {
    hide BitBlocks, SlotsOk, Unshared, MapExact, DecodeInode, WordAt;
    assert ReadBlock(fs', SB) == ReadBlock(fs, SB);
    forall k | 0 <= k < |fs.vnodes|
      ensures ReadBlock(fs', fs.vnodes[k].ino) == ReadBlock(fs, fs.vnodes[k].ino)
    {
      assert fs.vnodes[k].ino in live;
    }
  }

  lemma WroteMapLive(fs: Fs, live: set<nat>)
    requires Store(fs, live, {}) && BitBlocks(fs.nblocks) * BLOCKBITS <= |fs.used|
    ensures var fs' := WriteMap(fs, BitBlocks(fs.nblocks)).(mapDirty := false);
      SameLive(fs, fs', live) && fs'.vnodes == fs.vnodes && Shape(fs') && Placed(fs', live) && Clean(fs')
  {
    hide WriteMap, BitBlocks, Store, SameLive, Shape, Placed, Clean;
    WroteOnlyMap(fs);
    var fs' := WriteMap(fs, BitBlocks(fs.nblocks)).(mapDirty := false);
    OnlyMapLive(fs, fs', live);
    OnlyMapShape(fs, fs', live);
  }

  /** Everything on the disk: no cached inode is dirty and the bitmap is saved. */
  ghost predicate Settled(fs: Fs) {
    && (forall k :: 0 <= k < |fs.vnodes| ==> !fs.vnodes[k].dirty)
    && !fs.mapDirty && MapSaved(fs)
  }

  lemma SyncMapInv(fs: Fs, live: set<nat>)
    requires Inv(fs, live)
    ensures var fs' := SyncMap(fs);
      && Inv(fs', live) && SlotsOf(fs') == SlotsOf(fs) && (forall j :: j in live ==> FileOf(fs', j) == FileOf(fs, j))
      && fs'.used == fs.used && fs'.vnodes == fs.vnodes && fs'.nblocks == fs.nblocks
      && !fs'.mapDirty && MapSaved(fs')
  {
    hide FileOf, Store, WriteMap, MapSaved, BitBlocks, DirSlots, DirFile, Distinct, Attrs, Named, Files, Loaded;
    if fs.mapDirty {
      WroteMapSaved(fs, live);
      WroteMapLive(fs, live);
      var fs1 := WriteMap(fs, BitBlocks(fs.nblocks));
      var fs' := fs1.(mapDirty := false);
      CleanMapSaved(fs1);
      SameFiles(fs, fs', live);
      SameStore(fs, fs', live);
      FilesAt(fs, fs', live);
      NoZeroLive(fs, live);
      AttrsSame(fs, fs', SlotsOf(fs), live, ROOT, 0);
      forall j: nat ensures Loaded(fs', j) == Loaded(fs, j) { TableLoaded(fs, fs', j); }
    }
  }

  lemma TableLoaded(fs: Fs, fs': Fs, j: nat)
    requires fs'.vnodes == fs.vnodes
    ensures Loaded(fs', j) == Loaded(fs, j)
  {
  }

  lemma CleanMapSaved(fs: Fs)
    requires MapSaved(fs)
    ensures MapSaved(fs.(mapDirty := false))
  {
    hide BitOf;
    var fs' := fs.(mapDirty := false);
    forall b | 0 <= b < |fs.used|
      ensures DiskBit(fs', b) <==> fs'.used[b]
    {
      assert DiskBit(fs, b) <==> fs.used[b];
    }
  }

  /** Sync changes no file and no bit, and leaves nothing that is only in memory. */
  lemma SyncAllCorrect(fs: Fs, live: set<nat>)
    requires Inv(fs, live)
    ensures var fs' := Sync(fs);
      && Inv(fs', live) && Settled(fs') && SlotsOf(fs') == SlotsOf(fs)
      && (forall j :: j in live ==> FileOf(fs', j) == FileOf(fs, j)) && fs'.used == fs.used && fs'.nblocks == fs.nblocks
      && |fs'.vnodes| == |fs.vnodes| && forall k :: 0 <= k < |fs.vnodes| ==>
            fs'.vnodes[k] == fs.vnodes[k].(dirty := false)
  {
    hide FileOf, InvBut, SyncMap, SyncInodes, MapSaved, SlotsOf;
    SyncInodesFlush(fs, live, |fs.vnodes|);
    SyncMapInv(SyncInodes(fs, |fs.vnodes|), live);
  }

  // ---- Remount -----------------------------------------------------------

  lemma MountBits(fs: Fs, live: set<nat>)
    requires Store(fs, live, {}) && MapSaved(fs)
    ensures BitmapSize(fs.nblocks) <= 0xffff_ffff && MapBits(fs.disk, fs.nblocks) == fs.used
  {
    hide Store, BitOf, BitBlocks;
    StoreRoot(fs, live);
    var bits := MapBits(fs.disk, fs.nblocks);
    forall b: nat | b < |fs.used|
      ensures bits[b] == fs.used[b]
    {
      assert DiskBit(fs, b) <==> fs.used[b];
    }
  }

  /** The volume as a fresh mount of this disk sees it. */
  function Fresh(fs: Fs): Fs {
    Fs(fs.nblocks, fs.disk, fs.used, false, [])
  }

  lemma FreshSame(fs: Fs, live: set<nat>)
    requires Store(fs, live, {}) && forall k :: 0 <= k < |fs.vnodes| ==> !fs.vnodes[k].dirty
    ensures SameLive(fs, Fresh(fs), live) && Store(Fresh(fs), live, {})
  {
    hide DecodeInode, BitBlocks, SlotsOk, Unshared, MapExact;
    var m := Fresh(fs);
    forall i | i in live
      ensures Cur(m, i) == Cur(fs, i)
    {
      var k := IndexOf(fs.vnodes, i);
      if k < |fs.vnodes| {
        assert fs.vnodes[k].ino == i && !fs.vnodes[k].dirty;
      }
    }
    SameStore(fs, m, live);
  }

  lemma FreshFiles(fs: Fs, live: set<nat>)
    requires Inv(fs, live) && Settled(fs)
    ensures var m := Fresh(fs);
      && Store(m, live, {}) && DirFile(RootFile(m)) && SlotsOf(m) == SlotsOf(fs) && MapSaved(m)
      && (forall j :: j in live ==> FileOf(m, j) == FileOf(fs, j))
  {
    hide FileOf, Store, MapSaved, DirSlots, DirFile, Distinct, Attrs, LiveIs, Files;
    FreshSame(fs, live);
    SameFiles(fs, Fresh(fs), live);
    FilesAt(fs, Fresh(fs), live);
    NoZeroLive(fs, live);
    FreshMap(fs);
  }

  lemma FreshMap(fs: Fs)
    requires MapSaved(fs)
    ensures MapSaved(Fresh(fs))
  {
    hide BitOf;
    var m := Fresh(fs);
    forall b | 0 <= b < |fs.used|
      ensures DiskBit(m, b) <==> m.used[b]
    {
      assert DiskBit(fs, b) <==> fs.used[b];
    }
  }

  /** No file is open but without a name. */
  ghost predicate NoOrphan(fs: Fs, live: set<nat>) {
    forall i :: i in live ==> Cur(fs, i).links > 0
  }

  lemma FreshInv(fs: Fs, live: set<nat>)
    requires Inv(fs, live) && Settled(fs) && NoOrphan(fs, live)
    ensures Inv(Fresh(fs), live)
  {
    hide FileOf, Store, MapSaved, DirSlots, DirFile, Distinct, Attrs, Cur, Named;
    FreshFiles(fs, live);
    var m := Fresh(fs);
    NoZeroLive(fs, live);
    AttrsSame(fs, m, SlotsOf(fs), live, ROOT, 0);
    forall i | i in live
      ensures i == ROOT || Named(SlotsOf(fs), i)
    {
      LinkedNamed(fs, live, i);
    }
    forall j: nat ensures !Loaded(m, j) { NotInFresh(fs, j); }
  }

  lemma NotInFresh(fs: Fs, j: nat)
    ensures !Loaded(Fresh(fs), j)
  {
  }

  /** A file unlinked but loaded leaves its block marked with nothing to account for it. */
  lemma FreshOrphan(fs: Fs, live: set<nat>, i: nat, l: set<nat>)
    requires Inv(fs, live) && Settled(fs) && i in live && Cur(fs, i).links == 0
    ensures !Inv(Fresh(fs), l)
  {
    hide FileOf, Store, MapSaved, DirSlots, DirFile, Distinct, Attrs, Cur, Named, Loaded;
    GoneUnnamed(fs, live, i);
    FreshFiles(fs, live);
    OrphanBit(fs, live, i);
    var m := Fresh(fs);
    forall j: nat ensures !Loaded(m, j) { NotInFresh(fs, j); }
    if LiveIs(m, SlotsOf(m), l) {
      OrphanUnused(m, live, l, i);
    }
  }

  lemma OrphanBit(fs: Fs, live: set<nat>, i: nat)
    requires Inv(fs, live) && i in live && i != ROOT
    ensures DataBlock(fs, i) && i < |fs.used| && fs.used[i]
  {
    hide SlotsOk, Unshared, Clean, Attrs, LiveIs, MapSaved, Distinct, DirFile, BitBlocks, Owned;
    assert DataBlock(fs, i);
    BitmapCovers(fs.nblocks);
    assert fs.used[i] <==> InUse(fs, live, {}, i);
  }

  lemma OrphanUnused(m: Fs, live: set<nat>, l: set<nat>, i: nat)
    requires Store(m, live, {}) && l <= live && i in live && i !in l
    requires DataBlock(m, i) && i < |m.used| && m.used[i]
    ensures !Store(m, l, {})
  {
    hide Slot, Unshared, Clean, BitBlocks, Shape;
    assert !Owned(m, l, i);
    assert !InUse(m, l, {}, i);
  }

  lemma OrphanSame(fs: Fs, fs': Fs, live: set<nat>)
    requires forall j :: j in live ==> FileOf(fs', j) == FileOf(fs, j)
    ensures NoOrphan(fs', live) <==> NoOrphan(fs, live)
  {
    hide FileOf, Cur;
    forall j | j in live
      ensures Cur(fs', j).links == Cur(fs, j).links
    {
      FileLinks(fs, j);
      FileLinks(fs', j);
    }
  }

  /**
   * Sync then remount: the fresh mount of the synced disk has the same free map, the same directory and
   * the same contents and counts for every live inode. It is a sound volume exactly when no file was held
   * open without a name; such a file's blocks would stay marked with nothing accounting for them.
   */
  lemma RemountCorrect(fs: Fs, live: set<nat>)
    requires Inv(fs, live)
    ensures var s := Sync(fs);
      && |s.disk| > 0 && BitmapSize(WordAt(s.disk[SB], 1)) <= 0xffff_ffff
      && var m := Mount(s.disk);
        && m.Ok? && m.v.used == fs.used && m.v.nblocks == fs.nblocks && m.v.vnodes == []
        && SlotsOf(m.v) == SlotsOf(fs)
        && (forall j :: j in live ==> FileOf(m.v, j) == FileOf(fs, j))
        && (NoOrphan(fs, live) ==> Inv(m.v, live))
        && (!NoOrphan(fs, live) ==> forall l :: !Inv(m.v, l))
  {
    hide FileOf, InvBut, Sync, MapSaved, SlotsOf, Cur, MapBits, BitBlocks;
    SyncAllCorrect(fs, live);
    var s := Sync(fs);
    MountIsFresh(s, live);
    FreshFiles(s, live);
    OrphanSame(fs, s, live);
    if NoOrphan(fs, live) {
      FreshInv(s, live);
    } else {
      var i :| i in live && Cur(s, i).links == 0;
      forall l ensures !Inv(Fresh(s), l) { FreshOrphan(s, live, i, l); }
    }
  }

  lemma MountIsFresh(fs: Fs, live: set<nat>)
    requires Inv(fs, live) && Settled(fs)
    ensures |fs.disk| > 0 && BitmapSize(WordAt(fs.disk[SB], 1)) <= 0xffff_ffff && Mount(fs.disk) == Ok(Fresh(fs))
    ensures |fs.disk| == fs.nblocks
  {
    hide FileOf, Store, MapSaved, DirSlots, DirFile, Distinct, Attrs, LiveIs, MapBits, BitBlocks, WordAt;
    StoreRoot(fs, live);
    MountBits(fs, live);
  }

  // ---- A file with no name -------------------------------------------------

  /** A slot that names an inode gives it a name in the map. */
  lemma NamedIs(es: seq<Entry>, i: nat)
    requires Distinct(es) && Named(es, i)
    ensures exists name :: name in NameMap(es) && NameMap(es)[name] == i
  {
    hide NameMap, Search, Distinct;
    var k :| 0 <= k < |es| && es[k].ino == i;
    NameMapAt(es, es[k].name);
    assert Names(es, es[k].name, k);
    assert es[k].name in NameMap(es);
  }

  /** A new inode, named once and no longer, has no name. */
  lemma UnnamedAgain(fs: Fs, fs2: Fs, live: set<nat>, name: Name, i: nat)
    requires Inv(fs, live) && i !in live && Inv(fs2, live + {i}) && NamesOf(fs2) == NamesOf(fs)[name := i] - {name}
    ensures Cur(fs2, i).links == 0
  {
    hide Store, MapSaved, DirFile, Attrs, SlotsOf, FileOf, NameMap, Cur, LiveIs, Distinct;
    NamesLive(fs, live, i);
    RootLive(fs, live);
    InvDistinct(fs2, live + {i});
    if Cur(fs2, i).links > 0 {
      LinkedNamed(fs2, live + {i}, i);
      NamedIs(SlotsOf(fs2), i);
      assert false;
    }
  }

  /** The volume when a file has been made under a new name and the name removed. */
  function MadeAndRemoved(fs: Fs, name: Name): Fs {
    Remove(Creat(fs, name, true).0, name).0
  }

  lemma NewHeld(fs: Fs, live: set<nat>, name: Name)
    requires Inv(fs, live) && Loaded(fs, ROOT) && name !in NamesOf(fs) && Creat(fs, name, true).1.Ok?
    ensures var (fs1, r) := Creat(fs, name, true);
      && r.v !in live && Inv(fs1, live + {r.v}) && NamesOf(fs1) == NamesOf(fs)[name := r.v] && Loaded(fs1, ROOT)
      && LiveWithout(fs1, live + {r.v}, name) == live + {r.v}
  {
    hide InvBut, Creat, NamesOf, FileOf, Cur, SlotsOf, Loaded, RefCount, OpenCount, Kept, SameData;
    RootLive(fs, live);
    CreatCorrect(fs, live, name, true);
  }

  lemma OrphanLeft(fs: Fs, live: set<nat>, name: Name)
    requires Inv(fs, live) && Loaded(fs, ROOT) && name !in NamesOf(fs) && Creat(fs, name, true).1.Ok?
    ensures var i := Creat(fs, name, true).1.v;
      Inv(MadeAndRemoved(fs, name), live + {i}) && !NoOrphan(MadeAndRemoved(fs, name), live + {i})
  {
    hide InvBut, Creat, Remove, NamesOf, FileOf, Cur, SlotsOf, Loaded, RefCount, LiveWithout, Kept;
    NewHeld(fs, live, name);
    var (fs1, r) := Creat(fs, name, true);
    RemoveCorrect(fs1, live + {r.v}, name);
    UnnamedAgain(fs, Remove(fs1, name).0, live, name, r.v);
  }

  /**
   * Making a file under a new name and removing the name, with the file still held, leaves a file without a name;
   * syncing then and mounting again gives a volume that is not sound, whatever is taken to be live.
   */
  lemma OrphanMade(fs: Fs, live: set<nat>, name: Name)
    requires Inv(fs, live) && Loaded(fs, ROOT) && name !in NamesOf(fs) && Creat(fs, name, true).1.Ok?
    ensures var i := Creat(fs, name, true).1.v; var fs' := MadeAndRemoved(fs, name); var disk := Sync(fs').disk;
      && Inv(fs', live + {i}) && !NoOrphan(fs', live + {i})
      && |disk| > 0 && BitmapSize(WordAt(disk[SB], 1)) <= 0xffff_ffff && Mount(disk).Ok?
      && forall l :: !Inv(Mount(disk).v, l)
  {
    hide InvBut, Creat, MadeAndRemoved, Sync, Mount, NamesOf, FileOf, Cur, SlotsOf, Loaded, NoOrphan, WordAt;
    OrphanLeft(fs, live, name);
    RemountCorrect(MadeAndRemoved(fs, name), live + {Creat(fs, name, true).1.v});
  }
}
