/** The vnode table: loading inodes, counting references, writing back and reclaiming. */
module SfsVnode {
  import opened Words
  import opened SfsLayout
  import opened SfsState
  import opened SfsIo
  import opened SfsTruncate

  /** The vnode of inode i: the resident one with one more reference, or a new one read from disk. */
  function Load(fs: Fs, i: nat): Fs {
    if Loaded(fs, i) then
      PutVnode(fs, i, VnodeOf(fs, i).(refs := VnodeOf(fs, i).refs + 1))
    else
      fs.(vnodes := fs.vnodes + [Vnode(i, DecodeInode(ReadBlock(fs, i)), false, 1, 0)])
  }

  /** The vnode of a new object: the block reads as a blank inode, and the type makes it dirty. */
  function LoadNew(fs: Fs, i: nat, kind: u16): Fs {
    fs.(vnodes := fs.vnodes + [Vnode(i, DecodeInode(ReadBlock(fs, i)).(kind := kind), true, 1, 0)])
  }

  /** Write the cached inode back if it is dirty. */
  function SyncInode(fs: Fs, i: nat): Fs {
    if Loaded(fs, i) && VnodeOf(fs, i).dirty then
      PutVnode(WriteBlock(fs, i, EncodeInode(VnodeOf(fs, i).inode)), i, VnodeOf(fs, i).(dirty := false))
    else fs
  }

  function Bfree(fs: Fs, b: nat): Fs {
    if b < |fs.used| then fs.(used := fs.used[b := false], mapDirty := true) else fs
  }

  function Unload(fs: Fs, i: nat): Fs {
    var k := IndexOf(fs.vnodes, i);
    if k < |fs.vnodes| then fs.(vnodes := fs.vnodes[..k] + fs.vnodes[k + 1..]) else fs
  }

  /** The last reference is gone: an unlinked file is erased, and the inode is written back and dropped. */
  function Reclaim(fs: Fs, i: nat): Fs {
    var gone := Cur(fs, i).links == 0;
    var fs1 := SyncInode(if gone then Truncate(fs, i, 0) else fs, i);
    Unload(if gone then Bfree(fs1, i) else fs1, i)
  }

  function Decref(fs: Fs, i: nat): Fs {
    if !Loaded(fs, i) then fs
    else if VnodeOf(fs, i).refs > 1 then PutVnode(fs, i, VnodeOf(fs, i).(refs := VnodeOf(fs, i).refs - 1))
    else Reclaim(fs, i)
  }

  // ---- Steps that leave every file as it is ------------------------------

  /** Every live inode reads the same, and so does every data block it may own; the free map is the same. */
  ghost predicate SameLive(fs: Fs, fs': Fs, live: set<nat>) {
    && fs'.nblocks == fs.nblocks && fs'.used == fs.used && |fs'.disk| == |fs.disk|
    && (forall b :: DataBlock(fs, b) && b !in live ==> ReadBlock(fs', b) == ReadBlock(fs, b))
    && (forall i :: i in live ==> Cur(fs', i) == Cur(fs, i))
  }

  /** Nothing but blocks of live inodes was written. */
  ghost predicate Same(fs: Fs, fs': Fs, live: set<nat>) {
    && SameLive(fs, fs', live)
    && fs'.mapDirty == fs.mapDirty
    && (forall b :: 0 <= b < fs.nblocks && b !in live ==> ReadBlock(fs', b) == ReadBlock(fs, b))
  }

  lemma SameIsLive(fs: Fs, fs': Fs, live: set<nat>)
    requires Same(fs, fs', live)
    ensures SameLive(fs, fs', live)
  {
  }

  lemma SameSlots(fs: Fs, fs': Fs, live: set<nat>)
    requires Store(fs, live, {}) && SameLive(fs, fs', live)
    ensures forall i, k :: i in live && 0 <= k <= MAXBLOCKS ==> Slot(fs', i, k) == Slot(fs, i, k)
  {
    hide DecodeInode, BitBlocks, WordAt;
    forall i, k | i in live && 0 <= k <= MAXBLOCKS
      ensures Slot(fs', i, k) == Slot(fs, i, k)
    {
      assert Slot(fs, i, MAXBLOCKS) == Cur(fs, i).indirect;
    }
  }

  lemma SameStore(fs: Fs, fs': Fs, live: set<nat>)
    requires Store(fs, live, {}) && SameLive(fs, fs', live)
    requires Shape(fs') && Placed(fs', live) && Clean(fs')
    ensures Store(fs', live, {})
  {
    SameSlots(fs, fs', live);
    hide Slot, Cur, BitBlocks, Shape, Clean;
    forall b: nat
      ensures Owned(fs', live, b) <==> Owned(fs, live, b)
    {
    }
  }

  lemma SameFile(fs: Fs, fs': Fs, live: set<nat>, i: nat)
    requires Store(fs, live, {}) && SameLive(fs, fs', live) && i in live
    ensures FileOf(fs', i) == FileOf(fs, i)
  {
    SameSlots(fs, fs', live);
    hide Slot, Cur, BitBlocks, Backing;
    BackingSame(fs, fs', i);
  }

  lemma SameFiles(fs: Fs, fs': Fs, live: set<nat>)
    requires Store(fs, live, {}) && SameLive(fs, fs', live)
    ensures Files(fs', live) == Files(fs, live)
  {
    hide FileOf, Store, SameLive;
    forall i | i in live
      ensures FileOf(fs', i) == FileOf(fs, i)
    {
      SameFile(fs, fs', live, i);
    }
  }

  // ---- Tables ------------------------------------------------------------

  lemma {:induction false} IndexAppend(vs: seq<Vnode>, v: Vnode, i: nat)
    ensures IndexOf(vs + [v], i) ==
      if IndexOf(vs, i) < |vs| || v.ino == i then IndexOf(vs, i) else |vs| + 1
  {
    if vs == [] {
      assert vs + [v] == [v];
      assert [v][1..] == [];
    } else if vs[0].ino != i {
      IndexAppend(vs[1..], v, i);
      assert (vs + [v])[1..] == vs[1..] + [v];
    }
  }

  lemma {:induction false} IndexSplit(a: seq<Vnode>, v: Vnode, b: seq<Vnode>, i: nat)
    requires v.ino != i
    ensures var k := IndexOf(a + [v] + b, i); IndexOf(a + b, i) == if k < |a| then k else k - 1
  {
    if a == [] {
      assert a + b == b;
      assert a + [v] + b == [v] + b;
      assert ([v] + b)[1..] == b;
    } else {
      assert (a + b)[1..] == a[1..] + b;
      assert (a + [v] + b)[1..] == a[1..] + [v] + b;
      if a[0].ino != i {
        IndexSplit(a[1..], v, b, i);
      }
    }
  }

  lemma IndexRemove(vs: seq<Vnode>, k: nat, i: nat)
    requires k < |vs| && vs[k].ino != i
    ensures IndexOf(vs[..k] + vs[k + 1..], i) == if IndexOf(vs, i) < k then IndexOf(vs, i) else IndexOf(vs, i) - 1
  {
    IndexSplit(vs[..k], vs[k], vs[k + 1..], i);
    assert vs[..k] + [vs[k]] + vs[k + 1..] == vs;
  }

  lemma PutVnodeCur(fs: Fs, i: nat, v: Vnode, j: nat)
    requires Loaded(fs, i) && v.ino == i
    ensures var fs' := PutVnode(fs, i, v);
      && Loaded(fs', j) == Loaded(fs, j)
      && (Loaded(fs, j) ==> VnodeOf(fs', j) == if j == i then v else VnodeOf(fs, j))
      && Cur(fs', j) == (if j == i then v.inode else Cur(fs, j))
  {
    IndexStable(fs.vnodes, IndexOf(fs.vnodes, i), v, j);
  }

  function RefCount(fs: Fs, i: nat): nat {
    if Loaded(fs, i) then VnodeOf(fs, i).refs else 0
  }

  function OpenCount(fs: Fs, i: nat): nat {
    if Loaded(fs, i) then VnodeOf(fs, i).opens else 0
  }

  /** Same references and open counts, those of inode i aside. */
  ghost predicate SameCounts(fs: Fs, fs': Fs, i: nat) {
    forall j :: j != i ==>
      && RefCount(fs', j) == RefCount(fs, j)
      && OpenCount(fs', j) == OpenCount(fs, j)
      && Loaded(fs', j) == Loaded(fs, j)
  }

  lemma PutVnodeShape(fs: Fs, live: set<nat>, i: nat, v: Vnode)
    requires Shape(fs) && Placed(fs, live) && Clean(fs) && Loaded(fs, i)
    requires v.ino == i && v.refs > 0
    requires !v.dirty ==> DecodeInode(ReadBlock(fs, i)) == v.inode
    ensures var fs' := PutVnode(fs, i, v); Shape(fs') && Placed(fs', live) && Clean(fs')
  {
  }

  lemma CountsStore(fs: Fs, live: set<nat>, i: nat, v: Vnode)
    requires Store(fs, live, {}) && Loaded(fs, i)
    requires v.ino == i && v.refs > 0 && v.inode == VnodeOf(fs, i).inode && v.dirty == VnodeOf(fs, i).dirty
    ensures var fs' := PutVnode(fs, i, v);
      && Store(fs', live, {}) && Same(fs, fs', live) && SameCounts(fs, fs', i)
      && Loaded(fs', i) && VnodeOf(fs', i) == v
  {
    hide DecodeInode, BitBlocks, Slot;
    forall j { PutVnodeCur(fs, i, v, j); }
    PutVnodeShape(fs, live, i, v);
    SameStore(fs, PutVnode(fs, i, v), live);
  }

  lemma AppendCur(fs: Fs, v: Vnode, j: nat)
    requires !Loaded(fs, v.ino)
    ensures var fs' := fs.(vnodes := fs.vnodes + [v]);
      && Loaded(fs', j) == (Loaded(fs, j) || j == v.ino)
      && (Loaded(fs', j) ==> VnodeOf(fs', j) == if j == v.ino then v else VnodeOf(fs, j))
      && Cur(fs', j) == (if j == v.ino then v.inode else Cur(fs, j))
  {
    IndexAppend(fs.vnodes, v, j);
  }

  lemma AppendShape(fs: Fs, live: set<nat>, v: Vnode)
    requires Shape(fs) && Placed(fs, live) && Clean(fs) && !Loaded(fs, v.ino)
    requires v.ino in live && v.refs > 0
    requires !v.dirty ==> DecodeInode(ReadBlock(fs, v.ino)) == v.inode
    ensures var fs' := fs.(vnodes := fs.vnodes + [v]); Shape(fs') && Placed(fs', live) && Clean(fs')
  {
    hide DecodeInode, BitBlocks;
    var fs' := fs.(vnodes := fs.vnodes + [v]);
    forall k | 0 <= k < |fs.vnodes|
      ensures fs.vnodes[k].ino != v.ino
    {
    }
  }

  /** Loading changes no file and no bit; the inode gains one reference. */
  lemma LoadCorrect(fs: Fs, live: set<nat>, i: nat)
    requires Store(fs, live, {}) && i in live
    ensures var fs' := Load(fs, i);
      && Store(fs', live, {}) && Same(fs, fs', live) && SameCounts(fs, fs', i)
      && Loaded(fs', i) && RefCount(fs', i) == RefCount(fs, i) + 1 && OpenCount(fs', i) == OpenCount(fs, i)
  {
    hide DecodeInode, BitBlocks, Slot;
    if Loaded(fs, i) {
      CountsStore(fs, live, i, VnodeOf(fs, i).(refs := VnodeOf(fs, i).refs + 1));
    } else {
      var v := Vnode(i, DecodeInode(ReadBlock(fs, i)), false, 1, 0);
      forall j { AppendCur(fs, v, j); }
      AppendShape(fs, live, v);
      SameStore(fs, Load(fs, i), live);
    }
  }

  lemma SyncShape(fs: Fs, live: set<nat>, i: nat)
    requires Store(fs, live, {}) && Loaded(fs, i) && VnodeOf(fs, i).dirty
    ensures var fs' := SyncInode(fs, i);
      && Shape(fs') && Placed(fs', live) && Clean(fs')
      && fs'.used == fs.used && fs'.mapDirty == fs.mapDirty && fs'.nblocks == fs.nblocks
      && i in live && i < |fs.disk|
      && fs'.disk == fs.disk[i := EncodeInode(VnodeOf(fs, i).inode)]
  {
    hide DecodeInode, EncodeInode, BitBlocks, Slot, WordAt;
    var v := VnodeOf(fs, i);
    InodeRoundTrip(v.inode);
    assert v in fs.vnodes;
    var fs1 := WriteBlock(fs, i, EncodeInode(v.inode));
    var fs' := SyncInode(fs, i);
    forall k | 0 <= k < |fs'.vnodes| && !fs'.vnodes[k].dirty
      ensures DecodeInode(ReadBlock(fs', fs'.vnodes[k].ino)) == fs'.vnodes[k].inode
    {
    }
  }

  lemma SyncTable(fs: Fs, i: nat, j: nat)
    requires Loaded(fs, i) && VnodeOf(fs, i).dirty
    ensures var fs' := SyncInode(fs, i);
      && Loaded(fs', j) == Loaded(fs, j)
      && (Loaded(fs, j) ==> VnodeOf(fs', j) == if j == i then VnodeOf(fs, i).(dirty := false) else VnodeOf(fs, j))
  {
    hide EncodeInode, DecodeInode;
    var fs1 := WriteBlock(fs, i, EncodeInode(VnodeOf(fs, i).inode));
    PutVnodeCur(fs1, i, VnodeOf(fs, i).(dirty := false), j);
  }

  lemma SyncSame(fs: Fs, live: set<nat>, i: nat)
    requires Store(fs, live, {}) && Loaded(fs, i) && VnodeOf(fs, i).dirty
    ensures var fs' := SyncInode(fs, i);
      && Same(fs, fs', live)
      && DecodeInode(ReadBlock(fs', i)) == Cur(fs, i)
      && (forall b :: b != i ==> ReadBlock(fs', b) == ReadBlock(fs, b))
  {
    hide DecodeInode, EncodeInode, SyncInode, Shape, Clean, SlotsOk, Unshared, MapExact, VnodeOf, IndexOf, BitBlocks;
    SyncShape(fs, live, i);
    forall j { SyncTable(fs, i, j); }
    InodeRoundTrip(VnodeOf(fs, i).inode);
    var fs' := SyncInode(fs, i);
    assert ReadBlock(fs', i) == EncodeInode(VnodeOf(fs, i).inode);
  }

  /** Writing back changes no file; afterwards the disk block is the inode. */
  lemma SyncCorrect(fs: Fs, live: set<nat>, i: nat)
    requires Store(fs, live, {}) && Loaded(fs, i)
    ensures var fs' := SyncInode(fs, i);
      && Store(fs', live, {}) && Same(fs, fs', live)
      && Loaded(fs', i) && VnodeOf(fs', i) == VnodeOf(fs, i).(dirty := false)
      && (forall j :: j != i && Loaded(fs, j) ==> Loaded(fs', j) && VnodeOf(fs', j) == VnodeOf(fs, j))
      && (forall j :: Loaded(fs', j) ==> Loaded(fs, j))
      && DecodeInode(ReadBlock(fs', i)) == Cur(fs, i)
      && (forall b :: b != i ==> ReadBlock(fs', b) == ReadBlock(fs, b))
  {
    hide DecodeInode, EncodeInode, BitBlocks, Slot, WordAt, ReadBlock;
    var v := VnodeOf(fs, i);
    if v.dirty {
      SyncShape(fs, live, i);
      SyncSame(fs, live, i);
      forall j { SyncTable(fs, i, j); }
      SameIsLive(fs, SyncInode(fs, i), live);
      hide SyncInode, Same, SameLive;
      SameStore(fs, SyncInode(fs, i), live);
    } else {
      var k := IndexOf(fs.vnodes, i);
      assert fs.vnodes[k] == v;
      assert Same(fs, fs, live);
    }
  }

  // ---- New objects -------------------------------------------------------

  function NewFile(kind: u16): File {
    File(0, kind, 0, Zeros(MAXBYTES))
  }

  lemma NewSlots(fs: Fs, live: set<nat>, b: nat, kind: u16)
    requires Store(fs, live, {b}) && ReadBlock(fs, b) == Zeros(BLOCKSIZE)
    ensures var fs' := LoadNew(fs, b, kind);
      && !Loaded(fs, b)
      && Cur(fs', b) == BlankInode().(kind := kind)
      && (forall k :: 0 <= k <= MAXBLOCKS ==> Slot(fs', b, k) == 0)
      && (forall j :: j != b ==> Cur(fs', j) == Cur(fs, j))
      && (forall j, k :: j != b ==> Slot(fs', j, k) == Slot(fs, j, k))
      && (forall j :: Loaded(fs', j) == (Loaded(fs, j) || j == b))
      && (forall j :: Loaded(fs, j) ==> VnodeOf(fs', j) == VnodeOf(fs, j))
      && VnodeOf(fs', b) == Vnode(b, BlankInode().(kind := kind), true, 1, 0)
  {
    hide DecodeInode, BitBlocks, WordAt;
    ZeroBlockInode();
    assert b in {b};
    var fs' := LoadNew(fs, b, kind);
    assert !Loaded(fs, b);
    forall j { AppendCur(fs, Vnode(b, BlankInode().(kind := kind), true, 1, 0), j); }
    forall j: nat, k: nat | j != b
      ensures Slot(fs', j, k) == Slot(fs, j, k)
    {
    }
  }

  lemma NewShape(fs: Fs, live: set<nat>, b: nat, kind: u16)
    requires Store(fs, live, {b})
    ensures var fs' := LoadNew(fs, b, kind); Shape(fs') && Placed(fs', live + {b}) && Clean(fs')
  {
    hide DecodeInode, BitBlocks, Slot, SlotsOk, Unshared, InUse, Owned;
    assert b in {b};
    assert DataBlock(fs, b) && b !in live;
    assert Placed(fs, live + {b});
    AppendShape(fs, live + {b}, Vnode(b, DecodeInode(ReadBlock(fs, b)).(kind := kind), true, 1, 0));
  }

  lemma NewMap(fs: Fs, fs': Fs, live: set<nat>, b: nat)
    requires SlotsOk(fs, live) && Unshared(fs, live) && MapExact(fs, live, {b}) && fs'.nblocks == fs.nblocks
    requires fs'.used == fs.used
    requires forall k :: 0 <= k <= MAXBLOCKS ==> Slot(fs', b, k) == 0
    requires forall j, k :: j != b ==> Slot(fs', j, k) == Slot(fs, j, k)
    ensures SlotsOk(fs', live + {b}) && Unshared(fs', live + {b}) && MapExact(fs', live + {b}, {})
  {
    hide Slot, BitBlocks;
    assert b in {b};
    assert !Owned(fs, live, b);
    forall c | 0 <= c < |fs.used|
      ensures fs'.used[c] <==> InUse(fs', live + {b}, {}, c)
    {
      NewOwned(fs, fs', live, b, c);
      assert fs.used[c] <==> InUse(fs, live, {b}, c);
    }
  }

  lemma NewStore(fs: Fs, live: set<nat>, b: nat, kind: u16)
    requires Store(fs, live, {b}) && ReadBlock(fs, b) == Zeros(BLOCKSIZE)
    ensures Store(LoadNew(fs, b, kind), live + {b}, {})
  {
    NewSlots(fs, live, b, kind);
    NewShape(fs, live, b, kind);
    hide Slot, Shape, Clean, Cur, SlotsOk, Unshared, MapExact, Placed;
    NewMap(fs, LoadNew(fs, b, kind), live, b);
  }

  lemma NewOwned(fs: Fs, fs': Fs, live: set<nat>, b: nat, c: nat)
    requires forall k :: 0 <= k <= MAXBLOCKS ==> Slot(fs', b, k) == 0
    requires forall j, k :: j != b ==> Slot(fs', j, k) == Slot(fs, j, k)
    requires b !in live
    ensures c != 0 ==> (Owned(fs', live + {b}, c) <==> Owned(fs, live, c))
  {
    hide Slot;
    if c != 0 && Owned(fs, live, c) {
      var j, k :| j in live && 0 <= k <= MAXBLOCKS && Slot(fs, j, k) == c;
      assert Slot(fs', j, k) == c && j in live + {b};
    }
  }

  lemma NewFileOf(fs: Fs, live: set<nat>, b: nat, kind: u16)
    requires Store(fs, live, {b}) && ReadBlock(fs, b) == Zeros(BLOCKSIZE)
    ensures FileOf(LoadNew(fs, b, kind), b) == NewFile(kind)
  {
    NewSlots(fs, live, b, kind);
    hide Slot, Cur, LoadNew, Store, Backing;
    BackingEmpty(LoadNew(fs, b, kind), b);
  }

  lemma LoadNewDisk(fs: Fs, b: nat, kind: u16)
    ensures forall c :: ReadBlock(LoadNew(fs, b, kind), c) == ReadBlock(fs, c)
  {
  }

  lemma NewOthers(fs: Fs, live: set<nat>, b: nat, kind: u16, j: nat)
    requires Store(fs, live, {b}) && ReadBlock(fs, b) == Zeros(BLOCKSIZE) && j != b
    ensures FileOf(LoadNew(fs, b, kind), j) == FileOf(fs, j)
  {
    hide Slot, Cur, Store, Backing, LoadNew, ReadBlock, Loaded, VnodeOf;
    NewSlots(fs, live, b, kind);
    LoadNewDisk(fs, b, kind);
    BackingSame(fs, LoadNew(fs, b, kind), j);
  }

  // ---- Reclaiming --------------------------------------------------------

  lemma UnloadCur(fs: Fs, i: nat, j: nat)
    requires Loaded(fs, i)
    requires forall k, l :: 0 <= k < l < |fs.vnodes| ==> fs.vnodes[k].ino != fs.vnodes[l].ino
    ensures var fs' := Unload(fs, i);
      && Loaded(fs', j) == (Loaded(fs, j) && j != i)
      && (Loaded(fs', j) ==> VnodeOf(fs', j) == VnodeOf(fs, j))
      && Cur(fs', j) == (if j == i then DecodeInode(ReadBlock(fs, i)) else Cur(fs, j))
  {
    hide DecodeInode;
    var k := IndexOf(fs.vnodes, i);
    if j != i {
      IndexRemove(fs.vnodes, k, j);
    } else {
      var ws := fs.vnodes[..k] + fs.vnodes[k + 1..];
      forall l | 0 <= l < |ws|
        ensures ws[l].ino != i
      {
        assert ws[l] == if l < k then fs.vnodes[l] else fs.vnodes[l + 1];
      }
    }
  }

  lemma UnloadTable(fs: Fs, live: set<nat>, i: nat)
    requires Shape(fs) && Loaded(fs, i)
    ensures var fs' := Unload(fs, i);
      && |fs'.vnodes| == |fs.vnodes| - 1
      && (forall l :: 0 <= l < |fs'.vnodes| ==>
            fs'.vnodes[l] == fs.vnodes[if l < IndexOf(fs.vnodes, i) then l else l + 1] && fs'.vnodes[l].ino != i)
  {
    hide DecodeInode, BitBlocks, WordAt;
  }

  lemma UnloadShape(fs: Fs, live: set<nat>, i: nat)
    requires Shape(fs) && Placed(fs, live) && Clean(fs) && Loaded(fs, i)
    ensures var fs' := Unload(fs, i); Shape(fs') && Placed(fs', live) && Clean(fs')
    ensures i != ROOT ==> Placed(Unload(fs, i), live - {i})
  {
    hide DecodeInode, BitBlocks, WordAt, IndexOf;
    UnloadTable(fs, live, i);
  }

  /** A file still linked is written back and leaves the table; its inode is then read from disk. */
  lemma ReclaimLinked(fs: Fs, live: set<nat>, i: nat)
    requires Store(fs, live, {}) && Loaded(fs, i) && Cur(fs, i).links > 0
    ensures var fs' := Reclaim(fs, i);
      && Store(fs', live, {}) && Same(fs, fs', live) && SameCounts(fs, fs', i) && !Loaded(fs', i)
  {
    hide DecodeInode, BitBlocks, Slot, SyncInode, Unload, IndexOf, SlotsOk, Unshared, MapExact, Clean;
    SyncCorrect(fs, live, i);
    var fs1 := SyncInode(fs, i);
    forall j { UnloadCur(fs1, i, j); }
    UnloadShape(fs1, live, i);
    UnloadDisk(fs1, i);
    assert Same(fs, Unload(fs1, i), live);
    SameStore(fs, Unload(fs1, i), live);
  }

  lemma UnloadDisk(fs: Fs, i: nat)
    ensures var fs' := Unload(fs, i);
      fs'.disk == fs.disk && fs'.used == fs.used && fs'.mapDirty == fs.mapDirty && fs'.nblocks == fs.nblocks
  {
  }

  /** The block of an inode with no blocks is free and the inode no longer live. */
  lemma EraseSlots(fs: Fs, live: set<nat>, i: nat)
    requires Store(fs, live, {}) && Loaded(fs, i) && i != ROOT
    ensures var fs' := Unload(Bfree(fs, i), i);
      && i in live && i < |fs.used|
      && fs'.disk == fs.disk && fs'.nblocks == fs.nblocks && fs'.used == fs.used[i := false] && fs'.mapDirty
      && Shape(fs') && Placed(fs', live - {i}) && Clean(fs')
      && (forall j :: j != i ==> Cur(fs', j) == Cur(fs, j))
      && (forall j, k :: j != i ==> Slot(fs', j, k) == Slot(fs, j, k))
      && (forall j :: Loaded(fs', j) == (Loaded(fs, j) && j != i))
      && (forall j :: Loaded(fs', j) ==> VnodeOf(fs', j) == VnodeOf(fs, j))
  {
    hide DecodeInode, BitBlocks, WordAt;
    var k := IndexOf(fs.vnodes, i);
    assert fs.vnodes[k].ino == i;
    assert DataBlock(fs, i);
    BitmapCovers(fs.nblocks);
    var fs1 := Bfree(fs, i);
    forall j { UnloadCur(fs1, i, j); }
    UnloadShape(fs1, live, i);
    var fs' := Unload(fs1, i);
    forall j: nat, k: nat | j != i
      ensures Slot(fs', j, k) == Slot(fs, j, k)
    {
    }
  }

  lemma BitmapCovers(n: nat)
    ensures n <= BitmapSize(n)
  {
  }

  lemma EraseStore(fs: Fs, live: set<nat>, i: nat)
    requires Store(fs, live, {}) && Loaded(fs, i) && i != ROOT
    requires forall k :: 0 <= k <= MAXBLOCKS ==> Slot(fs, i, k) == 0
    ensures Store(Unload(Bfree(fs, i), i), live - {i}, {})
  {
    EraseSlots(fs, live, i);
    var fs' := Unload(Bfree(fs, i), i);
    var live' := live - {i};
    hide Slot, BitBlocks, Shape, Clean, Cur, Unload, Bfree;
    assert SlotsOk(fs', live') && Unshared(fs', live');
    forall c | 0 <= c < |fs.used|
      ensures fs'.used[c] <==> InUse(fs', live', {}, c)
    {
      EraseOwned(fs, fs', live, i, c);
      assert fs.used[c] <==> InUse(fs, live, {}, c);
    }
  }

  lemma EraseOwned(fs: Fs, fs': Fs, live: set<nat>, i: nat, c: nat)
    requires Placed(fs, live) && SlotsOk(fs, live) && i in live && i != ROOT
    requires forall k :: 0 <= k <= MAXBLOCKS ==> Slot(fs, i, k) == 0
    requires forall j, k :: j != i ==> Slot(fs', j, k) == Slot(fs, j, k)
    ensures c != 0 ==> (Owned(fs', live - {i}, c) <==> Owned(fs, live, c))
    ensures DataBlock(fs, i) && !Owned(fs, live, i)
  {
    hide Slot;
    if c != 0 && Owned(fs, live, c) {
      var j, k :| j in live && 0 <= k <= MAXBLOCKS && Slot(fs, j, k) == c;
      assert Slot(fs', j, k) == c && j in live - {i};
    }
  }

  lemma EraseOthers(fs: Fs, live: set<nat>, i: nat, j: nat)
    requires Store(fs, live, {}) && Loaded(fs, i) && i != ROOT && j != i
    ensures FileOf(Unload(Bfree(fs, i), i), j) == FileOf(fs, j)
  {
    hide Slot, Cur, Store, Backing, Unload, Bfree, Loaded, VnodeOf, Shape, Clean, Placed;
    EraseSlots(fs, live, i);
    BackingSame(fs, Unload(Bfree(fs, i), i), j);
  }

  lemma MapKeptTwice(fs: Fs, fs1: Fs, fs2: Fs)
    requires MapKept(fs, fs1) && MapKept(fs1, fs2)
    ensures MapKept(fs, fs2)
  {
    hide ReadBlock, BitBlocks;
  }

  lemma SameMapKept(fs: Fs, fs': Fs, live: set<nat>)
    requires Same(fs, fs', live) && Placed(fs, live) && MetaEnd(fs.nblocks) <= fs.nblocks
    ensures MapKept(fs, fs')
  {
    hide ReadBlock, BitBlocks, Cur;
  }

  /** The bits cleared are those of inode i and of the blocks it had. */
  ghost predicate Erased(fs: Fs, fs': Fs, i: nat) {
    && |fs'.used| == |fs.used|
    && forall b :: 0 <= b < |fs.used| && fs'.used[b] != fs.used[b] ==>
         fs.used[b] && (b == i || exists k :: 0 <= k <= MAXBLOCKS && Slot(fs, i, k) == b)
  }

  /** After a truncation to nothing: write back, free the inode's block, leave the table. */
  lemma EraseAfter(fs: Fs, live: set<nat>, i: nat)
    requires Store(fs, live, {}) && Loaded(fs, i) && i != ROOT
    requires forall k :: 0 <= k <= MAXBLOCKS ==> Slot(fs, i, k) == 0
    ensures var fs2 := SyncInode(fs, i); var fs' := Unload(Bfree(fs2, i), i);
      && i in live && i < |fs.used|
      && Store(fs', live - {i}, {}) && SameCounts(fs, fs', i) && !Loaded(fs', i)
      && MapKept(fs, fs') && fs'.used == fs.used[i := false]
      && (forall j :: j in live && j != i ==> FileOf(fs', j) == FileOf(fs, j))
  {
    hide Slot, Cur, Backing, Unload, Bfree, SyncInode, IndexOf, FileOf, BitBlocks, SlotsOk, Unshared, MapExact, Clean;
    SyncCorrect(fs, live, i);
    var fs2 := SyncInode(fs, i);
    SameSlots(fs, fs2, live);
    EraseSlots(fs2, live, i);
    EraseStore(fs2, live, i);
    var fs' := Unload(Bfree(fs2, i), i);
    forall j | j in live && j != i
      ensures FileOf(fs', j) == FileOf(fs, j)
    {
      SameFile(fs, fs2, live, j);
      EraseOthers(fs2, live, i, j);
    }
    SameMapKept(fs, fs2, live);
    assert MapKept(fs2, fs');
    MapKeptTwice(fs, fs2, fs');
  }

  lemma FrameCounts(fs: Fs, fs': Fs, live: set<nat>, i: nat)
    requires Frame(fs, fs', live, i)
    ensures forall j :: RefCount(fs', j) == RefCount(fs, j) && OpenCount(fs', j) == OpenCount(fs, j)
    ensures forall j :: Loaded(fs', j) == Loaded(fs, j)
  {
    hide FileOf, ReadBlock, BitBlocks;
    forall j: nat
      ensures RefCount(fs', j) == RefCount(fs, j) && OpenCount(fs', j) == OpenCount(fs, j)
      ensures Loaded(fs', j) == Loaded(fs, j)
    {
      SameIndex(fs.vnodes, fs'.vnodes, j);
    }
  }

  /** The last reference to an unlinked file gives back exactly its blocks and its inode. */
  lemma ReclaimGone(fs: Fs, live: set<nat>, i: nat)
    requires Store(fs, live, {}) && Loaded(fs, i) && Cur(fs, i).links == 0 && i != ROOT
    ensures var fs' := Reclaim(fs, i);
      && Store(fs', live - {i}, {}) && SameCounts(fs, fs', i) && !Loaded(fs', i)
      && MapKept(fs, fs') && Erased(fs, fs', i) && i in live
      && Files(fs', live - {i}) == Files(fs, live) - {i}
  {
    hide Slot, Cur, Truncate, Unload, Bfree, SyncInode, IndexOf, FileOf, Store, Frame, Cut;
    LiveLoaded(fs, live, i);
    TruncateCorrect(fs, live, i, 0);
    var fs1 := Truncate(fs, i, 0);
    FrameCounts(fs, fs1, live, i);
    EraseAfter(fs1, live, i);
    var fs' := Reclaim(fs, i);
    assert MapKept(fs, fs1) && (forall j :: j in live && j != i ==> FileOf(fs1, j) == FileOf(fs, j)) by {
      FrameParts(fs, fs1, live, i);
    }
    MapKeptTwice(fs, fs1, fs');
  }

  lemma FrameParts(fs: Fs, fs': Fs, live: set<nat>, i: nat)
    requires Frame(fs, fs', live, i)
    ensures MapKept(fs, fs') && (forall j :: j in live && j != i ==> FileOf(fs', j) == FileOf(fs, j))
  {
    hide FileOf, MapKept;
  }

  lemma LiveLoaded(fs: Fs, live: set<nat>, i: nat)
    requires Store(fs, live, {}) && Loaded(fs, i)
    ensures i in live
  {
    var k := IndexOf(fs.vnodes, i);
    assert fs.vnodes[k].ino == i;
  }

  /** Dropping one of several references only counts down. */
  lemma DecrefShared(fs: Fs, live: set<nat>, i: nat)
    requires Store(fs, live, {}) && Loaded(fs, i) && RefCount(fs, i) > 1
    ensures var fs' := Decref(fs, i);
      && Store(fs', live, {}) && Same(fs, fs', live) && SameCounts(fs, fs', i)
      && Loaded(fs', i) && RefCount(fs', i) == RefCount(fs, i) - 1 && OpenCount(fs', i) == OpenCount(fs, i)
  {
    hide Store, Same;
    CountsStore(fs, live, i, VnodeOf(fs, i).(refs := VnodeOf(fs, i).refs - 1));
  }
}
