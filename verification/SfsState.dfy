/** The state of a mounted SFS volume, and the invariant every operation keeps. */
module SfsState {
  import opened Words
  import opened SfsLayout

  datatype Errno = ENOSPC | EINVAL | EEXIST | ENAMETOOLONG | ENOENT | EISDIR

  datatype Res<+T> = Ok(v: T) | Err(e: Errno)

  /** A loaded inode: the cached copy, whether it differs from the disk, and the counts of the generic vnode. */
  datatype Vnode = Vnode(ino: nat, inode: Inode, dirty: bool, refs: nat, opens: nat)

  /** The bitmap counts its bits in 32 bits. */
  type Bits = s: seq<bool> | |s| <= 0xffff_ffff witness []

  datatype Fs = Fs(nblocks: nat, disk: seq<Block>, used: Bits, mapDirty: bool, vnodes: seq<Vnode>)

  // ---- The device and the vnode table ------------------------------------

  function ReadBlock(fs: Fs, b: nat): Block {
    if b < |fs.disk| then fs.disk[b] else Zeros(BLOCKSIZE)
  }

  function WriteBlock(fs: Fs, b: nat, x: Block): Fs {
    if b < |fs.disk| then fs.(disk := fs.disk[b := x]) else fs
  }

  /** Position of the vnode of inode i in the table, or the table's length. */
  function IndexOf(vs: seq<Vnode>, i: nat): (k: nat)
    ensures k <= |vs|
    ensures k < |vs| ==> vs[k].ino == i
    ensures forall j :: 0 <= j < k ==> vs[j].ino != i
  {
    if vs == [] || vs[0].ino == i then 0 else 1 + IndexOf(vs[1..], i)
  }

  predicate Loaded(fs: Fs, i: nat) {
    IndexOf(fs.vnodes, i) < |fs.vnodes|
  }

  function VnodeOf(fs: Fs, i: nat): Vnode
    requires Loaded(fs, i)
  {
    fs.vnodes[IndexOf(fs.vnodes, i)]
  }

  /** The inode as the file system sees it: the cached copy when there is one. */
  function Cur(fs: Fs, i: nat): Inode {
    if Loaded(fs, i) then VnodeOf(fs, i).inode else DecodeInode(ReadBlock(fs, i))
  }

  function PutVnode(fs: Fs, i: nat, v: Vnode): Fs {
    if Loaded(fs, i) then fs.(vnodes := fs.vnodes[IndexOf(fs.vnodes, i) := v]) else fs
  }

  /** Change the cached inode and mark it dirty. */
  function PutInode(fs: Fs, i: nat, n: Inode): Fs {
    if Loaded(fs, i) then PutVnode(fs, i, VnodeOf(fs, i).(inode := n, dirty := true)) else fs
  }

  // ---- Blocks of a file --------------------------------------------------

  /**
   * Block slots of inode i: 0..14 direct, 15..142 through the indirect block,
   * 143 the indirect block itself. Zero means no block.
   */
  function Slot(fs: Fs, i: nat, k: nat): nat {
    var n := Cur(fs, i);
    if k < NDIRECT then n.direct[k]
    else if k == MAXBLOCKS then n.indirect
    else if k > MAXBLOCKS || n.indirect == 0 then 0
    else WordAt(ReadBlock(fs, n.indirect), k - NDIRECT)
  }

  ghost predicate Owned(fs: Fs, live: set<nat>, b: nat) {
    exists i, k :: i in live && 0 <= k <= MAXBLOCKS && Slot(fs, i, k) == b
  }

  // ---- The invariant -----------------------------------------------------

  ghost predicate Shape(fs: Fs) {
    && |fs.disk| == fs.nblocks
    && |fs.used| == BitmapSize(fs.nblocks)
    && MetaEnd(fs.nblocks) <= fs.nblocks <= MAXBITBLOCKS * BLOCKBITS
    && (forall j, k :: 0 <= j < k < |fs.vnodes| ==> fs.vnodes[j].ino != fs.vnodes[k].ino)
    && (forall k :: 0 <= k < |fs.vnodes| ==> fs.vnodes[k].refs > 0)
    && WordAt(fs.disk[SB], 0) == MAGIC
    && WordAt(fs.disk[SB], 1) == fs.nblocks
  }

  ghost predicate DataBlock(fs: Fs, b: nat) {
    MetaEnd(fs.nblocks) <= b < fs.nblocks
  }

  ghost predicate Placed(fs: Fs, live: set<nat>) {
    && ROOT in live
    && (forall i :: i in live ==> i == ROOT || DataBlock(fs, i))
    && (forall k :: 0 <= k < |fs.vnodes| ==> fs.vnodes[k].ino in live)
  }

  ghost predicate SlotsOk(fs: Fs, live: set<nat>) {
    forall i, k :: i in live && 0 <= k <= MAXBLOCKS && Slot(fs, i, k) != 0 ==>
      DataBlock(fs, Slot(fs, i, k)) && Slot(fs, i, k) !in live
  }

  /** No block is in two slots, of one file or of two. */
  ghost predicate Unshared(fs: Fs, live: set<nat>) {
    forall i, k, j, l ::
      i in live && 0 <= k <= MAXBLOCKS && j in live && 0 <= l <= MAXBLOCKS
      && Slot(fs, i, k) != 0 && Slot(fs, i, k) == Slot(fs, j, l)
      ==> i == j && k == l
  }

  ghost predicate InUse(fs: Fs, live: set<nat>, extra: set<nat>, b: nat) {
    b < MetaEnd(fs.nblocks) || b >= fs.nblocks || b in live || b in extra || Owned(fs, live, b)
  }

  /** A bit is set exactly when the block is in use; extra holds blocks just taken and not yet placed. */
  ghost predicate MapExact(fs: Fs, live: set<nat>, extra: set<nat>) {
    && (forall b :: 0 <= b < |fs.used| ==> (fs.used[b] <==> InUse(fs, live, extra, b)))
    && (forall b :: b in extra ==> DataBlock(fs, b) && b !in live && !Owned(fs, live, b))
  }

  /** A cached inode that is not dirty is what its disk block holds. */
  ghost predicate Clean(fs: Fs) {
    forall k :: 0 <= k < |fs.vnodes| && !fs.vnodes[k].dirty ==>
      DecodeInode(ReadBlock(fs, fs.vnodes[k].ino)) == fs.vnodes[k].inode
  }

  ghost predicate Store(fs: Fs, live: set<nat>, extra: set<nat>) {
    Shape(fs) && Placed(fs, live) && SlotsOk(fs, live) && Unshared(fs, live) && MapExact(fs, live, extra) && Clean(fs)
  }

  // ---- What a file holds -------------------------------------------------

  function ByteAt(fs: Fs, i: nat, off: nat): byte {
    var b := Slot(fs, i, off / BLOCKSIZE);
    if off >= MAXBYTES || b == 0 then 0 else ReadBlock(fs, b)[off % BLOCKSIZE]
  }

  /** A file: its size and attributes, and every byte its blocks back, past the size too. */
  datatype File = File(size: u32, kind: u16, links: u16, bytes: seq<byte>)

  function Backing(fs: Fs, i: nat): (s: seq<byte>)
    ensures |s| == MAXBYTES
  {
    seq(MAXBYTES, o requires 0 <= o => ByteAt(fs, i, o))
  }

  function FileOf(fs: Fs, i: nat): (f: File)
    ensures |f.bytes| == MAXBYTES
  {
    File(Cur(fs, i).size, Cur(fs, i).kind, Cur(fs, i).links, Backing(fs, i))
  }

  ghost function Files(fs: Fs, live: set<nat>): map<nat, File> {
    map i | i in live :: FileOf(fs, i)
  }

  // ---- Steps that move no file byte ----------------------------------------

  /** The vnode table is the same but for the cached inode of i. */
  ghost predicate SameTable(fs: Fs, fs': Fs, i: nat) {
    && |fs'.vnodes| == |fs.vnodes|
    && forall k :: 0 <= k < |fs.vnodes| ==>
         && fs'.vnodes[k].ino == fs.vnodes[k].ino
         && fs'.vnodes[k].refs == fs.vnodes[k].refs
         && fs'.vnodes[k].opens == fs.vnodes[k].opens
         && (fs.vnodes[k].ino != i ==> fs'.vnodes[k] == fs.vnodes[k])
  }

  /**
   * The blocks before the data area are not written, the root inode's aside, and a changed free map is marked dirty.
   */
  ghost predicate MapKept(fs: Fs, fs': Fs) {
    && fs'.nblocks == fs.nblocks
    && (forall b :: 0 <= b < MetaEnd(fs.nblocks) && b != ROOT ==> ReadBlock(fs', b) == ReadBlock(fs, b))
    && (fs'.used == fs.used || fs'.mapDirty)
    && (fs.mapDirty ==> fs'.mapDirty)
  }

  ghost predicate SlotGrew(fs: Fs, fs': Fs, j: nat, k: nat) {
    && (Slot(fs, j, k) != 0 ==> Slot(fs', j, k) == Slot(fs, j, k))
    && (k < MAXBLOCKS && Slot(fs', j, k) != 0 ==>
          ReadBlock(fs', Slot(fs', j, k)) ==
          if Slot(fs, j, k) == 0 then Zeros(BLOCKSIZE) else ReadBlock(fs, Slot(fs, j, k)))
  }

  ghost predicate SameAttrs(fs: Fs, fs': Fs, live: set<nat>) {
    forall j :: j in live ==>
      && Cur(fs', j).size == Cur(fs, j).size
      && Cur(fs', j).kind == Cur(fs, j).kind
      && Cur(fs', j).links == Cur(fs, j).links
  }

  /** Every file keeps its bytes; inode i alone may have more blocks, all zero. */
  ghost predicate Grew(fs: Fs, fs': Fs, live: set<nat>, i: nat) {
    && SameTable(fs, fs', i)
    && MapKept(fs, fs')
    && (forall j :: j in live ==> ReadBlock(fs', j) == ReadBlock(fs, j))
    && (forall j, k :: j in live && 0 <= k <= MAXBLOCKS ==> SlotGrew(fs, fs', j, k))
    && (forall j, k :: j in live && j != i && 0 <= k <= MAXBLOCKS ==> Slot(fs', j, k) == Slot(fs, j, k))
    && SameAttrs(fs, fs', live)
  }

  lemma GrewSelf(fs: Fs, live: set<nat>, i: nat)
    ensures Grew(fs, fs, live, i)
  {
  }

  lemma GrewTwice(fs: Fs, fs1: Fs, fs2: Fs, live: set<nat>, i: nat)
    requires Grew(fs, fs1, live, i) && Grew(fs1, fs2, live, i)
    ensures Grew(fs, fs2, live, i)
  {
    forall j, k | j in live && 0 <= k <= MAXBLOCKS
      ensures SlotGrew(fs, fs2, j, k)
      ensures j != i ==> Slot(fs2, j, k) == Slot(fs, j, k)
    {
      assert SlotGrew(fs, fs1, j, k) && SlotGrew(fs1, fs2, j, k);
    }
  }

  /** Same blocks in the same slots: same bytes. */
  lemma BackingSame(fs: Fs, fs': Fs, j: nat)
    requires forall k :: 0 <= k < MAXBLOCKS ==> Slot(fs', j, k) == Slot(fs, j, k)
    requires forall k :: 0 <= k < MAXBLOCKS && Slot(fs, j, k) != 0 ==>
      ReadBlock(fs', Slot(fs, j, k)) == ReadBlock(fs, Slot(fs, j, k))
    ensures Backing(fs', j) == Backing(fs, j)
  {
    hide Slot, ReadBlock;
    forall o: nat | o < MAXBYTES
      ensures ByteAt(fs', j, o) == ByteAt(fs, j, o)
    {
      var k := o / BLOCKSIZE;
      assert Slot(fs', j, k) == Slot(fs, j, k);
    }
  }

  lemma BackingEmpty(fs: Fs, j: nat)
    requires forall k :: 0 <= k < MAXBLOCKS ==> Slot(fs, j, k) == 0
    ensures Backing(fs, j) == Zeros(MAXBYTES)
  {
    hide Slot, ReadBlock;
    forall o: nat | o < MAXBYTES
      ensures ByteAt(fs, j, o) == 0
    {
      assert Slot(fs, j, o / BLOCKSIZE) == 0;
    }
  }

  lemma {:induction false} SameIndex(vs: seq<Vnode>, ws: seq<Vnode>, j: nat)
    requires |vs| == |ws| && forall k :: 0 <= k < |vs| ==> vs[k].ino == ws[k].ino
    ensures IndexOf(vs, j) == IndexOf(ws, j)
  {
    if vs != [] {
      SameIndex(vs[1..], ws[1..], j);
    }
  }

  lemma GrewLoaded(fs: Fs, fs': Fs, live: set<nat>, i: nat, j: nat)
    requires Grew(fs, fs', live, i)
    ensures Loaded(fs', j) == Loaded(fs, j)
  {
    SameIndex(fs.vnodes, fs'.vnodes, j);
  }

  /** A file that grew only in zero blocks reads as before. */
  lemma GrewBacking(fs: Fs, fs': Fs, live: set<nat>, i: nat, j: nat)
    requires Grew(fs, fs', live, i) && j in live
    ensures FileOf(fs', j) == FileOf(fs, j)
  {
    hide Slot, ReadBlock, Cur;
    forall o: nat | o < MAXBYTES
      ensures ByteAt(fs', j, o) == ByteAt(fs, j, o)
    {
      assert SlotGrew(fs, fs', j, o / BLOCKSIZE);
    }
  }

  // ---- Small facts -------------------------------------------------------

  lemma IndexUnique(vs: seq<Vnode>, k: nat)
    requires k < |vs|
    requires forall j, l :: 0 <= j < l < |vs| ==> vs[j].ino != vs[l].ino
    ensures IndexOf(vs, vs[k].ino) == k
  {
  }

  /** Replacing one vnode by another of the same inode keeps every position. */
  lemma {:induction false} IndexStable(vs: seq<Vnode>, k: nat, v: Vnode, i: nat)
    requires k < |vs| && v.ino == vs[k].ino
    ensures IndexOf(vs[k := v], i) == IndexOf(vs, i)
  {
    if k > 0 {
      IndexStable(vs[1..], k - 1, v, i);
      assert vs[k := v][1..] == vs[1..][k - 1 := v];
    } else {
      assert vs[k := v][1..] == vs[1..];
    }
  }

  lemma PutInodeCur(fs: Fs, i: nat, n: Inode, j: nat)
    requires Loaded(fs, i)
    ensures var fs' := PutInode(fs, i, n);
      && Loaded(fs', j) == Loaded(fs, j)
      && Cur(fs', j) == (if j == i then n else Cur(fs, j))
      && (Loaded(fs, j) && j != i ==> VnodeOf(fs', j) == VnodeOf(fs, j))
  {
    var k := IndexOf(fs.vnodes, i);
    IndexStable(fs.vnodes, k, fs.vnodes[k].(inode := n, dirty := true), j);
  }
}
