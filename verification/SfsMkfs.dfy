/** Making a volume: what mksfs writes, and that it is a sound, empty volume. */
module SfsMkfs {
  import opened Words
  import opened BitOps
  import opened Bitmaps
  import opened SfsLayout
  import opened SfsState
  import opened SfsVnode
  import opened SfsDir
  import opened SfsOps
  import opened SfsMount

  const VOLNAME_SIZE: nat := 32

  function SuperBlock(nblocks: u32, volname: Name): Block
    requires |volname| < VOLNAME_SIZE
  {
    WordBytes(MAGIC) + WordBytes(nblocks) + volname + Zeros(BLOCKSIZE - 8 - |volname|)
  }

  function RootInode(): Inode {
    BlankInode().(kind := TYPE_DIR, links := 1)
  }

  /** What a newly made disk holds; blocks of the data area may hold anything. */
  ghost predicate Made(disk: seq<Block>) {
    var n := |disk|;
    && MetaEnd(n) <= n <= MAXBITBLOCKS * BLOCKBITS
    && WordAt(disk[SB], 0) == MAGIC && WordAt(disk[SB], 1) == n
    && disk[ROOT] == EncodeInode(RootInode())
    && forall b: nat :: b < BitmapSize(n) ==>
         (BitOf(disk[MAP + b / BLOCKBITS][b % BLOCKBITS / 8], b % 8) <==> b < MetaEnd(n) || b >= n)
  }

  lemma SuperWords(nblocks: u32, volname: Name)
    requires |volname| < VOLNAME_SIZE
    ensures var b := SuperBlock(nblocks, volname); WordAt(b, 0) == MAGIC && WordAt(b, 1) == nblocks
  {
    WordOfBytes(MAGIC);
    WordOfBytes(nblocks);
    hide ByteOf, WordOf;
  }

  // ---- The empty volume is sound -----------------------------------------

  lemma MadeMount(disk: seq<Block>)
    requires Made(disk)
    ensures BitmapSize(|disk|) <= 0xffff_ffff
    ensures var r := Mount(disk);
      && r.Ok? && r.v.nblocks == |disk| && r.v.disk == disk && r.v.vnodes == [] && !r.v.mapDirty
      && |r.v.used| == BitmapSize(|disk|)
      && (forall b :: 0 <= b < |r.v.used| ==> (r.v.used[b] <==> b < MetaEnd(|disk|) || b >= |disk|))
      && MapSaved(r.v)
  {
    hide BitOf, WordAt, EncodeInode;
    var fs := Mount(disk).v;
    forall b | 0 <= b < |fs.used|
      ensures DiskBit(fs, b) <==> fs.used[b]
      ensures fs.used[b] <==> b < MetaEnd(|disk|) || b >= |disk|
    {
      MapBlock(|disk|, b);
    }
  }

  lemma MadeRoot(fs: Fs)
    requires fs.vnodes == [] && |fs.disk| > ROOT && fs.disk[ROOT] == EncodeInode(RootInode())
    ensures Cur(fs, ROOT) == RootInode() && forall k :: 0 <= k <= MAXBLOCKS ==> Slot(fs, ROOT, k) == 0
    ensures FileOf(fs, ROOT) == File(0, TYPE_DIR, 1, Zeros(MAXBYTES))
  {
    hide EncodeInode, DecodeInode, WordAt;
    InodeRoundTrip(RootInode());
    hide Backing;
    BackingEmpty(fs, ROOT);
  }

  ghost predicate MadeBits(fs: Fs) {
    && fs.nblocks == |fs.disk| && |fs.used| == BitmapSize(fs.nblocks)
    && forall b :: 0 <= b < |fs.used| ==> (fs.used[b] <==> b < MetaEnd(fs.nblocks) || b >= fs.nblocks)
  }

  lemma MadeShape(fs: Fs)
    requires fs.vnodes == [] && Made(fs.disk) && fs.nblocks == |fs.disk| && |fs.used| == BitmapSize(fs.nblocks)
    ensures Shape(fs) && Placed(fs, {ROOT}) && Clean(fs)
  {
    hide BitBlocks, BitOf, EncodeInode, WordAt;
  }

  lemma MadeMap(fs: Fs)
    requires MadeBits(fs) && MetaEnd(fs.nblocks) > ROOT
    requires forall k :: 0 <= k <= MAXBLOCKS ==> Slot(fs, ROOT, k) == 0
    ensures SlotsOk(fs, {ROOT}) && Unshared(fs, {ROOT}) && MapExact(fs, {ROOT}, {})
  {
    hide Slot, BitBlocks, MetaEnd;
    forall b: nat | b != 0
      ensures !Owned(fs, {ROOT}, b)
    {
    }
  }

  lemma MadeStore(fs: Fs)
    requires fs.vnodes == [] && Made(fs.disk) && MadeBits(fs)
    ensures Store(fs, {ROOT}, {})
  {
    hide Slot, Cur, BitBlocks, BitOf, EncodeInode, FileOf, WordAt, Shape, Placed, Clean, SlotsOk, Unshared, MapExact;
    MadeRoot(fs);
    MadeShape(fs);
    MadeMap(fs);
  }

  lemma EmptyDir(f: File)
    requires f == File(0, TYPE_DIR, 1, Zeros(MAXBYTES))
    ensures DirFile(f) && DirSlots(f) == []
  {
  }

  lemma EmptyInv(fs: Fs)
    requires fs.vnodes == [] && Store(fs, {ROOT}, {}) && MapSaved(fs)
    requires FileOf(fs, ROOT) == File(0, TYPE_DIR, 1, Zeros(MAXBYTES))
    ensures Inv(fs, {ROOT}) && NamesOf(fs) == map[]
  {
    hide Store, MapSaved, FileOf, DirSlots;
    EmptyDir(FileOf(fs, ROOT));
    assert SlotsOf(fs) == [];
    assert AttrOk(fs, SlotsOf(fs), ROOT, ROOT, 0);
  }

  /** Mounting what mksfs wrote gives a sound volume with an empty directory and only the root live. */
  lemma MadeInv(disk: seq<Block>)
    requires Made(disk)
    ensures BitmapSize(|disk|) <= 0xffff_ffff
    ensures Mount(disk).Ok? && Inv(Mount(disk).v, {ROOT}) && NamesOf(Mount(disk).v) == map[]
  {
    hide InvBut, MapSaved, Mount, Cur, Slot, EncodeInode, BitOf, WordAt, BitBlocks, FileOf, RootInode, NameMap, SlotsOf;
    hide Store;
    MadeMount(disk);
    var fs := Mount(disk).v;
    MadeStore(fs);
    MadeRoot(fs);
    EmptyInv(fs);
  }

  // ---- The program -------------------------------------------------------

  /** Mark one bit, which must not be marked yet. */
  method DoAllocBit(bitbuf: array<byte>, bit: nat)
    requires bit < 8 * bitbuf.Length && !ByteBit(bitbuf[..], bit)
    modifies bitbuf
    ensures forall b: nat :: b < 8 * bitbuf.Length ==>
      (ByteBit(bitbuf[..], b) <==> ByteBit(old(bitbuf[..]), b) || b == bit)
  {
    ghost var was := bitbuf[..];
    SetByteFits(bitbuf[bit / 8], bit % 8);
    bitbuf[bit / 8] := SetBit(bitbuf[bit / 8], bit % 8);
    assert bitbuf[..] == was[bit / 8 := SetBit(was[bit / 8], bit % 8)];
    forall b: nat | b < 8 * bitbuf.Length
      ensures ByteBit(bitbuf[..], b) <==> ByteBit(was, b) || b == bit
    {
      SetByteBit(was, bit / 8, bit % 8, b);
    }
  }

  /** Mark the superblock, the root inode, the bitmap's own blocks and everything past the end of the disk. */
  method MarkMap(bitbuf: array<byte>, fsblocks: nat)
    requires bitbuf.Length == MAXBITBLOCKS * BLOCKSIZE && BitBlocks(fsblocks) <= MAXBITBLOCKS
    requires MetaEnd(fsblocks) <= fsblocks
    requires forall b: nat :: b < 8 * bitbuf.Length ==> !ByteBit(bitbuf[..], b)
    modifies bitbuf
    ensures forall b: nat :: b < BitmapSize(fsblocks) ==>
      (ByteBit(bitbuf[..], b) <==> b < MetaEnd(fsblocks) || b >= fsblocks)
  {
    var nbits := BitmapSize(fsblocks);
    var nblocks := BitBlocks(fsblocks);
    BitmapCovers(fsblocks);
    DoAllocBit(bitbuf, SB);
    DoAllocBit(bitbuf, ROOT);
    for i := 0 to nblocks
      invariant forall b: nat :: b < 8 * bitbuf.Length ==> (ByteBit(bitbuf[..], b) <==> b < MAP + i)
    {
      DoAllocBit(bitbuf, MAP + i);
    }
    for i := fsblocks to nbits
      invariant forall b: nat :: b < 8 * bitbuf.Length ==>
        (ByteBit(bitbuf[..], b) <==> b < MAP + nblocks || fsblocks <= b < i)
    {
      DoAllocBit(bitbuf, i);
    }
  }

  lemma SlicedBit(v: seq<byte>, b: nat)
    requires b / 8 < |v| && (b / BLOCKBITS + 1) * BLOCKSIZE <= |v|
    ensures var j := b / BLOCKBITS; v[j * BLOCKSIZE..(j + 1) * BLOCKSIZE][b % BLOCKBITS / 8] == v[b / 8]
  {
  }

  /** A new volume on a device, whatever the device held; refused for a long name or a device too large. */
  method Mksfs(device: seq<Block>, volname: Name) returns (r: Res<seq<Block>>)
    requires MetaEnd(|device|) <= |device|
    ensures r.Ok? <==> |volname| < VOLNAME_SIZE && BitBlocks(|device|) <= MAXBITBLOCKS
    ensures r.Ok? ==> |r.v| == |device| && Made(r.v)
    ensures r.Ok? ==> forall b :: MetaEnd(|device|) <= b < |device| ==> r.v[b] == device[b]
    ensures r.Err? ==> r.e == EINVAL
  {
    var size := |device|;
    if |volname| >= VOLNAME_SIZE {
      return Err(EINVAL);
    }
    if BitBlocks(size) > MAXBITBLOCKS {
      return Err(EINVAL);
    }
    assert size <= MAXBITBLOCKS * BLOCKBITS;
    var disk: seq<Block> := device[SB := SuperBlock(size, volname)];
    SuperWords(size, volname);
    disk := disk[ROOT := EncodeInode(RootInode())];
    var bitbuf := new byte[MAXBITBLOCKS * BLOCKSIZE](_ => 0);
    ZeroBits(bitbuf[..]);
    MarkMap(bitbuf, size);
    ghost var start := disk;
    for i := 0 to BitBlocks(size)
      invariant |disk| == size
      invariant forall b :: 0 <= b < size && !(MAP <= b < MAP + i) ==> disk[b] == start[b]
      invariant forall j: nat :: j < i ==> disk[MAP + j] == bitbuf[j * BLOCKSIZE..(j + 1) * BLOCKSIZE]
    {
      disk := disk[MAP + i := bitbuf[i * BLOCKSIZE..(i + 1) * BLOCKSIZE]];
    }
    forall b: nat | b < BitmapSize(size)
      ensures BitOf(disk[MAP + b / BLOCKBITS][b % BLOCKBITS / 8], b % 8) <==> b < MetaEnd(size) || b >= size
    {
      MapBlock(size, b);
      SlicedBit(bitbuf[..], b);
      assert ByteBit(bitbuf[..], b) <==> b < MetaEnd(size) || b >= size;
    }
    return Ok(disk);
  }
}
