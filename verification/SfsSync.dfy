/** Writing a mounted volume back to its device. */
module SfsSync {
  import opened Words
  import opened BitOps
  import opened Bitmaps
  import opened SfsLayout
  import opened SfsState
  import opened SfsKernel
  import C = SfsCalls
  import V = SfsVnode
  import O = SfsOps
  import M = SfsMount

  /** A block's worth of the bitmap's bytes is what packing the bits gives. */
  lemma PackedBlock(v: seq<byte>, used: Bits, j: nat)
    requires |used| == 8 * |v| && used == BitsOf(v, |used|) && (j + 1) * BLOCKBITS <= |used|
    ensures v[j * BLOCKSIZE..(j + 1) * BLOCKSIZE] == M.MapBlockOf(used, j)
  {
    forall o | 0 <= o < BLOCKSIZE
      ensures v[j * BLOCKSIZE + o] == M.MapBlockOf(used, j)[o]
    {
      var at := BLOCKBITS * j + 8 * o;
      PackedByte(v, used, j * BLOCKSIZE + o, at);
    }
  }

  lemma PackedByte(v: seq<byte>, used: Bits, ix: nat, at: nat)
    requires |used| == 8 * |v| && used == BitsOf(v, |used|) && ix < |v| && at == 8 * ix
    ensures v[ix] == PackByte(used[at..at + 8])
  {
    var s := used[at..at + 8];
    ByteRange();
    forall k | 0 <= k < 8
      ensures BitOf(v[ix], k) <==> BitOf(Pack(s), k)
    {
      PackBit(s, k);
      assert s[k] == used[at + k] == ByteBit(v, at + k);
      assert (at + k) / 8 == ix && (at + k) % 8 == k;
    }
    SameBits(v[ix], Pack(s), 8);
  }

  /** One block of the bitmap. */
  method MapBlock(vol: SfsVolume, j: nat)
    requires vol.Valid() && (j + 1) * BLOCKBITS <= vol.freemap.nbits && vol.freemap.nbits == 8 * vol.freemap.v.Length
    requires MAP + j < |vol.disk|
    modifies vol`disk
    ensures vol.Valid() && vol.View() == WriteBlock(old(vol.View()), MAP + j, M.MapBlockOf(old(vol.View()).used, j))
  {
    hide M.MapBlockOf, Table, SfsVolume.View, WriteBlock, BitsOf;
    vol.Parts();
    PackedBlock(vol.freemap.v[..], vol.View().used, j);
    vol.WBlock(vol.freemap.v[j * BLOCKSIZE..(j + 1) * BLOCKSIZE], MAP + j);
  }

  /** Write the free map, block by block. */
  method WriteMap(vol: SfsVolume, ghost live: set<nat>)
    requires vol.Valid() && Store(vol.View(), live, {})
    modifies vol`disk
    ensures vol.Valid() && vol.View() == M.WriteMap(old(vol.View()), BitBlocks(vol.nblocks))
    ensures BitBlocks(vol.nblocks) * BLOCKBITS == |vol.View().used|
  {
    ghost var fs := vol.View();
    MapFits(fs, live);
    hide Store, BitBlocks, M.MapBlockOf, Table, SfsVolume.View, WriteBlock, BitsOf, M.WriteMap;
    vol.Parts();
    var mapsize := BitBlocks(vol.nblocks);
    for j := 0 to mapsize
      invariant vol.Valid() && vol.View() == M.WriteMap(fs, j) && |vol.disk| == |fs.disk|
    {
      vol.Parts();
      MapStep(fs, j);
      MapBlock(vol, j);
      vol.Parts();
    }
  }

  lemma MapStep(fs: Fs, j: nat)
    requires (j + 1) * BLOCKBITS <= |fs.used|
    ensures M.WriteMap(fs, 0) == fs
    ensures M.WriteMap(fs, j + 1) == WriteBlock(M.WriteMap(fs, j), MAP + j, M.MapBlockOf(fs.used, j))
  {
    hide WriteBlock, M.MapBlockOf;
  }

  lemma MapFits(fs: Fs, live: set<nat>)
    requires Store(fs, live, {})
    ensures BitBlocks(fs.nblocks) * BLOCKBITS == |fs.used| && MAP + BitBlocks(fs.nblocks) <= |fs.disk|
  {
    hide SlotsOk, Unshared, MapExact, Clean, Placed;
    M.BitmapWhole(fs.nblocks);
  }

  /** Write back every loaded inode, in the order of the table. */
  method SyncInodes(vol: SfsVolume, ghost live: set<nat>)
    requires vol.Valid() && O.Inv(vol.View(), live)
    modifies vol`disk, vol.vnodes
    ensures vol.Valid() && vol.View() == M.SyncInodes(old(vol.View()), |old(vol.View()).vnodes|)
    ensures O.Inv(vol.View(), live)
  {
    hide SfsVolume.Valid, O.InvBut, V.SyncInode, Store, SfsVolume.View, Table;
    ghost var fs := vol.View();
    vol.Parts();
    var num := |vol.vnodes|;
    for i := 0 to num
      invariant vol.Valid() && vol.vnodes == old(vol.vnodes) && vol.View() == M.SyncInodes(fs, i)
      invariant O.Inv(vol.View(), live)
    {
      vol.Parts();
      var sv := vol.vnodes[i];
      assert vol.View().vnodes[i].ino == sv.ino;
      O.LinkStore(vol.View(), live, ROOT, 0);
      vol.VnodeAt(live, {}, sv);
      M.SyncInodeInv(vol.View(), live, sv.ino);
      C.SyncInode(vol, sv, live);
    }
  }

  /** Write everything back. */
  method Sync(vol: SfsVolume, ghost live: set<nat>)
    requires vol.Valid() && O.Inv(vol.View(), live)
    modifies vol`disk, vol`mapDirty, vol.vnodes
    ensures vol.Valid() && vol.View() == M.Sync(old(vol.View()))
  {
    hide O.InvBut, M.SyncInodes, M.WriteMap, Store, BitBlocks;
    SyncInodes(vol, live);
    if vol.mapDirty {
      O.LinkStore(vol.View(), live, ROOT, 0);
      WriteMap(vol, live);
      vol.mapDirty := false;
    }
  }
}
