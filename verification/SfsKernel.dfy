/** The file system as the kernel runs it: a volume object, vnode objects and the calls that update them in place. */
module SfsKernel {
  import opened Words
  import opened Bitmaps
  import opened Uios
  import opened SfsLayout
  import opened SfsState
  import B = SfsBmap
  import V = SfsVnode
  import O = SfsOps
  import M = SfsMount
  import opened SfsXfer

  class SfsVnode {
    const ino: nat
    var inode: Inode
    var dirty: bool
    var refs: nat
    var opens: nat

    constructor (ino: nat, inode: Inode, dirty: bool)
      ensures View() == Vnode(ino, inode, dirty, 1, 0)
    {
      this.ino, this.inode, this.dirty, refs, opens := ino, inode, dirty, 1, 0;
    }

    ghost function View(): Vnode
      reads this
    {
      Vnode(ino, inode, dirty, refs, opens)
    }
  }

  ghost function Table(vs: seq<SfsVnode>): (r: seq<Vnode>)
    reads vs
    ensures |r| == |vs| && forall k :: 0 <= k < |vs| ==> r[k] == vs[k].View()
  {
    if vs == [] then [] else [vs[0].View()] + Table(vs[1..])
  }

  lemma {:induction false} TableWithout(vs: seq<SfsVnode>, ix: nat)
    requires ix < |vs|
    ensures Table(vs[..ix] + vs[ix + 1..]) == Table(vs)[..ix] + Table(vs)[ix + 1..]
  {
    hide SfsVnode.View, Table;
    var ws := vs[..ix] + vs[ix + 1..];
    forall k | 0 <= k < |ws|
      ensures Table(ws)[k] == (Table(vs)[..ix] + Table(vs)[ix + 1..])[k]
    {
      assert ws[k] == vs[if k < ix then k else k + 1];
    }
  }

  class SfsVolume {
    const nblocks: nat
    const freemap: Bitmap
    var disk: seq<Block>
    var mapDirty: bool
    var vnodes: seq<SfsVnode>

    constructor (nblocks: nat, disk: seq<Block>, freemap: Bitmap)
      requires freemap.Valid() && freemap.nbits <= 0xffff_ffff
      ensures Valid() && this.freemap == freemap && vnodes == []
      ensures View() == Fs(nblocks, disk, freemap.View(), false, [])
    {
      this.nblocks, this.disk, this.freemap := nblocks, disk, freemap;
      mapDirty, vnodes := false, [];
    }

    ghost predicate Valid()
      reads this, freemap.v
    {
      && freemap.Valid() && freemap.nbits <= 0xffff_ffff
      && (forall j, k :: 0 <= j < k < |vnodes| ==> vnodes[j] != vnodes[k])
    }

    /** The state of the volume as a value. */
    ghost function View(): Fs
      requires Valid()
      reads this, freemap.v, vnodes
    {
      Fs(nblocks, disk, freemap.View(), mapDirty, Table(vnodes))
    }

    lemma VnodeAt(live: set<nat>, extra: set<nat>, sv: SfsVnode)
      requires Valid() && Store(View(), live, extra) && sv in vnodes
      ensures Loaded(View(), sv.ino) && VnodeOf(View(), sv.ino) == sv.View() && Cur(View(), sv.ino) == sv.inode
      ensures sv.ino in live
      ensures exists k :: 0 <= k < |vnodes| && vnodes[k] == sv && IndexOf(View().vnodes, sv.ino) == k
    {
      hide SlotsOk, Unshared, MapExact, Clean;
      var k :| 0 <= k < |vnodes| && vnodes[k] == sv;
      IndexUnique(View().vnodes, k);
    }

    /** One vnode at most has changed. */
    lemma OneChanged(was: seq<Vnode>, sv: SfsVnode, k: nat)
      requires Valid() && k < |vnodes| == |was| && vnodes[k] == sv
      requires forall j :: 0 <= j < |vnodes| && vnodes[j] != sv ==> vnodes[j].View() == was[j]
      ensures View() == Fs(nblocks, disk, freemap.View(), mapDirty, was[k := sv.View()])
    {
      hide SfsVnode.View;
      assert forall j :: 0 <= j < |vnodes| && j != k ==> vnodes[j] != sv;
      assert Table(vnodes) == was[k := sv.View()];
    }

    /** Add a vnode to the table. */
    method AddVnode(sv: SfsVnode)
      requires Valid() && sv !in vnodes
      modifies this`vnodes
      ensures Valid() && vnodes == old(vnodes) + [sv]
      ensures View() == old(View()).(vnodes := old(View()).vnodes + [sv.View()])
    {
      hide SfsVnode.View;
      ghost var was := Table(vnodes);
      vnodes := vnodes + [sv];
      assert Table(vnodes) == was + [sv.View()];
    }

    /** Take the vnode at ix out of the table. */
    method RemoveVnode(ix: nat)
      requires Valid() && ix < |vnodes|
      modifies this`vnodes
      ensures Valid() && vnodes == old(vnodes[..ix] + vnodes[ix + 1..])
      ensures View() == old(View()).(vnodes := old(View()).vnodes[..ix] + old(View()).vnodes[ix + 1..])
    {
      hide SfsVnode.View;
      TableWithout(vnodes, ix);
      vnodes := vnodes[..ix] + vnodes[ix + 1..];
    }

    /** Take a reference to a vnode. */
    method Incref(sv: SfsVnode, ghost live: set<nat>, ghost extra: set<nat>)
      requires Valid() && sv in vnodes && Store(View(), live, extra)
      modifies sv`refs
      ensures Valid() && View() == V.Load(old(View()), sv.ino) && Loaded(old(View()), sv.ino)
    {
      hide Store, Valid;
      ghost var fs := View();
      VnodeAt(live, extra, sv);
      sv.refs := sv.refs + 1;
      OneChanged(fs.vnodes, sv, IndexOf(fs.vnodes, sv.ino));
    }

    /** Change the cached inode and mark it dirty. */
    method SetInode(sv: SfsVnode, n: Inode, ghost live: set<nat>, ghost extra: set<nat>)
      requires Valid() && sv in vnodes && Store(View(), live, extra)
      modifies sv`inode, sv`dirty
      ensures Valid() && View() == PutInode(old(View()), sv.ino, n)
      ensures sv.inode == n
    {
      VnodeAt(live, extra, sv);
      hide Store;
      ghost var k := IndexOf(View().vnodes, sv.ino);
      ghost var was := View().vnodes;
      sv.inode := n;
      sv.dirty := true;
      assert Table(vnodes) == was[k := was[k].(inode := n, dirty := true)];
    }

    method WBlock(data: Block, block: nat)
      requires Valid() && block < |disk|
      modifies this`disk
      ensures Valid() && View() == WriteBlock(old(View()), block, data) && disk == old(disk)[block := data]
    {
      disk := disk[block := data];
    }

    method Balloc(ghost live: set<nat>) returns (r: Res<u32>)
      requires Valid() && Store(View(), live, {})
      modifies this`disk, this`mapDirty, freemap.v
      ensures Valid() && (View(), r) == B.Balloc(old(View())) && |disk| == old(|disk|)
    {
      hide Store;
      ghost var fs := View();
      var ok, index := freemap.Alloc();
      if !ok {
        AllTaken(fs.used);
        return Err(ENOSPC);
      }
      mapDirty := true;
      FirstFreeIs(fs.used, index);
      FreeInRange(fs, live, index);
      assert index < nblocks;
      disk := disk[index := Zeros(BLOCKSIZE)];
      return Ok(index);
    }

    /** A block that is in a slot is marked in use: the check the block map makes before handing it back. */
    method CheckUsed(block: nat, ghost live: set<nat>, ghost i: nat, ghost k: nat)
      requires Valid() && Store(View(), live, {}) && i in live && 0 <= k <= MAXBLOCKS && block == Slot(View(), i, k)
      ensures block != 0 ==> block < nblocks && View().used[block]
    {
      hide Store;
      if block != 0 {
        SlotUsed(View(), live, i, k);
        var used := freemap.IsSet(block);
        assert used;
      }
    }

    method BmapDirect(sv: SfsVnode, fileblock: nat, doalloc: bool, ghost live: set<nat>) returns (r: Res<u32>)
      requires Valid() && Store(View(), live, {}) && sv in vnodes && fileblock < NDIRECT
      modifies this`disk, this`mapDirty, freemap.v, sv`inode, sv`dirty
      ensures Valid() && (View(), r) == B.BmapDirect(old(View()), sv.ino, fileblock, doalloc)
    {
      hide Store, PutInode, Table, SfsVnode.View, B.SetDirect;
      ghost var fs := View();
      VnodeAt(live, {}, sv);
      var block := sv.inode.direct[fileblock];
      if block == 0 && doalloc {
        var a := Balloc(live);
        if a.Err? {
          return a;
        }
        block := a.v;
        B.TakeBlockStore(fs, live, block);
        VnodeAt(live, {block}, sv);
        SetInode(sv, B.SetDirect(sv.inode, fileblock, block), live, {block});
      }
      B.DirectPost(fs, live, sv.ino, fileblock, doalloc);
      CheckUsed(block, live, sv.ino, fileblock);
      return Ok(block);
    }

    /** The indirect block and its words, taking the block first if the file has none. */
    method NeedIndirect(sv: SfsVnode, ghost live: set<nat>) returns (r: Res<(u32, Words)>)
      requires Valid() && Store(View(), live, {}) && sv in vnodes
      modifies this`disk, this`mapDirty, freemap.v, sv`inode, sv`dirty
      ensures Valid() && (View(), r) == B.NeedIndirect(old(View()), sv.ino)
    {
      hide Store, PutInode, BlockWords;
      ghost var fs := View();
      VnodeAt(live, {}, sv);
      var idblock := sv.inode.indirect;
      if idblock != 0 {
        SlotUsed(fs, live, sv.ino, MAXBLOCKS);
        return Ok((idblock, BlockWords(disk[idblock])));
      }
      var a := Balloc(live);
      if a.Err? {
        return Err(a.e);
      }
      idblock := a.v;
      B.TakeBlockStore(fs, live, idblock);
      VnodeAt(live, {idblock}, sv);
      SetInode(sv, sv.inode.(indirect := idblock), live, {idblock});
      return Ok((idblock, ZeroWords()));
    }

    method BmapEntry(sv: SfsVnode, idblock: u32, idbuf: Words, idoff: nat, doalloc: bool, ghost live: set<nat>)
      returns (r: Res<u32>)
      requires Valid() && Store(View(), live, {}) && sv in vnodes && idoff < DBPERIDB
      requires idblock == Cur(View(), sv.ino).indirect != 0 && idbuf == BlockWords(ReadBlock(View(), idblock))
      modifies this`disk, this`mapDirty, freemap.v
      ensures Valid() && (View(), r) == B.BmapEntry(old(View()), idblock, idbuf, idoff, doalloc)
    {
      hide Store, WordsBlock, BlockWords, Table, View, Valid, WriteBlock, B.Balloc;
      Parts();
      ghost var fs := View();
      VnodeAt(live, {}, sv);
      SlotUsed(fs, live, sv.ino, MAXBLOCKS);
      var block := idbuf[idoff];
      if block == 0 && doalloc {
        var a := Balloc(live);
        if a.Err? {
          return a;
        }
        block := a.v;
        WBlock(WordsBlock(idbuf[idoff := block]), idblock);
      }
      B.EntryPost(fs, live, sv.ino, idoff, doalloc);
      CheckUsed(block, live, sv.ino, NDIRECT + idoff);
      return Ok(block);
    }

    /** Disk block of a block of a file; with doalloc, missing blocks are filled in. */
    method Bmap(sv: SfsVnode, fileblock: nat, doalloc: bool, ghost live: set<nat>) returns (r: Res<u32>)
      requires Valid() && Store(View(), live, {}) && sv in vnodes
      modifies this`disk, this`mapDirty, freemap.v, sv`inode, sv`dirty
      ensures Valid() && (View(), r) == B.Bmap(old(View()), sv.ino, fileblock, doalloc)
    {
      hide Store, B.BmapDirect, B.BmapEntry, B.NeedIndirect;
      ghost var fs := View();
      if fileblock < NDIRECT {
        r := BmapDirect(sv, fileblock, doalloc, live);
        return;
      }
      var idnum := (fileblock - NDIRECT) / DBPERIDB;
      var idoff := (fileblock - NDIRECT) % DBPERIDB;
      if idnum > 0 {
        return Err(EINVAL);
      }
      VnodeAt(live, {}, sv);
      if sv.inode.indirect == 0 && !doalloc {
        return Ok(0);
      }
      B.NeedIndirectPost(fs, live, sv.ino);
      var id := NeedIndirect(sv, live);
      if id.Err? {
        return Err(id.e);
      }
      r := BmapEntry(sv, id.v.0, id.v.1, idoff, doalloc, live);
    }

    /** The contents of a disk block in a buffer; block 0 is a hole and reads as zeros. */
    method Fetch(diskblock: nat) returns (iobuf: array<byte>)
      requires Valid() && diskblock < |disk|
      ensures fresh(iobuf) && iobuf[..] == Contents(View(), diskblock)
    {
      iobuf := new byte[BLOCKSIZE](_ => 0);
      if diskblock != 0 {
        ReadInto(disk[diskblock], iobuf, 0);
      }
    }

    /** A transfer in progress, as a value: the volume, the caller's memory and how far it has come. */
    ghost function Xfer(uio: Uio): X
      requires Valid()
      reads this, freemap.v, vnodes, uio, uio.mem
    {
      X(View(), uio.mem[..], uio.base, uio.iovLen, uio.offset, uio.resid)
    }

    ghost predicate Ready(uio: Uio)
      reads this, freemap.v, uio
    {
      Valid() && uio.Valid() && uio.mem != freemap.v
    }

    /** Move part of a disk block to or from the caller's memory through a buffer. */
    method Transfer(uio: Uio, diskblock: nat, skipstart: nat, len: nat)
      requires Ready(uio) && skipstart + len <= BLOCKSIZE && len <= uio.resid && diskblock < |disk|
      modifies this`disk, uio, uio.mem
      ensures Ready(uio) && Advanced(old(Xfer(uio)), Xfer(uio), len)
      ensures uio.writing ==> uio.mem[..] == old(uio.mem[..])
      ensures uio.writing ==>
        var was, d := Contents(old(View()), diskblock), old(uio.mem[uio.base..uio.base + len]);
        View() == WriteBlock(old(View()), diskblock, Patch(was, skipstart, d))
      ensures !uio.writing ==> View() == old(View())
      ensures !uio.writing ==>
        uio.mem[..] == Patch(old(uio.mem[..]), old(uio.base),
                             Contents(old(View()), diskblock)[skipstart..skipstart + len])
    {
      hide View, Valid, Patch, Contents, WriteBlock;
      var iobuf := Fetch(diskblock);
      uio.Move(iobuf, skipstart, len);
      if uio.writing {
        WBlock(iobuf[..], diskblock);
      }
    }

    /** Transfer part of one block, through a buffer. */
    method PartialIo(sv: SfsVnode, uio: Uio, skipstart: nat, len: nat, ghost live: set<nat>) returns (r: Res<()>)
      requires Ready(uio) && Store(View(), live, {}) && sv in vnodes
      requires skipstart == uio.offset % BLOCKSIZE && skipstart + len <= BLOCKSIZE && len <= uio.resid
      modifies this`disk, this`mapDirty, freemap.v, sv`inode, sv`dirty, uio, uio.mem
      ensures Ready(uio)
      ensures Outcome(uio.writing, old(Xfer(uio)), Xfer(uio), r, ChunkW(old(Xfer(uio)), sv.ino, len),
                      ChunkG(old(Xfer(uio)), sv.ino, len))
    {
      hide Store, B.Bmap, Slot, Grew, PutInode, Patch, WriteBlock, Contents, Valid, View, Outcome, ChunkW, ChunkG, Cur;
      ghost var x := Xfer(uio);
      ChunkRange(x, len, skipstart);
      var fileblock := uio.offset / BLOCKSIZE;
      VnodeAt(live, {}, sv);
      B.BmapCorrect(View(), live, sv.ino, fileblock, uio.writing);
      var a := Bmap(sv, fileblock, uio.writing, live);
      if a.Err? {
        r := Err(a.e);
      } else {
        MappedInRange(View(), live, sv.ino, fileblock);
        Parts();
        Transfer(uio, a.v, skipstart, len);
        r := Ok(());
      }
      ChunkOutcome(uio.writing, x, Xfer(uio), sv.ino, skipstart, len, a, r);
    }

    lemma Parts()
      requires Valid()
      ensures View() == Fs(nblocks, disk, freemap.View(), mapDirty, Table(vnodes))
    {
    }

    /** Transfer one whole block straight between the device and the caller's memory. */
    method BlockIo(sv: SfsVnode, uio: Uio, ghost live: set<nat>) returns (r: Res<()>)
      requires Ready(uio) && Store(View(), live, {}) && sv in vnodes
      requires uio.offset % BLOCKSIZE == 0 && BLOCKSIZE <= uio.resid
      modifies this`disk, this`mapDirty, freemap.v, sv`inode, sv`dirty, uio, uio.mem
      ensures Ready(uio)
      ensures Outcome(uio.writing, old(Xfer(uio)), Xfer(uio), r,
                      ChunkW(old(Xfer(uio)), sv.ino, BLOCKSIZE), ChunkG(old(Xfer(uio)), sv.ino, BLOCKSIZE))
    {
      hide Store, B.Bmap, Slot, Grew, PutInode, WriteBlock, ReadBlock, Patch, Valid, View, Outcome, ChunkW, ChunkG, Cur;
      ghost var x := Xfer(uio);
      ChunkRange(x, BLOCKSIZE, 0);
      var fileblock := uio.offset / BLOCKSIZE;
      VnodeAt(live, {}, sv);
      B.BmapCorrect(View(), live, sv.ino, fileblock, uio.writing);
      var a := Bmap(sv, fileblock, uio.writing, live);
      if a.Err? {
        r := Err(a.e);
      } else {
        MappedInRange(View(), live, sv.ino, fileblock);
        Parts();
        if a.v == 0 {
          uio.MoveZeros(BLOCKSIZE);
        } else {
          DeviceIo(uio, a.v);
        }
        r := Ok(());
      }
      WholeOutcome(uio.writing, x, Xfer(uio), sv.ino, a, r);
    }

    /**
     * One block through the device, with the position and the residue replaced for the transfer and then
     * restored, advanced by what was moved.
     */
    method DeviceIo(uio: Uio, diskblock: nat)
      requires Ready(uio) && diskblock < |disk| && uio.resid >= BLOCKSIZE
      modifies this`disk, uio, uio.mem
      ensures Ready(uio) && Advanced(old(Xfer(uio)), Xfer(uio), BLOCKSIZE)
      ensures uio.writing ==> uio.mem[..] == old(uio.mem[..])
      ensures uio.writing ==> View() == WriteBlock(old(View()), diskblock, old(uio.mem[uio.base..uio.base + BLOCKSIZE]))
      ensures !uio.writing ==> View() == old(View())
      ensures !uio.writing ==> uio.mem[..] == Patch(old(uio.mem[..]), old(uio.base), ReadBlock(old(View()), diskblock))
    {
      hide View, Valid, WriteBlock, Patch;
      var saveoff, saveres := uio.offset, uio.resid;
      var diskoff, diskres := diskblock * BLOCKSIZE, BLOCKSIZE;
      uio.offset := diskoff;
      uio.resid := diskres;
      var sector := new byte[BLOCKSIZE](_ => 0);
      if uio.writing {
        PatchWhole(sector[..], uio.mem[uio.base..uio.base + BLOCKSIZE]);
        uio.Move(sector, 0, BLOCKSIZE);
        WBlock(sector[..], diskblock);
      } else {
        ReadInto(disk[diskblock], sector, 0);
        DiskBlock(diskblock);
        assert sector[0..BLOCKSIZE] == disk[diskblock];
        uio.Move(sector, 0, BLOCKSIZE);
      }
      uio.offset := uio.offset - diskoff + saveoff;
      uio.resid := uio.resid + saveres - diskres;
    }

    lemma DiskBlock(b: nat)
      requires Valid() && b < |disk|
      ensures ReadBlock(View(), b) == disk[b]
    {
    }

    /** n whole blocks, one after the other. */
    method IoBlocks(sv: SfsVnode, uio: Uio, n: nat, ghost live: set<nat>) returns (r: Res<()>)
      requires Ready(uio) && Store(View(), live, {}) && sv in vnodes
      requires uio.offset % BLOCKSIZE == 0 && n * BLOCKSIZE <= uio.resid
      modifies this`disk, this`mapDirty, freemap.v, sv`inode, sv`dirty, uio, uio.mem
      ensures Ready(uio) && Store(View(), live, {})
      ensures Outcome(uio.writing, old(Xfer(uio)), Xfer(uio), r, BlocksW(old(Xfer(uio)), sv.ino, n),
                      BlocksG(old(Xfer(uio)), sv.ino, n))
    {
      hide View, Valid, Store, Outcome, After, ChunkW, ChunkG, BlocksW, BlocksG;
      var i := 0;
      ghost var x := Xfer(uio);
      AfterNothing(uio.writing, x, BlocksW(x, sv.ino, n), BlocksG(x, sv.ino, n));
      while i < n
        invariant 0 <= i <= n && Ready(uio) && Store(View(), live, {})
        invariant uio.offset == x.offset + i * BLOCKSIZE && uio.resid == x.resid - i * BLOCKSIZE
        invariant After(uio.writing, x, Xfer(uio), i * BLOCKSIZE, BlocksW(x, sv.ino, n),
                        BlocksW(Xfer(uio), sv.ino, n - i),
                        BlocksG(x, sv.ino, n), BlocksG(Xfer(uio), sv.ino, n - i))
      {
        ghost var y := Xfer(uio);
        VnodeAt(live, {}, sv);
        r := BlockIo(sv, uio, live);
        ChunkStore(uio.writing, y, Xfer(uio), r, live, sv.ino, BLOCKSIZE);
        BlocksStep(uio.writing, x, y, Xfer(uio), sv.ino, n, i, r);
        if r.Err? {
          return;
        }
        i := i + 1;
      }
      r := Ok(());
      BlocksEnd(uio.writing, x, Xfer(uio), sv.ino, n);
    }

    /** Leading partial block, whole blocks, trailing partial block. */
    method IoRegion(sv: SfsVnode, uio: Uio, ghost live: set<nat>) returns (r: Res<()>)
      requires Ready(uio) && Store(View(), live, {}) && sv in vnodes
      modifies this`disk, this`mapDirty, freemap.v, sv`inode, sv`dirty, uio, uio.mem
      ensures Ready(uio) && Store(View(), live, {})
      ensures Outcome(uio.writing, old(Xfer(uio)), Xfer(uio), r, RegionW(old(Xfer(uio)), sv.ino),
                      RegionG(old(Xfer(uio)), sv.ino))
    {
      hide View, Valid, Store, Outcome, After, ChunkW, ChunkG, AlignedW, AlignedG, RegionW, RegionG;
      ghost var x := Xfer(uio);
      var blkoff := uio.offset % BLOCKSIZE;
      if blkoff == 0 {
        if uio.resid == 0 {
          r := Ok(());
          NothingDone(uio.writing, x, sv.ino);
        } else {
          NoLead(x, sv.ino);
          r := IoAligned(sv, uio, live);
        }
        return;
      }
      var skip := blkoff;
      var len := BLOCKSIZE - blkoff;
      if len > uio.resid {
        len := uio.resid;
      }
      VnodeAt(live, {}, sv);
      r := PartialIo(sv, uio, skip, len, live);
      ghost var y := Xfer(uio);
      ChunkStore(uio.writing, x, y, r, live, sv.ino, len);
      LeadDone(uio.writing, x, y, sv.ino, len, r);
      if r.Err? || uio.resid == 0 {
        return;
      }
      r := IoAligned(sv, uio, live);
      Chain(uio.writing, x, y, Xfer(uio), len, r, RegionW(x, sv.ino), AlignedW(y, sv.ino), RegionG(x, sv.ino),
            AlignedG(y, sv.ino));
    }

    /**
     * Read or write a file: the end of the file bounds a read, and a write past it moves it, whether it succeeds or
     * not.
     */
    method Io(sv: SfsVnode, uio: Uio, ghost live: set<nat>) returns (r: Res<()>)
      requires Ready(uio) && Store(View(), live, {}) && sv in vnodes && uio.offset + uio.resid < 0x8000_0000
      modifies this`disk, this`mapDirty, freemap.v, sv`inode, sv`dirty, uio, uio.mem
      ensures Ready(uio)
      ensures Outcome(uio.writing, old(Xfer(uio)), Xfer(uio), r, IoW(old(Xfer(uio)), sv.ino),
                      IoG(old(Xfer(uio)), sv.ino))
    {
      hide View, Valid, Store, Outcome, RegionW, RegionG, IoW, IoG, PutInode, Cur;
      ghost var x := Xfer(uio);
      VnodeAt(live, {}, sv);
      var extraresid := 0;
      if !uio.writing {
        var size := sv.inode.size;
        var endpos := uio.offset + uio.resid;
        if uio.offset >= size {
          r := Ok(());
          PastEnd(x, sv.ino);
          return;
        }
        if endpos > size {
          extraresid := endpos - size;
          uio.resid := uio.resid - extraresid;
        }
      }
      ghost var y := Xfer(uio);
      r := IoRegion(sv, uio, live);
      ghost var z := Xfer(uio);
      VnodeAt(live, {}, sv);
      if uio.writing && uio.offset > sv.inode.size {
        WriteFits(x, z, r, sv.ino);
        SetInode(sv, sv.inode.(size := uio.offset), live, {});
      }
      ghost var z' := Xfer(uio);
      uio.resid := uio.resid + extraresid;
      IoDone(uio.writing, x, y, z, z', Xfer(uio), r, sv.ino, extraresid);
    }

    method IoAligned(sv: SfsVnode, uio: Uio, ghost live: set<nat>) returns (r: Res<()>)
      requires Ready(uio) && Store(View(), live, {}) && sv in vnodes && uio.offset % BLOCKSIZE == 0
      modifies this`disk, this`mapDirty, freemap.v, sv`inode, sv`dirty, uio, uio.mem
      ensures Ready(uio) && Store(View(), live, {})
      ensures Outcome(uio.writing, old(Xfer(uio)), Xfer(uio), r, AlignedW(old(Xfer(uio)), sv.ino),
                      AlignedG(old(Xfer(uio)), sv.ino))
    {
      hide View, Valid, Store, Outcome, After, ChunkW, ChunkG, BlocksW, BlocksG, AlignedW, AlignedG;
      ghost var x := Xfer(uio);
      var nblocks := uio.resid / BLOCKSIZE;
      r := IoBlocks(sv, uio, nblocks, live);
      ghost var y := Xfer(uio);
      BlocksDone(uio.writing, x, y, sv.ino, r);
      if r.Err? || uio.resid == 0 {
        return;
      }
      VnodeAt(live, {}, sv);
      r := PartialIo(sv, uio, 0, uio.resid, live);
      ChunkStore(uio.writing, y, Xfer(uio), r, live, sv.ino, y.resid);
      Chain(uio.writing, x, y, Xfer(uio), x.resid - y.resid, r,
            AlignedW(x, sv.ino), ChunkW(y, sv.ino, y.resid), AlignedG(x, sv.ino), ChunkG(y, sv.ino, y.resid));
    }
  }

  lemma MappedInRange(fs: Fs, live: set<nat>, i: nat, k: nat)
    requires Store(fs, live, {}) && i in live && k < MAXBLOCKS
    ensures Slot(fs, i, k) < |fs.disk|
  {
    if Slot(fs, i, k) == 0 {
      O.StoreRoot(fs, live);
    } else {
      SlotUsed(fs, live, i, k);
    }
  }

  /** Block j of the bitmap has been read. */
  ghost predicate Holds(v: seq<byte>, disk: seq<Block>, j: nat) {
    (j + 1) * BLOCKSIZE <= |v| && MAP + j < |disk| && v[j * BLOCKSIZE..(j + 1) * BLOCKSIZE] == disk[MAP + j]
  }

  lemma MountedBit(v: seq<byte>, disk: seq<Block>, nblocks: nat, b: nat)
    requires b < BitmapSize(nblocks) <= 8 * |v| && BitmapSize(nblocks) <= 0xffff_ffff
    requires MetaEnd(nblocks) <= |disk|
    requires forall j: nat :: j < BitBlocks(nblocks) ==> Holds(v, disk, j)
    ensures ByteBit(v, b) == M.MapBits(disk, nblocks)[b]
  {
    O.MapBlock(nblocks, b);
    var j := b / BLOCKBITS;
    assert Holds(v, disk, j);
    assert v[j * BLOCKSIZE..(j + 1) * BLOCKSIZE][b % BLOCKBITS / 8] == v[b / 8];
  }

  /** Mount a device: check the magic number, believe the block count, and read the bitmap block by block. */
  method DoMount(device: seq<Block>) returns (r: Res<SfsVolume>)
    requires |device| > 0 && BitmapSize(WordAt(device[SB], 1)) <= 0xffff_ffff
    requires MetaEnd(WordAt(device[SB], 1)) <= |device|
    ensures r.Err? ==> M.Mount(device) == Err(r.e)
    ensures r.Ok? ==> fresh(r.v) && fresh(r.v.freemap.v) && r.v.Valid() && M.Mount(device) == Ok(r.v.View())
  {
    if WordAt(device[SB], 0) != MAGIC {
      return Err(EINVAL);
    }
    var nblocks := WordAt(device[SB], 1);
    var freemap := new Bitmap(BitmapSize(nblocks));
    M.BitmapWhole(nblocks);
    assert freemap.v.Length == BitBlocks(nblocks) * BLOCKSIZE;
    ghost var fm := freemap.v;
    for j := 0 to BitBlocks(nblocks)
      invariant forall i: nat :: i < j ==> Holds(freemap.v[..], device, i)
    {
      ghost var was := freemap.v[..];
      ReadInto(device[MAP + j], freemap.v, j * BLOCKSIZE);
      forall i: nat | i <= j
        ensures Holds(freemap.v[..], device, i)
      {
        assert i < j ==> Holds(was, device, i);
      }
    }
    forall b: nat | b < BitmapSize(nblocks)
      ensures ByteBit(freemap.v[..], b) == M.MapBits(device, nblocks)[b]
    {
      MountedBit(freemap.v[..], device, nblocks, b);
    }
    assert freemap.View() == M.MapBits(device, nblocks);
    var vol := new SfsVolume(nblocks, device, freemap);
    return Ok(vol);
  }

  /** Read one block of the device into an array. */
  method ReadInto(block: Block, a: array<byte>, at: nat)
    requires at + BLOCKSIZE <= a.Length
    modifies a
    ensures a[..] == old(a[..at]) + block + old(a[at + BLOCKSIZE..])
  {
    for k := 0 to BLOCKSIZE
      invariant a[..] == old(a[..at]) + block[..k] + old(a[at + k..])
    {
      a[at + k] := block[k];
      assert block[..k + 1] == block[..k] + [block[k]];
    }
    assert block[..BLOCKSIZE] == block;
  }

  /** A clear bit is that of a block the device has. */
  lemma FreeInRange(fs: Fs, live: set<nat>, b: nat)
    requires Store(fs, live, {}) && b < |fs.used| && !fs.used[b]
    ensures b < fs.nblocks == |fs.disk|
  {
    hide SlotsOk, Unshared, Clean, Placed, Owned, BitBlocks;
    assert !InUse(fs, live, {}, b);
  }

  lemma SlotUsed(fs: Fs, live: set<nat>, i: nat, k: nat)
    requires Store(fs, live, {}) && i in live && 0 <= k <= MAXBLOCKS && Slot(fs, i, k) != 0
    ensures Slot(fs, i, k) < fs.nblocks == |fs.disk| && Slot(fs, i, k) < |fs.used| && fs.used[Slot(fs, i, k)]
    ensures k == MAXBLOCKS ==> Slot(fs, i, k) == Cur(fs, i).indirect
  {
    assert k == MAXBLOCKS ==> Slot(fs, i, k) == Cur(fs, i).indirect;
    hide Slot, Unshared, Clean, BitBlocks;
    V.BitmapCovers(fs.nblocks);
    var b := Slot(fs, i, k);
    assert fs.used[b] <==> InUse(fs, live, {}, b);
  }

  lemma AllTaken(used: Bits)
    requires forall b :: 0 <= b < |used| ==> used[b]
    ensures B.FirstFree(used) == |used|
  {
  }

  lemma FirstFreeIs(used: Bits, b: nat)
    requires b < |used| && !used[b] && forall j :: 0 <= j < b ==> used[j]
    ensures B.FirstFree(used) == b
  {
  }
}
