/** Reading and writing a region of a file, block aligned or not. */
module SfsIo {
  import opened Words
  import opened SfsLayout
  import opened SfsState
  import opened SfsBmap

  // ---- Writing one block's worth -----------------------------------------

  /** Part of a block: fetch it, copy the bytes in, store it. */
  function PartialWrite(fs: Fs, i: nat, off: nat, d: seq<byte>): (Fs, Res<()>)
    requires off % BLOCKSIZE + |d| <= BLOCKSIZE
  {
    match Bmap(fs, i, off / BLOCKSIZE, true)
    case (fs1, Ok(b)) => (WriteBlock(fs1, b, Patch(ReadBlock(fs1, b), off % BLOCKSIZE, d)), Ok(()))
    case (fs1, Err(e)) => (fs1, Err(e))
  }

  /** A whole block: stored straight from the caller's memory. */
  function BlockWrite(fs: Fs, i: nat, off: nat, d: Block): (Fs, Res<()>) {
    match Bmap(fs, i, off / BLOCKSIZE, true)
    case (fs1, Ok(b)) => (WriteBlock(fs1, b, d), Ok(()))
    case (fs1, Err(e)) => (fs1, Err(e))
  }

  lemma BlockIsPartial(fs: Fs, i: nat, off: nat, d: Block)
    requires off % BLOCKSIZE == 0
    ensures BlockWrite(fs, i, off, d) == PartialWrite(fs, i, off, d)
  {
    var (fs1, r) := Bmap(fs, i, off / BLOCKSIZE, true);
    hide Bmap, WriteBlock, ReadBlock;
    if r.Ok? {
      assert Patch(ReadBlock(fs1, r.v), 0, d) == d;
    }
  }

  // ---- Whole regions -----------------------------------------------------

  datatype Written = Written(fs: Fs, r: Res<()>, done: nat)

  /** n whole blocks, stopping at the first failure. */
  function WriteBlocks(fs: Fs, i: nat, off: nat, d: seq<byte>, n: nat): (w: Written)
    requires n * BLOCKSIZE <= |d|
    ensures w.done <= n * BLOCKSIZE && (w.r.Ok? ==> w.done == n * BLOCKSIZE)
    decreases n
  {
    if n == 0 then Written(fs, Ok(()), 0)
    else
      match BlockWrite(fs, i, off, d[..BLOCKSIZE])
      case (fs1, Err(e)) => Written(fs1, Err(e), 0)
      case (fs1, Ok(_)) =>
        var w := WriteBlocks(fs1, i, off + BLOCKSIZE, d[BLOCKSIZE..], n - 1);
        w.(done := BLOCKSIZE + w.done)
  }

  /** The whole blocks and then the partial one at the end; off is block aligned. */
  function WriteAligned(fs: Fs, i: nat, off: nat, d: seq<byte>): (w: Written)
    requires off % BLOCKSIZE == 0
    ensures w.done <= |d| && (w.r.Ok? ==> w.done == |d|)
  {
    var n := |d| / BLOCKSIZE;
    var w := WriteBlocks(fs, i, off, d, n);
    if w.r.Err? || w.done == |d| then w
    else
      match PartialWrite(w.fs, i, off + w.done, d[w.done..])
      case (fs2, Err(e)) => Written(fs2, Err(e), w.done)
      case (fs2, Ok(_)) => Written(fs2, Ok(()), |d|)
  }

  /** Leading partial block, whole blocks, trailing partial block. */
  function WriteRegion(fs: Fs, i: nat, off: nat, d: seq<byte>): (w: Written)
    ensures w.done <= |d| && (w.r.Ok? ==> w.done == |d|)
  {
    if off % BLOCKSIZE == 0 then
      if d == [] then Written(fs, Ok(()), 0) else WriteAligned(fs, i, off, d)
    else
      var room := BLOCKSIZE - off % BLOCKSIZE;
      var len := if room > |d| then |d| else room;
      match PartialWrite(fs, i, off, d[..len])
      case (fs1, Err(e)) => Written(fs1, Err(e), 0)
      case (fs1, Ok(_)) =>
        if len == |d| then Written(fs1, Ok(()), len)
        else
          var w := WriteAligned(fs1, i, off + len, d[len..]);
          w.(done := len + w.done)
  }

  /** A write: the region, then the size if the position ended past it, success or not. */
  function WriteIo(fs: Fs, i: nat, off: nat, d: seq<byte>): Written
    requires off + |d| < 0x8000_0000
  {
    var w := WriteRegion(fs, i, off, d);
    var n := Cur(w.fs, i);
    if off + w.done > n.size then w.(fs := PutInode(w.fs, i, n.(size := off + w.done))) else w
  }

  // ---- One data block ----------------------------------------------------

  /** Writing a data block of inode i changes no slot and no other block. */
  lemma DataWrite(fs: Fs, live: set<nat>, i: nat, fb: nat, x: Block)
    requires Store(fs, live, {}) && i in live && fb < MAXBLOCKS && Slot(fs, i, fb) != 0
    ensures var b := Slot(fs, i, fb); var fs' := WriteBlock(fs, b, x);
      && DataBlock(fs, b) && b !in live
      && (forall j :: j in live ==> Cur(fs', j) == Cur(fs, j))
      && (forall j, k :: j in live && 0 <= k <= MAXBLOCKS ==> Slot(fs', j, k) == Slot(fs, j, k))
      && (forall c :: 0 <= c < fs.nblocks ==> ReadBlock(fs', c) == if c == b then x else ReadBlock(fs, c))
  {
    hide DecodeInode, WordAt, BitBlocks;
    var b := Slot(fs, i, fb);
    var fs' := WriteBlock(fs, b, x);
    forall j | j in live
      ensures Cur(fs', j) == Cur(fs, j)
    {
      assert j != b;
    }
    forall j, k | j in live && 0 <= k <= MAXBLOCKS
      ensures Slot(fs', j, k) == Slot(fs, j, k)
    {
      assert Slot(fs, j, MAXBLOCKS) == Cur(fs, j).indirect;
    }
  }

  lemma DataWriteStore(fs: Fs, live: set<nat>, i: nat, fb: nat, x: Block)
    requires Store(fs, live, {}) && i in live && fb < MAXBLOCKS && Slot(fs, i, fb) != 0
    ensures Store(WriteBlock(fs, Slot(fs, i, fb), x), live, {})
  {
    DataWrite(fs, live, i, fb, x);
    hide DecodeInode, WordAt, BitBlocks, Slot, Cur;
    var b := Slot(fs, i, fb);
    var fs' := WriteBlock(fs, b, x);
    forall c | 0 <= c < |fs.used|
      ensures fs'.used[c] <==> InUse(fs', live, {}, c)
    {
      assert fs.used[c] <==> InUse(fs, live, {}, c);
      assert Owned(fs', live, c) <==> Owned(fs, live, c);
    }
    forall k | 0 <= k < |fs.vnodes|
      ensures fs.vnodes[k].ino != b
    {
      assert fs.vnodes[k].ino in live;
    }
  }

  lemma DataWriteByte(fs: Fs, live: set<nat>, i: nat, fb: nat, x: Block, j: nat, o: nat)
    requires Store(fs, live, {}) && i in live && fb < MAXBLOCKS && Slot(fs, i, fb) != 0
    requires j in live && o < MAXBYTES
    ensures ByteAt(WriteBlock(fs, Slot(fs, i, fb), x), j, o) ==
      if j == i && o / BLOCKSIZE == fb then x[o % BLOCKSIZE] else ByteAt(fs, j, o)
  {
    DataWrite(fs, live, i, fb, x);
    hide Slot, ReadBlock, WriteBlock, BitBlocks;
    var k := o / BLOCKSIZE;
    if Slot(fs, j, k) == Slot(fs, i, fb) {
      assert j == i && k == fb;
    } else if Slot(fs, j, k) != 0 {
      assert DataBlock(fs, Slot(fs, j, k));
    }
  }

  // ---- What a write does to the files ------------------------------------

  /** Nothing but data of inode i and the free map changed. */
  ghost predicate Frame(fs: Fs, fs': Fs, live: set<nat>, i: nat) {
    && SameTable(fs, fs', i)
    && MapKept(fs, fs')
    && (forall j :: j in live ==> ReadBlock(fs', j) == ReadBlock(fs, j))
    && (forall j :: j in live && j != i ==> FileOf(fs', j) == FileOf(fs, j))
  }

  /** The bytes d now stand at off in file i; size and attributes, and every other file, are as before. */
  ghost predicate Wrote(fs: Fs, fs': Fs, live: set<nat>, i: nat, off: nat, d: seq<byte>) {
    && (d != [] ==> off + |d| <= MAXBYTES)
    && Frame(fs, fs', live, i)
    && FileOf(fs', i) == FileOf(fs, i).(bytes := Patch(FileOf(fs, i).bytes, off, d))
  }

  lemma GrewWrote(fs: Fs, fs': Fs, live: set<nat>, i: nat, off: nat)
    requires Grew(fs, fs', live, i) && i in live
    ensures Wrote(fs, fs', live, i, off, [])
  {
    hide FileOf;
    forall j | j in live
      ensures FileOf(fs', j) == FileOf(fs, j)
    {
      GrewBacking(fs, fs', live, i, j);
    }
  }

  lemma WroteTwice(fs: Fs, fs1: Fs, fs2: Fs, live: set<nat>, i: nat, off: nat, d: seq<byte>, e: seq<byte>)
    requires Wrote(fs, fs1, live, i, off, d) && Wrote(fs1, fs2, live, i, off + |d|, e)
    ensures Wrote(fs, fs2, live, i, off, d + e)
  {
    var f := FileOf(fs, i);
    var f1 := FileOf(fs1, i);
    hide FileOf, Patch, ReadBlock;
    PatchTwice(f.bytes, off, d, e);
  }

  lemma DataWriteFrame(fs: Fs, live: set<nat>, i: nat, fb: nat, x: Block)
    requires Store(fs, live, {}) && i in live && fb < MAXBLOCKS && Slot(fs, i, fb) != 0
    ensures Frame(fs, WriteBlock(fs, Slot(fs, i, fb), x), live, i)
  {
    DataWrite(fs, live, i, fb, x);
    var fs' := WriteBlock(fs, Slot(fs, i, fb), x);
    hide Slot, Cur, ByteAt, BitBlocks;
    forall j | j in live && j != i
      ensures FileOf(fs', j) == FileOf(fs, j)
    {
      forall o: nat | o < MAXBYTES
        ensures ByteAt(fs', j, o) == ByteAt(fs, j, o)
      {
        DataWriteByte(fs, live, i, fb, x, j, o);
      }
    }
  }

  /** Laying d into one block of a file lays it into the file's bytes. */
  lemma DataWriteWrote(fs: Fs, live: set<nat>, i: nat, off: nat, d: seq<byte>)
    requires Store(fs, live, {}) && i in live && off % BLOCKSIZE + |d| <= BLOCKSIZE
    requires off / BLOCKSIZE < MAXBLOCKS && Slot(fs, i, off / BLOCKSIZE) != 0
    ensures var b := Slot(fs, i, off / BLOCKSIZE);
      Wrote(fs, WriteBlock(fs, b, Patch(ReadBlock(fs, b), off % BLOCKSIZE, d)), live, i, off, d)
  {
    var fb := off / BLOCKSIZE;
    var b := Slot(fs, i, fb);
    var was := ReadBlock(fs, b);
    var x: Block := Patch(was, off % BLOCKSIZE, d);
    var fs' := WriteBlock(fs, b, x);
    DataWriteFrame(fs, live, i, fb, x);
    DataWrite(fs, live, i, fb, x);
    var f := Backing(fs, i);
    forall o: nat | o < MAXBYTES
      ensures ByteAt(fs', i, o) == Patch(f, off, d)[o]
    {
      DataWriteByte(fs, live, i, fb, x, i, o);
      PatchAt(f, off, d, o);
      PatchAt(was, off % BLOCKSIZE, d, o % BLOCKSIZE);
      OldByte(fs, i, fb, o);
      hide Slot, ByteAt, Patch, ReadBlock, WriteBlock;
      assert f[o] == ByteAt(fs, i, o);
      if o / BLOCKSIZE == fb {
        assert o - off == o % BLOCKSIZE - off % BLOCKSIZE;
      }
    }
    assert Backing(fs', i) == Patch(f, off, d);
  }

  lemma OldByte(fs: Fs, i: nat, fb: nat, o: nat)
    requires o / BLOCKSIZE == fb ==> Slot(fs, i, fb) != 0
    requires o < MAXBYTES
    ensures o / BLOCKSIZE == fb ==> ByteAt(fs, i, o) == ReadBlock(fs, Slot(fs, i, fb))[o % BLOCKSIZE]
  {
  }

  /** One block's worth: all of d or nothing, and why not. */
  ghost predicate ChunkPost(fs: Fs, fs': Fs, live: set<nat>, i: nat, off: nat, d: seq<byte>, r: Res<()>) {
    && Store(fs', live, {})
    && (r.Ok? ==> off / BLOCKSIZE < MAXBLOCKS && Wrote(fs, fs', live, i, off, d))
    && (r.Err? ==> Wrote(fs, fs', live, i, off, []))
    && (r.Err? ==>
          if off / BLOCKSIZE >= MAXBLOCKS then r.e == EINVAL
          else r.e == ENOSPC && Full(fs') && Slot(fs, i, off / BLOCKSIZE) == 0)
  }

  lemma PartialPost(fs: Fs, live: set<nat>, i: nat, off: nat, d: seq<byte>)
    requires Store(fs, live, {}) && i in live && Loaded(fs, i)
    requires off % BLOCKSIZE + |d| <= BLOCKSIZE
    ensures var (fs', r) := PartialWrite(fs, i, off, d);
      ChunkPost(fs, fs', live, i, off, d, r)
  {
    hide Bmap, Store, Wrote, Slot, Grew, ReadBlock, Patch, WriteBlock;
    BmapCorrect(fs, live, i, off / BLOCKSIZE, true);
    var (fs1, r) := Bmap(fs, i, off / BLOCKSIZE, true);
    GrewWrote(fs, fs1, live, i, off);
    if r.Ok? {
      var x: Block := Patch(ReadBlock(fs1, r.v), off % BLOCKSIZE, d);
      DataWriteStore(fs1, live, i, off / BLOCKSIZE, x);
      DataWriteWrote(fs1, live, i, off, d);
      WroteTwice(fs, fs1, WriteBlock(fs1, r.v, x), live, i, off, [], d);
      assert [] + d == d;
    }
  }

  /** How far a write got, what it wrote, and why it stopped. */
  ghost predicate RegionPost(fs: Fs, w: Written, live: set<nat>, i: nat, off: nat, d: seq<byte>) {
    && w.done <= |d|
    && Store(w.fs, live, {})
    && Wrote(fs, w.fs, live, i, off, d[..w.done])
    && (w.r.Ok? ==> w.done == |d|)
    && (w.r.Err? ==> w.done < |d| || (d == [] && off % BLOCKSIZE != 0))
    && (w.r.Err? ==>
          if (off + w.done) / BLOCKSIZE >= MAXBLOCKS then w.r.e == EINVAL else w.r.e == ENOSPC && Full(w.fs))
  }

  lemma WroteLoaded(fs: Fs, fs': Fs, live: set<nat>, i: nat, off: nat, d: seq<byte>, j: nat)
    requires Wrote(fs, fs', live, i, off, d)
    ensures Loaded(fs', j) == Loaded(fs, j)
  {
    SameIndex(fs.vnodes, fs'.vnodes, j);
  }

  /** A region that begins with a finished chunk. */
  lemma RegionAfter(fs: Fs, fs1: Fs, w: Written, live: set<nat>, i: nat, off: nat, len: nat, d: seq<byte>)
    requires len <= |d|
    requires Wrote(fs, fs1, live, i, off, d[..len])
    requires RegionPost(fs1, w, live, i, off + len, d[len..]) && (len == |d| ==> w.r.Ok?)
    ensures RegionPost(fs, w.(done := len + w.done), live, i, off, d)
  {
    hide Wrote, Store, Full;
    assert d[..len] + d[len..][..w.done] == d[..len + w.done];
    WroteTwice(fs, fs1, w.fs, live, i, off, d[..len], d[len..][..w.done]);
  }

  lemma WroteNothing(fs: Fs, live: set<nat>, i: nat, off: nat)
    ensures Wrote(fs, fs, live, i, off, [])
  {
  }

  lemma ChunkRegion(fs: Fs, fs': Fs, live: set<nat>, i: nat, off: nat, d: seq<byte>, r: Res<()>)
    requires ChunkPost(fs, fs', live, i, off, d, r) && (d != [] || off % BLOCKSIZE != 0)
    ensures RegionPost(fs, Written(fs', r, if r.Ok? then |d| else 0), live, i, off, d)
  {
    hide Wrote, Store, Full;
    assert d[..|d|] == d;
  }

  lemma {:induction false} WriteBlocksPost(fs: Fs, live: set<nat>, i: nat, off: nat, d: seq<byte>, n: nat)
    requires Store(fs, live, {}) && i in live && Loaded(fs, i)
    requires n * BLOCKSIZE <= |d| && off % BLOCKSIZE == 0
    ensures RegionPost(fs, WriteBlocks(fs, i, off, d, n), live, i, off, d[..n * BLOCKSIZE])
    decreases n
  {
    hide Wrote, Store, Full, BlockWrite, PartialWrite, Loaded;
    var e := d[..n * BLOCKSIZE];
    if n == 0 {
      WroteNothing(fs, live, i, off);
    } else {
      BlockIsPartial(fs, i, off, d[..BLOCKSIZE]);
      PartialPost(fs, live, i, off, d[..BLOCKSIZE]);
      var (fs1, r) := BlockWrite(fs, i, off, d[..BLOCKSIZE]);
      assert e[..BLOCKSIZE] == d[..BLOCKSIZE];
      if r.Ok? {
        WroteLoaded(fs, fs1, live, i, off, d[..BLOCKSIZE], i);
        WriteBlocksPost(fs1, live, i, off + BLOCKSIZE, d[BLOCKSIZE..], n - 1);
        assert d[BLOCKSIZE..][..(n - 1) * BLOCKSIZE] == e[BLOCKSIZE..];
        var w := WriteBlocks(fs1, i, off + BLOCKSIZE, d[BLOCKSIZE..], n - 1);
        RegionAfter(fs, fs1, w, live, i, off, BLOCKSIZE, e);
      }
    }
  }

  lemma WriteAlignedPost(fs: Fs, live: set<nat>, i: nat, off: nat, d: seq<byte>)
    requires Store(fs, live, {}) && i in live && Loaded(fs, i) && off % BLOCKSIZE == 0
    ensures RegionPost(fs, WriteAligned(fs, i, off, d), live, i, off, d)
  {
    hide Wrote, Store, Full, PartialWrite, Loaded, WriteBlocks;
    var n := |d| / BLOCKSIZE;
    var w := WriteBlocks(fs, i, off, d, n);
    WriteBlocksPost(fs, live, i, off, d, n);
    assert d[..n * BLOCKSIZE][..w.done] == d[..w.done];
    if w.r.Ok? && w.done < |d| {
      var rest := d[w.done..];
      WroteLoaded(fs, w.fs, live, i, off, d[..w.done], i);
      PartialPost(w.fs, live, i, off + w.done, rest);
      var (fs2, r) := PartialWrite(w.fs, i, off + w.done, rest);
      ChunkRegion(w.fs, fs2, live, i, off + w.done, rest, r);
      RegionAfter(fs, w.fs, Written(fs2, r, if r.Ok? then |rest| else 0), live, i, off, w.done, d);
    }
  }

  lemma WriteRegionPost(fs: Fs, live: set<nat>, i: nat, off: nat, d: seq<byte>)
    requires Store(fs, live, {}) && i in live && Loaded(fs, i)
    ensures RegionPost(fs, WriteRegion(fs, i, off, d), live, i, off, d)
  {
    hide Wrote, Store, Full, PartialWrite, Loaded, WriteAligned;
    if off % BLOCKSIZE == 0 {
      if d == [] {
        WroteNothing(fs, live, i, off);
      } else {
        WriteAlignedPost(fs, live, i, off, d);
      }
    } else {
      var room := BLOCKSIZE - off % BLOCKSIZE;
      var len := if room > |d| then |d| else room;
      PartialPost(fs, live, i, off, d[..len]);
      var (fs1, r) := PartialWrite(fs, i, off, d[..len]);
      ChunkRegion(fs, fs1, live, i, off, d[..len], r);
      if r.Ok? && len < |d| {
        WroteLoaded(fs, fs1, live, i, off, d[..len], i);
        WriteAlignedPost(fs1, live, i, off + len, d[len..]);
        RegionAfter(fs, fs1, WriteAligned(fs1, i, off + len, d[len..]), live, i, off, len, d);
      } else {
        assert d[..len][..0] == d[..0];
        assert len == |d| ==> d[..len] == d;
      }
    }
  }

  /** File f after the bytes d were written at off: laid over, and the size raised to reach their end. */
  function Overlay(f: File, off: nat, d: seq<byte>): File
    requires |f.bytes| == MAXBYTES
    requires d != [] ==> off + |d| <= MAXBYTES
    requires off + |d| < 0x8000_0000
  {
    f.(bytes := Patch(f.bytes, off, d), size := if off + |d| > f.size then off + |d| else f.size)
  }

  lemma SizeFrame(fs: Fs, live: set<nat>, i: nat, n: Inode)
    requires Store(fs, live, {}) && Loaded(fs, i)
    requires n.direct == Cur(fs, i).direct && n.indirect == Cur(fs, i).indirect
    ensures var fs' := PutInode(fs, i, n);
      Frame(fs, fs', live, i) && FileOf(fs', i) == File(n.size, n.kind, n.links, Backing(fs, i))
  {
    AttrSlots(fs, live, {}, i, n);
    PutInodeTable(fs, i, n);
    PutInodeDisk(fs, i, n);
    hide Slot, Cur, PutInode, Backing, Store;
  }

  lemma FrameTwice(fs: Fs, fs1: Fs, fs2: Fs, live: set<nat>, i: nat)
    requires Frame(fs, fs1, live, i) && Frame(fs1, fs2, live, i)
    ensures Frame(fs, fs2, live, i)
  {
    hide FileOf, ReadBlock, BitBlocks;
  }

  /**
   * A write keeps the store sound. Whether it succeeds or stops part way, the bytes it got through are
   * laid over the file, the size is raised to where the position ended, and no other file changes.
   * It stops only past the largest file or with every block of the volume in use.
   */
  lemma WriteCorrect(fs: Fs, live: set<nat>, i: nat, off: nat, d: seq<byte>)
    requires Store(fs, live, {}) && i in live && Loaded(fs, i)
    requires off + |d| < 0x8000_0000
    ensures var w := WriteIo(fs, i, off, d);
      && w.done <= |d|
      && (w.r.Ok? ==> w.done == |d|)
      && (w.done > 0 ==> off + w.done <= MAXBYTES)
      && Store(w.fs, live, {})
      && Frame(fs, w.fs, live, i)
      && FileOf(w.fs, i) == Overlay(FileOf(fs, i), off, d[..w.done])
      && Files(w.fs, live) == Files(fs, live)[i := Overlay(FileOf(fs, i), off, d[..w.done])]
      && (w.r.Err? ==> w.done < |d| || (d == [] && off % BLOCKSIZE != 0))
      && (w.r.Err? ==>
            if (off + w.done) / BLOCKSIZE >= MAXBLOCKS then w.r.e == EINVAL else w.r.e == ENOSPC && Full(w.fs))
  {
    hide Store, Frame, Patch, ReadBlock, FileOf, WriteRegion, Cur, PutInode;
    WriteRegionPost(fs, live, i, off, d);
    var w := WriteRegion(fs, i, off, d);
    WroteLoaded(fs, w.fs, live, i, off, d[..w.done], i);
    FileSize(w.fs, i);
    var n := Cur(w.fs, i);
    if off + w.done > n.size {
      var m: Inode := n.(size := off + w.done);
      SizeFrame(w.fs, live, i, m);
      AttrStore(w.fs, live, {}, i, m);
      FrameTwice(fs, w.fs, PutInode(w.fs, i, m), live, i);
      PutInodeDisk(w.fs, i, m);
    }
    FrameFiles(fs, WriteIo(fs, i, off, d).fs, live, i);
  }

  lemma FileSize(fs: Fs, i: nat)
    ensures FileOf(fs, i) == File(Cur(fs, i).size, Cur(fs, i).kind, Cur(fs, i).links, Backing(fs, i))
  {
  }

  lemma FrameFiles(fs: Fs, fs': Fs, live: set<nat>, i: nat)
    requires Frame(fs, fs', live, i) && i in live
    ensures Files(fs', live) == Files(fs, live)[i := FileOf(fs', i)]
  {
    hide FileOf;
  }

  // ---- Reading -----------------------------------------------------------

  function ReadChunk(fs: Fs, i: nat, off: nat, len: nat): Res<seq<byte>>
    requires off % BLOCKSIZE + len <= BLOCKSIZE
  {
    match Bmap(fs, i, off / BLOCKSIZE, false).1
    case Ok(b) =>
      if b == 0 then Ok(Zeros(len)) else Ok(ReadBlock(fs, b)[off % BLOCKSIZE..off % BLOCKSIZE + len])
    case Err(e) => Err(e)
  }

  /** What a read delivered before it finished or failed. */
  datatype Got = Got(r: Res<()>, bytes: seq<byte>)

  function ReadBlocks(fs: Fs, i: nat, off: nat, n: nat): Got
    requires off % BLOCKSIZE == 0
    decreases n
  {
    if n == 0 then Got(Ok(()), [])
    else
      match ReadChunk(fs, i, off, BLOCKSIZE)
      case Err(e) => Got(Err(e), [])
      case Ok(x) =>
        var g := ReadBlocks(fs, i, off + BLOCKSIZE, n - 1);
        g.(bytes := x + g.bytes)
  }

  function ReadAligned(fs: Fs, i: nat, off: nat, len: nat): Got
    requires off % BLOCKSIZE == 0
  {
    var g := ReadBlocks(fs, i, off, len / BLOCKSIZE);
    if g.r.Err? || len % BLOCKSIZE == 0 then g
    else
      match ReadChunk(fs, i, off + (len - len % BLOCKSIZE), len % BLOCKSIZE)
      case Err(e) => g.(r := Err(e))
      case Ok(x) => g.(bytes := g.bytes + x)
  }

  function ReadRegion(fs: Fs, i: nat, off: nat, len: nat): Got {
    if off % BLOCKSIZE == 0 then
      if len == 0 then Got(Ok(()), []) else ReadAligned(fs, i, off, len)
    else
      var room := BLOCKSIZE - off % BLOCKSIZE;
      var first := if room > len then len else room;
      match ReadChunk(fs, i, off, first)
      case Err(e) => Got(Err(e), [])
      case Ok(x) =>
        if first == len then Got(Ok(()), x)
        else
          var g := ReadAligned(fs, i, off + first, len - first);
          g.(bytes := x + g.bytes)
  }

  /** How much of a read of len bytes at off lies before the end of the file. */
  function Wanted(size: nat, off: nat, len: nat): nat {
    if off >= size then 0 else if off + len > size then size - off else len
  }

  function ReadIo(fs: Fs, i: nat, off: nat, len: nat): Got {
    if off >= Cur(fs, i).size then Got(Ok(()), [])
    else ReadRegion(fs, i, off, Wanted(Cur(fs, i).size, off, len))
  }

  /** The bytes delivered are those of the file, and only a position past the largest file fails. */
  ghost predicate GotPost(fs: Fs, i: nat, off: nat, len: nat, g: Got) {
    && |g.bytes| <= len
    && (g.bytes != [] ==> off + |g.bytes| <= MAXBYTES && g.bytes == Backing(fs, i)[off..off + |g.bytes|])
    && (g.r.Ok? ==> |g.bytes| == len)
    && (g.r.Err? ==> g.r.e == EINVAL && (off + |g.bytes|) / BLOCKSIZE >= MAXBLOCKS)
    && (g.r.Err? ==> |g.bytes| < len || (len == 0 && off % BLOCKSIZE != 0))
  }

  lemma ReadChunkPost(fs: Fs, live: set<nat>, i: nat, off: nat, len: nat)
    requires Store(fs, live, {}) && i in live && Loaded(fs, i)
    requires off % BLOCKSIZE + len <= BLOCKSIZE
    ensures var r := ReadChunk(fs, i, off, len);
      && (r.Ok? <==> off / BLOCKSIZE < MAXBLOCKS)
      && (r.Ok? ==> |r.v| == len && (len > 0 ==> off + len <= MAXBYTES && r.v == Backing(fs, i)[off..off + len]))
      && (r.Err? ==> r.e == EINVAL)
  {
    hide Bmap, Store, Slot;
    BmapCorrect(fs, live, i, off / BLOCKSIZE, false);
    var r := ReadChunk(fs, i, off, len);
    if r.Ok? && len > 0 {
      forall k: nat | k < len
        ensures r.v[k] == ByteAt(fs, i, off + k)
      {
        assert (off + k) / BLOCKSIZE == off / BLOCKSIZE;
        assert (off + k) % BLOCKSIZE == off % BLOCKSIZE + k;
      }
    }
  }

  lemma GotAfter(fs: Fs, i: nat, off: nat, first: nat, len: nat, x: seq<byte>, g: Got)
    requires |x| == first && (first > 0 ==> off + first <= MAXBYTES && x == Backing(fs, i)[off..off + first])
    requires GotPost(fs, i, off + first, len, g) && (len == 0 ==> g.r.Ok?)
    ensures GotPost(fs, i, off, first + len, g.(bytes := x + g.bytes))
  {
    hide Backing;
    var all := Backing(fs, i);
    if g.bytes == [] {
      assert x + g.bytes == x;
    } else if x == [] {
      assert x + g.bytes == g.bytes;
    } else {
      assert all[off..off + first] + all[off + first..off + first + |g.bytes|] == all[off..off + first + |g.bytes|];
    }
  }

  lemma {:induction false} ReadBlocksPost(fs: Fs, live: set<nat>, i: nat, off: nat, n: nat)
    requires Store(fs, live, {}) && i in live && Loaded(fs, i) && off % BLOCKSIZE == 0
    ensures GotPost(fs, i, off, n * BLOCKSIZE, ReadBlocks(fs, i, off, n))
    decreases n
  {
    hide ReadChunk, Store, Backing;
    if n > 0 {
      ReadChunkPost(fs, live, i, off, BLOCKSIZE);
      var r := ReadChunk(fs, i, off, BLOCKSIZE);
      if r.Ok? {
        ReadBlocksPost(fs, live, i, off + BLOCKSIZE, n - 1);
        GotAfter(fs, i, off, BLOCKSIZE, (n - 1) * BLOCKSIZE, r.v, ReadBlocks(fs, i, off + BLOCKSIZE, n - 1));
      }
    }
  }

  lemma ReadAlignedPost(fs: Fs, live: set<nat>, i: nat, off: nat, len: nat)
    requires Store(fs, live, {}) && i in live && Loaded(fs, i) && off % BLOCKSIZE == 0
    ensures GotPost(fs, i, off, len, ReadAligned(fs, i, off, len))
  {
    hide ReadChunk, Store, Backing, ReadBlocks;
    var n := len / BLOCKSIZE;
    ReadBlocksPost(fs, live, i, off, n);
    var g := ReadBlocks(fs, i, off, n);
    if g.r.Ok? && len % BLOCKSIZE != 0 {
      ReadChunkPost(fs, live, i, off + n * BLOCKSIZE, len % BLOCKSIZE);
      var r := ReadChunk(fs, i, off + n * BLOCKSIZE, len % BLOCKSIZE);
      if r.Ok? {
        GotAfter(fs, i, off, n * BLOCKSIZE, len % BLOCKSIZE, g.bytes, Got(Ok(()), r.v));
      }
    }
  }

  lemma ReadRegionPost(fs: Fs, live: set<nat>, i: nat, off: nat, len: nat)
    requires Store(fs, live, {}) && i in live && Loaded(fs, i)
    ensures GotPost(fs, i, off, len, ReadRegion(fs, i, off, len))
  {
    hide ReadChunk, Store, Backing, ReadAligned;
    if off % BLOCKSIZE == 0 {
      if len > 0 {
        ReadAlignedPost(fs, live, i, off, len);
      }
    } else {
      var room := BLOCKSIZE - off % BLOCKSIZE;
      var first := if room > len then len else room;
      ReadChunkPost(fs, live, i, off, first);
      var r := ReadChunk(fs, i, off, first);
      if r.Ok? && first < len {
        ReadAlignedPost(fs, live, i, off + first, len - first);
        GotAfter(fs, i, off, first, len - first, r.v, ReadAligned(fs, i, off + first, len - first));
      }
    }
  }

  /** A read gives exactly the file's bytes from off up to the end of the file or the length asked for. */
  lemma ReadCorrect(fs: Fs, live: set<nat>, i: nat, off: nat, len: nat)
    requires Store(fs, live, {}) && i in live && Loaded(fs, i)
    ensures var g := ReadIo(fs, i, off, len); var f := FileOf(fs, i);
      && GotPost(fs, i, off, Wanted(f.size, off, len), g)
      && (off + len <= MAXBYTES || f.size <= MAXBYTES ==> g.r.Ok?)
      && (g.r.Ok? && Wanted(f.size, off, len) > 0 ==>
            off + Wanted(f.size, off, len) <= MAXBYTES && g.bytes == f.bytes[off..off + Wanted(f.size, off, len)])
  {
    hide ReadRegion, Store, Backing;
    ReadRegionPost(fs, live, i, off, Wanted(Cur(fs, i).size, off, len));
  }
}
