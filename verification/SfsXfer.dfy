/** A transfer between a file and memory, as values: what one call moves, and how calls compose. */
module SfsXfer {
  import opened Words
  import opened Uios
  import opened SfsState
  import B = SfsBmap
  import I = SfsIo

  datatype X = X(fs: Fs, mem: seq<byte>, base: nat, iovLen: nat, offset: nat, resid: nat)

  ghost predicate Advanced(x: X, y: X, k: nat) {
    y.base == x.base + k && y.iovLen + k == x.iovLen && y.offset == x.offset + k && y.resid + k == x.resid
  }

  /** The area still to be transferred. */
  function Area(x: X): seq<byte> {
    if x.base + x.resid <= |x.mem| then x.mem[x.base..x.base + x.resid] else []
  }

  /** A write went as w says: the volume, the result, memory untouched, and the position moved by what was written. */
  ghost predicate WDone(x: X, y: X, r: Res<()>, w: I.Written) {
    y.fs == w.fs && r == w.r && y.mem == x.mem && Advanced(x, y, w.done)
  }

  /** A read went as g says: the volume untouched, the bytes in memory, and the position moved past them. */
  ghost predicate RDone(x: X, y: X, r: Res<()>, g: I.Got) {
    && y.fs == x.fs && r == g.r && Advanced(x, y, |g.bytes|)
    && x.base + |g.bytes| <= |x.mem| && y.mem == Patch(x.mem, x.base, g.bytes)
  }

  ghost predicate Outcome(writing: bool, x: X, y: X, r: Res<()>, w: I.Written, g: I.Got) {
    if writing then WDone(x, y, r, w) else RDone(x, y, r, g)
  }

  function ChunkW(x: X, ino: nat, len: nat): I.Written {
    if x.offset % BLOCKSIZE + len <= BLOCKSIZE && len <= |Area(x)| then
      var (fs, r) := I.PartialWrite(x.fs, ino, x.offset, Area(x)[..len]);
      I.Written(fs, r, if r.Ok? then len else 0)
    else I.Written(x.fs, Ok(()), 0)
  }

  function ChunkG(x: X, ino: nat, len: nat): I.Got {
    if x.offset % BLOCKSIZE + len <= BLOCKSIZE then
      match I.ReadChunk(x.fs, ino, x.offset, len)
      case Ok(b) => I.Got(Ok(()), b)
      case Err(e) => I.Got(Err(e), [])
    else I.Got(Ok(()), [])
  }

  function BlocksW(x: X, ino: nat, n: nat): I.Written {
    if n * BLOCKSIZE <= |Area(x)| then I.WriteBlocks(x.fs, ino, x.offset, Area(x), n) else I.Written(x.fs, Ok(()), 0)
  }

  function BlocksG(x: X, ino: nat, n: nat): I.Got {
    if x.offset % BLOCKSIZE == 0 then I.ReadBlocks(x.fs, ino, x.offset, n) else I.Got(Ok(()), [])
  }

  function Plus(n: nat, w: I.Written): I.Written {
    w.(done := n + w.done)
  }

  /** k bytes into a transfer: what is left to do from here (w', g') completes the whole (w, g). */
  ghost predicate After(writing: bool, x: X, y: X, k: nat, w: I.Written, w': I.Written, g: I.Got, g': I.Got) {
    && Advanced(x, y, k) && x.base + x.resid <= |x.mem| && |y.mem| == |x.mem|
    && (writing ==> y.mem == x.mem && w == Plus(k, w'))
    && (!writing ==>
          && y.fs == x.fs && g.r == g'.r && |g.bytes| == k + |g'.bytes| && g.bytes[k..] == g'.bytes
          && y.mem == Patch(x.mem, x.base, g.bytes[..k]))
  }

  lemma ChunkRange(x: X, len: nat, skip: nat)
    requires x.base + x.resid <= |x.mem| && len <= x.resid && skip == x.offset % BLOCKSIZE && skip + len <= BLOCKSIZE
    ensures Area(x)[..len] == x.mem[x.base..x.base + len]
  {
  }

  lemma ChunkOutcome(writing: bool, x: X, y: X, ino: nat, skip: nat, len: nat, a: Res<u32>, r: Res<()>)
    requires x.base + x.resid <= |x.mem| && len <= x.resid && skip == x.offset % BLOCKSIZE && skip + len <= BLOCKSIZE
    requires a.Err? ==>
      r == Err(a.e) && Advanced(x, y, 0) && y.mem == x.mem && y.fs == B.Bmap(x.fs, ino, x.offset / BLOCKSIZE, writing).0
    requires a == B.Bmap(x.fs, ino, x.offset / BLOCKSIZE, writing).1
    requires !writing ==> B.Bmap(x.fs, ino, x.offset / BLOCKSIZE, writing).0 == x.fs
    requires a.Ok? ==> r == Ok(()) && Advanced(x, y, len)
    requires a.Ok? && writing ==> a.v != 0 && y.mem == x.mem
    requires a.Ok? && writing ==>
      var fs1 := B.Bmap(x.fs, ino, x.offset / BLOCKSIZE, writing).0;
      y.fs == WriteBlock(fs1, a.v, Patch(Contents(fs1, a.v), skip, x.mem[x.base..x.base + len]))
    requires a.Ok? && !writing ==> y.fs == x.fs && y.mem == Patch(x.mem, x.base, Contents(x.fs, a.v)[skip..skip + len])
    ensures Outcome(writing, x, y, r, ChunkW(x, ino, len), ChunkG(x, ino, len))
  {
    hide B.Bmap, WriteBlock, ReadBlock, Patch;
    ChunkRange(x, len, skip);
    if a.Err? {
      PatchNone(x.mem, x.base);
    } else {
      assert Zeros(BLOCKSIZE)[skip..skip + len] == Zeros(len);
    }
  }

  lemma WholeOutcome(writing: bool, x: X, y: X, ino: nat, a: Res<u32>, r: Res<()>)
    requires x.base + x.resid <= |x.mem| && BLOCKSIZE <= x.resid && x.offset % BLOCKSIZE == 0
    requires a.Err? ==>
      r == Err(a.e) && Advanced(x, y, 0) && y.mem == x.mem && y.fs == B.Bmap(x.fs, ino, x.offset / BLOCKSIZE, writing).0
    requires a == B.Bmap(x.fs, ino, x.offset / BLOCKSIZE, writing).1
    requires !writing ==> B.Bmap(x.fs, ino, x.offset / BLOCKSIZE, writing).0 == x.fs
    requires a.Ok? ==> r == Ok(()) && Advanced(x, y, BLOCKSIZE)
    requires a.Ok? && writing ==> a.v != 0 && y.mem == x.mem
    requires a.Ok? && writing ==>
      y.fs == WriteBlock(B.Bmap(x.fs, ino, x.offset / BLOCKSIZE, writing).0, a.v, x.mem[x.base..x.base + BLOCKSIZE])
    requires a.Ok? && !writing ==> y.fs == x.fs && y.mem == Patch(x.mem, x.base, Contents(x.fs, a.v))
    ensures Outcome(writing, x, y, r, ChunkW(x, ino, BLOCKSIZE), ChunkG(x, ino, BLOCKSIZE))
  {
    hide B.Bmap, WriteBlock, ReadBlock, Patch;
    ChunkRange(x, BLOCKSIZE, 0);
    if a.Ok? && writing {
      var fs1 := B.Bmap(x.fs, ino, x.offset / BLOCKSIZE, writing).0;
      PatchWhole(ReadBlock(fs1, a.v), x.mem[x.base..x.base + BLOCKSIZE]);
    } else if a.Ok? {
      var c := Contents(x.fs, a.v);
      assert c[0..BLOCKSIZE] == c;
    } else {
      PatchNone(x.mem, x.base);
    }
  }

  lemma AfterNothing(writing: bool, x: X, w: I.Written, g: I.Got)
    requires x.base + x.resid <= |x.mem|
    ensures After(writing, x, x, 0, w, w, g, g)
  {
    assert g.bytes[0..] == g.bytes && g.bytes[..0] == [];
  }

  /** A transfer that is complete from here on is complete. */
  lemma Chain(writing: bool, x: X, y: X, z: X, k: nat, r: Res<()>, w: I.Written, w': I.Written, g: I.Got, g': I.Got)
    requires After(writing, x, y, k, w, w', g, g') && Outcome(writing, y, z, r, w', g')
    ensures Outcome(writing, x, z, r, w, g)
  {
    hide Patch;
    if !writing {
      PatchTwice(x.mem, x.base, g.bytes[..k], g'.bytes);
      assert g.bytes[..k] + g'.bytes == g.bytes;
    }
  }

  lemma AfterTwice(writing: bool, x: X, y: X, z: X, k: nat, l: nat, w: I.Written, w': I.Written, w'': I.Written,
                   g: I.Got, g': I.Got, g'': I.Got)
    requires After(writing, x, y, k, w, w', g, g') && After(writing, y, z, l, w', w'', g', g'')
    ensures After(writing, x, z, k + l, w, w'', g, g'')
  {
    hide Patch;
    if !writing {
      PatchTwice(x.mem, x.base, g.bytes[..k], g'.bytes[..l]);
      assert g.bytes[..k] + g'.bytes[..l] == g.bytes[..k + l];
      assert g.bytes[k + l..] == g'.bytes[l..];
    }
  }

  /** A finished chunk, as the beginning of a longer transfer. */
  lemma ChunkAfter(writing: bool, x: X, y: X, ino: nat, len: nat, r: Res<()>, w: I.Written, w': I.Written, g: I.Got,
                   g': I.Got)
    requires Outcome(writing, x, y, r, ChunkW(x, ino, len), ChunkG(x, ino, len)) && r.Ok?
    requires x.base + x.resid <= |x.mem| && x.offset % BLOCKSIZE + len <= BLOCKSIZE && len <= x.resid
    requires writing ==> w == Plus(len, w')
    requires !writing ==> |ChunkG(x, ino, len).bytes| == len && g == g'.(bytes := ChunkG(x, ino, len).bytes + g'.bytes)
    ensures After(writing, x, y, len, w, w', g, g')
  {
    hide I.PartialWrite, I.ReadChunk, Patch;
    if !writing {
      var b := ChunkG(x, ino, len).bytes;
      assert g.bytes[..len] == b && g.bytes[len..] == g'.bytes;
    }
  }

  function Contents(fs: Fs, b: nat): Block {
    if b == 0 then Zeros(BLOCKSIZE) else ReadBlock(fs, b)
  }

  lemma PatchWhole(s: seq<byte>, d: seq<byte>)
    requires |s| == |d|
    ensures Patch(s, 0, d) == d
  {
  }

  lemma ChunkStore(writing: bool, x: X, y: X, r: Res<()>, live: set<nat>, ino: nat, len: nat)
    requires Outcome(writing, x, y, r, ChunkW(x, ino, len), ChunkG(x, ino, len))
    requires x.base + x.resid <= |x.mem| && x.offset % BLOCKSIZE + len <= BLOCKSIZE && len <= x.resid
    requires Store(x.fs, live, {}) && ino in live && Loaded(x.fs, ino)
    ensures Store(y.fs, live, {})
    ensures writing ==> Advanced(x, y, if r.Ok? then len else 0)
    ensures !writing ==> Advanced(x, y, |ChunkG(x, ino, len).bytes|)
    ensures r.Ok? ==> |ChunkG(x, ino, len).bytes| == len || writing
  {
    hide Store, I.PartialWrite, I.ReadChunk, I.Wrote, Backing;
    if writing {
      I.PartialPost(x.fs, live, ino, x.offset, Area(x)[..len]);
    } else {
      I.ReadChunkPost(x.fs, live, ino, x.offset, len);
    }
  }


  // ---- Whole blocks -------------------------------------------------------

  lemma ChunkLength(x: X, ino: nat, len: nat)
    requires x.offset % BLOCKSIZE + len <= BLOCKSIZE
    ensures ChunkG(x, ino, len).r.Ok? ==> |ChunkG(x, ino, len).bytes| == len
  {
  }

  lemma {:induction false} BlocksLength(fs: Fs, ino: nat, off: nat, n: nat)
    requires off % BLOCKSIZE == 0
    ensures I.ReadBlocks(fs, ino, off, n).r.Ok? ==> |I.ReadBlocks(fs, ino, off, n).bytes| == n * BLOCKSIZE
    decreases n
  {
    hide I.ReadChunk;
    if n > 0 {
      ChunkLength(X(fs, [], 0, 0, off, 0), ino, BLOCKSIZE);
      BlocksLength(fs, ino, off + BLOCKSIZE, n - 1);
    }
  }

  lemma AreaAfter(x: X, y: X, k: nat)
    requires Advanced(x, y, k) && y.mem == x.mem && x.base + x.resid <= |x.mem|
    ensures Area(y) == Area(x)[k..]
  {
  }

  /** One block more. */
  lemma BlocksNext(writing: bool, x: X, y: X, ino: nat, n: nat, r: Res<()>)
    requires n > 0 && x.offset % BLOCKSIZE == 0 && x.base + x.resid <= |x.mem| && n * BLOCKSIZE <= x.resid
    requires Outcome(writing, x, y, r, ChunkW(x, ino, BLOCKSIZE), ChunkG(x, ino, BLOCKSIZE))
    ensures r.Ok? ==> After(writing, x, y, BLOCKSIZE, BlocksW(x, ino, n), BlocksW(y, ino, n - 1), BlocksG(x, ino, n),
                            BlocksG(y, ino, n - 1))
    ensures r.Err? ==> Outcome(writing, x, y, r, BlocksW(x, ino, n), BlocksG(x, ino, n))
  {
    hide I.PartialWrite, I.BlockWrite, I.ReadChunk, Patch;
    ChunkLength(x, ino, BLOCKSIZE);
    if writing {
      I.BlockIsPartial(x.fs, ino, x.offset, Area(x)[..BLOCKSIZE]);
      if r.Ok? {
        AreaAfter(x, y, BLOCKSIZE);
        ChunkAfter(writing, x, y, ino, BLOCKSIZE, r, BlocksW(x, ino, n), BlocksW(y, ino, n - 1), BlocksG(x, ino, n),
                   BlocksG(y, ino, n - 1));
      }
    } else if r.Ok? {
      ChunkAfter(writing, x, y, ino, BLOCKSIZE, r, BlocksW(x, ino, n), BlocksW(y, ino, n - 1), BlocksG(x, ino, n),
                 BlocksG(y, ino, n - 1));
    }
  }

  lemma BlocksStep(writing: bool, x: X, y: X, z: X, ino: nat, n: nat, i: nat, r: Res<()>)
    requires i < n && y.offset % BLOCKSIZE == 0 && y.base + y.resid <= |y.mem| && (n - i) * BLOCKSIZE <= y.resid
    requires After(writing, x, y, i * BLOCKSIZE, BlocksW(x, ino, n), BlocksW(y, ino, n - i), BlocksG(x, ino, n),
                   BlocksG(y, ino, n - i))
    requires Outcome(writing, y, z, r, ChunkW(y, ino, BLOCKSIZE), ChunkG(y, ino, BLOCKSIZE))
    ensures r.Ok? ==> After(writing, x, z, (i + 1) * BLOCKSIZE, BlocksW(x, ino, n), BlocksW(z, ino, n - i - 1),
                            BlocksG(x, ino, n), BlocksG(z, ino, n - i - 1))
    ensures r.Err? ==> Outcome(writing, x, z, r, BlocksW(x, ino, n), BlocksG(x, ino, n))
  {
    hide ChunkW, ChunkG, BlocksW, BlocksG, After, Outcome;
    BlocksNext(writing, y, z, ino, n - i, r);
    if r.Ok? {
      AfterTwice(writing, x, y, z, i * BLOCKSIZE, BLOCKSIZE, BlocksW(x, ino, n), BlocksW(y, ino, n - i),
                 BlocksW(z, ino, n - i - 1),
                 BlocksG(x, ino, n), BlocksG(y, ino, n - i), BlocksG(z, ino, n - i - 1));
    } else {
      Chain(writing, x, y, z, i * BLOCKSIZE, r, BlocksW(x, ino, n), BlocksW(y, ino, n - i), BlocksG(x, ino, n),
            BlocksG(y, ino, n - i));
    }
  }

  lemma BlocksEnd(writing: bool, x: X, y: X, ino: nat, n: nat)
    requires After(writing, x, y, n * BLOCKSIZE, BlocksW(x, ino, n), BlocksW(y, ino, 0), BlocksG(x, ino, n),
                   BlocksG(y, ino, 0))
    requires y.offset % BLOCKSIZE == 0 && y.base + y.resid <= |y.mem|
    ensures Outcome(writing, x, y, Ok(()), BlocksW(x, ino, n), BlocksG(x, ino, n))
  {
    PatchNone(y.mem, y.base);
    assert Outcome(writing, y, y, Ok(()), BlocksW(y, ino, 0), BlocksG(y, ino, 0));
    Chain(writing, x, y, y, n * BLOCKSIZE, Ok(()), BlocksW(x, ino, n), BlocksW(y, ino, 0), BlocksG(x, ino, n),
          BlocksG(y, ino, 0));
  }

  // ---- A whole region -----------------------------------------------------

  function AlignedW(x: X, ino: nat): I.Written {
    if x.offset % BLOCKSIZE == 0 then I.WriteAligned(x.fs, ino, x.offset, Area(x)) else I.Written(x.fs, Ok(()), 0)
  }

  function AlignedG(x: X, ino: nat): I.Got {
    if x.offset % BLOCKSIZE == 0 then I.ReadAligned(x.fs, ino, x.offset, x.resid) else I.Got(Ok(()), [])
  }

  function RegionW(x: X, ino: nat): I.Written {
    I.WriteRegion(x.fs, ino, x.offset, Area(x))
  }

  function RegionG(x: X, ino: nat): I.Got {
    I.ReadRegion(x.fs, ino, x.offset, x.resid)
  }

  /** The whole blocks are done or have failed: what that means for the region. */
  lemma BlocksDone(writing: bool, x: X, y: X, ino: nat, r: Res<()>)
    requires x.offset % BLOCKSIZE == 0 && x.base + x.resid <= |x.mem|
    requires Outcome(writing, x, y, r, BlocksW(x, ino, x.resid / BLOCKSIZE), BlocksG(x, ino, x.resid / BLOCKSIZE))
    ensures r.Err? || y.resid == 0 ==> Outcome(writing, x, y, r, AlignedW(x, ino), AlignedG(x, ino))
    ensures r.Ok? ==> y.resid == x.resid % BLOCKSIZE && y.offset % BLOCKSIZE == 0
    ensures r.Ok? && y.resid != 0 ==>
      After(writing, x, y, x.resid - y.resid, AlignedW(x, ino), ChunkW(y, ino, y.resid), AlignedG(x, ino),
            ChunkG(y, ino, y.resid))
  {
    hide I.PartialWrite, I.WriteBlocks, I.ReadBlocks, I.ReadChunk, Patch;
    var n := x.resid / BLOCKSIZE;
    BlocksLength(x.fs, ino, x.offset, n);
    if writing && r.Ok? && y.resid != 0 {
      AreaAfter(x, y, n * BLOCKSIZE);
      assert Area(y)[..y.resid] == Area(y);
      assert ChunkW(y, ino, y.resid).r.Ok? ==> ChunkW(y, ino, y.resid).r.v == ();
    } else if !writing && r.Ok? && y.resid != 0 {
      var g := BlocksG(x, ino, n).bytes;
      var t := ChunkG(y, ino, y.resid).bytes;
      assert (g + t)[|g|..] == t && (g + t)[..|g|] == g;
      assert (g + [])[|g|..] == [] && (g + [])[..|g|] == g;
      assert y.offset == x.offset + (x.resid - x.resid % BLOCKSIZE) && y.fs == x.fs;
      assert AlignedG(x, ino).bytes == g + t;
      assert BlocksG(x, ino, n).r.v == ();
    }
  }

  /** The leading partial block is done or has failed. */
  lemma LeadDone(writing: bool, x: X, y: X, ino: nat, len: nat, r: Res<()>)
    requires x.offset % BLOCKSIZE != 0 && x.base + x.resid <= |x.mem|
    requires len == if BLOCKSIZE - x.offset % BLOCKSIZE > x.resid then x.resid else BLOCKSIZE - x.offset % BLOCKSIZE
    requires Outcome(writing, x, y, r, ChunkW(x, ino, len), ChunkG(x, ino, len))
    ensures r.Err? || y.resid == 0 ==> Outcome(writing, x, y, r, RegionW(x, ino), RegionG(x, ino))
    ensures r.Ok? ==> Advanced(x, y, len)
    ensures r.Ok? && y.resid != 0 ==> y.offset % BLOCKSIZE == 0
    ensures r.Ok? && y.resid != 0 ==>
      After(writing, x, y, len, RegionW(x, ino), AlignedW(y, ino), RegionG(x, ino), AlignedG(y, ino))
  {
    hide I.PartialWrite, I.WriteAligned, I.ReadAligned, I.ReadChunk, Patch;
    ChunkLength(x, ino, len);
    assert |Area(x)| == x.resid;
    assert x.resid == len ==> Area(x)[..len] == Area(x);
    assert r.Ok? ==> r.v == ();
    if r.Ok? && y.resid != 0 {
      if writing {
        AreaAfter(x, y, len);
      }
      ChunkAfter(writing, x, y, ino, len, r, RegionW(x, ino), AlignedW(y, ino), RegionG(x, ino), AlignedG(y, ino));
    }
  }

  lemma NothingDone(writing: bool, x: X, ino: nat)
    requires x.offset % BLOCKSIZE == 0 && x.resid == 0 && x.base <= |x.mem|
    ensures Outcome(writing, x, x, Ok(()), RegionW(x, ino), RegionG(x, ino))
  {
    PatchNone(x.mem, x.base);
  }

  lemma NoLead(x: X, ino: nat)
    requires x.offset % BLOCKSIZE == 0 && x.base + x.resid <= |x.mem| && x.resid != 0
    ensures RegionW(x, ino) == AlignedW(x, ino) && RegionG(x, ino) == AlignedG(x, ino)
  {
    hide I.WriteAligned, I.ReadAligned;
  }

  // ---- A call -------------------------------------------------------------

  function IoW(x: X, ino: nat): I.Written {
    if x.offset + |Area(x)| < 0x8000_0000 then I.WriteIo(x.fs, ino, x.offset, Area(x)) else I.Written(x.fs, Ok(()), 0)
  }

  function IoG(x: X, ino: nat): I.Got {
    I.ReadIo(x.fs, ino, x.offset, x.resid)
  }

  lemma PastEnd(x: X, ino: nat)
    requires x.offset >= Cur(x.fs, ino).size && x.base + x.resid <= |x.mem|
    ensures Outcome(false, x, x, Ok(()), IoW(x, ino), IoG(x, ino))
  {
    hide Cur;
    PatchNone(x.mem, x.base);
  }

  /** The position after a write is a size a file can record. */
  lemma WriteFits(x: X, z: X, r: Res<()>, ino: nat)
    requires Outcome(true, x, z, r, RegionW(x, ino), RegionG(x, ino)) && x.base + x.resid <= |x.mem|
    requires x.offset + x.resid < 0x8000_0000
    ensures z.offset < 0x8000_0000
  {
    hide I.WriteRegion;
  }

  /**
   * x: before the call; y: the residue cut down to the file; z: the region done; z': the size set; f: the residue
   * restored.
   */
  lemma IoDone(writing: bool, x: X, y: X, z: X, z': X, f: X, r: Res<()>, ino: nat, extra: nat)
    requires x.offset + x.resid < 0x8000_0000 && x.base + x.resid <= |x.mem|
    requires Outcome(writing, y, z, r, RegionW(y, ino), RegionG(y, ino))
    requires writing ==> extra == 0 && y == x
    requires writing ==> z' == if z.offset > Cur(z.fs, ino).size then z.(fs := SizeSet(z, ino)) else z
    requires !writing ==> z' == z && x.offset < Cur(x.fs, ino).size
    requires !writing ==>
      var end := x.offset + x.resid; var size := Cur(x.fs, ino).size; extra == if end > size then end - size else 0
    requires !writing ==> y == x.(resid := x.resid - extra)
    requires f == z'.(resid := z'.resid + extra)
    ensures Outcome(writing, x, f, r, IoW(x, ino), IoG(x, ino))
    ensures f.base + f.iovLen == x.base + x.iovLen && f.base + f.resid == x.base + x.resid
  {
    hide Cur, I.WriteRegion, I.ReadRegion, Patch, PutInode;
  }

  function SizeSet(z: X, ino: nat): Fs {
    if z.offset < 0x8000_0000 then PutInode(z.fs, ino, Cur(z.fs, ino).(size := z.offset)) else z.fs
  }
}
