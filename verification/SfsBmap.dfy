/** Block allocation and the map from file blocks to disk blocks. */
module SfsBmap {
  import opened Words
  import opened SfsLayout
  import opened SfsState

  // ---- Allocation --------------------------------------------------------

  /** First clear bit, or the length of the bitmap when all are set. */
  function FirstFree(used: seq<bool>): (b: nat)
    ensures b <= |used|
    ensures b < |used| ==> !used[b]
    ensures forall j :: 0 <= j < b ==> used[j]
  {
    if used == [] || !used[0] then 0 else 1 + FirstFree(used[1..])
  }

  function TakeBlock(fs: Fs, b: nat): Fs
    requires b < |fs.used|
  {
    WriteBlock(fs.(used := fs.used[b := true], mapDirty := true), b, Zeros(BLOCKSIZE))
  }

  function Balloc(fs: Fs): (Fs, Res<u32>) {
    var b := FirstFree(fs.used);
    if b == |fs.used| then (fs, Err(ENOSPC)) else (TakeBlock(fs, b), Ok(b))
  }

  /** What taking a free block changes: only that block's bit and bytes. */
  lemma TakeBlockSlots(fs: Fs, live: set<nat>, b: nat)
    requires Store(fs, live, {})
    requires b < |fs.used| && !fs.used[b]
    ensures DataBlock(fs, b) && b !in live && !Owned(fs, live, b)
    ensures var fs' := TakeBlock(fs, b);
      && fs'.disk == fs.disk[b := Zeros(BLOCKSIZE)]
      && (forall i :: i in live ==> Cur(fs', i) == Cur(fs, i))
      && (forall i, k :: i in live && 0 <= k <= MAXBLOCKS ==> Slot(fs', i, k) == Slot(fs, i, k))
  {
    assert !InUse(fs, live, {}, b);
    var fs' := TakeBlock(fs, b);
    forall i | i in live
      ensures Cur(fs', i) == Cur(fs, i)
    {
      assert i != b;
    }
    forall i, k | i in live && 0 <= k <= MAXBLOCKS
      ensures Slot(fs', i, k) == Slot(fs, i, k)
    {
      assert Slot(fs, i, MAXBLOCKS) == Cur(fs, i).indirect;
    }
  }

  lemma TakeBlockStore(fs: Fs, live: set<nat>, b: nat)
    requires Store(fs, live, {})
    requires b < |fs.used| && !fs.used[b]
    ensures Store(TakeBlock(fs, b), live, {b})
  {
    TakeBlockSlots(fs, live, b);
    var fs' := TakeBlock(fs, b);
    forall c | 0 <= c < |fs.used|
      ensures fs'.used[c] <==> InUse(fs', live, {b}, c)
    {
      assert fs.used[c] <==> InUse(fs, live, {}, c);
      assert Owned(fs', live, c) <==> Owned(fs, live, c);
    }
    assert Clean(fs') by {
      forall k | 0 <= k < |fs.vnodes|
        ensures fs.vnodes[k].ino != b
      {
        assert fs.vnodes[k].ino in live;
      }
    }
  }

  // ---- Placing a block in a slot -----------------------------------------

  /** fs' differs from fs, as far as slots go, in slot s of inode i alone, which now holds b. */
  ghost predicate Fills(fs: Fs, fs': Fs, live: set<nat>, i: nat, s: nat, b: nat) {
    forall j, k :: j in live && 0 <= k <= MAXBLOCKS ==>
      Slot(fs', j, k) == if j == i && k == s then b else Slot(fs, j, k)
  }

  lemma FillStore(fs: Fs, fs': Fs, live: set<nat>, i: nat, s: nat, b: nat)
    requires Store(fs, live, {b}) && Shape(fs') && Placed(fs', live) && Clean(fs')
    requires fs'.used == fs.used && fs'.nblocks == fs.nblocks
    requires i in live && 0 <= s <= MAXBLOCKS && Slot(fs, i, s) == 0
    requires Fills(fs, fs', live, i, s, b)
    ensures Store(fs', live, {})
  {
    assert b in {b};
    forall c | 0 <= c < |fs.used|
      ensures fs'.used[c] <==> InUse(fs', live, {}, c)
    {
      assert fs.used[c] <==> InUse(fs, live, {b}, c);
      if c == b {
        assert Slot(fs', i, s) == b;
      } else if c != 0 && Owned(fs, live, c) {
        var j, k :| j in live && 0 <= k <= MAXBLOCKS && Slot(fs, j, k) == c;
        assert Slot(fs', j, k) == c;
      }
    }
    forall j, k, l, m |
      j in live && 0 <= k <= MAXBLOCKS && l in live && 0 <= m <= MAXBLOCKS
      && Slot(fs', j, k) != 0 && Slot(fs', j, k) == Slot(fs', l, m)
      ensures j == l && k == m
    {
      assert !Owned(fs, live, b);
    }
  }

  function SetDirect(n: Inode, k: nat, b: u32): Inode
    requires k < NDIRECT
  {
    n.(direct := n.direct[k := b])
  }

  lemma PutInodeShape(fs: Fs, live: set<nat>, i: nat, n: Inode)
    requires Shape(fs) && Placed(fs, live) && Clean(fs) && Loaded(fs, i)
    ensures var fs' := PutInode(fs, i, n); Shape(fs') && Placed(fs', live) && Clean(fs')
  {
  }

  lemma PlaceDirect(fs: Fs, live: set<nat>, i: nat, k: nat, b: u32)
    requires Store(fs, live, {b}) && i in live && Loaded(fs, i)
    requires k < NDIRECT && Slot(fs, i, k) == 0
    ensures var fs' := PutInode(fs, i, SetDirect(Cur(fs, i), k, b));
      Fills(fs, fs', live, i, k, b) && Store(fs', live, {})
  {
    hide DecodeInode, WordAt, BitBlocks;
    var n := SetDirect(Cur(fs, i), k, b);
    var fs' := PutInode(fs, i, n);
    forall j { PutInodeCur(fs, i, n, j); }
    PutInodeShape(fs, live, i, n);
    FillStore(fs, fs', live, i, k, b);
  }

  lemma PlaceIndirect(fs: Fs, live: set<nat>, i: nat, b: u32)
    requires Store(fs, live, {b}) && i in live && Loaded(fs, i)
    requires b != 0 && ReadBlock(fs, b) == Zeros(BLOCKSIZE) && Cur(fs, i).indirect == 0
    ensures var fs' := PutInode(fs, i, Cur(fs, i).(indirect := b));
      Fills(fs, fs', live, i, MAXBLOCKS, b) && Store(fs', live, {})
  {
    var n: Inode := Cur(fs, i).(indirect := b);
    var fs' := PutInode(fs, i, n);
    forall j { PutInodeCur(fs, i, n, j); }
    PutInodeShape(fs, live, i, n);
    ZeroBlockWords();
    forall k: nat | k < DBPERIDB
      ensures WordAt(ReadBlock(fs', b), k) == 0
    {
      assert BlockWords(Zeros(BLOCKSIZE))[k] == 0;
    }
    FillStore(fs, fs', live, i, MAXBLOCKS, b);
  }

  function SetEntry(fs: Fs, d: nat, j: nat, b: u32): Fs
    requires j < DBPERIDB
  {
    WriteBlock(fs, d, WordsBlock(BlockWords(ReadBlock(fs, d))[j := b]))
  }

  /** Writing block d, which only inode i uses and only as its indirect block, touches no other slot. */
  lemma IndirectAlone(fs: Fs, live: set<nat>, extra: set<nat>, i: nat, x: Block)
    requires Store(fs, live, extra) && i in live && Cur(fs, i).indirect != 0
    ensures var d := Cur(fs, i).indirect; var fs' := WriteBlock(fs, d, x);
      && DataBlock(fs, d) && d !in live
      && Shape(fs') && Placed(fs', live) && Clean(fs')
      && (forall j :: j in live ==> Cur(fs', j) == Cur(fs, j))
      && (forall j, k :: j in live && 0 <= k <= MAXBLOCKS && (j != i || k < NDIRECT || k == MAXBLOCKS) ==>
            Slot(fs', j, k) == Slot(fs, j, k))
  {
    hide DecodeInode, WordAt, BitBlocks;
    var d := Cur(fs, i).indirect;
    var fs' := WriteBlock(fs, d, x);
    assert Slot(fs, i, MAXBLOCKS) == d;
    forall j | j in live
      ensures Cur(fs', j) == Cur(fs, j)
    {
      assert j != d;
    }
    forall j, k | j in live && 0 <= k <= MAXBLOCKS && (j != i || k < NDIRECT || k == MAXBLOCKS)
      ensures Slot(fs', j, k) == Slot(fs, j, k)
    {
      assert Slot(fs, j, MAXBLOCKS) == Cur(fs, j).indirect;
    }
    forall k | 0 <= k < |fs.vnodes|
      ensures fs.vnodes[k].ino != d
    {
      assert fs.vnodes[k].ino in live;
    }
  }

  lemma SetEntryWord(fs: Fs, d: nat, j: nat, b: u32, k: nat)
    requires d < |fs.disk| && j < DBPERIDB && k < DBPERIDB
    ensures WordAt(ReadBlock(SetEntry(fs, d, j, b), d), k) == if k == j then b else WordAt(ReadBlock(fs, d), k)
  {
    hide WordsBlock, WordAt;
    var ws := BlockWords(ReadBlock(fs, d))[j := b];
    WordsRoundTrip(ws);
    assert BlockWords(WordsBlock(ws))[k] == WordAt(WordsBlock(ws), k);
  }

  lemma PlaceEntry(fs: Fs, live: set<nat>, i: nat, j: nat, b: u32)
    requires Store(fs, live, {b}) && i in live && Loaded(fs, i)
    requires j < DBPERIDB && Cur(fs, i).indirect != 0 && Slot(fs, i, NDIRECT + j) == 0
    ensures var fs' := SetEntry(fs, Cur(fs, i).indirect, j, b);
      Fills(fs, fs', live, i, NDIRECT + j, b) && Store(fs', live, {})
  {
    hide WordsBlock, BlockWords, WordAt;
    var d := Cur(fs, i).indirect;
    var fs' := SetEntry(fs, d, j, b);
    IndirectAlone(fs, live, {b}, i, WordsBlock(BlockWords(ReadBlock(fs, d))[j := b]));
    forall l, k | l in live && 0 <= k <= MAXBLOCKS
      ensures Slot(fs', l, k) == if l == i && k == NDIRECT + j then b else Slot(fs, l, k)
    {
      if l == i && NDIRECT <= k < MAXBLOCKS {
        SetEntryWord(fs, d, j, b, k - NDIRECT);
      }
    }
    FillStore(fs, fs', live, i, NDIRECT + j, b);
  }

  // ---- The block map -----------------------------------------------------

  function BmapDirect(fs: Fs, i: nat, k: nat, alloc: bool): (Fs, Res<u32>)
    requires k < NDIRECT
  {
    var block := Cur(fs, i).direct[k];
    if block == 0 && alloc then
      match Balloc(fs)
      case (fs1, Ok(b)) => (PutInode(fs1, i, SetDirect(Cur(fs1, i), k, b)), Ok(b))
      case (fs1, Err(e)) => (fs1, Err(e))
    else
      (fs, Ok(block))
  }

  /** The indirect block and its words, the block taken first if the file has none. */
  function NeedIndirect(fs: Fs, i: nat): (Fs, Res<(u32, Words)>) {
    var id := Cur(fs, i).indirect;
    var none: Words := ZeroWords();
    if id != 0 then
      (fs, Ok((id, BlockWords(ReadBlock(fs, id)))))
    else
      match Balloc(fs)
      case (fs1, Ok(b)) => (PutInode(fs1, i, Cur(fs1, i).(indirect := b)), Ok((b, none)))
      case (fs1, Err(e)) => (fs1, Err(e))
  }

  function BmapEntry(fs: Fs, id: u32, ws: Words, j: nat, alloc: bool): (Fs, Res<u32>)
    requires j < DBPERIDB
  {
    if ws[j] == 0 && alloc then
      match Balloc(fs)
      case (fs1, Ok(b)) => (WriteBlock(fs1, id, WordsBlock(ws[j := b])), Ok(b))
      case (fs1, Err(e)) => (fs1, Err(e))
    else
      (fs, Ok(ws[j]))
  }

  function BmapIndirect(fs: Fs, i: nat, j: nat, alloc: bool): (Fs, Res<u32>)
    requires j < DBPERIDB
  {
    if Cur(fs, i).indirect == 0 && !alloc then
      (fs, Ok(0))
    else
      match NeedIndirect(fs, i)
      case (fs1, Ok(p)) => BmapEntry(fs1, p.0, p.1, j, alloc)
      case (fs1, Err(e)) => (fs1, Err(e))
  }

  /** Disk block of file block fb, zero for a hole; with alloc a hole is filled. */
  function Bmap(fs: Fs, i: nat, fb: nat, alloc: bool): (Fs, Res<u32>) {
    if fb < NDIRECT then BmapDirect(fs, i, fb, alloc)
    else if (fb - NDIRECT) / DBPERIDB > 0 then (fs, Err(EINVAL))
    else BmapIndirect(fs, i, (fb - NDIRECT) % DBPERIDB, alloc)
  }

  /** Block b was taken and zeroed; otherwise only block d, if not zero, was written. */
  ghost predicate Took(fs: Fs, fs2: Fs, b: nat, d: nat) {
    && b < |fs.used|
    && fs2.used == fs.used[b := true] && fs2.mapDirty && fs2.nblocks == fs.nblocks
    && forall c :: 0 <= c < fs.nblocks && (c != d || d == 0) ==>
         ReadBlock(fs2, c) == if c == b then Zeros(BLOCKSIZE) else ReadBlock(fs, c)
  }

  lemma FillSlotGrew(fs: Fs, fs2: Fs, live: set<nat>, i: nat, s: nat, b: nat, d: nat, j: nat, k: nat)
    requires SlotsOk(fs, live) && Unshared(fs, live) && i in live && 0 <= s <= MAXBLOCKS && Slot(fs, i, s) == 0
    requires DataBlock(fs, b) && !Owned(fs, live, b)
    requires Fills(fs, fs2, live, i, s, b)
    requires d == 0 || d == Slot(fs, i, MAXBLOCKS)
    requires Took(fs, fs2, b, d)
    requires j in live && 0 <= k <= MAXBLOCKS
    ensures SlotGrew(fs, fs2, j, k)
  {
    hide Slot, ReadBlock, BitBlocks;
    if k < MAXBLOCKS && Slot(fs2, j, k) != 0 {
      assert Slot(fs2, j, k) != d || d == 0;
    }
  }

  /** Taking a block and placing it in an empty slot moves no file byte. */
  lemma FillGrew(fs: Fs, fs2: Fs, live: set<nat>, i: nat, s: nat, b: nat, d: nat)
    requires Store(fs, live, {}) && i in live && 0 <= s <= MAXBLOCKS && Slot(fs, i, s) == 0
    requires DataBlock(fs, b) && b !in live && !Owned(fs, live, b)
    requires Fills(fs, fs2, live, i, s, b)
    requires SameTable(fs, fs2, i) && SameAttrs(fs, fs2, live)
    requires d == 0 || d == Slot(fs, i, MAXBLOCKS)
    requires Took(fs, fs2, b, d)
    ensures Grew(fs, fs2, live, i)
  {
    hide Slot, BitBlocks, Cur, ReadBlock, SlotGrew, Owned, Clean, Unshared;
    forall j, k | j in live && 0 <= k <= MAXBLOCKS
      ensures SlotGrew(fs, fs2, j, k)
    {
      FillSlotGrew(fs, fs2, live, i, s, b, d, j, k);
    }
  }

  lemma PutInodeTable(fs: Fs, i: nat, n: Inode)
    requires Shape(fs) && Loaded(fs, i)
    ensures SameTable(fs, PutInode(fs, i, n), i)
  {
  }

  /** Taking block b and then changing the cached inode of i, attributes aside. */
  lemma TookInode(fs: Fs, live: set<nat>, i: nat, b: nat, n: Inode)
    requires Store(fs, live, {}) && Loaded(fs, i)
    requires b < |fs.used| && !fs.used[b]
    requires n.size == Cur(fs, i).size && n.kind == Cur(fs, i).kind && n.links == Cur(fs, i).links
    ensures var fs2 := PutInode(TakeBlock(fs, b), i, n);
      Took(fs, fs2, b, 0) && SameTable(fs, fs2, i) && SameAttrs(fs, fs2, live)
  {
    hide DecodeInode, WordAt, BitBlocks, Slot;
    TakeBlockSlots(fs, live, b);
    var fs1 := TakeBlock(fs, b);
    forall j { PutInodeCur(fs1, i, n, j); }
    PutInodeTable(fs1, i, n);
  }

  lemma FillsFrom(fs: Fs, fs1: Fs, fs2: Fs, live: set<nat>, i: nat, s: nat, b: nat)
    requires Fills(fs1, fs2, live, i, s, b)
    requires forall j, k :: j in live && 0 <= k <= MAXBLOCKS ==> Slot(fs1, j, k) == Slot(fs, j, k)
    ensures Fills(fs, fs2, live, i, s, b)
  {
    hide Slot;
  }

  lemma DirectTaken(fs: Fs, live: set<nat>, i: nat, k: nat, b: u32)
    requires Store(fs, live, {}) && i in live && Loaded(fs, i)
    requires k < NDIRECT && Slot(fs, i, k) == 0
    requires b < |fs.used| && !fs.used[b]
    ensures var fs1 := TakeBlock(fs, b); var fs2 := PutInode(fs1, i, SetDirect(Cur(fs1, i), k, b));
      Store(fs2, live, {}) && Grew(fs, fs2, live, i) && Slot(fs2, i, k) == b && b != 0
  {
    var fs1 := TakeBlock(fs, b);
    TakeBlockSlots(fs, live, b);
    TakeBlockStore(fs, live, b);
    hide DecodeInode, Slot, TakeBlock, Store, Grew, Took, SameTable, SameAttrs, PutInode, Cur, Owned;
    PlaceDirect(fs1, live, i, k, b);
    var n := SetDirect(Cur(fs1, i), k, b);
    TookInode(fs, live, i, b, n);
    FillsFrom(fs, fs1, PutInode(fs1, i, n), live, i, k, b);
    FillGrew(fs, PutInode(fs1, i, n), live, i, k, b, 0);
  }

  lemma IndirectTaken(fs: Fs, live: set<nat>, i: nat, b: u32)
    requires Store(fs, live, {}) && i in live && Loaded(fs, i)
    requires Cur(fs, i).indirect == 0
    requires b < |fs.used| && !fs.used[b]
    ensures var fs1 := TakeBlock(fs, b); var fs2 := PutInode(fs1, i, Cur(fs1, i).(indirect := b));
      && Store(fs2, live, {}) && Grew(fs, fs2, live, i) && Fills(fs, fs2, live, i, MAXBLOCKS, b) && b != 0
      && ReadBlock(fs2, b) == Zeros(BLOCKSIZE)
  {
    var fs1 := TakeBlock(fs, b);
    TakeBlockSlots(fs, live, b);
    TakeBlockStore(fs, live, b);
    assert ReadBlock(fs1, b) == Zeros(BLOCKSIZE);
    assert Slot(fs, i, MAXBLOCKS) == 0;
    hide DecodeInode, Slot, TakeBlock, Store, Grew, Took, SameTable, SameAttrs, Cur, Owned;
    PlaceIndirect(fs1, live, i, b);
    var n: Inode := Cur(fs1, i).(indirect := b);
    TookInode(fs, live, i, b, n);
    FillsFrom(fs, fs1, PutInode(fs1, i, n), live, i, MAXBLOCKS, b);
    FillGrew(fs, PutInode(fs1, i, n), live, i, MAXBLOCKS, b, 0);
  }

  /** Taking block b and then writing the indirect block of i. */
  lemma TookEntry(fs: Fs, live: set<nat>, i: nat, b: nat, x: Block)
    requires Store(fs, live, {}) && i in live && Cur(fs, i).indirect != 0
    requires b < |fs.used| && !fs.used[b]
    ensures var id := Cur(fs, i).indirect; var fs2 := WriteBlock(TakeBlock(fs, b), id, x);
      && Slot(fs, i, MAXBLOCKS) == id
      && ReadBlock(TakeBlock(fs, b), id) == ReadBlock(fs, id)
      && Cur(TakeBlock(fs, b), i) == Cur(fs, i)
      && Took(fs, fs2, b, id) && SameTable(fs, fs2, i) && SameAttrs(fs, fs2, live)
  {
    var id := Cur(fs, i).indirect;
    assert Slot(fs, i, MAXBLOCKS) == id;
    hide DecodeInode, WordAt, BitBlocks, Slot;
    TakeBlockSlots(fs, live, b);
    TakeBlockStore(fs, live, b);
    IndirectAlone(TakeBlock(fs, b), live, {b}, i, x);
  }

  lemma EntryTaken(fs: Fs, live: set<nat>, i: nat, j: nat, b: u32)
    requires Store(fs, live, {}) && i in live && Loaded(fs, i)
    requires j < DBPERIDB && Cur(fs, i).indirect != 0 && Slot(fs, i, NDIRECT + j) == 0
    requires b < |fs.used| && !fs.used[b]
    ensures var id := Cur(fs, i).indirect;
      var fs1 := TakeBlock(fs, b); var fs2 := SetEntry(fs1, id, j, b);
      && ReadBlock(fs1, id) == ReadBlock(fs, id)
      && Store(fs2, live, {}) && Grew(fs, fs2, live, i) && Slot(fs2, i, NDIRECT + j) == b && b != 0
  {
    hide DecodeInode, Slot, Store, Grew, Took, SameTable, SameAttrs, Cur, Owned, WordsBlock, BlockWords, BitBlocks;
    var id := Cur(fs, i).indirect;
    var fs1 := TakeBlock(fs, b);
    var fs2 := SetEntry(fs1, id, j, b);
    TakeBlockSlots(fs, live, b);
    TakeBlockStore(fs, live, b);
    TookEntry(fs, live, i, b, WordsBlock(BlockWords(ReadBlock(fs1, id))[j := b]));
    PlaceEntry(fs1, live, i, j, b);
    FillsFrom(fs, fs1, fs2, live, i, NDIRECT + j, b);
    FillGrew(fs, fs2, live, i, NDIRECT + j, b, id);
  }

  /** Changing only size, type or link count of the cached inode moves no block. */
  lemma AttrSlots(fs: Fs, live: set<nat>, extra: set<nat>, i: nat, n: Inode)
    requires Store(fs, live, extra) && Loaded(fs, i)
    requires n.direct == Cur(fs, i).direct && n.indirect == Cur(fs, i).indirect
    ensures var fs' := PutInode(fs, i, n);
      && (forall j, k :: Slot(fs', j, k) == Slot(fs, j, k))
      && (forall j :: Backing(fs', j) == Backing(fs, j))
      && (forall j :: Cur(fs', j) == if j == i then n else Cur(fs, j))
      && (forall j :: Loaded(fs', j) == Loaded(fs, j))
  {
    var fs' := PutInode(fs, i, n);
    hide WordAt, DecodeInode, BitBlocks;
    forall j { PutInodeCur(fs, i, n, j); }
    forall j, k: nat
      ensures Slot(fs', j, k) == Slot(fs, j, k)
    {
    }
    forall j: nat
      ensures Backing(fs', j) == Backing(fs, j)
    {
      forall o: nat | o < MAXBYTES
        ensures ByteAt(fs', j, o) == ByteAt(fs, j, o)
      {
        hide Slot, Cur;
      }
    }
  }

  lemma AttrStore(fs: Fs, live: set<nat>, extra: set<nat>, i: nat, n: Inode)
    requires Store(fs, live, extra) && Loaded(fs, i)
    requires n.direct == Cur(fs, i).direct && n.indirect == Cur(fs, i).indirect
    ensures Store(PutInode(fs, i, n), live, extra)
  {
    AttrSlots(fs, live, extra, i, n);
    PutInodeShape(fs, live, i, n);
    hide Slot, Cur, PutInode, BitBlocks, Shape, Clean;
    var fs' := PutInode(fs, i, n);
    PutInodeDisk(fs, i, n);
    forall b: nat
      ensures Owned(fs', live, b) <==> Owned(fs, live, b)
    {
    }
  }

  lemma PutInodeDisk(fs: Fs, i: nat, n: Inode)
    ensures var fs' := PutInode(fs, i, n);
      fs'.disk == fs.disk && fs'.used == fs.used && fs'.nblocks == fs.nblocks && fs'.mapDirty == fs.mapDirty
  {
  }

  ghost predicate Full(fs: Fs) {
    forall b :: 0 <= b < |fs.used| ==> fs.used[b]
  }

  /** What the block map promises of file block fb of inode i. */
  ghost predicate BmapPost(fs: Fs, fs': Fs, live: set<nat>, i: nat, fb: nat, alloc: bool, r: Res<u32>) {
    && Store(fs', live, {})
    && Grew(fs, fs', live, i)
    && (!alloc ==> fs' == fs)
    && (r.Ok? ==> fb < MAXBLOCKS && r.v == Slot(fs', i, fb) && (alloc ==> r.v != 0))
    && (r.Err? ==>
          if fb >= MAXBLOCKS then r.e == EINVAL && fs' == fs
          else r.e == ENOSPC && alloc && Slot(fs, i, fb) == 0 && Full(fs'))
  }

  lemma DirectPost(fs: Fs, live: set<nat>, i: nat, k: nat, alloc: bool)
    requires Store(fs, live, {}) && i in live && Loaded(fs, i) && k < NDIRECT
    ensures var (fs', r) := BmapDirect(fs, i, k, alloc);
      BmapPost(fs, fs', live, i, k, alloc, r)
  {
    hide Cur, Store, Grew, TakeBlock;
    assert Slot(fs, i, k) == Cur(fs, i).direct[k];
    hide Slot;
    var b := FirstFree(fs.used);
    if Slot(fs, i, k) == 0 && alloc && b < |fs.used| {
      DirectTaken(fs, live, i, k, b);
    } else {
      GrewSelf(fs, live, i);
    }
  }

  lemma NeedIndirectPost(fs: Fs, live: set<nat>, i: nat)
    requires Store(fs, live, {}) && i in live && Loaded(fs, i)
    ensures var (fs', r) := NeedIndirect(fs, i);
      && Store(fs', live, {})
      && Grew(fs, fs', live, i)
      && (Cur(fs, i).indirect != 0 ==> fs' == fs && r.Ok?)
      && (r.Err? ==> r.e == ENOSPC && fs' == fs && Full(fs) && Cur(fs, i).indirect == 0)
      && (r.Ok? ==> r.v.0 == Cur(fs', i).indirect != 0 && r.v.1 == BlockWords(ReadBlock(fs', r.v.0)))
      && (r.Ok? ==> forall k :: 0 <= k < MAXBLOCKS ==> Slot(fs', i, k) == Slot(fs, i, k))
  {
    var (fs', r) := NeedIndirect(fs, i);
    assert Slot(fs', i, MAXBLOCKS) == Cur(fs', i).indirect;
    hide Cur, Store, Grew, TakeBlock, Slot, BlockWords;
    var b := FirstFree(fs.used);
    if Cur(fs, i).indirect == 0 && b < |fs.used| {
      IndirectTaken(fs, live, i, b);
      ZeroBlockWords();
    } else {
      GrewSelf(fs, live, i);
    }
  }

  lemma EntryPost(fs: Fs, live: set<nat>, i: nat, j: nat, alloc: bool)
    requires Store(fs, live, {}) && i in live && Loaded(fs, i) && j < DBPERIDB
    requires Cur(fs, i).indirect != 0
    ensures var id := Cur(fs, i).indirect;
      var (fs', r) := BmapEntry(fs, id, BlockWords(ReadBlock(fs, id)), j, alloc);
      BmapPost(fs, fs', live, i, NDIRECT + j, alloc, r)
  {
    var b := FirstFree(fs.used);
    var id := Cur(fs, i).indirect;
    var ws := BlockWords(ReadBlock(fs, id));
    assert ws[j] == Slot(fs, i, NDIRECT + j);
    hide Cur, Store, Grew, TakeBlock, Slot, BlockWords, WordsBlock;
    if ws[j] == 0 && alloc && b < |fs.used| {
      EntryTaken(fs, live, i, j, b);
    } else {
      GrewSelf(fs, live, i);
    }
  }

  /**
   * The block map keeps the free map exact and every file's bytes, finds the block of fb, and fails
   * only past the last block a file can have or when every bit of the free map is set.
   */
  lemma BmapCorrect(fs: Fs, live: set<nat>, i: nat, fb: nat, alloc: bool)
    requires Store(fs, live, {}) && i in live && Loaded(fs, i)
    ensures var (fs', r) := Bmap(fs, i, fb, alloc);
      BmapPost(fs, fs', live, i, fb, alloc, r)
  {
    hide DecodeInode, WordAt, BitBlocks, BlockWords, WordsBlock, Store, Grew, BmapDirect, BmapEntry, NeedIndirect;
    if fb < NDIRECT {
      DirectPost(fs, live, i, fb, alloc);
    } else if fb < MAXBLOCKS && (alloc || Cur(fs, i).indirect != 0) {
      NeedIndirectPost(fs, live, i);
      GrewLoaded(fs, NeedIndirect(fs, i).0, live, i, i);
      var (fs1, p) := NeedIndirect(fs, i);
      if p.Ok? {
        EntryPost(fs1, live, i, fb - NDIRECT, alloc);
        var (fs2, r) := BmapEntry(fs1, p.v.0, p.v.1, fb - NDIRECT, alloc);
        GrewTwice(fs, fs1, fs2, live, i);
      }
    } else {
      GrewSelf(fs, live, i);
    }
  }
}
