/** Truncation: which blocks a file keeps, which it gives back, and what it reads as afterwards. */
module SfsTruncate {
  import opened Words
  import opened SfsLayout
  import opened SfsState
  import opened SfsBmap
  import opened SfsIo

  /** Index of the last block the indirect block can map. */
  const HIGHBLOCK: nat := 142

  /** Clear the bit of every nonzero entry from position lo on, left to right. */
  function FreeFrom(used: Bits, ws: seq<u32>, lo: nat): (r: Bits)
    ensures |r| == |used|
    decreases |ws| - lo
  {
    if lo >= |ws| then used
    else FreeFrom(if 0 < ws[lo] < |used| then used[ws[lo] := false] else used, ws, lo + 1)
  }

  function ZeroFrom(ws: seq<u32>, lo: nat): (r: seq<u32>)
    ensures |r| == |ws|
    ensures forall k :: 0 <= k < |ws| ==> r[k] == if k >= lo then 0 else ws[k]
  {
    seq(|ws|, k requires 0 <= k < |ws| => if k >= lo then 0 else ws[k])
  }

  predicate AnyFrom(ws: seq<u32>, lo: nat) {
    exists k :: lo <= k < |ws| && ws[k] != 0
  }

  /** First entry of the indirect block to drop: the one whose file block is past, not at, the new length. */
  function FirstDropped(bl: nat): nat {
    if bl < NDIRECT then 0 else bl - NDIRECT + 1
  }

  function TruncDirect(fs: Fs, i: nat, bl: nat): Fs {
    var n := Cur(fs, i);
    if AnyFrom(n.direct, bl) then
      PutInode(fs.(used := FreeFrom(fs.used, n.direct, bl), mapDirty := true), i, n.(direct := ZeroFrom(n.direct, bl)))
    else
      fs
  }

  function TruncIndirect(fs: Fs, i: nat, bl: nat): Fs {
    var n := Cur(fs, i);
    if bl < HIGHBLOCK && n.indirect != 0 then
      var ws := BlockWords(ReadBlock(fs, n.indirect));
      var lo := FirstDropped(bl);
      var fs1 := fs.(used := FreeFrom(fs.used, ws, lo), mapDirty := fs.mapDirty || AnyFrom(ws, lo));
      if !AnyFrom(ZeroFrom(ws, lo), 0) then
        PutInode(fs1.(used := FreeFrom(fs1.used, [n.indirect], 0), mapDirty := true), i, n.(indirect := 0))
      else if AnyFrom(ws, lo) then
        WriteBlock(fs1, n.indirect, WordsBlock(ZeroFrom(ws, lo)))
      else
        fs1
    else
      fs
  }

  function Truncate(fs: Fs, i: nat, len: nat): Fs
    requires len < 0x8000_0000
  {
    var bl := (len + BLOCKSIZE - 1) / BLOCKSIZE;
    var fs2 := TruncIndirect(TruncDirect(fs, i, bl), i, bl);
    PutInode(fs2, i, Cur(fs2, i).(size := len))
  }

  // ---- Giving slots back -------------------------------------------------

  lemma {:induction false} FreeFromBit(used: Bits, ws: seq<u32>, lo: nat, b: nat)
    requires b < |used|
    ensures FreeFrom(used, ws, lo)[b] <==> used[b] && !(b != 0 && exists k :: lo <= k < |ws| && ws[k] == b)
    decreases |ws| - lo
  {
    if lo < |ws| {
      FreeFromBit(if 0 < ws[lo] < |used| then used[ws[lo] := false] else used, ws, lo + 1, b);
    }
  }

  /** Slots ks of inode i are empty in fs', all others as in fs, and exactly their blocks are free. */
  ghost predicate Drops(fs: Fs, fs': Fs, live: set<nat>, i: nat, ks: set<nat>) {
    && |fs'.used| == |fs.used|
    && (forall k :: k in ks ==> 0 <= k <= MAXBLOCKS)
    && (forall j, k :: j in live && 0 <= k <= MAXBLOCKS ==>
          Slot(fs', j, k) == if j == i && k in ks then 0 else Slot(fs, j, k))
    && (forall b :: 0 <= b < |fs.used| ==>
          (fs'.used[b] <==> fs.used[b] && !(b != 0 && exists k :: k in ks && Slot(fs, i, k) == b)))
  }

  lemma DropBit(fs: Fs, fs': Fs, live: set<nat>, i: nat, ks: set<nat>, b: nat)
    requires Unshared(fs, live) && SlotsOk(fs, live) && MapExact(fs, live, {}) && Placed(fs, live)
    requires fs'.nblocks == fs.nblocks && i in live
    requires Drops(fs, fs', live, i, ks) && b < |fs.used|
    ensures fs'.used[b] <==> InUse(fs', live, {}, b)
  {
    hide Slot, BitBlocks;
    assert fs.used[b] <==> InUse(fs, live, {}, b);
    if b != 0 && exists k :: k in ks && Slot(fs, i, k) == b {
      var k :| k in ks && Slot(fs, i, k) == b;
      assert !Owned(fs', live, b);
    } else if b != 0 {
      if Owned(fs, live, b) {
        var j, k :| j in live && 0 <= k <= MAXBLOCKS && Slot(fs, j, k) == b;
        assert Slot(fs', j, k) == b;
      }
    }
  }

  lemma DropStore(fs: Fs, fs': Fs, live: set<nat>, i: nat, ks: set<nat>)
    requires Store(fs, live, {}) && i in live
    requires Shape(fs') && Placed(fs', live) && Clean(fs') && fs'.nblocks == fs.nblocks
    requires Drops(fs, fs', live, i, ks)
    ensures Store(fs', live, {})
  {
    hide Slot, BitBlocks, Shape, Clean, InUse;
    forall b | 0 <= b < |fs.used|
      ensures fs'.used[b] <==> InUse(fs', live, {}, b)
    {
      DropBit(fs, fs', live, i, ks, b);
    }
  }

  /** Drops, with every block still in a slot unread and unwritten, and everything else in place. */
  ghost predicate Trims(fs: Fs, fs': Fs, live: set<nat>, i: nat, ks: set<nat>) {
    && Drops(fs, fs', live, i, ks)
    && SameTable(fs, fs', i) && MapKept(fs, fs') && SameAttrs(fs, fs', live)
    && (forall j :: j in live ==> ReadBlock(fs', j) == ReadBlock(fs, j))
    && (forall j, k :: j in live && 0 <= k < MAXBLOCKS && Slot(fs', j, k) != 0 ==>
          ReadBlock(fs', Slot(fs', j, k)) == ReadBlock(fs, Slot(fs, j, k)))
  }

  lemma TrimTwice(fs: Fs, fs1: Fs, fs2: Fs, live: set<nat>, i: nat, ks: set<nat>, ls: set<nat>)
    requires i in live && Trims(fs, fs1, live, i, ks) && Trims(fs1, fs2, live, i, ls)
    ensures Trims(fs, fs2, live, i, ks + ls)
  {
    hide Slot, ReadBlock, Cur, BitBlocks;
    forall b | 0 <= b < |fs.used|
      ensures fs2.used[b] <==> fs.used[b] && !(b != 0 && exists k :: k in ks + ls && Slot(fs, i, k) == b)
    {
      if b != 0 && exists k :: k in ks + ls && Slot(fs, i, k) == b {
        var k :| k in ks + ls && Slot(fs, i, k) == b;
        assert k in ks || Slot(fs1, i, k) == b;
      }
    }
  }

  lemma TrimByte(fs: Fs, fs': Fs, live: set<nat>, i: nat, ks: set<nat>, j: nat, o: nat)
    requires Trims(fs, fs', live, i, ks) && j in live && o < MAXBYTES
    ensures ByteAt(fs', j, o) == if j == i && o / BLOCKSIZE in ks then 0 else ByteAt(fs, j, o)
  {
    hide Slot, ReadBlock, Cur, BitBlocks;
  }

  ghost function Span(lo: nat, hi: nat): (s: set<nat>)
    ensures forall k :: k in s <==> lo <= k < hi
    decreases hi - lo
  {
    if lo >= hi then {} else {lo} + Span(lo + 1, hi)
  }

  ghost function DirectDropped(bl: nat): set<nat> {
    Span(bl, NDIRECT)
  }

  lemma TruncDirectSlots(fs: Fs, live: set<nat>, i: nat, bl: nat)
    requires Store(fs, live, {}) && i in live && Loaded(fs, i)
    ensures var fs' := TruncDirect(fs, i, bl); var n := Cur(fs, i);
      && fs'.disk == fs.disk && fs'.nblocks == fs.nblocks
      && fs'.used == FreeFrom(fs.used, n.direct, bl)
      && fs'.mapDirty == (fs.mapDirty || AnyFrom(n.direct, bl))
      && Shape(fs') && Placed(fs', live) && Clean(fs') && SameTable(fs, fs', i)
      && (forall j :: Cur(fs', j) == if j == i then n.(direct := ZeroFrom(n.direct, bl)) else Cur(fs, j))
  {
    hide DecodeInode, BitBlocks, WordAt, FreeFrom, ZeroFrom, AnyFrom;
    var n := Cur(fs, i);
    if !AnyFrom(n.direct, bl) {
      NoneFreed(fs.used, n.direct, bl);
      NoneZeroed(n.direct, bl);
      return;
    }
    var fs1 := fs.(used := FreeFrom(fs.used, n.direct, bl), mapDirty := true);
    var m: Inode := n.(direct := ZeroFrom(n.direct, bl));
    assert Loaded(fs1, i) && Cur(fs1, i) == n;
    forall j { PutInodeCur(fs1, i, m, j); }
    PutInodeShape(fs1, live, i, m);
    PutInodeTable(fs1, i, m);
  }

  lemma FreeSingle(used: Bits, w: u32)
    requires 0 < w < |used|
    ensures FreeFrom(used, [w], 0) == used[w := false]
  {
    assert FreeFrom(used[w := false], [w], 1) == used[w := false];
  }

  lemma NoneZeroed(ws: seq<u32>, lo: nat)
    requires !AnyFrom(ws, lo)
    ensures ZeroFrom(ws, lo) == ws
  {
  }

  lemma NoneFreed(used: Bits, ws: seq<u32>, lo: nat)
    requires !AnyFrom(ws, lo)
    ensures FreeFrom(used, ws, lo) == used
  {
    forall b: nat | b < |used|
      ensures FreeFrom(used, ws, lo)[b] == used[b]
    {
      FreeFromBit(used, ws, lo, b);
    }
  }

  /** Bits freed for the entries of ws from lo on are those of slots base + lo onwards. */
  lemma FreedBits(fs: Fs, used: Bits, i: nat, ws: seq<u32>, base: nat, lo: nat, b: nat)
    requires b < |used|
    requires forall k :: 0 <= k < |ws| ==> Slot(fs, i, base + k) == ws[k]
    ensures FreeFrom(used, ws, lo)[b] <==>
      used[b] && !(b != 0 && exists k :: k in Span(base + lo, base + |ws|) && Slot(fs, i, k) == b)
  {
    hide Slot, FreeFrom, Span;
    FreeFromBit(used, ws, lo, b);
    if exists k :: lo <= k < |ws| && ws[k] == b {
      var k :| lo <= k < |ws| && ws[k] == b;
      assert base + k in Span(base + lo, base + |ws|) && Slot(fs, i, base + k) == b;
    }
    if exists k :: k in Span(base + lo, base + |ws|) && Slot(fs, i, k) == b {
      var k :| k in Span(base + lo, base + |ws|) && Slot(fs, i, k) == b;
      assert Slot(fs, i, base + (k - base)) == ws[k - base];
    }
  }

  lemma TruncDirectDrops(fs: Fs, live: set<nat>, i: nat, bl: nat)
    requires Store(fs, live, {}) && i in live && Loaded(fs, i)
    ensures Drops(fs, TruncDirect(fs, i, bl), live, i, DirectDropped(bl))
  {
    hide BitBlocks, WordAt, FreeFrom, AnyFrom, TruncDirect, Span, Shape, Clean;
    var fs' := TruncDirect(fs, i, bl);
    var n := Cur(fs, i);
    TruncDirectSlots(fs, live, i, bl);
    forall b | 0 <= b < |fs.used|
      ensures fs'.used[b] <==>
        fs.used[b] && !(b != 0 && exists k :: k in DirectDropped(bl) && Slot(fs, i, k) == b)
    {
      FreedBits(fs, fs.used, i, n.direct, 0, bl, b);
    }
  }

  lemma TruncDirectTrims(fs: Fs, live: set<nat>, i: nat, bl: nat)
    requires Store(fs, live, {}) && i in live && Loaded(fs, i)
    ensures var fs' := TruncDirect(fs, i, bl);
      Trims(fs, fs', live, i, DirectDropped(bl)) && Store(fs', live, {})
  {
    hide BitBlocks, Slot, FreeFrom, AnyFrom, TruncDirect, DirectDropped, Shape, Clean, Unshared, SlotsOk, MapExact;
    var n := Cur(fs, i);
    TruncDirectSlots(fs, live, i, bl);
    TruncDirectDrops(fs, live, i, bl);
    if !AnyFrom(n.direct, bl) { NoneFreed(fs.used, n.direct, bl); }
    DropStore(fs, TruncDirect(fs, i, bl), live, i, DirectDropped(bl));
  }

  ghost function EntriesDropped(bl: nat): set<nat> {
    Span(NDIRECT + FirstDropped(bl), MAXBLOCKS)
  }

  lemma EntrySlots(fs: Fs, i: nat, k: nat)
    requires Cur(fs, i).indirect != 0 && k < DBPERIDB
    ensures Slot(fs, i, NDIRECT + k) == BlockWords(ReadBlock(fs, Cur(fs, i).indirect))[k]
  {
  }

  /** Nothing to drop: the entries past the new length are empty already. */
  lemma TrimNothing(fs: Fs, live: set<nat>, i: nat, ks: set<nat>)
    requires forall k :: k in ks ==> 0 <= k <= MAXBLOCKS && Slot(fs, i, k) == 0
    ensures Trims(fs, fs, live, i, ks)
  {
    hide Slot;
  }

  lemma {:induction false} FreeOne(used: Bits, w: u32, b: nat)
    requires b < |used|
    ensures FreeFrom(used, [w], 0)[b] <==> used[b] && !(b != 0 && b == w)
  {
    FreeFromBit(used, [w], 0, b);
    assert b == w ==> [w][0] == b;
  }

  /** The state after the whole indirect block is given back. */
  function GiveIndirect(fs: Fs, i: nat, lo: nat): Fs {
    var n := Cur(fs, i);
    var ws := BlockWords(ReadBlock(fs, n.indirect));
    var used1 := FreeFrom(fs.used, ws, lo);
    PutInode(fs.(used := FreeFrom(used1, [n.indirect], 0), mapDirty := true), i, n.(indirect := 0))
  }

  lemma GiveIndirectSlots(fs: Fs, live: set<nat>, i: nat, lo: nat)
    requires Store(fs, live, {}) && i in live && Loaded(fs, i) && Cur(fs, i).indirect != 0
    ensures var fs' := GiveIndirect(fs, i, lo); var n := Cur(fs, i);
      && fs'.disk == fs.disk && fs'.nblocks == fs.nblocks && fs'.mapDirty
      && fs'.used == FreeFrom(FreeFrom(fs.used, BlockWords(ReadBlock(fs, n.indirect)), lo), [n.indirect], 0)
      && Shape(fs') && Placed(fs', live) && Clean(fs') && SameTable(fs, fs', i)
      && (forall j :: Cur(fs', j) == if j == i then n.(indirect := 0) else Cur(fs, j))
  {
    hide DecodeInode, BitBlocks, WordAt, FreeFrom, BlockWords;
    var n := Cur(fs, i);
    var ws := BlockWords(ReadBlock(fs, n.indirect));
    var fs1 := fs.(used := FreeFrom(FreeFrom(fs.used, ws, lo), [n.indirect], 0), mapDirty := true);
    var m: Inode := n.(indirect := 0);
    assert Loaded(fs1, i) && Cur(fs1, i) == n;
    forall j { PutInodeCur(fs1, i, m, j); }
    PutInodeShape(fs1, live, i, m);
    PutInodeTable(fs1, i, m);
  }

  lemma GiveIndirectBit(fs: Fs, i: nat, lo: nat, b: nat)
    requires Cur(fs, i).indirect != 0 && b < |fs.used| && lo <= DBPERIDB
    ensures var ws := BlockWords(ReadBlock(fs, Cur(fs, i).indirect));
      FreeFrom(FreeFrom(fs.used, ws, lo), [Cur(fs, i).indirect], 0)[b] <==>
      fs.used[b] && !(b != 0 && exists k :: k in Span(NDIRECT + lo, MAXBLOCKS) + {MAXBLOCKS} && Slot(fs, i, k) == b)
  {
    var ws := BlockWords(ReadBlock(fs, Cur(fs, i).indirect));
    var d := Cur(fs, i).indirect;
    assert Slot(fs, i, MAXBLOCKS) == d;
    forall k | 0 <= k < |ws|
      ensures Slot(fs, i, NDIRECT + k) == ws[k]
    {
      EntrySlots(fs, i, k);
    }
    hide Slot, FreeFrom, Span, BlockWords, Cur;
    FreedBits(fs, fs.used, i, ws, NDIRECT, lo, b);
    FreeOne(FreeFrom(fs.used, ws, lo), d, b);
    var ks := Span(NDIRECT + lo, MAXBLOCKS);
    if exists k :: k in ks && Slot(fs, i, k) == b {
      var k :| k in ks && Slot(fs, i, k) == b;
      assert k in ks + {MAXBLOCKS};
    }
    if b == d {
      assert MAXBLOCKS in ks + {MAXBLOCKS};
    }
  }

  lemma GiveIndirectTrims(fs: Fs, live: set<nat>, i: nat, lo: nat)
    requires Store(fs, live, {}) && i in live && Loaded(fs, i) && Cur(fs, i).indirect != 0
    requires lo <= DBPERIDB
    requires forall k :: NDIRECT <= k < NDIRECT + lo ==> Slot(fs, i, k) == 0
    ensures var fs' := GiveIndirect(fs, i, lo); var ks := Span(NDIRECT + lo, MAXBLOCKS) + {MAXBLOCKS};
      Trims(fs, fs', live, i, ks) && Store(fs', live, {})
  {
    hide BitBlocks, WordAt, FreeFrom, GiveIndirect, Span, Shape, Clean, Unshared, SlotsOk, MapExact, BlockWords;
    var fs' := GiveIndirect(fs, i, lo);
    var ks := Span(NDIRECT + lo, MAXBLOCKS) + {MAXBLOCKS};
    GiveIndirectSlots(fs, live, i, lo);
    forall b | 0 <= b < |fs.used|
      ensures fs'.used[b] <==> fs.used[b] && !(b != 0 && exists k :: k in ks && Slot(fs, i, k) == b)
    {
      GiveIndirectBit(fs, i, lo, b);
    }
    forall j, k | j in live && 0 <= k <= MAXBLOCKS
      ensures Slot(fs', j, k) == if j == i && k in ks then 0 else Slot(fs, j, k)
    {
    }
    assert Drops(fs, fs', live, i, ks);
    DropStore(fs, fs', live, i, ks);
  }

  /** The state after the shortened indirect block is written back. */
  function TrimIndirect(fs: Fs, i: nat, lo: nat): Fs {
    var n := Cur(fs, i);
    var ws := BlockWords(ReadBlock(fs, n.indirect));
    var cut: Words := ZeroFrom(ws, lo);
    WriteBlock(fs.(used := FreeFrom(fs.used, ws, lo), mapDirty := true), n.indirect, WordsBlock(cut))
  }

  lemma TrimIndirectSlots(fs: Fs, live: set<nat>, i: nat, lo: nat, k: nat)
    requires Store(fs, live, {}) && i in live && Cur(fs, i).indirect != 0 && k < DBPERIDB
    ensures var fs' := TrimIndirect(fs, i, lo);
      && Cur(fs', i) == Cur(fs, i)
      && Slot(fs', i, NDIRECT + k) == if k >= lo then 0 else Slot(fs, i, NDIRECT + k)
  {
    hide FreeFrom, WordsBlock, DecodeInode, BitBlocks;
    var d := Cur(fs, i).indirect;
    var ws := BlockWords(ReadBlock(fs, d));
    var cut: Words := ZeroFrom(ws, lo);
    var fs' := TrimIndirect(fs, i, lo);
    assert Slot(fs, i, MAXBLOCKS) == d;
    assert Cur(fs', i) == Cur(fs, i);
    WordsRoundTrip(cut);
    EntrySlots(fs, i, k);
    EntrySlots(fs', i, k);
  }

  lemma TrimIndirectFrame(fs: Fs, live: set<nat>, i: nat, lo: nat)
    requires Store(fs, live, {}) && i in live && Cur(fs, i).indirect != 0
    ensures var fs' := TrimIndirect(fs, i, lo); var d := Cur(fs, i).indirect;
      && DataBlock(fs, d) && d !in live
      && fs'.nblocks == fs.nblocks && fs'.mapDirty
      && fs'.used == FreeFrom(fs.used, BlockWords(ReadBlock(fs, d)), lo)
      && Shape(fs') && Placed(fs', live) && Clean(fs') && fs'.vnodes == fs.vnodes
      && (forall c :: c != d ==> ReadBlock(fs', c) == ReadBlock(fs, c))
      && (forall j :: j in live ==> Cur(fs', j) == Cur(fs, j))
      && (forall j, k :: j in live && 0 <= k <= MAXBLOCKS && (j != i || k < NDIRECT || k == MAXBLOCKS) ==>
            Slot(fs', j, k) == Slot(fs, j, k))
  {
    hide FreeFrom, WordsBlock, DecodeInode, BitBlocks, BlockWords, ZeroFrom, WordAt;
    var d := Cur(fs, i).indirect;
    var ws := BlockWords(ReadBlock(fs, d));
    var cut: Words := ZeroFrom(ws, lo);
    IndirectAlone(fs, live, {}, i, WordsBlock(cut));
    var fs1 := WriteBlock(fs, d, WordsBlock(cut));
    var fs' := TrimIndirect(fs, i, lo);
    assert fs'.disk == fs1.disk && fs'.vnodes == fs1.vnodes;
    forall j: nat ensures Cur(fs', j) == Cur(fs1, j) {}
    forall j: nat, k: nat ensures Slot(fs', j, k) == Slot(fs1, j, k) {}
  }

  lemma TrimIndirectBit(fs: Fs, i: nat, lo: nat, b: nat)
    requires Cur(fs, i).indirect != 0 && b < |fs.used| && lo <= DBPERIDB
    ensures FreeFrom(fs.used, BlockWords(ReadBlock(fs, Cur(fs, i).indirect)), lo)[b] <==>
      fs.used[b] && !(b != 0 && exists k :: k in Span(NDIRECT + lo, MAXBLOCKS) && Slot(fs, i, k) == b)
  {
    var ws := BlockWords(ReadBlock(fs, Cur(fs, i).indirect));
    forall k | 0 <= k < |ws|
      ensures Slot(fs, i, NDIRECT + k) == ws[k]
    {
      EntrySlots(fs, i, k);
    }
    hide Slot, FreeFrom, Span, BlockWords, Cur;
    FreedBits(fs, fs.used, i, ws, NDIRECT, lo, b);
  }

  lemma TrimIndirectSlot(fs: Fs, live: set<nat>, i: nat, lo: nat, j: nat, k: nat)
    requires Store(fs, live, {}) && i in live && Cur(fs, i).indirect != 0 && lo <= DBPERIDB
    requires j in live && 0 <= k <= MAXBLOCKS
    ensures Slot(TrimIndirect(fs, i, lo), j, k) ==
      if j == i && k in Span(NDIRECT + lo, MAXBLOCKS) then 0 else Slot(fs, j, k)
  {
    hide TrimIndirect, Span, Shape, Clean, Slot, Cur, Store, BlockWords, FreeFrom;
    TrimIndirectFrame(fs, live, i, lo);
    if j == i && NDIRECT <= k < MAXBLOCKS {
      TrimIndirectSlots(fs, live, i, lo, k - NDIRECT);
    }
  }

  lemma TrimIndirectDrops(fs: Fs, live: set<nat>, i: nat, lo: nat)
    requires Store(fs, live, {}) && i in live && Cur(fs, i).indirect != 0 && lo <= DBPERIDB
    ensures Drops(fs, TrimIndirect(fs, i, lo), live, i, Span(NDIRECT + lo, MAXBLOCKS))
  {
    hide TrimIndirect, Span, Shape, Clean, Slot, Cur, Store, BlockWords, FreeFrom;
    TrimIndirectFrame(fs, live, i, lo);
    forall j, k | j in live && 0 <= k <= MAXBLOCKS
      ensures Slot(TrimIndirect(fs, i, lo), j, k) ==
        if j == i && k in Span(NDIRECT + lo, MAXBLOCKS) then 0 else Slot(fs, j, k)
    {
      TrimIndirectSlot(fs, live, i, lo, j, k);
    }
    forall b | 0 <= b < |fs.used|
      ensures TrimIndirect(fs, i, lo).used[b] <==>
        fs.used[b] && !(b != 0 && exists k :: k in Span(NDIRECT + lo, MAXBLOCKS) && Slot(fs, i, k) == b)
    {
      TrimIndirectBit(fs, i, lo, b);
    }
  }

  lemma TrimIndirectTrims(fs: Fs, live: set<nat>, i: nat, lo: nat)
    requires Store(fs, live, {}) && i in live && Cur(fs, i).indirect != 0 && lo <= DBPERIDB
    ensures var fs' := TrimIndirect(fs, i, lo);
      Trims(fs, fs', live, i, Span(NDIRECT + lo, MAXBLOCKS)) && Store(fs', live, {})
  {
    TrimIndirectFrame(fs, live, i, lo);
    TrimIndirectDrops(fs, live, i, lo);
    var fs' := TrimIndirect(fs, i, lo);
    var ks := Span(NDIRECT + lo, MAXBLOCKS);
    assert Slot(fs, i, MAXBLOCKS) == Cur(fs, i).indirect;
    hide BitBlocks, FreeFrom, TrimIndirect, Span, Shape, Clean, BlockWords, Slot, Cur, ReadBlock;
    forall j, k | j in live && 0 <= k < MAXBLOCKS && Slot(fs', j, k) != 0
      ensures ReadBlock(fs', Slot(fs', j, k)) == ReadBlock(fs, Slot(fs, j, k))
    {
      assert Slot(fs, j, k) != Slot(fs, i, MAXBLOCKS);
    }
    DropStore(fs, fs', live, i, ks);
  }

  /** Truncating the indirect part drops the entries past the new length, and the block itself if none is left. */
  lemma TruncIndirectTrims(fs: Fs, live: set<nat>, i: nat, bl: nat)
    requires Store(fs, live, {}) && i in live && Loaded(fs, i)
    ensures var fs' := TruncIndirect(fs, i, bl);
      && Store(fs', live, {})
      && (|| Trims(fs, fs', live, i, EntriesDropped(bl))
          || Trims(fs, fs', live, i, EntriesDropped(bl) + {MAXBLOCKS}))
      && (bl < NDIRECT ==> Slot(fs', i, MAXBLOCKS) == 0)
  {
    var fs' := TruncIndirect(fs, i, bl);
    var d := Cur(fs, i).indirect;
    var lo := FirstDropped(bl);
    if bl < HIGHBLOCK && d != 0 {
      var ws := BlockWords(ReadBlock(fs, d));
      forall k: nat | k < DBPERIDB
        ensures Slot(fs, i, NDIRECT + k) == ws[k]
      {
        EntrySlots(fs, i, k);
      }
      hide FreeFrom, BlockWords, Slot, Store, Cur, Span, Trims, PutInode, WordsBlock;
      if !AnyFrom(ZeroFrom(ws, lo), 0) {
        forall k | NDIRECT <= k < NDIRECT + lo
          ensures Slot(fs, i, k) == 0
        {
          assert ZeroFrom(ws, lo)[k - NDIRECT] == 0;
          assert Slot(fs, i, NDIRECT + (k - NDIRECT)) == ws[k - NDIRECT];
        }
        assert fs' == GiveIndirect(fs, i, lo);
        GiveIndirectTrims(fs, live, i, lo);
        TrimmedEmpty(fs, fs', live, i, EntriesDropped(bl) + {MAXBLOCKS}, MAXBLOCKS);
      } else if AnyFrom(ws, lo) {
        TrimIndirectTrims(fs, live, i, lo);
      } else {
        NoneFreed(fs.used, ws, lo);
        assert fs' == fs;
        forall k | k in EntriesDropped(bl)
          ensures Slot(fs, i, k) == 0
        {
          assert Slot(fs, i, NDIRECT + (k - NDIRECT)) == ws[k - NDIRECT];
        }
        TrimNothing(fs, live, i, EntriesDropped(bl));
      }
    } else {
      TrimNothing(fs, live, i, EntriesDropped(bl));
    }
  }

  lemma TrimmedEmpty(fs: Fs, fs': Fs, live: set<nat>, i: nat, ks: set<nat>, k: nat)
    requires Trims(fs, fs', live, i, ks) && i in live && k in ks
    ensures Slot(fs', i, k) == 0
  {
    hide Slot;
  }

  // ---- The operation -----------------------------------------------------

  ghost function Dropped(bl: nat): set<nat> {
    DirectDropped(bl) + EntriesDropped(bl)
  }

  /** Is the byte at o still backed after truncating to bl blocks? The block at index bl itself survives
      when it hangs off the indirect block. */
  predicate Backed(bl: nat, o: nat) {
    o / BLOCKSIZE < bl || (o / BLOCKSIZE == bl && bl >= NDIRECT)
  }

  function Cut(s: seq<byte>, bl: nat): (r: seq<byte>)
    ensures |r| == |s|
  {
    seq(|s|, o requires 0 <= o < |s| => if Backed(bl, o) then s[o] else 0)
  }

  /**
   * Is block k of a file given back when it is cut to bl blocks? The first block past the end stays if it hangs off
   * the indirect block.
   */
  predicate Gone(bl: nat, k: nat) {
    if k < NDIRECT then k >= bl else k > bl
  }

  ghost predicate NoEntries(fs: Fs, i: nat) {
    forall k :: NDIRECT <= k < MAXBLOCKS ==> Slot(fs, i, k) == 0
  }

  /**
   * The slots of a file cut to bl blocks. The indirect block is looked at unless the file is cut to its last block or
   * further.
   */
  ghost predicate SlotsCut(fs: Fs, fs': Fs, i: nat, bl: nat) {
    && (forall k :: 0 <= k < MAXBLOCKS ==> Slot(fs', i, k) == if Gone(bl, k) then 0 else Slot(fs, i, k))
    && Slot(fs', i, MAXBLOCKS) == (if bl < HIGHBLOCK && NoEntries(fs', i) then 0 else Slot(fs, i, MAXBLOCKS))
  }

  /** The bits cleared are those of the blocks whose slots have been. */
  ghost predicate FreedExactly(fs: Fs, fs': Fs, i: nat) {
    && |fs'.used| == |fs.used|
    && forall b :: 0 <= b < |fs.used| ==>
         (fs'.used[b] <==> fs.used[b] && !(b != 0 && exists k :: Lost(fs, fs', i, k) && Slot(fs, i, k) == b))
  }

  ghost predicate Lost(fs: Fs, fs': Fs, i: nat, k: nat) {
    k <= MAXBLOCKS && Slot(fs, i, k) != 0 && Slot(fs', i, k) == 0
  }

  lemma DroppedIs(bl: nat, k: nat)
    requires k < MAXBLOCKS
    ensures k in Dropped(bl) <==> Gone(bl, k)
  {
  }

  lemma IndirectAfter(fs: Fs, live: set<nat>, i: nat, bl: nat)
    requires Store(fs, live, {}) && i in live && Loaded(fs, i)
    ensures var fs' := TruncIndirect(fs, i, bl);
      Slot(fs', i, MAXBLOCKS) == if bl < HIGHBLOCK && NoEntries(fs', i) then 0 else Slot(fs, i, MAXBLOCKS)
  {
    hide Store, Trims, Drops;
    TruncIndirectTrims(fs, live, i, bl);
    var fs' := TruncIndirect(fs, i, bl);
    var d := Cur(fs, i).indirect;
    if bl < HIGHBLOCK && d != 0 {
      IndirectLeft(fs, live, i, bl);
    }
  }

  /** With an indirect block to look at: it goes exactly if no entry is left. */
  lemma IndirectLeft(fs: Fs, live: set<nat>, i: nat, bl: nat)
    requires Store(fs, live, {}) && i in live && Loaded(fs, i) && bl < HIGHBLOCK && Cur(fs, i).indirect != 0
    requires var fs' := TruncIndirect(fs, i, bl);
      Trims(fs, fs', live, i, EntriesDropped(bl)) || Trims(fs, fs', live, i, EntriesDropped(bl) + {MAXBLOCKS})
    ensures var fs' := TruncIndirect(fs, i, bl);
      Slot(fs', i, MAXBLOCKS) == if NoEntries(fs', i) then 0 else Slot(fs, i, MAXBLOCKS)
  {
    var fs' := TruncIndirect(fs, i, bl);
    var ws := BlockWords(ReadBlock(fs, Cur(fs, i).indirect));
    var lo := FirstDropped(bl);
    forall k: nat | k < DBPERIDB
      ensures Slot(fs, i, NDIRECT + k) == ws[k]
    {
      EntrySlots(fs, i, k);
    }
    EntriesCut(fs, fs', live, i, bl, ws);
    IndirectSlot(fs, i, bl);
  }

  lemma EntriesCut(fs: Fs, fs': Fs, live: set<nat>, i: nat, bl: nat, ws: seq<u32>)
    requires i in live && |ws| == DBPERIDB && forall k: nat :: k < DBPERIDB ==> Slot(fs, i, NDIRECT + k) == ws[k]
    requires Trims(fs, fs', live, i, EntriesDropped(bl)) || Trims(fs, fs', live, i, EntriesDropped(bl) + {MAXBLOCKS})
    ensures NoEntries(fs', i) <==> !AnyFrom(ZeroFrom(ws, FirstDropped(bl)), 0)
  {
    hide Slot, Cur, ReadBlock;
    var zs := ZeroFrom(ws, FirstDropped(bl));
    forall k: nat | k < DBPERIDB
      ensures Slot(fs', i, NDIRECT + k) == zs[k]
    {
      assert NDIRECT + k in EntriesDropped(bl) <==> k >= FirstDropped(bl);
    }
    forall k | NDIRECT <= k < MAXBLOCKS
      ensures Slot(fs', i, k) == zs[k - NDIRECT]
    {
      assert Slot(fs', i, NDIRECT + (k - NDIRECT)) == zs[k - NDIRECT];
    }
  }

  lemma IndirectSlot(fs: Fs, i: nat, bl: nat)
    requires bl < HIGHBLOCK && Cur(fs, i).indirect != 0 && Loaded(fs, i)
    ensures var ws := BlockWords(ReadBlock(fs, Cur(fs, i).indirect));
      Slot(TruncIndirect(fs, i, bl), i, MAXBLOCKS) ==
        if AnyFrom(ZeroFrom(ws, FirstDropped(bl)), 0) then Slot(fs, i, MAXBLOCKS) else 0
  {
    hide FreeFrom, BlockWords, WordsBlock, AnyFrom, PutInode, Cur;
    var n := Cur(fs, i);
    var ws := BlockWords(ReadBlock(fs, n.indirect));
    var lo := FirstDropped(bl);
    var fs1 := fs.(used := FreeFrom(fs.used, ws, lo), mapDirty := fs.mapDirty || AnyFrom(ws, lo));
    var fs2 := fs1.(used := FreeFrom(fs1.used, [n.indirect], 0), mapDirty := true);
    PutInodeCur(fs2, i, n.(indirect := 0), i);
    CurWritten(fs1, n.indirect, WordsBlock(ZeroFrom(ws, lo)), i);
    CurUsed(fs, fs1, i);
  }

  lemma CurWritten(fs: Fs, b: nat, d: Block, i: nat)
    requires Loaded(fs, i)
    ensures Cur(WriteBlock(fs, b, d), i) == Cur(fs, i)
  {
  }

  lemma CurUsed(fs: Fs, fs': Fs, i: nat)
    requires fs'.vnodes == fs.vnodes && fs'.disk == fs.disk
    ensures Cur(fs', i) == Cur(fs, i)
  {
  }

  /** Which slots go, and which bits with them. */
  lemma TruncSlots(fs: Fs, live: set<nat>, i: nat, bl: nat)
    requires Store(fs, live, {}) && i in live && Loaded(fs, i)
    ensures var fs' := TruncIndirect(TruncDirect(fs, i, bl), i, bl);
      SlotsCut(fs, fs', i, bl) && FreedExactly(fs, fs', i)
  {
    hide TruncDirect, TruncIndirect, Store, Slot, Cur, Trims, Loaded, Span, NoEntries;
    var fs1 := TruncDirect(fs, i, bl);
    var fs2 := TruncIndirect(fs1, i, bl);
    TruncDirectTrims(fs, live, i, bl);
    TrimsLoaded(fs, fs1, live, i, DirectDropped(bl), i);
    TrimSlots(fs, fs1, live, i, DirectDropped(bl));
    assert MAXBLOCKS !in DirectDropped(bl) by { SpanEnds(bl, NDIRECT, MAXBLOCKS); }
    IndirectAfter(fs1, live, i, bl);
    TruncTrims(fs, live, i, bl);
    var ks := if Trims(fs, fs2, live, i, Dropped(bl)) then Dropped(bl) else Dropped(bl) + {MAXBLOCKS};
    TrimSlots(fs, fs2, live, i, ks);
    forall k | 0 <= k < MAXBLOCKS
      ensures Slot(fs2, i, k) == if Gone(bl, k) then 0 else Slot(fs, i, k)
    {
      DroppedIs(bl, k);
    }
    TrimsExactly(fs, fs2, live, i, ks);
  }

  lemma SpanEnds(lo: nat, hi: nat, k: nat)
    requires k >= hi
    ensures k !in Span(lo, hi)
  {
  }

  lemma TrimSlots(fs: Fs, fs': Fs, live: set<nat>, i: nat, ks: set<nat>)
    requires Trims(fs, fs', live, i, ks) && i in live
    ensures forall k :: 0 <= k <= MAXBLOCKS ==> Slot(fs', i, k) == if k in ks then 0 else Slot(fs, i, k)
  {
    hide Slot, Cur, ReadBlock;
  }

  lemma TrimsExactly(fs: Fs, fs': Fs, live: set<nat>, i: nat, ks: set<nat>)
    requires Trims(fs, fs', live, i, ks) && i in live
    ensures FreedExactly(fs, fs', i)
  {
    hide Slot, Cur, ReadBlock, Lost;
    forall b | 0 <= b < |fs.used|
      ensures fs'.used[b] <==> fs.used[b] && !(b != 0 && exists k :: Lost(fs, fs', i, k) && Slot(fs, i, k) == b)
    {
      if b != 0 {
        LostIs(fs, fs', live, i, ks, b);
      }
    }
  }

  lemma LostIs(fs: Fs, fs': Fs, live: set<nat>, i: nat, ks: set<nat>, b: nat)
    requires Trims(fs, fs', live, i, ks) && i in live && b != 0
    ensures (exists k :: Lost(fs, fs', i, k) && Slot(fs, i, k) == b) <==> exists k :: k in ks && Slot(fs, i, k) == b
  {
    hide Slot, Cur, ReadBlock;
    if k :| k in ks && Slot(fs, i, k) == b {
      assert Lost(fs, fs', i, k);
    }
  }

  lemma TruncTrims(fs: Fs, live: set<nat>, i: nat, bl: nat)
    requires Store(fs, live, {}) && i in live && Loaded(fs, i)
    ensures var fs' := TruncIndirect(TruncDirect(fs, i, bl), i, bl);
      && Store(fs', live, {}) && Loaded(fs', i)
      && (Trims(fs, fs', live, i, Dropped(bl)) || Trims(fs, fs', live, i, Dropped(bl) + {MAXBLOCKS}))
      && (bl < NDIRECT ==> Slot(fs', i, MAXBLOCKS) == 0)
  {
    hide TruncDirect, TruncIndirect, Store, Slot, Cur, DirectDropped, EntriesDropped, Trims, Loaded;
    var fs1 := TruncDirect(fs, i, bl);
    var fs2 := TruncIndirect(fs1, i, bl);
    TruncDirectTrims(fs, live, i, bl);
    TrimsLoaded(fs, fs1, live, i, DirectDropped(bl), i);
    TruncIndirectTrims(fs1, live, i, bl);
    if Trims(fs1, fs2, live, i, EntriesDropped(bl)) {
      TrimTwice(fs, fs1, fs2, live, i, DirectDropped(bl), EntriesDropped(bl));
      TrimsLoaded(fs1, fs2, live, i, EntriesDropped(bl), i);
    } else {
      TrimTwice(fs, fs1, fs2, live, i, DirectDropped(bl), EntriesDropped(bl) + {MAXBLOCKS});
      TrimsLoaded(fs1, fs2, live, i, EntriesDropped(bl) + {MAXBLOCKS}, i);
      assert DirectDropped(bl) + (EntriesDropped(bl) + {MAXBLOCKS}) == Dropped(bl) + {MAXBLOCKS};
    }
  }

  lemma TrimsLoaded(fs: Fs, fs': Fs, live: set<nat>, i: nat, ks: set<nat>, j: nat)
    requires Trims(fs, fs', live, i, ks)
    ensures Loaded(fs', j) == Loaded(fs, j)
  {
    hide Slot, Cur, ReadBlock;
    SameIndex(fs.vnodes, fs'.vnodes, j);
  }

  /** A trimmed file reads as before but for the dropped blocks, now zero; other files are untouched. */
  lemma TrimsFiles(fs: Fs, fs': Fs, live: set<nat>, i: nat, bl: nat, ks: set<nat>)
    requires Trims(fs, fs', live, i, ks) && i in live
    requires ks == Dropped(bl) || ks == Dropped(bl) + {MAXBLOCKS}
    ensures Frame(fs, fs', live, i)
    ensures FileOf(fs', i) == FileOf(fs, i).(bytes := Cut(FileOf(fs, i).bytes, bl))
  {
    hide Slot, Cur, ReadBlock, ByteAt, Drops, Span;
    forall j | j in live && j != i
      ensures FileOf(fs', j) == FileOf(fs, j)
    {
      forall o: nat | o < MAXBYTES
        ensures ByteAt(fs', j, o) == ByteAt(fs, j, o)
      {
        TrimByte(fs, fs', live, i, ks, j, o);
      }
    }
    forall o: nat | o < MAXBYTES
      ensures ByteAt(fs', i, o) == if Backed(bl, o) then ByteAt(fs, i, o) else 0
    {
      TrimByte(fs, fs', live, i, ks, i, o);
    }
  }

  /**
   * Truncation keeps the store sound, sets the size, keeps every byte before the new length, zeroes what
   * it drops, and changes no other file. It gives back exactly the blocks SlotsCut says, and no other. To no more
   * than the direct blocks, no indirect block remains; to length zero, no block at all.
   */
  lemma TruncateCorrect(fs: Fs, live: set<nat>, i: nat, len: nat)
    requires Store(fs, live, {}) && i in live && Loaded(fs, i) && len < 0x8000_0000
    ensures var fs' := Truncate(fs, i, len); var bl := (len + BLOCKSIZE - 1) / BLOCKSIZE; var f := FileOf(fs, i);
      && Store(fs', live, {})
      && Frame(fs, fs', live, i)
      && FileOf(fs', i) == f.(size := len, bytes := Cut(f.bytes, bl))
      && Files(fs', live) == Files(fs, live)[i := f.(size := len, bytes := Cut(f.bytes, bl))]
      && (forall o :: 0 <= o < len && o < MAXBYTES ==> FileOf(fs', i).bytes[o] == f.bytes[o])
      && SlotsCut(fs, fs', i, bl) && FreedExactly(fs, fs', i)
      && (bl < NDIRECT ==> Slot(fs', i, MAXBLOCKS) == 0)
      && (len == 0 ==> forall k :: 0 <= k <= MAXBLOCKS ==> Slot(fs', i, k) == 0)
  {
    hide TruncDirect, TruncIndirect, Store, Slot, Trims, Loaded, Cur, PutInode, Frame, Cut, SlotsCut, FreedExactly;
    var bl := (len + BLOCKSIZE - 1) / BLOCKSIZE;
    TruncTrims(fs, live, i, bl);
    var fs2 := TruncIndirect(TruncDirect(fs, i, bl), i, bl);
    var ks := if Trims(fs, fs2, live, i, Dropped(bl)) then Dropped(bl) else Dropped(bl) + {MAXBLOCKS};
    TrimsFiles(fs, fs2, live, i, bl, ks);
    TruncSlots(fs, live, i, bl);
    var m: Inode := Cur(fs2, i).(size := len);
    SizeFrame(fs2, live, i, m);
    AttrStore(fs2, live, {}, i, m);
    AttrSlots(fs2, live, {}, i, m);
    FileSize(fs2, i);
    PutInodeDisk(fs2, i, m);
    CutAgain(fs, fs2, Truncate(fs, i, len), i, bl);
    FrameTwice(fs, fs2, Truncate(fs, i, len), live, i);
    FrameFiles(fs, Truncate(fs, i, len), live, i);
    CutKeeps(FileOf(fs, i).bytes, len);
    if len == 0 {
      forall k | 0 <= k < MAXBLOCKS
        ensures Slot(fs2, i, k) == 0
      {
        TrimmedEmpty(fs, fs2, live, i, ks, k);
      }
    }
  }

  lemma CutAgain(fs: Fs, fs1: Fs, fs2: Fs, i: nat, bl: nat)
    requires SlotsCut(fs, fs1, i, bl) && FreedExactly(fs, fs1, i) && fs2.used == fs1.used
    requires forall k :: 0 <= k <= MAXBLOCKS ==> Slot(fs2, i, k) == Slot(fs1, i, k)
    ensures SlotsCut(fs, fs2, i, bl) && FreedExactly(fs, fs2, i)
  {
    hide Slot;
    assert NoEntries(fs2, i) <==> NoEntries(fs1, i);
    assert forall k :: Lost(fs, fs2, i, k) <==> Lost(fs, fs1, i, k);
  }

  /**
   * Nothing past the new length is left, as a truncation should have it, if and only if the first block past it is one
   * of the direct ones, or one that the file did not have.
   */
  lemma PastEndIff(fs: Fs, live: set<nat>, i: nat, len: nat)
    requires Store(fs, live, {}) && i in live && Loaded(fs, i) && len < 0x8000_0000
    ensures var bl := (len + BLOCKSIZE - 1) / BLOCKSIZE;
      (forall k :: bl <= k < MAXBLOCKS ==> Slot(Truncate(fs, i, len), i, k) == 0) <==>
        bl < NDIRECT || bl >= MAXBLOCKS || Slot(fs, i, bl) == 0
  {
    hide Slot, Store, Loaded, Truncate, Frame, Files, FileOf, Cut, FreedExactly, NoEntries;
    TruncateCorrect(fs, live, i, len);
    var bl := (len + BLOCKSIZE - 1) / BLOCKSIZE;
    assert bl < MAXBLOCKS ==> Slot(Truncate(fs, i, len), i, bl) == if Gone(bl, bl) then 0 else Slot(fs, i, bl);
  }

  /** A nonzero byte of a file is in a block. */
  lemma ByteMapped(fs: Fs, i: nat, o: nat)
    requires o < MAXBYTES && FileOf(fs, i).bytes[o] != 0
    ensures Slot(fs, i, o / BLOCKSIZE) != 0
  {
    hide Slot, ReadBlock;
    assert FileOf(fs, i).bytes[o] == ByteAt(fs, i, o);
  }

  lemma WriteLoaded(fs: Fs, live: set<nat>, i: nat, off: nat, d: seq<byte>)
    requires Store(fs, live, {}) && i in live && Loaded(fs, i) && off + |d| < 0x8000_0000
    ensures Loaded(WriteIo(fs, i, off, d).fs, i)
  {
    hide Store, FileOf, Files, Overlay, WriteIo, Full;
    WriteCorrect(fs, live, i, off, d);
    FrameLoaded(fs, WriteIo(fs, i, off, d).fs, live, i);
  }

  lemma FrameLoaded(fs: Fs, fs': Fs, live: set<nat>, i: nat)
    requires Frame(fs, fs', live, i)
    ensures Loaded(fs', i) == Loaded(fs, i)
  {
    hide FileOf, ReadBlock;
    SameIndex(fs.vnodes, fs'.vnodes, i);
  }

  /**
   * The block that should have gone and has not: write a byte at the beginning of any block past the direct ones, cut
   * the file to where that block begins, and it still has the block. Only a full volume refuses the write.
   */
  lemma PastEndKept(fs: Fs, live: set<nat>, i: nat, bl: nat, d: seq<byte>)
    requires Store(fs, live, {}) && i in live && Loaded(fs, i) && NDIRECT <= bl < MAXBLOCKS && |d| == 1 && d[0] != 0
    ensures var len := bl * BLOCKSIZE; var w := WriteIo(fs, i, len, d); var fs' := Truncate(w.fs, i, len);
      && (w.r.Err? ==> Full(w.fs))
      && (w.r.Ok? ==> FileOf(fs', i).size == len && Slot(fs', i, bl) != 0)
  {
    hide Slot, Store, Loaded, Truncate, WriteIo, Frame, Files, FileOf, Cut, FreedExactly, NoEntries, Patch, Full;
    var len := bl * BLOCKSIZE;
    assert (len + BLOCKSIZE - 1) / BLOCKSIZE == bl && len / BLOCKSIZE == bl;
    WriteCorrect(fs, live, i, len, d);
    if WriteIo(fs, i, len, d).r.Ok? {
      WriteLoaded(fs, live, i, len, d);
      var fs1 := WriteIo(fs, i, len, d).fs;
      assert d[..1] == d;
      PatchAt(FileOf(fs, i).bytes, len, d, len);
      ByteMapped(fs1, i, len);
      TruncateCorrect(fs1, live, i, len);
    }
  }

  // ---- Truncating and writing further on ----------------------------------

  /** How many bytes are still backed when a file has been cut to len. */
  function KeptBytes(len: nat): nat {
    var bl := (len + BLOCKSIZE - 1) / BLOCKSIZE;
    (if bl < NDIRECT then bl else bl + 1) * BLOCKSIZE
  }

  lemma KeptIs(len: nat, o: nat)
    ensures Backed((len + BLOCKSIZE - 1) / BLOCKSIZE, o) <==> o < KeptBytes(len)
  {
  }

  /**
   * Cut a file to len and write further on: what was from len to the end of what stays backed is there again, and the
   * gap reads as zeros, as it should, if and only if that was all zeros.
   */
  lemma GapIff(fs: Fs, live: set<nat>, i: nat, len: nat, off: nat, d: seq<byte>)
    requires Store(fs, live, {}) && i in live && Loaded(fs, i) && len <= off && off + |d| < 0x8000_0000
    requires WriteIo(Truncate(fs, i, len), i, off, d).done > 0
    ensures var f := FileOf(WriteIo(Truncate(fs, i, len), i, off, d).fs, i);
      && off < f.size && off < MAXBYTES
      && (forall o :: len <= o < off ==> f.bytes[o] == if o < KeptBytes(len) then FileOf(fs, i).bytes[o] else 0)
      && ((forall o :: len <= o < off ==> f.bytes[o] == 0) <==>
            forall o :: len <= o < off && o < KeptBytes(len) ==> FileOf(fs, i).bytes[o] == 0)
  {
    hide Slot, Store, Loaded, Truncate, WriteIo, Frame, Files, FileOf, FreedExactly, SlotsCut, Patch, Full, KeptBytes;
    hide Backed;
    TruncateCorrect(fs, live, i, len);
    var fs1 := Truncate(fs, i, len);
    FrameLoaded(fs, fs1, live, i);
    WriteCorrect(fs1, live, i, off, d);
    var w := WriteIo(fs1, i, off, d);
    var f, g := FileOf(w.fs, i), FileOf(fs, i);
    forall o: nat | len <= o < off
      ensures f.bytes[o] == if o < KeptBytes(len) then g.bytes[o] else 0
    {
      PatchAt(FileOf(fs1, i).bytes, off, d[..w.done], o);
      KeptIs(len, o);
    }
  }

  /**
   * Two bytes at the beginning of a file, the second cut off, a third written after it: the second is there again. Only
   * a full volume refuses a write.
   */
  lemma OldByteBack(fs: Fs, live: set<nat>, i: nat, d: seq<byte>, e: seq<byte>)
    requires Store(fs, live, {}) && i in live && Loaded(fs, i) && |d| == 2 && d[1] != 0 && |e| == 1
    ensures var w := WriteIo(fs, i, 0, d); var w' := WriteIo(Truncate(w.fs, i, 1), i, 2, e);
      && (w.r.Err? ==> Full(w.fs))
      && (w.r.Ok? && w'.r.Err? ==> Full(w'.fs))
      && (w.r.Ok? && w'.r.Ok? ==> FileOf(w'.fs, i).bytes[1] == d[1])
  {
    hide Slot, Store, Loaded, Truncate, WriteIo, Frame, Files, FileOf, Patch, Full, SlotsCut, FreedExactly, Cut;
    WriteCorrect(fs, live, i, 0, d);
    WriteLoaded(fs, live, i, 0, d);
    var fs1 := WriteIo(fs, i, 0, d).fs;
    TruncateCorrect(fs1, live, i, 1);
    FrameLoaded(fs1, Truncate(fs1, i, 1), live, i);
    WriteCorrect(Truncate(fs1, i, 1), live, i, 2, e);
    if WriteIo(fs, i, 0, d).r.Ok? && WriteIo(Truncate(fs1, i, 1), i, 2, e).r.Ok? {
      assert d[..2] == d;
      PatchAt(FileOf(fs, i).bytes, 0, d, 1);
      GapIff(fs1, live, i, 1, 2, e);
    }
  }

  lemma CutKeeps(s: seq<byte>, len: nat)
    ensures forall o :: 0 <= o < len && o < |s| ==> Cut(s, (len + BLOCKSIZE - 1) / BLOCKSIZE)[o] == s[o]
  {
    var bl := (len + BLOCKSIZE - 1) / BLOCKSIZE;
    forall o | 0 <= o < len && o < |s|
      ensures Cut(s, bl)[o] == s[o]
    {
      assert Backed(bl, o);
    }
  }
}
