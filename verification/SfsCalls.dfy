/** The calls on files and directories, as they update a mounted volume in place. */
module SfsCalls {
  import opened Words
  import opened Bitmaps
  import opened Uios
  import opened SfsLayout
  import opened SfsState
  import opened SfsKernel
  import T = SfsTruncate
  import V = SfsVnode
  import O = SfsOps
  import R = SfsRun

  method Bfree(vol: SfsVolume, b: nat)
    requires vol.Valid() && b < |vol.freemap.View()| && vol.freemap.View()[b]
    modifies vol`mapDirty, vol.freemap.v
    ensures vol.Valid() && vol.freemap.View() == old(vol.freemap.View())[b := false] && vol.mapDirty
    ensures vol.View() == V.Bfree(old(vol.View()), b)
  {
    vol.freemap.Unmark(b);
    vol.mapDirty := true;
  }

  // ---- Truncation ---------------------------------------------------------

  /** Every block listed from lo on is in use and listed once, so each can be given back. */
  ghost predicate Freeable(used: Bits, ws: seq<u32>, lo: nat) {
    && (forall k :: lo <= k < |ws| && ws[k] != 0 ==> ws[k] < |used| && used[ws[k]])
    && (forall j, k :: lo <= j < k < |ws| && ws[j] != 0 ==> ws[j] != ws[k])
  }

  lemma FreeOneMore(used: Bits, ws: seq<u32>, i: nat)
    requires Freeable(used, ws, i) && i < |ws|
    ensures ws[i] == 0 ==> T.FreeFrom(used, ws, i) == T.FreeFrom(used, ws, i + 1)
    ensures ws[i] == 0 ==> Freeable(used, ws, i + 1)
    ensures ws[i] != 0 ==> T.FreeFrom(used, ws, i) == T.FreeFrom(used[ws[i] := false], ws, i + 1)
    ensures ws[i] != 0 ==> Freeable(used[ws[i] := false], ws, i + 1)
  {
  }

  function Max(a: nat, b: nat): nat {
    if a < b then b else a
  }

  /** Entries lo up to i have been discarded. */
  ghost predicate Discarded(ws: seq<u32>, now: seq<u32>, lo: nat, i: nat) {
    |now| == |ws| && forall k :: 0 <= k < |ws| ==> now[k] == if lo <= k < i then 0 else ws[k]
  }

  ghost predicate AnyBetween(ws: seq<u32>, lo: nat, i: nat) {
    exists k :: lo <= k < i && k < |ws| && ws[k] != 0
  }

  lemma AnyNext(ws: seq<u32>, lo: nat, i: nat)
    requires i < |ws|
    ensures AnyBetween(ws, lo, i + 1) <==> AnyBetween(ws, lo, i) || (i >= lo && ws[i] != 0)
  {
    if i >= lo && ws[i] != 0 {
      assert lo <= i < i + 1 && ws[i] != 0;
    }
  }

  /** Entries up to i are done: the blocks among them from lo on given back (u) and cleared (now). */
  ghost predicate Freed(used: Bits, ws: seq<u32>, lo: nat, i: nat, u: Bits, now: seq<u32>) {
    && Freeable(u, ws, Max(i, lo)) && T.FreeFrom(u, ws, Max(i, lo)) == T.FreeFrom(used, ws, lo)
    && Discarded(ws, now, lo, i)
  }

  lemma FreedStart(used: Bits, ws: seq<u32>, lo: nat)
    requires Freeable(used, ws, lo)
    ensures Freed(used, ws, lo, 0, used, ws)
  {
  }

  /** The entry at i can be given back and cleared if it is past lo and not empty, and left alone if not. */
  lemma FreedStep(used: Bits, ws: seq<u32>, lo: nat, i: nat, u: Bits, now: seq<u32>)
    requires Freed(used, ws, lo, i, u, now) && i < |ws|
    ensures |now| == |ws| && now[i] == ws[i]
    ensures i >= lo && ws[i] != 0 ==>
      ws[i] < |u| && u[ws[i]] && Freed(used, ws, lo, i + 1, u[ws[i] := false], now[i := 0])
    ensures i < lo || ws[i] == 0 ==> Freed(used, ws, lo, i + 1, u, now)
    ensures AnyBetween(ws, lo, i + 1) <==> AnyBetween(ws, lo, i) || (i >= lo && ws[i] != 0)
  {
    hide T.FreeFrom;
    AnyNext(ws, lo, i);
    if i >= lo {
      FreeOneMore(u, ws, i);
    }
  }

  lemma FreedEnd(used: Bits, ws: seq<u32>, lo: nat, u: Bits, now: seq<u32>)
    requires Freed(used, ws, lo, |ws|, u, now)
    ensures u == T.FreeFrom(used, ws, lo) && now == T.ZeroFrom(ws, lo)
    ensures AnyBetween(ws, lo, |ws|) <==> T.AnyFrom(ws, lo)
  {
    NoMore(u, ws, Max(|ws|, lo));
  }

  /** Give back the direct blocks past the new end. */
  method DiscardDirect(vol: SfsVolume, sv: SfsVnode, blocklen: nat)
    requires vol.Valid() && Freeable(vol.freemap.View(), sv.inode.direct, blocklen)
    modifies vol`mapDirty, vol.freemap.v, sv`inode, sv`dirty
    ensures vol.Valid() && vol.freemap.View() == T.FreeFrom(old(vol.freemap.View()), old(sv.inode.direct), blocklen)
    ensures sv.inode == old(sv.inode).(direct := T.ZeroFrom(old(sv.inode.direct), blocklen))
    ensures vol.mapDirty == (old(vol.mapDirty) || T.AnyFrom(old(sv.inode.direct), blocklen))
    ensures sv.dirty == (old(sv.dirty) || T.AnyFrom(old(sv.inode.direct), blocklen))
  {
    hide T.FreeFrom, T.ZeroFrom, T.AnyFrom, SfsVolume.View, V.Bfree, Freed, Freeable, AnyBetween;
    ghost var ws := sv.inode.direct;
    ghost var used := vol.freemap.View();
    FreedStart(used, ws, blocklen);
    NoneBefore(ws, blocklen);
    for i := 0 to NDIRECT
      invariant vol.Valid() && Freed(used, ws, blocklen, i, vol.freemap.View(), sv.inode.direct)
      invariant sv.inode == old(sv.inode).(direct := sv.inode.direct)
      invariant vol.mapDirty == (old(vol.mapDirty) || AnyBetween(ws, blocklen, i))
      invariant sv.dirty == (old(sv.dirty) || AnyBetween(ws, blocklen, i))
    {
      var block := sv.inode.direct[i];
      FreedStep(used, ws, blocklen, i, vol.freemap.View(), sv.inode.direct);
      if i >= blocklen && block != 0 {
        Bfree(vol, block);
        sv.inode := sv.inode.(direct := sv.inode.direct[i := 0]);
        sv.dirty := true;
      }
    }
    FreedEnd(used, ws, blocklen, vol.freemap.View(), sv.inode.direct);
  }

  lemma NoneBefore(ws: seq<u32>, lo: nat)
    ensures !AnyBetween(ws, lo, 0)
  {
  }

  lemma NoMore(used: Bits, ws: seq<u32>, lo: nat)
    requires lo >= |ws|
    ensures T.FreeFrom(used, ws, lo) == used
  {
  }

  /** Give back the blocks of the indirect block past the new end; note what is left and whether anything changed. */
  method DiscardEntries(vol: SfsVolume, idbuf: array<u32>, blocklen: nat) returns (hasnonzero: bool, iddirty: bool)
    requires vol.Valid() && idbuf.Length == DBPERIDB
    requires Freeable(vol.freemap.View(), idbuf[..], T.FirstDropped(blocklen))
    modifies vol`mapDirty, vol.freemap.v, idbuf
    ensures vol.Valid()
    ensures vol.freemap.View() == T.FreeFrom(old(vol.freemap.View()), old(idbuf[..]), T.FirstDropped(blocklen))
    ensures idbuf[..] == T.ZeroFrom(old(idbuf[..]), T.FirstDropped(blocklen))
    ensures vol.mapDirty == (old(vol.mapDirty) || iddirty)
    ensures iddirty <==> T.AnyFrom(old(idbuf[..]), T.FirstDropped(blocklen))
    ensures hasnonzero <==> T.AnyFrom(idbuf[..], 0)
  {
    hide T.FreeFrom, T.ZeroFrom, T.AnyFrom, SfsVolume.View, V.Bfree, Freed, Freeable, AnyBetween;
    ghost var ws := idbuf[..];
    ghost var used := vol.freemap.View();
    ghost var lo := T.FirstDropped(blocklen);
    FreedStart(used, ws, lo);
    NoneBefore(ws, lo);
    NoneBefore(T.ZeroFrom(ws, lo), 0);
    hasnonzero, iddirty := false, false;
    for j := 0 to DBPERIDB
      invariant vol.Valid() && Freed(used, ws, lo, j, vol.freemap.View(), idbuf[..])
      invariant iddirty <==> AnyBetween(ws, lo, j)
      invariant vol.mapDirty == (old(vol.mapDirty) || iddirty)
      invariant hasnonzero <==> AnyBetween(T.ZeroFrom(ws, lo), 0, j)
    {
      FreedStep(used, ws, lo, j, vol.freemap.View(), idbuf[..]);
      AnyNext(T.ZeroFrom(ws, lo), 0, j);
      ghost var now := idbuf[..];
      if blocklen < NDIRECT + j && idbuf[j] != 0 {
        Bfree(vol, idbuf[j]);
        idbuf[j] := 0;
        iddirty := true;
        assert idbuf[..] == now[j := 0];
      }
      if idbuf[j] != 0 {
        hasnonzero := true;
      }
    }
    FreedEnd(used, ws, lo, vol.freemap.View(), idbuf[..]);
    WholeRange(idbuf[..]);
  }

  lemma WholeRange(ws: seq<u32>)
    ensures AnyBetween(ws, 0, |ws|) <==> T.AnyFrom(ws, 0)
  {
  }

  lemma DirectFreeable(fs: Fs, live: set<nat>, i: nat, lo: nat)
    requires Store(fs, live, {}) && i in live
    ensures Freeable(fs.used, Cur(fs, i).direct, lo)
  {
    hide Store, Cur;
    var ws := Cur(fs, i).direct;
    assert forall k :: 0 <= k < |ws| ==> Slot(fs, i, k) == ws[k];
    SlotsFreeable(fs, live, i, ws, 0, lo);
  }

  lemma EntriesFreeable(fs: Fs, live: set<nat>, i: nat, lo: nat)
    requires Store(fs, live, {}) && i in live && Cur(fs, i).indirect != 0
    ensures Freeable(fs.used, BlockWords(ReadBlock(fs, Cur(fs, i).indirect)), lo)
  {
    hide Store, Cur, BlockWords, ReadBlock;
    var ws := BlockWords(ReadBlock(fs, Cur(fs, i).indirect));
    forall k | 0 <= k < |ws|
      ensures Slot(fs, i, NDIRECT + k) == ws[k]
    {
      T.EntrySlots(fs, i, k);
    }
    SlotsFreeable(fs, live, i, ws, NDIRECT, lo);
  }

  lemma SlotsFreeable(fs: Fs, live: set<nat>, i: nat, ws: seq<u32>, base: nat, lo: nat)
    requires Store(fs, live, {}) && i in live && base + |ws| <= MAXBLOCKS
    requires forall k :: 0 <= k < |ws| ==> Slot(fs, i, base + k) == ws[k]
    ensures Freeable(fs.used, ws, lo)
  {
    hide Slot, Shape, Placed, MapExact, SlotsOk, Clean;
    forall k | lo <= k < |ws| && ws[k] != 0
      ensures ws[k] < |fs.used| && fs.used[ws[k]]
    {
      SlotUsed(fs, live, i, base + k);
    }
    forall j, k | lo <= j < k < |ws| && ws[j] != 0
      ensures ws[j] != ws[k]
    {
      assert Slot(fs, i, base + j) == ws[j] && Slot(fs, i, base + k) == ws[k];
    }
  }

  /** Giving back the entries of an indirect block leaves the block itself in use. */
  lemma IndirectStays(fs: Fs, live: set<nat>, i: nat, lo: nat)
    requires Store(fs, live, {}) && i in live && Cur(fs, i).indirect != 0
    ensures var id := Cur(fs, i).indirect; var ws := BlockWords(ReadBlock(fs, id));
      id < |fs.disk| && id < |fs.used| && T.FreeFrom(fs.used, ws, lo)[id]
  {
    hide Shape, Placed, MapExact, SlotsOk, Clean, T.FreeFrom, BlockWords, Cur, ReadBlock;
    SlotUsed(fs, live, i, MAXBLOCKS);
    var id := Cur(fs, i).indirect;
    var ws := BlockWords(ReadBlock(fs, id));
    T.FreeFromBit(fs.used, ws, lo, id);
    forall k | 0 <= k < |ws|
      ensures ws[k] != id
    {
      T.EntrySlots(fs, i, k);
      assert Slot(fs, i, NDIRECT + k) == ws[k] && Slot(fs, i, MAXBLOCKS) == id;
    }
  }

  method TruncDirect(vol: SfsVolume, sv: SfsVnode, blocklen: nat, ghost live: set<nat>)
    requires vol.Valid() && Store(vol.View(), live, {}) && sv in vol.vnodes
    modifies vol`mapDirty, vol.freemap.v, sv`inode, sv`dirty
    ensures vol.Valid() && vol.View() == T.TruncDirect(old(vol.View()), sv.ino, blocklen)
  {
    hide Store, T.FreeFrom, T.ZeroFrom, T.AnyFrom, SfsVolume.Valid;
    ghost var fs := vol.View();
    vol.VnodeAt(live, {}, sv);
    ghost var k := IndexOf(fs.vnodes, sv.ino);
    DirectFreeable(fs, live, sv.ino, blocklen);
    if !T.AnyFrom(sv.inode.direct, blocklen) {
      T.NoneFreed(fs.used, sv.inode.direct, blocklen);
      T.NoneZeroed(sv.inode.direct, blocklen);
    }
    DiscardDirect(vol, sv, blocklen);
    vol.OneChanged(fs.vnodes, sv, k);
  }

  /** What the loop over the entries leaves is what truncation of the indirect block means. */
  lemma TruncIndirectIs(fs: Fs, b: Fs, i: nat, bl: nat, ws: Words, lo: nat, gone: bool, some: bool)
    requires Loaded(fs, i) && Cur(fs, i).indirect != 0 && bl < T.HIGHBLOCK && Cur(fs, i).indirect < |fs.disk|
    requires Cur(fs, i).indirect < |fs.used|
    requires ws == BlockWords(fs.disk[Cur(fs, i).indirect]) && lo == T.FirstDropped(bl)
    requires b.nblocks == fs.nblocks
    requires gone == !T.AnyFrom(T.ZeroFrom(ws, lo), 0) && some == T.AnyFrom(ws, lo)
    requires gone ==> b.used == T.FreeFrom(fs.used, ws, lo)[Cur(fs, i).indirect := false]
    requires !gone ==> b.used == T.FreeFrom(fs.used, ws, lo)
    requires b.mapDirty == (fs.mapDirty || some || gone)
    requires !gone && some ==> b.disk == fs.disk[Cur(fs, i).indirect := WordsBlock(T.ZeroFrom(ws, lo))]
    requires gone || !some ==> b.disk == fs.disk
    requires b.vnodes == fs.vnodes[IndexOf(fs.vnodes, i) := GiveUp(VnodeOf(fs, i), gone)]
    ensures b == T.TruncIndirect(fs, i, bl)
  {
    hide T.FreeFrom, T.ZeroFrom, T.AnyFrom, BlockWords, WordsBlock;
    var id := Cur(fs, i).indirect;
    T.FreeSingle(T.FreeFrom(fs.used, ws, lo), id);
  }

  function GiveUp(v: Vnode, gone: bool): Vnode {
    if gone then v.(inode := v.inode.(indirect := 0), dirty := true) else v
  }

  lemma TruncIndirectNot(fs: Fs, i: nat, bl: nat)
    requires bl >= T.HIGHBLOCK || Cur(fs, i).indirect == 0
    ensures T.TruncIndirect(fs, i, bl) == fs
  {
  }

  /** The indirect block of a file being truncated: entries given back, then the block itself if none is left. */
  method TruncIndirect(vol: SfsVolume, sv: SfsVnode, blocklen: nat, ghost live: set<nat>)
    requires vol.Valid() && Store(vol.View(), live, {}) && sv in vol.vnodes
    modifies vol`disk, vol`mapDirty, vol.freemap.v, sv`inode, sv`dirty
    ensures vol.Valid() && vol.View() == T.TruncIndirect(old(vol.View()), sv.ino, blocklen)
  {
    hide Store, T.FreeFrom, T.ZeroFrom, T.AnyFrom, T.TruncIndirect, SfsVolume.Valid, SfsVolume.View, BlockWords;
    hide WordsBlock;
    ghost var fs := vol.View();
    vol.Parts();
    vol.VnodeAt(live, {}, sv);
    ghost var k := IndexOf(fs.vnodes, sv.ino);
    var idblock := sv.inode.indirect;
    if blocklen < T.HIGHBLOCK && idblock != 0 {
      EntriesFreeable(fs, live, sv.ino, T.FirstDropped(blocklen));
      IndirectStays(fs, live, sv.ino, T.FirstDropped(blocklen));
      var ws := BlockWords(vol.disk[idblock]);
      var idbuf := new u32[DBPERIDB](j requires 0 <= j < DBPERIDB => ws[j]);
      assert idbuf[..] == ws;
      var hasnonzero, iddirty := DiscardEntries(vol, idbuf, blocklen);
      if !hasnonzero {
        Bfree(vol, idblock);
        sv.inode := sv.inode.(indirect := 0);
        sv.dirty := true;
      } else if iddirty {
        vol.WBlock(WordsBlock(idbuf[..]), idblock);
      }
      vol.OneChanged(fs.vnodes, sv, k);
      TruncIndirectIs(fs, vol.View(), sv.ino, blocklen, ws, T.FirstDropped(blocklen), !hasnonzero, iddirty);
    } else {
      TruncIndirectNot(fs, sv.ino, blocklen);
    }
  }

  /** Cut a file to len bytes. */
  method Truncate(vol: SfsVolume, sv: SfsVnode, len: nat, ghost live: set<nat>)
    requires vol.Valid() && Store(vol.View(), live, {}) && sv in vol.vnodes && len < 0x8000_0000
    modifies vol`disk, vol`mapDirty, vol.freemap.v, sv`inode, sv`dirty
    ensures vol.Valid() && vol.View() == T.Truncate(old(vol.View()), sv.ino, len)
  {
    hide Store, T.TruncDirect, T.TruncIndirect, SfsVolume.View, SfsVolume.Valid;
    ghost var fs := vol.View();
    vol.VnodeAt(live, {}, sv);
    var blocklen := (len + BLOCKSIZE - 1) / BLOCKSIZE;
    T.TruncDirectTrims(fs, live, sv.ino, blocklen);
    TruncDirect(vol, sv, blocklen, live);
    T.TruncIndirectTrims(vol.View(), live, sv.ino, blocklen);
    TruncIndirect(vol, sv, blocklen, live);
    vol.VnodeAt(live, {}, sv);
    vol.SetInode(sv, sv.inode.(size := len), live, {});
  }

  // ---- Vnodes -------------------------------------------------------------

  /** The block of a live inode, and of one just taken, is in use. */
  lemma InodeUsed(fs: Fs, live: set<nat>, extra: set<nat>, i: nat)
    requires Store(fs, live, extra) && i in live + extra
    ensures i < |fs.used| && i < |fs.disk| && fs.used[i]
  {
    hide SlotsOk, Unshared, Clean, Owned, BitBlocks, Slot;
    V.BitmapCovers(fs.nblocks);
    assert fs.used[i] <==> InUse(fs, live, extra, i);
  }

  /** A type is given exactly for an inode that has none yet and is not in the table. */
  ghost predicate Loadable(fs: Fs, ino: nat, forcetype: u16) {
    && (forcetype == TYPE_INVAL ==> Cur(fs, ino).kind in {TYPE_FILE, TYPE_DIR})
    && (forcetype != TYPE_INVAL ==>
          forcetype in {TYPE_FILE, TYPE_DIR} && !Loaded(fs, ino) && Cur(fs, ino).kind == TYPE_INVAL)
  }

  /** Find the vnode of an inode, or read it in; a new object is given its type. */
  method LoadVnode(vol: SfsVolume, ino: nat, forcetype: u16, ghost live: set<nat>, ghost extra: set<nat>)
    returns (sv: SfsVnode)
    requires vol.Valid() && Store(vol.View(), live, extra) && ino in live + extra
    requires Loadable(vol.View(), ino, forcetype)
    modifies vol`vnodes, vol.vnodes
    ensures vol.Valid() && sv in vol.vnodes && sv.ino == ino
    ensures (forcetype == TYPE_INVAL && vol.vnodes == old(vol.vnodes))
      || (fresh(sv) && vol.vnodes == old(vol.vnodes) + [sv])
    ensures forcetype == TYPE_INVAL ==> vol.View() == V.Load(old(vol.View()), ino)
    ensures forcetype != TYPE_INVAL ==> vol.View() == V.LoadNew(old(vol.View()), ino, forcetype)
  {
    hide Store, DecodeInode, SfsVolume.View, SfsVolume.Valid, V.Load, V.LoadNew, IndexOf, Table;
    ghost var fs := vol.View();
    vol.Parts();
    var num := |vol.vnodes|;
    for i := 0 to num
      invariant vol.Valid() && vol.View() == fs && vol.vnodes == old(vol.vnodes)
      invariant forall j :: 0 <= j < i ==> fs.vnodes[j].ino != ino
    {
      sv := vol.vnodes[i];
      vol.VnodeAt(live, extra, sv);
      BusedCheck(vol, sv.ino, live, extra);
      if sv.ino == ino {
        vol.Incref(sv, live, extra);
        return;
      }
    }
    IndexNone(fs.vnodes, ino);
    sv := ReadVnode(vol, ino, forcetype, live, extra);
  }

  /** Read in an inode that is not in the table, and add it. */
  method ReadVnode(vol: SfsVolume, ino: nat, forcetype: u16, ghost live: set<nat>, ghost extra: set<nat>)
    returns (sv: SfsVnode)
    requires vol.Valid() && Store(vol.View(), live, extra) && ino in live + extra && !Loaded(vol.View(), ino)
    requires Loadable(vol.View(), ino, forcetype)
    modifies vol`vnodes
    ensures vol.Valid() && sv.ino == ino && fresh(sv) && vol.vnodes == old(vol.vnodes) + [sv]
    ensures forcetype == TYPE_INVAL ==> vol.View() == V.Load(old(vol.View()), ino)
    ensures forcetype != TYPE_INVAL ==> vol.View() == V.LoadNew(old(vol.View()), ino, forcetype)
  {
    hide Store, DecodeInode, SfsVolume.View, SfsVolume.Valid, V.Load, V.LoadNew;
    ghost var fs := vol.View();
    vol.Parts();
    BusedCheck(vol, ino, live, extra);
    InodeUsed(fs, live, extra, ino);
    var inode := DecodeInode(vol.disk[ino]);
    var dirty := false;
    if forcetype != TYPE_INVAL {
      assert inode.kind == TYPE_INVAL;
      inode := inode.(kind := forcetype);
      dirty := true;
    }
    assert inode.kind == TYPE_FILE || inode.kind == TYPE_DIR;
    sv := new SfsVnode(ino, inode, dirty);
    vol.AddVnode(sv);
    LoadMiss(fs, vol.View(), ino, forcetype);
  }

  lemma IndexNone(vs: seq<Vnode>, i: nat)
    requires forall j :: 0 <= j < |vs| ==> vs[j].ino != i
    ensures IndexOf(vs, i) == |vs|
  {
  }

  lemma LoadMiss(fs: Fs, b: Fs, i: nat, kind: u16)
    requires !Loaded(fs, i) && i < |fs.disk|
    requires var n := DecodeInode(fs.disk[i]);
      b.vnodes == fs.vnodes + [Vnode(i, if kind == TYPE_INVAL then n else n.(kind := kind), kind != TYPE_INVAL, 1, 0)]
    requires b == fs.(vnodes := b.vnodes)
    ensures kind == TYPE_INVAL ==> b == V.Load(fs, i)
    ensures kind != TYPE_INVAL ==> b == V.LoadNew(fs, i, kind)
  {
    hide DecodeInode;
  }

  /** The checks that an inode lies in a block marked in use never fire. */
  method BusedCheck(vol: SfsVolume, ino: nat, ghost live: set<nat>, ghost extra: set<nat>)
    requires vol.Valid() && Store(vol.View(), live, extra) && ino in live + extra
    ensures ino < vol.nblocks && vol.View().used[ino]
  {
    InodeUsed(vol.View(), live, extra, ino);
    hide Store;
    var used := vol.freemap.IsSet(ino);
    assert used;
  }

  /** Write a changed inode back to its block. */
  method SyncInode(vol: SfsVolume, sv: SfsVnode, ghost live: set<nat>)
    requires vol.Valid() && Store(vol.View(), live, {}) && sv in vol.vnodes
    modifies vol`disk, sv`dirty
    ensures vol.Valid() && vol.View() == V.SyncInode(old(vol.View()), sv.ino)
  {
    hide Store, EncodeInode, SfsVolume.Valid;
    ghost var fs := vol.View();
    vol.VnodeAt(live, {}, sv);
    InodeUsed(fs, live, {}, sv.ino);
    if sv.dirty {
      vol.WBlock(EncodeInode(sv.inode), sv.ino);
      sv.dirty := false;
      vol.OneChanged(fs.vnodes, sv, IndexOf(fs.vnodes, sv.ino));
    }
  }

  /** Emptying a file leaves the store sound and the link count alone. */
  lemma Emptied(fs: Fs, live: set<nat>, i: nat)
    requires Store(fs, live, {}) && i in live && Loaded(fs, i)
    ensures Store(T.Truncate(fs, i, 0), live, {}) && Cur(T.Truncate(fs, i, 0), i).links == Cur(fs, i).links
  {
    hide Store, Cur, Slot, FileOf, Files, T.Truncate, T.Cut, T.SlotsCut, T.FreedExactly;
    T.TruncateCorrect(fs, live, i, 0);
    O.FileLinks(fs, i);
    O.FileLinks(T.Truncate(fs, i, 0), i);
  }

  /** The last reference to a vnode is gone: erase the file if it has no name, write the inode back, drop the vnode. */
  method Reclaim(vol: SfsVolume, sv: SfsVnode, ghost live: set<nat>)
    requires vol.Valid() && Store(vol.View(), live, {}) && sv in vol.vnodes
    modifies vol`disk, vol`mapDirty, vol`vnodes, vol.freemap.v, sv`inode, sv`dirty
    ensures vol.Valid() && vol.View() == V.Reclaim(old(vol.View()), sv.ino)
    ensures forall u :: u in vol.vnodes ==> u in old(vol.vnodes)
  {
    hide Store, SfsVolume.Valid, SfsVolume.View, V.SyncInode, V.Unload, V.Bfree, T.Truncate, Cur, Slot;
    ghost var fs := vol.View();
    vol.VnodeAt(live, {}, sv);
    if sv.inode.links == 0 {
      Emptied(fs, live, sv.ino);
      Truncate(vol, sv, 0, live);
      vol.VnodeAt(live, {}, sv);
    }
    V.SyncCorrect(vol.View(), live, sv.ino);
    SyncInode(vol, sv, live);
    vol.VnodeAt(live, {}, sv);
    if sv.inode.links == 0 {
      InodeUsed(vol.View(), live, {}, sv.ino);
      vol.Parts();
      Bfree(vol, sv.ino);
      vol.Parts();
    }
    Forget(vol, sv);
  }

  /** Take a vnode out of the table. */
  method Forget(vol: SfsVolume, sv: SfsVnode)
    requires vol.Valid() && sv in vol.vnodes && Loaded(vol.View(), sv.ino)
    requires exists k :: 0 <= k < |vol.vnodes| && vol.vnodes[k] == sv && IndexOf(vol.View().vnodes, sv.ino) == k
    modifies vol`vnodes
    ensures vol.Valid() && vol.View() == V.Unload(old(vol.View()), sv.ino)
    ensures forall u :: u in vol.vnodes ==> u in old(vol.vnodes)
  {
    hide IndexOf, SfsVolume.View;
    ghost var k := IndexOf(vol.View().vnodes, sv.ino);
    var ix, i := -1, 0;
    while i < |vol.vnodes| && ix < 0
      invariant 0 <= i <= |vol.vnodes|
      invariant ix < 0 ==> forall j :: 0 <= j < i ==> vol.vnodes[j] != sv
      invariant ix >= 0 ==> ix < |vol.vnodes| && vol.vnodes[ix] == sv
    {
      if vol.vnodes[i] == sv {
        ix := i;
      }
      i := i + 1;
    }
    assert ix == k;
    vol.RemoveVnode(ix);
  }

  /** Drop a reference; the last one reclaims the vnode. */
  method Decref(vol: SfsVolume, sv: SfsVnode, ghost live: set<nat>)
    requires vol.Valid() && Store(vol.View(), live, {}) && sv in vol.vnodes
    modifies vol`disk, vol`mapDirty, vol`vnodes, vol.freemap.v, sv
    ensures vol.Valid() && vol.View() == V.Decref(old(vol.View()), sv.ino)
    ensures forall u :: u in vol.vnodes ==> u in old(vol.vnodes)
  {
    hide Store, SfsVolume.Valid, V.Reclaim;
    ghost var fs := vol.View();
    vol.VnodeAt(live, {}, sv);
    if sv.refs > 1 {
      sv.refs := sv.refs - 1;
      vol.OneChanged(fs.vnodes, sv, IndexOf(fs.vnodes, sv.ino));
    } else {
      Reclaim(vol, sv, live);
    }
  }

  /** Count one more open file. */
  method Incopen(vol: SfsVolume, sv: SfsVnode, ghost live: set<nat>)
    requires vol.Valid() && Store(vol.View(), live, {}) && sv in vol.vnodes
    modifies sv`opens
    ensures vol.Valid() && vol.View() == R.AddOpen(old(vol.View()), sv.ino) && sv.opens == old(sv.opens) + 1
  {
    hide Store, SfsVolume.Valid;
    ghost var fs := vol.View();
    vol.VnodeAt(live, {}, sv);
    sv.opens := sv.opens + 1;
    vol.OneChanged(fs.vnodes, sv, IndexOf(fs.vnodes, sv.ino));
  }

  /** Count one less; the last close writes the inode back. */
  method Decopen(vol: SfsVolume, sv: SfsVnode, ghost live: set<nat>)
    requires vol.Valid() && Store(vol.View(), live, {}) && sv in vol.vnodes && sv.opens > 0
    modifies vol`disk, sv`opens, sv`dirty
    ensures vol.Valid() && vol.View() == R.DropOpen(old(vol.View()), sv.ino) && sv.opens == old(sv.opens) - 1
  {
    hide Store, SfsVolume.Valid, V.SyncInode, EncodeInode;
    ghost var fs := vol.View();
    vol.VnodeAt(live, {}, sv);
    O.RefPositive(fs, live, sv.ino);
    V.CountsStore(fs, live, sv.ino, VnodeOf(fs, sv.ino).(opens := sv.opens - 1));
    sv.opens := sv.opens - 1;
    vol.OneChanged(fs.vnodes, sv, IndexOf(fs.vnodes, sv.ino));
    if sv.opens == 0 {
      SyncInode(vol, sv, live);
    }
  }
}
