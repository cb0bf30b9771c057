/** The directory and the calls that work on names, as they update a mounted volume in place. */
module SfsNames {
  import opened Words
  import opened Uios
  import opened SfsLayout
  import opened SfsState
  import opened SfsKernel
  import opened SfsXfer
  import C = SfsCalls
  import B = SfsBmap
  import I = SfsIo
  import V = SfsVnode
  import D = SfsDir
  import O = SfsOps

  /** A directory that can be searched: its slots readable, no name twice. */
  ghost predicate Searchable(fs: Fs, live: set<nat>) {
    Store(fs, live, {}) && Loaded(fs, ROOT) && D.DirFile(O.RootFile(fs)) && D.Distinct(O.SlotsOf(fs))
  }

  lemma SlotRead(x: X, y: X, r: Res<()>, live: set<nat>, slot: nat)
    requires Searchable(x.fs, live) && slot < |O.SlotsOf(x.fs)| && x.offset == DIRSIZE * slot
    requires |x.mem| == DIRSIZE == x.resid && x.base == 0
    requires Outcome(false, x, y, r, IoW(x, ROOT), IoG(x, ROOT))
    ensures r.Ok? && y.resid == 0 && y.fs == x.fs && |y.mem| == DIRSIZE && DecodeEntry(y.mem) == O.SlotsOf(x.fs)[slot]
  {
    hide Store, DecodeEntry, I.ReadIo, FileOf, D.DirSlots, Patch;
    D.ReadSlotCorrect(x.fs, live, slot);
    PatchWhole(x.mem, IoG(x, ROOT).bytes);
  }

  /** Read a slot. Neither an error nor an end of file in mid-entry can come up. */
  method ReadDir(vol: SfsVolume, dir: SfsVnode, slot: nat, ghost live: set<nat>) returns (e: Entry)
    requires vol.Valid() && Searchable(vol.View(), live) && dir in vol.vnodes && dir.ino == ROOT
    requires slot < |O.SlotsOf(vol.View())|
    modifies vol`disk, vol`mapDirty, vol.freemap.v, dir`inode, dir`dirty
    ensures vol.Valid() && vol.View() == old(vol.View()) && e == O.SlotsOf(vol.View())[slot]
  {
    hide SfsVolume.View, SfsVolume.Valid, Store, Outcome, DecodeEntry, IoW, IoG, FileOf, D.Distinct;
    var actualpos := slot * DIRSIZE;
    var buf := new byte[DIRSIZE](_ => 0);
    var ku := new Uio(buf, DIRSIZE, actualpos, false);
    ghost var x := vol.Xfer(ku);
    var result := vol.Io(dir, ku, live);
    SlotRead(x, vol.Xfer(ku), result, live, slot);
    assert result.Ok? && ku.resid == 0;
    return DecodeEntry(buf[..]);
  }

  method DirNentries(vol: SfsVolume, dir: SfsVnode, ghost live: set<nat>) returns (n: nat)
    requires vol.Valid() && Searchable(vol.View(), live) && dir in vol.vnodes && dir.ino == ROOT
    ensures n == |O.SlotsOf(vol.View())|
  {
    hide SfsVolume.View, SfsVolume.Valid, Store, D.Distinct;
    vol.VnodeAt(live, {}, dir);
    var size := dir.inode.size;
    I.FileSize(vol.View(), ROOT);
    assert size % DIRSIZE == 0;
    return size / DIRSIZE;
  }

  /** Search the directory for a name: its slot and inode, and the last empty slot seen. */
  method FindName(vol: SfsVolume, dir: SfsVnode, name: Name, ghost live: set<nat>) returns (h: D.Hit)
    requires vol.Valid() && Searchable(vol.View(), live) && dir in vol.vnodes && dir.ino == ROOT
    modifies vol`disk, vol`mapDirty, vol.freemap.v, dir`inode, dir`dirty
    ensures vol.Valid() && vol.View() == old(vol.View()) && h == O.Find(vol.View(), name)
  {
    hide SfsVolume.View, SfsVolume.Valid, Searchable, O.SlotsOf;
    ghost var fs := vol.View();
    var found, slot, ino, emptyslot := false, -1, 0, -1;
    var nentries := DirNentries(vol, dir, live);
    for i := 0 to nentries
      invariant vol.Valid() && vol.View() == fs
      invariant D.Hit(found, slot, ino, emptyslot) == D.Search(O.SlotsOf(fs), name, i)
    {
      var tsd := ReadDir(vol, dir, i, live);
      if tsd.ino == NOINO {
        emptyslot := i;
      } else if tsd.name == name {
        OnlyOnce(fs, live, name, i);
        assert !found;
        found, slot, ino := true, i, tsd.ino;
      }
    }
    return D.Hit(found, slot, ino, emptyslot);
  }

  /** Each name appears only once, so none was found before this one. */
  lemma OnlyOnce(fs: Fs, live: set<nat>, name: Name, i: nat)
    requires Searchable(fs, live) && i < |O.SlotsOf(fs)|
    requires O.SlotsOf(fs)[i].ino != NOINO && O.SlotsOf(fs)[i].name == name
    ensures !D.Search(O.SlotsOf(fs), name, i).found
  {
    hide Store, O.SlotsOf;
    D.SearchCorrect(O.SlotsOf(fs), name, i);
  }

  lemma SlotWrite(x: X, y: X, r: Res<()>, slot: nat, ino: u32, name: Name)
    requires |name| < NAMELEN && slot <= D.MAXSLOTS && x.offset == DIRSIZE * slot
    requires x.mem == EncodeEntry(ino, name) && x.resid == DIRSIZE && x.base == 0
    requires Outcome(true, x, y, r, IoW(x, ROOT), IoG(x, ROOT))
    ensures y.fs == D.WriteSlot(x.fs, slot, ino, name).fs && r == D.WriteSlot(x.fs, slot, ino, name).r
    ensures r.Ok? ==> y.resid == 0
  {
    hide EncodeEntry, I.WriteRegion, Cur, PutInode;
    assert Area(x) == x.mem;
  }

  /** Write a slot; a write that succeeds is a whole entry. */
  method WriteDir(vol: SfsVolume, dir: SfsVnode, slot: nat, ino: u32, name: Name, ghost live: set<nat>)
    returns (r: Res<()>)
    requires vol.Valid() && Searchable(vol.View(), live) && dir in vol.vnodes && dir.ino == ROOT
    requires slot <= D.MAXSLOTS && |name| < NAMELEN
    modifies vol`disk, vol`mapDirty, vol.freemap.v, dir`inode, dir`dirty
    ensures vol.Valid()
    ensures vol.View() == D.WriteSlot(old(vol.View()), slot, ino, name).fs
    ensures r == D.WriteSlot(old(vol.View()), slot, ino, name).r
  {
    hide SfsVolume.View, SfsVolume.Valid, Store, Outcome, EncodeEntry, IoW, IoG, FileOf, D.Distinct, D.WriteSlot;
    hide O.SlotsOf;
    var actualpos := slot * DIRSIZE;
    var raw := EncodeEntry(ino, name);
    var buf := new byte[DIRSIZE](j requires 0 <= j < DIRSIZE => raw[j]);
    assert buf[..] == raw;
    var ku := new Uio(buf, DIRSIZE, actualpos, true);
    ghost var x := vol.Xfer(ku);
    r := vol.Io(dir, ku, live);
    SlotWrite(x, vol.Xfer(ku), r, slot, ino, name);
    assert r.Ok? ==> ku.resid == 0;
  }

  /** Enter a name: refuse a duplicate or a name too long, use an empty slot or add one. */
  method DirLink(vol: SfsVolume, dir: SfsVnode, name: Name, ino: u32, ghost live: set<nat>) returns (r: Res<nat>)
    requires vol.Valid() && Searchable(vol.View(), live) && dir in vol.vnodes && dir.ino == ROOT
    modifies vol`disk, vol`mapDirty, vol.freemap.v, dir`inode, dir`dirty
    ensures vol.Valid() && (vol.View(), r) == O.DirLink(old(vol.View()), name, ino)
  {
    hide SfsVolume.View, SfsVolume.Valid, Searchable, D.WriteSlot, O.SlotsOf;
    var h := FindName(vol, dir, name, live);
    if h.found {
      return Err(EEXIST);
    }
    if |name| + 1 > NAMELEN {
      return Err(ENAMETOOLONG);
    }
    var emptyslot := h.empty;
    if emptyslot < 0 {
      emptyslot := DirNentries(vol, dir, live);
    }
    var w := WriteDir(vol, dir, emptyslot, ino, name, live);
    r := if w.Ok? then Ok(emptyslot) else Err(w.e);
  }

  method DirUnlink(vol: SfsVolume, dir: SfsVnode, slot: nat, ghost live: set<nat>) returns (r: Res<()>)
    requires vol.Valid() && Searchable(vol.View(), live) && dir in vol.vnodes && dir.ino == ROOT && slot <= D.MAXSLOTS
    modifies vol`disk, vol`mapDirty, vol.freemap.v, dir`inode, dir`dirty
    ensures vol.Valid() && (vol.View(), r) == O.DirUnlink(old(vol.View()), slot)
  {
    hide SfsVolume.View, SfsVolume.Valid, Searchable, D.WriteSlot;
    r := WriteDir(vol, dir, slot, NOINO, [], live);
  }

  lemma InvSearchable(fs: Fs, live: set<nat>, i: nat, d: int)
    requires O.InvBut(fs, live, i, d) && Loaded(fs, ROOT)
    ensures Searchable(fs, live) && Store(fs, live, {})
  {
    hide Store, O.RootFile, O.SlotsOf, O.LiveIs, O.Attrs, O.MapSaved, D.Distinct;
  }

  lemma NamedFile(fs: Fs, live: set<nat>, name: Name)
    requires O.Inv(fs, live) && O.Find(fs, name).found
    ensures var i := O.Find(fs, name).ino as nat;
      i in live && Store(fs, live, {}) && C.Loadable(fs, i, TYPE_INVAL) && Cur(fs, i).links > 0
  {
    hide Store, O.MapSaved, O.SlotsOf, D.DirFile, Cur;
    O.FindLive(fs, live, name);
    O.InvDistinct(fs, live);
    O.FindNames(fs, name);
    var h := O.Find(fs, name);
    I.FileSize(fs, h.ino);
    assert O.AttrOk(fs, O.SlotsOf(fs), h.ino, ROOT, 0);
    assert O.Named(O.SlotsOf(fs), O.SlotsOf(fs)[h.slot].ino);
    if Cur(fs, h.ino).links == 0 {
      O.GoneUnnamed(fs, live, h.ino);
    }
  }

  /** Look a name up and get its vnode, with a reference. */
  method LookOnce(vol: SfsVolume, dir: SfsVnode, name: Name, ghost live: set<nat>) returns (r: Res<SfsVnode>, slot: int)
    requires vol.Valid() && O.Inv(vol.View(), live) && dir in vol.vnodes && dir.ino == ROOT && Loaded(vol.View(), ROOT)
    modifies vol`disk, vol`mapDirty, vol`vnodes, vol.freemap.v, vol.vnodes
    ensures vol.Valid() && dir in vol.vnodes && (forall u :: u in vol.vnodes ==> u in old(vol.vnodes) || fresh(u))
    ensures var h := O.Find(old(vol.View()), name);
      && (!h.found ==> vol.View() == old(vol.View()) && r == Err(ENOENT))
      && (h.found ==> r.Ok? && r.v in vol.vnodes && r.v.ino == h.ino && slot == h.slot)
      && (h.found ==> vol.View() == V.Load(old(vol.View()), h.ino))
  {
    hide SfsVolume.View, SfsVolume.Valid, Searchable, O.InvBut, O.Find, V.Load, Store;
    ghost var fs := vol.View();
    InvSearchable(fs, live, ROOT, 0);
    var h := FindName(vol, dir, name, live);
    slot := h.slot;
    if !h.found {
      return Err(ENOENT), slot;
    }
    NamedFile(fs, live, name);
    var sv := C.LoadVnode(vol, h.ino, TYPE_INVAL, live, {});
    r := Ok(sv);
  }

  method Lookup(vol: SfsVolume, dir: SfsVnode, name: Name, ghost live: set<nat>) returns (r: Res<SfsVnode>)
    requires vol.Valid() && O.Inv(vol.View(), live) && dir in vol.vnodes && dir.ino == ROOT && Loaded(vol.View(), ROOT)
    modifies vol`disk, vol`mapDirty, vol`vnodes, vol.freemap.v, vol.vnodes
    ensures vol.Valid() && (r.Ok? ==> r.v in vol.vnodes)
    ensures (vol.View(), Number(r)) == O.Lookup(old(vol.View()), name)
  {
    hide SfsVolume.View, SfsVolume.Valid, O.InvBut, O.Find, V.Load;
    ghost var slot;
    r, slot := LookOnce(vol, dir, name, live);
  }

  /** The inode number in place of the vnode. */
  function Number(r: Res<SfsVnode>): Res<nat> {
    match r
    case Ok(sv) => Ok(sv.ino)
    case Err(e) => Err(e)
  }

  method CountUp(vol: SfsVolume, sv: SfsVnode, ghost live: set<nat>)
    requires vol.Valid() && Store(vol.View(), live, {}) && sv in vol.vnodes
    modifies sv`inode, sv`dirty
    ensures vol.Valid() && vol.View() == O.AddLink(old(vol.View()), sv.ino)
  {
    hide SfsVolume.View, SfsVolume.Valid, Store, PutInode;
    vol.VnodeAt(live, {}, sv);
    vol.SetInode(sv, sv.inode.(links := (sv.inode.links + 1) % 0x1_0000), live, {});
  }

  method CountDown(vol: SfsVolume, sv: SfsVnode, ghost live: set<nat>)
    requires vol.Valid() && O.InvBut(vol.View(), live, sv.ino, 1) && sv in vol.vnodes && Store(vol.View(), live, {})
    modifies sv`inode, sv`dirty
    ensures vol.Valid() && vol.View() == O.DropLink(old(vol.View()), sv.ino) && O.Inv(vol.View(), live)
  {
    hide SfsVolume.View, SfsVolume.Valid, Store, PutInode, O.InvBut, O.SameRefs, O.Kept, O.SlotsOf;
    vol.VnodeAt(live, {}, sv);
    O.DropLinkInv(vol.View(), live, sv.ino);
    assert sv.inode.links > 0;
    assert sv.inode.links - 1 == (sv.inode.links + 0xffff) % 0x1_0000;
    vol.SetInode(sv, sv.inode.(links := sv.inode.links - 1), live, {});
  }

  /** Make a hard link to a file. */
  method Link(vol: SfsVolume, dir: SfsVnode, name: Name, file: SfsVnode, ghost live: set<nat>) returns (r: Res<()>)
    requires vol.Valid() && O.Inv(vol.View(), live) && dir in vol.vnodes && dir.ino == ROOT && Loaded(vol.View(), ROOT)
    requires file in vol.vnodes && file.ino <= 0xffff_ffff
    modifies vol`disk, vol`mapDirty, vol.freemap.v, dir`inode, dir`dirty, file`inode, file`dirty
    ensures vol.Valid() && (vol.View(), r) == O.Link(old(vol.View()), name, file.ino)
  {
    hide SfsVolume.View, SfsVolume.Valid, Searchable, O.InvBut, O.DirLink, Store, O.NamesOf, O.SlotsOf, PutInode;
    ghost var fs := vol.View();
    InvSearchable(fs, live, ROOT, 0);
    vol.VnodeAt(live, {}, file);
    O.DirLinkInv(fs, live, name, file.ino);
    var l := DirLink(vol, dir, name, file.ino, live);
    if l.Err? {
      return Err(l.e);
    }
    O.LinkStore(vol.View(), live, file.ino, -1);
    vol.VnodeAt(live, {}, file);
    CountUp(vol, file, live);
    r := Ok(());
  }

  // ---- Creation -----------------------------------------------------------

  lemma FreshInode(fs: Fs, live: set<nat>, b: nat)
    requires Store(fs, live, {}) && b < |fs.used| && !fs.used[b]
    ensures Store(B.TakeBlock(fs, b), live, {b}) && C.Loadable(B.TakeBlock(fs, b), b, TYPE_FILE)
  {
    hide Store, Cur;
    B.TakeBlockStore(fs, live, b);
    FreeInRange(fs, live, b);
    BlankKind(fs, live, b);
  }

  lemma BlankKind(fs: Fs, live: set<nat>, b: nat)
    requires b < fs.nblocks == |fs.disk| && b < |fs.used| && Store(B.TakeBlock(fs, b), live, {b})
    ensures !Loaded(B.TakeBlock(fs, b), b) && Cur(B.TakeBlock(fs, b), b).kind == TYPE_INVAL
  {
    hide Store, DecodeInode;
    V.NewSlots(B.TakeBlock(fs, b), live, b, TYPE_FILE);
    ZeroBlockInode();
  }

  /** Make a new file: take a block for its inode and load a vnode for it. */
  method MakeObj(vol: SfsVolume, ghost live: set<nat>) returns (r: Res<SfsVnode>)
    requires vol.Valid() && Store(vol.View(), live, {})
    modifies vol`disk, vol`mapDirty, vol`vnodes, vol.freemap.v, vol.vnodes
    ensures vol.Valid()
    ensures match B.Balloc(old(vol.View()))
      case (fs1, Err(e)) => r == Err(e) && vol.View() == fs1 && vol.vnodes == old(vol.vnodes)
      case (fs1, Ok(b)) =>
        && r.Ok? && r.v.ino == b && vol.View() == V.LoadNew(fs1, b, TYPE_FILE)
        && fresh(r.v) && vol.vnodes == old(vol.vnodes) + [r.v]
  {
    hide SfsVolume.View, SfsVolume.Valid, Store, V.LoadNew, C.Loadable;
    ghost var fs := vol.View();
    var a := vol.Balloc(live);
    if a.Err? {
      return Err(a.e);
    }
    FreshInode(fs, live, a.v);
    var sv := C.LoadVnode(vol, a.v, TYPE_FILE, live, {a.v});
    r := Ok(sv);
  }

  /** Enter a new file in the directory; if that fails, drop it again. */
  method EnterNew(vol: SfsVolume, dir: SfsVnode, name: Name, sv: SfsVnode, ghost live: set<nat>)
    returns (r: Res<SfsVnode>)
    requires vol.Valid() && O.Inv(vol.View(), live) && dir in vol.vnodes && dir.ino == ROOT && Loaded(vol.View(), ROOT)
    requires sv in vol.vnodes && sv.ino <= 0xffff_ffff
    modifies vol`disk, vol`mapDirty, vol`vnodes, vol.freemap.v, vol.vnodes
    ensures vol.Valid() && (r.Ok? ==> r.v == sv)
    ensures (vol.View(), Number(r)) == O.EnterNew(old(vol.View()), name, sv.ino)
  {
    hide SfsVolume.View, SfsVolume.Valid, Searchable, O.InvBut, O.DirLink, Store, O.NamesOf, O.SlotsOf, PutInode;
    hide V.Decref;
    ghost var fs := vol.View();
    InvSearchable(fs, live, ROOT, 0);
    vol.VnodeAt(live, {}, sv);
    O.DirLinkInv(fs, live, name, sv.ino);
    var l := DirLink(vol, dir, name, sv.ino, live);
    if l.Err? {
      O.LinkStore(vol.View(), live, ROOT, 0);
      C.Decref(vol, sv, live);
      return Err(l.e);
    }
    O.LinkStore(vol.View(), live, sv.ino, -1);
    vol.VnodeAt(live, {}, sv);
    CountUp(vol, sv, live);
    r := Ok(sv);
  }

  /** Create a file, or open it if it is there and that is allowed. */
  method Creat(vol: SfsVolume, dir: SfsVnode, name: Name, excl: bool, ghost live: set<nat>) returns (r: Res<SfsVnode>)
    requires vol.Valid() && O.Inv(vol.View(), live) && dir in vol.vnodes && dir.ino == ROOT && Loaded(vol.View(), ROOT)
    modifies vol`disk, vol`mapDirty, vol`vnodes, vol.freemap.v, vol.vnodes
    ensures vol.Valid() && (vol.View(), Number(r)) == O.Creat(old(vol.View()), name, excl)
  {
    hide SfsVolume.View, SfsVolume.Valid, Searchable, O.InvBut, O.Find, V.Load, V.LoadNew, Store, O.EnterNew;
    hide B.FirstFree, O.SlotsOf;
    ghost var fs := vol.View();
    InvSearchable(fs, live, ROOT, 0);
    var h := FindName(vol, dir, name, live);
    if h.found && excl {
      return Err(EEXIST);
    }
    if h.found {
      NamedFile(fs, live, name);
      var sv := C.LoadVnode(vol, h.ino, TYPE_INVAL, live, {});
      return Ok(sv);
    }
    var newguy := MakeObj(vol, live);
    if newguy.Err? {
      return Err(newguy.e);
    }
    O.NewInv(fs, live, B.FirstFree(fs.used));
    StillRoot(vol, dir, live + {newguy.v.ino});
    r := EnterNew(vol, dir, name, newguy.v, live + {newguy.v.ino});
  }

  lemma StillRoot(vol: SfsVolume, dir: SfsVnode, live: set<nat>)
    requires vol.Valid() && O.Inv(vol.View(), live) && dir in vol.vnodes
    ensures Loaded(vol.View(), dir.ino)
  {
    hide SfsVolume.View, SfsVolume.Valid, O.InvBut;
    O.LinkStore(vol.View(), live, ROOT, 0);
    vol.VnodeAt(live, {}, dir);
  }

  // ---- Removal and renaming -----------------------------------------------

  /** Remove a name; the file goes with its last name and last reference. */
  method Remove(vol: SfsVolume, dir: SfsVnode, name: Name, ghost live: set<nat>) returns (r: Res<()>)
    requires vol.Valid() && O.Inv(vol.View(), live) && dir in vol.vnodes && dir.ino == ROOT && Loaded(vol.View(), ROOT)
    modifies vol`disk, vol`mapDirty, vol`vnodes, vol.freemap.v, vol.vnodes
    ensures vol.Valid() && (vol.View(), r) == O.Remove(old(vol.View()), name)
  {
    hide SfsVolume.View, SfsVolume.Valid, Searchable, O.InvBut, O.Find, V.Load, Store, O.DirUnlink, O.SlotsOf;
    hide O.NamesOf, V.Decref, PutInode, O.Kept;
    ghost var fs := vol.View();
    var victim, slot := LookOnce(vol, dir, name, live);
    if victim.Err? {
      return Err(victim.e);
    }
    var sv := victim.v;
    O.InvDistinct(fs, live);
    O.FindNames(fs, name);
    O.FindLive(fs, live, name);
    O.LoadInv(fs, live, sv.ino);
    StillRoot(vol, dir, live);
    InvSearchable(vol.View(), live, ROOT, 0);
    O.DirUnlinkInv(vol.View(), live, name, slot, sv.ino);
    r := DirUnlink(vol, dir, slot, live);
    O.LinkStore(vol.View(), live, sv.ino, 1);
    assert r.Ok? && r.v == ();
    CountDown(vol, sv, live);
    O.LinkStore(vol.View(), live, ROOT, 0);
    C.Decref(vol, sv, live);
  }

  /** Give a file a second name and take the first away; the file keeps a name throughout. */
  method Rename(vol: SfsVolume, dir: SfsVnode, n1: Name, n2: Name, ghost live: set<nat>) returns (r: Res<()>)
    requires vol.Valid() && O.Inv(vol.View(), live) && dir in vol.vnodes && dir.ino == ROOT && Loaded(vol.View(), ROOT)
    modifies vol`disk, vol`mapDirty, vol`vnodes, vol.freemap.v, vol.vnodes
    ensures vol.Valid() && (vol.View(), r) == O.Rename(old(vol.View()), n1, n2)
  {
    hide SfsVolume.View, SfsVolume.Valid, Searchable, O.InvBut, O.Find, V.Load, Store, O.DirUnlink, O.DirLink;
    hide O.SlotsOf, O.NamesOf, V.Decref, O.Kept, O.AddLink, O.DropLink, O.SameRefs, O.CountsMoved;
    ghost var fs := vol.View();
    var look, slot1 := LookOnce(vol, dir, n1, live);
    if look.Err? {
      return Err(look.e);
    }
    var g1 := look.v;
    O.InvDistinct(fs, live);
    O.FindNames(fs, n1);
    O.RenameLinkInv(fs, live, n1, n2);
    O.RenameShape(fs, n1, n2);
    O.LoadInv(fs, live, g1.ino);
    InvSearchable(vol.View(), live, ROOT, 0);
    O.DirLinkInv(vol.View(), live, n2, g1.ino);
    var l := DirLink(vol, dir, n2, g1.ino, live);
    if l.Err? {
      O.LinkStore(vol.View(), live, ROOT, 0);
      C.Decref(vol, g1, live);
      return Err(l.e);
    }
    O.RenameMidInv(fs, live, n1, n2);
    O.LinkStore(vol.View(), live, g1.ino, -1);
    CountUp(vol, g1, live);
    StillRoot(vol, dir, live);
    StillRoot(vol, g1, live);
    InvSearchable(vol.View(), live, ROOT, 0);
    O.DirUnlinkInv(vol.View(), live, n1, slot1, g1.ino);
    r := DirUnlink(vol, dir, slot1, live);
    assert r.Ok? && r.v == ();
    O.LinkStore(vol.View(), live, g1.ino, 1);
    CountDown(vol, g1, live);
    O.LinkStore(vol.View(), live, ROOT, 0);
    C.Decref(vol, g1, live);
  }
}
