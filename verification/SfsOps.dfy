/** The operations on names: create, link, remove, rename and look up, and what they mean for the whole volume. */
module SfsOps {
  import opened Words
  import opened BitOps
  import opened SfsLayout
  import opened SfsState
  import opened SfsBmap
  import opened SfsIo
  import opened SfsVnode
  import opened SfsDir

  // ---- The saved free map ------------------------------------------------

  /** Bit b of the bitmap as the disk holds it. */
  predicate DiskBit(fs: Fs, b: nat) {
    BitOf(ReadBlock(fs, MAP + b / BLOCKBITS)[b % BLOCKBITS / 8], b % 8)
  }

  ghost predicate MapSaved(fs: Fs) {
    forall b :: 0 <= b < |fs.used| ==> (DiskBit(fs, b) <==> fs.used[b])
  }

  // ---- The invariant -----------------------------------------------------

  ghost predicate Named(es: seq<Entry>, i: nat) {
    i != NOINO && exists k :: 0 <= k < |es| && es[k].ino == i
  }

  function RootFile(fs: Fs): File {
    FileOf(fs, ROOT)
  }

  function SlotsOf(fs: Fs): (es: seq<Entry>)
    ensures |es| <= MAXSLOTS
  {
    if DirFile(RootFile(fs)) then DirSlots(RootFile(fs)) else []
  }

  /** Type and link count of live inode j: as many links as slots name it, one more for the root, and d more for i. */
  ghost predicate AttrOk(fs: Fs, es: seq<Entry>, j: nat, i: nat, d: int) {
    && FileOf(fs, j).kind == (if j == ROOT then TYPE_DIR else TYPE_FILE)
    && FileOf(fs, j).links == Count(es, j) + (if j == ROOT then 1 else 0) + (if j == i then d else 0)
  }

  ghost predicate Attrs(fs: Fs, es: seq<Entry>, live: set<nat>, i: nat, d: int) {
    forall j :: j in live ==> AttrOk(fs, es, j, i, d)
  }

  /** The live inodes are the root, the loaded ones and the ones with a name. */
  ghost predicate LiveIs(fs: Fs, es: seq<Entry>, live: set<nat>) {
    forall i :: i in live <==> i == ROOT || Loaded(fs, i) || Named(es, i)
  }

  /** The invariant, with the link count of i off by d. */
  ghost predicate InvBut(fs: Fs, live: set<nat>, i: nat, d: int) {
    && Store(fs, live, {})
    && DirFile(RootFile(fs))
    && Distinct(SlotsOf(fs))
    && LiveIs(fs, SlotsOf(fs), live)
    && Attrs(fs, SlotsOf(fs), live, i, d)
    && (fs.mapDirty || MapSaved(fs))
  }

  /** What holds of a volume between operations. */
  ghost predicate Inv(fs: Fs, live: set<nat>) {
    InvBut(fs, live, ROOT, 0)
  }

  ghost function NamesOf(fs: Fs): map<Name, nat> {
    NameMap(SlotsOf(fs))
  }

  /** Two files with the same contents; link counts are for the invariant to say. */
  ghost predicate SameData(f: File, g: File) {
    f.size == g.size && f.kind == g.kind && f.bytes == g.bytes
  }

  ghost predicate Kept(fs: Fs, fs': Fs, live: set<nat>) {
    forall j :: j in live && j != ROOT ==> SameData(FileOf(fs', j), FileOf(fs, j))
  }

  lemma KeptTwice(fs: Fs, fs1: Fs, fs2: Fs, live: set<nat>)
    requires Kept(fs, fs1, live) && Kept(fs1, fs2, live)
    ensures Kept(fs, fs2, live)
  {
    hide FileOf;
    forall j | j in live && j != ROOT
      ensures SameData(FileOf(fs2, j), FileOf(fs, j))
    {
      assert SameData(FileOf(fs1, j), FileOf(fs, j)) && SameData(FileOf(fs2, j), FileOf(fs1, j));
    }
  }

  lemma MapKeptSaved(fs: Fs, fs': Fs, live: set<nat>)
    requires Store(fs, live, {}) && Shape(fs') && MapKept(fs, fs') && (fs.mapDirty || MapSaved(fs))
    ensures fs'.mapDirty || MapSaved(fs')
  {
    hide BitOf, ReadBlock, Store;
    if !fs'.mapDirty {
      forall b | 0 <= b < |fs.used|
        ensures DiskBit(fs', b) <==> fs'.used[b]
      {
        MapBlock(fs.nblocks, b);
        assert DiskBit(fs, b) <==> fs.used[b];
      }
    }
  }

  lemma MapBlock(n: nat, b: nat)
    requires b < BitmapSize(n)
    ensures MAP <= MAP + b / BLOCKBITS < MetaEnd(n)
  {
  }

  // ---- Operations --------------------------------------------------------

  /** Counts are 16 bits wide and wrap. */
  function AddLink(fs: Fs, i: nat): Fs {
    PutInode(fs, i, Cur(fs, i).(links := (Cur(fs, i).links + 1) % 0x1_0000))
  }

  function DropLink(fs: Fs, i: nat): Fs {
    PutInode(fs, i, Cur(fs, i).(links := (Cur(fs, i).links + 0xffff) % 0x1_0000))
  }

  function Find(fs: Fs, name: Name): Hit {
    Search(SlotsOf(fs), name, |SlotsOf(fs)|)
  }

  /** Enter a name: in the last free slot if there is one, at the end otherwise. */
  function DirLink(fs: Fs, name: Name, ino: u32): (Fs, Res<nat>) {
    var h := Find(fs, name);
    if h.found then (fs, Err(EEXIST))
    else if |name| + 1 > NAMELEN then (fs, Err(ENAMETOOLONG))
    else
      var k := if h.empty < 0 then |SlotsOf(fs)| else h.empty;
      var w := WriteSlot(fs, k, ino, name);
      match w.r
      case Ok(_) => (w.fs, Ok(k))
      case Err(e) => (w.fs, Err(e))
  }

  function DirUnlink(fs: Fs, k: nat): (Fs, Res<()>) {
    if k > MAXSLOTS then (fs, Err(EINVAL))
    else var w := WriteSlot(fs, k, NOINO, []); (w.fs, w.r)
  }

  function Lookup(fs: Fs, name: Name): (Fs, Res<nat>) {
    var h := Find(fs, name);
    if h.found then (Load(fs, h.ino), Ok(h.ino)) else (fs, Err(ENOENT))
  }

  function EnterNew(fs: Fs, name: Name, b: u32): (Fs, Res<nat>) {
    match DirLink(fs, name, b)
    case (fs2, Err(e)) => (Decref(fs2, b), Err(e))
    case (fs2, Ok(_)) => (AddLink(fs2, b), Ok(b))
  }

  /** Take a block for the inode, load it as a file, and enter it under its name. */
  function CreatNew(fs: Fs, name: Name): (Fs, Res<nat>) {
    match Balloc(fs)
    case (fs1, Err(e)) => (fs1, Err(e))
    case (fs1, Ok(b)) => EnterNew(LoadNew(fs1, b, TYPE_FILE), name, b)
  }

  function Creat(fs: Fs, name: Name, excl: bool): (Fs, Res<nat>) {
    var h := Find(fs, name);
    if h.found && excl then (fs, Err(EEXIST))
    else if h.found then (Load(fs, h.ino), Ok(h.ino))
    else CreatNew(fs, name)
  }

  function Link(fs: Fs, name: Name, i: u32): (Fs, Res<()>) {
    match DirLink(fs, name, i)
    case (fs1, Err(e)) => (fs1, Err(e))
    case (fs1, Ok(_)) => (AddLink(fs1, i), Ok(()))
  }

  function Remove(fs: Fs, name: Name): (Fs, Res<()>) {
    var h := Find(fs, name);
    if !h.found then (fs, Err(ENOENT))
    else
      match DirUnlink(Load(fs, h.ino), h.slot)
      case (fs1, Ok(_)) => (Decref(DropLink(fs1, h.ino), h.ino), Ok(()))
      case (fs1, Err(e)) => (Decref(fs1, h.ino), Err(e))
  }

  /** Enter the new name, then clear the old slot; the count goes up and down again. */
  function Rename(fs: Fs, n1: Name, n2: Name): (Fs, Res<()>) {
    var h := Find(fs, n1);
    if !h.found then (fs, Err(ENOENT))
    else
      match DirLink(Load(fs, h.ino), n2, h.ino)
      case (fs1, Err(e)) => (Decref(fs1, h.ino), Err(e))
      case (fs1, Ok(k2)) =>
        match DirUnlink(AddLink(fs1, h.ino), h.slot)
        case (fs2, Ok(_)) => (Decref(DropLink(fs2, h.ino), h.ino), Ok(()))
        case (fs2, Err(e)) => (Decref(DropLink(DirUnlink(fs2, k2).0, h.ino), h.ino), Err(e))
  }

  // ---- Steps -------------------------------------------------------------

  lemma InvAnywhere(fs: Fs, live: set<nat>, i: nat, j: nat)
    requires InvBut(fs, live, i, 0)
    ensures InvBut(fs, live, j, 0)
  {
    hide Store, FileOf, SlotsOf, Distinct, LiveIs, MapSaved;
    forall k | k in live
      ensures AttrOk(fs, SlotsOf(fs), k, j, 0)
    {
      assert AttrOk(fs, SlotsOf(fs), k, i, 0);
    }
  }

  lemma StoreRoot(fs: Fs, live: set<nat>)
    requires Store(fs, live, {})
    ensures ROOT in live && Shape(fs) && Placed(fs, live) && MetaEnd(fs.nblocks) <= fs.nblocks
  {
    hide SlotsOk, Unshared, MapExact, Clean;
  }

  lemma SameMapGood(fs: Fs, fs': Fs, live: set<nat>)
    requires Store(fs, live, {}) && Same(fs, fs', live) && Store(fs', live, {}) && (fs.mapDirty || MapSaved(fs))
    ensures MapKept(fs, fs') && (fs'.mapDirty || MapSaved(fs'))
  {
    hide Store, MapKept, MapSaved, Same, Shape, Placed, MetaEnd;
    StoreRoot(fs, live);
    StoreRoot(fs', live);
    SameMapKept(fs, fs', live);
    MapKeptSaved(fs, fs', live);
  }

  lemma AttrsSame(fs: Fs, fs': Fs, es: seq<Entry>, live: set<nat>, i: nat, d: int)
    requires Attrs(fs, es, live, i, d) && forall j :: j in live ==> FileOf(fs', j) == FileOf(fs, j)
    ensures Attrs(fs', es, live, i, d)
  {
    hide FileOf;
    forall k | k in live
      ensures AttrOk(fs', es, k, i, d)
    {
      assert AttrOk(fs, es, k, i, d);
    }
  }

  lemma FilesAt(fs: Fs, fs': Fs, live: set<nat>)
    requires Files(fs', live) == Files(fs, live)
    ensures forall j :: j in live ==> FileOf(fs', j) == FileOf(fs, j)
  {
    hide FileOf;
    assert forall j :: j in live ==> Files(fs', live)[j] == FileOf(fs', j);
    assert forall j :: j in live ==> Files(fs, live)[j] == FileOf(fs, j);
  }

  /** A step that leaves every live file as it is and loads or unloads only what stays live. */
  lemma SameInv(fs: Fs, fs': Fs, live: set<nat>, i: nat, d: int)
    requires InvBut(fs, live, i, d) && Same(fs, fs', live) && Store(fs', live, {})
    requires forall j :: Loaded(fs', j) ==> j in live
    requires forall j :: Loaded(fs, j) ==> Loaded(fs', j) || j == ROOT || Named(SlotsOf(fs), j)
    ensures InvBut(fs', live, i, d) && SlotsOf(fs') == SlotsOf(fs) && Files(fs', live) == Files(fs, live)
    ensures Kept(fs, fs', live) && MapKept(fs, fs')
  {
    hide FileOf, Store, Same, MapSaved, DirSlots, DirFile, MapKept, Named, Loaded, Attrs, Distinct, Files;
    SameIsLive(fs, fs', live);
    SameFiles(fs, fs', live);
    FilesAt(fs, fs', live);
    StoreRoot(fs, live);
    SameMapGood(fs, fs', live);
    AttrsSame(fs, fs', SlotsOf(fs), live, i, d);
  }

  lemma LoadInv(fs: Fs, live: set<nat>, i: nat)
    requires Inv(fs, live) && i in live
    ensures var fs' := Load(fs, i);
      && Inv(fs', live) && SlotsOf(fs') == SlotsOf(fs) && Files(fs', live) == Files(fs, live)
      && Kept(fs, fs', live) && SameCounts(fs, fs', i)
      && Loaded(fs', i) && RefCount(fs', i) == RefCount(fs, i) + 1 && OpenCount(fs', i) == OpenCount(fs, i)
  {
    LoadCorrect(fs, live, i);
    hide FileOf, Store, Load, SlotsOf, Same, VnodeOf, IndexOf, Distinct, Attrs, MapSaved;
    SameInv(fs, Load(fs, i), live, ROOT, 0);
  }

  // ---- Writing a slot ----------------------------------------------------

  lemma FrameMapGood(fs: Fs, fs': Fs, live: set<nat>, i: nat)
    requires Store(fs, live, {}) && Frame(fs, fs', live, i) && Store(fs', live, {}) && (fs.mapDirty || MapSaved(fs))
    ensures MapKept(fs, fs') && (fs'.mapDirty || MapSaved(fs'))
  {
    hide Store, MapKept, MapSaved, Shape, Placed, MetaEnd, FileOf, Frame;
    StoreRoot(fs', live);
    FrameParts(fs, fs', live, i);
    MapKeptSaved(fs, fs', live);
  }

  lemma FrameKept(fs: Fs, fs': Fs, live: set<nat>)
    requires Frame(fs, fs', live, ROOT)
    ensures Kept(fs, fs', live)
  {
    hide FileOf;
  }

  lemma SlotFailed(fs: Fs, w: Written, live: set<nat>, k: nat, ino: u32, name: Name, i: nat, d: int)
    requires InvBut(fs, live, i, d) && k <= |SlotsOf(fs)|
    requires SlotWritten(fs, w, live, k, ino, name) && w.r.Err?
    ensures InvBut(w.fs, live, i, d) && SlotsOf(w.fs) == SlotsOf(fs) && Files(w.fs, live) == Files(fs, live)
    ensures Kept(fs, w.fs, live)
    ensures forall j :: RefCount(w.fs, j) == RefCount(fs, j) && OpenCount(w.fs, j) == OpenCount(fs, j)
    ensures forall j :: Loaded(w.fs, j) == Loaded(fs, j)
  {
    hide FileOf, Store, MapSaved, DirSlots, DirFile, Named, Attrs, Distinct, Frame;
    FrameParts(fs, w.fs, live, ROOT);
    FrameCounts(fs, w.fs, live, ROOT);
    FrameMapGood(fs, w.fs, live, ROOT);
    FrameKept(fs, w.fs, live);
    AttrsSame(fs, w.fs, SlotsOf(fs), live, i, d);
  }

  lemma PutCounts(es: seq<Entry>, k: nat, e: Entry, i: nat, j: nat)
    requires k <= |es| && j != NOINO
    requires (e.ino == i && (k < |es| ==> es[k].ino == NOINO)) || (e.ino == NOINO && k < |es| && es[k].ino == i)
    requires i != NOINO
    ensures Count(PutSlot(es, k, e), j) ==
      Count(es, j) + if j != i then 0 else if e.ino == i then 1 else -1
  {
    hide PutSlot;
    CountPut(es, k, e, j);
  }

  lemma SlotAttrs(fs: Fs, fs': Fs, live: set<nat>, k: nat, e: Entry, i: nat, d: int)
    requires Attrs(fs, SlotsOf(fs), live, i, d) && k <= |SlotsOf(fs)| && i != NOINO && NOINO !in live && ROOT in live
    requires SlotsOf(fs') == PutSlot(SlotsOf(fs), k, e)
    requires (e.ino == i && (k < |SlotsOf(fs)| ==> SlotsOf(fs)[k].ino == NOINO))
      || (e.ino == NOINO && k < |SlotsOf(fs)| && SlotsOf(fs)[k].ino == i)
    requires forall j :: j in live ==>
      FileOf(fs', j).kind == FileOf(fs, j).kind && FileOf(fs', j).links == FileOf(fs, j).links
    ensures Attrs(fs', SlotsOf(fs'), live, i, if e.ino == i then d - 1 else d + 1)
  {
    hide FileOf, SlotsOf, PutSlot, Count;
    forall j | j in live
      ensures AttrOk(fs', SlotsOf(fs'), j, i, if e.ino == i then d - 1 else d + 1)
    {
      assert AttrOk(fs, SlotsOf(fs), j, i, d);
      PutCounts(SlotsOf(fs), k, e, i, j);
    }
  }

  lemma SlotNamed(es: seq<Entry>, k: nat, e: Entry, i: nat, j: nat)
    requires k <= |es| && j != i
    requires e.ino == i || e.ino == NOINO
    requires k < |es| ==> es[k].ino == i || es[k].ino == NOINO
    ensures Named(PutSlot(es, k, e), j) <==> Named(es, j)
  {
    if Named(es, j) {
      var l :| 0 <= l < |es| && es[l].ino == j;
      assert PutSlot(es, k, e)[l].ino == j;
    }
  }

  lemma NoZeroLive(fs: Fs, live: set<nat>)
    requires Store(fs, live, {})
    ensures NOINO !in live && ROOT in live
  {
    hide SlotsOk, Unshared, MapExact, Clean, Shape;
  }

  lemma SlotPut(fs: Fs, w: Written, live: set<nat>, k: nat, ino: u32, name: Name, i: nat, d: int)
    requires InvBut(fs, live, i, d) && k <= |SlotsOf(fs)|
    requires SlotWritten(fs, w, live, k, ino, name) && w.r.Ok?
    requires i in live && (i == ROOT || Loaded(fs, i))
    requires (ino == i && (k < |SlotsOf(fs)| ==> SlotsOf(fs)[k].ino == NOINO))
      || (ino == NOINO && k < |SlotsOf(fs)| && SlotsOf(fs)[k].ino == i)
    requires Distinct(PutSlot(SlotsOf(fs), k, Entry(ino, name)))
    ensures InvBut(w.fs, live, i, if ino == i then d - 1 else d + 1)
    ensures SlotsOf(w.fs) == PutSlot(SlotsOf(fs), k, Entry(ino, name))
    ensures Kept(fs, w.fs, live)
    ensures forall j :: RefCount(w.fs, j) == RefCount(fs, j) && OpenCount(w.fs, j) == OpenCount(fs, j)
    ensures forall j :: Loaded(w.fs, j) == Loaded(fs, j)
  {
    var es := SlotsOf(fs);
    var e := Entry(ino, name);
    hide FileOf, Store, MapSaved, DirSlots, DirFile, Named, Attrs, Distinct, Frame, PutSlot;
    FrameParts(fs, w.fs, live, ROOT);
    FrameCounts(fs, w.fs, live, ROOT);
    FrameMapGood(fs, w.fs, live, ROOT);
    FrameKept(fs, w.fs, live);
    NoZeroLive(fs, live);
    assert SlotsOf(w.fs) == PutSlot(es, k, e);
    SlotAttrs(fs, w.fs, live, k, e, i, d);
    forall j | j != i
      ensures Named(PutSlot(es, k, e), j) <==> Named(es, j)
    {
      SlotNamed(es, k, e, i, j);
    }
  }

  // ---- Links -------------------------------------------------------------

  ghost predicate SameRefs(fs: Fs, fs': Fs) {
    && (forall j :: RefCount(fs', j) == RefCount(fs, j) && OpenCount(fs', j) == OpenCount(fs, j))
    && (forall j :: Loaded(fs', j) == Loaded(fs, j))
  }

  /** Every reference count and every open count is what it was. */
  ghost predicate CountsKept(fs: Fs, fs': Fs) {
    forall j :: RefCount(fs', j) == RefCount(fs, j) && OpenCount(fs', j) == OpenCount(fs, j)
  }

  /** A search by name agrees with the map. */
  lemma FindNames(fs: Fs, name: Name)
    requires Distinct(SlotsOf(fs))
    ensures var h := Find(fs, name);
      && (h.found <==> name in NamesOf(fs))
      && (h.found ==>
            h.ino == NamesOf(fs)[name] != NOINO && Names(SlotsOf(fs), name, h.slot) && h.ino == SlotsOf(fs)[h.slot].ino)
      && (h.empty >= 0 ==> SlotsOf(fs)[h.empty].ino == NOINO)
  {
    hide SlotsOf, NameMap, Search;
    NameMapAt(SlotsOf(fs), name);
    SearchCorrect(SlotsOf(fs), name, |SlotsOf(fs)|);
  }

  /** Inode i has d more slots, every other as many as before. */
  ghost predicate CountsMoved(es: seq<Entry>, es': seq<Entry>, i: nat, d: int) {
    forall j :: j != NOINO ==> Count(es', j) == Count(es, j) + if j == i then d else 0
  }

  lemma PutMoved(es: seq<Entry>, k: nat, e: Entry, i: nat)
    requires k <= |es| && i != NOINO
    requires (e.ino == i && (k < |es| ==> es[k].ino == NOINO)) || (e.ino == NOINO && k < |es| && es[k].ino == i)
    ensures CountsMoved(es, PutSlot(es, k, e), i, if e.ino == i then 1 else -1)
  {
    hide PutSlot, Count;
    forall j: nat | j != NOINO
      ensures Count(PutSlot(es, k, e), j) == Count(es, j) + if j == i then (if e.ino == i then 1 else -1) else 0
    {
      PutCounts(es, k, e, i, j);
    }
  }

  /** Every slot that a directory can have is in use. */
  ghost predicate DirFull(fs: Fs) {
    |SlotsOf(fs)| == MAXSLOTS && forall k :: 0 <= k < MAXSLOTS ==> SlotsOf(fs)[k].ino != NOINO
  }

  /** Why a name was not entered, in the order of the tests; for want of a block only if every block is in use. */
  ghost predicate LinkFails(fs: Fs, fs': Fs, name: Name, e: Errno) {
    && e == (if name in NamesOf(fs) then EEXIST
             else if |name| >= NAMELEN then ENAMETOOLONG
             else if DirFull(fs) then EINVAL
             else ENOSPC)
    && (e == ENOSPC ==> Full(fs'))
  }

  lemma SlotForName(fs: Fs, name: Name)
    requires Distinct(SlotsOf(fs)) && DirFile(RootFile(fs))
    ensures var h := Find(fs, name); var k := if h.empty < 0 then |SlotsOf(fs)| else h.empty;
      k <= |SlotsOf(fs)| <= MAXSLOTS && (k == MAXSLOTS <==> DirFull(fs))
  {
    hide Search, DirSlots;
    SearchCorrect(SlotsOf(fs), name, |SlotsOf(fs)|);
    SlotsBound(fs);
  }

  lemma SlotsBound(fs: Fs)
    requires DirFile(RootFile(fs))
    ensures |SlotsOf(fs)| <= MAXSLOTS
  {
  }

  /** Entering a name adds it to the map, leaving the count of its inode one short; or fails with nothing changed. */
  lemma DirLinkInv(fs: Fs, live: set<nat>, name: Name, i: u32)
    requires Inv(fs, live) && Loaded(fs, ROOT) && i in live && Loaded(fs, i)
    ensures var (fs', r) := DirLink(fs, name, i);
      && Kept(fs, fs', live) && SameRefs(fs, fs')
      && (r.Ok? ==>
            && InvBut(fs', live, i, -1) && name !in NamesOf(fs) && |name| < NAMELEN
            && NamesOf(fs') == NamesOf(fs)[name := i]
            && CountsMoved(SlotsOf(fs), SlotsOf(fs'), i, 1)
            && (forall k :: 0 <= k < |SlotsOf(fs)| && SlotsOf(fs)[k].ino != NOINO ==>
                  k < |SlotsOf(fs')| && SlotsOf(fs')[k] == SlotsOf(fs)[k]))
      && (r.Err? ==> Inv(fs', live) && SlotsOf(fs') == SlotsOf(fs) && Files(fs', live) == Files(fs, live))
      && (r.Ok? ==> !DirFull(fs))
      && (r.Err? ==> LinkFails(fs, fs', name, r.e))
  {
    hide Store, FileOf, MapSaved, DirSlots, Attrs, LiveIs, Loaded, Search, NameMap, PutSlot, WriteSlot, RefCount;
    hide OpenCount, Frame;
    hide CountsMoved, DirFull, Full;
    NoZeroLive(fs, live);
    FindNames(fs, name);
    SlotForName(fs, name);
    var h := Find(fs, name);
    if !h.found && |name| < NAMELEN {
      var es := SlotsOf(fs);
      var k := if h.empty < 0 then |es| else h.empty;
      InvAnywhere(fs, live, ROOT, i);
      WriteSlotCorrect(fs, live, k, i, name);
      var w := WriteSlot(fs, k, i, name);
      if w.r.Ok? {
        LinkNames(es, k, name, i);
        PutMoved(es, k, Entry(i, name), i);
        SlotPut(fs, w, live, k, i, name, i, 0);
      } else {
        SlotFailed(fs, w, live, k, i, name, ROOT, 0);
      }
    }
  }

  /** Clearing a slot in use cannot fail; it removes the name and leaves the count one over. */
  lemma DirUnlinkInv(fs: Fs, live: set<nat>, name: Name, k: nat, i: nat)
    requires Names(SlotsOf(fs), name, k) && SlotsOf(fs)[k].ino == i
    requires Inv(fs, live) && Loaded(fs, ROOT) && i in live && Loaded(fs, i)
    ensures var (fs', r) := DirUnlink(fs, k);
      && r.Ok? && Kept(fs, fs', live) && SameRefs(fs, fs')
      && InvBut(fs', live, i, 1) && NamesOf(fs') == NamesOf(fs) - {name}
      && CountsMoved(SlotsOf(fs), SlotsOf(fs'), i, -1)
  {
    hide Store, FileOf, MapSaved, DirSlots, Attrs, LiveIs, Loaded, Search, NameMap, PutSlot, WriteSlot, RefCount;
    hide OpenCount, Frame;
    hide CountsMoved;
    NoZeroLive(fs, live);
    InvAnywhere(fs, live, ROOT, i);
    WriteSlotCorrect(fs, live, k, NOINO, []);
    UnlinkNames(SlotsOf(fs), k, name);
    PutMoved(SlotsOf(fs), k, Entry(NOINO, []), i);
    SlotPut(fs, WriteSlot(fs, k, NOINO, []), live, k, NOINO, [], i, 0);
  }

  lemma LinkStore(fs: Fs, live: set<nat>, i: nat, d: int)
    requires InvBut(fs, live, i, d)
    ensures Store(fs, live, {})
  {
  }

  lemma LinkBound(fs: Fs, live: set<nat>, i: nat, d: int)
    requires InvBut(fs, live, i, d) && i in live
    ensures Cur(fs, i).links == Count(SlotsOf(fs), i) + (if i == ROOT then 1 else 0) + d
    ensures Count(SlotsOf(fs), i) <= MAXSLOTS
  {
    hide Store, SlotsOf;
    assert AttrOk(fs, SlotsOf(fs), i, i, d);
  }

  /** Changing the link count of i by -d settles it. */
  lemma SettleInv(fs: Fs, live: set<nat>, i: nat, d: int, links: u16)
    requires InvBut(fs, live, i, d) && i in live && Loaded(fs, i) && links == Cur(fs, i).links - d
    ensures var fs' := PutInode(fs, i, Cur(fs, i).(links := links));
      Inv(fs', live) && SlotsOf(fs') == SlotsOf(fs) && Kept(fs, fs', live) && SameRefs(fs, fs')
  {
    hide Store, MapSaved, DirSlots, Attrs, Distinct, PutInode, Cur, Backing, Frame, RefCount, OpenCount;
    var n: Inode := Cur(fs, i).(links := links);
    var fs' := PutInode(fs, i, n);
    FileSize(fs, i);
    SizeFrame(fs, live, i, n);
    AttrStore(fs, live, {}, i, n);
    FrameParts(fs, fs', live, i);
    FrameCounts(fs, fs', live, i);
    FrameMapGood(fs, fs', live, i);
    NoZeroLive(fs, live);
    hide FileOf;
    assert RootFile(fs').size == RootFile(fs).size && RootFile(fs').bytes == RootFile(fs).bytes;
    SlotsSame(RootFile(fs), RootFile(fs'));
    SettleAttrs(fs, fs', SlotsOf(fs), live, i, d);
  }

  lemma SlotsSame(f: File, g: File)
    requires f.size == g.size && f.bytes == g.bytes
    ensures DirFile(f) == DirFile(g) && (DirFile(f) ==> DirSlots(f) == DirSlots(g))
  {
    hide DecodeEntry;
  }

  lemma SettleAttrs(fs: Fs, fs': Fs, es: seq<Entry>, live: set<nat>, i: nat, d: int)
    requires Attrs(fs, es, live, i, d) && i in live
    requires forall j :: j in live && j != i ==> FileOf(fs', j) == FileOf(fs, j)
    requires FileOf(fs', i).kind == FileOf(fs, i).kind && FileOf(fs', i).links == FileOf(fs, i).links - d
    ensures Attrs(fs', es, live, ROOT, 0)
  {
    hide FileOf;
    forall k | k in live
      ensures AttrOk(fs', es, k, ROOT, 0)
    {
      assert AttrOk(fs, es, k, i, d);
    }
  }

  /** The 16-bit count cannot wrap: one directory has too few slots. */
  lemma AddLinkInv(fs: Fs, live: set<nat>, i: nat)
    requires InvBut(fs, live, i, -1) && i in live && Loaded(fs, i)
    ensures var fs' := AddLink(fs, i);
      && Inv(fs', live) && SlotsOf(fs') == SlotsOf(fs) && Kept(fs, fs', live) && SameRefs(fs, fs')
      && Cur(fs, i).links + 1 < 0x1_0000
  {
    hide InvBut, PutInode, Cur, SlotsOf, Kept, SameRefs, Loaded;
    LinkBound(fs, live, i, -1);
    SettleInv(fs, live, i, -1, Cur(fs, i).links + 1);
  }

  lemma DropLinkInv(fs: Fs, live: set<nat>, i: nat)
    requires InvBut(fs, live, i, 1) && i in live && Loaded(fs, i)
    ensures var fs' := DropLink(fs, i);
      && Inv(fs', live) && SlotsOf(fs') == SlotsOf(fs) && Kept(fs, fs', live) && SameRefs(fs, fs')
      && Cur(fs, i).links > 0
  {
    hide InvBut, PutInode, Cur, SlotsOf, Kept, SameRefs, Loaded;
    LinkBound(fs, live, i, 1);
    SettleInv(fs, live, i, 1, Cur(fs, i).links - 1);
  }

  // ---- Dropping a reference ----------------------------------------------

  /** The live inodes once a reference to i is dropped: i itself goes if it was the last and no name is left. */
  ghost function LiveAfter(fs: Fs, live: set<nat>, i: nat): set<nat> {
    if RefCount(fs, i) <= 1 && Cur(fs, i).links == 0 then live - {i} else live
  }

  ghost predicate Dropped1(fs: Fs, fs': Fs, live: set<nat>, i: nat) {
    var live' := LiveAfter(fs, live, i);
    && Inv(fs', live')
    && SlotsOf(fs') == SlotsOf(fs)
    && (forall j :: j in live' ==> FileOf(fs', j) == FileOf(fs, j))
    && SameCounts(fs, fs', i)
    && RefCount(fs', i) == RefCount(fs, i) - 1
    && Loaded(fs', i) == (RefCount(fs, i) > 1)
    && OpenCount(fs', i) == (if RefCount(fs, i) > 1 then OpenCount(fs, i) else 0)
    && (if live' == live then fs'.used == fs.used else Erased(fs, fs', i))
  }

  lemma RefPositive(fs: Fs, live: set<nat>, i: nat)
    requires Store(fs, live, {}) && Loaded(fs, i)
    ensures RefCount(fs, i) > 0
  {
    hide SlotsOk, Unshared, MapExact, Clean, Placed;
  }

  /** An inode without links has no name, and is not the root. */
  lemma GoneUnnamed(fs: Fs, live: set<nat>, i: nat)
    requires Inv(fs, live) && i in live && Cur(fs, i).links == 0
    ensures i != ROOT && !Named(SlotsOf(fs), i)
  {
    hide Store, SlotsOf, MapSaved, Cur;
    InvAnywhere(fs, live, ROOT, i);
    LinkBound(fs, live, i, 0);
    var es := SlotsOf(fs);
    forall k: nat | k < |es|
      ensures es[k].ino != i
    {
      if es[k].ino == i { CountSome(es, i, k); }
    }
  }

  lemma GoneInv(fs: Fs, live: set<nat>, i: nat)
    requires Inv(fs, live) && Loaded(fs, i) && RefCount(fs, i) <= 1 && Cur(fs, i).links == 0 && i in live
    ensures i != ROOT && Dropped1(fs, Reclaim(fs, i), live, i)
  {
    hide Store, MapSaved, DirSlots, DirFile, Reclaim, Cur, Erased, Distinct, VnodeOf, MapKept, IndexOf, FileOf, Attrs;
    hide Named;
    GoneUnnamed(fs, live, i);
    RefPositive(fs, live, i);
    ReclaimGone(fs, live, i);
    var fs' := Reclaim(fs, i);
    GoneFiles(fs, fs', live, i);
    NoZeroLive(fs, live);
    GoneMap(fs, fs', live, i);
    AttrsSubset(fs, SlotsOf(fs), live, i);
    AttrsSame(fs, fs', SlotsOf(fs), live - {i}, ROOT, 0);
  }

  lemma GoneMap(fs: Fs, fs': Fs, live: set<nat>, i: nat)
    requires Store(fs, live, {}) && MapKept(fs, fs') && Store(fs', live - {i}, {}) && (fs.mapDirty || MapSaved(fs))
    ensures fs'.mapDirty || MapSaved(fs')
  {
    hide Store, MapKept, MapSaved, Shape, Placed, MetaEnd;
    StoreRoot(fs', live - {i});
    MapKeptSaved(fs, fs', live);
  }

  lemma AttrsSubset(fs: Fs, es: seq<Entry>, live: set<nat>, i: nat)
    requires Attrs(fs, es, live, ROOT, 0)
    ensures Attrs(fs, es, live - {i}, ROOT, 0)
  {
    hide FileOf;
  }

  lemma GoneFiles(fs: Fs, fs': Fs, live: set<nat>, i: nat)
    requires Files(fs', live - {i}) == Files(fs, live) - {i}
    ensures forall j :: j in live - {i} ==> FileOf(fs', j) == FileOf(fs, j)
  {
    hide FileOf;
    forall j | j in live - {i}
      ensures FileOf(fs', j) == FileOf(fs, j)
    {
      assert Files(fs', live - {i})[j] == FileOf(fs', j);
      assert (Files(fs, live) - {i})[j] == FileOf(fs, j);
    }
  }

  /** Dropping a reference keeps the invariant; only an unlinked file whose last reference it was goes away. */
  lemma DecrefInv(fs: Fs, live: set<nat>, i: nat)
    requires Inv(fs, live) && Loaded(fs, i)
    ensures i in live && Dropped1(fs, Decref(fs, i), live, i)
  {
    hide Store, MapSaved, DirSlots, DirFile, Reclaim, Cur, Erased, Distinct, Named, FileOf, Same, Attrs, IndexOf, Files;
    LiveLoaded(fs, live, i);
    RefPositive(fs, live, i);
    var fs' := Decref(fs, i);
    if RefCount(fs, i) > 1 {
      DecrefShared(fs, live, i);
      SameUsed(fs, fs', live);
      SameInv(fs, fs', live, ROOT, 0);
      FilesAt(fs, fs', live);
    } else if Cur(fs, i).links > 0 {
      ReclaimLinked(fs, live, i);
      SameUsed(fs, fs', live);
      LinkedNamed(fs, live, i);
      SameInv(fs, fs', live, ROOT, 0);
      FilesAt(fs, fs', live);
    } else {
      GoneInv(fs, live, i);
    }
  }

  lemma SameUsed(fs: Fs, fs': Fs, live: set<nat>)
    requires Same(fs, fs', live)
    ensures fs'.used == fs.used
  {
  }

  lemma LinkedNamed(fs: Fs, live: set<nat>, i: nat)
    requires Inv(fs, live) && i in live && Cur(fs, i).links > 0
    ensures i == ROOT || Named(SlotsOf(fs), i)
  {
    hide Store, SlotsOf, MapSaved, Cur;
    InvAnywhere(fs, live, ROOT, i);
    LinkBound(fs, live, i, 0);
    NoZeroLive(fs, live);
  }

  // ---- The operations, as their callers see them -------------------------

  lemma TakeFile(fs: Fs, live: set<nat>, b: nat, j: nat)
    requires Store(fs, live, {}) && b < |fs.used| && !fs.used[b] && j in live
    ensures FileOf(TakeBlock(fs, b), j) == FileOf(fs, j)
  {
    TakeBlockSlots(fs, live, b);
    hide Slot, Cur, TakeBlock, Backing, BitBlocks;
    forall k | 0 <= k < MAXBLOCKS && Slot(fs, j, k) != 0
      ensures Slot(fs, j, k) != b
    {
    }
    BackingSame(fs, TakeBlock(fs, b), j);
  }

  /** A new object is live, loaded, unnamed and empty; nothing else changes. */
  lemma NewInv(fs: Fs, live: set<nat>, b: u32)
    requires Inv(fs, live) && b < |fs.used| && !fs.used[b]
    ensures var fs' := LoadNew(TakeBlock(fs, b), b, TYPE_FILE);
      && b !in live && b != NOINO
      && Inv(fs', live + {b}) && SlotsOf(fs') == SlotsOf(fs)
      && (forall j :: j in live ==> FileOf(fs', j) == FileOf(fs, j))
      && FileOf(fs', b) == NewFile(TYPE_FILE)
      && Loaded(fs', b) && RefCount(fs', b) == 1 && OpenCount(fs', b) == 0 && Cur(fs', b).links == 0
      && SameCounts(fs, fs', b)
  {
    hide MapSaved, DirSlots, DirFile, Distinct, Named, LoadNew, Attrs, FileOf, NewFile;
    NoZeroLive(fs, live);
    var fs1 := TakeBlock(fs, b);
    TakeBlockStore(fs, live, b);
    TakeBlockSlots(fs, live, b);
    NewSlots(fs1, live, b, TYPE_FILE);
    NewStore(fs1, live, b, TYPE_FILE);
    NewFileOf(fs1, live, b, TYPE_FILE);
    var fs' := LoadNew(fs1, b, TYPE_FILE);
    hide Store, Cur, Slot, TakeBlock;
    NewTable(fs, b);
    forall j | j in live
      ensures FileOf(fs', j) == FileOf(fs, j)
    {
      TakeFile(fs, live, b, j);
      NewOthers(fs1, live, b, TYPE_FILE, j);
    }
    NewAttrs(fs, fs', live, b);
  }

  lemma NewTable(fs: Fs, b: nat)
    requires b < |fs.used|
    ensures var fs' := LoadNew(TakeBlock(fs, b), b, TYPE_FILE);
      && fs'.mapDirty && TakeBlock(fs, b).vnodes == fs.vnodes
      && (!Loaded(fs, b) ==> SameCounts(fs, fs', b))
  {
    hide DecodeInode;
    var v := Vnode(b, DecodeInode(ReadBlock(TakeBlock(fs, b), b)).(kind := TYPE_FILE), true, 1, 0);
    if !Loaded(fs, b) {
      forall j { AppendCur(TakeBlock(fs, b), v, j); }
    }
  }

  lemma NewAttrs(fs: Fs, fs': Fs, live: set<nat>, b: nat)
    requires Attrs(fs, SlotsOf(fs), live, ROOT, 0) && LiveIs(fs, SlotsOf(fs), live) && b !in live && b != NOINO
    requires forall j :: j in live ==> FileOf(fs', j) == FileOf(fs, j)
    requires FileOf(fs', b) == NewFile(TYPE_FILE)
    ensures Attrs(fs', SlotsOf(fs), live + {b}, ROOT, 0)
  {
    hide FileOf, SlotsOf, Loaded;
    assert Count(SlotsOf(fs), b) == 0;
    forall k | k in live + {b}
      ensures AttrOk(fs', SlotsOf(fs), k, ROOT, 0)
    {
      if k in live {
        assert AttrOk(fs, SlotsOf(fs), k, ROOT, 0);
      }
    }
  }

  /** Every file in live but the root has the same contents, and references other than to i are the same. */
  ghost predicate Others(fs: Fs, fs': Fs, live: set<nat>, i: nat) {
    Kept(fs, fs', live) && SameCounts(fs, fs', i)
  }

  ghost predicate Unchanged(fs: Fs, fs': Fs, live: set<nat>) {
    Inv(fs', live) && SlotsOf(fs') == SlotsOf(fs) && forall j :: j in live ==> FileOf(fs', j) == FileOf(fs, j)
  }

  /** The volume when the name of a new file is being entered, or when there was no block for its inode. */
  function Entering(fs: Fs, name: Name): Fs {
    match Balloc(fs)
    case (fs1, Err(e)) => fs1
    case (fs1, Ok(b)) => DirLink(LoadNew(fs1, b, TYPE_FILE), name, b).0
  }

  /** Why a new file was not made; for want of a block only if every block was in use when it gave up. */
  ghost predicate CreatFails(fs: Fs, name: Name, e: Errno) {
    && e == (if Full(fs) then ENOSPC
             else if |name| >= NAMELEN then ENAMETOOLONG
             else if DirFull(fs) then EINVAL
             else ENOSPC)
    && (e == ENOSPC ==> Full(Entering(fs, name)))
  }

  lemma EnterNewCorrect(fs: Fs, live: set<nat>, name: Name, b: u32)
    requires Inv(fs, live + {b}) && Loaded(fs, ROOT) && b !in live && ROOT in live
    requires Loaded(fs, b) && RefCount(fs, b) == 1 && Cur(fs, b).links == 0
    ensures var (fs', r) := EnterNew(fs, name, b);
      && Others(fs, fs', live, b)
      && (r.Ok? ==>
            && r.v == b && Inv(fs', live + {b}) && |name| < NAMELEN && name !in NamesOf(fs)
            && NamesOf(fs') == NamesOf(fs)[name := b]
            && SameData(FileOf(fs', b), FileOf(fs, b))
            && RefCount(fs', b) == 1 && OpenCount(fs', b) == OpenCount(fs, b))
      && (r.Err? ==> Unchanged(fs, fs', live) && !Loaded(fs', b))
      && (r.Ok? ==> !DirFull(fs))
      && (r.Err? ==> LinkFails(fs, DirLink(fs, name, b).0, name, r.e))
  {
    hide InvBut, DirLink, AddLink, Decref, FileOf, SlotsOf, NameMap, RefCount, OpenCount, Loaded, Cur, Files, DirFull;
    hide LinkFails;
    var live1 := live + {b};
    DirLinkInv(fs, live1, name, b);
    var (fs1, r) := DirLink(fs, name, b);
    KeptLess(fs, fs1, live1, live);
    if r.Ok? {
      AddLinkInv(fs1, live1, b);
      var fs2 := AddLink(fs1, b);
      KeptTwice(fs, fs1, fs2, live1);
      KeptLess(fs, fs2, live1, live);
      assert SameData(FileOf(fs2, b), FileOf(fs, b));
    } else {
      FilesAt(fs, fs1, live1);
      FileLinks(fs, b);
      FileLinks(fs1, b);
      DecrefInv(fs1, live1, b);
      assert live1 - {b} == live;
      DroppedKept(fs, fs1, Decref(fs1, b), live, b);
    }
  }

  lemma RootLive(fs: Fs, live: set<nat>)
    requires Inv(fs, live)
    ensures ROOT in live
  {
    hide Store, MapSaved, FileOf, Distinct, Attrs, SlotsOf;
    NoZeroLive(fs, live);
  }

  lemma FileLinks(fs: Fs, i: nat)
    ensures FileOf(fs, i).links == Cur(fs, i).links
  {
  }

  lemma KeptLess(fs: Fs, fs': Fs, live: set<nat>, less: set<nat>)
    requires Kept(fs, fs', live) && less <= live
    ensures Kept(fs, fs', less)
  {
    hide FileOf;
  }

  lemma DroppedKept(fs: Fs, fs1: Fs, fs2: Fs, live: set<nat>, b: nat)
    requires forall j :: j in live ==> FileOf(fs1, j) == FileOf(fs, j)
    requires forall j :: j in live ==> FileOf(fs2, j) == FileOf(fs1, j)
    ensures Kept(fs, fs2, live) && forall j :: j in live ==> FileOf(fs2, j) == FileOf(fs, j)
  {
    hide FileOf;
  }

  lemma SameCountsAfter(fs: Fs, fs1: Fs, fs2: Fs, i: nat)
    requires SameCounts(fs, fs1, i) && SameCounts(fs1, fs2, i)
    ensures SameCounts(fs, fs2, i)
  {
    hide RefCount, OpenCount, Loaded;
  }

  lemma FindLive(fs: Fs, live: set<nat>, name: Name)
    requires Inv(fs, live) && Find(fs, name).found
    ensures (Find(fs, name).ino as nat) in live
  {
    hide Store, MapSaved, FileOf, Attrs, Search, DirSlots, Loaded;
    FindNames(fs, name);
    var h := Find(fs, name);
    assert Named(SlotsOf(fs), h.ino);
  }

  /** Looking a name up gives the inode the map says, with one more reference, and changes no file. */
  lemma LookupCorrect(fs: Fs, live: set<nat>, name: Name)
    requires Inv(fs, live)
    ensures var (fs', r) := Lookup(fs, name);
      && Unchanged(fs, fs', live)
      && (name !in NamesOf(fs) ==> r == Err(ENOENT) && fs' == fs)
      && (name in NamesOf(fs) ==>
            && r == Ok(NamesOf(fs)[name]) && Loaded(fs', r.v) && RefCount(fs', r.v) == RefCount(fs, r.v) + 1
            && SameCounts(fs, fs', r.v) && OpenCount(fs', r.v) == OpenCount(fs, r.v))
  {
    hide Store, FileOf, MapSaved, Attrs, Search, DirSlots, Loaded, Load, NameMap, LiveIs, RefCount, OpenCount, Files;
    FindNames(fs, name);
    var h := Find(fs, name);
    if h.found {
      FindLive(fs, live, name);
      LoadInv(fs, live, h.ino);
      FilesAt(fs, Load(fs, h.ino), live);
    }
  }

  /**
   * Creating a file: an existing name is refused or opened; a new name is added to the map for a fresh
   * inode, empty and with one link; and when the volume or the directory is full, nothing is left behind.
   */
  lemma CreatCorrect(fs: Fs, live: set<nat>, name: Name, excl: bool)
    requires Inv(fs, live) && Loaded(fs, ROOT)
    ensures var (fs', r) := Creat(fs, name, excl); var names := NamesOf(fs);
      && (name in names && excl ==> r == Err(EEXIST) && fs' == fs)
      && (name in names && !excl ==>
            && r == Ok(names[name]) && Unchanged(fs, fs', live)
            && RefCount(fs', r.v) == RefCount(fs, r.v) + 1 && SameCounts(fs, fs', r.v)
            && OpenCount(fs', r.v) == OpenCount(fs, r.v))
      && (name !in names && r.Ok? ==>
            && r.v !in live && |name| < NAMELEN && !DirFull(fs) && !Full(fs)
            && Inv(fs', live + {r.v}) && NamesOf(fs') == names[name := r.v]
            && SameData(FileOf(fs', r.v), NewFile(TYPE_FILE)) && FileOf(fs', r.v).links == 1
            && RefCount(fs', r.v) == 1 && OpenCount(fs', r.v) == 0 && Others(fs, fs', live, r.v))
      && (name !in names && r.Err? ==>
            Unchanged(fs, fs', live) && SameRefs(fs, fs') && CreatFails(fs, name, r.e))
  {
    hide Store, FileOf, MapSaved, Attrs, Search, DirSlots, Loaded, Load, NameMap, LiveIs, RefCount, OpenCount, Files;
    hide CreatNew;
    FindNames(fs, name);
    var h := Find(fs, name);
    if h.found {
      FindLive(fs, live, name);
      LoadInv(fs, live, h.ino);
      FilesAt(fs, Load(fs, h.ino), live);
    } else {
      CreatNewCorrect(fs, live, name);
    }
  }

  lemma OneLink(fs: Fs, live: set<nat>, b: nat, name: Name)
    requires Inv(fs, live) && b in live && b != ROOT && b != NOINO
    requires name in NamesOf(fs) && NamesOf(fs)[name] == b
    requires forall nm :: nm in NamesOf(fs) && nm != name ==> NamesOf(fs)[nm] != b
    ensures FileOf(fs, b).links == 1
  {
    hide Store, FileOf, MapSaved, DirSlots, LiveIs, Search;
    assert AttrOk(fs, SlotsOf(fs), b, ROOT, 0);
    CountUnique(SlotsOf(fs), b, name);
  }

  lemma CountUnique(es: seq<Entry>, b: nat, name: Name)
    requires Distinct(es) && b != NOINO
    requires name in NameMap(es) && NameMap(es)[name] == b
    requires forall nm :: nm in NameMap(es) && nm != name ==> NameMap(es)[nm] != b
    ensures Count(es, b) == 1
  {
    hide Search;
    NameMapAt(es, name);
    SearchCorrect(es, name, |es|);
    var s := Search(es, name, |es|).slot;
    hide NameMap;
    forall k: nat | k < |es| && es[k].ino == b
      ensures k == s
    {
      NameMapAt(es, es[k].name);
      assert Names(es, es[k].name, k);
    }
    CountAlone(es, b, s);
  }

  lemma {:induction false} CountAlone(es: seq<Entry>, b: nat, s: nat)
    requires s < |es| && es[s].ino == b && forall k: nat :: k < |es| && es[k].ino == b ==> k == s
    ensures Count(es, b) == 1
  {
    if s == 0 {
      CountNone(es[1..], b);
    } else {
      CountAlone(es[1..], b, s - 1);
    }
  }

  lemma {:induction false} CountNone(es: seq<Entry>, b: nat)
    requires forall k: nat :: k < |es| ==> es[k].ino != b
    ensures Count(es, b) == 0
  {
    if es != [] {
      CountNone(es[1..], b);
    }
  }

  lemma CreatNewCorrect(fs: Fs, live: set<nat>, name: Name)
    requires Inv(fs, live) && Loaded(fs, ROOT) && name !in NamesOf(fs)
    ensures var (fs', r) := CreatNew(fs, name);
      && (r.Ok? ==>
            && r.v !in live && |name| < NAMELEN && !DirFull(fs) && !Full(fs)
            && Inv(fs', live + {r.v}) && NamesOf(fs') == NamesOf(fs)[name := r.v]
            && SameData(FileOf(fs', r.v), NewFile(TYPE_FILE)) && FileOf(fs', r.v).links == 1
            && RefCount(fs', r.v) == 1 && OpenCount(fs', r.v) == 0 && Others(fs, fs', live, r.v))
      && (r.Err? ==>
            Unchanged(fs, fs', live) && SameRefs(fs, fs') && CreatFails(fs, name, r.e))
  {
    hide Store, FileOf, MapSaved, Attrs, Search, DirSlots, NameMap, LiveIs, RefCount, OpenCount, Files;
    hide EnterNew, LoadNew, TakeBlock, Loaded, Distinct, Cur, NewFile, DirFile, DirLink;
    RootLive(fs, live);
    var b := FirstFree(fs.used);
    if b < |fs.used| {
      NewInv(fs, live, b);
      var fs1 := LoadNew(TakeBlock(fs, b), b, TYPE_FILE);
      EnterNewCorrect(fs1, live, name, b);
      var (fs', r) := EnterNew(fs1, name, b);
      NewKept(fs, fs1, fs', live);
      SameCountsAfter(fs, fs1, fs', b);
      if r.Ok? {
        NamesLive(fs, live, b);
        OneLink(fs', live + {b}, b, name);
      } else {
        NotLoaded(fs, fs', live, b);
      }
    }
  }

  lemma NewKept(fs: Fs, fs1: Fs, fs2: Fs, live: set<nat>)
    requires forall j :: j in live ==> FileOf(fs1, j) == FileOf(fs, j)
    requires Kept(fs1, fs2, live)
    ensures Kept(fs, fs2, live)
  {
    hide FileOf;
  }

  lemma NamesLive(fs: Fs, live: set<nat>, b: nat)
    requires Inv(fs, live) && b !in live
    ensures forall nm :: nm in NamesOf(fs) ==> NamesOf(fs)[nm] != b
  {
    hide Store, FileOf, MapSaved, Attrs, DirSlots, NameMap, Loaded, Search;
    forall nm | nm in NamesOf(fs)
      ensures NamesOf(fs)[nm] != b
    {
      FindNames(fs, nm);
      FindLive(fs, live, nm);
    }
  }

  lemma NotLoaded(fs: Fs, fs': Fs, live: set<nat>, b: nat)
    requires Inv(fs, live) && b !in live && !Loaded(fs', b) && SameCounts(fs, fs', b)
    ensures SameRefs(fs, fs')
  {
    hide Store, FileOf, MapSaved, Attrs, DirSlots, Named;
  }

  lemma InvDistinct(fs: Fs, live: set<nat>)
    requires Inv(fs, live)
    ensures Distinct(SlotsOf(fs))
  {
    hide Store, MapSaved, FileOf, Attrs, LiveIs, Distinct, SlotsOf;
  }

  lemma LoadedLive(fs: Fs, live: set<nat>, i: nat)
    requires Inv(fs, live) && Loaded(fs, i)
    ensures i in live
  {
    hide Store, MapSaved, FileOf, Attrs, Named, Loaded;
  }

  lemma RefsLoaded(fs: Fs, fs': Fs, i: nat)
    requires SameRefs(fs, fs')
    ensures Loaded(fs', i) == Loaded(fs, i) && RefCount(fs', i) == RefCount(fs, i)
  {
    hide RefCount, OpenCount, Loaded;
  }

  /** A hard link adds one name for an inode already live, or changes nothing. */
  lemma LinkCorrect(fs: Fs, live: set<nat>, name: Name, i: u32)
    requires Inv(fs, live) && Loaded(fs, ROOT) && Loaded(fs, i)
    ensures var (fs', r) := Link(fs, name, i); var names := NamesOf(fs);
      && SameRefs(fs, fs')
      && (r.Ok? ==>
            && Inv(fs', live) && name !in names && |name| < NAMELEN && NamesOf(fs') == names[name := i]
            && Kept(fs, fs', live))
      && (r.Err? ==> Unchanged(fs, fs', live))
      && (r.Ok? ==> !DirFull(fs))
      && (r.Err? ==> LinkFails(fs, fs', name, r.e))
  {
    hide InvBut, DirLink, AddLink, FileOf, SlotsOf, NameMap, RefCount, OpenCount, Loaded, Cur, Files, Find, SameRefs;
    hide Kept, DirFull, Full;
    LoadedLive(fs, live, i);
    DirLinkInv(fs, live, name, i);
    var (fs1, r) := DirLink(fs, name, i);
    if r.Ok? {
      RefsLoaded(fs, fs1, i);
      AddLinkInv(fs1, live, i);
      SameRefsTwice(fs, fs1, AddLink(fs1, i));
      KeptTwice(fs, fs1, AddLink(fs1, i), live);
    } else {
      FilesAt(fs, fs1, live);
    }
  }

  lemma SameRefsTwice(fs: Fs, fs1: Fs, fs2: Fs)
    requires SameRefs(fs, fs1) && SameRefs(fs1, fs2)
    ensures SameRefs(fs, fs2)
  {
    hide RefCount, OpenCount, Loaded;
    forall j: nat
      ensures RefCount(fs2, j) == RefCount(fs, j) && OpenCount(fs2, j) == OpenCount(fs, j)
      ensures Loaded(fs2, j) == Loaded(fs, j)
    {
      assert RefCount(fs1, j) == RefCount(fs, j) && OpenCount(fs1, j) == OpenCount(fs, j);
      assert Loaded(fs1, j) == Loaded(fs, j);
    }
  }

  /** The live inodes after name is removed: its inode goes if that was its only link and nobody has it loaded. */
  ghost function LiveWithout(fs: Fs, live: set<nat>, name: Name): set<nat>
    requires name in NamesOf(fs)
  {
    var i := NamesOf(fs)[name];
    if FileOf(fs, i).links == 1 && RefCount(fs, i) == 0 then live - {i} else live
  }

  /** The state just before remove drops its reference: loaded, slot cleared, count down. */
  function RemoveMid(fs: Fs, h: Hit): Fs
    requires h.slot >= 0
  {
    DropLink(DirUnlink(Load(fs, h.ino), h.slot).0, h.ino)
  }

  lemma RemoveMidInv(fs: Fs, live: set<nat>, name: Name)
    requires Inv(fs, live) && Loaded(fs, ROOT) && name in NamesOf(fs)
    ensures var h := Find(fs, name); var i := NamesOf(fs)[name];
      && h.found && h.ino == i && i in live && 0 <= h.slot <= MAXSLOTS
      && DirUnlink(Load(fs, i), h.slot).1.Ok?
      && var fs2 := RemoveMid(fs, h);
        && Inv(fs2, live) && NamesOf(fs2) == NamesOf(fs) - {name} && Kept(fs, fs2, live)
        && Loaded(fs2, i) && RefCount(fs2, i) == RefCount(fs, i) + 1 && SameCounts(fs, fs2, i)
        && OpenCount(fs2, i) == OpenCount(fs, i)
        && FileOf(fs2, i).links == FileOf(fs, i).links - 1
  {
    hide InvBut, DirUnlink, DropLink, Load, FileOf, SlotsOf, NameMap, RefCount, OpenCount, Loaded, Cur, Files, Search;
    hide Distinct;
    InvDistinct(fs, live);
    FindNames(fs, name);
    FindLive(fs, live, name);
    var h := Find(fs, name);
    var i := NamesOf(fs)[name];
    LoadInv(fs, live, i);
    var fs1 := Load(fs, i);
    StillLoaded(fs, fs1, i);
    DirUnlinkInv(fs1, live, name, h.slot, i);
    var fs2 := DirUnlink(fs1, h.slot).0;
    DropLinkInv(fs2, live, i);
    var fs3 := DropLink(fs2, i);
    KeptTwice(fs, fs1, fs2, live);
    KeptTwice(fs, fs2, fs3, live);
    SameRefsTwice(fs1, fs2, fs3);
    CountsThen(fs, fs1, fs3, i);
    MovedLinks(fs, fs3, live, i, -1, i);
  }

  lemma StillLoaded(fs: Fs, fs': Fs, i: nat)
    requires SameCounts(fs, fs', i) && Loaded(fs, ROOT) && Loaded(fs', i)
    ensures Loaded(fs', ROOT)
  {
    hide RefCount, OpenCount, Loaded;
  }

  lemma CountsThen(fs: Fs, fs1: Fs, fs2: Fs, i: nat)
    requires SameCounts(fs, fs1, i) && SameRefs(fs1, fs2)
    ensures SameCounts(fs, fs2, i) && RefCount(fs2, i) == RefCount(fs1, i) && Loaded(fs2, i) == Loaded(fs1, i)
    ensures OpenCount(fs2, i) == OpenCount(fs1, i)
  {
    hide RefCount, OpenCount, Loaded;
    forall j | j != i
      ensures RefCount(fs2, j) == RefCount(fs, j) && OpenCount(fs2, j) == OpenCount(fs, j)
      ensures Loaded(fs2, j) == Loaded(fs, j)
    {
      assert RefCount(fs2, j) == RefCount(fs1, j) && OpenCount(fs2, j) == OpenCount(fs1, j);
      assert Loaded(fs2, j) == Loaded(fs1, j);
    }
    assert RefCount(fs2, i) == RefCount(fs1, i);
  }

  /** Link counts move as the slots do. */
  lemma MovedLinks(fs: Fs, fs': Fs, live: set<nat>, i: nat, d: int, j: nat)
    requires CountsMoved(SlotsOf(fs), SlotsOf(fs'), i, d)
    requires Inv(fs, live) && Inv(fs', live) && j in live
    ensures FileOf(fs', j).links == FileOf(fs, j).links + if j == i then d else 0
  {
    hide Store, FileOf, MapSaved, SlotsOf, LiveIs, Count;
    NoZeroLive(fs, live);
    assert AttrOk(fs, SlotsOf(fs), j, ROOT, 0);
    assert AttrOk(fs', SlotsOf(fs'), j, ROOT, 0);
  }

  /**
   * Removing a name cannot fail once the name is found. The map loses that name only; every reference
   * count is as before; a file still referenced or still linked keeps its contents, any other is erased.
   */
  lemma RemoveCorrect(fs: Fs, live: set<nat>, name: Name)
    requires Inv(fs, live) && Loaded(fs, ROOT)
    ensures var (fs', r) := Remove(fs, name);
      && (name !in NamesOf(fs) ==> r == Err(ENOENT) && fs' == fs)
      && (name in NamesOf(fs) ==>
            && r.Ok? && Inv(fs', LiveWithout(fs, live, name)) && NamesOf(fs') == NamesOf(fs) - {name}
            && Kept(fs, fs', LiveWithout(fs, live, name))
            && CountsKept(fs, fs'))
  {
    hide InvBut, RemoveMid, Decref, FileOf, SlotsOf, NameMap, RefCount, OpenCount, Loaded, Cur, Files, Search, Distinct;
    hide Kept;
    InvDistinct(fs, live);
    FindNames(fs, name);
    if name in NamesOf(fs) {
      RemoveMidInv(fs, live, name);
      var i := NamesOf(fs)[name];
      var fs2 := RemoveMid(fs, Find(fs, name));
      assert Remove(fs, name).0 == Decref(fs2, i) by { RemoveShape(fs, name); }
      FileLinks(fs2, i);
      DecrefInv(fs2, live, i);
      var live' := LiveAfter(fs2, live, i);
      KeptLess(fs, fs2, live, live');
      DroppedKeeps(fs, fs2, Decref(fs2, i), live');
      NoneOpen(fs, live, i);
      RefsDown(fs, fs2, Decref(fs2, i), i);
    }
  }

  lemma RemoveShape(fs: Fs, name: Name)
    requires Find(fs, name).found
    requires DirUnlink(Load(fs, Find(fs, name).ino), Find(fs, name).slot).1.Ok?
    ensures Remove(fs, name) == (Decref(RemoveMid(fs, Find(fs, name)), Find(fs, name).ino), Ok(()))
  {
    hide Load, DirUnlink, DropLink, Decref, Find;
  }

  lemma DroppedKeeps(fs: Fs, fs1: Fs, fs2: Fs, live: set<nat>)
    requires Kept(fs, fs1, live) && forall j :: j in live ==> FileOf(fs2, j) == FileOf(fs1, j)
    ensures Kept(fs, fs2, live)
  {
    hide FileOf;
  }

  /** One reference more and then one less; a vnode that was not loaded has no open count to lose. */
  lemma RefsDown(fs: Fs, fs1: Fs, fs2: Fs, i: nat)
    requires SameCounts(fs, fs1, i) && RefCount(fs1, i) == RefCount(fs, i) + 1 && OpenCount(fs1, i) == OpenCount(fs, i)
    requires SameCounts(fs1, fs2, i) && RefCount(fs2, i) == RefCount(fs1, i) - 1
    requires OpenCount(fs2, i) == if RefCount(fs1, i) > 1 then OpenCount(fs1, i) else 0
    requires RefCount(fs, i) == 0 ==> OpenCount(fs, i) == 0
    ensures CountsKept(fs, fs2)
  {
    hide RefCount, OpenCount, Loaded;
    forall j: nat
      ensures RefCount(fs2, j) == RefCount(fs, j) && OpenCount(fs2, j) == OpenCount(fs, j)
    {
      if j != i { assert RefCount(fs1, j) == RefCount(fs, j) && OpenCount(fs1, j) == OpenCount(fs, j); }
    }
  }

  lemma NoneOpen(fs: Fs, live: set<nat>, i: nat)
    requires Inv(fs, live)
    ensures RefCount(fs, i) == 0 ==> OpenCount(fs, i) == 0
  {
    hide Store, MapSaved, FileOf, Attrs, Named, DirFile, SlotsOf, Distinct;
    if Loaded(fs, i) { RefPositive(fs, live, i); }
  }


  /** The state just before a successful rename drops its reference. */
  function RenameMid(fs: Fs, h: Hit, n2: Name): Fs
    requires h.slot >= 0
  {
    DropLink(DirUnlink(AddLink(DirLink(Load(fs, h.ino), n2, h.ino).0, h.ino), h.slot).0, h.ino)
  }

  lemma RenameLinkInv(fs: Fs, live: set<nat>, n1: Name, n2: Name)
    requires Inv(fs, live) && Loaded(fs, ROOT) && n1 in NamesOf(fs)
    ensures var h := Find(fs, n1); var i := NamesOf(fs)[n1]; var fs1 := Load(fs, i);
      var (fs2, r) := DirLink(fs1, n2, i);
      && h.found && h.ino == i != NOINO && i in live && 0 <= h.slot <= MAXSLOTS && Loaded(fs1, ROOT)
      && Loaded(fs1, i) && RefCount(fs1, i) == RefCount(fs, i) + 1 && SameCounts(fs, fs1, i) && SameRefs(fs1, fs2)
      && OpenCount(fs1, i) == OpenCount(fs, i)
      && Kept(fs, fs2, live)
      && (r.Ok? ==>
            && n2 !in NamesOf(fs) && |n2| < NAMELEN
            && var fs3 := AddLink(fs2, i);
              && Inv(fs3, live) && NamesOf(fs3) == NamesOf(fs)[n2 := i] && Kept(fs, fs3, live) && SameRefs(fs1, fs3)
              && CountsMoved(SlotsOf(fs), SlotsOf(fs3), i, 1)
              && Names(SlotsOf(fs3), n1, h.slot) && SlotsOf(fs3)[h.slot].ino == i)
      && (r.Err? ==> Inv(fs2, live) && SlotsOf(fs2) == SlotsOf(fs) && forall j :: j in live ==>
            FileOf(fs2, j) == FileOf(fs, j))
      && (r.Ok? ==> !DirFull(fs))
      && (r.Err? ==> LinkFails(fs, fs2, n2, r.e))
  {
    hide InvBut, DirLink, AddLink, Load, FileOf, SlotsOf, NameMap, RefCount, OpenCount, Loaded, Cur, Files, Search;
    hide Distinct, Kept, SameRefs;
    InvDistinct(fs, live);
    FindNames(fs, n1);
    FindLive(fs, live, n1);
    var h := Find(fs, n1);
    var i := NamesOf(fs)[n1];
    LoadInv(fs, live, i);
    var fs1 := Load(fs, i);
    StillLoaded(fs, fs1, i);
    FilesAt(fs, fs1, live);
    DirLinkInv(fs1, live, n2, i);
    var (fs2, r) := DirLink(fs1, n2, i);
    KeptTwice(fs, fs1, fs2, live);
    if r.Ok? {
      RefsLoaded(fs1, fs2, i);
      AddLinkInv(fs2, live, i);
      KeptTwice(fs, fs2, AddLink(fs2, i), live);
      SameRefsTwice(fs1, fs2, AddLink(fs2, i));
    } else {
      FilesAt(fs1, fs2, live);
    }
  }

  lemma RenameMidInv(fs: Fs, live: set<nat>, n1: Name, n2: Name)
    requires Inv(fs, live) && Loaded(fs, ROOT) && n1 in NamesOf(fs)
    requires DirLink(Load(fs, NamesOf(fs)[n1]), n2, Find(fs, n1).ino).1.Ok?
    ensures var h := Find(fs, n1); var i := NamesOf(fs)[n1];
      && h.found && h.ino == i && i in live && h.slot >= 0 && n1 != n2
      && DirUnlink(AddLink(DirLink(Load(fs, i), n2, h.ino).0, i), h.slot).1.Ok?
      && var fs' := RenameMid(fs, h, n2);
        && Inv(fs', live) && NamesOf(fs') == NamesOf(fs)[n2 := i] - {n1} && Kept(fs, fs', live)
        && CountsMoved(SlotsOf(fs), SlotsOf(fs'), i, 0)
        && Loaded(fs', i) && RefCount(fs', i) == RefCount(fs, i) + 1 && SameCounts(fs, fs', i)
        && OpenCount(fs', i) == OpenCount(fs, i)
  {
    hide InvBut, DirLink, DirUnlink, AddLink, DropLink, Load, FileOf, SlotsOf, NameMap, RefCount, OpenCount, Loaded;
    hide Cur;
    hide Search, Distinct, Kept, SameRefs;
    InvDistinct(fs, live);
    FindNames(fs, n1);
    RenameLinkInv(fs, live, n1, n2);
    var h := Find(fs, n1);
    var i := NamesOf(fs)[n1];
    var fs1 := Load(fs, i);
    var fs3 := AddLink(DirLink(fs1, n2, i).0, i);
    RefsLoaded(fs1, fs3, i);
    RefsLoaded(fs1, fs3, ROOT);
    DirUnlinkInv(fs3, live, n1, h.slot, i);
    var fs4 := DirUnlink(fs3, h.slot).0;
    RefsLoaded(fs3, fs4, i);
    DropLinkInv(fs4, live, i);
    var fs5 := DropLink(fs4, i);
    KeptTwice(fs, fs3, fs4, live);
    KeptTwice(fs, fs4, fs5, live);
    SameRefsTwice(fs1, fs3, fs4);
    SameRefsTwice(fs1, fs4, fs5);
    CountsThen(fs, fs1, fs5, i);
    MovedBack(SlotsOf(fs), SlotsOf(fs3), SlotsOf(fs4), i);
  }

  lemma MovedBack(es: seq<Entry>, es1: seq<Entry>, es2: seq<Entry>, i: nat)
    requires CountsMoved(es, es1, i, 1) && CountsMoved(es1, es2, i, -1)
    ensures CountsMoved(es, es2, i, 0)
  {
    hide Count;
    forall j: nat | j != NOINO
      ensures Count(es2, j) == Count(es, j)
    {
      assert Count(es1, j) == Count(es, j) + if j == i then 1 else 0;
    }
  }

  lemma RenameShape(fs: Fs, n1: Name, n2: Name)
    requires Find(fs, n1).found
    ensures var h := Find(fs, n1); var (fs1, r) := DirLink(Load(fs, h.ino), n2, h.ino);
      && (r.Err? ==> Rename(fs, n1, n2) == (Decref(fs1, h.ino), Err(r.e)))
      && (r.Ok? && DirUnlink(AddLink(fs1, h.ino), h.slot).1.Ok? ==>
            Rename(fs, n1, n2) == (Decref(RenameMid(fs, h, n2), h.ino), Ok(())))
  {
    hide Load, DirLink, DirUnlink, AddLink, DropLink, Decref, Find;
  }

  /** A renamed file still has a name, so its inode stays. */
  lemma StillNamed(fs: Fs, live: set<nat>, name: Name)
    requires Inv(fs, live) && name in NamesOf(fs)
    ensures Cur(fs, NamesOf(fs)[name]).links > 0
  {
    hide Store, MapSaved, NameMap, Search, LiveIs, Distinct, DirSlots, Cur;
    InvDistinct(fs, live);
    FindNames(fs, name);
    FindLive(fs, live, name);
    var i := NamesOf(fs)[name];
    FileLinks(fs, i);
    hide FileOf;
    assert AttrOk(fs, SlotsOf(fs), i, ROOT, 0);
    CountSome(SlotsOf(fs), i, Find(fs, name).slot);
  }

  /**
   * Renaming moves one name: the map has the new name for the same inode instead of the old. No file's
   * contents, no link count and no reference count changes, and a failure changes nothing.
   */
  lemma RenameCorrect(fs: Fs, live: set<nat>, n1: Name, n2: Name)
    requires Inv(fs, live) && Loaded(fs, ROOT)
    ensures var (fs', r) := Rename(fs, n1, n2); var names := NamesOf(fs);
      && Inv(fs', live)
      && CountsKept(fs, fs')
      && Kept(fs, fs', live)
      && (n1 !in names ==> r == Err(ENOENT) && fs' == fs)
      && (n1 in names && r.Err? ==> LinkFails(fs, fs', n2, r.e))
      && (r.Ok? ==> n1 in names && n2 !in names && |n2| < NAMELEN && !DirFull(fs))
      && (r.Ok? ==> NamesOf(fs') == names[n2 := names[n1]] - {n1})
      && (r.Ok? ==> forall j :: j in live ==> FileOf(fs', j).links == FileOf(fs, j).links)
      && (r.Err? ==> Unchanged(fs, fs', live))
  {
    hide InvBut, DirLink, DirUnlink, AddLink, DropLink, Load, FileOf, SlotsOf, NameMap, RefCount, OpenCount, Loaded;
    hide Cur;
    hide Search, Distinct, Kept, SameRefs, Decref, Rename;
    InvDistinct(fs, live);
    FindNames(fs, n1);
    if n1 in NamesOf(fs) {
      RenameShape(fs, n1, n2);
      RenameLinkInv(fs, live, n1, n2);
      var h := Find(fs, n1);
      var i := NamesOf(fs)[n1];
      var (fs1, r) := DirLink(Load(fs, i), n2, i);
      NoneOpen(fs, live, i);
      if r.Ok? {
        RenameMidInv(fs, live, n1, n2);
        var fs2 := RenameMid(fs, h, n2);
        StillNamed(fs2, live, n2);
        DecrefInv(fs2, live, i);
        DroppedKeeps(fs, fs2, Decref(fs2, i), live);
        RefsDown(fs, fs2, Decref(fs2, i), i);
        forall j | j in live
          ensures FileOf(Decref(fs2, i), j).links == FileOf(fs, j).links
        {
          MovedLinks(fs, fs2, live, i, 0, j);
        }
      } else {
        CountsThen(fs, Load(fs, i), fs1, i);
        StillNamed(fs1, live, n1);
        DecrefInv(fs1, live, i);
        DroppedKeeps(fs, fs1, Decref(fs1, i), live);
        RefsDown(fs, fs1, Decref(fs1, i), i);
      }
    } else {
      RenameMissing(fs, n1, n2);
      KeptSelf(fs, live);
    }
  }

  lemma RenameMissing(fs: Fs, n1: Name, n2: Name)
    requires !Find(fs, n1).found
    ensures Rename(fs, n1, n2) == (fs, Err(ENOENT))
  {
    hide Load, DirLink, DirUnlink, AddLink, DropLink, Decref, Find;
  }

  lemma KeptSelf(fs: Fs, live: set<nat>)
    ensures Kept(fs, fs, live)
  {
    hide FileOf;
  }
}
