/** Whole runs of a volume, from mksfs on: what every reachable state satisfies. */
module SfsRun {
  import opened Words
  import opened SfsLayout
  import opened SfsState
  import opened SfsIo
  import opened SfsTruncate
  import opened SfsVnode
  import opened SfsDir
  import opened SfsOps
  import opened SfsMount
  import opened SfsMkfs

  /** A call into the file system; inode numbers stand for vnodes the caller holds. */
  datatype Op =
    | GetRoot
    | DoLookup(name: Name)
    | DoCreat(name: Name, excl: bool)
    | DoLink(name: Name, ino: u32)
    | DoRemove(name: Name)
    | DoRename(n1: Name, n2: Name)
    | DoRead(ino: u32, off: nat, len: nat)
    | DoWrite(ino: u32, off: nat, data: seq<byte>)
    | DoTruncate(ino: u32, len: nat)
    | Incref(ino: u32)
    | DoDecref(ino: u32)
    | Incopen(ino: u32)
    | Decopen(ino: u32)
    | Fsync(ino: u32)
    | DoSync
    | Remount

  function AddOpen(fs: Fs, i: nat): Fs {
    if Loaded(fs, i) then PutVnode(fs, i, VnodeOf(fs, i).(opens := VnodeOf(fs, i).opens + 1)) else fs
  }

  /** The last close writes the inode back. */
  function DropOpen(fs: Fs, i: nat): Fs {
    if Loaded(fs, i) && VnodeOf(fs, i).opens > 0 then
      var fs1 := PutVnode(fs, i, VnodeOf(fs, i).(opens := VnodeOf(fs, i).opens - 1));
      if VnodeOf(fs, i).opens == 1 then SyncInode(fs1, i) else fs1
    else fs
  }

  /** What the code asks of its callers: vnodes that are held, offsets that fit, and counts in step. */
  predicate Allowed(fs: Fs, op: Op) {
    match op
    case GetRoot => true
    case DoLookup(_) => Loaded(fs, ROOT)
    case DoCreat(_, _) => Loaded(fs, ROOT)
    case DoLink(_, i) => Loaded(fs, ROOT) && Loaded(fs, i)
    case DoRemove(_) => Loaded(fs, ROOT)
    case DoRename(n1, _) => Loaded(fs, ROOT) && (Find(fs, n1).found ==> Find(fs, n1).ino != ROOT)
    case DoRead(i, off, len) => Loaded(fs, i) && off + len < 0x8000_0000
    case DoWrite(i, off, d) => Loaded(fs, i) && off + |d| < 0x8000_0000
    case DoTruncate(i, len) => Loaded(fs, i) && len < 0x8000_0000
    case Incref(i) => Loaded(fs, i)
    case DoDecref(i) => Loaded(fs, i) && (VnodeOf(fs, i).refs == 1 ==> VnodeOf(fs, i).opens == 0)
    case Incopen(i) => Loaded(fs, i)
    case Decopen(i) => Loaded(fs, i) && VnodeOf(fs, i).opens > 0
    case Fsync(i) => Loaded(fs, i)
    case DoSync => true
    case Remount => true
  }

  /** Sync, unmount and mount again; unmounting is refused while a file is loaded. */
  function MountAgain(fs: Fs): Fs {
    var s := Sync(fs);
    if s.vnodes != [] || |s.disk| == 0 || BitmapSize(WordAt(s.disk[SB], 1)) > 0xffff_ffff then s
    else match Mount(s.disk) case Ok(m) => m case Err(e) => s
  }

  /** The state after a call; reads, writes and truncations of the directory are refused. */
  function Step(fs: Fs, op: Op): Fs
    requires Allowed(fs, op)
  {
    match op
    case GetRoot => Load(fs, ROOT)
    case DoLookup(name) => Lookup(fs, name).0
    case DoCreat(name, excl) => Creat(fs, name, excl).0
    case DoLink(name, i) => Link(fs, name, i).0
    case DoRemove(name) => Remove(fs, name).0
    case DoRename(n1, n2) => Rename(fs, n1, n2).0
    case DoRead(_, _, _) => fs
    case DoWrite(i, off, d) => if i == ROOT then fs else WriteIo(fs, i, off, d).fs
    case DoTruncate(i, len) => if i == ROOT then fs else Truncate(fs, i, len)
    case Incref(i) => Load(fs, i)
    case DoDecref(i) => Decref(fs, i)
    case Incopen(i) => AddOpen(fs, i)
    case Decopen(i) => DropOpen(fs, i)
    case Fsync(i) => SyncInode(fs, i)
    case DoSync => Sync(fs)
    case Remount => MountAgain(fs)
  }

  ghost function LiveNow(fs: Fs): set<nat> {
    {ROOT} + (set k | 0 <= k < |fs.vnodes| :: fs.vnodes[k].ino)
    + (set k | 0 <= k < |SlotsOf(fs)| && SlotsOf(fs)[k].ino != NOINO :: SlotsOf(fs)[k].ino as nat)
  }

  /** A sound volume: the invariant for the inodes that are live. */
  ghost predicate Sound(fs: Fs) {
    Inv(fs, LiveNow(fs))
  }

  lemma LiveUnique(fs: Fs, live: set<nat>)
    requires Inv(fs, live)
    ensures live == LiveNow(fs) && Sound(fs)
  {
    hide Store, SlotsOf, FileOf, MapSaved, Distinct, Attrs, DirFile, DirSlots;
    forall i: nat
      ensures i in live <==> i in LiveNow(fs)
    {
      LoadedIn(fs, i);
    }
  }

  lemma LoadedIn(fs: Fs, i: nat)
    ensures Loaded(fs, i) <==> i in (set k | 0 <= k < |fs.vnodes| :: fs.vnodes[k].ino)
  {
    var k := IndexOf(fs.vnodes, i);
    if k < |fs.vnodes| {
      assert fs.vnodes[k].ino == i;
    }
  }

  /** A step confined to one file, type and link count unchanged. */
  lemma FrameInv(fs: Fs, fs': Fs, live: set<nat>, i: nat)
    requires Inv(fs, live) && Store(fs', live, {}) && Frame(fs, fs', live, i) && i != ROOT && i in live
    requires FileOf(fs', i).kind == FileOf(fs, i).kind && FileOf(fs', i).links == FileOf(fs, i).links
    ensures Inv(fs', live) && SlotsOf(fs') == SlotsOf(fs)
  {
    hide Store, FileOf, MapSaved, DirSlots, DirFile, Distinct, Attrs, Frame, Named, RefCount, OpenCount;
    FrameParts(fs, fs', live, i);
    FrameCounts(fs, fs', live, i);
    FrameMapGood(fs, fs', live, i);
    NoZeroLive(fs, live);
    SettleAttrs(fs, fs', SlotsOf(fs), live, i, 0) by { AttrsAnywhere(fs, SlotsOf(fs), live, i); }
  }

  lemma AttrsAnywhere(fs: Fs, es: seq<Entry>, live: set<nat>, i: nat)
    requires Attrs(fs, es, live, ROOT, 0)
    ensures Attrs(fs, es, live, i, 0)
  {
    hide FileOf;
    forall j | j in live
      ensures AttrOk(fs, es, j, i, 0)
    {
      assert AttrOk(fs, es, j, ROOT, 0);
    }
  }

  /** Writing a file changes that file as a flat byte array would, and nothing else on the volume. */
  lemma WriteInv(fs: Fs, live: set<nat>, i: nat, off: nat, d: seq<byte>)
    requires Inv(fs, live) && Loaded(fs, i) && i != ROOT && off + |d| < 0x8000_0000
    ensures i in live
    ensures var w := WriteIo(fs, i, off, d);
      && Inv(w.fs, live) && NamesOf(w.fs) == NamesOf(fs) && w.done <= |d| && (w.done > 0 ==> off + w.done <= MAXBYTES)
      && (forall j :: j in live ==>
            FileOf(w.fs, j) == if j == i then Overlay(FileOf(fs, i), off, d[..w.done]) else FileOf(fs, j))
      && (w.r.Ok? ==> w.done == |d|)
  {
    hide Store, FileOf, MapSaved, SlotsOf, Distinct, Attrs, LiveIs, DirFile, Frame, WriteIo, Patch, NameMap, Files;
    LoadedLive(fs, live, i);
    WriteCorrect(fs, live, i, off, d);
    var w := WriteIo(fs, i, off, d);
    FrameInv(fs, w.fs, live, i);
    FrameParts(fs, w.fs, live, i);
  }

  lemma TruncateInv(fs: Fs, live: set<nat>, i: nat, len: nat)
    requires Inv(fs, live) && Loaded(fs, i) && i != ROOT && len < 0x8000_0000
    ensures i in live
    ensures var fs' := Truncate(fs, i, len); var f := FileOf(fs, i);
      && Inv(fs', live) && NamesOf(fs') == NamesOf(fs)
      && FileOf(fs', i) == f.(size := len, bytes := Cut(f.bytes, (len + BLOCKSIZE - 1) / BLOCKSIZE))
      && (forall j :: j in live && j != i ==> FileOf(fs', j) == FileOf(fs, j))
  {
    hide Store, FileOf, MapSaved, SlotsOf, Distinct, Attrs, LiveIs, DirFile, Frame, Truncate, Cut, NameMap, Files, Slot;
    LoadedLive(fs, live, i);
    TruncateCorrect(fs, live, i, len);
    var fs' := Truncate(fs, i, len);
    FrameInv(fs, fs', live, i);
    FrameParts(fs, fs', live, i);
  }

  lemma CountsInv(fs: Fs, live: set<nat>, i: nat, v: Vnode)
    requires Inv(fs, live) && Loaded(fs, i)
    requires v.ino == i && v.refs > 0 && v.inode == VnodeOf(fs, i).inode && v.dirty == VnodeOf(fs, i).dirty
    ensures var fs' := PutVnode(fs, i, v);
      && Inv(fs', live) && Loaded(fs', i) && VnodeOf(fs', i) == v && SameCounts(fs, fs', i)
      && SlotsOf(fs') == SlotsOf(fs) && (forall j :: j in live ==> FileOf(fs', j) == FileOf(fs, j))
  {
    hide FileOf, Store, SlotsOf, Same, Distinct, Attrs, MapSaved, IndexOf, PutVnode, VnodeOf, RefCount, OpenCount;
    hide Named;
    CountsStore(fs, live, i, v);
    var fs' := PutVnode(fs, i, v);
    assert forall j :: Loaded(fs', j) == Loaded(fs, j);
    SameInv(fs, fs', live, ROOT, 0);
    FilesAt(fs, fs', live);
  }

  lemma OpensInv(fs: Fs, live: set<nat>, i: nat)
    requires Inv(fs, live) && Loaded(fs, i)
    ensures Inv(AddOpen(fs, i), live)
    ensures VnodeOf(fs, i).opens > 0 ==> Inv(DropOpen(fs, i), live)
  {
    hide InvBut, SyncInode, PutVnode, SlotsOf, FileOf;
    var v := VnodeOf(fs, i);
    InvRefs(fs, live, i);
    CountsInv(fs, live, i, v.(opens := v.opens + 1));
    if v.opens > 0 {
      CountsInv(fs, live, i, v.(opens := v.opens - 1));
      SyncInodeInv(PutVnode(fs, i, v.(opens := v.opens - 1)), live, i);
    }
  }

  /**
   * One open more, one open less, for that vnode alone; the last close leaves nothing of its inode in memory only.
   */
  lemma OpensExact(fs: Fs, live: set<nat>, i: nat)
    requires Inv(fs, live) && Loaded(fs, i)
    ensures OpenCount(AddOpen(fs, i), i) == OpenCount(fs, i) + 1 && SameCounts(fs, AddOpen(fs, i), i)
    ensures OpenCount(fs, i) > 0 ==>
      var fs' := DropOpen(fs, i);
      && OpenCount(fs', i) == OpenCount(fs, i) - 1 && SameCounts(fs, fs', i) && Loaded(fs', i)
      && (OpenCount(fs', i) == 0 ==> !VnodeOf(fs', i).dirty && DecodeInode(ReadBlock(fs', i)) == Cur(fs', i))
  {
    hide InvBut, SyncInode, PutVnode, SlotsOf, FileOf, VnodeOf, Loaded, ReadBlock;
    var v := VnodeOf(fs, i);
    InvRefs(fs, live, i);
    CountsInv(fs, live, i, v.(opens := v.opens + 1));
    if v.opens > 0 {
      var fs1 := PutVnode(fs, i, v.(opens := v.opens - 1));
      CountsInv(fs, live, i, v.(opens := v.opens - 1));
      InvStore(fs1, live);
      SyncCorrect(fs1, live, i);
      SyncCounts(fs1, SyncInode(fs1, i), i);
      SameCountsAfter(fs, fs1, SyncInode(fs1, i), i);
      assert Cur(SyncInode(fs1, i), i) == Cur(fs1, i);
    }
  }

  lemma SyncCounts(fs: Fs, fs': Fs, i: nat)
    requires forall j :: j != i && Loaded(fs, j) ==> Loaded(fs', j) && VnodeOf(fs', j) == VnodeOf(fs, j)
    requires forall j :: Loaded(fs', j) ==> Loaded(fs, j)
    ensures SameCounts(fs, fs', i)
  {
    hide Loaded, VnodeOf;
  }

  lemma InvStore(fs: Fs, live: set<nat>)
    requires Inv(fs, live)
    ensures Store(fs, live, {})
  {
    hide Store, FileOf, SlotsOf, Distinct, Attrs, MapSaved, LiveIs, DirFile;
  }

  lemma InvRefs(fs: Fs, live: set<nat>, i: nat)
    requires Inv(fs, live) && Loaded(fs, i)
    ensures VnodeOf(fs, i).refs > 0 && VnodeOf(fs, i).ino == i
  {
    hide FileOf, Store, SlotsOf, Distinct, Attrs, MapSaved;
    RefPositive(fs, live, i);
  }

  /** Every call keeps the volume sound. */
  lemma StepSound(fs: Fs, op: Op)
    requires Sound(fs) && Allowed(fs, op)
    ensures Sound(Step(fs, op))
  {
    hide InvBut, Load, Lookup, Creat, Link, Remove, Rename, WriteIo, Truncate, Decref, AddOpen, DropOpen, SyncInode;
    hide Sync, MountAgain;
    hide Loaded, FileOf, SlotsOf, NameMap, LiveNow, Find, RefCount, VnodeOf, Kept, Unchanged;
    var live := LiveNow(fs);
    RootLive(fs, live);
    match op {
      case GetRoot => LoadInv(fs, live, ROOT); LiveUnique(Step(fs, op), live);
      case DoLookup(name) => LookupStep(fs, live, name);
      case DoCreat(name, excl) => CreatStep(fs, live, name, excl);
      case DoLink(name, i) => LinkStep(fs, live, name, i);
      case DoRemove(name) => RemoveStep(fs, live, name);
      case DoRename(n1, n2) => RenameCorrect(fs, live, n1, n2); LiveUnique(Step(fs, op), live);
      case DoRead(_, _, _) =>
      case DoWrite(i, off, d) =>
        if i != ROOT { WriteInv(fs, live, i, off, d); LiveUnique(Step(fs, op), live); }
      case DoTruncate(i, len) =>
        if i != ROOT { TruncateInv(fs, live, i, len); LiveUnique(Step(fs, op), live); }
      case Incref(i) => LoadedLive(fs, live, i); LoadInv(fs, live, i); LiveUnique(Step(fs, op), live);
      case DoDecref(i) => DecrefInv(fs, live, i); LiveUnique(Step(fs, op), LiveAfter(fs, live, i));
      case Incopen(i) => OpensInv(fs, live, i); LiveUnique(Step(fs, op), live);
      case Decopen(i) => OpensInv(fs, live, i); LiveUnique(Step(fs, op), live);
      case Fsync(i) => SyncInodeInv(fs, live, i); LiveUnique(Step(fs, op), live);
      case DoSync => SyncAllCorrect(fs, live); LiveUnique(Step(fs, op), live);
      case Remount => MountAgainInv(fs, live); LiveUnique(Step(fs, op), live);
    }
  }

  /** Nothing of the inode is in memory only. */
  predicate Saved(fs: Fs, i: nat) {
    Loaded(fs, i) && !VnodeOf(fs, i).dirty && DecodeInode(ReadBlock(fs, i)) == Cur(fs, i)
  }

  /** The device can be mounted, as that volume. */
  ghost predicate Mounts(disk: seq<Block>, fs: Fs) {
    |disk| > 0 && BitmapSize(WordAt(disk[SB], 1)) <= 0xffff_ffff && Mount(disk) == Ok(fs)
  }

  /** What the calls that write back leave on the disk. */
  lemma StepSaves(fs: Fs, op: Op)
    requires Sound(fs) && Allowed(fs, op)
    ensures op.Fsync? ==> Saved(Step(fs, op), op.ino)
    ensures op.Decopen? && OpenCount(fs, op.ino) == 1 ==> Saved(Step(fs, op), op.ino)
    ensures op.DoSync? ==> Settled(Step(fs, op))
    ensures op.Remount? && fs.vnodes == [] ==> Mounts(Sync(fs).disk, Step(fs, op))
  {
    hide InvBut, LiveNow, Load, Lookup, Creat, Link, Remove, Rename, WriteIo, Truncate, Decref, AddOpen, DropOpen;
    hide SyncInode, Sync, Mount, Settled, FileOf, SlotsOf, WordAt, ReadBlock, VnodeOf, Loaded, Find, MountAgain;
    var live := LiveNow(fs);
    match op
    case Fsync(i) => InvStore(fs, live); SyncCorrect(fs, live, i); assert Cur(SyncInode(fs, i), i) == Cur(fs, i);
    case Decopen(i) => OpensExact(fs, live, i);
    case DoSync => SyncAllCorrect(fs, live);
    case Remount => RemountCorrect(fs, live); MountAgainInv(fs, live);
    case _ =>
  }

  /** With no file loaded, every live file has a name. */
  lemma NoneLoaded(fs: Fs, live: set<nat>)
    requires Inv(fs, live) && fs.vnodes == []
    ensures NoOrphan(fs, live)
  {
    hide Store, FileOf, MapSaved, DirFile, SlotsOf, Attrs, Cur, Distinct, NameMap;
    forall i | i in live
      ensures Cur(fs, i).links > 0
    {
      if i == ROOT {
        InvAnywhere(fs, live, ROOT, ROOT);
        LinkBound(fs, live, ROOT, 0);
      } else {
        InvDistinct(fs, live);
        assert !Loaded(fs, i);
        NamedIs(SlotsOf(fs), i);
        var name :| name in NamesOf(fs) && NamesOf(fs)[name] == i;
        StillNamed(fs, live, name);
      }
    }
  }

  /** Mounting again keeps the volume sound, and every file and name with it. */
  lemma MountAgainInv(fs: Fs, live: set<nat>)
    requires Inv(fs, live)
    ensures var fs' := MountAgain(fs);
      && Inv(fs', live) && SlotsOf(fs') == SlotsOf(fs) && fs'.used == fs.used
      && (forall j :: j in live ==> FileOf(fs', j) == FileOf(fs, j))
      && (fs.vnodes == [] ==> Mount(Sync(fs).disk) == Ok(fs'))
  {
    hide InvBut, Sync, Mount, FileOf, SlotsOf, Settled, NoOrphan, WordAt;
    SyncAllCorrect(fs, live);
    RemountCorrect(fs, live);
    if fs.vnodes == [] {
      NoneLoaded(fs, live);
    }
  }

  lemma LookupStep(fs: Fs, live: set<nat>, name: Name)
    requires Inv(fs, live)
    ensures Sound(Lookup(fs, name).0)
  {
    hide InvBut, Lookup, FileOf, SlotsOf, NameMap, RefCount, Loaded, LiveNow;
    LookupCorrect(fs, live, name);
    LiveUnique(Lookup(fs, name).0, live);
  }

  lemma CreatStep(fs: Fs, live: set<nat>, name: Name, excl: bool)
    requires Inv(fs, live) && Loaded(fs, ROOT)
    ensures Sound(Creat(fs, name, excl).0)
  {
    hide InvBut, Creat, FileOf, SlotsOf, NameMap, RefCount, Loaded, LiveNow;
    CreatCorrect(fs, live, name, excl);
    var (fs', r) := Creat(fs, name, excl);
    LiveUnique(fs', if name !in NamesOf(fs) && r.Ok? then live + {r.v} else live);
  }

  lemma LinkStep(fs: Fs, live: set<nat>, name: Name, i: u32)
    requires Inv(fs, live) && Loaded(fs, ROOT) && Loaded(fs, i)
    ensures Sound(Link(fs, name, i).0)
  {
    hide InvBut, Link, FileOf, SlotsOf, NameMap, RefCount, Loaded, LiveNow;
    LinkCorrect(fs, live, name, i);
    LiveUnique(Link(fs, name, i).0, live);
  }

  lemma RemoveStep(fs: Fs, live: set<nat>, name: Name)
    requires Inv(fs, live) && Loaded(fs, ROOT)
    ensures Sound(Remove(fs, name).0)
  {
    hide InvBut, Remove, FileOf, SlotsOf, NameMap, RefCount, Loaded, LiveNow;
    RemoveCorrect(fs, live, name);
    LiveUnique(Remove(fs, name).0, if name in NamesOf(fs) then LiveWithout(fs, live, name) else live);
  }

  // ---- Runs --------------------------------------------------------------

  ghost predicate AllowedRun(fs: Fs, ops: seq<Op>)
    decreases |ops|
  {
    ops == [] || (Allowed(fs, ops[0]) && AllowedRun(Step(fs, ops[0]), ops[1..]))
  }

  ghost function Run(fs: Fs, ops: seq<Op>): Fs
    requires AllowedRun(fs, ops)
    decreases |ops|
  {
    if ops == [] then fs else Run(Step(fs, ops[0]), ops[1..])
  }

  lemma {:induction false} RunSound(fs: Fs, ops: seq<Op>)
    requires Sound(fs) && AllowedRun(fs, ops)
    ensures Sound(Run(fs, ops))
    decreases |ops|
  {
    hide InvBut, Step, Allowed, LiveNow;
    if ops != [] {
      StepSound(fs, ops[0]);
      RunSound(Step(fs, ops[0]), ops[1..]);
    }
  }

  /**
   * Every state any run reaches from a newly made volume is sound; spelled out: the table holds no inode
   * twice, a bit of the free map is set exactly when its block is in use, and no block has two owners.
   */
  lemma EveryRunSound(disk: seq<Block>, ops: seq<Op>)
    requires Made(disk) && Mount(disk).Ok? && AllowedRun(Mount(disk).v, ops)
    ensures var fs := Run(Mount(disk).v, ops); var live := LiveNow(fs);
      && Sound(fs)
      && (forall j, k :: 0 <= j < k < |fs.vnodes| ==> fs.vnodes[j].ino != fs.vnodes[k].ino)
      && (forall b :: 0 <= b < |fs.used| ==>
            (fs.used[b] <==> b < MetaEnd(fs.nblocks) || b >= fs.nblocks || b in live || Owned(fs, live, b)))
      && SlotsOk(fs, live) && Unshared(fs, live)
  {
    hide InvBut, Step, Allowed, LiveNow, Mount, BitBlocks, EncodeInode, WordAt;
    MadeInv(disk);
    LiveUnique(Mount(disk).v, {ROOT});
    RunSound(Mount(disk).v, ops);
    SoundMap(Run(Mount(disk).v, ops));
  }

  lemma SoundMap(fs: Fs)
    requires Sound(fs)
    ensures var live := LiveNow(fs);
      && (forall j, k :: 0 <= j < k < |fs.vnodes| ==> fs.vnodes[j].ino != fs.vnodes[k].ino)
      && (forall b :: 0 <= b < |fs.used| ==>
            (fs.used[b] <==> b < MetaEnd(fs.nblocks) || b >= fs.nblocks || b in live || Owned(fs, live, b)))
      && SlotsOk(fs, live) && Unshared(fs, live)
  {
    hide LiveNow, BitBlocks, Slot, FileOf, SlotsOf, Attrs, Distinct, MapSaved, LiveIs, Clean, SlotsOk, Unshared, Owned;
    var live := LiveNow(fs);
    forall b | 0 <= b < |fs.used|
      ensures fs.used[b] <==> b < MetaEnd(fs.nblocks) || b >= fs.nblocks || b in live || Owned(fs, live, b)
    {
      assert fs.used[b] <==> InUse(fs, live, {}, b);
    }
  }
}
