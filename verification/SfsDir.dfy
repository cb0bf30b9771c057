/** The directory: slots in the root directory's file, and the finite map from names to inodes they stand for. */
module SfsDir {
  import opened Words
  import opened SfsLayout
  import opened SfsState
  import opened SfsBmap
  import opened SfsIo

  /** Most slots a directory can have. */
  const MAXSLOTS: nat := 1144

  // ---- Slots -------------------------------------------------------------

  predicate DirFile(f: File) {
    |f.bytes| == MAXBYTES && f.size % DIRSIZE == 0 && f.size <= MAXBYTES
  }

  function SlotBytes(s: seq<byte>, k: nat): (r: seq<byte>)
    requires |s| == MAXBYTES && k < MAXSLOTS
    ensures |r| == DIRSIZE
  {
    s[DIRSIZE * k..DIRSIZE * k + DIRSIZE]
  }

  function DirSlots(f: File): (es: seq<Entry>)
    requires DirFile(f)
    ensures |es| == f.size / DIRSIZE <= MAXSLOTS
  {
    seq(f.size / DIRSIZE, k requires 0 <= k < f.size / DIRSIZE => DecodeEntry(SlotBytes(f.bytes, k)))
  }

  /** Where a search of the first n slots stands: the match, and the last free slot seen, or -1. */
  datatype Hit = Hit(found: bool, slot: int, ino: u32, empty: int)

  function Search(es: seq<Entry>, name: Name, n: nat): (h: Hit)
    requires n <= |es|
    ensures -1 <= h.empty < n && -1 <= h.slot < n && (h.found ==> h.slot >= 0)
  {
    if n == 0 then Hit(false, -1, 0, -1)
    else
      var h := Search(es, name, n - 1);
      var e := es[n - 1];
      if e.ino == NOINO then h.(empty := n - 1)
      else if e.name == name then h.(found := true, slot := n - 1, ino := e.ino)
      else h
  }

  /** Each name stands in one slot only. */
  ghost predicate Distinct(es: seq<Entry>) {
    forall a, b :: 0 <= a < b < |es| && es[a].ino != NOINO && es[b].ino != NOINO ==> es[a].name != es[b].name
  }

  ghost predicate Names(es: seq<Entry>, name: Name, k: int) {
    0 <= k < |es| && es[k].ino != NOINO && es[k].name == name
  }

  lemma {:induction false} SearchCorrect(es: seq<Entry>, name: Name, n: nat)
    requires n <= |es| && Distinct(es)
    ensures var h := Search(es, name, n);
      && (h.found ==> 0 <= h.slot < n && Names(es, name, h.slot) && h.ino == es[h.slot].ino)
      && (forall k :: 0 <= k < n && Names(es, name, k) ==> h.found && h.slot == k)
      && -1 <= h.empty < n
      && (h.empty >= 0 ==> es[h.empty].ino == NOINO)
      && (forall k :: h.empty < k < n ==> es[k].ino != NOINO)
  {
    if n > 0 {
      SearchCorrect(es, name, n - 1);
    }
  }

  // ---- Counting links ----------------------------------------------------

  function Count(es: seq<Entry>, i: nat): (c: nat)
    ensures c <= |es|
    ensures c > 0 ==> exists k :: 0 <= k < |es| && es[k].ino == i
  {
    if es == [] then 0 else
      var c := Count(es[1..], i);
      assert c > 0 ==> exists k :: 0 <= k < |es[1..]| && es[1..][k].ino == i && es[k + 1].ino == i;
      if es[0].ino == i then 1 + c else c
  }

  lemma {:induction false} CountSome(es: seq<Entry>, i: nat, k: nat)
    requires k < |es| && es[k].ino == i
    ensures Count(es, i) > 0
  {
    if k > 0 {
      CountSome(es[1..], i, k - 1);
    }
  }

  lemma {:induction false} CountUpdate(es: seq<Entry>, k: nat, e: Entry, i: nat)
    requires k < |es|
    ensures Count(es[k := e], i) ==
      Count(es, i) + (if e.ino == i then 1 else 0) - (if es[k].ino == i then 1 else 0)
  {
    if k == 0 {
      assert es[k := e][1..] == es[1..];
    } else {
      assert es[k := e][1..] == es[1..][k - 1 := e];
      CountUpdate(es[1..], k - 1, e, i);
    }
  }

  lemma {:induction false} CountAppend(es: seq<Entry>, e: Entry, i: nat)
    ensures Count(es + [e], i) == Count(es, i) + if e.ino == i then 1 else 0
  {
    if es == [] {
      assert es + [e] == [e];
      assert [e][1..] == [];
    } else {
      assert (es + [e])[1..] == es[1..] + [e];
      CountAppend(es[1..], e, i);
    }
  }

  /** The slots after an entry is put at position k, at most one past the end. */
  function PutSlot(es: seq<Entry>, k: nat, e: Entry): (r: seq<Entry>)
    requires k <= |es|
    ensures |r| == if k < |es| then |es| else |es| + 1
    ensures forall j :: 0 <= j < |r| ==> r[j] == if j == k then e else es[j]
  {
    if k < |es| then es[k := e] else es + [e]
  }

  lemma CountPut(es: seq<Entry>, k: nat, e: Entry, i: nat)
    requires k <= |es|
    ensures Count(PutSlot(es, k, e), i) ==
      Count(es, i) + (if e.ino == i then 1 else 0) - (if k < |es| && es[k].ino == i then 1 else 0)
  {
    if k < |es| {
      CountUpdate(es, k, e, i);
    } else {
      CountAppend(es, e, i);
    }
  }

  // ---- The map the slots stand for ---------------------------------------

  ghost function NameSet(es: seq<Entry>): set<Name> {
    set k | 0 <= k < |es| && es[k].ino != NOINO :: es[k].name
  }

  ghost function NameMap(es: seq<Entry>): map<Name, nat> {
    map name | name in NameSet(es) :: Search(es, name, |es|).ino as nat
  }

  lemma NameMapAt(es: seq<Entry>, name: Name)
    requires Distinct(es)
    ensures var h := Search(es, name, |es|); var m := NameMap(es);
      && (name in m <==> h.found)
      && (h.found ==> m[name] == h.ino && m[name] != NOINO)
      && (forall k :: Names(es, name, k) ==> name in m && m[name] == es[k].ino)
  {
    SearchCorrect(es, name, |es|);
    var h := Search(es, name, |es|);
    if h.found {
      assert es[h.slot].name in NameSet(es);
    }
    if name in NameSet(es) {
      var k :| 0 <= k < |es| && es[k].ino != NOINO && es[k].name == name;
      assert Names(es, name, k);
    }
  }

  /** Filling a free slot with a new name adds it to the map. */
  lemma LinkNames(es: seq<Entry>, k: nat, name: Name, ino: u32)
    requires Distinct(es) && k <= |es| && (k < |es| ==> es[k].ino == NOINO)
    requires name !in NameMap(es) && ino != NOINO
    ensures var es' := PutSlot(es, k, Entry(ino, name));
      Distinct(es') && NameMap(es') == NameMap(es)[name := ino]
  {
    hide Search;
    var es' := PutSlot(es, k, Entry(ino, name));
    forall nm: Name { NameMapAt(es, nm); }
    forall a, b | 0 <= a < b < |es'| && es'[a].ino != NOINO && es'[b].ino != NOINO
      ensures es'[a].name != es'[b].name
    {
      if a == k {
        assert Names(es, es'[b].name, b);
      } else if b == k {
        assert Names(es, es'[a].name, a);
      }
    }
    forall nm: Name
      ensures nm in NameMap(es') <==> nm in NameMap(es) || nm == name
      ensures nm in NameMap(es') ==> NameMap(es')[nm] == if nm == name then ino else NameMap(es)[nm]
    {
      NameMapAt(es', nm);
      LinkName(es, k, name, ino, nm);
    }
  }

  lemma LinkName(es: seq<Entry>, k: nat, name: Name, ino: u32, nm: Name)
    requires Distinct(es) && k <= |es| && (k < |es| ==> es[k].ino == NOINO)
    requires name !in NameMap(es) && ino != NOINO && Distinct(PutSlot(es, k, Entry(ino, name)))
    ensures var m := NameMap(PutSlot(es, k, Entry(ino, name)));
      && (nm in m <==> nm in NameMap(es) || nm == name)
      && (nm in m ==> m[nm] == if nm == name then ino as nat else NameMap(es)[nm])
  {
    var es' := PutSlot(es, k, Entry(ino, name));
    NameMapAt(es, nm);
    NameMapAt(es', nm);
    SearchCorrect(es, nm, |es|);
    SearchCorrect(es', nm, |es'|);
    var h := Search(es, nm, |es|);
    var h' := Search(es', nm, |es'|);
    hide Search, NameMap;
    if nm == name {
      assert Names(es', nm, k);
    } else {
      if h.found { assert Names(es', nm, h.slot); }
      if h'.found { assert Names(es, nm, h'.slot); }
    }
  }

  /** Clearing the slot of a name removes it from the map. */
  lemma UnlinkNames(es: seq<Entry>, k: nat, name: Name)
    requires Distinct(es) && Names(es, name, k)
    ensures var es' := PutSlot(es, k, Entry(NOINO, []));
      Distinct(es') && NameMap(es') == NameMap(es) - {name}
  {
    hide Search;
    var es' := PutSlot(es, k, Entry(NOINO, []));
    forall nm: Name
      ensures nm in NameMap(es') <==> nm in NameMap(es) && nm != name
      ensures nm in NameMap(es') ==> NameMap(es')[nm] == NameMap(es)[nm]
    {
      UnlinkName(es, k, name, nm);
    }
  }

  lemma UnlinkName(es: seq<Entry>, k: nat, name: Name, nm: Name)
    requires Distinct(es) && Names(es, name, k)
    ensures var m := NameMap(PutSlot(es, k, Entry(NOINO, [])));
      && (nm in m <==> nm in NameMap(es) && nm != name)
      && (nm in m ==> m[nm] == NameMap(es)[nm])
  {
    var es' := PutSlot(es, k, Entry(NOINO, []));
    NameMapAt(es, nm);
    NameMapAt(es', nm);
    SearchCorrect(es, nm, |es|);
    SearchCorrect(es', nm, |es'|);
    var h := Search(es, nm, |es|);
    var h' := Search(es', nm, |es'|);
    hide Search, NameMap;
    if h.found && nm != name { assert Names(es', nm, h.slot); }
    if h'.found { assert Names(es, nm, h'.slot); }
  }

  // ---- Reading and writing slots -----------------------------------------

  function WriteSlot(fs: Fs, k: nat, ino: u32, name: Name): Written
    requires k <= MAXSLOTS && |name| < NAMELEN
  {
    WriteIo(fs, ROOT, DIRSIZE * k, EncodeEntry(ino, name))
  }

  /** Reading slot k of a directory gives the whole entry: the end of the file is never inside one. */
  lemma ReadSlotCorrect(fs: Fs, live: set<nat>, k: nat)
    requires Store(fs, live, {}) && Loaded(fs, ROOT) && DirFile(FileOf(fs, ROOT))
    requires k < |DirSlots(FileOf(fs, ROOT))|
    ensures var g := ReadIo(fs, ROOT, DIRSIZE * k, DIRSIZE);
      g.r.Ok? && |g.bytes| == DIRSIZE && DecodeEntry(g.bytes) == DirSlots(FileOf(fs, ROOT))[k]
  {
    assert ROOT in live;
    hide Store, FileOf, ReadIo, DecodeEntry, Loaded;
    ReadCorrect(fs, live, ROOT, DIRSIZE * k, DIRSIZE);
  }

  lemma SlotPatched(s: seq<byte>, k: nat, raw: seq<byte>, j: nat)
    requires |s| == MAXBYTES && k < MAXSLOTS && j < MAXSLOTS && |raw| == DIRSIZE
    ensures SlotBytes(Patch(s, DIRSIZE * k, raw), j) == if j == k then raw else SlotBytes(s, j)
  {
    var p := Patch(s, DIRSIZE * k, raw);
    forall o: nat | o < DIRSIZE
      ensures SlotBytes(p, j)[o] == if j == k then raw[o] else SlotBytes(s, j)[o]
    {
      PatchAt(s, DIRSIZE * k, raw, DIRSIZE * j + o);
      hide Patch;
      assert SlotBytes(p, j)[o] == p[DIRSIZE * j + o];
      assert SlotBytes(s, j)[o] == s[DIRSIZE * j + o];
    }
  }

  /** A write inside one block is one partial write: all of it or none. */
  lemma SmallWrite(fs: Fs, i: nat, off: nat, d: seq<byte>)
    requires d != [] && off % BLOCKSIZE + |d| <= BLOCKSIZE && |d| < BLOCKSIZE
    ensures var (fs', r) := PartialWrite(fs, i, off, d);
      WriteRegion(fs, i, off, d) == Written(fs', r, if r.Ok? then |d| else 0)
  {
    hide PartialWrite;
    var (fs', r) := PartialWrite(fs, i, off, d);
    assert r.Ok? ==> r.v == ();
    assert d[..|d|] == d && d[0..] == d;
    if off % BLOCKSIZE == 0 {
      assert |d| / BLOCKSIZE == 0;
      assert WriteBlocks(fs, i, off, d, 0) == Written(fs, Ok(()), 0);
    }
  }

  /** Putting an entry in slot k of a directory file, at most one past its last. */
  lemma DirOverlay(f: File, k: nat, ino: u32, name: Name)
    requires DirFile(f) && k <= |DirSlots(f)| && k < MAXSLOTS && |name| < NAMELEN
    ensures var g := Overlay(f, DIRSIZE * k, EncodeEntry(ino, name));
      && DirFile(g) && g.kind == f.kind && g.links == f.links
      && DirSlots(g) == PutSlot(DirSlots(f), k, Entry(ino, name))
  {
    var raw := EncodeEntry(ino, name);
    var g := Overlay(f, DIRSIZE * k, raw);
    var es := DirSlots(f);
    EntryRoundTrip(ino, name);
    hide EncodeEntry, DecodeEntry, Patch, SlotBytes;
    assert DirFile(g);
    assert |DirSlots(g)| == |PutSlot(es, k, Entry(ino, name))|;
    forall j: nat | j < |DirSlots(g)|
      ensures DirSlots(g)[j] == PutSlot(es, k, Entry(ino, name))[j]
    {
      SlotPatched(f.bytes, k, raw, j);
    }
  }

  lemma NothingWritten(f: File, off: nat)
    requires |f.bytes| == MAXBYTES && off <= f.size && off < 0x8000_0000
    ensures Overlay(f, off, []) == f
  {
  }

  /** A slot in use lies in a block the directory has. */
  lemma UsedSlotMapped(fs: Fs, k: nat)
    requires DirFile(FileOf(fs, ROOT)) && k < |DirSlots(FileOf(fs, ROOT))| && DirSlots(FileOf(fs, ROOT))[k].ino != NOINO
    ensures Slot(fs, ROOT, DIRSIZE * k / BLOCKSIZE) != 0
  {
    hide Slot, CStr, ReadBlock;
    var raw := SlotBytes(FileOf(fs, ROOT).bytes, k);
    assert DirSlots(FileOf(fs, ROOT))[k] == DecodeEntry(raw);
    assert exists o :: 0 <= o < 4 && raw[o] != 0 by {
      if raw[0] == 0 && raw[1] == 0 && raw[2] == 0 {
        assert raw[3] != 0;
      }
    }
    var o :| 0 <= o < 4 && raw[o] != 0;
    assert raw[o] == ByteAt(fs, ROOT, DIRSIZE * k + o);
    assert (DIRSIZE * k + o) / BLOCKSIZE == DIRSIZE * k / BLOCKSIZE;
  }

  ghost predicate SlotWritten(fs: Fs, w: Written, live: set<nat>, k: nat, ino: u32, name: Name)
    requires DirFile(FileOf(fs, ROOT)) && k <= |DirSlots(FileOf(fs, ROOT))|
  {
    var f := FileOf(fs, ROOT);
    var g := FileOf(w.fs, ROOT);
    && Store(w.fs, live, {})
    && Frame(fs, w.fs, live, ROOT)
    && (w.r.Err? ==> g == f)
    && (w.r.Ok? ==>
          && DirFile(g) && g.kind == f.kind && g.links == f.links
          && DirSlots(g) == PutSlot(DirSlots(f), k, Entry(ino, name)))
  }

  lemma WriteSlotDone(fs: Fs, live: set<nat>, k: nat, ino: u32, name: Name)
    requires Store(fs, live, {}) && Loaded(fs, ROOT) && DirFile(FileOf(fs, ROOT))
    requires k <= |DirSlots(FileOf(fs, ROOT))| && |name| < NAMELEN
    ensures var w := WriteSlot(fs, k, ino, name); var es := DirSlots(FileOf(fs, ROOT));
      && w.done == (if w.r.Ok? then DIRSIZE else 0)
      && (k < |es| && es[k].ino != NOINO ==> w.r.Ok?)
      && (w.r.Ok? ==> k < MAXSLOTS)
      && (w.r.Err? ==> w.r.e == if k == MAXSLOTS then EINVAL else ENOSPC)
  {
    assert ROOT in live;
    hide Store, FileOf, PartialWrite, EncodeEntry, DecodeEntry, Loaded, WriteRegion, Wrote, Slot, DirSlots, Full;
    var d := EncodeEntry(ino, name);
    var off := DIRSIZE * k;
    SmallWrite(fs, ROOT, off, d);
    PartialPost(fs, live, ROOT, off, d);
    WriteDone(fs, ROOT, off, d);
    if k < |DirSlots(FileOf(fs, ROOT))| && DirSlots(FileOf(fs, ROOT))[k].ino != NOINO {
      UsedSlotMapped(fs, k);
    }
  }

  /** Writing a slot replaces exactly that entry, or fails and changes nothing; on a slot in use it cannot fail. */
  lemma WriteSlotCorrect(fs: Fs, live: set<nat>, k: nat, ino: u32, name: Name)
    requires Store(fs, live, {}) && Loaded(fs, ROOT) && DirFile(FileOf(fs, ROOT))
    requires k <= |DirSlots(FileOf(fs, ROOT))| && |name| < NAMELEN
    ensures var w := WriteSlot(fs, k, ino, name); var es := DirSlots(FileOf(fs, ROOT));
      && SlotWritten(fs, w, live, k, ino, name)
      && (k < |es| && es[k].ino != NOINO ==> w.r.Ok?)
      && (w.r.Ok? ==> k < MAXSLOTS)
      && (w.r.Err? ==> if k == MAXSLOTS then w.r.e == EINVAL else w.r.e == ENOSPC && Full(w.fs))
  {
    assert ROOT in live;
    hide Store, FileOf, EncodeEntry, Loaded, WriteIo, Frame, Overlay, Files, Full;
    WriteSlotDone(fs, live, k, ino, name);
    var d := EncodeEntry(ino, name);
    var off := DIRSIZE * k;
    var w := WriteSlot(fs, k, ino, name);
    WriteCorrect(fs, live, ROOT, off, d);
    if w.r.Ok? {
      assert d[..w.done] == d;
      DirOverlay(FileOf(fs, ROOT), k, ino, name);
    } else {
      assert d[..w.done] == [];
      NothingWritten(FileOf(fs, ROOT), off);
    }
  }

  lemma WriteDone(fs: Fs, i: nat, off: nat, d: seq<byte>)
    requires off + |d| < 0x8000_0000
    ensures var w := WriteIo(fs, i, off, d); var v := WriteRegion(fs, i, off, d); w.done == v.done && w.r == v.r
  {
  }
}
