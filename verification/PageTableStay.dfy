/** What a mapping, and what is in its page, keep over every run of the page table calls. */
module PageTableStay {
  import opened Coremaps
  import opened PageTables
  import opened PageTableInv
  import opened PageTableFree
  import opened PageTableCopy
  import opened PageTablePerms
  import opened PageTableRun
  import R = PageTableRun

  /** The call writes to the page that v of address space r lies in. */
  predicate StoresTo(op: R.Op, r: nat, v: nat) {
    op.Store? && op.r == r && op.v / PAGE_SIZE == v / PAGE_SIZE
  }

  /** The page that v of r lies in is in the same frame, with the same contents if they are to be the same. */
  ghost predicate Stays(vm: Vm, vm': Vm, r: nat, v: nat, same: bool) {
    && Mapped(vm', r, v) == Mapped(vm, r, v)
    && (same && Mapped(vm, r, v).Some? ==> SameWords(vm, Mapped(vm, r, v).v, vm', Mapped(vm, r, v).v))
  }

  lemma KeptStays(vm: Vm, vm': Vm, own: map<nat, Owner>, own': map<nat, Owner>, base: seq<Page>, boot: nat, r: nat,
                  v: nat)
    requires Inv(vm, own, base, boot) && Kept(vm, vm', own, own') && IsRoot(own, r) && TopIndex(v) < ENTRIES
    requires Mapped(vm, r, v).Some?
    ensures Stays(vm, vm', r, v, true)
  {
    hide Inv, Mapped, TopIndex, LowIndex, StateOf;
    MappedKept(vm, vm', own, own', base, boot, r, v);
    MappedLeaf(vm, own, base, boot, r, v);
  }

  lemma MemoryStays(vm: Vm, vm': Vm, r: nat, v: nat)
    requires vm'.mem == vm.mem
    ensures Stays(vm, vm', r, v, true)
  {
    hide Mapped, Word;
    SameMapped(vm, vm', r);
  }

  /** A store to a frame of another page. */
  lemma StoreStays(vm: Vm, own: map<nat, Owner>, base: seq<Page>, boot: nat, r: nat, v: nat, r': nat, v': nat, k: nat,
                   x: nat)
    requires Inv(vm, own, base, boot) && IsRoot(own, r) && IsRoot(own, r') && TopIndex(v) < ENTRIES
    requires TopIndex(v') < ENTRIES
    requires Mapped(vm, r, v).Some? && Mapped(vm, r', v').Some?
    ensures Stays(vm, SetWord(vm, Mapped(vm, r', v').v, k, x), r, v, !(r' == r && v' / PAGE_SIZE == v / PAGE_SIZE))
  {
    hide Inv, Mapped, TopIndex, LowIndex, StateOf, Word, SetWord;
    var f := Mapped(vm, r', v').v;
    StoreOk(vm, own, base, boot, r', v', k, x);
    MappedLeaf(vm, own, base, boot, r', v');
    MappedSame(vm, SetWord(vm, f, k, x), own, base, boot, r, v);
    if !(r' == r && v' / PAGE_SIZE == v / PAGE_SIZE) && Mapped(vm, r, v).v == f {
      NoSharing(vm, own, base, boot, r, v, r', v');
    }
  }

  lemma StaysAgain(vm: Vm, vm1: Vm, vm2: Vm, r: nat, v: nat, same: bool, same': bool)
    requires Stays(vm, vm1, r, v, same) && Stays(vm1, vm2, r, v, same')
    ensures Stays(vm, vm2, r, v, same && same')
  {
    hide Mapped, Word;
  }

  /** Changing permissions moves no page and writes to none. */
  lemma PermsStays(vm: Vm, own: map<nat, Owner>, base: seq<Page>, boot: nat, r': nat, v': nat, create: bool, perms: nat,
                   space: nat, r: nat, v: nat)
    requires Inv(vm, own, base, boot) && IsRoot(own, r') && TopIndex(v') < ENTRIES && Permissions(perms)
    requires SetPerms(vm, r', v', create, perms, space).Some?
    requires IsRoot(own, r) && TopIndex(v) < ENTRIES && Mapped(vm, r, v).Some?
    ensures Stays(vm, SetPerms(vm, r', v', create, perms, space).v.0, r, v, true)
  {
    hide Inv, GetPaddr, OwnPaddr, SetPerms, Mapped, EntryOf, Apart, RootsKept, Kept, PermsOf, Word, TableOf, TopIndex;
    hide LowIndex, StateOf, FrameOf, SetWord, LowEntry, Permissions, SameButOne;
    SetPermsSplit(vm, own, base, boot, r', v', create, perms, space);
    GetPaddrOk(vm, own, base, boot, r', v', create, perms, space);
    var vm1 := GetPaddr(vm, r', v', create, perms, space).v.0;
    var own1 := OwnPaddr(vm, own, r', v', create, perms, space);
    var vm' := SetPerms(vm, r', v', create, perms, space).v.0;
    KeptStays(vm, vm1, own, own1, base, boot, r, v);
    KeptRoot(vm, vm1, own, own1, r);
    if Mapped(vm1, r', v').Some? {
      EntrySet(vm1, own1, base, boot, r', v', perms);
      EntryStays(vm1, vm', own1, base, boot, r', v', Mapped(vm1, r', v').v, perms, r, v);
      StaysAgain(vm, vm1, vm', r, v, true, true);
    }
  }

  lemma KeptRoot(vm: Vm, vm': Vm, own: map<nat, Owner>, own': map<nat, Owner>, r: nat)
    requires Kept(vm, vm', own, own') && IsRoot(own, r)
    ensures IsRoot(own', r)
  {
  }

  /** One entry of a table gets other permissions. */
  lemma EntryStays(vm: Vm, vm': Vm, own: map<nat, Owner>, base: seq<Page>, boot: nat, r': nat, v': nat, f: nat,
                   perms: nat, r: nat, v: nat)
    requires Inv(vm, own, base, boot) && IsRoot(own, r') && TopIndex(v') < ENTRIES && Mapped(vm, r', v') == Some(f)
    requires Permissions(perms)
    requires SameButOne(vm, vm', TableOf(Word(vm, r', TopIndex(v'))), LowIndex(v'))
    requires EntryOf(vm', r', v') == LowEntry(f, perms)
    requires IsRoot(own, r) && TopIndex(v) < ENTRIES && Mapped(vm, r, v).Some?
    ensures Stays(vm, vm', r, v, true)
  {
    hide Inv, Mapped, TopIndex, LowIndex, StateOf, TableOf, PermsOf, FrameOf, EntryOf, LowEntry, Permissions;
    hide SameButOne;
    MappedLeaf(vm, own, base, boot, r, v);
    TableIs(vm, own, base, boot, r', v');
    OtherFrame(vm, vm', TableOf(Word(vm, r', TopIndex(v'))), LowIndex(v'), Mapped(vm, r, v).v);
    if r == r' {
      OneEntry(vm, vm', own, base, boot, r, v', f, perms);
      SamePage(vm, vm', r, v, v', f);
    } else {
      OtherSpace(vm, vm', own, base, boot, r', v', r, v);
    }
  }

  lemma TableIs(vm: Vm, own: map<nat, Owner>, base: seq<Page>, boot: nat, r: nat, v: nat)
    requires Inv(vm, own, base, boot) && IsRoot(own, r) && TopIndex(v) < ENTRIES && Mapped(vm, r, v).Some?
    ensures IsTable(own, TableOf(Word(vm, r, TopIndex(v))), r, TopIndex(v))
  {
    hide Memory, BaseOk, FrameOk, LowOk, TopIndex, LowIndex, TableOf;
    assert TopOk(vm, own, r, TopIndex(v));
  }

  lemma OtherFrame(vm: Vm, vm': Vm, q: nat, j: nat, f: nat)
    requires SameButOne(vm, vm', q, j) && f != q
    ensures SameWords(vm, f, vm', f)
  {
  }

  lemma SamePage(vm: Vm, vm': Vm, r: nat, v: nat, v': nat, f: nat)
    requires OtherPagesSame(vm, vm', r, v') && Mapped(vm, r, v') == Some(f) == Mapped(vm', r, v')
    requires TopIndex(v) < ENTRIES
    ensures Mapped(vm', r, v) == Mapped(vm, r, v)
  {
    if v / PAGE_SIZE == v' / PAGE_SIZE {
      MappedByPage(vm, r, v, v');
      MappedByPage(vm', r, v, v');
    } else {
      assert PageSame(vm, vm', r, v);
    }
  }

  lemma MappedByPage(vm: Vm, r: nat, v: nat, v': nat)
    requires v / PAGE_SIZE == v' / PAGE_SIZE
    ensures Mapped(vm, r, v) == Mapped(vm, r, v')
  {
    hide Word, StateOf, TableOf;
    IndexesByPage(v);
    IndexesByPage(v');
  }

  lemma IndexesByPage(v: nat)
    ensures TopIndex(v) == v / PAGE_SIZE / ENTRIES && LowIndex(v) == v / PAGE_SIZE % ENTRIES
  {
  }

  lemma OtherSpace(vm: Vm, vm': Vm, own: map<nat, Owner>, base: seq<Page>, boot: nat, r': nat, v': nat, r: nat, v: nat)
    requires Inv(vm, own, base, boot) && IsRoot(own, r) && r != r' && TopIndex(v) < ENTRIES && Mapped(vm, r, v).Some?
    requires IsTable(own, TableOf(Word(vm, r', TopIndex(v'))), r', TopIndex(v'))
    requires SameButOne(vm, vm', TableOf(Word(vm, r', TopIndex(v'))), LowIndex(v'))
    ensures Mapped(vm', r, v) == Mapped(vm, r, v)
  {
    hide Inv, TopIndex, LowIndex, StateOf;
    TableIs(vm, own, base, boot, r, v);
  }

  // ---- Runs ---------------------------------------------------------------

  /**
   * Any call but destroying the address space leaves the page where it is; any but a store to it leaves its contents.
   */
  lemma StepStays(s: Sys, op: R.Op, base: seq<Page>, boot: nat, r: nat, v: nat)
    requires Good(s, base, boot) && May(s, op) && Do(s, op).Some?
    requires r in s.roots && TopIndex(v) < ENTRIES && Mapped(s.vm, r, v).Some? && op != Drop(r)
    ensures r in Do(s, op).v.roots && Stays(s.vm, Do(s, op).v.vm, r, v, !StoresTo(op, r, v))
  {
    hide Inv, Create, GetPaddr, OwnPaddr, SetPerms, Copy, Destroy, Mapped, Stays, SetWord, TopIndex, Permissions;
    var own :| OwnedBy(s, own, base, boot);
    var s' := Do(s, op).v;
    match op
    case Make(space) =>
      CreateOk(s.vm, own, base, boot, space);
      var (vm', r') := Create(s.vm, space).v;
      KeptStays(s.vm, vm', own, own[r' := Owner(r', Root)], base, boot, r, v);
    case Fault(r', v', perms, space) => LookStays(s.vm, own, base, boot, r', v', true, perms, space, r, v);
    case Look(r', v') =>
      assert Permissions(0) by { NoPermissions(); }
      LookStays(s.vm, own, base, boot, r', v', false, 0, 0, r, v);
    case Perms(r', v', create, perms, space) => PermsStays(s.vm, own, base, boot, r', v', create, perms, space, r, v);
    case Store(r', v', k, x) => StoreStays(s.vm, own, base, boot, r, v, r', v', k, x);
    case Fork(src, dst, regions, space) => ForkStays(s.vm, own, base, boot, src, dst, regions, space, r, v);
    case Drop(r') =>
      DestroyInv(s.vm, own, base, boot, r');
      MemoryStays(s.vm, Destroy(s.vm, r'), r, v);
  }

  lemma NoPermissions()
    ensures Permissions(0)
  {
  }

  lemma LookStays(vm: Vm, own: map<nat, Owner>, base: seq<Page>, boot: nat, r': nat, v': nat, create: bool, perms: nat,
                  space: nat, r: nat, v: nat)
    requires Inv(vm, own, base, boot) && IsRoot(own, r') && TopIndex(v') < ENTRIES && Permissions(perms)
    requires GetPaddr(vm, r', v', create, perms, space).Some?
    requires IsRoot(own, r) && TopIndex(v) < ENTRIES && Mapped(vm, r, v).Some?
    ensures Stays(vm, GetPaddr(vm, r', v', create, perms, space).v.0, r, v, true)
  {
    hide Inv, GetPaddr, OwnPaddr, Mapped, Stays, TopIndex;
    GetPaddrOk(vm, own, base, boot, r', v', create, perms, space);
    var vm' := GetPaddr(vm, r', v', create, perms, space).v.0;
    KeptStays(vm, vm', own, OwnPaddr(vm, own, r', v', create, perms, space), base, boot, r, v);
  }

  lemma ForkStays(vm: Vm, own: map<nat, Owner>, base: seq<Page>, boot: nat, src: nat, dst: nat, regions: seq<Region>,
                  space: nat, r: nat, v: nat)
    requires Inv(vm, own, base, boot) && IsRoot(own, src) && IsRoot(own, dst) && src != dst
    requires (forall n :: 0 <= n < PAGES ==> Mapped(vm, dst, n * PAGE_SIZE).None?)
    requires Copy(vm, src, dst, regions, space).Some?
    requires IsRoot(own, r) && TopIndex(v) < ENTRIES && Mapped(vm, r, v).Some?
    ensures Stays(vm, Copy(vm, src, dst, regions, space).v, r, v, true)
  {
    hide Inv, Copy, Mapped, Stays, TopIndex;
    CopyIsolates(vm, own, base, boot, src, dst, regions, space);
    var vm' := Copy(vm, src, dst, regions, space).v;
    var own' :| CopyResult(vm, vm', own, own', base, boot, src, dst, regions);
    KeptStays(vm, vm', own, own', base, boot, r, v);
  }

  predicate NoStores(ops: seq<R.Op>, r: nat, v: nat) {
    forall i :: 0 <= i < |ops| ==> !StoresTo(ops[i], r, v)
  }

  /**
   * A page once mapped stays in its frame until its address space is destroyed, whatever is done meanwhile to
   * it or to any other; and until a store to it, so do its contents.
   */
  lemma {:induction false} RunStays(s: Sys, ops: seq<R.Op>, base: seq<Page>, boot: nat, r: nat, v: nat)
    requires Good(s, base, boot) && R.Runs(s, ops) && R.After(s, ops).Some?
    requires r in s.roots && TopIndex(v) < ENTRIES && Mapped(s.vm, r, v).Some? && Drop(r) !in ops
    ensures var s' := R.After(s, ops).v; r in s'.roots && Stays(s.vm, s'.vm, r, v, NoStores(ops, r, v))
    decreases |ops|
  {
    hide Good, May, Do, Mapped, TopIndex, Word;
    if ops == [] {
    } else {
      StepGood(s, ops[0], base, boot);
      StepStays(s, ops[0], base, boot, r, v);
      var s1 := Do(s, ops[0]).v;
      assert Drop(r) !in ops[1..];
      RunStays(s1, ops[1..], base, boot, r, v);
      var s' := R.After(s, ops).v;
      StaysAgain(s.vm, s1.vm, s'.vm, r, v, !StoresTo(ops[0], r, v), NoStores(ops[1..], r, v));
      assert NoStores(ops, r, v) ==> NoStores(ops[1..], r, v) && !StoresTo(ops[0], r, v);
    }
  }

  /** The page that v of r lies in, if it is mapped after k calls, is where it was, until r is destroyed. */
  ghost predicate HeldSince(s: Sys, ops: seq<R.Op>, k: nat, r: nat, v: nat)
    requires k <= |ops|
  {
    var s1, s2 := R.After(s, ops[..k]), R.After(s, ops);
    && s1.Some? && s2.Some? && r in s1.v.roots && TopIndex(v) < ENTRIES && Mapped(s1.v.vm, r, v).Some?
    && Drop(r) !in ops[k..] ==>
      r in s2.v.roots && Stays(s1.v.vm, s2.v.vm, r, v, NoStores(ops[k..], r, v))
  }

  lemma {:induction false} RunSplit(s: Sys, ops: seq<R.Op>, k: nat)
    requires R.Runs(s, ops) && k <= |ops| && R.After(s, ops[..k]).Some?
    ensures R.Runs(s, ops[..k]) && R.Runs(R.After(s, ops[..k]).v, ops[k..])
    ensures R.After(R.After(s, ops[..k]).v, ops[k..]) == R.After(s, ops)
    decreases k
  {
    hide May, Do;
    if k == 0 {
      assert ops[..k] == [] && ops[k..] == ops;
    } else {
      assert ops[..k][1..] == ops[1..][..k - 1] && ops[1..][k - 1..] == ops[k..];
      RunSplit(Do(s, ops[0]).v, ops[1..], k - 1);
    }
  }

  lemma HeldAll(s: Sys, ops: seq<R.Op>, base: seq<Page>, boot: nat, k: nat, r: nat, v: nat)
    requires Good(s, base, boot) && R.Runs(s, ops) && k <= |ops|
    ensures HeldSince(s, ops, k, r, v)
  {
    hide Good, Mapped, TopIndex, Stays, NoStores, R.Runs, R.After;
    if R.After(s, ops[..k]).Some? {
      RunSplit(s, ops, k);
      var s1 := R.After(s, ops[..k]).v;
      RunGood(s, ops[..k], base, boot);
      if R.After(s, ops).Some? && r in s1.roots && TopIndex(v) < ENTRIES {
        if Mapped(s1.vm, r, v).Some? && Drop(r) !in ops[k..] {
          RunStays(s1, ops[k..], base, boot, r, v);
        }
      }
    }
  }

  /**
   * Any run of creating, faulting, looking up, changing permissions, storing, copying and destroying, from a
   * state with no address space: no frame is shared, no entry is swapped, a page mapped at any point stays in
   * its frame until its address space is destroyed and keeps its contents until it is stored to, and once
   * every address space is gone the coremap is, page for page, what it was.
   */
  lemma EveryRunSound(vm: Vm, ops: seq<R.Op>, boot: nat)
    requires Memory(vm, boot) && R.Runs(Sys(vm, {}), ops) && R.After(Sys(vm, {}), ops).Some?
    ensures var s' := R.After(Sys(vm, {}), ops).v;
      && NoTwo(s') && NoSwap(s') && (s'.roots == {} ==> s'.vm.cm.pages == vm.cm.pages)
      && (forall k: nat, r: nat, v: nat :: k <= |ops| ==> HeldSince(Sys(vm, {}), ops, k, r, v))
  {
    var s := Sys(vm, {});
    assert OwnedBy(s, map[], vm.cm.pages, boot);
    hide R.Runs, R.After, HeldSince, Inv;
    RunGood(s, ops, vm.cm.pages, boot);
    var s' := R.After(s, ops).v;
    var own :| OwnedBy(s', own, vm.cm.pages, boot);
    GoodFacts(s', own, vm.cm.pages, boot);
    forall k: nat, r: nat, v: nat | k <= |ops|
      ensures HeldSince(s, ops, k, r, v)
    {
      HeldAll(s, ops, vm.cm.pages, boot, k, r, v);
    }
  }
}
