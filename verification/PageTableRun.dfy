/** Every run of the page table calls. */
module PageTableRun {
  import opened Coremaps
  import opened PageTables
  import opened PageTableInv
  import opened PageTableFree
  import opened PageTableCopy
  import opened PageTablePerms

  // ---- Permissions --------------------------------------------------------

  ghost predicate SameButOne(vm: Vm, vm': Vm, q: nat, j: nat) {
    forall x: nat, y: nat :: !(x == q && y == j) ==> Word(vm', x, y) == Word(vm, x, y)
  }

  /** Changing the permissions of an entry changes no mapping. */
  lemma ReLabel(vm: Vm, own: map<nat, Owner>, base: seq<Page>, boot: nat, r: nat, i: nat, q: nat, j: nat, perms: nat)
    requires Inv(vm, own, base, boot) && IsTable(own, q, r, i) && j < ENTRIES && StateOf(Word(vm, q, j)) == InMem
    requires Permissions(perms)
    ensures var value := Word(vm, q, j); Inv(SetWord(vm, q, j, value - PermsOf(value) + perms), own, base, boot)
  {
    hide TopOk;
    var value := Word(vm, q, j);
    ReLabelled(vm, own, base, boot, r, i, q, j, perms);
    hide Inv, Word, SetWord, StateOf, PermsOf, FrameOf;
    ReLabelInv(vm, SetWord(vm, q, j, value - PermsOf(value) + perms), own, base, boot, q, j, FrameOf(value), perms);
  }

  lemma ReLabelled(vm: Vm, own: map<nat, Owner>, base: seq<Page>, boot: nat, r: nat, i: nat, q: nat, j: nat, perms: nat)
    requires Inv(vm, own, base, boot) && IsTable(own, q, r, i) && j < ENTRIES && StateOf(Word(vm, q, j)) == InMem
    ensures var value := Word(vm, q, j); var vm' := SetWord(vm, q, j, value - PermsOf(value) + perms);
      && SameButOne(vm, vm', q, j) && Memory(vm', boot) && Word(vm', q, j) == LowEntry(FrameOf(value), perms)
      && vm'.cm == vm.cm
  {
    hide TopOk, Ok;
    assert LowOk(vm, own, q, j) && FrameOk(vm, own, q);
    LowEntryAgain(Word(vm, q, j), perms);
  }

  lemma ReLabelInv(vm: Vm, vm': Vm, own: map<nat, Owner>, base: seq<Page>, boot: nat, q: nat, j: nat, f: nat,
                   perms: nat)
    requires Inv(vm, own, base, boot) && q in own && own[q].part.Table? && SameButOne(vm, vm', q, j)
    requires Permissions(perms) && j < ENTRIES
    requires StateOf(Word(vm, q, j)) == InMem && FrameOf(Word(vm, q, j)) == f && Word(vm', q, j) == LowEntry(f, perms)
    requires Memory(vm', boot) && vm'.cm == vm.cm
    ensures Inv(vm', own, base, boot)
  {
    hide FrameOk, TopOk, LowOk, Word, StateOf, FrameOf, Permissions, Memory, SameButOne;
    ReLabelTables(vm, vm', own, base, boot, q, j, f, perms);
    forall g | g in own
      ensures FrameOk(vm', own, g)
    {
      ReLabelFrame(vm, vm', own, q, j, f, perms, g);
    }
  }

  lemma LowEntryAgain(value: nat, perms: nat)
    requires StateOf(value) == Vacant || value == LowEntry(FrameOf(value), PermsOf(value))
    ensures StateOf(value) == InMem ==> value - PermsOf(value) + perms == LowEntry(FrameOf(value), perms)
  {
  }

  lemma ReLabelTables(vm: Vm, vm': Vm, own: map<nat, Owner>, base: seq<Page>, boot: nat, q: nat, j: nat, f: nat,
                      perms: nat)
    requires Inv(vm, own, base, boot) && q in own && own[q].part.Table? && SameButOne(vm, vm', q, j)
    requires Permissions(perms) && j < ENTRIES
    requires StateOf(Word(vm, q, j)) == InMem && FrameOf(Word(vm, q, j)) == f && Word(vm', q, j) == LowEntry(f, perms)
    ensures forall t, k :: IsRoot(own, t) && 0 <= k < ENTRIES ==> TopOk(vm', own, t, k)
    ensures forall t, k :: t in own && own[t].part.Table? && 0 <= k < ENTRIES ==> LowOk(vm', own, t, k)
  {
    hide Memory, BaseOk, FrameOk;
    EntryFacts(f, perms);
    assert LowOk(vm, own, q, j);
    forall t, k | IsRoot(own, t) && 0 <= k < ENTRIES
      ensures TopOk(vm', own, t, k)
    {
      assert TopOk(vm, own, t, k) && Word(vm', t, k) == Word(vm, t, k);
    }
    forall t, k | t in own && own[t].part.Table? && 0 <= k < ENTRIES
      ensures LowOk(vm', own, t, k)
    {
      assert LowOk(vm, own, t, k);
    }
  }

  lemma ReLabelFrame(vm: Vm, vm': Vm, own: map<nat, Owner>, q: nat, j: nat, f: nat, perms: nat, g: nat)
    requires g in own && FrameOk(vm, own, g) && q in own && own[q].part.Table? && vm'.cm == vm.cm && Permissions(perms)
    requires SameButOne(vm, vm', q, j)
    requires StateOf(Word(vm, q, j)) == InMem && FrameOf(Word(vm, q, j)) == f && Word(vm', q, j) == LowEntry(f, perms)
    ensures FrameOk(vm', own, g)
  {
    EntryFacts(f, perms);
    hide StateOf, FrameOf, TableOf;
    var t := own[g].root;
    match own[g].part
    case Root =>
    case Table(i) => assert t != q;
    case Leaf(i, k) => assert t != q;
  }

  lemma SetPermsOk(vm: Vm, own: map<nat, Owner>, base: seq<Page>, boot: nat, r: nat, v: nat, create: bool, perms: nat,
                   space: nat)
    requires Inv(vm, own, base, boot) && IsRoot(own, r) && TopIndex(v) < ENTRIES && Permissions(perms)
    requires SetPerms(vm, r, v, create, perms, space).Some?
    ensures Inv(SetPerms(vm, r, v, create, perms, space).v.0, OwnPaddr(vm, own, r, v, create, perms, space), base, boot)
    ensures RootsKept(own, OwnPaddr(vm, own, r, v, create, perms, space))
  {
    hide Inv, GetTable, GetPage, OwnTable, OwnPage, StateOf, PermsOf, Word, Kept, Apart, TopIndex, Permissions;
    GetTableOk(vm, own, base, boot, r, v, create, perms, space);
    var (vm1, t) := GetTable(vm, r, v, create, perms, space).v;
    var own1 := OwnTable(vm, own, r, v, create, perms, space);
    if t.Some? {
      GetPageOk(vm1, own1, base, boot, r, TopIndex(v), t.v, LowIndex(v), create, v, space);
      var (vm2, dst) := GetPage(vm1, t.v, LowIndex(v), create, v, space).v;
      var own2 := OwnPage(vm1, own1, t.v, LowIndex(v), create, v, space);
      if StateOf(Word(vm2, t.v, LowIndex(v))) == InMem {
        ReLabel(vm2, own2, base, boot, r, TopIndex(v), t.v, LowIndex(v), perms);
      }
    }
  }

  /** Every page but that of v is mapped as before, by the same entry. */
  ghost predicate OtherPagesSame(vm: Vm, vm': Vm, r: nat, v: nat) {
    forall v' :: 0 <= v' && TopIndex(v') < ENTRIES && v' / PAGE_SIZE != v / PAGE_SIZE ==> PageSame(vm, vm', r, v')
  }

  ghost predicate PageSame(vm: Vm, vm': Vm, r: nat, v: nat) {
    Mapped(vm', r, v) == Mapped(vm, r, v) && (Mapped(vm, r, v).Some? ==> EntryOf(vm', r, v) == EntryOf(vm, r, v))
  }

  /** A lookup of an address that is mapped, or without create, changes nothing. */
  lemma LookChanges(vm: Vm, own: map<nat, Owner>, base: seq<Page>, boot: nat, r: nat, v: nat, create: bool, perms: nat,
                    space: nat)
    requires Inv(vm, own, base, boot) && IsRoot(own, r) && TopIndex(v) < ENTRIES
    requires GetPaddr(vm, r, v, create, perms, space).Some?
    requires !create || Mapped(vm, r, v).Some?
    ensures GetPaddr(vm, r, v, create, perms, space).v.0 == vm
  {
    hide Inv, TopIndex, LowIndex, StateOf, TableOf;
    NeverSwapped(vm, own, base, boot, r, v);
  }

  lemma LookKeepsOthers(vm: Vm, own: map<nat, Owner>, base: seq<Page>, boot: nat, r: nat, v: nat, create: bool,
                        perms: nat, space: nat)
    requires Inv(vm, own, base, boot) && IsRoot(own, r) && TopIndex(v) < ENTRIES && Permissions(perms)
    requires GetPaddr(vm, r, v, create, perms, space).Some?
    ensures OtherPagesSame(vm, GetPaddr(vm, r, v, create, perms, space).v.0, r, v)
  {
    hide Inv, GetPaddr, OwnPaddr, TopIndex, LowIndex, Mapped, StateOf, Apart, RootsKept, EntryOf, Kept, Word, TableOf;
    if !create || Mapped(vm, r, v).Some? {
      LookChanges(vm, own, base, boot, r, v, create, perms, space);
    } else {
      GetPaddrOk(vm, own, base, boot, r, v, true, perms, space);
      FaultMaps(vm, own, base, boot, r, v, perms, space);
      var vm' := GetPaddr(vm, r, v, true, perms, space).v.0;
      var own' := OwnPaddr(vm, own, r, v, true, perms, space);
      forall v': nat | TopIndex(v') < ENTRIES && v' / PAGE_SIZE != v / PAGE_SIZE
        ensures PageSame(vm, vm', r, v')
      {
        if Mapped(vm, r, v').Some? {
          EntryKept(vm, vm', own, own', base, boot, r, v');
        }
      }
    }
  }

  lemma EntryKept(vm: Vm, vm': Vm, own: map<nat, Owner>, own': map<nat, Owner>, base: seq<Page>, boot: nat, r: nat,
                  v: nat)
    requires Inv(vm, own, base, boot) && Kept(vm, vm', own, own') && IsRoot(own, r) && TopIndex(v) < ENTRIES
    requires Mapped(vm, r, v).Some?
    ensures EntryOf(vm', r, v) == EntryOf(vm, r, v)
  {
    hide Memory, BaseOk, FrameOk, LowOk, TopIndex, LowIndex;
    assert TopOk(vm, own, r, TopIndex(v));
  }

  /** Changing one entry of a second-level table changes the page it stands for, and no other. */
  lemma OneEntry(vm: Vm, vm': Vm, own: map<nat, Owner>, base: seq<Page>, boot: nat, r: nat, v: nat, f: nat, perms: nat)
    requires Inv(vm, own, base, boot) && IsRoot(own, r) && TopIndex(v) < ENTRIES && Mapped(vm, r, v) == Some(f)
    requires Permissions(perms)
    requires SameButOne(vm, vm', TableOf(Word(vm, r, TopIndex(v))), LowIndex(v))
    requires EntryOf(vm', r, v) == LowEntry(f, perms)
    ensures Mapped(vm', r, v) == Some(f) && PermsOf(EntryOf(vm', r, v)) == perms && OtherPagesSame(vm, vm', r, v)
  {
    hide Memory, BaseOk, FrameOk, LowOk, TopIndex, LowIndex, StateOf, TableOf, PermsOf, FrameOf, Word;
    LowFacts(f, perms);
    assert TopOk(vm, own, r, TopIndex(v));
    forall v': nat | TopIndex(v') < ENTRIES && v' / PAGE_SIZE != v / PAGE_SIZE
      ensures PageSame(vm, vm', r, v')
    {
      DifferentIndexes(v, v');
      assert TopOk(vm, own, r, TopIndex(v'));
    }
  }

  lemma SetPermsSplit(vm: Vm, own: map<nat, Owner>, base: seq<Page>, boot: nat, r: nat, v: nat, create: bool,
                      perms: nat, space: nat)
    requires Inv(vm, own, base, boot) && IsRoot(own, r) && TopIndex(v) < ENTRIES && Permissions(perms)
    requires SetPerms(vm, r, v, create, perms, space).Some?
    ensures GetPaddr(vm, r, v, create, perms, space).Some?
    ensures var vm1 := GetPaddr(vm, r, v, create, perms, space).v.0; var q := TableOf(Word(vm1, r, TopIndex(v)));
      var value := Word(vm1, q, LowIndex(v));
      SetPerms(vm, r, v, create, perms, space).v ==
        if Mapped(vm1, r, v).Some? then (SetWord(vm1, q, LowIndex(v), value - PermsOf(value) + perms), true)
        else (vm1, false)
  {
    hide Inv, GetTable, GetPage, StateOf, PermsOf, Word, TableOf, SetWord, Kept, Apart, RootsKept, TopIndex, LowIndex;
    hide OwnTable, OwnPage, Permissions;
    GetTableOk(vm, own, base, boot, r, v, create, perms, space);
    var (vm1, t) := GetTable(vm, r, v, create, perms, space).v;
    var own1 := OwnTable(vm, own, r, v, create, perms, space);
    if t.Some? {
      LowBound(v);
      GetPageOk(vm1, own1, base, boot, r, TopIndex(v), t.v, LowIndex(v), create, v, space);
      var vm2 := GetPage(vm1, t.v, LowIndex(v), create, v, space).v.0;
      var own2 := OwnPage(vm1, own1, t.v, LowIndex(v), create, v, space);
      TopFacts(t.v);
      TopKept(vm1, vm2, own1, own2, r, TopIndex(v));
    } else {
      NoTable(vm, r, v, create, perms, space);
    }
  }

  lemma NoTable(vm: Vm, r: nat, v: nat, create: bool, perms: nat, space: nat)
    requires !create && GetTable(vm, r, v, create, perms, space).Some? && StateOf(Word(vm, r, TopIndex(v))) == Vacant
    ensures GetTable(vm, r, v, create, perms, space).v == (vm, None)
  {
    hide StateOf, Word, TopIndex;
  }

  lemma TopKept(vm: Vm, vm': Vm, own: map<nat, Owner>, own': map<nat, Owner>, r: nat, i: nat)
    requires Kept(vm, vm', own, own') && r in own && StateOf(Word(vm, r, i)) != Vacant
    ensures Word(vm', r, i) == Word(vm, r, i)
  {
    hide StateOf, Word;
  }

  /**
   * What pt_set_permissions does: it succeeds if the page is there or may be made; the page then has exactly
   * the permissions given and the frame it had; every other page keeps its frame and its entry; no word of
   * another address space changes; and a failure changes nothing.
   */
  lemma SetPermsIs(vm: Vm, own: map<nat, Owner>, base: seq<Page>, boot: nat, r: nat, v: nat, create: bool, perms: nat,
                   space: nat)
    requires Inv(vm, own, base, boot) && IsRoot(own, r) && TopIndex(v) < ENTRIES && Permissions(perms)
    requires SetPerms(vm, r, v, create, perms, space).Some?
    ensures var (vm', ok) := SetPerms(vm, r, v, create, perms, space).v;
      && (ok <==> create || Mapped(vm, r, v).Some?)
      && (!ok ==> vm' == vm)
      && (ok ==> Mapped(vm', r, v).Some? && PermsOf(EntryOf(vm', r, v)) == perms)
      && (Mapped(vm, r, v).Some? ==> Mapped(vm', r, v) == Mapped(vm, r, v))
      && OtherPagesSame(vm, vm', r, v) && Apart(vm, vm', own, r)
  {
    hide Inv, GetPaddr, OwnPaddr, SetPerms, Mapped, EntryOf, OtherPagesSame, Apart, RootsKept, Kept, PermsOf, Word;
    hide TableOf, TopIndex, LowIndex, StateOf, FrameOf, SetWord, LowEntry, Permissions;
    SetPermsSplit(vm, own, base, boot, r, v, create, perms, space);
    GetPaddrOk(vm, own, base, boot, r, v, create, perms, space);
    LookKeepsOthers(vm, own, base, boot, r, v, create, perms, space);
    var (vm1, dst) := GetPaddr(vm, r, v, create, perms, space).v;
    var own1 := OwnPaddr(vm, own, r, v, create, perms, space);
    var vm' := SetPerms(vm, r, v, create, perms, space).v.0;
    if !create || Mapped(vm, r, v).Some? {
      LookChanges(vm, own, base, boot, r, v, create, perms, space);
    }
    if Mapped(vm1, r, v).Some? {
      EntrySet(vm1, own1, base, boot, r, v, perms);
      OneEntry(vm1, vm', own1, base, boot, r, v, Mapped(vm1, r, v).v, perms);
      OthersAgain(vm, vm1, vm', r, v);
      ApartAgain(vm, vm1, vm', own, own1, base, boot, r, v);
    }
  }

  lemma EntrySet(vm: Vm, own: map<nat, Owner>, base: seq<Page>, boot: nat, r: nat, v: nat, perms: nat)
    requires Inv(vm, own, base, boot) && IsRoot(own, r) && TopIndex(v) < ENTRIES && Mapped(vm, r, v).Some?
    ensures var q := TableOf(Word(vm, r, TopIndex(v))); var value := Word(vm, q, LowIndex(v));
      var vm' := SetWord(vm, q, LowIndex(v), value - PermsOf(value) + perms);
      SameButOne(vm, vm', q, LowIndex(v)) && EntryOf(vm', r, v) == LowEntry(Mapped(vm, r, v).v, perms)
  {
    hide TopIndex, LowIndex, Memory, BaseOk, FrameOk, LowOk, StateOf, TableOf, PermsOf, FrameOf;
    assert TopOk(vm, own, r, TopIndex(v));
    LowBound(v);
    var q := TableOf(Word(vm, r, TopIndex(v)));
    ReLabelled(vm, own, base, boot, r, TopIndex(v), q, LowIndex(v), perms);
  }

  lemma OthersAgain(vm: Vm, vm1: Vm, vm2: Vm, r: nat, v: nat)
    requires OtherPagesSame(vm, vm1, r, v) && OtherPagesSame(vm1, vm2, r, v)
    ensures OtherPagesSame(vm, vm2, r, v)
  {
    hide Mapped, EntryOf, TopIndex;
    forall v' | 0 <= v' && TopIndex(v') < ENTRIES && v' / PAGE_SIZE != v / PAGE_SIZE
      ensures PageSame(vm, vm2, r, v')
    {
      assert PageSame(vm, vm1, r, v') && PageSame(vm1, vm2, r, v');
    }
  }

  lemma ApartAgain(vm: Vm, vm1: Vm, vm2: Vm, own: map<nat, Owner>, own1: map<nat, Owner>, base: seq<Page>, boot: nat,
                   r: nat, v: nat)
    requires Inv(vm1, own1, base, boot) && IsRoot(own1, r) && TopIndex(v) < ENTRIES && Mapped(vm1, r, v).Some?
    requires Apart(vm, vm1, own, r) && Kept(vm, vm1, own, own1)
    requires SameButOne(vm1, vm2, TableOf(Word(vm1, r, TopIndex(v))), LowIndex(v))
    ensures Apart(vm, vm2, own, r)
  {
    hide TopIndex, LowIndex, Memory, BaseOk, FrameOk, LowOk, StateOf;
    assert TopOk(vm1, own1, r, TopIndex(v));
  }

  /** A store to a page of an address space changes no table and no other page. */
  lemma StoreOk(vm: Vm, own: map<nat, Owner>, base: seq<Page>, boot: nat, r: nat, v: nat, k: nat, x: nat)
    requires Inv(vm, own, base, boot) && IsRoot(own, r) && TopIndex(v) < ENTRIES && Mapped(vm, r, v).Some?
    ensures var f := Mapped(vm, r, v).v; var vm' := SetWord(vm, f, k, x);
      Inv(vm', own, base, boot) && SameWordsBut(vm, vm', f)
  {
    MappedLeaf(vm, own, base, boot, r, v);
    var f := Mapped(vm, r, v).v;
    SameTables(vm, SetWord(vm, f, k, x), own, base, boot);
  }

  // ---- Runs ---------------------------------------------------------------

  datatype Op =
    | Make(space: nat)
    | Fault(r: nat, v: nat, perms: nat, space: nat)
    | Look(r: nat, v: nat)
    | Perms(r: nat, v: nat, create: bool, perms: nat, space: nat)
    | Store(r: nat, v: nat, k: nat, x: nat)
    | Fork(src: nat, dst: nat, regions: seq<Region>, space: nat)
    | Drop(r: nat)

  /** The address spaces there are, by the frames of their top-level tables. */
  datatype Sys = Sys(vm: Vm, roots: set<nat>)

  ghost predicate May(s: Sys, op: Op) {
    match op
    case Make(space) => true
    case Fault(r, v, perms, space) => r in s.roots && TopIndex(v) < ENTRIES && Permissions(perms)
    case Look(r, v) => r in s.roots && TopIndex(v) < ENTRIES
    case Perms(r, v, create, perms, space) => r in s.roots && TopIndex(v) < ENTRIES && Permissions(perms)
    case Store(r, v, k, x) => r in s.roots && TopIndex(v) < ENTRIES && Mapped(s.vm, r, v).Some?
    case Fork(src, dst, regions, space) =>
      src in s.roots && dst in s.roots && src != dst && forall n :: 0 <= n < PAGES ==>
          Mapped(s.vm, dst, n * PAGE_SIZE).None?
    case Drop(r) => r in s.roots
  }

  /** None: the kernel has run out of memory and stopped. */
  function Do(s: Sys, op: Op): Option<Sys> {
    match op
    case Make(space) => (match Create(s.vm, space) case None => None case Some((vm, r)) => Some(Sys(vm, s.roots + {r})))
    case Fault(r, v, perms, space) =>
      (match GetPaddr(s.vm, r, v, true, perms, space) case None => None case Some((vm, _)) => Some(s.(vm := vm)))
    case Look(r, v) =>
      (match GetPaddr(s.vm, r, v, false, 0, 0) case None => None case Some((vm, _)) => Some(s.(vm := vm)))
    case Perms(r, v, create, perms, space) =>
      (match SetPerms(s.vm, r, v, create, perms, space) case None => None case Some((vm, _)) => Some(s.(vm := vm)))
    case Store(r, v, k, x) =>
      (match Mapped(s.vm, r, v) case None => Some(s) case Some(f) => Some(s.(vm := SetWord(s.vm, f, k, x))))
    case Fork(src, dst, regions, space) =>
      (match Copy(s.vm, src, dst, regions, space) case None => None case Some(vm) => Some(s.(vm := vm)))
    case Drop(r) => Some(Sys(Destroy(s.vm, r), s.roots - {r}))
  }

  ghost predicate RootsAre(own: map<nat, Owner>, roots: set<nat>) {
    forall r :: r in roots <==> IsRoot(own, r)
  }

  ghost predicate OwnedBy(s: Sys, own: map<nat, Owner>, base: seq<Page>, boot: nat) {
    Inv(s.vm, own, base, boot) && RootsAre(own, s.roots)
  }

  ghost predicate Good(s: Sys, base: seq<Page>, boot: nat) {
    exists own :: OwnedBy(s, own, base, boot)
  }

  lemma RootsStay(own: map<nat, Owner>, own': map<nat, Owner>, roots: set<nat>)
    requires RootsAre(own, roots) && RootsKept(own, own')
    ensures RootsAre(own', roots)
  {
  }

  lemma StepGood(s: Sys, op: Op, base: seq<Page>, boot: nat)
    requires Good(s, base, boot) && May(s, op) && Do(s, op).Some?
    ensures Good(Do(s, op).v, base, boot)
  {
    hide Inv, Create, GetPaddr, SetPerms, Copy, Destroy, Mapped;
    var own :| OwnedBy(s, own, base, boot);
    var s' := Do(s, op).v;
    match op
    case Make(space) =>
      CreateOk(s.vm, own, base, boot, space);
      assert OwnedBy(s', own[Create(s.vm, space).v.1 := Owner(Create(s.vm, space).v.1, Root)], base, boot);
    case Fault(r, v, perms, space) => LookGood(s, own, base, boot, r, v, true, perms, space);
    case Look(r, v) => LookGood(s, own, base, boot, r, v, false, 0, 0);
    case Perms(r, v, create, perms, space) => PermsGood(s, own, base, boot, r, v, create, perms, space);
    case Store(r, v, k, x) => StoreOk(s.vm, own, base, boot, r, v, k, x); assert OwnedBy(s', own, base, boot);
    case Fork(src, dst, regions, space) => ForkGood(s, own, base, boot, src, dst, regions, space);
    case Drop(r) => DropGood(s, own, base, boot, r);
  }

  lemma LookGood(s: Sys, own: map<nat, Owner>, base: seq<Page>, boot: nat, r: nat, v: nat, create: bool, perms: nat,
                 space: nat)
    requires OwnedBy(s, own, base, boot) && r in s.roots && TopIndex(v) < ENTRIES && Permissions(perms)
    requires GetPaddr(s.vm, r, v, create, perms, space).Some?
    ensures Good(s.(vm := GetPaddr(s.vm, r, v, create, perms, space).v.0), base, boot)
  {
    hide Inv, GetTable, GetPage, OwnPaddr;
    GetPaddrOk(s.vm, own, base, boot, r, v, create, perms, space);
    RootsStay(own, OwnPaddr(s.vm, own, r, v, create, perms, space), s.roots);
    assert OwnedBy(s.(vm := GetPaddr(s.vm, r, v, create, perms, space).v.0),
                   OwnPaddr(s.vm, own, r, v, create, perms, space), base, boot);
  }

  lemma PermsGood(s: Sys, own: map<nat, Owner>, base: seq<Page>, boot: nat, r: nat, v: nat, create: bool, perms: nat,
                  space: nat)
    requires OwnedBy(s, own, base, boot) && r in s.roots && TopIndex(v) < ENTRIES && Permissions(perms)
    requires SetPerms(s.vm, r, v, create, perms, space).Some?
    ensures Good(s.(vm := SetPerms(s.vm, r, v, create, perms, space).v.0), base, boot)
  {
    hide Inv, GetTable, GetPage, OwnPaddr;
    SetPermsOk(s.vm, own, base, boot, r, v, create, perms, space);
    RootsStay(own, OwnPaddr(s.vm, own, r, v, create, perms, space), s.roots);
    assert OwnedBy(s.(vm := SetPerms(s.vm, r, v, create, perms, space).v.0),
                   OwnPaddr(s.vm, own, r, v, create, perms, space), base, boot);
  }

  lemma DropGood(s: Sys, own: map<nat, Owner>, base: seq<Page>, boot: nat, r: nat)
    requires OwnedBy(s, own, base, boot) && r in s.roots
    ensures Good(Sys(Destroy(s.vm, r), s.roots - {r}), base, boot)
  {
    hide Inv, Destroy;
    DestroyInv(s.vm, own, base, boot, r);
    assert OwnedBy(Sys(Destroy(s.vm, r), s.roots - {r}), own - FramesOf(own, r), base, boot);
  }

  lemma ForkGood(s: Sys, own: map<nat, Owner>, base: seq<Page>, boot: nat, src: nat, dst: nat, regions: seq<Region>,
                 space: nat)
    requires OwnedBy(s, own, base, boot) && src in s.roots && dst in s.roots && src != dst
    requires (forall n :: 0 <= n < PAGES ==> Mapped(s.vm, dst, n * PAGE_SIZE).None?)
    requires Copy(s.vm, src, dst, regions, space).Some?
    ensures Good(s.(vm := Copy(s.vm, src, dst, regions, space).v), base, boot)
  {
    hide Inv, Copy, Mapped;
    CopyIsolates(s.vm, own, base, boot, src, dst, regions, space);
    var vm' := Copy(s.vm, src, dst, regions, space).v;
    var own' :| CopyResult(s.vm, vm', own, own', base, boot, src, dst, regions);
    RootsStay(own, own', s.roots);
    assert OwnedBy(s.(vm := vm'), own', base, boot);
  }

  ghost predicate Runs(s: Sys, ops: seq<Op>)
    decreases |ops|
  {
    ops == [] || (May(s, ops[0]) && (Do(s, ops[0]).Some? ==> Runs(Do(s, ops[0]).v, ops[1..])))
  }

  /** Where a run ends; None if the kernel ran out of memory on the way. */
  function After(s: Sys, ops: seq<Op>): Option<Sys>
    decreases |ops|
  {
    if ops == [] then Some(s) else match Do(s, ops[0]) case None => None case Some(s1) => After(s1, ops[1..])
  }

  lemma {:induction false} RunGood(s: Sys, ops: seq<Op>, base: seq<Page>, boot: nat)
    requires Good(s, base, boot) && Runs(s, ops) && After(s, ops).Some?
    ensures Good(After(s, ops).v, base, boot)
    decreases |ops|
  {
    hide Good, May, Do;
    if ops != [] {
      StepGood(s, ops[0], base, boot);
      RunGood(Do(s, ops[0]).v, ops[1..], base, boot);
    }
  }

  ghost predicate Share(s: Sys, r: nat, v: nat, r': nat, v': nat) {
    && r in s.roots && r' in s.roots && TopIndex(v) < ENTRIES && TopIndex(v') < ENTRIES
    && Mapped(s.vm, r, v).Some? && Mapped(s.vm, r, v) == Mapped(s.vm, r', v')
  }

  ghost predicate NoTwo(s: Sys) {
    forall r: nat, v: nat, r': nat, v': nat :: Share(s, r, v, r', v') ==> r == r' && v / PAGE_SIZE == v' / PAGE_SIZE
  }

  ghost predicate NoSwap(s: Sys) {
    forall r, v :: r in s.roots && 0 <= v && TopIndex(v) < ENTRIES ==>
      && StateOf(Word(s.vm, r, TopIndex(v))) != InSwap
      && (StateOf(Word(s.vm, r, TopIndex(v))) == InMem ==>
            StateOf(Word(s.vm, TableOf(Word(s.vm, r, TopIndex(v))), LowIndex(v))) != InSwap)
  }

  lemma GoodFacts(s: Sys, own: map<nat, Owner>, base: seq<Page>, boot: nat)
    requires OwnedBy(s, own, base, boot)
    ensures NoTwo(s) && NoSwap(s) && (s.roots == {} ==> s.vm.cm.pages == base)
  {
    NoneLeft(s, own, base, boot);
    hide Inv, Mapped, StateOf;
    forall r: nat, v: nat, r': nat, v': nat | Share(s, r, v, r', v')
      ensures r == r' && v / PAGE_SIZE == v' / PAGE_SIZE
    {
      NoSharing(s.vm, own, base, boot, r, v, r', v');
    }
    forall r, v | r in s.roots && 0 <= v && TopIndex(v) < ENTRIES
      ensures StateOf(Word(s.vm, r, TopIndex(v))) != InSwap
      ensures StateOf(Word(s.vm, r, TopIndex(v))) == InMem ==>
        StateOf(Word(s.vm, TableOf(Word(s.vm, r, TopIndex(v))), LowIndex(v))) != InSwap
    {
      NeverSwapped(s.vm, own, base, boot, r, v);
    }
  }

  lemma NoneLeft(s: Sys, own: map<nat, Owner>, base: seq<Page>, boot: nat)
    requires OwnedBy(s, own, base, boot)
    ensures s.roots == {} ==> s.vm.cm.pages == base
  {
    if s.roots == {} {
      forall f | f in own
        ensures IsRoot(own, own[f].root)
      {
        assert FrameOk(s.vm, own, f);
      }
      assert forall f :: f !in own;
    }
  }
}
