/** What the coremap notes of the pages of address spaces: what each is for, and which may not be moved. */
module PageTableNotes {
  import opened Arith
  import opened Coremaps
  import opened PageTables
  import opened PageTableInv
  import opened PageTableCopy
  import opened PageTableFree
  import R = PageTableRun

  /**
   * A page says which address it is for, and whether it holds a table. Top-level tables are fixed in memory, and so are
   * pages while they are copied; no other page is.
   */
  predicate NoteOk(pg: Page, part: Part, held: bool) {
    && pg.state == (if part.Root? || held then FIXED else ALLOCATED)
    && match part
      case Root => pg.vaddr == SWP_TABLE
      case Table(i) => pg.vaddr % PAGE_SIZE == SWP_TABLE && pg.vaddr / UP == i
      case Leaf(i, j) => pg.vaddr == i * UP + j * PAGE_SIZE + SWP_PAGE
  }

  ghost predicate Notes(pages: seq<Page>, own: map<nat, Owner>, held: set<nat>) {
    && (forall f :: f in held ==> f in own && own[f].part.Leaf?)
    && forall f :: f in own ==> f < |pages| && NoteOk(pages[f], own[f].part, f in held)
  }

  lemma NoteParts(v: nat)
    ensures (PageBase(v) + SWP_TABLE) % PAGE_SIZE == SWP_TABLE && (PageBase(v) + SWP_TABLE) / UP == TopIndex(v)
    ensures PageBase(v) == TopIndex(v) * UP + LowIndex(v) * PAGE_SIZE
  {
    var n := v / PAGE_SIZE;
    DivUnique(n, n / ENTRIES, n % ENTRIES, ENTRIES);
    DivUnique(v, n / ENTRIES, n % ENTRIES * PAGE_SIZE + v % PAGE_SIZE, UP);
    DivUnique(PageBase(v) + SWP_TABLE, n, SWP_TABLE, PAGE_SIZE);
    DivUnique(PageBase(v) + SWP_TABLE, n / ENTRIES, n % ENTRIES * PAGE_SIZE + SWP_TABLE, UP);
  }

  lemma TakeNotes(vm: Vm, own: map<nat, Owner>, base: seq<Page>, boot: nat, space: nat, note: nat, o: Owner,
                  held: set<nat>)
    requires Inv(vm, own, base, boot) && Take(vm, space, note).Some? && Notes(vm.cm.pages, own, held)
    requires NoteOk(Page(space, note, 1, ALLOCATED), o.part, false)
    ensures var (vm1, p) := Take(vm, space, note).v; p !in own && Notes(vm1.cm.pages, own[p := o], held)
  {
    TakeOk(vm, own, base, boot, space, note);
    hide Take, FrameOk, TopOk, LowOk, NoteOk, Memory;
    var (vm1, p) := Take(vm, space, note).v;
    assert |vm1.cm.pages| == |base| by { NewLength(vm, space, note); }
  }

  lemma NewLength(vm: Vm, space: nat, note: nat)
    requires Take(vm, space, note).Some?
    ensures |Take(vm, space, note).v.0.cm.pages| == |vm.cm.pages|
  {
    hide Find;
  }

  lemma GetTableNotes(vm: Vm, own: map<nat, Owner>, base: seq<Page>, boot: nat, r: nat, v: nat, create: bool,
                      perms: nat, space: nat, held: set<nat>)
    requires Inv(vm, own, base, boot) && IsRoot(own, r) && GetTable(vm, r, v, create, perms, space).Some?
    requires Notes(vm.cm.pages, own, held)
    ensures Notes(GetTable(vm, r, v, create, perms, space).v.0.cm.pages,
                  OwnTable(vm, own, r, v, create, perms, space), held)
  {
    hide Inv, Notes, Take;
    NoteParts(v);
    if StateOf(Word(vm, r, TopIndex(v))) == Vacant && create {
      TakeNotes(vm, own, base, boot, space, PageBase(v) + SWP_TABLE, Owner(r, Table(TopIndex(v))), held);
    }
  }

  lemma GetPageNotes(vm: Vm, own: map<nat, Owner>, base: seq<Page>, boot: nat, r: nat, q: nat, create: bool, v: nat,
                     space: nat, held: set<nat>)
    requires Inv(vm, own, base, boot) && IsTable(own, q, r, TopIndex(v))
    requires GetPage(vm, q, LowIndex(v), create, v, space).Some? && Notes(vm.cm.pages, own, held)
    ensures Notes(GetPage(vm, q, LowIndex(v), create, v, space).v.0.cm.pages,
                  OwnPage(vm, own, q, LowIndex(v), create, v, space), held)
  {
    hide Inv, Notes, Take, LowIndex;
    NoteParts(v);
    if StateOf(Word(vm, q, LowIndex(v))) == Vacant && create {
      var o := Owner(own[q].root, Leaf(own[q].part.i, LowIndex(v)));
      TakeNotes(vm, own, base, boot, space, PageBase(v) + SWP_PAGE, o, held);
    }
  }

  lemma GetPaddrNotes(vm: Vm, own: map<nat, Owner>, base: seq<Page>, boot: nat, r: nat, v: nat, create: bool,
                      perms: nat, space: nat, held: set<nat>)
    requires Inv(vm, own, base, boot) && IsRoot(own, r) && TopIndex(v) < ENTRIES && Permissions(perms)
    requires GetPaddr(vm, r, v, create, perms, space).Some? && Notes(vm.cm.pages, own, held)
    ensures Notes(GetPaddr(vm, r, v, create, perms, space).v.0.cm.pages,
                  OwnPaddr(vm, own, r, v, create, perms, space), held)
  {
    hide Inv, Notes, GetTable, GetPage, OwnTable, OwnPage, Kept, Apart, RootsKept, Word, StateOf;
    GetTableOk(vm, own, base, boot, r, v, create, perms, space);
    GetTableNotes(vm, own, base, boot, r, v, create, perms, space, held);
    var (vm1, t) := GetTable(vm, r, v, create, perms, space).v;
    if t.Some? {
      GetPageNotes(vm1, OwnTable(vm, own, r, v, create, perms, space), base, boot, r, t.v, create, v, space, held);
    }
  }

  lemma CreateNotes(vm: Vm, own: map<nat, Owner>, base: seq<Page>, boot: nat, space: nat)
    requires Inv(vm, own, base, boot) && Create(vm, space).Some? && Notes(vm.cm.pages, own, {})
    ensures var (vm', r) := Create(vm, space).v; Notes(vm'.cm.pages, own[r := Owner(r, Root)], {})
  {
    hide Inv, Take, Notes;
    TakeOk(vm, own, base, boot, space, PageBase(0) + SWP_TABLE);
    TakeNotes(vm, own, base, boot, space, PageBase(0) + SWP_TABLE, Owner(0, Table(0)), {});
    var (vm1, r) := Take(vm, space, PageBase(0) + SWP_TABLE).v;
    RootNote(vm1.cm.pages, Create(vm, space).v.0.cm.pages, own, r);
  }

  lemma RootNote(pages: seq<Page>, pages': seq<Page>, own: map<nat, Owner>, r: nat)
    requires Notes(pages, own[r := Owner(0, Table(0))], {}) && r < |pages| && pages[r].vaddr == SWP_TABLE
    requires pages' == pages[r := pages[r].(state := FIXED)]
    ensures Notes(pages', own[r := Owner(r, Root)], {})
  {
  }

  lemma SetPermsNotes(vm: Vm, own: map<nat, Owner>, base: seq<Page>, boot: nat, r: nat, v: nat, create: bool,
                      perms: nat, space: nat)
    requires Inv(vm, own, base, boot) && IsRoot(own, r) && TopIndex(v) < ENTRIES && Permissions(perms)
    requires SetPerms(vm, r, v, create, perms, space).Some? && Notes(vm.cm.pages, own, {})
    ensures Notes(SetPerms(vm, r, v, create, perms, space).v.0.cm.pages,
                  OwnPaddr(vm, own, r, v, create, perms, space), {})
  {
    hide Inv, Notes, GetTable, GetPage, OwnPaddr;
    GetPaddrNotes(vm, own, base, boot, r, v, create, perms, space, {});
  }

  lemma FixNotes(vm: Vm, own: map<nat, Owner>, held: set<nat>, f: nat, fixed: bool)
    requires Notes(vm.cm.pages, own, held) && f in own && own[f].part.Leaf?
    ensures Notes(PageTableCopy.Fix(vm, f, fixed).cm.pages, own, if fixed then held + {f} else held - {f})
  {
  }

  /** While a page is copied, it and its copy are fixed; afterwards neither is. */
  lemma CopyPageNotes(vm: Vm, own: map<nat, Owner>, base: seq<Page>, boot: nat, dst: nat, v: nat, f1: nat, perms: nat,
                      space: nat)
    requires Inv(vm, own, base, boot) && IsRoot(own, dst) && f1 in own && own[f1].part.Leaf? && own[f1].root != dst
    requires TopIndex(v) < ENTRIES && Permissions(perms) && Mapped(vm, dst, v).None?
    requires CopyPage(vm, dst, v, f1, perms, space).Some? && Notes(vm.cm.pages, own, {})
    ensures Notes(CopyPage(vm, dst, v, f1, perms, space).v.cm.pages, OwnCopy(vm, own, dst, v, f1, perms, space), {})
  {
    hide Inv, Notes, Mapped, GetPaddr, OwnPaddr, Kept, Apart, RootsKept, PageTableCopy.Fix;
    FixInv(vm, own, base, boot, f1, true);
    FixNotes(vm, own, {}, f1, true);
    var vm1 := PageTableCopy.Fix(vm, f1, true);
    GetPaddrOk(vm1, own, base, boot, dst, v, true, perms, space);
    GetPaddrNotes(vm1, own, base, boot, dst, v, true, perms, space, {} + {f1});
    var (vm2, paddr) := GetPaddr(vm1, dst, v, true, perms, space).v;
    var own' := OwnPaddr(vm1, own, dst, v, true, perms, space);
    MappedLeaf(vm2, own', base, boot, dst, v);
    KeptOwner(vm1, vm2, own, own', f1);
    var f2 := paddr / PAGE_SIZE;
    FixNotes(vm2, own', {} + {f1}, f2, true);
    var vm3 := CopyWords(PageTableCopy.Fix(vm2, f2, true), f2, f1);
    FixNotes(vm3, own', {} + {f1} + {f2}, f1, false);
    FixNotes(PageTableCopy.Fix(vm3, f1, false), own', {} + {f1} + {f2} - {f1}, f2, false);
    assert {} + {f1} + {f2} - {f1} - {f2} == {};
  }

  // ---- A whole copy -------------------------------------------------------

  lemma NextNotes(vm0: Vm, vm: Vm, own0: map<nat, Owner>, own: map<nat, Owner>, base: seq<Page>, boot: nat, src: nat,
                  dst: nat, regions: seq<Region>, n: nat, f1: nat, perms: nat, space: nat)
    requires Inv(vm0, own0, base, boot) && IsRoot(own0, src) && src != dst
    requires Progress(vm0, vm, own0, own, base, boot, src, dst, regions, n) && n < PAGES
    requires Wanted(vm0, src, regions, n) && Some(f1) == Mapped(vm0, src, n * PAGE_SIZE) && Permissions(perms)
    requires CopyPage(vm, dst, n * PAGE_SIZE, f1, perms, space).Some? && Notes(vm.cm.pages, own, {})
    ensures Notes(CopyPage(vm, dst, n * PAGE_SIZE, f1, perms, space).v.cm.pages,
                  OwnCopy(vm, own, dst, n * PAGE_SIZE, f1, perms, space), {})
  {
    hide Inv, Wanted, Mapped, CopyPage, OwnCopy, Kept, Apart, PageDone, TopIndex, LowIndex, Notes;
    NumberSplit(n);
    MappedLeaf(vm0, own0, base, boot, src, n * PAGE_SIZE);
    NotYet(vm0, vm, own0, src, dst, regions, n);
    KeptOwner(vm0, vm, own0, own, f1);
    CopyPageNotes(vm, own, base, boot, dst, n * PAGE_SIZE, f1, perms, space);
  }

  lemma {:induction false} CopyLowNotes(vm0: Vm, vm: Vm, own0: map<nat, Owner>, own: map<nat, Owner>, base: seq<Page>,
                                        boot: nat, src: nat, dst: nat, regions: seq<Region>, i: nat, j: nat, space: nat)
    returns (own': map<nat, Owner>)
    requires Inv(vm0, own0, base, boot) && IsRoot(own0, src) && src != dst && i < ENTRIES && j <= ENTRIES
    requires StateOf(Word(vm0, src, i)) == InMem && Notes(vm.cm.pages, own, {})
    requires Progress(vm0, vm, own0, own, base, boot, src, dst, regions, i * ENTRIES + j)
    requires CopyLow(vm, TableOf(Word(vm0, src, i)), i, j, dst, regions, space).Some?
    ensures var vm' := CopyLow(vm, TableOf(Word(vm0, src, i)), i, j, dst, regions, space).v;
      && Progress(vm0, vm', own0, own', base, boot, src, dst, regions, (i + 1) * ENTRIES)
      && Notes(vm'.cm.pages, own', {})
    decreases ENTRIES - j
  {
    hide Inv, Progress, Wanted, Copied, CopyPage, CopyLow, StateOf, PermsOf, Mapped, OwnCopy, Word, TableOf, Notes;
    var q := TableOf(Word(vm0, src, i));
    if j == ENTRIES {
      CopyEnds(vm, q, src, i, dst, regions, space);
      own' := own;
    } else {
      ProgressApart(vm0, vm, own0, own, base, boot, src, dst, regions, i * ENTRIES + j);
      CopyLowStep(vm, q, i, j, dst, regions, space);
      WantedNow(vm0, vm, own0, base, boot, src, dst, regions, i, j);
      NumberParts(i, j);
      var n := i * ENTRIES + j;
      var value := Word(vm, q, j);
      if Wanted(vm0, src, regions, n) {
        PageCopied(vm0, vm, own0, own, base, boot, src, dst, regions, n, FrameOf(value), PermsOf(value), space);
        NextNotes(vm0, vm, own0, own, base, boot, src, dst, regions, n, FrameOf(value), PermsOf(value), space);
        var vm1 := CopyPage(vm, dst, n * PAGE_SIZE, FrameOf(value), PermsOf(value), space).v;
        var own1 := OwnCopy(vm, own, dst, n * PAGE_SIZE, FrameOf(value), PermsOf(value), space);
        own' := CopyLowNotes(vm0, vm1, own0, own1, base, boot, src, dst, regions, i, j + 1, space);
      } else {
        PageSkipped(vm0, vm, own0, own, base, boot, src, dst, regions, n);
        own' := CopyLowNotes(vm0, vm, own0, own, base, boot, src, dst, regions, i, j + 1, space);
      }
    }
  }

  lemma {:induction false} CopyTopNotes(vm0: Vm, vm: Vm, own0: map<nat, Owner>, own: map<nat, Owner>, base: seq<Page>,
                                        boot: nat, src: nat, dst: nat, regions: seq<Region>, i: nat, space: nat)
    returns (own': map<nat, Owner>)
    requires Inv(vm0, own0, base, boot) && IsRoot(own0, src) && src != dst && i <= ENTRIES
    requires Notes(vm.cm.pages, own, {})
    requires Progress(vm0, vm, own0, own, base, boot, src, dst, regions, i * ENTRIES)
    requires CopyTop(vm, src, i, dst, regions, space).Some?
    ensures var vm' := CopyTop(vm, src, i, dst, regions, space).v;
      Progress(vm0, vm', own0, own', base, boot, src, dst, regions, PAGES) && Notes(vm'.cm.pages, own', {})
    decreases ENTRIES - i
  {
    hide Inv, Progress, CopyLow, CopyTop, StateOf, Word, TableOf, Notes;
    if i == ENTRIES {
      CopyEnds(vm, 0, src, i, dst, regions, space);
      own' := own;
    } else {
      ProgressApart(vm0, vm, own0, own, base, boot, src, dst, regions, i * ENTRIES);
      CopyTopStep(vm, src, i, dst, regions, space);
      ParentSame(vm0, vm, own0, base, boot, src, dst, i, 0);
      var value := Word(vm, src, i);
      if StateOf(value) == InMem {
        var own1 := CopyLowNotes(vm0, vm, own0, own, base, boot, src, dst, regions, i, 0, space);
        var vm1 := CopyLow(vm, TableOf(value), i, 0, dst, regions, space).v;
        own' := CopyTopNotes(vm0, vm1, own0, own1, base, boot, src, dst, regions, i + 1, space);
      } else {
        StretchSkipped(vm0, vm, own0, own, base, boot, src, dst, regions, i, 0);
        own' := CopyTopNotes(vm0, vm, own0, own, base, boot, src, dst, regions, i + 1, space);
      }
    }
  }

  // ---- Every run ----------------------------------------------------------

  ghost predicate Noted(s: R.Sys, own: map<nat, Owner>, base: seq<Page>, boot: nat) {
    R.OwnedBy(s, own, base, boot) && Notes(s.vm.cm.pages, own, {})
  }

  /** The address spaces are sound and the coremap's notes are right. */
  ghost predicate WellNoted(s: R.Sys, base: seq<Page>, boot: nat) {
    exists own :: Noted(s, own, base, boot)
  }

  lemma StepNoted(s: R.Sys, op: R.Op, base: seq<Page>, boot: nat)
    requires WellNoted(s, base, boot) && R.May(s, op) && R.Do(s, op).Some?
    ensures WellNoted(R.Do(s, op).v, base, boot)
  {
    hide Inv, Create, GetPaddr, SetPerms, Copy, Destroy, Mapped, Notes;
    var own :| Noted(s, own, base, boot);
    var s' := R.Do(s, op).v;
    match op
    case Make(space) =>
      CreateOk(s.vm, own, base, boot, space);
      CreateNotes(s.vm, own, base, boot, space);
      assert Noted(s', own[Create(s.vm, space).v.1 := Owner(Create(s.vm, space).v.1, Root)], base, boot);
    case Fault(r, v, perms, space) => LookNoted(s, own, base, boot, r, v, true, perms, space);
    case Look(r, v) => LookNoted(s, own, base, boot, r, v, false, 0, 0);
    case Perms(r, v, create, perms, space) => PermsNoted(s, own, base, boot, r, v, create, perms, space);
    case Store(r, v, k, x) => R.StoreOk(s.vm, own, base, boot, r, v, k, x); assert Noted(s', own, base, boot);
    case Fork(src, dst, regions, space) => ForkNoted(s, own, base, boot, src, dst, regions, space);
    case Drop(r) => DropNoted(s, own, base, boot, r);
  }

  lemma LookNoted(s: R.Sys, own: map<nat, Owner>, base: seq<Page>, boot: nat, r: nat, v: nat, create: bool, perms: nat,
                  space: nat)
    requires Noted(s, own, base, boot) && r in s.roots && TopIndex(v) < ENTRIES && Permissions(perms)
    requires GetPaddr(s.vm, r, v, create, perms, space).Some?
    ensures WellNoted(s.(vm := GetPaddr(s.vm, r, v, create, perms, space).v.0), base, boot)
  {
    hide Inv, GetTable, GetPage, OwnPaddr, Notes;
    GetPaddrOk(s.vm, own, base, boot, r, v, create, perms, space);
    GetPaddrNotes(s.vm, own, base, boot, r, v, create, perms, space, {});
    var own' := OwnPaddr(s.vm, own, r, v, create, perms, space);
    R.RootsStay(own, own', s.roots);
    assert Noted(s.(vm := GetPaddr(s.vm, r, v, create, perms, space).v.0), own', base, boot);
  }

  lemma PermsNoted(s: R.Sys, own: map<nat, Owner>, base: seq<Page>, boot: nat, r: nat, v: nat, create: bool, perms: nat,
                   space: nat)
    requires Noted(s, own, base, boot) && r in s.roots && TopIndex(v) < ENTRIES && Permissions(perms)
    requires SetPerms(s.vm, r, v, create, perms, space).Some?
    ensures WellNoted(s.(vm := SetPerms(s.vm, r, v, create, perms, space).v.0), base, boot)
  {
    hide Inv, GetTable, GetPage, OwnPaddr, Notes;
    R.SetPermsOk(s.vm, own, base, boot, r, v, create, perms, space);
    SetPermsNotes(s.vm, own, base, boot, r, v, create, perms, space);
    var own' := OwnPaddr(s.vm, own, r, v, create, perms, space);
    R.RootsStay(own, own', s.roots);
    assert Noted(s.(vm := SetPerms(s.vm, r, v, create, perms, space).v.0), own', base, boot);
  }

  lemma DropNoted(s: R.Sys, own: map<nat, Owner>, base: seq<Page>, boot: nat, r: nat)
    requires Noted(s, own, base, boot) && r in s.roots
    ensures WellNoted(R.Sys(Destroy(s.vm, r), s.roots - {r}), base, boot)
  {
    hide Inv, Destroy, NoteOk, Ok;
    DestroyInv(s.vm, own, base, boot, r);
    DestroyFrees(s.vm, own, base, boot, r);
    assert Noted(R.Sys(Destroy(s.vm, r), s.roots - {r}), own - FramesOf(own, r), base, boot);
  }

  lemma ForkNoted(s: R.Sys, own: map<nat, Owner>, base: seq<Page>, boot: nat, src: nat, dst: nat, regions: seq<Region>,
                  space: nat)
    requires Noted(s, own, base, boot) && R.May(s, R.Fork(src, dst, regions, space))
    requires Copy(s.vm, src, dst, regions, space).Some?
    ensures WellNoted(s.(vm := Copy(s.vm, src, dst, regions, space).v), base, boot)
  {
    hide Inv, CopyTop, Mapped, Wanted, Notes;
    KeptSelf(s.vm, own);
    assert Progress(s.vm, s.vm, own, own, base, boot, src, dst, regions, 0);
    var own' := CopyTopNotes(s.vm, s.vm, own, own, base, boot, src, dst, regions, 0, space);
    hide PageDone;
    R.RootsStay(own, own', s.roots);
    assert Noted(s.(vm := Copy(s.vm, src, dst, regions, space).v), own', base, boot);
  }

  /** From a coremap with no address space, every run keeps the notes right. */
  lemma {:induction false} RunNoted(s: R.Sys, ops: seq<R.Op>, base: seq<Page>, boot: nat)
    requires WellNoted(s, base, boot) && R.Runs(s, ops) && R.After(s, ops).Some?
    ensures WellNoted(R.After(s, ops).v, base, boot)
    decreases |ops|
  {
    hide WellNoted, R.May, R.Do;
    if ops != [] {
      StepNoted(s, ops[0], base, boot);
      RunNoted(R.Do(s, ops[0]).v, ops[1..], base, boot);
    }
  }

  /**
   * In every state that a run reaches from one with no address space: a top-level table is fixed in memory, a page that
   * an address leads to is not, and the coremap notes that address for it.
   */
  lemma EveryRunNoted(vm: Vm, ops: seq<R.Op>, boot: nat, r: nat, v: nat)
    requires Memory(vm, boot) && R.Runs(R.Sys(vm, {}), ops) && R.After(R.Sys(vm, {}), ops).Some?
    ensures var s := R.After(R.Sys(vm, {}), ops).v;
      r in s.roots && TopIndex(v) < ENTRIES ==>
        && r < |s.vm.cm.pages| && s.vm.cm.pages[r].state == FIXED
        && (Mapped(s.vm, r, v).Some? ==>
              var f, pages := Mapped(s.vm, r, v).v, s.vm.cm.pages;
              f < |pages| && pages[f].state == ALLOCATED && pages[f].vaddr == PageBase(v) + SWP_PAGE)
  {
    var s0 := R.Sys(vm, {});
    assert Noted(s0, map[], vm.cm.pages, boot) by { NoneOwned(vm, boot); }
    hide Inv, Mapped, R.Runs, R.After, TopIndex, LowIndex, PageBase, Memory;
    RunNoted(s0, ops, vm.cm.pages, boot);
    var s := R.After(s0, ops).v;
    var own :| Noted(s, own, vm.cm.pages, boot);
    if r in s.roots && TopIndex(v) < ENTRIES && Mapped(s.vm, r, v).Some? {
      MappedLeaf(s.vm, own, vm.cm.pages, boot, r, v);
      NoteParts(v);
    }
  }

  lemma NoneOwned(vm: Vm, boot: nat)
    requires Memory(vm, boot)
    ensures Noted(R.Sys(vm, {}), map[], vm.cm.pages, boot)
  {
    hide Ok;
  }
}
