/** The page table calls as they change memory and the coremap in place. */
module PageTableKernel {
  import opened Coremaps
  import opened PageTables
  import opened PageTableInv
  import F = PageTableFree
  import C = PageTableCopy

  class Machine {
    const cm: Coremap
    const mem: array2<nat>

    constructor (cm: Coremap, mem: array2<nat>)
      requires mem.Length0 == cm.pages.Length && mem.Length1 == ENTRIES
      ensures this.cm == cm && this.mem == mem && Valid()
    {
      this.cm, this.mem := cm, mem;
    }

    ghost predicate Valid() {
      mem.Length0 == cm.pages.Length && mem.Length1 == ENTRIES
    }

    ghost function Row(p: nat): (r: seq<nat>)
      requires Valid() && p < mem.Length0
      reads mem
      ensures |r| == ENTRIES && forall k :: 0 <= k < ENTRIES ==> r[k] == mem[p, k]
    {
      seq(ENTRIES, k requires 0 <= k < ENTRIES reads mem => mem[p, k])
    }

    ghost function Rows(): (r: seq<seq<nat>>)
      requires Valid()
      reads mem
      ensures |r| == mem.Length0 && forall p :: 0 <= p < |r| ==> r[p] == Row(p)
    {
      seq(mem.Length0, p requires 0 <= p < mem.Length0 reads mem => Row(p))
    }

    ghost function View(): Vm
      requires Valid()
      reads cm, cm.pages, mem
    {
      Vm(cm.View(), Rows())
    }

    lemma WordAt(p: nat, k: nat)
      requires Valid() && p < mem.Length0 && k < ENTRIES
      ensures Word(View(), p, k) == mem[p, k]
    {
    }

    lemma Sizes()
      requires Valid()
      ensures |View().mem| == mem.Length0 == |View().cm.pages| && forall p :: 0 <= p < |View().mem| ==>
        |View().mem[p]| == ENTRIES
    {
    }

    method SetValue(p: nat, k: nat, value: nat)
      requires Valid() && p < mem.Length0 && k < ENTRIES
      modifies mem
      ensures View() == SetWord(old(View()), p, k, value)
    {
      ghost var was := Rows();
      mem[p, k] := value;
      ghost var t: seq<nat> := was[p][k := value];
      assert Row(p) == t;
      assert forall q :: 0 <= q < mem.Length0 && q != p ==> Row(q) == was[q];
      assert Rows() == was[p := t];
    }

    /** Fill a page with vacant entries. */
    method Fill(p: nat, perms: nat)
      requires Valid() && p < mem.Length0
      modifies mem
      ensures View() == old(View()).(mem := old(View()).mem[p := Blank(perms)])
    {
      ghost var was := Rows();
      for i := 0 to ENTRIES
        invariant forall q, k :: 0 <= q < mem.Length0 && 0 <= k < ENTRIES ==>
          mem[q, k] == if q == p && k < i then PAGE_FREE + perms else was[q][k]
      {
        mem[p, i] := PAGE_FREE + perms;
      }
      assert Row(p) == Blank(perms);
      assert forall q :: 0 <= q < mem.Length0 && q != p ==> Row(q) == was[q];
      assert Rows() == was[p := Blank(perms)];
    }

    /** A page from the coremap; -1 when memory has run out. */
    method TakePage(space: nat, note: nat) returns (page: int)
      requires Valid() && cm.last <= cm.pages.Length
      modifies cm, cm.pages
      ensures page >= -1 && Take(old(View()), space, note) == if page >= 0 then Some((View(), page)) else None
      ensures page >= 0 ==> page < mem.Length0
    {
      hide Find, Claim;
      page := cm.Get(1);
      if page >= 0 {
        GotInRange(old(cm.View()), page);
        cm.SetPageVaddr(page, space, note);
      }
    }

    method NewTable(perms: nat, space: nat, v: nat) returns (page: int)
      requires Valid() && cm.last <= cm.pages.Length
      modifies cm, cm.pages, mem
      ensures page >= -1 && MakeTable(old(View()), perms, space, v) == if page >= 0 then Some((View(), page)) else None
      ensures page >= 0 ==> page < mem.Length0
    {
      hide Take, View;
      Sizes();
      page := TakePage(space, PageBase(v) + SWP_TABLE);
      if page >= 0 {
        Fill(page, perms);
      }
    }

    /**
     * The second-level table of an address, made if asked for; none if there is none. ok is false when memory has run
     * out.
     */
    method GetPagetable(root: nat, v: nat, create: bool, perms: nat, space: nat) returns (ok: bool, table: Option<nat>)
      requires Valid() && cm.last <= cm.pages.Length && root < mem.Length0 && TopIndex(v) < ENTRIES
      modifies cm, cm.pages, mem
      ensures GetTable(old(View()), root, v, create, perms, space) == if ok then Some((View(), table)) else None
    {
      hide MakeTable, View;
      var offset := TopIndex(v);
      WordAt(root, offset);
      var value := mem[root, offset];
      var state := StateOf(value);
      if state == Vacant {
        if create {
          var q := NewTable(perms, space, v);
          if q < 0 {
            return false, None;
          }
          SetValue(root, offset, TopEntry(q));
          return true, Some(q);
        }
        return true, None;
      } else if state == InMem {
        return true, Some(TableOf(value));
      } else {
        return true, None;
      }
    }

    /** The page at an entry of a second-level table, made if asked for. */
    method GetPageAt(q: nat, offset: nat, create: bool, v: nat, space: nat) returns (ok: bool, dst: nat)
      requires Valid() && cm.last <= cm.pages.Length && q < mem.Length0 && offset < ENTRIES
      modifies cm, cm.pages, mem
      ensures GetPage(old(View()), q, offset, create, v, space) == if ok then Some((View(), dst)) else None
    {
      hide Take, View;
      WordAt(q, offset);
      var value := mem[q, offset];
      var state := StateOf(value);
      var permissions := PermsOf(value);
      if state == Vacant {
        if create {
          var f := TakePage(space, PageBase(v) + SWP_PAGE);
          if f < 0 {
            return false, 0;
          }
          SetValue(q, offset, LowEntry(f, permissions));
          return true, LowEntry(f, permissions);
        }
        return true, PAGE_FREE;
      } else if state == InMem {
        return true, value - value % 4;
      } else {
        return true, 0x20;
      }
    }

    method PtGetPaddr(root: nat, v: nat, create: bool, perms: nat, space: nat, ghost own: map<nat, Owner>,
                      ghost base: seq<Page>, ghost boot: nat)
      returns (ok: bool, paddr: nat)
      requires Valid() && Inv(View(), own, base, boot) && IsRoot(own, root) && TopIndex(v) < ENTRIES
      requires Permissions(perms)
      modifies cm, cm.pages, mem
      ensures GetPaddr(old(View()), root, v, create, perms, space) == if ok then Some((View(), paddr)) else None
    {
      hide GetTable, GetPage, View, OwnTable, FrameOk, TopOk, LowOk, Ok;
      Sizes();
      Parts();
      InRange(View(), own, base, boot, root);
      var found, spt := GetPagetable(root, v, create, perms, space);
      if !found {
        return false, 0;
      }
      if spt.None? {
        return true, PAGE_FREE;
      }
      GetTableOk(old(View()), own, base, boot, root, v, create, perms, space);
      InRange(View(), OwnTable(old(View()), own, root, v, create, perms, space), base, boot, spt.v);
      Sizes();
      Parts();
      ok, paddr := GetPageAt(spt.v, LowIndex(v), create, v, space);
    }

    /** Change the permissions of a page, made if asked for; done is false if there is none. */
    method PtSetPermissions(root: nat, v: nat, create: bool, perms: nat, space: nat, ghost own: map<nat, Owner>,
                            ghost base: seq<Page>, ghost boot: nat)
      returns (ok: bool, done: bool)
      requires Valid() && Inv(View(), own, base, boot) && IsRoot(own, root) && TopIndex(v) < ENTRIES
      requires Permissions(perms)
      modifies cm, cm.pages, mem
      ensures SetPerms(old(View()), root, v, create, perms, space) == if ok then Some((View(), done)) else None
    {
      hide GetTable, GetPage, View, OwnTable, FrameOk, TopOk, LowOk, Ok, StateOf, PermsOf;
      Sizes();
      Parts();
      InRange(View(), own, base, boot, root);
      var found, spt := GetPagetable(root, v, create, perms, space);
      if !found {
        return false, false;
      }
      if spt.None? {
        return true, false;
      }
      GetTableOk(old(View()), own, base, boot, root, v, create, perms, space);
      InRange(View(), OwnTable(old(View()), own, root, v, create, perms, space), base, boot, spt.v);
      Sizes();
      Parts();
      var offset := LowIndex(v);
      var dst;
      found, dst := GetPageAt(spt.v, offset, create, v, space);
      if !found {
        return false, false;
      }
      WordAt(spt.v, offset);
      var value := mem[spt.v, offset];
      if StateOf(value) == InMem {
        SetValue(spt.v, offset, value - PermsOf(value) + perms);
        return true, true;
      }
      return true, false;
    }

    method PtCreate(space: nat) returns (root: int)
      requires Valid() && cm.last <= cm.pages.Length
      modifies cm, cm.pages, mem
      ensures Create(old(View()), space) == if root >= 0 then Some((View(), root)) else None
    {
      hide MakeTable;
      root := NewTable(0, space, 0);
      if root >= 0 {
        cm.SetPageFixed(root, true);
      }
    }

    /** Free a frame of an address space. */
    method FreeOne(f: nat, ghost boot: nat)
      requires Valid() && f < mem.Length0 && Ok(cm.View(), boot)
      modifies cm, cm.pages
      ensures View() == FreeFrame(old(View()), f) && Ok(cm.View(), boot)
    {
      hide Ok;
      FreePagesOk(cm.View(), boot, f);
      cm.Free(f, boot);
    }

    /** Free every page of a second-level table, then the table. */
    method DestroyNested(value: nat, ghost own: map<nat, Owner>, ghost base: seq<Page>, ghost boot: nat, ghost r: nat,
                         ghost i: nat, ghost vm0: Vm)
      requires Valid() && Inv(vm0, own, base, boot) && View().mem == vm0.mem && Ok(cm.View(), boot)
      requires IsRoot(own, r) && i < ENTRIES && value == Word(vm0, r, i)
      modifies cm, cm.pages
      ensures View() == FreeTable(old(View()), value) && Ok(cm.View(), boot) && View().mem == vm0.mem
    {
      hide FrameOk, LowOk, Ok, View, FreeFrame, FreePagesOf, Memory, BaseOk;
      var state := StateOf(value);
      assert TopOk(vm0, own, r, i);
      if state != InMem {
        return;
      }
      var q := TableOf(value);
      ghost var vm := View();
      Sizes();
      TableInRange(vm0, View(), own, base, boot, q);
      for j := 0 to ENTRIES
        invariant FreePagesOf(View(), q, j) == FreePagesOf(vm, q, 0) && Ok(cm.View(), boot) && View().mem == vm0.mem
      {
        WordAt(q, j);
        FreeStep(View(), q, j);
        F.LeafAt(vm0, own, base, boot, r, i, q, j);
        SameWord(vm0, View(), q, j);
        var entry := mem[q, j];
        if StateOf(entry) == InMem {
          TableInRange(vm0, View(), own, base, boot, FrameOf(entry));
          Sizes();
          FreeMem(View(), FrameOf(entry));
          FreeOne(FrameOf(entry), boot);
        }
      }
      FreeStop(View(), q);
      FreeMem(View(), q);
      FreeOne(q, boot);
    }

    method PtDestroy(root: nat, ghost own: map<nat, Owner>, ghost base: seq<Page>, ghost boot: nat)
      requires Valid() && Inv(View(), own, base, boot) && IsRoot(own, root)
      modifies cm, cm.pages
      ensures View() == Destroy(old(View()), root)
    {
      hide FrameOk, LowOk, TopOk, View, FreeTable, FreeTablesOf, Ok;
      ghost var vm := View();
      Sizes();
      Parts();
      InRange(View(), own, base, boot, root);
      for i := 0 to ENTRIES
        invariant FreeTablesOf(View(), root, i) == FreeTablesOf(vm, root, 0) && Ok(cm.View(), boot)
        invariant View().mem == vm.mem
      {
        WordAt(root, i);
        TablesStep(View(), root, i);
        SameWord(vm, View(), root, i);
        DestroyNested(mem[root, i], own, base, boot, root, i, vm);
      }
      TablesStop(View(), root);
      FreeOne(root, boot);
    }

    method SetFixedPage(f: nat, fixed: bool)
      requires Valid() && f < mem.Length0
      modifies cm.pages
      ensures View() == C.Fix(old(View()), f, fixed)
    {
      cm.SetPageFixed(f, fixed);
    }

    /** Move the contents of one page to another. */
    method MovePage(to: nat, from: nat)
      requires Valid() && to < mem.Length0 && from < mem.Length0
      modifies mem
      ensures View() == C.CopyWords(old(View()), to, from)
    {
      ghost var was := Rows();
      for k := 0 to ENTRIES
        invariant forall q, j :: 0 <= q < mem.Length0 && 0 <= j < ENTRIES ==>
          mem[q, j] == if q == to && j < k then was[from][j] else was[q][j]
      {
        mem[to, k] := mem[from, k];
      }
      assert Row(to) == was[from];
      assert forall q :: 0 <= q < mem.Length0 && q != to ==> Row(q) == was[q];
      assert Rows() == was[to := was[from]];
    }

    /** Copy one page of the parent to the same address of the child. */
    method CopyOne(dst: nat, v: nat, f1: nat, perms: nat, space: nat, ghost own: map<nat, Owner>, ghost base: seq<Page>,
                   ghost boot: nat)
      returns (ok: bool)
      requires Valid() && Inv(View(), own, base, boot) && IsRoot(own, dst) && f1 in own && TopIndex(v) < ENTRIES
      requires Permissions(perms)
      requires own[f1].part.Leaf? && own[f1].root != dst && Mapped(View(), dst, v).None?
      modifies cm, cm.pages, mem
      ensures C.CopyPage(old(View()), dst, v, f1, perms, space) == if ok then Some(View()) else None
    {
      hide GetPaddr, View, Inv, C.Fix, C.CopyWords, OwnPaddr, Mapped, Kept, Apart, C.OnePageMore;
      ghost var vm := View();
      Sizes();
      InRange(vm, own, base, boot, f1);
      SetFixedPage(f1, true);
      C.FixInv(vm, own, base, boot, f1, true);
      ghost var vm1 := View();
      var paddr2;
      ok, paddr2 := PtGetPaddr(dst, v, true, perms, space, own, base, boot);
      if !ok {
        return;
      }
      C.SameMapped(vm, vm1, dst);
      GetPaddrOk(vm1, own, base, boot, dst, v, true, perms, space);
      ghost var own' := OwnPaddr(vm1, own, dst, v, true, perms, space);
      MappedLeaf(View(), own', base, boot, dst, v);
      var f2 := paddr2 / PAGE_SIZE;
      InRange(View(), own', base, boot, f2);
      Sizes();
      SetFixedPage(f2, true);
      MovePage(f2, f1);
      SetFixedPage(f1, false);
      SetFixedPage(f2, false);
    }

    /** Go through the regions to see whether a page that may not be written lies in one. */
    method InRegion(v: nat, perms: nat, regions: seq<C.Region>) returns (found: bool)
      ensures !found == C.Copied(v, perms, regions)
    {
      found := false;
      var r := 0;
      while r < |regions| && perms / PAGE_W % 2 == 0
        invariant 0 <= r <= |regions| && !found
        invariant forall k :: 0 <= k < r ==>
          !C.Overlaps(v, C.Wrap(v + PAGE_SIZE), regions[k].vaddr, C.Wrap(regions[k].vaddr + regions[k].memsize))
      {
        var rbot := regions[r].vaddr;
        var rtop := C.Wrap(rbot + regions[r].memsize);
        if C.Overlaps(v, C.Wrap(v + PAGE_SIZE), rbot, rtop) {
          return true;
        }
        r := r + 1;
      }
    }

    /** The pages of one second-level table of the parent. */
    method CopyTable(q: nat, i: nat, dst: nat, regions: seq<C.Region>, space: nat, ghost vm0: Vm,
                     ghost own0: map<nat, Owner>, ghost own: map<nat, Owner>, ghost base: seq<Page>, ghost boot: nat,
                     ghost src: nat)
      returns (ok: bool, ghost own': map<nat, Owner>)
      requires Valid() && Inv(vm0, own0, base, boot) && IsRoot(own0, src) && src != dst && i < ENTRIES
      requires StateOf(Word(vm0, src, i)) == InMem && q == TableOf(Word(vm0, src, i))
      requires C.Progress(vm0, View(), own0, own, base, boot, src, dst, regions, i * ENTRIES)
      modifies cm, cm.pages, mem
      ensures C.CopyLow(old(View()), q, i, 0, dst, regions, space) == if ok then Some(View()) else None
      ensures ok ==> C.Progress(vm0, View(), own0, own', base, boot, src, dst, regions, (i + 1) * ENTRIES)
    {
      hide View, Inv, C.Progress, C.CopyLow, C.CopyPage, C.Wanted, C.Copied, C.OwnCopy, StateOf, PermsOf, Word, TableOf;
      hide Mapped;
      ghost var vm := View();
      own' := own;
      for j := 0 to ENTRIES
        invariant C.CopyLow(View(), q, i, j, dst, regions, space) == C.CopyLow(vm, q, i, 0, dst, regions, space)
        invariant C.Progress(vm0, View(), own0, own', base, boot, src, dst, regions, i * ENTRIES + j)
      {
        ghost var n := i * ENTRIES + j;
        C.ProgressApart(vm0, View(), own0, own', base, boot, src, dst, regions, n);
        C.WantedNow(vm0, View(), own0, base, boot, src, dst, regions, i, j);
        C.NumberParts(i, j);
        LowStep(View(), q, i, j, dst, regions, space);
        ParentRange(vm0, View(), own0, own', base, boot, src, dst, regions, n, i);
        Sizes();
        WordAt(q, j);
        var value := mem[q, j];
        var inRegion := InRegion(i * UP + j * PAGE_SIZE, PermsOf(value), regions);
        if StateOf(value) == InMem && !inRegion {
          ghost var now := View();
          CopyReady(vm0, now, own0, own', base, boot, src, dst, regions, n);
          ok := CopyOne(dst, i * UP + j * PAGE_SIZE, FrameOf(value), PermsOf(value), space, own', base, boot);
          if !ok {
            return;
          }
          C.PageCopied(vm0, now, own0, own', base, boot, src, dst, regions, n, FrameOf(value), PermsOf(value), space);
          own' := C.OwnCopy(now, own', dst, n * PAGE_SIZE, FrameOf(value), PermsOf(value), space);
        } else {
          C.PageSkipped(vm0, View(), own0, own', base, boot, src, dst, regions, n);
        }
      }
      C.CopyEnds(View(), q, src, i, dst, regions, space);
      ok := true;
    }

    /** Copy an address space into an empty page table. */
    method PtCopy(src: nat, dst: nat, regions: seq<C.Region>, space: nat, ghost own: map<nat, Owner>,
                  ghost base: seq<Page>, ghost boot: nat)
      returns (ok: bool)
      requires Valid() && Inv(View(), own, base, boot) && IsRoot(own, src) && IsRoot(own, dst) && src != dst
      requires forall n :: 0 <= n < C.PAGES ==> Mapped(View(), dst, n * PAGE_SIZE).None?
      modifies cm, cm.pages, mem
      ensures C.Copy(old(View()), src, dst, regions, space) == if ok then Some(View()) else None
    {
      hide View, Inv, C.Progress, C.CopyTop, C.CopyLow, C.Wanted, StateOf, Word, TableOf, Mapped;
      ghost var vm := View();
      ghost var own' := own;
      StartCopy(vm, own, base, boot, src, dst, regions);
      Sizes();
      InRange(vm, own, base, boot, src);
      for i := 0 to ENTRIES
        invariant C.CopyTop(View(), src, i, dst, regions, space) == C.CopyTop(vm, src, 0, dst, regions, space)
        invariant C.Progress(vm, View(), own, own', base, boot, src, dst, regions, i * ENTRIES)
      {
        C.ProgressApart(vm, View(), own, own', base, boot, src, dst, regions, i * ENTRIES);
        C.ParentSame(vm, View(), own, base, boot, src, dst, i, 0);
        TopStep(View(), src, i, dst, regions, space);
        WordAt(src, i);
        var value := mem[src, i];
        if StateOf(value) == InMem {
          var copied;
          copied, own' := CopyTable(TableOf(value), i, dst, regions, space, vm, own, own', base, boot, src);
          if !copied {
            return false;
          }
        } else {
          C.StretchSkipped(vm, View(), own, own', base, boot, src, dst, regions, i, 0);
        }
      }
      C.CopyEnds(View(), 0, src, 0, dst, regions, space);
      ok := true;
    }

    lemma Parts()
      requires Valid()
      ensures View() == Vm(cm.View(), Rows())
    {
    }
  }

  lemma InRange(vm: Vm, own: map<nat, Owner>, base: seq<Page>, boot: nat, f: nat)
    requires Inv(vm, own, base, boot) && f in own
    ensures f < |vm.cm.pages| && vm.cm.last <= |vm.cm.pages| && Ok(vm.cm, boot)
  {
    assert FrameOk(vm, own, f);
  }

  lemma TableInRange(vm0: Vm, vm: Vm, own: map<nat, Owner>, base: seq<Page>, boot: nat, f: nat)
    requires Inv(vm0, own, base, boot) && f in own && vm.mem == vm0.mem
    ensures f < |vm.mem|
  {
    assert FrameOk(vm0, own, f);
  }

  lemma SameWord(vm0: Vm, vm: Vm, q: nat, j: nat)
    requires vm.mem == vm0.mem
    ensures Word(vm, q, j) == Word(vm0, q, j)
  {
  }

  lemma FreeMem(vm: Vm, f: nat)
    ensures FreeFrame(vm, f).mem == vm.mem
  {
  }

  lemma FreeStep(vm: Vm, q: nat, j: nat)
    requires j < ENTRIES
    ensures var value := Word(vm, q, j);
      FreePagesOf(vm, q, j) ==
        FreePagesOf(if StateOf(value) == InMem then FreeFrame(vm, FrameOf(value)) else vm, q, j + 1)
  {
    hide FreeFrame, StateOf;
  }

  lemma FreeStop(vm: Vm, q: nat)
    ensures FreePagesOf(vm, q, ENTRIES) == vm
  {
  }

  lemma TablesStep(vm: Vm, r: nat, i: nat)
    requires i < ENTRIES
    ensures FreeTablesOf(vm, r, i) == FreeTablesOf(FreeTable(vm, Word(vm, r, i)), r, i + 1)
  {
    hide FreeTable;
  }

  lemma TablesStop(vm: Vm, r: nat)
    ensures FreeTablesOf(vm, r, ENTRIES) == vm
  {
  }

  lemma LowStep(vm: Vm, q: nat, i: nat, j: nat, dst: nat, regions: seq<C.Region>, space: nat)
    requires j < ENTRIES
    ensures var value := Word(vm, q, j); var v := i * UP + j * PAGE_SIZE;
      C.CopyLow(vm, q, i, j, dst, regions, space) ==
      if StateOf(value) == InMem && C.Copied(v, PermsOf(value), regions) then
        match C.CopyPage(vm, dst, v, FrameOf(value), PermsOf(value), space)
        case None => None
        case Some(vm1) => C.CopyLow(vm1, q, i, j + 1, dst, regions, space)
      else C.CopyLow(vm, q, i, j + 1, dst, regions, space)
  {
    hide C.Copied, C.CopyPage, StateOf, PermsOf;
  }

  lemma TopStep(vm: Vm, src: nat, i: nat, dst: nat, regions: seq<C.Region>, space: nat)
    requires i < ENTRIES
    ensures var value := Word(vm, src, i);
      C.CopyTop(vm, src, i, dst, regions, space) ==
      if StateOf(value) == InMem then
        match C.CopyLow(vm, TableOf(value), i, 0, dst, regions, space)
        case None => None
        case Some(vm1) => C.CopyTop(vm1, src, i + 1, dst, regions, space)
      else C.CopyTop(vm, src, i + 1, dst, regions, space)
  {
    hide C.CopyLow, StateOf;
  }

  lemma StartCopy(vm: Vm, own: map<nat, Owner>, base: seq<Page>, boot: nat, src: nat, dst: nat, regions: seq<C.Region>)
    requires Inv(vm, own, base, boot) && IsRoot(own, src) && IsRoot(own, dst)
    requires forall n :: 0 <= n < C.PAGES ==> Mapped(vm, dst, n * PAGE_SIZE).None?
    ensures C.Progress(vm, vm, own, own, base, boot, src, dst, regions, 0)
  {
    hide Inv, Mapped, C.Wanted;
    KeptSelf(vm, own);
  }

  /** The table being copied is where it was. */
  lemma ParentRange(vm0: Vm, vm: Vm, own0: map<nat, Owner>, own: map<nat, Owner>, base: seq<Page>, boot: nat, src: nat,
                    dst: nat, regions: seq<C.Region>, n: nat, i: nat)
    requires Inv(vm0, own0, base, boot) && IsRoot(own0, src) && i < ENTRIES && StateOf(Word(vm0, src, i)) == InMem
    requires C.Progress(vm0, vm, own0, own, base, boot, src, dst, regions, n)
    ensures TableOf(Word(vm0, src, i)) < |vm.mem|
  {
    hide FrameOk, LowOk, Memory, BaseOk, C.PageDone;
    assert TopOk(vm0, own0, src, i);
    var q := TableOf(Word(vm0, src, i));
    assert q in own;
    InRange(vm, own, base, boot, q);
    MemSize(vm, own, base, boot);
  }

  lemma MemSize(vm: Vm, own: map<nat, Owner>, base: seq<Page>, boot: nat)
    requires Inv(vm, own, base, boot)
    ensures |vm.mem| == |vm.cm.pages|
  {
  }

  /** What copying the next page asks for. */
  lemma CopyReady(vm0: Vm, vm: Vm, own0: map<nat, Owner>, own: map<nat, Owner>, base: seq<Page>, boot: nat, src: nat,
                  dst: nat, regions: seq<C.Region>, n: nat)
    requires Inv(vm0, own0, base, boot) && IsRoot(own0, src) && src != dst && n < C.PAGES
    requires C.Progress(vm0, vm, own0, own, base, boot, src, dst, regions, n) && Mapped(vm0, src, n * PAGE_SIZE).Some?
    ensures Inv(vm, own, base, boot) && IsRoot(own, dst) && TopIndex(n * PAGE_SIZE) < ENTRIES
    ensures Mapped(vm, dst, n * PAGE_SIZE).None?
    ensures var f := Mapped(vm0, src, n * PAGE_SIZE).v; f in own && own[f].part.Leaf? && own[f].root != dst
  {
    hide Inv, Mapped, C.Wanted;
    C.NumberSplit(n);
    MappedLeaf(vm0, own0, base, boot, src, n * PAGE_SIZE);
    assert C.PageDone(vm0, vm, own0, src, dst, regions, n, n);
  }

  lemma GotInRange(m: Map, p: nat)
    requires GetPages(m, 1).1 == Some(p)
    ensures p < |m.pages|
  {
  }
}
