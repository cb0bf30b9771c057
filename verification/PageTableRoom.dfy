/** How much memory the page table calls take, and when they run out of it. */
module PageTableRoom {
  import opened Coremaps
  import opened PageTables
  import opened PageTableInv
  import opened PageTableCopy
  import opened PageTablePerms

  /** How many pages of memory are free. */
  function Room(vm: Vm): int {
    |vm.cm.pages| - vm.cm.inUse
  }

  lemma {:induction false} SomeFree(pages: seq<Page>) returns (p: nat)
    requires Used(pages) < |pages|
    ensures p < |pages| && pages[p].state == FREE
  {
    var n := |pages| - 1;
    if pages[n].state == FREE {
      p := n;
    } else {
      p := SomeFree(pages[..n]);
    }
  }

  lemma {:induction false} AllUsed(pages: seq<Page>)
    ensures Used(pages) <= |pages|
    ensures Used(pages) == |pages| ==> forall p :: 0 <= p < |pages| ==> pages[p].state != FREE
  {
    if pages != [] {
      AllUsed(pages[..|pages| - 1]);
    }
  }

  lemma RoomLeft(vm: Vm, boot: nat)
    requires Memory(vm, boot)
    ensures Room(vm) >= 0
  {
    AllUsed(vm.cm.pages);
  }

  /** A page can be had exactly if one is free. */
  lemma TakeRoom(vm: Vm, boot: nat, space: nat, note: nat)
    requires Memory(vm, boot)
    ensures Take(vm, space, note).Some? <==> Room(vm) > 0
    ensures Take(vm, space, note).Some? ==>
      var (vm1, p) := Take(vm, space, note).v; Room(vm1) == Room(vm) - 1 && p < |vm.mem| && vm1.mem == vm.mem
  {
    hide Ok, Find, GetPages;
    OneFree(vm.cm, boot);
    GetRoom(vm.cm);
    GetPagesOk(vm.cm, boot, 1);
  }

  lemma GetRoom(m: Map)
    ensures var (m', r) := GetPages(m, 1);
      r.Some? ==> m'.inUse == m.inUse + 1 && |m'.pages| == |m.pages| && r.v < |m.pages|
  {
    hide Find;
  }

  lemma OneFree(m: Map, boot: nat)
    requires Ok(m, boot)
    ensures GetPages(m, 1).1.Some? <==> m.inUse < |m.pages|
  {
    hide PageOk, GetPages;
    AllUsed(m.pages);
    GetPagesFails(m, 1);
    assert forall p: nat :: FreeRun(m.pages, p, 1) ==> m.pages[p].state == FREE;
    if m.inUse < |m.pages| {
      var p := SomeFree(m.pages);
      assert FreeRun(m.pages, p, 1);
    }
  }

  lemma CreateRoom(vm: Vm, own: map<nat, Owner>, base: seq<Page>, boot: nat, space: nat)
    requires Inv(vm, own, base, boot)
    ensures Create(vm, space).Some? <==> Room(vm) > 0
    ensures Create(vm, space).Some? ==> Room(Create(vm, space).v.0) == Room(vm) - 1
    ensures Create(vm, space).Some? ==> EmptyTop(Create(vm, space).v.0, Create(vm, space).v.1)
  {
    hide Take, Ok, FrameOk, TopOk, LowOk, BaseOk;
    var note := PageBase(0) + SWP_TABLE;
    TakeRoom(vm, boot, space, note);
    if Take(vm, space, note).Some? {
      TakeOk(vm, own, base, boot, space, note);
      VacantFacts(0);
    }
  }

  // ---- A fault -------------------------------------------------------------

  function TableCost(vm: Vm, r: nat, v: nat): nat {
    if StateOf(Word(vm, r, TopIndex(v))) == Vacant then 1 else 0
  }

  /** A page for the second-level table if there is none, and one for the page if it is not mapped. */
  function FaultCost(vm: Vm, r: nat, v: nat): nat {
    TableCost(vm, r, v) + if Mapped(vm, r, v).None? then 1 else 0
  }

  lemma TableRoom(vm: Vm, own: map<nat, Owner>, base: seq<Page>, boot: nat, r: nat, v: nat, perms: nat, space: nat)
    requires Inv(vm, own, base, boot) && IsRoot(own, r)
    ensures GetTable(vm, r, v, true, perms, space).Some? <==> Room(vm) >= TableCost(vm, r, v)
    ensures GetTable(vm, r, v, true, perms, space).Some? ==>
      Room(GetTable(vm, r, v, true, perms, space).v.0) == Room(vm) - TableCost(vm, r, v)
  {
    hide Take, Ok, FrameOk, TopOk, LowOk, BaseOk, StateOf, TopIndex, Word;
    RoomLeft(vm, boot);
    TakeRoom(vm, boot, space, PageBase(v) + SWP_TABLE);
  }

  lemma PageRoom(vm: Vm, own: map<nat, Owner>, base: seq<Page>, boot: nat, q: nat, j: nat, v: nat, space: nat)
    requires Inv(vm, own, base, boot)
    ensures var cost := if StateOf(Word(vm, q, j)) == Vacant then 1 else 0;
      && (GetPage(vm, q, j, true, v, space).Some? <==> Room(vm) >= cost)
      && (GetPage(vm, q, j, true, v, space).Some? ==> Room(GetPage(vm, q, j, true, v, space).v.0) == Room(vm) - cost)
  {
    hide Take, Ok, FrameOk, TopOk, LowOk, BaseOk, StateOf, Word;
    RoomLeft(vm, boot);
    TakeRoom(vm, boot, space, PageBase(v) + SWP_PAGE);
  }

  lemma EntryState(vm: Vm, own: map<nat, Owner>, base: seq<Page>, boot: nat, r: nat, v: nat, q: nat)
    requires Inv(vm, own, base, boot) && IsTable(own, q, r, TopIndex(v)) && Word(vm, r, TopIndex(v)) == TopEntry(q)
    ensures StateOf(Word(vm, q, LowIndex(v))) == Vacant <==> Mapped(vm, r, v).None?
  {
    hide Memory, BaseOk, FrameOk, TopOk, StateOf, TopIndex, LowIndex, TableOf, PermsOf;
    TopFacts(q);
    assert LowOk(vm, own, q, LowIndex(v));
    if StateOf(Word(vm, q, LowIndex(v))) != Vacant {
      LowEntryParts(Word(vm, q, LowIndex(v)));
    }
  }

  /** A fault succeeds exactly if as many pages are free as it takes. */
  lemma FaultRoom(vm: Vm, own: map<nat, Owner>, base: seq<Page>, boot: nat, r: nat, v: nat, perms: nat, space: nat)
    requires Inv(vm, own, base, boot) && IsRoot(own, r) && TopIndex(v) < ENTRIES && Permissions(perms)
    ensures GetPaddr(vm, r, v, true, perms, space).Some? <==> Room(vm) >= FaultCost(vm, r, v)
    ensures GetPaddr(vm, r, v, true, perms, space).Some? ==>
      Room(GetPaddr(vm, r, v, true, perms, space).v.0) == Room(vm) - FaultCost(vm, r, v)
  {
    hide Inv, GetPage, GetTable, OwnTable, Kept, Apart, RootsKept, StateOf, TopIndex, LowIndex, Word, TableCost, Mapped;
    hide Permissions;
    TableRoom(vm, own, base, boot, r, v, perms, space);
    if GetTable(vm, r, v, true, perms, space).Some? {
      GetTableOk(vm, own, base, boot, r, v, true, perms, space);
      TableMaps(vm, own, base, boot, r, v, perms, space, v);
      var (vm1, t) := GetTable(vm, r, v, true, perms, space).v;
      var own1 := OwnTable(vm, own, r, v, true, perms, space);
      PageRoom(vm1, own1, base, boot, t.v, LowIndex(v), v, space);
      EntryState(vm1, own1, base, boot, r, v, t.v);
    }
  }

  // ---- A copy --------------------------------------------------------------

  lemma FixRoom(vm: Vm, f: nat, fixed: bool)
    ensures Room(PageTableCopy.Fix(vm, f, fixed)) == Room(vm) && PageTableCopy.Fix(vm, f, fixed).mem == vm.mem
  {
  }

  lemma WordsRoom(vm: Vm, to: nat, from: nat)
    ensures Room(CopyWords(vm, to, from)) == Room(vm)
  {
  }

  lemma CostSame(vm: Vm, vm': Vm, r: nat, v: nat)
    requires vm'.mem == vm.mem
    ensures FaultCost(vm', r, v) == FaultCost(vm, r, v)
  {
    SameMapped(vm, vm', r);
  }

  lemma CopyPageRoom(vm: Vm, own: map<nat, Owner>, base: seq<Page>, boot: nat, dst: nat, v: nat, f1: nat, perms: nat,
                     space: nat)
    requires Inv(vm, own, base, boot) && IsRoot(own, dst) && f1 in own && TopIndex(v) < ENTRIES && Permissions(perms)
    ensures CopyPage(vm, dst, v, f1, perms, space).Some? <==> Room(vm) >= FaultCost(vm, dst, v)
    ensures CopyPage(vm, dst, v, f1, perms, space).Some? ==>
      Room(CopyPage(vm, dst, v, f1, perms, space).v) == Room(vm) - FaultCost(vm, dst, v)
  {
    hide Inv, GetPaddr, FaultCost, TopIndex, Room, PageTableCopy.Fix, CopyWords;
    FixInv(vm, own, base, boot, f1, true);
    var vm1 := PageTableCopy.Fix(vm, f1, true);
    FixRoom(vm, f1, true);
    CostSame(vm, vm1, dst, v);
    FaultRoom(vm1, own, base, boot, dst, v, perms, space);
    if GetPaddr(vm1, dst, v, true, perms, space).Some? {
      var (vm2, paddr2) := GetPaddr(vm1, dst, v, true, perms, space).v;
      var f2 := paddr2 / PAGE_SIZE;
      FixRoom(vm2, f2, true);
      var vm3 := PageTableCopy.Fix(vm2, f2, true);
      WordsRoom(vm3, f2, f1);
      var vm4 := CopyWords(vm3, f2, f1);
      FixRoom(vm4, f1, false);
      FixRoom(PageTableCopy.Fix(vm4, f1, false), f2, false);
    }
  }

  /** A page for each page to be copied, and one for each second-level table they need. */
  ghost function PageNeed(vm: Vm, src: nat, regions: seq<Region>, n: nat): nat {
    if !Wanted(vm, src, regions, n) then 0 else if IsFirst(vm, src, regions, n) then 2 else 1
  }

  ghost function Need(vm: Vm, src: nat, regions: seq<Region>, n: nat, end: nat): nat
    decreases end - n
  {
    if n >= end then 0 else PageNeed(vm, src, regions, n) + Need(vm, src, regions, n + 1, end)
  }

  lemma {:induction false} NeedSplit(vm: Vm, src: nat, regions: seq<Region>, n: nat, mid: nat, end: nat)
    requires n <= mid <= end
    ensures Need(vm, src, regions, n, end) == Need(vm, src, regions, n, mid) + Need(vm, src, regions, mid, end)
    decreases mid - n
  {
    hide PageNeed;
    if n < mid {
      NeedSplit(vm, src, regions, n + 1, mid, end);
    }
  }

  lemma {:induction false} NeedNone(vm: Vm, src: nat, regions: seq<Region>, n: nat, end: nat)
    requires forall m :: n <= m < end ==> !Wanted(vm, src, regions, m)
    ensures Need(vm, src, regions, n, end) == 0
    decreases end - n
  {
    hide Wanted, IsFirst;
    if n < end {
      NeedNone(vm, src, regions, n + 1, end);
    }
  }

  /** Whether the child has the second-level table is whether a page has been copied to it. */
  lemma FirstMakesTable(vm0: Vm, vm: Vm, src: nat, dst: nat, regions: seq<Region>, n: nat)
    requires AllLabelled(vm0, vm, src, dst, regions, n) && Wanted(vm0, src, regions, n) && n < PAGES
    ensures StateOf(Word(vm, dst, n / ENTRIES)) == Vacant <==> IsFirst(vm0, src, regions, n)
  {
    hide Wanted, ParentPerms, StateOf, Word, PermsOf, TableOf;
    var i := n / ENTRIES;
    assert Labelled(vm0, vm, src, dst, regions, n, i);
    if IsFirst(vm0, src, regions, n) {
      forall k | 0 <= k < n && k / ENTRIES == i
        ensures !Wanted(vm0, src, regions, k)
      {
        SameStretch(k, n);
      }
    } else {
      var first := FirstExists(vm0, src, regions, n);
      assert Uniform(vm, dst, i, ParentPerms(vm0, src, first));
    }
  }

  /** What copying page n takes is its share. */
  lemma PageCosts(vm0: Vm, vm: Vm, own0: map<nat, Owner>, own: map<nat, Owner>, base: seq<Page>, boot: nat, src: nat,
                  dst: nat, regions: seq<Region>, n: nat)
    requires Progress(vm0, vm, own0, own, base, boot, src, dst, regions, n) && n < PAGES
    requires AllLabelled(vm0, vm, src, dst, regions, n) && Wanted(vm0, src, regions, n)
    ensures FaultCost(vm, dst, n * PAGE_SIZE) == PageNeed(vm0, src, regions, n)
  {
    hide Inv, Wanted, Mapped, Kept, Apart, PageDone, AllLabelled, IsFirst, StateOf, Word, TopIndex, LowIndex;
    NumberSplit(n);
    NotYet(vm0, vm, own0, src, dst, regions, n);
    FirstMakesTable(vm0, vm, src, dst, regions, n);
  }

  lemma NextRoom(vm0: Vm, vm: Vm, own0: map<nat, Owner>, own: map<nat, Owner>, base: seq<Page>, boot: nat, src: nat,
                 dst: nat, regions: seq<Region>, n: nat, f1: nat, perms: nat, space: nat)
    requires Inv(vm0, own0, base, boot) && IsRoot(own0, src) && src != dst && n < PAGES && Permissions(perms)
    requires Progress(vm0, vm, own0, own, base, boot, src, dst, regions, n)
    requires AllLabelled(vm0, vm, src, dst, regions, n) && Wanted(vm0, src, regions, n)
    requires Some(f1) == Mapped(vm0, src, n * PAGE_SIZE)
    ensures var c := CopyPage(vm, dst, n * PAGE_SIZE, f1, perms, space); var cost := PageNeed(vm0, src, regions, n);
      (c.Some? <==> Room(vm) >= cost) && (c.Some? ==> Room(c.v) == Room(vm) - cost)
  {
    hide Inv, Wanted, Mapped, CopyPage, Kept, Apart, PageDone, TopIndex, LowIndex, AllLabelled, PageNeed, Room;
    hide FaultCost;
    NumberSplit(n);
    MappedLeaf(vm0, own0, base, boot, src, n * PAGE_SIZE);
    KeptOwner(vm0, vm, own0, own, f1);
    CopyPageRoom(vm, own, base, boot, dst, n * PAGE_SIZE, f1, perms, space);
    PageCosts(vm0, vm, own0, own, base, boot, src, dst, regions, n);
  }

  lemma ProgressRoom(vm0: Vm, vm: Vm, own0: map<nat, Owner>, own: map<nat, Owner>, base: seq<Page>, boot: nat, src: nat,
                     dst: nat, regions: seq<Region>, n: nat)
    requires Progress(vm0, vm, own0, own, base, boot, src, dst, regions, n)
    ensures Room(vm) >= 0
  {
    hide PageDone, FrameOk, TopOk, LowOk, BaseOk;
    RoomLeft(vm, boot);
  }

  ghost predicate Takes(vm: Vm, r: Option<Vm>, need: nat) {
    (r.Some? <==> Room(vm) >= need) && (r.Some? ==> Room(r.v) == Room(vm) - need)
  }

  lemma {:induction false} CopyLowRoom(vm0: Vm, vm: Vm, own0: map<nat, Owner>, own: map<nat, Owner>, base: seq<Page>,
                                       boot: nat, src: nat, dst: nat, regions: seq<Region>, i: nat, j: nat, space: nat)
    requires Inv(vm0, own0, base, boot) && IsRoot(own0, src) && src != dst && i < ENTRIES && j <= ENTRIES
    requires StateOf(Word(vm0, src, i)) == InMem
    requires Progress(vm0, vm, own0, own, base, boot, src, dst, regions, i * ENTRIES + j)
    requires AllLabelled(vm0, vm, src, dst, regions, i * ENTRIES + j)
    ensures Takes(vm, CopyLow(vm, TableOf(Word(vm0, src, i)), i, j, dst, regions, space),
                  Need(vm0, src, regions, i * ENTRIES + j, (i + 1) * ENTRIES))
    decreases ENTRIES - j
  {
    hide Inv, Progress, Wanted, Copied, CopyPage, CopyLow, StateOf, PermsOf, Mapped, OwnCopy, Word, TableOf;
    hide AllLabelled;
    hide Room, PageNeed;
    var q := TableOf(Word(vm0, src, i));
    var n := i * ENTRIES + j;
    ProgressRoom(vm0, vm, own0, own, base, boot, src, dst, regions, n);
    if j == ENTRIES {
      CopyEnds(vm, q, src, i, dst, regions, space);
    } else {
      ProgressApart(vm0, vm, own0, own, base, boot, src, dst, regions, n);
      CopyLowStep(vm, q, i, j, dst, regions, space);
      WantedNow(vm0, vm, own0, base, boot, src, dst, regions, i, j);
      ParentSame(vm0, vm, own0, base, boot, src, dst, i, j);
      NumberParts(i, j);
      var value := Word(vm, q, j);
      if Wanted(vm0, src, regions, n) {
        NextRoom(vm0, vm, own0, own, base, boot, src, dst, regions, n, FrameOf(value), PermsOf(value), space);
        var c := CopyPage(vm, dst, n * PAGE_SIZE, FrameOf(value), PermsOf(value), space);
        if c.Some? {
          PageCopied(vm0, vm, own0, own, base, boot, src, dst, regions, n, FrameOf(value), PermsOf(value), space);
          NextLabelled(vm0, vm, own0, own, base, boot, src, dst, regions, n, FrameOf(value), space);
          var own1 := OwnCopy(vm, own, dst, n * PAGE_SIZE, FrameOf(value), PermsOf(value), space);
          CopyLowRoom(vm0, c.v, own0, own1, base, boot, src, dst, regions, i, j + 1, space);
        }
      } else {
        NotNeeded(vm0, src, regions, n);
        PageSkipped(vm0, vm, own0, own, base, boot, src, dst, regions, n);
        LabelSkipped(vm0, vm, src, dst, regions, n);
        CopyLowRoom(vm0, vm, own0, own, base, boot, src, dst, regions, i, j + 1, space);
      }
    }
  }

  lemma NotNeeded(vm: Vm, src: nat, regions: seq<Region>, n: nat)
    requires !Wanted(vm, src, regions, n)
    ensures PageNeed(vm, src, regions, n) == 0
  {
  }

  lemma StretchNeed(vm: Vm, src: nat, regions: seq<Region>, i: nat)
    requires i < ENTRIES && StateOf(Word(vm, src, i)) != InMem
    ensures Need(vm, src, regions, i * ENTRIES, (i + 1) * ENTRIES) == 0
  {
    hide Wanted, StateOf, Word, Need;
    forall m | i * ENTRIES <= m < (i + 1) * ENTRIES
      ensures !Wanted(vm, src, regions, m)
    {
      NotThere(vm, src, regions, i, m - i * ENTRIES);
    }
    NeedNone(vm, src, regions, i * ENTRIES, (i + 1) * ENTRIES);
  }

  lemma {:induction false} CopyTopRoom(vm0: Vm, vm: Vm, own0: map<nat, Owner>, own: map<nat, Owner>, base: seq<Page>,
                                       boot: nat, src: nat, dst: nat, regions: seq<Region>, i: nat, space: nat)
    requires Inv(vm0, own0, base, boot) && IsRoot(own0, src) && src != dst && i <= ENTRIES
    requires Progress(vm0, vm, own0, own, base, boot, src, dst, regions, i * ENTRIES)
    requires AllLabelled(vm0, vm, src, dst, regions, i * ENTRIES)
    ensures Takes(vm, CopyTop(vm, src, i, dst, regions, space), Need(vm0, src, regions, i * ENTRIES, PAGES))
    decreases ENTRIES - i
  {
    hide Inv, Progress, CopyLow, CopyTop, StateOf, Word, TableOf, AllLabelled, Room, Need;
    ProgressRoom(vm0, vm, own0, own, base, boot, src, dst, regions, i * ENTRIES);
    if i == ENTRIES {
      CopyEnds(vm, 0, src, i, dst, regions, space);
      NeedNone(vm0, src, regions, PAGES, PAGES);
    } else {
      ProgressApart(vm0, vm, own0, own, base, boot, src, dst, regions, i * ENTRIES);
      CopyTopStep(vm, src, i, dst, regions, space);
      ParentSame(vm0, vm, own0, base, boot, src, dst, i, 0);
      NeedSplit(vm0, src, regions, i * ENTRIES, (i + 1) * ENTRIES, PAGES);
      var value := Word(vm, src, i);
      if StateOf(value) == InMem {
        CopyLowRoom(vm0, vm, own0, own, base, boot, src, dst, regions, i, 0, space);
        var c := CopyLow(vm, TableOf(value), i, 0, dst, regions, space);
        if c.Some? {
          var own1 := CopyLowLabels(vm0, vm, own0, own, base, boot, src, dst, regions, i, 0, space);
          CopyTopRoom(vm0, c.v, own0, own1, base, boot, src, dst, regions, i + 1, space);
        }
      } else {
        StretchNeed(vm0, src, regions, i);
        StretchSkipped(vm0, vm, own0, own, base, boot, src, dst, regions, i, 0);
        StretchLabels(vm0, vm, src, dst, regions, i, 0);
        CopyTopRoom(vm0, vm, own0, own, base, boot, src, dst, regions, i + 1, space);
      }
    }
  }

  /**
   * Copying into a new page table runs out of memory exactly if fewer pages are free than there are pages to be copied
   * and second-level tables for them; if not, that is what it takes.
   */
  lemma CopyRoom(vm: Vm, own: map<nat, Owner>, base: seq<Page>, boot: nat, src: nat, dst: nat, regions: seq<Region>,
                 space: nat)
    requires Inv(vm, own, base, boot) && IsRoot(own, src) && IsRoot(own, dst) && src != dst && EmptyTop(vm, dst)
    ensures Takes(vm, Copy(vm, src, dst, regions, space), Need(vm, src, regions, 0, PAGES))
  {
    hide Inv, Progress, CopyTop, AllLabelled, EmptyTop, Need;
    StartLabelled(vm, own, base, boot, src, dst, regions);
    CopyTopRoom(vm, vm, own, own, base, boot, src, dst, regions, 0, space);
  }
}
