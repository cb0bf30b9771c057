/** Copying an address space: fresh frames with the same contents, and the parent as it was. */
module PageTableCopy {
  import opened Coremaps
  import opened PageTables
  import opened PageTableInv

  const PAGES := ENTRIES * ENTRIES

  // ---- What one fault maps ------------------------------------------------

  lemma TableMaps(vm: Vm, own: map<nat, Owner>, base: seq<Page>, boot: nat, r: nat, v: nat, perms: nat, space: nat,
                  v': nat)
    requires Inv(vm, own, base, boot) && IsRoot(own, r) && TopIndex(v) < ENTRIES && TopIndex(v') < ENTRIES
    requires Permissions(perms)
    requires GetTable(vm, r, v, true, perms, space).Some?
    ensures Mapped(GetTable(vm, r, v, true, perms, space).v.0, r, v') == Mapped(vm, r, v')
  {
    NeverSwapped(vm, own, base, boot, r, v);
    var i := TopIndex(v);
    if StateOf(Word(vm, r, i)) == Vacant {
      NewTable(vm, own, base, boot, r, v, perms, space);
      var (vm1, q) := MakeTable(vm, perms, space, v).v;
      var vm' := SetWord(vm1, r, i, TopEntry(q));
      RootWord(vm, vm1, own, base, boot, r, v, perms, space);
      EntryFacts(q, perms);
      NewTableMaps(vm, vm', own, base, boot, r, i, q, perms, v');
    }
  }

  lemma NewTableMaps(vm: Vm, vm': Vm, own: map<nat, Owner>, base: seq<Page>, boot: nat, r: nat, i: nat, q: nat,
                     perms: nat, v': nat)
    requires Inv(vm, own, base, boot) && IsRoot(own, r) && TopIndex(v') < ENTRIES && q !in own
    requires Changed(vm, vm', r, i, q) && StateOf(Word(vm, r, i)) == Vacant
    requires Word(vm', r, i) == TopEntry(q) && Permissions(perms) && forall j :: 0 <= j < ENTRIES ==>
      Word(vm', q, j) == PAGE_FREE + perms
    ensures Mapped(vm', r, v') == Mapped(vm, r, v')
  {
    hide Memory, BaseOk, FrameOk, LowOk;
    EntryFacts(q, perms);
    assert TopOk(vm, own, r, TopIndex(v'));
    var t := TableOf(Word(vm, r, TopIndex(v')));
    assert StateOf(Word(vm, r, TopIndex(v'))) == InMem ==>
      t in own && t != r && Word(vm', t, LowIndex(v')) == Word(vm, t, LowIndex(v'));
  }

  lemma PageMaps(vm: Vm, own: map<nat, Owner>, base: seq<Page>, boot: nat, r: nat, i: nat, q: nat, j: nat, v: nat,
                 space: nat, v': nat)
    requires Inv(vm, own, base, boot) && IsRoot(own, r) && IsTable(own, q, r, i) && j < ENTRIES
    requires TopIndex(v') < ENTRIES
    requires GetPage(vm, q, j, true, v, space).Some? && Word(vm, r, i) == TopEntry(q)
    requires !(TopIndex(v') == i && LowIndex(v') == j)
    ensures Mapped(GetPage(vm, q, j, true, v, space).v.0, r, v') == Mapped(vm, r, v')
  {
    assert LowOk(vm, own, q, j);
    if StateOf(Word(vm, q, j)) == Vacant {
      NewPage(vm, own, base, boot, q, j, v, space);
      var (vm1, f) := Take(vm, space, PageBase(v) + SWP_PAGE).v;
      var vm' := SetWord(vm1, q, j, LowEntry(f, PermsOf(Word(vm, q, j))));
      NewPageMaps(vm, vm', own, base, boot, r, i, q, j, f, v');
    } else {
      LowEntryParts(Word(vm, q, j));
    }
  }

  lemma NewPageMaps(vm: Vm, vm': Vm, own: map<nat, Owner>, base: seq<Page>, boot: nat, r: nat, i: nat, q: nat, j: nat,
                    f: nat, v': nat)
    requires Inv(vm, own, base, boot) && IsRoot(own, r) && IsTable(own, q, r, i) && TopIndex(v') < ENTRIES && f !in own
    requires Changed(vm, vm', q, j, f)
    requires Word(vm, r, i) == TopEntry(q) && !(TopIndex(v') == i && LowIndex(v') == j)
    ensures Mapped(vm', r, v') == Mapped(vm, r, v')
  {
    hide Memory, BaseOk, FrameOk, LowOk;
    EntryFacts(q, 0);
    assert TopOk(vm, own, r, TopIndex(v'));
    var t := TableOf(Word(vm, r, TopIndex(v')));
    assert Word(vm', r, TopIndex(v')) == Word(vm, r, TopIndex(v'));
    assert StateOf(Word(vm, r, TopIndex(v'))) == InMem ==> IsTable(own, t, r, TopIndex(v'));
  }

  /** A fault on an address that is not mapped maps it, and no other, in a frame that was nobody's. */
  lemma FaultMaps(vm: Vm, own: map<nat, Owner>, base: seq<Page>, boot: nat, r: nat, v: nat, perms: nat, space: nat)
    requires Inv(vm, own, base, boot) && IsRoot(own, r) && TopIndex(v) < ENTRIES && Permissions(perms)
    requires GetPaddr(vm, r, v, true, perms, space).Some? && Mapped(vm, r, v).None?
    ensures var (vm', dst) := GetPaddr(vm, r, v, true, perms, space).v;
      && dst / PAGE_SIZE !in own
      && forall v' :: 0 <= v' && TopIndex(v') < ENTRIES && v' / PAGE_SIZE != v / PAGE_SIZE ==>
            Mapped(vm', r, v') == Mapped(vm, r, v')
  {
    var i, j := TopIndex(v), LowIndex(v);
    GetTableOk(vm, own, base, boot, r, v, true, perms, space);
    var (vm1, t) := GetTable(vm, r, v, true, perms, space).v;
    var own1 := OwnTable(vm, own, r, v, true, perms, space);
    var q := t.v;
    TableMaps(vm, own, base, boot, r, v, perms, space, v);
    EntryFacts(q, 0);
    FreshFrame(vm1, own, own1, base, boot, q, j, v, space, r, i);
    var vm' := GetPaddr(vm, r, v, true, perms, space).v.0;
    forall v': nat | TopIndex(v') < ENTRIES && v' / PAGE_SIZE != v / PAGE_SIZE
      ensures Mapped(vm', r, v') == Mapped(vm, r, v')
    {
      TableMaps(vm, own, base, boot, r, v, perms, space, v');
      DifferentIndexes(v, v');
      PageMaps(vm1, own1, base, boot, r, i, q, j, v, space, v');
    }
  }

  lemma FreshFrame(vm1: Vm, own: map<nat, Owner>, own1: map<nat, Owner>, base: seq<Page>, boot: nat, q: nat, j: nat,
                   v: nat, space: nat, r: nat, i: nat)
    requires Inv(vm1, own1, base, boot) && IsTable(own1, q, r, i) && j < ENTRIES
    requires GetPage(vm1, q, j, true, v, space).Some?
    requires StateOf(Word(vm1, q, j)) != InMem && forall f :: f in own ==> f in own1
    ensures GetPage(vm1, q, j, true, v, space).v.1 / PAGE_SIZE !in own
  {
    assert LowOk(vm1, own1, q, j);
    if StateOf(Word(vm1, q, j)) != Vacant { LowEntryParts(Word(vm1, q, j)); }
    NewPage(vm1, own1, base, boot, q, j, v, space);
    var (vm2, f) := Take(vm1, space, PageBase(v) + SWP_PAGE).v;
    EntryFacts(f, PermsOf(Word(vm1, q, j)));
  }

  lemma DifferentIndexes(v: nat, v': nat)
    requires v / PAGE_SIZE != v' / PAGE_SIZE
    ensures !(TopIndex(v') == TopIndex(v) && LowIndex(v') == LowIndex(v))
  {
    if TopIndex(v') == TopIndex(v) && LowIndex(v') == LowIndex(v) {
      SameIndexes(v, v');
    }
  }

  // ---- Copying ------------------------------------------------------------

  datatype Region = Region(vaddr: nat, memsize: nat)

  function Wrap(a: nat): nat {
    a % 0x1_0000_0000
  }

  predicate Overlaps(l1: nat, r1: nat, l2: nat, r2: nat) {
    (r1 >= r2 && r2 >= l1) || (l1 <= l2 && r1 > l2)
  }

  predicate InSome(v: nat, regions: seq<Region>) {
    exists k :: 0 <= k < |regions| && Overlaps(v, Wrap(v + PAGE_SIZE), regions[k].vaddr,
                                               Wrap(regions[k].vaddr + regions[k].memsize))
  }

  /**
   * A page that may be written is copied. One that may not is left to be loaded again if the test finds it in a
   * region; OverlapsIff says where the test goes wrong.
   */
  predicate Copied(v: nat, perms: nat, regions: seq<Region>) {
    perms / PAGE_W % 2 == 1 || !InSome(v, regions)
  }

  function Fix(vm: Vm, f: nat, fixed: bool): Vm {
    if f < |vm.cm.pages| then vm.(cm := SetFixed(vm.cm, f, fixed)) else vm
  }

  function CopyWords(vm: Vm, to: nat, from: nat): Vm {
    if to < |vm.mem| && from < |vm.mem| then vm.(mem := vm.mem[to := vm.mem[from]]) else vm
  }

  /** One page: made in the child at the same address and filled from the parent's, both held in memory meanwhile. */
  function CopyPage(vm: Vm, dst: nat, v: nat, f1: nat, perms: nat, space: nat): Option<Vm> {
    match GetPaddr(Fix(vm, f1, true), dst, v, true, perms, space)
    case None => None
    case Some((vm2, paddr2)) =>
      var f2 := paddr2 / PAGE_SIZE;
      Some(Fix(Fix(CopyWords(Fix(vm2, f2, true), f2, f1), f1, false), f2, false))
  }

  /** The pages of one second-level table, from entry j on. */
  function CopyLow(vm: Vm, q: nat, i: nat, j: nat, dst: nat, regions: seq<Region>, space: nat): Option<Vm>
    decreases ENTRIES - j
  {
    if j >= ENTRIES then Some(vm)
    else
      var value := Word(vm, q, j);
      var v := i * UP + j * PAGE_SIZE;
      if StateOf(value) == InMem && Copied(v, PermsOf(value), regions) then
        match CopyPage(vm, dst, v, FrameOf(value), PermsOf(value), space)
        case None => None
        case Some(vm1) => CopyLow(vm1, q, i, j + 1, dst, regions, space)
      else CopyLow(vm, q, i, j + 1, dst, regions, space)
  }

  function CopyTop(vm: Vm, src: nat, i: nat, dst: nat, regions: seq<Region>, space: nat): Option<Vm>
    decreases ENTRIES - i
  {
    if i >= ENTRIES then Some(vm)
    else
      var value := Word(vm, src, i);
      if StateOf(value) == InMem then
        match CopyLow(vm, TableOf(value), i, 0, dst, regions, space)
        case None => None
        case Some(vm1) => CopyTop(vm1, src, i + 1, dst, regions, space)
      else CopyTop(vm, src, i + 1, dst, regions, space)
  }

  function Copy(vm: Vm, src: nat, dst: nat, regions: seq<Region>, space: nat): Option<Vm> {
    CopyTop(vm, src, 0, dst, regions, space)
  }

  // ---- One page -----------------------------------------------------------

  lemma FixInv(vm: Vm, own: map<nat, Owner>, base: seq<Page>, boot: nat, f: nat, fixed: bool)
    requires Inv(vm, own, base, boot) && f in own
    ensures Inv(Fix(vm, f, fixed), own, base, boot) && Fix(vm, f, fixed).mem == vm.mem
  {
    assert FrameOk(vm, own, f);
    var vm' := Fix(vm, f, fixed);
    MarkOk(vm.cm, boot, f, vm.cm.pages[f].(state := if fixed then FIXED else ALLOCATED));
    SameTables(vm, vm', own, base, boot);
  }

  /** An owned frame of the same size, and the same words in every table, is all the invariant needs. */
  lemma SameTables(vm: Vm, vm': Vm, own: map<nat, Owner>, base: seq<Page>, boot: nat)
    requires Inv(vm, own, base, boot) && Memory(vm', boot) && |vm'.cm.pages| == |vm.cm.pages|
    requires forall f, k :: f in own && !own[f].part.Leaf? ==> Word(vm', f, k) == Word(vm, f, k)
    requires forall f :: 0 <= f < |vm.cm.pages| && f !in own ==> vm'.cm.pages[f] == vm.cm.pages[f]
    requires forall f :: f in own && f < |vm.cm.pages| ==>
      vm'.cm.pages[f].count == vm.cm.pages[f].count && vm'.cm.pages[f].state != FREE
    ensures Inv(vm', own, base, boot)
  {
    hide Ok;
    forall f | f in own
      ensures FrameOk(vm', own, f)
    {
      SameFrame(vm, vm', own, f);
    }
    forall r, i | IsRoot(own, r) && 0 <= i < ENTRIES
      ensures TopOk(vm', own, r, i)
    {
      assert TopOk(vm, own, r, i);
    }
    forall q, j | q in own && own[q].part.Table? && 0 <= j < ENTRIES
      ensures LowOk(vm', own, q, j)
    {
      assert LowOk(vm, own, q, j);
    }
  }

  lemma SameFrame(vm: Vm, vm': Vm, own: map<nat, Owner>, f: nat)
    requires f in own && FrameOk(vm, own, f) && |vm'.cm.pages| == |vm.cm.pages|
    requires forall f, k :: f in own && !own[f].part.Leaf? ==> Word(vm', f, k) == Word(vm, f, k)
    requires vm'.cm.pages[f].count == vm.cm.pages[f].count && vm'.cm.pages[f].state != FREE
    ensures FrameOk(vm', own, f)
  {
  }

  lemma CopyWordsInv(vm: Vm, own: map<nat, Owner>, base: seq<Page>, boot: nat, to: nat, from: nat)
    requires Inv(vm, own, base, boot) && to in own && from in own && own[to].part.Leaf?
    ensures var vm' := CopyWords(vm, to, from);
      && Inv(vm', own, base, boot) && (forall k :: Word(vm', to, k) == Word(vm, from, k))
      && (forall f, k :: f != to ==> Word(vm', f, k) == Word(vm, f, k))
  {
    assert FrameOk(vm, own, to) && FrameOk(vm, own, from);
    SameTables(vm, CopyWords(vm, to, from), own, base, boot);
  }

  ghost predicate SameWords(vm: Vm, f: nat, vm': Vm, f': nat) {
    forall k :: Word(vm', f', k) == Word(vm, f, k)
  }

  lemma MappedSame(vm: Vm, vm': Vm, own: map<nat, Owner>, base: seq<Page>, boot: nat, r: nat, v: nat)
    requires Inv(vm, own, base, boot) && IsRoot(own, r) && TopIndex(v) < ENTRIES
    requires forall f, k :: f in own && !own[f].part.Leaf? ==> Word(vm', f, k) == Word(vm, f, k)
    ensures Mapped(vm', r, v) == Mapped(vm, r, v)
  {
    hide Memory, BaseOk, FrameOk, LowOk;
    assert TopOk(vm, own, r, TopIndex(v));
    EntryFacts(TableOf(Word(vm, r, TopIndex(v))), 0);
  }

  ghost predicate SameWordsBut(vm: Vm, vm': Vm, f: nat) {
    forall g, k :: g != f ==> Word(vm', g, k) == Word(vm, g, k)
  }

  ghost function OwnCopy(vm: Vm, own: map<nat, Owner>, dst: nat, v: nat, f1: nat, perms: nat, space: nat)
    : map<nat, Owner>
  {
    OwnPaddr(Fix(vm, f1, true), own, dst, v, true, perms, space)
  }

  /** The last steps: the contents are moved and both pages let go. */
  lemma FillOk(vm: Vm, own: map<nat, Owner>, base: seq<Page>, boot: nat, f1: nat, f2: nat)
    requires Inv(vm, own, base, boot) && f1 in own && f2 in own && own[f2].part.Leaf? && f1 != f2
    ensures var vm' := Fix(Fix(CopyWords(Fix(vm, f2, true), f2, f1), f1, false), f2, false);
      Inv(vm', own, base, boot) && SameWordsBut(vm, vm', f2) && SameWords(vm, f1, vm', f2)
  {
    hide Inv, FrameOk, TopOk, LowOk;
    FixInv(vm, own, base, boot, f2, true);
    var vm1 := Fix(vm, f2, true);
    CopyWordsInv(vm1, own, base, boot, f2, f1);
    var vm2 := CopyWords(vm1, f2, f1);
    FixInv(vm2, own, base, boot, f1, false);
    var vm3 := Fix(vm2, f1, false);
    FixInv(vm3, own, base, boot, f2, false);
    SameMapped(vm, vm1, 0);
    SameMapped(vm2, vm3, 0);
    SameMapped(vm3, Fix(vm3, f2, false), 0);
  }

  ghost predicate OnePageMore(vm: Vm, vm': Vm, own: map<nat, Owner>, dst: nat, v: nat, f1: nat) {
    && Mapped(vm', dst, v).Some? && Mapped(vm', dst, v).v !in own && SameWords(vm, f1, vm', Mapped(vm', dst, v).v)
    && forall v' :: 0 <= v' && TopIndex(v') < ENTRIES && v' / PAGE_SIZE != v / PAGE_SIZE ==>
          Mapped(vm', dst, v') == Mapped(vm, dst, v')
  }

  lemma CopyPageOk(vm: Vm, own: map<nat, Owner>, base: seq<Page>, boot: nat, dst: nat, v: nat, f1: nat, perms: nat,
                   space: nat)
    requires Inv(vm, own, base, boot) && IsRoot(own, dst) && f1 in own && own[f1].part.Leaf? && own[f1].root != dst
    requires TopIndex(v) < ENTRIES && Permissions(perms) && Mapped(vm, dst, v).None?
    requires CopyPage(vm, dst, v, f1, perms, space).Some?
    ensures var vm' := CopyPage(vm, dst, v, f1, perms, space).v; var own' := OwnCopy(vm, own, dst, v, f1, perms, space);
      && Inv(vm', own', base, boot) && Kept(vm, vm', own, own') && RootsKept(own, own') && Apart(vm, vm', own, dst)
      && IsRoot(own', dst)
      && OnePageMore(vm, vm', own, dst, v, f1)
  {
    FixInv(vm, own, base, boot, f1, true);
    var vm1 := Fix(vm, f1, true);
    SameMapped(vm, vm1, dst);
    GetPaddrOk(vm1, own, base, boot, dst, v, true, perms, space);
    FaultMaps(vm1, own, base, boot, dst, v, perms, space);
    var (vm2, paddr2) := GetPaddr(vm1, dst, v, true, perms, space).v;
    var own' := OwnPaddr(vm1, own, dst, v, true, perms, space);
    var f2 := paddr2 / PAGE_SIZE;
    MappedLeaf(vm2, own', base, boot, dst, v);
    FillOk(vm2, own', base, boot, f1, f2);
    var vm' := CopyPage(vm, dst, v, f1, perms, space).v;
    CopiedRest(vm, vm1, vm2, vm', own, own', base, boot, dst, v, f1, f2);
  }

  lemma SameMapped(vm: Vm, vm1: Vm, r: nat)
    requires vm1.mem == vm.mem
    ensures forall v :: Mapped(vm1, r, v) == Mapped(vm, r, v)
    ensures forall f, k :: Word(vm1, f, k) == Word(vm, f, k)
  {
  }

  lemma CopiedRest(vm: Vm, vm1: Vm, vm2: Vm, vm': Vm, own: map<nat, Owner>, own': map<nat, Owner>, base: seq<Page>,
                   boot: nat, dst: nat, v: nat, f1: nat, f2: nat)
    requires Inv(vm2, own', base, boot) && IsRoot(own', dst) && TopIndex(v) < ENTRIES && f1 in own && own[f1].part.Leaf?
    requires vm1.mem == vm.mem
    requires Kept(vm1, vm2, own, own') && Apart(vm1, vm2, own, dst) && f2 in own' && own'[f2].part.Leaf? && f2 !in own
    requires SameWordsBut(vm2, vm', f2) && SameWords(vm2, f1, vm', f2) && Mapped(vm2, dst, v) == Some(f2)
    requires forall v' :: 0 <= v' && TopIndex(v') < ENTRIES && v' / PAGE_SIZE != v / PAGE_SIZE ==>
      Mapped(vm2, dst, v') == Mapped(vm1, dst, v')
    ensures Kept(vm, vm', own, own') && Apart(vm, vm', own, dst) && OnePageMore(vm, vm', own, dst, v, f1)
  {
    hide Inv, Mapped, StateOf;
    SameMapped(vm, vm1, dst);
    MappedSame(vm2, vm', own', base, boot, dst, v);
    forall v': nat | TopIndex(v') < ENTRIES && v' / PAGE_SIZE != v / PAGE_SIZE
      ensures Mapped(vm', dst, v') == Mapped(vm, dst, v')
    {
      MappedSame(vm2, vm', own', base, boot, dst, v');
    }
  }

  // ---- The whole address space --------------------------------------------

  /** Page number n of the parent is mapped in frame f and is to be copied. */
  ghost predicate Wanted(vm: Vm, src: nat, regions: seq<Region>, n: nat) {
    && Mapped(vm, src, n * PAGE_SIZE).Some?
    && Copied(n * PAGE_SIZE, PermsOf(Word(vm, TableOf(Word(vm, src, n / ENTRIES)), n % ENTRIES)), regions)
  }

  /** What page number m of the child should be when the parent's pages up to n have been dealt with. */
  ghost predicate PageDone(vm0: Vm, vm: Vm, own0: map<nat, Owner>, src: nat, dst: nat, regions: seq<Region>, n: nat,
                           m: nat) {
    if m < n && Wanted(vm0, src, regions, m) then
      var f := Mapped(vm, dst, m * PAGE_SIZE);
      f.Some? && f.v !in own0 && SameWords(vm0, Mapped(vm0, src, m * PAGE_SIZE).v, vm, f.v)
    else Mapped(vm, dst, m * PAGE_SIZE).None?
  }

  ghost predicate Progress(vm0: Vm, vm: Vm, own0: map<nat, Owner>, own: map<nat, Owner>, base: seq<Page>, boot: nat,
                           src: nat, dst: nat, regions: seq<Region>, n: nat) {
    && Inv(vm, own, base, boot) && IsRoot(own, dst) && IsRoot(own, src)
    && Kept(vm0, vm, own0, own) && RootsKept(own0, own) && Apart(vm0, vm, own0, dst)
    && forall m :: 0 <= m < PAGES ==> PageDone(vm0, vm, own0, src, dst, regions, n, m)
  }

  lemma NumberParts(i: nat, j: nat)
    requires i < ENTRIES && j < ENTRIES
    ensures var n := i * ENTRIES + j; var v := i * UP + j * PAGE_SIZE;
      && n < PAGES && n / ENTRIES == i && n % ENTRIES == j && n * PAGE_SIZE == v && TopIndex(v) == i && LowIndex(v) == j
      && v / PAGE_SIZE == n
  {
  }

  lemma NumberSplit(m: nat)
    requires m < PAGES
    ensures TopIndex(m * PAGE_SIZE) == m / ENTRIES < ENTRIES && LowIndex(m * PAGE_SIZE) == m % ENTRIES
    ensures m * PAGE_SIZE / PAGE_SIZE == m
  {
  }

  /** The parent's entries read now what they read at the start. */
  lemma ParentSame(vm0: Vm, vm: Vm, own0: map<nat, Owner>, base: seq<Page>, boot: nat, src: nat, dst: nat, i: nat,
                   j: nat)
    requires Inv(vm0, own0, base, boot) && IsRoot(own0, src) && src != dst && Apart(vm0, vm, own0, dst) && i < ENTRIES
    requires j < ENTRIES
    ensures Word(vm, src, i) == Word(vm0, src, i)
    ensures StateOf(Word(vm0, src, i)) == InMem ==>
      && Word(vm, TableOf(Word(vm0, src, i)), j) == Word(vm0, TableOf(Word(vm0, src, i)), j)
      && IsTable(own0, TableOf(Word(vm0, src, i)), src, i)
  {
    hide Memory, BaseOk, FrameOk, LowOk;
    assert TopOk(vm0, own0, src, i);
  }

  lemma ProgressApart(vm0: Vm, vm: Vm, own0: map<nat, Owner>, own: map<nat, Owner>, base: seq<Page>, boot: nat,
                      src: nat, dst: nat, regions: seq<Region>, n: nat)
    requires Progress(vm0, vm, own0, own, base, boot, src, dst, regions, n)
    ensures Apart(vm0, vm, own0, dst)
  {
  }

  lemma PageSkipped(vm0: Vm, vm: Vm, own0: map<nat, Owner>, own: map<nat, Owner>, base: seq<Page>, boot: nat, src: nat,
                    dst: nat, regions: seq<Region>, n: nat)
    requires Progress(vm0, vm, own0, own, base, boot, src, dst, regions, n) && n < PAGES
    requires !Wanted(vm0, src, regions, n)
    ensures Progress(vm0, vm, own0, own, base, boot, src, dst, regions, n + 1)
  {
    hide Inv, Wanted, Mapped, Kept, Apart;
    var n1 := n + 1;
    forall m | 0 <= m < PAGES
      ensures PageDone(vm0, vm, own0, src, dst, regions, n1, m)
    {
      assert PageDone(vm0, vm, own0, src, dst, regions, n, m);
    }
  }

  lemma PageCopied(vm0: Vm, vm: Vm, own0: map<nat, Owner>, own: map<nat, Owner>, base: seq<Page>, boot: nat, src: nat,
                   dst: nat, regions: seq<Region>, n: nat, f1: nat, perms: nat, space: nat)
    requires Inv(vm0, own0, base, boot) && IsRoot(own0, src) && src != dst
    requires Progress(vm0, vm, own0, own, base, boot, src, dst, regions, n) && n < PAGES
    requires Wanted(vm0, src, regions, n) && f1 == Mapped(vm0, src, n * PAGE_SIZE).v && Permissions(perms)
    requires CopyPage(vm, dst, n * PAGE_SIZE, f1, perms, space).Some?
    ensures Progress(vm0, CopyPage(vm, dst, n * PAGE_SIZE, f1, perms, space).v, own0,
                     OwnCopy(vm, own, dst, n * PAGE_SIZE, f1, perms, space), base, boot, src, dst, regions, n + 1)
  {
    hide Inv, Wanted, Mapped, CopyPage, OwnCopy, Kept, Apart, PageDone, OnePageMore, TopIndex, LowIndex;
    NumberSplit(n);
    WantedMapped(vm0, src, regions, n);
    MappedLeaf(vm0, own0, base, boot, src, n * PAGE_SIZE);
    NotYet(vm0, vm, own0, src, dst, regions, n);
    KeptOwner(vm0, vm, own0, own, f1);
    CopyPageOk(vm, own, base, boot, dst, n * PAGE_SIZE, f1, perms, space);
    var vm' := CopyPage(vm, dst, n * PAGE_SIZE, f1, perms, space).v;
    var own' := OwnCopy(vm, own, dst, n * PAGE_SIZE, f1, perms, space);
    KeptTwice(vm0, vm, vm', own0, own, own');
    KeptApart(vm0, vm, vm', own0, own, dst);
    KeptOwner(vm, vm', own, own', src);
    var n1 := n + 1;
    forall m | 0 <= m < PAGES
      ensures PageDone(vm0, vm', own0, src, dst, regions, n1, m)
    {
      StillDone(vm0, vm, vm', own0, own, own', src, dst, regions, n, m, f1, base, boot);
    }
  }

  lemma NotYet(vm0: Vm, vm: Vm, own0: map<nat, Owner>, src: nat, dst: nat, regions: seq<Region>, n: nat)
    requires PageDone(vm0, vm, own0, src, dst, regions, n, n)
    ensures Mapped(vm, dst, n * PAGE_SIZE).None?
  {
  }

  lemma KeptOwner(vm: Vm, vm': Vm, own: map<nat, Owner>, own': map<nat, Owner>, f: nat)
    requires Kept(vm, vm', own, own') && f in own
    ensures f in own' && own'[f] == own[f]
  {
  }

  lemma KeptApart(vm: Vm, vm1: Vm, vm2: Vm, own: map<nat, Owner>, own1: map<nat, Owner>, r: nat)
    requires Apart(vm, vm1, own, r) && Apart(vm1, vm2, own1, r) && Kept(vm, vm1, own, own1)
    ensures Apart(vm, vm2, own, r)
  {
    ApartTwice(vm, vm1, vm2, own, own1, r);
  }

  lemma StillDone(vm0: Vm, vm: Vm, vm': Vm, own0: map<nat, Owner>, own: map<nat, Owner>, own': map<nat, Owner>,
                  src: nat, dst: nat, regions: seq<Region>, n: nat, m: nat, f1: nat, base: seq<Page>, boot: nat)
    requires Inv(vm, own, base, boot) && IsRoot(own, dst) && PageDone(vm0, vm, own0, src, dst, regions, n, m)
    requires n < PAGES && m < PAGES
    requires Kept(vm0, vm, own0, own) && Kept(vm, vm', own, own') && OnePageMore(vm, vm', own, dst, n * PAGE_SIZE, f1)
    requires Wanted(vm0, src, regions, n) && Mapped(vm0, src, n * PAGE_SIZE) == Some(f1) && f1 in own0
    requires own0[f1].part.Leaf?
    ensures PageDone(vm0, vm', own0, src, dst, regions, n + 1, m)
  {
    hide Wanted, Mapped, Inv;
    NumberSplit(m);
    NumberSplit(n);
    if m == n {
      assert forall k :: Word(vm, f1, k) == Word(vm0, f1, k);
    } else if m < n && Wanted(vm0, src, regions, m) {
      var f := Mapped(vm, dst, m * PAGE_SIZE).v;
      MappedLeaf(vm, own, base, boot, dst, m * PAGE_SIZE);
      assert forall k :: Word(vm', f, k) == Word(vm, f, k);
    }
  }

  /** Whether the page at entry j of the parent's table q is wanted, read now. */
  lemma WantedNow(vm0: Vm, vm: Vm, own0: map<nat, Owner>, base: seq<Page>, boot: nat, src: nat, dst: nat,
                  regions: seq<Region>, i: nat, j: nat)
    requires Inv(vm0, own0, base, boot) && IsRoot(own0, src) && src != dst && Apart(vm0, vm, own0, dst) && i < ENTRIES
    requires j < ENTRIES
    requires StateOf(Word(vm0, src, i)) == InMem
    ensures var q := TableOf(Word(vm0, src, i)); var value := Word(vm, q, j); var n := i * ENTRIES + j;
      && (Wanted(vm0, src, regions, n) <==>
            StateOf(value) == InMem && Copied(i * UP + j * PAGE_SIZE, PermsOf(value), regions))
      && (StateOf(value) == InMem ==> Mapped(vm0, src, n * PAGE_SIZE) == Some(FrameOf(value)))
  {
    hide Inv, Apart, Copied, PermsOf, StateOf;
    ParentSame(vm0, vm, own0, base, boot, src, dst, i, j);
    NumberParts(i, j);
  }

  lemma CopyLowStep(vm: Vm, q: nat, i: nat, j: nat, dst: nat, regions: seq<Region>, space: nat)
    requires j < ENTRIES
    ensures var value := Word(vm, q, j); var v := i * UP + j * PAGE_SIZE;
      var r := CopyLow(vm, q, i, j, dst, regions, space);
      && (!(StateOf(value) == InMem && Copied(v, PermsOf(value), regions)) ==>
            r == CopyLow(vm, q, i, j + 1, dst, regions, space))
      && (StateOf(value) == InMem && Copied(v, PermsOf(value), regions) ==>
            var c := CopyPage(vm, dst, v, FrameOf(value), PermsOf(value), space);
            if c.Some? then r == CopyLow(c.v, q, i, j + 1, dst, regions, space) else r.None?)
  {
    hide Copied, CopyPage, StateOf, PermsOf;
  }

  lemma CopyEnds(vm: Vm, q: nat, src: nat, i: nat, dst: nat, regions: seq<Region>, space: nat)
    ensures CopyLow(vm, q, i, ENTRIES, dst, regions, space) == Some(vm)
    ensures CopyTop(vm, src, ENTRIES, dst, regions, space) == Some(vm)
  {
  }

  lemma CopyTopStep(vm: Vm, src: nat, i: nat, dst: nat, regions: seq<Region>, space: nat)
    requires i < ENTRIES
    ensures var value := Word(vm, src, i); var r := CopyTop(vm, src, i, dst, regions, space);
      && (StateOf(value) != InMem ==> r == CopyTop(vm, src, i + 1, dst, regions, space))
      && (StateOf(value) == InMem ==>
            var c := CopyLow(vm, TableOf(value), i, 0, dst, regions, space);
            if c.Some? then r == CopyTop(c.v, src, i + 1, dst, regions, space) else r.None?)
  {
    hide CopyLow, StateOf;
  }

  lemma {:induction false} CopyLowOk(vm0: Vm, vm: Vm, own0: map<nat, Owner>, own: map<nat, Owner>, base: seq<Page>,
                                     boot: nat, src: nat, dst: nat, regions: seq<Region>, i: nat, j: nat, space: nat)
    returns (own': map<nat, Owner>)
    requires Inv(vm0, own0, base, boot) && IsRoot(own0, src) && src != dst && i < ENTRIES && j <= ENTRIES
    requires StateOf(Word(vm0, src, i)) == InMem
    requires Progress(vm0, vm, own0, own, base, boot, src, dst, regions, i * ENTRIES + j)
    requires CopyLow(vm, TableOf(Word(vm0, src, i)), i, j, dst, regions, space).Some?
    ensures Progress(vm0, CopyLow(vm, TableOf(Word(vm0, src, i)), i, j, dst, regions, space).v, own0, own', base, boot,
                     src, dst, regions, (i + 1) * ENTRIES)
    decreases ENTRIES - j
  {
    hide Inv, Progress, Wanted, Copied, CopyPage, CopyLow, StateOf, PermsOf, Mapped, OwnCopy, Word, TableOf;
    var q := TableOf(Word(vm0, src, i));
    if j == ENTRIES {
      CopyEnds(vm, q, src, i, dst, regions, space);
      own' := own;
    } else {
      ProgressApart(vm0, vm, own0, own, base, boot, src, dst, regions, i * ENTRIES + j);
      CopyLowStep(vm, q, i, j, dst, regions, space);
      WantedNow(vm0, vm, own0, base, boot, src, dst, regions, i, j);
      NumberParts(i, j);
      var n := i * ENTRIES + j;
      var value := Word(vm, q, j);
      if Wanted(vm0, src, regions, n) {
        PageCopied(vm0, vm, own0, own, base, boot, src, dst, regions, n, FrameOf(value), PermsOf(value), space);
        var vm1 := CopyPage(vm, dst, n * PAGE_SIZE, FrameOf(value), PermsOf(value), space).v;
        own' := CopyLowOk(vm0, vm1, own0, OwnCopy(vm, own, dst, n * PAGE_SIZE, FrameOf(value), PermsOf(value), space),
                          base, boot, src, dst, regions, i, j + 1, space);
      } else {
        PageSkipped(vm0, vm, own0, own, base, boot, src, dst, regions, n);
        own' := CopyLowOk(vm0, vm, own0, own, base, boot, src, dst, regions, i, j + 1, space);
      }
    }
  }

  lemma NotThere(vm: Vm, src: nat, regions: seq<Region>, i: nat, j: nat)
    requires i < ENTRIES && j < ENTRIES && StateOf(Word(vm, src, i)) != InMem
    ensures !Wanted(vm, src, regions, i * ENTRIES + j)
  {
    NumberParts(i, j);
  }

  /** A stretch of the address space that has no second-level table. */
  lemma {:induction false} StretchSkipped(vm0: Vm, vm: Vm, own0: map<nat, Owner>, own: map<nat, Owner>, base: seq<Page>,
                                          boot: nat, src: nat, dst: nat, regions: seq<Region>, i: nat, j: nat)
    requires Progress(vm0, vm, own0, own, base, boot, src, dst, regions, i * ENTRIES + j) && i < ENTRIES && j <= ENTRIES
    requires StateOf(Word(vm0, src, i)) != InMem
    ensures Progress(vm0, vm, own0, own, base, boot, src, dst, regions, (i + 1) * ENTRIES)
    decreases ENTRIES - j
  {
    hide Progress, Wanted, StateOf, Word;
    if j < ENTRIES {
      NumberParts(i, j);
      NotThere(vm0, src, regions, i, j);
      PageSkipped(vm0, vm, own0, own, base, boot, src, dst, regions, i * ENTRIES + j);
      StretchSkipped(vm0, vm, own0, own, base, boot, src, dst, regions, i, j + 1);
    }
  }

  lemma {:induction false} CopyTopOk(vm0: Vm, vm: Vm, own0: map<nat, Owner>, own: map<nat, Owner>, base: seq<Page>,
                                     boot: nat, src: nat, dst: nat, regions: seq<Region>, i: nat, space: nat)
    returns (own': map<nat, Owner>)
    requires Inv(vm0, own0, base, boot) && IsRoot(own0, src) && src != dst && i <= ENTRIES
    requires Progress(vm0, vm, own0, own, base, boot, src, dst, regions, i * ENTRIES)
    requires CopyTop(vm, src, i, dst, regions, space).Some?
    ensures Progress(vm0, CopyTop(vm, src, i, dst, regions, space).v, own0, own', base, boot, src, dst, regions, PAGES)
    decreases ENTRIES - i
  {
    hide Inv, Progress, CopyLow, CopyTop, StateOf, Word, TableOf;
    if i == ENTRIES {
      CopyEnds(vm, 0, src, i, dst, regions, space);
      own' := own;
    } else {
      ProgressApart(vm0, vm, own0, own, base, boot, src, dst, regions, i * ENTRIES);
      CopyTopStep(vm, src, i, dst, regions, space);
      ParentSame(vm0, vm, own0, base, boot, src, dst, i, 0);
      var value := Word(vm, src, i);
      if StateOf(value) == InMem {
        var own1 := CopyLowOk(vm0, vm, own0, own, base, boot, src, dst, regions, i, 0, space);
        var vm1 := CopyLow(vm, TableOf(value), i, 0, dst, regions, space).v;
        own' := CopyTopOk(vm0, vm1, own0, own1, base, boot, src, dst, regions, i + 1, space);
      } else {
        StretchSkipped(vm0, vm, own0, own, base, boot, src, dst, regions, i, 0);
        own' := CopyTopOk(vm0, vm, own0, own, base, boot, src, dst, regions, i + 1, space);
      }
    }
  }

  /** Page number n of the child is a copy of the parent's, in a frame that was nobody's. */
  ghost predicate IsCopy(vm: Vm, vm': Vm, own: map<nat, Owner>, src: nat, dst: nat, n: nat) {
    && Mapped(vm, src, n * PAGE_SIZE).Some? && Mapped(vm', dst, n * PAGE_SIZE).Some?
    && Mapped(vm', dst, n * PAGE_SIZE).v !in own
    && SameWords(vm, Mapped(vm, src, n * PAGE_SIZE).v, vm', Mapped(vm', dst, n * PAGE_SIZE).v)
  }

  ghost predicate CopyResult(vm: Vm, vm': Vm, own: map<nat, Owner>, own': map<nat, Owner>, base: seq<Page>, boot: nat,
                             src: nat, dst: nat, regions: seq<Region>) {
    && Inv(vm', own', base, boot) && Kept(vm, vm', own, own') && RootsKept(own, own') && Apart(vm, vm', own, dst)
    && (forall n :: 0 <= n < PAGES ==>
          if Wanted(vm, src, regions, n) then IsCopy(vm, vm', own, src, dst, n)
          else Mapped(vm', dst, n * PAGE_SIZE).None?)
    && (forall n :: 0 <= n < PAGES && Writable(vm, src, n) ==> IsCopy(vm, vm', own, src, dst, n))
  }

  /** Page number n of an address space is mapped and may be written. */
  ghost predicate Writable(vm: Vm, src: nat, n: nat) {
    && Mapped(vm, src, n * PAGE_SIZE).Some?
    && PermsOf(Word(vm, TableOf(Word(vm, src, n / ENTRIES)), n % ENTRIES)) / PAGE_W % 2 == 1
  }

  /**
   * Copying into an empty page table: the child gets each page that is to be copied, and so every page that
   * may be written, at the same address, with the same contents, in a frame that belonged to nobody; it gets
   * nothing else.
   * No word of the parent's tables or pages, nor of any other address space, has changed.
   */
  lemma CopyIsolates(vm: Vm, own: map<nat, Owner>, base: seq<Page>, boot: nat, src: nat, dst: nat, regions: seq<Region>,
                     space: nat)
    requires Inv(vm, own, base, boot) && IsRoot(own, src) && IsRoot(own, dst) && src != dst
    requires (forall n :: 0 <= n < PAGES ==> Mapped(vm, dst, n * PAGE_SIZE).None?)
    requires Copy(vm, src, dst, regions, space).Some?
    ensures exists own' :: CopyResult(vm, Copy(vm, src, dst, regions, space).v, own, own', base, boot, src, dst,
                                      regions)
  {
    hide Inv, Mapped, Wanted, Writable, CopyTop;
    KeptSelf(vm, own);
    assert Progress(vm, vm, own, own, base, boot, src, dst, regions, 0);
    var own' := CopyTopOk(vm, vm, own, own, base, boot, src, dst, regions, 0, space);
    var vm' := Copy(vm, src, dst, regions, space).v;
    forall n | 0 <= n < PAGES
      ensures Wanted(vm, src, regions, n) ==> IsCopy(vm, vm', own, src, dst, n)
      ensures !Wanted(vm, src, regions, n) ==> Mapped(vm', dst, n * PAGE_SIZE).None?
    {
      assert PageDone(vm, vm', own, src, dst, regions, PAGES, n);
      assert Wanted(vm, src, regions, n) ==>
        Mapped(vm, src, n * PAGE_SIZE).Some? by { WantedMapped(vm, src, regions, n); }
    }
    forall n | 0 <= n < PAGES && Writable(vm, src, n)
      ensures IsCopy(vm, vm', own, src, dst, n)
    {
      WritableWanted(vm, src, regions, n);
    }
    assert CopyResult(vm, vm', own, own', base, boot, src, dst, regions);
  }

  lemma WantedMapped(vm: Vm, src: nat, regions: seq<Region>, n: nat)
    ensures Wanted(vm, src, regions, n) ==> Mapped(vm, src, n * PAGE_SIZE).Some?
  {
  }

  lemma WritableWanted(vm: Vm, src: nat, regions: seq<Region>, n: nat)
    ensures Writable(vm, src, n) ==> Wanted(vm, src, regions, n)
  {
  }
}
