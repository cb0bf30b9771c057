/** The permission bits of the pages a copy makes. */
module PageTablePerms {
  import opened Coremaps
  import opened PageTables
  import opened PageTableInv
  import opened PageTableCopy

  /** The entry that an address leads to. */
  function EntryOf(vm: Vm, r: nat, v: nat): nat {
    Word(vm, TableOf(Word(vm, r, TopIndex(v))), LowIndex(v))
  }

  /** There is a second-level table i, and every entry of it, vacant or not, has these permission bits. */
  ghost predicate Uniform(vm: Vm, r: nat, i: nat, perms: nat) {
    StateOf(Word(vm, r, i)) == InMem && forall j :: 0 <= j < ENTRIES ==>
        PermsOf(Word(vm, TableOf(Word(vm, r, i)), j)) == perms
  }

  /** The second-level table i, if there is one, has not changed. */
  ghost predicate TableSame(vm: Vm, vm': Vm, r: nat, i: nat) {
    && Word(vm', r, i) == Word(vm, r, i)
    && (StateOf(Word(vm, r, i)) == InMem ==>
          forall j :: 0 <= j < ENTRIES ==>
              Word(vm', TableOf(Word(vm, r, i)), j) == Word(vm, TableOf(Word(vm, r, i)), j))
  }

  ghost predicate OthersSame(vm: Vm, vm': Vm, r: nat, i: nat) {
    forall k :: 0 <= k < ENTRIES && k != i ==> TableSame(vm, vm', r, k)
  }

  lemma ChangedOthers(vm: Vm, vm': Vm, own: map<nat, Owner>, base: seq<Page>, boot: nat, r: nat, t: nat, k: nat, p: nat,
                      i: nat)
    requires Inv(vm, own, base, boot) && IsRoot(own, r) && Changed(vm, vm', t, k, p) && p !in own
    requires (t == r && k == i) || IsTable(own, t, r, i)
    ensures OthersSame(vm, vm', r, i)
  {
    hide Memory, BaseOk, FrameOk, LowOk;
    forall l | 0 <= l < ENTRIES && l != i
      ensures TableSame(vm, vm', r, l)
    {
      assert TopOk(vm, own, r, l);
    }
  }

  /** A table that is made has the permissions asked for in every entry; one that is there is left alone. */
  lemma TablePerms(vm: Vm, own: map<nat, Owner>, base: seq<Page>, boot: nat, r: nat, v: nat, perms: nat, space: nat)
    requires Inv(vm, own, base, boot) && IsRoot(own, r) && TopIndex(v) < ENTRIES && Permissions(perms)
    requires GetTable(vm, r, v, true, perms, space).Some?
    ensures var vm' := GetTable(vm, r, v, true, perms, space).v.0; var i := TopIndex(v);
      && (StateOf(Word(vm, r, i)) == Vacant ==> Uniform(vm', r, i, perms))
      && (StateOf(Word(vm, r, i)) != Vacant ==> vm' == vm)
      && OthersSame(vm, vm', r, i)
  {
    hide Inv, Memory, BaseOk, FrameOk, LowOk, TopOk, Kept, Apart, RootsKept, TopIndex, PermsOf, StateOf;
    NeverSwapped(vm, own, base, boot, r, v);
    var i := TopIndex(v);
    if StateOf(Word(vm, r, i)) == Vacant {
      NewTable(vm, own, base, boot, r, v, perms, space);
      var (vm1, q) := MakeTable(vm, perms, space, v).v;
      RootWord(vm, vm1, own, base, boot, r, v, perms, space);
      EntryFacts(q, perms);
      ChangedOthers(vm, SetWord(vm1, r, i, TopEntry(q)), own, base, boot, r, r, i, q, i);
    }
  }

  /** A page that is made takes the permissions its entry had. */
  lemma PagePerms(vm: Vm, own: map<nat, Owner>, base: seq<Page>, boot: nat, r: nat, i: nat, q: nat, j: nat, v: nat,
                  space: nat)
    requires Inv(vm, own, base, boot) && IsRoot(own, r) && IsTable(own, q, r, i) && j < ENTRIES && i < ENTRIES
    requires GetPage(vm, q, j, true, v, space).Some? && Word(vm, r, i) == TopEntry(q)
    ensures var vm' := GetPage(vm, q, j, true, v, space).v.0;
      && Word(vm', r, i) == Word(vm, r, i) && OthersSame(vm, vm', r, i)
      && forall l :: 0 <= l < ENTRIES ==> PermsOf(Word(vm', q, l)) == PermsOf(Word(vm, q, l))
  {
    hide Memory, BaseOk, FrameOk, TopOk, Kept, Apart, RootsKept, PermsOf, StateOf;
    assert LowOk(vm, own, q, j);
    if StateOf(Word(vm, q, j)) == Vacant {
      NewPage(vm, own, base, boot, q, j, v, space);
      var (vm1, f) := Take(vm, space, PageBase(v) + SWP_PAGE).v;
      LowFacts(f, PermsOf(Word(vm, q, j)));
      ChangedOthers(vm, SetWord(vm1, q, j, LowEntry(f, PermsOf(Word(vm, q, j)))), own, base, boot, r, q, j, f, i);
    } else {
      LowEntryParts(Word(vm, q, j));
    }
  }

  lemma OthersTwice(vm: Vm, vm1: Vm, vm2: Vm, r: nat, i: nat)
    requires OthersSame(vm, vm1, r, i) && OthersSame(vm1, vm2, r, i)
    ensures OthersSame(vm, vm2, r, i)
  {
    hide Word, StateOf, TableOf;
    forall k | 0 <= k < ENTRIES && k != i
      ensures TableSame(vm, vm2, r, k)
    {
      assert TableSame(vm, vm1, r, k) && TableSame(vm1, vm2, r, k);
    }
  }

  lemma UniformSame(vm: Vm, vm': Vm, r: nat, i: nat, perms: nat)
    requires TableSame(vm, vm', r, i) && Uniform(vm, r, i, perms)
    ensures Uniform(vm', r, i, perms)
  {
    hide Word, StateOf, TableOf, PermsOf;
  }

  /** What a fault does to permissions: a new table takes those asked for, an old one keeps its own. */
  ghost predicate Relabelled(vm: Vm, vm': Vm, r: nat, i: nat, perms: nat) {
    && (StateOf(Word(vm, r, i)) == Vacant ==> Uniform(vm', r, i, perms))
    && (forall p :: Uniform(vm, r, i, p) ==> Uniform(vm', r, i, p))
    && OthersSame(vm, vm', r, i)
  }

  lemma FaultPerms(vm: Vm, own: map<nat, Owner>, base: seq<Page>, boot: nat, r: nat, v: nat, perms: nat, space: nat)
    requires Inv(vm, own, base, boot) && IsRoot(own, r) && TopIndex(v) < ENTRIES && Permissions(perms)
    requires GetPaddr(vm, r, v, true, perms, space).Some?
    ensures Relabelled(vm, GetPaddr(vm, r, v, true, perms, space).v.0, r, TopIndex(v), perms)
  {
    hide Inv, GetTable, GetPage, OwnTable, StateOf, PermsOf, Word, TableOf, Kept, Apart, RootsKept, TopIndex, LowIndex;
    hide Permissions, OthersSame;
    var i, j := TopIndex(v), LowIndex(v);
    GetTableOk(vm, own, base, boot, r, v, true, perms, space);
    TablePerms(vm, own, base, boot, r, v, perms, space);
    var (vm1, t) := GetTable(vm, r, v, true, perms, space).v;
    var own1 := OwnTable(vm, own, r, v, true, perms, space);
    var q := t.v;
    LowBound(v);
    PagePerms(vm1, own1, base, boot, r, i, q, j, v, space);
    TopFacts(q);
    var vm' := GetPage(vm1, q, j, true, v, space).v.0;
    OthersTwice(vm, vm1, vm', r, i);
    assert forall p :: Uniform(vm1, r, i, p) ==> Uniform(vm', r, i, p);
    assert StateOf(Word(vm, r, i)) == Vacant ==> forall p :: !Uniform(vm, r, i, p);
  }

  /** The permissions that a page made for an address gets: those of its entry, or those asked for in a new table. */
  function NewPerms(vm: Vm, r: nat, v: nat, perms: nat): nat {
    if StateOf(Word(vm, r, TopIndex(v))) == Vacant then perms else PermsOf(EntryOf(vm, r, v))
  }

  /**
   * What pt_get_paddr answers, to the bit: the frame and the permissions of a page that is there, nothing else being
   * touched; of one that it makes, the whole entry, state bit and all.
   */
  lemma PaddrIs(vm: Vm, own: map<nat, Owner>, base: seq<Page>, boot: nat, r: nat, v: nat, create: bool, perms: nat,
                space: nat)
    requires Inv(vm, own, base, boot) && IsRoot(own, r) && TopIndex(v) < ENTRIES && Permissions(perms)
    requires GetPaddr(vm, r, v, create, perms, space).Some?
    ensures var (vm', dst) := GetPaddr(vm, r, v, create, perms, space).v;
      && (Mapped(vm, r, v).Some? ==>
            vm' == vm && dst == Mapped(vm, r, v).v * PAGE_SIZE + PermsOf(EntryOf(vm, r, v)))
      && (Mapped(vm, r, v).None? && !create ==> vm' == vm && dst == PAGE_FREE)
      && (Mapped(vm, r, v).None? && create ==>
            && Mapped(vm', r, v) == Some(dst / PAGE_SIZE)
            && dst == EntryOf(vm', r, v) == LowEntry(dst / PAGE_SIZE, NewPerms(vm, r, v, perms)))
  {
    hide Inv, GetTable, GetPage, Kept, Apart, RootsKept, StateOf, PermsOf, Word, TableOf, FrameOf, TopIndex, LowIndex;
    hide OwnTable, OwnPage, OthersSame, Permissions;
    GetTableOk(vm, own, base, boot, r, v, create, perms, space);
    var (vm1, t) := GetTable(vm, r, v, create, perms, space).v;
    var own1 := OwnTable(vm, own, r, v, create, perms, space);
    LowBound(v);
    TableThere(vm, own, base, boot, r, v, create, perms, space);
    if t.Some? {
      TopFacts(t.v);
      PageIs(vm1, own1, base, boot, r, t.v, create, v, space);
    }
  }

  lemma TableThere(vm: Vm, own: map<nat, Owner>, base: seq<Page>, boot: nat, r: nat, v: nat, create: bool, perms: nat,
                   space: nat)
    requires Inv(vm, own, base, boot) && IsRoot(own, r) && TopIndex(v) < ENTRIES && Permissions(perms)
    requires GetTable(vm, r, v, create, perms, space).Some?
    ensures var (vm1, t) := GetTable(vm, r, v, create, perms, space).v; var i := TopIndex(v);
      && (StateOf(Word(vm, r, i)) != Vacant ==>
            StateOf(Word(vm, r, i)) == InMem && vm1 == vm && t == Some(TableOf(Word(vm, r, i))))
      && (StateOf(Word(vm, r, i)) == Vacant && !create ==> vm1 == vm && t == None)
      && (StateOf(Word(vm, r, i)) == Vacant && create ==>
            && StateOf(Word(vm1, r, i)) == InMem && t == Some(TableOf(Word(vm1, r, i)))
            && StateOf(EntryOf(vm1, r, v)) == Vacant && PermsOf(EntryOf(vm1, r, v)) == perms)
  {
    hide Inv, Kept, Apart, RootsKept, StateOf, PermsOf, TopIndex, LowIndex, Permissions, TableOf, MakeTable;
    NeverSwapped(vm, own, base, boot, r, v);
    LowBound(v);
    if StateOf(Word(vm, r, TopIndex(v))) == Vacant && create {
      NewTable(vm, own, base, boot, r, v, perms, space);
      var (vm1, q) := MakeTable(vm, perms, space, v).v;
      RootWord(vm, vm1, own, base, boot, r, v, perms, space);
      EntryFacts(q, perms);
    }
  }

  lemma PageIs(vm: Vm, own: map<nat, Owner>, base: seq<Page>, boot: nat, r: nat, q: nat, create: bool, v: nat,
               space: nat)
    requires Inv(vm, own, base, boot) && IsRoot(own, r) && IsTable(own, q, r, TopIndex(v))
    requires Word(vm, r, TopIndex(v)) == TopEntry(q) && GetPage(vm, q, LowIndex(v), create, v, space).Some?
    ensures var (vm', dst) := GetPage(vm, q, LowIndex(v), create, v, space).v; var e := EntryOf(vm, r, v);
      && (Mapped(vm, r, v).Some? <==> StateOf(e) == InMem) && (StateOf(e) == InMem || StateOf(e) == Vacant)
      && (StateOf(e) == InMem ==> vm' == vm && dst == Mapped(vm, r, v).v * PAGE_SIZE + PermsOf(e))
      && (StateOf(e) == Vacant && !create ==> vm' == vm && dst == PAGE_FREE)
      && (StateOf(e) == Vacant && create ==>
            && Mapped(vm', r, v) == Some(dst / PAGE_SIZE)
            && dst == EntryOf(vm', r, v) == LowEntry(dst / PAGE_SIZE, PermsOf(e)))
  {
    TopFacts(q);
    LowBound(v);
    var j := LowIndex(v);
    var e := Word(vm, q, j);
    LowIs(vm, own, base, boot, q, j);
    if StateOf(e) == Vacant && create {
      hide StateOf, PermsOf, TableOf, LowIndex, TopIndex, Inv, Kept, Apart, RootsKept;
      NewPage(vm, own, base, boot, q, j, v, space);
      var (vm1, f) := Take(vm, space, PageBase(v) + SWP_PAGE).v;
      LowFacts(f, PermsOf(e));
      KeptRootWord(vm, own, base, boot, r, q, j, v, space);
    }
  }

  lemma KeptRootWord(vm: Vm, own: map<nat, Owner>, base: seq<Page>, boot: nat, r: nat, q: nat, j: nat, v: nat,
                     space: nat)
    requires Inv(vm, own, base, boot) && IsRoot(own, r) && IsTable(own, q, r, TopIndex(v))
    requires GetPage(vm, q, j, true, v, space).Some?
    ensures Word(GetPage(vm, q, j, true, v, space).v.0, r, TopIndex(v)) == Word(vm, r, TopIndex(v))
  {
    hide StateOf, PermsOf, GetPages;
  }

  lemma LowIs(vm: Vm, own: map<nat, Owner>, base: seq<Page>, boot: nat, q: nat, j: nat)
    requires Inv(vm, own, base, boot) && q in own && own[q].part.Table? && j < ENTRIES
    ensures var e := Word(vm, q, j);
      && (StateOf(e) == InMem || StateOf(e) == Vacant)
      && (StateOf(e) == InMem ==> e - e % 4 == FrameOf(e) * PAGE_SIZE + PermsOf(e))
  {
    hide Memory, BaseOk, FrameOk, TopOk;
    assert LowOk(vm, own, q, j);
    var e := Word(vm, q, j);
    if StateOf(e) != Vacant {
      LowFacts(FrameOf(e), PermsOf(e));
      PageBits(FrameOf(e), PAGE_IN_MEM + PermsOf(e));
    }
  }

  lemma LowBound(v: nat)
    ensures LowIndex(v) < ENTRIES
  {
  }

  lemma LeafOnly(vm: Vm, vm': Vm, own: map<nat, Owner>, base: seq<Page>, boot: nat, r: nat, f: nat)
    requires Inv(vm, own, base, boot) && IsRoot(own, r) && f in own && own[f].part.Leaf? && SameWordsBut(vm, vm', f)
    ensures forall k :: 0 <= k < ENTRIES ==> TableSame(vm, vm', r, k)
  {
    hide Memory, BaseOk, FrameOk, LowOk;
    forall k | 0 <= k < ENTRIES
      ensures TableSame(vm, vm', r, k)
    {
      assert TopOk(vm, own, r, k);
    }
  }

  /** Copying one page: the same as for a fault. */
  lemma CopyPagePerms(vm: Vm, own: map<nat, Owner>, base: seq<Page>, boot: nat, dst: nat, v: nat, f1: nat, perms: nat,
                      space: nat)
    requires Inv(vm, own, base, boot) && IsRoot(own, dst) && f1 in own && own[f1].part.Leaf? && own[f1].root != dst
    requires TopIndex(v) < ENTRIES && Permissions(perms) && Mapped(vm, dst, v).None?
    requires CopyPage(vm, dst, v, f1, perms, space).Some?
    ensures Relabelled(vm, CopyPage(vm, dst, v, f1, perms, space).v, dst, TopIndex(v), perms)
  {
    hide Inv, GetPaddr, OwnPaddr, StateOf, PermsOf, Word, TableOf, Kept, Apart, RootsKept, TopIndex, Mapped, OthersSame;
    hide TableSame;
    FixInv(vm, own, base, boot, f1, true);
    var vm1 := PageTableCopy.Fix(vm, f1, true);
    SameMapped(vm, vm1, dst);
    GetPaddrOk(vm1, own, base, boot, dst, v, true, perms, space);
    FaultMaps(vm1, own, base, boot, dst, v, perms, space);
    FaultPerms(vm1, own, base, boot, dst, v, perms, space);
    var (vm2, paddr2) := GetPaddr(vm1, dst, v, true, perms, space).v;
    var own' := OwnPaddr(vm1, own, dst, v, true, perms, space);
    var f2 := paddr2 / PAGE_SIZE;
    MappedLeaf(vm2, own', base, boot, dst, v);
    KeptOwner(vm1, vm2, own, own', f1);
    FillOk(vm2, own', base, boot, f1, f2);
    var vm' := CopyPage(vm, dst, v, f1, perms, space).v;
    LeafOnly(vm2, vm', own', base, boot, dst, f2);
    RelabelledAround(vm, vm1, vm2, vm', dst, TopIndex(v), perms);
  }

  lemma RelabelledAround(vm: Vm, vm1: Vm, vm2: Vm, vm': Vm, r: nat, i: nat, perms: nat)
    requires (forall f, k :: Word(vm1, f, k) == Word(vm, f, k)) && Relabelled(vm1, vm2, r, i, perms) && i < ENTRIES
    requires forall k :: 0 <= k < ENTRIES ==> TableSame(vm2, vm', r, k)
    ensures Relabelled(vm, vm', r, i, perms)
  {
    hide Word, StateOf, TableOf, PermsOf;
    assert OthersSame(vm, vm1, r, i) && OthersSame(vm2, vm', r, i);
    OthersTwice(vm, vm1, vm2, r, i);
    OthersTwice(vm, vm2, vm', r, i);
    forall p | Uniform(vm2, r, i, p)
      ensures Uniform(vm', r, i, p)
    {
      UniformSame(vm2, vm', r, i, p);
    }
    assert forall p :: Uniform(vm, r, i, p) ==> Uniform(vm1, r, i, p);
  }

  // ---- The whole copy -----------------------------------------------------

  function ParentPerms(vm: Vm, src: nat, n: nat): nat {
    PermsOf(Word(vm, TableOf(Word(vm, src, n / ENTRIES)), n % ENTRIES))
  }

  /** The first page to be copied of those that share its second-level table. */
  ghost predicate IsFirst(vm: Vm, src: nat, regions: seq<Region>, n: nat) {
    Wanted(vm, src, regions, n) && forall m :: n / ENTRIES * ENTRIES <= m < n ==> !Wanted(vm, src, regions, m)
  }

  /**
   * When the parent's pages up to n have been dealt with: a table of the child has the permissions of the first page
   * copied to it.
   */
  ghost predicate Labelled(vm0: Vm, vm: Vm, src: nat, dst: nat, regions: seq<Region>, n: nat, i: nat) {
    && (forall m :: 0 <= m < n && m / ENTRIES == i && IsFirst(vm0, src, regions, m) ==>
          Uniform(vm, dst, i, ParentPerms(vm0, src, m)))
    && ((forall m :: 0 <= m < n && m / ENTRIES == i ==> !Wanted(vm0, src, regions, m)) ==>
          StateOf(Word(vm, dst, i)) == Vacant)
  }

  ghost predicate AllLabelled(vm0: Vm, vm: Vm, src: nat, dst: nat, regions: seq<Region>, n: nat) {
    forall i :: 0 <= i < ENTRIES ==> Labelled(vm0, vm, src, dst, regions, n, i)
  }

  lemma LabelSkipped(vm0: Vm, vm: Vm, src: nat, dst: nat, regions: seq<Region>, n: nat)
    requires AllLabelled(vm0, vm, src, dst, regions, n) && !Wanted(vm0, src, regions, n)
    ensures AllLabelled(vm0, vm, src, dst, regions, n + 1)
  {
    hide Wanted, Uniform, ParentPerms, StateOf, Word;
    var n1 := n + 1;
    forall i | 0 <= i < ENTRIES
      ensures Labelled(vm0, vm, src, dst, regions, n1, i)
    {
      assert Labelled(vm0, vm, src, dst, regions, n, i);
    }
  }

  lemma LabelCopied(vm0: Vm, vm: Vm, vm': Vm, src: nat, dst: nat, regions: seq<Region>, n: nat)
    requires AllLabelled(vm0, vm, src, dst, regions, n) && Wanted(vm0, src, regions, n) && n / ENTRIES < ENTRIES
    requires Relabelled(vm, vm', dst, n / ENTRIES, ParentPerms(vm0, src, n))
    ensures AllLabelled(vm0, vm', src, dst, regions, n + 1)
  {
    hide Wanted, Uniform, ParentPerms, StateOf, Word;
    var n1 := n + 1;
    forall i | 0 <= i < ENTRIES
      ensures Labelled(vm0, vm', src, dst, regions, n1, i)
    {
      assert Labelled(vm0, vm, src, dst, regions, n, i);
      if i == n / ENTRIES {
        LabelHere(vm0, vm, vm', src, dst, regions, n);
      } else {
        LabelElsewhere(vm0, vm, vm', src, dst, regions, n, i);
      }
    }
  }

  lemma LabelElsewhere(vm0: Vm, vm: Vm, vm': Vm, src: nat, dst: nat, regions: seq<Region>, n: nat, i: nat)
    requires Labelled(vm0, vm, src, dst, regions, n, i) && TableSame(vm, vm', dst, i) && i != n / ENTRIES
    ensures Labelled(vm0, vm', src, dst, regions, n + 1, i)
  {
    hide Wanted, ParentPerms, StateOf, Word, TableOf, PermsOf;
    forall m | 0 <= m < n + 1 && m / ENTRIES == i && IsFirst(vm0, src, regions, m)
      ensures Uniform(vm', dst, i, ParentPerms(vm0, src, m))
    {
      UniformSame(vm, vm', dst, i, ParentPerms(vm0, src, m));
    }
  }

  lemma LabelHere(vm0: Vm, vm: Vm, vm': Vm, src: nat, dst: nat, regions: seq<Region>, n: nat)
    requires Labelled(vm0, vm, src, dst, regions, n, n / ENTRIES) && Wanted(vm0, src, regions, n)
    requires Relabelled(vm, vm', dst, n / ENTRIES, ParentPerms(vm0, src, n))
    ensures Labelled(vm0, vm', src, dst, regions, n + 1, n / ENTRIES)
  {
    hide Wanted, Uniform, ParentPerms, StateOf, Word, OthersSame;
    var i := n / ENTRIES;
    forall m | 0 <= m < n + 1 && m / ENTRIES == i && IsFirst(vm0, src, regions, m)
      ensures Uniform(vm', dst, i, ParentPerms(vm0, src, m))
    {
      if m == n {
        forall k | 0 <= k < n && k / ENTRIES == i
          ensures !Wanted(vm0, src, regions, k)
        {
          SameStretch(k, n);
        }
      }
    }
  }

  lemma SameStretch(k: nat, n: nat)
    requires k / ENTRIES == n / ENTRIES
    ensures n / ENTRIES * ENTRIES <= k
  {
  }

  lemma {:induction false} CopyLowLabels(vm0: Vm, vm: Vm, own0: map<nat, Owner>, own: map<nat, Owner>, base: seq<Page>,
                                         boot: nat, src: nat, dst: nat, regions: seq<Region>, i: nat, j: nat,
                                         space: nat)
    returns (own': map<nat, Owner>)
    requires Inv(vm0, own0, base, boot) && IsRoot(own0, src) && src != dst && i < ENTRIES && j <= ENTRIES
    requires StateOf(Word(vm0, src, i)) == InMem
    requires Progress(vm0, vm, own0, own, base, boot, src, dst, regions, i * ENTRIES + j)
    requires AllLabelled(vm0, vm, src, dst, regions, i * ENTRIES + j)
    requires CopyLow(vm, TableOf(Word(vm0, src, i)), i, j, dst, regions, space).Some?
    ensures Progress(vm0, CopyLow(vm, TableOf(Word(vm0, src, i)), i, j, dst, regions, space).v, own0, own', base, boot,
                     src, dst, regions, (i + 1) * ENTRIES)
    ensures AllLabelled(vm0, CopyLow(vm, TableOf(Word(vm0, src, i)), i, j, dst, regions, space).v, src, dst, regions,
                        (i + 1) * ENTRIES)
    decreases ENTRIES - j
  {
    hide Inv, Progress, Wanted, Copied, CopyPage, CopyLow, StateOf, PermsOf, Mapped, OwnCopy, Word, TableOf;
    hide AllLabelled, Relabelled;
    var q := TableOf(Word(vm0, src, i));
    if j == ENTRIES {
      CopyEnds(vm, q, src, i, dst, regions, space);
      own' := own;
    } else {
      ProgressApart(vm0, vm, own0, own, base, boot, src, dst, regions, i * ENTRIES + j);
      CopyLowStep(vm, q, i, j, dst, regions, space);
      WantedNow(vm0, vm, own0, base, boot, src, dst, regions, i, j);
      ParentSame(vm0, vm, own0, base, boot, src, dst, i, j);
      NumberParts(i, j);
      var n := i * ENTRIES + j;
      var value := Word(vm, q, j);
      if Wanted(vm0, src, regions, n) {
        PageCopied(vm0, vm, own0, own, base, boot, src, dst, regions, n, FrameOf(value), PermsOf(value), space);
        var vm1 := CopyPage(vm, dst, n * PAGE_SIZE, FrameOf(value), PermsOf(value), space).v;
        NextLabelled(vm0, vm, own0, own, base, boot, src, dst, regions, n, FrameOf(value), space);
        var own1 := OwnCopy(vm, own, dst, n * PAGE_SIZE, FrameOf(value), PermsOf(value), space);
        own' := CopyLowLabels(vm0, vm1, own0, own1, base, boot, src, dst, regions, i, j + 1, space);
      } else {
        PageSkipped(vm0, vm, own0, own, base, boot, src, dst, regions, n);
        LabelSkipped(vm0, vm, src, dst, regions, n);
        own' := CopyLowLabels(vm0, vm, own0, own, base, boot, src, dst, regions, i, j + 1, space);
      }
    }
  }

  lemma NextLabelled(vm0: Vm, vm: Vm, own0: map<nat, Owner>, own: map<nat, Owner>, base: seq<Page>, boot: nat, src: nat,
                     dst: nat, regions: seq<Region>, n: nat, f1: nat, space: nat)
    requires Inv(vm0, own0, base, boot) && IsRoot(own0, src) && src != dst
    requires Progress(vm0, vm, own0, own, base, boot, src, dst, regions, n) && n < PAGES
    requires Wanted(vm0, src, regions, n) && f1 == Mapped(vm0, src, n * PAGE_SIZE).v
    requires AllLabelled(vm0, vm, src, dst, regions, n)
    requires CopyPage(vm, dst, n * PAGE_SIZE, f1, ParentPerms(vm0, src, n), space).Some?
    ensures AllLabelled(vm0, CopyPage(vm, dst, n * PAGE_SIZE, f1, ParentPerms(vm0, src, n), space).v, src, dst,
                        regions, n + 1)
  {
    hide Inv, Wanted, Mapped, CopyPage, Kept, Apart, PageDone, TopIndex, LowIndex, AllLabelled, Relabelled;
    NumberSplit(n);
    WantedMapped(vm0, src, regions, n);
    MappedLeaf(vm0, own0, base, boot, src, n * PAGE_SIZE);
    NotYet(vm0, vm, own0, src, dst, regions, n);
    KeptOwner(vm0, vm, own0, own, f1);
    CopyPagePerms(vm, own, base, boot, dst, n * PAGE_SIZE, f1, ParentPerms(vm0, src, n), space);
    LabelCopied(vm0, vm, CopyPage(vm, dst, n * PAGE_SIZE, f1, ParentPerms(vm0, src, n), space).v, src, dst, regions, n);
  }

  /** A stretch of the parent without a second-level table. */
  lemma {:induction false} StretchLabels(vm0: Vm, vm: Vm, src: nat, dst: nat, regions: seq<Region>, i: nat, j: nat)
    requires AllLabelled(vm0, vm, src, dst, regions, i * ENTRIES + j) && i < ENTRIES && j <= ENTRIES
    requires StateOf(Word(vm0, src, i)) != InMem
    ensures AllLabelled(vm0, vm, src, dst, regions, (i + 1) * ENTRIES)
    decreases ENTRIES - j
  {
    hide AllLabelled, Wanted, StateOf, Word;
    if j < ENTRIES {
      NotThere(vm0, src, regions, i, j);
      LabelSkipped(vm0, vm, src, dst, regions, i * ENTRIES + j);
      StretchLabels(vm0, vm, src, dst, regions, i, j + 1);
    }
  }

  lemma {:induction false} CopyTopLabels(vm0: Vm, vm: Vm, own0: map<nat, Owner>, own: map<nat, Owner>, base: seq<Page>,
                                         boot: nat, src: nat, dst: nat, regions: seq<Region>, i: nat, space: nat)
    requires Inv(vm0, own0, base, boot) && IsRoot(own0, src) && src != dst && i <= ENTRIES
    requires Progress(vm0, vm, own0, own, base, boot, src, dst, regions, i * ENTRIES)
    requires AllLabelled(vm0, vm, src, dst, regions, i * ENTRIES)
    requires CopyTop(vm, src, i, dst, regions, space).Some?
    ensures AllLabelled(vm0, CopyTop(vm, src, i, dst, regions, space).v, src, dst, regions, PAGES)
    decreases ENTRIES - i
  {
    hide Inv, Progress, CopyLow, CopyTop, StateOf, Word, TableOf, AllLabelled;
    if i == ENTRIES {
      CopyEnds(vm, 0, src, i, dst, regions, space);
    } else {
      ProgressApart(vm0, vm, own0, own, base, boot, src, dst, regions, i * ENTRIES);
      CopyTopStep(vm, src, i, dst, regions, space);
      ParentSame(vm0, vm, own0, base, boot, src, dst, i, 0);
      var value := Word(vm, src, i);
      if StateOf(value) == InMem {
        var own1 := CopyLowLabels(vm0, vm, own0, own, base, boot, src, dst, regions, i, 0, space);
        var vm1 := CopyLow(vm, TableOf(value), i, 0, dst, regions, space).v;
        CopyTopLabels(vm0, vm1, own0, own1, base, boot, src, dst, regions, i + 1, space);
      } else {
        StretchSkipped(vm0, vm, own0, own, base, boot, src, dst, regions, i, 0);
        StretchLabels(vm0, vm, src, dst, regions, i, 0);
        CopyTopLabels(vm0, vm, own0, own, base, boot, src, dst, regions, i + 1, space);
      }
    }
  }

  ghost predicate EmptyTop(vm: Vm, r: nat) {
    forall i :: 0 <= i < ENTRIES ==> StateOf(Word(vm, r, i)) == Vacant
  }

  /**
   * In a copy made into a new page table, a page has the permissions of the first page copied of those that
   * share its second-level table. It has those of the page it is a copy of if and only if that page had the
   * same permissions as that first one.
   */
  lemma CopyPermsIff(vm: Vm, own: map<nat, Owner>, base: seq<Page>, boot: nat, src: nat, dst: nat, regions: seq<Region>,
                     space: nat, first: nat, n: nat)
    requires Inv(vm, own, base, boot) && IsRoot(own, src) && IsRoot(own, dst) && src != dst && EmptyTop(vm, dst)
    requires Copy(vm, src, dst, regions, space).Some? && n < PAGES && Wanted(vm, src, regions, n)
    requires IsFirst(vm, src, regions, first) && first / ENTRIES == n / ENTRIES
    ensures var vm' := Copy(vm, src, dst, regions, space).v;
      && PermsOf(EntryOf(vm', dst, n * PAGE_SIZE)) == PermsOf(EntryOf(vm, src, first * PAGE_SIZE))
      && (PermsOf(EntryOf(vm', dst, n * PAGE_SIZE)) == PermsOf(EntryOf(vm, src, n * PAGE_SIZE)) <==>
            PermsOf(EntryOf(vm, src, n * PAGE_SIZE)) == PermsOf(EntryOf(vm, src, first * PAGE_SIZE)))
  {
    hide Inv, Wanted, CopyTop, PermsOf, StateOf, Word, TableOf, TopIndex, LowIndex;
    StartLabelled(vm, own, base, boot, src, dst, regions);
    CopyTopLabels(vm, vm, own, own, base, boot, src, dst, regions, 0, space);
    var vm' := Copy(vm, src, dst, regions, space).v;
    assert Labelled(vm, vm', src, dst, regions, PAGES, n / ENTRIES);
    NumberSplit(n);
    NumberSplit(first);
    assert Uniform(vm', dst, n / ENTRIES, ParentPerms(vm, src, first));
  }

  lemma StartLabelled(vm: Vm, own: map<nat, Owner>, base: seq<Page>, boot: nat, src: nat, dst: nat,
                      regions: seq<Region>)
    requires Inv(vm, own, base, boot) && IsRoot(own, src) && IsRoot(own, dst) && EmptyTop(vm, dst)
    ensures Progress(vm, vm, own, own, base, boot, src, dst, regions, 0) && AllLabelled(vm, vm, src, dst, regions, 0)
  {
    hide Inv, Wanted, PermsOf;
    KeptSelf(vm, own);
    forall m | 0 <= m < PAGES
      ensures PageDone(vm, vm, own, src, dst, regions, 0, m)
    {
      NumberSplit(m);
    }
  }

  /** Among pages to be copied that share a second-level table there is a first. */
  lemma {:induction false} FirstExists(vm: Vm, src: nat, regions: seq<Region>, n: nat) returns (first: nat)
    requires Wanted(vm, src, regions, n)
    ensures first <= n && first / ENTRIES == n / ENTRIES && IsFirst(vm, src, regions, first)
    decreases n
  {
    hide Wanted;
    if m :| n / ENTRIES * ENTRIES <= m < n && Wanted(vm, src, regions, m) {
      SameQuotient(m, n);
      first := FirstExists(vm, src, regions, m);
    } else {
      first := n;
    }
  }

  lemma SameQuotient(m: nat, n: nat)
    requires n / ENTRIES * ENTRIES <= m < n
    ensures m / ENTRIES == n / ENTRIES
  {
  }

  /**
   * Two pages with different permissions and one second-level table: at least one of them loses its own in the copy.
   */
  lemma SharedTableLoses(vm: Vm, own: map<nat, Owner>, base: seq<Page>, boot: nat, src: nat, dst: nat,
                         regions: seq<Region>, space: nat, n: nat, m: nat)
    requires Inv(vm, own, base, boot) && IsRoot(own, src) && IsRoot(own, dst) && src != dst && EmptyTop(vm, dst)
    requires Copy(vm, src, dst, regions, space).Some? && n < PAGES && m < PAGES && Wanted(vm, src, regions, n)
    requires Wanted(vm, src, regions, m)
    requires m / ENTRIES == n / ENTRIES
    requires PermsOf(EntryOf(vm, src, m * PAGE_SIZE)) != PermsOf(EntryOf(vm, src, n * PAGE_SIZE))
    ensures var vm' := Copy(vm, src, dst, regions, space).v;
      || PermsOf(EntryOf(vm', dst, n * PAGE_SIZE)) != PermsOf(EntryOf(vm, src, n * PAGE_SIZE))
      || PermsOf(EntryOf(vm', dst, m * PAGE_SIZE)) != PermsOf(EntryOf(vm, src, m * PAGE_SIZE))
  {
    hide Inv, Wanted, Copy, PermsOf, EntryOf, IsFirst, EmptyTop;
    var first := FirstExists(vm, src, regions, n);
    CopyPermsIff(vm, own, base, boot, src, dst, regions, space, first, n);
    CopyPermsIff(vm, own, base, boot, src, dst, regions, space, first, m);
  }
}
