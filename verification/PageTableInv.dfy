/** What the page table operations keep. */
module PageTableInv {
  import opened Coremaps
  import opened PageTables

  // ---- A new frame --------------------------------------------------------

  lemma TakeOk(vm: Vm, own: map<nat, Owner>, base: seq<Page>, boot: nat, space: nat, note: nat)
    requires Inv(vm, own, base, boot) && Take(vm, space, note).Some?
    ensures var (vm1, p) := Take(vm, space, note).v;
      && Memory(vm1, boot) && vm1.mem == vm.mem && p !in own && p < |base| && base[p] == BLANK && p > 0
      && vm1.cm.pages[p] == Page(space, note, 1, ALLOCATED) && forall f :: 0 <= f < |base| && f != p ==>
            vm1.cm.pages[f] == vm.cm.pages[f]
  {
    GetPagesOk(vm.cm, boot, 1);
    var (cm, r) := GetPages(vm.cm, 1);
    var p := r.v;
    assert p in own ==> FrameOk(vm, own, p);
    assert PageOk(vm.cm.pages, boot, p);
    MarkOk(cm, boot, p, cm.pages[p].(space := space, vaddr := note));
  }

  /** Only page p, and word k of page t, may differ. */
  ghost predicate Changed(vm: Vm, vm': Vm, t: nat, k: nat, p: nat) {
    && |vm'.mem| == |vm.mem| && |vm'.cm.pages| == |vm.cm.pages|
    && (forall x, y :: x != p && !(x == t && y == k) ==> Word(vm', x, y) == Word(vm, x, y))
    && (forall f :: 0 <= f < |vm.cm.pages| && f != p ==> vm'.cm.pages[f] == vm.cm.pages[f])
  }

  /** The part of an address space that entry k of a table leads to. */
  function Below(part: Part, k: nat): Part {
    match part
    case Root => Table(k)
    case Table(i) => Leaf(i, k)
    case Leaf(i, j) => part
  }

  ghost predicate NewEntry(vm': Vm, part: Part, t: nat, k: nat, p: nat) {
    match part
    case Root => Word(vm', t, k) == TopEntry(p) && forall j :: 0 <= j < ENTRIES ==> StateOf(Word(vm', p, j)) == Vacant
    case Table(i) => exists perms :: Permissions(perms) && Word(vm', t, k) == LowEntry(p, perms)
    case Leaf(i, j) => false
  }

  /** A vacant entry of a table is filled with a frame of its own. */
  lemma AddInv(vm: Vm, vm': Vm, own: map<nat, Owner>, base: seq<Page>, boot: nat, t: nat, k: nat, p: nat)
    requires Inv(vm, own, base, boot) && Memory(vm', boot) && Changed(vm, vm', t, k, p)
    requires t in own && k < ENTRIES && StateOf(Word(vm, t, k)) == Vacant && NewEntry(vm', own[t].part, t, k, p)
    requires p !in own && p < |base| && base[p] == BLANK && vm'.cm.pages[p].count == 1 && vm'.cm.pages[p].state != FREE
    ensures Inv(vm', own[p := Owner(own[t].root, Below(own[t].part, k))], base, boot)
  {
    hide FrameOk, TopOk, LowOk, Memory, Word, StateOf, NewEntry, Below, Changed;
    var own' := own[p := Owner(own[t].root, Below(own[t].part, k))];
    PartIndex(vm, own, t);
    AddBase(vm, vm', own, base, t, k, p);
    forall f | f in own'
      ensures FrameOk(vm', own', f)
    {
      if f == p { AddNew(vm, vm', own, t, k, p); } else { AddKeeps(vm, vm', own, own', t, k, p, f); }
    }
    forall r, i | IsRoot(own', r) && 0 <= i < ENTRIES
      ensures TopOk(vm', own', r, i)
    {
      AddTop(vm, vm', own, own', t, k, p, r, i);
    }
    forall q, j | q in own' && own'[q].part.Table? && 0 <= j < ENTRIES
      ensures LowOk(vm', own', q, j)
    {
      AddLow(vm, vm', own, own', t, k, p, q, j);
    }
  }

  lemma PartIndex(vm: Vm, own: map<nat, Owner>, t: nat)
    requires FrameOk(vm, own, t)
    ensures t in own && own[t].part.Table? ==> own[t].part.i < ENTRIES
  {
  }

  lemma AddBase(vm: Vm, vm': Vm, own: map<nat, Owner>, base: seq<Page>, t: nat, k: nat, p: nat)
    requires BaseOk(vm, own, base) && Changed(vm, vm', t, k, p) && t in own && p !in own && p < |base|
    requires base[p] == BLANK
    ensures BaseOk(vm', own[p := Owner(own[t].root, Below(own[t].part, k))], base)
  {
    hide Below, Word;
  }

  lemma AddNew(vm: Vm, vm': Vm, own: map<nat, Owner>, t: nat, k: nat, p: nat)
    requires Changed(vm, vm', t, k, p) && t in own && k < ENTRIES && NewEntry(vm', own[t].part, t, k, p)
    requires FrameOk(vm, own, t)
    requires p !in own && p < |vm.cm.pages| && vm'.cm.pages[p].count == 1 && vm'.cm.pages[p].state != FREE
    ensures FrameOk(vm', own[p := Owner(own[t].root, Below(own[t].part, k))], p)
  {
    EntryFacts(t, 0);
    if own[t].part.Table? {
      var perms :| Permissions(perms) && Word(vm', t, k) == LowEntry(p, perms);
      EntryFacts(p, perms);
      assert Word(vm', own[t].root, own[t].part.i) == TopEntry(t);
    }
  }

  lemma AddKeeps(vm: Vm, vm': Vm, own: map<nat, Owner>, own': map<nat, Owner>, t: nat, k: nat, p: nat, f: nat)
    requires Changed(vm, vm', t, k, p) && t in own && StateOf(Word(vm, t, k)) == Vacant && p !in own
    requires own' == own[p := Owner(own[t].root, Below(own[t].part, k))] && f in own && FrameOk(vm, own, f)
    ensures FrameOk(vm', own', f)
  {
    EntryFacts(f, 0);
    var r := own[f].root;
    match own[f].part
    case Root =>
    case Table(i) =>
    case Leaf(i, j) =>
      var q := TableOf(Word(vm, r, i));
      assert Word(vm', r, i) == Word(vm, r, i) && Word(vm', q, j) == Word(vm, q, j);
  }

  lemma AddTop(vm: Vm, vm': Vm, own: map<nat, Owner>, own': map<nat, Owner>, t: nat, k: nat, p: nat, r: nat, i: nat)
    requires Changed(vm, vm', t, k, p) && t in own && k < ENTRIES && NewEntry(vm', own[t].part, t, k, p)
    requires FrameOk(vm, own, t) && p !in own
    requires own' == own[p := Owner(own[t].root, Below(own[t].part, k))] && IsRoot(own', r) && i < ENTRIES
    requires IsRoot(own, r) ==> TopOk(vm, own, r, i)
    ensures TopOk(vm', own', r, i)
  {
    EntryFacts(p, 0);
    assert r != p;
  }

  lemma AddLow(vm: Vm, vm': Vm, own: map<nat, Owner>, own': map<nat, Owner>, t: nat, k: nat, p: nat, q: nat, j: nat)
    requires Changed(vm, vm', t, k, p) && t in own && k < ENTRIES && NewEntry(vm', own[t].part, t, k, p) && p !in own
    requires own' == own[p := Owner(own[t].root, Below(own[t].part, k))] && q in own' && own'[q].part.Table?
    requires j < ENTRIES
    requires q in own ==> LowOk(vm, own, q, j)
    requires t in own && own[t].part.Table? ==> own[t].part.i < ENTRIES
    ensures LowOk(vm', own', q, j)
  {
    if q != p {
      if q == t && j == k {
        var perms :| Permissions(perms) && Word(vm', t, k) == LowEntry(p, perms);
        EntryFacts(p, perms);
      } else {
        assert Word(vm', q, j) == Word(vm, q, j);
      }
    }
  }

  // ---- Faults -------------------------------------------------------------

  /** What was owned is owned by the same; what was mapped is mapped to the same; no page's contents have changed. */
  ghost predicate Kept(vm: Vm, vm': Vm, own: map<nat, Owner>, own': map<nat, Owner>) {
    && (forall f :: f in own ==> f in own' && own'[f] == own[f])
    && (forall f, k :: f in own && (own[f].part.Leaf? || StateOf(Word(vm, f, k)) != Vacant) ==>
          Word(vm', f, k) == Word(vm, f, k))
  }

  /** No word of a frame of another address space has changed. */
  ghost predicate Apart(vm: Vm, vm': Vm, own: map<nat, Owner>, r: nat) {
    forall f, k :: f in own && own[f].root != r ==> Word(vm', f, k) == Word(vm, f, k)
  }

  /** The address spaces are the same. */
  ghost predicate RootsKept(own: map<nat, Owner>, own': map<nat, Owner>) {
    forall r :: IsRoot(own', r) <==> IsRoot(own, r)
  }

  lemma KeptSelf(vm: Vm, own: map<nat, Owner>)
    ensures Kept(vm, vm, own, own)
  {
  }

  lemma KeptTwice(vm: Vm, vm1: Vm, vm2: Vm, own: map<nat, Owner>, own1: map<nat, Owner>, own2: map<nat, Owner>)
    requires Kept(vm, vm1, own, own1) && Kept(vm1, vm2, own1, own2)
    ensures Kept(vm, vm2, own, own2)
  {
  }

  lemma ApartTwice(vm: Vm, vm1: Vm, vm2: Vm, own: map<nat, Owner>, own1: map<nat, Owner>, r: nat)
    requires Apart(vm, vm1, own, r) && Apart(vm1, vm2, own1, r) && forall f :: f in own ==>
      f in own1 && own1[f] == own[f]
    ensures Apart(vm, vm2, own, r)
  {
  }

  /** A mapping, once there, stays. */
  lemma MappedKept(vm: Vm, vm': Vm, own: map<nat, Owner>, own': map<nat, Owner>, base: seq<Page>, boot: nat, r: nat,
                   v: nat)
    requires Inv(vm, own, base, boot) && Kept(vm, vm', own, own') && IsRoot(own, r) && TopIndex(v) < ENTRIES
    requires Mapped(vm, r, v).Some?
    ensures Mapped(vm', r, v) == Mapped(vm, r, v)
  {
    hide Memory, BaseOk;
    assert TopOk(vm, own, r, TopIndex(v));
    var q := TableOf(Word(vm, r, TopIndex(v)));
    assert Word(vm', r, TopIndex(v)) == Word(vm, r, TopIndex(v))
      && Word(vm', q, LowIndex(v)) == Word(vm, q, LowIndex(v));
  }

  lemma ChangedKept(vm: Vm, vm': Vm, own: map<nat, Owner>, t: nat, k: nat, p: nat, o: Owner)
    requires Changed(vm, vm', t, k, p) && p !in own && t in own && !own[t].part.Leaf?
    requires StateOf(Word(vm, t, k)) == Vacant
    ensures Kept(vm, vm', own, own[p := o]) && Apart(vm, vm', own, own[t].root)
    ensures (o.part != Root ==> RootsKept(own, own[p := o]))
  {
  }

  /** The frames owned after a second-level table has been asked for. */
  ghost function OwnTable(vm: Vm, own: map<nat, Owner>, r: nat, v: nat, create: bool, perms: nat, space: nat)
    : map<nat, Owner>
  {
    if StateOf(Word(vm, r, TopIndex(v))) == Vacant && create && MakeTable(vm, perms, space, v).Some? then
      own[MakeTable(vm, perms, space, v).v.1 := Owner(r, Table(TopIndex(v)))]
    else own
  }

  lemma NewTable(vm: Vm, own: map<nat, Owner>, base: seq<Page>, boot: nat, r: nat, v: nat, perms: nat, space: nat)
    requires Inv(vm, own, base, boot) && IsRoot(own, r) && TopIndex(v) < ENTRIES && Permissions(perms)
    requires StateOf(Word(vm, r, TopIndex(v))) == Vacant && MakeTable(vm, perms, space, v).Some?
    ensures var (vm1, q) := MakeTable(vm, perms, space, v).v; var vm' := SetWord(vm1, r, TopIndex(v), TopEntry(q));
      var own' := own[q := Owner(r, Table(TopIndex(v)))];
      && Inv(vm', own', base, boot) && Kept(vm, vm', own, own') && RootsKept(own, own') && Apart(vm, vm', own, r)
      && IsTable(own', q, r, TopIndex(v))
      && q !in own && Changed(vm, vm', r, TopIndex(v), q)
      && (forall j :: 0 <= j < ENTRIES ==> Word(vm', q, j) == PAGE_FREE + perms)
  {
    hide Ok, StateOf, TableOf, FrameOf, PermsOf, PageBase, TopIndex, TopOk, LowOk, Kept, Apart, RootsKept;
    TakeOk(vm, own, base, boot, space, PageBase(v) + SWP_TABLE);
    var (vm1, q) := MakeTable(vm, perms, space, v).v;
    var i := TopIndex(v);
    var vm' := SetWord(vm1, r, i, TopEntry(q));
    assert FrameOk(vm, own, r);
    EntryFacts(q, perms);
    FilledMemory(vm, vm1, vm', boot, r, i, q, TopEntry(q));
    AddInv(vm, vm', own, base, boot, r, i, q);
    ChangedKept(vm, vm', own, r, i, q, Owner(r, Table(i)));
  }

  /** A table in a fresh page and a word that points to it. */
  lemma FilledMemory(vm: Vm, vm1: Vm, vm': Vm, boot: nat, t: nat, k: nat, p: nat, value: nat)
    requires Memory(vm1, boot) && |vm.mem| == |vm1.mem| == |vm.cm.pages| && t < |vm.mem| && p < |vm.mem| && t != p
    requires k < ENTRIES
    requires forall x :: 0 <= x < |vm.mem| ==> |vm.mem[x]| == ENTRIES
    requires forall x :: 0 <= x < |vm.mem| && x != p ==> vm1.mem[x] == vm.mem[x] && vm1.cm.pages[x] == vm.cm.pages[x]
    requires vm' == SetWord(vm1, t, k, value)
    ensures Memory(vm', boot) && Changed(vm, vm', t, k, p) && Word(vm', t, k) == value
    ensures forall j :: Word(vm', p, j) == Word(vm1, p, j)
  {
    hide Ok;
  }

  lemma GetTableOk(vm: Vm, own: map<nat, Owner>, base: seq<Page>, boot: nat, r: nat, v: nat, create: bool, perms: nat,
                   space: nat)
    requires Inv(vm, own, base, boot) && IsRoot(own, r) && TopIndex(v) < ENTRIES && Permissions(perms)
    requires GetTable(vm, r, v, create, perms, space).Some?
    ensures var (vm', t) := GetTable(vm, r, v, create, perms, space).v;
      var own' := OwnTable(vm, own, r, v, create, perms, space);
      && Inv(vm', own', base, boot) && Kept(vm, vm', own, own') && RootsKept(own, own') && Apart(vm, vm', own, r)
      && IsRoot(own', r)
      && (t.Some? ==> IsTable(own', t.v, r, TopIndex(v)) && Word(vm', r, TopIndex(v)) == TopEntry(t.v))
      && (t.None? <==> !create && StateOf(Word(vm, r, TopIndex(v))) == Vacant) && (create ==> t.Some?)
  {
    NeverSwapped(vm, own, base, boot, r, v);
    if StateOf(Word(vm, r, TopIndex(v))) == Vacant {
      if create {
        NewTable(vm, own, base, boot, r, v, perms, space);
        var (vm1, q) := MakeTable(vm, perms, space, v).v;
        RootWord(vm, vm1, own, base, boot, r, v, perms, space);
      }
    } else {
      hide Memory, BaseOk;
      assert TopOk(vm, own, r, TopIndex(v));
      KeptSelf(vm, own);
    }
  }

  lemma RootWord(vm: Vm, vm1: Vm, own: map<nat, Owner>, base: seq<Page>, boot: nat, r: nat, v: nat, perms: nat,
                 space: nat)
    requires Inv(vm, own, base, boot) && IsRoot(own, r) && TopIndex(v) < ENTRIES && MakeTable(vm, perms, space, v).Some?
    requires vm1 == MakeTable(vm, perms, space, v).v.0
    ensures forall x :: Word(SetWord(vm1, r, TopIndex(v), x), r, TopIndex(v)) == x
  {
    TakeOk(vm, own, base, boot, space, PageBase(v) + SWP_TABLE);
    assert FrameOk(vm, own, r);
  }

  ghost function OwnPage(vm: Vm, own: map<nat, Owner>, q: nat, j: nat, create: bool, v: nat, space: nat)
    : map<nat, Owner>
  {
    var t := Take(vm, space, PageBase(v) + SWP_PAGE);
    if StateOf(Word(vm, q, j)) == Vacant && create && t.Some? && q in own && own[q].part.Table? then
      own[t.v.1 := Owner(own[q].root, Leaf(own[q].part.i, j))]
    else own
  }

  lemma GetPageOk(vm: Vm, own: map<nat, Owner>, base: seq<Page>, boot: nat, r: nat, i: nat, q: nat, j: nat,
                  create: bool, v: nat, space: nat)
    requires Inv(vm, own, base, boot) && IsTable(own, q, r, i) && j < ENTRIES
    requires GetPage(vm, q, j, create, v, space).Some?
    ensures var (vm', dst) := GetPage(vm, q, j, create, v, space).v;
      var own' := OwnPage(vm, own, q, j, create, v, space);
      && Inv(vm', own', base, boot) && Kept(vm, vm', own, own') && RootsKept(own, own') && Apart(vm, vm', own, r)
      && IsTable(own', q, r, i)
      && (dst == PAGE_FREE <==> !create && StateOf(Word(vm, q, j)) == Vacant)
      && (dst != PAGE_FREE ==>
            && IsLeaf(own', dst / PAGE_SIZE, r, i, j)
            && StateOf(Word(vm', q, j)) == InMem && FrameOf(Word(vm', q, j)) == dst / PAGE_SIZE
            && PermsOf(Word(vm', q, j)) == PermsOf(dst) == PermsOf(Word(vm, q, j)))
  {
    hide Memory, BaseOk, FrameOk, TopOk, Word, SetWord, Take, PermsOf, FrameOf, StateOf, LowEntry, Kept, Apart;
    hide RootsKept, PageBase;
    var value := Word(vm, q, j);
    assert LowOk(vm, own, q, j);
    NothingChanged(vm, own, r);
    if StateOf(value) == Vacant {
      if create {
        NewPage(vm, own, base, boot, q, j, v, space);
        var (vm1, f) := Take(vm, space, PageBase(v) + SWP_PAGE).v;
        LowFacts(f, PermsOf(value));
        NewValue(f, PermsOf(value));
      }
    } else {
      LowEntryParts(value);
      LookupValue(value);
    }
  }

  lemma NothingChanged(vm: Vm, own: map<nat, Owner>, r: nat)
    ensures Kept(vm, vm, own, own) && Apart(vm, vm, own, r) && RootsKept(own, own)
  {
    KeptSelf(vm, own);
  }

  lemma NewValue(f: nat, perms: nat)
    requires Permissions(perms)
    ensures LowEntry(f, perms) / PAGE_SIZE == f && LowEntry(f, perms) != PAGE_FREE
  {
    PageBits(f, PAGE_IN_MEM + perms);
    PageBits(0, PAGE_FREE);
  }

  lemma LookupValue(value: nat)
    requires value == LowEntry(FrameOf(value), PermsOf(value))
    ensures (value - value % 4) / PAGE_SIZE == FrameOf(value) && PermsOf(value - value % 4) == PermsOf(value)
    ensures value - value % 4 != PAGE_FREE
  {
    var f, p := FrameOf(value), PermsOf(value);
    hide FrameOf, PermsOf;
    FrameBits(f, p);
    assert value - value % 4 == f * PAGE_SIZE + p;
  }

  lemma FrameBits(f: nat, p: nat)
    requires Permissions(p)
    ensures (f * PAGE_SIZE + PAGE_IN_MEM + p) % 4 == 2
    ensures (f * PAGE_SIZE + p) / PAGE_SIZE == f && PermsOf(f * PAGE_SIZE + p) == p && f * PAGE_SIZE + p != PAGE_FREE
  {
    PageBits(f, PAGE_IN_MEM + p);
    PageBits(f, p);
  }

  lemma NewPage(vm: Vm, own: map<nat, Owner>, base: seq<Page>, boot: nat, q: nat, j: nat, v: nat, space: nat)
    requires Inv(vm, own, base, boot) && q in own && own[q].part.Table? && own[q].part.i < ENTRIES && j < ENTRIES
    requires StateOf(Word(vm, q, j)) == Vacant && Take(vm, space, PageBase(v) + SWP_PAGE).Some?
    ensures var (vm1, f) := Take(vm, space, PageBase(v) + SWP_PAGE).v; var e := LowEntry(f, PermsOf(Word(vm, q, j)));
      var vm' := SetWord(vm1, q, j, e);
      var own' := own[f := Owner(own[q].root, Leaf(own[q].part.i, j))];
      && Inv(vm', own', base, boot) && Kept(vm, vm', own, own') && RootsKept(own, own')
      && Apart(vm, vm', own, own[q].root)
      && f !in own && Word(vm', q, j) == e && f > 0 && Changed(vm, vm', q, j, f)
  {
    TakeOk(vm, own, base, boot, space, PageBase(v) + SWP_PAGE);
    var (vm1, f) := Take(vm, space, PageBase(v) + SWP_PAGE).v;
    var e := LowEntry(f, PermsOf(Word(vm, q, j)));
    var vm' := SetWord(vm1, q, j, e);
    assert FrameOk(vm, own, q);
    FilledMemory(vm, vm1, vm', boot, q, j, f, e);
    AddInv(vm, vm', own, base, boot, q, j, f);
    ChangedKept(vm, vm', own, q, j, f, Owner(own[q].root, Leaf(own[q].part.i, j)));
  }

  /** The frames owned after an address has been looked up, tables and page made if asked for. */
  ghost function OwnPaddr(vm: Vm, own: map<nat, Owner>, r: nat, v: nat, create: bool, perms: nat, space: nat)
    : map<nat, Owner>
  {
    var own1 := OwnTable(vm, own, r, v, create, perms, space);
    match GetTable(vm, r, v, create, perms, space)
    case Some((vm1, Some(q))) => OwnPage(vm1, own1, q, LowIndex(v), create, v, space)
    case _ => own1
  }

  /**
   * A lookup maps the address, if asked to, in a frame that is its own; it changes no mapping and no page
   * that was there. Without create it answers PAGE_FREE exactly when there is no page.
   */
  lemma GetPaddrOk(vm: Vm, own: map<nat, Owner>, base: seq<Page>, boot: nat, r: nat, v: nat, create: bool, perms: nat,
                   space: nat)
    requires Inv(vm, own, base, boot) && IsRoot(own, r) && TopIndex(v) < ENTRIES && Permissions(perms)
    requires GetPaddr(vm, r, v, create, perms, space).Some?
    ensures var (vm', dst) := GetPaddr(vm, r, v, create, perms, space).v;
      var own' := OwnPaddr(vm, own, r, v, create, perms, space);
      && Inv(vm', own', base, boot) && Kept(vm, vm', own, own') && RootsKept(own, own') && Apart(vm, vm', own, r)
      && IsRoot(own', r)
      && (dst == PAGE_FREE <==> !create && Mapped(vm, r, v).None?)
      && (dst != PAGE_FREE ==> Mapped(vm', r, v) == Some(dst / PAGE_SIZE))
  {
    GetTableOk(vm, own, base, boot, r, v, create, perms, space);
    var (vm1, t) := GetTable(vm, r, v, create, perms, space).v;
    var own1 := OwnTable(vm, own, r, v, create, perms, space);
    if t.Some? {
      var j := LowIndex(v);
      EntryFacts(t.v, 0);
      GetPageOk(vm1, own1, base, boot, r, TopIndex(v), t.v, j, create, v, space);
      var (vm2, dst) := GetPage(vm1, t.v, j, create, v, space).v;
      var own2 := OwnPage(vm1, own1, t.v, j, create, v, space);
      KeptTwice(vm, vm1, vm2, own, own1, own2);
      ApartTwice(vm, vm1, vm2, own, own1, r);
      hide Inv;
      NotCreated(vm, vm1, own, r, v, create, perms, space, t.v);
      assert Word(vm2, r, TopIndex(v)) == Word(vm1, r, TopIndex(v));
    }
  }

  lemma NotCreated(vm: Vm, vm1: Vm, own: map<nat, Owner>, r: nat, v: nat, create: bool, perms: nat, space: nat, q: nat)
    requires GetTable(vm, r, v, create, perms, space) == Some((vm1, Some(q)))
    ensures !create ==>
      vm1 == vm && StateOf(Word(vm, r, TopIndex(v))) == InMem && TableOf(Word(vm, r, TopIndex(v))) == q
  {
  }

  // ---- New page tables ----------------------------------------------------

  lemma CreateOk(vm: Vm, own: map<nat, Owner>, base: seq<Page>, boot: nat, space: nat)
    requires Inv(vm, own, base, boot) && Create(vm, space).Some?
    ensures var (vm', r) := Create(vm, space).v; var own' := own[r := Owner(r, Root)];
      && r !in own && Inv(vm', own', base, boot) && Kept(vm, vm', own, own') && IsRoot(own', r)
      && (forall f, k :: f in own ==> Word(vm', f, k) == Word(vm, f, k))
      && (forall v :: Mapped(vm', r, v).None?)
  {
    hide Inv, Kept, Mapped, Ok;
    TakeOk(vm, own, base, boot, space, PageBase(0) + SWP_TABLE);
    var (vm1, r) := MakeTable(vm, 0, space, 0).v;
    var vm' := Create(vm, space).v.0;
    MarkOk(vm1.cm, boot, r, vm1.cm.pages[r].(state := FIXED));
    EntryFacts(r, 0);
    RootInv(vm, vm', own, base, boot, r);
  }

  lemma RootInv(vm: Vm, vm': Vm, own: map<nat, Owner>, base: seq<Page>, boot: nat, r: nat)
    requires Inv(vm, own, base, boot) && Memory(vm', boot) && Changed(vm, vm', r, 0, r)
      && forall j :: 0 <= j < ENTRIES ==> StateOf(Word(vm', r, j)) == Vacant
    requires r !in own && r < |base| && base[r] == BLANK && vm'.cm.pages[r].count == 1 && vm'.cm.pages[r].state != FREE
    ensures var own' := own[r := Owner(r, Root)]; Inv(vm', own', base, boot) && Kept(vm, vm', own, own')
    ensures forall v :: Mapped(vm', r, v).None?
  {
    var own' := own[r := Owner(r, Root)];
    forall f | f in own'
      ensures FrameOk(vm', own', f)
    {
      if f != r { RootKeeps(vm, vm', own, r, f); }
    }
    forall q, i | IsRoot(own', q) && 0 <= i < ENTRIES
      ensures TopOk(vm', own', q, i)
    {
      assert q != r ==> TopOk(vm, own, q, i);
    }
    forall q, j | q in own' && own'[q].part.Table? && 0 <= j < ENTRIES
      ensures LowOk(vm', own', q, j)
    {
      assert LowOk(vm, own, q, j);
    }
  }

  lemma RootKeeps(vm: Vm, vm': Vm, own: map<nat, Owner>, r: nat, f: nat)
    requires Changed(vm, vm', r, 0, r) && r !in own && f in own && FrameOk(vm, own, f)
    ensures FrameOk(vm', own[r := Owner(r, Root)], f)
  {
    var t := own[f].root;
    match own[f].part
    case Root =>
    case Table(i) =>
    case Leaf(i, j) =>
      assert Word(vm', t, i) == Word(vm, t, i)
        && Word(vm', TableOf(Word(vm, t, i)), j) == Word(vm, TableOf(Word(vm, t, i)), j);
  }
}
