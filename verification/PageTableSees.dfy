/** What a program sees in its pages over every run of the page table calls. */
module PageTableSees {
  import opened Coremaps
  import opened PageTables
  import opened PageTableInv
  import opened PageTableFree
  import opened PageTableCopy
  import opened PageTablePerms
  import opened PageTableRun
  import opened PageTableStay
  import R = PageTableRun

  /** Word k of page number n of address space r, if there is such a page. */
  ghost function Sees(s: Sys, r: nat, n: nat, k: nat): Option<nat> {
    if r in s.roots && Mapped(s.vm, r, n * PAGE_SIZE).Some? then Some(Word(s.vm, Mapped(s.vm, r, n * PAGE_SIZE).v, k))
    else None
  }

  /** The call is made for an address in page number n of r. */
  predicate At(r': nat, v: nat, r: nat, n: nat) {
    r' == r && v / PAGE_SIZE == n
  }

  /** What a call makes of one word of an address space that is there before and after it. */
  ghost predicate Expected(s: Sys, op: R.Op, s': Sys, r: nat, n: nat, k: nat) {
    var was, now := Sees(s, r, n, k), Sees(s', r, n, k);
    match op
    case Store(r', v, k', x) => now == if At(r', v, r, n) && k' == k then Some(x) else was
    case Fork(src, dst, regions, _) =>
      now == if r != dst then was else if Wanted(s.vm, src, regions, n) then Sees(s, src, n, k) else None
    case Fault(r', v, _, _) => if At(r', v, r, n) && was.None? then now.Some? else now == was
    case Perms(r', v, create, _, _) => if At(r', v, r, n) && create && was.None? then now.Some? else now == was
    case _ => now == was
  }

  /** Which address spaces there are after a call: a new one sees nothing. */
  ghost predicate RootsExact(s: Sys, op: R.Op, s': Sys) {
    match op
    case Make(_) => exists r :: r !in s.roots && s'.roots == s.roots + {r} && forall n, k :: Sees(s', r, n, k) == None
    case Drop(r) => s'.roots == s.roots - {r}
    case _ => s'.roots == s.roots
  }

  lemma PageIndex(n: nat)
    requires n < PAGES
    ensures TopIndex(n * PAGE_SIZE) < ENTRIES && n * PAGE_SIZE / PAGE_SIZE == n
  {
  }

  // ---- Pages that are not there -------------------------------------------

  /** An address space none of whose frames have changed maps what it did. */
  lemma ApartMaps(vm: Vm, vm': Vm, own: map<nat, Owner>, base: seq<Page>, boot: nat, r': nat, r: nat, v: nat)
    requires Inv(vm, own, base, boot) && IsRoot(own, r) && TopIndex(v) < ENTRIES && r != r'
    requires Apart(vm, vm', own, r')
    ensures Mapped(vm', r, v) == Mapped(vm, r, v)
  {
    hide Memory, BaseOk, FrameOk, LowOk, TopIndex, LowIndex;
    assert TopOk(vm, own, r, TopIndex(v));
    EntryFacts(TableOf(Word(vm, r, TopIndex(v))), 0);
  }

  lemma FaultMisses(vm: Vm, own: map<nat, Owner>, base: seq<Page>, boot: nat, r': nat, v': nat, create: bool,
                    perms: nat, space: nat, r: nat, v: nat)
    requires Inv(vm, own, base, boot) && IsRoot(own, r') && TopIndex(v') < ENTRIES && Permissions(perms)
    requires GetPaddr(vm, r', v', create, perms, space).Some?
    requires IsRoot(own, r) && TopIndex(v) < ENTRIES && !(create && r' == r && v' / PAGE_SIZE == v / PAGE_SIZE)
    ensures Mapped(GetPaddr(vm, r', v', create, perms, space).v.0, r, v) == Mapped(vm, r, v)
  {
    hide Inv, GetPaddr, OwnPaddr, Mapped, TopIndex, EntryOf, LowEntry, PermsOf, NewPerms, Apart;
    var vm' := GetPaddr(vm, r', v', create, perms, space).v.0;
    PaddrIs(vm, own, base, boot, r', v', create, perms, space);
    GetPaddrOk(vm, own, base, boot, r', v', create, perms, space);
    if r != r' {
      ApartMaps(vm, vm', own, base, boot, r', r, v);
    } else if create && Mapped(vm, r', v').None? {
      FaultMaps(vm, own, base, boot, r, v', perms, space);
    }
  }

  lemma PermsMisses(vm: Vm, own: map<nat, Owner>, base: seq<Page>, boot: nat, r': nat, v': nat, create: bool,
                    perms: nat, space: nat, r: nat, v: nat)
    requires Inv(vm, own, base, boot) && IsRoot(own, r') && TopIndex(v') < ENTRIES && Permissions(perms)
    requires SetPerms(vm, r', v', create, perms, space).Some?
    requires IsRoot(own, r) && TopIndex(v) < ENTRIES && Mapped(vm, r, v).None?
    requires !(create && r' == r && v' / PAGE_SIZE == v / PAGE_SIZE)
    ensures Mapped(SetPerms(vm, r', v', create, perms, space).v.0, r, v).None?
  {
    hide Inv, SetPerms, Mapped, TopIndex, EntryOf, PermsOf, Apart;
    var vm' := SetPerms(vm, r', v', create, perms, space).v.0;
    SetPermsIs(vm, own, base, boot, r', v', create, perms, space);
    if r != r' {
      ApartMaps(vm, vm', own, base, boot, r', r, v);
    } else if v' / PAGE_SIZE != v / PAGE_SIZE {
      assert PageSame(vm, vm', r, v);
    } else {
      MappedByPage(vm, r, v, v');
    }
  }

  /** A page that is not there stays away, unless the call is to bring it. */
  lemma NoneStays(s: Sys, op: R.Op, base: seq<Page>, boot: nat, r: nat, n: nat)
    requires Good(s, base, boot) && May(s, op) && Do(s, op).Some? && n < PAGES
    requires r in s.roots && r in Do(s, op).v.roots && Mapped(s.vm, r, n * PAGE_SIZE).None?
    requires op.Fault? ==> !At(op.r, op.v, r, n)
    requires op.Perms? ==> !(op.create && At(op.r, op.v, r, n))
    requires op.Fork? ==> op.dst != r || !Wanted(s.vm, op.src, op.regions, n)
    ensures Mapped(Do(s, op).v.vm, r, n * PAGE_SIZE).None?
  {
    hide Inv, Create, GetPaddr, SetPerms, Copy, Destroy, Mapped, SetWord, TopIndex, Permissions, Wanted, Apart;
    var own :| OwnedBy(s, own, base, boot);
    PageIndex(n);
    var v := n * PAGE_SIZE;
    match op
    case Make(space) =>
      CreateOk(s.vm, own, base, boot, space);
      MappedSame(s.vm, Create(s.vm, space).v.0, own, base, boot, r, v);
    case Fault(r', v', perms, space) => FaultMisses(s.vm, own, base, boot, r', v', true, perms, space, r, v);
    case Look(r', v') =>
      assert Permissions(0) by { NoPermissions(); }
      FaultMisses(s.vm, own, base, boot, r', v', false, 0, 0, r, v);
    case Perms(r', v', create, perms, space) => PermsMisses(s.vm, own, base, boot, r', v', create, perms, space, r, v);
    case Store(r', v', k, x) => StoreMaps(s.vm, own, base, boot, r', v', k, x, r, v);
    case Fork(src, dst, regions, space) => ForkMisses(s.vm, own, base, boot, src, dst, regions, space, r, n);
    case Drop(r') =>
      DestroyInv(s.vm, own, base, boot, r');
      SameMapped(s.vm, Destroy(s.vm, r'), r);
  }

  lemma StoreMaps(vm: Vm, own: map<nat, Owner>, base: seq<Page>, boot: nat, r': nat, v': nat, k: nat, x: nat, r: nat,
                  v: nat)
    requires Inv(vm, own, base, boot) && IsRoot(own, r') && TopIndex(v') < ENTRIES && Mapped(vm, r', v').Some?
    requires IsRoot(own, r) && TopIndex(v) < ENTRIES
    ensures Mapped(SetWord(vm, Mapped(vm, r', v').v, k, x), r, v) == Mapped(vm, r, v)
  {
    hide Inv, Mapped, TopIndex, SetWord, Word;
    StoreOk(vm, own, base, boot, r', v', k, x);
    MappedLeaf(vm, own, base, boot, r', v');
    MappedSame(vm, SetWord(vm, Mapped(vm, r', v').v, k, x), own, base, boot, r, v);
  }

  lemma ForkMisses(vm: Vm, own: map<nat, Owner>, base: seq<Page>, boot: nat, src: nat, dst: nat, regions: seq<Region>,
                   space: nat, r: nat, n: nat)
    requires Inv(vm, own, base, boot) && IsRoot(own, src) && IsRoot(own, dst) && src != dst
    requires (forall n :: 0 <= n < PAGES ==> Mapped(vm, dst, n * PAGE_SIZE).None?)
    requires Copy(vm, src, dst, regions, space).Some?
    requires IsRoot(own, r) && n < PAGES && Mapped(vm, r, n * PAGE_SIZE).None?
    requires dst != r || !Wanted(vm, src, regions, n)
    ensures Mapped(Copy(vm, src, dst, regions, space).v, r, n * PAGE_SIZE).None?
  {
    hide Inv, Copy, Mapped, TopIndex, Apart, Wanted, Writable;
    CopyIsolates(vm, own, base, boot, src, dst, regions, space);
    var vm' := Copy(vm, src, dst, regions, space).v;
    var own' :| CopyResult(vm, vm', own, own', base, boot, src, dst, regions);
    PageIndex(n);
    if r != dst {
      ApartMaps(vm, vm', own, base, boot, dst, r, n * PAGE_SIZE);
    }
  }

  // ---- One call -----------------------------------------------------------

  lemma ForkSees(s: Sys, op: R.Op, base: seq<Page>, boot: nat, n: nat, k: nat)
    requires Good(s, base, boot) && op.Fork? && May(s, op) && Do(s, op).Some? && n < PAGES
    ensures Wanted(s.vm, op.src, op.regions, n) ==>
              Sees(s, op.src, n, k).Some? && Sees(Do(s, op).v, op.dst, n, k) == Sees(s, op.src, n, k)
  {
    hide Inv, Copy, Mapped, Apart, Wanted, Writable, Word;
    var own :| OwnedBy(s, own, base, boot);
    CopyIsolates(s.vm, own, base, boot, op.src, op.dst, op.regions, op.space);
    var vm' := Copy(s.vm, op.src, op.dst, op.regions, op.space).v;
    var own' :| CopyResult(s.vm, vm', own, own', base, boot, op.src, op.dst, op.regions);
    if Wanted(s.vm, op.src, op.regions, n) {
      assert IsCopy(s.vm, vm', own, op.src, op.dst, n);
    }
  }

  lemma BringSees(s: Sys, op: R.Op, base: seq<Page>, boot: nat, r: nat, n: nat)
    requires Good(s, base, boot) && May(s, op) && Do(s, op).Some? && r in s.roots && n < PAGES
    requires (op.Fault? || (op.Perms? && op.create)) && At(op.r, op.v, r, n)
    ensures r in Do(s, op).v.roots && Mapped(Do(s, op).v.vm, r, n * PAGE_SIZE).Some?
  {
    hide Inv, GetPaddr, SetPerms, Mapped, TopIndex, Permissions, OwnPaddr, Apart, OtherPagesSame, EntryOf, PermsOf;
    var own :| OwnedBy(s, own, base, boot);
    PageIndex(n);
    MappedByPage(Do(s, op).v.vm, r, n * PAGE_SIZE, op.v);
    if op.Fault? {
      GetPaddrOk(s.vm, own, base, boot, r, op.v, true, op.perms, op.space);
    } else {
      SetPermsIs(s.vm, own, base, boot, r, op.v, true, op.perms, op.space);
    }
  }

  lemma StoreSees(s: Sys, op: R.Op, base: seq<Page>, boot: nat, r: nat, n: nat, k: nat)
    requires Good(s, base, boot) && op.Store? && May(s, op) && r in s.roots && n < PAGES && k < ENTRIES
    requires Sees(s, r, n, k).Some?
    ensures Do(s, op).Some? && Expected(s, op, Do(s, op).v, r, n, k)
  {
    hide Inv, Mapped, TopIndex, SetWord, Word;
    var own :| OwnedBy(s, own, base, boot);
    PageIndex(n);
    var v, f := n * PAGE_SIZE, Mapped(s.vm, op.r, op.v).v;
    StoreMaps(s.vm, own, base, boot, op.r, op.v, op.k, op.x, r, v);
    MappedLeaf(s.vm, own, base, boot, op.r, op.v);
    FrameWord(s.vm, own, base, boot, f, op.k, op.x);
    if At(op.r, op.v, r, n) {
      MappedByPage(s.vm, r, v, op.v);
    } else if Mapped(s.vm, r, v).v == f {
      NoSharing(s.vm, own, base, boot, r, v, op.r, op.v);
    }
  }

  lemma FrameWord(vm: Vm, own: map<nat, Owner>, base: seq<Page>, boot: nat, f: nat, k: nat, x: nat)
    requires Inv(vm, own, base, boot) && f in own
    ensures k < ENTRIES ==> Word(SetWord(vm, f, k, x), f, k) == x
    ensures forall g, j :: g != f || j != k ==> Word(SetWord(vm, f, k, x), g, j) == Word(vm, g, j)
  {
    hide BaseOk, TopOk, LowOk;
    assert FrameOk(vm, own, f);
  }

  /** Every call does to every word of every address space just what is expected of it. */
  lemma StepSees(s: Sys, op: R.Op, base: seq<Page>, boot: nat, r: nat, n: nat, k: nat)
    requires Good(s, base, boot) && May(s, op) && Do(s, op).Some? && n < PAGES && k < ENTRIES
    requires r in s.roots && r in Do(s, op).v.roots
    ensures Expected(s, op, Do(s, op).v, r, n, k)
  {
    hide Good, May, Do, Mapped, Wanted, TopIndex, Word, At;
    var s' := Do(s, op).v;
    if Mapped(s.vm, r, n * PAGE_SIZE).Some? {
      SomeSees(s, op, base, boot, r, n, k);
    } else {
      NoneSees(s, op, base, boot, r, n, k);
    }
  }

  lemma SomeSees(s: Sys, op: R.Op, base: seq<Page>, boot: nat, r: nat, n: nat, k: nat)
    requires Good(s, base, boot) && May(s, op) && Do(s, op).Some? && n < PAGES && k < ENTRIES
    requires r in s.roots && r in Do(s, op).v.roots && Sees(s, r, n, k).Some?
    ensures Expected(s, op, Do(s, op).v, r, n, k)
  {
    hide Good, Do, Mapped, Wanted, TopIndex, Word;
    PageIndex(n);
    if op.Store? {
      StoreSees(s, op, base, boot, r, n, k);
    } else {
      assert op != Drop(r) by { DropGone(s, op, r); }
      StepStays(s, op, base, boot, r, n * PAGE_SIZE);
    }
  }

  lemma DropGone(s: Sys, op: R.Op, r: nat)
    requires Do(s, op).Some? && r in Do(s, op).v.roots
    ensures op != Drop(r)
  {
    hide Create, GetPaddr, SetPerms, Copy, Destroy, Mapped, SetWord;
  }

  lemma NoneSees(s: Sys, op: R.Op, base: seq<Page>, boot: nat, r: nat, n: nat, k: nat)
    requires Good(s, base, boot) && May(s, op) && Do(s, op).Some? && n < PAGES && k < ENTRIES
    requires r in s.roots && r in Do(s, op).v.roots && Sees(s, r, n, k).None?
    ensures Expected(s, op, Do(s, op).v, r, n, k)
  {
    hide Good, Do, Mapped, Wanted, TopIndex, Word;
    if (op.Fault? || (op.Perms? && op.create)) && At(op.r, op.v, r, n) {
      BringSees(s, op, base, boot, r, n);
    } else if op.Fork? && op.dst == r && Wanted(s.vm, op.src, op.regions, n) {
      ForkSees(s, op, base, boot, n, k);
    } else {
      NotStored(s, op, r, n);
      NoneStays(s, op, base, boot, r, n);
    }
  }

  lemma NotStored(s: Sys, op: R.Op, r: nat, n: nat)
    requires May(s, op) && Mapped(s.vm, r, n * PAGE_SIZE).None?
    ensures op.Store? ==> !At(op.r, op.v, r, n)
  {
    hide Mapped, TopIndex;
    if op.Store? && At(op.r, op.v, r, n) {
      MappedByPage(s.vm, r, n * PAGE_SIZE, op.v);
    }
  }

  /** Every call leaves just the address spaces expected of it. */
  lemma StepRoots(s: Sys, op: R.Op, base: seq<Page>, boot: nat)
    requires Good(s, base, boot) && May(s, op) && Do(s, op).Some?
    ensures RootsExact(s, op, Do(s, op).v)
  {
    hide Inv, Create, GetPaddr, SetPerms, Copy, Destroy, Mapped, SetWord, TopIndex, Permissions;
    if op.Make? {
      var own :| OwnedBy(s, own, base, boot);
      CreateOk(s.vm, own, base, boot, op.space);
      var r := Create(s.vm, op.space).v.1;
      assert r !in s.roots && Do(s, op).v.roots == s.roots + {r};
      assert forall n, k :: Sees(Do(s, op).v, r, n, k) == None;
    }
  }

  // ---- Runs ---------------------------------------------------------------

  /** What word k of page n of r holds after the calls, if it held x before: what was stored there last. */
  function LastStored(ops: seq<R.Op>, r: nat, n: nat, k: nat, x: nat): nat
    decreases |ops|
  {
    if ops == [] then x
    else
      var op := ops[0];
      LastStored(ops[1..], r, n, k, if op.Store? && At(op.r, op.v, r, n) && op.k == k then op.x else x)
  }

  /**
   * A program that can see a word reads there what it stored last, whatever calls are made meanwhile for it or
   * for any other address space, until its own is destroyed.
   */
  lemma {:induction false} RunSees(s: Sys, ops: seq<R.Op>, base: seq<Page>, boot: nat, r: nat, n: nat, k: nat)
    requires Good(s, base, boot) && R.Runs(s, ops) && R.After(s, ops).Some? && n < PAGES && k < ENTRIES
    requires Sees(s, r, n, k).Some? && Drop(r) !in ops
    ensures Sees(R.After(s, ops).v, r, n, k) == Some(LastStored(ops, r, n, k, Sees(s, r, n, k).v))
    decreases |ops|
  {
    hide Good, May, Do, Mapped, TopIndex, Word, At, Wanted;
    if ops == [] {
    } else {
      StepGood(s, ops[0], base, boot);
      PageIndex(n);
      StepStays(s, ops[0], base, boot, r, n * PAGE_SIZE);
      StepSees(s, ops[0], base, boot, r, n, k);
      NotInto(s, ops[0], r, n);
      RunSees(Do(s, ops[0]).v, ops[1..], base, boot, r, n, k);
    }
  }

  /** Nothing is copied into an address space that has a page. */
  lemma NotInto(s: Sys, op: R.Op, r: nat, n: nat)
    requires May(s, op) && n < PAGES && Mapped(s.vm, r, n * PAGE_SIZE).Some?
    ensures op.Fork? ==> op.dst != r
  {
    hide Mapped;
  }

  /**
   * After an address space has been copied, parent and child each see what the parent had, changed by their
   * own stores and by nobody else's, whatever is done to the other.
   */
  lemma ForkThenRun(s: Sys, op: R.Op, ops: seq<R.Op>, base: seq<Page>, boot: nat, n: nat, k: nat)
    requires Good(s, base, boot) && op.Fork? && May(s, op) && Do(s, op).Some? && n < PAGES && k < ENTRIES
    requires R.Runs(Do(s, op).v, ops) && R.After(Do(s, op).v, ops).Some? && Wanted(s.vm, op.src, op.regions, n)
    ensures Sees(s, op.src, n, k).Some?
    ensures var s', x := R.After(Do(s, op).v, ops).v, Sees(s, op.src, n, k).v;
      && (Drop(op.dst) !in ops ==> Sees(s', op.dst, n, k) == Some(LastStored(ops, op.dst, n, k, x)))
      && (Drop(op.src) !in ops ==> Sees(s', op.src, n, k) == Some(LastStored(ops, op.src, n, k, x)))
  {
    hide Good, Mapped, TopIndex, Word, Wanted, R.Runs, R.After, LastStored, Do;
    ForkSees(s, op, base, boot, n, k);
    StepGood(s, op, base, boot);
    StepRoots(s, op, base, boot);
    StepSees(s, op, base, boot, op.src, n, k);
    if Drop(op.dst) !in ops {
      RunSees(Do(s, op).v, ops, base, boot, op.dst, n, k);
    }
    if Drop(op.src) !in ops {
      RunSees(Do(s, op).v, ops, base, boot, op.src, n, k);
    }
  }
}
