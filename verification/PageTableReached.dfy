/** Runs that lead to what a copy gets wrong, from any state of a machine with a few free pages. */
module PageTableReached {
  import opened Coremaps
  import opened PageTables
  import opened PageTableInv
  import opened PageTableCopy
  import opened PageTablePerms
  import opened PageTableRegions
  import opened PageTableRoom
  import opened PageTableRun
  import opened PageTableStay
  import R = PageTableRun

  const RW := PAGE_R + PAGE_W

  /** The pages that are mapped, by number. */
  ghost predicate OnlyPages(vm: Vm, r: nat, ns: set<nat>) {
    forall n :: 0 <= n < PAGES ==> (Mapped(vm, r, n * PAGE_SIZE).Some? <==> n in ns)
  }

  function PagePerms(vm: Vm, r: nat, n: nat): nat {
    PermsOf(EntryOf(vm, r, n * PAGE_SIZE))
  }

  lemma Allowed()
    ensures Permissions(RW) && Permissions(PAGE_R) && RW != PAGE_R && PAGE_R / PAGE_W % 2 == 0
  {
  }

  // ---- Filling an address space ---------------------------------------------

  lemma NothingMapped(vm: Vm, r: nat)
    requires EmptyTop(vm, r)
    ensures OnlyPages(vm, r, {})
  {
    forall n | 0 <= n < PAGES
      ensures Mapped(vm, r, n * PAGE_SIZE).None?
    {
      NumberSplit(n);
    }
  }

  /** A fault maps its page and no other. */
  lemma OneMorePage(vm: Vm, own: map<nat, Owner>, base: seq<Page>, boot: nat, r: nat, ns: set<nat>, n: nat, space: nat)
    requires Inv(vm, own, base, boot) && IsRoot(own, r) && OnlyPages(vm, r, ns) && n < PAGES && n !in ns
    requires Room(vm) >= FaultCost(vm, r, n * PAGE_SIZE)
    ensures GetPaddr(vm, r, n * PAGE_SIZE, true, RW, space).Some? && TopIndex(n * PAGE_SIZE) == n / ENTRIES < ENTRIES
    ensures var vm' := GetPaddr(vm, r, n * PAGE_SIZE, true, RW, space).v.0;
      var own' := OwnPaddr(vm, own, r, n * PAGE_SIZE, true, RW, space);
      && Inv(vm', own', base, boot) && IsRoot(own', r) && RootsKept(own, own')
      && Room(vm') == Room(vm) - FaultCost(vm, r, n * PAGE_SIZE)
      && OnlyPages(vm', r, ns + {n}) && Relabelled(vm, vm', r, n / ENTRIES, RW)
  {
    hide Inv, GetPaddr, OwnPaddr, Kept, Apart, RootsKept, Mapped, StateOf, Word, TopIndex, LowIndex, Permissions;
    hide Relabelled, FaultCost, Room;
    var v := n * PAGE_SIZE;
    Allowed();
    NumberSplit(n);
    FaultRoom(vm, own, base, boot, r, v, RW, space);
    GetPaddrOk(vm, own, base, boot, r, v, true, RW, space);
    FaultMaps(vm, own, base, boot, r, v, RW, space);
    FaultPerms(vm, own, base, boot, r, v, RW, space);
    var vm' := GetPaddr(vm, r, v, true, RW, space).v.0;
    forall m | 0 <= m < PAGES
      ensures Mapped(vm', r, m * PAGE_SIZE).Some? <==> m in ns + {n}
    {
      NumberSplit(m);
    }
  }

  lemma FirstCost(vm: Vm, r: nat, n: nat)
    requires EmptyTop(vm, r) && n < PAGES
    ensures FaultCost(vm, r, n * PAGE_SIZE) == 2 && StateOf(Word(vm, r, n / ENTRIES)) == Vacant
  {
    NumberSplit(n);
  }

  lemma NextCost(vm: Vm, r: nat, n: nat, perms: nat)
    requires Uniform(vm, r, n / ENTRIES, perms) && n < PAGES && Mapped(vm, r, n * PAGE_SIZE).None?
    ensures FaultCost(vm, r, n * PAGE_SIZE) == 1
  {
    hide Mapped, PermsOf;
    NumberSplit(n);
  }

  /** Every entry of a uniform table has its permissions. */
  lemma UniformPerms(vm: Vm, r: nat, n: nat, perms: nat)
    requires Uniform(vm, r, n / ENTRIES, perms) && n < PAGES
    ensures PagePerms(vm, r, n) == perms
  {
    hide PermsOf, StateOf, Word, TableOf, TopIndex, LowIndex;
    NumberSplit(n);
  }

  /** One page is made read-only; the others stay as they are. */
  lemma ReadOnlyNow(vm: Vm, own: map<nat, Owner>, base: seq<Page>, boot: nat, r: nat, ns: set<nat>, n: nat, space: nat)
    requires Inv(vm, own, base, boot) && IsRoot(own, r) && OnlyPages(vm, r, ns) && n in ns && n < PAGES
    ensures SetPerms(vm, r, n * PAGE_SIZE, false, PAGE_R, space).Some? && TopIndex(n * PAGE_SIZE) < ENTRIES
    ensures var vm' := SetPerms(vm, r, n * PAGE_SIZE, false, PAGE_R, space).v.0;
      var own' := OwnPaddr(vm, own, r, n * PAGE_SIZE, false, PAGE_R, space);
      && Inv(vm', own', base, boot) && IsRoot(own', r) && RootsKept(own, own') && Room(vm') == Room(vm)
      && OnlyPages(vm', r, ns) && PagePerms(vm', r, n) == PAGE_R
      && (forall m :: m in ns && m != n && m < PAGES ==> PagePerms(vm', r, m) == PagePerms(vm, r, m))
  {
    hide Inv, SetPerms, OwnPaddr, Kept, Apart, Mapped, PermsOf, EntryOf, StateOf, Word, TopIndex, LowIndex, Permissions;
    var v := n * PAGE_SIZE;
    Allowed();
    NumberSplit(n);
    SetPermsSome(vm, r, v, PAGE_R, space);
    SetPermsOk(vm, own, base, boot, r, v, false, PAGE_R, space);
    SetPermsIs(vm, own, base, boot, r, v, false, PAGE_R, space);
    SameRoom(vm, own, base, boot, r, v, PAGE_R, space);
    var vm' := SetPerms(vm, r, v, false, PAGE_R, space).v.0;
    forall m | 0 <= m < PAGES && m != n
      ensures Mapped(vm', r, m * PAGE_SIZE) == Mapped(vm, r, m * PAGE_SIZE)
      ensures m in ns ==> PagePerms(vm', r, m) == PagePerms(vm, r, m)
    {
      NumberSplit(m);
      assert PageSame(vm, vm', r, m * PAGE_SIZE);
    }
  }

  lemma SetPermsSome(vm: Vm, r: nat, v: nat, perms: nat, space: nat)
    ensures SetPerms(vm, r, v, false, perms, space).Some?
  {
    hide StateOf, Word, TopIndex, LowIndex, SetWord;
  }

  lemma SameRoom(vm: Vm, own: map<nat, Owner>, base: seq<Page>, boot: nat, r: nat, v: nat, perms: nat, space: nat)
    requires Inv(vm, own, base, boot) && IsRoot(own, r) && TopIndex(v) < ENTRIES && Permissions(perms)
    requires SetPerms(vm, r, v, false, perms, space).Some?
    ensures Room(SetPerms(vm, r, v, false, perms, space).v.0) == Room(vm)
  {
    hide Inv, SetPerms, GetPaddr, Mapped, PermsOf, StateOf, Word, TopIndex, LowIndex, TableOf;
    SetPermsSplit(vm, own, base, boot, r, v, false, perms, space);
    LookChanges(vm, own, base, boot, r, v, false, perms, space);
  }

  /** A new address space leaves the others as they are. */
  lemma OneMoreSpace(vm: Vm, own: map<nat, Owner>, base: seq<Page>, boot: nat, r: nat, ns: set<nat>, space: nat)
    requires Inv(vm, own, base, boot) && IsRoot(own, r) && OnlyPages(vm, r, ns) && Room(vm) >= 1
    ensures Create(vm, space).Some?
    ensures var (vm', dst) := Create(vm, space).v; var own' := own[dst := Owner(dst, Root)];
      && Inv(vm', own', base, boot) && dst !in own && EmptyTop(vm', dst) && Room(vm') == Room(vm) - 1
      && OnlyPages(vm', r, ns) && (forall n :: n in ns && n < PAGES ==> PagePerms(vm', r, n) == PagePerms(vm, r, n))
  {
    hide Inv, Create, Kept, Mapped, PermsOf, EntryOf, StateOf, Word, TopIndex, LowIndex, EmptyTop, Room;
    CreateSpace(vm, own, base, boot, space);
    CreateOk(vm, own, base, boot, space);
    var (vm', dst) := Create(vm, space).v;
    var own' := own[dst := Owner(dst, Root)];
    forall n | 0 <= n < PAGES
      ensures Mapped(vm', r, n * PAGE_SIZE) == Mapped(vm, r, n * PAGE_SIZE)
      ensures n in ns ==> PagePerms(vm', r, n) == PagePerms(vm, r, n)
    {
      NumberSplit(n);
      MappedSame(vm, vm', own, base, boot, r, n * PAGE_SIZE);
      if n in ns {
        EntryKept(vm, vm', own, own', base, boot, r, n * PAGE_SIZE);
      }
    }
  }

  lemma CreateSpace(vm: Vm, own: map<nat, Owner>, base: seq<Page>, boot: nat, space: nat)
    requires Inv(vm, own, base, boot) && Room(vm) >= 1
    ensures Create(vm, space).Some? && Room(Create(vm, space).v.0) == Room(vm) - 1
    ensures EmptyTop(Create(vm, space).v.0, Create(vm, space).v.1)
  {
    hide Inv, Create, EmptyTop;
    CreateRoom(vm, own, base, boot, space);
  }

  lemma OneMoreCall(s: Sys, ops: seq<R.Op>, s': Sys)
    requires ops != [] && May(s, ops[0]) && Do(s, ops[0]) == Some(s') && R.Runs(s', ops[1..])
    ensures R.Runs(s, ops) && R.After(s, ops) == R.After(s', ops[1..])
  {
    hide May, Do;
  }

  // ---- Two pages of one table with different permissions --------------------

  /**
   * A new address space and two of its pages, both readable and writable; then the second made read-only; then one more
   * space.
   */
  function TwoPageCalls(r: nat, n: nat, m: nat, space: nat): seq<R.Op> {
    [ Make(space),
      Fault(r, n * PAGE_SIZE, RW, space),
      Fault(r, m * PAGE_SIZE, RW, space),
      Perms(r, m * PAGE_SIZE, false, PAGE_R, space),
      Make(space)
    ]
  }

  /** Two pages that share a second-level table. */
  predicate Neighbours(n: nat, m: nat) {
    n < m < PAGES && n / ENTRIES == m / ENTRIES
  }

  /** Both pages are there, not both with the permissions that they should have. */
  ghost predicate Wronged(vm: Vm, r: nat, n: nat, m: nat) {
    && Mapped(vm, r, n * PAGE_SIZE).Some? && Mapped(vm, r, m * PAGE_SIZE).Some?
    && !(PagePerms(vm, r, n) == RW && PagePerms(vm, r, m) == PAGE_R)
  }

  lemma TwoFaults(vm: Vm, own: map<nat, Owner>, base: seq<Page>, boot: nat, r: nat, n: nat, m: nat, space: nat)
    requires Inv(vm, own, base, boot) && IsRoot(own, r) && EmptyTop(vm, r) && Room(vm) >= 3 && Neighbours(n, m)
    ensures GetPaddr(vm, r, n * PAGE_SIZE, true, RW, space).Some?
    ensures TopIndex(n * PAGE_SIZE) < ENTRIES && TopIndex(m * PAGE_SIZE) < ENTRIES
    ensures var vm1 := GetPaddr(vm, r, n * PAGE_SIZE, true, RW, space).v.0;
      var own1 := OwnPaddr(vm, own, r, n * PAGE_SIZE, true, RW, space);
      && GetPaddr(vm1, r, m * PAGE_SIZE, true, RW, space).Some?
      && var vm2 := GetPaddr(vm1, r, m * PAGE_SIZE, true, RW, space).v.0;
        var own2 := OwnPaddr(vm1, own1, r, m * PAGE_SIZE, true, RW, space);
        && Inv(vm2, own2, base, boot) && IsRoot(own2, r) && RootsKept(own, own1) && RootsKept(own1, own2)
        && Room(vm2) == Room(vm) - 3 && OnlyPages(vm2, r, {n, m}) && PagePerms(vm2, r, n) == RW
  {
    hide Inv, GetPaddr, OwnPaddr, RootsKept, Mapped, PagePerms, OnlyPages, EmptyTop, Uniform, OthersSame, FaultCost;
    hide Room;
    hide StateOf, Word, TopIndex;
    NothingMapped(vm, r);
    FirstCost(vm, r, n);
    OneMorePage(vm, own, base, boot, r, {}, n, space);
    var vm1 := GetPaddr(vm, r, n * PAGE_SIZE, true, RW, space).v.0;
    var own1 := OwnPaddr(vm, own, r, n * PAGE_SIZE, true, RW, space);
    assert {} + {n} == {n};
    NotMapped(vm1, r, {n}, m);
    NextCost(vm1, r, m, RW);
    OneMorePage(vm1, own1, base, boot, r, {n}, m, space);
    var vm2 := GetPaddr(vm1, r, m * PAGE_SIZE, true, RW, space).v.0;
    assert {n} + {m} == {n, m};
    UniformPerms(vm2, r, n, RW);
  }

  lemma NotMapped(vm: Vm, r: nat, ns: set<nat>, n: nat)
    requires OnlyPages(vm, r, ns) && n < PAGES
    ensures Mapped(vm, r, n * PAGE_SIZE).Some? <==> n in ns
  {
    hide Mapped;
  }

  /** With no region every page that is mapped is copied. */
  lemma AllWanted(vm: Vm, r: nat, ns: set<nat>)
    requires OnlyPages(vm, r, ns)
    ensures forall k :: 0 <= k < PAGES ==> (Wanted(vm, r, [], k) <==> k in ns)
  {
    hide Mapped, PermsOf, Word;
  }

  /** Two pages of one table take three pages to copy. */
  lemma TwoNeed(vm: Vm, r: nat, n: nat, m: nat)
    requires OnlyPages(vm, r, {n, m}) && Neighbours(n, m)
    ensures Need(vm, r, [], 0, PAGES) <= 3
  {
    hide Wanted, OnlyPages, Need, IsFirst;
    AllWanted(vm, r, {n, m});
    NeedSplit(vm, r, [], 0, n, PAGES);
    NeedSplit(vm, r, [], n, n + 1, PAGES);
    NeedSplit(vm, r, [], n + 1, m, PAGES);
    NeedSplit(vm, r, [], m, m + 1, PAGES);
    NeedNone(vm, r, [], 0, n);
    NeedNone(vm, r, [], n + 1, m);
    NeedNone(vm, r, [], m + 1, PAGES);
    NeedOne(vm, r, [], n);
    NeedOne(vm, r, [], m);
    NotFirst(vm, r, [], n, m);
  }

  lemma NotFirst(vm: Vm, r: nat, regions: seq<Region>, n: nat, m: nat)
    requires Wanted(vm, r, regions, n) && Neighbours(n, m)
    ensures !IsFirst(vm, r, regions, m)
  {
    hide Wanted;
    SameStretch(n, m);
  }

  lemma NeedOne(vm: Vm, r: nat, regions: seq<Region>, n: nat)
    ensures Need(vm, r, regions, n, n + 1) == PageNeed(vm, r, regions, n) <= 2
  {
    hide Wanted, IsFirst;
    assert Need(vm, r, regions, n + 1, n + 1) == 0;
  }

  lemma WrongInCopy(vm: Vm, own: map<nat, Owner>, base: seq<Page>, boot: nat, r: nat, dst: nat, n: nat, m: nat,
                    space: nat)
    requires Inv(vm, own, base, boot) && IsRoot(own, r) && IsRoot(own, dst) && r != dst && EmptyTop(vm, dst)
    requires OnlyPages(vm, r, {n, m}) && Neighbours(n, m) && Room(vm) >= 3
    requires PagePerms(vm, r, n) == RW && PagePerms(vm, r, m) == PAGE_R
    ensures Copy(vm, r, dst, [], space).Some? && Wronged(Copy(vm, r, dst, [], space).v, dst, n, m)
  {
    Allowed();
    TwoNeed(vm, r, n, m);
    AllWanted(vm, r, {n, m});
    NothingMapped(vm, dst);
    hide Inv, Mapped, PermsOf, EntryOf, Copy, EmptyTop, Wanted, Room, Need;
    CopyRoom(vm, own, base, boot, r, dst, [], space);
    SharedTableLoses(vm, own, base, boot, r, dst, [], space, n, m);
    CopyIsolates(vm, own, base, boot, r, dst, [], space);
  }

  /** The address space has those two pages, with different permissions, and there is a new one to copy it to. */
  ghost predicate TwoDiffer(s: Sys, r: nat, dst: nat, n: nat, m: nat) {
    && r in s.roots && dst in s.roots && r != dst && EmptyTop(s.vm, dst) && OnlyPages(s.vm, r, {n, m})
    && PagePerms(s.vm, r, n) == RW && PagePerms(s.vm, r, m) == PAGE_R
  }

  lemma TwoDifferReached(s: Sys, base: seq<Page>, boot: nat, n: nat, m: nat, space: nat) returns (r: nat, dst: nat)
    requires Good(s, base, boot) && Room(s.vm) >= 8 && Neighbours(n, m)
    ensures R.Runs(s, TwoPageCalls(r, n, m, space)) && R.After(s, TwoPageCalls(r, n, m, space)).Some?
    ensures var s' := R.After(s, TwoPageCalls(r, n, m, space)).v; TwoDiffer(s', r, dst, n, m) && Room(s'.vm) >= 3
  {
    Allowed();
    hide Inv, Create, GetPaddr, SetPerms, OwnPaddr, Kept, Apart, RootsKept, Mapped, PagePerms, StateOf, Word, TopIndex;
    hide Permissions, EmptyTop, OnlyPages, R.Runs, R.After, Room;
    var own :| OwnedBy(s, own, base, boot);
    CreateSpace(s.vm, own, base, boot, space);
    CreateOk(s.vm, own, base, boot, space);
    var vm1;
    vm1, r := Create(s.vm, space).v.0, Create(s.vm, space).v.1;
    var own1 := own[r := Owner(r, Root)];
    TwoFaults(vm1, own1, base, boot, r, n, m, space);
    var vm2 := GetPaddr(vm1, r, n * PAGE_SIZE, true, RW, space).v.0;
    var own2 := OwnPaddr(vm1, own1, r, n * PAGE_SIZE, true, RW, space);
    var vm3 := GetPaddr(vm2, r, m * PAGE_SIZE, true, RW, space).v.0;
    var own3 := OwnPaddr(vm2, own2, r, m * PAGE_SIZE, true, RW, space);
    ReadOnlyNow(vm3, own3, base, boot, r, {n, m}, m, space);
    var vm4 := SetPerms(vm3, r, m * PAGE_SIZE, false, PAGE_R, space).v.0;
    var own4 := OwnPaddr(vm3, own3, r, m * PAGE_SIZE, false, PAGE_R, space);
    OneMoreSpace(vm4, own4, base, boot, r, {n, m}, space);
    var vm5;
    vm5, dst := Create(vm4, space).v.0, Create(vm4, space).v.1;
    var roots := s.roots + {r};
    FiveCalls(s, TwoPageCalls(r, n, m, space), Sys(vm1, roots), Sys(vm2, roots), Sys(vm3, roots), Sys(vm4, roots),
              Sys(vm5, roots + {dst}));
  }

  /**
   * From any state with eight free pages, and for any two pages of one second-level table, five calls lead to an
   * address space that has the two with different permissions, and a new address space; copying the one to the other
   * then succeeds and leaves one of the two pages with the wrong permissions.
   */
  lemma SharedTableReached(s: Sys, base: seq<Page>, boot: nat, n: nat, m: nat, space: nat) returns (r: nat, dst: nat)
    requires Good(s, base, boot) && Room(s.vm) >= 8 && Neighbours(n, m)
    ensures R.Runs(s, TwoPageCalls(r, n, m, space)) && R.After(s, TwoPageCalls(r, n, m, space)).Some?
    ensures var s' := R.After(s, TwoPageCalls(r, n, m, space)).v;
      && TwoDiffer(s', r, dst, n, m)
      && Copy(s'.vm, r, dst, [], space).Some? && Wronged(Copy(s'.vm, r, dst, [], space).v, dst, n, m)
  {
    hide Inv, R.Runs, R.After, Copy, Wronged, Room, EmptyTop, OnlyPages, PagePerms, Neighbours;
    r, dst := TwoDifferReached(s, base, boot, n, m, space);
    RunGood(s, TwoPageCalls(r, n, m, space), base, boot);
    var s' := R.After(s, TwoPageCalls(r, n, m, space)).v;
    var own :| OwnedBy(s', own, base, boot);
    WrongInCopy(s'.vm, own, base, boot, r, dst, n, m, space);
  }

  lemma FiveCalls(s: Sys, ops: seq<R.Op>, s1: Sys, s2: Sys, s3: Sys, s4: Sys, s5: Sys)
    requires |ops| == 5 && May(s, ops[0]) && May(s1, ops[1]) && May(s2, ops[2]) && May(s3, ops[3]) && May(s4, ops[4])
    requires Do(s, ops[0]) == Some(s1) && Do(s1, ops[1]) == Some(s2) && Do(s2, ops[2]) == Some(s3)
    requires Do(s3, ops[3]) == Some(s4) && Do(s4, ops[4]) == Some(s5)
    ensures R.Runs(s, ops) && R.After(s, ops) == Some(s5)
  {
    hide May, Do;
    var rest := ops[1..];
    assert rest[0] == ops[1] && rest[1] == ops[2] && rest[2] == ops[3] && rest[3] == ops[4];
    FourCalls(s1, rest, s2, s3, s4, s5);
    OneMoreCall(s, ops, s1);
  }

  lemma FourCalls(s: Sys, ops: seq<R.Op>, s1: Sys, s2: Sys, s3: Sys, s4: Sys)
    requires |ops| == 4 && May(s, ops[0]) && May(s1, ops[1]) && May(s2, ops[2]) && May(s3, ops[3])
    requires Do(s, ops[0]) == Some(s1) && Do(s1, ops[1]) == Some(s2) && Do(s2, ops[2]) == Some(s3)
    requires Do(s3, ops[3]) == Some(s4)
    ensures R.Runs(s, ops) && R.After(s, ops) == Some(s4)
  {
    hide May, Do;
    assert ops[1..][1..] == ops[2..] && ops[2..][1..] == ops[3..] && ops[3..][1..] == [];
    assert R.Runs(s4, []) && R.After(s4, []) == Some(s4);
    OneMoreCall(s3, ops[3..], s4);
    OneMoreCall(s2, ops[2..], s3);
    OneMoreCall(s1, ops[1..], s2);
    OneMoreCall(s, ops, s1);
  }

  // ---- A read-only page and a region ---------------------------------------

  /** A new address space with one page, made read-only, and one more space. */
  function OnePageCalls(r: nat, n: nat, space: nat): seq<R.Op> {
    [ Make(space),
      Fault(r, n * PAGE_SIZE, RW, space),
      Perms(r, n * PAGE_SIZE, false, PAGE_R, space),
      Make(space)
    ]
  }

  lemma OneFault(vm: Vm, own: map<nat, Owner>, base: seq<Page>, boot: nat, r: nat, n: nat, space: nat)
    requires Inv(vm, own, base, boot) && IsRoot(own, r) && EmptyTop(vm, r) && Room(vm) >= 2 && n < PAGES
    ensures GetPaddr(vm, r, n * PAGE_SIZE, true, RW, space).Some? && TopIndex(n * PAGE_SIZE) < ENTRIES
    ensures var vm1 := GetPaddr(vm, r, n * PAGE_SIZE, true, RW, space).v.0;
      var own1 := OwnPaddr(vm, own, r, n * PAGE_SIZE, true, RW, space);
      && Inv(vm1, own1, base, boot) && IsRoot(own1, r) && RootsKept(own, own1)
      && Room(vm1) == Room(vm) - 2 && OnlyPages(vm1, r, {n})
  {
    hide Inv, GetPaddr, OwnPaddr, RootsKept, Mapped, OnlyPages, EmptyTop, FaultCost, Room, Relabelled, TopIndex;
    NothingMapped(vm, r);
    FirstCost(vm, r, n);
    OneMorePage(vm, own, base, boot, r, {}, n, space);
    assert {} + {n} == {n};
  }

  /** The address space has that one page, read-only, and there is a new one to copy it to. */
  ghost predicate OneReadOnly(s: Sys, r: nat, dst: nat, n: nat) {
    && r in s.roots && dst in s.roots && r != dst && EmptyTop(s.vm, dst) && OnlyPages(s.vm, r, {n})
    && PagePerms(s.vm, r, n) == PAGE_R
  }

  lemma ReadOnlyReached(s: Sys, base: seq<Page>, boot: nat, n: nat, space: nat) returns (r: nat, dst: nat)
    requires Good(s, base, boot) && Room(s.vm) >= 6 && n < PAGES
    ensures R.Runs(s, OnePageCalls(r, n, space)) && R.After(s, OnePageCalls(r, n, space)).Some?
    ensures var s' := R.After(s, OnePageCalls(r, n, space)).v; OneReadOnly(s', r, dst, n) && Room(s'.vm) >= 2
  {
    Allowed();
    hide Inv, Create, GetPaddr, SetPerms, OwnPaddr, Kept, Apart, RootsKept, Mapped, PagePerms, StateOf, Word, TopIndex;
    hide Permissions, EmptyTop, OnlyPages, R.Runs, R.After, Room;
    var own :| OwnedBy(s, own, base, boot);
    CreateSpace(s.vm, own, base, boot, space);
    CreateOk(s.vm, own, base, boot, space);
    var vm1;
    vm1, r := Create(s.vm, space).v.0, Create(s.vm, space).v.1;
    var own1 := own[r := Owner(r, Root)];
    OneFault(vm1, own1, base, boot, r, n, space);
    var vm2 := GetPaddr(vm1, r, n * PAGE_SIZE, true, RW, space).v.0;
    var own2 := OwnPaddr(vm1, own1, r, n * PAGE_SIZE, true, RW, space);
    ReadOnlyNow(vm2, own2, base, boot, r, {n}, n, space);
    var vm3 := SetPerms(vm2, r, n * PAGE_SIZE, false, PAGE_R, space).v.0;
    var own3 := OwnPaddr(vm2, own2, r, n * PAGE_SIZE, false, PAGE_R, space);
    OneMoreSpace(vm3, own3, base, boot, r, {n}, space);
    var vm4;
    vm4, dst := Create(vm3, space).v.0, Create(vm3, space).v.1;
    var roots := s.roots + {r};
    FourCalls(s, OnePageCalls(r, n, space), Sys(vm1, roots), Sys(vm2, roots), Sys(vm3, roots), Sys(vm4, roots + {dst}));
  }

  lemma OneNeed(vm: Vm, r: nat, regions: seq<Region>, n: nat)
    requires OnlyPages(vm, r, {n}) && n < PAGES
    ensures Need(vm, r, regions, 0, PAGES) <= 2
  {
    hide OnlyPages, Wanted, PageNeed, Need;
    OthersUnwanted(vm, r, regions, n);
    NeedSplit(vm, r, regions, 0, n, PAGES);
    NeedSplit(vm, r, regions, n, n + 1, PAGES);
    NeedNone(vm, r, regions, 0, n);
    NeedNone(vm, r, regions, n + 1, PAGES);
    NeedOne(vm, r, regions, n);
  }

  lemma OthersUnwanted(vm: Vm, r: nat, regions: seq<Region>, n: nat)
    requires OnlyPages(vm, r, {n})
    ensures forall m :: 0 <= m < PAGES && m != n ==> !Wanted(vm, r, regions, m)
  {
    hide Mapped, Copied, PermsOf, Word;
  }

  /** Whether the page is in the copy is what the test for regions says. */
  lemma CopyTells(s: Sys, base: seq<Page>, boot: nat, r: nat, dst: nat, n: nat, regions: seq<Region>, space: nat)
    requires Good(s, base, boot) && OneReadOnly(s, r, dst, n) && n < PAGES && Room(s.vm) >= 2
    requires Plain(n * PAGE_SIZE, regions)
    ensures Mapped(s.vm, r, n * PAGE_SIZE).Some? && Copy(s.vm, r, dst, regions, space).Some?
    ensures Mapped(Copy(s.vm, r, dst, regions, space).v, dst, n * PAGE_SIZE).Some? <==> !SeenAny(n * PAGE_SIZE, regions)
  {
    Allowed();
    NumberSplit(n);
    hide Inv, Copy, EmptyTop, OnlyPages, Need, Room, Plain, SeenAny, Judged, InAny, PermsOf, StateOf, Word, TableOf;
    var own :| OwnedBy(s, own, base, boot);
    OneNeed(s.vm, r, regions, n);
    CopyRoom(s.vm, own, base, boot, r, dst, regions, space);
    NothingMapped(s.vm, dst);
    NotMapped(s.vm, r, {n}, n);
    NoneMapped(s.vm, dst);
    ReadOnlyCopied(s.vm, own, base, boot, r, dst, regions, space, n);
  }

  lemma NoneMapped(vm: Vm, r: nat)
    requires OnlyPages(vm, r, {})
    ensures forall n :: 0 <= n < PAGES ==> Mapped(vm, r, n * PAGE_SIZE).None?
  {
    hide Mapped;
  }

  const TEXT := Region(0x40_0000, 0x3000)

  /**
   * The second of a region's three pages, read-only, is copied, though it would be loaded again: four calls from any
   * state with six free pages.
   */
  lemma DeepPageCopied(s: Sys, base: seq<Page>, boot: nat, space: nat) returns (r: nat, dst: nat)
    requires Good(s, base, boot) && Room(s.vm) >= 6
    ensures R.Runs(s, OnePageCalls(r, 0x401, space)) && R.After(s, OnePageCalls(r, 0x401, space)).Some?
    ensures var s' := R.After(s, OnePageCalls(r, 0x401, space)).v; var v := 0x401 * PAGE_SIZE;
      && OneReadOnly(s', r, dst, 0x401) && InAny(v, [TEXT])
      && Copy(s'.vm, r, dst, [TEXT], space).Some? && Mapped(Copy(s'.vm, r, dst, [TEXT], space).v, dst, v).Some?
  {
    hide Good, OneReadOnly, R.Runs, R.After, Copy, Mapped, Room;
    r, dst := ReadOnlyReached(s, base, boot, 0x401, space);
    RunGood(s, OnePageCalls(r, 0x401, space), base, boot);
    assert In(0x401 * PAGE_SIZE, [TEXT][0]);
    CopyTells(R.After(s, OnePageCalls(r, 0x401, space)).v, base, boot, r, dst, 0x401, [TEXT], space);
  }

  /** The page after a region, read-only and in no region itself, is not copied, and so lost. */
  lemma NextPageLost(s: Sys, base: seq<Page>, boot: nat, space: nat) returns (r: nat, dst: nat)
    requires Good(s, base, boot) && Room(s.vm) >= 6
    ensures R.Runs(s, OnePageCalls(r, 0x403, space)) && R.After(s, OnePageCalls(r, 0x403, space)).Some?
    ensures var s' := R.After(s, OnePageCalls(r, 0x403, space)).v; var v := 0x403 * PAGE_SIZE;
      && OneReadOnly(s', r, dst, 0x403) && Mapped(s'.vm, r, v).Some? && !InAny(v, [TEXT])
      && Copy(s'.vm, r, dst, [TEXT], space).Some? && Mapped(Copy(s'.vm, r, dst, [TEXT], space).v, dst, v).None?
  {
    hide Good, OneReadOnly, R.Runs, R.After, Copy, Mapped, Room;
    r, dst := ReadOnlyReached(s, base, boot, 0x403, space);
    RunGood(s, OnePageCalls(r, 0x403, space), base, boot);
    assert Seen(0x403 * PAGE_SIZE, [TEXT][0]);
    CopyTells(R.After(s, OnePageCalls(r, 0x403, space)).v, base, boot, r, dst, 0x403, [TEXT], space);
  }
}
