/** Two-level page tables, kept in pages of the coremap, as values. */
module PageTables {
  import opened Arith
  import opened Coremaps

  const PAGE_SIZE := 4096
  const ENTRIES := 1024
  const KSEG0 := 0x8000_0000
  const UP := 0x40_0000

  const PAGE_FREE := 1
  const PAGE_IN_MEM := 2
  const PAGE_W := 4
  const PAGE_R := 8
  const SWP_PAGE := 1
  const SWP_TABLE := 2

  /** The words of each page of memory. */
  datatype Vm = Vm(cm: Map, mem: seq<seq<nat>>)

  datatype State = Vacant | InMem | InSwap

  /** The low bits of an entry say what it is; the permissions are the three bits above. */
  function StateOf(value: nat): State {
    if value % 2 == 1 then Vacant else if value / 2 % 2 == 1 then InMem else InSwap
  }

  predicate Permissions(p: nat) {
    p < 32 && p % 4 == 0
  }

  function PermsOf(value: nat): (p: nat)
    ensures Permissions(p) && p <= value
  {
    assert value % 4 <= value % 32 <= value by { LowBits(value); }
    value % 32 - value % 4
  }

  lemma LowBits(value: nat)
    ensures value % 4 <= value % 32 <= value && (value % 32 - value % 4) % 4 == 0
  {
    DivUnique(value % 32, value % 32 / 4, value % 32 % 4, 4);
    DivUnique(value, 8 * (value / 32) + value % 32 / 4, value % 32 % 4, 4);
    DivUnique(value % 32 - value % 4, value % 32 / 4, 0, 4);
  }

  function TopIndex(v: nat): nat {
    v / UP
  }

  function LowIndex(v: nat): (i: nat)
    ensures i < ENTRIES
  {
    v / PAGE_SIZE % ENTRIES
  }

  function PageBase(v: nat): nat {
    v - v % PAGE_SIZE
  }

  function TopEntry(q: nat): nat {
    KSEG0 + q * PAGE_SIZE + PAGE_IN_MEM
  }

  function LowEntry(f: nat, perms: nat): nat {
    f * PAGE_SIZE + PAGE_IN_MEM + perms
  }

  /** The frame of an entry of a top-level table, and of a second-level one. */
  function TableOf(value: nat): nat {
    if value < KSEG0 then 0 else (value - KSEG0) / PAGE_SIZE
  }

  function FrameOf(value: nat): nat {
    value / PAGE_SIZE
  }

  function Word(vm: Vm, p: nat, i: nat): nat {
    if p < |vm.mem| && i < |vm.mem[p]| then vm.mem[p][i] else PAGE_FREE
  }

  function SetWord(vm: Vm, p: nat, i: nat, value: nat): Vm {
    if p < |vm.mem| && i < |vm.mem[p]| then
      var t: seq<nat> := vm.mem[p][i := value];
      vm.(mem := vm.mem[p := t])
    else vm
  }

  // ---- Operations ---------------------------------------------------------

  function Blank(perms: nat): (t: seq<nat>)
    ensures |t| == ENTRIES && forall i :: 0 <= i < ENTRIES ==> t[i] == PAGE_FREE + perms
  {
    seq(ENTRIES, i => PAGE_FREE + perms)
  }

  /** A page from the coremap, noted as belonging to a space. Running out of memory is a panic: None. */
  function Take(vm: Vm, space: nat, note: nat): Option<(Vm, nat)> {
    match GetPages(vm.cm, 1)
    case (cm, None) => None
    case (cm, Some(p)) => if p < |cm.pages| then Some((vm.(cm := SetVaddr(cm, p, space, note)), p)) else None
  }

  function MakeTable(vm: Vm, perms: nat, space: nat, v: nat): Option<(Vm, nat)> {
    match Take(vm, space, PageBase(v) + SWP_TABLE)
    case None => None
    case Some((vm1, p)) => if p < |vm.mem| then Some((vm1.(mem := vm1.mem[p := Blank(perms)]), p)) else None
  }

  /** The second-level table for an address: its frame, or none; with create, one is made if need be. */
  function GetTable(vm: Vm, root: nat, v: nat, create: bool, perms: nat, space: nat): Option<(Vm, Option<nat>)> {
    var i := TopIndex(v);
    var value := Word(vm, root, i);
    match StateOf(value)
    case Vacant =>
      if create then
        match MakeTable(vm, perms, space, v)
        case None => None
        case Some((vm1, q)) => Some((SetWord(vm1, root, i, TopEntry(q)), Some(q)))
      else Some((vm, None))
    case InMem => Some((vm, Some(TableOf(value))))
    case InSwap => Some((vm, None))
  }

  /** The page at an entry of a second-level table: frame and permissions; with create, one is made if need be. */
  function GetPage(vm: Vm, q: nat, j: nat, create: bool, v: nat, space: nat): Option<(Vm, nat)> {
    var value := Word(vm, q, j);
    match StateOf(value)
    case Vacant =>
      if create then
        match Take(vm, space, PageBase(v) + SWP_PAGE)
        case None => None
        case Some((vm1, f)) => Some((SetWord(vm1, q, j, LowEntry(f, PermsOf(value))), LowEntry(f, PermsOf(value))))
      else Some((vm, PAGE_FREE))
    case InMem => Some((vm, value - value % 4))
    case InSwap => Some((vm, 0x20))
  }

  function GetPaddr(vm: Vm, root: nat, v: nat, create: bool, perms: nat, space: nat): Option<(Vm, nat)> {
    match GetTable(vm, root, v, create, perms, space)
    case None => None
    case Some((vm1, None)) => Some((vm1, PAGE_FREE))
    case Some((vm1, Some(q))) => GetPage(vm1, q, LowIndex(v), create, v, space)
  }

  /** A new page table: an empty top level, fixed in memory. */
  function Create(vm: Vm, space: nat): Option<(Vm, nat)> {
    match MakeTable(vm, 0, space, 0)
    case None => None
    case Some((vm1, p)) => if p < |vm1.cm.pages| then Some((vm1.(cm := SetFixed(vm1.cm, p, true)), p)) else None
  }

  function SetPerms(vm: Vm, root: nat, v: nat, create: bool, perms: nat, space: nat): Option<(Vm, bool)> {
    match GetTable(vm, root, v, create, perms, space)
    case None => None
    case Some((vm1, None)) => Some((vm1, false))
    case Some((vm1, Some(q))) =>
      match GetPage(vm1, q, LowIndex(v), create, v, space)
      case None => None
      case Some((vm2, _)) =>
        var value := Word(vm2, q, LowIndex(v));
        if StateOf(value) == InMem then Some((SetWord(vm2, q, LowIndex(v), value - PermsOf(value) + perms), true))
        else Some((vm2, false))
  }

  function FreeFrame(vm: Vm, f: nat): Vm {
    if f < |vm.cm.pages| then vm.(cm := FreePages(vm.cm, f)) else vm
  }

  /** Free the pages of a second-level table from entry j on. */
  function FreePagesOf(vm: Vm, q: nat, j: nat): Vm
    decreases ENTRIES - j
  {
    if j >= ENTRIES then vm
    else
      var value := Word(vm, q, j);
      FreePagesOf(if StateOf(value) == InMem then FreeFrame(vm, FrameOf(value)) else vm, q, j + 1)
  }

  function FreeTable(vm: Vm, value: nat): Vm {
    if StateOf(value) == InMem then FreeFrame(FreePagesOf(vm, TableOf(value), 0), TableOf(value)) else vm
  }

  function FreeTablesOf(vm: Vm, root: nat, i: nat): Vm
    decreases ENTRIES - i
  {
    if i >= ENTRIES then vm else FreeTablesOf(FreeTable(vm, Word(vm, root, i)), root, i + 1)
  }

  function Destroy(vm: Vm, root: nat): Vm {
    FreeFrame(FreeTablesOf(vm, root, 0), root)
  }

  // ---- Who owns which frame -----------------------------------------------

  datatype Part = Root | Table(i: nat) | Leaf(i: nat, j: nat)
  datatype Owner = Owner(root: nat, part: Part)

  ghost predicate IsRoot(own: map<nat, Owner>, r: nat) {
    r in own && own[r] == Owner(r, Root)
  }

  ghost predicate IsTable(own: map<nat, Owner>, q: nat, r: nat, i: nat) {
    q in own && own[q] == Owner(r, Table(i)) && i < ENTRIES
  }

  ghost predicate IsLeaf(own: map<nat, Owner>, f: nat, r: nat, i: nat, j: nat) {
    f in own && own[f] == Owner(r, Leaf(i, j)) && i < ENTRIES && j < ENTRIES
  }

  /** A frame that is owned is a block of one page, and the table it belongs to points to it. */
  ghost predicate FrameOk(vm: Vm, own: map<nat, Owner>, f: nat) {
    f in own ==>
      && f < |vm.cm.pages| && vm.cm.pages[f].count == 1 && vm.cm.pages[f].state != FREE
      && match own[f].part
        case Root => own[f].root == f
        case Table(i) => IsRoot(own, own[f].root) && i < ENTRIES && Word(vm, own[f].root, i) == TopEntry(f)
        case Leaf(i, j) =>
          && IsRoot(own, own[f].root) && i < ENTRIES && j < ENTRIES && StateOf(Word(vm, own[f].root, i)) == InMem
          && var q := TableOf(Word(vm, own[f].root, i));
            IsTable(own, q, own[f].root, i) && StateOf(Word(vm, q, j)) == InMem && FrameOf(Word(vm, q, j)) == f
  }

  /** An entry of a top-level table is free, or points to a second-level table of its own. */
  ghost predicate TopOk(vm: Vm, own: map<nat, Owner>, r: nat, i: nat) {
    var value := Word(vm, r, i);
    StateOf(value) == Vacant || (value == TopEntry(TableOf(value)) && IsTable(own, TableOf(value), r, i))
  }

  /** An entry of a second-level table is free, or points to a page of its own. */
  ghost predicate LowOk(vm: Vm, own: map<nat, Owner>, q: nat, j: nat) {
    var value := Word(vm, q, j);
    StateOf(value) != Vacant ==>
      && value == LowEntry(FrameOf(value), PermsOf(value)) && q in own && own[q].part.Table?
      && IsLeaf(own, FrameOf(value), own[q].root, own[q].part.i, j)
  }

  ghost predicate Memory(vm: Vm, boot: nat) {
    Ok(vm.cm, boot) && boot > 0 && |vm.mem| == |vm.cm.pages| && forall p :: 0 <= p < |vm.mem| ==> |vm.mem[p]| == ENTRIES
  }

  /** Frames that are not owned are as base says, and an owned frame was free there. */
  ghost predicate BaseOk(vm: Vm, own: map<nat, Owner>, base: seq<Page>) {
    && |base| == |vm.cm.pages|
    && forall f :: 0 <= f < |base| ==> if f in own then base[f] == BLANK else vm.cm.pages[f] == base[f]
  }

  ghost predicate Inv(vm: Vm, own: map<nat, Owner>, base: seq<Page>, boot: nat) {
    && Memory(vm, boot) && BaseOk(vm, own, base)
    && (forall f :: f in own ==> FrameOk(vm, own, f))
    && (forall r, i :: IsRoot(own, r) && 0 <= i < ENTRIES ==> TopOk(vm, own, r, i))
    && (forall q, j :: q in own && own[q].part.Table? && 0 <= j < ENTRIES ==> LowOk(vm, own, q, j))
  }

  // ---- Reading the invariant ----------------------------------------------

  /** A page number times the page size has twelve zero bits, above which it can be read back. */
  lemma PageBits(q: nat, low: nat)
    requires low < 64
    ensures (q * PAGE_SIZE + low) / PAGE_SIZE == q && (q * PAGE_SIZE + low) % 32 == low % 32
    ensures (q * PAGE_SIZE + low) % 4 == low % 4 && (q * PAGE_SIZE + low) % 2 == low % 2
    ensures (q * PAGE_SIZE + low) / 2 % 2 == low / 2 % 2
  {
    DivUnique(q * PAGE_SIZE + low, q, low, PAGE_SIZE);
    DivUnique(q * PAGE_SIZE + low, q * 128 + low / 32, low % 32, 32);
    DivUnique(q * PAGE_SIZE + low, q * 1024 + low / 4, low % 4, 4);
    DivUnique(q * PAGE_SIZE + low, q * 2048 + low / 2, low % 2, 2);
    DivUnique(q * 2048 + low / 2, q * 1024 + low / 2 / 2, low / 2 % 2, 2);
  }

  lemma EntryFacts(q: nat, perms: nat)
    requires Permissions(perms)
    ensures StateOf(TopEntry(q)) == InMem && TableOf(TopEntry(q)) == q
    ensures StateOf(LowEntry(q, perms)) == InMem && FrameOf(LowEntry(q, perms)) == q
    ensures PermsOf(LowEntry(q, perms)) == perms
    ensures StateOf(PAGE_FREE + perms) == Vacant && PermsOf(PAGE_FREE + perms) == perms
  {
    hide StateOf, TableOf, FrameOf, PermsOf;
    LowFacts(q, perms);
    VacantFacts(perms);
    TopFacts(q);
  }

  lemma LowFacts(q: nat, perms: nat)
    requires Permissions(perms)
    ensures StateOf(LowEntry(q, perms)) == InMem && FrameOf(LowEntry(q, perms)) == q
    ensures PermsOf(LowEntry(q, perms)) == perms
  {
    PageBits(q, PAGE_IN_MEM + perms);
  }

  lemma VacantFacts(perms: nat)
    requires Permissions(perms)
    ensures StateOf(PAGE_FREE + perms) == Vacant && PermsOf(PAGE_FREE + perms) == perms
  {
    PageBits(0, PAGE_FREE + perms);
  }

  lemma TopFacts(q: nat)
    ensures StateOf(TopEntry(q)) == InMem && TableOf(TopEntry(q)) == q
  {
    PageBits(q + 0x8_0000, PAGE_IN_MEM);
    PageBits(q, PAGE_IN_MEM);
  }

  lemma LowEntryParts(value: nat)
    requires value == LowEntry(FrameOf(value), PermsOf(value))
    ensures StateOf(value) == InMem
  {
    PageBits(FrameOf(value), PAGE_IN_MEM + PermsOf(value));
  }

  /** The page mapped at an address, if there is one. */
  function Mapped(vm: Vm, r: nat, v: nat): Option<nat> {
    var value := Word(vm, r, TopIndex(v));
    if StateOf(value) != InMem then None
    else
      var low := Word(vm, TableOf(value), LowIndex(v));
      if StateOf(low) != InMem then None else Some(FrameOf(low))
  }

  lemma MappedLeaf(vm: Vm, own: map<nat, Owner>, base: seq<Page>, boot: nat, r: nat, v: nat)
    requires Inv(vm, own, base, boot) && IsRoot(own, r) && TopIndex(v) < ENTRIES && Mapped(vm, r, v).Some?
    ensures IsLeaf(own, Mapped(vm, r, v).v, r, TopIndex(v), LowIndex(v))
  {
    hide Memory, BaseOk;
    var value := Word(vm, r, TopIndex(v));
    assert TopOk(vm, own, r, TopIndex(v));
    assert LowOk(vm, own, TableOf(value), LowIndex(v));
  }

  /** Two pages of two address spaces, or of one, never share a frame; nor does a page share one with a table. */
  lemma NoSharing(vm: Vm, own: map<nat, Owner>, base: seq<Page>, boot: nat, r: nat, v: nat, r': nat, v': nat)
    requires Inv(vm, own, base, boot) && IsRoot(own, r) && IsRoot(own, r') && TopIndex(v) < ENTRIES
    requires TopIndex(v') < ENTRIES
    requires Mapped(vm, r, v).Some? && Mapped(vm, r, v) == Mapped(vm, r', v')
    ensures r == r' && v / PAGE_SIZE == v' / PAGE_SIZE
  {
    MappedLeaf(vm, own, base, boot, r, v);
    MappedLeaf(vm, own, base, boot, r', v');
    SameIndexes(v, v');
  }

  lemma SameIndexes(v: nat, v': nat)
    requires TopIndex(v) == TopIndex(v') && LowIndex(v) == LowIndex(v')
    ensures v / PAGE_SIZE == v' / PAGE_SIZE
  {
    assert v / PAGE_SIZE == TopIndex(v) * ENTRIES + LowIndex(v);
    assert v' / PAGE_SIZE == TopIndex(v') * ENTRIES + LowIndex(v');
  }

  /** No entry that an address leads to is ever in the swapped state. */
  lemma NeverSwapped(vm: Vm, own: map<nat, Owner>, base: seq<Page>, boot: nat, r: nat, v: nat)
    requires Inv(vm, own, base, boot) && IsRoot(own, r) && TopIndex(v) < ENTRIES
    ensures StateOf(Word(vm, r, TopIndex(v))) != InSwap
    ensures StateOf(Word(vm, r, TopIndex(v))) == InMem ==>
      StateOf(Word(vm, TableOf(Word(vm, r, TopIndex(v))), LowIndex(v))) != InSwap
  {
    hide Memory, BaseOk;
    var value := Word(vm, r, TopIndex(v));
    assert TopOk(vm, own, r, TopIndex(v));
    EntryFacts(TableOf(value), 0);
    if StateOf(value) == InMem {
      assert LowOk(vm, own, TableOf(value), LowIndex(v));
      var low := Word(vm, TableOf(value), LowIndex(v));
      if StateOf(low) != Vacant { LowEntryParts(low); }
    }
  }
}
