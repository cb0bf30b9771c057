/** Destroying a page table gives back exactly the frames it owns. */
module PageTableFree {
  import opened Coremaps
  import opened PageTables

  /** The frames of a set have been freed and nothing else has changed. */
  ghost predicate Freed(vm: Vm, vm': Vm, s: set<nat>, boot: nat) {
    && vm'.mem == vm.mem && Ok(vm'.cm, boot) && |vm'.cm.pages| == |vm.cm.pages|
    && forall f :: 0 <= f < |vm.cm.pages| ==> vm'.cm.pages[f] == if f in s then BLANK else vm.cm.pages[f]
  }

  lemma FreedOne(vm: Vm, f: nat, boot: nat)
    requires Ok(vm.cm, boot) && f < |vm.cm.pages| && vm.cm.pages[f].count == 1
    ensures Freed(vm, FreeFrame(vm, f), {f}, boot)
  {
    FreePagesOk(vm.cm, boot, f);
  }

  lemma FreedTwice(vm: Vm, vm1: Vm, vm2: Vm, s: set<nat>, t: set<nat>, boot: nat)
    requires Freed(vm, vm1, s, boot) && Freed(vm1, vm2, t, boot)
    ensures Freed(vm, vm2, s + t, boot)
  {
    hide Ok;
  }

  lemma FreedNone(vm: Vm, boot: nat)
    requires Ok(vm.cm, boot)
    ensures Freed(vm, vm, {}, boot)
  {
  }

  predicate LeafFrom(o: Owner, r: nat, i: nat, j: nat) {
    o.root == r && o.part.Leaf? && o.part.i == i && o.part.j >= j
  }

  predicate TableFrom(o: Owner, r: nat, i: nat) {
    o.root == r && ((o.part.Table? && o.part.i >= i) || (o.part.Leaf? && o.part.i >= i))
  }

  ghost function Leaves(own: map<nat, Owner>, r: nat, i: nat, j: nat): set<nat> {
    set f | f in own && LeafFrom(own[f], r, i, j)
  }

  ghost function Nested(own: map<nat, Owner>, r: nat, i: nat): set<nat> {
    set f | f in own && TableFrom(own[f], r, i)
  }

  /** Some frames of a set are still as they were. */
  ghost predicate Still(vm0: Vm, vm: Vm, s: set<nat>, boot: nat) {
    && vm.mem == vm0.mem && Ok(vm.cm, boot) && |vm.cm.pages| == |vm0.cm.pages|
    && forall f :: f in s && f < |vm.cm.pages| ==> vm.cm.pages[f] == vm0.cm.pages[f]
  }

  lemma LeafAt(vm: Vm, own: map<nat, Owner>, base: seq<Page>, boot: nat, r: nat, i: nat, q: nat, j: nat)
    requires Inv(vm, own, base, boot) && IsTable(own, q, r, i) && j < ENTRIES
    ensures StateOf(Word(vm, q, j)) == InMem ==> IsLeaf(own, FrameOf(Word(vm, q, j)), r, i, j)
    ensures StateOf(Word(vm, q, j)) == InMem ==>
      Leaves(own, r, i, j) == {FrameOf(Word(vm, q, j))} + Leaves(own, r, i, j + 1)
    ensures StateOf(Word(vm, q, j)) != InMem ==> Leaves(own, r, i, j) == Leaves(own, r, i, j + 1)
  {
    hide Memory, BaseOk;
    assert FrameOk(vm, own, q) && LowOk(vm, own, q, j);
    EntryFacts(q, 0);
    forall f | f in own && own[f] == Owner(r, Leaf(i, j))
      ensures StateOf(Word(vm, q, j)) == InMem && f == FrameOf(Word(vm, q, j))
    {
      assert FrameOk(vm, own, f);
    }
    forall f | f in Leaves(own, r, i, j)
      ensures f in Leaves(own, r, i, j + 1) || own[f] == Owner(r, Leaf(i, j))
    {
    }
  }

  lemma {:induction false} FreeLeaves(vm0: Vm, vm: Vm, own: map<nat, Owner>, base: seq<Page>, boot: nat, r: nat, i: nat,
                                      q: nat, j: nat)
    requires Inv(vm0, own, base, boot) && IsTable(own, q, r, i) && j <= ENTRIES
    requires Still(vm0, vm, Leaves(own, r, i, j), boot)
    ensures Freed(vm, FreePagesOf(vm, q, j), Leaves(own, r, i, j), boot)
    decreases ENTRIES - j
  {
    if j == ENTRIES {
      NoLeaves(vm0, own, base, boot, r, i);
      FreedNone(vm, boot);
    } else {
      LeafAt(vm0, own, base, boot, r, i, q, j);
      var value := Word(vm0, q, j);
      if StateOf(value) == InMem {
        var f := FrameOf(value);
        assert FrameOk(vm0, own, f) && f in Leaves(own, r, i, j);
        FreedOne(vm, f, boot);
        NotAgain(own, r, i, j, f);
        FreeLeaves(vm0, FreeFrame(vm, f), own, base, boot, r, i, q, j + 1);
        FreedTwice(vm, FreeFrame(vm, f), FreePagesOf(vm, q, j), {f}, Leaves(own, r, i, j + 1), boot);
      } else {
        FreeLeaves(vm0, vm, own, base, boot, r, i, q, j + 1);
      }
    }
  }

  lemma NotAgain(own: map<nat, Owner>, r: nat, i: nat, j: nat, f: nat)
    requires IsLeaf(own, f, r, i, j)
    ensures f !in Leaves(own, r, i, j + 1)
  {
  }

  lemma NoLeaves(vm: Vm, own: map<nat, Owner>, base: seq<Page>, boot: nat, r: nat, i: nat)
    requires Inv(vm, own, base, boot)
    ensures Leaves(own, r, i, ENTRIES) == {} && Nested(own, r, ENTRIES) == {}
  {
    hide Memory, BaseOk;
    forall f | f in own
      ensures !LeafFrom(own[f], r, i, ENTRIES) && !TableFrom(own[f], r, ENTRIES)
    {
      assert FrameOk(vm, own, f);
    }
  }

  lemma TableAt(vm: Vm, own: map<nat, Owner>, base: seq<Page>, boot: nat, r: nat, i: nat)
    requires Inv(vm, own, base, boot) && IsRoot(own, r) && i < ENTRIES
    ensures var value := Word(vm, r, i); var q := TableOf(value);
      && (StateOf(value) == InMem ==>
            IsTable(own, q, r, i) && Nested(own, r, i) == Leaves(own, r, i, 0) + {q} + Nested(own, r, i + 1))
      && (StateOf(value) != InMem ==> Nested(own, r, i) == Nested(own, r, i + 1))
  {
    hide Memory, BaseOk;
    assert TopOk(vm, own, r, i);
    var value := Word(vm, r, i);
    EntryFacts(TableOf(value), 0);
    forall f | f in own && own[f].root == r && (own[f].part == Table(i) || (own[f].part.Leaf? && own[f].part.i == i))
      ensures StateOf(value) == InMem && (own[f].part == Table(i) ==> f == TableOf(value))
    {
      assert FrameOk(vm, own, f);
      EntryFacts(f, 0);
    }
    forall f | f in Nested(own, r, i)
      ensures f in Nested(own, r, i + 1) || own[f].part == Table(i) || f in Leaves(own, r, i, 0)
    {
    }
  }

  lemma FreeTableOk(vm0: Vm, vm: Vm, own: map<nat, Owner>, base: seq<Page>, boot: nat, r: nat, i: nat)
    requires Inv(vm0, own, base, boot) && IsRoot(own, r) && i < ENTRIES && Still(vm0, vm, Nested(own, r, i), boot)
    requires StateOf(Word(vm0, r, i)) == InMem
    ensures var q := TableOf(Word(vm0, r, i));
      Freed(vm, FreeTable(vm, Word(vm, r, i)), Leaves(own, r, i, 0) + {q}, boot)
  {
    TableAt(vm0, own, base, boot, r, i);
    var q := TableOf(Word(vm0, r, i));
    FreeLeaves(vm0, vm, own, base, boot, r, i, q, 0);
    var vm1 := FreePagesOf(vm, q, 0);
    assert FrameOk(vm0, own, q) && q in Nested(own, r, i) && q !in Leaves(own, r, i, 0);
    FreedOne(vm1, q, boot);
    FreedTwice(vm, vm1, FreeFrame(vm1, q), Leaves(own, r, i, 0), {q}, boot);
  }

  lemma {:induction false} FreeTables(vm0: Vm, vm: Vm, own: map<nat, Owner>, base: seq<Page>, boot: nat, r: nat, i: nat)
    requires Inv(vm0, own, base, boot) && IsRoot(own, r) && i <= ENTRIES && Still(vm0, vm, Nested(own, r, i), boot)
    ensures Freed(vm, FreeTablesOf(vm, r, i), Nested(own, r, i), boot)
    decreases ENTRIES - i
  {
    if i == ENTRIES {
      NoLeaves(vm0, own, base, boot, r, i);
      FreedNone(vm, boot);
    } else {
      TableAt(vm0, own, base, boot, r, i);
      hide FreeTable, FreePagesOf;
      var value := Word(vm, r, i);
      if StateOf(value) == InMem {
        FreeTableOk(vm0, vm, own, base, boot, r, i);
        var vm1 := FreeTable(vm, value);
        Later(own, r, i, TableOf(value));
        FreeTables(vm0, vm1, own, base, boot, r, i + 1);
        FreedTwice(vm, vm1, FreeTablesOf(vm, r, i), Leaves(own, r, i, 0) + {TableOf(value)}, Nested(own, r, i + 1),
                   boot);
      } else {
        NothingThere(vm, value);
        FreeTables(vm0, vm, own, base, boot, r, i + 1);
      }
    }
  }

  lemma NothingThere(vm: Vm, value: nat)
    requires StateOf(value) != InMem
    ensures FreeTable(vm, value) == vm
  {
  }

  lemma Later(own: map<nat, Owner>, r: nat, i: nat, q: nat)
    requires IsTable(own, q, r, i)
    ensures Nested(own, r, i + 1) !! Leaves(own, r, i, 0) + {q}
  {
  }

  /** The frames of an address space. */
  ghost function FramesOf(own: map<nat, Owner>, r: nat): set<nat> {
    set f | f in own && own[f].root == r
  }

  /** Destroying a page table frees exactly the frames of its address space: its pages, its tables and itself. */
  lemma DestroyFrees(vm: Vm, own: map<nat, Owner>, base: seq<Page>, boot: nat, r: nat)
    requires Inv(vm, own, base, boot) && IsRoot(own, r)
    ensures Freed(vm, Destroy(vm, r), FramesOf(own, r), boot)
  {
    FreeTables(vm, vm, own, base, boot, r, 0);
    var vm1 := FreeTablesOf(vm, r, 0);
    assert FrameOk(vm, own, r) && r !in Nested(own, r, 0);
    FreedOne(vm1, r, boot);
    FreedTwice(vm, vm1, FreeFrame(vm1, r), Nested(own, r, 0), {r}, boot);
    AllOf(vm, own, base, boot, r);
  }

  lemma AllOf(vm: Vm, own: map<nat, Owner>, base: seq<Page>, boot: nat, r: nat)
    requires Inv(vm, own, base, boot) && IsRoot(own, r)
    ensures FramesOf(own, r) == Nested(own, r, 0) + {r}
  {
    hide Memory, BaseOk;
    forall f | f in own && own[f].root == r
      ensures f in Nested(own, r, 0) || f == r
    {
      assert FrameOk(vm, own, f);
    }
  }

  /** Ownership without one address space. */
  ghost predicate OthersOf(own: map<nat, Owner>, own': map<nat, Owner>, r: nat) {
    && (forall f :: f in own' <==> f in own && own[f].root != r)
    && (forall f :: f in own' ==> own'[f] == own[f])
  }

  lemma OtherFrame(vm: Vm, vm': Vm, own: map<nat, Owner>, own': map<nat, Owner>, r: nat, f: nat)
    requires vm'.mem == vm.mem && |vm'.cm.pages| == |vm.cm.pages| && OthersOf(own, own', r) && f in own'
    requires FrameOk(vm, own, f)
    requires f < |vm.cm.pages| ==> vm'.cm.pages[f] == vm.cm.pages[f]
    ensures FrameOk(vm', own', f)
  {
  }

  lemma OtherEntries(vm: Vm, vm': Vm, own: map<nat, Owner>, own': map<nat, Owner>, r: nat, t: nat, i: nat)
    requires vm'.mem == vm.mem && OthersOf(own, own', r) && t in own'
    ensures IsRoot(own', t) && TopOk(vm, own, t, i) ==> TopOk(vm', own', t, i)
    ensures own'[t].part.Table? && LowOk(vm, own, t, i) ==> LowOk(vm', own', t, i)
  {
  }

  lemma OthersTables(vm: Vm, vm': Vm, own: map<nat, Owner>, own': map<nat, Owner>, base: seq<Page>, boot: nat, r: nat)
    requires Inv(vm, own, base, boot) && vm'.mem == vm.mem && OthersOf(own, own', r)
    ensures forall t, i :: IsRoot(own', t) && 0 <= i < ENTRIES ==> TopOk(vm', own', t, i)
    ensures forall q, j :: q in own' && own'[q].part.Table? && 0 <= j < ENTRIES ==> LowOk(vm', own', q, j)
  {
    hide FrameOk, TopOk, LowOk, Memory, BaseOk;
    forall t, i | IsRoot(own', t) && 0 <= i < ENTRIES
      ensures TopOk(vm', own', t, i)
    {
      assert IsRoot(own, t);
      OtherEntries(vm, vm', own, own', r, t, i);
    }
    forall q, j | q in own' && own'[q].part.Table? && 0 <= j < ENTRIES
      ensures LowOk(vm', own', q, j)
    {
      OtherEntries(vm, vm', own, own', r, q, j);
    }
  }

  lemma OthersFrames(vm: Vm, vm': Vm, own: map<nat, Owner>, own': map<nat, Owner>, base: seq<Page>, boot: nat, r: nat)
    requires Inv(vm, own, base, boot) && OthersOf(own, own', r) && Freed(vm, vm', FramesOf(own, r), boot)
    ensures Memory(vm', boot) && BaseOk(vm', own', base)
    ensures forall f :: f in own' ==> FrameOk(vm', own', f)
  {
    hide Ok, TopOk, LowOk;
    forall f | f in own'
      ensures FrameOk(vm', own', f)
    {
      assert FrameOk(vm, own, f) && f !in FramesOf(own, r);
      OtherFrame(vm, vm', own, own', r, f);
    }
  }

  /** The other address spaces are as they were. */
  lemma DestroyInv(vm: Vm, own: map<nat, Owner>, base: seq<Page>, boot: nat, r: nat)
    requires Inv(vm, own, base, boot) && IsRoot(own, r)
    ensures var own' := own - FramesOf(own, r);
      Inv(Destroy(vm, r), own', base, boot) && OthersOf(own, own', r) && Destroy(vm, r).mem == vm.mem
  {
    DestroyFrees(vm, own, base, boot, r);
    hide Destroy, Memory, BaseOk, FrameOk, TopOk, LowOk, Ok;
    var own' := own - FramesOf(own, r);
    OthersTables(vm, Destroy(vm, r), own, own', base, boot, r);
    OthersFrames(vm, Destroy(vm, r), own, own', base, boot, r);
  }
}
