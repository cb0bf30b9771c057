/** Which pages that may not be written a copy of an address space has: what the test for regions decides. */
module PageTableRegions {
  import opened Coremaps
  import opened PageTables
  import opened PageTableCopy

  /** Two intervals, each without its end, have a point in common. */
  predicate Meets(l1: nat, r1: nat, l2: nat, r2: nat) {
    l1 < r2 && l2 < r1
  }

  predicate Inside(l1: nat, r1: nat, l2: nat, r2: nat) {
    l2 < l1 && r1 < r2
  }

  /**
   * The test for an overlap says yes to intervals that meet unless the first lies strictly inside the second, and
   * to a second that ends where the first begins. So it is right if and only if neither is the case.
   */
  lemma OverlapsIff(l1: nat, r1: nat, l2: nat, r2: nat)
    requires l1 < r1 && l2 < r2
    ensures Overlaps(l1, r1, l2, r2) <==> (Meets(l1, r1, l2, r2) && !Inside(l1, r1, l2, r2)) || r2 == l1
    ensures (Overlaps(l1, r1, l2, r2) <==> Meets(l1, r1, l2, r2)) <==> !Inside(l1, r1, l2, r2) && r2 != l1
  {
  }

  function End(region: Region): nat {
    region.vaddr + region.memsize
  }

  /** The page at v and the regions end before the address space does, and no region is empty. */
  predicate Plain(v: nat, regions: seq<Region>) {
    && v + PAGE_SIZE < 0x1_0000_0000
    && forall k :: 0 <= k < |regions| ==> regions[k].memsize > 0 && End(regions[k]) < 0x1_0000_0000
  }

  predicate In(v: nat, region: Region) {
    Meets(v, v + PAGE_SIZE, region.vaddr, End(region))
  }

  predicate Deep(v: nat, region: Region) {
    Inside(v, v + PAGE_SIZE, region.vaddr, End(region))
  }

  /** Part of the page at v is in a region. */
  predicate InAny(v: nat, regions: seq<Region>) {
    exists k :: 0 <= k < |regions| && In(v, regions[k])
  }

  /**
   * A region that the test finds: one that the page is in without being deep inside it, or one that ends at the page.
   */
  predicate Seen(v: nat, region: Region) {
    (In(v, region) && !Deep(v, region)) || End(region) == v
  }

  predicate SeenAny(v: nat, regions: seq<Region>) {
    exists k :: 0 <= k < |regions| && Seen(v, regions[k])
  }

  lemma InSomeIs(v: nat, regions: seq<Region>)
    requires Plain(v, regions)
    ensures InSome(v, regions) <==> SeenAny(v, regions)
  {
    forall k | 0 <= k < |regions|
      ensures Overlaps(v, Wrap(v + PAGE_SIZE), regions[k].vaddr, Wrap(regions[k].vaddr + regions[k].memsize)) <==>
        Seen(v, regions[k])
    {
      OverlapsIff(v, v + PAGE_SIZE, regions[k].vaddr, End(regions[k]));
    }
  }

  /** What the test should have seen: a page is in a region exactly if there is a region that the test finds. */
  predicate Judged(v: nat, regions: seq<Region>) {
    if InAny(v, regions) then exists k :: 0 <= k < |regions| && Seen(v, regions[k])
    else forall k :: 0 <= k < |regions| ==> End(regions[k]) != v
  }

  /**
   * A page of the parent that is mapped and may not be written is in the copy if and only if every region it is in
   * reaches past it on both sides and no region ends where it begins. It should be there exactly if it is in no
   * region, to be loaded again otherwise; that is so if and only if a page in a region is in one that does not
   * reach past it on both sides, or begins where one ends, and a page in no region does not begin where one ends.
   */
  lemma ReadOnlyCopied(vm: Vm, own: map<nat, Owner>, base: seq<Page>, boot: nat, src: nat, dst: nat,
                       regions: seq<Region>, space: nat, n: nat)
    requires Inv(vm, own, base, boot) && IsRoot(own, src) && IsRoot(own, dst) && src != dst
    requires (forall m :: 0 <= m < PAGES ==> Mapped(vm, dst, m * PAGE_SIZE).None?)
    requires Copy(vm, src, dst, regions, space).Some?
    requires n < PAGES && Mapped(vm, src, n * PAGE_SIZE).Some? && !Writable(vm, src, n) && Plain(n * PAGE_SIZE, regions)
    ensures var v := n * PAGE_SIZE; var there := Mapped(Copy(vm, src, dst, regions, space).v, dst, v).Some?;
      && (there <==> !SeenAny(v, regions))
      && ((there <==> !InAny(v, regions)) <==> Judged(v, regions))
  {
    hide Inv, Mapped, Copy, InSome, PermsOf, Plain, InAny, Seen, Word, TableOf;
    CopyIsolates(vm, own, base, boot, src, dst, regions, space);
    InSomeIs(n * PAGE_SIZE, regions);
    JudgedIs(n * PAGE_SIZE, regions);
    assert Wanted(vm, src, regions, n) <==> !SeenAny(n * PAGE_SIZE, regions);
  }

  lemma JudgedIs(v: nat, regions: seq<Region>)
    ensures Judged(v, regions) <==> (SeenAny(v, regions) <==> InAny(v, regions))
  {
    if !InAny(v, regions) {
      assert forall k :: 0 <= k < |regions| ==> !In(v, regions[k]);
    }
  }
}
