/** When the heap has a block to give, and what giving it takes from the coremap. */
module KheapRoom {
  import opened Coremaps
  import opened Kheaps

  /** The smallest block size that will do. */
  predicate Fits(sz: nat, kind: nat) {
    kind < NSIZES && sz <= Size(kind) && forall j :: 0 <= j < kind ==> Size(j) < sz
  }

  /** Some heap page of that size has a free block. */
  ghost predicate Spare(h: Heap, sz: nat) {
    exists i :: 0 <= i < |h.pages| && Fits(sz, h.pages[i].kind) && h.pages[i].free != []
  }

  ghost predicate RefsGone(h: Heap) {
    forall r :: 0 <= r < |h.refs| ==> h.refs[r]
  }

  ghost predicate PagesGone(h: Heap) {
    forall p :: 0 <= p < |h.cm.pages| ==> h.cm.pages[p].state != FREE
  }

  /** As many whole pages as it takes. */
  function WholePages(sz: nat): (n: nat)
    ensures sz <= n * PAGE_SIZE < sz + PAGE_SIZE
  {
    (sz + PAGE_SIZE - 1) / PAGE_SIZE
  }

  /**
   * A small block is to be had from a page of its size or from a new page; a large one only where a run of free pages
   * lies wholly below, or wholly at or above, the place where the last search ended.
   */
  ghost predicate NoRoom(h: Heap, sz: nat) {
    if sz < LARGEST then !Spare(h, sz) && (RefsGone(h) || PagesGone(h))
    else forall q: nat :: q >= h.cm.last || q + WholePages(sz) <= h.cm.last ==> !FreeRun(h.cm.pages, q, WholePages(sz))
  }

  lemma SpareIs(h: Heap, sz: nat)
    requires sz < LARGEST
    ensures Spare(h, sz) <==> Available(h.pages, KindOf(sz)) < |h.pages|
  {
    var i := Available(h.pages, KindOf(sz));
    assert i < |h.pages| ==> Fits(sz, h.pages[i].kind) && h.pages[i].free != [];
    forall k | Fits(sz, k)
      ensures k == KindOf(sz)
    {
    }
  }

  lemma NoPage(m: Map, boot: nat)
    requires Ok(m, boot)
    ensures GetPages(m, 1).1.None? <==> forall p :: 0 <= p < |m.pages| ==> m.pages[p].state != FREE
  {
    hide Ok, GetPages;
    GetPagesFails(m, 1);
    if p: nat :| p < |m.pages| && m.pages[p].state == FREE {
      assert FreeRun(m.pages, p, 1);
    } else {
      forall q: nat
        ensures !FreeRun(m.pages, q, 1)
      {
        assert q < |m.pages| ==> m.pages[q].state != FREE;
      }
    }
  }

  lemma NewPageIff(h: Heap, boot: nat, kind: nat)
    requires HeapOk(h, boot)
    ensures NewPage(h, kind).None? <==> RefsGone(h) || PagesGone(h)
  {
    hide GetPages, Ok, Downto;
    NoPage(h.cm, boot);
    var r := FirstClear(h.refs);
    assert RefsGone(h) <==> r == |h.refs|;
  }

  /** An allocation fails exactly if there is no room for it. */
  lemma KmallocIff(h: Heap, boot: nat, sz: nat)
    requires HeapOk(h, boot)
    ensures Kmalloc(h, sz).1.None? <==> NoRoom(h, sz)
  {
    hide HeapOk, NewPage, RefsGone, PagesGone, Spare, GetPages, Size, PerPage;
    if sz < LARGEST {
      SpareIs(h, sz);
      NewPageIff(h, boot, KindOf(sz));
      if NewPage(h, KindOf(sz)).Some? {
        NewPageFree(h, KindOf(sz));
      }
    } else {
      GetPagesFails(h.cm, WholePages(sz));
    }
  }

  lemma NewPageFree(h: Heap, kind: nat)
    requires NewPage(h, kind).Some? && kind < NSIZES
    ensures var h1 := NewPage(h, kind).v; h1.pages != [] && h1.pages[0].free != []
  {
    hide GetPages;
    SizeFacts(kind);
  }

  /** How many pages of the coremap an allocation takes: none while a page of the right size has a free block. */
  ghost function Taken(h: Heap, sz: nat): nat {
    if sz >= LARGEST then WholePages(sz) else if Spare(h, sz) then 0 else 1
  }

  lemma GetPagesUses(m: Map, n: nat)
    requires n > 0
    ensures GetPages(m, n).0.inUse == m.inUse + if GetPages(m, n).1.Some? then n else 0
  {
    hide Find;
  }

  /** An allocation takes that many pages, and a page reference exactly if it takes a page for small blocks. */
  lemma KmallocTakes(h: Heap, boot: nat, sz: nat)
    requires HeapOk(h, boot) && Kmalloc(h, sz).1.Some?
    ensures var h' := Kmalloc(h, sz).0;
      && h'.cm.inUse == h.cm.inUse + Taken(h, sz)
      && |h'.pages| == |h.pages| + (if sz < LARGEST then Taken(h, sz) else 0)
      && (Taken(h, sz) == 0 || sz >= LARGEST ==> h'.refs == h.refs)
      && (Taken(h, sz) == 0 ==> h'.cm == h.cm)
  {
    hide HeapOk, Spare, GetPages, Size, PerPage;
    if sz < LARGEST {
      SpareIs(h, sz);
      GetPagesUses(h.cm, 1);
    } else {
      GetPagesUses(h.cm, WholePages(sz));
    }
  }
}
