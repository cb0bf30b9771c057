/** The kernel heap as it runs: free lists threaded through pages, packed page references, two sets of lists. */
module KheapKernel {
  import opened Arith
  import opened Coremaps
  import opened Kheaps
  import opened KheapRaw
  import opened KheapRoom
  import opened KheapTrace
  import L = KheapLive

  class KHeap {
    const cm: Coremap
    const refs: RefMap
    const prs: array<PageRef>
    const sizebases: array<int>
    var allbase: int
    const mem: array<nat>
    ghost var pages: seq<Desc>

    ghost predicate Valid()
      reads this, cm, cm.pages, refs.inuse, prs, sizebases, mem
    {
      && refs.Valid() && mem != refs.inuse && mem.Length == cm.pages.Length * (PAGE_SIZE / 4)
      && Rep(prs[..], sizebases[..], allbase, mem[..], pages)
    }

    ghost function View(): Heap
      reads this, cm, cm.pages, refs.inuse
    {
      Heap(cm.View(), refs.View(), pages)
    }

    /** No page yet. */
    constructor (cm: Coremap, mem: array<nat>)
      requires mem.Length == cm.pages.Length * (PAGE_SIZE / 4)
      ensures Valid() && this.cm == cm && this.mem == mem && fresh(prs) && fresh(sizebases) && fresh(refs.inuse)
      ensures View() == Heap(cm.View(), seq(NPAGEREFS, i => false), [])
    {
      this.cm, this.mem := cm, mem;
      refs := new RefMap();
      prs := new PageRef[NPAGEREFS](_ => PageRef(NIL, NIL, 0, 0, 0));
      sizebases := new int[NSIZES](_ => NIL);
      allbase := NIL;
      pages := [];
    }

    /** The pointer packed with a block type: a page address ends in twelve zero bits. */
    static lemma Unpack(pr: PageRef, d: Desc)
      requires pr.pab == KSEG0 + d.page * PAGE_SIZE + d.kind && d.kind < NSIZES
      ensures pr.pab % PAGE_SIZE == d.kind && pr.pab - d.kind == KSEG0 + d.page * PAGE_SIZE
    {
    }

    /** Take the head of the free list of a page that has one. */
    method DoAlloc(pr: nat, ghost i: nat, ghost boot: nat) returns (ptr: nat)
      requires Valid() && HeapShape(View(), boot) && i < |pages| && pages[i].ref == pr && pages[i].free != []
      modifies this`pages, prs
      ensures Valid() && View() == Take(old(View()), i).0 && ptr == Addr(Take(old(View()), i).1)
    {
      hide HeapShape, Listed;
      ghost var d := pages[i];
      TakeFacts(View(), boot, prs[pr], mem[..], i);
      Unpack(prs[pr], d);
      var prpage := prs[pr].pab - prs[pr].pab % PAGE_SIZE;
      var fla := prpage + prs[pr].freeOff;
      ptr := fla;
      var fl := mem[(fla - KSEG0) / 4];
      var nfree := prs[pr].nfree - 1;
      var off := if fl != 0 then fl - prpage else INVALID_OFFSET;
      RepTake(prs[..], sizebases[..], allbase, mem[..], pages, i, prs[pr].(nfree := nfree, freeOff := off));
      ghost var was := prs[..];
      prs[pr] := prs[pr].(nfree := nfree, freeOff := off);
      assert prs[..] == was[pr := prs[pr]];
      pages := pages[i := d.(free := d.free[1..])];
    }

    /** Go down the list of pages of a kind to the first with a free block. */
    method FindPage(kind: nat) returns (pr: int)
      requires Valid() && kind < NSIZES && DescsOk(pages)
      ensures pr == NIL ==> Available(pages, kind) == |pages|
      ensures pr != NIL ==> Available(pages, kind) < |pages| && pr == pages[Available(pages, kind)].ref
    {
      hide RefOk;
      ghost var l := OfKind(pages, kind);
      ghost var next := SameLinks(prs[..]);
      ghost var n := 0;
      pr := sizebases[kind];
      while pr != NIL
        invariant n <= |l| && Chain(next, pr, l[n..]) && forall j :: 0 <= j < n ==> l[j].free == []
        decreases |l| - n
      {
        assert n < |l|;
        ListedRef(prs[..], sizebases[..], allbase, mem[..], pages, kind, n);
        if prs[pr].nfree > 0 {
          AvailableIs(pages, kind, n);
          return;
        }
        assert l[n..][1..] == l[n + 1..];
        pr := prs[pr].nextSame;
        n := n + 1;
      }
      assert n == |l|;
      AvailableNot(pages, kind);
    }

    /** Thread a free list through a fresh page, from its last block to its first. */
    method Thread(d: Desc)
      requires d.kind < NSIZES && (d.page + 1) * (PAGE_SIZE / 4) <= mem.Length
      modifies mem
      ensures forall j: nat :: j < PerPage(d.kind) ==> Threaded(mem[..], d, j)
      ensures OnlyPage(old(mem[..]), mem[..], d.page)
    {
      hide WordOf, PtrTo, PerPage, Size;
      SizeFacts(d.kind);
      WordInPage(d, 0);
      ghost var was := mem[..];
      mem[WordOf(d, 0)] := 0;
      var n := PerPage(d.kind);
      for i := 1 to n
        invariant forall j: nat :: j < i ==> Threaded(mem[..], d, j)
        invariant OnlyPage(was, mem[..], d.page)
      {
        WordInPage(d, i);
        ghost var now := mem[..];
        mem[WordOf(d, i)] := PtrTo(d, i - 1);
        forall j: nat | j <= i
          ensures Threaded(mem[..], d, j)
        {
          if j < i {
            assert Threaded(now, d, j);
            WordsApart(d, j, i);
            WordInPage(d, j);
          }
        }
      }
    }

    /** Set up a page for blocks of a kind and put it at the head of both its lists. */
    method Install(d: Desc)
      requires Rep(prs[..], sizebases[..], allbase, mem[..], pages) && DescsOk(pages)
      requires d.ref < NPAGEREFS && d.kind < NSIZES && d.free == Downto(PerPage(d.kind))
      requires (d.page + 1) * (PAGE_SIZE / 4) <= mem.Length
      requires forall j :: 0 <= j < |pages| ==> pages[j].ref != d.ref && pages[j].page != d.page
      modifies this, prs, sizebases, mem
      ensures Rep(prs[..], sizebases[..], allbase, mem[..], pages) && pages == [d] + old(pages)
      ensures OnlyPage(old(mem[..]), mem[..], d.page)
    {
      hide RefOk, WordOf, PtrTo, PerPage, Size, DescsOk, Chain, OfKind, Downto;
      ghost var prs0, bases0, all0, mem0 := prs[..], sizebases[..], allbase, mem[..];
      Thread(d);
      ThreadedOk(mem[..], d);
      prs[d.ref] := PageRef(sizebases[d.kind], allbase, KSEG0 + d.page * PAGE_SIZE + d.kind, Offset(d),
                            PerPage(d.kind));
      ThreadedRef(prs[d.ref], mem[..], d);
      RepNew(prs0, bases0, all0, mem0, mem[..], pages, d, prs[d.ref]);
      sizebases[d.kind] := d.ref;
      allbase := d.ref;
      pages := [d] + pages;
      assert prs[..] == prs0[d.ref := prs[d.ref]];
      assert sizebases[..] == bases0[d.kind := d.ref];
    }

    /** A page of the heap for blocks of a kind; NIL if there is none to be had. */
    method NewPage(kind: nat, ghost boot: nat) returns (pr: int)
      requires Valid() && HeapOk(View(), boot) && kind < NSIZES
      modifies this, refs.inuse, cm, cm.pages, prs, sizebases, mem
      ensures Valid() && (pr == NIL ==> Kheaps.NewPage(old(View()), kind).None?)
      ensures pr == NIL ==> View() == old(View()) && mem[..] == old(mem[..])
      ensures pr != NIL ==> Kheaps.NewPage(old(View()), kind) == Some(View()) && pages != [] && pr == pages[0].ref
      ensures pr != NIL ==> OnlyPage(old(mem[..]), mem[..], pages[0].page)
    {
      hide Rep, WordOf, PtrTo, PerPage, Ok, FirstClear, Find, HeapShape, DescsOk, Downto, OnlyPage, Claim;
      ghost var h := View();
      ShapeDescs(h, boot);
      pr := refs.Alloc();
      if pr < 0 {
        return NIL;
      }
      LastInRange(h, boot);
      var page := cm.Get(1);
      if page < 0 {
        refs.Free(pr);
        assert refs.View() == h.refs;
        return NIL;
      }
      L.NewPageShape(h, boot, kind);
      ghost var h1 := Kheaps.NewPage(h, kind).v;
      NewDesc(h, h1, boot, kind, pr, page);
      Install(Desc(pr, page, kind, Downto(PerPage(kind))));
    }

    /** The smallest block size that will do. */
    method BlockType(sz: nat) returns (kind: nat)
      requires sz <= LARGEST
      ensures kind == KindOf(sz)
    {
      kind := 0;
      while kind < NSIZES && sz > Size(kind)
        invariant 0 <= kind <= NSIZES && forall j :: 0 <= j < kind ==> sz > Size(j)
      {
        kind := kind + 1;
      }
      assert sz <= Size(7) == LARGEST;
      assert kind < NSIZES;
    }

    /** Allocate less than the largest block size. Memory changes only in a page that was free. */
    method SubKmalloc(sz: nat, ghost boot: nat) returns (ptr: nat)
      requires Valid() && HeapOk(View(), boot) && sz < LARGEST
      modifies this, refs.inuse, cm, cm.pages, prs, sizebases, mem
      ensures Valid() && View() == SubAlloc(old(View()), sz).0
      ensures ptr == AddrOf(SubAlloc(old(View()), sz).1) && (ptr == 0 <==> NoRoom(old(View()), sz))
      ensures mem[..] == old(mem[..])
        || (pages != [] && WasFree(old(cm.View()), pages[0].page) && OnlyPage(old(mem[..]), mem[..], pages[0].page))
    {
      hide Rep, PerPage, Ok, Available, HeapShape, HeapOk, KindOf, Kheaps.NewPage, NoRoom;
      ghost var h := View();
      KmallocIff(h, boot, sz);
      var kind := BlockType(sz);
      KindRange(sz);
      HeapOkShape(h, boot);
      ShapeDescs(h, boot);
      var pr := FindPage(kind);
      if pr != NIL {
        ptr := DoAlloc(pr, Available(pages, kind), boot);
        return;
      }
      pr := NewPage(kind, boot);
      if pr == NIL {
        return 0;
      }
      L.NewPageShape(h, boot, kind);
      SizeFacts(kind);
      NewWasFree(h, boot, kind);
      ptr := DoAlloc(pr, 0, boot);
    }

    /** Walk the list of a kind to a page and link past it. */
    method RemoveSame(pr: nat, kind: nat, ghost i: nat)
      requires Listed(prs[..], sizebases[..], allbase, pages) && DistinctRefs(pages) && kind < NSIZES
      requires i < |pages| && pages[i].ref == pr && pages[i].kind == kind
      modifies prs, sizebases
      ensures SameButSame(old(prs[..]), prs[..])
      ensures Chain(SameLinks(prs[..]), sizebases[kind], Without(OfKind(pages, kind), Place(pages, i)))
      ensures forall k :: 0 <= k < NSIZES && k != kind ==> sizebases[k] == old(sizebases[k])
      ensures forall r :: 0 <= r < NPAGEREFS && prs[r].nextSame != old(prs[r]).nextSame ==> KindHasRef(pages, r, kind)
    {
      hide Chain, OfKind, Without, Place;
      ghost var l := OfKind(pages, kind);
      ghost var at := Place(pages, i);
      ghost var next := SameLinks(prs[..]);
      PlaceIs(pages, i);
      OfKindDistinct(pages, kind);
      var prev, cur := NIL, sizebases[kind];
      ghost var n := 0;
      WholeList(l);
      while cur != NIL && cur != pr
        invariant n <= at && Chain(next, cur, l[n..]) && prev == if n == 0 then NIL else l[n - 1].ref
        invariant prs[..] == old(prs[..]) && sizebases[..] == old(sizebases[..]) && (n > 0 ==> l[n - 1].ref < |next|)
        decreases at - n
      {
        ChainHead(next, cur, l, n);
        prev, cur := cur, prs[cur].nextSame;
        n := n + 1;
      }
      ChainHead(next, cur, l, n);
      assert n == at;
      ghost var prs0 := prs[..];
      if prev == NIL {
        UnlinkFirst(next, old(sizebases[kind]), l);
        sizebases[kind] := prs[pr].nextSame;
      } else {
        Unlink(next, old(sizebases[kind]), l, n);
        MemberKind(pages, kind, n - 1);
        prs[prev] := prs[prev].(nextSame := prs[pr].nextSame);
        assert SameLinks(prs[..]) == next[prev := next[pr]];
      }
      WithoutIs(l, n);
    }

    method RemoveAll(pr: nat, ghost i: nat)
      requires Chain(AllLinks(prs[..]), allbase, pages) && DistinctRefs(pages) && i < |pages| && pages[i].ref == pr
      requires prs.Length == NPAGEREFS
      modifies this`allbase, prs
      ensures SameButAll(old(prs[..]), prs[..]) && Chain(AllLinks(prs[..]), allbase, Without(pages, i))
    {
      hide Chain, Without;
      ghost var next := AllLinks(prs[..]);
      var prev, cur := NIL, allbase;
      ghost var n := 0;
      WholeList(pages);
      while cur != NIL && cur != pr
        invariant n <= i && Chain(next, cur, pages[n..]) && prev == if n == 0 then NIL else pages[n - 1].ref
        invariant prs[..] == old(prs[..]) && allbase == old(allbase) && (n > 0 ==> pages[n - 1].ref < |next|)
        decreases i - n
      {
        ChainHead(next, cur, pages, n);
        prev, cur := cur, prs[cur].nextAll;
        n := n + 1;
      }
      ChainHead(next, cur, pages, n);
      assert n == i;
      if prev == NIL {
        UnlinkFirst(next, allbase, pages);
        allbase := prs[pr].nextAll;
      } else {
        Unlink(next, allbase, pages, n);
        prs[prev] := prs[prev].(nextAll := prs[pr].nextAll);
        assert AllLinks(prs[..]) == next[prev := next[pr]];
      }
      WithoutIs(pages, n);
    }

    /** Take a page off the list of its kind and off the list of all pages. */
    method RemoveLists(pr: nat, kind: nat, ghost i: nat)
      requires Rep(prs[..], sizebases[..], allbase, mem[..], pages) && DescsOk(pages) && kind < NSIZES
      requires i < |pages| && pages[i].ref == pr && pages[i].kind == kind
      modifies this`allbase, prs, sizebases
      ensures Rep(prs[..], sizebases[..], allbase, mem[..], Without(pages, i))
    {
      hide Chain, RefOk, OfKind, Place, Without;
      ghost var prs0, bases0, all0 := prs[..], sizebases[..], allbase;
      RemoveSame(pr, kind, i);
      ghost var prs1 := prs[..];
      assert AllLinks(prs1) == AllLinks(prs0);
      RemoveAll(pr, i);
      assert SameLinks(prs[..]) == SameLinks(prs1);
      ListedRemove(prs0, prs[..], bases0, sizebases[..], all0, allbase, pages, i);
      RefsKept(prs0, prs1, prs[..], mem[..], pages, i);
    }

    /** Go down the list of all pages to the one an address lies in. */
    method FindHolder(ptr: nat) returns (pr: int)
      requires Valid() && DescsOk(pages) && ptr >= KSEG0
      ensures var i := Holding(pages, (ptr - KSEG0) / PAGE_SIZE); pr == if i < |pages| then pages[i].ref else NIL
    {
      hide RefOk, Chain, OfKind;
      ghost var next := AllLinks(prs[..]);
      ghost var n := 0;
      pr := allbase;
      WholeList(pages);
      while pr != NIL
        invariant n <= |pages| && Chain(next, pr, pages[n..])
        invariant forall j :: 0 <= j < n ==> pages[j].page != (ptr - KSEG0) / PAGE_SIZE
        decreases |pages| - n
      {
        ChainMore(next, pr, pages, n);
        ChainHead(next, pr, pages, n);
        PabOf(prs[pr], mem[..], pages[n]);
        Unpack(prs[pr], pages[n]);
        var prpage := prs[pr].pab - prs[pr].pab % PAGE_SIZE;
        InThatPage(ptr, pages[n].page);
        if prpage <= ptr < prpage + PAGE_SIZE {
          HoldingIs(pages, (ptr - KSEG0) / PAGE_SIZE, n);
          return;
        }
        pr := prs[pr].nextAll;
        n := n + 1;
      }
      ChainEnd(next, pages, n);
      HoldingNone(pages, (ptr - KSEG0) / PAGE_SIZE);
    }

    method FillDeadbeef(w: nat, n: nat)
      requires w + n <= mem.Length
      modifies mem
      ensures forall v :: 0 <= v < mem.Length ==> mem[v] == if w <= v < w + n then 0xdead_beef else old(mem[v])
    {
      for i := 0 to n
        invariant forall v :: 0 <= v < mem.Length ==> mem[v] == if w <= v < w + i then 0xdead_beef else old(mem[v])
      {
        mem[w + i] := 0xdead_beef;
      }
    }

    /** Overwrite a block and put it at the head of its page's free list. */
    method PutBack(pr: nat, w: nat, off: nat, ghost i: nat, ghost b: nat)
      requires Rep(prs[..], sizebases[..], allbase, mem[..], pages) && DescsOk(pages) && i < |pages|
      requires pages[i].ref == pr
      requires b < PerPage(pages[i].kind) && b !in pages[i].free && (pages[i].page + 1) * (PAGE_SIZE / 4) <= mem.Length
      requires w == WordOf(pages[i], b) && off == b * Size(pages[i].kind)
      modifies this`pages, prs, mem
      ensures Rep(prs[..], sizebases[..], allbase, mem[..], pages) && OnlyBlock(old(mem[..]), mem[..], old(pages)[i], b)
      ensures pages == old(pages)[i := old(pages)[i].(free := [b] + old(pages)[i].free)]
      ensures prs[pr].nfree == |pages[i].free|
    {
      hide Listed, WordOf, PtrTo, PerPage, DescsOk, Size;
      ghost var d := pages[i];
      ghost var prs0, mem0 := prs[..], mem[..];
      PutFacts(prs[pr], mem[..], pages, i, b);
      Unpack(prs[pr], d);
      FillDeadbeef(w, Size(prs[pr].pab % PAGE_SIZE) / 4);
      if prs[pr].freeOff == INVALID_OFFSET {
        mem[w] := 0;
      } else {
        mem[w] := prs[pr].pab - prs[pr].pab % PAGE_SIZE + prs[pr].freeOff;
      }
      assert OnlyBlock(mem0, mem[..], d, b);
      RepPut(prs0, sizebases[..], allbase, mem0, mem[..], pages, i, b,
             prs[pr].(nfree := prs[pr].nfree + 1, freeOff := off));
      prs[pr] := prs[pr].(nfree := prs[pr].nfree + 1, freeOff := off);
      assert prs[..] == prs0[pr := prs[pr]];
      pages := pages[i := d.(free := [b] + d.free)];
    }

    /** The page's last block in use has been freed: off the lists, back to the coremap, and its reference with it. */
    method GiveUp(pr: nat, page: nat, kind: nat, ghost i: nat, ghost h: Heap, ghost boot: nat)
      requires Valid() && HeapOk(h, boot) && i < |h.pages| && kind < NSIZES && h.cm == cm.View()
      requires h.refs == refs.View()
      requires |pages| == |h.pages| && pages[i].ref == pr == h.pages[i].ref && pages[i].page == page == h.pages[i].page
      requires pages[i].kind == kind
      requires DescsOk(pages) && pages == h.pages[i := pages[i]]
      modifies this, refs.inuse, cm, cm.pages, prs, sizebases
      ensures Valid() && View() == Heap(FreePages(h.cm, page), h.refs[pr := false], Without(h.pages, i))
    {
      hide Rep, Ok, Chain, RefOk;
      assert DescShape(h, h.pages[i]);
      RemoveLists(pr, kind, i);
      pages := Without(pages, i);
      assert pages == Without(h.pages, i);
      cm.Free(page, boot);
      refs.Free(pr);
    }

    /** Free a block of a heap page. Only that block is written. False: the address is not in a heap page. */
    method SubKfree(ptr: nat, ghost x: Block, ghost boot: nat) returns (found: bool)
      requires Valid() && HeapOk(View(), boot) && Live(View(), x) && ptr == Addr(x)
      modifies this, refs.inuse, cm, cm.pages, prs, sizebases, mem
      ensures Valid() && found == x.Sub?
      ensures found ==> View() == Kheaps.Kfree(old(View()), x) && OnlyBytes(old(mem[..]), mem[..], x)
      ensures !found ==> View() == old(View()) && mem[..] == old(mem[..]) && Holding(pages, x.page) == |pages|
    {
      hide Rep, PerPage, Ok, HeapShape, HeapOk, Size, DescsOk, Kheaps.Kfree, Live, LiveIn, WordOf, PtrTo, Holding;
      hide OnlyBlock, OnlyBytes, FreePages;
      ghost var h := View();
      HeapOkShape(h, boot);
      ShapeDescs(h, boot);
      FreeFacts(h, boot, x);
      var pr := FindHolder(ptr);
      if pr == NIL {
        return false;
      }
      ghost var i := Holding(pages, x.page);
      ghost var d := pages[i];
      RepRef(prs[..], sizebases[..], allbase, mem[..], pages, i);
      PabOf(prs[pr], mem[..], d);
      Unpack(prs[pr], d);
      var kind := prs[pr].pab % PAGE_SIZE;
      var prpage := prs[pr].pab - kind;
      var offset := ptr - prpage;
      SizeFacts(kind);
      assert offset % Size(kind) == 0;
      PutBack(pr, (ptr - KSEG0) / 4, offset, i, x.b);
      PutDescs(h.pages, i, x.b);
      BlockBytes(old(mem[..]), mem[..], d, x);
      if prs[pr].nfree == PerPage(kind) {
        GiveUp(pr, (prpage - KSEG0) / PAGE_SIZE, kind, i, h, boot);
      }
      KfreeIs(h, boot, x, i);
      return true;
    }

    /** Allocate: whole pages for a large request, a block of a page otherwise. 0 if there is no room. */
    method Kmalloc(sz: nat, ghost boot: nat) returns (ptr: nat)
      requires Valid() && HeapOk(View(), boot)
      modifies this, refs.inuse, cm, cm.pages, prs, sizebases, mem
      ensures Valid() && View() == Kheaps.Kmalloc(old(View()), sz).0 && ptr == AddrOf(Kheaps.Kmalloc(old(View()), sz).1)
      ensures mem[..] == old(mem[..])
        || (pages != [] && WasFree(old(cm.View()), pages[0].page) && OnlyPage(old(mem[..]), mem[..], pages[0].page))
      ensures ptr == 0 <==> NoRoom(old(View()), sz)
      ensures Happens(Sys(old(View()), old(mem[..])), Called(L.Malloc(sz)), Sys(View(), mem[..]))
    {
      hide Rep, Ok, HeapShape, Find, Claim, SubAlloc, Live, Covers, NoRoom;
      ghost var h, was := View(), mem[..];
      KmallocIff(h, boot, sz);
      if sz >= LARGEST {
        LastInRange(View(), boot);
        var npages := (sz + PAGE_SIZE - 1) / PAGE_SIZE;
        var page := cm.Get(npages);
        if page < 0 {
          return 0;
        }
        return KSEG0 + page * PAGE_SIZE;
      }
      ptr := SubKmalloc(sz, boot);
      if mem[..] != was {
        MallocSpares(h, boot, pages[0].page, was, mem[..]);
      }
    }

    /** Free a block in use, given its address; the null pointer frees nothing. No other block in use is written. */
    method Kfree(ptr: nat, ghost x: Block, ghost boot: nat)
      requires Valid() && HeapOk(View(), boot) && (ptr != 0 ==> Live(View(), x) && ptr == Addr(x))
      modifies this, refs.inuse, cm, cm.pages, prs, sizebases, mem
      ensures Valid() && (ptr == 0 ==> View() == old(View()) && mem[..] == old(mem[..]))
      ensures ptr != 0 ==> x.page < |old(View()).cm.pages| && View() == Kheaps.Kfree(old(View()), x)
      ensures ptr != 0 ==> OnlyBytes(old(mem[..]), mem[..], x)
      ensures ptr != 0 ==> Happens(Sys(old(View()), old(mem[..])), Called(L.Free(x)), Sys(View(), mem[..]))
    {
      hide Rep, Ok, HeapShape, FreePages, Live, Holding, Covers, OnlyBytes;
      if ptr == 0 {
        return;
      }
      ghost var h := View();
      FreeFacts(h, boot, x);
      var found := SubKfree(ptr, x, boot);
      if !found {
        LastInRange(h, boot);
        assert ptr % PAGE_SIZE == 0;
        cm.Free((ptr - KSEG0) / PAGE_SIZE, boot);
        NothingWritten(mem[..], x);
      }
      FreeSpares(h, boot, x, old(mem[..]), mem[..]);
    }
  }

  /** Memory has changed only in a block. */
  ghost predicate OnlyBytes(mem: seq<nat>, mem': seq<nat>, x: Block) {
    |mem'| == |mem| && forall w :: 0 <= w < |mem| && !(Addr(x) <= KSEG0 + 4 * w < Addr(x) + Bytes(x)) ==>
        mem'[w] == mem[w]
  }

  /** What a block in use says of the page it is in. */
  lemma FreeFacts(h: Heap, boot: nat, x: Block)
    requires HeapOk(h, boot) && Live(h, x)
    ensures Addr(x) >= KSEG0 && (Addr(x) - KSEG0) / PAGE_SIZE == x.page < |h.cm.pages|
    ensures x.Big? ==> Holding(h.pages, x.page) == |h.pages|
    ensures x.Sub? ==>
      var i := Holding(h.pages, x.page);
      && i < |h.pages| && LiveIn(h.pages[i], x) && x.kind < NSIZES && x.b < PerPage(x.kind) && x.b !in h.pages[i].free
      && h.pages[i].kind == x.kind
      && Addr(x) == KSEG0 + x.page * PAGE_SIZE + x.b * Size(x.kind) && (Addr(x) - KSEG0) / 4 == WordOf(h.pages[i], x.b)
      && (x.b * Size(x.kind)) % Size(x.kind) == 0 && h.pages[i].page == x.page
  {
    hide Ok;
    if x.Sub? {
      var i := LiveSub(h, boot, x);
      assert Holding(h.pages, x.page) == i;
      SubInPage(x);
      WordInPage(h.pages[i], x.b);
      SizeFacts(x.kind);
      MultipleMod(x.b, Size(x.kind));
    }
  }

  lemma MultipleMod(b: nat, s: nat)
    requires s > 0
    ensures (b * s) % s == 0
  {
    DivUnique(b * s, b, 0, s);
  }

  lemma BlockBytes(mem: seq<nat>, mem': seq<nat>, d: Desc, x: Block)
    requires x.Sub? && OnlyBlock(mem, mem', d, x.b) && d.page == x.page && d.kind == x.kind < NSIZES
    requires x.b < PerPage(x.kind)
    ensures OnlyBytes(mem, mem', x)
  {
    WordInPage(d, x.b);
    SizeFacts(x.kind);
    assert Size(x.kind) == 4 * (Size(x.kind) / 4);
  }

  lemma RepRef(prs: seq<PageRef>, bases: seq<int>, all: int, mem: seq<nat>, pages: seq<Desc>, i: nat)
    requires Rep(prs, bases, all, mem, pages) && i < |pages|
    ensures pages[i].ref < |prs| == NPAGEREFS && RefOk(prs[pages[i].ref], mem, pages[i])
  {
  }

  lemma PutDescs(pages: seq<Desc>, i: nat, b: nat)
    requires DescsOk(pages) && i < |pages| && b < PerPage(pages[i].kind)
    ensures DescsOk(pages[i := pages[i].(free := [b] + pages[i].free)])
  {
    hide PerPage;
  }

  lemma KfreeIs(h: Heap, boot: nat, x: Block, i: nat)
    requires HeapOk(h, boot) && x.Sub? && x.page < |h.cm.pages| && i == Holding(h.pages, x.page) < |h.pages|
    requires h.pages[i].kind == x.kind
    ensures var d := h.pages[i];
      Kfree(h, x) ==
        if |d.free| + 1 == PerPage(d.kind) then
          Heap(FreePages(h.cm, x.page), h.refs[d.ref := false], Without(h.pages, i))
        else h.(pages := h.pages[i := d.(free := [x.b] + d.free)])
  {
    hide Ok, PerPage;
    assert DescShape(h, h.pages[i]);
  }

  lemma ChainMore(next: seq<int>, cur: int, l: seq<Desc>, n: nat)
    requires n <= |l| && Chain(next, cur, l[n..]) && cur != NIL
    ensures n < |l|
  {
  }

  lemma ChainEnd(next: seq<int>, l: seq<Desc>, n: nat)
    requires n <= |l| && Chain(next, NIL, l[n..])
    ensures n == |l|
  {
  }

  lemma PabOf(pr: PageRef, mem: seq<nat>, d: Desc)
    requires RefOk(pr, mem, d)
    ensures pr.pab == KSEG0 + d.page * PAGE_SIZE + d.kind && pr.nfree == |d.free| && pr.freeOff == Offset(d)
  {
  }

  lemma InThatPage(ptr: nat, page: nat)
    requires ptr >= KSEG0
    ensures KSEG0 + page * PAGE_SIZE <= ptr < KSEG0 + page * PAGE_SIZE + PAGE_SIZE <==>
      page == (ptr - KSEG0) / PAGE_SIZE
  {
  }

  lemma HoldingIs(pages: seq<Desc>, p: nat, n: nat)
    requires n < |pages| && pages[n].page == p && forall j :: 0 <= j < n ==> pages[j].page != p
    ensures Holding(pages, p) == n
  {
    hide Holding;
    var i := Holding(pages, p);
  }

  lemma HoldingNone(pages: seq<Desc>, p: nat)
    requires forall j :: 0 <= j < |pages| ==> pages[j].page != p
    ensures Holding(pages, p) == |pages|
  {
    hide Holding;
    var i := Holding(pages, p);
  }

  lemma PutFacts(pr: PageRef, mem: seq<nat>, pages: seq<Desc>, i: nat, b: nat)
    requires DescsOk(pages) && i < |pages| && RefOk(pr, mem, pages[i]) && b < PerPage(pages[i].kind)
    requires (pages[i].page + 1) * (PAGE_SIZE / 4) <= |mem|
    ensures var d := pages[i];
      && d.kind < NSIZES && pr.pab == KSEG0 + d.page * PAGE_SIZE + d.kind && WordOf(d, b) + Size(d.kind) / 4 <= |mem|
      && Size(d.kind) / 4 > 0
      && (pr.freeOff == INVALID_OFFSET <==> d.free == [])
      && (d.free != [] ==> KSEG0 + d.page * PAGE_SIZE + pr.freeOff == PtrTo(d, d.free[0]))
  {
    var d := pages[i];
    WordInPage(d, b);
    if d.free != [] {
      assert d.free[0] in d.free;
      WordInPage(d, d.free[0]);
    }
  }

  lemma RefsKept(prs0: seq<PageRef>, prs1: seq<PageRef>, prs2: seq<PageRef>, mem: seq<nat>, pages: seq<Desc>, i: nat)
    requires SameButSame(prs0, prs1) && SameButAll(prs1, prs2) && i < |pages|
    requires forall j :: 0 <= j < |pages| ==> pages[j].ref < |prs0| && RefOk(prs0[pages[j].ref], mem, pages[j])
    ensures forall j :: 0 <= j < |Without(pages, i)| ==>
      Without(pages, i)[j].ref < |prs2| && RefOk(prs2[Without(pages, i)[j].ref], mem, Without(pages, i)[j])
  {
    var r := Without(pages, i);
    forall j | 0 <= j < |r|
      ensures r[j].ref < |prs2| && RefOk(prs2[r[j].ref], mem, r[j])
    {
      var k := if j < i then j else j + 1;
      assert r[j] == pages[k] && RefOk(prs0[pages[k].ref], mem, pages[k]);
    }
  }

  lemma MemberKind(pages: seq<Desc>, kind: nat, n: nat)
    requires n < |OfKind(pages, kind)|
    ensures KindHasRef(pages, OfKind(pages, kind)[n].ref, kind)
  {
    OfKindIn(pages, kind, OfKind(pages, kind)[n]);
    var j :| 0 <= j < |pages| && pages[j] == OfKind(pages, kind)[n];
  }

  lemma WholeList(l: seq<Desc>)
    ensures l[0..] == l
  {
  }

  lemma WithoutIs(l: seq<Desc>, n: nat)
    requires n < |l|
    ensures Without(l, n) == l[..n] + l[n + 1..]
  {
  }

  lemma ChainHead(next: seq<int>, cur: int, l: seq<Desc>, n: nat)
    requires n < |l| && Chain(next, cur, l[n..])
    ensures cur == l[n].ref < |next| && cur != NIL && Chain(next, next[cur], l[n + 1..])
  {
    assert l[n..][1..] == l[n + 1..];
  }

  function AddrOf(r: Option<Block>): nat {
    match r
    case None => 0
    case Some(x) => Addr(x)
  }

  ghost predicate WasFree(m: Map, p: nat) {
    p < |m.pages| && m.pages[p].state == FREE
  }

  lemma KindRange(sz: nat)
    ensures KindOf(sz) < NSIZES
  {
  }

  lemma HeapOkShape(h: Heap, boot: nat)
    requires HeapOk(h, boot)
    ensures HeapShape(h, boot)
  {
  }

  lemma NewWasFree(h: Heap, boot: nat, kind: nat)
    requires HeapOk(h, boot) && kind < NSIZES && Kheaps.NewPage(h, kind).Some?
    ensures |Kheaps.NewPage(h, kind).v.pages| > 0 && WasFree(h.cm, Kheaps.NewPage(h, kind).v.pages[0].page)
  {
    GetPagesOk(h.cm, boot, 1);
  }

  ghost predicate OnlyPage(mem: seq<nat>, mem': seq<nat>, p: nat) {
    |mem'| == |mem| && forall w :: 0 <= w < |mem| && !(p * (PAGE_SIZE / 4) <= w < (p + 1) * (PAGE_SIZE / 4)) ==>
        mem'[w] == mem[w]
  }

  ghost predicate Threaded(mem: seq<nat>, d: Desc, j: nat) {
    WordOf(d, j) < |mem| && mem[WordOf(d, j)] == if j == 0 then 0 else PtrTo(d, j - 1)
  }

  lemma ThreadedOk(mem: seq<nat>, d: Desc)
    requires d.kind < NSIZES && d.free == Downto(PerPage(d.kind)) && forall j: nat :: j < PerPage(d.kind) ==>
      Threaded(mem, d, j)
    ensures forall i :: 0 <= i < |d.free| ==> FreeWord(mem, d, i)
  {
    hide WordOf, PtrTo, PerPage;
    forall i | 0 <= i < |d.free|
      ensures FreeWord(mem, d, i)
    {
      assert Threaded(mem, d, d.free[i]);
    }
  }

  lemma ThreadedRef(pr: PageRef, mem: seq<nat>, d: Desc)
    requires pr.pab == KSEG0 + d.page * PAGE_SIZE + d.kind && pr.nfree == PerPage(d.kind) == |d.free|
    requires pr.freeOff == Offset(d)
    requires forall i :: 0 <= i < |d.free| ==> FreeWord(mem, d, i)
    ensures RefOk(pr, mem, d)
  {
  }

  lemma ShapeDescs(h: Heap, boot: nat)
    requires HeapShape(h, boot)
    ensures DescsOk(h.pages)
  {
    forall i | 0 <= i < |h.pages|
      ensures h.pages[i].kind < NSIZES && forall b :: b in h.pages[i].free ==> b < PerPage(h.pages[i].kind)
    {
      assert DescShape(h, h.pages[i]);
    }
  }

  lemma LastInRange(h: Heap, boot: nat)
    requires HeapShape(h, boot)
    ensures Ok(h.cm, boot) && h.cm.last <= |h.cm.pages|
  {
  }

  lemma NewDesc(h: Heap, h1: Heap, boot: nat, kind: nat, pr: nat, page: nat)
    requires HeapShape(h, boot) && HeapShape(h1, boot) && |h1.pages| > 0 && h1.pages[1..] == h.pages
    requires h1.pages[0] == Desc(pr, page, kind, Downto(PerPage(kind))) && |h1.cm.pages| == |h.cm.pages|
    ensures forall j :: 0 <= j < |h.pages| ==> h.pages[j].ref != pr && h.pages[j].page != page
    ensures page < |h.cm.pages|
  {
    assert DescShape(h1, h1.pages[0]);
    forall j | 0 <= j < |h.pages|
      ensures h.pages[j].ref != pr && h.pages[j].page != page
    {
      assert h1.pages[j + 1] == h.pages[j];
    }
  }

  /** What a reference on the list of a kind says of its page. */
  lemma ListedRef(prs: seq<PageRef>, bases: seq<int>, all: int, mem: seq<nat>, pages: seq<Desc>, kind: nat, n: nat)
    requires Rep(prs, bases, all, mem, pages) && n < |OfKind(pages, kind)|
    ensures var d := OfKind(pages, kind)[n]; d.ref < |prs| && d.kind == kind && RefOk(prs[d.ref], mem, d)
  {
    var d := OfKind(pages, kind)[n];
    OfKindIn(pages, kind, d);
  }

  lemma {:induction false} AvailableIs(ds: seq<Desc>, kind: nat, n: nat)
    requires n < |OfKind(ds, kind)| && OfKind(ds, kind)[n].free != []
    requires forall j :: 0 <= j < n ==> OfKind(ds, kind)[j].free == []
    ensures Available(ds, kind) < |ds| && ds[Available(ds, kind)] == OfKind(ds, kind)[n]
  {
    var r := OfKind(ds[1..], kind);
    if ds[0].kind == kind {
      assert OfKind(ds, kind) == [ds[0]] + r;
      if n > 0 {
        assert OfKind(ds, kind)[0] == ds[0];
        forall j | 0 <= j < n - 1
          ensures r[j].free == []
        {
          assert OfKind(ds, kind)[j + 1] == r[j];
        }
        AvailableIs(ds[1..], kind, n - 1);
      }
    } else {
      assert OfKind(ds, kind) == r;
      AvailableIs(ds[1..], kind, n);
    }
  }

  lemma {:induction false} AvailableNot(ds: seq<Desc>, kind: nat)
    requires forall j :: 0 <= j < |OfKind(ds, kind)| ==> OfKind(ds, kind)[j].free == []
    ensures Available(ds, kind) == |ds|
  {
    if ds != [] {
      var r := OfKind(ds[1..], kind);
      forall j | 0 <= j < |r|
        ensures r[j].free == []
      {
        assert OfKind(ds, kind)[if ds[0].kind == kind then j + 1 else j] == r[j];
      }
      AvailableNot(ds[1..], kind);
      assert ds[0].kind == kind ==> OfKind(ds, kind)[0] == ds[0];
    }
  }

  /** What the first word of the first free block says. */
  lemma TakeFacts(h: Heap, boot: nat, pr: PageRef, mem: seq<nat>, i: nat)
    requires HeapShape(h, boot) && i < |h.pages| && h.pages[i].free != [] && RefOk(pr, mem, h.pages[i])
    ensures var d := h.pages[i]; var w := WordOf(d, d.free[0]); var base := KSEG0 + d.page * PAGE_SIZE;
      && d.kind < NSIZES && base + pr.freeOff == KSEG0 + 4 * w == PtrTo(d, d.free[0]) && w < |mem|
      && DistinctRefs(h.pages)
      && (mem[w] == 0 <==> |d.free| == 1)
      && (if mem[w] != 0 then mem[w] - base else INVALID_OFFSET) == Offset(d.(free := d.free[1..]))
  {
    var d := h.pages[i];
    assert DescShape(h, d);
    assert FreeWord(mem, d, 0);
    assert d.free[0] in d.free;
    WordInPage(d, d.free[0]);
  }

  // ---- Blocks in use are not written --------------------------------------

  lemma NothingWritten(mem: seq<nat>, x: Block)
    ensures OnlyBytes(mem, mem, x)
  {
  }

  /** Freeing a block leaves every word of every other block in use as it was. */
  lemma FreeSparesOthers(h: Heap, boot: nat, x: Block, y: Block, mem: seq<nat>, mem': seq<nat>, w: nat)
    requires HeapOk(h, boot) && Live(h, x) && Live(h, y) && x != y && OnlyBytes(mem, mem', x)
    requires w < |mem| && Covers(y, KSEG0 + 4 * w)
    ensures mem'[w] == mem[w]
  {
    LiveDisjoint(h, boot, x, y);
    assert !Covers(x, KSEG0 + 4 * w);
  }

  /** Allocating, which writes at most in a page that was free, leaves every word of every block in use as it was. */
  lemma MallocSparesLive(h: Heap, boot: nat, p: nat, y: Block, mem: seq<nat>, mem': seq<nat>, w: nat)
    requires HeapOk(h, boot) && WasFree(h.cm, p) && Live(h, y) && OnlyPage(mem, mem', p)
    requires w < |mem| && Covers(y, KSEG0 + 4 * w)
    ensures mem'[w] == mem[w]
  {
    if y.Sub? { var i := LiveSub(h, boot, y); }
    BytesInPages(y, KSEG0 + 4 * w);
    var q := (KSEG0 + 4 * w - KSEG0) / PAGE_SIZE;
    LivePages(h, boot, y, q);
    assert PageOk(h.cm.pages, boot, y.page);
    assert q != p;
  }

  lemma FreeSpares(h: Heap, boot: nat, x: Block, mem: seq<nat>, mem': seq<nat>)
    requires HeapOk(h, boot) && Live(h, x) && OnlyBytes(mem, mem', x)
    ensures forall h' :: Spared(Sys(h, mem), Sys(h', mem'), L.Free(x))
  {
    hide HeapOk, Live, Covers;
    forall y, w: nat | Live(h, y) && y != x && w < |mem| && Covers(y, KSEG0 + 4 * w)
      ensures mem'[w] == mem[w]
    {
      FreeSparesOthers(h, boot, x, y, mem, mem', w);
    }
  }

  lemma MallocSpares(h: Heap, boot: nat, p: nat, mem: seq<nat>, mem': seq<nat>)
    requires HeapOk(h, boot) && WasFree(h.cm, p) && OnlyPage(mem, mem', p)
    ensures forall h', sz :: Spared(Sys(h, mem), Sys(h', mem'), L.Malloc(sz))
  {
    hide HeapOk, Live, Covers;
    forall y, w: nat | Live(h, y) && w < |mem| && Covers(y, KSEG0 + 4 * w)
      ensures mem'[w] == mem[w]
    {
      MallocSparesLive(h, boot, p, y, mem, mem', w);
    }
  }
}
