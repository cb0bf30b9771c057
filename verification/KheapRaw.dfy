/** The words, links and lists in which the kernel keeps its heap. */
module KheapRaw {
  import opened BitOps
  import opened Coremaps
  import opened Kheaps

  // ---- Page references in use ---------------------------------------------

  const WORDBITS := 32

  predicate RefBit(words: seq<nat>, j: nat)
    requires j < WORDBITS * |words|
  {
    BitOf(words[j / WORDBITS], j % WORDBITS)
  }

  function RefBits(words: seq<nat>): (s: seq<bool>)
    ensures |s| == WORDBITS * |words| && forall j :: 0 <= j < |s| ==> s[j] == RefBit(words, j)
  {
    seq(WORDBITS * |words|, j requires 0 <= j < WORDBITS * |words| => RefBit(words, j))
  }

  lemma SetRefBit(words: seq<nat>, i: nat, k: nat)
    requires i < |words| && k < WORDBITS
    ensures RefBits(words[i := SetBit(words[i], k)]) == RefBits(words)[WORDBITS * i + k := true]
    ensures RefBits(words[i := ClearBit(words[i], k)]) == RefBits(words)[WORDBITS * i + k := false]
  {
    forall j: nat | j < WORDBITS * |words|
      ensures RefBit(words[i := SetBit(words[i], k)], j) == (RefBit(words, j) || j == WORDBITS * i + k)
      ensures RefBit(words[i := ClearBit(words[i], k)], j) == (RefBit(words, j) && j != WORDBITS * i + k)
    {
      SetBitAt(words[i], k, j % WORDBITS);
      ClearBitAt(words[i], k, j % WORDBITS);
      assert j == WORDBITS * (j / WORDBITS) + j % WORDBITS;
    }
  }

  class RefMap {
    const inuse: array<nat>

    ghost predicate Valid()
      reads inuse
    {
      inuse.Length == NPAGEREFS / WORDBITS && forall i :: 0 <= i < inuse.Length ==> inuse[i] <= 0xffff_ffff
    }

    ghost function View(): (s: seq<bool>)
      reads inuse
    {
      RefBits(inuse[..])
    }

    constructor ()
      ensures Valid() && fresh(inuse) && View() == seq(NPAGEREFS, i => false)
    {
      var a := new nat[NPAGEREFS / WORDBITS](_ => 0);
      inuse := a;
      new;
      forall j: nat | j < NPAGEREFS
        ensures !RefBit(a[..], j)
      {
        ZeroBit(j % WORDBITS);
      }
    }

    /** The first reference not in use, or -1. */
    method Alloc() returns (r: int)
      requires Valid()
      modifies inuse
      ensures Valid() && r >= -1
      ensures r >= 0 ==> r == FirstClear(old(View())) < NPAGEREFS && View() == old(View())[r := true]
      ensures r < 0 ==> FirstClear(old(View())) == NPAGEREFS && View() == old(View())
    {
      for i := 0 to inuse.Length
        invariant inuse[..] == old(inuse[..]) && forall j: nat :: j < WORDBITS * i ==> RefBit(inuse[..], j)
      {
        if inuse[i] == 0xffff_ffff {
          FullWord(inuse[..], i);
          continue;
        }
        var k := 0;
        while k < WORDBITS && BitOf(inuse[i], k)
          invariant inuse[..] == old(inuse[..])
          invariant 0 <= k <= WORDBITS && forall j :: 0 <= j < k ==> BitOf(inuse[i], j)
        {
          k := k + 1;
        }
        NotFull(inuse[i], k);
        r := i * WORDBITS + k;
        FirstInWord(inuse[..], i, k);
        SetRefBit(inuse[..], i, k);
        SetFits(inuse[i], k);
        inuse[i] := SetBit(inuse[i], k);
        assert inuse[..] == old(inuse[..])[i := SetBit(old(inuse[i]), k)];
        return;
      }
      NoneClear(View());
      return -1;
    }

    method Free(j: nat)
      requires Valid() && j < NPAGEREFS && View()[j]
      modifies inuse
      ensures Valid() && View() == old(View())[j := false]
    {
      var i := j / WORDBITS;
      var k := j % WORDBITS;
      assert BitOf(inuse[i], k);
      SetRefBit(inuse[..], i, k);
      assert ClearBit(inuse[i], k) <= inuse[i];
      inuse[i] := ClearBit(inuse[i], k);
      assert inuse[..] == old(inuse[..])[i := ClearBit(old(inuse[i]), k)];
    }
  }

  lemma Word32()
    ensures Pow2(32) == 0x1_0000_0000
  {
    assert Pow2(8) == 256;
    assert Pow2(16) == 0x1_0000;
    assert Pow2(24) == 0x100_0000;
  }

  lemma SetFits(x: nat, k: nat)
    requires x <= 0xffff_ffff && k < WORDBITS
    ensures SetBit(x, k) <= 0xffff_ffff
  {
    Word32();
    SetBitFits(x, k, 32);
  }

  lemma FullWord(words: seq<nat>, i: nat)
    requires i < |words| && words[i] == 0xffff_ffff
    ensures forall j: nat :: WORDBITS * i <= j < WORDBITS * (i + 1) ==> RefBit(words, j)
  {
    Word32();
    forall j: nat | WORDBITS * i <= j < WORDBITS * (i + 1)
      ensures RefBit(words, j)
    {
      OnesBit(32, j % WORDBITS);
    }
  }

  lemma NotFull(x: nat, k: nat)
    requires x < 0xffff_ffff && k <= WORDBITS && forall j :: 0 <= j < k ==> BitOf(x, j)
    ensures k < WORDBITS
  {
    if k == WORDBITS {
      Word32();
      AllBits(x, 32);
    }
  }

  lemma FirstInWord(words: seq<nat>, i: nat, k: nat)
    requires i < |words| && k < WORDBITS && !BitOf(words[i], k)
    requires forall j: nat :: j < WORDBITS * i ==> RefBit(words, j)
    requires forall j :: 0 <= j < k ==> BitOf(words[i], j)
    ensures FirstClear(RefBits(words)) == i * WORDBITS + k
  {
    var s := RefBits(words);
    var r := i * WORDBITS + k;
    assert !RefBit(words, r);
    forall j: nat | j < r
      ensures s[j]
    {
      if j >= WORDBITS * i { assert j % WORDBITS == j - WORDBITS * i && j / WORDBITS == i; }
    }
    FirstClearIs(s, r);
  }

  lemma FirstClearIs(s: seq<bool>, r: nat)
    requires r < |s| && !s[r] && forall j :: 0 <= j < r ==> s[j]
    ensures FirstClear(s) == r
  {
    hide FirstClear;
    var q := FirstClear(s);
  }

  lemma NoneClear(s: seq<bool>)
    requires forall j :: 0 <= j < |s| ==> s[j]
    ensures FirstClear(s) == |s|
  {
    hide FirstClear;
    var q := FirstClear(s);
  }

  // ---- Links --------------------------------------------------------------

  const NIL := -1
  const INVALID_OFFSET := 0xffff

  /** A page reference; links are indexes of page references, or NIL. */
  datatype PageRef = PageRef(nextSame: int, nextAll: int, pab: nat, freeOff: nat, nfree: nat)

  function AllLinks(prs: seq<PageRef>): (n: seq<int>)
    ensures |n| == |prs| && forall i :: 0 <= i < |n| ==> n[i] == prs[i].nextAll
  {
    seq(|prs|, i requires 0 <= i < |prs| => prs[i].nextAll)
  }

  function SameLinks(prs: seq<PageRef>): (n: seq<int>)
    ensures |n| == |prs| && forall i :: 0 <= i < |n| ==> n[i] == prs[i].nextSame
  {
    seq(|prs|, i requires 0 <= i < |prs| => prs[i].nextSame)
  }

  /** Following the links from start visits the references of ds, in order, and ends. */
  ghost predicate Chain(next: seq<int>, start: int, ds: seq<Desc>)
    decreases |ds|
  {
    if ds == [] then start == NIL
    else start == ds[0].ref && ds[0].ref < |next| && Chain(next, next[ds[0].ref], ds[1..])
  }

  /** The pages of one kind, in the order of the list of all pages. */
  function OfKind(ds: seq<Desc>, kind: nat): seq<Desc> {
    if ds == [] then [] else (if ds[0].kind == kind then [ds[0]] else []) + OfKind(ds[1..], kind)
  }

  ghost predicate SameRefs(a: seq<Desc>, b: seq<Desc>) {
    |a| == |b| && forall i :: 0 <= i < |a| ==> a[i].ref == b[i].ref
  }

  ghost predicate DistinctRefs(ds: seq<Desc>) {
    forall i, j :: 0 <= i < j < |ds| ==> ds[i].ref != ds[j].ref
  }

  /** A chain depends only on the links of what it visits. */
  lemma {:induction false} ChainFrame(next: seq<int>, next': seq<int>, start: int, ds: seq<Desc>, ds': seq<Desc>)
    requires Chain(next, start, ds) && |next'| == |next| && SameRefs(ds, ds')
    requires forall i :: 0 <= i < |ds| && ds[i].ref < |next| ==> next'[ds[i].ref] == next[ds[i].ref]
    ensures Chain(next', start, ds')
    decreases |ds|
  {
    if ds != [] {
      assert next'[ds[0].ref] == next[ds[0].ref];
      ChainFrame(next, next', next[ds[0].ref], ds[1..], ds'[1..]);
    }
  }

  /** Where the chain is after i links. */
  lemma {:induction false} ChainAt(next: seq<int>, start: int, ds: seq<Desc>, i: nat)
    requires Chain(next, start, ds) && i < |ds|
    ensures ds[i].ref < |next| && Chain(next, next[ds[i].ref], ds[i + 1..])
    decreases |ds|
  {
    if i > 0 {
      ChainAt(next, next[ds[0].ref], ds[1..], i - 1);
      assert ds[1..][i..] == ds[i + 1..];
    }
  }

  /** Linking past an element takes it out of the chain. */
  lemma {:induction false} Unlink(next: seq<int>, start: int, ds: seq<Desc>, i: nat)
    requires Chain(next, start, ds) && 0 < i < |ds| && DistinctRefs(ds) && ds[i].ref < |next| && ds[i - 1].ref < |next|
    ensures Chain(next[ds[i - 1].ref := next[ds[i].ref]], start, ds[..i] + ds[i + 1..])
    decreases |ds|
  {
    var r := ds[i - 1].ref;
    var next' := next[r := next[ds[i].ref]];
    var ds' := ds[..i] + ds[i + 1..];
    assert ds'[0] == ds[0];
    if i == 1 {
      assert ds'[1..] == ds[2..];
      assert ds[1..][1..] == ds[2..];
      ChainFrame(next, next', next[ds[1].ref], ds[2..], ds[2..]);
    } else {
      Unlink(next, next[ds[0].ref], ds[1..], i - 1);
      assert ds'[1..] == ds[1..][..i - 1] + ds[1..][i..];
      assert ds[0].ref != r;
    }
  }

  lemma UnlinkFirst(next: seq<int>, start: int, ds: seq<Desc>)
    requires Chain(next, start, ds) && ds != []
    ensures ds[0].ref < |next| && Chain(next, next[ds[0].ref], ds[..0] + ds[1..])
  {
    assert ds[..0] + ds[1..] == ds[1..];
  }

  // ---- Pages of one kind --------------------------------------------------

  lemma {:induction false} OfKindJoin(a: seq<Desc>, b: seq<Desc>, kind: nat)
    ensures OfKind(a + b, kind) == OfKind(a, kind) + OfKind(b, kind)
  {
    if a == [] {
      assert a + b == b;
    } else {
      var x := if a[0].kind == kind then [a[0]] else [];
      assert (a + b)[1..] == a[1..] + b;
      OfKindJoin(a[1..], b, kind);
      assert x + (OfKind(a[1..], kind) + OfKind(b, kind)) == x + OfKind(a[1..], kind) + OfKind(b, kind);
    }
  }

  lemma OfKindSplit(ds: seq<Desc>, i: nat, kind: nat)
    requires i < |ds|
    ensures OfKind(ds, kind) ==
      OfKind(ds[..i], kind) + (if ds[i].kind == kind then [ds[i]] else []) + OfKind(ds[i + 1..], kind)
    ensures OfKind(ds[..i] + ds[i + 1..], kind) == OfKind(ds[..i], kind) + OfKind(ds[i + 1..], kind)
  {
    assert ds == ds[..i] + ds[i..];
    OfKindJoin(ds[..i], ds[i..], kind);
    OfKindJoin(ds[..i], ds[i + 1..], kind);
    assert ds[i..][1..] == ds[i + 1..];
  }

  lemma {:induction false} OfKindIn(ds: seq<Desc>, kind: nat, d: Desc)
    ensures d in OfKind(ds, kind) <==> d in ds && d.kind == kind
  {
    if ds != [] {
      OfKindIn(ds[1..], kind, d);
      assert d in ds <==> d == ds[0] || d in ds[1..];
    }
  }

  lemma {:induction false} OfKindDistinct(ds: seq<Desc>, kind: nat)
    requires DistinctRefs(ds)
    ensures DistinctRefs(OfKind(ds, kind))
  {
    if ds != [] {
      var r := OfKind(ds[1..], kind);
      assert DistinctRefs(ds[1..]);
      OfKindDistinct(ds[1..], kind);
      forall i | 0 <= i < |r|
        ensures r[i].ref != ds[0].ref
      {
        OfKindIn(ds[1..], kind, r[i]);
        assert r[i] in r;
        var j :| 0 <= j < |ds[1..]| && ds[1..][j] == r[i];
        assert ds[j + 1] == r[i];
      }
    }
  }

  // ---- The representation -------------------------------------------------

  function WordOf(d: Desc, b: nat): nat {
    d.page * (PAGE_SIZE / 4) + b * (Size(d.kind) / 4)
  }

  function PtrTo(d: Desc, b: nat): nat {
    Addr(Sub(d.page, d.kind, b))
  }

  /** The first word of each free block points to the next; the last points nowhere. */
  ghost predicate FreeWord(mem: seq<nat>, d: Desc, i: nat) {
    i < |d.free| ==>
      && WordOf(d, d.free[i]) < |mem|
      && mem[WordOf(d, d.free[i])] == if i + 1 < |d.free| then PtrTo(d, d.free[i + 1]) else 0
  }

  function Offset(d: Desc): nat {
    if d.free == [] then INVALID_OFFSET else d.free[0] * Size(d.kind)
  }

  ghost predicate RefOk(pr: PageRef, mem: seq<nat>, d: Desc) {
    && pr.pab == KSEG0 + d.page * PAGE_SIZE + d.kind && pr.nfree == |d.free| && pr.freeOff == Offset(d)
    && forall i :: 0 <= i < |d.free| ==> FreeWord(mem, d, i)
  }

  ghost predicate Listed(prs: seq<PageRef>, bases: seq<int>, all: int, pages: seq<Desc>) {
    && |prs| == NPAGEREFS && |bases| == NSIZES && Chain(AllLinks(prs), all, pages)
    && forall k :: 0 <= k < NSIZES ==> Chain(SameLinks(prs), bases[k], OfKind(pages, k))
  }

  ghost predicate Rep(prs: seq<PageRef>, bases: seq<int>, all: int, mem: seq<nat>, pages: seq<Desc>) {
    && Listed(prs, bases, all, pages)
    && forall i :: 0 <= i < |pages| ==> pages[i].ref < |prs| && RefOk(prs[pages[i].ref], mem, pages[i])
  }

  // ---- Changing a page's free list ----------------------------------------

  lemma {:induction false} OfKindUpdate(ds: seq<Desc>, i: nat, d: Desc, kind: nat)
    requires i < |ds| && d.ref == ds[i].ref && d.kind == ds[i].kind
    ensures SameRefs(OfKind(ds, kind), OfKind(ds[i := d], kind))
  {
    if i > 0 {
      assert ds[i := d][1..] == ds[1..][i - 1 := d];
      OfKindUpdate(ds[1..], i - 1, d, kind);
    } else {
      assert ds[i := d][1..] == ds[1..];
    }
  }

  lemma ListedUpdate(prs: seq<PageRef>, bases: seq<int>, all: int, pages: seq<Desc>, i: nat, d: Desc, pr: PageRef)
    requires Listed(prs, bases, all, pages) && i < |pages| && d.ref == pages[i].ref < |prs| && d.kind == pages[i].kind
    requires pr.nextAll == prs[d.ref].nextAll && pr.nextSame == prs[d.ref].nextSame
    ensures Listed(prs[d.ref := pr], bases, all, pages[i := d])
  {
    var prs' := prs[d.ref := pr];
    assert AllLinks(prs') == AllLinks(prs) && SameLinks(prs') == SameLinks(prs);
    ChainFrame(AllLinks(prs), AllLinks(prs), all, pages, pages[i := d]);
    forall k | 0 <= k < NSIZES
      ensures Chain(SameLinks(prs'), bases[k], OfKind(pages[i := d], k))
    {
      OfKindUpdate(pages, i, d, k);
      ChainFrame(SameLinks(prs), SameLinks(prs), bases[k], OfKind(pages, k), OfKind(pages[i := d], k));
    }
  }

  /** The head of the free list is taken. */
  lemma RepTake(prs: seq<PageRef>, bases: seq<int>, all: int, mem: seq<nat>, pages: seq<Desc>, i: nat, pr: PageRef)
    requires Rep(prs, bases, all, mem, pages) && DistinctRefs(pages) && i < |pages| && pages[i].free != []
    requires var d := pages[i];
      pr == prs[d.ref].(nfree := prs[d.ref].nfree - 1, freeOff := Offset(d.(free := d.free[1..])))
    ensures var d := pages[i]; Rep(prs[d.ref := pr], bases, all, mem, pages[i := d.(free := d.free[1..])])
  {
    hide Listed;
    var d := pages[i];
    var d' := d.(free := d.free[1..]);
    ListedUpdate(prs, bases, all, pages, i, d', pr);
    forall j | 0 <= j < |d'.free|
      ensures FreeWord(mem, d', j)
    {
      assert FreeWord(mem, d, j + 1);
    }
  }

  /** Words of a page stay in it, and distinct blocks have distinct first words. */
  lemma WordInPage(d: Desc, b: nat)
    requires d.kind < NSIZES && b < PerPage(d.kind)
    ensures d.page * (PAGE_SIZE / 4) <= WordOf(d, b)
    ensures WordOf(d, b) + Size(d.kind) / 4 <= (d.page + 1) * (PAGE_SIZE / 4)
    ensures PtrTo(d, b) == KSEG0 + 4 * WordOf(d, b) && Size(d.kind) / 4 > 0
  {
    SizeFacts(d.kind);
    var q := Size(d.kind) / 4;
    assert Size(d.kind) == 4 * q && PerPage(d.kind) * q == PAGE_SIZE / 4;
    assert (b + 1) * q <= PerPage(d.kind) * q;
    assert b * (4 * q) == 4 * (b * q);
  }

  lemma WordsApart(d: Desc, b: nat, c: nat)
    requires d.kind < NSIZES && b != c
    ensures WordOf(d, b) + Size(d.kind) / 4 <= WordOf(d, c) || WordOf(d, c) + Size(d.kind) / 4 <= WordOf(d, b)
  {
    var q := Size(d.kind) / 4;
    assert b < c ==> (b + 1) * q <= c * q;
    assert c < b ==> (c + 1) * q <= b * q;
  }

  ghost predicate DescsOk(pages: seq<Desc>) {
    && DistinctRefs(pages) && (forall i, j :: 0 <= i < j < |pages| ==> pages[i].page != pages[j].page)
    && forall i :: 0 <= i < |pages| ==> pages[i].kind < NSIZES && forall b :: b in pages[i].free ==>
          b < PerPage(pages[i].kind)
  }

  /** Memory has changed only in block b of page d. */
  ghost predicate OnlyBlock(mem: seq<nat>, mem': seq<nat>, d: Desc, b: nat) {
    |mem'| == |mem| && forall w :: 0 <= w < |mem| && !(WordOf(d, b) <= w < WordOf(d, b) + Size(d.kind) / 4) ==>
        mem'[w] == mem[w]
  }

  lemma RefOkFrame(pr: PageRef, mem: seq<nat>, mem': seq<nat>, d: Desc)
    requires RefOk(pr, mem, d) && |mem'| == |mem|
    requires forall i :: 0 <= i < |d.free| && WordOf(d, d.free[i]) < |mem| ==>
      mem'[WordOf(d, d.free[i])] == mem[WordOf(d, d.free[i])]
    ensures RefOk(pr, mem', d)
  {
    hide WordOf, PtrTo;
    forall i | 0 <= i < |d.free|
      ensures FreeWord(mem', d, i)
    {
      assert FreeWord(mem, d, i);
    }
  }

  /** Another page's free blocks lie elsewhere. */
  lemma OtherPage(mem: seq<nat>, mem': seq<nat>, d: Desc, b: nat, e: Desc, i: nat)
    requires OnlyBlock(mem, mem', d, b) && d.kind < NSIZES && b < PerPage(d.kind) && e.page != d.page
    requires e.kind < NSIZES && i < |e.free| && e.free[i] < PerPage(e.kind) && WordOf(e, e.free[i]) < |mem|
    ensures mem'[WordOf(e, e.free[i])] == mem[WordOf(e, e.free[i])]
  {
    hide WordOf, PerPage, Size;
    WordInPage(d, b);
    WordInPage(e, e.free[i]);
    PagesApart(d.page, e.page);
  }

  lemma PagesApart(p: nat, q: nat)
    requires p != q
    ensures (p + 1) * (PAGE_SIZE / 4) <= q * (PAGE_SIZE / 4) || (q + 1) * (PAGE_SIZE / 4) <= p * (PAGE_SIZE / 4)
  {
  }

  /** A block is put at the head of its page's free list. */
  lemma RepPut(prs: seq<PageRef>, bases: seq<int>, all: int, mem: seq<nat>, mem': seq<nat>, pages: seq<Desc>, i: nat,
               b: nat, pr: PageRef)
    requires Rep(prs, bases, all, mem, pages) && DescsOk(pages) && i < |pages| && b < PerPage(pages[i].kind)
    requires b !in pages[i].free
    requires OnlyBlock(mem, mem', pages[i], b) && WordOf(pages[i], b) < |mem|
    requires var d := pages[i]; mem'[WordOf(d, b)] == if d.free == [] then 0 else PtrTo(d, d.free[0])
    requires var d := pages[i]; pr == prs[d.ref].(nfree := prs[d.ref].nfree + 1, freeOff := b * Size(d.kind))
    ensures var d := pages[i]; Rep(prs[d.ref := pr], bases, all, mem', pages[i := d.(free := [b] + d.free)])
  {
    hide Listed, WordOf, PtrTo, PerPage;
    var d := pages[i];
    var d' := d.(free := [b] + d.free);
    ListedUpdate(prs, bases, all, pages, i, d', pr);
    PutFree(prs[d.ref], mem, mem', d, b, pr);
    var prs' := prs[d.ref := pr];
    var pages' := pages[i := d'];
    forall j | 0 <= j < |pages'|
      ensures pages'[j].ref < |prs'| && RefOk(prs'[pages'[j].ref], mem', pages'[j])
    {
      if j != i {
        var e := pages[j];
        assert e.page != d.page && e.ref != d.ref;
        forall l | 0 <= l < |e.free| && WordOf(e, e.free[l]) < |mem|
          ensures mem'[WordOf(e, e.free[l])] == mem[WordOf(e, e.free[l])]
        {
          assert e.free[l] in e.free;
          OtherPage(mem, mem', d, b, e, l);
        }
        RefOkFrame(prs[e.ref], mem, mem', e);
      }
    }
  }

  lemma PutFree(pr0: PageRef, mem: seq<nat>, mem': seq<nat>, d: Desc, b: nat, pr: PageRef)
    requires RefOk(pr0, mem, d) && OnlyBlock(mem, mem', d, b) && b !in d.free && d.kind < NSIZES && WordOf(d, b) < |mem|
    requires mem'[WordOf(d, b)] == if d.free == [] then 0 else PtrTo(d, d.free[0])
    requires pr == pr0.(nfree := pr0.nfree + 1, freeOff := b * Size(d.kind))
    ensures RefOk(pr, mem', d.(free := [b] + d.free))
  {
    var d' := d.(free := [b] + d.free);
    assert forall c :: WordOf(d', c) == WordOf(d, c) && PtrTo(d', c) == PtrTo(d, c);
    hide WordOf, PtrTo, PerPage;
    forall j | 0 <= j < |d'.free|
      ensures FreeWord(mem', d', j)
    {
      if j > 0 {
        assert FreeWord(mem, d, j - 1);
        assert d.free[j - 1] in d.free;
        WordsApart(d, b, d.free[j - 1]);
      }
    }
  }

  // ---- Taking a page off the lists ----------------------------------------

  /** Where page i comes in the list of its kind. */
  function Place(ds: seq<Desc>, i: nat): nat
    requires i < |ds|
  {
    |OfKind(ds[..i], ds[i].kind)|
  }

  lemma PlaceIs(ds: seq<Desc>, i: nat)
    requires i < |ds|
    ensures var l := OfKind(ds, ds[i].kind); Place(ds, i) < |l| && l[Place(ds, i)] == ds[i]
    ensures OfKind(Without(ds, i), ds[i].kind) == Without(OfKind(ds, ds[i].kind), Place(ds, i))
    ensures forall k :: k != ds[i].kind ==> OfKind(Without(ds, i), k) == OfKind(ds, k)
  {
    hide OfKind;
    var kind := ds[i].kind;
    var a, b := OfKind(ds[..i], kind), OfKind(ds[i + 1..], kind);
    OfKindSplit(ds, i, kind);
    MidOut(a, ds[i], b);
    forall k | k != kind
      ensures OfKind(Without(ds, i), k) == OfKind(ds, k)
    {
      OfKindSplit(ds, i, k);
    }
  }

  lemma MidOut(a: seq<Desc>, x: Desc, b: seq<Desc>)
    ensures (a + [x] + b)[|a|] == x && Without(a + [x] + b, |a|) == a + b
  {
  }

  ghost predicate SameButAll(a: seq<PageRef>, b: seq<PageRef>) {
    |a| == |b| && forall i :: 0 <= i < |a| ==> b[i] == a[i].(nextAll := b[i].nextAll)
  }

  ghost predicate SameButSame(a: seq<PageRef>, b: seq<PageRef>) {
    |a| == |b| && forall i :: 0 <= i < |a| ==> b[i] == a[i].(nextSame := b[i].nextSame)
  }

  ghost predicate KindHasRef(pages: seq<Desc>, r: nat, kind: nat) {
    exists j :: 0 <= j < |pages| && pages[j].ref == r && pages[j].kind == kind
  }

  /** Both lists relinked around page i. */
  lemma ListedRemove(prs: seq<PageRef>, prs': seq<PageRef>, bases: seq<int>, bases': seq<int>, all: int, all': int,
                     pages: seq<Desc>, i: nat)
    requires Listed(prs, bases, all, pages) && DistinctRefs(pages) && i < |pages| && pages[i].kind < NSIZES
    requires |prs'| == |prs| && |bases'| == |bases|
    requires Chain(AllLinks(prs'), all', Without(pages, i))
    requires Chain(SameLinks(prs'), bases'[pages[i].kind], Without(OfKind(pages, pages[i].kind), Place(pages, i)))
    requires forall k :: 0 <= k < NSIZES && k != pages[i].kind ==> bases'[k] == bases[k]
    requires forall r :: 0 <= r < |prs| && prs'[r].nextSame != prs[r].nextSame ==> KindHasRef(pages, r, pages[i].kind)
    ensures Listed(prs', bases', all', Without(pages, i))
  {
    var kind := pages[i].kind;
    PlaceIs(pages, i);
    forall k | 0 <= k < NSIZES
      ensures Chain(SameLinks(prs'), bases'[k], OfKind(Without(pages, i), k))
    {
      if k != kind {
        var l := OfKind(pages, k);
        forall j | 0 <= j < |l| && l[j].ref < |prs|
          ensures SameLinks(prs')[l[j].ref] == SameLinks(prs)[l[j].ref]
        {
          OfKindIn(pages, k, l[j]);
          assert l[j] in l;
          var m :| 0 <= m < |pages| && pages[m] == l[j];
        }
        ChainFrame(SameLinks(prs), SameLinks(prs'), bases[k], l, l);
      }
    }
  }

  // ---- A new page ---------------------------------------------------------

  lemma RepNew(prs: seq<PageRef>, bases: seq<int>, all: int, mem: seq<nat>, mem': seq<nat>, pages: seq<Desc>, d: Desc,
               pr: PageRef)
    requires Rep(prs, bases, all, mem, pages) && DescsOk(pages) && d.ref < |prs| && d.kind < NSIZES
    requires forall j :: 0 <= j < |pages| ==> pages[j].ref != d.ref && pages[j].page != d.page
    requires pr.nextSame == bases[d.kind] && pr.nextAll == all && RefOk(pr, mem', d)
    requires |mem'| == |mem|
    requires forall w :: 0 <= w < |mem| && !(d.page * (PAGE_SIZE / 4) <= w < (d.page + 1) * (PAGE_SIZE / 4)) ==>
      mem'[w] == mem[w]
    ensures Rep(prs[d.ref := pr], bases[d.kind := d.ref], d.ref, mem', [d] + pages)
  {
    NewListed(prs, bases, all, pages, d, pr);
    hide Listed, WordOf, PtrTo, PerPage;
    var prs' := prs[d.ref := pr];
    forall j | 0 <= j < |[d] + pages|
      ensures ([d] + pages)[j].ref < |prs'| && RefOk(prs'[([d] + pages)[j].ref], mem', ([d] + pages)[j])
    {
      if j > 0 {
        var e := pages[j - 1];
        forall l | 0 <= l < |e.free| && WordOf(e, e.free[l]) < |mem|
          ensures mem'[WordOf(e, e.free[l])] == mem[WordOf(e, e.free[l])]
        {
          assert e.free[l] in e.free;
          WordInPage(e, e.free[l]);
          PagesApart(d.page, e.page);
        }
        RefOkFrame(prs[e.ref], mem, mem', e);
      }
    }
  }

  lemma NewListed(prs: seq<PageRef>, bases: seq<int>, all: int, pages: seq<Desc>, d: Desc, pr: PageRef)
    requires Listed(prs, bases, all, pages) && d.ref < |prs| && d.kind < NSIZES
    requires forall j :: 0 <= j < |pages| ==> pages[j].ref != d.ref
    requires pr.nextSame == bases[d.kind] && pr.nextAll == all
    ensures Listed(prs[d.ref := pr], bases[d.kind := d.ref], d.ref, [d] + pages)
  {
    var prs' := prs[d.ref := pr];
    var pages' := [d] + pages;
    assert pages'[1..] == pages;
    ChainFrame(AllLinks(prs), AllLinks(prs'), all, pages, pages);
    forall k | 0 <= k < NSIZES
      ensures Chain(SameLinks(prs'), bases[d.kind := d.ref][k], OfKind(pages', k))
    {
      var l := OfKind(pages, k);
      forall j | 0 <= j < |l| && l[j].ref < |prs|
        ensures SameLinks(prs')[l[j].ref] == SameLinks(prs)[l[j].ref]
      {
        OfKindIn(pages, k, l[j]);
        assert l[j] in l;
      }
      ChainFrame(SameLinks(prs), SameLinks(prs'), bases[k], l, l);
      if k == d.kind {
        assert OfKind(pages', k) == [d] + l;
        assert ([d] + l)[1..] == l;
        assert SameLinks(prs')[d.ref] == bases[k];
      } else {
        assert OfKind(pages', k) == l;
      }
    }
  }
}
