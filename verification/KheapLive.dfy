/** What allocating and freeing do to the blocks in use. */
module KheapLive {
  import opened Coremaps
  import opened Kheaps

  // ---- Allocation ---------------------------------------------------------

  ghost predicate SameLive(h: Heap, h': Heap) {
    forall y :: Live(h', y) <==> Live(h, y)
  }

  /** One more block is in use. */
  ghost predicate Added(h: Heap, h': Heap, x: Block) {
    !Live(h, x) && forall y :: Live(h', y) <==> Live(h, y) || y == x
  }

  /** One block less is in use. */
  ghost predicate Removed(h: Heap, h': Heap, x: Block) {
    forall y :: Live(h', y) <==> Live(h, y) && y != x
  }

  lemma HoldingSame(pages: seq<Desc>, i: nat, d: Desc, p: nat)
    requires i < |pages| && d.page == pages[i].page
    ensures Holding(pages[i := d], p) == Holding(pages, p)
  {
    var a := Holding(pages, p);
    var b := Holding(pages[i := d], p);
    assert b < |pages| ==> pages[b].page == p;
    assert a < |pages| ==> pages[i := d][a].page == p;
  }

  lemma TakeShape(h: Heap, boot: nat, i: nat)
    requires HeapShape(h, boot) && i < |h.pages| && h.pages[i].free != []
    ensures HeapShape(Take(h, i).0, boot)
  {
    var h' := Take(h, i).0;
    var d := h.pages[i];
    assert DescShape(h, d);
    assert forall b :: b in d.free[1..] ==> b in d.free;
    forall j | 0 <= j < |h'.pages|
      ensures DescShape(h', h'.pages[j])
    {
      assert DescShape(h, h.pages[j]);
    }
    forall r | 0 <= r < |h'.refs| && h'.refs[r]
      ensures HasRef(h'.pages, r)
    {
      var k :| 0 <= k < |h.pages| && h.pages[k].ref == r;
      assert h'.pages[k].ref == r;
    }
  }

  lemma TakeLive(h: Heap, boot: nat, i: nat)
    requires HeapShape(h, boot) && i < |h.pages| && h.pages[i].free != []
    ensures Added(h, Take(h, i).0, Take(h, i).1)
  {
    var (h', x) := Take(h, i);
    var d := h.pages[i];
    assert DescShape(h, d);
    assert d.free[0] in d.free;
    assert LiveIn(h'.pages[i], x);
    forall y
      ensures Live(h', y) <==> Live(h, y) || y == x
    {
      match y
      case Big(p, n) => HoldingSame(h.pages, i, h'.pages[i], p);
      case Sub(p, k, b) => TakeSub(h, i, y);
    }
    assert !LiveIn(d, x);
    forall j | 0 <= j < |h.pages|
      ensures !LiveIn(h.pages[j], x)
    {
    }
  }

  lemma TakeSub(h: Heap, i: nat, y: Block)
    requires i < |h.pages| && h.pages[i].free != [] && y.Sub? && NoDup(h.pages[i].free)
    requires forall b :: b in h.pages[i].free ==> b < PerPage(h.pages[i].kind)
    ensures Live(Take(h, i).0, y) <==> Live(h, y) || y == Take(h, i).1
  {
    var (h', x) := Take(h, i);
    var d, d' := h.pages[i], h'.pages[i];
    assert forall b :: b in d.free <==> b == d.free[0] || b in d'.free;
    assert LiveIn(d', y) <==> LiveIn(d, y) || y == x;
    if Live(h, y) {
      var j :| 0 <= j < |h.pages| && LiveIn(h.pages[j], y);
      assert LiveIn(h'.pages[j], y);
    }
    if Live(h', y) {
      var j :| 0 <= j < |h'.pages| && LiveIn(h'.pages[j], y);
      assert j != i ==> LiveIn(h.pages[j], y);
    }
    assert LiveIn(h'.pages[i], x);
  }

  /** A fresh page belongs to the heap, with every block free. */
  lemma NewPageShape(h: Heap, boot: nat, kind: nat)
    requires HeapShape(h, boot) && kind < NSIZES && NewPage(h, kind).Some?
    ensures var h1 := NewPage(h, kind).v;
      && HeapShape(h1, boot) && h1.pages[1..] == h.pages && |h1.pages| > 0 && h1.pages[0].free == Downto(PerPage(kind))
      && h1.pages[0].kind == kind
  {
    hide PerPage, Size, Ok, GetPages, Downto, DescShape, HasRef;
    NewPageIs(h, boot, kind);
    var h1 := NewPage(h, kind).v;
    NewDescs(h, h1, boot, kind);
    NewRefs(h, h1);
  }

  /** One page of the coremap that was free, one reference that was clear, put in front. */
  ghost predicate NewInFront(h: Heap, h1: Heap) {
    && |h1.pages| > 0 && h1.pages[1..] == h.pages
    && var d := h1.pages[0];
      && d.ref < |h.refs| && !h.refs[d.ref] && h1.refs == h.refs[d.ref := true]
      && d.page < |h.cm.pages| == |h1.cm.pages| && h.cm.pages[d.page].count == 0 && h1.cm.pages[d.page].count == 1
      && (forall q :: 0 <= q < |h.cm.pages| && q != d.page ==> h1.cm.pages[q].count == h.cm.pages[q].count)
      && (forall j :: 0 <= j < |h.pages| ==> h.pages[j].page != d.page && h.pages[j].ref != d.ref)
  }

  lemma NewPageIs(h: Heap, boot: nat, kind: nat)
    requires HeapShape(h, boot) && kind < NSIZES && NewPage(h, kind).Some?
    ensures var h1 := NewPage(h, kind).v;
      NewInFront(h, h1) && Ok(h1.cm, boot) && h1.pages[0].free == Downto(PerPage(kind)) && h1.pages[0].kind == kind
  {
    hide PerPage, Ok, GetPages, Downto;
    var r := FirstClear(h.refs);
    GetPagesOk(h.cm, boot, 1);
    var p := GetPages(h.cm, 1).1.v;
    NewOutside(h, boot, r, p);
  }

  lemma NewDescs(h: Heap, h1: Heap, boot: nat, kind: nat)
    requires HeapShape(h, boot) && NewInFront(h, h1) && kind < NSIZES && h1.pages[0].free == Downto(PerPage(kind))
    requires h1.pages[0].kind == kind
    ensures (forall j :: 0 <= j < |h1.pages| ==> DescShape(h1, h1.pages[j])) && Distinct(h1.pages)
  {
    hide PerPage, Ok, HasRef;
    forall j | 0 <= j < |h1.pages|
      ensures DescShape(h1, h1.pages[j])
    {
      if j > 0 {
        assert h1.pages[j] == h.pages[j - 1] && DescShape(h, h.pages[j - 1]);
      }
    }
    forall i, j | 0 <= i < j < |h1.pages|
      ensures h1.pages[i].ref != h1.pages[j].ref && h1.pages[i].page != h1.pages[j].page
    {
      assert h1.pages[j] == h.pages[j - 1] && (i > 0 ==> h1.pages[i] == h.pages[i - 1]);
    }
  }

  lemma NewRefs(h: Heap, h1: Heap)
    requires NewInFront(h, h1) && forall r :: 0 <= r < |h.refs| && h.refs[r] ==> HasRef(h.pages, r)
    ensures forall r :: 0 <= r < |h1.refs| && h1.refs[r] ==> HasRef(h1.pages, r)
  {
    forall q | 0 <= q < |h1.refs| && h1.refs[q]
      ensures HasRef(h1.pages, q)
    {
      if q == h1.pages[0].ref {
        assert h1.pages[0].ref == q;
      } else {
        assert HasRef(h.pages, q);
        var k :| 0 <= k < |h.pages| && h.pages[k].ref == q;
        assert h1.pages[k + 1] == h.pages[k];
      }
    }
  }

  /** A free page and a free reference belong to no page of the heap. */
  lemma NewOutside(h: Heap, boot: nat, r: nat, p: nat)
    requires HeapShape(h, boot) && r < |h.refs| && !h.refs[r] && boot <= p < |h.cm.pages| && h.cm.pages[p].state == FREE
    ensures forall j :: 0 <= j < |h.pages| ==> h.pages[j].page != p && h.pages[j].ref != r
    ensures h.cm.pages[p].count == 0
  {
    hide PerPage;
    assert PageOk(h.cm.pages, boot, p);
    forall j | 0 <= j < |h.pages|
      ensures h.pages[j].page != p && h.pages[j].ref != r
    {
      assert DescShape(h, h.pages[j]);
    }
  }

  lemma NewPageLive(h: Heap, boot: nat, kind: nat)
    requires HeapShape(h, boot) && kind < NSIZES && NewPage(h, kind).Some?
    ensures SameLive(h, NewPage(h, kind).v)
  {
    hide PerPage, Size, Ok, GetPages, Downto, NewPage, Live;
    NewPageIs(h, boot, kind);
    var h1 := NewPage(h, kind).v;
    forall y
      ensures Live(h1, y) <==> Live(h, y)
    {
      match y
      case Big(q, n) => NewLiveBig(h, h1, y);
      case Sub(q, k, b) => NewLiveSub(h, h1, y);
    }
  }

  lemma NewLiveBig(h: Heap, h1: Heap, y: Block)
    requires NewInFront(h, h1) && y.Big?
    ensures Live(h1, y) <==> Live(h, y)
  {
    assert Holding(h1.pages, y.page) == if y.page == h1.pages[0].page then 0 else 1 + Holding(h1.pages[1..], y.page);
  }

  lemma NewLiveSub(h: Heap, h1: Heap, y: Block)
    requires NewInFront(h, h1) && y.Sub? && h1.pages[0].free == Downto(PerPage(h1.pages[0].kind))
    ensures Live(h1, y) <==> Live(h, y)
  {
    hide PerPage;
    AllListed(PerPage(h1.pages[0].kind), y.b);
    assert !LiveIn(h1.pages[0], y);
    if Live(h, y) {
      var j :| 0 <= j < |h.pages| && LiveIn(h.pages[j], y);
      assert h1.pages[j + 1] == h.pages[j];
    }
    if Live(h1, y) {
      var j :| 0 <= j < |h1.pages| && LiveIn(h1.pages[j], y);
      assert h1.pages[j] == h.pages[j - 1];
    }
  }

  lemma AllListed(n: nat, b: nat)
    ensures b < n ==> b in Downto(n)
  {
    if b < n { assert Downto(n)[n - 1 - b] == b; }
  }

  /** A small allocation hands out a block that was not in use, big enough, and leaves the rest as it was. */
  lemma SubAllocOk(h: Heap, boot: nat, sz: nat)
    requires HeapOk(h, boot) && sz < LARGEST
    ensures var (h', r) := SubAlloc(h, sz);
      && HeapOk(h', boot)
      && (r.Some? ==> r.v.Sub? && Added(h, h', r.v) && Bytes(r.v) >= sz && r.v.kind == KindOf(sz))
      && (r.None? ==> h' == h)
  {
    hide PerPage, Size, Ok, GetPages, Downto, NewPage, DescShape, Distinct, HasRef, Live;
    var kind := KindOf(sz);
    var i := Available(h.pages, kind);
    if i < |h.pages| {
      TakeShape(h, boot, i);
      TakeLive(h, boot, i);
    } else if NewPage(h, kind).Some? {
      NewPageShape(h, boot, kind);
      NewPageLive(h, boot, kind);
      var h1 := NewPage(h, kind).v;
      SizeFacts(kind);
      TakeShape(h1, boot, 0);
      TakeLive(h1, boot, 0);
      FreshCounts(h, h1, kind);
    }
  }

  lemma FreshCounts(h: Heap, h1: Heap, kind: nat)
    requires |h1.pages| > 0 && h1.pages[1..] == h.pages && h1.pages[0].free == Downto(PerPage(kind))
    requires h1.pages[0].kind == kind && PerPage(kind) >= 2
    requires forall i :: 0 <= i < |h.pages| ==> |h.pages[i].free| < PerPage(h.pages[i].kind)
    ensures var h' := Take(h1, 0).0; forall i :: 0 <= i < |h'.pages| ==> |h'.pages[i].free| < PerPage(h'.pages[i].kind)
  {
    var h' := Take(h1, 0).0;
    forall i | 0 <= i < |h'.pages|
      ensures |h'.pages[i].free| < PerPage(h'.pages[i].kind)
    {
      assert i > 0 ==> h'.pages[i] == h.pages[i - 1];
    }
  }

  // ---- Freeing ------------------------------------------------------------

  ghost function Elems(s: seq<nat>): (r: set<nat>)
    ensures forall x :: x in r <==> x in s
    ensures NoDup(s) ==> |r| == |s|
  {
    if s == [] then {} else
      assert NoDup(s) ==> NoDup(s[1..]) && s[0] !in s[1..];
      assert forall x :: x in s <==> x == s[0] || x in s[1..];
      {s[0]} + Elems(s[1..])
  }

  ghost function Below(n: nat): (r: set<nat>)
    ensures |r| == n && forall x :: x in r <==> 0 <= x < n
  {
    if n == 0 then {} else Below(n - 1) + {n - 1}
  }

  /** n distinct numbers below n are all of them. */
  lemma Pigeonhole(s: seq<nat>, n: nat, b: nat)
    requires NoDup(s) && (forall x :: x in s ==> x < n) && |s| == n && b < n
    ensures b in s
  {
    if b !in s {
      var e := Elems(s);
      assert e <= Below(n) - {b};
      SubsetSize(e, Below(n) - {b});
    }
  }

  lemma {:induction false} SubsetSize(a: set<nat>, b: set<nat>)
    requires a <= b
    ensures |a| <= |b|
  {
    if a != {} {
      var x :| x in a;
      SubsetSize(a - {x}, b - {x});
    }
  }

  lemma PutBackShape(h: Heap, boot: nat, i: nat, x: Block)
    requires HeapOk(h, boot) && i < |h.pages| && LiveIn(h.pages[i], x)
    requires |h.pages[i].free| + 1 < PerPage(h.pages[i].kind)
    ensures HeapOk(SubFree(h, i, x.b), boot)
  {
    hide PerPage, Ok;
    var h' := SubFree(h, i, x.b);
    var d := h.pages[i];
    assert DescShape(h, d);
    forall j | 0 <= j < |h'.pages|
      ensures DescShape(h', h'.pages[j]) && |h'.pages[j].free| < PerPage(h'.pages[j].kind)
    {
      assert DescShape(h, h.pages[j]);
    }
    forall r | 0 <= r < |h'.refs| && h'.refs[r]
      ensures HasRef(h'.pages, r)
    {
      var k :| 0 <= k < |h.pages| && h.pages[k].ref == r;
      assert h'.pages[k].ref == r;
    }
  }

  lemma PutBackSub(h: Heap, i: nat, x: Block, y: Block)
    requires i < |h.pages| && LiveIn(h.pages[i], x) && |h.pages[i].free| + 1 < PerPage(h.pages[i].kind)
    requires Distinct(h.pages) && y.Sub?
    requires h.pages[i].page < |h.cm.pages|
    ensures Live(SubFree(h, i, x.b), y) <==> Live(h, y) && y != x
  {
    hide PerPage;
    var h' := SubFree(h, i, x.b);
    var d, d' := h.pages[i], h'.pages[i];
    assert LiveIn(d', y) <==> LiveIn(d, y) && y != x;
    if Live(h, y) && y != x {
      var j :| 0 <= j < |h.pages| && LiveIn(h.pages[j], y);
      assert LiveIn(h'.pages[j], y);
    }
    if Live(h', y) {
      var j :| 0 <= j < |h'.pages| && LiveIn(h'.pages[j], y);
      assert LiveIn(h.pages[j], y);
      assert j != i ==> h.pages[j].page != d.page;
    }
  }

  /** A block goes back on its page's list. */
  lemma PutBackOk(h: Heap, boot: nat, i: nat, x: Block)
    requires HeapOk(h, boot) && i < |h.pages| && LiveIn(h.pages[i], x)
    requires |h.pages[i].free| + 1 < PerPage(h.pages[i].kind)
    ensures var h' := SubFree(h, i, x.b); HeapOk(h', boot) && Removed(h, h', x)
  {
    hide PerPage, Ok;
    PutBackShape(h, boot, i, x);
    var h' := SubFree(h, i, x.b);
    assert DescShape(h, h.pages[i]);
    forall y
      ensures Live(h', y) <==> Live(h, y) && y != x
    {
      match y
      case Big(p, n) => HoldingSame(h.pages, i, h'.pages[i], p);
      case Sub(p, k, b) => PutBackSub(h, i, x, y);
    }
  }

  lemma WithoutDistinct(pages: seq<Desc>, i: nat)
    requires i < |pages| && Distinct(pages)
    ensures Distinct(Without(pages, i))
  {
  }

  lemma WithoutRefs(pages: seq<Desc>, i: nat, r: nat)
    requires i < |pages| && HasRef(pages, r) && r != pages[i].ref
    ensures HasRef(Without(pages, i), r)
  {
    var k :| 0 <= k < |pages| && pages[k].ref == r;
    assert Without(pages, i)[if k < i then k else k - 1].ref == r;
  }

  /** The page's last block in use is freed: the page goes. */
  lemma GiveUpShape(h: Heap, boot: nat, i: nat)
    requires HeapOk(h, boot) && i < |h.pages|
    ensures var d := h.pages[i];
      HeapOk(Heap(FreePages(h.cm, d.page), h.refs[d.ref := false], Without(h.pages, i)), boot)
  {
    hide PerPage, Ok, FreePages;
    var d := h.pages[i];
    assert DescShape(h, d);
    FreePagesOk(h.cm, boot, d.page);
    var h' := Heap(FreePages(h.cm, d.page), h.refs[d.ref := false], Without(h.pages, i));
    WithoutDistinct(h.pages, i);
    forall j | 0 <= j < |h'.pages|
      ensures DescShape(h', h'.pages[j]) && |h'.pages[j].free| < PerPage(h'.pages[j].kind)
    {
      var k := if j < i then j else j + 1;
      assert DescShape(h, h.pages[k]);
      assert h.pages[k].page != d.page && h.pages[k].ref != d.ref;
    }
    forall r | 0 <= r < |h'.refs| && h'.refs[r]
      ensures HasRef(h'.pages, r)
    {
      WithoutRefs(h.pages, i, r);
    }
  }

  lemma GiveUpLive(h: Heap, boot: nat, i: nat, x: Block)
    requires HeapOk(h, boot) && i < |h.pages| && LiveIn(h.pages[i], x)
    requires |h.pages[i].free| + 1 == PerPage(h.pages[i].kind)
    ensures Removed(h, SubFree(h, i, x.b), x)
  {
    var d := h.pages[i];
    var h' := SubFree(h, i, x.b);
    assert DescShape(h, d);
    FreePagesOk(h.cm, boot, d.page);
    forall y
      ensures Live(h', y) <==> Live(h, y) && y != x
    {
      match y
      case Big(p, n) => HoldingWithout(h.pages, i, p);
      case Sub(p, k, b) => GiveUpSub(h, boot, i, x, y);
    }
  }

  lemma HoldingWithout(pages: seq<Desc>, i: nat, p: nat)
    requires i < |pages| && Distinct(pages)
    ensures Holding(Without(pages, i), p) == |pages| - 1 <==> Holding(pages, p) == |pages| || pages[i].page == p
  {
    var r := Without(pages, i);
    var a := Holding(pages, p);
    var b := Holding(r, p);
    assert b < |r| ==> r[b] == pages[if b < i then b else b + 1];
    assert a < |pages| && a != i ==> r[if a < i then a else a - 1] == pages[a];
  }

  lemma GiveUpSub(h: Heap, boot: nat, i: nat, x: Block, y: Block)
    requires HeapOk(h, boot) && i < |h.pages| && LiveIn(h.pages[i], x)
    requires |h.pages[i].free| + 1 == PerPage(h.pages[i].kind) && y.Sub?
    ensures Live(SubFree(h, i, x.b), y) <==> Live(h, y) && y != x
  {
    hide PerPage, Ok, FreePages, SubFree, Without, HeapShape;
    DescAt(h, boot, i);
    var d := h.pages[i];
    GoneIs(h, i, x.b);
    OnlyOne(d, x, y);
    WithoutLive(h.pages, i, y);
    assert forall j :: 0 <= j < |h.pages| && j != i && LiveIn(h.pages[j], y) ==> h.pages[j].page != d.page && y != x;
  }

  lemma DescAt(h: Heap, boot: nat, i: nat)
    requires HeapShape(h, boot) && i < |h.pages|
    ensures DescShape(h, h.pages[i])
    ensures forall j :: 0 <= j < |h.pages| && j != i ==> h.pages[j].page != h.pages[i].page
  {
  }

  lemma GoneIs(h: Heap, i: nat, b: nat)
    requires i < |h.pages| && h.pages[i].page < |h.cm.pages| && |h.pages[i].free| + 1 == PerPage(h.pages[i].kind)
    ensures SubFree(h, i, b).pages == Without(h.pages, i)
  {
    hide PerPage, FreePages;
  }

  lemma WithoutLive(pages: seq<Desc>, i: nat, y: Block)
    requires i < |pages|
    ensures (exists j :: 0 <= j < |Without(pages, i)| && LiveIn(Without(pages, i)[j], y)) <==>
      exists j :: 0 <= j < |pages| && j != i && LiveIn(pages[j], y)
  {
    hide LiveIn;
    var r := Without(pages, i);
    if j :| 0 <= j < |r| && LiveIn(r[j], y) {
      assert LiveIn(pages[if j < i then j else j + 1], y);
    }
    if j :| 0 <= j < |pages| && j != i && LiveIn(pages[j], y) {
      assert r[if j < i then j else j - 1] == pages[j];
    }
  }

  /** A page with all blocks but one free has only that one in use. */
  lemma OnlyOne(d: Desc, x: Block, y: Block)
    requires LiveIn(d, x) && |d.free| + 1 == PerPage(d.kind) && NoDup(d.free) && forall b :: b in d.free ==>
      b < PerPage(d.kind)
    ensures LiveIn(d, y) ==> y == x
  {
    hide PerPage;
    if LiveIn(d, y) {
      Pigeonhole([x.b] + d.free, PerPage(d.kind), y.b);
    }
  }

  /** Freeing a block in use takes exactly that block out of use. */
  lemma KfreeOk(h: Heap, boot: nat, x: Block)
    requires HeapOk(h, boot) && Live(h, x)
    ensures x.page < |h.cm.pages| && HeapOk(Kfree(h, x), boot) && Removed(h, Kfree(h, x), x)
  {
    if x.Sub? {
      var i := LiveSub(h, boot, x);
      assert Holding(h.pages, x.page) == i;
      var d := h.pages[i];
      if |d.free| + 1 == PerPage(d.kind) {
        GiveUpShape(h, boot, i);
        GiveUpLive(h, boot, i, x);
      } else {
        PutBackOk(h, boot, i, x);
      }
    } else {
      FreeBigOk(h, boot, x);
    }
  }

  lemma FreeBigOk(h: Heap, boot: nat, x: Block)
    requires HeapOk(h, boot) && Live(h, x) && x.Big?
    ensures HeapOk(Kfree(h, x), boot) && Removed(h, Kfree(h, x), x)
  {
    var h' := Kfree(h, x);
    FreePagesOk(h.cm, boot, x.page);
    forall j | 0 <= j < |h'.pages|
      ensures DescShape(h', h'.pages[j])
    {
      assert DescShape(h, h.pages[j]);
      NotInside(h, boot, x, h.pages[j].page);
    }
    forall y
      ensures Live(h', y) <==> Live(h, y) && y != x
    {
      if y.Big? && y.page < |h.cm.pages| && h.cm.pages[y.page].count > 0 && y.page != x.page {
        NotInside(h, boot, x, y.page);
      }
    }
  }

  /** The first page of one block is not in another. */
  lemma NotInside(h: Heap, boot: nat, x: Block, p: nat)
    requires Ok(h.cm, boot) && x.page < |h.cm.pages| && p < |h.cm.pages| && h.cm.pages[p].count > 0 && p != x.page
    ensures !(x.page <= p < x.page + h.cm.pages[x.page].count)
  {
    if InBlock(h.cm.pages, x.page, p) {
      BlocksDisjoint(h.cm.pages, boot, x.page, p, p);
    }
  }

  lemma KmallocOk(h: Heap, boot: nat, sz: nat)
    requires HeapOk(h, boot)
    ensures var (h', r) := Kmalloc(h, sz);
      && HeapOk(h', boot)
      && (r.Some? ==> Added(h, h', r.v) && Bytes(r.v) >= sz && Addr(r.v) % 16 == 0)
      && (r.None? ==> h' == h)
  {
    hide SubAlloc, HeapOk, Live, GetPages, Bytes, Addr;
    if sz >= LARGEST {
      GetBigOk(h, boot, (sz + PAGE_SIZE - 1) / PAGE_SIZE);
      BigEnough(sz);
      var (cm, r) := GetPages(h.cm, (sz + PAGE_SIZE - 1) / PAGE_SIZE);
      if r.Some? {
        BigPlace(r.v, (sz + PAGE_SIZE - 1) / PAGE_SIZE);
      }
    } else {
      SubAllocOk(h, boot, sz);
      var (h', r) := SubAlloc(h, sz);
      if r.Some? {
        SubPlace(h', boot, r.v);
      }
    }
  }

  lemma BigPlace(p: nat, n: nat)
    ensures Addr(Big(p, n)) % 16 == 0 && Bytes(Big(p, n)) == n * PAGE_SIZE
  {
    assert Addr(Big(p, n)) == 16 * (KSEG0 / 16 + p * 256);
  }

  lemma SubPlace(h: Heap, boot: nat, x: Block)
    requires HeapOk(h, boot) && x.Sub? && Live(h, x)
    ensures Addr(x) % 16 == 0
  {
    var i := LiveSub(h, boot, x);
    SubInPage(x);
  }

  lemma BigEnough(sz: nat)
    ensures (sz + PAGE_SIZE - 1) / PAGE_SIZE * PAGE_SIZE >= sz
    ensures sz > 0 ==> (sz + PAGE_SIZE - 1) / PAGE_SIZE > 0
  {
  }

  lemma GetBigOk(h: Heap, boot: nat, n: nat)
    requires HeapOk(h, boot) && n > 0
    ensures var (cm, r) := GetPages(h.cm, n);
      HeapOk(h.(cm := cm), boot) && (r.Some? ==> Added(h, h.(cm := cm), Big(r.v, n))) && (r.None? ==> cm == h.cm)
  {
    GetPagesOk(h.cm, boot, n);
    var (cm, r) := GetPages(h.cm, n);
    if r.Some? {
      var h' := h.(cm := cm);
      assert PageOk(h.cm.pages, boot, r.v);
      forall j | 0 <= j < |h'.pages|
        ensures DescShape(h', h'.pages[j]) && h'.pages[j].page != r.v
      {
        assert DescShape(h, h.pages[j]);
        assert PageOk(h.cm.pages, boot, h.pages[j].page);
      }
      forall y
        ensures Live(h', y) <==> Live(h, y) || y == Big(r.v, n)
      {
        if y.Big? && y.page < |h.cm.pages| {
          assert PageOk(h.cm.pages, boot, y.page);
        }
      }
    }
  }

  // ---- Every run ----------------------------------------------------------

  datatype Call = Malloc(sz: nat) | Free(x: Block)

  ghost predicate May(h: Heap, c: Call) {
    match c
    case Malloc(sz) => true
    case Free(x) => Live(h, x) && x.page < |h.cm.pages|
  }

  ghost function Do(h: Heap, c: Call): Heap
    requires May(h, c)
  {
    match c
    case Malloc(sz) => Kmalloc(h, sz).0
    case Free(x) => Kfree(h, x)
  }

  /** Any run of calls that frees only blocks in use. */
  ghost predicate Runs(h: Heap, cs: seq<Call>)
    decreases |cs|
  {
    cs == [] || (May(h, cs[0]) && Runs(Do(h, cs[0]), cs[1..]))
  }

  ghost function After(h: Heap, cs: seq<Call>): Heap
    requires Runs(h, cs)
    decreases |cs|
  {
    if cs == [] then h else After(Do(h, cs[0]), cs[1..])
  }

  /** The heap before its first page. */
  function Empty(size: nat, boot: nat): Heap
    requires boot <= size
  {
    Heap(Boot(size, boot), seq(NPAGEREFS, i => false), [])
  }

  lemma {:induction false} RunOk(h: Heap, boot: nat, cs: seq<Call>)
    requires HeapOk(h, boot) && Runs(h, cs)
    ensures HeapOk(After(h, cs), boot)
    decreases |cs|
  {
    if cs != [] {
      match cs[0] {
        case Malloc(sz) => KmallocOk(h, boot, sz);
        case Free(x) => KfreeOk(h, boot, x);
      }
      RunOk(Do(h, cs[0]), boot, cs[1..]);
    }
  }

  /** Going by the calls alone: y was in use, or has been handed out, and has not been freed since. */
  ghost predicate Held(h: Heap, cs: seq<Call>, y: Block, was: bool)
    requires Runs(h, cs)
    decreases |cs|
  {
    if cs == [] then was
    else
      var c := cs[0];
      Held(Do(h, c), cs[1..], y, (was && c != Call.Free(y)) || (c.Malloc? && Kmalloc(h, c.sz).1 == Some(y)))
  }

  lemma {:induction false} LiveHeld(h: Heap, boot: nat, cs: seq<Call>, y: Block)
    requires HeapOk(h, boot) && Runs(h, cs)
    ensures Live(After(h, cs), y) <==> Held(h, cs, y, Live(h, y))
    decreases |cs|
  {
    hide HeapOk, Live, Kmalloc, Kfree;
    if cs == [] {
    } else {
      match cs[0] {
        case Malloc(sz) => KmallocOk(h, boot, sz);
        case Free(x) => KfreeOk(h, boot, x);
      }
      LiveHeld(Do(h, cs[0]), boot, cs[1..], y);
    }
  }

  /**
   * Over every run of kmalloc and kfree from boot, the blocks in use are those handed out and not freed since;
   * they do not overlap; and once none is in use every page and every page reference has been given back.
   */
  lemma EveryRunSound(size: nat, boot: nat, cs: seq<Call>)
    requires 0 < boot <= size && Runs(Empty(size, boot), cs)
    ensures var h := After(Empty(size, boot), cs);
      && HeapOk(h, boot)
      && (forall x :: Live(h, x) <==> Held(Empty(size, boot), cs, x, false))
      && (forall x, y :: Live(h, x) && Live(h, y) && x != y ==> !Overlap(x, y))
      && ((forall x :: !Live(h, x)) ==>
            && h.pages == [] && (forall r :: 0 <= r < |h.refs| ==> !h.refs[r])
            && (forall p :: boot <= p < |h.cm.pages| ==> h.cm.pages[p].state == FREE))
  {
    BootOk(size, boot);
    RunOk(Empty(size, boot), boot, cs);
    var h := After(Empty(size, boot), cs);
    NoneAtBoot(size, boot);
    hide Live, Overlap, Runs, After, Empty, Held;
    forall x
      ensures Live(h, x) <==> Held(Empty(size, boot), cs, x, false)
    {
      LiveHeld(Empty(size, boot), boot, cs, x);
    }
    forall x, y | Live(h, x) && Live(h, y) && x != y
      ensures !Overlap(x, y)
    {
      LiveDisjoint(h, boot, x, y);
    }
    if forall x :: !Live(h, x) {
      NothingLive(h, boot);
    }
  }

  lemma NoneAtBoot(size: nat, boot: nat)
    requires 0 < boot <= size
    ensures forall x :: !Live(Empty(size, boot), x)
  {
  }

  /** A page of the heap has a block in use. */
  lemma SomeLive(h: Heap, boot: nat, i: nat) returns (x: Block)
    requires HeapOk(h, boot) && i < |h.pages|
    ensures Live(h, x)
  {
    hide PerPage, Ok;
    var d := h.pages[i];
    assert DescShape(h, d);
    var e := Elems(d.free);
    var all := Below(PerPage(d.kind));
    if all <= e {
      SubsetSize(all, e);
    }
    var b :| b in all && b !in e;
    x := Sub(d.page, d.kind, b);
    assert LiveIn(d, x);
  }

  lemma NothingLive(h: Heap, boot: nat)
    requires HeapOk(h, boot) && forall x :: !Live(h, x)
    ensures h.pages == [] && (forall r :: 0 <= r < |h.refs| ==> !h.refs[r])
    ensures forall p :: boot <= p < |h.cm.pages| ==> h.cm.pages[p].state == FREE
  {
    if h.pages != [] {
      var x := SomeLive(h, boot, 0);
      assert false;
    }
    forall r | 0 <= r < |h.refs|
      ensures !h.refs[r]
    {
      assert !HasRef(h.pages, r);
    }
    forall p | boot <= p < |h.cm.pages|
      ensures h.cm.pages[p].state == FREE
    {
      NoBlock(h, boot, p);
    }
  }

  lemma NoBlock(h: Heap, boot: nat, p: nat)
    requires HeapOk(h, boot) && h.pages == [] && (forall x :: !Live(h, x)) && boot <= p < |h.cm.pages|
    ensures h.cm.pages[p].state == FREE
  {
    Decomposed(h.cm, boot, p);
    forall g | boot <= g <= p
      ensures !InBlock(h.cm.pages, g, p)
    {
      assert !Live(h, Big(g, h.cm.pages[g].count));
    }
  }
}
