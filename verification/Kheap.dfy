/** The kernel heap as values: pages cut into blocks of one size, over whole pages from the coremap. */
module Kheaps {
  import opened Arith
  import opened Coremaps

  const PAGE_SIZE := 4096
  const NSIZES := 8
  const LARGEST := 2048
  const NPAGEREFS := 256
  const KSEG0 := 0x8000_0000

  function Size(kind: nat): nat {
    if kind == 0 then 16 else if kind == 1 then 32 else if kind == 2 then 64 else if kind == 3 then 128
    else if kind == 4 then 256 else if kind == 5 then 512 else if kind == 6 then 1024 else 2048
  }

  function PerPage(kind: nat): nat {
    PAGE_SIZE / Size(kind)
  }

  /** A page in use: its page reference, its number, the index of its block size, and its free list, head first. */
  datatype Desc = Desc(ref: nat, page: nat, kind: nat, free: seq<nat>)

  /** The pages are in the order of the list of all pages. */
  datatype Heap = Heap(cm: Map, refs: seq<bool>, pages: seq<Desc>)

  datatype Block = Sub(page: nat, kind: nat, b: nat) | Big(page: nat, n: nat)

  function Addr(x: Block): nat {
    match x
    case Sub(page, kind, b) => KSEG0 + page * PAGE_SIZE + b * Size(kind)
    case Big(page, n) => KSEG0 + page * PAGE_SIZE
  }

  function Bytes(x: Block): nat {
    match x
    case Sub(page, kind, b) => Size(kind)
    case Big(page, n) => n * PAGE_SIZE
  }

  // ---- Operations ---------------------------------------------------------

  function KindOf(sz: nat): (k: nat)
    ensures k < NSIZES && (sz <= LARGEST ==> sz <= Size(k)) && forall j :: 0 <= j < k ==> Size(j) < sz
  {
    if sz <= 16 then 0 else if sz <= 32 then 1 else if sz <= 64 then 2 else if sz <= 128 then 3
    else if sz <= 256 then 4 else if sz <= 512 then 5 else if sz <= 1024 then 6 else 7
  }

  /** The first page of a kind with a block to spare. */
  function Available(pages: seq<Desc>, kind: nat): (i: nat)
    ensures i <= |pages| && (i < |pages| ==> pages[i].kind == kind && pages[i].free != [])
    ensures forall j :: 0 <= j < i ==> pages[j].kind != kind || pages[j].free == []
  {
    if pages == [] || (pages[0].kind == kind && pages[0].free != []) then 0 else 1 + Available(pages[1..], kind)
  }

  function FirstClear(bits: seq<bool>): (i: nat)
    ensures i <= |bits| && (i < |bits| ==> !bits[i]) && forall j :: 0 <= j < i ==> bits[j]
  {
    if bits == [] || !bits[0] then 0 else 1 + FirstClear(bits[1..])
  }

  /** Take the head of the free list of page i. */
  function Take(h: Heap, i: nat): (Heap, Block)
    requires i < |h.pages| && h.pages[i].free != []
  {
    var d := h.pages[i];
    (h.(pages := h.pages[i := d.(free := d.free[1..])]), Sub(d.page, d.kind, d.free[0]))
  }

  /** A fresh page's free list runs from its last block to its first. */
  function Downto(n: nat): (s: seq<nat>)
    ensures |s| == n && forall i :: 0 <= i < n ==> s[i] == n - 1 - i
  {
    seq(n, i requires 0 <= i < n => n - 1 - i)
  }

  /** A new page of a kind, if there is a page reference and a page for it. */
  function NewPage(h: Heap, kind: nat): Option<Heap> {
    var r := FirstClear(h.refs);
    if r >= |h.refs| then None
    else
      match GetPages(h.cm, 1)
      case (cm, None) => None
      case (cm, Some(p)) => Some(Heap(cm, h.refs[r := true], [Desc(r, p, kind, Downto(PerPage(kind)))] + h.pages))
  }

  function SubAlloc(h: Heap, sz: nat): (Heap, Option<Block>)
    requires sz < LARGEST
  {
    var kind := KindOf(sz);
    var i := Available(h.pages, kind);
    if i < |h.pages| then var (h', x) := Take(h, i); (h', Some(x))
    else
      match NewPage(h, kind)
      case None => (h, None)
      case Some(h1) =>
        if h1.pages != [] && h1.pages[0].free != [] then var (h', x) := Take(h1, 0); (h', Some(x)) else (h, None)
  }

  function Kmalloc(h: Heap, sz: nat): (Heap, Option<Block>) {
    if sz >= LARGEST then
      var n := (sz + PAGE_SIZE - 1) / PAGE_SIZE;
      match GetPages(h.cm, n)
      case (cm, None) => (h, None)
      case (cm, Some(p)) => (h.(cm := cm), Some(Big(p, n)))
    else
      SubAlloc(h, sz)
  }

  /** The page of the heap that an address lies in. */
  function Holding(pages: seq<Desc>, page: nat): (i: nat)
    ensures i <= |pages| && (i < |pages| ==> pages[i].page == page)
    ensures forall j :: 0 <= j < i ==> pages[j].page != page
  {
    if pages == [] || pages[0].page == page then 0 else 1 + Holding(pages[1..], page)
  }

  /** The list without its item i. */
  function Without(ds: seq<Desc>, i: nat): (r: seq<Desc>)
    ensures i < |ds| ==> |r| == |ds| - 1 && forall j :: 0 <= j < |r| ==> r[j] == ds[if j < i then j else j + 1]
  {
    if i < |ds| then ds[..i] + ds[i + 1..] else ds
  }

  /** Put a block back at the head of its page's free list; a page all free goes back to the coremap. */
  function SubFree(h: Heap, i: nat, b: nat): Heap
    requires i < |h.pages| && h.pages[i].page < |h.cm.pages|
  {
    var d := h.pages[i];
    var d' := d.(free := [b] + d.free);
    if |d'.free| == PerPage(d.kind) then
      Heap(FreePages(h.cm, d.page), if d.ref < |h.refs| then h.refs[d.ref := false] else h.refs, Without(h.pages, i))
    else
      h.(pages := h.pages[i := d'])
  }

  function Kfree(h: Heap, x: Block): Heap
    requires x.page < |h.cm.pages|
  {
    var i := Holding(h.pages, x.page);
    if i < |h.pages| then SubFree(h, i, if x.Sub? then x.b else 0)
    else h.(cm := FreePages(h.cm, x.page))
  }

  // ---- What holds between calls -------------------------------------------

  ghost predicate NoDup(s: seq<nat>) {
    forall i, j :: 0 <= i < j < |s| ==> s[i] != s[j]
  }

  /** A page has a free list of distinct blocks; it is a block of its own in the coremap. */
  ghost predicate DescShape(h: Heap, d: Desc) {
    && d.kind < NSIZES && d.ref < |h.refs| && h.refs[d.ref]
    && NoDup(d.free) && (forall b :: b in d.free ==> b < PerPage(d.kind))
    && d.page < |h.cm.pages| && h.cm.pages[d.page].count == 1
  }

  ghost predicate Distinct(pages: seq<Desc>) {
    forall i, j :: 0 <= i < j < |pages| ==> pages[i].ref != pages[j].ref && pages[i].page != pages[j].page
  }

  ghost predicate HasRef(pages: seq<Desc>, r: nat) {
    exists i :: 0 <= i < |pages| && pages[i].ref == r
  }

  ghost predicate HeapShape(h: Heap, boot: nat) {
    && Ok(h.cm, boot) && boot > 0 && |h.refs| == NPAGEREFS
    && (forall i :: 0 <= i < |h.pages| ==> DescShape(h, h.pages[i]))
    && Distinct(h.pages)
    && (forall r :: 0 <= r < |h.refs| && h.refs[r] ==> HasRef(h.pages, r))
  }

  ghost predicate HeapOk(h: Heap, boot: nat) {
    HeapShape(h, boot) && forall i :: 0 <= i < |h.pages| ==> |h.pages[i].free| < PerPage(h.pages[i].kind)
  }

  /**
   * A block in use: a block of a heap page that is not on its free list, or a block of the coremap that is not a heap
   * page.
   */
  ghost predicate Live(h: Heap, x: Block) {
    match x
    case Sub(page, kind, b) => exists i :: 0 <= i < |h.pages| && LiveIn(h.pages[i], x)
    case Big(page, n) =>
      page < |h.cm.pages| && n > 0 && h.cm.pages[page].count == n && Holding(h.pages, page) == |h.pages|
  }

  predicate LiveIn(d: Desc, x: Block) {
    x.Sub? && d.page == x.page && d.kind == x.kind && x.b < PerPage(d.kind) && x.b !in d.free
  }

  // ---- Live blocks --------------------------------------------------------

  predicate Covers(x: Block, a: nat) {
    Addr(x) <= a < Addr(x) + Bytes(x)
  }

  ghost predicate Overlap(x: Block, y: Block) {
    exists a :: Covers(x, a) && Covers(y, a)
  }

  lemma SizeFacts(kind: nat)
    requires kind < NSIZES
    ensures Size(kind) >= 16 && Size(kind) % 16 == 0 && PerPage(kind) * Size(kind) == PAGE_SIZE && PerPage(kind) >= 2
    ensures PerPage(kind) <= 256
  {
  }

  /** A block of a page lies in its page. */
  lemma SubInPage(x: Block)
    requires x.Sub? && x.kind < NSIZES && x.b < PerPage(x.kind)
    ensures KSEG0 + x.page * PAGE_SIZE <= Addr(x) && Addr(x) + Bytes(x) <= KSEG0 + (x.page + 1) * PAGE_SIZE
    ensures Addr(x) % 16 == 0
  {
    SizeFacts(x.kind);
    InPage(x.b, PerPage(x.kind), Size(x.kind));
  }

  lemma InPage(b: nat, n: nat, s: nat)
    requires b < n && n * s == PAGE_SIZE && s % 16 == 0
    ensures b * s + s <= PAGE_SIZE && (b * s) % 16 == 0
  {
    MulLe(s, b + 1, n);
    assert s * (b + 1) == b * s + s && s * n == n * s;
    var k := s / 16;
    assert b * s == 16 * (b * k);
    Multiple(b * k);
  }

  lemma Multiple(k: nat)
    ensures 16 * k % 16 == 0
  {
  }

  /** The pages a block lies in. */
  ghost predicate InPages(x: Block, p: nat) {
    if x.Sub? then p == x.page else x.page <= p < x.page + x.n
  }

  lemma BytesInPages(x: Block, a: nat)
    requires Covers(x, a) && (x.Sub? ==> x.kind < NSIZES && x.b < PerPage(x.kind))
    ensures a >= KSEG0 && InPages(x, (a - KSEG0) / PAGE_SIZE)
  {
    if x.Sub? {
      SubInPage(x);
    }
  }

  lemma LiveSub(h: Heap, boot: nat, x: Block) returns (i: nat)
    requires HeapShape(h, boot) && Live(h, x) && x.Sub?
    ensures i < |h.pages| && LiveIn(h.pages[i], x) && DescShape(h, h.pages[i])
  {
    i :| 0 <= i < |h.pages| && LiveIn(h.pages[i], x);
  }

  /** The coremap block a live block lies in. */
  lemma LivePages(h: Heap, boot: nat, x: Block, p: nat)
    requires HeapOk(h, boot) && Live(h, x) && InPages(x, p)
    ensures InBlock(h.cm.pages, x.page, p)
  {
    if x.Sub? {
      var i := LiveSub(h, boot, x);
    }
  }

  /** Live blocks do not overlap. */
  lemma LiveDisjoint(h: Heap, boot: nat, x: Block, y: Block)
    requires HeapOk(h, boot) && Live(h, x) && Live(h, y) && x != y
    ensures !Overlap(x, y)
  {
    if x.Sub? { var i := LiveSub(h, boot, x); }
    if y.Sub? { var i := LiveSub(h, boot, y); }
    if Overlap(x, y) {
      var a: nat :| Covers(x, a) && Covers(y, a);
      BytesInPages(x, a);
      BytesInPages(y, a);
      var p := (a - KSEG0) / PAGE_SIZE;
      LivePages(h, boot, x, p);
      LivePages(h, boot, y, p);
      BlocksDisjoint(h.cm.pages, boot, x.page, y.page, p);
      SamePage(h, boot, x, y, a);
    }
  }

  lemma SamePage(h: Heap, boot: nat, x: Block, y: Block, a: nat)
    requires HeapOk(h, boot) && Live(h, x) && Live(h, y) && x.page == y.page
    requires Covers(x, a) && Covers(y, a)
    ensures x == y
  {
    if x.Sub? && y.Sub? {
      var i := LiveSub(h, boot, x);
      var j := LiveSub(h, boot, y);
      assert i == j;
      SameBlock(x.b, y.b, Size(x.kind), a - KSEG0 - x.page * PAGE_SIZE);
    } else if x.Sub? {
      var i := LiveSub(h, boot, x);
    } else if y.Sub? {
      var i := LiveSub(h, boot, y);
    }
  }

  lemma SameBlock(b: nat, c: nat, s: nat, o: int)
    requires b * s <= o < b * s + s && c * s <= o < c * s + s
    ensures b == c
  {
    assert b < c ==> (b + 1) * s <= c * s;
    assert c < b ==> (c + 1) * s <= b * s;
  }
}
