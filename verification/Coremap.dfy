/** The page allocator: one entry per page of memory, searched for runs of free pages from where it last left off. */
module Coremaps {
  datatype PageState = FREE | ALLOCATED | FIXED

  /** count is the size of the block in its first page and 0 elsewhere; space and vaddr are 0 when not set. */
  datatype Page = Page(space: nat, vaddr: nat, count: nat, state: PageState)

  datatype Map = Map(pages: seq<Page>, inUse: int, last: nat)

  datatype Option<T> = None | Some(v: T)

  const BLANK := Page(0, 0, 0, FREE)

  // ---- The search ---------------------------------------------------------

  predicate FreeRun(pages: seq<Page>, p: nat, n: nat) {
    p + n <= |pages| && forall i :: p <= i < p + n ==> pages[i].state == FREE
  }

  /** The first run of n free pages that lies in lo..hi. */
  function FirstRun(pages: seq<Page>, lo: nat, hi: nat, n: nat): (r: Option<nat>)
    ensures r.Some? ==> lo <= r.v && r.v + n <= hi && FreeRun(pages, r.v, n) && forall q :: lo <= q < r.v ==>
      !FreeRun(pages, q, n)
    ensures r.None? ==> forall q :: lo <= q && q + n <= hi ==> !FreeRun(pages, q, n)
    decreases hi - lo
  {
    if lo + n > hi then None
    else if FreeRun(pages, lo, n) then Some(lo)
    else if lo == hi then None
    else FirstRun(pages, lo + 1, hi, n)
  }

  /** From the last page used to the end, and then from the beginning up to it; a run does not cross over. */
  function Find(m: Map, n: nat): Option<nat> {
    var r := FirstRun(m.pages, m.last, |m.pages|, n);
    if r.Some? then r else FirstRun(m.pages, 0, m.last, n)
  }

  /** A block of n pages at p. */
  function Claim(pages: seq<Page>, p: nat, n: nat): (r: seq<Page>)
    requires p + n <= |pages|
    ensures |r| == |pages|
    ensures forall i :: 0 <= i < |r| ==>
      r[i] == if p <= i < p + n then Page(0, 0, if i == p then n else 0, ALLOCATED) else pages[i]
  {
    seq(|pages|, i requires 0 <= i < |pages| =>
      if p <= i < p + n then Page(0, 0, if i == p then n else 0, ALLOCATED) else pages[i])
  }

  function GetPages(m: Map, n: nat): (r: (Map, Option<nat>)) {
    match Find(m, n)
    case Some(p) =>
      if p + n <= |m.pages| && n > 0 then (Map(Claim(m.pages, p, n), m.inUse + n, p + n - 1), Some(p))
      else (m, None)
    case None => (m, None)
  }

  function Clear(pages: seq<Page>, p: nat, n: nat): (r: seq<Page>)
    ensures |r| == |pages|
    ensures forall i :: 0 <= i < |r| ==> r[i] == if p <= i < p + n && pages[i].state != FREE then BLANK else pages[i]
  {
    seq(|pages|, i requires 0 <= i < |pages| => if p <= i < p + n && pages[i].state != FREE then BLANK else pages[i])
  }

  /** Free the block that begins at p; anything but the beginning of a block is left alone. */
  function FreePages(m: Map, p: nat): Map
    requires p < |m.pages|
  {
    var n := m.pages[p].count;
    if n == 0 then m else m.(pages := Clear(m.pages, p, n), inUse := m.inUse - n)
  }

  function SetFixed(m: Map, p: nat, fixed: bool): Map
    requires p < |m.pages|
  {
    if m.pages[p].state == FREE then m
    else m.(pages := m.pages[p := m.pages[p].(state := if fixed then FIXED else ALLOCATED)])
  }

  function SetVaddr(m: Map, p: nat, space: nat, vaddr: nat): Map
    requires p < |m.pages|
  {
    if m.pages[p].state == FREE then m
    else m.(pages := m.pages[p := m.pages[p].(space := space, vaddr := vaddr)])
  }

  // ---- What holds between calls -------------------------------------------

  function Used(pages: seq<Page>): nat {
    if pages == [] then 0 else Used(pages[..|pages| - 1]) + if pages[|pages| - 1].state == FREE then 0 else 1
  }

  ghost predicate InBlock(pages: seq<Page>, h: nat, i: nat) {
    h < |pages| && h <= i < h + pages[h].count
  }

  /** A page before boot is taken for good; one after is blank, or the first of a block, or further on in one. */
  ghost predicate PageOk(pages: seq<Page>, boot: nat, i: nat) {
    i < |pages| ==>
      && (i < boot ==> pages[i].state != FREE && pages[i].count == 0)
      && (pages[i].state == FREE ==> pages[i] == BLANK)
      && (pages[i].count > 0 ==>
            && pages[i].state != FREE && i + pages[i].count <= |pages|
            && forall j :: i < j < i + pages[i].count ==> pages[j].state != FREE && pages[j].count == 0)
      && (i >= boot && pages[i].state != FREE && pages[i].count == 0 ==>
            exists h :: boot <= h < i && InBlock(pages, h, i))
  }

  ghost predicate Ok(m: Map, boot: nat) {
    && (forall i :: 0 <= i < |m.pages| ==> PageOk(m.pages, boot, i))
    && m.inUse == Used(m.pages) && m.last <= |m.pages| && boot <= |m.pages|
  }

  // ---- Counting -----------------------------------------------------------

  lemma {:induction false} UsedUpdate(pages: seq<Page>, i: nat, x: Page)
    requires i < |pages|
    ensures Used(pages[i := x]) ==
      Used(pages) + (if x.state == FREE then 0 else 1) - (if pages[i].state == FREE then 0 else 1)
  {
    var k := |pages| - 1;
    if i == k {
      assert pages[i := x][..k] == pages[..k];
    } else {
      assert pages[i := x][..k] == pages[..k][i := x];
      UsedUpdate(pages[..k], i, x);
    }
  }

  /** Taking n free pages adds n to the count. */
  lemma {:induction false} UsedClaim(pages: seq<Page>, p: nat, n: nat)
    requires FreeRun(pages, p, n)
    ensures Used(Claim(pages, p, n)) == Used(pages) + n
  {
    UsedSame(Claim(pages, p, n), Filled(pages, p, n));
    UsedFilled(pages, p, n);
  }

  function Filled(pages: seq<Page>, p: nat, n: nat): (r: seq<Page>)
    requires p + n <= |pages|
    ensures |r| == |pages|
    ensures forall i :: 0 <= i < |r| ==> r[i] == if p <= i < p + n then Page(0, 0, 0, ALLOCATED) else pages[i]
  {
    if n == 0 then pages else Filled(pages, p, n - 1)[p + n - 1 := Page(0, 0, 0, ALLOCATED)]
  }

  lemma {:induction false} UsedFilled(pages: seq<Page>, p: nat, n: nat)
    requires FreeRun(pages, p, n)
    ensures Used(Filled(pages, p, n)) == Used(pages) + n
  {
    if n > 0 {
      UsedFilled(pages, p, n - 1);
      UsedUpdate(Filled(pages, p, n - 1), p + n - 1, Page(0, 0, 0, ALLOCATED));
    }
  }

  lemma {:induction false} UsedSame(a: seq<Page>, b: seq<Page>)
    requires |a| == |b| && forall i :: 0 <= i < |a| ==> (a[i].state == FREE <==> b[i].state == FREE)
    ensures Used(a) == Used(b)
  {
    if a != [] {
      UsedSame(a[..|a| - 1], b[..|b| - 1]);
    }
  }

  // ---- What each call keeps -----------------------------------------------

  lemma ClaimOk(pages: seq<Page>, boot: nat, p: nat, n: nat, i: nat)
    requires forall i :: 0 <= i < |pages| ==> PageOk(pages, boot, i)
    requires FreeRun(pages, p, n) && n > 0 && i < |pages|
    ensures PageOk(Claim(pages, p, n), boot, i) && p >= boot
  {
    var r := Claim(pages, p, n);
    assert PageOk(pages, boot, p);
    assert PageOk(pages, boot, i);
    if p < i < p + n {
      assert InBlock(r, p, i);
    } else if i != p && i >= boot && pages[i].state != FREE && pages[i].count == 0 {
      var h :| boot <= h < i && InBlock(pages, h, i);
      assert PageOk(pages, boot, h);
      assert InBlock(r, h, i);
    }
  }

  /** The first run at or after the place where the last search ended, or, if there is none, the first before it. */
  ghost predicate NextFit(m: Map, n: nat, p: nat) {
    if p >= m.last then forall q :: m.last <= q < p ==> !FreeRun(m.pages, q, n)
    else
      && p + n <= m.last && (forall q :: 0 <= q < p ==> !FreeRun(m.pages, q, n))
      && forall q :: q >= m.last ==> !FreeRun(m.pages, q, n)
  }

  lemma GetPagesOk(m: Map, boot: nat, n: nat)
    requires Ok(m, boot) && n > 0
    ensures var (m', r) := GetPages(m, n);
      && Ok(m', boot)
      && (r.Some? ==> r.v >= boot && FreeRun(m.pages, r.v, n) && m'.pages == Claim(m.pages, r.v, n))
      && (r.Some? ==> NextFit(m, n, r.v) && m'.last == r.v + n - 1)
      && (r.None? ==> m' == m)
  {
    var (m', r) := GetPages(m, n);
    if r.Some? {
      forall i: nat | i < |m'.pages|
        ensures PageOk(m'.pages, boot, i)
      {
        ClaimOk(m.pages, boot, r.v, n, i);
      }
      ClaimOk(m.pages, boot, r.v, n, r.v);
      UsedClaim(m.pages, r.v, n);
    }
  }

  /** An allocation fails exactly when no run lies wholly below, or wholly at or above, where the last search ended. */
  lemma GetPagesFails(m: Map, n: nat)
    requires n > 0
    ensures GetPages(m, n).1.None? <==>
      forall q: nat :: q >= m.last || q + n <= m.last ==> !FreeRun(m.pages, q, n)
  {
    var a := FirstRun(m.pages, m.last, |m.pages|, n);
    var b := FirstRun(m.pages, 0, m.last, n);
    if GetPages(m, n).1.None? {
      forall q: nat | q >= m.last || q + n <= m.last
        ensures !FreeRun(m.pages, q, n)
      {
      }
    } else {
      var p := GetPages(m, n).1.v;
      assert FreeRun(m.pages, p, n);
    }
  }

  /** The blocks do not overlap. */
  lemma BlocksDisjoint(pages: seq<Page>, boot: nat, g: nat, h: nat, i: nat)
    requires forall i :: 0 <= i < |pages| ==> PageOk(pages, boot, i)
    requires InBlock(pages, g, i) && InBlock(pages, h, i)
    ensures g == h
  {
    assert PageOk(pages, boot, g) && PageOk(pages, boot, h);
  }

  /** Every page is free, or before boot, or in exactly one block. */
  lemma Decomposed(m: Map, boot: nat, i: nat)
    requires Ok(m, boot) && i < |m.pages|
    ensures i < boot ==> m.pages[i].state != FREE && forall h :: 0 <= h ==> !InBlock(m.pages, h, i)
    ensures i >= boot && m.pages[i].state == FREE ==> m.pages[i] == BLANK && forall h :: 0 <= h ==>
      !InBlock(m.pages, h, i)
    ensures i >= boot && m.pages[i].state != FREE ==> exists h :: boot <= h <= i && InBlock(m.pages, h, i)
    ensures forall g, h :: InBlock(m.pages, g, i) && InBlock(m.pages, h, i) ==> g == h
  {
    assert PageOk(m.pages, boot, i);
    forall h: nat | InBlock(m.pages, h, i)
      ensures h >= boot && m.pages[i].state != FREE && i >= boot
    {
      assert PageOk(m.pages, boot, h);
    }
    if i >= boot && m.pages[i].count > 0 {
      assert InBlock(m.pages, i, i);
    }
    forall g, h | InBlock(m.pages, g, i) && InBlock(m.pages, h, i)
      ensures g == h
    {
      BlocksDisjoint(m.pages, boot, g, h, i);
    }
  }

  lemma ClearOk(pages: seq<Page>, boot: nat, p: nat, i: nat)
    requires forall i :: 0 <= i < |pages| ==> PageOk(pages, boot, i)
    requires p < |pages| && pages[p].count > 0 && i < |pages|
    ensures PageOk(Clear(pages, p, pages[p].count), boot, i)
  {
    var n := pages[p].count;
    var r := Clear(pages, p, n);
    assert PageOk(pages, boot, p);
    assert PageOk(pages, boot, i);
    assert i < boot ==> !InBlock(pages, p, i);
    if pages[i].count > 0 && i != p {
      forall j | i < j < i + pages[i].count
        ensures r[j] == pages[j]
      {
      }
      if InBlock(pages, p, i) { BlocksDisjoint(pages, boot, i, p, i); }
    }
    if i >= boot && r[i].state != FREE && r[i].count == 0 {
      var h :| boot <= h < i && InBlock(pages, h, i);
      assert !InBlock(pages, p, i);
      assert PageOk(pages, boot, h);
      assert !InBlock(pages, p, h);
      assert InBlock(r, h, i);
    }
  }

  lemma UsedClear(pages: seq<Page>, p: nat, n: nat)
    requires p + n <= |pages| && forall i :: p <= i < p + n ==> pages[i].state != FREE
    ensures Used(Clear(pages, p, n)) == Used(pages) - n
  {
    var r := Clear(pages, p, n);
    UsedClaim(r, p, n);
    UsedSame(Claim(r, p, n), pages);
  }

  /** Freeing keeps the map in order; it changes the block that begins at p and nothing else. */
  lemma FreePagesOk(m: Map, boot: nat, p: nat)
    requires Ok(m, boot) && p < |m.pages|
    ensures var m' := FreePages(m, p); var n := m.pages[p].count;
      && Ok(m', boot) && |m'.pages| == |m.pages| && m'.last == m.last
      && forall i :: 0 <= i < |m.pages| ==> m'.pages[i] == if p <= i < p + n then BLANK else m.pages[i]
  {
    assert PageOk(m.pages, boot, p);
    var m' := FreePages(m, p);
    if m.pages[p].count > 0 {
      forall i: nat | i < |m'.pages|
        ensures PageOk(m'.pages, boot, i)
      {
        ClearOk(m.pages, boot, p, i);
      }
      UsedClear(m.pages, p, m.pages[p].count);
    }
  }

  /** Freeing a page in the middle of a block, or one that is free already, changes nothing. */
  lemma FreeAgain(m: Map, boot: nat, p: nat)
    requires Ok(m, boot) && p < |m.pages|
    ensures m.pages[p].state == FREE || (exists h :: h != p && InBlock(m.pages, h, p)) ==> FreePages(m, p) == m
    ensures FreePages(FreePages(m, p), p) == FreePages(m, p)
  {
    assert PageOk(m.pages, boot, p);
    if exists h :: h != p && InBlock(m.pages, h, p) {
      var h :| h != p && InBlock(m.pages, h, p);
      assert PageOk(m.pages, boot, h);
    }
    FreePagesOk(m, boot, p);
  }

  /** Getting pages and freeing them gives back what there was, but for where the next search begins. */
  lemma GetThenFree(m: Map, boot: nat, n: nat)
    requires Ok(m, boot) && n > 0 && GetPages(m, n).1.Some?
    ensures var (m', r) := GetPages(m, n); FreePages(m', r.v) == m.(last := m'.last)
  {
    GetPagesOk(m, boot, n);
    var (m', r) := GetPages(m, n);
    FreePagesOk(m', boot, r.v);
    forall i: nat | i < |m.pages|
      ensures FreePages(m', r.v).pages[i] == m.pages[i]
    {
      assert PageOk(m.pages, boot, i);
    }
  }

  /** Fixing a page, or noting what is mapped there, leaves the blocks as they are. */
  lemma MarkOk(m: Map, boot: nat, p: nat, x: Page)
    requires Ok(m, boot) && p < |m.pages| && m.pages[p].state != FREE && x.state != FREE && x.count == m.pages[p].count
    ensures Ok(m.(pages := m.pages[p := x]), boot)
  {
    var r := m.pages[p := x];
    UsedSame(r, m.pages);
    forall i: nat | i < |r|
      ensures PageOk(r, boot, i)
    {
      assert PageOk(m.pages, boot, i);
      if i >= boot && r[i].state != FREE && r[i].count == 0 {
        var h :| boot <= h < i && InBlock(m.pages, h, i);
        assert InBlock(r, h, i);
      }
    }
  }

  // ---- Every run ----------------------------------------------------------

  datatype Op = Get(n: nat) | Free(p: nat) | Fix(p: nat, fixed: bool) | Note(p: nat, space: nat, vaddr: nat)

  predicate Allowed(m: Map, op: Op) {
    match op
    case Get(n) => n > 0
    case Free(p) => p < |m.pages|
    case Fix(p, _) => p < |m.pages|
    case Note(p, _, _) => p < |m.pages|
  }

  function Step(m: Map, op: Op): Map
    requires Allowed(m, op)
  {
    match op
    case Get(n) => GetPages(m, n).0
    case Free(p) => FreePages(m, p)
    case Fix(p, fixed) => SetFixed(m, p, fixed)
    case Note(p, space, vaddr) => SetVaddr(m, p, space, vaddr)
  }

  function Boot(size: nat, boot: nat): Map
    requires boot <= size
  {
    Map(seq(size, i => if i < boot then Page(0, 0, 0, FIXED) else BLANK), boot, 0)
  }

  lemma BootOk(size: nat, boot: nat)
    requires boot <= size
    ensures Ok(Boot(size, boot), boot)
  {
    var m := Boot(size, boot);
    var blank := seq(size, i => BLANK);
    UsedBlank(blank);
    UsedClaim(blank, 0, boot);
    UsedSame(m.pages, Claim(blank, 0, boot));
  }

  lemma {:induction false} UsedBlank(pages: seq<Page>)
    requires forall i :: 0 <= i < |pages| ==> pages[i].state == FREE
    ensures Used(pages) == 0
  {
    if pages != [] {
      UsedBlank(pages[..|pages| - 1]);
    }
  }

  predicate Runs(m: Map, ops: seq<Op>)
    decreases |ops|
  {
    ops == [] || (Allowed(m, ops[0]) && Runs(Step(m, ops[0]), ops[1..]))
  }

  function After(m: Map, ops: seq<Op>): Map
    requires Runs(m, ops)
    decreases |ops|
  {
    if ops == [] then m else After(Step(m, ops[0]), ops[1..])
  }

  lemma StepOk(m: Map, boot: nat, op: Op)
    requires Ok(m, boot) && Allowed(m, op)
    ensures Ok(Step(m, op), boot)
  {
    match op
    case Get(n) => GetPagesOk(m, boot, n);
    case Free(p) => FreePagesOk(m, boot, p);
    case Fix(p, fixed) =>
      if m.pages[p].state != FREE {
        MarkOk(m, boot, p, m.pages[p].(state := if fixed then FIXED else ALLOCATED));
      }
    case Note(p, space, vaddr) =>
      if m.pages[p].state != FREE {
        MarkOk(m, boot, p, m.pages[p].(space := space, vaddr := vaddr));
      }
  }

  /** Nothing has changed but the state of a page. */
  predicate OnlyState(was: seq<Page>, now: seq<Page>, p: nat) {
    && |now| == |was| && (forall i :: 0 <= i < |was| && i != p ==> now[i] == was[i])
    && (p < |was| ==> now[p].count == was[p].count && now[p].space == was[p].space && now[p].vaddr == was[p].vaddr)
  }

  /** Nothing has changed but the note of a page. */
  predicate OnlyNote(was: seq<Page>, now: seq<Page>, p: nat) {
    && |now| == |was| && (forall i :: 0 <= i < |was| && i != p ==> now[i] == was[i])
    && (p < |was| ==> now[p].count == was[p].count && now[p].state == was[p].state)
  }

  /** What each call makes of the map. */
  ghost predicate Effect(m: Map, op: Op, m': Map)
    requires Allowed(m, op)
  {
    match op
    case Get(n) =>
      if forall q: nat :: q >= m.last || q + n <= m.last ==> !FreeRun(m.pages, q, n) then m' == m
      else
        exists p: nat ::
          && FreeRun(m.pages, p, n) && NextFit(m, n, p)
          && m' == Map(Claim(m.pages, p, n), m.inUse + n, p + n - 1)
    case Free(p) =>
      && |m'.pages| == |m.pages| && m'.last == m.last && m'.inUse == m.inUse - m.pages[p].count
      && forall i :: 0 <= i < |m.pages| ==>
            m'.pages[i] == if p <= i < p + m.pages[p].count then BLANK else m.pages[i]
    case Fix(p, fixed) =>
      && OnlyState(m.pages, m'.pages, p) && m'.inUse == m.inUse && m'.last == m.last
      && m'.pages[p].state == if m.pages[p].state == FREE then FREE else if fixed then FIXED else ALLOCATED
    case Note(p, space, vaddr) =>
      && OnlyNote(m.pages, m'.pages, p) && m'.inUse == m.inUse && m'.last == m.last
      && (m.pages[p].state == FREE ==> m'.pages[p] == m.pages[p])
      && (m.pages[p].state != FREE ==> m'.pages[p].space == space && m'.pages[p].vaddr == vaddr)
  }

  /** Each call of a run does what it should, and nothing else. */
  lemma StepIs(m: Map, boot: nat, op: Op)
    requires Ok(m, boot) && Allowed(m, op)
    ensures Effect(m, op, Step(m, op))
  {
    match op
    case Get(n) =>
      GetPagesOk(m, boot, n);
      GetPagesFails(m, n);
      hide FirstRun, Ok, NextFit, Claim, FreeRun;
      if GetPages(m, n).1.Some? {
        assert NextFit(m, n, GetPages(m, n).1.v);
      }
    case Free(p) => FreePagesOk(m, boot, p);
    case Fix(p, fixed) =>
    case Note(p, space, vaddr) =>
  }

  lemma {:induction false} RunOk(m: Map, boot: nat, ops: seq<Op>)
    requires Ok(m, boot) && Runs(m, ops)
    ensures Ok(After(m, ops), boot)
    decreases |ops|
  {
    if ops != [] {
      StepOk(m, boot, ops[0]);
      RunOk(Step(m, ops[0]), boot, ops[1..]);
    }
  }

  // ---- A run across the place where the search begins ----------------------

  /** One page is found at or after that place if there is one there, and before it otherwise. */
  lemma GetOne(m: Map, p: nat)
    requires FreeRun(m.pages, p, 1)
    requires p >= m.last ==> forall q :: m.last <= q < p ==> !FreeRun(m.pages, q, 1)
    requires p < m.last ==> forall q :: m.last <= q < |m.pages| || 0 <= q < p ==> !FreeRun(m.pages, q, 1)
    ensures GetPages(m, 1) == (Map(Claim(m.pages, p, 1), m.inUse + 1, p), Some(p))
  {
  }

  function FourPages(a: Page, b: Page, c: Page, used: nat, last: nat): Map {
    Map([Page(0, 0, 0, FIXED), a, b, c], used, last)
  }

  lemma FourGet(a: Page, b: Page, c: Page, used: nat, last: nat, p: nat)
    requires 1 <= p <= 3 && last <= 3
    requires var m := FourPages(a, b, c, used, last);
      && m.pages[p].state == FREE
      && (p >= last ==> forall q :: last <= q < p ==> m.pages[q].state != FREE)
      && (p < last ==> forall q :: 0 <= q < 4 && (q >= last || q < p) ==> m.pages[q].state != FREE)
    ensures var t := Page(0, 0, 1, ALLOCATED);
      Step(FourPages(a, b, c, used, last), Get(1)) ==
        FourPages(if p == 1 then t else a, if p == 2 then t else b, if p == 3 then t else c, used + 1, p)
  {
    var m := FourPages(a, b, c, used, last);
    assert forall q: nat :: q < 4 ==> (FreeRun(m.pages, q, 1) <==> m.pages[q].state == FREE);
    GetOne(m, p);
    hide GetPages;
    var t := Page(0, 0, 1, ALLOCATED);
    assert Claim(m.pages, p, 1) ==
      [Page(0, 0, 0, FIXED), if p == 1 then t else a, if p == 2 then t else b, if p == 3 then t else c];
  }

  lemma FourFree(a: Page, b: Page, c: Page, used: nat, last: nat, p: nat)
    requires 1 <= p <= 3 && used > 0 && FourPages(a, b, c, used, last).pages[p] == Page(0, 0, 1, ALLOCATED)
    ensures Step(FourPages(a, b, c, used, last), Free(p)) ==
      FourPages(if p == 1 then BLANK else a, if p == 2 then BLANK else b, if p == 3 then BLANK else c, used - 1, last)
  {
    var m := FourPages(a, b, c, used, last);
    assert Clear(m.pages, p, 1) ==
      [Page(0, 0, 0, FIXED), if p == 1 then BLANK else a, if p == 2 then BLANK else b, if p == 3 then BLANK else c];
  }

  lemma OneMore(m: Map, ops: seq<Op>, m': Map)
    requires ops != [] && Allowed(m, ops[0]) && Step(m, ops[0]) == m' && Runs(m', ops[1..])
    ensures Runs(m, ops) && After(m, ops) == After(m', ops[1..])
  {
    hide Step;
  }

  /** Seven calls on a machine with three pages to spare. */
  const STRADDLE: seq<Op> := [Get(1), Get(1), Get(1), Free(2), Get(1), Free(1), Free(2)]

  lemma StraddleRuns()
    ensures Runs(Boot(4, 1), STRADDLE)
    ensures After(Boot(4, 1), STRADDLE) == FourPages(BLANK, BLANK, Page(0, 0, 1, ALLOCATED), 2, 2)
  {
    var t, o := Page(0, 0, 1, ALLOCATED), STRADDLE;
    assert Boot(4, 1) == FourPages(BLANK, BLANK, BLANK, 1, 0);
    FourGet(BLANK, BLANK, BLANK, 1, 0, 1);
    FourGet(t, BLANK, BLANK, 2, 1, 2);
    FourGet(t, t, BLANK, 3, 2, 3);
    FourFree(t, t, t, 4, 3, 2);
    FourGet(t, BLANK, t, 3, 3, 2);
    FourFree(t, t, t, 4, 2, 1);
    FourFree(BLANK, t, t, 3, 2, 2);
    hide Step, Boot;
    OneMore(FourPages(BLANK, t, t, 3, 2), o[6..], FourPages(BLANK, BLANK, t, 2, 2));
    OneMore(FourPages(t, t, t, 4, 2), o[5..], FourPages(BLANK, t, t, 3, 2));
    OneMore(FourPages(t, BLANK, t, 3, 3), o[4..], FourPages(t, t, t, 4, 2));
    OneMore(FourPages(t, t, t, 4, 3), o[3..], FourPages(t, BLANK, t, 3, 3));
    OneMore(FourPages(t, t, BLANK, 3, 2), o[2..], FourPages(t, t, t, 4, 3));
    OneMore(FourPages(t, BLANK, BLANK, 2, 1), o[1..], FourPages(t, t, BLANK, 3, 2));
    OneMore(FourPages(BLANK, BLANK, BLANK, 1, 0), o, FourPages(t, BLANK, BLANK, 2, 1));
  }

  /**
   * A free run across that place is not found: seven calls after boot, two pages in a row are free and asking for two
   * fails.
   */
  lemma StraddlingRunMissed()
    ensures Runs(Boot(4, 1), STRADDLE)
    ensures var m := After(Boot(4, 1), STRADDLE); FreeRun(m.pages, 1, 2) && GetPages(m, 2).1.None?
  {
    hide Runs, After, Boot, GetPages, FreeRun, FourPages;
    StraddleRuns();
    TwoMissed();
  }

  lemma TwoMissed()
    ensures var m := FourPages(BLANK, BLANK, Page(0, 0, 1, ALLOCATED), 2, 2);
      FreeRun(m.pages, 1, 2) && GetPages(m, 2).1.None?
  {
    hide GetPages;
    var m := FourPages(BLANK, BLANK, Page(0, 0, 1, ALLOCATED), 2, 2);
    forall q: nat | q >= 2 || q + 2 <= 2
      ensures !FreeRun(m.pages, q, 2)
    {
      assert q == 0 ==> m.pages[q].state != FREE;
      assert q == 2 ==> m.pages[q + 1].state != FREE;
    }
    GetPagesFails(m, 2);
  }

  /**
   * Whatever is allocated, freed, fixed or mapped, in any order, from boot: every page is free, or one of
   * the boot pages, or in exactly one block, and the count of pages in use is the number that are not free.
   */
  lemma EveryRunDecomposes(size: nat, boot: nat, ops: seq<Op>, i: nat)
    requires boot <= size && Runs(Boot(size, boot), ops)
    ensures var m := After(Boot(size, boot), ops);
      && m.inUse == Used(m.pages)
      && (i < |m.pages| && i < boot ==> m.pages[i].state != FREE)
      && (boot <= i < |m.pages| && m.pages[i].state != FREE ==> exists h :: boot <= h <= i && InBlock(m.pages, h, i))
      && (i < |m.pages| && m.pages[i].state == FREE ==> forall h :: 0 <= h ==> !InBlock(m.pages, h, i))
      && (forall g, h :: i < |m.pages| && InBlock(m.pages, g, i) && InBlock(m.pages, h, i) ==> g == h)
  {
    BootOk(size, boot);
    RunOk(Boot(size, boot), boot, ops);
    var m := After(Boot(size, boot), ops);
    if i < |m.pages| {
      Decomposed(m, boot, i);
    }
  }

  // ---- The allocator as the kernel runs it ---------------------------------

  class Coremap {
    const pages: array<Page>
    var inUse: int
    var last: nat

    ghost function View(): Map
      reads this, pages
    {
      Map(pages[..], inUse, last)
    }

    /** Everything below the first free page is taken for good. */
    constructor (size: nat, first: nat)
      requires first <= size
      ensures View() == Boot(size, first) && fresh(pages)
    {
      var a := new Page[size](_ => BLANK);
      pages := a;
      inUse, last := 0, 0;
      new;
      for i := 0 to first
        invariant inUse == i && last == 0 && pages == a
        invariant forall j :: 0 <= j < size ==> a[j] == if j < i then Page(0, 0, 0, FIXED) else BLANK
      {
        pages[i] := Page(0, 0, 0, FIXED);
        inUse := inUse + 1;
      }
    }

    /** One pass of the search, over lo..hi. */
    method Scan(lo: nat, hi: nat, npages: nat) returns (page: int)
      requires npages > 0 && hi <= pages.Length
      modifies this`last
      ensures FirstRun(pages[..], lo, hi, npages) == if page >= 0 then Some(page) else None
      ensures page >= -1 && last == if page >= 0 then page + npages - 1 else old(last)
    {
      var free := 0;
      var i := lo;
      while i < hi
        invariant lo <= i && (i <= hi || i == lo) && free <= i - lo && free < npages && last == old(last)
        invariant i > hi ==> free == 0
        invariant forall j :: i - free <= j < i ==> pages[j].state == FREE
        invariant forall q: nat :: lo <= q < i - free ==> !FreeRun(pages[..], q, npages)
      {
        if pages[i].state == FREE {
          free := free + 1;
        } else {
          NoRunAcross(pages[..], i, npages);
          free := 0;
        }
        if free == npages {
          page := i - (npages - 1);
          last := i;
          FirstIs(pages[..], lo, hi, npages, page);
          return;
        }
        i := i + 1;
      }
      page := -1;
      NoRunLeft(pages[..], lo, hi, npages, i, free);
    }

    method GetFreePages(npages: nat) returns (page: int)
      requires npages > 0 && last <= pages.Length
      modifies this`last
      ensures Find(old(View()), npages) == if page >= 0 then Some(page) else None
      ensures page >= -1 && last == if page >= 0 then page + npages - 1 else old(last)
    {
      page := Scan(last, pages.Length, npages);
      if page < 0 {
        page := Scan(0, last, npages);
      }
    }

    method Get(npages: nat) returns (page: int)
      requires npages > 0 && last <= pages.Length
      modifies this, pages
      ensures page >= -1 && (View(), if page >= 0 then Some(page) else None) == GetPages(old(View()), npages)
    {
      ghost var was := pages[..];
      page := GetFreePages(npages);
      if page >= 0 {
        pages[page] := Page(0, 0, npages, ALLOCATED);
        for i := 1 to npages
          invariant inUse == old(inUse) && last == page + npages - 1
          invariant forall j :: 0 <= j < |was| ==>
            pages[j] == if page <= j < page + i then Page(0, 0, if j == page then npages else 0, ALLOCATED) else was[j]
        {
          pages[page + i] := Page(0, 0, 0, ALLOCATED);
        }
        inUse := inUse + npages;
        assert pages[..] == Claim(was, page, npages);
      }
    }

    method Free(page: nat, ghost boot: nat)
      requires Ok(View(), boot) && page < pages.Length
      modifies this`inUse, pages
      ensures View() == FreePages(old(View()), page)
    {
      ghost var was := pages[..];
      var npages := pages[page].count;
      assert PageOk(was, boot, page);
      if npages != 0 {
        for i := 0 to npages
          invariant inUse == old(inUse)
          invariant forall j :: 0 <= j < |was| ==>
            pages[j] == if page <= j < page + i && was[j].state != FREE then BLANK else was[j]
        {
          if pages[page + i].state == ALLOCATED || pages[page + i].state == FIXED {
            pages[page + i] := BLANK;
          }
        }
        inUse := inUse - npages;
        assert pages[..] == Clear(was, page, npages);
      }
    }

    method SetPageFixed(page: nat, fixed: bool)
      requires page < pages.Length
      modifies pages
      ensures View() == SetFixed(old(View()), page, fixed)
      ensures old(pages[page].state) == FREE ==> pages[..] == old(pages[..])
      ensures old(pages[page].state) != FREE ==>
        pages[page].state == (if fixed then FIXED else ALLOCATED) && OnlyState(old(pages[..]), pages[..], page)
    {
      if pages[page].state != FREE {
        pages[page] := pages[page].(state := if fixed then FIXED else ALLOCATED);
      }
    }

    method SetPageVaddr(page: nat, space: nat, vaddr: nat)
      requires page < pages.Length
      modifies pages
      ensures View() == SetVaddr(old(View()), page, space, vaddr)
      ensures old(pages[page].state) == FREE ==> pages[..] == old(pages[..])
      ensures old(pages[page].state) != FREE ==>
        pages[page].space == space && pages[page].vaddr == vaddr && OnlyNote(old(pages[..]), pages[..], page)
    {
      if pages[page].state != FREE {
        pages[page] := pages[page].(space := space, vaddr := vaddr);
      }
    }
  }

  lemma NoRunAcross(pages: seq<Page>, i: nat, n: nat)
    requires i < |pages| && pages[i].state != FREE
    ensures forall q: nat :: q <= i < q + n ==> !FreeRun(pages, q, n)
  {
  }

  lemma FirstIs(pages: seq<Page>, lo: nat, hi: nat, n: nat, p: nat)
    requires lo <= p && p + n <= hi && FreeRun(pages, p, n)
    requires forall q: nat :: lo <= q < p ==> !FreeRun(pages, q, n)
    ensures FirstRun(pages, lo, hi, n) == Some(p)
  {
    hide FirstRun;
    var r := FirstRun(pages, lo, hi, n);
  }

  lemma NoRunLeft(pages: seq<Page>, lo: nat, hi: nat, n: nat, i: nat, free: nat)
    requires i >= hi && i >= lo && free < n && (i == hi || i == lo) && free <= i - lo
    requires forall q: nat :: lo <= q < i - free ==> !FreeRun(pages, q, n)
    ensures FirstRun(pages, lo, hi, n).None?
  {
  }
}
