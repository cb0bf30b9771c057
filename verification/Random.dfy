/** The additive feedback generator of the C library and its switching between state tables. */
module Randoms {
  import opened Arith

  const MAX_TYPES := 5
  const WORD := 0x1_0000_0000
  const HALF := 0x8000_0000

  /** Degree and separation of the trinomial of each type; type 0 is a linear congruential generator. */
  function Deg(typ: nat): nat {
    if typ == 1 then 7 else if typ == 2 then 15 else if typ == 3 then 31 else if typ == 4 then 63 else 0
  }

  function Sep(typ: nat): nat {
    if typ == 1 then 3 else if typ == 2 then 1 else if typ == 3 then 3 else if typ == 4 then 1 else 0
  }

  /** A table, word 0 of which says the type and the position saved; front and rear count from word 1. */
  datatype Gen = Gen(typ: nat, table: seq<nat>, f: nat, r: nat)

  predicate Roomy(typ: nat, table: seq<nat>) {
    typ < MAX_TYPES && |table| >= 2 && |table| >= 1 + Deg(typ)
  }

  ghost predicate Valid(g: Gen) {
    && Roomy(g.typ, g.table) && (forall k :: 0 <= k < |g.table| ==> g.table[k] < WORD)
    && (g.typ != 0 ==> g.r < Deg(g.typ) && g.f == (g.r + Sep(g.typ)) % Deg(g.typ))
  }

  // ---- One number ---------------------------------------------------------

  /** Where the pointers go: the rear one is looked at only if the front one has not wrapped. */
  function Advance(f: nat, r: nat, deg: nat): (nat, nat) {
    if f + 1 >= deg then (0, r + 1) else if r + 1 >= deg then (f + 1, 0) else (f + 1, r + 1)
  }

  function Step(g: Gen): (Gen, nat)
    requires Roomy(g.typ, g.table)
  {
    if g.typ == 0 then
      var i := (g.table[1] * 1103515245 + 12345) % HALF;
      (g.(table := g.table[1 := i]), i)
    else if g.f < Deg(g.typ) && g.r < Deg(g.typ) then
      var v := (g.table[1 + g.f] + g.table[1 + g.r]) % WORD;
      var (f, r) := Advance(g.f, g.r, Deg(g.typ));
      (Gen(g.typ, g.table[1 + g.f := v], f, r), v / 2)
    else (g, 0)
  }

  lemma NextMod(a: nat, n: nat)
    requires a < n
    ensures (a + 1) % n == if a + 1 == n then 0 else a + 1
  {
    if a + 1 < n {
      Small(a + 1, n);
    }
  }

  /** The front pointer is the rear one plus the separation, going round. */
  lemma FrontIs(r: nat, sep: nat, n: nat)
    requires r < n && sep < n
    ensures (r + sep) % n == if r + sep < n then r + sep else r + sep - n
  {
    if r + sep < n {
      Small(r + sep, n);
    } else {
      Small(r + sep - n, n);
      assert (r + sep - n + n) % n == (r + sep - n) % n by { AddMod(r + sep - n, n); }
    }
  }

  lemma AddMod(a: nat, n: nat)
    requires n > 0
    ensures (a + n) % n == a % n
  {
    DivUnique(a + n, a / n + 1, a % n, n);
  }

  /** Both pointers never wrap on the same call, and each goes round on its own. */
  lemma AdvanceOk(typ: nat, f: nat, r: nat)
    requires 0 < typ < MAX_TYPES && r < Deg(typ) && f == (r + Sep(typ)) % Deg(typ)
    ensures var n := Deg(typ); var (f', r') := Advance(f, r, n);
      f < n && !(f + 1 >= n && r + 1 >= n) && r' == (r + 1) % n < n && f' == (f + 1) % n && f' == (r' + Sep(typ)) % n
  {
    var n := Deg(typ);
    FrontIs(r, Sep(typ), n);
    NextMod(r, n);
    NextMod(f, n);
    FrontIs((r + 1) % n, Sep(typ), n);
  }

  lemma StepOk(g: Gen)
    requires Valid(g)
    ensures Valid(Step(g).0) && Step(g).1 < HALF && Step(g).0.typ == g.typ && |Step(g).0.table| == |g.table|
    ensures g.typ != 0 ==> Step(g).0.r == (g.r + 1) % Deg(g.typ)
    ensures Step(g).0.table[0] == g.table[0]
  {
    if g.typ != 0 {
      AdvanceOk(g.typ, g.f, g.r);
    }
  }

  function Steps(g: Gen, n: nat): (r: Gen)
    requires Roomy(g.typ, g.table)
    ensures r.typ == g.typ && |r.table| == |g.table|
    decreases n
  {
    if n == 0 then g else Steps(Step(g).0, n - 1)
  }

  lemma {:induction false} StepsOk(g: Gen, n: nat)
    requires Valid(g)
    ensures Valid(Steps(g, n)) && (g.typ != 0 ==> Steps(g, n).r == (g.r + n) % Deg(g.typ))
    decreases n
  {
    if n > 0 {
      StepOk(g);
      StepsOk(Step(g).0, n - 1);
      if g.typ != 0 {
        ModAdd(g.r + 1, n - 1, Deg(g.typ));
      }
    } else if g.typ != 0 {
      Small(g.r, Deg(g.typ));
    }
  }

  lemma ModAdd(a: nat, b: nat, n: nat)
    requires n > 0
    ensures (a % n + b) % n == (a + b) % n
  {
    AddMany(a % n + b, a / n, n);
    assert a == n * (a / n) + a % n;
  }

  lemma {:induction false} AddMany(a: nat, k: nat, n: nat)
    requires n > 0
    ensures (a + n * k) % n == a % n
  {
    if k > 0 {
      AddMany(a, k - 1, n);
      AddMod(a + n * (k - 1), n);
      assert a + n * k == a + n * (k - 1) + n;
    }
  }

  /** The next n numbers. */
  function Outputs(g: Gen, n: nat): seq<nat>
    requires Roomy(g.typ, g.table)
    decreases n
  {
    if n == 0 then [] else [Step(g).1] + Outputs(Step(g).0, n - 1)
  }

  // ---- Seeding ------------------------------------------------------------

  /** The cells from word k on, each made from the one before. */
  function Spread(table: seq<nat>, k: nat, deg: nat): (t: seq<nat>)
    requires deg < |table|
    ensures |t| == |table|
    decreases deg - k
  {
    if k == 0 || k >= deg then table
    else Spread(table[k + 1 := (1103515245 * table[k] + 12345) % WORD], k + 1, deg)
  }

  lemma {:induction false} SpreadOk(table: seq<nat>, k: nat, deg: nat)
    requires deg < |table| && forall i :: 0 <= i < |table| ==> table[i] < WORD
    ensures forall i :: 0 <= i < |table| ==> Spread(table, k, deg)[i] < WORD
    ensures Spread(table, k, deg)[0] == table[0]
    decreases deg - k
  {
    if 0 < k < deg {
      SpreadOk(table[k + 1 := (1103515245 * table[k] + 12345) % WORD], k + 1, deg);
    }
  }

  function Seed(g: Gen, x: nat): Gen
    requires Roomy(g.typ, g.table)
  {
    var t := g.table[1 := x % WORD];
    if g.typ == 0 then g.(table := t)
    else Steps(Gen(g.typ, Spread(t, 1, Deg(g.typ)), Sep(g.typ), 0), 10 * Deg(g.typ))
  }

  /** Seeding leaves the rear pointer at the start: ten times round. */
  lemma SeedOk(g: Gen, x: nat)
    requires Roomy(g.typ, g.table) && forall k :: 0 <= k < |g.table| ==> g.table[k] < WORD
    ensures Valid(Seed(g, x)) && Seed(g, x).typ == g.typ && |Seed(g, x).table| == |g.table|
    ensures (g.typ != 0 ==> Seed(g, x).r == 0)
  {
    if g.typ != 0 {
      var n := Deg(g.typ);
      var t := g.table[1 := x % WORD];
      SpreadOk(t, 1, n);
      Small(Sep(g.typ), n);
      StepsOk(Gen(g.typ, Spread(t, 1, n), Sep(g.typ), 0), 10 * n);
      AddMany(0, 10, n);
    }
  }

  // ---- Switching tables ---------------------------------------------------

  /** The tables there are, the one in use, and where its pointers are. */
  datatype Sys = Sys(tables: map<nat, seq<nat>>, cur: nat, typ: nat, f: nat, r: nat)

  ghost function Current(s: Sys): Gen
    requires s.cur in s.tables
  {
    Gen(s.typ, s.tables[s.cur], s.f, s.r)
  }

  ghost predicate Sound(s: Sys) {
    s.cur in s.tables && Valid(Current(s)) && forall t :: t in s.tables ==>
        |s.tables[t]| > 0 && forall k :: 0 <= k < |s.tables[t]| ==> s.tables[t][k] < WORD
  }

  /** The word that records type and position. */
  function Saved(typ: nat, r: nat): nat {
    if typ == 0 then typ else MAX_TYPES * r + typ
  }

  /** The table in use as it is left when another is switched to. */
  function Save(s: Sys): map<nat, seq<nat>>
    requires s.cur in s.tables && |s.tables[s.cur]| > 0
  {
    var t: seq<nat> := s.tables[s.cur][0 := Saved(s.typ, s.r)];
    s.tables[s.cur := t]
  }

  function TypeFor(n: nat): nat {
    if n < 32 then 0 else if n < 64 then 1 else if n < 128 then 2 else if n < 256 then 3 else 4
  }

  /** A table that can be switched to: one that initstate has set up. */
  predicate Switchable(table: seq<nat>) {
    && |table| > 0 && Roomy(table[0] % MAX_TYPES, table)
    && (table[0] % MAX_TYPES != 0 ==> table[0] / MAX_TYPES < Deg(table[0] % MAX_TYPES))
  }

  datatype Op = Random | Srandom(x: nat) | Init(seed: nat, t: nat, n: nat) | Set(t: nat)

  /** initstate is given as many bytes as the table has; setstate one that has been set up. */
  predicate Allowed(s: Sys, op: Op) {
    s.cur in s.tables && Roomy(s.typ, s.tables[s.cur]) &&
    match op
    case Random => true
    case Srandom(x) => true
    case Init(seed, t, n) => t in s.tables && |s.tables[t]| > 0 && n <= 4 * |s.tables[t]|
    case Set(t) => t in s.tables && Switchable(s.tables[t])
  }

  /** initstate: too small a table changes nothing but the saved position. */
  function InitState(s: Sys, seed: nat, t: nat, n: nat): Sys
    requires Allowed(s, Init(seed, t, n))
  {
    var tables := Save(s);
    if n < 8 then s.(tables := tables)
    else
      var typ := TypeFor(n);
      var g := Seed(Gen(typ, tables[t], s.f, s.r), seed);
      var t': seq<nat> := g.table[0 := Saved(typ, g.r)];
      Sys(tables[t := t'], t, typ, g.f, g.r)
  }

  /** setstate: the type and position are read before the table in use is saved. */
  function SetState(s: Sys, t: nat): Sys
    requires Allowed(s, Set(t))
  {
    var word := s.tables[t][0];
    var typ, rear := word % MAX_TYPES, word / MAX_TYPES;
    if typ == 0 then Sys(Save(s), t, typ, s.f, s.r)
    else Sys(Save(s), t, typ, (rear + Sep(typ)) % Deg(typ), rear)
  }

  function Do(s: Sys, op: Op): Sys
    requires Allowed(s, op)
  {
    match op
    case Random => var g := Step(Gen(s.typ, s.tables[s.cur], s.f, s.r)).0;
        s.(tables := s.tables[s.cur := g.table], f := g.f, r := g.r)
    case Srandom(x) => var g := Seed(Gen(s.typ, s.tables[s.cur], s.f, s.r), x);
        s.(tables := s.tables[s.cur := g.table], f := g.f, r := g.r)
    case Init(seed, t, n) => InitState(s, seed, t, n)
    case Set(t) => SetState(s, t)
  }

  predicate Runs(s: Sys, ops: seq<Op>)
    decreases |ops|
  {
    ops == [] || (Allowed(s, ops[0]) && Runs(Do(s, ops[0]), ops[1..]))
  }

  function After(s: Sys, ops: seq<Op>): Sys
    requires Runs(s, ops)
    decreases |ops|
  {
    if ops == [] then s else After(Do(s, ops[0]), ops[1..])
  }

  /** A call that has nothing to do with a table. */
  predicate Elsewhere(op: Op, home: nat) {
    match op
    case Init(seed, t, n) => t != home
    case Set(t) => t != home
    case _ => true
  }

  // ---- Resuming -----------------------------------------------------------

  lemma DoSound(s: Sys, op: Op)
    requires Sound(s) && Allowed(s, op)
    ensures Sound(Do(s, op)) && Do(s, op).tables.Keys == s.tables.Keys
  {
    match op
    case Random => StepOk(Current(s));
    case Srandom(x) => SeedOk(Current(s), x);
    case Init(seed, t, n) => InitSound(s, seed, t, n);
    case Set(t) => SetSound(s, t);
  }

  lemma SavedFits(typ: nat, r: nat)
    requires typ < MAX_TYPES && (typ != 0 ==> r < Deg(typ))
    ensures Saved(typ, r) < WORD && Saved(typ, r) % MAX_TYPES == typ && (typ != 0 ==> Saved(typ, r) / MAX_TYPES == r)
  {
  }

  lemma SaveSound(s: Sys)
    requires Sound(s)
    ensures Save(s).Keys == s.tables.Keys
    ensures forall t :: t in s.tables ==> |Save(s)[t]| == |s.tables[t]| && forall k :: 0 <= k < |s.tables[t]| ==>
      Save(s)[t][k] < WORD
  {
    SavedFits(s.typ, s.r);
  }

  lemma InitSound(s: Sys, seed: nat, t: nat, n: nat)
    requires Sound(s) && Allowed(s, Init(seed, t, n))
    ensures Sound(InitState(s, seed, t, n)) && InitState(s, seed, t, n).tables.Keys == s.tables.Keys
  {
    SaveSound(s);
    if n >= 8 {
      var typ := TypeFor(n);
      SeedOk(Gen(typ, Save(s)[t], s.f, s.r), seed);
      var g := Seed(Gen(typ, Save(s)[t], s.f, s.r), seed);
      SavedFits(typ, g.r);
    } else {
      SavedFits(s.typ, s.r);
    }
  }

  lemma SetSound(s: Sys, t: nat)
    requires Sound(s) && Allowed(s, Set(t))
    ensures Sound(SetState(s, t)) && SetState(s, t).tables.Keys == s.tables.Keys
  {
    SaveSound(s);
  }

  /** The table left behind stays as it was left. */
  lemma {:induction false} Untouched(s: Sys, ops: seq<Op>, home: nat)
    requires Sound(s) && Runs(s, ops) && home in s.tables && s.cur != home && forall i :: 0 <= i < |ops| ==>
      Elsewhere(ops[i], home)
    ensures var s' := After(s, ops);
      Sound(s') && home in s'.tables && s'.cur != home && s'.tables[home] == s.tables[home]
    decreases |ops|
  {
    if ops != [] {
      DoSound(s, ops[0]);
      OneElsewhere(s, ops[0], home);
      var s1 := Do(s, ops[0]);
      hide Do, Sound, Allowed;
      Untouched(s1, ops[1..], home);
    }
  }

  lemma OneElsewhere(s: Sys, op: Op, home: nat)
    requires Sound(s) && Allowed(s, op) && home in s.tables && s.cur != home && Elsewhere(op, home)
    ensures Do(s, op).cur != home && home in Do(s, op).tables && Do(s, op).tables[home] == s.tables[home]
  {
    hide Step, Seed;
  }

  /** The numbers do not depend on the word that records the position. */
  lemma {:induction false} SameOutputs(g: Gen, h: Gen, n: nat)
    requires Roomy(g.typ, g.table) && |h.table| == |g.table| && h.typ == g.typ
    requires (g.typ != 0 ==> h.f == g.f && h.r == g.r)
    requires forall k :: 1 <= k < |g.table| ==> h.table[k] == g.table[k]
    ensures Outputs(h, n) == Outputs(g, n)
    decreases n
  {
    if n > 0 {
      SameOutputs(Step(g).0, Step(h).0, n - 1);
    }
  }

  /** Leaving: the first call switches to another table. */
  predicate Leaves(s: Sys, op: Op) {
    match op
    case Init(seed, t, n) => t != s.cur && n >= 8
    case Set(t) => t != s.cur
    case _ => false
  }

  lemma LeaveSaves(s: Sys, op: Op)
    requires Sound(s) && Allowed(s, op) && Leaves(s, op)
    ensures var s1 := Do(s, op);
      s1.cur != s.cur && s.cur in s1.tables && s1.tables[s.cur] == s.tables[s.cur][0 := Saved(s.typ, s.r)]
  {
    hide Seed;
  }

  /**
   * Switch away from a table, with initstate or setstate, do anything with any other tables, and switch
   * back: the numbers that follow are those that would have followed.
   */
  lemma ResumesExactly(s: Sys, ops: seq<Op>, n: nat)
    requires Sound(s) && ops != [] && Runs(s, ops) && Leaves(s, ops[0]) && forall i :: 0 <= i < |ops| ==>
      Elsewhere(ops[i], s.cur)
    ensures var s1 := After(s, ops);
      Allowed(s1, Set(s.cur)) && Sound(SetState(s1, s.cur)) && SetState(s1, s.cur).cur == s.cur
    ensures Outputs(Current(SetState(After(s, ops), s.cur)), n) == Outputs(Current(s), n)
  {
    var home := s.cur;
    LeaveSaves(s, ops[0]);
    DoSound(s, ops[0]);
    var s0 := Do(s, ops[0]);
    Untouched(s0, ops[1..], home);
    var s1 := After(s, ops);
    assert s1 == After(s0, ops[1..]);
    hide After, Runs, Do, Outputs, Allowed;
    SavedFits(s.typ, s.r);
    BackAgain(s, s1, n);
  }

  lemma BackAgain(s: Sys, s1: Sys, n: nat)
    requires Sound(s) && Sound(s1) && s1.cur != s.cur && s.cur in s1.tables
    requires s1.tables[s.cur] == s.tables[s.cur][0 := Saved(s.typ, s.r)]
    ensures Allowed(s1, Set(s.cur)) && Sound(SetState(s1, s.cur)) && SetState(s1, s.cur).cur == s.cur
    ensures Outputs(Current(SetState(s1, s.cur)), n) == Outputs(Current(s), n)
  {
    hide Outputs;
    SavedFits(s.typ, s.r);
    SetSound(s1, s.cur);
    var g, h := Current(s), Current(SetState(s1, s.cur));
    SameOutputs(g, h, n);
  }

  // ---- Switching to the table in use --------------------------------------

  ghost predicate SamePlace(s: Sys, s': Sys) {
    s'.cur == s.cur && s'.typ == s.typ && (s.typ != 0 ==> s'.f == s.f && s'.r == s.r)
  }

  /** The word that records the position says where the generator is. */
  ghost predicate Noted(s: Sys) {
    && s.cur in s.tables && |s.tables[s.cur]| > 0 && s.tables[s.cur][0] % MAX_TYPES == s.typ
    && (s.typ != 0 ==> s.tables[s.cur][0] / MAX_TYPES == s.r)
  }

  function Draws(k: nat): seq<Op> {
    if k == 0 then [] else [Random] + Draws(k - 1)
  }

  /** initstate, and setstate to another table that has been set up, note the position. */
  lemma EnteringNotes(s: Sys, op: Op)
    requires Sound(s) && Allowed(s, op) && ((op.Init? && op.n >= 8) || (op.Set? && op.t != s.cur))
    ensures Sound(Do(s, op)) && Noted(Do(s, op))
  {
    DoSound(s, op);
    if op.Init? {
      SaveSound(s);
      SeedOk(Gen(TypeFor(op.n), Save(s)[op.t], s.f, s.r), op.seed);
      SavedFits(Do(s, op).typ, Do(s, op).r);
    }
  }

  /** Drawing numbers moves the rear pointer and leaves the note as it was. */
  lemma {:induction false} DrawsMove(s: Sys, k: nat)
    requires Sound(s)
    ensures Runs(s, Draws(k))
    ensures var s' := After(s, Draws(k));
      && Sound(s') && s'.cur == s.cur && s'.typ == s.typ && s'.tables[s.cur][0] == s.tables[s.cur][0]
      && (s.typ != 0 ==> s'.r == (s.r + k) % Deg(s.typ))
    decreases k
  {
    hide Do, Step, Sound, Allowed, Valid;
    DrawOne(s);
    if k == 0 {
      assert Draws(0) == [];
      if s.typ != 0 { Small(s.r, Deg(s.typ)); }
    } else {
      var s1 := Do(s, Random);
      assert Draws(k)[0] == Random && Draws(k)[1..] == Draws(k - 1);
      DrawsMove(s1, k - 1);
      if s.typ != 0 { ModAdd(s.r + 1, k - 1, Deg(s.typ)); }
    }
  }

  lemma DrawOne(s: Sys)
    requires Sound(s)
    ensures s.cur in s.tables && |s.tables[s.cur]| > 0 && s.typ < MAX_TYPES && (s.typ != 0 ==> s.r < Deg(s.typ))
    ensures Allowed(s, Random)
    ensures var s' := Do(s, Random);
      && Sound(s') && s'.cur == s.cur && s'.typ == s.typ && s'.tables[s.cur][0] == s.tables[s.cur][0]
      && (s.typ != 0 ==> s'.r == (s.r + 1) % Deg(s.typ))
  {
    DoSound(s, Random);
    StepOk(Current(s));
  }

  /** Going k round from r comes back to r exactly when k is a number of whole turns. */
  lemma WholeTurns(r: nat, k: nat, n: nat)
    requires r < n
    ensures (r + k) % n == r <==> k % n == 0
  {
    var q, m := k / n, k % n;
    assert k == n * q + m;
    AddMany(r + m, q, n);
    FrontIs(r, m, n);
  }

  /**
   * setstate on the table in use, k numbers after the position was noted: the generator stays where it is
   * if and only if the generator is the linear one or k is a multiple of the table's degree. If it stays, the numbers
   * that follow are those that would have followed.
   */
  lemma SetCurrentIff(s: Sys, k: nat, n: nat)
    requires Sound(s) && Noted(s) && Runs(s, Draws(k))
    ensures var s1 := After(s, Draws(k));
      && Sound(s1) && s1.cur == s.cur && Allowed(s1, Set(s.cur)) && Sound(SetState(s1, s.cur))
      && (SamePlace(s1, SetState(s1, s.cur)) <==> s.typ == 0 || k % Deg(s.typ) == 0)
      && (s.typ == 0 || k % Deg(s.typ) == 0 ==> Outputs(Current(SetState(s1, s.cur)), n) == Outputs(Current(s1), n))
  {
    DrawsMove(s, k);
    SavedFits(s.typ, s.r);
    if s.typ != 0 { WholeTurns(s.r, k, Deg(s.typ)); }
    var s1 := After(s, Draws(k));
    hide After, Runs, Draws, Outputs;
    SetSound(s1, s.cur);
    StaysPut(s1);
    if s.typ == 0 || k % Deg(s.typ) == 0 {
      SameOutputs(Current(s1), Current(SetState(s1, s.cur)), n);
    }
  }

  /** Where setstate on the table in use goes is where the note says. */
  lemma StaysPut(s: Sys)
    requires Sound(s) && Allowed(s, Set(s.cur)) && s.tables[s.cur][0] % MAX_TYPES == s.typ
    ensures SamePlace(s, SetState(s, s.cur)) <==> s.typ == 0 || s.tables[s.cur][0] / MAX_TYPES == s.r
    ensures forall k :: 1 <= k < |s.tables[s.cur]| ==> SetState(s, s.cur).tables[s.cur][k] == s.tables[s.cur][k]
  {
  }

  /**
   * initstate on a table of 32 bytes, one number, setstate on the same table: the generator has moved back, from any
   * state.
   */
  lemma SetCurrentRewinds(s: Sys, seed: nat, t: nat)
    requires Sound(s) && t in s.tables && |s.tables[t]| >= 8
    ensures var ops := [Init(seed, t, 32), Random, Set(t)];
      && Runs(s, ops) && Runs(s, ops[..2]) && After(s, ops).cur == After(s, ops[..2]).cur == t
      && After(s, ops[..2]).r == 1 && After(s, ops).r == 0
  {
    hide InitState, SetState;
    var ops := [Init(seed, t, 32), Random, Set(t)];
    var s1 := Do(s, ops[0]);
    EnteringNotes(s, ops[0]);
    InitPlace(s, seed, t);
    assert ops[1..2] == [Random] == Draws(1) by { assert Draws(0) == []; }
    DrawsMove(s1, 1);
    SetCurrentIff(s1, 1, 0);
    var s2 := Do(s1, Random);
    assert After(s1, Draws(1)) == s2 by { assert Draws(1) == [Random] && Draws(1)[1..] == []; }
    NoteIs(s1, s2);
    TwoOfThree(s, ops);
  }

  lemma InitPlace(s: Sys, seed: nat, t: nat)
    requires Sound(s) && t in s.tables && |s.tables[t]| >= 8
    ensures var s1 := InitState(s, seed, t, 32); s1.cur == t && s1.typ == 1 && s1.r == 0
  {
    SaveSound(s);
    SeedOk(Gen(1, Save(s)[t], s.f, s.r), seed);
  }

  lemma NoteIs(s1: Sys, s2: Sys)
    requires Sound(s1) && Noted(s1) && s1.typ == 1 && s1.r == 0
    requires Sound(s2) && s2.cur == s1.cur && s2.typ == 1 && s2.tables[s1.cur][0] == s1.tables[s1.cur][0]
    ensures Allowed(s2, Set(s1.cur)) && SetState(s2, s1.cur).r == 0 && SetState(s2, s1.cur).cur == s1.cur
  {
    SavedFits(1, 0);
  }

  lemma TwoOfThree(s: Sys, ops: seq<Op>)
    requires |ops| == 3 && Allowed(s, ops[0]) && Allowed(Do(s, ops[0]), ops[1])
    requires Allowed(Do(Do(s, ops[0]), ops[1]), ops[2])
    ensures Runs(s, ops[..2]) && After(s, ops[..2]) == Do(Do(s, ops[0]), ops[1])
    ensures Runs(s, ops) && After(s, ops) == Do(Do(Do(s, ops[0]), ops[1]), ops[2])
  {
    hide Do, Allowed, Runs, After;
    var s1 := Do(s, ops[0]);
    var s2 := Do(s1, ops[1]);
    assert ops[..2] == [ops[0]] + [ops[1]];
    assert ops == [ops[0]] + ([ops[1]] + [ops[2]]);
    OneCall(s1, ops[1]);
    OneCall(s2, ops[2]);
    CallFirst(s, ops[0], [ops[1]]);
    CallFirst(s1, ops[1], [ops[2]]);
    CallFirst(s, ops[0], [ops[1]] + [ops[2]]);
  }

  lemma OneCall(s: Sys, op: Op)
    requires Allowed(s, op)
    ensures Runs(s, [op]) && After(s, [op]) == Do(s, op)
  {
    hide Do, Allowed;
    assert [op] == [op] + [];
    CallFirst(s, op, []);
  }

  lemma CallFirst(s: Sys, op: Op, ops: seq<Op>)
    requires Allowed(s, op) && Runs(Do(s, op), ops)
    ensures Runs(s, [op] + ops) && After(s, [op] + ops) == After(Do(s, op), ops)
  {
    hide Do, Allowed;
    assert ([op] + ops)[0] == op && ([op] + ops)[1..] == ops;
  }
}
