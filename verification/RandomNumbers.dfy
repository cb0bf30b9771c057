/** Which numbers the generator gives, told without its pointers. */
module RandomNumbers {
  import opened Arith
  import opened Randoms

  // ---- The recurrence -----------------------------------------------------

  /** A sequence in which every term from number |w| on is the sum of the terms |w| and sep places before it. */
  function Lagged(w: seq<nat>, sep: nat, s: nat): nat
    requires 0 < sep < |w|
    decreases s
  {
    if s < |w| then w[s] else (Lagged(w, sep, s - |w|) + Lagged(w, sep, s - sep)) % WORD
  }

  /** The cell k places on from f, going round. */
  function Cell(f: nat, k: nat, n: nat): (c: nat)
    requires n > 0
    ensures c < n
  {
    (f + k) % n
  }

  /** The cells in the order in which the front pointer comes to them. */
  function FromFront(g: Gen): (w: seq<nat>)
    requires Roomy(g.typ, g.table) && g.typ != 0
    ensures |w| == Deg(g.typ) && forall k :: 0 <= k < |w| ==> w[k] == g.table[1 + Cell(g.f, k, |w|)]
  {
    seq(Deg(g.typ), k requires 0 <= k < Deg(g.typ) => g.table[1 + Cell(g.f, k, Deg(g.typ))])
  }

  /** Going round. */
  lemma Around(f: nat, k: nat, n: nat)
    requires f < n && k <= n
    ensures (f + k) % n == if f + k < n then f + k else f + k - n
  {
    if f + k < n {
      Small(f + k, n);
    } else if f + k == 2 * n {
      assert false;
    } else {
      Small(f + k - n, n);
      AddMod(f + k - n, n);
    }
  }

  /** Where the cell k places after the front pointer is, once the front pointer has moved on. */
  lemma CellMoves(f: nat, k: nat, n: nat)
    requires f < n && k < n
    ensures var f' := if f + 1 == n then 0 else f + 1; Cell(f', k, n) == Cell(f, k + 1, n)
    ensures Cell(f, k + 1, n) == f <==> k + 1 == n
  {
    Around(f, k + 1, n);
    Around(if f + 1 == n then 0 else f + 1, k, n);
  }

  /** One step takes the first cell away and puts the next term at the end. */
  lemma StepShifts(g: Gen)
    requires Valid(g) && g.typ != 0
    ensures var g' := Step(g).0; var w := FromFront(g); var p := Sep(g.typ);
      && Valid(g') && g'.typ == g.typ && 0 < p < |w|
      && FromFront(g') == w[1..] + [Lagged(w, p, |w|)] && Step(g).1 == Lagged(w, p, |w|) / 2
  {
    StepOk(g);
    StepIs(g);
    FrontShifts(g, Step(g).0, Lagged(FromFront(g), Sep(g.typ), Deg(g.typ)));
  }

  lemma FrontShifts(g: Gen, g': Gen, x: nat)
    requires Roomy(g.typ, g.table) && g.typ != 0 && g'.typ == g.typ && g.f < Deg(g.typ)
    requires g'.table == g.table[1 + g.f := x] && g'.f == if g.f + 1 == Deg(g.typ) then 0 else g.f + 1
    ensures FromFront(g') == FromFront(g)[1..] + [x]
  {
    hide FromFront, Cell, Deg;
    var n, w, w' := Deg(g.typ), FromFront(g), FromFront(g');
    forall k: nat | k < n
      ensures w'[k] == (w[1..] + [x])[k]
    {
      CellShifts(g.table, g.f, k, n, x);
      assert k + 1 < n ==> w[1..][k] == w[k + 1];
    }
  }

  lemma CellShifts(t: seq<nat>, f: nat, k: nat, n: nat, x: nat)
    requires f < n < |t| && k < n
    ensures var f' := if f + 1 == n then 0 else f + 1;
      t[1 + f := x][1 + Cell(f', k, n)] == if k + 1 == n then x else t[1 + Cell(f, k + 1, n)]
  {
    hide Cell;
    CellMoves(f, k, n);
  }

  lemma LaggedFirst(w: seq<nat>, sep: nat)
    requires 0 < sep < |w|
    ensures Lagged(w, sep, |w|) == (w[0] + w[|w| - sep]) % WORD
  {
  }

  lemma StepIs(g: Gen)
    requires Valid(g) && g.typ != 0
    ensures var (g', i) := Step(g); var w := FromFront(g); var p := Sep(g.typ);
      && 0 < p < |w| && g.f < |w| && g'.f == (if g.f + 1 == |w| then 0 else g.f + 1) && g'.typ == g.typ
      && g'.table == g.table[1 + g.f := Lagged(w, p, |w|)] && i == Lagged(w, p, |w|) / 2
  {
    hide Lagged, FromFront, Advance;
    var n, p := Deg(g.typ), Sep(g.typ);
    AdvanceOk(g.typ, g.f, g.r);
    FrontBack(g.f, g.r, p, n);
    NextMod(g.f, n);
    LaggedFirst(FromFront(g), p);
  }

  lemma FrontBack(f: nat, r: nat, sep: nat, n: nat)
    requires r < n && sep < n && f == (r + sep) % n
    ensures f < n && Cell(f, 0, n) == f && Cell(f, n - sep, n) == r
  {
    FrontIs(r, sep, n);
    Around(f, n - sep, n);
    Around(f, 0, n);
  }

  /** The sequence without its first term is the same sequence, begun one later. */
  lemma {:induction false} LaggedShift(w: seq<nat>, sep: nat, s: nat)
    requires 0 < sep < |w|
    ensures Lagged(w[1..] + [Lagged(w, sep, |w|)], sep, s) == Lagged(w, sep, s + 1)
    decreases s
  {
    var w' := w[1..] + [Lagged(w, sep, |w|)];
    if s >= |w| {
      LaggedShift(w, sep, s - |w|);
      LaggedShift(w, sep, s - sep);
    }
  }

  /** Number t is term t + deg of the recurrence, without its last bit; the cells are the deg terms before it. */
  lemma {:induction false} NumbersAre(g: Gen, n: nat, t: nat)
    requires Valid(g) && g.typ != 0 && t < n
    ensures 0 < Sep(g.typ) < |FromFront(g)| && |Outputs(g, n)| == n
    ensures Outputs(g, n)[t] == Lagged(FromFront(g), Sep(g.typ), t + Deg(g.typ)) / 2
    decreases n
  {
    hide Step, Lagged, FromFront;
    StepShifts(g);
    OutputsLength(Step(g).0, n - 1);
    if t > 0 {
      NumbersAre(Step(g).0, n - 1, t - 1);
      LaggedShift(FromFront(g), Sep(g.typ), t - 1 + Deg(g.typ));
    }
  }

  lemma {:induction false} OutputsLength(g: Gen, n: nat)
    requires Roomy(g.typ, g.table)
    ensures |Outputs(g, n)| == n
    decreases n
  {
    if n > 0 {
      OutputsLength(Step(g).0, n - 1);
    }
  }

  lemma {:induction false} StepsShift(g: Gen, n: nat, s: nat)
    requires Valid(g) && g.typ != 0
    ensures Valid(Steps(g, n)) && 0 < Sep(g.typ) < Deg(g.typ)
    ensures Lagged(FromFront(Steps(g, n)), Sep(g.typ), s) == Lagged(FromFront(g), Sep(g.typ), s + n)
    decreases n
  {
    hide Step, Lagged, FromFront;
    StepShifts(g);
    if n > 0 {
      StepsShift(Step(g).0, n - 1, s);
      LaggedShift(FromFront(g), Sep(g.typ), s + n - 1);
    }
  }

  /** Term t of the linear congruential sequence. */
  function Congruent(x: nat, t: nat): nat {
    if t == 0 then x else (1103515245 * Congruent(x, t - 1) + 12345) % HALF
  }

  lemma {:induction false} CongruentShift(x: nat, t: nat)
    ensures Congruent((1103515245 * x + 12345) % HALF, t) == Congruent(x, t + 1)
  {
    if t > 0 {
      CongruentShift(x, t - 1);
    }
  }

  /** With the smallest table, number t is term t + 1 of the linear congruential sequence. */
  lemma {:induction false} SmallNumbers(g: Gen, n: nat, t: nat)
    requires Roomy(g.typ, g.table) && g.typ == 0 && t < n
    ensures |Outputs(g, n)| == n && Outputs(g, n)[t] == Congruent(g.table[1], t + 1)
    decreases n
  {
    OutputsLength(g, n);
    hide Congruent;
    var x := g.table[1];
    CongruentOne(x);
    if t > 0 {
      SmallNumbers(Step(g).0, n - 1, t - 1);
      CongruentShift(x, t);
    }
  }

  lemma CongruentOne(x: nat)
    ensures Congruent(x, 1) == (1103515245 * x + 12345) % HALF
  {
  }

  // ---- Seeding ------------------------------------------------------------

  function Pow(a: nat, k: nat): nat {
    if k == 0 then 1 else a * Pow(a, k - 1)
  }

  /** 1 + a + ... + a^(k-1). */
  function Geometric(a: nat, k: nat): nat {
    if k == 0 then 0 else a * Geometric(a, k - 1) + 1
  }

  /** Cell k after the seed x has been spread over the table. */
  function SeedWord(x: nat, k: nat): nat {
    (Pow(1103515245, k) * x + 12345 * Geometric(1103515245, k)) % WORD
  }

  lemma AffineMod(a: nat, u: nat, c: nat, n: nat)
    requires n > 0
    ensures (a * (u % n) + c) % n == (a * u + c) % n
  {
    var q := u / n;
    assert u == n * q + u % n;
    assert a * u + c == a * (u % n) + c + n * (a * q);
    AddMany(a * (u % n) + c, a * q, n);
  }

  lemma SeedWordNext(x: nat, k: nat)
    ensures SeedWord(x, 0) == x % WORD
    ensures SeedWord(x, k + 1) == (1103515245 * SeedWord(x, k) + 12345) % WORD
  {
    var a := 1103515245;
    var u := Pow(a, k) * x + 12345 * Geometric(a, k);
    AffineMod(a, u, 12345, WORD);
    Spreads(a, Pow(a, k), x, Geometric(a, k));
  }

  lemma Spreads(a: nat, p: nat, x: nat, s: nat)
    ensures a * (p * x + 12345 * s) + 12345 == (a * p) * x + 12345 * (a * s + 1)
  {
    assert a * (p * x) == (a * p) * x;
  }

  lemma {:induction false} SpreadIs(table: seq<nat>, k: nat, deg: nat, x: nat)
    requires 1 <= k <= deg < |table| && forall j :: 0 <= j < k ==> table[1 + j] == SeedWord(x, j)
    ensures forall j :: 0 <= j < deg ==> Spread(table, k, deg)[1 + j] == SeedWord(x, j)
    decreases deg - k
  {
    hide SeedWord;
    if k < deg {
      SeedWordNext(x, k - 1);
      SpreadIs(table[k + 1 := (1103515245 * table[k] + 12345) % WORD], k + 1, deg, x);
    }
  }

  /** The cells after seeding and before the numbers that are thrown away, in the order of the front pointer. */
  function Seeded(x: nat, deg: nat, sep: nat): (w: seq<nat>)
    requires deg > 0
    ensures |w| == deg && forall k :: 0 <= k < deg ==> w[k] == SeedWord(x, Cell(sep, k, deg))
  {
    seq<nat>(deg, k requires 0 <= k < deg => SeedWord(x, Cell(sep, k, deg)))
  }

  /** What the generator gives from a seed on: the terms after the first 11 times the degree, without their last bit. */
  function Number(typ: nat, x: nat, t: nat): nat
    requires typ < MAX_TYPES
  {
    if typ == 0 then Congruent(x % WORD, t + 1)
    else Lagged(Seeded(x, Deg(typ), Sep(typ)), Sep(typ), t + 11 * Deg(typ)) / 2
  }

  /** After seeding, the numbers depend on the type and the seed alone, and are those that the recurrence says. */
  lemma SeedNumbers(g: Gen, x: nat, n: nat, t: nat)
    requires Roomy(g.typ, g.table) && (forall k :: 0 <= k < |g.table| ==> g.table[k] < WORD) && t < n
    ensures |Outputs(Seed(g, x), n)| == n && Outputs(Seed(g, x), n)[t] == Number(g.typ, x, t)
  {
    hide Outputs, Lagged, Spread, Congruent, Steps, SeedWord;
    SeedOk(g, x);
    if g.typ == 0 {
      SmallNumbers(Seed(g, x), n, t);
    } else {
      var deg, sep := Deg(g.typ), Sep(g.typ);
      NumbersAre(Seed(g, x), n, t);
      var g1 := SeedStart(g, x);
      StepsShift(g1, 10 * deg, t + deg);
    }
  }

  /** The generator with the seed spread over its table. */
  lemma SeedStart(g: Gen, x: nat) returns (g1: Gen)
    requires Roomy(g.typ, g.table) && g.typ != 0 && forall k :: 0 <= k < |g.table| ==> g.table[k] < WORD
    ensures Valid(g1) && g1.typ == g.typ && Seed(g, x) == Steps(g1, 10 * Deg(g.typ))
    ensures FromFront(g1) == Seeded(x, Deg(g.typ), Sep(g.typ))
  {
    hide Spread, Steps, SeedWord;
    var deg, sep := Deg(g.typ), Sep(g.typ);
    var t := g.table[1 := x % WORD];
    SeedWordNext(x, 0);
    SpreadIs(t, 1, deg, x);
    SpreadOk(t, 1, deg);
    Small(sep, deg);
    g1 := Gen(g.typ, Spread(t, 1, deg), sep, 0);
  }

  // ---- The calls ----------------------------------------------------------

  /** initstate takes the largest type that the bytes given have room for. */
  lemma TypeLargest(n: nat)
    requires n >= 8
    ensures TypeFor(n) < MAX_TYPES && 4 * (1 + Deg(TypeFor(n))) <= n
    ensures forall typ :: TypeFor(n) < typ < MAX_TYPES ==> 4 * (1 + Deg(typ)) > n
  {
  }

  /** srandom restarts the generator in use; initstate starts the table given, and leaves every other as it was. */
  lemma SeededCalls(s: Sys, op: Op, n: nat, t: nat)
    requires Sound(s) && Allowed(s, op) && t < n && (op.Srandom? || (op.Init? && op.n >= 8))
    ensures var s' := Do(s, op);
      && s'.cur == (if op.Init? then op.t else s.cur) && s'.typ == (if op.Init? then TypeFor(op.n) else s.typ)
      && Sound(s') && |Outputs(Current(s'), n)| == n
      && Outputs(Current(s'), n)[t] == Number(s'.typ, if op.Init? then op.seed else op.x, t)
      && (forall u :: u in s.tables && u != s'.cur && u != s.cur ==> u in s'.tables && s'.tables[u] == s.tables[u])
  {
    DoSound(s, op);
    if op.Srandom? {
      SeedNumbers(Current(s), op.x, n, t);
    } else {
      InitNumbers(s, op.seed, op.t, op.n, n, t);
    }
  }

  lemma InitNumbers(s: Sys, seed: nat, tb: nat, bytes: nat, n: nat, t: nat)
    requires Sound(s) && Allowed(s, Init(seed, tb, bytes)) && bytes >= 8 && t < n
    ensures var s' := InitState(s, seed, tb, bytes);
      && s'.cur == tb && s'.typ == TypeFor(bytes) && Sound(s') && |Outputs(Current(s'), n)| == n
      && Outputs(Current(s'), n)[t] == Number(s'.typ, seed, t)
      && (forall u :: u in s.tables && u != tb && u != s.cur ==> u in s'.tables && s'.tables[u] == s.tables[u])
  {
    SaveSound(s);
    InitSound(s, seed, tb, bytes);
    var typ := TypeFor(bytes);
    TypeLargest(bytes);
    hide TypeFor, Number, Outputs;
    var g := Gen(typ, Save(s)[tb], s.f, s.r);
    SeedOk(g, seed);
    SeedNumbers(g, seed, n, t);
    hide Seed;
    SameOutputs(Seed(g, seed), Current(InitState(s, seed, tb, bytes)), n);
  }

  /** A table too small is refused, and the numbers go on as they would have. */
  lemma InitRefused(s: Sys, seed: nat, tb: nat, bytes: nat, n: nat)
    requires Sound(s) && Allowed(s, Init(seed, tb, bytes)) && bytes < 8
    ensures var s' := Do(s, Init(seed, tb, bytes)); s'.cur in s'.tables && Roomy(s'.typ, s'.tables[s'.cur])
    ensures Outputs(Current(Do(s, Init(seed, tb, bytes))), n) == Outputs(Current(s), n)
  {
    SameOutputs(Current(s), Current(Do(s, Init(seed, tb, bytes))), n);
  }

  /** Every table is as it was, but for the word of one that records the position. */
  ghost predicate TablesKept(s: Sys, s': Sys, left: nat) {
    && s'.tables.Keys == s.tables.Keys
    && (forall u :: u in s.tables && u != left ==> s'.tables[u] == s.tables[u])
    && (forall u :: u in s.tables ==> |s'.tables[u]| == |s.tables[u]| && forall k :: 1 <= k < |s.tables[u]| ==>
          s'.tables[u][k] == s.tables[u][k])
  }

  /** random gives the first of the numbers to come and leaves the rest to come; only the table in use changes. */
  lemma RandomCall(s: Sys, n: nat)
    requires Sound(s) && Allowed(s, Op.Random)
    ensures var s' := Do(s, Op.Random);
      && Sound(s') && s'.cur == s.cur && s'.typ == s.typ
      && Outputs(Current(s), n + 1)[1..] == Outputs(Current(s'), n)
      && (forall u :: u in s.tables && u != s.cur ==> u in s'.tables && s'.tables[u] == s.tables[u])
  {
    DoSound(s, Op.Random);
    hide Step;
  }

  /** setstate takes up the table given, at the type and the position recorded there, and notes those of the old one. */
  lemma SetCall(s: Sys, t: nat)
    requires Sound(s) && Allowed(s, Set(t))
    ensures var s' := Do(s, Set(t)); var word := s.tables[t][0];
      && Sound(s') && s'.cur == t && s'.typ == word % MAX_TYPES && TablesKept(s, s', s.cur)
      && (s'.typ != 0 ==> s'.r == word / MAX_TYPES && s'.f == (s'.r + Sep(s'.typ)) % Deg(s'.typ))
      && s'.tables[s.cur][0] == Saved(s.typ, s.r)
  {
    DoSound(s, Set(t));
  }
}
