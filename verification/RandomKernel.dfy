/** The generator as the C library runs it, on tables it updates in place. */
module RandomKernel {
  import opened Arith
  import opened Randoms
  import opened RandomNumbers

  class Generator {
    var table: array<nat>
    var typ: nat
    var deg: nat
    var sep: nat
    var f: nat
    var r: nat

    ghost predicate Ready()
      reads this
    {
      typ < MAX_TYPES && table.Length >= 2 && table.Length >= 1 + Deg(typ) && deg == Deg(typ) && sep == Sep(typ)
    }

    ghost function View(): Gen
      reads this, table
    {
      Gen(typ, table[..], f, r)
    }

    /** As the library starts: a table of the third type, the rear pointer at its start. */
    constructor (table: array<nat>)
      requires table.Length == 32 && table[0] == 3 && forall k :: 0 <= k < table.Length ==> table[k] < WORD
      ensures Ready() && this.table == table && View() == Gen(3, table[..], 3, 0) && Valid(View())
    {
      this.table := table;
      typ, deg, sep, f, r := 3, 31, 3, 3, 0;
    }

    method Random() returns (i: nat)
      requires Ready() && Valid(View())
      modifies this`f, this`r, table
      ensures Ready() && (View(), i) == Step(old(View())) && Valid(View())
      ensures typ == 0 ==> i == Congruent(old(table[1]), 1)
      ensures typ != 0 ==> 0 < sep < deg && i == Lagged(FromFront(old(View())), sep, deg) / 2
    {
      hide FromFront, Lagged, Congruent;
      StepOk(View());
      CongruentOne(table[1]);
      if typ != 0 { StepIs(View()); }
      if typ == 0 {
        i := (table[1] * 1103515245 + 12345) % HALF;
        table[1] := i;
      } else {
        AdvanceOk(typ, f, r);
        table[1 + f] := (table[1 + f] + table[1 + r]) % WORD;
        i := table[1 + f] / 2;
        f := f + 1;
        if f >= deg {
          f := 0;
          r := r + 1;
        } else {
          r := r + 1;
          if r >= deg {
            r := 0;
          }
        }
      }
    }

    /** Fill the cells from the first one. */
    method Fill()
      requires Ready() && typ != 0 && forall k :: 0 <= k < table.Length ==> table[k] < WORD
      modifies table
      ensures table[..] == Spread(old(table[..]), 1, deg) && forall k :: 0 <= k < table.Length ==> table[k] < WORD
    {
      ghost var t := table[..];
      var i: nat := 1;
      while i < deg
        invariant 1 <= i <= deg
        invariant Spread(table[..], i, deg) == Spread(t, 1, deg) && forall k :: 0 <= k < table.Length ==>
          table[k] < WORD
      {
        SpreadStep(table[..], i, deg);
        ghost var was := table[..];
        table[i + 1] := (1103515245 * table[i] + 12345) % WORD;
        assert table[..] == was[i + 1 := (1103515245 * was[i] + 12345) % WORD];
        i := i + 1;
      }
    }

    /** Throw away the first numbers. */
    method Cycle()
      requires Ready() && typ != 0 && Valid(View())
      modifies this`f, this`r, table
      ensures Ready() && View() == Steps(old(View()), 10 * deg) && Valid(View())
    {
      hide Steps, Step, Valid;
      ghost var g := View();
      var i := 0;
      while i < 10 * deg
        invariant 0 <= i <= 10 * deg && Ready() && Valid(View()) && Steps(View(), 10 * deg - i) == Steps(g, 10 * deg)
      {
        StepsStep(View(), 10 * deg - i);
        var n := Random();
        i := i + 1;
      }
      StepsNone(View());
    }

    method Srandom(x: nat)
      requires Ready() && forall k :: 0 <= k < table.Length ==> table[k] < WORD
      modifies this`f, this`r, table
      ensures Ready() && View() == Seed(old(View()), x) && Valid(View())
    {
      hide Spread, Steps;
      SeedOk(View(), x);
      table[1] := x % WORD;
      if typ != 0 {
        Fill();
        f, r := sep, 0;
        Small(sep, deg);
        Cycle();
      }
    }

    /** Note the type and position in the table in use. */
    method SaveState()
      requires Ready()
      modifies table
      ensures table[..] == old(table[..])[0 := Saved(typ, r)]
    {
      table[0] := if typ == 0 then typ else MAX_TYPES * r + typ;
    }

    /** Set up a table of n bytes and use it; a table too small is refused. */
    method InitState(seed: nat, arg: array<nat>, n: nat) returns (ok: bool)
      requires Ready() && Valid(View()) && arg.Length > 0 && n <= 4 * arg.Length
      requires forall k :: 0 <= k < arg.Length ==> arg[k] < WORD
      modifies this, table, arg
      ensures ok == (n >= 8) && Ready() && Valid(View())
      ensures !ok ==> table == old(table) && View() == old(View()).(table := old(table[..])[0 := Saved(typ, r)])
      ensures ok ==> table == arg && typ == TypeFor(n)
      ensures ok ==>
        var was := if arg == old(table) then old(arg[..])[0 := old(Saved(typ, r))] else old(arg[..]);
        var g := Seed(Gen(typ, was, old(f), old(r)), seed); View() == g.(table := g.table[0 := Saved(typ, g.r)])
      ensures ok && arg != old(table) ==> old(table)[..] == old(table[..])[0 := old(Saved(typ, r))]
    {
      hide Saved, Seed;
      SavedFits(typ, r);
      SaveState();
      if n < 8 {
        return false;
      }
      typ := if n < 32 then 0 else if n < 64 then 1 else if n < 128 then 2 else if n < 256 then 3 else 4;
      deg, sep := Deg(typ), Sep(typ);
      table := arg;
      Srandom(seed);
      SavedFits(typ, r);
      SaveState();
      return true;
    }

    /** Go back to a table that has been set up. */
    method SetState(arg: array<nat>)
      requires Ready() && Valid(View()) && Switchable(arg[..]) && forall k :: 0 <= k < arg.Length ==> arg[k] < WORD
      modifies this, table
      ensures Ready() && Valid(View()) && table == arg
      ensures var word := old(arg[0]);
        && typ == word % MAX_TYPES
        && (typ != 0 ==> r == word / MAX_TYPES && f == (r + Sep(typ)) % Deg(typ))
        && (typ == 0 ==> f == old(f) && r == old(r))
      ensures old(table)[..] == old(table[..])[0 := old(Saved(typ, r))]
    {
      var kind := arg[0] % MAX_TYPES;
      var rear := arg[0] / MAX_TYPES;
      SavedFits(typ, r);
      SaveState();
      typ, deg, sep := kind, Deg(kind), Sep(kind);
      table := arg;
      if typ != 0 {
        r := rear;
        f := (rear + sep) % deg;
      }
    }
  }

  lemma SpreadStep(t: seq<nat>, k: nat, deg: nat)
    requires 0 < k < deg < |t|
    ensures Spread(t, k, deg) == Spread(t[k + 1 := (1103515245 * t[k] + 12345) % WORD], k + 1, deg)
  {
  }

  lemma StepsStep(g: Gen, n: nat)
    requires Roomy(g.typ, g.table) && n > 0
    ensures Steps(g, n) == Steps(Step(g).0, n - 1)
  {
  }

  lemma StepsNone(g: Gen)
    requires Roomy(g.typ, g.table)
    ensures Steps(g, 0) == g
  {
  }
}
