/** The thread system's lists as the kernel keeps and updates them. */
module ThreadKernel {
  import opened Rings
  import opened Threads

  lemma FirstOf(ts: seq<nat>, us: seq<nat>)
    requires ts != []
    ensures (ts + us)[0] == ts[0] && (ts + us)[1..] == ts[1..] + us
  {
  }

  lemma JoinAssoc(a: seq<nat>, b: seq<nat>, c: seq<nat>)
    ensures a + (b + c) == a + b + c
  {
  }

  lemma WokenStep(ts: seq<nat>, th: map<nat, Thread>, a: Addr)
    requires ts != []
    ensures Woken(ts, th, a) == (if On(th, ts[0], a) then [ts[0]] else []) + Woken(ts[1..], th, a)
    ensures Left(ts, th, a) == (if On(th, ts[0], a) then [] else [ts[0]]) + Left(ts[1..], th, a)
  {
  }

  /** Waking works through the list from the front. */
  lemma {:induction false} WokenJoin(ts: seq<nat>, us: seq<nat>, th: map<nat, Thread>, a: Addr)
    ensures Woken(ts + us, th, a) == Woken(ts, th, a) + Woken(us, th, a)
    ensures Left(ts + us, th, a) == Left(ts, th, a) + Left(us, th, a)
  {
    hide On, Woken, Left;
    if ts == [] {
      assert ts + us == us;
      NoneYet(th, a);
    } else {
      var t := if On(th, ts[0], a) then [ts[0]] else [];
      var l := if On(th, ts[0], a) then [] else [ts[0]];
      FirstOf(ts, us);
      WokenStep(ts, th, a);
      WokenStep(ts + us, th, a);
      WokenJoin(ts[1..], us, th, a);
      JoinAssoc(t, Woken(ts[1..], th, a), Woken(us, th, a));
      JoinAssoc(l, Left(ts[1..], th, a), Left(us, th, a));
    }
  }

  lemma WokenNext(ts: seq<nat>, n: nat, th: map<nat, Thread>, a: Addr)
    requires n < |ts|
    ensures Woken(ts[..n + 1], th, a) == Woken(ts[..n], th, a) + if On(th, ts[n], a) then [ts[n]] else []
    ensures Left(ts[..n + 1], th, a) == Left(ts[..n], th, a) + if On(th, ts[n], a) then [] else [ts[n]]
  {
    assert ts[..n + 1] == ts[..n] + [ts[n]];
    WokenJoin(ts[..n], [ts[n]], th, a);
    assert Woken([], th, a) == [] && Left([], th, a) == [];
  }

  lemma NoneYet(th: map<nat, Thread>, a: Addr)
    ensures Woken([], th, a) == [] == Left([], th, a)
  {
  }

  /** The list with its first part done, one item further. */
  lemma Passed(done: seq<nat>, ts: seq<nat>, n: nat)
    requires n < |ts|
    ensures var now := done + ts[n..]; var i := |done|;
      now[..i] + now[i + 1..] == done + [] + ts[n + 1..] && now == done + [ts[n]] + ts[n + 1..]
  {
  }

  lemma Appended(run: seq<nat>, woken: seq<nat>, t: nat)
    ensures run + woken + [t] == run + (woken + [t]) && run + (woken + []) == run + woken
  {
  }

  datatype NextState = Ready | Asleep | Zombie

  class ThreadSystem {
    var cur: Option<nat>
    const runqueue: Ring<nat>
    const sleepers: PtrArray<nat>
    const zombies: PtrArray<nat>
    var numthreads: int
    var threads: map<nat, Thread>

    ghost predicate Valid()
      reads this, runqueue, sleepers, zombies
    {
      && runqueue.Valid() && sleepers.Valid() && zombies.Valid() && sleepers != zombies
      && runqueue.data != sleepers.v && runqueue.data != zombies.v && sleepers.v != zombies.v
    }

    /** The state the lists stand for, the rest being given. */
    ghost function View(rest: Sys): Sys
      requires Valid()
      reads this, runqueue, runqueue.data, sleepers, sleepers.v, zombies, zombies.v
    {
      rest.(cur := cur, run := runqueue.Items(), sleepers := sleepers.Items(), zombies := zombies.Items(),
            numthreads := numthreads, threads := threads)
    }

    lemma Rest(rest: Sys, rest': Sys)
      requires Valid()
      ensures View(rest') == View(rest).(locks := rest'.locks, cvs := rest'.cvs, sems := rest'.sems, held := rest'.held)
      ensures View(rest).locks == rest.locks && View(rest).cvs == rest.cvs && View(rest).sems == rest.sems
      ensures View(rest).held == rest.held
      ensures View(rest).cur == cur && View(rest).threads == threads
    {
    }

    ghost function Owned(): set<object>
      reads this, runqueue, sleepers, zombies
    {
      {this, runqueue, runqueue.data, sleepers, sleepers.v, zombies, zombies.v}
    }

    /** The first thread, running, and no other. */
    constructor (me: nat)
      ensures Valid() && fresh(Owned())
      ensures forall rest ::
        View(rest) == rest.(cur := Some(me), run := [], sleepers := [], zombies := [], numthreads := 1,
                            threads := map[me := Thread(Nowhere, Running)])
    {
      sleepers := new PtrArray();
      zombies := new PtrArray();
      runqueue := new Ring(32);
      threads := map[me := Thread(Nowhere, Running)];
      cur, numthreads := Some(me), 1;
    }

    method MakeRunnable(t: nat, ghost rest: Sys)
      requires Valid()
      modifies runqueue, runqueue.data
      ensures Valid() && fresh(Owned() - old(Owned()))
      ensures View(rest) == old(View(rest)).(run := old(View(rest)).run + [t])
    {
      runqueue.AddTail(t);
    }

    /** Look at the sleeper at i: if it sleeps on the address, take it off the list and make it runnable. */
    method Visit(i: nat, a: Addr, ghost rest: Sys) returns (woke: bool)
      requires Valid() && i < |View(rest).sleepers|
      modifies Owned()
      ensures Valid() && fresh(Owned() - old(Owned()))
      ensures woke == On(old(View(rest)).threads, old(View(rest)).sleepers[i], a)
      ensures View(rest) == if woke then TakenOut(old(View(rest)), i) else old(View(rest))
    {
      hide Ring.Items, PtrArray.Items;
      var t := sleepers.GetGuy(i);
      woke := t in threads && threads[t].addr == a;
      if woke {
        sleepers.Remove(i);
        runqueue.AddTail(t);
      }
    }

    /** Make every sleeper on an address runnable, going through the list and taking them out as they are found. */
    method WakeUp(a: Addr, ghost rest: Sys)
      requires Valid()
      modifies Owned()
      ensures Valid() && fresh(Owned() - old(Owned()))
      ensures View(rest) == Wakeup(old(View(rest)), a)
    {
      hide View, Visited, TakenOut, Valid;
      ghost var s := View(rest);
      VisitedNone(s, a);
      ghost var n := 0;
      var i: int := 0;
      var num := NumSleepers(rest);
      while i < num
        invariant Valid() && fresh(Owned() - old(Owned())) && num == |View(rest).sleepers|
        invariant n <= |s.sleepers| && i >= 0 && Visited(s, View(rest), n, i, a)
        decreases |s.sleepers| - n
      {
        VisitedNext(s, View(rest), n, i, a);
        var woke := Visit(i, a, rest);
        if woke {
          i := i - 1;
        }
        n := n + 1;
        i := i + 1;
        num := NumSleepers(rest);
      }
      VisitedAll(s, View(rest), n, i, a);
    }

    method HasSleepers(a: Addr, ghost rest: Sys) returns (r: bool)
      requires Valid()
      ensures r <==> exists t :: t in View(rest).sleepers && On(threads, t, a)
    {
      var num := NumSleepers(rest);
      for i := 0 to num
        invariant forall j :: 0 <= j < i ==> !On(threads, View(rest).sleepers[j], a)
      {
        var t := sleepers.GetGuy(i);
        assert t == View(rest).sleepers[i];
        if t in threads && threads[t].addr == a {
          assert t in View(rest).sleepers && On(threads, t, a);
          return true;
        }
      }
      return false;
    }

    /** The first half of a switch: the current thread goes on the list of its new state, and nobody is current. */
    method SwitchOut(nextstate: NextState, ghost rest: Sys)
      requires Valid() && cur.Some?
      modifies Owned()
      ensures Valid() && fresh(Owned() - old(Owned()))
      ensures View(rest) == GoneTo(old(View(rest)), nextstate)
    {
      hide Ring.Items, PtrArray.Items;
      var t := cur.v;
      cur := None;
      match nextstate
      case Ready => runqueue.AddTail(t);
      case Asleep => sleepers.Add(t);
      case Zombie => zombies.Add(t);
    }

    /** The second half: the head of the run queue becomes current. */
    method Scheduler(ghost rest: Sys)
      requires Valid() && cur.None? && View(rest).run != []
      modifies this`cur, runqueue
      ensures Valid() && fresh(Owned() - old(Owned())) && View(rest) == Switch(old(View(rest)))
    {
      hide Ring.Items, PtrArray.Items;
      ghost var run := runqueue.Items();
      var next := runqueue.RemHead();
      assert run == [next] + runqueue.Items();
      cur := Some(next);
    }

    /** Dispose of the threads on the zombie list; none of them is current. */
    method Exorcise(ghost rest: Sys)
      requires Valid() && Placed(View(rest))
      modifies this`threads, zombies
      ensures Valid() && fresh(Owned() - old(Owned())) && View(rest) == Threads.Exorcise(old(View(rest)))
    {
      hide Ring.Items, Apart, NoDup;
      ghost var s := View(rest);
      var num := zombies.GetNum();
      for i := 0 to num
        invariant Valid() && unchanged(zombies) && zombies.Items() == s.zombies
        invariant forall t :: t in threads <==> t in s.threads && t !in s.zombies[..i]
        invariant forall t :: t in threads ==> threads[t] == s.threads[t]
      {
        var z := zombies.GetGuy(i);
        assert z in s.zombies && cur != Some(z);
        threads := threads - {z};
        assert s.zombies[..i + 1] == s.zombies[..i] + [z];
      }
      assert s.zombies[..num] == s.zombies;
      assert threads == Threads.Exorcise(s).threads;
      zombies.SetSize(0);
    }

    /** Go to sleep on an address, as far as the choice of the next thread. */
    method SleepFirst(a: Addr, pc: Pc, ghost rest: Sys)
      requires Valid() && cur.Some?
      modifies Owned()
      ensures Valid() && fresh(Owned() - old(Owned())) && View(rest) == SleepOn(old(View(rest)), a, pc)
    {
      hide Ring.Items, PtrArray.Items;
      threads := threads[cur.v := Thread(a, pc)];
      SwitchOut(Asleep, rest);
    }

    /** The current thread goes on, asleep nowhere. */
    method SetRunning(ghost rest: Sys)
      requires Valid() && cur.Some?
      modifies this`threads
      ensures Valid() && Owned() == old(Owned())
      ensures View(rest) == SetThread(old(View(rest)), cur.v, Thread(Nowhere, Running))
    {
      hide Ring.Items, PtrArray.Items;
      threads := threads[cur.v := Thread(Nowhere, Running)];
    }

    method YieldFirst(ghost rest: Sys)
      requires Valid() && cur.Some?
      modifies Owned()
      ensures Valid() && fresh(Owned() - old(Owned())) && View(rest) == Step(old(View(rest)), Yield)
    {
      hide Ring.Items, PtrArray.Items;
      SwitchOut(Ready, rest);
    }

    method ExitFirst(ghost rest: Sys)
      requires Valid() && cur.Some?
      modifies Owned()
      ensures Valid() && fresh(Owned() - old(Owned())) && View(rest) == Step(old(View(rest)), Exit)
    {
      hide Ring.Items, PtrArray.Items;
      numthreads := numthreads - 1;
      SwitchOut(Zombie, rest);
    }

    /** Start a thread: make room for it in every list, then make it runnable. */
    method Fork(t: nat, ghost rest: Sys)
      requires Valid() && cur.Some? && t !in threads && numthreads >= 0
      modifies Owned()
      ensures Valid() && fresh(Owned() - old(Owned())) && View(rest) == Step(old(View(rest)), Op.Fork(t))
    {
      hide Ring.Items, PtrArray.Items;
      sleepers.Preallocate(numthreads + 1);
      zombies.Preallocate(numthreads + 1);
      runqueue.Preallocate(numthreads + 1);
      threads := threads[t := Thread(Nowhere, Start)];
      runqueue.AddTail(t);
      numthreads := numthreads + 1;
    }

    method NumSleepers(ghost rest: Sys) returns (n: nat)
      requires Valid()
      ensures n == |View(rest).sleepers|
    {
      n := sleepers.GetNum();
    }
  }

  function GoneTo(s: Sys, next: NextState): Sys
    requires s.cur.Some?
  {
    match next
    case Ready => s.(cur := None, run := s.run + [s.cur.v])
    case Asleep => s.(cur := None, sleepers := s.sleepers + [s.cur.v])
    case Zombie => s.(cur := None, zombies := s.zombies + [s.cur.v])
  }

  /** The sleeper at i moved to the end of the run queue. */
  function TakenOut(s: Sys, i: nat): Sys {
    if i < |s.sleepers| then s.(sleepers := s.sleepers[..i] + s.sleepers[i + 1..], run := s.run + [s.sleepers[i]])
    else s
  }

  /** The first n of the sleepers there were have been looked at; i of them stay. */
  ghost predicate Visited(s: Sys, now: Sys, n: nat, i: nat, a: Addr) {
    && n <= |s.sleepers| && i == |Left(s.sleepers[..n], s.threads, a)|
    && now == s.(sleepers := Left(s.sleepers[..n], s.threads, a) + s.sleepers[n..],
                 run := s.run + Woken(s.sleepers[..n], s.threads, a))
  }

  lemma VisitedNone(s: Sys, a: Addr)
    ensures Visited(s, s, 0, 0, a)
  {
    assert s.sleepers[..0] == [] && s.sleepers[0..] == s.sleepers;
    assert [] + s.sleepers == s.sleepers && s.run + [] == s.run;
  }

  lemma VisitedNext(s: Sys, now: Sys, n: nat, i: nat, a: Addr)
    requires Visited(s, now, n, i, a) && i < |now.sleepers|
    ensures n < |s.sleepers| && now.threads == s.threads
    ensures On(s.threads, now.sleepers[i], a) ==> Visited(s, TakenOut(now, i), n + 1, i, a)
    ensures !On(s.threads, now.sleepers[i], a) ==> Visited(s, now, n + 1, i + 1, a)
  {
    hide Woken, Left;
    var ts := s.sleepers;
    var done := Left(ts[..n], s.threads, a);
    var woken := Woken(ts[..n], s.threads, a);
    assert n < |ts|;
    WokenNext(ts, n, s.threads, a);
    Passed(done, ts, n);
    Appended(s.run, woken, ts[n]);
    assert now.sleepers[i] == ts[n];
    assert done + [] == done;
  }

  lemma VisitedAll(s: Sys, now: Sys, n: nat, i: nat, a: Addr)
    requires Visited(s, now, n, i, a) && i >= |now.sleepers|
    ensures now == Wakeup(s, a)
  {
    assert s.sleepers[n..] == [];
    assert s.sleepers[..n] == s.sleepers;
  }
}
