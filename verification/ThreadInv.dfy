/** What every step of the thread system keeps. */
module ThreadInv {
  import opened Threads

  // ---- Places -------------------------------------------------------------

  /** Who is where after a wakeup. */
  ghost predicate Moved(s: Sys, s': Sys, a: Addr) {
    && (forall t :: t in s'.run <==> t in s.run || (t in s.sleepers && On(s.threads, t, a)))
    && (forall t :: t in s'.sleepers <==> t in s.sleepers && !On(s.threads, t, a))
    && s' == s.(run := s'.run, sleepers := s'.sleepers)
  }

  lemma WakeupMoves(s: Sys, a: Addr)
    ensures Moved(s, Wakeup(s, a), a)
  {
    forall t { WokenIn(s.sleepers, s.threads, a, t); }
  }

  lemma WakeupPlaced(s: Sys, a: Addr)
    requires Placed(s) && Counted(s)
    ensures Placed(Wakeup(s, a)) && Counted(Wakeup(s, a))
  {
    WakeupMoves(s, a);
    WokenCount(s.sleepers, s.threads, a);
    WokenNoDup(s.sleepers, s.threads, a);
    forall t { WokenIn(s.sleepers, s.threads, a, t); }
    JoinNoDup(s.run, Woken(s.sleepers, s.threads, a));
  }

  lemma SleepPlaced(s: Sys, a: Addr, pc: Pc)
    requires Placed(s) && Counted(s) && s.cur.Some?
    ensures Placed(SleepOn(s, a, pc)) && Counted(SleepOn(s, a, pc))
  {
    JoinNoDup(s.sleepers, [s.cur.v]);
  }

  lemma YieldPlaced(s: Sys)
    requires Placed(s) && Counted(s) && s.cur.Some?
    ensures Placed(Step(s, Yield)) && Counted(Step(s, Yield))
  {
    JoinNoDup(s.run, [s.cur.v]);
  }

  lemma ForkPlaced(s: Sys, t: nat)
    requires Placed(s) && Counted(s) && s.cur.Some? && t !in s.threads
    ensures Placed(Step(s, Fork(t))) && Counted(Step(s, Fork(t)))
  {
    JoinNoDup(s.run, [t]);
  }

  lemma ExitPlaced(s: Sys)
    requires Placed(s) && Counted(s) && s.cur.Some?
    ensures Placed(Step(s, Exit)) && Counted(Step(s, Exit))
  {
    JoinNoDup(s.zombies, [s.cur.v]);
  }

  lemma SwitchPlaced(s: Sys)
    requires Placed(s) && Counted(s) && s.cur.None? && s.run != []
    ensures Placed(Switch(s)) && Counted(Switch(s))
    ensures forall t :: t in s.run <==> t == s.run[0] || t in s.run[1..]
  {
    forall t
      ensures t in s.run <==> t == s.run[0] || t in s.run[1..]
    {
    }
  }

  lemma ExorcisePlaced(s: Sys)
    requires Placed(s) && Counted(s)
    ensures Placed(Exorcise(s)) && Counted(Exorcise(s))
    ensures forall t :: t in Exorcise(s).threads <==> t in s.threads && t !in s.zombies
  {
  }

  /** Only the thread itself sleeps on itself. */
  lemma WakeOne(s: Sys, h: nat)
    requires forall t :: t in s.sleepers && On(s.threads, t, OnThread(h)) ==> t == h
    requires h in s.sleepers && On(s.threads, h, OnThread(h))
    ensures var s' := Wakeup(s, OnThread(h));
      && (forall t :: t in s'.run <==> t in s.run || t == h)
      && (forall t :: t in s'.sleepers <==> t in s.sleepers && t != h)
      && s' == s.(run := s'.run, sleepers := s'.sleepers)
  {
    WakeupMoves(s, OnThread(h));
  }

  // ---- Between a dispatch and the end of its step -------------------------

  ghost predicate NoneLostBut(s: Sys, x: Option<nat>) {
    forall l :: l in s.locks && x != Some(l) ==> NotLost(s, l)
  }

  /**
   * All of the invariant but what it says of the current thread, and of lock x that it is about to take or wait for.
   */
  ghost predicate Mid(s: Sys, x: Option<nat>) {
    && Placed(s) && Counted(s) && PcsOk(s)
    && SleepersOk(s) && QueuesOk(s) && SemsOk(s) && HeldOk(s) && OutsidersOk(s) && NoneLostBut(s, x)
  }

  lemma InvMid(s: Sys, x: Option<nat>)
    requires Inv(s)
    ensures Mid(s, x)
  {
    hide Placed, Counted, PcsOk, SleepersOk, QueuesOk, SemsOk, HeldOk, OutsidersOk, NotLost, CurOk;
  }

  lemma LockLoopInv(s: Sys, l: nat)
    requires s.cur.Some? && l in s.locks && s.locks[l].owner != s.cur && Mid(s, Some(l))
    ensures Inv(LockLoop(s, l))
  {
    if s.locks[l].owner.Some? {
      LockSleepPlaced(s, l);
      LockSleepQueues(s, l);
      LockSleepRest(s, l);
    } else {
      LockTakeQueues(s, l);
      LockTakeRest(s, l);
    }
  }

  lemma LockSleepPlaced(s: Sys, l: nat)
    requires s.cur.Some? && l in s.locks && s.locks[l].owner.Some? && Placed(s) && Counted(s)
    ensures Placed(LockLoop(s, l)) && Counted(LockLoop(s, l))
  {
    var k := s.locks[l];
    SleepPlaced(s.(locks := s.locks[l := k.(queue := k.queue + [s.cur.v])]), OnThread(s.cur.v), AtAcquire(l));
  }

  lemma LockSleepQueues(s: Sys, l: nat)
    requires s.cur.Some? && l in s.locks && s.locks[l].owner.Some? && Placed(s) && SleepersOk(s) && QueuesOk(s)
    ensures SleepersOk(LockLoop(s, l)) && QueuesOk(LockLoop(s, l))
  {
    var s' := LockLoop(s, l);
    var q := s.locks[l].queue;
    var t := s.cur.v;
    assert LockQueueOk(s, l, q);
    JoinNoDup(q, [t]);
    forall u | u in s'.sleepers
      ensures SleeperOk(s', u)
    {
      assert u != t ==> SleeperOk(s, u);
    }
    forall m | m in s'.locks
      ensures LockQueueOk(s', m, s'.locks[m].queue)
    {
      assert LockQueueOk(s, m, s.locks[m].queue);
    }
    forall c | c in s'.cvs
      ensures CvQueueOk(s', c, s'.cvs[c])
    {
      assert CvQueueOk(s, c, s.cvs[c]);
    }
  }

  lemma LockSleepRest(s: Sys, l: nat)
    requires s.cur.Some? && l in s.locks && s.locks[l].owner.Some? && s.locks[l].owner != s.cur && Mid(s, Some(l))
    ensures var s' := LockLoop(s, l);
      CurOk(s') && PcsOk(s') && SemsOk(s') && HeldOk(s') && OutsidersOk(s') && NoneLost(s')
  {
    hide SleepersOk, QueuesOk;
    var s' := LockLoop(s, l);
    forall x | x in s'.sems
      ensures SemOk(s', x)
    {
      assert SemOk(s, x);
    }
    forall t | t in s'.threads
      ensures OutsideOk(s', t) && PcOk(s', s'.threads[t].pc)
    {
      assert t in s.threads && OutsideOk(s, t);
    }
    forall m | m in s'.locks
      ensures NotLost(s', m)
    {
      if m != l && s.locks[m].owner.None? && s.locks[m].queue != [] {
        assert NotLost(s, m);
        var t :| Contends(s, t, m);
        assert Contends(s', t, m);
      }
    }
  }

  lemma LockTakeQueues(s: Sys, l: nat)
    requires s.cur.Some? && l in s.locks && s.locks[l].owner.None? && Placed(s) && Counted(s) && SleepersOk(s)
    requires QueuesOk(s)
    ensures var s' := LockLoop(s, l); Placed(s') && Counted(s') && SleepersOk(s') && QueuesOk(s')
  {
    var s' := LockLoop(s, l);
    forall u | u in s'.sleepers
      ensures SleeperOk(s', u)
    {
      assert SleeperOk(s, u);
    }
    forall m | m in s'.locks
      ensures LockQueueOk(s', m, s'.locks[m].queue)
    {
      assert LockQueueOk(s, m, s.locks[m].queue);
    }
    forall c | c in s'.cvs
      ensures CvQueueOk(s', c, s'.cvs[c])
    {
      assert CvQueueOk(s, c, s.cvs[c]);
    }
  }

  lemma LockTakeRest(s: Sys, l: nat)
    requires s.cur.Some? && l in s.locks && s.locks[l].owner.None? && Mid(s, Some(l))
    ensures var s' := LockLoop(s, l);
      CurOk(s') && PcsOk(s') && SemsOk(s') && HeldOk(s') && OutsidersOk(s') && NoneLost(s')
  {
    hide SleepersOk, QueuesOk;
    var s' := LockLoop(s, l);
    forall x | x in s'.sems
      ensures SemOk(s', x)
    {
      assert SemOk(s, x);
    }
    forall t | t in s'.threads
      ensures OutsideOk(s', t) && PcOk(s', s'.threads[t].pc)
    {
      assert t in s.threads && OutsideOk(s, t);
    }
    forall m | m in s'.locks
      ensures NotLost(s', m)
    {
      if m != l && s.locks[m].owner.None? && s.locks[m].queue != [] {
        assert NotLost(s, m);
        var t :| Contends(s, t, m);
        assert Contends(s', t, m);
      }
    }
  }

  // ---- Threads taken out of their queues, about to be woken ---------------

  ghost predicate Unqueued(s: Sys, t: nat) {
    && (forall l :: l in s.locks ==> t !in s.locks[l].queue)
    && (forall c :: c in s.cvs ==> t !in s.cvs[c])
  }

  ghost predicate LooseOne(s: Sys, t: nat) {
    t in s.sleepers && On(s.threads, t, OnThread(t)) && Unqueued(s, t)
  }

  /** All but what the invariant says of the threads of q, which are asleep but no longer queued, and of free locks. */
  ghost predicate Loose(s: Sys, q: seq<nat>) {
    && Placed(s) && Counted(s) && PcsOk(s) && QueuesOk(s) && SemsOk(s) && HeldOk(s) && OutsidersOk(s)
    && NoDup(q) && (forall t :: t in q ==> LooseOne(s, t))
    && (forall t :: t in s.sleepers && t !in q ==> SleeperOk(s, t))
  }

  lemma LooseWake(s: Sys, q: seq<nat>)
    requires Loose(s, q) && q != []
    ensures var s' := Wakeup(s, OnThread(q[0]));
      && Loose(s', q[1..]) && q[0] in s'.run && (forall t :: t in s.run ==> t in s'.run)
      && s' == s.(run := s'.run, sleepers := s'.sleepers)
  {
    var h := q[0];
    assert LooseOne(s, h);
    forall t | t in s.sleepers && On(s.threads, t, OnThread(h))
      ensures t == h
    {
      assert t in q ==> LooseOne(s, t);
    }
    WakeOne(s, h);
    WakeupPlaced(s, OnThread(h));
    LooseRest(s, Wakeup(s, OnThread(h)), q);
  }

  lemma LooseRest(s: Sys, s': Sys, q: seq<nat>)
    requires Loose(s, q) && q != [] && Placed(s') && Counted(s')
    requires s' == s.(run := s'.run, sleepers := s'.sleepers)
    requires forall t :: t in s'.sleepers <==> t in s.sleepers && t != q[0]
    ensures Loose(s', q[1..])
  {
    var h := q[0];
    assert LooseOne(s, h);
    forall t | t in q[1..]
      ensures LooseOne(s', t)
    {
      assert LooseOne(s, t);
    }
    forall t | t in s'.sleepers && t !in q[1..]
      ensures SleeperOk(s', t)
    {
      assert t in q <==> t == h || t in q[1..];
      assert SleeperOk(s, t);
    }
    forall m | m in s'.locks
      ensures LockQueueOk(s', m, s'.locks[m].queue)
    {
      assert LockQueueOk(s, m, s.locks[m].queue);
    }
    forall c | c in s'.cvs
      ensures CvQueueOk(s', c, s'.cvs[c])
    {
      assert CvQueueOk(s, c, s.cvs[c]);
    }
    forall x | x in s'.sems
      ensures SemOk(s', x)
    {
      assert SemOk(s, x);
    }
    forall t | t in s'.threads
      ensures OutsideOk(s', t) && PcOk(s', s'.threads[t].pc)
    {
      assert OutsideOk(s, t) && PcOk(s, s.threads[t].pc);
    }
  }

  lemma {:induction false} LooseWakeAll(s: Sys, q: seq<nat>)
    requires Loose(s, q)
    ensures var s' := WakeAll(s, q); Loose(s', []) && forall t :: t in s.run ==> t in s'.run
    decreases |q|
  {
    hide Loose, Wakeup;
    if q != [] {
      LooseWake(s, q);
      LooseWakeAll(Wakeup(s, OnThread(q[0])), q[1..]);
    }
  }

  lemma LooseNone(s: Sys)
    requires Loose(s, [])
    ensures SleepersOk(s)
  {
  }

  /** A lock keeps its contenders while threads are only made runnable. */
  lemma KeepNotLost(s: Sys, s': Sys, l: nat)
    requires s'.threads == s.threads && NotLost(s, l) && l in s.locks && l in s'.locks && s'.locks[l] == s.locks[l]
    requires forall t :: t in s.run ==> t in s'.run
    ensures NotLost(s', l)
  {
    if s.locks[l].owner.None? && s.locks[l].queue != [] {
      var t :| Contends(s, t, l);
      assert Contends(s', t, l);
    }
  }

  // ---- Releasing a lock ---------------------------------------------------

  /** The owner gone and the head off the queue. */
  function Vacated(s: Sys, l: nat): Sys
    requires s.cur.Some? && l in s.locks
  {
    var k := s.locks[l];
    s.(locks := s.locks[l := Lock(None, if k.queue == [] then [] else k.queue[1..])], held := s.held - {(s.cur.v, l)})
  }

  lemma VacatedLoose(s: Sys, l: nat)
    requires Inv(s) && Holds(s, l)
    ensures Loose(Vacated(s, l), if s.locks[l].queue == [] then [] else [s.locks[l].queue[0]])
  {
    hide NoneLost, Counted, CurOk;
    var s1 := Vacated(s, l);
    var q := s.locks[l].queue;
    var h := if q == [] then [] else [q[0]];
    assert LockQueueOk(s, l, q);
    VacatedRest(s, l);
    VacatedQueues(s, l);
    forall t | t in s1.sleepers && t !in h
      ensures SleeperOk(s1, t)
    {
      assert SleeperOk(s, t);
      assert t in q ==> t in s1.locks[l].queue;
    }
    if q != [] {
      VacatedHead(s, l);
    }
  }

  lemma VacatedHead(s: Sys, l: nat)
    requires Inv(s) && Holds(s, l) && s.locks[l].queue != []
    ensures LooseOne(Vacated(s, l), s.locks[l].queue[0])
  {
    hide NoneLost, Counted, CurOk, Placed, SemsOk, HeldOk, OutsidersOk, PcsOk, SleepersOk;
    var s1 := Vacated(s, l);
    var t := s.locks[l].queue[0];
    assert LockQueueOk(s, l, s.locks[l].queue) && t in s.locks[l].queue;
    forall m | m in s1.locks
      ensures t !in s1.locks[m].queue
    {
      assert LockQueueOk(s, m, s.locks[m].queue);
    }
    forall c | c in s1.cvs
      ensures t !in s1.cvs[c]
    {
      assert CvQueueOk(s, c, s.cvs[c]);
    }
  }

  lemma VacatedRest(s: Sys, l: nat)
    requires Inv(s) && Holds(s, l)
    ensures var s1 := Vacated(s, l);
      Placed(s1) && Counted(s1) && PcsOk(s1) && SemsOk(s1) && HeldOk(s1) && OutsidersOk(s1)
  {
    hide NoneLost, CurOk, QueuesOk, SleepersOk;
    var s1 := Vacated(s, l);
    forall x | x in s1.sems
      ensures SemOk(s1, x)
    {
      assert SemOk(s, x);
    }
    forall t | t in s1.threads
      ensures OutsideOk(s1, t) && PcOk(s1, s1.threads[t].pc)
    {
      assert OutsideOk(s, t) && PcOk(s, s.threads[t].pc);
    }
  }

  lemma VacatedQueues(s: Sys, l: nat)
    requires Inv(s) && Holds(s, l)
    ensures QueuesOk(Vacated(s, l))
  {
    hide NoneLost, Counted, CurOk, Placed, SemsOk, HeldOk, OutsidersOk, PcsOk, SleepersOk;
    var s1 := Vacated(s, l);
    forall m | m in s1.locks
      ensures LockQueueOk(s1, m, s1.locks[m].queue)
    {
      assert LockQueueOk(s, m, s.locks[m].queue);
    }
    forall c | c in s1.cvs
      ensures CvQueueOk(s1, c, s1.cvs[c])
    {
      assert CvQueueOk(s, c, s.cvs[c]);
    }
  }

  lemma UnlockInv(s: Sys, l: nat)
    requires Inv(s) && Holds(s, l)
    ensures var s' := Unlock(s, l);
      Inv(s') && s'.cur == s.cur && s'.locks.Keys == s.locks.Keys && s'.cvs == s.cvs && s'.locks[l].owner.None?
  {
    var s1 := Vacated(s, l);
    VacatedLoose(s, l);
    var q := s.locks[l].queue;
    hide Placed, Counted, PcsOk, SemsOk, HeldOk, OutsidersOk, QueuesOk, SleepersOk, Wakeup, NotLost;
    if q != [] {
      LooseWake(s1, [q[0]]);
      HeadContends(s, s1, Unlock(s, l), l);
    }
    LooseNone(Unlock(s, l));
    UnlockNoneLost(s, l);
  }

  lemma HeadContends(s: Sys, s1: Sys, s': Sys, l: nat)
    requires QueuesOk(s) && l in s.locks && s.locks[l].queue != []
    requires s1.threads == s.threads && s'.threads == s.threads && s.locks[l].queue[0] in s'.run
    ensures Contends(s', s.locks[l].queue[0], l)
  {
    assert LockQueueOk(s, l, s.locks[l].queue);
    assert s.locks[l].queue[0] in s.locks[l].queue;
  }

  lemma UnlockNoneLost(s: Sys, l: nat)
    requires Inv(s) && Holds(s, l)
    requires s.locks[l].queue != [] ==> Contends(Unlock(s, l), s.locks[l].queue[0], l)
    ensures NoneLost(Unlock(s, l))
  {
    hide Placed, Counted, PcsOk, SemsOk, HeldOk, OutsidersOk, QueuesOk, SleepersOk, Woken, Left;
    var s' := Unlock(s, l);
    forall m | m in s'.locks
      ensures NotLost(s', m)
    {
      if m != l {
        KeepNotLost(s, s', m);
      }
    }
  }

  // ---- Condition variables ------------------------------------------------

  function CvSleep(s: Sys, c: nat, l: nat): Sys
    requires s.cur.Some? && c in s.cvs
  {
    SleepOn(s.(cvs := s.cvs[c := s.cvs[c] + [s.cur.v]]), OnThread(s.cur.v), AtWait(c, l))
  }

  lemma CvSleepQueues(s: Sys, c: nat, l: nat)
    requires s.cur.Some? && c in s.cvs && l in s.locks && Placed(s) && SleepersOk(s) && QueuesOk(s)
    ensures SleepersOk(CvSleep(s, c, l)) && QueuesOk(CvSleep(s, c, l))
  {
    var s' := CvSleep(s, c, l);
    var t := s.cur.v;
    assert CvQueueOk(s, c, s.cvs[c]);
    JoinNoDup(s.cvs[c], [t]);
    forall u | u in s'.sleepers
      ensures SleeperOk(s', u)
    {
      assert u != t ==> SleeperOk(s, u);
    }
    forall m | m in s'.locks
      ensures LockQueueOk(s', m, s'.locks[m].queue)
    {
      assert LockQueueOk(s, m, s.locks[m].queue);
    }
    forall d | d in s'.cvs
      ensures CvQueueOk(s', d, s'.cvs[d])
    {
      assert CvQueueOk(s, d, s.cvs[d]);
    }
  }

  /** A thread that goes to sleep without being anyone's owner-to-be leaves the rest as it was. */
  lemma SleepRest(s: Sys, s': Sys, a: Addr, pc: Pc)
    requires s.cur.Some? && Placed(s) && PcsOk(s) && SemsOk(s) && HeldOk(s) && OutsidersOk(s) && NoneLost(s)
    requires s' == SleepOn(s, a, pc).(cvs := s'.cvs) && s'.cvs.Keys == s.cvs.Keys
    requires PcOk(s, pc) && !pc.AtAcquire? && !pc.Start? && !pc.Running?
    requires (a.OnSem? ==> a.s in s.sems && s.sems[a.s] == 0)
    requires pc.AtWait? ==> s.locks[pc.l].owner != s.cur
    ensures CurOk(s') && PcsOk(s') && SemsOk(s') && HeldOk(s') && OutsidersOk(s') && NoneLost(s')
  {
    var c := s.cur.v;
    forall x | x in s'.sems
      ensures SemOk(s', x)
    {
      assert SemOk(s, x);
    }
    forall t | t in s'.threads
      ensures OutsideOk(s', t) && PcOk(s', s'.threads[t].pc)
    {
      assert t != c ==> OutsideOk(s, t) && PcOk(s, s.threads[t].pc);
    }
    forall m | m in s'.locks
      ensures NotLost(s', m)
    {
      if s.locks[m].owner.None? && s.locks[m].queue != [] {
        assert NotLost(s, m);
        var t :| Contends(s, t, m);
        assert Contends(s', t, m);
      }
    }
  }

  lemma CvSleepInv(s: Sys, c: nat, l: nat)
    requires Inv(s) && s.cur.Some? && c in s.cvs && l in s.locks && s.locks[l].owner.None?
    ensures Inv(CvSleep(s, c, l))
  {
    CvSleepQueues(s, c, l);
    SleepPlaced(s.(cvs := s.cvs[c := s.cvs[c] + [s.cur.v]]), OnThread(s.cur.v), AtWait(c, l));
    SleepRest(s, CvSleep(s, c, l), OnThread(s.cur.v), AtWait(c, l));
  }

  lemma CvWaitInv(s: Sys, c: nat, l: nat)
    requires Inv(s) && Holds(s, l) && c in s.cvs
    ensures Inv(CvWait(s, c, l))
  {
    hide Inv, Unlock, SleepOn;
    UnlockInv(s, l);
    CvSleepInv(Unlock(s, l), c, l);
  }

  /** Taking the first n threads off a condition variable's queue. */
  lemma CvLoose(s: Sys, c: nat, n: nat)
    requires Inv(s) && c in s.cvs && n <= |s.cvs[c]|
    ensures Loose(s.(cvs := s.cvs[c := s.cvs[c][n..]]), s.cvs[c][..n])
  {
    hide NoneLost, CurOk;
    var q := s.cvs[c];
    var s1 := s.(cvs := s.cvs[c := q[n..]]);
    assert CvQueueOk(s, c, q);
    CvLooseQueues(s, c, n);
    forall t | t in q[..n]
      ensures LooseOne(s1, t)
    {
      CvLooseOne(s, c, n, t);
    }
    forall t | t in s1.sleepers && t !in q[..n]
      ensures SleeperOk(s1, t)
    {
      assert SleeperOk(s, t);
      SplitIn(q, n, t);
    }
    forall x | x in s1.sems
      ensures SemOk(s1, x)
    {
      assert SemOk(s, x);
    }
    forall t | t in s1.threads
      ensures OutsideOk(s1, t) && PcOk(s1, s1.threads[t].pc)
    {
      assert OutsideOk(s, t) && PcOk(s, s.threads[t].pc);
    }
  }

  lemma SplitIn(q: seq<nat>, n: nat, t: nat)
    requires n <= |q|
    ensures t in q <==> t in q[..n] || t in q[n..]
    ensures NoDup(q) && t in q[..n] ==> t !in q[n..]
  {
    assert q == q[..n] + q[n..];
  }

  lemma CvLooseOne(s: Sys, c: nat, n: nat, t: nat)
    requires QueuesOk(s) && c in s.cvs && n <= |s.cvs[c]| && t in s.cvs[c][..n]
    ensures LooseOne(s.(cvs := s.cvs[c := s.cvs[c][n..]]), t)
  {
    var q := s.cvs[c];
    var s1 := s.(cvs := s.cvs[c := q[n..]]);
    assert CvQueueOk(s, c, q);
    SplitIn(q, n, t);
    forall m | m in s1.locks
      ensures t !in s1.locks[m].queue
    {
      assert LockQueueOk(s, m, s.locks[m].queue);
    }
    forall d | d in s1.cvs
      ensures t !in s1.cvs[d]
    {
      assert CvQueueOk(s, d, s.cvs[d]);
    }
  }

  lemma CvLooseQueues(s: Sys, c: nat, n: nat)
    requires QueuesOk(s) && c in s.cvs && n <= |s.cvs[c]|
    ensures QueuesOk(s.(cvs := s.cvs[c := s.cvs[c][n..]])) && NoDup(s.cvs[c][..n])
  {
    var s1 := s.(cvs := s.cvs[c := s.cvs[c][n..]]);
    assert CvQueueOk(s, c, s.cvs[c]);
    forall m | m in s1.locks
      ensures LockQueueOk(s1, m, s1.locks[m].queue)
    {
      assert LockQueueOk(s, m, s.locks[m].queue);
    }
    forall d | d in s1.cvs
      ensures CvQueueOk(s1, d, s1.cvs[d])
    {
      assert CvQueueOk(s, d, s.cvs[d]);
    }
  }

  /** Threads woken from a condition variable's queue, the current thread going on. */
  lemma CvWakeInv(s: Sys, c: nat, n: nat)
    requires Inv(s) && c in s.cvs && n <= |s.cvs[c]|
    ensures Inv(WakeAll(s.(cvs := s.cvs[c := s.cvs[c][n..]]), s.cvs[c][..n]))
  {
    var s1 := s.(cvs := s.cvs[c := s.cvs[c][n..]]);
    var q := s.cvs[c][..n];
    CvLoose(s, c, n);
    LooseWakeAll(s1, q);
    var s' := WakeAll(s1, q);
    hide WakeAll, Placed, Counted, PcsOk, SemsOk, HeldOk, OutsidersOk, QueuesOk, SleepersOk, NotLost;
    LooseNone(s');
    forall l | l in s'.locks
      ensures NotLost(s', l)
    {
      KeepNotLost(s, s', l);
    }
  }

  lemma CvSignalInv(s: Sys, c: nat, l: nat)
    requires Inv(s) && Holds(s, l) && c in s.cvs
    ensures Inv(CvSignal(s, c, l))
  {
    hide Inv, Unlock, LockLoop, Mid, Wakeup;
    UnlockInv(s, l);
    var s1 := Unlock(s, l);
    var q := s1.cvs[c];
    var s2 := if q == [] then s1 else Wakeup(s1.(cvs := s1.cvs[c := q[1..]]), OnThread(q[0]));
    if q != [] {
      CvWakeInv(s1, c, 1);
      WakeAllOne(s1.(cvs := s1.cvs[c := q[1..]]), q[0]);
      assert q[..1] == [q[0]];
    }
    WakeupMoves(s1.(cvs := s1.cvs[c := if q == [] then [] else q[1..]]), OnThread(if q == [] then 0 else q[0]));
    InvMid(s2, Some(l));
    LockLoopInv(s2, l);
  }

  lemma WakeAllOne(s: Sys, h: nat)
    ensures WakeAll(s, [h]) == Wakeup(s, OnThread(h))
  {
    assert WakeAll(Wakeup(s, OnThread(h)), []) == Wakeup(s, OnThread(h));
  }

  lemma CvBroadcastInv(s: Sys, c: nat, l: nat)
    requires Inv(s) && Holds(s, l) && c in s.cvs
    ensures Inv(CvBroadcast(s, c, l))
  {
    hide Inv, Unlock, LockLoop, Mid, WakeAll;
    UnlockInv(s, l);
    var s1 := Unlock(s, l);
    var q := s1.cvs[c];
    CvWakeInv(s1, c, |q|);
    assert q[|q|..] == [] && q[..|q|] == q;
    var s2 := WakeAll(s1.(cvs := s1.cvs[c := []]), q);
    InvMid(s2, Some(l));
    LockLoopInv(s2, l);
  }

  // ---- Semaphores and other sleeps ----------------------------------------

  /** A thread that goes to sleep off every queue. */
  lemma SleepQueues(s: Sys, a: Addr, pc: Pc)
    requires s.cur.Some? && Placed(s) && SleepersOk(s) && QueuesOk(s)
    requires (pc.AtP? && a == OnSem(pc.s)) || (pc.AtSleep? && a.OnOther?)
    ensures SleepersOk(SleepOn(s, a, pc)) && QueuesOk(SleepOn(s, a, pc))
  {
    var s' := SleepOn(s, a, pc);
    var t := s.cur.v;
    forall u | u in s'.sleepers
      ensures SleeperOk(s', u)
    {
      assert u != t ==> SleeperOk(s, u);
    }
    forall m | m in s'.locks
      ensures LockQueueOk(s', m, s'.locks[m].queue)
    {
      assert LockQueueOk(s, m, s.locks[m].queue);
    }
    forall d | d in s'.cvs
      ensures CvQueueOk(s', d, s'.cvs[d])
    {
      assert CvQueueOk(s, d, s.cvs[d]);
    }
  }

  lemma SleepInv(s: Sys, a: Addr, pc: Pc)
    requires s.cur.Some? && Mid(s, None) && PcOk(s, pc)
    requires (pc.AtP? && a == OnSem(pc.s) && s.sems[pc.s] == 0) || (pc.AtSleep? && a.OnOther?)
    ensures Inv(SleepOn(s, a, pc))
  {
    hide Placed, Counted, PcsOk, SemsOk, HeldOk, OutsidersOk, QueuesOk, SleepersOk, NotLost;
    SleepPlaced(s, a, pc);
    SleepQueues(s, a, pc);
    SleepRest(s, SleepOn(s, a, pc), a, pc);
  }

  /** The current thread goes on; nothing that others depend on has changed. */
  lemma GoOn(s: Sys, sems: map<nat, nat>)
    requires s.cur.Some? && Mid(s, None) && sems.Keys == s.sems.Keys
    requires forall x :: x in sems ==> SemOk(s.(sems := sems), x)
    ensures Inv(SetThread(s.(sems := sems), s.cur.v, Thread(Nowhere, Running)))
  {
    GoOnQueues(s, sems);
    hide SleepersOk, QueuesOk;
    var s' := SetThread(s.(sems := sems), s.cur.v, Thread(Nowhere, Running));
    forall x | x in s'.sems
      ensures SemOk(s', x)
    {
      assert SemOk(s.(sems := sems), x);
    }
    forall t | t in s'.threads
      ensures OutsideOk(s', t) && PcOk(s', s'.threads[t].pc)
    {
      assert t in s.threads && OutsideOk(s, t);
    }
    forall m | m in s'.locks
      ensures NotLost(s', m)
    {
      if s.locks[m].owner.None? && s.locks[m].queue != [] {
        assert NotLost(s, m);
        var t :| Contends(s, t, m);
        assert Contends(s', t, m);
      }
    }
  }

  lemma GoOnQueues(s: Sys, sems: map<nat, nat>)
    requires s.cur.Some? && Placed(s) && Counted(s) && SleepersOk(s) && QueuesOk(s)
    ensures var s' := SetThread(s.(sems := sems), s.cur.v, Thread(Nowhere, Running));
      Placed(s') && Counted(s') && SleepersOk(s') && QueuesOk(s')
  {
    var s' := SetThread(s.(sems := sems), s.cur.v, Thread(Nowhere, Running));
    forall u | u in s'.sleepers
      ensures SleeperOk(s', u)
    {
      assert SleeperOk(s, u);
    }
    forall m | m in s'.locks
      ensures LockQueueOk(s', m, s'.locks[m].queue)
    {
      assert LockQueueOk(s, m, s.locks[m].queue);
    }
    forall d | d in s'.cvs
      ensures CvQueueOk(s', d, s'.cvs[d])
    {
      assert CvQueueOk(s, d, s.cvs[d]);
    }
  }

  lemma SemTakes(s: Sys, x: nat, sems: map<nat, nat>)
    requires x in s.sems && s.sems[x] > 0 && SemsOk(s)
    requires sems == s.sems[x := s.sems[x] - 1]
    ensures forall y :: y in sems ==> SemOk(s.(sems := sems), y)
  {
    assert SemOk(s, x);
    forall y | y in sems
      ensures SemOk(s.(sems := sems), y)
    {
      assert SemOk(s, y);
    }
  }

  lemma SemLoopInv(s: Sys, x: nat)
    requires s.cur.Some? && x in s.sems && Mid(s, None)
    ensures Inv(SemLoop(s, x))
  {
    hide Placed, Counted, PcsOk, HeldOk, OutsidersOk, QueuesOk, SleepersOk, NoneLostBut, Inv, SemsOk, SemOk;
    if s.sems[x] == 0 {
      SleepInv(s, OnSem(x), AtP(x));
    } else {
      var sems := s.sems[x := s.sems[x] - 1];
      SemTakes(s, x, sems);
      GoOn(s, sems);
    }
  }

  /** Waking the sleepers on an address that is no thread. */
  lemma WakeInv(s: Sys, a: Addr)
    requires Placed(s) && Counted(s) && CurOk(s) && PcsOk(s) && SleepersOk(s) && QueuesOk(s) && HeldOk(s)
    requires OutsidersOk(s) && NoneLost(s)
    requires forall x :: x in s.sems && a != OnSem(x) ==> SemOk(s, x)
    requires !a.OnThread?
    ensures Inv(Wakeup(s, a))
  {
    var s' := Wakeup(s, a);
    WakeupMoves(s, a);
    WakeupPlaced(s, a);
    WakeQueues(s, a);
    hide SleepersOk, QueuesOk, Placed, Counted, Woken, Left;
    forall x | x in s'.sems
      ensures SemOk(s', x)
    {
      assert a != OnSem(x) ==> SemOk(s, x);
    }
    forall t | t in s'.threads
      ensures OutsideOk(s', t) && PcOk(s', s'.threads[t].pc)
    {
      assert OutsideOk(s, t) && PcOk(s, s.threads[t].pc);
    }
    forall l | l in s'.locks
      ensures NotLost(s', l)
    {
      KeepNotLost(s, s', l);
    }
  }

  lemma WakeQueues(s: Sys, a: Addr)
    requires SleepersOk(s) && QueuesOk(s) && !a.OnThread?
    ensures SleepersOk(Wakeup(s, a)) && QueuesOk(Wakeup(s, a))
  {
    var s' := Wakeup(s, a);
    WakeupMoves(s, a);
    hide Woken, Left;
    forall u | u in s'.sleepers
      ensures SleeperOk(s', u)
    {
      assert SleeperOk(s, u);
    }
    forall m | m in s'.locks
      ensures LockQueueOk(s', m, s'.locks[m].queue)
    {
      assert LockQueueOk(s, m, s.locks[m].queue);
    }
    forall d | d in s'.cvs
      ensures CvQueueOk(s', d, s'.cvs[d])
    {
      assert CvQueueOk(s, d, s.cvs[d]);
    }
  }

  lemma UpInv(s: Sys, x: nat)
    requires Inv(s) && x in s.sems
    ensures Inv(Up(s, x))
  {
    hide Placed, Counted, CurOk, PcsOk, HeldOk, OutsidersOk, QueuesOk, SleepersOk, SemOk, NoneLost, Wakeup;
    var s1 := s.(sems := s.sems[x := s.sems[x] + 1]);
    UpRest(s, s1, x);
    UpSems(s, s1, x);
    WakeInv(s1, OnSem(x));
  }

  /** The semaphore itself has sleepers until they are woken. */
  lemma UpSems(s: Sys, s1: Sys, x: nat)
    requires SemsOk(s) && x in s.sems
    requires s1 == s.(sems := s.sems[x := s.sems[x] + 1])
    ensures forall y :: y in s1.sems && y != x ==> SemOk(s1, y)
  {
    assert SemOk(s, x);
    forall y | y in s1.sems && y != x
      ensures SemOk(s1, y)
    {
      assert SemOk(s, y);
    }
  }

  lemma UpRest(s: Sys, s1: Sys, x: nat)
    requires Inv(s) && s1 == s.(sems := s1.sems) && s1.sems.Keys == s.sems.Keys
    ensures Placed(s1) && Counted(s1) && CurOk(s1) && PcsOk(s1) && SleepersOk(s1) && QueuesOk(s1) && HeldOk(s1)
    ensures OutsidersOk(s1) && NoneLost(s1)
  {
    forall u | u in s1.sleepers
      ensures SleeperOk(s1, u)
    {
      assert SleeperOk(s, u);
    }
    forall m | m in s1.locks
      ensures LockQueueOk(s1, m, s1.locks[m].queue)
    {
      assert LockQueueOk(s, m, s.locks[m].queue);
    }
    forall d | d in s1.cvs
      ensures CvQueueOk(s1, d, s1.cvs[d])
    {
      assert CvQueueOk(s, d, s.cvs[d]);
    }
    forall t | t in s1.threads
      ensures OutsideOk(s1, t) && PcOk(s1, s1.threads[t].pc)
    {
      assert OutsideOk(s, t) && PcOk(s, s.threads[t].pc);
    }
    forall l | l in s1.locks
      ensures NotLost(s1, l)
    {
      KeepNotLost(s, s1, l);
    }
  }

  // ---- Switching ----------------------------------------------------------

  /** The lock a thread at this point is about to take or wait for. */
  function Wanted(pc: Pc): Option<nat> {
    match pc
    case AtAcquire(l) => Some(l)
    case AtWait(_, l) => Some(l)
    case _ => None
  }

  lemma SwitchMid(s: Sys)
    requires Inv(s) && s.cur.None? && s.run != [] && s.run[0] in s.threads
    ensures Mid(Switch(s), Wanted(s.threads[s.run[0]].pc))
  {
    SwitchPlaced(s);
    var s' := Switch(s);
    UpRestBut(s, s');
    var x := Wanted(s.threads[s.run[0]].pc);
    forall l | l in s'.locks && x != Some(l)
      ensures NotLost(s', l)
    {
      if s.locks[l].owner.None? && s.locks[l].queue != [] {
        assert NotLost(s, l);
        var t :| Contends(s, t, l);
        assert Contends(s', t, l);
      }
    }
  }

  /** Nothing has changed but who runs next. */
  lemma UpRestBut(s: Sys, s': Sys)
    requires Inv(s) && s' == s.(cur := s'.cur, run := s'.run, zombies := s'.zombies, numthreads := s'.numthreads)
    ensures PcsOk(s') && SleepersOk(s') && QueuesOk(s') && SemsOk(s') && HeldOk(s') && OutsidersOk(s')
  {
    hide NoneLost, Placed, Counted, CurOk;
    forall u | u in s'.sleepers
      ensures SleeperOk(s', u)
    {
      assert SleeperOk(s, u);
    }
    forall m | m in s'.locks
      ensures LockQueueOk(s', m, s'.locks[m].queue)
    {
      assert LockQueueOk(s, m, s.locks[m].queue);
    }
    forall d | d in s'.cvs
      ensures CvQueueOk(s', d, s'.cvs[d])
    {
      assert CvQueueOk(s, d, s.cvs[d]);
    }
    forall x | x in s'.sems
      ensures SemOk(s', x)
    {
      assert SemOk(s, x);
    }
    forall t | t in s'.threads
      ensures OutsideOk(s', t) && PcOk(s', s'.threads[t].pc)
    {
      assert OutsideOk(s, t) && PcOk(s, s.threads[t].pc);
    }
  }

  lemma ExorciseMid(s: Sys, x: Option<nat>)
    requires Mid(s, x)
    ensures Mid(Exorcise(s), x)
  {
    ExorcisePlaced(s);
    ExorciseQueues(s);
    hide SleepersOk, QueuesOk, Counted;
    var s' := Exorcise(s);
    forall y | y in s'.sems
      ensures SemOk(s', y)
    {
      assert SemOk(s, y);
    }
    forall t | t in s'.threads
      ensures OutsideOk(s', t) && PcOk(s', s'.threads[t].pc)
    {
      assert OutsideOk(s, t) && PcOk(s, s.threads[t].pc);
    }
    forall l | l in s'.locks && x != Some(l)
      ensures NotLost(s', l)
    {
      if s.locks[l].owner.None? && s.locks[l].queue != [] {
        assert NotLost(s, l);
        var t :| Contends(s, t, l);
        assert Contends(s', t, l);
      }
    }
  }

  lemma ExorciseQueues(s: Sys)
    requires Placed(s) && SleepersOk(s) && QueuesOk(s)
    ensures SleepersOk(Exorcise(s)) && QueuesOk(Exorcise(s))
  {
    var s' := Exorcise(s);
    forall u | u in s'.sleepers
      ensures SleeperOk(s', u)
    {
      assert SleeperOk(s, u);
    }
    forall m | m in s'.locks
      ensures LockQueueOk(s', m, s'.locks[m].queue)
    {
      assert LockQueueOk(s, m, s.locks[m].queue);
    }
    forall d | d in s'.cvs
      ensures CvQueueOk(s', d, s'.cvs[d])
    {
      assert CvQueueOk(s, d, s.cvs[d]);
    }
  }

  lemma ResumeInv(s: Sys)
    requires s.cur.Some? && s.cur.v in s.threads && Mid(s, Wanted(s.threads[s.cur.v].pc))
    ensures Inv(Resume(s))
  {
    var t := s.cur.v;
    assert OutsideOk(s, t) && PcOk(s, s.threads[t].pc);
    hide Placed, Counted, PcsOk, SemsOk, HeldOk, OutsidersOk, QueuesOk, SleepersOk, NotLost, LockLoop, SemLoop, Inv;
    hide Mid;
    match s.threads[t].pc
    case Start => ResumePlain(s);
    case Running => ResumePlain(s);
    case AtSleep => ResumePlain(s);
    case AtP(x) => SemLoopInv(s, x);
    case AtAcquire(l) => LockLoopInv(s, l);
    case AtWait(c, l) => LockLoopInv(s, l);
  }

  lemma ResumePlain(s: Sys)
    requires s.cur.Some? && s.cur.v in s.threads && Mid(s, None)
    requires s.threads[s.cur.v].pc in {Start, Running, AtSleep}
    requires s.threads[s.cur.v].pc == Running ==> s.threads[s.cur.v].addr == Nowhere
    ensures Inv(Resume(s))
  {
    hide Placed, Counted, PcsOk, HeldOk, OutsidersOk, QueuesOk, SleepersOk, NotLost, Inv;
    assert s.(sems := s.sems) == s;
    GoOn(s, s.sems);
    assert s.threads[s.cur.v].pc == Running ==> s.threads[s.cur.v := Thread(Nowhere, Running)] == s.threads;
  }

  lemma DispatchInv(s: Sys)
    requires Inv(s) && Allowed(s, Schedule)
    ensures Inv(Dispatch(s))
  {
    SwitchMid(s);
    var s1 := Switch(s);
    var x := Wanted(s.threads[s.run[0]].pc);
    hide Inv, Mid, Resume;
    if s.threads[s.run[0]].pc == Start {
      ResumeInv(s1);
    } else {
      ExorciseMid(s1, x);
      ResumeInv(Exorcise(s1));
    }
  }

  // ---- The other steps ----------------------------------------------------

  lemma LeaveInv(s: Sys, op: Op)
    requires Inv(s) && s.cur.Some? && (op == Yield || op == Exit)
    ensures Inv(Step(s, op))
  {
    var s' := Step(s, op);
    if op == Yield { YieldPlaced(s); } else { ExitPlaced(s); }
    UpRestBut(s, s');
    hide Placed, Counted, PcsOk, SemsOk, HeldOk, OutsidersOk, QueuesOk, SleepersOk;
    forall l | l in s'.locks
      ensures NotLost(s', l)
    {
      KeepNotLost(s, s', l);
    }
  }

  lemma ForkQueues(s: Sys, t: nat)
    requires Placed(s) && SleepersOk(s) && QueuesOk(s) && s.cur.Some? && t !in s.threads
    ensures SleepersOk(Step(s, Fork(t))) && QueuesOk(Step(s, Fork(t)))
  {
    var s' := Step(s, Fork(t));
    forall u | u in s'.sleepers
      ensures SleeperOk(s', u)
    {
      assert SleeperOk(s, u);
    }
    forall m | m in s'.locks
      ensures LockQueueOk(s', m, s'.locks[m].queue)
    {
      assert LockQueueOk(s, m, s.locks[m].queue);
    }
    forall d | d in s'.cvs
      ensures CvQueueOk(s', d, s'.cvs[d])
    {
      assert CvQueueOk(s, d, s.cvs[d]);
    }
  }

  lemma ForkInv(s: Sys, t: nat)
    requires Inv(s) && Allowed(s, Fork(t))
    ensures Inv(Step(s, Fork(t)))
  {
    ForkPlaced(s, t);
    ForkQueues(s, t);
    hide SleepersOk, QueuesOk, Counted;
    var s' := Step(s, Fork(t));
    forall x | x in s'.sems
      ensures SemOk(s', x)
    {
      assert SemOk(s, x);
    }
    forall u | u in s'.threads
      ensures OutsideOk(s', u) && PcOk(s', s'.threads[u].pc)
    {
      assert u != t ==> OutsideOk(s, u) && PcOk(s, s.threads[u].pc);
    }
    forall m | m in s'.locks
      ensures NotLost(s', m)
    {
      if s.locks[m].owner.None? && s.locks[m].queue != [] {
        assert NotLost(s, m);
        var u :| Contends(s, u, m);
        assert Contends(s', u, m);
      }
    }
  }

  lemma WakeOtherInv(s: Sys, n: nat)
    requires Inv(s)
    ensures Inv(Wakeup(s, OnOther(n)))
  {
    hide Placed, Counted, CurOk, PcsOk, SemOk, HeldOk, OutsidersOk, QueuesOk, SleepersOk, NoneLost, Wakeup;
    WakeInv(s, OnOther(n));
  }

  /** Every step keeps the invariant. */
  lemma StepInv(s: Sys, op: Op)
    requires Inv(s) && Allowed(s, op)
    ensures Inv(Step(s, op))
  {
    hide Inv, Mid, Dispatch, SemLoop, Up, LockLoop, Unlock, CvWait, CvSignal, CvBroadcast, SleepOn, Wakeup;
    match op
    case Fork(t) => ForkInv(s, t);
    case Yield => LeaveInv(s, Yield);
    case Exit => LeaveInv(s, Exit);
    case Schedule => DispatchInv(s);
    case P(x) => InvMid(s, None); SemLoopInv(s, x);
    case V(x) => UpInv(s, x);
    case Acquire(l) => InvMid(s, Some(l)); LockLoopInv(s, l);
    case Release(l) => UnlockInv(s, l);
    case Wait(c, l) => CvWaitInv(s, c, l);
    case Signal(c, l) => CvSignalInv(s, c, l);
    case Broadcast(c, l) => CvBroadcastInv(s, c, l);
    case Sleep(n) => InvMid(s, None); SleepInv(s, OnOther(n), AtSleep);
    case Wake(n) => WakeOtherInv(s, n);
  }
}
