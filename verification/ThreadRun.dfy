/** What holds over every run of the thread system. */
module ThreadRun {
  import opened Threads
  import opened ThreadInv

  /** Any run: each step allowed where it is taken. */
  predicate Runs(s: Sys, ops: seq<Op>)
    decreases |ops|
  {
    ops == [] || (Allowed(s, ops[0]) && Runs(Step(s, ops[0]), ops[1..]))
  }

  function After(s: Sys, ops: seq<Op>): Sys
    requires Runs(s, ops)
    decreases |ops|
  {
    if ops == [] then s else After(Step(s, ops[0]), ops[1..])
  }

  /** The first thread running, every lock free, nobody waiting. */
  ghost predicate Boot(s: Sys) {
    && s.cur.Some? && s.run == [] && s.sleepers == [] && s.zombies == [] && s.numthreads == 1
    && s.threads == map[s.cur.v := Thread(Nowhere, Running)] && s.held == {}
    && (forall l :: l in s.locks ==> s.locks[l] == Lock(None, []))
    && (forall c :: c in s.cvs ==> s.cvs[c] == [])
  }

  lemma BootInv(s: Sys)
    requires Boot(s)
    ensures Inv(s)
  {
  }

  lemma {:induction false} RunInv(s: Sys, ops: seq<Op>)
    requires Inv(s) && Runs(s, ops)
    ensures Inv(After(s, ops))
    decreases |ops|
  {
    if ops != [] {
      StepInv(s, ops[0]);
      RunInv(Step(s, ops[0]), ops[1..]);
    }
  }

  // ---- Mutual exclusion and queues ----------------------------------------

  ghost predicate InLockQueue(s: Sys, t: nat, l: nat) {
    l in s.locks && t in s.locks[l].queue
  }

  ghost predicate InCvQueue(s: Sys, t: nat, c: nat) {
    c in s.cvs && t in s.cvs[c]
  }

  /** At most one thread is inside a lock. */
  ghost predicate Exclusive(s: Sys) {
    forall t, u, l :: (t, l) in s.held && (u, l) in s.held ==> t == u
  }

  /** A thread is in a queue exactly when it is asleep on itself; it is then in one queue, once. */
  ghost predicate QueuedIff(s: Sys, t: nat) {
    && (t in s.sleepers && On(s.threads, t, OnThread(t)) <==>
          (exists l :: InLockQueue(s, t, l)) || (exists c :: InCvQueue(s, t, c)))
    && (forall l, m :: InLockQueue(s, t, l) && InLockQueue(s, t, m) ==> l == m)
    && (forall c, d :: InCvQueue(s, t, c) && InCvQueue(s, t, d) ==> c == d)
    && (forall l, c :: InLockQueue(s, t, l) ==> !InCvQueue(s, t, c))
  }

  ghost predicate QueuesOnce(s: Sys) {
    (forall l :: l in s.locks ==> NoDup(s.locks[l].queue)) && (forall c :: c in s.cvs ==> NoDup(s.cvs[c]))
  }

  /** No wakeup is lost: a free lock with waiters has a contender that is awake. */
  ghost predicate Promised(s: Sys) {
    forall l :: l in s.locks && s.locks[l].owner.None? && s.locks[l].queue != [] ==> exists t :: Contends(s, t, l)
  }

  ghost predicate OnePlace(s: Sys, t: nat) {
    t in s.threads ==>
      && (s.cur == Some(t) || t in s.run || t in s.sleepers || t in s.zombies)
      && !(s.cur == Some(t) && (t in s.run || t in s.sleepers || t in s.zombies))
      && !(t in s.run && (t in s.sleepers || t in s.zombies)) && !(t in s.sleepers && t in s.zombies)
  }

  ghost predicate SemSafe(s: Sys, x: nat) {
    x in s.sems && s.sems[x] > 0 ==> forall t :: t in s.sleepers ==> !On(s.threads, t, OnSem(x))
  }

  lemma QueuedSafe(s: Sys, t: nat)
    requires Inv(s)
    ensures QueuedIff(s, t)
  {
    hide NoneLost, Counted, CurOk, Placed, SemsOk, HeldOk, OutsidersOk, PcsOk;
    if t in s.sleepers && On(s.threads, t, OnThread(t)) {
      assert SleeperOk(s, t);
      var pc := s.threads[t].pc;
      assert pc.AtAcquire? ==> InLockQueue(s, t, pc.l);
      assert pc.AtWait? ==> InCvQueue(s, t, pc.c);
    }
    forall l | InLockQueue(s, t, l)
      ensures t in s.sleepers && t in s.threads && s.threads[t] == Thread(OnThread(t), AtAcquire(l))
    {
      assert LockQueueOk(s, l, s.locks[l].queue);
    }
    forall c | InCvQueue(s, t, c)
      ensures t in s.sleepers && On(s.threads, t, OnThread(t)) && s.threads[t].pc.AtWait? && s.threads[t].pc.c == c
    {
      assert CvQueueOk(s, c, s.cvs[c]);
    }
  }

  lemma RestSafe(s: Sys)
    requires Inv(s)
    ensures Exclusive(s) && QueuesOnce(s) && Promised(s)
    ensures forall t :: OnePlace(s, t)
    ensures forall x :: SemSafe(s, x)
  {
    hide Counted, CurOk, OutsidersOk, PcsOk, SleepersOk;
    forall l | l in s.locks
      ensures NoDup(s.locks[l].queue)
      ensures s.locks[l].owner.None? && s.locks[l].queue != [] ==> exists t :: Contends(s, t, l)
    {
      assert LockQueueOk(s, l, s.locks[l].queue) && NotLost(s, l);
    }
    forall c | c in s.cvs
      ensures NoDup(s.cvs[c])
    {
      assert CvQueueOk(s, c, s.cvs[c]);
    }
    forall x
      ensures SemSafe(s, x)
    {
      assert x in s.sems ==> SemOk(s, x);
    }
  }

  // ---- Coming back from a wait --------------------------------------------

  /** The thread waits as before, or is queued for the lock, or runs on as the lock's owner. */
  ghost predicate WaitsOrHolds(s: Sys, s': Sys, t: nat, l: nat) {
    t in s.threads && t in s'.threads ==>
      || s'.threads[t] == s.threads[t]
      || (s'.threads[t] == Thread(OnThread(t), AtAcquire(l)) && t in s'.sleepers && InLockQueue(s', t, l))
      || (s'.threads[t].pc == Running && s'.cur == Some(t) && l in s'.locks && s'.locks[l].owner == Some(t)
          && (t, l) in s'.held)
  }

  /**
   * A thread waiting for a lock, in lock_acquire or in cv_wait, goes on waiting for it, or is queued for it,
   * or runs on as its owner: what returns from cv_wait holds the lock.
   */
  lemma ReturnsHolding(s: Sys, op: Op, t: nat, l: nat)
    requires Inv(s) && Allowed(s, op) && t in s.threads && Wanted(s.threads[t].pc) == Some(l)
    ensures WaitsOrHolds(s, Step(s, op), t, l)
  {
    hide NoneLost, Counted, Placed, SemsOk, HeldOk, OutsidersOk, SleepersOk, QueuesOk, Dispatch, Unlock, CvWait;
    hide CvSignal, CvBroadcast, SemLoop, LockLoop, Wakeup;
    assert PcOk(s, s.threads[t].pc);
    assert s.cur != Some(t);
    match op
    case Schedule => DispatchThread(s, t, l);
    case Release(m) => UnlockThread(s, m);
    case Wait(c, m) => WaitThread(s, c, m, t);
    case Signal(c, m) => SignalThread(s, c, m, t);
    case Broadcast(c, m) => BroadcastThread(s, c, m, t);
    case P(x) => SemThread(s, x, t);
    case Acquire(m) => LockThread(s, m, t);
    case V(x) => UpThread(s, x);
    case Wake(n) => WakeThread(s, OnOther(n));
    case _ =>
  }

  lemma WakeThread(s: Sys, a: Addr)
    ensures Wakeup(s, a).threads == s.threads
  {
  }

  lemma UpThread(s: Sys, x: nat)
    requires x in s.sems
    ensures Up(s, x).threads == s.threads
  {
  }

  lemma SemThread(s: Sys, x: nat, t: nat)
    requires s.cur.Some? && x in s.sems && s.cur != Some(t)
    ensures t in SemLoop(s, x).threads <==> t in s.threads
    ensures t in s.threads ==> SemLoop(s, x).threads[t] == s.threads[t]
  {
  }

  lemma LockThread(s: Sys, l: nat, t: nat)
    requires s.cur.Some? && l in s.locks && s.cur != Some(t)
    ensures t in LockLoop(s, l).threads <==> t in s.threads
    ensures t in s.threads ==> LockLoop(s, l).threads[t] == s.threads[t]
  {
  }

  lemma WaitThread(s: Sys, c: nat, l: nat, t: nat)
    requires s.cur.Some? && l in s.locks && c in s.cvs && s.cur != Some(t) && t in s.threads
    ensures t in CvWait(s, c, l).threads && CvWait(s, c, l).threads[t] == s.threads[t]
  {
    hide Unlock;
    UnlockThread(s, l);
  }

  lemma DispatchThread(s: Sys, t: nat, l: nat)
    requires Allowed(s, Schedule) && t in s.threads && Wanted(s.threads[t].pc) == Some(l) && l in s.locks
    ensures WaitsOrHolds(s, Dispatch(s), t, l)
  {
    hide LockLoop, SemLoop;
    var s1 := Switch(s);
    var s2 := if s.threads[s.run[0]].pc == Start then s1 else Exorcise(s1);
    var u := s.run[0];
    if u == t {
      LoopHolds(s2, l);
    } else {
      ResumeThread(s2, t);
    }
  }

  lemma LoopHolds(s: Sys, l: nat)
    requires s.cur.Some? && l in s.locks && s.cur.v in s.threads
    ensures WaitsOrHolds(s, LockLoop(s, l), s.cur.v, l)
    ensures LockLoop(s, l).threads[s.cur.v] == Thread(OnThread(s.cur.v), AtAcquire(l))
      || LockLoop(s, l).threads[s.cur.v].pc == Running
  {
  }

  /** Resuming one thread leaves the others alone. */
  lemma ResumeThread(s: Sys, t: nat)
    requires s.cur.Some? && s.cur.v in s.threads && t != s.cur.v
    ensures t in Resume(s).threads <==> t in s.threads
    ensures t in s.threads ==> Resume(s).threads[t] == s.threads[t]
  {
    hide LockLoop, SemLoop;
    match s.threads[s.cur.v].pc
    case AtP(x) => if x in s.sems { SemThread(s, x, t); }
    case AtAcquire(l) => if l in s.locks { LockThread(s, l, t); }
    case AtWait(c, l) => if l in s.locks { LockThread(s, l, t); }
    case _ =>
  }

  lemma UnlockThread(s: Sys, l: nat)
    requires s.cur.Some? && l in s.locks
    ensures Unlock(s, l).threads == s.threads && Unlock(s, l).cur == s.cur && Unlock(s, l).cvs == s.cvs
  {
  }

  lemma SignalThread(s: Sys, c: nat, l: nat, t: nat)
    requires s.cur.Some? && l in s.locks && c in s.cvs && s.cur != Some(t) && t in s.threads
    ensures t in CvSignal(s, c, l).threads && CvSignal(s, c, l).threads[t] == s.threads[t]
  {
    hide Unlock, Woken, Left;
    UnlockThread(s, l);
  }

  lemma BroadcastThread(s: Sys, c: nat, l: nat, t: nat)
    requires s.cur.Some? && l in s.locks && c in s.cvs && s.cur != Some(t) && t in s.threads
    ensures t in CvBroadcast(s, c, l).threads && CvBroadcast(s, c, l).threads[t] == s.threads[t]
  {
    hide Unlock, WakeAll;
    UnlockThread(s, l);
  }

  // ---- The order of dispatch ----------------------------------------------

  function Schedules(ops: seq<Op>): nat {
    if ops == [] then 0 else (if ops[0] == Schedule then 1 else 0) + Schedules(ops[1..])
  }

  /** A step adds at the end of the run queue; only a dispatch takes, and it takes the head. */
  lemma StepRun(s: Sys, op: Op)
    requires Allowed(s, op)
    ensures op == Schedule ==> s.run[1..] <= Step(s, op).run
    ensures op != Schedule ==> s.run <= Step(s, op).run
  {
    match op
    case Signal(c, l) => SignalRun(s, c, l);
    case Broadcast(c, l) => BroadcastRun(s, c, l);
    case _ =>
  }

  lemma SignalRun(s: Sys, c: nat, l: nat)
    requires s.cur.Some? && l in s.locks && c in s.cvs
    ensures s.run <= CvSignal(s, c, l).run
  {
    hide Woken, Left;
    UnlockThread(s, l);
    assert s.run <= Unlock(s, l).run;
  }

  lemma {:induction false} WakeAllRun(s: Sys, q: seq<nat>)
    ensures s.run <= WakeAll(s, q).run
    decreases |q|
  {
    hide Woken, Left;
    if q != [] {
      WakeAllRun(Wakeup(s, OnThread(q[0])), q[1..]);
    }
  }

  lemma BroadcastRun(s: Sys, c: nat, l: nat)
    requires s.cur.Some? && l in s.locks && c in s.cvs
    ensures s.run <= CvBroadcast(s, c, l).run
  {
    hide Woken, Left;
    UnlockThread(s, l);
    var s1 := Unlock(s, l);
    assert s.run <= s1.run;
    WakeAllRun(s1.(cvs := s1.cvs[c := []]), s1.cvs[c]);
  }

  /** A thread at position k of the run queue moves up by one for every dispatch, whatever else is made runnable. */
  lemma {:induction false} MovesUp(s: Sys, ops: seq<Op>, k: nat)
    requires Runs(s, ops) && k < |s.run| && Schedules(ops) <= k
    ensures var s' := After(s, ops); k - Schedules(ops) < |s'.run| && s'.run[k - Schedules(ops)] == s.run[k]
    decreases |ops|
  {
    if ops != [] {
      StepRun(s, ops[0]);
      var s1 := Step(s, ops[0]);
      hide Step;
      var j := if ops[0] == Schedule then k - 1 else k;
      assert s1.run[j] == s.run[k];
      MovesUp(s1, ops[1..], j);
    }
  }

  /** A thread at position k heads the queue after k dispatches, and the next one, which can then be made, runs it. */
  lemma DispatchedInTurn(s: Sys, ops: seq<Op>, k: nat)
    requires Inv(s) && Runs(s, ops) && k < |s.run| && Schedules(ops) <= k
    ensures var s' := After(s, ops); k - Schedules(ops) < |s'.run| && s'.run[k - Schedules(ops)] == s.run[k]
    ensures var s' := After(s, ops);
      Schedules(ops) == k && s'.cur.None? ==> Allowed(s', Schedule) && Switch(s').cur == Some(s.run[k])
  {
    MovesUp(s, ops, k);
    RunInv(s, ops);
    hide Runs, After, Schedules, Counted, CurOk, PcsOk, SleepersOk, QueuesOk, SemsOk, HeldOk, OutsidersOk, NoneLost;
  }

  // ---- What signals and releases wake -------------------------------------

  lemma {:induction false} WokenOne(ts: seq<nat>, th: map<nat, Thread>, h: nat)
    requires NoDup(ts) && h in ts && On(th, h, OnThread(h))
    requires forall t :: t in ts && On(th, t, OnThread(h)) ==> t == h
    ensures Woken(ts, th, OnThread(h)) == [h]
  {
    var r := ts[1..];
    assert NoDup(r);
    assert forall t :: t in ts <==> t == ts[0] || t in r;
    if ts[0] == h {
      WokenNone(r, th, OnThread(h));
    } else {
      WokenOne(r, th, h);
    }
  }

  lemma {:induction false} WokenNone(ts: seq<nat>, th: map<nat, Thread>, a: Addr)
    requires forall t :: t in ts ==> !On(th, t, a)
    ensures Woken(ts, th, a) == []
  {
    if ts != [] {
      WokenNone(ts[1..], th, a);
    }
  }

  lemma LooseWoken(s: Sys, q: seq<nat>)
    requires Loose(s, q) && q != []
    ensures Wakeup(s, OnThread(q[0])).run == s.run + [q[0]]
  {
    var h := q[0];
    assert LooseOne(s, h);
    forall t | t in s.sleepers && On(s.threads, t, OnThread(h))
      ensures t == h
    {
      assert t in q ==> LooseOne(s, t);
    }
    WokenOne(s.sleepers, s.threads, h);
  }

  lemma {:induction false} LooseAllWoken(s: Sys, q: seq<nat>)
    requires Loose(s, q)
    ensures WakeAll(s, q).run == s.run + q
    decreases |q|
  {
    if q != [] {
      LooseWake(s, q);
      LooseWoken(s, q);
      hide Loose, Wakeup;
      LooseAllWoken(Wakeup(s, OnThread(q[0])), q[1..]);
      assert s.run + [q[0]] + q[1..] == s.run + q;
    }
  }

  /** The first of a queue, if there is one. */
  function Head(q: seq<nat>): seq<nat> {
    if q == [] then [] else [q[0]]
  }

  function Tail(q: seq<nat>): seq<nat> {
    if q == [] then [] else q[1..]
  }

  /** A release frees the lock and wakes the first waiter, and no other thread. */
  lemma ReleaseExact(s: Sys, l: nat)
    requires Inv(s) && Holds(s, l)
    ensures var s' := Step(s, Release(l));
      && s'.locks == s.locks[l := Lock(None, Tail(s.locks[l].queue))]
      && s'.run == s.run + Head(s.locks[l].queue) && s'.cur == s.cur && (s.cur.v, l) !in s'.held
  {
    VacatedLoose(s, l);
    if s.locks[l].queue != [] {
      LooseWoken(Vacated(s, l), [s.locks[l].queue[0]]);
    }
  }

  lemma StepsAre(s: Sys, c: nat, l: nat)
    requires Holds(s, l) && c in s.cvs
    ensures Step(s, Release(l)) == Unlock(s, l) && Step(s, Signal(c, l)) == CvSignal(s, c, l)
    ensures Step(s, Broadcast(c, l)) == CvBroadcast(s, c, l)
  {
    hide Unlock, CvSignal, CvBroadcast;
  }

  lemma TakeFree(s: Sys, l: nat)
    requires s.cur.Some? && l in s.locks && s.locks[l].owner.None?
    ensures var s' := LockLoop(s, l);
      && s'.locks == s.locks[l := Lock(s.cur, s.locks[l].queue)] && s'.run == s.run && s'.cvs == s.cvs
      && s'.cur == s.cur && (s.cur.v, l) in s'.held
  {
  }

  /** What is woken from a condition variable's queue, and nothing else changed. */
  lemma CvWoken(s: Sys, c: nat, n: nat)
    requires Inv(s) && c in s.cvs && n <= |s.cvs[c]|
    ensures var s' := WakeAll(s.(cvs := s.cvs[c := s.cvs[c][n..]]), s.cvs[c][..n]);
      s'.run == s.run + s.cvs[c][..n] && s'.cvs == s.cvs[c := s.cvs[c][n..]] && s'.locks == s.locks && s'.cur == s.cur
  {
    hide Inv, Loose, WakeAll;
    CvLoose(s, c, n);
    LooseAllWoken(s.(cvs := s.cvs[c := s.cvs[c][n..]]), s.cvs[c][..n]);
  }

  /**
   * A signal wakes the first waiter on the condition variable and, since it drops the lock on the way, the
   * first waiter for the lock. The caller has the lock again at the end and has not been switched out.
   */
  lemma SignalExact(s: Sys, c: nat, l: nat)
    requires Inv(s) && Allowed(s, Signal(c, l))
    ensures var s' := Step(s, Signal(c, l));
      && s'.cvs == s.cvs[c := Tail(s.cvs[c])]
      && s'.run == s.run + Head(s.locks[l].queue) + Head(s.cvs[c])
      && s'.locks == s.locks[l := Lock(s.cur, Tail(s.locks[l].queue))] && s'.cur == s.cur && (s.cur.v, l) in s'.held
  {
    hide Inv, Unlock, LockLoop, WakeAll, Wakeup, Step;
    StepsAre(s, c, l);
    ReleaseExact(s, l);
    UnlockInv(s, l);
    var s1 := Unlock(s, l);
    var q := s1.cvs[c];
    if q != [] {
      CvWoken(s1, c, 1);
      WakeAllOne(s1.(cvs := s1.cvs[c := q[1..]]), q[0]);
      assert q[..1] == [q[0]];
      TakeFree(Wakeup(s1.(cvs := s1.cvs[c := q[1..]]), OnThread(q[0])), l);
    } else {
      TakeFree(s1, l);
    }
  }

  /** A broadcast wakes every waiter on the condition variable, in the order they came. */
  lemma BroadcastExact(s: Sys, c: nat, l: nat)
    requires Inv(s) && Allowed(s, Broadcast(c, l))
    ensures var s' := Step(s, Broadcast(c, l));
      && s'.cvs == s.cvs[c := []]
      && s'.run == s.run + Head(s.locks[l].queue) + s.cvs[c]
      && s'.locks == s.locks[l := Lock(s.cur, Tail(s.locks[l].queue))] && s'.cur == s.cur && (s.cur.v, l) in s'.held
  {
    hide Inv, Unlock, LockLoop, WakeAll, Step;
    StepsAre(s, c, l);
    ReleaseExact(s, l);
    UnlockInv(s, l);
    var s1 := Unlock(s, l);
    var q := s1.cvs[c];
    CvWoken(s1, c, |q|);
    assert q[..|q|] == q && q[|q|..] == [];
    TakeFree(WakeAll(s1.(cvs := s1.cvs[c := []]), q), l);
  }
}
