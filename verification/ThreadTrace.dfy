/** Who runs, who waits, who is woken: told from the calls, the queues and who has the processor. */
module ThreadTrace {
  import opened Threads
  import opened ThreadInv
  import opened ThreadRun

  /** The thread that a step is about: the one dispatched, or the one that makes the call. */
  function Mover(s: Sys, op: Op): nat
    requires Allowed(s, op)
  {
    if op == Schedule then s.run[0] else if s.cur.Some? then s.cur.v else 0
  }

  /** The thread is between calls, and has the processor. */
  predicate GoesOn(s: Sys, t: nat) {
    s.cur == Some(t) && t in s.threads && s.threads[t].pc == Running
  }

  /** The thread is asleep, and goes on at pc when it has been woken. */
  predicate Blocks(s: Sys, t: nat, a: Addr, pc: Pc) {
    s.cur == None && t in s.sleepers && t in s.threads && s.threads[t] == Thread(a, pc)
  }

  // ---- Dispatching --------------------------------------------------------

  /** The state in which the dispatched thread goes on: the dead are gone, unless the thread is new. */
  function Switched(s: Sys): Sys
    requires Allowed(s, Schedule)
  {
    if s.threads[s.run[0]].pc == Start then Switch(s) else Exorcise(Switch(s))
  }

  lemma SwitchedIs(s: Sys)
    requires Inv(s) && Allowed(s, Schedule)
    ensures var s1 := Switched(s); var t := s.run[0];
      && Step(s, Schedule) == Resume(s1) && s1.cur == Some(t) && s1.run == s.run[1..] && s1.sleepers == s.sleepers
      && s1.locks == s.locks && s1.cvs == s.cvs && s1.sems == s.sems && s1.held == s.held
      && t in s1.threads && s1.threads[t] == s.threads[t] && PcOk(s, s.threads[t].pc)
      && (forall u :: u in s.threads && u !in s.zombies ==> u in s1.threads && s1.threads[u] == s.threads[u])
      && (forall u :: u in s1.threads ==> u in s.threads)
      && s1.zombies == if s.threads[t].pc == Start then s.zombies else []
  {
    hide Resume, PcOk, SleepersOk, QueuesOk, SemsOk, HeldOk, OutsidersOk, NoneLost, Counted, CurOk;
  }

  lemma LoopThreads(s: Sys, n: nat)
    requires s.cur.Some? && s.cur.v in s.threads
    ensures n in s.sems ==> SemLoop(s, n).zombies == s.zombies && SemLoop(s, n).threads.Keys == s.threads.Keys
    ensures n in s.locks ==> LockLoop(s, n).zombies == s.zombies && LockLoop(s, n).threads.Keys == s.threads.Keys
  {
  }

  /**
   * The head of the run queue is dispatched; coming back from a switch it clears away all that have exited, and they
   * alone are gone; a new thread clears nothing away. One that is new, has yielded or has slept goes on.
   */
  lemma DispatchClears(s: Sys)
    requires Inv(s) && Allowed(s, Schedule)
    ensures var s' := Step(s, Schedule); var first := s.threads[s.run[0]].pc == Start;
      && (forall t :: t in s'.threads <==> t in s.threads && (first || t !in s.zombies))
      && s'.zombies == (if first then s.zombies else [])
      && (first || s.threads[s.run[0]].pc in {Running, AtSleep} ==> GoesOn(s', s.run[0]))
  {
    hide Inv, Step, SemLoop, LockLoop, PcOk, Switched;
    SwitchedIs(s);
    SwitchedKeys(s);
    var s1 := Switched(s);
    match s.threads[s.run[0]].pc
    case AtP(x) => LoopThreads(s1, x);
    case AtAcquire(l) => LoopThreads(s1, l);
    case AtWait(c, l) => LoopThreads(s1, l);
    case _ =>
  }

  lemma SwitchedKeys(s: Sys)
    requires Allowed(s, Schedule)
    ensures forall t :: t in Switched(s).threads <==>
        t in s.threads && (s.threads[s.run[0]].pc == Start || t !in s.zombies)
  {
  }

  // ---- Semaphores ---------------------------------------------------------

  /** The thread is in P: it has called P, or is dispatched in the loop of P. */
  predicate InP(s: Sys, op: Op, x: nat)
    requires Allowed(s, op)
  {
    op == P(x) || (op == Schedule && s.threads[s.run[0]].pc == AtP(x))
  }

  /** P of a semaphore returns. */
  predicate Returns(s: Sys, op: Op, x: nat)
    requires Allowed(s, op)
  {
    InP(s, op, x) && GoesOn(Step(s, op), Mover(s, op))
  }

  lemma SemLoopIs(s: Sys, x: nat)
    requires s.cur.Some? && x in s.sems
    ensures var s' := SemLoop(s, x); var t := s.cur.v;
      && s'.locks == s.locks && s'.cvs == s.cvs && s'.run == s.run && s'.sems.Keys == s.sems.Keys
      && (forall y :: y in s.sems && y != x ==> s'.sems[y] == s.sems[y])
      && (if s.sems[x] > 0 then GoesOn(s', t) && s'.sems[x] == s.sems[x] - 1 && s'.sleepers == s.sleepers
          else Blocks(s', t, OnSem(x), AtP(x)) && s'.sems == s.sems && s'.sleepers == s.sleepers + [t])
  {
  }

  /** P returns exactly if the count is positive; if it is not, the thread sleeps on the semaphore, still in P. */
  lemma PExact(s: Sys, op: Op, x: nat)
    requires Inv(s) && Allowed(s, op) && InP(s, op, x)
    ensures x in s.sems && (Returns(s, op, x) <==> s.sems[x] > 0)
    ensures !Returns(s, op, x) ==> Blocks(Step(s, op), Mover(s, op), OnSem(x), AtP(x))
  {
    hide Inv, SemLoop, Switched, Dispatch;
    if op == Schedule {
      SwitchedIs(s);
      SemLoopIs(Switched(s), x);
    } else {
      SemLoopIs(s, x);
    }
  }

  function Vs(ops: seq<Op>, x: nat): nat {
    if ops == [] then 0 else (if ops[0] == V(x) then 1 else 0) + Vs(ops[1..], x)
  }

  /** How often P has returned in a run. */
  function Ps(s: Sys, ops: seq<Op>, x: nat): nat
    requires Runs(s, ops)
    decreases |ops|
  {
    if ops == [] then 0 else (if Returns(s, ops[0], x) then 1 else 0) + Ps(Step(s, ops[0]), ops[1..], x)
  }

  /** A count goes up by one for each V and down by one for each P that returns, and changes for nothing else. */
  lemma SemStep(s: Sys, op: Op, x: nat)
    requires Inv(s) && Allowed(s, op) && x in s.sems
    ensures var s' := Step(s, op);
      && x in s'.sems
      && s'.sems[x] == s.sems[x] + (if op == V(x) then 1 else 0) - (if Returns(s, op, x) then 1 else 0)
  {
    hide Inv, SemLoop, LockLoop, Switched, Wakeup, Unlock, WakeAll, Dispatch, PcOk, GoesOn;
    if InP(s, op, x) {
      PExact(s, op, x);
    }
    match op
    case P(y) => SemLoopIs(s, y);
    case V(y) => UpIs(s, y);
    case Schedule => SwitchedSems(s, x);
    case _ => SemSame(s, op);
  }

  lemma SwitchedSems(s: Sys, x: nat)
    requires Inv(s) && Allowed(s, Schedule) && x in s.sems
    ensures var s' := Step(s, Schedule);
      x in s'.sems && s'.sems[x] == s.sems[x] - if Returns(s, Schedule, x) then 1 else 0
  {
    hide Inv, SemLoop, LockLoop, Switched, Step;
    SwitchedIs(s);
    var s1 := Switched(s);
    match s.threads[s.run[0]].pc
    case AtP(y) => SemLoopIs(s1, y);
    case AtAcquire(l) => LockLoopIs(s1, l);
    case AtWait(c, l) => LockLoopIs(s1, l);
    case _ =>
  }

  lemma SemSame(s: Sys, op: Op)
    requires Allowed(s, op) && !op.P? && !op.V? && !op.Schedule?
    ensures Step(s, op).sems == s.sems
  {
    hide LockLoop, Unlock, WakeAll, Wakeup;
    match op
    case Acquire(l) => LockLoopIs(s, l);
    case Release(l) => UnlockIs(s, l);
    case Wait(c, l) => UnlockIs(s, l);
    case Signal(c, l) => SignalIs(s, c, l);
    case Broadcast(c, l) => BroadcastIs(s, c, l);
    case Wake(n) => WakeupIs(s, OnOther(n));
    case _ =>
  }

  /**
   * In every run the count of a semaphore is what it began with, one more for each V and one less for each return
   * from P: no more calls of P return than the count and the calls of V allow.
   */
  lemma {:induction false} SemRun(s: Sys, ops: seq<Op>, x: nat)
    requires Inv(s) && Runs(s, ops) && x in s.sems
    ensures x in After(s, ops).sems && After(s, ops).sems[x] == s.sems[x] + Vs(ops, x) - Ps(s, ops, x)
    decreases |ops|
  {
    hide Inv, Step, Returns, Allowed;
    if ops != [] {
      SemStep(s, ops[0], x);
      StepInv(s, ops[0]);
      SemRun(Step(s, ops[0]), ops[1..], x);
    }
  }

  // ---- Locks --------------------------------------------------------------

  lemma WakeupIs(s: Sys, a: Addr)
    ensures var s' := Wakeup(s, a); s' == s.(run := s'.run, sleepers := s'.sleepers)
  {
    hide Woken, Left;
  }

  lemma UpIs(s: Sys, x: nat)
    requires x in s.sems
    ensures var s' := Up(s, x);
      && s' == s.(sems := s'.sems, run := s'.run, sleepers := s'.sleepers) && s'.sems.Keys == s.sems.Keys
      && s'.sems[x] == s.sems[x] + 1 && (forall y :: y in s.sems && y != x ==> s'.sems[y] == s.sems[y])
      && s'.run == s.run + Woken(s.sleepers, s.threads, OnSem(x))
  {
    hide Woken, Left;
  }

  lemma UnlockIs(s: Sys, l: nat)
    requires s.cur.Some? && l in s.locks
    ensures var s' := Unlock(s, l);
      && s'.locks == s.locks[l := Lock(None, Tail(s.locks[l].queue))]
      && s' == s.(locks := s'.locks, held := s'.held, run := s'.run, sleepers := s'.sleepers)
  {
    hide Woken, Left;
  }

  lemma LockLoopIs(s: Sys, l: nat)
    requires s.cur.Some? && l in s.locks
    ensures var s' := LockLoop(s, l); var t := s.cur.v; var k := s.locks[l];
      && s'.sems == s.sems && s'.cvs == s.cvs && s'.run == s.run
      && (if k.owner.None? then
            GoesOn(s', t) && s'.locks == s.locks[l := Lock(Some(t), k.queue)] && s'.sleepers == s.sleepers
          else
            && Blocks(s', t, OnThread(t), AtAcquire(l)) && s'.locks == s.locks[l := Lock(k.owner, k.queue + [t])]
            && s'.sleepers == s.sleepers + [t])
  {
  }

  lemma SignalIs(s: Sys, c: nat, l: nat)
    requires s.cur.Some? && l in s.locks && c in s.cvs
    ensures var s' := CvSignal(s, c, l);
      && s'.sems == s.sems && s'.cvs == s.cvs[c := Tail(s.cvs[c])]
      && s'.locks == s.locks[l := Lock(s.cur, Tail(s.locks[l].queue))] && GoesOn(s', s.cur.v)
  {
    hide LockLoop, Unlock, Wakeup;
    UnlockIs(s, l);
    var s1 := Unlock(s, l);
    var q := s1.cvs[c];
    if q != [] {
      var s2 := s1.(cvs := s1.cvs[c := q[1..]]);
      WakeupIs(s2, OnThread(q[0]));
      LockLoopIs(Wakeup(s2, OnThread(q[0])), l);
    } else {
      LockLoopIs(s1, l);
    }
  }

  lemma BroadcastIs(s: Sys, c: nat, l: nat)
    requires s.cur.Some? && l in s.locks && c in s.cvs
    ensures var s' := CvBroadcast(s, c, l);
      && s'.sems == s.sems && s'.cvs == s.cvs[c := []]
      && s'.locks == s.locks[l := Lock(s.cur, Tail(s.locks[l].queue))] && GoesOn(s', s.cur.v)
  {
    hide LockLoop, Unlock, WakeAll;
    UnlockIs(s, l);
    var s1 := Unlock(s, l);
    LockLoopIs(WakeAll(s1.(cvs := s1.cvs[c := []]), s1.cvs[c]), l);
  }

  /** The thread tries for a lock: it has called lock_acquire, or is dispatched on its way to the lock. */
  predicate Tries(s: Sys, op: Op, l: nat)
    requires Allowed(s, op)
  {
    op == Acquire(l) || (op == Schedule && Wanted(s.threads[s.run[0]].pc) == Some(l))
  }

  /** The thread gets in: lock_acquire or cv_wait returns. */
  predicate Enters(s: Sys, op: Op, l: nat)
    requires Allowed(s, op)
  {
    Tries(s, op, l) && GoesOn(Step(s, op), Mover(s, op))
  }

  /** The thread leaves the lock to others. */
  predicate Leaves(op: Op, l: nat) {
    op == Release(l) || (op.Wait? && op.l == l)
  }

  /** The lock is dropped, if only for a moment: the first waiter is taken off its queue. */
  predicate DropsLock(op: Op, l: nat) {
    Leaves(op, l) || ((op.Signal? || op.Broadcast?) && op.l == l)
  }

  /** Who is in the lock, and who waits for it. */
  function LockNext(s: Sys, op: Op, l: nat): Lock
    requires Allowed(s, op) && l in s.locks
  {
    var k := s.locks[l];
    if Enters(s, op, l) then Lock(Some(Mover(s, op)), k.queue)
    else if Tries(s, op, l) then Lock(k.owner, k.queue + [Mover(s, op)])
    else if Leaves(op, l) then Lock(None, Tail(k.queue))
    else if DropsLock(op, l) then Lock(k.owner, Tail(k.queue))
    else k
  }

  /** A thread gets in exactly if nobody is in, and queues up behind all the others if somebody is. */
  lemma EntersIff(s: Sys, op: Op, l: nat)
    requires Inv(s) && Allowed(s, op) && Tries(s, op, l)
    ensures l in s.locks && (Enters(s, op, l) <==> s.locks[l].owner.None?)
    ensures !Enters(s, op, l) ==>
      var t := Mover(s, op);
      Blocks(Step(s, op), t, OnThread(t), AtAcquire(l))
  {
    hide Inv, LockLoop, Switched, Dispatch;
    if op == Schedule {
      SwitchedIs(s);
      LockLoopIs(Switched(s), l);
    } else {
      LockLoopIs(s, l);
    }
  }

  lemma LockStep(s: Sys, op: Op, l: nat)
    requires Inv(s) && Allowed(s, op) && l in s.locks
    ensures l in Step(s, op).locks && Step(s, op).locks[l] == LockNext(s, op, l)
  {
    hide Inv, SemLoop, LockLoop, Switched, Wakeup, Unlock, WakeAll, CvSignal, CvBroadcast, Dispatch, PcOk, GoesOn;
    match op
    case Acquire(m) => LockLoopIs(s, m); if m == l { EntersIff(s, op, l); }
    case Release(m) => UnlockIs(s, m);
    case Wait(c, m) => UnlockIs(s, m);
    case Signal(c, m) => SignalIs(s, c, m);
    case Broadcast(c, m) => BroadcastIs(s, c, m);
    case P(x) => SemLoopIs(s, x);
    case V(x) => UpIs(s, x);
    case Wake(n) => WakeupIs(s, OnOther(n));
    case Schedule => SwitchedLocks(s, l);
    case _ =>
  }

  lemma SwitchedLocks(s: Sys, l: nat)
    requires Inv(s) && Allowed(s, Schedule) && l in s.locks
    ensures l in Step(s, Schedule).locks && Step(s, Schedule).locks[l] == LockNext(s, Schedule, l)
  {
    hide Inv, SemLoop, LockLoop, Switched, Step, GoesOn;
    SwitchedIs(s);
    var s1 := Switched(s);
    if Tries(s, Schedule, l) {
      EntersIff(s, Schedule, l);
      LockLoopIs(s1, l);
    }
    match s.threads[s.run[0]].pc
    case AtP(y) => SemLoopIs(s1, y);
    case AtAcquire(m) => LockLoopIs(s1, m);
    case AtWait(c, m) => LockLoopIs(s1, m);
    case _ =>
  }

  /** Who is in the lock, from the calls and the returns alone. */
  function Inside(s: Sys, ops: seq<Op>, l: nat, who: Option<nat>): Option<nat>
    requires Runs(s, ops)
    decreases |ops|
  {
    if ops == [] then who
    else
      var now :=
        if Enters(s, ops[0], l) then Some(Mover(s, ops[0])) else if Leaves(ops[0], l) then None else who;
      Inside(Step(s, ops[0]), ops[1..], l, now)
  }

  /** In no step of the run does a thread get into the lock while another is in. */
  predicate OneAtATime(s: Sys, ops: seq<Op>, l: nat, who: Option<nat>)
    requires Runs(s, ops)
    decreases |ops|
  {
    ops == [] ||
    var now :=
      if Enters(s, ops[0], l) then Some(Mover(s, ops[0])) else if Leaves(ops[0], l) then None else who;
    (Enters(s, ops[0], l) ==> who.None?) && OneAtATime(Step(s, ops[0]), ops[1..], l, now)
  }

  /**
   * Over every run, told from who returns from lock_acquire and cv_wait and who leaves: one thread at a time is in a
   * lock, and the lock says which.
   */
  lemma {:induction false} LockRun(s: Sys, ops: seq<Op>, l: nat)
    requires Inv(s) && Runs(s, ops) && l in s.locks
    ensures OneAtATime(s, ops, l, s.locks[l].owner)
    ensures l in After(s, ops).locks && After(s, ops).locks[l].owner == Inside(s, ops, l, s.locks[l].owner)
    decreases |ops|
  {
    hide Inv, Step, Enters, Allowed;
    if ops != [] {
      LockStep(s, ops[0], l);
      StepInv(s, ops[0]);
      LockRun(Step(s, ops[0]), ops[1..], l);
      if Enters(s, ops[0], l) { EntersTries(s, ops[0], l); }
    }
  }

  lemma EntersTries(s: Sys, op: Op, l: nat)
    requires Inv(s) && Allowed(s, op) && Enters(s, op, l)
    ensures Tries(s, op, l) && l in s.locks && s.locks[l].owner.None?
  {
    hide Inv, Step;
    EntersIff(s, op, l);
  }

  // ---- First come, first served -------------------------------------------

  function Drops(ops: seq<Op>, l: nat): nat {
    if ops == [] then 0 else (if DropsLock(ops[0], l) then 1 else 0) + Drops(ops[1..], l)
  }

  /** A thread in the queue of a lock moves up by one each time that the lock is dropped, whoever comes later. */
  lemma {:induction false} LockFifo(s: Sys, ops: seq<Op>, l: nat, k: nat)
    requires Inv(s) && Runs(s, ops) && l in s.locks && k < |s.locks[l].queue| && Drops(ops, l) <= k
    ensures l in After(s, ops).locks
    ensures var q := After(s, ops).locks[l].queue; var d := Drops(ops, l);
      k - d < |q| && q[k - d] == s.locks[l].queue[k]
    decreases |ops|
  {
    hide Inv, Step, Allowed, GoesOn;
    if ops != [] {
      LockStep(s, ops[0], l);
      StepInv(s, ops[0]);
      LockFifo(Step(s, ops[0]), ops[1..], l, if DropsLock(ops[0], l) then k - 1 else k);
    }
  }

  /** Who waits on the condition variable, in the order they came. */
  function CvNext(s: Sys, op: Op, c: nat): seq<nat>
    requires Allowed(s, op) && c in s.cvs
  {
    if op.Wait? && op.c == c then s.cvs[c] + [Mover(s, op)]
    else if op.Signal? && op.c == c then Tail(s.cvs[c])
    else if op.Broadcast? && op.c == c then []
    else s.cvs[c]
  }

  lemma CvStep(s: Sys, op: Op, c: nat)
    requires Inv(s) && Allowed(s, op) && c in s.cvs
    ensures c in Step(s, op).cvs && Step(s, op).cvs[c] == CvNext(s, op, c)
  {
    hide Inv, SemLoop, LockLoop, Switched, Wakeup, Unlock, WakeAll, CvSignal, CvBroadcast, Dispatch, PcOk, GoesOn, Up;
    match op
    case Acquire(m) => LockLoopIs(s, m);
    case Release(m) => UnlockIs(s, m);
    case Wait(d, m) => UnlockIs(s, m);
    case Signal(d, m) => SignalIs(s, d, m);
    case Broadcast(d, m) => BroadcastIs(s, d, m);
    case P(x) => SemLoopIs(s, x);
    case V(x) => UpIs(s, x);
    case Wake(n) => WakeupIs(s, OnOther(n));
    case Schedule => SwitchedRest(s);
    case _ =>
  }

  lemma SwitchedRest(s: Sys)
    requires Inv(s) && Allowed(s, Schedule)
    ensures var s' := Step(s, Schedule); s'.cvs == s.cvs && s'.run == s.run[1..]
  {
    hide Inv, SemLoop, LockLoop, Switched, Step;
    SwitchedIs(s);
    var s1 := Switched(s);
    match s.threads[s.run[0]].pc
    case AtP(y) => SemLoopIs(s1, y);
    case AtAcquire(l) => LockLoopIs(s1, l);
    case AtWait(c, l) => LockLoopIs(s1, l);
    case _ =>
  }

  function Signals(ops: seq<Op>, c: nat): nat {
    if ops == [] then 0 else (if ops[0].Signal? && ops[0].c == c then 1 else 0) + Signals(ops[1..], c)
  }

  predicate Broadcasts(op: Op, c: nat) {
    op.Broadcast? && op.c == c
  }

  /** A waiter on a condition variable moves up by one for each signal. */
  lemma {:induction false} CvFifo(s: Sys, ops: seq<Op>, c: nat, k: nat)
    requires Inv(s) && Runs(s, ops) && c in s.cvs && k < |s.cvs[c]| && Signals(ops, c) <= k
    requires forall i :: 0 <= i < |ops| ==> !Broadcasts(ops[i], c)
    ensures c in After(s, ops).cvs
    ensures var q := After(s, ops).cvs[c]; k - Signals(ops, c) < |q| && q[k - Signals(ops, c)] == s.cvs[c][k]
    decreases |ops|
  {
    hide Inv, Step, Allowed;
    if ops != [] {
      CvStep(s, ops[0], c);
      StepInv(s, ops[0]);
      CvFifo(Step(s, ops[0]), ops[1..], c, if ops[0].Signal? && ops[0].c == c then k - 1 else k);
    }
  }

  // ---- Who is woken -------------------------------------------------------

  /** The threads that a step makes runnable, in order. */
  function Awakes(s: Sys, op: Op): seq<nat>
    requires Allowed(s, op)
  {
    match op
    case Fork(t) => [t]
    case Yield => [s.cur.v]
    case V(x) => Woken(s.sleepers, s.threads, OnSem(x))
    case Wake(n) => Woken(s.sleepers, s.threads, OnOther(n))
    case Release(l) => Head(s.locks[l].queue)
    case Wait(c, l) => Head(s.locks[l].queue)
    case Signal(c, l) => Head(s.locks[l].queue) + Head(s.cvs[c])
    case Broadcast(c, l) => Head(s.locks[l].queue) + s.cvs[c]
    case _ => []
  }

  lemma {:induction false} WokenJoin(a: seq<nat>, b: seq<nat>, th: map<nat, Thread>, addr: Addr)
    ensures Woken(a + b, th, addr) == Woken(a, th, addr) + Woken(b, th, addr)
    decreases |a|
  {
    hide On;
    if a == [] {
      assert a + b == b;
    } else {
      assert (a + b)[1..] == a[1..] + b;
      WokenJoin(a[1..], b, th, addr);
    }
  }

  /** Those that sleep on an address are woken, in the order in which they sleep, and nobody else. */
  lemma WokenOrder(a: seq<nat>, t: nat, b: seq<nat>, th: map<nat, Thread>, addr: Addr)
    ensures Woken([], th, addr) == []
    ensures Woken(a + [t] + b, th, addr) ==
      Woken(a, th, addr) + (if t in th && th[t].addr == addr then [t] else []) + Woken(b, th, addr)
  {
    assert Woken([t], th, addr) == if t in th && th[t].addr == addr then [t] else [];
    hide Woken;
    WokenJoin(a + [t], b, th, addr);
    WokenJoin(a, [t], th, addr);
  }

  /** The run queue: a dispatch takes its head; what a step makes runnable comes last, and nothing else changes. */
  lemma RunExact(s: Sys, op: Op)
    requires Inv(s) && Allowed(s, op)
    ensures Step(s, op).run == (if op == Schedule then s.run[1..] else s.run) + Awakes(s, op)
  {
    hide Inv, SemLoop, LockLoop, Switched, Unlock, WakeAll, CvSignal, CvBroadcast, Dispatch, PcOk, GoesOn, Up, Woken;
    hide Left;
    hide Blocks;
    match op
    case Acquire(m) => LockLoopIs(s, m);
    case Release(m) => ReleaseExact(s, m);
    case Wait(d, m) => ReleaseExact(s, m); StepsAre(s, d, m);
    case Signal(d, m) => SignalExact(s, d, m);
    case Broadcast(d, m) => BroadcastExact(s, d, m);
    case P(x) => SemLoopIs(s, x);
    case V(x) => UpIs(s, x);
    case Schedule => SwitchedRest(s);
    case _ =>
  }

  lemma SleeperElsewhere(s: Sys, t: nat)
    requires Inv(s) && t in s.sleepers
    ensures t in s.threads && s.cur != Some(t) && t !in s.run && t !in s.zombies
  {
    hide Counted, CurOk, PcsOk, SleepersOk, QueuesOk, SemsOk, HeldOk, OutsidersOk, NoneLost;
  }

  lemma SleeperSomewhere(s: Sys, t: nat)
    requires Inv(s) && t in s.threads
    ensures s.cur == Some(t) || t in s.run || t in s.sleepers || t in s.zombies
    ensures t in s.run ==> t !in s.sleepers
  {
    hide Counted, CurOk, PcsOk, SleepersOk, QueuesOk, SemsOk, HeldOk, OutsidersOk, NoneLost;
  }

  /** A sleeper stays what it is, and does not get the processor. */
  lemma SleeperSame(s: Sys, op: Op, t: nat)
    requires Inv(s) && Allowed(s, op) && t in s.sleepers
    ensures var s' := Step(s, op);
      && t in s'.threads && s'.threads[t] == s.threads[t] && s'.cur != Some(t) && t !in s'.zombies
  {
    SleeperElsewhere(s, t);
    hide Inv, SemLoop, LockLoop, Switched, Wakeup, Unlock, WakeAll, CvSignal, CvBroadcast, Dispatch, PcOk, Up;
    match op
    case Acquire(m) => LockThread(s, m, t); LoopMovers(s, m);
    case Release(m) => UnlockIs(s, m);
    case Wait(c, m) => UnlockIs(s, m);
    case Signal(c, m) => SignalThread(s, c, m, t); SignalMovers(s, c, m);
    case Broadcast(c, m) => BroadcastThread(s, c, m, t); BroadcastMovers(s, c, m);
    case P(x) => SemThread(s, x, t); LoopMovers(s, x);
    case V(x) => UpIs(s, x);
    case Wake(n) => WakeupIs(s, OnOther(n));
    case Schedule => SwitchedIs(s); ResumeThread(Switched(s), t); ResumeMovers(Switched(s));
    case _ =>
  }

  /** No thread has come or gone, and none has been dispatched. */
  predicate Stayed(s: Sys, s': Sys) {
    s'.zombies == s.zombies && s'.numthreads == s.numthreads && s'.cur in {s.cur, None}
  }

  lemma LoopMovers(s: Sys, n: nat)
    requires s.cur.Some?
    ensures n in s.sems ==> Stayed(s, SemLoop(s, n))
    ensures n in s.locks ==> Stayed(s, LockLoop(s, n))
  {
  }

  lemma SignalMovers(s: Sys, c: nat, l: nat)
    requires s.cur.Some? && l in s.locks && c in s.cvs
    ensures Stayed(s, CvSignal(s, c, l))
  {
    hide Woken, Left, Unlock;
    UnlockIs(s, l);
  }

  lemma BroadcastMovers(s: Sys, c: nat, l: nat)
    requires s.cur.Some? && l in s.locks && c in s.cvs
    ensures Stayed(s, CvBroadcast(s, c, l))
  {
    hide WakeAll, Unlock;
    UnlockIs(s, l);
  }

  lemma ResumeMovers(s: Sys)
    requires s.cur.Some? && s.cur.v in s.threads
    ensures Stayed(s, Resume(s))
  {
    hide SemLoop, LockLoop;
    match s.threads[s.cur.v].pc
    case AtP(x) => LoopMovers(s, x);
    case AtAcquire(l) => LoopMovers(s, l);
    case AtWait(c, l) => LoopMovers(s, l);
    case _ =>
  }

  /** A sleeper is woken exactly by the calls that wake it; any other call leaves it asleep where it was. */
  lemma WokenIff(s: Sys, op: Op, t: nat)
    requires Inv(s) && Allowed(s, op) && t in s.sleepers
    ensures var s' := Step(s, op);
      && t in s'.threads && s'.threads[t] == s.threads[t]
      && (t in s'.run <==> t in Awakes(s, op)) && (t in s'.sleepers <==> t !in Awakes(s, op))
  {
    hide Inv, Step, Awakes, Allowed;
    SleeperElsewhere(s, t);
    SleeperSame(s, op, t);
    RunExact(s, op);
    StepInv(s, op);
    SleeperSomewhere(Step(s, op), t);
  }

  /** None of the steps makes the thread runnable. */
  predicate LeftAlone(s: Sys, ops: seq<Op>, t: nat)
    requires Runs(s, ops)
    decreases |ops|
  {
    ops == [] || (t !in Awakes(s, ops[0]) && LeftAlone(Step(s, ops[0]), ops[1..], t))
  }

  /** A thread sleeps on, where it went to sleep, until a call wakes it. */
  lemma {:induction false} SleepsUntilWoken(s: Sys, ops: seq<Op>, t: nat)
    requires Inv(s) && Runs(s, ops) && t in s.sleepers && LeftAlone(s, ops, t)
    ensures var s' := After(s, ops);
      t in s'.sleepers && t in s.threads && t in s'.threads && s'.threads[t] == s.threads[t]
    decreases |ops|
  {
    hide Inv, Step, Awakes, Allowed;
    SleeperElsewhere(s, t);
    if ops != [] {
      WokenIff(s, ops[0], t);
      StepInv(s, ops[0]);
      SleepsUntilWoken(Step(s, ops[0]), ops[1..], t);
    }
  }

  // ---- What becomes of the caller -----------------------------------------

  /** Where the calls that neither P nor acquire leave their caller. */
  lemma CallerGoes(s: Sys, op: Op)
    requires Inv(s) && Allowed(s, op) && s.cur.Some?
    ensures var s' := Step(s, op); var t := s.cur.v;
      && (op.Release? || op.Signal? || op.Broadcast? || op.V? || op.Wake? || op.Fork? ==> GoesOn(s', t))
      && (op.Fork? ==> op.t in s'.threads && s'.threads[op.t] == Thread(Nowhere, Start))
      && (op.Yield? ==> s'.cur == None && t in s'.threads && s'.threads[t].pc == Running)
      && (op.Exit? ==> s'.cur == None && s'.zombies == s.zombies + [t] && s'.numthreads == s.numthreads - 1)
      && (op.Wait? ==> Blocks(s', t, OnThread(t), AtWait(op.c, op.l)))
      && (op.Sleep? ==> Blocks(s', t, OnOther(op.n), AtSleep))
  {
    hide Placed, Counted, PcsOk, SleepersOk, QueuesOk, SemsOk, HeldOk, OutsidersOk, NoneLost;
    hide SemLoop, LockLoop, Wakeup, Unlock, WakeAll, CvSignal, CvBroadcast, Dispatch, Up;
    match op
    case Release(m) => UnlockIs(s, m);
    case Wait(c, m) => UnlockIs(s, m);
    case Signal(c, m) => SignalIs(s, c, m);
    case Broadcast(c, m) => BroadcastIs(s, c, m);
    case V(x) => UpIs(s, x);
    case Wake(n) => WakeupIs(s, OnOther(n));
    case _ =>
  }

  // ---- Every run ----------------------------------------------------------

  function Forks(ops: seq<Op>): nat {
    if ops == [] then 0 else (if ops[0].Fork? then 1 else 0) + Forks(ops[1..])
  }

  function Exits(ops: seq<Op>): nat {
    if ops == [] then 0 else (if ops[0].Exit? then 1 else 0) + Exits(ops[1..])
  }

  lemma {:induction false} NumRun(s: Sys, ops: seq<Op>)
    requires Inv(s) && Runs(s, ops)
    ensures After(s, ops).numthreads == s.numthreads + Forks(ops) - Exits(ops)
    decreases |ops|
  {
    hide Inv, Step, Allowed;
    if ops != [] {
      NumStep(s, ops[0]);
      StepInv(s, ops[0]);
      NumRun(Step(s, ops[0]), ops[1..]);
    }
  }

  lemma NumStep(s: Sys, op: Op)
    requires Inv(s) && Allowed(s, op)
    ensures Step(s, op).numthreads == s.numthreads + (if op.Fork? then 1 else 0) - (if op.Exit? then 1 else 0)
  {
    hide Inv, SemLoop, LockLoop, Wakeup, Unlock, WakeAll, Up, PcOk;
    match op
    case Acquire(m) => LoopMovers(s, m);
    case Release(m) => UnlockIs(s, m);
    case Wait(c, m) => UnlockIs(s, m);
    case Signal(c, m) => SignalMovers(s, c, m);
    case Broadcast(c, m) => BroadcastMovers(s, c, m);
    case P(x) => LoopMovers(s, x);
    case V(x) => UpIs(s, x);
    case Wake(n) => WakeupIs(s, OnOther(n));
    case Schedule => hide Resume; ResumeMovers(Switched(s));
    case _ =>
  }

  /** No more calls of P have returned than the first count and the calls of V allow; the count is the difference. */
  ghost predicate SemCounted(s: Sys, ops: seq<Op>, x: nat)
    requires Runs(s, ops)
  {
    x in s.sems ==>
      && Ps(s, ops, x) <= s.sems[x] + Vs(ops, x)
      && x in After(s, ops).sems && After(s, ops).sems[x] == s.sems[x] + Vs(ops, x) - Ps(s, ops, x)
  }

  /** The lock has had one thread inside at a time, and says which it is now. */
  ghost predicate LockTold(s: Sys, ops: seq<Op>, l: nat)
    requires Runs(s, ops)
  {
    l in s.locks ==>
      && OneAtATime(s, ops, l, None)
      && l in After(s, ops).locks && After(s, ops).locks[l].owner == Inside(s, ops, l, None)
  }

  /**
   * Over every run from boot, for any threads, locks, condition variables and semaphores: a lock has one
   * thread inside at most; a thread is queued, once, exactly when asleep on itself; a free lock with waiters
   * has a contender awake; every thread is in one place; nobody sleeps on a positive semaphore. From the calls and the
   * returns alone: one thread at a time is in a lock, no more calls of P return than the calls of V allow, and
   * numthreads counts the threads that have not exited.
   */
  lemma EveryRunSafe(s: Sys, ops: seq<Op>)
    requires Boot(s) && Runs(s, ops)
    ensures var s' := After(s, ops);
      && Exclusive(s') && QueuesOnce(s') && Promised(s')
      && (forall t :: QueuedIff(s', t) && OnePlace(s', t))
      && (forall x :: SemSafe(s', x))
      && (forall x :: SemCounted(s, ops, x)) && (forall l :: LockTold(s, ops, l))
      && s'.numthreads == (|s'.run| + |s'.sleepers| + if s'.cur.Some? then 1 else 0) == 1 + Forks(ops) - Exits(ops)
  {
    BootInv(s);
    RunInv(s, ops);
    NumRun(s, ops);
    RunTold(s, ops);
    var s' := After(s, ops);
    hide SemCounted, LockTold, Forks, Exits, After, Runs, Boot, Exclusive, QueuesOnce, Promised, OnePlace, SemSafe;
    hide QueuedIff;
    RestSafe(s');
    forall t
      ensures QueuedIff(s', t)
    {
      QueuedSafe(s', t);
    }
  }

  lemma RunTold(s: Sys, ops: seq<Op>)
    requires Boot(s) && Runs(s, ops)
    ensures forall x :: SemCounted(s, ops, x)
    ensures forall l :: LockTold(s, ops, l)
  {
    BootInv(s);
    hide Inv, Runs, After, Ps, Vs, Inside, OneAtATime;
    forall x | x in s.sems
      ensures SemCounted(s, ops, x)
    {
      SemRun(s, ops, x);
    }
    forall l | l in s.locks
      ensures LockTold(s, ops, l)
    {
      LockRun(s, ops, l);
    }
  }
}
