/**
 * Threads, semaphores, locks and condition variables as a transition system. Interrupts are off from one
 * switch to the next, so what a thread does between being dispatched and being switched out is one step.
 */
module Threads {
  datatype Option<T> = None | Some(v: T)

  datatype Addr = Nowhere | OnSem(s: nat) | OnThread(t: nat) | OnOther(n: nat)

  /** Where a thread that is not running goes on: in the loop of P, in that of lock_acquire, or after a sleep. */
  datatype Pc = Start | Running | AtP(s: nat) | AtAcquire(l: nat) | AtWait(c: nat, l: nat) | AtSleep

  datatype Thread = Thread(addr: Addr, pc: Pc)
  datatype Lock = Lock(owner: Option<nat>, queue: seq<nat>)

  /**
   * sems: the count of each semaphore; held: the threads that have returned from an acquire and not begun a release
   * since, each with the lock.
   */
  datatype Sys = Sys(
    cur: Option<nat>,
    run: seq<nat>,
    sleepers: seq<nat>,
    zombies: seq<nat>,
    numthreads: int,
    threads: map<nat, Thread>,
    locks: map<nat, Lock>,
    cvs: map<nat, seq<nat>>,
    sems: map<nat, nat>,
    held: set<(nat, nat)>)

  // ---- The thread system --------------------------------------------------

  predicate On(th: map<nat, Thread>, t: nat, a: Addr) {
    t in th && th[t].addr == a
  }

  /** The sleepers on an address, in order, and the others, in order. */
  function Woken(ts: seq<nat>, th: map<nat, Thread>, a: Addr): seq<nat> {
    if ts == [] then []
    else (if On(th, ts[0], a) then [ts[0]] else []) + Woken(ts[1..], th, a)
  }

  function Left(ts: seq<nat>, th: map<nat, Thread>, a: Addr): seq<nat> {
    if ts == [] then []
    else (if On(th, ts[0], a) then [] else [ts[0]]) + Left(ts[1..], th, a)
  }

  function Wakeup(s: Sys, a: Addr): Sys {
    s.(sleepers := Left(s.sleepers, s.threads, a), run := s.run + Woken(s.sleepers, s.threads, a))
  }

  /** Wake every thread of a queue, the first first. */
  function WakeAll(s: Sys, q: seq<nat>): (r: Sys)
    ensures r == s.(run := r.run, sleepers := r.sleepers)
    decreases |q|
  {
    if q == [] then s else WakeAll(Wakeup(s, OnThread(q[0])), q[1..])
  }

  function SetThread(s: Sys, t: nat, x: Thread): Sys {
    s.(threads := s.threads[t := x])
  }

  /** The current thread goes to sleep on an address; the scheduler has yet to choose the next. */
  function SleepOn(s: Sys, a: Addr, pc: Pc): Sys
    requires s.cur.Some?
  {
    SetThread(s, s.cur.v, Thread(a, pc)).(cur := None, sleepers := s.sleepers + [s.cur.v])
  }

  // ---- What the current thread does ---------------------------------------

  function LockLoop(s: Sys, l: nat): Sys
    requires s.cur.Some? && l in s.locks
  {
    var t := s.cur.v;
    var k := s.locks[l];
    if k.owner.Some? then
      SleepOn(s.(locks := s.locks[l := k.(queue := k.queue + [t])]), OnThread(t), AtAcquire(l))
    else
      SetThread(s.(locks := s.locks[l := k.(owner := Some(t))], held := s.held + {(t, l)}), t, Thread(Nowhere, Running))
  }

  function Unlock(s: Sys, l: nat): Sys
    requires s.cur.Some? && l in s.locks
  {
    var k := s.locks[l];
    var s1 := s.(locks := s.locks[l := Lock(None, if k.queue == [] then [] else k.queue[1..])],
                 held := s.held - {(s.cur.v, l)});
    if k.queue == [] then s1 else Wakeup(s1, OnThread(k.queue[0]))
  }

  function SemLoop(s: Sys, x: nat): Sys
    requires s.cur.Some? && x in s.sems
  {
    if s.sems[x] == 0 then SleepOn(s, OnSem(x), AtP(x))
    else SetThread(s.(sems := s.sems[x := s.sems[x] - 1]), s.cur.v, Thread(Nowhere, Running))
  }

  function Up(s: Sys, x: nat): Sys
    requires x in s.sems
  {
    Wakeup(s.(sems := s.sems[x := s.sems[x] + 1]), OnSem(x))
  }

  function CvWait(s: Sys, c: nat, l: nat): Sys
    requires s.cur.Some? && c in s.cvs && l in s.locks
  {
    var s1 := Unlock(s, l);
    SleepOn(s1.(cvs := s1.cvs[c := s1.cvs[c] + [s.cur.v]]), OnThread(s.cur.v), AtWait(c, l))
  }

  function CvSignal(s: Sys, c: nat, l: nat): Sys
    requires s.cur.Some? && c in s.cvs && l in s.locks
  {
    var s1 := Unlock(s, l);
    var q := s1.cvs[c];
    LockLoop(if q == [] then s1 else Wakeup(s1.(cvs := s1.cvs[c := q[1..]]), OnThread(q[0])), l)
  }

  function CvBroadcast(s: Sys, c: nat, l: nat): Sys
    requires s.cur.Some? && c in s.cvs && l in s.locks
  {
    var s1 := Unlock(s, l);
    LockLoop(WakeAll(s1.(cvs := s1.cvs[c := []]), s1.cvs[c]), l)
  }

  /** The head of the run queue becomes the current thread. */
  function Switch(s: Sys): Sys
    requires s.run != []
  {
    s.(cur := Some(s.run[0]), run := s.run[1..])
  }

  /** Dispose of the threads that have exited. */
  function Exorcise(s: Sys): Sys {
    s.(zombies := [], threads := s.threads - (set z | z in s.zombies))
  }

  /** The dispatched thread picks up where it left off. */
  function Resume(s: Sys): Sys
    requires s.cur.Some? && s.cur.v in s.threads
  {
    var t := s.cur.v;
    match s.threads[t].pc
    case Start => SetThread(s, t, Thread(Nowhere, Running))
    case Running => s
    case AtP(x) => if x in s.sems then SemLoop(s, x) else s
    case AtAcquire(l) => if l in s.locks then LockLoop(s, l) else s
    case AtWait(c, l) => if l in s.locks then LockLoop(s, l) else s
    case AtSleep => SetThread(s, t, Thread(Nowhere, Running))
  }

  /** A new thread starts without clearing the dead away; a thread that comes back from a switch does so first. */
  function Dispatch(s: Sys): Sys
    requires s.run != [] && s.run[0] in s.threads && s.run[0] !in s.zombies
  {
    var s1 := Switch(s);
    Resume(if s.threads[s.run[0]].pc == Start then s1 else Exorcise(s1))
  }

  // ---- Steps --------------------------------------------------------------

  datatype Op =
    | Fork(t: nat) | Yield | Exit | Schedule
    | P(s: nat) | V(s: nat)
    | Acquire(l: nat) | Release(l: nat)
    | Wait(c: nat, l: nat) | Signal(c: nat, l: nat) | Broadcast(c: nat, l: nat)
    | Sleep(n: nat) | Wake(n: nat)

  predicate Holds(s: Sys, l: nat) {
    s.cur.Some? && l in s.locks && s.locks[l].owner == s.cur
  }

  /**
   * What may happen next. V and wakeups come from interrupt handlers too, with no thread current. The calls
   * on locks demand what their assertions do.
   */
  predicate Allowed(s: Sys, op: Op) {
    match op
    case Fork(t) => s.cur.Some? && t !in s.threads
    case Yield => s.cur.Some?
    case Exit => s.cur.Some?
    case Schedule => s.cur.None? && s.run != [] && s.run[0] in s.threads && s.run[0] !in s.zombies
    case P(x) => s.cur.Some? && x in s.sems
    case V(x) => x in s.sems
    case Acquire(l) => s.cur.Some? && l in s.locks && !Holds(s, l)
    case Release(l) => Holds(s, l)
    case Wait(c, l) => c in s.cvs && Holds(s, l)
    case Signal(c, l) => c in s.cvs && Holds(s, l)
    case Broadcast(c, l) => c in s.cvs && Holds(s, l)
    case Sleep(n) => s.cur.Some?
    case Wake(n) => true
  }

  function Step(s: Sys, op: Op): Sys
    requires Allowed(s, op)
  {
    match op
    case Fork(t) => SetThread(s, t, Thread(Nowhere, Start)).(run := s.run + [t], numthreads := s.numthreads + 1)
    case Yield => s.(cur := None, run := s.run + [s.cur.v])
    case Exit => s.(cur := None, zombies := s.zombies + [s.cur.v], numthreads := s.numthreads - 1)
    case Schedule => Dispatch(s)
    case P(x) => SemLoop(s, x)
    case V(x) => Up(s, x)
    case Acquire(l) => LockLoop(s, l)
    case Release(l) => Unlock(s, l)
    case Wait(c, l) => CvWait(s, c, l)
    case Signal(c, l) => CvSignal(s, c, l)
    case Broadcast(c, l) => CvBroadcast(s, c, l)
    case Sleep(n) => SleepOn(s, OnOther(n), AtSleep)
    case Wake(n) => Wakeup(s, OnOther(n))
  }

  // ---- What holds between steps -------------------------------------------

  ghost predicate NoDup(q: seq<nat>) {
    forall i, j :: 0 <= i < j < |q| ==> q[i] != q[j]
  }

  ghost predicate Apart(q: seq<nat>, r: seq<nat>) {
    forall t :: t in q ==> t !in r
  }

  /** Every thread is in exactly one place. */
  ghost predicate Placed(s: Sys) {
    && NoDup(s.run) && NoDup(s.sleepers) && NoDup(s.zombies)
    && Apart(s.run, s.sleepers) && Apart(s.run, s.zombies) && Apart(s.sleepers, s.zombies)
    && (s.cur.Some? ==> s.cur.v !in s.run && s.cur.v !in s.sleepers && s.cur.v !in s.zombies)
    && (forall t :: t in s.threads <==> s.cur == Some(t) || t in s.run || t in s.sleepers || t in s.zombies)
  }

  ghost predicate Counted(s: Sys) {
    s.numthreads == |s.run| + |s.sleepers| + if s.cur.Some? then 1 else 0
  }

  /** The current thread is between calls. */
  ghost predicate CurOk(s: Sys) {
    s.cur.Some? ==> s.cur.v in s.threads && s.threads[s.cur.v] == Thread(Nowhere, Running)
  }

  /** What a thread waits for exists. */
  ghost predicate PcOk(s: Sys, pc: Pc) {
    && (pc.AtP? ==> pc.s in s.sems)
    && (pc.AtAcquire? ==> pc.l in s.locks)
    && (pc.AtWait? ==> pc.c in s.cvs && pc.l in s.locks)
  }

  ghost predicate PcsOk(s: Sys) {
    forall t :: t in s.threads ==> PcOk(s, s.threads[t].pc)
  }

  /** A sleeper sleeps where its call says, and is in the queue its call says if it sleeps on itself. */
  ghost predicate SleeperOk(s: Sys, t: nat) {
    t in s.threads && match s.threads[t].pc
    case Start => false
    case Running => false
    case AtP(x) => s.threads[t].addr == OnSem(x)
    case AtAcquire(l) => s.threads[t].addr == OnThread(t) && l in s.locks && t in s.locks[l].queue
    case AtWait(c, l) => s.threads[t].addr == OnThread(t) && c in s.cvs && t in s.cvs[c]
    case AtSleep => s.threads[t].addr.OnOther?
  }

  ghost predicate SleepersOk(s: Sys) {
    forall t :: t in s.sleepers ==> SleeperOk(s, t)
  }

  /** The queue of a lock holds sleepers waiting for it, each once. */
  ghost predicate LockQueueOk(s: Sys, l: nat, q: seq<nat>) {
    NoDup(q) && forall t :: t in q ==>
        t in s.sleepers && t in s.threads && s.threads[t] == Thread(OnThread(t), AtAcquire(l))
  }

  ghost predicate CvQueueOk(s: Sys, c: nat, q: seq<nat>) {
    NoDup(q) && forall t :: t in q ==>
      && t in s.sleepers && t in s.threads && s.threads[t].addr == OnThread(t) && s.threads[t].pc.AtWait?
      && s.threads[t].pc.c == c
  }

  ghost predicate QueuesOk(s: Sys) {
    && (forall l :: l in s.locks ==> LockQueueOk(s, l, s.locks[l].queue))
    && (forall c :: c in s.cvs ==> CvQueueOk(s, c, s.cvs[c]))
  }

  ghost predicate SemOk(s: Sys, x: nat) {
    x in s.sems && s.sems[x] > 0 ==> forall t :: t in s.sleepers && t in s.threads ==> s.threads[t].addr != OnSem(x)
  }

  ghost predicate SemsOk(s: Sys) {
    forall x :: x in s.sems ==> SemOk(s, x)
  }

  /** A thread is in a lock exactly when the lock says it is its owner. */
  ghost predicate HeldOk(s: Sys) {
    forall t, l :: (t, l) in s.held <==> l in s.locks && s.locks[l].owner == Some(t)
  }

  /** A thread on its way to a lock does not own it, and one between calls has no sleep address. */
  ghost predicate OutsideOk(s: Sys, t: nat) {
    t in s.threads ==>
      var pc := s.threads[t].pc;
      && (pc.AtAcquire? && pc.l in s.locks ==> s.locks[pc.l].owner != Some(t))
      && (pc.AtWait? && pc.l in s.locks ==> s.locks[pc.l].owner != Some(t))
      && (pc.Start? || pc.Running? ==> s.threads[t].addr == Nowhere)
  }

  ghost predicate OutsidersOk(s: Sys) {
    forall t :: t in s.threads ==> OutsideOk(s, t)
  }

  ghost predicate Contends(s: Sys, t: nat, l: nat) {
    t in s.run && t in s.threads && s.threads[t].pc == AtAcquire(l)
  }

  /** A free lock that threads wait for has been promised to one that is awake. */
  ghost predicate NotLost(s: Sys, l: nat) {
    l in s.locks && s.locks[l].owner.None? && s.locks[l].queue != [] ==> exists t :: Contends(s, t, l)
  }

  ghost predicate NoneLost(s: Sys) {
    forall l :: l in s.locks ==> NotLost(s, l)
  }

  ghost predicate Inv(s: Sys) {
    && Placed(s) && Counted(s) && CurOk(s) && PcsOk(s)
    && SleepersOk(s) && QueuesOk(s) && SemsOk(s) && HeldOk(s) && OutsidersOk(s) && NoneLost(s)
  }

  // ---- Waking -------------------------------------------------------------

  lemma {:induction false} WokenIn(ts: seq<nat>, th: map<nat, Thread>, a: Addr, t: nat)
    ensures t in Woken(ts, th, a) <==> t in ts && On(th, t, a)
    ensures t in Left(ts, th, a) <==> t in ts && !On(th, t, a)
  {
    if ts != [] {
      WokenIn(ts[1..], th, a, t);
      assert t in ts <==> t == ts[0] || t in ts[1..];
    }
  }

  lemma {:induction false} WokenCount(ts: seq<nat>, th: map<nat, Thread>, a: Addr)
    ensures |Woken(ts, th, a)| + |Left(ts, th, a)| == |ts|
  {
    if ts != [] {
      WokenCount(ts[1..], th, a);
    }
  }

  lemma {:induction false} WokenNoDup(ts: seq<nat>, th: map<nat, Thread>, a: Addr)
    requires NoDup(ts)
    ensures NoDup(Woken(ts, th, a)) && NoDup(Left(ts, th, a))
  {
    if ts != [] {
      var r := ts[1..];
      assert NoDup(r);
      WokenNoDup(r, th, a);
      WokenIn(r, th, a, ts[0]);
      assert ts[0] !in r;
      ConsNoDup(ts[0], Woken(r, th, a));
      ConsNoDup(ts[0], Left(r, th, a));
    }
  }

  lemma ConsNoDup(t: nat, q: seq<nat>)
    requires NoDup(q)
    ensures t !in q ==> NoDup([t] + q)
    ensures NoDup([] + q)
  {
    assert [] + q == q;
  }

  lemma JoinNoDup(q: seq<nat>, r: seq<nat>)
    requires NoDup(q) && NoDup(r) && Apart(q, r)
    ensures NoDup(q + r)
  {
    forall i, j | 0 <= i < j < |q + r|
      ensures (q + r)[i] != (q + r)[j]
    {
      if i < |q| <= j {
        assert q[i] in q && r[j - |q|] in r;
      }
    }
  }
}
