/**
 * Semaphores, locks and condition variables as the kernel updates them. A call that sleeps is given as the
 * stretch up to the switch; the loop it sleeps in goes on, when the thread is dispatched again, with the
 * same stretch once more.
 */
module SynchKernel {
  import opened Threads
  import opened ThreadKernel

  class KSem {
    var count: nat

    constructor (initial: nat)
      ensures count == initial
    {
      count := initial;
    }
  }

  class KLock {
    var owner: Option<nat>
    var queue: seq<nat>

    ghost function View(): Lock
      reads this
    {
      Lock(owner, queue)
    }

    constructor ()
      ensures View() == Lock(None, [])
    {
      owner, queue := None, [];
    }
  }

  class KCv {
    var queue: seq<nat>

    constructor ()
      ensures queue == []
    {
      queue := [];
    }
  }

  method SemP(ts: ThreadSystem, m: KSem, id: nat, ghost rest: Sys) returns (slept: bool, ghost rest': Sys)
    requires ts.Valid() && ts.cur.Some? && id in rest.sems && rest.sems[id] == m.count
    modifies m, ts.Owned()
    ensures ts.Valid() && fresh(ts.Owned() - old(ts.Owned()))
    ensures id in rest'.sems && rest'.sems[id] == m.count
    ensures ts.View(rest') == SemLoop(old(ts.View(rest)), id) && slept == (old(m.count) == 0)
  {
    hide ThreadSystem.View, ThreadSystem.Valid;
    ts.Rest(rest, rest);
    if m.count == 0 {
      ts.SleepFirst(OnSem(id), AtP(id), rest);
      return true, rest;
    }
    m.count := m.count - 1;
    rest' := rest.(sems := rest.sems[id := rest.sems[id] - 1]);
    ts.Rest(rest, rest');
    ts.SetRunning(rest');
    return false, rest';
  }

  method SemV(ts: ThreadSystem, m: KSem, id: nat, ghost rest: Sys) returns (ghost rest': Sys)
    requires ts.Valid() && id in rest.sems && rest.sems[id] == m.count
    modifies m, ts.Owned()
    ensures ts.Valid() && fresh(ts.Owned() - old(ts.Owned()))
    ensures id in rest'.sems && rest'.sems[id] == m.count
    ensures ts.View(rest') == Up(old(ts.View(rest)), id)
  {
    hide Wakeup, ThreadSystem.View, ThreadSystem.Valid;
    m.count := m.count + 1;
    rest' := rest.(sems := rest.sems[id := rest.sems[id] + 1]);
    ts.Rest(rest, rest');
    ts.WakeUp(OnSem(id), rest');
  }

  /** Take the lock if it is free; if not, queue up and go to sleep on oneself. */
  method AcquireStep(ts: ThreadSystem, k: KLock, id: nat, ghost rest: Sys) returns (slept: bool, ghost rest': Sys)
    requires ts.Valid() && ts.cur.Some? && id in rest.locks && rest.locks[id] == k.View()
    modifies k, ts.Owned()
    ensures ts.Valid() && fresh(ts.Owned() - old(ts.Owned()))
    ensures rest' == rest.(locks := rest.locks[id := k.View()], held := rest'.held) && slept == old(k.owner.Some?)
    ensures ts.View(rest') == LockLoop(old(ts.View(rest)), id)
  {
    hide ThreadSystem.View, ThreadSystem.Valid, SleepOn, SetThread;
    var t := ts.cur.v;
    ghost var s := ts.View(rest);
    ts.Rest(rest, rest);
    if k.owner.Some? {
      k.queue := k.queue + [t];
      rest' := rest.(locks := rest.locks[id := k.View()]);
      ts.Rest(rest, rest');
      ts.SleepFirst(OnThread(t), AtAcquire(id), rest');
      return true, rest';
    }
    k.owner := Some(t);
    rest' := rest.(locks := rest.locks[id := k.View()], held := rest.held + {(t, id)});
    ts.Rest(rest, rest');
    ts.SetRunning(rest');
    return false, rest';
  }

  /** Free the lock and wake the first thread in its queue. */
  method LockRelease(ts: ThreadSystem, k: KLock, id: nat, ghost rest: Sys) returns (ghost rest': Sys)
    requires ts.Valid() && ts.cur.Some? && k.owner == ts.cur && id in rest.locks && rest.locks[id] == k.View()
    modifies k, ts.Owned()
    ensures ts.Valid() && fresh(ts.Owned() - old(ts.Owned()))
    ensures rest' == rest.(locks := rest.locks[id := k.View()], held := rest'.held) && k.owner.None?
    ensures ts.cur == old(ts.cur)
    ensures ts.View(rest') == Unlock(old(ts.View(rest)), id)
  {
    hide Woken, Left, ThreadSystem.View, ThreadSystem.Valid;
    ghost var t := ts.cur.v;
    ts.Rest(rest, rest);
    k.owner := None;
    if k.queue != [] {
      var h := k.queue[0];
      k.queue := k.queue[1..];
      rest' := rest.(locks := rest.locks[id := k.View()], held := rest.held - {(t, id)});
      ts.Rest(rest, rest');
      ts.WakeUp(OnThread(h), rest');
      ts.Rest(rest', rest');
    } else {
      rest' := rest.(locks := rest.locks[id := k.View()], held := rest.held - {(t, id)});
      ts.Rest(rest, rest');
    }
  }

  lemma UnlockRest(s: Sys, l: nat)
    requires s.cur.Some? && l in s.locks
    ensures Unlock(s, l).cvs == s.cvs && Unlock(s, l).cur == s.cur && Unlock(s, l).locks.Keys == s.locks.Keys
  {
  }

  /** Give up the lock, queue up and go to sleep on oneself. When woken, the thread goes on with AcquireStep. */
  method CvWaitStep(ts: ThreadSystem, cv: KCv, c: nat, k: KLock, id: nat, ghost rest: Sys) returns (ghost rest': Sys)
    requires ts.Valid() && ts.cur.Some? && k.owner == ts.cur
    requires id in rest.locks && rest.locks[id] == k.View() && c in rest.cvs && rest.cvs[c] == cv.queue
    modifies k, cv, ts.Owned()
    ensures ts.Valid() && fresh(ts.Owned() - old(ts.Owned()))
    ensures rest' == rest.(locks := rest.locks[id := k.View()], cvs := rest.cvs[c := cv.queue], held := rest'.held)
    ensures ts.View(rest') == CvWait(old(ts.View(rest)), c, id)
  {
    hide ThreadSystem.View, ThreadSystem.Valid, Unlock, SleepOn;
    ts.Rest(rest, rest);
    UnlockRest(ts.View(rest), id);
    var t := ts.cur.v;
    ghost var rest1 := LockRelease(ts, k, id, rest);
    ts.Rest(rest1, rest1);
    ghost var s1 := ts.View(rest1);
    cv.queue := cv.queue + [t];
    assert ts.View(rest1) == s1;
    rest' := rest1.(cvs := rest1.cvs[c := cv.queue]);
    ts.Rest(rest1, rest');
    ts.SleepFirst(OnThread(t), AtWait(c, id), rest');
  }

  /** Wake the first thread waiting, if there is one. */
  method WakeFirst(ts: ThreadSystem, cv: KCv, c: nat, ghost rest: Sys) returns (ghost rest': Sys)
    requires ts.Valid() && c in rest.cvs && rest.cvs[c] == cv.queue
    modifies cv, ts.Owned()
    ensures ts.Valid() && fresh(ts.Owned() - old(ts.Owned())) && ts.cur == old(ts.cur)
    ensures rest' == rest.(cvs := rest.cvs[c := cv.queue])
    ensures var s := old(ts.View(rest)); var q := old(cv.queue);
      ts.View(rest') == if q == [] then s else Wakeup(s.(cvs := s.cvs[c := q[1..]]), OnThread(q[0]))
  {
    hide ThreadSystem.View, ThreadSystem.Valid, Woken, Left;
    ts.Rest(rest, rest);
    rest' := rest;
    if cv.queue != [] {
      var h := cv.queue[0];
      cv.queue := cv.queue[1..];
      rest' := rest.(cvs := rest.cvs[c := cv.queue]);
      ts.Rest(rest, rest');
      ts.WakeUp(OnThread(h), rest');
      ts.Rest(rest', rest');
    } else {
      assert rest.cvs[c := cv.queue] == rest.cvs;
    }
  }

  /** Wake the first thread waiting; the lock is given up and taken again on the way, without a switch. */
  method CvSignalStep(ts: ThreadSystem, cv: KCv, c: nat, k: KLock, id: nat, ghost rest: Sys) returns (ghost rest': Sys)
    requires ts.Valid() && ts.cur.Some? && k.owner == ts.cur
    requires id in rest.locks && rest.locks[id] == k.View() && c in rest.cvs && rest.cvs[c] == cv.queue
    modifies k, cv, ts.Owned()
    ensures ts.Valid() && fresh(ts.Owned() - old(ts.Owned()))
    ensures rest' == rest.(locks := rest.locks[id := k.View()], cvs := rest.cvs[c := cv.queue], held := rest'.held)
    ensures ts.View(rest') == CvSignal(old(ts.View(rest)), c, id)
  {
    hide ThreadSystem.View, ThreadSystem.Valid, Unlock, LockLoop, Woken, Left;
    ts.Rest(rest, rest);
    UnlockRest(ts.View(rest), id);
    ghost var rest1 := LockRelease(ts, k, id, rest);
    ts.Rest(rest1, rest1);
    ghost var rest2 := WakeFirst(ts, cv, c, rest1);
    ts.Rest(rest2, rest2);
    var slept;
    slept, rest' := AcquireStep(ts, k, id, rest2);
    assert !slept;
  }

  /** Wake every thread waiting, the first first; the lock is given up and taken again on the way, without a switch. */
  method CvBroadcastStep(ts: ThreadSystem, cv: KCv, c: nat, k: KLock, id: nat, ghost rest: Sys)
    returns (ghost rest': Sys)
    requires ts.Valid() && ts.cur.Some? && k.owner == ts.cur
    requires id in rest.locks && rest.locks[id] == k.View() && c in rest.cvs && rest.cvs[c] == cv.queue
    modifies k, cv, ts.Owned()
    ensures ts.Valid() && fresh(ts.Owned() - old(ts.Owned())) && cv.queue == []
    ensures rest' == rest.(locks := rest.locks[id := k.View()], cvs := rest.cvs[c := cv.queue], held := rest'.held)
    ensures ts.View(rest') == CvBroadcast(old(ts.View(rest)), c, id)
  {
    hide ThreadSystem.View, ThreadSystem.Valid, Unlock, LockLoop, WakeAll;
    ts.Rest(rest, rest);
    UnlockRest(ts.View(rest), id);
    ghost var rest1 := LockRelease(ts, k, id, rest);
    ts.Rest(rest1, rest1);
    ghost var rest2 := rest1.(cvs := rest1.cvs[c := []]);
    ts.Rest(rest1, rest2);
    WakeQueue(ts, cv, rest2);
    ts.Rest(rest2, rest2);
    var slept;
    slept, rest' := AcquireStep(ts, k, id, rest2);
    assert !slept;
  }

  method WakeQueue(ts: ThreadSystem, cv: KCv, ghost rest: Sys)
    requires ts.Valid()
    modifies cv, ts.Owned()
    ensures ts.Valid() && fresh(ts.Owned() - old(ts.Owned())) && cv.queue == [] && ts.cur == old(ts.cur)
    ensures ts.View(rest) == WakeAll(old(ts.View(rest)), old(cv.queue))
  {
    hide ThreadSystem.View, ThreadSystem.Valid, Wakeup;
    ghost var s := ts.View(rest);
    ghost var q := cv.queue;
    ts.Rest(rest, rest);
    while cv.queue != []
      invariant ts.Valid() && fresh(ts.Owned() - old(ts.Owned()))
      invariant WakeAll(ts.View(rest), cv.queue) == WakeAll(s, q)
      decreases |cv.queue|
    {
      var h := cv.queue[0];
      cv.queue := cv.queue[1..];
      ts.WakeUp(OnThread(h), rest);
    }
    ts.Rest(rest, rest);
  }
}
