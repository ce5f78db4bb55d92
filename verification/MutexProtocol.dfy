/**
  Mutexes with priority inheritance (ipc.c, thread.c).  Every region that runs
  with interrupts disabled is one step, and steps of different threads
  interleave in any order.  This file is the machine over any number of
  mutexes and threads; Mutex.dfy ties the kernel's objects to it.
*/
module MutexProtocol {
  import opened ThreadObject
  import opened WaitQueue

  /** struct rt_mutex; a smaller priority number is more urgent. */
  datatype Lock = Lock(byPriority: bool, value: int, owner: Option<Thread>,
                       original: int, hold: int, waiters: Queue)

  const NOBODY := 0xff // original_priority of a free mutex

  function Held(t: Thread?): Option<Thread> {
    if t == null then None else var u: Thread := t; Some(u)
  }

  // ---------- one mutex ----------

  datatype Outcome = Got | Refused | Blocks

  /** rt_mutex_take up to the first schedule.  `hold` is an 8-bit counter. */
  function Take(l: Lock, prio: Priorities, t: Thread, time: int): (Lock, Priorities, Outcome) {
    if l.owner == Some(t) then
      (l.(hold := (l.hold + 1) % 256), prio, Got)
    else if l.value > 0 then
      (l.(value := l.value - 1, owner := Some(t), original := Of(prio, t), hold := (l.hold + 1) % 256), prio, Got)
    else if time == 0 then
      (l, prio, Refused)
    else
      var boosted := if l.owner.Some? && Of(prio, t) < Of(prio, l.owner.value)
                     then prio[l.owner.value := Of(prio, t)] else prio;
      (l.(waiters := Enqueue(l.waiters, boosted, t, l.byPriority)), boosted, Blocks)
  }

  /** rt_mutex_release by a thread that owns the mutex. */
  function Release(l: Lock, prio: Priorities, t: Thread): (Lock, Priorities) {
    if l.hold != 1 then
      (l.(hold := (l.hold - 1) % 256), prio)
    else
      var back := prio[t := l.original];
      if l.waiters != [] then
        var w := l.waiters[0];
        (l.(owner := Some(w), original := Of(back, w), hold := 1, waiters := l.waiters[1..]), back)
      else
        (l.(value := l.value + 1, owner := None, original := NOBODY, hold := 0), back)
  }

  ghost predicate LockSafe(l: Lock) {
    && (l.value == 0 || l.value == 1)
    && 0 <= l.hold < 256
    && (l.value == 1 <==> l.owner == None)
    && (l.value == 1 <==> l.hold == 0)
    && (l.value == 1 ==> l.waiters == [])
    && NoRepeats(l.waiters)
    && (l.owner.Some? ==> l.owner.value !in l.waiters)
  }

  /** The owner is at least as urgent as every waiter. */
  ghost predicate Urgent(l: Lock, prio: Priorities) {
    l.owner.Some? ==> forall w <- l.waiters :: Of(prio, l.owner.value) <= Of(prio, w)
  }

  /** A take keeps the mutex consistent if and only if it does not nest the
      mutex 256 deep. */
  lemma {:induction false} NestingLimit(l: Lock, prio: Priorities, t: Thread, time: int)
    requires LockSafe(l) && t !in l.waiters
    ensures LockSafe(Take(l, prio, t, time).0) <==> !(l.owner == Some(t) && l.hold == 255)
  {
    if l.owner.Some? && l.owner.value != t && time != 0 {
      EnqueueGood(l.waiters, Take(l, prio, t, time).1, t, l.byPriority);
    }
  }

  /** A hand-off keeps the owner most urgent if and only if the thread that
      has waited in front is; a first-come queue does not see to that, and the
      new owner is not boosted. */
  lemma {:induction false} HandOffUrgentIff(l: Lock, prio: Priorities, t: Thread)
    requires LockSafe(l) && l.owner == Some(t) && l.hold == 1 && l.waiters != []
    ensures Urgent(Release(l, prio, t).0, Release(l, prio, t).1) <==>
            forall w <- l.waiters :: Of(prio, l.waiters[0]) <= Of(prio, w)
  {
    var (r, back) := Release(l, prio, t);
    assert r.owner == Some(l.waiters[0]);
    assert l.waiters == [l.waiters[0]] + l.waiters[1..];
    assert forall w <- l.waiters :: Of(back, w) == Of(prio, w);
    if Urgent(r, back) {
      forall w <- l.waiters ensures Of(prio, l.waiters[0]) <= Of(prio, w) {
        assert w == l.waiters[0] || w in l.waiters[1..];
      }
    } else {
      var w :| w in r.waiters && Of(back, l.waiters[0]) > Of(back, w);
      assert w in l.waiters;
    }
  }

  // ---------- any number of mutexes and threads ----------

  type Name = nat

  datatype Status =
    | Running
    | Waiting(on: Name, timed: bool)      // suspended inside rt_mutex_take
    | Returning(from: Name, ok: bool)     // woken, not yet back from rt_mutex_take

  /** `base` is the priority a thread was last given from outside: nothing
      reads it, it records what inheritance must give back. */
  datatype System = System(locks: map<Name, Lock>, prio: Priorities, base: Priorities, status: map<Thread, Status>)

  datatype Event =
    | DoTake(t: Thread, m: Name, time: int)
    | DoRelease(t: Thread, m: Name)
    | DoTimeout(t: Thread)
    | DoReturn(t: Thread)
    | DoSetPriority(t: Thread, p: int)

  function StatusOf(s: System, t: Thread): Status {
    if t in s.status then s.status[t] else Running
  }

  function Step(s: System, e: Event): System {
    match e
    case DoTake(t, m, time) =>
      if StatusOf(s, t) != Running || m !in s.locks then s else
        var (l, prio, out) := Take(s.locks[m], s.prio, t, time);
        s.(locks := s.locks[m := l], prio := prio,
           status := if out == Blocks then s.status[t := Waiting(m, time > 0)]
                     else s.status[t := Returning(m, out == Got)])
    case DoRelease(t, m) =>
      if StatusOf(s, t) != Running || m !in s.locks || s.locks[m].owner != Some(t) then s else
        var (l, prio) := Release(s.locks[m], s.prio, t);
        s.(locks := s.locks[m := l], prio := prio,
           status := if l.owner.Some? && l.owner != Some(t)
                     then s.status[l.owner.value := Returning(m, true)] else s.status)
    case DoTimeout(t) =>
      var st := StatusOf(s, t);
      if !st.Waiting? || !st.timed || st.on !in s.locks then s else
        var l := s.locks[st.on];
        s.(locks := s.locks[st.on := l.(waiters := Dequeue(l.waiters, t))],
           status := s.status[t := Returning(st.on, false)])
    case DoReturn(t) =>
      if StatusOf(s, t).Returning? then s.(status := s.status[t := Running]) else s
    case DoSetPriority(t, p) =>
      s.(prio := s.prio[t := p], base := s.base[t := p])
  }

  function Run(s: System, es: seq<Event>): System
    decreases |es|
  {
    if es == [] then s else Run(Step(s, es[0]), es[1..])
  }

  // ---------- safety ----------

  /** Waiting and being queued are the same; whoever is about to come back
      with the mutex owns it, and whoever comes back without it does not. */
  ghost predicate Agrees(s: System, m: Name, t: Thread)
    requires m in s.locks
  {
    var l, st := s.locks[m], StatusOf(s, t);
    && (t in l.waiters <==> st.Waiting? && st.on == m)
    && (st == Returning(m, true) ==> l.owner == Some(t))
    && (st == Returning(m, false) ==> l.owner != Some(t))
  }

  ghost predicate Safe(s: System) {
    && (forall m <- s.locks :: LockSafe(s.locks[m]))
    && (forall m <- s.locks, t <- s.status :: Agrees(s, m, t))
    && (forall m <- s.locks, t <- s.locks[m].waiters :: t in s.status)
  }

  ghost predicate Shallow(s: System, e: Event) {
    e.DoTake? && e.m in s.locks ==> !(s.locks[e.m].owner == Some(e.t) && s.locks[e.m].hold == 255)
  }

  ghost predicate ShallowRun(s: System, es: seq<Event>)
    decreases |es|
  {
    es != [] ==> Shallow(s, es[0]) && ShallowRun(Step(s, es[0]), es[1..])
  }

  lemma {:induction false} StepSafe(s: System, e: Event)
    requires Safe(s) && Shallow(s, e)
    ensures Safe(Step(s, e))
  {
    match e
    case DoTake(t, m, time) => TakeSafe(s, t, m, time);
    case DoRelease(t, m) => ReleaseSafe(s, t, m);
    case DoTimeout(t) => TimeoutSafe(s, t);
    case DoReturn(t) =>
    case DoSetPriority(t, p) =>
      var r := Step(s, e);
      assert forall m <- r.locks, u <- r.status :: Agrees(s, m, u) ==> Agrees(r, m, u);
  }

  lemma {:induction false} TakeSafe(s: System, t: Thread, m: Name, time: int)
    requires Safe(s) && Shallow(s, DoTake(t, m, time))
    ensures Safe(Step(s, DoTake(t, m, time)))
  {
    hide NoRepeats, Enqueue;
    if StatusOf(s, t) == Running && m in s.locks {
      var r := Step(s, DoTake(t, m, time));
      assert t !in s.locks[m].waiters;
      NestingLimit(s.locks[m], s.prio, t, time);
      forall k <- r.locks, u <- r.status ensures Agrees(r, k, u) {
        assert u != t ==> Agrees(s, k, u);
        assert t !in s.locks[k].waiters;
      }
    }
  }

  lemma {:induction false} ReleaseSafe(s: System, t: Thread, m: Name)
    requires Safe(s)
    ensures Safe(Step(s, DoRelease(t, m)))
  {
    if StatusOf(s, t) == Running && m in s.locks && s.locks[m].owner == Some(t) {
      var l := s.locks[m];
      var r := Step(s, DoRelease(t, m));
      if l.hold == 1 && l.waiters != [] {
        assert l.waiters == [l.waiters[0]] + l.waiters[1..];
        assert Agrees(s, m, l.waiters[0]);
      }
      forall k <- r.locks, u <- r.status ensures Agrees(r, k, u) {
        assert u in s.status ==> Agrees(s, k, u);
      }
    }
  }

  lemma {:induction false} TimeoutSafe(s: System, t: Thread)
    requires Safe(s)
    ensures Safe(Step(s, DoTimeout(t)))
  {
    var st, r := StatusOf(s, t), Step(s, DoTimeout(t));
    if st.Waiting? && st.timed && st.on in s.locks {
      var l := s.locks[st.on];
      DequeueGood(l.waiters, s.prio, t);
      assert Agrees(s, st.on, t);
      forall k <- r.locks, u <- r.status ensures Agrees(r, k, u) {
        assert Agrees(s, k, u);
        assert Agrees(s, k, t);
      }
    }
  }

  /** Over every run: a mutex is free, unowned and unheld together, and then
      nobody waits for it. */
  lemma {:induction false} RunSafe(s: System, es: seq<Event>)
    requires Safe(s) && ShallowRun(s, es)
    ensures Safe(Run(s, es))
    decreases |es|
  {
    if es != [] {
      StepSafe(s, es[0]);
      RunSafe(Step(s, es[0]), es[1..]);
    }
  }

  /** rt_mutex_take returns RT_EOK to the owner and to nobody else, however
      many steps of other threads come between the wake-up and the return. */
  lemma {:induction false} ReturnTellsOwnership(s: System, es: seq<Event>, t: Thread, m: Name)
    requires Safe(s) && ShallowRun(s, es) && m in s.locks
    requires StatusOf(Run(s, es), t).Returning? && StatusOf(Run(s, es), t).from == m
    ensures m in Run(s, es).locks
    ensures StatusOf(Run(s, es), t).ok <==> Run(s, es).locks[m].owner == Some(t)
  {
    RunSafe(s, es);
    LocksStay(s, es);
    var r := Run(s, es);
    assert Agrees(r, m, t);
  }

  lemma {:induction false} LocksStay(s: System, es: seq<Event>)
    ensures Run(s, es).locks.Keys == s.locks.Keys
    decreases |es|
  {
    if es != [] { LocksStay(Step(s, es[0]), es[1..]); }
  }

  // ---------- priority inheritance ----------

  /** Threads hold one mutex at a time, and only a thread that has nothing to
      do with any mutex has its priority changed from outside. */
  ghost predicate Disciplined(s: System, e: Event) {
    match e
    case DoTake(t, m, time) => forall k <- s.locks :: k != m ==> s.locks[k].owner != Some(t)
    case DoSetPriority(t, p) => !StatusOf(s, t).Waiting? && forall k <- s.locks :: s.locks[k].owner != Some(t)
    case _ => true
  }

  ghost predicate DisciplinedRun(s: System, es: seq<Event>)
    decreases |es|
  {
    es != [] ==> Shallow(s, es[0]) && Disciplined(s, es[0]) && DisciplinedRun(Step(s, es[0]), es[1..])
  }

  ghost predicate Owns(s: System, t: Thread) {
    exists m <- s.locks :: s.locks[m].owner == Some(t)
  }

  ghost predicate LockFair(l: Lock, prio: Priorities, base: Priorities) {
    && (l.byPriority ==> Sorted(l.waiters, prio) && Urgent(l, prio))
    && (forall w <- l.waiters :: Of(prio, w) == Of(base, w))
    && (l.owner.Some? ==> l.original == Of(base, l.owner.value) && Of(prio, l.owner.value) <= l.original)
  }

  ghost predicate Party(l: Lock, t: Thread) {
    l.owner == Some(t) || t in l.waiters
  }

  /** `t` has nothing to do with any mutex other than `m`. */
  ghost predicate OnlyWith(s: System, m: Name, t: Thread) {
    forall k <- s.locks :: k != m ==> !Party(s.locks[k], t)
  }

  /** The inheritance invariant. */
  ghost predicate Fair(s: System) {
    && (forall m <- s.locks :: LockFair(s.locks[m], s.prio, s.base))
    && (forall m <- s.locks, k <- s.locks :: m != k ==> s.locks[m].owner.Some? ==> !Party(s.locks[k], s.locks[m].owner.value))
    && (forall m <- s.locks, k <- s.locks, t <- s.locks[m].waiters :: m != k ==> !Party(s.locks[k], t))
    && (forall t <- s.prio.Keys + s.base.Keys :: Of(s.prio, t) == Of(s.base, t) || Owns(s, t))
  }

  /** Blocking moves the owner to the more urgent of the two priorities, and
      no other thread's priority. */
  lemma {:induction false} BlockingBoosts(l: Lock, prio: Priorities, t: Thread, time: int)
    requires LockSafe(l) && l.owner.Some? && l.owner.value != t && time != 0
    ensures var after := Take(l, prio, t, time).1;
            && (forall u :: u != l.owner.value ==> Of(after, u) == Of(prio, u))
            && Of(after, l.owner.value) <= Of(prio, t)
            && Of(after, l.owner.value) <= Of(prio, l.owner.value)
            && (Of(after, l.owner.value) == Of(prio, t) || Of(after, l.owner.value) == Of(prio, l.owner.value))
  {
  }

  lemma {:induction false} LockFairFrame(l: Lock, prio: Priorities, base: Priorities, was: Priorities, wasBase: Priorities)
    requires LockFair(l, was, wasBase)
    requires forall w <- l.waiters :: Of(prio, w) == Of(was, w) && Of(base, w) == Of(wasBase, w)
    requires l.owner.Some? ==> Of(prio, l.owner.value) == Of(was, l.owner.value) && Of(base, l.owner.value) == Of(wasBase, l.owner.value)
    ensures LockFair(l, prio, base)
  {
    if l.byPriority { SortedFrame(l.waiters, prio, was); }
  }

  lemma {:induction false} TakeLockFair(l: Lock, prio: Priorities, base: Priorities, t: Thread, time: int)
    requires LockSafe(l) && LockFair(l, prio, base) && t !in l.waiters
    requires l.owner != Some(t) ==> Of(prio, t) == Of(base, t)
    ensures LockFair(Take(l, prio, t, time).0, Take(l, prio, t, time).1, base)
  {
    if l.value == 0 && l.owner != Some(t) && time != 0 {
      var after := Take(l, prio, t, time).1;
      if l.byPriority { SortedFrame(l.waiters, after, prio); }
      EnqueueGood(l.waiters, after, t, l.byPriority);
    }
  }

  lemma {:induction false} ReleaseLockFair(l: Lock, prio: Priorities, base: Priorities, t: Thread)
    requires LockSafe(l) && LockFair(l, prio, base) && l.owner == Some(t)
    ensures LockFair(Release(l, prio, t).0, Release(l, prio, t).1, base)
    ensures var (n, after) := Release(l, prio, t); n.owner == Some(t) || Of(after, t) == Of(base, t)
  {
    if l.hold == 1 && l.waiters != [] {
      var after := Release(l, prio, t).1;
      assert l.waiters == [l.waiters[0]] + l.waiters[1..];
      if l.byPriority { SortedFrame(l.waiters, after, prio); }
    }
  }

  /** A change to one mutex and to the priority of one thread that deals with
      that mutex alone keeps the invariant if it keeps it at that mutex. */
  lemma {:induction false} Lift(s: System, r: System, m: Name, x: Thread)
    requires Fair(s) && m in s.locks && m in r.locks && r.locks == s.locks[m := r.locks[m]] && r.base == s.base
    requires LockFair(r.locks[m], r.prio, r.base) && OnlyWith(s, m, x)
    requires forall u: Thread :: u != x ==> Of(r.prio, u) == Of(s.prio, u)
    requires forall u: Thread :: Party(r.locks[m], u) ==> OnlyWith(s, m, u)
    requires r.locks[m].owner == Some(x) || Of(r.prio, x) == Of(r.base, x)
    requires s.locks[m].owner.Some? ==> s.locks[m].owner == Some(x) || s.locks[m].owner == r.locks[m].owner
    ensures Fair(r)
  {
    hide Sorted;
    forall k <- r.locks ensures LockFair(r.locks[k], r.prio, r.base) {
      if k != m {
        assert !Party(s.locks[k], x);
        LockFairFrame(s.locks[k], r.prio, r.base, s.prio, s.base);
      }
    }
    forall j <- r.locks, k <- r.locks, u: Thread | j != k && Party(r.locks[j], u) ensures !Party(r.locks[k], u) {
      if j != m && k != m { assert Party(s.locks[j], u); }
    }
    forall j <- r.locks, k <- r.locks | j != k && r.locks[j].owner.Some? ensures !Party(r.locks[k], r.locks[j].owner.value) {
      assert Party(r.locks[j], r.locks[j].owner.value);
    }
    forall j <- r.locks, k <- r.locks, t <- r.locks[j].waiters | j != k ensures !Party(r.locks[k], t) {
      assert Party(r.locks[j], t);
    }
    forall u <- r.prio.Keys + r.base.Keys ensures Of(r.prio, u) == Of(r.base, u) || Owns(r, u) {
      Settled(s, u);
      if k :| k in s.locks && s.locks[k].owner == Some(u) {
        assert k in r.locks;
      }
      assert r.locks[m].owner == Some(u) ==> Owns(r, u);
    }
  }

  lemma {:induction false} Settled(s: System, t: Thread)
    requires Fair(s)
    ensures Of(s.prio, t) == Of(s.base, t) || Owns(s, t)
  {
    assert t in s.prio.Keys + s.base.Keys || (t !in s.prio && t !in s.base);
  }

  lemma {:induction false} TakeFair(s: System, t: Thread, m: Name, time: int)
    requires Safe(s) && Fair(s) && Disciplined(s, DoTake(t, m, time))
    ensures Fair(Step(s, DoTake(t, m, time)))
  {
    hide NoRepeats, Enqueue, Sorted, LockFair;
    var r := Step(s, DoTake(t, m, time));
    if StatusOf(s, t) == Running && m in s.locks {
      var l := s.locks[m];
      Idle(s, t);
      assert OnlyWith(s, m, t);
      if l.owner != Some(t) { NotOwning(s, m, t); }
      TakeLockFair(l, s.prio, s.base, t, time);
      forall u: Thread | Party(r.locks[m], u) ensures OnlyWith(s, m, u) {
        assert u == t || Party(l, u);
      }
      assert r.locks[m].owner.Some? ==> Party(r.locks[m], r.locks[m].owner.value);
      Lift(s, r, m, if r.locks[m].owner.Some? then r.locks[m].owner.value else t);
    }
  }

  lemma {:induction false} Idle(s: System, t: Thread)
    requires Safe(s) && !StatusOf(s, t).Waiting?
    ensures forall m <- s.locks :: t !in s.locks[m].waiters
  {
    forall m <- s.locks ensures t !in s.locks[m].waiters {
      if t in s.status { assert Agrees(s, m, t); }
    }
  }

  lemma {:induction false} NotOwning(s: System, m: Name, t: Thread)
    requires Fair(s) && m in s.locks && OnlyWith(s, m, t) && s.locks[m].owner != Some(t)
    ensures Of(s.prio, t) == Of(s.base, t)
  {
    assert !Owns(s, t);
    Settled(s, t);
  }

  lemma {:induction false} ReleaseFair(s: System, t: Thread, m: Name)
    requires Safe(s) && Fair(s)
    ensures Fair(Step(s, DoRelease(t, m)))
  {
    hide NoRepeats, Sorted, LockFair;
    var r := Step(s, DoRelease(t, m));
    if StatusOf(s, t) == Running && m in s.locks && s.locks[m].owner == Some(t) {
      ReleaseLockFair(s.locks[m], s.prio, s.base, t);
      forall u: Thread | Party(r.locks[m], u) ensures OnlyWith(s, m, u) {
        assert Party(s.locks[m], u);
      }
      Lift(s, r, m, t);
    }
  }

  lemma {:induction false} TimeoutFair(s: System, t: Thread)
    requires Safe(s) && Fair(s)
    ensures Fair(Step(s, DoTimeout(t)))
  {
    hide NoRepeats, Sorted;
    var st, r := StatusOf(s, t), Step(s, DoTimeout(t));
    if st.Waiting? && st.timed && st.on in s.locks {
      var m := st.on;
      DequeueGood(s.locks[m].waiters, s.prio, t);
      forall u: Thread | Party(r.locks[m], u) ensures OnlyWith(s, m, u) {
        assert Party(s.locks[m], u);
      }
      assert Agrees(s, m, t);
      Lift(s, r, m, t);
    }
  }

  lemma {:induction false} SetPriorityFair(s: System, t: Thread, p: int)
    requires Safe(s) && Fair(s) && Disciplined(s, DoSetPriority(t, p))
    ensures Fair(Step(s, DoSetPriority(t, p)))
  {
    hide NoRepeats, Sorted;
    var r := Step(s, DoSetPriority(t, p));
    Idle(s, t);
    forall k <- r.locks ensures LockFair(r.locks[k], r.prio, r.base) {
      LockFairFrame(s.locks[k], r.prio, r.base, s.prio, s.base);
    }
    forall u <- r.prio.Keys + r.base.Keys ensures Of(r.prio, u) == Of(r.base, u) || Owns(r, u) {
      Settled(s, u);
      if k :| k in s.locks && s.locks[k].owner == Some(u) {
        assert k in r.locks;
      }
    }
  }

  lemma {:induction false} StepFair(s: System, e: Event)
    requires Safe(s) && Fair(s) && Disciplined(s, e)
    ensures Fair(Step(s, e))
  {
    match e
    case DoTake(t, m, time) => TakeFair(s, t, m, time);
    case DoRelease(t, m) => ReleaseFair(s, t, m);
    case DoTimeout(t) => TimeoutFair(s, t);
    case DoReturn(t) =>
      var r := Step(s, e);
      assert forall u <- s.prio :: Owns(s, u) ==> Owns(r, u);
      assert forall u <- s.base :: Owns(s, u) ==> Owns(r, u);
    case DoSetPriority(t, p) => SetPriorityFair(s, t, p);
  }

  /** Over every disciplined run the owner of a mutex with a priority queue is
      at least as urgent as everyone waiting for it. */
  lemma {:induction false} RunFair(s: System, es: seq<Event>)
    requires Safe(s) && Fair(s) && DisciplinedRun(s, es)
    ensures Safe(Run(s, es)) && Fair(Run(s, es))
    ensures forall m <- Run(s, es).locks :: Run(s, es).locks[m].byPriority ==> Urgent(Run(s, es).locks[m], Run(s, es).prio)
    decreases |es|
  {
    hide Safe, Fair, Step;
    if es != [] {
      StepSafe(s, es[0]);
      StepFair(s, es[0]);
      RunFair(Step(s, es[0]), es[1..]);
    } else {
      FairIsUrgent(s);
    }
  }

  lemma {:induction false} FairIsUrgent(s: System)
    requires Fair(s)
    ensures forall m <- s.locks :: s.locks[m].byPriority ==> Urgent(s.locks[m], s.prio)
  {
  }

  lemma {:induction false} BaseKept(s: System, es: seq<Event>, t: Thread)
    requires forall e <- es :: !(e.DoSetPriority? && e.t == t)
    ensures Of(Run(s, es).base, t) == Of(s.base, t)
    decreases |es|
  {
    if es != [] {
      assert es[0] in es;
      assert forall e <- es[1..] :: e in es;
      BaseKept(Step(s, es[0]), es[1..], t);
    }
  }

  /** Over disciplined runs, with queues of either kind: whatever a thread
      takes, blocks on and releases, whenever it owns nothing its priority is
      the one it started with. */
  lemma {:induction false} PriorityRestored(s: System, es: seq<Event>, t: Thread)
    requires Safe(s) && Fair(s) && DisciplinedRun(s, es)
    requires forall e <- es :: !(e.DoSetPriority? && e.t == t)
    requires !Owns(s, t) && !Owns(Run(s, es), t)
    ensures Of(Run(s, es).prio, t) == Of(s.prio, t)
  {
    RunFair(s, es);
    BaseKept(s, es, t);
    Settled(s, t);
    Settled(Run(s, es), t);
  }

  // ---------- the final release, in any run ----------

  /** A step that makes `t` the owner: its own take of a free mutex, or a
      release that hands over to it. */
  ghost predicate Acquires(s: System, e: Event, m: Name, t: Thread) {
    && m in s.locks && s.locks[m].owner != Some(t)
    && m in Step(s, e).locks && Step(s, e).locks[m].owner == Some(t)
  }

  /** `t` owns the mutex throughout the run. */
  ghost predicate Keeps(s: System, es: seq<Event>, m: Name, t: Thread)
    decreases |es|
  {
    && m in s.locks && s.locks[m].owner == Some(t)
    && (es != [] ==> Keeps(Step(s, es[0]), es[1..], m, t))
  }

  lemma {:induction false} AcquiredAt(s: System, e: Event, m: Name, t: Thread)
    requires Safe(s) && Acquires(s, e, m, t)
    ensures Step(s, e).locks[m].original == Of(s.prio, t)
    ensures e.DoTake? || e.DoRelease?
  {
    if e.DoRelease? {
      assert LockSafe(s.locks[m]);
      assert s.locks[m].waiters != [] ==> s.locks[m].waiters[0] in s.locks[m].waiters;
    }
  }

  lemma {:induction false} OriginalKept(s: System, es: seq<Event>, m: Name, t: Thread)
    requires Safe(s) && ShallowRun(s, es) && Keeps(s, es, m, t)
    ensures m in Run(s, es).locks && Run(s, es).locks[m].owner == Some(t)
    ensures Run(s, es).locks[m].original == s.locks[m].original
    decreases |es|
  {
    hide Shallow;
    if es != [] {
      StepSafe(s, es[0]);
      OriginalKept(Step(s, es[0]), es[1..], m, t);
      assert LockSafe(s.locks[m]);
      assert s.locks[m].waiters != [] ==> s.locks[m].waiters[0] in s.locks[m].waiters;
    }
  }

  /** For mutexes of either kind and any nesting: the final release gives a
      thread back exactly the priority it had when it became the owner. */
  lemma {:induction false} ReleaseRestores(s: System, e: Event, es: seq<Event>, m: Name, t: Thread)
    requires Safe(s) && Shallow(s, e) && Acquires(s, e, m, t)
    requires ShallowRun(Step(s, e), es) && Keeps(Step(s, e), es, m, t)
    requires m in Run(Step(s, e), es).locks && Run(Step(s, e), es).locks[m].hold == 1
    requires StatusOf(Run(Step(s, e), es), t) == Running
    ensures var r := Step(Run(Step(s, e), es), DoRelease(t, m));
            Of(r.prio, t) == Of(s.prio, t) && r.locks[m].owner != Some(t)
  {
    hide Safe, Keeps, Shallow, ShallowRun;
    AcquiredAt(s, e, m, t);
    StepSafe(s, e);
    OriginalKept(Step(s, e), es, m, t);
    RunSafe(Step(s, e), es);
    SafeLock(Run(Step(s, e), es), m);
  }

  lemma {:induction false} SafeLock(s: System, m: Name)
    requires Safe(s) && m in s.locks
    ensures LockSafe(s.locks[m])
    ensures s.locks[m].waiters != [] && s.locks[m].owner.Some? ==> s.locks[m].owner.value != s.locks[m].waiters[0]
  {
    assert s.locks[m].waiters != [] ==> s.locks[m].waiters[0] in s.locks[m].waiters;
  }

  /** So a boost outlives its cause if and only if the mutex that is released
      last was acquired under it. */
  lemma {:induction false} BoostLeftIff(s: System, e: Event, es: seq<Event>, m: Name, t: Thread)
    requires Safe(s) && Shallow(s, e) && Acquires(s, e, m, t)
    requires ShallowRun(Step(s, e), es) && Keeps(Step(s, e), es, m, t)
    requires m in Run(Step(s, e), es).locks && Run(Step(s, e), es).locks[m].hold == 1
    requires StatusOf(Run(Step(s, e), es), t) == Running
    requires forall x <- es :: !(x.DoSetPriority? && x.t == t)
    ensures var r := Step(Run(Step(s, e), es), DoRelease(t, m));
            Of(r.prio, t) == Of(r.base, t) <==> Of(s.prio, t) == Of(s.base, t)
  {
    hide Safe, Keeps, Shallow, ShallowRun, Acquires;
    ReleaseRestores(s, e, es, m, t);
    AcquiredAt(s, e, m, t);
    BaseKept(Step(s, e), es, t);
  }

  // ---------- what the calls answer ----------

  /** rt_mutex_take: granted, one deeper, if the mutex is free or the caller's
      own, whatever the timeout; otherwise refused at once if the timeout is
      zero, and else the caller waits, with an end to it only if the timeout is
      positive. No other mutex and no other thread's state changes. */
  lemma {:induction false} TakeAnswers(s: System, t: Thread, m: Name, time: int)
    requires Safe(s) && StatusOf(s, t) == Running && m in s.locks && Shallow(s, DoTake(t, m, time))
    ensures var r := Step(s, DoTake(t, m, time));
            var l, st, granted := s.locks[m], StatusOf(r, t), s.locks[m].owner == None || s.locks[m].owner == Some(t);
            && (st == Returning(m, true) <==> granted)
            && (st == Returning(m, false) <==> !granted && time == 0)
            && (st == Waiting(m, time > 0) <==> !granted && time != 0)
            && r.locks.Keys == s.locks.Keys && (forall k <- s.locks :: k != m ==> r.locks[k] == s.locks[k])
            && (granted ==> r.locks[m].owner == Some(t) && r.locks[m].hold == l.hold + 1 && r.locks[m].waiters == l.waiters)
            && (!granted ==> r.locks[m] == l.(waiters := r.locks[m].waiters) && (time == 0 ==> r.locks[m] == l))
            && (!granted && time != 0 ==> |r.locks[m].waiters| == |l.waiters| + 1 && forall u: Thread :: u in r.locks[m].waiters <==> u == t || u in l.waiters)
            && (forall u: Thread :: u != t ==> StatusOf(r, u) == StatusOf(s, u))
  {
    assert LockSafe(s.locks[m]);
  }

  /** rt_mutex_release by the owner: one level less; at the last one the mutex
      goes to the waiter in front, who is woken with it, or becomes free. By
      anyone else: nothing changes. */
  lemma {:induction false} ReleaseAnswers(s: System, t: Thread, m: Name)
    requires Safe(s) && StatusOf(s, t) == Running && m in s.locks
    ensures var r := Step(s, DoRelease(t, m));
            var l, q := s.locks[m], s.locks[m].waiters;
            && (l.owner != Some(t) ==> r == s)
            && r.locks.Keys == s.locks.Keys && (forall k <- s.locks :: k != m ==> r.locks[k] == s.locks[k])
            && (l.owner == Some(t) && l.hold > 1 ==> r.locks[m] == l.(hold := r.locks[m].hold) && r.locks[m].hold + 1 == l.hold)
            && (l.owner == Some(t) && l.hold == 1 && q == [] ==> r.locks[m] == Lock(l.byPriority, 1, None, NOBODY, 0, []))
            && (l.owner == Some(t) && l.hold == 1 && q != [] ==>
                  && r.locks[m].owner == Some(q[0]) && r.locks[m].hold == 1 && [q[0]] + r.locks[m].waiters == q
                  && StatusOf(r, q[0]) == Returning(m, true))
            && (forall u: Thread :: StatusOf(r, u) != StatusOf(s, u) ==> l.owner == Some(t) && l.hold == 1 && q != [] && u == q[0])
  {
    SafeLock(s, m);
  }

  /** A wait with a timeout can end with an error at any time, one without ends
      only with the mutex; and a call that is over returns. */
  lemma {:induction false} WaitEnds(s: System, t: Thread)
    requires Safe(s) && (StatusOf(s, t).Waiting? ==> StatusOf(s, t).on in s.locks)
    ensures var r, st := Step(s, DoTimeout(t)), StatusOf(s, t);
            && (st.Waiting? && st.timed ==>
                  && StatusOf(r, t) == Returning(st.on, false) && t !in r.locks[st.on].waiters
                  && r == s.(locks := r.locks, status := r.status) && r.locks.Keys == s.locks.Keys
                  && forall k <- s.locks :: r.locks[k] == s.locks[k].(waiters := r.locks[k].waiters)
                       && forall u: Thread :: u != t ==> (u in r.locks[k].waiters <==> u in s.locks[k].waiters))
            && (!(st.Waiting? && st.timed) ==> r == s)
            && (forall u: Thread :: u != t ==> StatusOf(r, u) == StatusOf(s, u))
    ensures StatusOf(Step(s, DoReturn(t)), t) == if StatusOf(s, t).Returning? then Running else StatusOf(s, t)
  {
    var st := StatusOf(s, t);
    if st.Waiting? && st.timed {
      assert LockSafe(s.locks[st.on]);
      DequeueGood(s.locks[st.on].waiters, s.prio, t);
    }
  }

  /** Takes of `m` by `t` in a run, less its releases: calls it makes while
      another call keeps it waiting are none. */
  function Depth(s: System, es: seq<Event>, m: Name, t: Thread): int
    decreases |es|
  {
    if es == [] then 0 else
      var here := if StatusOf(s, t) != Running then 0
                  else if es[0].DoTake? && es[0].t == t && es[0].m == m then 1
                  else if es[0].DoRelease? && es[0].t == t && es[0].m == m then -1 else 0;
      here + Depth(Step(s, es[0]), es[1..], m, t)
  }

  /** While a thread keeps a mutex, `hold` is what it was and the takes since
      then less the releases. */
  lemma {:induction false} HoldCounts(s: System, es: seq<Event>, m: Name, t: Thread)
    requires Safe(s) && ShallowRun(s, es) && Keeps(s, es, m, t)
    ensures m in Run(s, es).locks && Run(s, es).locks[m].owner == Some(t)
    ensures Run(s, es).locks[m].hold == s.locks[m].hold + Depth(s, es, m, t)
    decreases |es|
  {
    hide Shallow, Safe, Step;
    if es != [] {
      StepSafe(s, es[0]);
      HoldCounts(Step(s, es[0]), es[1..], m, t);
      HoldStep(s, es[0], m, t);
    }
  }

  lemma {:induction false} HoldStep(s: System, e: Event, m: Name, t: Thread)
    requires Safe(s) && Shallow(s, e) && m in s.locks && s.locks[m].owner == Some(t)
    requires m in Step(s, e).locks && Step(s, e).locks[m].owner == Some(t)
    ensures Step(s, e).locks[m].hold == s.locks[m].hold +
            if StatusOf(s, t) != Running then 0
            else if e.DoTake? && e.t == t && e.m == m then 1
            else if e.DoRelease? && e.t == t && e.m == m then -1 else 0
  {
    SafeLock(s, m);
  }

  /** So a release ends the ownership if and only if it is the one that makes
      the releases as many as the takes, the one that acquired the mutex or was
      handed it among them. */
  lemma {:induction false} LastReleaseFrees(s: System, e: Event, es: seq<Event>, m: Name, t: Thread)
    requires Safe(s) && Shallow(s, e) && Acquires(s, e, m, t)
    requires ShallowRun(Step(s, e), es) && Keeps(Step(s, e), es, m, t)
    requires StatusOf(Run(Step(s, e), es), t) == Running
    ensures var now := Run(Step(s, e), es);
            && m in now.locks && now.locks[m].hold == 1 + Depth(Step(s, e), es, m, t)
            && (Step(now, DoRelease(t, m)).locks[m].owner != Some(t) <==> Depth(Step(s, e), es + [DoRelease(t, m)], m, t) == -1)
  {
    hide Safe, Keeps, Shallow, ShallowRun;
    var was := Step(s, e);
    AcquiredHold(s, e, m, t);
    StepSafe(s, e);
    HoldCounts(was, es, m, t);
    DepthSnoc(was, es, DoRelease(t, m), m, t);
    RunSafe(was, es);
    SafeLock(Run(was, es), m);
  }

  lemma {:induction false} AcquiredHold(s: System, e: Event, m: Name, t: Thread)
    requires Safe(s) && Acquires(s, e, m, t)
    ensures Step(s, e).locks[m].hold == 1
  {
    SafeLock(s, m);
  }

  lemma {:induction false} DepthSnoc(s: System, es: seq<Event>, e: Event, m: Name, t: Thread)
    ensures Depth(s, es + [e], m, t) == Depth(s, es, m, t) + Depth(Run(s, es), [e], m, t)
    decreases |es|
  {
    hide Step;
    if es == [] {
      assert es + [e] == [e];
    } else {
      assert (es + [e])[1..] == es[1..] + [e] && (es + [e])[0] == es[0];
      DepthSnoc(Step(s, es[0]), es[1..], e, m, t);
    }
  }

  /** Mutexes just made by rt_mutex_init, and threads nobody has boosted. */
  ghost predicate Initial(s: System) {
    && (forall m <- s.locks :: s.locks[m] == Lock(s.locks[m].byPriority, 1, None, NOBODY, 0, []))
    && (forall t <- s.status :: s.status[t] == Running)
    && s.prio == s.base
  }

  lemma {:induction false} InitialGood(s: System)
    requires Initial(s)
    ensures Safe(s) && Fair(s)
  {
  }

  /** Without the discipline a boost can outlive its cause: a thread boosted
      through one mutex takes a second, gives back the first and then the
      second, and ends owning nothing at the priority of its old waiter. */
  lemma {:induction false} NestingLeaksBoost(t: Thread, u: Thread)
    requires t != u
    ensures var free := Lock(true, 1, None, NOBODY, 0, []);
            var s := System(map[0 := free, 1 := free], map[t := 10, u := 5], map[t := 10, u := 5], map[]);
            var taken := Step(Step(s, DoTake(t, 0, -1)), DoReturn(t));
            var nested := Step(Step(Step(taken, DoTake(u, 0, -1)), DoTake(t, 1, -1)), DoReturn(t));
            var r := Step(Step(nested, DoRelease(t, 0)), DoRelease(t, 1));
            Initial(s) && !Owns(r, t) && Of(r.base, t) == 10 && Of(r.prio, t) == 5
  {
    hide Step;
    NestingBoosts(t, u);
    NestingLeaves(t, u);
  }

  /** Both mutexes taken, the second at the inherited priority. */
  function Nested(t: Thread, u: Thread): System {
    System(map[0 := Lock(true, 0, Some(t), 10, 1, [u]), 1 := Lock(true, 0, Some(t), 5, 1, [])],
           map[t := 5, u := 5], map[t := 10, u := 5], map[t := Running, u := Waiting(0, false)])
  }

  lemma {:induction false} NestingBoosts(t: Thread, u: Thread)
    requires t != u
    ensures var free := Lock(true, 1, None, NOBODY, 0, []);
            var s := System(map[0 := free, 1 := free], map[t := 10, u := 5], map[t := 10, u := 5], map[]);
            var taken := Step(Step(s, DoTake(t, 0, -1)), DoReturn(t));
            Initial(s) && Step(Step(Step(taken, DoTake(u, 0, -1)), DoTake(t, 1, -1)), DoReturn(t)) == Nested(t, u)
  {
    hide Step;
    FirstTaken(t, u);
    ThenBlocked(t, u);
    SecondTaken(t, u);
  }

  lemma {:induction false} FirstTaken(t: Thread, u: Thread)
    requires t != u
    ensures var free := Lock(true, 1, None, NOBODY, 0, []);
            var s := System(map[0 := free, 1 := free], map[t := 10, u := 5], map[t := 10, u := 5], map[]);
            && Initial(s)
            && Step(Step(s, DoTake(t, 0, -1)), DoReturn(t)) ==
               System(map[0 := Lock(true, 0, Some(t), 10, 1, []), 1 := free], s.prio, s.base, map[t := Running])
  {
  }

  lemma {:induction false} ThenBlocked(t: Thread, u: Thread)
    requires t != u
    ensures var free, held := Lock(true, 1, None, NOBODY, 0, []), Lock(true, 0, Some(t), 10, 1, []);
            var base := map[t := 10, u := 5];
            Step(System(map[0 := held, 1 := free], base, base, map[t := Running]), DoTake(u, 0, -1)) ==
            System(map[0 := held.(waiters := [u]), 1 := free], map[t := 5, u := 5], base,
                   map[t := Running, u := Waiting(0, false)])
  {
  }

  lemma {:induction false} SecondTaken(t: Thread, u: Thread)
    requires t != u
    ensures var free, held := Lock(true, 1, None, NOBODY, 0, []), Lock(true, 0, Some(t), 10, 1, [u]);
            var s := System(map[0 := held, 1 := free], map[t := 5, u := 5], map[t := 10, u := 5],
                            map[t := Running, u := Waiting(0, false)]);
            Step(Step(s, DoTake(t, 1, -1)), DoReturn(t)) == Nested(t, u)
  {
  }

  lemma {:induction false} NestingLeaves(t: Thread, u: Thread)
    requires t != u
    ensures var r := Step(Step(Nested(t, u), DoRelease(t, 0)), DoRelease(t, 1));
            !Owns(r, t) && Of(r.base, t) == 10 && Of(r.prio, t) == 5
  {
    assert [u][1..] == [];
    var given := Step(Nested(t, u), DoRelease(t, 0));
    assert given == System(map[0 := Lock(true, 0, Some(u), 5, 1, []), 1 := Lock(true, 0, Some(t), 5, 1, [])],
                           map[t := 10, u := 5], map[t := 10, u := 5], map[t := Running, u := Returning(0, true)]);
    var r := Step(given, DoRelease(t, 1));
    assert r.locks[1].owner == None && r.locks[0].owner == Some(u);
  }
}
