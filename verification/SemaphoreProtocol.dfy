/**
  Counting semaphores (ipc.c): what a release gives and what takes get balance
  over every interleaving, and each blocked take ends in exactly one way.
*/
module SemaphoreProtocol {
  import opened ThreadObject
  import opened WaitQueue

  const LIMIT := 0x1_0000 // value is a 16-bit count

  datatype Status = Idle | Waiting(timeout: int) | Woken(error: int)

  /** The counters record what happened; nothing reads them. */
  datatype System = System(
    value: int, byPriority: bool, waiters: Queue, prio: Priorities, status: map<Thread, Status>,
    released: nat, taken: nat, blocked: nat, handed: nat, expired: nat)

  function StatusOf(status: map<Thread, Status>, t: Thread): Status {
    if t in status then status[t] else Idle
  }

  datatype Event =
    | DoTake(t: Thread, time: int)
    | DoRelease
    | DoTimeout(t: Thread)
    | DoReturn(t: Thread)

  datatype Outcome = Got | Refused | Blocks

  /** rt_sem_take up to the point where a blocked thread is switched out. */
  function Take(value: int, waiters: Queue, prio: Priorities, byPriority: bool, t: Thread, time: int): (int, Queue, Outcome) {
    if value > 0 then (value - 1, waiters, Got)
    else if time == 0 then (value, waiters, Refused)
    else (value, Enqueue(waiters, prio, t, byPriority), Blocks)
  }

  /** rt_sem_release: to the first waiter, or into the count. */
  function Release(value: int, waiters: Queue): (int, Queue) {
    if waiters != [] then (value, waiters[1..]) else ((value + 1) % LIMIT, waiters)
  }

  function Step(s: System, e: Event): System {
    match e
    case DoTake(t, time) =>
      if StatusOf(s.status, t) != Idle then s else
        var (v, q, out) := Take(s.value, s.waiters, s.prio, s.byPriority, t, time);
        (match out
         case Got => s.(value := v, taken := s.taken + 1)
         case Refused => s
         case Blocks => s.(waiters := q, blocked := s.blocked + 1, status := s.status[t := Waiting(time)]))
    case DoRelease =>
      var (v, q) := Release(s.value, s.waiters);
      var handed := s.waiters != [];
      s.(value := v, waiters := q, released := s.released + 1,
         taken := if handed then s.taken + 1 else s.taken, handed := if handed then s.handed + 1 else s.handed,
         status := if handed then s.status[s.waiters[0] := Woken(EOK)] else s.status)
    case DoTimeout(t) =>
      var st := StatusOf(s.status, t);
      if st.Waiting? && st.timeout > 0 then
        s.(waiters := Dequeue(s.waiters, t), expired := s.expired + 1, status := s.status[t := Woken(ETIMEOUT)])
      else s
    case DoReturn(t) => if StatusOf(s.status, t).Woken? then s.(status := s.status[t := Idle]) else s
  }

  function Run(s: System, es: seq<Event>): System
    decreases |es|
  {
    if es == [] then s else Run(Step(s, es[0]), es[1..])
  }

  ghost predicate Good(s: System, initial: int) {
    && 0 <= s.value < LIMIT
    && (s.value > 0 ==> s.waiters == [])
    && NoRepeats(s.waiters)
    && (forall t <- s.waiters :: t in s.status)
    && (forall t <- s.status :: t in s.waiters <==> s.status[t].Waiting?)
    && initial + s.released == s.value + s.taken
    && s.blocked == s.handed + s.expired + |s.waiters|
  }

  /** A release that would lift the count over its 16 bits. */
  predicate Overflows(s: System, e: Event) {
    e.DoRelease? && s.waiters == [] && s.value == LIMIT - 1
  }

  ghost predicate NeverOverflows(s: System, es: seq<Event>)
    decreases |es|
  {
    es != [] ==> !Overflows(s, es[0]) && NeverOverflows(Step(s, es[0]), es[1..])
  }

  lemma {:induction false} DequeueOne(q: Queue, t: Thread)
    requires t in q
    ensures |Dequeue(q, t)| == |q| - 1
  {
    if q[0] != t { DequeueOne(q[1..], t); }
  }

  /** A step keeps the balance if and only if it does not overflow the count. */
  lemma {:induction false} StepGoodIff(s: System, e: Event, initial: int)
    requires Good(s, initial)
    ensures Good(Step(s, e), initial) <==> !Overflows(s, e)
  {
    hide NoRepeats, Enqueue, Dequeue;
    match e
    case DoTake(t, time) =>
      if StatusOf(s.status, t) == Idle { EnqueueGood(s.waiters, s.prio, t, s.byPriority); }
    case DoRelease =>
      if s.waiters != [] { HeadOut(s.waiters); }
    case DoTimeout(t) =>
      var st := StatusOf(s.status, t);
      DequeueGood(s.waiters, s.prio, t);
      if st.Waiting? { DequeueOne(s.waiters, t); }
    case DoReturn(t) =>
  }

  lemma HeadOut(q: Queue)
    requires q != [] && NoRepeats(q)
    ensures NoRepeats(q[1..]) && (forall t <- q :: t in q[1..] <==> t != q[0]) && forall t <- q[1..] :: t in q
  {
    assert q == [q[0]] + q[1..];
  }

  /** A semaphore just made by rt_sem_init, with nobody at it. */
  ghost predicate Initial(s: System, value: int) {
    && s.value == value && s.waiters == []
    && s.released == s.taken == s.blocked == s.handed == s.expired == 0
    && forall t <- s.status :: s.status[t] == Idle
  }

  lemma {:induction false} InitialGood(s: System, value: int)
    requires Initial(s, value) && 0 <= value < LIMIT
    ensures Good(s, value)
  {
  }

  /** Over every run below the 16-bit limit: the initial value and the releases
      are the present value and the takes granted; a positive value means that
      nobody waits; and every blocked take was handed the semaphore, or timed
      out, or still waits. */
  lemma {:induction false} RunBalances(s: System, es: seq<Event>, initial: int)
    requires Good(s, initial) && NeverOverflows(s, es)
    ensures Good(Run(s, es), initial)
    decreases |es|
  {
    hide Good, Step;
    if es != [] {
      StepGoodIff(s, es[0], initial);
      RunBalances(Step(s, es[0]), es[1..], initial);
    }
  }

  // ---------- what the calls answer ----------

  /** rt_sem_take: granted while the count is positive, whatever the timeout;
      otherwise refused at once, with nothing changed, if the timeout is zero,
      and else the caller is one more waiter. */
  lemma {:induction false} TakeAnswers(s: System, t: Thread, time: int, initial: int)
    requires Good(s, initial) && StatusOf(s.status, t) == Idle
    ensures var r := Step(s, DoTake(t, time));
            && (r.taken == s.taken + 1 <==> s.value > 0)
            && (s.value > 0 ==> r.value + 1 == s.value && r == s.(value := r.value, taken := r.taken))
            && (s.value == 0 && time == 0 ==> r == s)
            && (s.value == 0 && time != 0 ==>
                  && r == s.(waiters := r.waiters, blocked := s.blocked + 1, status := s.status[t := Waiting(time)])
                  && |r.waiters| == |s.waiters| + 1 && forall u: Thread :: u in r.waiters <==> u == t || u in s.waiters)
  {
  }

  /** rt_sem_release: the waiter in front is woken with the semaphore; with no
      waiter the count rises. */
  lemma {:induction false} ReleaseAnswers(s: System, initial: int)
    requires Good(s, initial) && !Overflows(s, DoRelease)
    ensures var r := Step(s, DoRelease);
            && r.released == s.released + 1
            && (s.waiters != [] ==>
                  && [s.waiters[0]] + r.waiters == s.waiters && r.value == s.value && r.handed == s.handed + 1
                  && r.status == s.status[s.waiters[0] := Woken(EOK)])
            && (s.waiters == [] ==> r.waiters == [] && r.value == s.value + 1 && r.status == s.status)
  {
  }

  /** A wait with a timeout can end in an error at any time, one without cannot;
      a call that is over returns. */
  lemma {:induction false} WaitEnds(s: System, t: Thread, initial: int)
    requires Good(s, initial)
    ensures var r, st := Step(s, DoTimeout(t)), StatusOf(s.status, t);
            && (st.Waiting? && st.timeout > 0 ==>
                  && r == s.(waiters := r.waiters, expired := s.expired + 1, status := s.status[t := Woken(ETIMEOUT)])
                  && forall u: Thread :: u in r.waiters <==> u != t && u in s.waiters)
            && (!(st.Waiting? && st.timeout > 0) ==> r == s)
    ensures var r := Step(s, DoReturn(t));
            && StatusOf(r.status, t) == (if StatusOf(s.status, t).Woken? then Idle else StatusOf(s.status, t))
            && r == s.(status := r.status) && forall u: Thread :: u != t ==> StatusOf(r.status, u) == StatusOf(s.status, u)
  {
    DequeueGood(s.waiters, s.prio, t);
  }

  /** A run is its first part and then the rest. */
  lemma {:induction false} RunConcat(s: System, es: seq<Event>, more: seq<Event>)
    ensures Run(s, es + more) == Run(Run(s, es), more)
    ensures forall e :: Run(s, [e]) == Step(s, e)
    decreases |es|
  {
    hide Step;
    OneStep(s);
    if es == [] {
      assert es + more == more;
    } else {
      assert (es + more)[0] == es[0] && (es + more)[1..] == es[1..] + more;
      RunConcat(Step(s, es[0]), es[1..], more);
    }
  }

  lemma OneStep(s: System)
    ensures forall e :: Run(s, [e]) == Step(s, e)
  {
    hide Step;
    forall e: Event ensures Run(s, [e]) == Step(s, e) {
      assert [e][1..] == [];
    }
  }
}
