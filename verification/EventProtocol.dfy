/**
  Event sets (ipc.c): threads wait for all or any of some bits, a send wakes
  every thread whose wait it ends, and a waiter may clear the bits it receives
  while the send is still walking the queue.
*/
module EventProtocol {
  import opened ThreadObject
  import opened WaitQueue

  type Bits = set<nat>
  type Asks = map<Thread, Ask>

  function AskOf(asks: Asks, t: Thread): Ask {
    if t in asks then asks[t] else Ask({}, false, false, false)
  }

  /** "All" is looked at first, and a wait for neither never ends. */
  predicate Satisfied(events: Bits, a: Ask) {
    if a.all then events * a.bits == a.bits else a.any && events * a.bits != {}
  }

  /** What a satisfied waiter receives in rt_event_send, where a wait for any
      bit is narrowed to the bits that are there. */
  function Received(events: Bits, a: Ask): Bits {
    if a.all then a.bits else events * a.bits
  }

  function Cleared(events: Bits, a: Ask, bits: Bits): Bits {
    if a.clear then events - bits else events
  }

  // ---------- one send ----------

  datatype Swept = Swept(events: Bits, waiters: Queue, asks: Asks)

  /** The walk of rt_event_send along the queue. */
  function Sweep(events: Bits, q: Queue, asks: Asks): Swept {
    if q == [] then Swept(events, [], asks) else
      var t, a := q[0], AskOf(asks, q[0]);
      if Satisfied(events, a) then
        var got := Received(events, a);
        Sweep(Cleared(events, a, got), q[1..], asks[t := a.(bits := got)])
      else
        var r := Sweep(events, q[1..], asks);
        r.(waiters := [t] + r.waiters)
  }

  /** rt_event_recv as far as it does not wait: the bits received and the
      events left. */
  function Receive(events: Bits, a: Ask): Option<(Bits, Bits)> {
    if Satisfied(events, a) then Some((events * a.bits, Cleared(events, a, a.bits))) else None
  }

  /** Every waiter in turn calls rt_event_recv again. */
  function Retry(events: Bits, q: Queue, asks: Asks): Swept {
    if q == [] then Swept(events, [], asks) else
      var t, a := q[0], AskOf(asks, q[0]);
      match Receive(events, a)
      case Some(r) => Retry(r.1, q[1..], asks[t := a.(bits := r.0)])
      case None =>
        var r := Retry(events, q[1..], asks);
        r.(waiters := [t] + r.waiters)
  }

  /** When rt_event_recv is granted, and what it gets: a wait for all bits when
      all are there, a wait for any when one is; it gets those of its bits that
      are there, and a clearing one takes out just those. */
  lemma {:induction false} ReceiveAnswers(events: Bits, a: Ask)
    requires a.bits != {}
    ensures Receive(events, a).Some? <==> (a.all && a.bits <= events) || (!a.all && a.any && exists b <- a.bits :: b in events)
    ensures Receive(events, a).Some? ==>
              var (got, left) := Receive(events, a).value;
              && (forall b :: b in got <==> b in a.bits && b in events)
              && (forall b :: b in left <==> b in events && !(a.clear && b in got))
  {
    assert events * a.bits == a.bits <==> a.bits <= events;
    if b :| b in a.bits && b in events {
      assert b in events * a.bits;
    }
  }

  /** Waking with the bits in hand is the same as letting every waiter look
      again, in queue order: nobody gets more, less, or anything else, and the
      same events are left. */
  lemma {:induction false} SendIsRetry(events: Bits, q: Queue, asks: Asks)
    ensures Sweep(events, q, asks) == Retry(events, q, asks)
  {
    if q != [] {
      var a := AskOf(asks, q[0]);
      if Satisfied(events, a) {
        var got := Received(events, a);
        assert got == events * a.bits;
        assert Cleared(events, a, got) == Cleared(events, a, a.bits);
        SendIsRetry(Cleared(events, a, got), q[1..], asks[q[0] := a.(bits := got)]);
      } else {
        SendIsRetry(events, q[1..], asks);
      }
    }
  }

  /** A lone waiter woken by a send and a thread that calls rt_event_recv right
      after it receive the same bits and leave the same events. */
  lemma {:induction false} LoneWaiter(events: Bits, t: Thread, asks: Asks)
    ensures var r := Sweep(events, [t], asks);
            var a := AskOf(asks, t);
            match Receive(events, a)
            case Some(p) => r == Swept(p.1, [], asks[t := a.(bits := p.0)])
            case None => r == Swept(events, [t], asks)
  {
    SendIsRetry(events, [t], asks);
    assert [t][1..] == [];
  }

  /** Some bit is missing from a wait for all, and every bit from a wait for
      any. */
  ghost predicate Short(events: Bits, a: Ask) {
    && (a.all ==> !(a.bits <= events))
    && (!a.all && a.any ==> a.bits * events == {})
  }

  lemma {:induction false} ShortIff(events: Bits, a: Ask)
    ensures Short(events, a) <==> !Satisfied(events, a)
  {
    assert events * a.bits == a.bits <==> a.bits <= events;
    assert events * a.bits == a.bits * events;
  }

  /** After a send whoever still waits lacks a bit of its wait for all, or every
      bit of its wait for any, although the set shrinks while the queue is
      walked. */
  lemma {:induction false} SweepLeavesNobody(events: Bits, q: Queue, asks: Asks)
    requires NoRepeats(q)
    ensures var r := Sweep(events, q, asks);
            && r.events <= events
            && NoRepeats(r.waiters) && r.asks.Keys <= asks.Keys + (set t | t in q)
            && (forall t <- r.waiters :: t in q && AskOf(r.asks, t) == AskOf(asks, t) && Short(r.events, AskOf(asks, t)))
            && (forall t: Thread :: t !in q ==> AskOf(r.asks, t) == AskOf(asks, t))
  {
    hide Satisfied, Short, NoRepeats;
    SweepLeaves(events, q, asks);
    var r := Sweep(events, q, asks);
    forall t <- r.waiters ensures Short(r.events, AskOf(asks, t)) {
      ShortIff(r.events, AskOf(asks, t));
    }
  }

  lemma {:induction false} SweepLeaves(events: Bits, q: Queue, asks: Asks)
    requires NoRepeats(q)
    ensures var r := Sweep(events, q, asks);
            && r.events <= events
            && NoRepeats(r.waiters) && r.asks.Keys <= asks.Keys + (set t | t in q)
            && (forall t <- r.waiters :: t in q && AskOf(r.asks, t) == AskOf(asks, t) && !Satisfied(r.events, AskOf(asks, t)))
            && (forall t: Thread :: t !in q ==> AskOf(r.asks, t) == AskOf(asks, t))
  {
    if q != [] {
      var t, a := q[0], AskOf(asks, q[0]);
      if Satisfied(events, a) {
        var got := Received(events, a);
        SweepLeaves(Cleared(events, a, got), q[1..], asks[t := a.(bits := got)]);
      } else {
        SweepLeaves(events, q[1..], asks);
        var r := Sweep(events, q[1..], asks);
        assert ([t] + r.waiters)[1..] == r.waiters;
        StillUnsatisfied(r.events, events, a);
      }
    }
  }

  lemma {:induction false} StillUnsatisfied(small: Bits, large: Bits, a: Ask)
    requires small <= large && !Satisfied(large, a)
    ensures !Satisfied(small, a)
  {
    if small * a.bits == a.bits {
      assert a.bits <= large;
      assert large * a.bits == a.bits;
    }
    assert small * a.bits <= large * a.bits;
  }

  /** Every bit cleared by a send went to exactly one of the threads it woke,
      and every woken thread received bits it asked for: all of them if it
      waited for all, some if it waited for any. */
  lemma {:induction false} SweepAccounts(events: Bits, q: Queue, asks: Asks)
    requires NoRepeats(q)
    ensures var r := Sweep(events, q, asks);
            && (forall t <- q :: t !in r.waiters ==>
                  var a, got := AskOf(asks, t), AskOf(r.asks, t).bits;
                  got <= a.bits * events && (a.all ==> got == a.bits) && (!a.all ==> got != {}))
            && (forall t, u | t in q && u in q && t != u && t !in r.waiters && u !in r.waiters && AskOf(asks, t).clear && AskOf(asks, u).clear ::
                  AskOf(r.asks, t).bits !! AskOf(r.asks, u).bits)
            && (forall t <- q :: t !in r.waiters && AskOf(asks, t).clear ==> AskOf(r.asks, t).bits !! r.events)
            && (forall b <- events :: b in r.events || exists t <- q :: t !in r.waiters && AskOf(asks, t).clear && b in AskOf(r.asks, t).bits)
  {
    if q != [] {
      var t, a := q[0], AskOf(asks, q[0]);
      var rest := q[1..];
      assert forall u :: u in q <==> u == t || u in rest;
      if Satisfied(events, a) {
        var got := Received(events, a);
        var left, asksNow := Cleared(events, a, got), asks[t := a.(bits := got)];
        SweepLeaves(left, rest, asksNow);
        SweepAccounts(left, rest, asksNow);
      } else {
        SweepAccounts(events, rest, asks);
      }
    }
  }

  // ---------- the machine ----------

  /** `given` is what a send gave a woken thread: nothing reads it, it records
      what rt_event_recv must still find when the thread runs. */
  datatype Status = Idle | Waiting(timeout: int) | Woken(error: int, given: Bits)

  datatype System = System(events: Bits, byPriority: bool, waiters: Queue, asks: Asks, prio: Priorities,
                           status: map<Thread, Status>)

  datatype Event =
    | DoSend(bits: Bits)
    | DoReceive(t: Thread, ask: Ask, timeout: int)
    | DoTimeout(t: Thread)
    | DoReturn(t: Thread)
    | DoReset
    | DoSetPriority(t: Thread, p: int)

  function StatusOf(s: System, t: Thread): Status {
    if t in s.status then s.status[t] else Idle
  }

  function SendStep(s: System, bits: Bits): System {
    var r := Sweep(s.events + bits, s.waiters, s.asks);
    s.(events := r.events, waiters := r.waiters, asks := r.asks,
       status := map t | t in s.status ::
         if t in s.waiters && t !in r.waiters then Woken(EOK, AskOf(r.asks, t).bits) else s.status[t])
  }

  function Step(s: System, e: Event): System {
    match e
    case DoSend(bits) => if bits == {} then s else SendStep(s, bits)
    case DoReceive(t, a, timeout) =>
      if StatusOf(s, t) != Idle || a.bits == {} then s else
        (match Receive(s.events, a)
         case Some(r) => s.(events := r.1)
         case None =>
           if timeout == 0 then s.(status := s.status[t := Woken(ETIMEOUT, {})]) else
             s.(asks := s.asks[t := a], waiters := Enqueue(s.waiters, s.prio, t, s.byPriority),
                status := s.status[t := Waiting(timeout)]))
    case DoTimeout(t) =>
      var st := StatusOf(s, t);
      if st.Waiting? && st.timeout > 0 then
        s.(waiters := Dequeue(s.waiters, t), status := s.status[t := Woken(ETIMEOUT, {})])
      else s
    case DoReturn(t) => if StatusOf(s, t).Woken? then s.(status := s.status[t := Idle]) else s
    case DoReset =>
      s.(events := {}, waiters := [],
         status := map t | t in s.status :: if s.status[t].Waiting? then Woken(ERROR, {}) else s.status[t])
    case DoSetPriority(t, p) => s.(prio := s.prio[t := p])
  }

  function Run(s: System, es: seq<Event>): System
    decreases |es|
  {
    if es == [] then s else Run(Step(s, es[0]), es[1..])
  }

  ghost predicate Good(s: System) {
    && NoRepeats(s.waiters)
    && (forall t <- s.waiters :: t in s.status)
    && (forall t <- s.status :: t in s.waiters <==> s.status[t].Waiting?)
    && (forall t <- s.waiters :: !Satisfied(s.events, AskOf(s.asks, t)))
    && (forall t <- s.status :: s.status[t].Woken? && s.status[t].error == EOK ==> AskOf(s.asks, t).bits == s.status[t].given)
  }

  lemma {:induction false} StepGood(s: System, e: Event)
    requires Good(s)
    ensures Good(Step(s, e))
  {
    hide NoRepeats, Enqueue, Dequeue, Sweep, Satisfied;
    match e
    case DoSend(bits) =>
      SweepLeaves(s.events + bits, s.waiters, s.asks);
    case DoReceive(t, a, timeout) => ReceiveGood(s, t, a, timeout);
    case DoTimeout(t) =>
      DequeueGood(s.waiters, s.prio, t);
    case DoReturn(t) =>
    case DoReset => assert NoRepeats<Thread>([]) by { EmptyQueue(); }
    case DoSetPriority(t, p) =>
  }

  lemma EmptyQueue()
    ensures NoRepeats<Thread>([])
  {
  }

  lemma {:induction false} ReceiveGood(s: System, t: Thread, a: Ask, timeout: int)
    requires Good(s)
    ensures Good(Step(s, DoReceive(t, a, timeout)))
  {
    hide NoRepeats, Enqueue, Satisfied;
    if StatusOf(s, t) == Idle && a.bits != {} {
      if Satisfied(s.events, a) {
        forall u <- s.waiters ensures !Satisfied(Cleared(s.events, a, a.bits), AskOf(s.asks, u)) {
          StillUnsatisfied(Cleared(s.events, a, a.bits), s.events, AskOf(s.asks, u));
        }
      } else if timeout != 0 {
        EnqueueGood(s.waiters, s.prio, t, s.byPriority);
      }
    }
  }

  /** An event set just made by rt_event_init, with nobody at it. */
  ghost predicate Initial(s: System) {
    s.events == {} && s.waiters == [] && forall t <- s.status :: s.status[t] == Idle
  }

  lemma {:induction false} InitialGood(s: System)
    requires Initial(s)
    ensures Good(s)
  {
  }

  /** In every run of sends, receives, timeouts and resets no thread sleeps on
      a condition the event set meets: whoever waits for all of its bits lacks
      one, and whoever waits for any lacks them all. A woken thread still finds
      the bits it was woken with. */
  lemma {:induction false} RunGood(s: System, es: seq<Event>)
    requires Good(s)
    ensures Good(Run(s, es))
    ensures forall t <- Run(s, es).waiters :: Short(Run(s, es).events, AskOf(Run(s, es).asks, t))
    decreases |es|
  {
    hide Step, Satisfied, Short, NoRepeats;
    if es != [] {
      StepGood(s, es[0]);
      RunGood(Step(s, es[0]), es[1..]);
    } else {
      forall t <- s.waiters ensures Short(s.events, AskOf(s.asks, t)) {
        ShortIff(s.events, AskOf(s.asks, t));
      }
    }
  }

  // ---------- what the calls answer ----------

  /** rt_event_recv for some bits: granted at once when its condition holds,
      whatever the timeout; otherwise an error if the timeout is zero, and else
      the caller is one more waiter, for those bits. */
  lemma {:induction false} CallAnswers(s: System, t: Thread, a: Ask, timeout: int)
    requires Good(s) && StatusOf(s, t) == Idle && a.bits != {}
    ensures var r := Step(s, DoReceive(t, a, timeout));
            var st, met := StatusOf(r, t), !Short(s.events, a) && (a.all || a.any);
            && (st == Idle <==> met)
            && (st == Woken(ETIMEOUT, {}) <==> !met && timeout == 0)
            && (st == Waiting(timeout) <==> !met && timeout != 0)
            && (met ==> r == s.(events := r.events) && r.events == if a.clear then s.events - a.bits else s.events)
            && (!met ==> r.events == s.events)
            && (!met && timeout == 0 ==> r == s.(status := r.status))
            && (!met && timeout != 0 ==> AskOf(r.asks, t) == a && forall u: Thread :: u in r.waiters <==> u == t || u in s.waiters)
            && (forall u: Thread :: u != t ==> StatusOf(r, u) == StatusOf(s, u) && AskOf(r.asks, u) == AskOf(s.asks, u))
    ensures Step(s, DoReceive(t, a.(bits := {}), timeout)) == s
  {
    hide Satisfied, Short, Enqueue, NoRepeats;
    ShortIff(s.events, a);
    Neither(s.events, a);
  }

  lemma Neither(events: Bits, a: Ask)
    ensures !a.all && !a.any ==> !Satisfied(events, a)
  {
  }

  /** rt_event_send: the bits are there, but for those a woken thread cleared;
      each waiter either sleeps on with what it lacks, or is woken with some of
      the bits that were there, all of them if it waits for all. Nobody else
      notices. */
  lemma {:induction false} SendAnswers(s: System, bits: Bits, t: Thread)
    requires Good(s)
    ensures var r := Step(s, DoSend(bits));
            && r.events <= s.events + bits
            && (bits == {} ==> r == s)
            && (t !in s.waiters ==> StatusOf(r, t) == StatusOf(s, t))
            && (bits != {} && t in r.waiters ==> t in s.waiters && StatusOf(r, t) == StatusOf(s, t) && Short(r.events, AskOf(s.asks, t)))
            && (t in s.waiters && t !in r.waiters ==>
                  var a, got := AskOf(s.asks, t), AskOf(r.asks, t).bits;
                  && StatusOf(r, t) == Woken(EOK, got)
                  && got <= a.bits * (s.events + bits) && (if a.all then got == a.bits else got != {}))
            && (forall b <- s.events + bits :: b in r.events ||
                  exists u <- s.waiters :: u !in r.waiters && AskOf(s.asks, u).clear && b in AskOf(r.asks, u).bits)
  {
    hide Satisfied, Short, NoRepeats, Sweep;
    SweepLeavesNobody(s.events + bits, s.waiters, s.asks);
    SweepAccounts(s.events + bits, s.waiters, s.asks);
  }

  /** A wait with a timeout can end in an error at any time, one without cannot;
      a call that is over returns; a reset ends every wait in an error and
      leaves no bit. */
  lemma {:induction false} WaitEnds(s: System, t: Thread)
    requires Good(s)
    ensures var r, st := Step(s, DoTimeout(t)), StatusOf(s, t);
            && (st.Waiting? && st.timeout > 0 ==>
                  && r == s.(waiters := r.waiters, status := s.status[t := Woken(ETIMEOUT, {})])
                  && forall u: Thread :: u in r.waiters <==> u != t && u in s.waiters)
            && (!(st.Waiting? && st.timeout > 0) ==> r == s)
    ensures var r := Step(s, DoReturn(t));
            && StatusOf(r, t) == (if StatusOf(s, t).Woken? then Idle else StatusOf(s, t))
            && r == s.(status := r.status) && forall u: Thread :: u != t ==> StatusOf(r, u) == StatusOf(s, u)
    ensures var r, st := Step(s, DoReset), StatusOf(s, t);
            r.events == {} && r.waiters == [] && r.asks == s.asks && StatusOf(r, t) == if st.Waiting? then Woken(ERROR, {}) else st
  {
    hide NoRepeats, Satisfied;
    DequeueGood(s.waiters, s.prio, t);
  }

  /** A priority set from outside is the one the next wait queues by. */
  lemma PrioritySet(s: System, t: Thread, p: int)
    ensures var r := Step(s, DoSetPriority(t, p));
            r == s.(prio := r.prio) && forall u: Thread :: Of(r.prio, u) == if u == t then p else Of(s.prio, u)
  {
  }

  /** A run is its first part and then the rest. */
  lemma {:induction false} RunConcat(s: System, es: seq<Event>, more: seq<Event>)
    ensures Run(s, es + more) == Run(Run(s, es), more)
    ensures forall e :: Run(s, [e]) == Step(s, e)
    decreases |es|
  {
    hide Step;
    OneStep(s);
    if es == [] {
      assert es + more == more;
    } else {
      assert (es + more)[0] == es[0] && (es + more)[1..] == es[1..] + more;
      RunConcat(Step(s, es[0]), es[1..], more);
    }
  }

  lemma OneStep(s: System)
    ensures forall e :: Run(s, [e]) == Step(s, e)
  {
    hide Step;
    forall e: Event ensures Run(s, [e]) == Step(s, e) {
      assert [e][1..] == [];
    }
  }
}
