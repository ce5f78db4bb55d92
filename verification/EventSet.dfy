/**
  rt_event_send and rt_event_recv on the kernel's own objects, proved to be the
  sweep and the receive of EventProtocol (ipc.c).
*/
module EventSet {
  import opened ThreadObject
  import opened WaitQueue
  import opened EventProtocol

  class RtEvent {
    const byPriority: bool
    var events: Bits
    var waiters: Queue

    constructor (byPriority: bool)
      ensures events == {} && waiters == []
    {
      this.byPriority := byPriority;
      events, waiters := {}, [];
    }

    ghost function AsksOf(threads: set<Thread>): Asks
      reads threads
    {
      map t | t in threads :: t.ask
    }

    /** rt_event_send: an error for no bits at all, otherwise one walk along the
        queue with the next node fetched before a thread leaves it. */
    method Send(bits: Bits, ghost threads: set<Thread>) returns (status: int)
      requires NoRepeats(waiters) && forall t <- waiters :: t in threads
      modifies this, threads
      ensures status == if bits == {} then ERROR else EOK
      ensures bits == {} ==> events == old(events) && waiters == old(waiters) && AsksOf(threads) == old(AsksOf(threads))
      ensures bits != {} ==> Swept(events, waiters, AsksOf(threads)) == Sweep(old(events) + bits, old(waiters), old(AsksOf(threads)))
      ensures bits != {} ==> forall t <- waiters :: t in threads && Short(events, t.ask)
      ensures forall t <- threads :: t.error == old(t.error) && t.currentPriority == old(t.currentPriority)
      ensures forall t <- threads :: t.stat == if t in old(waiters) && t !in waiters then Ready else old(t.stat)
    {
      hide NoRepeats, Sweep, Satisfied, Rest, AsksOf, AskOf, Cleared, Received;
      if bits == {} {
        return ERROR;
      }
      events := events + bits;
      ghost var all := Sweep(events, waiters, AsksOf(threads));
      RestNone(all, waiters);
      assert AsksOf(threads) == old(AsksOf(threads));
      var n := 0;
      while n != |waiters|
        invariant n <= |waiters| && NoRepeats(waiters) && forall t <- waiters :: t in threads && t in old(waiters)
        invariant Rest(waiters[..n], Sweep(events, waiters[n..], AsksOf(threads))) == all
        invariant forall t <- threads :: t.error == old(t.error) && t.currentPriority == old(t.currentPriority)
        invariant forall t <- threads :: t.stat == if t in old(waiters) && t !in waiters then Ready else old(t.stat)
        decreases |waiters| - n
      {
        SweepStep(events, waiters, AsksOf(threads), n);
        LeaveAt(waiters, n);
        ghost var was := waiters;
        var woken := Visit(n, threads);
        if woken {
          assert waiters[..n] == was[..n] && waiters[n..] == was[n + 1..];
        } else {
          n := n + 1;
        }
      }
      RestEnd(events, waiters, AsksOf(threads));
      NobodyMissed(old(events) + bits, old(waiters), old(AsksOf(threads)), threads);
      return EOK;
    }

    lemma NobodyMissed(all: Bits, q: Queue, asks: Asks, threads: set<Thread>)
      requires NoRepeats(q) && (forall t <- q :: t in threads) && Sweep(all, q, asks).asks == AsksOf(threads)
      ensures var r := Sweep(all, q, asks); forall t <- r.waiters :: t in threads && Short(r.events, t.ask)
    {
      hide Short, Sweep;
      SweepLeavesNobody(all, q, asks);
      var r := Sweep(all, q, asks);
      forall t <- r.waiters ensures t in threads && Short(r.events, t.ask) {
        assert AskOf(AsksOf(threads), t) == t.ask;
      }
    }

    /** One node of the walk. */
    method Visit(n: nat, ghost threads: set<Thread>) returns (woken: bool)
      requires n < |waiters| && waiters[n] in threads
      modifies this, waiters[n]
      ensures var t := old(waiters[n]);
              var a := old(waiters[n].ask);
              && woken == Satisfied(old(events), a)
              && (woken ==>
                    && events == Cleared(old(events), a, Received(old(events), a))
                    && waiters == old(waiters)[..n] + old(waiters)[n + 1..]
                    && AsksOf(threads) == old(AsksOf(threads))[t := a.(bits := Received(old(events), a))]
                    && t.stat == Ready)
              && (!woken ==> events == old(events) && waiters == old(waiters) && AsksOf(threads) == old(AsksOf(threads))
                             && t.stat == old(t.stat))
              && AskOf(old(AsksOf(threads)), t) == a
              && t.error == old(t.error) && t.currentPriority == old(t.currentPriority)
    {
      var t := waiters[n];
      var a := t.ask;
      woken := false;
      if a.all {
        woken := events * a.bits == a.bits;
      } else if a.any {
        if events * a.bits != {} {
          t.ask := a.(bits := events * a.bits);
          woken := true;
        }
      }
      if woken {
        if t.ask.clear {
          events := events - t.ask.bits;
        }
        waiters := waiters[..n] + waiters[n + 1..];
        t.stat := Ready;
        assert AsksOf(threads) == old(AsksOf(threads))[t := a.(bits := Received(old(events), a))];
      } else {
        assert AsksOf(threads) == old(AsksOf(threads));
      }
    }

    /** rt_event_recv up to the point where a waiting thread is switched out. */
    method Receive(t: Thread, a: Ask, timeout: int, ghost threads: set<Thread>) returns (status: int, recved: Bits, waits: bool)
      requires t in threads && (forall u <- waiters :: u in threads) && (a.all || a.any)
      modifies this, threads
      ensures AsksOf(threads) == if waits then old(AsksOf(threads))[t := a] else old(AsksOf(threads))
      ensures PrioritiesOf(threads) == old(PrioritiesOf(threads))
      ensures a.bits == {} ==> status == ERROR && !waits && events == old(events) && waiters == old(waiters)
      ensures a.bits != {} && (if a.all then a.bits <= old(events) else a.bits * old(events) != {}) ==>
                status == EOK && !waits && EventProtocol.Receive(old(events), a) == Some((recved, events)) && waiters == old(waiters)
      ensures a.bits != {} && (if a.all then !(a.bits <= old(events)) else a.bits * old(events) == {}) ==>
                && events == old(events) && waits == (timeout != 0)
                && (waits ==> status == EOK && t.stat == Suspended && waiters == Enqueue(old(waiters), PrioritiesOf(threads), t, byPriority))
                && (!waits ==> status == ETIMEOUT && waiters == old(waiters))
      ensures a.bits != {} ==> t.error == status
    {
      hide Enqueue;
      ShortIff(events, a);
      recved, waits := {}, false;
      if a.bits == {} {
        return ERROR, recved, waits;
      }
      ghost var prio := PrioritiesOf(threads);
      t.error := EOK;
      assert AsksOf(threads) == old(AsksOf(threads));
      assert PrioritiesOf(threads) == prio;
      status := ERROR;
      if a.all {
        if events * a.bits == a.bits { status := EOK; }
      } else {
        if events * a.bits != {} { status := EOK; }
      }
      if status == EOK {
        recved := events * a.bits;
        if a.clear {
          events := events - a.bits;
        }
      } else if timeout == 0 {
        t.error := ETIMEOUT;
      } else {
        t.ask := a;
        assert PrioritiesOf(threads) == prio;
        waiters := Suspend(waiters, t, byPriority, threads);
        waits := true;
      }
      assert AsksOf(threads) == if waits then old(AsksOf(threads))[t := a] else old(AsksOf(threads));
      assert PrioritiesOf(threads) == prio;
      return t.error, recved, waits;
    }
  }

  lemma {:induction false} RestNone(r: Swept, q: Queue)
    ensures Rest(q[..0], r) == r && q[0..] == q
  {
    assert [] + r.waiters == r.waiters;
  }

  lemma {:induction false} RestEnd(events: Bits, q: Queue, asks: Asks)
    ensures Rest(q[..|q|], Sweep(events, q[|q|..], asks)) == Swept(events, q, asks)
  {
    assert q[..|q|] + [] == q;
  }

  function Rest(front: Queue, r: Swept): Swept {
    r.(waiters := front + r.waiters)
  }

  lemma {:induction false} SweepStep(events: Bits, q: Queue, asks: Asks, n: nat)
    requires n < |q|
    ensures var t := q[n];
            var a := AskOf(asks, t);
            if Satisfied(events, a) then
              Rest(q[..n], Sweep(events, q[n..], asks)) ==
              Rest(q[..n], Sweep(Cleared(events, a, Received(events, a)), q[n + 1..], asks[t := a.(bits := Received(events, a))]))
            else
              Rest(q[..n], Sweep(events, q[n..], asks)) == Rest(q[..n + 1], Sweep(events, q[n + 1..], asks))
  {
    assert q[n..][1..] == q[n + 1..];
    var r := Sweep(events, q[n + 1..], asks).waiters;
    assert q[..n + 1] + r == q[..n] + ([q[n]] + r);
  }

  lemma {:induction false} LeaveAt(q: Queue, n: nat)
    requires n < |q| && NoRepeats(q)
    ensures NoRepeats(q[..n] + q[n + 1..])
    ensures forall t <- q :: t in q[..n] + q[n + 1..] <==> t != q[n]
  {
    var r := q[..n] + q[n + 1..];
    if n == 0 {
      assert q[..0] + q[1..] == q[1..];
      assert q == [q[0]] + q[1..];
    } else {
      LeaveAt(q[1..], n - 1);
      assert q[1..][..n - 1] + q[1..][n..] == r[1..];
      assert r == [q[0]] + r[1..];
      assert q == [q[0]] + q[1..];
    }
  }
}
