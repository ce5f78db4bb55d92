/**
  rt_mutex_take, rt_mutex_release and rt_thread_timeout on the kernel's own
  objects, each proved to be the step of MutexProtocol it stands for.
*/
module Mutexes {
  import opened ThreadObject
  import opened WaitQueue
  import opened MutexProtocol

  class Mutex {
    const byPriority: bool
    var value: int
    var owner: Thread?
    var originalPriority: int
    var hold: int
    var waiters: Queue

    constructor (byPriority: bool)
      ensures Abstract() == Lock(byPriority, 1, None, NOBODY, 0, [])
    {
      this.byPriority := byPriority;
      value, owner, originalPriority, hold, waiters := 1, null, NOBODY, 0, [];
    }

    ghost function Abstract(): Lock
      reads this
    {
      Lock(byPriority, value, Held(owner), originalPriority, hold, waiters)
    }

    /** Everyone who deals with the mutex is among `threads`, and a taken mutex
        has an owner. */
    ghost predicate Within(threads: set<Thread>)
      reads this
    {
      && (owner != null ==> owner in threads)
      && value >= 0
      && (value == 0 ==> owner != null)
      && (forall w <- waiters :: w in threads)
    }

    /** rt_mutex_take up to the point where a blocked thread is switched out. */
    method Take(t: Thread, time: int, ghost threads: set<Thread>) returns (out: Outcome)
      requires Within(threads) && t in threads && t.stat == Ready && t !in waiters
      modifies this, threads
      ensures Within(threads)
      ensures (Abstract(), PrioritiesOf(threads), out) == MutexProtocol.Take(old(Abstract()), old(PrioritiesOf(threads)), t, time)
      ensures t.stat == (if out == Blocks then Suspended else Ready) && t.error == (if out == Refused then ETIMEOUT else EOK)
      ensures forall u <- threads :: u != t ==> u.stat == old(u.stat) && u.error == old(u.error)
    {
      hide Enqueue;
      t.error := EOK;
      assert PrioritiesOf(threads) == old(PrioritiesOf(threads));
      if owner == t {
        hold := (hold + 1) % 256;
        assert PrioritiesOf(threads) == old(PrioritiesOf(threads));
        return Got;
      }
      if value > 0 {
        value := value - 1;
        owner := t;
        originalPriority := t.currentPriority;
        hold := (hold + 1) % 256;
        assert PrioritiesOf(threads) == old(PrioritiesOf(threads));
        return Got;
      }
      if time == 0 {
        t.error := ETIMEOUT;
        assert PrioritiesOf(threads) == old(PrioritiesOf(threads));
        return Refused;
      }
      if t.currentPriority < owner.currentPriority {
        owner.currentPriority := t.currentPriority;
      }
      assert PrioritiesOf(threads) == MutexProtocol.Take(old(Abstract()), old(PrioritiesOf(threads)), t, time).1;
      waiters := Suspend(waiters, t, byPriority, threads);
      assert PrioritiesOf(threads) == MutexProtocol.Take(old(Abstract()), old(PrioritiesOf(threads)), t, time).1;
      return Blocks;
    }

    /** rt_mutex_release: an error unless the caller owns the mutex. */
    method Release(t: Thread, ghost threads: set<Thread>) returns (status: int)
      requires Within(threads) && t in threads && t.stat == Ready && t !in waiters
      requires owner == t ==> 0 < hold < 256
      modifies this, threads
      ensures Within(threads)
      ensures status == if old(owner) == t then EOK else ERROR
      ensures old(owner) != t ==> Abstract() == old(Abstract()) && PrioritiesOf(threads) == old(PrioritiesOf(threads)) && t.error == ERROR
      ensures old(owner) == t ==>
                && (Abstract(), PrioritiesOf(threads)) == MutexProtocol.Release(old(Abstract()), old(PrioritiesOf(threads)), t)
                && t.error == old(t.error)
      ensures forall u <- threads :: u != t ==> u.error == old(u.error)
      ensures forall u <- threads :: u.stat == if u == owner && old(owner) == t then Ready else old(u.stat)
    {
      if t != owner {
        t.error := ERROR;
        assert PrioritiesOf(threads) == old(PrioritiesOf(threads));
        return ERROR;
      }
      ghost var before := PrioritiesOf(threads);
      hold := hold - 1;
      if hold == 0 {
        if originalPriority != owner.currentPriority {
          owner.currentPriority := originalPriority;
        }
        assert PrioritiesOf(threads) == before[t := originalPriority];
        if waiters != [] {
          var w := waiters[0];
          owner := w;
          originalPriority := w.currentPriority;
          hold := hold + 1;
          waiters := waiters[1..];
          w.stat := Ready;
          assert w in threads && originalPriority == Of(before[t := old(originalPriority)], w);
        } else {
          value := value + 1;
          owner := null;
          originalPriority := NOBODY;
        }
      }
      assert PrioritiesOf(threads) == if old(hold) == 1 then before[t := old(originalPriority)] else before;
      return EOK;
    }

    /** rt_thread_timeout of a thread that waits for this mutex. */
    method Timeout(t: Thread, ghost threads: set<Thread>)
      requires Within(threads) && t in waiters && t.stat == Suspended
      modifies this`waiters, t`stat, t`error
      ensures Within(threads) && waiters == Dequeue(old(waiters), t)
      ensures t.stat == Ready && t.error == ETIMEOUT
    {
      t.error := ETIMEOUT;
      waiters := Dequeue(waiters, t);
      t.stat := Ready;
    }
  }
}
