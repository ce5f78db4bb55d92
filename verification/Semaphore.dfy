/** The kernel's semaphore, proved to take those steps. */
module Semaphores {
  import opened ThreadObject
  import opened WaitQueue
  import opened SemaphoreProtocol

  class Semaphore {
    const byPriority: bool
    var value: int
    var waiters: Queue

    constructor (value: nat, byPriority: bool)
      requires value < LIMIT
      ensures this.value == value && waiters == [] && this.byPriority == byPriority
    {
      this.value, waiters, this.byPriority := value, [], byPriority;
    }

    /** rt_sem_take up to the point where a blocked thread is switched out. */
    method Take(t: Thread, time: int, ghost threads: set<Thread>) returns (out: Outcome)
      requires t in threads && forall u <- waiters :: u in threads
      modifies this, t`stat, t`error
      ensures PrioritiesOf(threads) == old(PrioritiesOf(threads))
      ensures (value, waiters, out) == SemaphoreProtocol.Take(old(value), old(waiters), PrioritiesOf(threads), byPriority, t, time)
      ensures t.stat == (if out == Blocks then Suspended else old(t.stat)) && t.error == if out == Blocks then EOK else old(t.error)
    {
      hide Enqueue;
      if value > 0 {
        value := value - 1;
        assert PrioritiesOf(threads) == old(PrioritiesOf(threads));
        return Got;
      }
      if time == 0 {
        return Refused;
      }
      t.error := EOK;
      assert PrioritiesOf(threads) == old(PrioritiesOf(threads));
      waiters := Suspend(waiters, t, byPriority, threads);
      return Blocks;
    }

    /** rt_sem_release. */
    method Release(ghost threads: set<Thread>)
      requires 0 <= value < LIMIT && forall u <- waiters :: u in threads
      modifies this, threads
      ensures (value, waiters) == SemaphoreProtocol.Release(old(value), old(waiters))
      ensures forall t <- threads :: t.error == old(t.error) && t.stat == if t in Front(old(waiters)) then Ready else old(t.stat)
    {
      if waiters != [] {
        var first := waiters[0];
        waiters := waiters[1..];
        first.stat := Ready;
      } else {
        value := (value + 1) % LIMIT;
      }
    }
  }
}
