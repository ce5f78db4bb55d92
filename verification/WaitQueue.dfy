/**
  The queues of threads waiting on a kernel object (the rt_ipc_list helpers of
  ipc.c): arrival order, or most urgent first and arrival order among equals.
*/
module WaitQueue {
  import opened ThreadObject

  datatype Option<T> = None | Some(value: T)

  type Queue = seq<Thread>
  type Priorities = map<Thread, int>

  function Of(prio: Priorities, t: Thread): int {
    if t in prio then prio[t] else 0
  }

  // ---------- wait queues ----------

  /** rt_ipc_list_suspend: in front of the first less urgent waiter, or last. */
  function Enqueue(q: Queue, prio: Priorities, t: Thread, byPriority: bool): (r: Queue)
    ensures |r| == |q| + 1
    ensures t in r && (forall u <- q :: u in r) && (forall u <- r :: u == t || u in q)
  {
    if q == [] then [t]
    else if byPriority && Of(prio, t) < Of(prio, q[0]) then [t] + q
    else
      assert q == [q[0]] + q[1..];
      [q[0]] + Enqueue(q[1..], prio, t, byPriority)
  }

  /** rt_list_remove of a waiting thread. */
  function Dequeue(q: Queue, t: Thread): (r: Queue)
    ensures forall u <- r :: u in q
    ensures forall u <- q :: u != t ==> u in r
  {
    if q == [] then [] else if q[0] == t then q[1..]
    else [q[0]] + Dequeue(q[1..], t)
  }

  /** The thread a wake-up goes to, if there is one. */
  function Front(q: Queue): Queue {
    if q == [] then [] else q[..1]
  }

  ghost predicate NoRepeats<T>(q: seq<T>) {
    q != [] ==> q[0] !in q[1..] && NoRepeats(q[1..])
  }

  /** Most urgent first. */
  ghost predicate Sorted(q: Queue, prio: Priorities) {
    q != [] ==> (forall u <- q[1..] :: Of(prio, q[0]) <= Of(prio, u)) && Sorted(q[1..], prio)
  }

  lemma {:induction false} EnqueueGood(q: Queue, prio: Priorities, t: Thread, byPriority: bool)
    requires NoRepeats(q) && t !in q
    ensures NoRepeats(Enqueue(q, prio, t, byPriority))
    ensures byPriority && Sorted(q, prio) ==> Sorted(Enqueue(q, prio, t, byPriority), prio)
  {
    var r := Enqueue(q, prio, t, byPriority);
    if q == [] || (byPriority && Of(prio, t) < Of(prio, q[0])) {
      assert r[1..] == q;
    } else {
      EnqueueGood(q[1..], prio, t, byPriority);
      assert r[1..] == Enqueue(q[1..], prio, t, byPriority);
    }
  }

  lemma {:induction false} DequeueGood(q: Queue, prio: Priorities, t: Thread)
    requires NoRepeats(q)
    ensures NoRepeats(Dequeue(q, t)) && t !in Dequeue(q, t)
    ensures Sorted(q, prio) ==> Sorted(Dequeue(q, t), prio)
  {
    if q != [] && q[0] != t {
      DequeueGood(q[1..], prio, t);
      assert Dequeue(q, t)[1..] == Dequeue(q[1..], t);
    }
  }

  lemma {:induction false} SortedFrame(q: Queue, prio: Priorities, was: Priorities)
    requires Sorted(q, was) && forall t <- q :: Of(prio, t) == Of(was, t)
    ensures Sorted(q, prio)
  {
    if q != [] {
      assert forall t <- q[1..] :: t in q;
      SortedFrame(q[1..], prio, was);
    }
  }

  /** How many waiters in front are at least as urgent as `p`. */
  function Ahead(q: Queue, prio: Priorities, p: int): (k: nat)
    ensures k <= |q|
  {
    if q == [] || Of(prio, q[0]) > p then 0 else 1 + Ahead(q[1..], prio, p)
  }

  lemma Regroup(x: Thread, a: Queue, t: Thread, b: Queue)
    ensures [x] + (a + [t] + b) == [x] + a + [t] + b
  {
  }

  /** Among equally urgent waiters the queue keeps the order of arrival: the
      newcomer stands behind every waiter at least as urgent as itself, and in
      front of every other. */
  lemma {:induction false} EnqueueIsStable(q: Queue, prio: Priorities, t: Thread)
    requires Sorted(q, prio)
    ensures var k := Ahead(q, prio, Of(prio, t));
            && Enqueue(q, prio, t, true) == q[..k] + [t] + q[k..]
            && (forall u <- q[..k] :: Of(prio, u) <= Of(prio, t))
            && (forall u <- q[k..] :: Of(prio, u) > Of(prio, t))
  {
    if q == [] {
    } else if Of(prio, t) < Of(prio, q[0]) {
      assert q[..0] == [] && q[0..] == q;
      assert q == [q[0]] + q[1..];
    } else {
      EnqueueIsStable(q[1..], prio, t);
      var j := Ahead(q[1..], prio, Of(prio, t));
      var a, b := q[1..][..j], q[1..][j..];
      assert q[..j + 1] == [q[0]] + a;
      assert q[j + 1..] == b;
      Regroup(q[0], a, t, b);
    }
  }

  /** What is left of a finite timeout; a negative one means for ever. */
  function Left(timeout: int, elapsed: nat): int {
    if timeout > elapsed then timeout - elapsed else if timeout > 0 then 0 else timeout
  }

  /** Waiting for ever stays that; a finite timeout loses a tick for each that
      passes until none is left, in one wait or in several. */
  lemma {:induction false} LeftAddsUp(timeout: int, a: nat, b: nat)
    ensures Left(Left(timeout, a), b) == Left(timeout, a + b)
    ensures timeout < 0 ==> Left(timeout, a) == timeout
    ensures timeout >= 0 ==> Left(timeout + 1, 1) == timeout && Left(0, a) == 0 && Left(timeout, 0) == timeout
  {
  }

  // ---------- the queue on the kernel's thread objects ----------

  ghost function PrioritiesOf(threads: set<Thread>): Priorities
    reads threads
  {
    map t | t in threads :: t.currentPriority
  }

  lemma PriorityOf(threads: set<Thread>, t: Thread)
    requires t in threads
    ensures Of(PrioritiesOf(threads), t) == t.currentPriority
  {
  }

  /** rt_ipc_list_suspend. */
  method Suspend(q: Queue, t: Thread, byPriority: bool, ghost threads: set<Thread>) returns (r: Queue)
    requires t in threads && forall u <- q :: u in threads
    modifies t`stat
    ensures t.stat == Suspended && PrioritiesOf(threads) == old(PrioritiesOf(threads))
    ensures r == Enqueue(q, PrioritiesOf(threads), t, byPriority)
  {
    hide Enqueue, Of;
    ghost var prio := PrioritiesOf(threads);
    t.stat := Suspended;
    assert PrioritiesOf(threads) == prio;
    if !byPriority {
      EnqueueLast(q, prio, t);
      return q + [t];
    }
    var n := 0;
    EnqueueStart(q, prio, t);
    while n != |q|
      invariant n <= |q| && t.stat == Suspended && PrioritiesOf(threads) == prio
      invariant Enqueue(q, prio, t, true) == q[..n] + Enqueue(q[n..], prio, t, true)
    {
      EnqueueStep(q, prio, t, n);
      PriorityOf(threads, t);
      PriorityOf(threads, q[n]);
      if t.currentPriority < q[n].currentPriority {
        return q[..n] + [t] + q[n..];
      }
      n := n + 1;
    }
    EnqueueStop(q, prio, t);
    return q + [t];
  }

  lemma {:induction false} EnqueueLast(q: Queue, prio: Priorities, t: Thread)
    ensures Enqueue(q, prio, t, false) == q + [t]
  {
    if q != [] { EnqueueLast(q[1..], prio, t); }
  }

  lemma {:induction false} EnqueueStart(q: Queue, prio: Priorities, t: Thread)
    ensures q[..0] + Enqueue(q[0..], prio, t, true) == Enqueue(q, prio, t, true)
  {
    assert q[0..] == q;
  }

  lemma {:induction false} EnqueueStop(q: Queue, prio: Priorities, t: Thread)
    ensures q[..|q|] + Enqueue(q[|q|..], prio, t, true) == q + [t]
  {
  }

  lemma {:induction false} EnqueueStep(q: Queue, prio: Priorities, t: Thread, n: nat)
    requires n < |q|
    ensures Of(prio, t) < Of(prio, q[n]) ==>
              q[..n] + Enqueue(q[n..], prio, t, true) == q[..n] + [t] + q[n..]
    ensures Of(prio, t) >= Of(prio, q[n]) ==>
              q[..n] + Enqueue(q[n..], prio, t, true) == q[..n + 1] + Enqueue(q[n + 1..], prio, t, true)
  {
    assert q[n..][1..] == q[n + 1..];
    assert q[..n + 1] == q[..n] + [q[n]];
  }
}
