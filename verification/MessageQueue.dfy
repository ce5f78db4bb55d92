/**
  The kernel's message queue (ipc.c): nodes linked through their first word
  into a free list and a queue with a tail pointer.  Each method is one region
  or one copy of QueueProtocol, proved to do to the two lists what the machine
  does.
*/
module MessageQueue {
  import opened ThreadObject
  import opened WaitQueue
  import opened QueueProtocol

  const NIL := -1

  /** From `h` the links lead through the nodes `q` and end. */
  ghost predicate Links(q: seq<Node>, h: int, next: seq<int>) {
    if q == [] then h == NIL else h == q[0] && q[0] < |next| && Links(q[1..], next[q[0]], next)
  }

  lemma {:induction false} LinksUpdate(q: seq<Node>, h: int, next: seq<int>, x: nat, v: int)
    requires Links(q, h, next) && x < |next| && x !in q
    ensures Links(q, h, next[x := v])
  {
    if q != [] {
      assert q == [q[0]] + q[1..];
      LinksUpdate(q[1..], next[q[0]], next, x, v);
    }
  }

  /** A node behind the last one. */
  lemma {:induction false} LinksAppend(q: seq<Node>, h: int, next: seq<int>, n: nat)
    requires q != [] && Links(q, h, next) && NoRepeats<Node>(q) && n !in q && n < |next| && next[n] == NIL
    ensures q[|q| - 1] < |next| && Links(q + [n], h, next[q[|q| - 1] := n])
  {
    var last := q[|q| - 1];
    if |q| == 1 {
      assert (q + [n])[1..] == [n] && [n][1..] == [];
      assert q[1..] == [];
    } else {
      assert q == [q[0]] + q[1..] && q[1..][|q| - 2] == last;
      LinksAppend(q[1..], next[q[0]], next, n);
      assert (q + [n])[1..] == q[1..] + [n];
    }
  }

  lemma {:induction false} LinksEmpty(q: seq<Node>, h: int, next: seq<int>)
    requires Links(q, h, next)
    ensures h == NIL <==> q == []
    ensures q != [] ==> h == q[0] && q[0] < |next| && Links(q[1..], next[h], next)
  {
  }

  class RtMessageQueue {
    const next: array<int>  // rt_mq_message.next, by node
    const data: array<int>  // the message behind it
    const byPriority: bool
    var entry: nat
    var queueHead: int
    var queueTail: int
    var queueFree: int
    var receivers: Queue
    ghost var free: seq<Node>
    ghost var queue: seq<Node>

    ghost predicate Valid()
      reads this, next
    {
      Linked() && entry == |queue|
    }

    ghost predicate Linked()
      reads this`queueHead, this`queueTail, this`queueFree, this`free, this`queue, next
    {
      && next.Length == data.Length && next != data
      && Links(free, queueFree, next[..]) && Links(queue, queueHead, next[..])
      && queueTail == (if queue == [] then NIL else queue[|queue| - 1])
      && NoRepeats<Node>(free) && NoRepeats<Node>(queue)
      && (forall n <- free :: n !in queue)
    }

    /** A node in neither list: the caller's own. */
    ghost predicate Own(n: int)
      reads this
    {
      0 <= n < next.Length && n !in free && n !in queue
    }

    /** A step that concerns node `msg` leaves every other node in a caller's
        hands to that caller, with its link and its message as they were. */
    twostate predicate KeepsOthers(msg: int)
      reads this, next, data
    {
      next.Length == data.Length &&
      forall n :: old(Own(n)) && n != msg ==> Own(n) && next[n] == old(next[n]) && data[n] == old(data[n])
    }

    ghost predicate Within(threads: set<Thread>)
      reads this`receivers
    {
      forall t <- receivers :: t in threads
    }

    /** rt_mq_init: every node free. */
    constructor (max: nat, byPriority: bool)
      ensures Valid() && queue == [] && |free| == max && next.Length == max && receivers == []
      ensures forall n: nat :: n < max ==> n in free
    {
      next, data := new int[max], new int[max];
      this.byPriority := byPriority;
      entry, queueHead, queueTail, queueFree, receivers := 0, NIL, NIL, NIL, [];
      free, queue := [], [];
      new;
      var temp := 0;
      while temp < max
        invariant temp <= max && Valid() && queue == [] && |free| == temp && receivers == []
        invariant forall n: nat :: n < temp <==> n in free
      {
        LinksUpdate(free, queueFree, next[..], temp, queueFree);
        PushFront(free, temp);
        next[temp] := queueFree;
        queueFree := temp;
        free := [temp] + free;
        temp := temp + 1;
      }
    }

    lemma {:induction false} PushFront(q: seq<Node>, n: Node)
      requires NoRepeats<Node>(q) && n !in q
      ensures NoRepeats<Node>([n] + q) && ([n] + q)[1..] == q
    {
      assert ([n] + q)[1..] == q;
    }

    lemma {:induction false} PopFront(q: seq<Node>)
      requires q != [] && NoRepeats<Node>(q)
      ensures NoRepeats<Node>(q[1..]) && q[0] !in q[1..] && (forall n <- q[1..] :: n in q)
      ensures |q| > 1 ==> q[1..][|q| - 2] == q[|q| - 1] && q[|q| - 1] != q[0]
    {
      if |q| > 1 { assert q[|q| - 1] == q[1..][|q| - 2]; }
    }

    /** The first region of rt_mq_send and rt_mq_urgent: a free node, or NIL. */
    method Grab() returns (msg: int)
      requires Valid()
      modifies this`queueFree, this`free
      ensures Valid()
      ensures old(free) == [] ==> msg == NIL && free == []
      ensures old(free) != [] ==> msg == old(free)[0] && free == old(free)[1..] && Own(msg)
      ensures KeepsOthers(NIL)
    {
      hide NoRepeats;
      LinksEmpty(free, queueFree, next[..]);
      if queueFree == NIL {
        return NIL;
      }
      PopFront(free);
      msg := queueFree;
      queueFree := next[msg];
      free := free[1..];
    }

    /** The copy of rt_mq_send into its own node, which also ends it. */
    method Fill(msg: int, message: int)
      requires Valid() && Own(msg)
      modifies next, data
      ensures Valid() && Own(msg) && next[msg] == NIL
      ensures data[msg] == message && forall n :: 0 <= n < data.Length && n != msg ==> data[n] == old(data[n])
      ensures KeepsOthers(msg)
    {
      LinksUpdate(free, queueFree, next[..], msg, NIL);
      LinksUpdate(queue, queueHead, next[..], msg, NIL);
      next[msg] := NIL;
      data[msg] := message;
    }

    /** The copy of rt_mq_urgent, which leaves the link of its node alone. */
    method FillUrgent(msg: int, message: int)
      requires Valid() && Own(msg)
      modifies data
      ensures Valid() && Own(msg)
      ensures data[msg] == message && forall n :: 0 <= n < data.Length && n != msg ==> data[n] == old(data[n])
      ensures KeepsOthers(msg)
    {
      data[msg] := message;
    }

    /** The second region of rt_mq_send: the node goes to the end of the queue,
        and the first waiting receiver is woken. */
    method LinkTail(msg: int, ghost threads: set<Thread>)
      requires Valid() && Own(msg) && next[msg] == NIL && Within(threads)
      modifies this, next, threads
      ensures Valid() && free == old(free) && queue == old(queue) + [msg] && KeepsOthers(msg)
      ensures receivers == if old(receivers) == [] then [] else old(receivers)[1..]
      ensures forall t <- threads :: t.error == old(t.error) && t.stat == if t in Front(old(receivers)) then Ready else old(t.stat)
    {
      hide NoRepeats;
      ghost var q, next0 := queue, next[..];
      LastIn<Node>(q, msg);
      if q != [] { LinksAppend(q, queueHead, next0, msg); LinksUpdate(free, queueFree, next0, q[|q| - 1], msg) by { assert q[|q| - 1] in q; } }
      LinksEmpty(q, queueHead, next0);
      if queueTail != NIL {
        next[queueTail] := msg;
      }
      queueTail := msg;
      if queueHead == NIL {
        queueHead := msg;
        Single(msg);
      }
      entry := entry + 1;
      queue := q + [msg];
      WakeReceiver(threads);
    }

    lemma Single(msg: int)
      requires 0 <= msg < next.Length && next[msg] == NIL
      ensures Links([msg], msg, next[..])
    {
      assert [msg][1..] == [];
    }

    /** The second region of rt_mq_urgent: the node goes to the front. */
    method LinkHead(msg: int, ghost threads: set<Thread>)
      requires Valid() && Own(msg) && Within(threads)
      modifies this, next, threads
      ensures Valid() && free == old(free) && queue == [msg] + old(queue) && KeepsOthers(msg)
      ensures receivers == if old(receivers) == [] then [] else old(receivers)[1..]
      ensures forall t <- threads :: t.error == old(t.error) && t.stat == if t in Front(old(receivers)) then Ready else old(t.stat)
    {
      hide NoRepeats;
      LinksUpdate(free, queueFree, next[..], msg, queueHead);
      LinksUpdate(queue, queueHead, next[..], msg, queueHead);
      PushFront(queue, msg);
      next[msg] := queueHead;
      queueHead := msg;
      if queueTail == NIL {
        queueTail := msg;
      }
      entry := entry + 1;
      queue := [msg] + queue;
      WakeReceiver(threads);
    }

    method WakeReceiver(ghost threads: set<Thread>)
      requires Within(threads)
      modifies this`receivers, threads
      ensures receivers == if old(receivers) == [] then [] else old(receivers)[1..]
      ensures forall t <- threads :: t.error == old(t.error) && t.stat == if t in Front(old(receivers)) then Ready else old(t.stat)
    {
      if receivers != [] {
        var first := receivers[0];
        receivers := receivers[1..];
        first.stat := Ready;
      }
    }

    /** The first region of rt_mq_recv, `retry` from the second look on: the
        head of the queue, a refusal, or a wait. */
    method Take(t: Thread, timeout: int, retry: bool, ghost threads: set<Thread>) returns (msg: int, waits: bool)
      requires Valid() && Within(threads) && t in threads
      modifies this, t`stat, t`error
      ensures Valid() && free == old(free) && PrioritiesOf(threads) == old(PrioritiesOf(threads)) && KeepsOthers(NIL)
      ensures old(queue) != [] ==> msg == old(queue)[0] && queue == old(queue)[1..] && Own(msg) && !waits && receivers == old(receivers)
      ensures old(queue) == [] ==> msg == NIL && queue == [] && waits == (timeout != 0)
      ensures waits ==> receivers == Enqueue(old(receivers), PrioritiesOf(threads), t, byPriority) && t.stat == Suspended && t.error == EOK
      ensures !waits ==> receivers == old(receivers) && t.stat == old(t.stat)
      ensures old(queue) == [] && timeout == 0 ==> t.error == if retry then ETIMEOUT else old(t.error)
    {
      hide NoRepeats, Enqueue;
      ghost var prio := PrioritiesOf(threads);
      LinksEmpty(queue, queueHead, next[..]);
      if entry == 0 {
        if timeout == 0 && !retry {
          return NIL, false;
        }
        t.error := EOK;
        assert PrioritiesOf(threads) == prio;
        if timeout == 0 {
          t.error := ETIMEOUT;
          assert PrioritiesOf(threads) == prio;
          return NIL, false;
        }
        receivers := Suspend(receivers, t, byPriority, threads);
        return NIL, true;
      }
      PopFront(queue);
      msg := queueHead;
      queueHead := next[msg];
      if queueTail == msg {
        queueTail := NIL;
      }
      entry := entry - 1;
      queue := queue[1..];
      waits := false;
    }

    /** The last region of rt_mq_recv. */
    method PutBack(msg: int)
      requires Valid() && Own(msg)
      modifies this`queueFree, this`free, next
      ensures Valid() && free == [msg] + old(free) && KeepsOthers(msg)
    {
      hide NoRepeats;
      LinksUpdate(free, queueFree, next[..], msg, queueFree);
      LinksUpdate(queue, queueHead, next[..], msg, queueFree);
      PushFront(free, msg);
      next[msg] := queueFree;
      queueFree := msg;
      free := [msg] + free;
    }

    /** One round of the reset: the head of the queue goes to the front of the
        free list. */
    method ReleaseFirst()
      requires Linked() && queue != []
      modifies this`queueHead, this`queueTail, this`queueFree, this`free, this`queue, next
      ensures Linked() && queue == old(queue)[1..] && free == [old(queue)[0]] + old(free) && KeepsOthers(NIL)
    {
      hide NoRepeats;
      LinksEmpty(queue, queueHead, next[..]);
      PopFront(queue);
      assert queue[0] in queue;
      var msg := queueHead;
      queueHead := next[msg];
      if queueTail == msg {
        queueTail := NIL;
      }
      ghost var rest := queue[1..];
      LinksUpdate(free, queueFree, next[..], msg, queueFree);
      LinksUpdate(rest, queueHead, next[..], msg, queueFree);
      PushFront(free, msg);
      next[msg] := queueFree;
      queueFree := msg;
      free, queue := [msg] + free, rest;
    }

    /** rt_mq_control with RT_IPC_CMD_RESET, after the receivers are woken:
        every queued node goes back to the free list. */
    method ReleaseAll()
      requires Valid()
      modifies this`entry, this`queueHead, this`queueTail, this`queueFree, this`free, this`queue, next
      ensures Valid() && queue == [] && free == Reversed(old(queue)) + old(free) && KeepsOthers(NIL)
    {
      hide NoRepeats;
      ghost var q, f := queue, free;
      LinksEmpty(queue, queueHead, next[..]);
      while queueHead != NIL
        invariant Linked() && (queueHead == NIL <==> queue == [])
        invariant Reversed(queue) + free == Reversed(q) + f
        invariant KeepsOthers(NIL)
        decreases |queue|
      {
        ghost var was, given := queue, free;
        ReleaseFirst();
        assert Reversed(was) + given == Reversed(queue) + ([was[0]] + given);
        LinksEmpty(queue, queueHead, next[..]);
      }
      entry := 0;
    }
  }
}
