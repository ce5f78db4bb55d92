/**
  Message queues (ipc.c): messages live in the nodes of a fixed pool, and a
  sender or receiver holds a node of its own between two short regions, while
  it copies with interrupts enabled.  Steps of different threads interleave in
  any order.
*/
module QueueProtocol {
  import opened ThreadObject
  import opened WaitQueue

  type Node = nat

  datatype Status =
    | Idle
    | Grabbed(node: Node, message: int, urgent: bool) // off the free list, not yet filled
    | Filled(node: Node, message: int, urgent: bool)  // filled, not yet linked
    | Waiting(timeout: int)                           // suspended in rt_mq_recv
    | Again(timeout: int)                             // woken with RT_EOK, has not looked again
    | Taken(node: Node, message: int)                 // off the queue; `message` records what was in it
    | Read(node: Node, message: int, got: int)        // copied out, not yet given back
    | Failing(error: int)

  type Threads = map<Thread, Status>

  /** What happened, in order; it is only recorded. */
  datatype Record = Sent(message: int) | Urgent(message: int) | Got(message: int) | Emptied

  datatype System = System(
    size: nat, free: seq<Node>, queue: seq<Node>, data: map<Node, int>,
    byPriority: bool, receivers: Queue, prio: Priorities, status: Threads, log: seq<Record>)

  function StatusOf(status: Threads, t: Thread): Status {
    if t in status then status[t] else Idle
  }

  function DataOf(s: System, n: Node): int {
    if n in s.data then s.data[n] else 0
  }

  // ---------- the machine ----------

  datatype Event =
    | DoGrab(t: Thread, message: int, urgent: bool) // rt_mq_send and rt_mq_urgent, first region
    | DoFill(t: Thread)                             // their copy
    | DoLink(t: Thread)                             // their second region
    | DoReceive(t: Thread, timeout: int)            // rt_mq_recv, first region
    | DoLookAgain(t: Thread, elapsed: nat)          // its retry loop
    | DoRead(t: Thread)                             // its copy
    | DoPutBack(t: Thread)                          // its last region
    | DoTimeout(t: Thread)
    | DoReturn(t: Thread)
    | DoReset
    | DoSetPriority(t: Thread, p: int)

  function WakeFirst(q: Queue, status: Threads): Threads {
    if q == [] then status else
      var st := StatusOf(status, q[0]);
      if st.Waiting? then status[q[0] := Again(st.timeout)] else status
  }

  function LinkStep(s: System, t: Thread, n: Node, message: int, urgent: bool): System {
    s.(queue := if urgent then [n] + s.queue else s.queue + [n],
       log := s.log + [if urgent then Urgent(message) else Sent(message)],
       receivers := if s.receivers == [] then [] else s.receivers[1..],
       status := WakeFirst(s.receivers, s.status[t := Idle]))
  }

  function ReceiveStep(s: System, t: Thread, timeout: int): System {
    if s.queue != [] then
      var n := s.queue[0];
      s.(queue := s.queue[1..], log := s.log + [Got(DataOf(s, n))], status := s.status[t := Taken(n, DataOf(s, n))])
    else if timeout == 0 then s.(status := s.status[t := Failing(ETIMEOUT)])
    else s.(receivers := Enqueue(s.receivers, s.prio, t, s.byPriority), status := s.status[t := Waiting(timeout)])
  }

  function Reversed(q: seq<Node>): seq<Node> {
    if q == [] then [] else Reversed(q[1..]) + [q[0]]
  }

  function Step(s: System, e: Event): System {
    match e
    case DoGrab(t, message, urgent) =>
      if StatusOf(s.status, t) != Idle then s
      else if s.free == [] then s.(status := s.status[t := Failing(EFULL)])
      else s.(free := s.free[1..], status := s.status[t := Grabbed(s.free[0], message, urgent)])
    case DoFill(t) =>
      var st := StatusOf(s.status, t);
      if st.Grabbed? then s.(data := s.data[st.node := st.message], status := s.status[t := Filled(st.node, st.message, st.urgent)]) else s
    case DoLink(t) =>
      var st := StatusOf(s.status, t);
      if st.Filled? then LinkStep(s, t, st.node, st.message, st.urgent) else s
    case DoReceive(t, timeout) => if StatusOf(s.status, t) == Idle then ReceiveStep(s, t, timeout) else s
    case DoLookAgain(t, elapsed) =>
      var st := StatusOf(s.status, t);
      if st.Again? then ReceiveStep(s, t, Left(st.timeout, elapsed)) else s
    case DoRead(t) =>
      var st := StatusOf(s.status, t);
      if st.Taken? then s.(status := s.status[t := Read(st.node, st.message, DataOf(s, st.node))]) else s
    case DoPutBack(t) =>
      var st := StatusOf(s.status, t);
      if st.Read? then s.(free := [st.node] + s.free, status := s.status[t := Idle]) else s
    case DoTimeout(t) =>
      var st := StatusOf(s.status, t);
      if st.Waiting? && st.timeout > 0 then
        s.(receivers := Dequeue(s.receivers, t), status := s.status[t := Failing(ETIMEOUT)])
      else s
    case DoReturn(t) => if StatusOf(s.status, t).Failing? then s.(status := s.status[t := Idle]) else s
    case DoReset =>
      s.(queue := [], free := Reversed(s.queue) + s.free, receivers := [], log := s.log + [Emptied],
         status := map t | t in s.status :: if s.status[t].Waiting? then Failing(ERROR) else s.status[t])
    case DoSetPriority(t, p) => s.(prio := s.prio[t := p])
  }

  function Run(s: System, es: seq<Event>): System
    decreases |es|
  {
    if es == [] then s else Run(Step(s, es[0]), es[1..])
  }

  // ---------- the invariant ----------

  /** The node a thread holds between its regions. */
  function Holds(st: Status): Option<Node> {
    match st
    case Grabbed(n, _, _) => Some(n)
    case Filled(n, _, _) => Some(n)
    case Taken(n, _) => Some(n)
    case Read(n, _, _) => Some(n)
    case _ => None
  }

  type Holding = map<Thread, Node>

  function HeldBy(status: Threads): Holding {
    map t | t in status && Holds(status[t]).Some? :: Holds(status[t]).value
  }

  /** Every node of the pool is in exactly one place: free, queued, or held by
      one thread. */
  ghost predicate Partition(size: nat, free: seq<Node>, queue: seq<Node>, held: Holding) {
    && NoRepeats<Node>(free) && NoRepeats<Node>(queue)
    && (forall n <- free :: n < size && n !in queue)
    && (forall n <- queue :: n < size)
    && (forall t <- held :: held[t] < size && held[t] !in free && held[t] !in queue)
    && (forall t <- held, u <- held :: t != u ==> held[t] != held[u])
    && (forall n: nat :: n < size ==> n in free || n in queue || n in held.Values)
  }

  /** A held node's contents are the holder's. */
  ghost predicate Contents(s: System) {
    forall t <- s.status ::
      match s.status[t]
      case Filled(n, v, _) => DataOf(s, n) == v
      case Taken(n, v) => DataOf(s, n) == v
      case Read(n, v, got) => got == v
      case _ => true
  }

  function Awake(status: Threads): set<Thread> {
    set t | t in status && status[t].Again?
  }

  /** Waiting and being queued are the same. */
  ghost predicate QueuedIn(q: Queue, status: Threads) {
    && NoRepeats(q)
    && (forall t <- q :: t in status)
    && (forall t <- status :: t in q <==> status[t].Waiting?)
  }

  /** While a receiver sleeps there is a woken one, still to look, for every
      message. */
  ghost predicate Live(s: System) {
    s.receivers != [] ==> |s.queue| <= |Awake(s.status)|
  }

  function Messages(s: System): seq<int> {
    seq(|s.queue|, i requires 0 <= i < |s.queue| => DataOf(s, s.queue[i]))
  }

  /** The log read as a queue with an express lane. */
  function Replay(log: seq<Record>): Option<seq<int>>
    decreases |log|
  {
    if log == [] then Some([]) else After(Replay(log[..|log| - 1]), log[|log| - 1])
  }

  function After(q: Option<seq<int>>, e: Record): Option<seq<int>> {
    if q == None then None else
      match e
      case Sent(v) => Some(q.value + [v])
      case Urgent(v) => Some([v] + q.value)
      case Got(v) => if q.value != [] && q.value[0] == v then Some(q.value[1..]) else None
      case Emptied => Some([])
  }

  ghost predicate Good(s: System) {
    Partition(s.size, s.free, s.queue, HeldBy(s.status)) && Contents(s) && QueuedIn(s.receivers, s.status) && Live(s) && Replay(s.log) == Some(Messages(s))
  }

  // ---------- nodes change places ----------

  lemma {:induction false} FirstOut<T>(q: seq<T>)
    requires q != [] && NoRepeats(q)
    ensures NoRepeats(q[1..]) && (forall x <- q :: x in q[1..] <==> x != q[0]) && forall x <- q[1..] :: x in q
  {
    assert q == [q[0]] + q[1..];
  }

  lemma {:induction false} LastIn<T>(q: seq<T>, x: T)
    requires NoRepeats(q) && x !in q
    ensures NoRepeats(q + [x]) && NoRepeats([x] + q)
  {
    assert ([x] + q)[1..] == q;
    if q != [] {
      LastIn(q[1..], x);
      assert (q + [x])[1..] == q[1..] + [x];
    }
  }

  lemma {:induction false} GrabNode(size: nat, free: seq<Node>, queue: seq<Node>, held: Holding, t: Thread)
    requires Partition(size, free, queue, held) && free != [] && t !in held
    ensures Partition(size, free[1..], queue, held[t := free[0]])
  {
    hide NoRepeats;
    FirstOut<Node>(free);
    var x, now := free[0], held[t := free[0]];
    assert x in free;
    forall u <- now ensures now[u] < size && now[u] !in free[1..] && now[u] !in queue {
      assert u != t ==> u in held && now[u] == held[u];
    }
    forall u <- now, w <- now | u != w ensures now[u] != now[w] {
      assert u != t ==> u in held && now[u] == held[u] && held[u] !in free;
      assert w != t ==> w in held && now[w] == held[w] && held[w] !in free;
    }
    forall n: nat | n < size ensures n in free[1..] || n in queue || n in now.Values {
      if n == x {
        assert now[t] == n;
      } else if n in held.Values {
        var u: Thread :| u in held && held[u] == n;
        assert now[u] == n;
      }
    }
  }

  lemma {:induction false} TakeNode(size: nat, free: seq<Node>, queue: seq<Node>, held: Holding, t: Thread)
    requires Partition(size, free, queue, held) && queue != [] && t !in held
    ensures Partition(size, free, queue[1..], held[t := queue[0]])
  {
    hide NoRepeats;
    FirstOut<Node>(queue);
    var x, now := queue[0], held[t := queue[0]];
    assert x in queue;
    forall u <- now ensures now[u] < size && now[u] !in free && now[u] !in queue[1..] {
      assert u != t ==> u in held && now[u] == held[u];
    }
    forall u <- now, w <- now | u != w ensures now[u] != now[w] {
      assert u != t ==> u in held && now[u] == held[u] && held[u] !in queue;
      assert w != t ==> w in held && now[w] == held[w] && held[w] !in queue;
    }
    forall n: nat | n < size ensures n in free || n in queue[1..] || n in now.Values {
      if n == x {
        assert now[t] == n;
      } else if n in held.Values {
        var u: Thread :| u in held && held[u] == n;
        assert now[u] == n;
      }
    }
  }

  lemma {:induction false} LinkNode(size: nat, free: seq<Node>, queue: seq<Node>, held: Holding, t: Thread)
    requires Partition(size, free, queue, held) && t in held
    ensures Partition(size, free, queue + [held[t]], held - {t})
    ensures Partition(size, free, [held[t]] + queue, held - {t})
    ensures Partition(size, [held[t]] + free, queue, held - {t})
  {
    hide NoRepeats;
    var n, less := held[t], held - {t};
    LastIn<Node>(queue, n);
    LastIn<Node>(free, n);
    forall k: nat | k < size ensures k == n || k in free || k in queue || k in less.Values {
      if u :| u in held && held[u] == k { if u != t { assert less[u] == k; } }
    }
  }

  lemma {:induction false} ReversedIs(q: seq<Node>)
    requires NoRepeats<Node>(q)
    ensures NoRepeats<Node>(Reversed(q)) && forall n :: n in Reversed(q) <==> n in q
  {
    if q != [] {
      assert q == [q[0]] + q[1..];
      ReversedIs(q[1..]);
      LastIn<Node>(Reversed(q[1..]), q[0]);
    }
  }

  lemma {:induction false} Joined(a: seq<Node>, b: seq<Node>)
    requires NoRepeats<Node>(a) && NoRepeats<Node>(b) && forall n <- a :: n !in b
    ensures NoRepeats<Node>(a + b)
  {
    if a == [] {
      assert a + b == b;
    } else {
      assert a == [a[0]] + a[1..];
      Joined(a[1..], b);
      assert (a + b)[1..] == a[1..] + b;
    }
  }

  lemma {:induction false} ResetNodes(size: nat, free: seq<Node>, queue: seq<Node>, held: Holding)
    requires Partition(size, free, queue, held)
    ensures Partition(size, Reversed(queue) + free, [], held)
  {
    hide NoRepeats;
    ReversedIs(queue);
    Joined(Reversed(queue), free);
    assert NoRepeats<Node>([]) by { NothingRepeats(); }
  }

  lemma NothingRepeats()
    ensures NoRepeats<Node>([])
  {
  }

  // ---------- what a change of one thread's status changes ----------

  lemma {:induction false} HeldUpdate(status: Threads, t: Thread, st: Status)
    ensures HeldBy(status[t := st]) ==
            if Holds(st).Some? then HeldBy(status)[t := Holds(st).value] else HeldBy(status) - {t}
    ensures t in HeldBy(status) <==> Holds(StatusOf(status, t)).Some?
    ensures t in HeldBy(status) ==> HeldBy(status)[t] == Holds(StatusOf(status, t)).value
  {
  }

  lemma {:induction false} HeldKept(status: Threads, t: Thread, st: Status)
    requires Holds(st) == Holds(StatusOf(status, t))
    ensures HeldBy(status[t := st]) == HeldBy(status)
  {
    HeldUpdate(status, t, st);
  }

  lemma {:induction false} AwakeSet(status: Threads, t: Thread, st: Status)
    ensures Awake(status[t := st]) == if st.Again? then Awake(status) + {t} else Awake(status) - {t}
    ensures t in Awake(status) <==> StatusOf(status, t).Again?
  {
  }

  lemma {:induction false} AwakeUpdate(status: Threads, t: Thread, st: Status)
    ensures |Awake(status[t := st])| ==
            |Awake(status)| + (if st.Again? then 1 else 0) - (if StatusOf(status, t).Again? then 1 else 0)
  {
    hide Awake;
    AwakeSet(status, t, st);
    var was := Awake(status);
    if t in was { assert was == (was - {t}) + {t}; } else { assert was - {t} == was; }
  }

  lemma {:induction false} QueuedKept(q: Queue, status: Threads, t: Thread, st: Status)
    requires QueuedIn(q, status) && !StatusOf(status, t).Waiting? && !st.Waiting?
    ensures QueuedIn(q, status[t := st])
  {
  }

  lemma {:induction false} QueuedEnter(q: Queue, status: Threads, t: Thread, st: Status, prio: Priorities, byPriority: bool)
    requires QueuedIn(q, status) && !StatusOf(status, t).Waiting? && st.Waiting?
    ensures QueuedIn(Enqueue(q, prio, t, byPriority), status[t := st])
  {
    hide NoRepeats;
    EnqueueGood(q, prio, t, byPriority);
  }

  lemma {:induction false} QueuedLeave(q: Queue, status: Threads, t: Thread, st: Status)
    requires QueuedIn(q, status) && !st.Waiting?
    ensures QueuedIn(Dequeue(q, t), status[t := st])
  {
    hide NoRepeats;
    DequeueGood(q, map[], t);
  }

  lemma {:induction false} WokenGood(q: Queue, status: Threads)
    requires QueuedIn(q, status)
    ensures q != [] ==> QueuedIn(q[1..], WakeFirst(q, status)) && |Awake(WakeFirst(q, status))| == |Awake(status)| + 1
    ensures q == [] ==> WakeFirst(q, status) == status
    ensures HeldBy(WakeFirst(q, status)) == HeldBy(status)
    ensures forall u: Thread :: StatusOf(WakeFirst(q, status), u) == StatusOf(status, u) || StatusOf(WakeFirst(q, status), u).Again?
  {
    hide NoRepeats;
    if q != [] {
      FirstOut(q);
      var st := Again(status[q[0]].timeout);
      AwakeUpdate(status, q[0], st);
      HeldKept(status, q[0], st);
    }
  }

  lemma {:induction false} ReplaySnoc(log: seq<Record>, e: Record)
    ensures Replay(log + [e]) == After(Replay(log), e)
  {
    assert (log + [e])[..|log|] == log;
  }

  // ---------- every step keeps the invariant ----------

  /** A change of one thread's status that moves no node and no message. */
  lemma {:induction false} StatusGood(s: System, t: Thread, st: Status)
    requires Good(s) && Holds(st) == Holds(StatusOf(s.status, t)) && !StatusOf(s.status, t).Waiting? && !st.Waiting?
    requires !st.Again? && (StatusOf(s.status, t).Again? ==> s.queue == [])
    requires match st case Filled(n, v, _) => DataOf(s, n) == v case Taken(n, v) => DataOf(s, n) == v case Read(n, v, got) => got == v case _ => true
    ensures Good(s.(status := s.status[t := st]))
  {
    hide Partition, QueuedIn, Awake, HeldBy, Replay;
    var r := s.(status := s.status[t := st]);
    HeldKept(s.status, t, st);
    QueuedKept(s.receivers, s.status, t, st);
    AwakeUpdate(s.status, t, st);
    assert Messages(r) == Messages(s);
    assert forall n :: DataOf(r, n) == DataOf(s, n);
  }

  lemma {:induction false} GrabGood(s: System, t: Thread, message: int, urgent: bool)
    requires Good(s) && StatusOf(s.status, t) == Idle && s.free != []
    ensures Good(Step(s, DoGrab(t, message, urgent)))
  {
    hide Partition, QueuedIn, Awake, HeldBy, Replay;
    var st := Grabbed(s.free[0], message, urgent);
    var r := Step(s, DoGrab(t, message, urgent));
    HeldUpdate(s.status, t, st);
    GrabNode(s.size, s.free, s.queue, HeldBy(s.status), t);
    QueuedKept(s.receivers, s.status, t, st);
    AwakeUpdate(s.status, t, st);
    assert Messages(r) == Messages(s);
    assert forall n :: DataOf(r, n) == DataOf(s, n);
  }

  lemma {:induction false} FillGood(s: System, t: Thread)
    requires Good(s)
    ensures Good(Step(s, DoFill(t)))
  {
    hide QueuedIn, Awake, Replay, NoRepeats;
    var st := StatusOf(s.status, t);
    if st.Grabbed? {
      var r := Step(s, DoFill(t));
      var now := Filled(st.node, st.message, st.urgent);
      HeldUpdate(s.status, t, now);
      HeldKept(s.status, t, now);
      QueuedKept(s.receivers, s.status, t, now);
      AwakeUpdate(s.status, t, now);
      var held := HeldBy(s.status);
      assert held[t] == st.node && st.node !in s.queue;
      assert Messages(r) == Messages(s);
      forall u <- r.status ensures match r.status[u]
                                   case Filled(n, v, _) => DataOf(r, n) == v
                                   case Taken(n, v) => DataOf(r, n) == v
                                   case Read(n, v, got) => got == v
                                   case _ => true {
        if u != t && Holds(s.status[u]).Some? { assert u in held && held[u] != held[t]; }
      }
    }
  }

  lemma {:induction false} LinkGood(s: System, t: Thread)
    requires Good(s)
    ensures Good(Step(s, DoLink(t)))
  {
    hide Partition, QueuedIn, Awake, HeldBy, Replay, WakeFirst;
    var st := StatusOf(s.status, t);
    if st.Filled? {
      var r := Step(s, DoLink(t));
      var mine := s.status[t := Idle];
      HeldUpdate(s.status, t, Idle);
      LinkNode(s.size, s.free, s.queue, HeldBy(s.status), t);
      QueuedKept(s.receivers, s.status, t, Idle);
      AwakeUpdate(s.status, t, Idle);
      WokenGood(s.receivers, mine);
      assert forall n :: DataOf(r, n) == DataOf(s, n);
      assert DataOf(s, st.node) == st.message;
      assert Messages(r) == if st.urgent then [st.message] + Messages(s) else Messages(s) + [st.message];
      ReplaySnoc(s.log, if st.urgent then Urgent(st.message) else Sent(st.message));
      forall u <- r.status ensures r.status[u] == StatusOf(s.status, u) || r.status[u] == Idle || r.status[u].Again? {
        assert StatusOf(r.status, u) == r.status[u];
      }
    }
  }

  lemma {:induction false} TakeGood(s: System, t: Thread, timeout: int)
    requires Good(s) && (StatusOf(s.status, t).Idle? || StatusOf(s.status, t).Again?)
    ensures Good(ReceiveStep(s, t, timeout))
  {
    hide Partition, QueuedIn, Awake, HeldBy, Replay, Enqueue;
    var r := ReceiveStep(s, t, timeout);
    var now := StatusOf(r.status, t);
    HeldUpdate(s.status, t, now);
    AwakeUpdate(s.status, t, now);
    assert forall n :: DataOf(r, n) == DataOf(s, n);
    if s.queue != [] {
      TakeNode(s.size, s.free, s.queue, HeldBy(s.status), t);
      QueuedKept(s.receivers, s.status, t, now);
      assert Messages(s)[0] == DataOf(s, s.queue[0]);
      assert Messages(r) == Messages(s)[1..];
      ReplaySnoc(s.log, Got(DataOf(s, s.queue[0])));
    } else {
      HeldKept(s.status, t, now);
      assert Messages(r) == Messages(s);
      if timeout == 0 {
        QueuedKept(s.receivers, s.status, t, now);
      } else {
        QueuedEnter(s.receivers, s.status, t, now, s.prio, s.byPriority);
      }
    }
  }

  lemma {:induction false} PutBackGood(s: System, t: Thread)
    requires Good(s)
    ensures Good(Step(s, DoPutBack(t)))
  {
    hide Partition, QueuedIn, Awake, HeldBy, Replay;
    var st := StatusOf(s.status, t);
    if st.Read? {
      var r := Step(s, DoPutBack(t));
      HeldUpdate(s.status, t, Idle);
      LinkNode(s.size, s.free, s.queue, HeldBy(s.status), t);
      QueuedKept(s.receivers, s.status, t, Idle);
      AwakeUpdate(s.status, t, Idle);
      assert Messages(r) == Messages(s);
      assert forall n :: DataOf(r, n) == DataOf(s, n);
    }
  }

  lemma {:induction false} TimeoutGood(s: System, t: Thread)
    requires Good(s)
    ensures Good(Step(s, DoTimeout(t)))
  {
    hide Partition, QueuedIn, Awake, HeldBy, Replay, NoRepeats;
    var st := StatusOf(s.status, t);
    if st.Waiting? && st.timeout > 0 {
      var r := Step(s, DoTimeout(t));
      HeldKept(s.status, t, Failing(ETIMEOUT));
      QueuedLeave(s.receivers, s.status, t, Failing(ETIMEOUT));
      AwakeUpdate(s.status, t, Failing(ETIMEOUT));
      assert Messages(r) == Messages(s);
      assert forall n :: DataOf(r, n) == DataOf(s, n);
    }
  }

  lemma {:induction false} ResetGood(s: System)
    requires Good(s)
    ensures Good(Step(s, DoReset))
  {
    hide Partition, Replay, Reversed, Enqueue, Dequeue, LinkStep, ReceiveStep;
    var r := Step(s, DoReset);
    ResetNodes(s.size, s.free, s.queue, HeldBy(s.status));
    assert HeldBy(r.status) == HeldBy(s.status);
    ReplaySnoc(s.log, Emptied);
    assert Messages(r) == [];
    assert forall n :: DataOf(r, n) == DataOf(s, n);
  }

  lemma {:induction false} StepGood(s: System, e: Event)
    requires Good(s)
    ensures Good(Step(s, e))
  {
    hide ReceiveStep, LinkStep, Good;
    match e
    case DoGrab(t, message, urgent) =>
      if StatusOf(s.status, t) == Idle {
        if s.free == [] { StatusGood(s, t, Failing(EFULL)); } else { GrabGood(s, t, message, urgent); }
      }
    case DoFill(t) => FillGood(s, t);
    case DoLink(t) => LinkGood(s, t);
    case DoReceive(t, timeout) => if StatusOf(s.status, t) == Idle { TakeGood(s, t, timeout); }
    case DoLookAgain(t, elapsed) =>
      if StatusOf(s.status, t).Again? { TakeGood(s, t, Left(StatusOf(s.status, t).timeout, elapsed)); }
    case DoRead(t) => ReadGood(s, t);
    case DoPutBack(t) => PutBackGood(s, t);
    case DoTimeout(t) => TimeoutGood(s, t);
    case DoReturn(t) => if StatusOf(s.status, t).Failing? { StatusGood(s, t, Idle); }
    case DoReset => ResetGood(s);
    case DoSetPriority(t, p) => PriorityGood(s, t, p);
  }

  lemma ReadGood(s: System, t: Thread)
    requires Good(s)
    ensures Good(Step(s, DoRead(t)))
  {
    var st := StatusOf(s.status, t);
    if st.Taken? { StatusGood(s, t, Read(st.node, st.message, DataOf(s, st.node))); }
  }

  lemma PriorityGood(s: System, t: Thread, p: int)
    requires Good(s)
    ensures Good(Step(s, DoSetPriority(t, p)))
  {
    hide Partition, Awake, HeldBy, Replay;
    var r := Step(s, DoSetPriority(t, p));
    assert Messages(r) == Messages(s);
    assert forall n :: DataOf(r, n) == DataOf(s, n);
  }

  /** A queue just made by rt_mq_init: every node on the free list, and nobody
      at it. */
  ghost predicate Initial(s: System) {
    && NoRepeats<Node>(s.free) && (forall n: Node :: n in s.free <==> n < s.size)
    && s.queue == [] && s.receivers == [] && s.log == []
    && forall t <- s.status :: s.status[t] == Idle
  }

  lemma {:induction false} InitialGood(s: System)
    requires Initial(s)
    ensures Good(s)
  {
    assert HeldBy(s.status) == map[] && Messages(s) == [];
  }

  /** In every interleaving each node is free, queued or held by one thread;
      messages come out once each, in the order of the queue with its express
      lane; and no receiver sleeps on a message nobody is coming for. */
  lemma {:induction false} RunGood(s: System, es: seq<Event>)
    requires Good(s)
    ensures Good(Run(s, es))
    decreases |es|
  {
    hide Good, Step;
    if es != [] {
      StepGood(s, es[0]);
      RunGood(Step(s, es[0]), es[1..]);
    }
  }

  /** What a receiver copies out is what was in the node when it took it,
      although it copies with interrupts enabled. */
  lemma {:induction false} ReadsWhatItTook(s: System, es: seq<Event>, t: Thread)
    requires Good(s) && StatusOf(Run(s, es).status, t).Read?
    ensures StatusOf(Run(s, es).status, t).got == StatusOf(Run(s, es).status, t).message
  {
    RunGood(s, es);
    assert t in Run(s, es).status;
  }

  /** When nobody is between two regions, the pool is the free list and the
      queue, and a receiver sleeps only on an empty queue. */
  lemma {:induction false} AtRest(s: System, es: seq<Event>)
    requires Good(s)
    requires HeldBy(Run(s, es).status) == map[] && Awake(Run(s, es).status) == {}
    ensures var r := Run(s, es);
            && (forall n: nat :: n < r.size ==> n in r.free || n in r.queue)
            && (r.receivers != [] ==> r.queue == [])
  {
    RunGood(s, es);
  }

  // ---------- whole calls, among those of others ----------

  /** The thread whose call an event is part of, if it moves one on. */
  function Mover(e: Event): Option<Thread> {
    match e
    case DoGrab(t, _, _) => Some(t)
    case DoFill(t) => Some(t)
    case DoLink(t) => Some(t)
    case DoReceive(t, _) => Some(t)
    case DoLookAgain(t, _) => Some(t)
    case DoRead(t) => Some(t)
    case DoPutBack(t) => Some(t)
    case DoTimeout(t) => Some(t)
    case DoReturn(t) => Some(t)
    case DoReset => None
    case DoSetPriority(_, _) => None
  }

  ghost predicate Others(es: seq<Event>, t: Thread) {
    forall e <- es :: Mover(e) != Some(t)
  }

  lemma {:induction false} Undisturbed(s: System, es: seq<Event>, t: Thread)
    requires Good(s) && Others(es, t) && Holds(StatusOf(s.status, t)).Some?
    ensures Good(Run(s, es)) && StatusOf(Run(s, es).status, t) == StatusOf(s.status, t)
    decreases |es|
  {
    hide Good, Step;
    if es != [] {
      assert es[0] in es && forall e <- es[1..] :: e in es;
      StepGood(s, es[0]);
      LeftAlone(s, es[0], t);
      Undisturbed(Step(s, es[0]), es[1..], t);
    }
  }

  lemma {:induction false} LeftAlone(s: System, e: Event, t: Thread)
    requires Mover(e) != Some(t) && Holds(StatusOf(s.status, t)).Some?
    ensures StatusOf(Step(s, e).status, t) == StatusOf(s.status, t)
  {
    hide Enqueue, Dequeue, Reversed, DataOf, NoRepeats, Left;
  }

  /** A sender that gets a node puts its message last, or first if it is urgent,
      whatever others do between its three parts. */
  lemma {:induction false} SendCompletes(s: System, t: Thread, v: int, urgent: bool, mid: seq<Event>, last: seq<Event>)
    requires Good(s) && StatusOf(s.status, t) == Idle && s.free != [] && Others(mid, t) && Others(last, t)
    ensures var a := Step(s, DoGrab(t, v, urgent));
            var b := Step(Run(a, mid), DoFill(t));
            var c := Run(b, last);
            var r := Step(c, DoLink(t));
            && [s.free[0]] + a.free == s.free && Messages(a) == Messages(s)
            && StatusOf(r.status, t) == Idle && r.free == c.free
            && Messages(r) == (if urgent then [v] + Messages(c) else Messages(c) + [v])
            && r.log == c.log + [if urgent then Urgent(v) else Sent(v)]
  {
    hide Good, Run, Others;
    var a := Step(s, DoGrab(t, v, urgent));
    GrabGood(s, t, v, urgent);
    assert Messages(a) == Messages(s);
    Undisturbed(a, mid, t);
    FillGood(Run(a, mid), t);
    var b := Step(Run(a, mid), DoFill(t));
    Undisturbed(b, last, t);
    Linked(Run(b, last), t);
  }

  lemma {:induction false} Linked(s: System, t: Thread)
    requires Good(s) && StatusOf(s.status, t).Filled?
    ensures var r, st := Step(s, DoLink(t)), StatusOf(s.status, t);
            && StatusOf(r.status, t) == Idle && r.free == s.free
            && Messages(r) == (if st.urgent then [st.message] + Messages(s) else Messages(s) + [st.message])
            && r.log == s.log + [if st.urgent then Urgent(st.message) else Sent(st.message)]
  {
    hide Partition, Awake, HeldBy, Replay, NoRepeats;
    var st, r := StatusOf(s.status, t), Step(s, DoLink(t));
    assert t in s.status && t !in s.receivers;
    assert DataOf(s, st.node) == st.message;
    assert forall n :: DataOf(r, n) == DataOf(s, n);
    assert Messages(r) == if st.urgent then [st.message] + Messages(s) else Messages(s) + [st.message];
  }

  /** A receiver that finds a message gets the one in front, whatever others do
      while it copies, and gives the node back. */
  lemma {:induction false} ReceiveCompletes(s: System, t: Thread, timeout: int, mid: seq<Event>, last: seq<Event>)
    requires Good(s) && StatusOf(s.status, t) == Idle && s.queue != [] && Others(mid, t) && Others(last, t)
    ensures var a := Step(s, DoReceive(t, timeout));
            var b := Step(Run(a, mid), DoRead(t));
            var c := Run(b, last);
            var r := Step(c, DoPutBack(t));
            && StatusOf(b.status, t).Read? && [StatusOf(b.status, t).got] + Messages(a) == Messages(s)
            && a.log == s.log + [Got(StatusOf(b.status, t).got)]
            && StatusOf(r.status, t) == Idle && r.free == [s.queue[0]] + c.free && Messages(r) == Messages(c)
  {
    hide Good, Run, Others;
    var a := Step(s, DoReceive(t, timeout));
    TakeGood(s, t, timeout);
    assert [DataOf(s, s.queue[0])] + Messages(a) == Messages(s);
    Undisturbed(a, mid, t);
    ReadIs(Run(a, mid), t);
    var b := Step(Run(a, mid), DoRead(t));
    Undisturbed(b, last, t);
    var c := Run(b, last);
    assert Messages(Step(c, DoPutBack(t))) == Messages(c);
  }

  lemma {:induction false} ReadIs(s: System, t: Thread)
    requires Good(s) && StatusOf(s.status, t).Taken?
    ensures var r, st := Step(s, DoRead(t)), StatusOf(s.status, t);
            Good(r) && StatusOf(r.status, t) == Read(st.node, st.message, st.message)
  {
    ReadGood(s, t);
  }

  // ---------- what the calls answer ----------

  /** rt_mq_send and rt_mq_urgent without a free node: an error. */
  lemma {:induction false} GrabAnswers(s: System, t: Thread, v: int, urgent: bool)
    requires Good(s) && StatusOf(s.status, t) == Idle
    ensures var r := Step(s, DoGrab(t, v, urgent));
            && (StatusOf(r.status, t) == Failing(EFULL) <==> s.free == [])
            && (s.free == [] ==> r == s.(status := r.status))
            && (forall u: Thread :: u != t ==> StatusOf(r.status, u) == StatusOf(s.status, u))
  {
    hide Good;
  }

  /** rt_mq_recv: a message if there is one, whatever the timeout; otherwise an
      error at once if the timeout is zero, and else the caller is one more
      waiter. */
  lemma {:induction false} ReceiveAnswers(s: System, t: Thread, timeout: int)
    requires Good(s) && StatusOf(s.status, t) == Idle
    ensures var r := Step(s, DoReceive(t, timeout));
            var st := StatusOf(r.status, t);
            && (st.Taken? <==> s.queue != [])
            && (st == Failing(ETIMEOUT) <==> s.queue == [] && timeout == 0)
            && (st == Waiting(timeout) <==> s.queue == [] && timeout != 0)
            && (s.queue == [] ==> r == s.(status := r.status, receivers := r.receivers))
            && (s.queue == [] && timeout != 0 ==> forall u: Thread :: u in r.receivers <==> u == t || u in s.receivers)
            && (s.queue != [] || timeout == 0 ==> r.receivers == s.receivers)
            && (forall u: Thread :: u != t ==> StatusOf(r.status, u) == StatusOf(s.status, u))
  {
    hide Good, NoRepeats;
  }

  /** A message linked wakes the receiver in front, which looks again; nobody
      else notices. */
  lemma {:induction false} LinkWakes(s: System, t: Thread)
    requires Good(s) && StatusOf(s.status, t).Filled?
    ensures var r, q := Step(s, DoLink(t)), s.receivers;
            && (q != [] ==> q[0] != t && StatusOf(s.status, q[0]).Waiting? && [q[0]] + r.receivers == q
                            && StatusOf(r.status, q[0]) == Again(StatusOf(s.status, q[0]).timeout))
            && (q == [] ==> r.receivers == [])
            && forall u: Thread :: u != t && !(q != [] && u == q[0]) ==> StatusOf(r.status, u) == StatusOf(s.status, u)
  {
    hide Partition, Awake, HeldBy, Replay, NoRepeats;
    if s.receivers != [] { assert s.receivers[0] in s.receivers; }
  }

  /** A woken receiver looks as in a fresh call with the time it has left. */
  lemma {:induction false} AgainIsFresh(s: System, t: Thread, elapsed: nat)
    requires StatusOf(s.status, t).Again?
    ensures Step(s, DoLookAgain(t, elapsed)) ==
            Step(s.(status := s.status[t := Idle]), DoReceive(t, Left(StatusOf(s.status, t).timeout, elapsed)))
  {
    var left, was := Left(StatusOf(s.status, t).timeout, elapsed), s.status[t := Idle];
    var idle := s.(status := was);
    assert forall n :: DataOf(idle, n) == DataOf(s, n);
    assert was[t := Failing(ETIMEOUT)] == s.status[t := Failing(ETIMEOUT)] && was[t := Waiting(left)] == s.status[t := Waiting(left)];
    if s.queue != [] {
      var taken := Taken(s.queue[0], DataOf(s, s.queue[0]));
      assert was[t := taken] == s.status[t := taken];
    }
  }

  /** A wait with a timeout can end in an error at any time, one without cannot;
      a call that is over returns; a reset ends every wait in an error and
      leaves no message. */
  lemma {:induction false} WaitEnds(s: System, t: Thread)
    requires Good(s)
    ensures var r, st := Step(s, DoTimeout(t)), StatusOf(s.status, t);
            && (st.Waiting? && st.timeout > 0 ==>
                  && r == s.(receivers := r.receivers, status := s.status[t := Failing(ETIMEOUT)])
                  && forall u: Thread :: u in r.receivers <==> u != t && u in s.receivers)
            && (!(st.Waiting? && st.timeout > 0) ==> r == s)
    ensures var r := Step(s, DoReturn(t));
            && StatusOf(r.status, t) == (if StatusOf(s.status, t).Failing? then Idle else StatusOf(s.status, t))
            && r == s.(status := r.status) && forall u: Thread :: u != t ==> StatusOf(r.status, u) == StatusOf(s.status, u)
    ensures var r, st := Step(s, DoReset), StatusOf(s.status, t);
            && r.queue == [] && r.receivers == [] && r.size == s.size
            && StatusOf(r.status, t) == if st.Waiting? then Failing(ERROR) else st
  {
    hide Partition, Awake, HeldBy, Replay, NoRepeats;
    DequeueGood(s.receivers, s.prio, t);
  }

  /** A priority set from outside is the one the next wait queues by. */
  lemma PrioritySet(s: System, t: Thread, p: int)
    ensures var r := Step(s, DoSetPriority(t, p));
            r == s.(prio := r.prio) && forall u: Thread :: Of(r.prio, u) == if u == t then p else Of(s.prio, u)
  {
  }

  /** A run is its first part and then the rest. */
  lemma {:induction false} RunConcat(s: System, es: seq<Event>, more: seq<Event>)
    ensures Run(s, es + more) == Run(Run(s, es), more)
    ensures forall e :: Run(s, [e]) == Step(s, e)
    decreases |es|
  {
    hide Step;
    OneStep(s);
    if es == [] {
      assert es + more == more;
    } else {
      assert (es + more)[0] == es[0] && (es + more)[1..] == es[1..] + more;
      RunConcat(Step(s, es[0]), es[1..], more);
    }
  }

  lemma OneStep(s: System)
    ensures forall e :: Run(s, [e]) == Step(s, e)
  {
    hide Step;
    forall e: Event ensures Run(s, [e]) == Step(s, e) {
      assert [e][1..] == [];
    }
  }
}
