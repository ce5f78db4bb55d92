/**
  Mailboxes (ipc.c): a bounded queue of mails, threads that block when it is
  full or empty, and steps of different threads in any order.

  A blocked sender or receiver that is woken does not get a slot or a mail: it
  only looks again, and a third thread may have been faster.  Live says why
  nobody sleeps through a mail or a free slot all the same.
*/
module MailboxProtocol {
  import opened ThreadObject
  import opened WaitQueue

  datatype Side = Sender | Receiver

  function Other(side: Side): Side {
    if side == Sender then Receiver else Sender
  }

  /** Where a thread is with respect to the mailbox; a receiver's `mail` means
      nothing. */
  datatype Status =
    | Idle
    | Waiting(side: Side, mail: int, timeout: int) // suspended
    | Again(side: Side, mail: int, timeout: int)   // woken with RT_EOK, has not looked again
    | Failing(error: int)                          // about to return an error

  type Threads = map<Thread, Status>

  datatype Mailbox = Mailbox(size: nat, byPriority: bool, mails: seq<int>, senders: Queue, receivers: Queue)

  /** What happened, in order; it is only recorded. */
  datatype Record = Sent(mail: int) | Got(mail: int) | Emptied

  datatype System = System(box: Mailbox, prio: Priorities, status: Threads, log: seq<Record>)

  function StatusOf(status: Threads, t: Thread): Status {
    if t in status then status[t] else Idle
  }

  function QueueOf(b: Mailbox, side: Side): Queue {
    if side == Sender then b.senders else b.receivers
  }

  function WithQueue(b: Mailbox, side: Side, q: Queue): Mailbox {
    if side == Sender then b.(senders := q) else b.(receivers := q)
  }

  // ---------- the regions with interrupts disabled ----------

  /** Free slots for a sender, mails for a receiver. */
  function Room(b: Mailbox, side: Side): int {
    if side == Sender then b.size - |b.mails| else |b.mails|
  }

  datatype Outcome = Done | Refused | Blocked

  /** The part of rt_mb_send_wait or rt_mb_recv from a look at the mailbox to
      the next point where other threads may run. */
  function Look(b: Mailbox, prio: Priorities, t: Thread, side: Side, mail: int, timeout: int): (Mailbox, Outcome) {
    if Room(b, side) > 0 then (Proceed(b, side, mail), Done)
    else if timeout == 0 then (b, Refused)
    else (WithQueue(b, side, Enqueue(QueueOf(b, side), prio, t, b.byPriority)), Blocked)
  }

  /** A mail goes in or out, and the first thread waiting on the other side
      leaves its queue. */
  function Proceed(b: Mailbox, side: Side, mail: int): Mailbox
    requires Room(b, side) > 0
  {
    var moved := b.(mails := if side == Sender then b.mails + [mail] else b.mails[1..]);
    var q := QueueOf(b, Other(side));
    if q == [] then moved else WithQueue(moved, Other(side), q[1..])
  }

  // ---------- the machine ----------

  datatype Event =
    | DoLook(t: Thread, side: Side, mail: int, timeout: int) // rt_mb_send_wait, rt_mb_recv
    | DoLookAgain(t: Thread, elapsed: nat)                   // their retry loop
    | DoInterrupt(side: Side, mail: int)                     // a non-blocking call from an interrupt
    | DoTimeout(t: Thread)
    | DoReturn(t: Thread)
    | DoReset
    | DoSetPriority(t: Thread, p: int)

  function WakeFirst(q: Queue, status: Threads): Threads {
    if q == [] then status else
      var st := StatusOf(status, q[0]);
      if st.Waiting? then status[q[0] := Again(st.side, st.mail, st.timeout)] else status
  }

  /** `mine` is the threads' status with the caller's already changed. */
  function ProceedStep(s: System, mine: Threads, side: Side, mail: int): System
    requires Room(s.box, side) > 0
  {
    System(Proceed(s.box, side, mail), s.prio, WakeFirst(QueueOf(s.box, Other(side)), mine),
           s.log + [if side == Sender then Sent(mail) else Got(s.box.mails[0])])
  }

  function LookStep(s: System, t: Thread, side: Side, mail: int, timeout: int): System {
    var (b, out) := Look(s.box, s.prio, t, side, mail, timeout);
    match out
    case Done => ProceedStep(s, s.status[t := Idle], side, mail)
    case Refused => s.(status := s.status[t := Failing(if side == Sender then EFULL else ETIMEOUT)])
    case Blocked => s.(box := b, status := s.status[t := Waiting(side, mail, timeout)])
  }

  function Step(s: System, e: Event): System {
    match e
    case DoLook(t, side, mail, timeout) =>
      if StatusOf(s.status, t).Idle? then LookStep(s, t, side, mail, timeout) else s
    case DoLookAgain(t, elapsed) =>
      var st := StatusOf(s.status, t);
      if st.Again? then LookStep(s, t, st.side, st.mail, Left(st.timeout, elapsed)) else s
    case DoInterrupt(side, mail) =>
      if Room(s.box, side) > 0 then ProceedStep(s, s.status, side, mail) else s
    case DoTimeout(t) =>
      var st := StatusOf(s.status, t);
      if st.Waiting? && st.timeout > 0 then
        s.(box := WithQueue(s.box, st.side, Dequeue(QueueOf(s.box, st.side), t)), status := s.status[t := Failing(ETIMEOUT)])
      else s
    case DoReturn(t) => if StatusOf(s.status, t).Failing? then s.(status := s.status[t := Idle]) else s
    case DoReset =>
      s.(box := s.box.(mails := [], senders := [], receivers := []), log := s.log + [Emptied],
         status := map t | t in s.status :: if s.status[t].Waiting? then Failing(ERROR) else s.status[t])
    case DoSetPriority(t, p) => s.(prio := s.prio[t := p])
  }

  function Run(s: System, es: seq<Event>): System
    decreases |es|
  {
    if es == [] then s else Run(Step(s, es[0]), es[1..])
  }

  // ---------- the invariant ----------

  /** Woken threads that have not looked yet. */
  function Awake(status: Threads, side: Side): set<Thread> {
    set t | t in status && status[t].Again? && status[t].side == side
  }

  /** Waiting and being queued are the same. */
  ghost predicate Queued(q: Queue, status: Threads, side: Side) {
    && NoRepeats(q)
    && (forall t <- q :: t in status)
    && (forall t <- status :: t in q <==> status[t].Waiting? && status[t].side == side)
  }

  /** While somebody sleeps, whatever it sleeps for is spoken for: there is a
      woken thread, still to look, for each mail or free slot. */
  ghost predicate Live(b: Mailbox, status: Threads, side: Side) {
    QueueOf(b, side) != [] ==> Room(b, side) <= |Awake(status, side)|
  }

  ghost predicate Good(s: System) {
    && |s.box.mails| <= s.box.size
    && (forall side: Side :: Queued(QueueOf(s.box, side), s.status, side))
    && (forall side: Side :: Live(s.box, s.status, side))
    && Replay(s.log) == Some(s.box.mails)
  }

  /** The log read as a first-in first-out queue: None if some receiver got
      anything but the oldest mail. */
  function Replay(log: seq<Record>): Option<seq<int>>
    decreases |log|
  {
    if log == [] then Some([]) else After(Replay(log[..|log| - 1]), log[|log| - 1])
  }

  function After(q: Option<seq<int>>, e: Record): Option<seq<int>> {
    if q == None then None else
      match e
      case Sent(v) => Some(q.value + [v])
      case Got(v) => if q.value != [] && q.value[0] == v then Some(q.value[1..]) else None
      case Emptied => Some([])
  }

  // ---------- every step keeps it ----------

  predicate Is(st: Status, side: Side) {
    st.Again? && st.side == side
  }

  lemma {:induction false} AwakeSet(status: Threads, t: Thread, st: Status, side: Side)
    ensures Awake(status[t := st], side) == if Is(st, side) then Awake(status, side) + {t} else Awake(status, side) - {t}
    ensures t in Awake(status, side) <==> Is(StatusOf(status, t), side)
  {
  }

  lemma {:induction false} AwakeCount(status: Threads, t: Thread, st: Status, side: Side)
    ensures |Awake(status[t := st], side)| ==
            |Awake(status, side)| + (if Is(st, side) then 1 else 0) - (if Is(StatusOf(status, t), side) then 1 else 0)
    ensures Is(StatusOf(status, t), side) == Is(st, side) ==> Awake(status[t := st], side) == Awake(status, side)
  {
    hide Awake;
    AwakeSet(status, t, st, side);
    var was := Awake(status, side);
    if t in was { assert was == (was - {t}) + {t}; } else { assert was - {t} == was; }
  }

  /** The thread in front leaves its queue and is awake. */
  lemma {:induction false} WakeFirstGood(q: Queue, status: Threads, side: Side, o: Side)
    requires q != [] && Queued(q, status, side)
    ensures Queued(q[1..], WakeFirst(q, status), side)
    ensures |Awake(WakeFirst(q, status), side)| == |Awake(status, side)| + 1
    ensures o != side ==> Awake(WakeFirst(q, status), o) == Awake(status, o)
    ensures forall p :: o != side && Queued(p, status, o) ==> Queued(p, WakeFirst(q, status), o)
  {
    hide NoRepeats, Awake;
    var st := status[q[0]];
    FirstOut(q);
    AwakeCount(status, q[0], Again(st.side, st.mail, st.timeout), side);
    AwakeCount(status, q[0], Again(st.side, st.mail, st.timeout), o);
  }

  lemma {:induction false} FirstOut(q: Queue)
    requires q != [] && NoRepeats(q)
    ensures NoRepeats(q[1..]) && forall t <- q :: t in q[1..] <==> t != q[0]
  {
    assert q == [q[0]] + q[1..];
  }

  predicate Sleeps(st: Status, side: Side) {
    st.Waiting? && st.side == side
  }

  lemma {:induction false} QueuedUpdate(q: Queue, status: Threads, side: Side, t: Thread, st: Status)
    requires Queued(q, status, side) && !Sleeps(StatusOf(status, t), side) && !Sleeps(st, side)
    ensures Queued(q, status[t := st], side)
  {
  }

  lemma {:induction false} QueuedEnter(q: Queue, status: Threads, side: Side, t: Thread, st: Status, prio: Priorities, byPriority: bool)
    requires Queued(q, status, side) && !Sleeps(StatusOf(status, t), side) && Sleeps(st, side)
    ensures Queued(Enqueue(q, prio, t, byPriority), status[t := st], side)
  {
    hide NoRepeats;
    EnqueueGood(q, prio, t, byPriority);
  }

  lemma {:induction false} QueuedLeave(q: Queue, status: Threads, side: Side, t: Thread, st: Status)
    requires Queued(q, status, side) && !Sleeps(st, side)
    ensures Queued(Dequeue(q, t), status[t := st], side)
  {
    hide NoRepeats;
    DequeueGood(q, map[], t);
  }

  lemma {:induction false} ReplaySnoc(log: seq<Record>, e: Record)
    ensures Replay(log + [e]) == After(Replay(log), e)
  {
    assert (log + [e])[..|log|] == log;
  }

  /** `lost` is whether the caller was itself awake on its side. */
  lemma {:induction false} ProceedGood(s: System, mine: Threads, side: Side, mail: int)
    requires Good(s) && Room(s.box, side) > 0
    requires forall o: Side :: Queued(QueueOf(s.box, o), mine, o)
    requires |Awake(mine, side)| >= |Awake(s.status, side)| - 1 && Awake(mine, Other(side)) == Awake(s.status, Other(side))
    ensures Good(ProceedStep(s, mine, side, mail))
  {
    hide Queued, Awake, WakeFirst;
    var r := ProceedStep(s, mine, side, mail);
    var q := QueueOf(s.box, Other(side));
    assert Live(s.box, s.status, side) && Live(s.box, s.status, Other(side));
    if q != [] {
      WakeFirstGood(q, mine, Other(side), side);
    } else {
      NoneWoken(q, mine);
    }
    forall o: Side ensures Queued(QueueOf(r.box, o), r.status, o) && Live(r.box, r.status, o) {
      assert o == side || o == Other(side);
    }
    ReplaySnoc(s.log, if side == Sender then Sent(mail) else Got(s.box.mails[0]));
  }

  lemma {:induction false} NoneWoken(q: Queue, status: Threads)
    requires q == []
    ensures WakeFirst(q, status) == status
  {
  }

  lemma {:induction false} LookGood(s: System, t: Thread, side: Side, mail: int, timeout: int)
    requires Good(s)
    requires var st := StatusOf(s.status, t); st.Idle? || (st.Again? && st.side == side)
    ensures Good(LookStep(s, t, side, mail, timeout))
  {
    hide Queued, Awake, Proceed;
    var r := LookStep(s, t, side, mail, timeout);
    var st := StatusOf(r.status, t);
    if Room(s.box, side) > 0 {
      forall x: Side ensures Queued(QueueOf(s.box, x), s.status[t := Idle], x) {
        QueuedUpdate(QueueOf(s.box, x), s.status, x, t, Idle);
      }
      AwakeCount(s.status, t, Idle, side);
      AwakeCount(s.status, t, Idle, Other(side));
      ProceedGood(s, s.status[t := Idle], side, mail);
    } else {
      forall x: Side ensures Queued(QueueOf(r.box, x), r.status, x) && Live(r.box, r.status, x) {
        assert Live(s.box, s.status, x);
        AwakeCount(s.status, t, st, x);
        if timeout != 0 && x == side {
          QueuedEnter(QueueOf(s.box, x), s.status, x, t, st, s.prio, s.box.byPriority);
        } else {
          QueuedUpdate(QueueOf(s.box, x), s.status, x, t, st);
        }
      }
    }
  }

  lemma {:induction false} TimeoutGood(s: System, t: Thread)
    requires Good(s)
    ensures Good(Step(s, DoTimeout(t)))
  {
    hide Queued, Awake;
    var r := Step(s, DoTimeout(t));
    var st := StatusOf(s.status, t);
    if st.Waiting? && st.timeout > 0 {
      forall x: Side ensures Queued(QueueOf(r.box, x), r.status, x) && Live(r.box, r.status, x) {
        assert Live(s.box, s.status, x);
        AwakeCount(s.status, t, Failing(ETIMEOUT), x);
        if x == st.side {
          QueuedLeave(QueueOf(s.box, x), s.status, x, t, Failing(ETIMEOUT));
          assert Dequeue([], t) == [];
        } else {
          QueuedUpdate(QueueOf(s.box, x), s.status, x, t, Failing(ETIMEOUT));
        }
      }
    }
  }

  lemma {:induction false} StepGood(s: System, e: Event)
    requires Good(s)
    ensures Good(Step(s, e))
  {
    hide NoRepeats, LookStep, ProceedStep;
    match e
    case DoLook(t, side, mail, timeout) =>
      if StatusOf(s.status, t).Idle? { LookGood(s, t, side, mail, timeout); }
    case DoLookAgain(t, elapsed) =>
      var st := StatusOf(s.status, t);
      if st.Again? { LookGood(s, t, st.side, st.mail, Left(st.timeout, elapsed)); }
    case DoInterrupt(side, mail) =>
      if Room(s.box, side) > 0 { ProceedGood(s, s.status, side, mail); }
    case DoTimeout(t) => TimeoutGood(s, t);
    case DoReturn(t) => ReturnGood(s, t);
    case DoReset => ResetGood(s);
    case DoSetPriority(t, p) =>
  }

  lemma {:induction false} ReturnGood(s: System, t: Thread)
    requires Good(s)
    ensures Good(Step(s, DoReturn(t)))
  {
    hide Queued, Awake;
    var r := Step(s, DoReturn(t));
    if StatusOf(s.status, t).Failing? {
      forall x: Side ensures Queued(QueueOf(r.box, x), r.status, x) && Live(r.box, r.status, x) {
        assert Live(s.box, s.status, x);
        QueuedUpdate(QueueOf(s.box, x), s.status, x, t, Idle);
        AwakeCount(s.status, t, Idle, x);
      }
    }
  }

  lemma {:induction false} ResetGood(s: System)
    requires Good(s)
    ensures Good(Step(s, DoReset))
  {
    var r := Step(s, DoReset);
    ReplaySnoc(s.log, Emptied);
    forall x: Side ensures Queued(QueueOf(r.box, x), r.status, x) && Live(r.box, r.status, x) {
    }
  }

  /** A mailbox just made by rt_mb_init, with nobody at it. */
  ghost predicate Initial(s: System) {
    && s.box.mails == [] && s.box.senders == [] && s.box.receivers == [] && s.log == []
    && forall t <- s.status :: s.status[t] == Idle
  }

  lemma {:induction false} InitialGood(s: System)
    requires Initial(s)
    ensures Good(s)
  {
  }

  /** In every interleaving of sends, receives, retries, timeouts and resets a
      sleeping receiver has a woken one ahead of it for each mail, a sleeping
      sender a woken one for each free slot, and mails come out once each, in
      the order they went in. */
  lemma {:induction false} RunGood(s: System, es: seq<Event>)
    requires Good(s)
    ensures Good(Run(s, es))
    decreases |es|
  {
    hide Good, Step;
    if es != [] {
      StepGood(s, es[0]);
      RunGood(Step(s, es[0]), es[1..]);
    }
  }

  /** When all woken threads have looked, a receiver sleeps only on an empty
      mailbox, a sender only on a full one, and never both. */
  lemma {:induction false} NoLostWakeUp(s: System, es: seq<Event>)
    requires Good(s)
    requires forall side: Side :: Awake(Run(s, es).status, side) == {}
    ensures var b := Run(s, es).box;
            && (b.receivers != [] ==> b.mails == [])
            && (b.senders != [] ==> |b.mails| == b.size)
            && (b.size > 0 ==> b.receivers == [] || b.senders == [])
  {
    RunGood(s, es);
    SizeKept(s, es);
    var r := Run(s, es);
    assert Live(r.box, r.status, Sender) && Live(r.box, r.status, Receiver);
    assert Awake(r.status, Sender) == {} && Awake(r.status, Receiver) == {};
  }

  lemma {:induction false} StepSize(s: System, e: Event)
    ensures Step(s, e).box.size == s.box.size
  {
  }

  lemma {:induction false} SizeKept(s: System, es: seq<Event>)
    ensures Run(s, es).box.size == s.box.size
    decreases |es|
  {
    hide Step;
    if es != [] {
      StepSize(s, es[0]);
      SizeKept(Step(s, es[0]), es[1..]);
    }
  }

  // ---------- order of delivery ----------

  function SentOf(log: seq<Record>): seq<int>
    decreases |log|
  {
    if log == [] then [] else
      SentOf(log[..|log| - 1]) + (if log[|log| - 1].Sent? then [log[|log| - 1].mail] else [])
  }

  function GotOf(log: seq<Record>): seq<int>
    decreases |log|
  {
    if log == [] then [] else
      GotOf(log[..|log| - 1]) + (if log[|log| - 1].Got? then [log[|log| - 1].mail] else [])
  }

  /** Without a reset what was sent is what was received, then what is still
      there. */
  lemma {:induction false} EachMailOnceInOrder(log: seq<Record>)
    requires Replay(log).Some? && Emptied !in log
    ensures SentOf(log) == GotOf(log) + Replay(log).value
    decreases |log|
  {
    if log != [] {
      var was := log[..|log| - 1];
      EachMailOnceInOrder(was);
      var q := Replay(was).value;
      match log[|log| - 1]
      case Sent(v) => assert GotOf(was) + q + [v] == GotOf(was) + (q + [v]);
      case Got(v) => assert GotOf(was) + [q[0]] + q[1..] == GotOf(was) + q;
      case Emptied =>
    }
  }

  // ---------- what the calls answer ----------

  /** A sender finds room while there is a free slot, a receiver while there is
      a mail. */
  predicate HasRoom(b: Mailbox, side: Side) {
    match side
    case Sender => |b.mails| < b.size
    case Receiver => b.mails != []
  }

  /** rt_mb_send_wait and rt_mb_recv: done if there is room, whatever the
      timeout; otherwise an error at once if the timeout is zero, and else the
      caller is one more waiter on its side. */
  lemma {:induction false} LookAnswers(s: System, t: Thread, side: Side, mail: int, timeout: int)
    requires Good(s) && StatusOf(s.status, t) == Idle
    ensures var r := Step(s, DoLook(t, side, mail, timeout));
            var st := StatusOf(r.status, t);
            && (st == Idle <==> HasRoom(s.box, side))
            && (st == Failing(if side == Sender then EFULL else ETIMEOUT) <==> !HasRoom(s.box, side) && timeout == 0)
            && (st == Waiting(side, mail, timeout) <==> !HasRoom(s.box, side) && timeout != 0)
            && (HasRoom(s.box, side) ==>
                  && (side == Sender ==> r.box.mails == s.box.mails + [mail] && r.log == s.log + [Sent(mail)])
                  && (side == Receiver ==> s.box.mails == [s.box.mails[0]] + r.box.mails && r.log == s.log + [Got(s.box.mails[0])]))
            && (!HasRoom(s.box, side) ==> r.box.mails == s.box.mails && r.log == s.log)
            && (!HasRoom(s.box, side) && timeout == 0 ==> r.box == s.box)
            && (!HasRoom(s.box, side) && timeout != 0 ==>
                  && QueueOf(r.box, Other(side)) == QueueOf(s.box, Other(side))
                  && forall u: Thread :: u in QueueOf(r.box, side) <==> u == t || u in QueueOf(s.box, side))
  {
    hide Replay, Awake, Enqueue, NoRepeats;
    var q := QueueOf(s.box, Other(side));
    if HasRoom(s.box, side) && q != [] { assert Queued(q, s.status, Other(side)); }
  }

  /** Who is woken by it: with room the thread that waits in front on the other
      side, which looks again with the mail and the timeout it came with; nobody
      else. */
  lemma {:induction false} LookWakes(s: System, t: Thread, side: Side, mail: int, timeout: int)
    requires Good(s) && StatusOf(s.status, t) == Idle
    ensures var r := Step(s, DoLook(t, side, mail, timeout));
            var q := QueueOf(s.box, Other(side));
            && (HasRoom(s.box, side) && q != [] ==>
                  && q[0] != t && StatusOf(s.status, q[0]).Waiting?
                  && StatusOf(r.status, q[0]) == Again(StatusOf(s.status, q[0]).side, StatusOf(s.status, q[0]).mail, StatusOf(s.status, q[0]).timeout)
                  && [q[0]] + QueueOf(r.box, Other(side)) == q)
            && forall u: Thread :: u != t && !(HasRoom(s.box, side) && q != [] && u == q[0]) ==> StatusOf(r.status, u) == StatusOf(s.status, u)
  {
    hide Replay, Awake, Enqueue, NoRepeats;
    var q := QueueOf(s.box, Other(side));
    if q != [] { assert Queued(q, s.status, Other(side)); }
  }

  /** A woken thread looks as in a fresh call with the time it has left. */
  lemma {:induction false} AgainIsFresh(s: System, t: Thread, elapsed: nat)
    requires StatusOf(s.status, t).Again?
    ensures var st := StatusOf(s.status, t);
            Step(s, DoLookAgain(t, elapsed)) ==
            Step(s.(status := s.status[t := Idle]), DoLook(t, st.side, st.mail, Left(st.timeout, elapsed)))
  {
    var st, was := StatusOf(s.status, t), s.status[t := Idle];
    assert was[t := Idle] == s.status[t := Idle];
    var x, y := Failing(if st.side == Sender then EFULL else ETIMEOUT), Waiting(st.side, st.mail, Left(st.timeout, elapsed));
    assert was[t := x] == s.status[t := x] && was[t := y] == s.status[t := y];
  }

  /** A call from an interrupt does what a thread's call that does not wait does. */
  lemma {:induction false} InterruptIsLook(s: System, t: Thread, side: Side, mail: int)
    requires Good(s) && t in s.status && s.status[t] == Idle
    ensures var r := Step(s, DoLook(t, side, mail, 0));
            Step(s, DoInterrupt(side, mail)) == r.(status := r.status[t := Idle])
  {
    hide Replay, Awake, NoRepeats;
    assert s.status[t := Idle] == s.status;
    assert forall o: Side :: Queued(QueueOf(s.box, o), s.status, o);
    if Room(s.box, side) <= 0 {
      var x := Failing(if side == Sender then EFULL else ETIMEOUT);
      assert s.status[t := x][t := Idle] == s.status;
    } else {
      var r := Step(s, DoLook(t, side, mail, 0));
      assert r.status[t := Idle] == r.status;
    }
  }

  /** A wait with a timeout can end in an error at any time, one without cannot;
      a call that is over returns; a reset ends every wait in an error and
      leaves an empty mailbox. */
  lemma {:induction false} WaitEnds(s: System, t: Thread)
    requires Good(s)
    ensures var r, st := Step(s, DoTimeout(t)), StatusOf(s.status, t);
            && (st.Waiting? && st.timeout > 0 ==>
                  && r.status == s.status[t := Failing(ETIMEOUT)] && r.box.mails == s.box.mails
                  && QueueOf(r.box, Other(st.side)) == QueueOf(s.box, Other(st.side))
                  && forall u: Thread :: u in QueueOf(r.box, st.side) <==> u != t && u in QueueOf(s.box, st.side))
            && (!(st.Waiting? && st.timeout > 0) ==> r == s)
    ensures var r := Step(s, DoReturn(t));
            && StatusOf(r.status, t) == (if StatusOf(s.status, t).Failing? then Idle else StatusOf(s.status, t))
            && r == s.(status := r.status) && forall u: Thread :: u != t ==> StatusOf(r.status, u) == StatusOf(s.status, u)
    ensures var r, st := Step(s, DoReset), StatusOf(s.status, t);
            && r.box.mails == [] && r.box.senders == [] && r.box.receivers == []
            && StatusOf(r.status, t) == if st.Waiting? then Failing(ERROR) else st
  {
    hide Replay, Awake, NoRepeats;
    var st := StatusOf(s.status, t);
    if st.Waiting? {
      assert Queued(QueueOf(s.box, st.side), s.status, st.side);
      DequeueGood(QueueOf(s.box, st.side), s.prio, t);
    }
  }

  /** A priority set from outside is the one the next wait queues by. */
  lemma PrioritySet(s: System, t: Thread, p: int)
    ensures var r := Step(s, DoSetPriority(t, p));
            r == s.(prio := r.prio) && forall u: Thread :: Of(r.prio, u) == if u == t then p else Of(s.prio, u)
  {
  }

  /** A run is its first part and then the rest. */
  lemma {:induction false} RunConcat(s: System, es: seq<Event>, more: seq<Event>)
    ensures Run(s, es + more) == Run(Run(s, es), more)
    ensures forall e :: Run(s, [e]) == Step(s, e)
    decreases |es|
  {
    hide Step;
    OneStep(s);
    if es == [] {
      assert es + more == more;
    } else {
      assert (es + more)[0] == es[0] && (es + more)[1..] == es[1..] + more;
      RunConcat(Step(s, es[0]), es[1..], more);
    }
  }

  lemma OneStep(s: System)
    ensures forall e :: Run(s, [e]) == Step(s, e)
  {
    hide Step;
    forall e: Event ensures Run(s, [e]) == Step(s, e) {
      assert [e][1..] == [];
    }
  }
}
