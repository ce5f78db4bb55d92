/**
  The kernel's mailbox: a ring of `size` slots between an input and an output
  offset, and two queues of sleeping threads (ipc.c).  Each method is one
  region that runs with interrupts disabled, proved to be the step of
  MailboxProtocol it stands for.
*/
module MailboxRing {
  import opened ThreadObject
  import opened WaitQueue
  import opened MailboxProtocol

  // ---------- the ring ----------

  function Slot(from: int, i: int, n: int): int
    requires n > 0
  {
    (from + i) % n
  }

  /** The `count` mails from slot `from` on. */
  function Mails(pool: seq<int>, from: int, count: nat): (m: seq<int>)
    requires count <= |pool| && (0 <= from < |pool| || count == 0)
    ensures |m| == count
  {
    seq(count, i requires 0 <= i < count => pool[Slot(from, i, |pool|)])
  }

  lemma {:induction false} SlotIs(from: int, i: int, n: int)
    requires 0 <= from < n && 0 <= i <= n
    ensures Slot(from, i, n) == if from + i < n then from + i else from + i - n
  {
  }

  lemma {:induction false} PutIsAppend(pool: seq<int>, from: int, count: nat, v: int)
    requires count < |pool| && 0 <= from < |pool|
    ensures Mails(pool[Slot(from, count, |pool|) := v], from, count + 1) == Mails(pool, from, count) + [v]
  {
    var n := |pool|;
    var now := pool[Slot(from, count, n) := v];
    SlotIs(from, count, n);
    forall i | 0 <= i < count ensures Mails(now, from, count + 1)[i] == Mails(pool, from, count)[i] {
      SlotIs(from, i, n);
    }
  }

  lemma {:induction false} TakeIsRest(pool: seq<int>, from: int, count: nat)
    requires 0 < count <= |pool| && 0 <= from < |pool|
    ensures pool[from] == Mails(pool, from, count)[0]
    ensures Mails(pool, Slot(from, 1, |pool|), count - 1) == Mails(pool, from, count)[1..]
  {
    var n := |pool|;
    SlotIs(from, 1, n);
    SlotIs(from, 0, n);
    var next := Slot(from, 1, n);
    var a, b := Mails(pool, next, count - 1), Mails(pool, from, count)[1..];
    forall i | 0 <= i < count - 1 ensures a[i] == b[i] {
      SlotIs(next, i, n);
      SlotIs(from, i + 1, n);
    }
  }

  lemma {:induction false} InFollows(from: int, count: nat, n: int)
    requires 0 <= from < n && count <= n
    ensures count < n ==> Slot(from, count + 1, n) == Slot(Slot(from, count, n), 1, n)
    ensures count > 0 ==> Slot(Slot(from, 1, n), count - 1, n) == Slot(from, count, n)
  {
    hide Slot;
    SlotIs(from, count, n);
    SlotIs(Slot(from, count, n), 1, n);
    SlotIs(from, 1, n);
    if count > 0 { SlotIs(Slot(from, 1, n), count - 1, n); }
    if count + 1 <= n { SlotIs(from, count + 1, n); }
  }

  // ---------- struct rt_mailbox ----------

  class RtMailbox {
    const msgPool: array<int>
    const byPriority: bool
    var entry: nat
    var inOffset: nat
    var outOffset: nat
    var receivers: Queue // parent.suspend_thread
    var senders: Queue   // suspend_sender_thread

    ghost predicate Valid()
      reads this
    {
      var size := msgPool.Length;
      && entry <= size
      && (size > 0 ==> outOffset < size && inOffset == Slot(outOffset, entry, size))
    }

    ghost predicate Within(threads: set<Thread>)
      reads this`receivers, this`senders
    {
      && (forall t <- receivers :: t in threads)
      && (forall t <- senders :: t in threads)
    }

    ghost function Abstract(): Mailbox
      reads this, msgPool
      requires Valid()
    {
      Mailbox(msgPool.Length, byPriority, Mails(msgPool[..], outOffset, entry), senders, receivers)
    }

    constructor (size: nat, byPriority: bool)
      ensures Valid() && fresh(msgPool)
      ensures Abstract() == Mailbox(size, byPriority, [], [], [])
    {
      msgPool := new int[size];
      this.byPriority := byPriority;
      entry, inOffset, outOffset, receivers, senders := 0, 0, 0, [], [];
    }

    /** The mail goes to the input offset, which moves on around the ring. */
    method PutMail(mail: int)
      requires Valid() && entry < msgPool.Length
      modifies this`entry, this`inOffset, msgPool
      ensures Valid() && Abstract() == old(Abstract()).(mails := old(Abstract()).mails + [mail])
    {
      hide Mails, Slot;
      ghost var was := msgPool[..];
      PutIsAppend(was, outOffset, entry, mail);
      InFollows(outOffset, entry, msgPool.Length);
      SlotIs(inOffset, 1, msgPool.Length) by { InRange(); }
      InRange();
      msgPool[inOffset] := mail;
      assert msgPool[..] == was[inOffset := mail];
      inOffset := inOffset + 1;
      if inOffset >= msgPool.Length {
        inOffset := 0;
      }
      entry := entry + 1;
    }

    /** The mail at the output offset is taken. */
    method TakeMail() returns (mail: int)
      requires Valid() && entry > 0
      modifies this`entry, this`outOffset
      ensures Valid() && old(Abstract()).mails != [] && mail == old(Abstract()).mails[0]
      ensures Abstract() == old(Abstract()).(mails := old(Abstract()).mails[1..])
    {
      hide Mails, Slot;
      TakeIsRest(msgPool[..], outOffset, entry);
      InFollows(outOffset, entry, msgPool.Length);
      SlotIs(outOffset, 1, msgPool.Length);
      mail := msgPool[outOffset];
      outOffset := outOffset + 1;
      if outOffset >= msgPool.Length {
        outOffset := 0;
      }
      entry := entry - 1;
    }

    /** rt_mb_send_wait, from a look at the mailbox to the next switch: the
        loop of the original is one such pass per wake-up. */
    method SendPass(t: Thread, mail: int, timeout: int, retry: bool, ghost threads: set<Thread>) returns (out: Outcome)
      requires Valid() && Within(threads) && t in threads
      modifies this, msgPool, threads
      ensures Valid() && Within(threads) && PrioritiesOf(threads) == old(PrioritiesOf(threads))
      ensures (Abstract(), out) == Look(old(Abstract()), PrioritiesOf(threads), t, Sender, mail, timeout)
      ensures out == Refused && retry ==> t.error == EOK
      ensures out == Blocked ==> t.stat == Suspended && t.error == EOK
      ensures forall u <- threads :: u != t ==>
                && u.error == old(u.error)
                && u.stat == if out == Done && u in Front(old(receivers)) then Ready else old(u.stat)
    {
      hide Enqueue, Mails, Slot;
      ghost var prio := PrioritiesOf(threads);
      if entry == msgPool.Length {
        if timeout == 0 && !retry {
          return Refused;
        }
        t.error := EOK;
        assert PrioritiesOf(threads) == prio;
        if timeout == 0 {
          return Refused;
        }
        senders := Suspend(senders, t, byPriority, threads);
        return Blocked;
      }
      PutMail(mail);
      if receivers != [] {
        var first := receivers[0];
        receivers := receivers[1..];
        first.stat := Ready;
      }
      assert PrioritiesOf(threads) == prio;
      return Done;
    }

    lemma InRange()
      requires Valid() && msgPool.Length > 0
      ensures inOffset < msgPool.Length
    {
      SlotIs(outOffset, entry, msgPool.Length);
    }

    /** rt_mb_recv, likewise. */
    method ReceivePass(t: Thread, timeout: int, retry: bool, ghost threads: set<Thread>) returns (out: Outcome, mail: int)
      requires Valid() && Within(threads) && t in threads
      modifies this, threads
      ensures Valid() && Within(threads) && PrioritiesOf(threads) == old(PrioritiesOf(threads))
      ensures (Abstract(), out) == Look(old(Abstract()), PrioritiesOf(threads), t, Receiver, mail, timeout)
      ensures out == Done ==> mail == old(Abstract()).mails[0]
      ensures out == Refused && retry ==> t.error == ETIMEOUT
      ensures out == Blocked ==> t.stat == Suspended && t.error == EOK
      ensures forall u <- threads :: u != t ==>
                && u.error == old(u.error)
                && u.stat == if out == Done && u in Front(old(senders)) then Ready else old(u.stat)
    {
      hide Enqueue, Mails, Slot;
      ghost var prio := PrioritiesOf(threads);
      mail := 0;
      if entry == 0 {
        if timeout == 0 && !retry {
          return Refused, mail;
        }
        t.error := EOK;
        assert PrioritiesOf(threads) == prio;
        if timeout == 0 {
          t.error := ETIMEOUT;
          assert PrioritiesOf(threads) == prio;
          return Refused, mail;
        }
        receivers := Suspend(receivers, t, byPriority, threads);
        return Blocked, mail;
      }
      mail := TakeMail();
      if senders != [] {
        var first := senders[0];
        senders := senders[1..];
        first.stat := Ready;
      }
      assert PrioritiesOf(threads) == prio;
      return Done, mail;
    }

    /** rt_mb_control with RT_IPC_CMD_RESET: everyone asleep is woken with an
        error, and the mailbox is empty. */
    method Reset(ghost threads: set<Thread>)
      requires Valid() && Within(threads)
      modifies this, threads
      ensures Valid() && Abstract() == old(Abstract()).(mails := [], senders := [], receivers := [])
      ensures forall t <- old(receivers) + old(senders) :: t.stat == Ready && t.error == ERROR
      ensures forall t <- threads :: t !in old(receivers) + old(senders) ==> t.stat == old(t.stat) && t.error == old(t.error)
    {
      hide Slot;
      ResumeAll(receivers, threads);
      receivers := [];
      ResumeAll(senders, threads);
      senders := [];
      entry, inOffset, outOffset := 0, 0, 0;
      if msgPool.Length > 0 { SlotIs(0, 0, msgPool.Length); }
    }
  }

  /** rt_ipc_list_resume_all. */
  method ResumeAll(q: Queue, ghost threads: set<Thread>)
    requires forall t <- q :: t in threads
    modifies threads
    ensures forall t <- q :: t.stat == Ready && t.error == ERROR
    ensures forall t <- threads :: t !in q ==> t.stat == old(t.stat) && t.error == old(t.error)
    ensures forall t <- threads :: t.currentPriority == old(t.currentPriority)
  {
    var left := q;
    while left != []
      invariant |left| <= |q| && left == q[|q| - |left|..]
      invariant forall t <- q[..|q| - |left|] :: t.stat == Ready && t.error == ERROR
      invariant forall t <- threads :: t !in q ==> t.stat == old(t.stat) && t.error == old(t.error)
      invariant forall t <- threads :: t.currentPriority == old(t.currentPriority)
    {
      var t := left[0];
      t.error := ERROR;
      t.stat := Ready;
      left := left[1..];
    }
    assert q[..|q| - |left|] == q;
  }
}
