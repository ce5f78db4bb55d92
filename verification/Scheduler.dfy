/**
  The scheduler (scheduler.c, thread.c, clock.c): one queue of ready threads
  per priority, and a bitmap that says which queues are not empty.  Every
  transition of a started thread keeps the two in agreement.
*/
module Scheduler {
  import opened ThreadObject
  import opened WaitQueue
  import opened BinaryDigits
  import opened ReadyBits
  import opened RoundRobin

  /** The most urgent level with a ready thread. */
  ghost predicate MostUrgent(queues: seq<Queue>, p: nat) {
    p < |queues| && queues[p] != [] && forall q :: 0 <= q < p ==> queues[q] == []
  }

  /** Bit p is set exactly when queue p has a thread. */
  ghost predicate Agrees(queues: seq<Queue>, r: ReadyMap) {
    && 0 < r.levels <= 256 && |queues| == r.levels
    && Sound(r)
    && (forall p: nat :: Shows(r, p) <==> p < r.levels && queues[p] != [])
  }

  lemma {:induction false} AgreesMark(queues: seq<Queue>, r: ReadyMap, p: nat, q: Queue)
    requires Agrees(queues, r) && p < r.levels && q != []
    ensures Agrees(queues[p := q], Mark(r, Number(r.levels, p), GroupBit(r.levels, p), HighBit(r.levels, p)))
  {
    hide Shows, Mark, Sound;
    MarkIs(r, p);
  }

  lemma {:induction false} AgreesUnmark(queues: seq<Queue>, r: ReadyMap, p: nat, q: Queue)
    requires Agrees(queues, r) && p < r.levels
    ensures q == [] ==> Agrees(queues[p := q], Unmark(r, Number(r.levels, p), GroupBit(r.levels, p), HighBit(r.levels, p)))
    ensures q != [] && queues[p] != [] ==> Agrees(queues[p := q], r)
  {
    hide Shows, Unmark, Sound;
    UnmarkIs(r, p);
  }

  class System {
    const levels: nat        // RT_THREAD_PRIORITY_MAX
    var queues: seq<Queue>   // rt_thread_priority_table
    var group: nat           // rt_thread_ready_priority_group
    var table: seq<nat>      // rt_thread_ready_table
    var current: Thread?     // rt_current_thread
    var currentPriority: int // rt_current_priority
    var lockNest: int        // rt_scheduler_lock_nest

    ghost function Map(): ReadyMap
      reads this`group, this`table
    {
      ReadyMap(levels, group, table)
    }

    ghost predicate BitmapAgrees()
      reads this`group, this`table, this`queues
    {
      Agrees(queues, Map())
    }

    ghost predicate Placed(t: Thread)
      reads t
    {
      && 0 <= t.currentPriority < levels
      && t.number == Number(levels, t.currentPriority)
      && t.groupBit == GroupBit(levels, t.currentPriority)
      && t.highBit == HighBit(levels, t.currentPriority)
    }

    /** The ready threads, and no others, are queued, once each, at their own
        priority; `out` is a thread in the middle of a transition. */
    ghost predicate QueuesAgree(threads: set<Thread>, out: Thread?)
      reads this`queues, threads
    {
      && |queues| == levels
      && (forall p :: 0 <= p < levels ==> NoRepeats(queues[p]))
      && (forall p, t | 0 <= p < levels && t in queues[p] :: t in threads && t != out && t.stat == Ready && t.currentPriority == p)
      && (forall t <- threads :: t != out && t.stat != Init ==> Placed(t))
      && (forall t <- threads :: t != out && t.stat == Ready ==> t in queues[t.currentPriority])
      && (forall t <- threads :: t.initTick > 0 && 0 <= t.initPriority < levels)
    }

    ghost predicate Valid(threads: set<Thread>)
      reads this, threads
    {
      BitmapAgrees() && QueuesAgree(threads, null) && lockNest >= 0
    }

    /** An idle thread is always ready, so there is something to run. */
    ghost predicate Busy()
      reads this`queues
    {
      exists p :: 0 <= p < |queues| && queues[p] != []
    }

    /** The running thread is the one the scheduler would choose. */
    ghost predicate Settled()
      reads this`queues, this`current
    {
      exists p: nat :: MostUrgent(queues, p) && current == queues[p][0]
    }

    /** rt_system_scheduler_init. */
    constructor (levels: nat)
      requires 0 < levels <= 256
      ensures this.levels == levels && forall threads: set<Thread> ::
                (forall t <- threads :: t.stat == Init && t.initTick > 0 && 0 <= t.initPriority < levels) ==> Valid(threads)
      ensures current == null && lockNest == 0 && queues == seq(levels, p => [])
    {
      this.levels := levels;
      queues := seq(levels, p => []);
      group, table := 0, seq(32, n => 0);
      current, currentPriority, lockNest := null, levels - 1, 0;
      new;
      forall p: nat ensures !Shows(Map(), p) {
        ZeroHasNoBit(p);
        ZeroHasNoBit(p % 8);
      }
      forall n | 0 <= n < 32 ensures !Bit(group, n) { ZeroHasNoBit(n); }
      Word();
    }

    /** rt_schedule: unless the scheduler is locked, the first thread of the
        most urgent queue runs. */
    method Schedule(ghost threads: set<Thread>)
      requires Valid(threads) && (lockNest == 0 ==> Busy())
      modifies this`current, this`currentPriority
      ensures Valid(threads)
      ensures lockNest == 0 ==> Settled()
      ensures lockNest != 0 ==> current == old(current) && currentPriority == old(currentPriority)
    {
      hide NoRepeats, QueuesAgree;
      if lockNest == 0 {
        ghost var p :| 0 <= p < |queues| && queues[p] != [];
        assert Shows(Map(), p);
        FirstIs(Map(), p);
        var highest := First(ReadyMap(levels, group, table));
        assert Shows(Map(), highest);
        assert MostUrgent(queues, highest) by {
          forall q | 0 <= q < highest ensures queues[q] == [] { assert !Shows(Map(), q); }
        }
        var to := queues[highest][0];
        if to != current {
          currentPriority := highest;
          current := to;
        }
      }
    }

    /** rt_schedule_insert_thread. */
    method Insert(t: Thread, ghost threads: set<Thread>)
      requires BitmapAgrees() && QueuesAgree(threads, t) && t in threads && Placed(t)
      modifies this`queues, this`group, this`table, t`stat
      ensures BitmapAgrees() && QueuesAgree(threads, null)
      ensures t.stat == Ready && queues == old(queues)[t.currentPriority := old(queues)[t.currentPriority] + [t]]
    {
      hide Agrees, Mark;
      ghost var p := t.currentPriority;
      InTable(t);
      AgreesMark(queues, Map(), p, queues[p] + [t]);
      PutLast(t, threads);
      if levels > 32 {
        table := table[t.number := SetBit(table[t.number], t.highBit)];
      }
      group := SetBit(group, t.groupBit);
      assert Map() == Mark(old(Map()), t.number, t.groupBit, t.highBit) by { MarkUnfolds(old(Map()), t); }
    }

    lemma InTable(t: Thread)
      requires BitmapAgrees() && Placed(t)
      ensures |table| == 32 && t.number < 32
    {
    }

    lemma MarkUnfolds(r: ReadyMap, t: Thread)
      requires t.number < |r.table|
      ensures Mark(r, t.number, t.groupBit, t.highBit) ==
              ReadyMap(r.levels, SetBit(r.group, t.groupBit),
                       if r.levels > 32 then r.table[t.number := SetBit(r.table[t.number], t.highBit)] else r.table)
    {
    }

    /** Ready, and at the end of the queue of its priority. */
    method PutLast(t: Thread, ghost threads: set<Thread>)
      requires QueuesAgree(threads, t) && t in threads && Placed(t)
      modifies this`queues, t`stat
      ensures QueuesAgree(threads, null)
      ensures t.stat == Ready && queues == old(queues)[t.currentPriority := old(queues)[t.currentPriority] + [t]]
    {
      hide NoRepeats;
      var p := t.currentPriority;
      t.stat := Ready;
      AppendOne(queues[p], t);
      queues := queues[p := queues[p] + [t]];
    }

    /** rt_schedule_remove_thread: also for a thread that is in some other list,
        or in none. */
    method Remove(t: Thread, ghost threads: set<Thread>)
      requires BitmapAgrees() && t in threads && Placed(t)
      requires QueuesAgree(threads, null) || QueuesAgree(threads, t)
      modifies this`queues, this`group, this`table
      ensures BitmapAgrees() && QueuesAgree(threads, t)
      ensures queues == old(queues)[t.currentPriority := Dequeue(old(queues)[t.currentPriority], t)]
    {
      hide Agrees, Unmark, Dequeue;
      ghost var p := t.currentPriority;
      InTable(t);
      AgreesUnmark(queues, Map(), p, Dequeue(queues[p], t));
      UnmarkUnfolds(Map(), t);
      TakeOut(t, threads);
      if queues[t.currentPriority] == [] {
        if levels > 32 {
          table := table[t.number := ClearBit(table[t.number], t.highBit)];
          if table[t.number] == 0 {
            group := ClearBit(group, t.groupBit);
          }
        } else {
          group := ClearBit(group, t.groupBit);
        }
        assert Map() == Unmark(old(Map()), t.number, t.groupBit, t.highBit);
      }
    }

    lemma UnmarkUnfolds(r: ReadyMap, t: Thread)
      requires t.number < |r.table|
      ensures Unmark(r, t.number, t.groupBit, t.highBit) ==
              var table := if r.levels > 32 then r.table[t.number := ClearBit(r.table[t.number], t.highBit)] else r.table;
              ReadyMap(r.levels, if r.levels <= 32 || table[t.number] == 0 then ClearBit(r.group, t.groupBit) else r.group, table)
    {
    }

    method TakeOut(t: Thread, ghost threads: set<Thread>)
      requires t in threads && Placed(t)
      requires QueuesAgree(threads, null) || QueuesAgree(threads, t)
      modifies this`queues
      ensures QueuesAgree(threads, t)
      ensures queues == old(queues)[t.currentPriority := Dequeue(old(queues)[t.currentPriority], t)]
      ensures old(queues)[t.currentPriority] == [] ==> queues[t.currentPriority] == []
    {
      hide NoRepeats;
      var p := t.currentPriority;
      DequeueGood(queues[p], map[], t);
      queues := queues[p := Dequeue(queues[p], t)];
    }

    // ---------- transitions of a thread ----------

    /** The masks of the current priority, as rt_thread_startup and
        rt_thread_control compute them. */
    method ComputeMasks(t: Thread)
      requires 0 <= t.currentPriority < levels
      modifies t`number, t`groupBit, t`highBit
      ensures Placed(t)
    {
      if levels > 32 {
        t.number := t.currentPriority / 8;
        t.groupBit := t.number;
        t.highBit := t.currentPriority % 8;
      } else {
        t.number, t.groupBit, t.highBit := 0, t.currentPriority, 0;
      }
    }

    /** rt_thread_startup. */
    method Startup(t: Thread, ghost threads: set<Thread>)
      requires Valid(threads) && t in threads && t.stat == Init
      modifies this`queues, this`group, this`table, this`current, this`currentPriority
      modifies t`currentPriority, t`number, t`groupBit, t`highBit, t`stat
      ensures Valid(threads) && t.stat == Ready && t.currentPriority == t.initPriority
      ensures queues == old(queues)[t.initPriority := old(queues)[t.initPriority] + [t]]
      ensures old(current) != null && lockNest == 0 ==> Settled()
      ensures old(current) == null ==> current == null
    {
      hide Agrees, NoRepeats, Shows, Placed;
      Prepare(t, threads);
      ghost var started := Resume(t, threads);
      if current != null {
        Reschedule(t, threads);
      }
    }

    /** A new thread gets its priority, and its masks, and counts as suspended. */
    method Prepare(t: Thread, ghost threads: set<Thread>)
      requires Valid(threads) && t in threads && t.stat == Init
      modifies t`currentPriority, t`number, t`groupBit, t`highBit, t`stat
      ensures Valid(threads) && t.stat == Suspended && t.currentPriority == t.initPriority
    {
      hide Agrees, NoRepeats;
      assert forall p | 0 <= p < levels :: t !in queues[p];
      t.currentPriority := t.initPriority;
      ComputeMasks(t);
      t.stat := Suspended;
    }

    method Reschedule(ghost t: Thread, ghost threads: set<Thread>)
      requires Valid(threads) && t in threads && t.stat == Ready
      modifies this`current, this`currentPriority
      ensures Valid(threads)
      ensures lockNest == 0 ==> Settled()
      ensures lockNest != 0 ==> current == old(current)
    {
      assert queues[t.currentPriority] != [];
      Schedule(threads);
    }

    /** rt_thread_resume: an error unless the thread is suspended; whoever kept
        it in a wait queue has already lost it. */
    method Resume(t: Thread, ghost threads: set<Thread>) returns (status: int)
      requires Valid(threads) && t in threads
      modifies this`queues, this`group, this`table, t`stat
      ensures Valid(threads)
      ensures old(t.stat) != Suspended ==> status == ERROR && t.stat == old(t.stat) && queues == old(queues)
      ensures old(t.stat) == Suspended ==> status == EOK && t.stat == Ready
                                           && queues == old(queues)[t.currentPriority := old(queues)[t.currentPriority] + [t]]
    {
      hide Agrees, NoRepeats;
      if t.stat != Suspended {
        return ERROR;
      }
      Insert(t, threads);
      return EOK;
    }

    /** rt_thread_suspend: an error unless the thread is ready. */
    method Suspend(t: Thread, ghost threads: set<Thread>) returns (status: int)
      requires Valid(threads) && t in threads
      modifies this`queues, this`group, this`table, t`stat
      ensures Valid(threads)
      ensures old(t.stat) != Ready ==> status == ERROR && t.stat == old(t.stat) && queues == old(queues)
      ensures old(t.stat) == Ready ==> status == EOK && t.stat == Suspended
                                       && queues == old(queues)[t.currentPriority := Dequeue(old(queues)[t.currentPriority], t)]
    {
      hide Agrees, NoRepeats, Dequeue;
      if t.stat != Ready {
        return ERROR;
      }
      Remove(t, threads);
      t.stat := Suspended;
      return EOK;
    }

    /** rt_thread_timeout. */
    method Timeout(t: Thread, ghost threads: set<Thread>)
      requires Valid(threads) && t in threads && t.stat == Suspended
      modifies this`queues, this`group, this`table, this`current, this`currentPriority, t`stat, t`error
      ensures Valid(threads) && t.stat == Ready && t.error == ETIMEOUT
      ensures queues == old(queues)[t.currentPriority := old(queues)[t.currentPriority] + [t]]
      ensures lockNest == 0 ==> Settled()
    {
      hide Agrees, NoRepeats;
      t.error := ETIMEOUT;
      Insert(t, threads);
      Reschedule(t, threads);
    }

    /** rt_thread_control with RT_THREAD_CTRL_CHANGE_PRIORITY. */
    method ChangePriority(t: Thread, p: int, ghost threads: set<Thread>)
      requires Valid(threads) && t in threads && 0 <= p < levels
      modifies this`queues, this`group, this`table, t`currentPriority, t`number, t`groupBit, t`highBit, t`stat
      ensures Valid(threads) && t.currentPriority == p && t.stat == old(t.stat)
      ensures old(t.stat) == Ready ==>
                var less := old(queues)[old(t.currentPriority) := Dequeue(old(queues)[old(t.currentPriority)], t)];
                queues == less[p := less[p] + [t]]
      ensures old(t.stat) != Ready ==> queues == old(queues)
    {
      hide Agrees, NoRepeats, Dequeue;
      if t.stat == Ready {
        Remove(t, threads);
        t.currentPriority := p;
        ComputeMasks(t);
        Insert(t, threads);
      } else {
        assert forall q | 0 <= q < levels :: t !in queues[q];
        t.currentPriority := p;
        ComputeMasks(t);
      }
    }

    /** rt_thread_detach and rt_thread_delete of a started thread, up to the
        defunct list; rt_thread_exit does the same to the running thread and
        then schedules. */
    method Close(t: Thread, ghost threads: set<Thread>)
      requires Valid(threads) && t in threads && t.stat != Init
      modifies this`queues, this`group, this`table, t`stat
      ensures Valid(threads) && t.stat == Closed
      ensures forall p :: 0 <= p < levels ==> t !in queues[p] && forall u <- old(queues)[p] :: u != t ==> u in queues[p]
      ensures queues == old(queues)[t.currentPriority := Dequeue(old(queues)[t.currentPriority], t)]
    {
      hide Agrees, NoRepeats, Dequeue;
      Remove(t, threads);
      t.stat := Closed;
    }

    /** rt_thread_exit: the running thread closes itself, and another runs. */
    method Exit(ghost idle: Thread, ghost threads: set<Thread>)
      requires Valid(threads) && current in threads && current.stat != Init
      requires idle in threads && idle.stat == Ready && idle != current
      modifies this`queues, this`group, this`table, this`current, this`currentPriority, current`stat
      ensures Valid(threads) && old(current).stat == Closed
      ensures lockNest == 0 ==> Settled() && current != old(current)
    {
      hide Agrees, NoRepeats;
      var t := current;
      Close(t, threads);
      Reschedule(idle, threads);
    }

    /** rt_thread_yield: to the end of its queue, if another thread is there. */
    method Yield(ghost threads: set<Thread>)
      requires Valid(threads) && current != null && current in threads
      modifies this`queues, this`current, this`currentPriority
      ensures Valid(threads)
      ensures old(current.stat) == Ready ==>
                var p := old(current).currentPriority;
                queues == old(queues)[p := Dequeue(old(queues)[p], old(current)) + [old(current)]]
      ensures old(current.stat) != Ready ==> queues == old(queues) && current == old(current)
      ensures lockNest != 0 ==> current == old(current)
      ensures old(current.stat) == Ready && lockNest == 0 && (old(Settled()) || |old(queues)[old(current).currentPriority]| > 1) ==> Settled()
    {
      var t := current;
      if t.stat == Ready {
        var p := t.currentPriority;
        if |queues[p]| != 1 {
          Rotate(t, threads);
          Reschedule(t, threads);
        } else {
          Alone(queues[p], t);
          assert queues == queues[p := queues[p]];
        }
      }
    }

    lemma {:induction false} Alone(q: Queue, t: Thread)
      requires |q| == 1 && t in q
      ensures Dequeue(q, t) + [t] == q
    {
    }

    /** Out of its queue and in again at the end, with no touch to the bitmap. */
    method Rotate(t: Thread, ghost threads: set<Thread>)
      requires Valid(threads) && t in threads && t.stat == Ready
      modifies this`queues
      ensures Valid(threads)
      ensures queues == old(queues)[t.currentPriority := Dequeue(old(queues)[t.currentPriority], t) + [t]]
    {
      hide NoRepeats, Shows, Sound, Dequeue;
      var p := t.currentPriority;
      DequeueGood(queues[p], map[], t);
      AppendOne(Dequeue(queues[p], t), t);
      queues := queues[p := Dequeue(queues[p], t) + [t]];
    }

    /** rt_enter_critical. */
    method EnterCritical(ghost threads: set<Thread>)
      requires Valid(threads)
      modifies this`lockNest
      ensures Valid(threads) && lockNest == old(lockNest) + 1
    {
      lockNest := lockNest + 1;
    }

    /** rt_exit_critical: the last one out schedules. */
    method ExitCritical(ghost threads: set<Thread>)
      requires Valid(threads) && Busy()
      modifies this`lockNest, this`current, this`currentPriority
      ensures Valid(threads) && lockNest == (if old(lockNest) > 0 then old(lockNest) - 1 else 0)
      ensures lockNest == 0 ==> Settled()
      ensures lockNest != 0 ==> current == old(current)
    {
      lockNest := lockNest - 1;
      if lockNest <= 0 {
        lockNest := 0;
        Schedule(threads);
      }
    }

    /** rt_tick_increase, up to the timers: the running thread uses up its time
        slice, and gives way at its end.  With the scheduler locked it goes to
        the end of its queue all the same, but runs on; and if the tick comes
        between its suspension and the schedule that follows, it gives way to
        nobody. */
    method TimeSlice(ghost threads: set<Thread>)
      requires Valid(threads) && current != null && current in threads && current.remainingTick > 0
      modifies this`queues, this`current, this`currentPriority, current`remainingTick
      ensures Valid(threads) && SlicesOf(threads) == old(SlicesOf(threads))
      ensures var t := old(current);
              t.remainingTick == if old(t.remainingTick) == 1 then t.initTick else old(t.remainingTick) - 1
      ensures old(current.stat) != Ready ==> queues == old(queues) && current == old(current)
      ensures old(current.stat) == Ready ==>
                var p, t := old(current.currentPriority), old(current);
                queues == old(queues)[p := if old(t.remainingTick) == 1 then Dequeue(old(queues)[p], t) + [t] else old(queues)[p]]
      ensures lockNest != 0 || old(current.remainingTick) > 1 ==> current == old(current)
      ensures old(current.stat) == Ready && lockNest == 0 && old(Settled()) ==>
                var p := old(current.currentPriority);
                && Settled() && current == queues[p][0]
                && RingOf(threads, p) == Tick(old(RingOf(threads, p)), SlicesOf(threads))
                && queues == old(queues)[p := queues[p]]
      ensures (old(current.stat) == Ready && lockNest == 0 && old(current.remainingTick) == 1
               && |old(queues)[old(current.currentPriority)]| > 1) ==> Settled()
    {
      hide QueuesAgree, BitmapAgrees, Settled, Dequeue;
      var t := current;
      ghost var turn := t.stat == Ready && lockNest == 0 && Settled();
      if t.stat == Ready { InQueue(t, threads); }
      if turn { Chosen(threads); }
      UseTick(threads);
      if t.stat == Ready {
        ghost var was := old(RingOf(threads, t.currentPriority)).left;
        assert RingOf(threads, t.currentPriority).left == was[t := t.remainingTick];
        assert queues == old(queues)[t.currentPriority := queues[t.currentPriority]];
      }
      if turn && old(t.remainingTick) == 1 { Gives(old(queues), t.currentPriority, t); }
    }

    /** One tick off the slice, and a yield at its end. */
    method UseTick(ghost threads: set<Thread>)
      requires Valid(threads) && current != null && current in threads && current.remainingTick > 0
      requires current.stat == Ready ==> 0 <= current.currentPriority < |queues|
      modifies this`queues, this`current, this`currentPriority, current`remainingTick
      ensures Valid(threads) && SlicesOf(threads) == old(SlicesOf(threads))
      ensures var t := old(current);
              t.remainingTick == if old(t.remainingTick) == 1 then t.initTick else old(t.remainingTick) - 1
      ensures old(current.remainingTick) > 1 || old(current.stat) != Ready ==> queues == old(queues) && current == old(current)
      ensures old(current.remainingTick) == 1 && old(current.stat) == Ready ==>
                var p, t := old(current.currentPriority), old(current);
                queues == old(queues)[p := Dequeue(old(queues)[p], t) + [t]]
      ensures lockNest != 0 ==> current == old(current)
      ensures (old(current.stat) == Ready && lockNest == 0
               && (old(Settled()) || (old(current.remainingTick) == 1 && |old(queues)[old(current.currentPriority)]| > 1))) ==> Settled()
    {
      hide QueuesAgree, BitmapAgrees, Settled, Dequeue;
      var t := current;
      t.remainingTick := t.remainingTick - 1;
      if t.remainingTick == 0 {
        t.remainingTick := t.initTick;
        SliceKeeps(threads);
        Yield(threads);
      } else {
        SliceKeeps(threads);
      }
      assert SlicesOf(threads) == old(SlicesOf(threads));
    }

    lemma InQueue(t: Thread, threads: set<Thread>)
      requires Valid(threads) && t in threads && t.stat == Ready
      ensures 0 <= t.currentPriority < |queues| && t in queues[t.currentPriority]
    {
    }

    ghost function RingOf(threads: set<Thread>, p: nat): Ring
      reads this`queues, threads
    {
      Ring(if p < |queues| then queues[p] else [], map t | t in threads :: t.remainingTick)
    }

    ghost function SlicesOf(threads: set<Thread>): Counts
      reads threads
    {
      map t | t in threads :: t.initTick
    }

    /** A time slice is nothing the queues depend on. */
    twostate lemma SliceKeeps(threads: set<Thread>)
      requires old(Valid(threads))
      requires queues == old(queues) && group == old(group) && table == old(table) && lockNest == old(lockNest)
      requires forall t <- threads ::
                 && t.stat == old(t.stat) && t.currentPriority == old(t.currentPriority)
                 && t.number == old(t.number) && t.groupBit == old(t.groupBit) && t.highBit == old(t.highBit)
                 && t.initTick == old(t.initTick) && t.initPriority == old(t.initPriority)
      ensures Valid(threads)
    {
      hide NoRepeats;
    }

    lemma Gives(was: seq<Queue>, p: nat, t: Thread)
      requires MostUrgent(was, p) && queues == was[p := was[p][1..] + [t]] && Settled()
      ensures current == (was[p][1..] + [t])[0]
    {
      assert queues[p] != [] && forall q :: 0 <= q < p ==> queues[q] == [];
    }

    lemma Chosen(threads: set<Thread>)
      requires Valid(threads) && Settled() && current in threads && current.stat == Ready
      ensures var p := current.currentPriority; 0 <= p < |queues| && MostUrgent(queues, p) && current == queues[p][0]
      ensures var p := current.currentPriority; Dequeue(queues[p], current) == queues[p][1..]
    {
    }

    lemma {:induction false} AppendOne(q: Queue, t: Thread)
      requires NoRepeats(q) && t !in q
      ensures NoRepeats(q + [t])
    {
      if q != [] {
        AppendOne(q[1..], t);
        assert (q + [t])[1..] == q[1..] + [t];
      }
    }
  }
}
