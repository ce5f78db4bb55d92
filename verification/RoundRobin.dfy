/**
  Round robin among the threads of one priority: what the time slices counted
  by rt_tick_increase (clock.c) and the rotation of rt_thread_yield (thread.c)
  amount to over many ticks.
*/
module RoundRobin {
  import opened ThreadObject
  import opened WaitQueue

  type Counts = map<Thread, int>

  /** The queue, its first thread running, and what is left of each slice. */
  datatype Ring = Ring(queue: Queue, left: Counts)

  function Count(c: Counts, t: Thread): int {
    if t in c then c[t] else 0
  }

  /** One tick for the running thread. */
  function Tick(r: Ring, slice: Counts): Ring {
    if r.queue == [] then r else
      var t := r.queue[0];
      if Count(r.left, t) == 1 then Ring(r.queue[1..] + [t], r.left[t := Count(slice, t)])
      else r.(left := r.left[t := Count(r.left, t) - 1])
  }

  function After(r: Ring, slice: Counts, n: nat): Ring
    decreases n
  {
    if n == 0 then r else After(Tick(r, slice), slice, n - 1)
  }

  /** Who runs, tick by tick. */
  function Trace(r: Ring, slice: Counts, n: nat): Queue
    decreases n
  {
    if n == 0 then [] else r.queue[..if r.queue == [] then 0 else 1] + Trace(Tick(r, slice), slice, n - 1)
  }

  function Repeat(t: Thread, n: nat): Queue {
    if n == 0 then [] else [t] + Repeat(t, n - 1)
  }

  /** Each thread of `q` in turn, for its whole slice. */
  function Turns(q: Queue, slice: Counts): Queue {
    if q == [] then [] else Repeat(q[0], if Count(slice, q[0]) > 0 then Count(slice, q[0]) else 0) + Turns(q[1..], slice)
  }

  function Total(q: Queue, slice: Counts): nat {
    if q == [] then 0 else (if Count(slice, q[0]) > 0 then Count(slice, q[0]) else 0) + Total(q[1..], slice)
  }

  ghost predicate Fair(q: Queue, slice: Counts) {
    forall t <- q :: t in slice && slice[t] > 0
  }

  lemma {:induction false} AfterSplits(r: Ring, slice: Counts, m: nat, n: nat)
    ensures After(r, slice, m + n) == After(After(r, slice, m), slice, n)
    ensures Trace(r, slice, m + n) == Trace(r, slice, m) + Trace(After(r, slice, m), slice, n)
    decreases m
  {
    if m > 0 {
      AfterSplits(Tick(r, slice), slice, m - 1, n);
    }
  }

  /** A thread with `k` ticks left runs for exactly these, then goes to the end
      with a full slice. */
  lemma {:induction false} OneTurn(r: Ring, slice: Counts, k: nat)
    requires r.queue != [] && r.queue[0] in r.left && r.left[r.queue[0]] == k > 0
    ensures After(r, slice, k) == Ring(r.queue[1..] + [r.queue[0]], r.left[r.queue[0] := Count(slice, r.queue[0])])
    ensures Trace(r, slice, k) == Repeat(r.queue[0], k)
    decreases k
  {
    var t := r.queue[0];
    var next := Tick(r, slice);
    if k == 1 {
      assert After(r, slice, 1) == After(next, slice, 0);
      assert Trace(next, slice, 0) == [] && Repeat(t, 0) == [];
    } else {
      OneTurn(next, slice, k - 1);
      assert next.left[t := Count(slice, t)] == r.left[t := Count(slice, t)];
    }
  }

  /** The turns of the first `j` threads. */
  lemma {:induction false} SomeTurns(r: Ring, slice: Counts, j: nat)
    requires Fair(r.queue, slice) && j <= |r.queue|
    requires forall t <- r.queue :: t in r.left && r.left[t] == slice[t]
    ensures After(r, slice, Total(r.queue[..j], slice)) == Ring(r.queue[j..] + r.queue[..j], r.left)
    ensures Trace(r, slice, Total(r.queue[..j], slice)) == Turns(r.queue[..j], slice)
    decreases j
  {
    if j == 0 {
      assert r.queue[0..] + r.queue[..0] == r.queue;
    } else {
      var t, q := r.queue[0], r.queue;
      var k := slice[t];
      OneTurn(r, slice, k);
      var next := After(r, slice, k);
      assert next == Ring(q[1..] + [t], r.left);
      SomeTurns(next, slice, j - 1);
      var a := q[1..j];
      Reshape(q, j);
      AfterSplits(r, slice, k, Total(a, slice));
    }
  }

  lemma {:induction false} Reshape(q: Queue, j: nat)
    requires 0 < j <= |q|
    ensures var n, a := q[1..] + [q[0]], q[1..j];
            && n[..j - 1] == a
            && q[..j][0] == q[0] && q[..j][1..] == a
            && n[j - 1..] + n[..j - 1] == q[j..] + q[..j]
  {
    assert (q[1..] + [q[0]])[j - 1..] == q[j..] + [q[0]];
    assert q[..j] == [q[0]] + q[1..j];
  }

  /** Over a full round every thread runs for exactly its own slice, without
      interruption, in queue order; and then the ring is as it was. */
  lemma {:induction false} FullRound(r: Ring, slice: Counts)
    requires Fair(r.queue, slice)
    requires forall t <- r.queue :: t in r.left && r.left[t] == slice[t]
    ensures After(r, slice, Total(r.queue, slice)) == r
    ensures Trace(r, slice, Total(r.queue, slice)) == Turns(r.queue, slice)
  {
    SomeTurns(r, slice, |r.queue|);
    assert r.queue[..|r.queue|] == r.queue;
    assert r.queue[|r.queue|..] == [];
  }

  /** The turns of a queue, again and again. */
  function Rounds(q: Queue, slice: Counts, rounds: nat): Queue {
    if rounds == 0 then [] else Turns(q, slice) + Rounds(q, slice, rounds - 1)
  }

  /** And so over any number of rounds. */
  lemma {:induction false} ManyRounds(r: Ring, slice: Counts, rounds: nat)
    requires Fair(r.queue, slice)
    requires forall t <- r.queue :: t in r.left && r.left[t] == slice[t]
    ensures After(r, slice, rounds * Total(r.queue, slice)) == r
    ensures Trace(r, slice, rounds * Total(r.queue, slice)) == Rounds(r.queue, slice, rounds)
    decreases rounds
  {
    hide Turns, Total, Tick;
    var n := Total(r.queue, slice);
    if rounds == 0 {
      assert rounds * n == 0;
    } else {
      hide After, Trace;
      FullRound(r, slice);
      OneMoreRound(rounds, n);
      AfterSplits(r, slice, n, (rounds - 1) * n);
      ManyRounds(r, slice, rounds - 1);
    }
  }

  lemma OneMoreRound(rounds: nat, n: nat)
    requires rounds > 0
    ensures rounds * n == n + (rounds - 1) * n && (rounds - 1) * n >= 0
  {
  }

  lemma TurnsHead(t: Thread, a: Queue, c: Counts)
    requires Count(c, t) > 0
    ensures Total([t] + a, c) == c[t] + Total(a, c) && Turns([t] + a, c) == Repeat(t, c[t]) + Turns(a, c)
  {
    assert ([t] + a)[1..] == a;
  }

  // ---------- a start with partly used slices ----------

  function Refilled(left: Counts, q: Queue, slice: Counts): Counts {
    map t | t in left :: if t in q then Count(slice, t) else left[t]
  }

  lemma {:induction false} TurnsFrame(q: Queue, a: Counts, b: Counts)
    requires forall t <- q :: Count(a, t) == Count(b, t)
    ensures Total(q, a) == Total(q, b) && Turns(q, a) == Turns(q, b)
  {
    if q != [] {
      assert q[0] in q && forall t <- q[1..] :: t in q;
      TurnsFrame(q[1..], a, b);
    }
  }

  /** The first `j` threads, each with what it has left. */
  lemma {:induction false} SomeRests(r: Ring, slice: Counts, j: nat)
    requires j <= |r.queue| && NoRepeats<Thread>(r.queue[..j])
    requires forall t <- r.queue :: t in r.left && r.left[t] > 0
    requires Fair(r.queue, slice)
    ensures After(r, slice, Total(r.queue[..j], r.left)) == Ring(r.queue[j..] + r.queue[..j], Refilled(r.left, r.queue[..j], slice))
    ensures Trace(r, slice, Total(r.queue[..j], r.left)) == Turns(r.queue[..j], r.left)
    decreases j
  {
    hide After, Trace, Turns, Total, Tick, Repeat, Refilled;
    if j == 0 {
      NoTurns(r, slice);
    } else {
      var q, t, a := r.queue, r.queue[0], r.queue[1..j];
      var k, left := r.left[t], r.left[t := slice[t]];
      OneTurn(r, slice, k);
      Reshape(q, j);
      RestsOf(q, j, r.left, slice);
      SomeRests(Ring(q[1..] + [t], left), slice, j - 1);
      AfterSplits(r, slice, k, Total(a, r.left));
    }
  }

  lemma NoTurns(r: Ring, slice: Counts)
    ensures r.queue[0..] + r.queue[..0] == r.queue && Refilled(r.left, r.queue[..0], slice) == r.left
    ensures After(r, slice, 0) == r && Trace(r, slice, 0) == []
    ensures Total(r.queue[..0], r.left) == 0 && Turns(r.queue[..0], r.left) == []
  {
  }

  /** Once the first thread has had its rest, the others still have theirs. */
  lemma {:induction false} RestsOf(q: Queue, j: nat, left: Counts, slice: Counts)
    requires 0 < j <= |q| && NoRepeats<Thread>(q[..j]) && Fair(q, slice)
    requires forall t <- q :: t in left && left[t] > 0
    ensures var t, a := q[0], q[1..j];
            var now := left[t := slice[t]];
            && t in q && NoRepeats<Thread>(a)
            && (forall u <- q[1..] + [t] :: u in q && u in now && now[u] > 0)
            && Total(q[..j], left) == left[t] + Total(a, now) && Total(a, now) == Total(a, left)
            && Turns(q[..j], left) == Repeat(t, left[t]) + Turns(a, now)
            && Refilled(now, a, slice) == Refilled(left, q[..j], slice)
  {
    hide Turns, Total, Repeat;
    var t, a := q[0], q[1..j];
    assert q[..j] == [t] + a && q[..j][1..] == a;
    assert t in q && forall u <- a :: u in q && u != t;
    TurnsHead(t, a, left);
    TurnsFrame(a, left[t := slice[t]], left);
  }

  /** From any start, the running thread and any that was preempted with part
      of its slice used: in the first round each runs for what it has left, in
      queue order, and then all slices are full. */
  lemma {:induction false} FirstRound(r: Ring, slice: Counts)
    requires NoRepeats<Thread>(r.queue) && Fair(r.queue, slice)
    requires forall t <- r.queue :: t in r.left && r.left[t] > 0
    ensures After(r, slice, Total(r.queue, r.left)) == Ring(r.queue, Refilled(r.left, r.queue, slice))
    ensures Trace(r, slice, Total(r.queue, r.left)) == Turns(r.queue, r.left)
  {
    var q := r.queue;
    assert q[..|q|] == q && q[|q|..] + q[..|q|] == q;
    SomeRests(r, slice, |q|);
  }

  /** So from any start the whole schedule is known: the rests, then round
      after round of full slices. */
  lemma {:induction false} AnyStart(r: Ring, slice: Counts, rounds: nat)
    requires NoRepeats<Thread>(r.queue) && Fair(r.queue, slice)
    requires forall t <- r.queue :: t in r.left && r.left[t] > 0
    ensures Trace(r, slice, Total(r.queue, r.left) + rounds * Total(r.queue, slice)) ==
            Turns(r.queue, r.left) + Rounds(r.queue, slice, rounds)
    ensures After(r, slice, Total(r.queue, r.left) + rounds * Total(r.queue, slice)) ==
            Ring(r.queue, Refilled(r.left, r.queue, slice))
  {
    var full := Ring(r.queue, Refilled(r.left, r.queue, slice));
    FirstRound(r, slice);
    ManyRounds(full, slice, rounds);
    AfterSplits(r, slice, Total(r.queue, r.left), rounds * Total(r.queue, slice));
  }
}
