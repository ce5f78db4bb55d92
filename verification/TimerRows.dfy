/**
  The timer list as the kernel keeps it (timer.c): several rows of linked
  timers searched from the sparsest down, 32-bit ticks, and a counter that
  decides how tall each new timer is.  Every method is proved against the
  ordered line of TimerLine and the expiry of TimerClock.
*/
module TimerRows {
  import opened TimerLine
  import opened TimerClock

  class TimerList {
    const levels: nat
    var rows: seq<Row>     // rows[0] is the sparsest, the last row holds every timer
    var tick: int          // the 32-bit system tick
    var randomNr: int      // 32-bit count of starts

    ghost var known: set<Timer>
    ghost var now: int                // the tick without wrapping
    ghost var due: Times              // the deadlines without wrapping
    ghost var height: map<Timer, nat> // the number of rows each timer reaches

    /** The last row: what the list means. */
    function Line(): Row
      reads this`rows
    {
      if levels >= 1 && |rows| == levels then rows[levels - 1] else []
    }

    ghost function Kinds(): Kinds
      reads this`known, known
    {
      map t | t in known :: Kind(if t.initTick >= 0 then t.initTick else 0, t.periodic)
    }

    ghost predicate Shape()
      reads this`rows, this`due, this`height, this`known
    {
      && Layers(rows, Line(), height, levels)
      && Ordered(Line(), due)
      && (forall t <- Line() :: t in known && t in height && height[t] >= 1)
    }

    ghost predicate Valid()
      reads this, known
    {
      && Shape()
      && tick == now % WRAP
      && 0 <= randomNr < WRAP
      && (forall t <- known :: t.initTick >= 0
                               && t.timeoutTick == At(due, t) % WRAP
                               && (t.activated <==> t in Line()))
    }

    constructor (n: nat)
      requires n >= 1
      ensures Valid() && levels == n && Line() == [] && now == 0 && known == {}
    {
      levels := n;
      rows := seq(n, l => []);
      tick, randomNr, now, due, height, known := 0, 0, 0, map[], map[], {};
    }

    /** rt_timer_init: the timer is known and not linked. */
    method Init(t: Timer, time: nat, cyclic: bool)
      requires Valid() && t !in known
      modifies this`known, this`due, t
      ensures Valid() && known == old(known) + {t} && due == old(due)[t := 0]
      ensures Line() == old(Line()) && !t.activated && t.initTick == time && t.periodic == cyclic
    {
      hide Ordered, Layers;
      assert t !in Line();
      t.timeoutTick, t.initTick, t.periodic, t.activated := 0, time, cyclic, false;
      known := known + {t};
      due := due[t := 0];
      OrderedFrame(Line(), due, old(due));
    }

    /** _rt_timer_remove: out of every row it is in. */
    method Remove(t: Timer)
      requires Shape()
      modifies this`rows
      ensures Shape() && Line() == Without(old(Line()), t)
    {
      hide Ordered, Select, Without;
      ghost var line, was := Line(), rows;
      var l := 0;
      while l < levels
        invariant 0 <= l <= levels && |rows| == levels
        invariant forall k :: 0 <= k < l ==> rows[k] == Without(was[k], t)
        invariant forall k :: l <= k < levels ==> rows[k] == was[k]
      {
        rows := rows[l := Without(rows[l], t)];
        l := l + 1;
      }
      LayersWithout(was, rows, line, height, levels, t);
      WithoutGood(line, due, t);
    }

    /** Where a search that has reached `t` in one row goes on in the row
        below: behind the same timer. */
    function Below(row: Row, t: Timer): (p: nat)
      requires t in row
      ensures 0 < p <= |row| && row[p - 1] == t
    {
      if row[0] == t then 1 else 1 + Below(row[1..], t)
    }

    /** The inner loop of the search: on from `from` to the first later timer. */
    method Scan(row: Row, from: nat, timeoutTick: int, ghost d: int) returns (p: nat)
      requires Ordered(row, due) && timeoutTick == d % WRAP
      requires forall u <- row :: u.timeoutTick == At(due, u) % WRAP && Comparable(At(due, u), d)
      requires from <= |row| && (from > 0 ==> At(due, row[from - 1]) <= d)
      ensures p == Place(row, due, d)
    {
      hide Ordered, Place, Minus;
      p := from;
      while p != |row|
        invariant p <= |row|
        invariant p > 0 ==> At(due, row[p - 1]) <= d
      {
        var t := row[p];
        CompareExact(At(due, t), d);
        if Minus(t.timeoutTick, timeoutTick) == 0 {
          p := p + 1;
          continue;
        } else if Minus(t.timeoutTick, timeoutTick) < HALF {
          break;
        }
        p := p + 1;
      }
      PlaceUnique(row, due, d, p);
    }

    /** The search of rt_timer_start: row by row, each from where the row above
        stopped.  In every row it ends where a scan from the front would. */
    method Search(timeoutTick: int, ghost d: int) returns (heads: seq<nat>)
      requires Shape() && timeoutTick == d % WRAP
      requires forall u <- Line() :: u.timeoutTick == At(due, u) % WRAP && Comparable(At(due, u), d)
      ensures |heads| == levels
      ensures forall l :: 0 <= l < levels ==> heads[l] == Place(rows[l], due, d)
    {
      hide Ordered, Layers, Below;
      LayersLength();
      heads := [];
      var p: nat := 0;
      var l := 0;
      while l < levels
        invariant 0 <= l <= levels && |heads| == l
        invariant forall k :: 0 <= k < l ==> heads[k] == Place(rows[k], due, d)
        invariant l < levels ==> p <= |rows[l]| && (p > 0 ==> At(due, rows[l][p - 1]) <= d)
      {
        RowFacts(rows, Line(), height, levels, due, l);
        p := Scan(rows[l], p, timeoutTick, d);
        heads := heads + [p];
        if l != levels - 1 && p > 0 {
          assert rows[l][p - 1] in rows[l];
          p := Below(rows[l + 1], rows[l][p - 1]);
        }
        l := l + 1;
      }
    }

    lemma LayersLength()
      requires Shape()
      ensures |rows| == levels >= 1 && Line() == rows[levels - 1]
    {
    }

    lemma {:induction false} Restamp(line: Row, was: Times, t: Timer, d: int)
      requires Ordered(line, was) && t !in line
      ensures Ordered(line, was[t := d]) && forall u <- line :: At(was[t := d], u) == At(was, u)
    {
      OrderedFrame(line, was[t := d], was);
    }

    /** What the clock model says of a start, read off the timer. */
    lemma StartIs(c: Clock, kinds: Kinds, t: Timer)
      requires t in known && t.initTick >= 0 && kinds == Kinds()
      ensures var d := c.due[t := c.now + t.initTick];
              Step(c, kinds, Event.Start(t)) == Clock(c.now, Insert(Without(c.line, t), d, t), d)
    {
    }

    /** rt_timer_start: unlinked, given a deadline `initTick` from now, and
        linked behind every timer with that deadline or an earlier one. */
    method Start(t: Timer)
      requires Valid() && t in known && t.initTick < HALF
      requires forall u <- Line() :: u != t ==> Comparable(At(due, u), now + t.initTick)
      modifies this`rows, this`due, this`height, this`randomNr, t
      ensures Valid() && t.activated && t.initTick == old(t.initTick) && t.periodic == old(t.periodic)
      ensures due == old(due)[t := now + t.initTick]
      ensures Line() == Insert(Without(old(Line()), t), due, t)
      ensures Abstract() == Step(old(Abstract()), old(Kinds()), Event.Start(t))
      ensures randomNr == (old(randomNr) + 1) % WRAP
      ensures height == old(height)[t := Height(randomNr, levels)]
    {
      hide Ordered, Layers, Without, Insert, Height, Comparable, Step, Shape;
      StartIs(Abstract(), Kinds(), t);
      Restart(t);
    }

    /** Unlinked, armed, and linked again. */
    method Restart(t: Timer)
      requires Valid() && t in known && t.initTick < HALF
      requires forall u <- Line() :: u != t ==> Comparable(At(due, u), now + t.initTick)
      modifies this`rows, this`due, this`height, this`randomNr, t
      ensures Valid() && t.activated && t.initTick == old(t.initTick) && t.periodic == old(t.periodic)
      ensures due == old(due)[t := now + t.initTick]
      ensures Line() == Insert(Without(old(Line()), t), due, t)
      ensures randomNr == (old(randomNr) + 1) % WRAP
      ensures height == old(height)[t := Height(randomNr, levels)]
    {
      hide Ordered, Layers, Without, Insert, Height, Place, Comparable, At;
      Arm(t);
      LayersLength();
      var heads := Search(t.timeoutTick, now + t.initTick);
      randomNr := (randomNr + 1) % WRAP;
      ghost var rest := height;
      height := height[t := Height(randomNr, levels)];
      Link(t, heads, rest);
      t.activated := true;
    }

    /** The first half of rt_timer_start: unlinked, with its new deadline. */
    method Arm(t: Timer)
      requires Valid() && t in known
      modifies this`rows, this`due, t`activated, t`timeoutTick
      ensures Shape() && !t.activated && Line() == Without(old(Line()), t)
      ensures due == old(due)[t := now + t.initTick] && At(due, t) == now + t.initTick
      ensures forall u <- Line() :: At(due, u) == At(old(due), u)
      ensures forall u <- known :: u.timeoutTick == At(due, u) % WRAP && (u.activated <==> u in Line())
    {
      hide Ordered, Layers, Without;
      Remove(t);
      t.activated := false;
      t.timeoutTick := (tick + t.initTick) % WRAP;
      due := due[t := now + t.initTick];
      Restamp(Line(), old(due), t, now + t.initTick);
      WrapAdds(now, t.initTick);
    }

    lemma {:induction false} WrapAdds(a: int, b: int)
      ensures (a % WRAP + b) % WRAP == (a + b) % WRAP
    {
      assert a == WRAP * (a / WRAP) + a % WRAP;
      var q, r := (a % WRAP + b) / WRAP, (a % WRAP + b) % WRAP;
      assert a + b == (q + a / WRAP) * WRAP + r;
    }

    /** The linking half of rt_timer_start: always into the last row, and
        upwards while the counter's bits allow. */
    method Link(t: Timer, heads: seq<nat>, ghost rest: map<Timer, nat>)
      requires t in known && randomNr >= 0 && |heads| == levels
      requires Layers(rows, Line(), rest, levels) && Ordered(Line(), due) && t !in Line()
      requires forall u <- Line() :: u in known && u in rest && rest[u] >= 1
      requires height == rest[t := Height(randomNr, levels)]
      requires forall l :: 0 <= l < levels ==> heads[l] == Place(rows[l], due, At(due, t))
      modifies this`rows
      ensures Shape() && Line() == Insert(old(Line()), due, t)
    {
      hide Ordered, Select, Insert, Place, Height;
      ghost var line, was := Line(), rows;
      LinkRows(t, heads);
      LayersInsert(was, rows, line, rest, levels, due, t, Height(randomNr, levels));
      InsertGood(line, due, t);
    }

    /** The rows the counter picks, from the last one up. */
    method LinkRows(t: Timer, heads: seq<nat>)
      requires randomNr >= 0 && |heads| == levels == |rows| && levels >= 1
      requires forall l :: 0 <= l < levels ==> heads[l] == Place(rows[l], due, At(due, t))
      modifies this`rows
      ensures |rows| == levels && Height(randomNr, levels) >= 1
      ensures forall l :: 0 <= l < levels ==>
                rows[l] == if levels - l <= Height(randomNr, levels) then Insert(old(rows)[l], due, t) else old(rows)[l]
    {
      hide Insert, Place;
      ghost var was := rows;
      forall l | 0 <= l < levels ensures InsertAfter(was[l], heads[l], t) == Insert(was[l], due, t) {
        InsertIsAtPlace(was[l], due, t);
      }
      var tst := randomNr;
      var k := 1;
      rows := rows[levels - 1 := InsertAfter(rows[levels - 1], heads[levels - 1], t)];
      ghost var h := Height(randomNr, levels);
      while k < levels
        invariant 1 <= k <= levels && |rows| == levels && tst >= 0
        invariant h == k - 1 + Height(tst, levels - k + 1)
        invariant forall l :: levels - k <= l < levels ==> rows[l] == Insert(was[l], due, t)
        invariant forall l :: 0 <= l < levels - k ==> rows[l] == was[l]
      {
        if tst % 4 == 0 {
          k := k + 1;
          rows := rows[levels - k := InsertAfter(rows[levels - k], heads[levels - k], t)];
          tst := tst / 4;
        } else {
          break;
        }
      }
      assert h == k;
    }

    /** rt_list_insert_after, `p` nodes into a row. */
    function InsertAfter(row: Row, p: nat, t: Timer): Row
      requires p <= |row|
    {
      row[..p] + [t] + row[p..]
    }

    /** rt_timer_stop: an error if the timer is not running. */
    method Stop(t: Timer) returns (ok: bool)
      requires Valid() && t in known
      modifies this`rows, t`activated
      ensures Valid() && ok == old(t.activated) && !t.activated
      ensures Line() == Without(old(Line()), t)
    {
      if !t.activated {
        return false;
      }
      Remove(t);
      t.activated := false;
      return true;
    }

    /** One turn of the expiry loop: the first timer is taken off, its callback
        called, and if it is periodic it is started again. */
    method Fire(t: Timer)
      requires Valid() && Line() != [] && t == Line()[0] && t.initTick < HALF
      requires t.periodic ==> forall u <- Line() :: Comparable(At(due, u), now + t.initTick)
      modifies this`rows, this`due, this`height, this`randomNr, t
      ensures Valid() && t.initTick == old(t.initTick) && t.periodic == old(t.periodic)
      ensures due == if t.periodic then old(due)[t := now + t.initTick] else old(due)
      ensures Line() == if t.periodic then Insert(old(Line())[1..], due, t) else old(Line())[1..]
    {
      hide Ordered, Layers, Insert, Without, Height, Step, Comparable;
      LayersLength();
      WithoutHead(Line(), due);
      Remove(t);
      if t.periodic && t.activated {
        t.activated := false;
        Start(t);
      } else {
        t.activated := false;
      }
    }

    /** What the expiry loop knows about the timer in front of it when `n`
        timers have fired. */
    lemma {:induction false} Front(t: Timer, line: Row, was: Times, kinds: Kinds, n: nat)
      requires Valid() && Kinds() == kinds && Line() != [] && t == Line()[0]
      requires Ordered(line, was) && Clear(line, was, kinds, now) && n <= Place(line, was, now)
      requires due == Renewed(was, line[..n], kinds, now) && Line() == Midway(line, was, kinds, now, n)
      ensures Reached(tick, t.timeoutTick) <==> n < Place(line, was, now)
      ensures t.initTick < HALF && (t.periodic ==> forall u <- Line() :: Comparable(At(due, u), now + t.initTick))
      ensures n < Place(line, was, now) ==>
                && t == line[n]
                && Renewed(was, line[..n + 1], kinds, now) == (if t.periodic then due[t := now + t.initTick] else due)
                && Midway(line, was, kinds, now, n + 1) ==
                   if t.periodic then Insert(Line()[1..], Renewed(was, line[..n + 1], kinds, now), t) else Line()[1..]
    {
      hide Ordered, Layers, Place, Renewed, Relinked, Insert, Midway, At;
      MidwayTimes(line, was, kinds, now, n);
      assert t in Line();
      CompareExact(now, At(due, t));
      if n < Place(line, was, now) {
        MidwayStep(line, was, kinds, now, n);
      }
    }

    /** The first timer fires, as number `n` of those that are due. */
    method FireFront(t: Timer, ghost line: Row, ghost was: Times, ghost kinds: Kinds, ghost n: nat)
      requires Valid() && Kinds() == kinds && Line() != [] && t == Line()[0]
      requires Ordered(line, was) && Clear(line, was, kinds, now) && n < Place(line, was, now)
      requires due == Renewed(was, line[..n], kinds, now) && Line() == Midway(line, was, kinds, now, n)
      modifies this`rows, this`due, this`height, this`randomNr, t
      ensures Valid() && t.initTick == old(t.initTick) && t.periodic == old(t.periodic)
      ensures due == Renewed(was, line[..n + 1], kinds, now) && Line() == Midway(line, was, kinds, now, n + 1)
    {
      hide Ordered, Layers, Place, Renewed, Relinked, Insert, Midway, At, Clear;
      Front(t, line, was, kinds, n);
      Fire(t);
    }

    /** rt_timer_check, with callbacks that leave timers alone; `fired` lists
        the callbacks in the order they are called. */
    method Check() returns (fired: Row)
      requires Valid() && Clear(Line(), due, Kinds(), now)
      modifies this`rows, this`due, this`height, this`randomNr, known
      ensures Valid() && Kinds() == old(Kinds())
      ensures fired == Due(old(Line()), old(due), now)
      ensures due == Renewed(old(due), fired, Kinds(), now)
      ensures Line() == Left(old(Line()), old(due), Kinds(), now)
    {
      hide Ordered, Layers, Place, Renewed, Relinked, Insert, Midway, At, Clear, Minus, Valid;
      ghost var line, was, kinds := Line(), due, Kinds();
      ghost var k := Place(line, was, now);
      fired := [];
      MidwayStart(line, was, kinds, now);
      ValidFacts();
      while rows[levels - 1] != []
        invariant Valid() && Kinds() == kinds && levels == |rows|
        invariant |fired| <= k && fired == line[..|fired|]
        invariant due == Renewed(was, fired, kinds, now)
        invariant Line() == Midway(line, was, kinds, now, |fired|)
        decreases k - |fired|
      {
        var t := rows[levels - 1][0];
        ValidFacts();
        Front(t, line, was, kinds, |fired|);
        if Minus(tick, t.timeoutTick) < HALF {
          assert line[..|fired| + 1] == fired + [t];
          FireFront(t, line, was, kinds, |fired|);
          fired := fired + [t];
          ValidFacts();
        } else {
          break;
        }
      }
      MidwayEnd(line, was, kinds, now);
    }

    ghost function Abstract(): Clock
      reads this`rows, this`now, this`due
    {
      Clock(now, Line(), due)
    }

    /** rt_tick_increase's part in this: the tick advances, then the expiry. */
    method Increase() returns (fired: Row)
      requires Valid() && Sound(Kinds()) && Good(Abstract())
      modifies this`tick, this`now, this`rows, this`due, this`height, this`randomNr, known
      ensures Valid() && Kinds() == old(Kinds()) && Good(Abstract())
      ensures fired == Fires(old(Abstract()), Tick)
      ensures Abstract() == Step(old(Abstract()), Kinds(), Tick)
    {
      hide Ordered, Layers, Place, Clear, Renewed, Relinked, At, Valid, Good, Left, Due;
      ghost var c := Abstract();
      GoodIsComparable(c, Kinds());
      StepGood(c, Kinds(), Tick);
      Advance();
      fired := Check();
      Ticked(c, Kinds(), fired);
    }

    /** What a tick means, spelled out. */
    lemma Ticked(c: Clock, kinds: Kinds, fired: Row)
      requires now == c.now + 1 && fired == Due(c.line, c.due, now)
      requires due == Renewed(c.due, fired, kinds, now) && Line() == Left(c.line, c.due, kinds, now)
      ensures Abstract() == Step(c, kinds, Tick) && fired == Fires(c, Tick)
    {
    }

    method Advance()
      requires Valid()
      modifies this`tick, this`now
      ensures Valid() && now == old(now) + 1
    {
      hide Ordered, Layers, At;
      WrapAdds(now, 1);
      tick := (tick + 1) % WRAP;
      now := now + 1;
    }

    lemma ValidFacts()
      requires Valid()
      ensures |rows| == levels >= 1 && Line() == rows[levels - 1] && Ordered(Line(), due)
      ensures forall t <- Line() :: t in known
    {
    }

    /** rt_timer_next_timeout_tick: the least deadline, wrapped. */
    method NextTimeout() returns (next: int)
      requires Valid()
      ensures Line() == [] ==> next == WRAP - 1
      ensures Line() != [] ==> exists t <- Line() :: next == At(due, t) % WRAP && forall u <- Line() :: At(due, t) <= At(due, u)
    {
      if rows[levels - 1] == [] {
        return WRAP - 1;
      }
      OrderedMeans(Line(), due);
      next := rows[levels - 1][0].timeoutTick;
      assert Line()[0] in Line();
    }
  }
}
