/**
  What the timer list means over time: which timers a tick fires, what it
  leaves linked, and when a timer fires over a whole run of starts, stops and
  ticks (timer.c, clock.c).
*/
module TimerClock {
  import opened TimerLine

  /** What rt_timer_init fixed about a timer. */
  datatype Kind = Kind(init: nat, periodic: bool)
  type Kinds = map<Timer, Kind>

  // ---------- one expiry ----------

  function KindOf(kinds: Kinds, t: Timer): Kind {
    if t in kinds then kinds[t] else Kind(1, false)
  }

  /** The timers due at `now`, in the order they fire. */
  function Due(line: Row, due: Times, now: int): Row {
    line[..Place(line, due, now)]
  }

  /** The deadlines after `fired` have fired at `now`. */
  function Renewed(due: Times, fired: Row, kinds: Kinds, now: int): Times
    decreases |fired|
  {
    if fired == [] then due else
      var t := fired[|fired| - 1];
      var r := Renewed(due, fired[..|fired| - 1], kinds, now);
      if KindOf(kinds, t).periodic then r[t := now + KindOf(kinds, t).init] else r
  }

  /** `rest` with the periodic timers of `fired` linked again, in turn. */
  function Relinked(rest: Row, due: Times, fired: Row, kinds: Kinds, now: int): Row
    decreases |fired|
  {
    if fired == [] then rest else
      var t := fired[|fired| - 1];
      var r := Relinked(rest, due, fired[..|fired| - 1], kinds, now);
      if KindOf(kinds, t).periodic then Insert(r, Renewed(due, fired, kinds, now), t) else r
  }

  function Left(line: Row, due: Times, kinds: Kinds, now: int): Row {
    Relinked(line[Place(line, due, now)..], due, Due(line, due, now), kinds, now)
  }

  lemma {:induction false} RenewedAt(due: Times, fired: Row, kinds: Kinds, now: int, t: Timer)
    ensures At(Renewed(due, fired, kinds, now), t) ==
            if t in fired && KindOf(kinds, t).periodic then now + KindOf(kinds, t).init else At(due, t)
    decreases |fired|
  {
    if fired != [] {
      var n := |fired| - 1;
      assert fired == fired[..n] + [fired[n]];
      RenewedAt(due, fired[..n], kinds, now, t);
    }
  }

  /** A periodic timer with a zero period would be due again at once, and the
      expiry loop would never end. */
  ghost predicate Ends(row: Row, kinds: Kinds) {
    forall t <- row :: KindOf(kinds, t).periodic ==> KindOf(kinds, t).init > 0
  }

  /** Every difference of ticks an expiry at `now` looks at is comparable. */
  ghost predicate Clear(line: Row, due: Times, kinds: Kinds, now: int) {
    && Ends(Due(line, due, now), kinds)
    && (forall u <- line :: KindOf(kinds, u).init < HALF && Comparable(now, At(due, u)))
    && (forall t, u | t in line && u in line && KindOf(kinds, t).periodic ::
          Comparable(At(due, u), now + KindOf(kinds, t).init))
  }

  lemma {:induction false} RelinkedGood(rest: Row, due: Times, fired: Row, kinds: Kinds, now: int)
    requires Ordered(rest, due) && forall t <- rest :: At(due, t) > now && t !in fired
    requires forall i, j :: 0 <= i < j < |fired| ==> fired[i] != fired[j]
    requires Ends(fired, kinds)
    ensures var r, d := Relinked(rest, due, fired, kinds, now), Renewed(due, fired, kinds, now);
            && Ordered(r, d)
            && (forall t <- r :: At(d, t) > now && (t in rest || (t in fired && KindOf(kinds, t).periodic)))
            && (forall t <- rest :: t in r)
            && (forall t <- fired :: KindOf(kinds, t).periodic ==> t in r)
    decreases |fired|
  {
    if fired != [] {
      var n := |fired| - 1;
      var t, before := fired[n], fired[..n];
      assert fired == before + [t];
      RelinkedGood(rest, due, before, kinds, now);
      var r, d := Relinked(rest, due, before, kinds, now), Renewed(due, fired, kinds, now);
      assert t !in r;
      if KindOf(kinds, t).periodic {
        OrderedFrame(r, d, Renewed(due, before, kinds, now));
        InsertGood(r, d, t);
      }
    }
  }

  lemma {:induction false} SliceOrdered(row: Row, due: Times, p: nat)
    requires Ordered(row, due) && p <= |row|
    ensures Ordered(row[..p], due) && Ordered(row[p..], due)
    ensures row == row[..p] + row[p..]
    ensures forall t <- row[..p] :: t !in row[p..]
  {
    hide Ordered;
    OrderedMeans(row, due);
    OrderedMeans(row[..p], due);
    OrderedMeans(row[p..], due);
    forall t <- row[..p] ensures t !in row[p..] {
      var i :| 0 <= i < p && row[i] == t;
      assert forall j :: 0 <= j < |row[p..]| ==> row[p..][j] == row[p + j];
    }
  }

  /** The scan splits an ordered line into what is due and what is not. */
  lemma {:induction false} DueSplits(line: Row, due: Times, now: int)
    requires Ordered(line, due)
    ensures Ordered(Due(line, due, now), due)
    ensures Ordered(line[Place(line, due, now)..], due)
    ensures line == Due(line, due, now) + line[Place(line, due, now)..]
    ensures forall t <- Due(line, due, now) :: t in line && At(due, t) <= now
    ensures forall t <- line[Place(line, due, now)..] :: t in line && At(due, t) > now
  {
    hide Ordered;
    var k := Place(line, due, now);
    SliceOrdered(line, due, k);
    if k < |line| { NotBefore(line, due, k); }
  }

  lemma {:induction false} NotBefore(row: Row, due: Times, k: nat)
    requires Ordered(row, due) && k < |row|
    ensures forall t <- row[k..] :: At(due, row[k]) <= At(due, t)
  {
    if k > 0 {
      NotBefore(row[1..], due, k - 1);
      assert row[1..][k - 1..] == row[k..];
    } else {
      assert row[0..] == row;
    }
  }

  /** One expiry fires exactly the due timers, and leaves exactly the later
      ones and the periodic ones, the latter one period after now. */
  lemma {:induction false} ExpiryExact(line: Row, due: Times, kinds: Kinds, now: int)
    requires Ordered(line, due) && Ends(Due(line, due, now), kinds)
    ensures var fired, left, d := Due(line, due, now), Left(line, due, kinds, now), Renewed(due, Due(line, due, now), kinds, now);
            && (forall t <- line :: t in fired <==> At(due, t) <= now)
            && (forall t <- fired :: t in line)
            && Ordered(fired, due)
            && Ordered(left, d)
            && (forall t <- left :: t in line && At(d, t) > now)
            && (forall t <- line :: t in left <==> At(due, t) > now || KindOf(kinds, t).periodic)
            && (forall t <- line :: At(d, t) == if At(due, t) <= now && KindOf(kinds, t).periodic then now + KindOf(kinds, t).init else At(due, t))
  {
    hide Place, Ordered, Due, Renewed, Relinked;
    DueSplits(line, due, now);
    var fired, rest := Due(line, due, now), line[Place(line, due, now)..];
    OrderedMeans(fired, due);
    RelinkedGood(rest, due, fired, kinds, now);
    forall t <- line ensures At(Renewed(due, fired, kinds, now), t) ==
                             if At(due, t) <= now && KindOf(kinds, t).periodic then now + KindOf(kinds, t).init else At(due, t) {
      RenewedAt(due, fired, kinds, now, t);
    }
  }

  /** The line when the first `j` due timers have fired. */
  function Midway(line: Row, due: Times, kinds: Kinds, now: int, j: nat): Row
    requires j <= Place(line, due, now)
  {
    var k := Place(line, due, now);
    line[j..k] + Relinked(line[k..], due, line[..j], kinds, now)
  }

  lemma {:induction false} MidwayStart(line: Row, due: Times, kinds: Kinds, now: int)
    ensures Midway(line, due, kinds, now, 0) == line
    ensures Renewed(due, line[..0], kinds, now) == due
  {
  }

  lemma {:induction false} MidwayEnd(line: Row, due: Times, kinds: Kinds, now: int)
    ensures Midway(line, due, kinds, now, Place(line, due, now)) == Left(line, due, kinds, now)
    ensures forall j :: 0 <= j <= Place(line, due, now) && Midway(line, due, kinds, now, j) == [] ==> j == Place(line, due, now)
  {
  }

  lemma {:induction false} InsertBehind(a: Row, b: Row, due: Times, t: Timer)
    requires forall u <- a :: At(due, u) <= At(due, t)
    ensures Insert(a + b, due, t) == a + Insert(b, due, t)
  {
    if a == [] {
      assert a + b == b;
    } else {
      assert (a + b)[1..] == a[1..] + b;
      InsertBehind(a[1..], b, due, t);
    }
  }

  /** While timers are due the next one is in front, and once it has fired and
      been relinked, if it is periodic, the line is that of the next step. */
  lemma {:induction false} MidwayStep(line: Row, due: Times, kinds: Kinds, now: int, j: nat)
    requires Ordered(line, due) && Ends(Due(line, due, now), kinds) && j < Place(line, due, now)
    ensures var t, d := line[j], Renewed(due, line[..j + 1], kinds, now);
            var m := Midway(line, due, kinds, now, j);
            && m != [] && m[0] == t && t in line
            && Midway(line, due, kinds, now, j + 1) ==
               if KindOf(kinds, t).periodic then Insert(m[1..], d, t) else m[1..]
    ensures Renewed(due, line[..j + 1], kinds, now) ==
            var t, d := line[j], Renewed(due, line[..j], kinds, now);
            if KindOf(kinds, t).periodic then d[t := now + KindOf(kinds, t).init] else d
  {
    hide Ordered, Place, Insert;
    var k := Place(line, due, now);
    var t, d := line[j], Renewed(due, line[..j + 1], kinds, now);
    assert line[..j + 1][..j] == line[..j];
    var a, x := line[j + 1..k], Relinked(line[k..], due, line[..j], kinds, now);
    assert line[j..k] + x == [t] + (a + x);
    if KindOf(kinds, t).periodic {
      SliceOrdered(line, due, j + 1);
      RenewedAt(due, line[..j + 1], kinds, now, t);
      assert line[..j + 1][j] == t && t in line;
      forall u <- a ensures At(d, u) <= At(d, t) {
        RenewedAt(due, line[..j + 1], kinds, now, u);
        var i :| 0 <= i < |a| && a[i] == u;
        assert u == line[j + 1..][i] && u == line[j + 1 + i];
      }
      InsertBehind(a, x, d, t);
    }
  }

  /** Every deadline midway is an old one, or one period from now. */
  lemma {:induction false} MidwayTimes(line: Row, due: Times, kinds: Kinds, now: int, j: nat)
    requires Ordered(line, due) && Ends(Due(line, due, now), kinds) && j <= Place(line, due, now)
    ensures var d, m := Renewed(due, line[..j], kinds, now), Midway(line, due, kinds, now, j);
            && (forall u <- m :: u in line)
            && (forall u <- m :: At(d, u) == At(due, u) || (KindOf(kinds, u).periodic && At(d, u) == now + KindOf(kinds, u).init))
            && (m != [] ==> (At(d, m[0]) <= now <==> j < Place(line, due, now)))
  {
    hide Ordered, Place, Insert, Relinked;
    var k := Place(line, due, now);
    var fired, d, m := line[..j], Renewed(due, line[..j], kinds, now), Midway(line, due, kinds, now, j);
    DueSplits(line, due, now);
    SliceOrdered(line, due, k);
    assert forall t <- fired :: t in line[..k];
    assert forall i, l :: 0 <= i < l < |fired| ==> fired[i] != fired[l] by { OrderedMeans(line, due); }
    RelinkedGood(line[k..], due, fired, kinds, now);
    forall u <- m
      ensures u in line
      ensures At(d, u) == At(due, u) || (KindOf(kinds, u).periodic && At(d, u) == now + KindOf(kinds, u).init)
    {
      assert u in line[j..k] || u in Relinked(line[k..], due, fired, kinds, now);
      RenewedAt(due, fired, kinds, now, u);
    }
    if m != [] && j < k {
      SliceOrdered(line, due, j);
      assert m[0] == line[j] == line[j..][0];
      RenewedAt(due, fired, kinds, now, line[j]);
    }
  }

  // ---------- when the expiry loop ends ----------

  /** One turn of the loop: the timer in front is fired. */
  function Turn(line: Row, due: Times, kinds: Kinds, now: int): (Row, Times)
    requires line != []
  {
    var t := line[0];
    if KindOf(kinds, t).periodic then
      var d := due[t := now + KindOf(kinds, t).init];
      (Insert(line[1..], d, t), d)
    else
      (line[1..], due)
  }

  ghost predicate Pending(line: Row, due: Times, now: int) {
    line != [] && At(due, line[0]) <= now
  }

  ghost predicate EndsWithin(n: nat, line: Row, due: Times, kinds: Kinds, now: int) {
    Pending(line, due, now) ==>
      n > 0 && var (l, d) := Turn(line, due, kinds, now); EndsWithin(n - 1, l, d, kinds, now)
  }

  lemma {:induction false} TurnGood(line: Row, due: Times, kinds: Kinds, now: int)
    requires Ordered(line, due) && line != []
    ensures var (l, d) := Turn(line, due, kinds, now); Ordered(l, d)
  {
    var t := line[0];
    if KindOf(kinds, t).periodic {
      var d := due[t := now + KindOf(kinds, t).init];
      OrderedFrame(line[1..], d, due);
      InsertGood(line[1..], d, t);
    }
  }

  /** A zero period puts the timer back among those that are due, for ever. */
  lemma {:induction false} ZeroPeriodNeverEnds(n: nat, line: Row, due: Times, kinds: Kinds, now: int, t: Timer)
    requires Ordered(line, due) && t in line && At(due, t) <= now
    requires KindOf(kinds, t) == Kind(0, true)
    ensures !EndsWithin(n, line, due, kinds, now)
    decreases n
  {
    assert Pending(line, due, now);
    if n > 0 {
      TurnGood(line, due, kinds, now);
      var (l, d) := Turn(line, due, kinds, now);
      ZeroPeriodNeverEnds(n - 1, l, d, kinds, now, t);
    }
  }

  lemma {:induction false} PositivePeriodsEnd(line: Row, due: Times, kinds: Kinds, now: int, j: nat)
    requires Ordered(line, due) && Ends(Due(line, due, now), kinds) && j <= Place(line, due, now)
    ensures EndsWithin(Place(line, due, now) - j, Midway(line, due, kinds, now, j), Renewed(due, line[..j], kinds, now), kinds, now)
    decreases Place(line, due, now) - j
  {
    hide Ordered, Place, Insert, Midway, Renewed, Due;
    MidwayTimes(line, due, kinds, now, j);
    if j < Place(line, due, now) {
      MidwayStep(line, due, kinds, now, j);
      PositivePeriodsEnd(line, due, kinds, now, j + 1);
    }
  }

  /** The expiry loop ends if and only if no periodic timer that is due has a
      zero period. */
  lemma {:induction false} LoopEndsIff(line: Row, due: Times, kinds: Kinds, now: int)
    requires Ordered(line, due)
    ensures (exists n :: EndsWithin(n, line, due, kinds, now)) <==> Ends(Due(line, due, now), kinds)
  {
    if Ends(Due(line, due, now), kinds) {
      MidwayStart(line, due, kinds, now);
      PositivePeriodsEnd(line, due, kinds, now, 0);
    } else {
      var t :| t in Due(line, due, now) && KindOf(kinds, t) == Kind(0, true);
      DueSplits(line, due, now);
      forall n: nat ensures !EndsWithin(n, line, due, kinds, now) {
        ZeroPeriodNeverEnds(n, line, due, kinds, now, t);
      }
    }
  }

  // ---------- runs ----------

  datatype Clock = Clock(now: int, line: Row, due: Times)

  datatype Event =
    | Start(timer: Timer)
    | Stop(timer: Timer)
    | Tick

  /** rt_timer_start, rt_timer_stop, and rt_tick_increase up to the end of
      rt_timer_check. */
  function Step(c: Clock, kinds: Kinds, e: Event): Clock {
    match e
    case Start(t) =>
      var due := c.due[t := c.now + KindOf(kinds, t).init];
      c.(line := Insert(Without(c.line, t), due, t), due := due)
    case Stop(t) => c.(line := Without(c.line, t))
    case Tick =>
      var now := c.now + 1;
      Clock(now, Left(c.line, c.due, kinds, now), Renewed(c.due, Due(c.line, c.due, now), kinds, now))
  }

  function Fires(c: Clock, e: Event): Row {
    if e.Tick? then Due(c.line, c.due, c.now + 1) else []
  }

  function Run(c: Clock, kinds: Kinds, es: seq<Event>): Clock
    decreases |es|
  {
    if es == [] then c else Run(Step(c, kinds, es[0]), kinds, es[1..])
  }

  /** The times at which `t` fires during a run. */
  function Firings(c: Clock, kinds: Kinds, es: seq<Event>, t: Timer): seq<int>
    decreases |es|
  {
    if es == [] then [] else
      (if t in Fires(c, es[0]) then [c.now + 1] else [])
      + Firings(Step(c, kinds, es[0]), kinds, es[1..], t)
  }

  /** Every period is one the kernel accepts, and no periodic one is zero. */
  ghost predicate Sound(kinds: Kinds) {
    forall t :: t in kinds ==> kinds[t].init < HALF && (kinds[t].periodic ==> kinds[t].init > 0)
  }

  ghost predicate Good(c: Clock) {
    && Ordered(c.line, c.due)
    && forall t <- c.line :: c.now <= At(c.due, t) < c.now + HALF
  }

  lemma {:induction false} StepGood(c: Clock, kinds: Kinds, e: Event)
    requires Sound(kinds) && Good(c)
    ensures Good(Step(c, kinds, e))
  {
    hide Place, Due, Renewed, Relinked, Left;
    match e
    case Start(t) =>
      var rest, due := Without(c.line, t), c.due[t := c.now + KindOf(kinds, t).init];
      WithoutGood(c.line, c.due, t);
      OrderedFrame(rest, due, c.due);
      InsertGood(rest, due, t);
    case Stop(t) => WithoutGood(c.line, c.due, t);
    case Tick => ExpiryExact(c.line, c.due, kinds, c.now + 1);
  }

  /** In every run the line stays ordered and every linked deadline within
      half the counter's range ahead. */
  lemma {:induction false} RunGood(c: Clock, kinds: Kinds, es: seq<Event>)
    requires Sound(kinds) && Good(c)
    ensures Good(Run(c, kinds, es))
    decreases |es|
  {
    if es != [] {
      StepGood(c, kinds, es[0]);
      RunGood(Step(c, kinds, es[0]), kinds, es[1..]);
    }
  }

  /** So the wrapped comparison is right about every start between ticks, and
      about everything the next tick's expiry compares. */
  lemma {:induction false} GoodIsComparable(c: Clock, kinds: Kinds)
    requires Sound(kinds) && Good(c)
    ensures forall t, u | t in kinds && u in c.line :: Comparable(At(c.due, u), c.now + kinds[t].init)
    ensures Clear(c.line, c.due, kinds, c.now + 1)
  {
  }

  // ---------- when a timer fires ----------

  ghost predicate Untouched(es: seq<Event>, t: Timer) {
    forall e <- es :: e != Start(t) && e != Stop(t)
  }

  lemma {:induction false} StepLeaves(c: Clock, kinds: Kinds, e: Event, t: Timer)
    requires Sound(kinds) && Good(c) && e != Start(t) && e != Stop(t)
    ensures var d := Step(c, kinds, e);
            && d.now == c.now + (if e.Tick? then 1 else 0)
            && (t !in c.line ==> t !in d.line && t !in Fires(c, e))
            && (t in c.line ==>
                  && (t in Fires(c, e) <==> e.Tick? && At(c.due, t) <= d.now)
                  && (t in d.line <==> t !in Fires(c, e) || KindOf(kinds, t).periodic)
                  && At(d.due, t) == if t in Fires(c, e) && KindOf(kinds, t).periodic
                                     then d.now + KindOf(kinds, t).init else At(c.due, t))
  {
    hide Place, Ordered, Due, Renewed, Relinked, Left;
    if e.Tick? {
      ExpiryExact(c.line, c.due, kinds, c.now + 1);
    }
  }

  lemma {:induction false} StepSilent(c: Clock, kinds: Kinds, e: Event, t: Timer)
    requires Sound(kinds) && Good(c) && t !in c.line && e != Start(t)
    ensures t !in Fires(c, e) && t !in Step(c, kinds, e).line
  {
    if e != Stop(t) { StepLeaves(c, kinds, e, t); }
  }

  /** A timer that is not linked stays silent until it is started. */
  lemma {:induction false} SilentUntilStarted(c: Clock, kinds: Kinds, es: seq<Event>, t: Timer)
    requires Sound(kinds) && Good(c) && t !in c.line && forall e <- es :: e != Start(t)
    ensures Firings(c, kinds, es, t) == []
    decreases |es|
  {
    hide Step, Fires, Ordered, Good;
    if es != [] {
      assert es[0] in es;
      StepGood(c, kinds, es[0]);
      StepSilent(c, kinds, es[0], t);
      assert forall e <- es[1..] :: e in es;
      SilentUntilStarted(Step(c, kinds, es[0]), kinds, es[1..], t);
    }
  }

  /** A stopped timer, running or not, stays silent until it is started; and
      stopping one touches no other. */
  lemma {:induction false} StopSilences(c: Clock, kinds: Kinds, es: seq<Event>, t: Timer)
    requires Sound(kinds) && Good(c) && forall e <- es :: e != Start(t)
    ensures Firings(c, kinds, [Stop(t)] + es, t) == []
    ensures Step(c, kinds, Stop(t)).due == c.due && forall u: Timer :: u in Step(c, kinds, Stop(t)).line <==> u != t && u in c.line
  {
    hide Ordered;
    assert ([Stop(t)] + es)[0] == Stop(t) && ([Stop(t)] + es)[1..] == es;
    WithoutGood(c.line, c.due, t);
    StepGood(c, kinds, Stop(t));
    SilentUntilStarted(Step(c, kinds, Stop(t)), kinds, es, t);
  }

  /** When a linked timer fires next: at its deadline, or with the next tick if
      that is here already. */
  function FiresAt(c: Clock, t: Timer): int {
    if At(c.due, t) > c.now then At(c.due, t) else c.now + 1
  }

  /** A one-shot timer fires then and never again. */
  lemma {:induction false} OneShot(c: Clock, kinds: Kinds, es: seq<Event>, t: Timer)
    requires Sound(kinds) && Good(c) && Untouched(es, t)
    requires t in c.line && !KindOf(kinds, t).periodic
    ensures Firings(c, kinds, es, t) == if FiresAt(c, t) <= Run(c, kinds, es).now then [FiresAt(c, t)] else []
    decreases |es|
  {
    hide Step, Fires, Ordered, Good;
    if es != [] {
      assert es[0] in es;
      var d := Step(c, kinds, es[0]);
      StepGood(c, kinds, es[0]);
      StepLeaves(c, kinds, es[0], t);
      assert forall e <- es[1..] :: e in es;
      if t in d.line {
        OneShot(d, kinds, es[1..], t);
      } else {
        SilentUntilStarted(d, kinds, es[1..], t);
        TimeGrows(d, kinds, es[1..]);
      }
    }
  }

  lemma {:induction false} TimeGrows(c: Clock, kinds: Kinds, es: seq<Event>)
    ensures c.now <= Run(c, kinds, es).now
    decreases |es|
  {
    if es != [] { TimeGrows(Step(c, kinds, es[0]), kinds, es[1..]); }
  }

  /** first, first + period, ... up to `last`. */
  function Multiples(first: int, period: nat, last: int): seq<int>
    requires period > 0
    decreases last - first
  {
    if first > last then [] else [first] + Multiples(first + period, period, last)
  }

  /** A periodic timer fires at its deadline and then every period, without
      drift, whatever is started and stopped around it. */
  lemma {:induction false} PeriodicNeverDrifts(c: Clock, kinds: Kinds, es: seq<Event>, t: Timer)
    requires Sound(kinds) && Good(c) && Untouched(es, t)
    requires t in c.line && t in kinds && kinds[t].periodic
    ensures Firings(c, kinds, es, t) == Multiples(FiresAt(c, t), kinds[t].init, Run(c, kinds, es).now)
    decreases |es|
  {
    hide Step, Fires, Ordered, Good;
    if es != [] {
      assert es[0] in es;
      var d := Step(c, kinds, es[0]);
      StepGood(c, kinds, es[0]);
      StepLeaves(c, kinds, es[0], t);
      assert forall e <- es[1..] :: e in es;
      PeriodicNeverDrifts(d, kinds, es[1..], t);
      TimeGrows(d, kinds, es[1..]);
    }
  }

  function Positive(n: nat): nat {
    if n == 0 then 1 else n
  }

  /** A timer started with a time of `n` ticks fires first exactly `n` ticks
      later, and one with no time at all with the next tick. */
  lemma {:induction false} StartedFiresAfter(c: Clock, kinds: Kinds, es: seq<Event>, t: Timer)
    requires Sound(kinds) && Good(c) && Untouched(es, t) && t in kinds
    requires Run(c, kinds, [Start(t)] + es).now >= c.now + Positive(kinds[t].init)
    ensures var f := Firings(c, kinds, [Start(t)] + es, t); f != [] && f[0] == c.now + Positive(kinds[t].init)
  {
    var all := [Start(t)] + es;
    assert all[1..] == es;
    var d := Step(c, kinds, Start(t));
    StepGood(c, kinds, Start(t));
    if kinds[t].periodic {
      PeriodicNeverDrifts(d, kinds, es, t);
    } else {
      OneShot(d, kinds, es, t);
    }
  }
}
