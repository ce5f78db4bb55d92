/**
  The timer list as one line of timers ordered by deadline, and the heights
  that turn that line into the rows of a skip list (timer.c).

  Deadlines here are true times: integers that never wrap.  The kernel keeps
  them modulo 2^32, and compares two of them by the size of their wrapped
  difference; CompareExact says exactly when that agrees with the true order.
*/
module TimerLine {
  import opened BinaryDigits

  const WRAP := 0x1_0000_0000
  const HALF := 0x7fff_ffff // RT_TICK_MAX / 2

  // ---------- 32-bit ticks ----------

  function Minus(a: int, b: int): int {
    (a - b) % WRAP
  }

  /** The test that makes the search stop in front of a timer. */
  predicate Later(a: int, b: int) {
    Minus(a, b) != 0 && Minus(a, b) < HALF
  }

  /** The test that makes a timer fire. */
  predicate Reached(now: int, tick: int) {
    Minus(now, tick) < HALF
  }

  /** The differences the kernel's comparison can tell apart. */
  predicate Comparable(a: int, b: int) {
    -0x8000_0001 <= a - b < HALF
  }

  lemma {:induction false} WrappedDifference(a: int, b: int)
    requires -WRAP < a - b < WRAP
    ensures Minus(a % WRAP, b % WRAP) == if a >= b then a - b else a - b + WRAP
  {
    var qa, qb := a / WRAP, b / WRAP;
    assert a == qa * WRAP + a % WRAP;
    assert b == qb * WRAP + b % WRAP;
    var d := a % WRAP - b % WRAP;
    assert d == a - b - (qa - qb) * WRAP;
    assert -2 < qa - qb < 2;
  }

  /** Within one turn of the counter, "later" and "reached" are right for
      exactly the Comparable differences. */
  lemma {:induction false} CompareExact(a: int, b: int)
    requires -WRAP < a - b < WRAP
    ensures (Later(a % WRAP, b % WRAP) <==> a > b) <==> Comparable(a, b)
    ensures (Reached(a % WRAP, b % WRAP) <==> a >= b) <==> Comparable(a, b)
    ensures Minus(a % WRAP, b % WRAP) == 0 <==> a == b
  {
    WrappedDifference(a, b);
  }

  // ---------- one row ----------

  /** A timer object (struct rt_timer without its links). */
  class Timer {
    var timeoutTick: int
    var initTick: int
    var periodic: bool
    var activated: bool

    constructor (time: int, cyclic: bool)
      ensures timeoutTick == 0 && initTick == time && periodic == cyclic && !activated
    {
      timeoutTick, initTick, periodic, activated := 0, time, cyclic, false;
    }
  }

  type Row = seq<Timer>
  type Times = map<Timer, int>

  function At(due: Times, t: Timer): int {
    if t in due then due[t] else 0
  }

  /** Deadlines never decrease along the row, and no timer is in it twice. */
  ghost predicate Ordered(row: Row, due: Times) {
    row != [] ==>
      && row[0] !in row[1..]
      && (forall u <- row[1..] :: At(due, row[0]) <= At(due, u))
      && Ordered(row[1..], due)
  }

  lemma {:induction false} OrderedMeans(row: Row, due: Times)
    ensures Ordered(row, due) <==>
            forall i, j :: 0 <= i < j < |row| ==> row[i] != row[j] && At(due, row[i]) <= At(due, row[j])
  {
    if row != [] {
      var rest := row[1..];
      OrderedMeans(rest, due);
      if Ordered(row, due) {
        forall i, j | 0 <= i < j < |row| ensures row[i] != row[j] && At(due, row[i]) <= At(due, row[j]) {
          assert row[j] == rest[j - 1];
          if i > 0 { assert row[i] == rest[i - 1]; }
        }
      } else if row[0] in rest {
        var j :| 0 <= j < |rest| && rest[j] == row[0];
        assert row[0] == row[j + 1];
      } else if u :| u in rest && At(due, row[0]) > At(due, u) {
        var j :| 0 <= j < |rest| && rest[j] == u;
        assert u == row[j + 1];
      } else {
        var i, j :| 0 <= i < j < |rest| && !(rest[i] != rest[j] && At(due, rest[i]) <= At(due, rest[j]));
        assert rest[i] == row[i + 1] && rest[j] == row[j + 1];
      }
    }
  }

  /** Where a scan from the front stops: behind every deadline up to `d`. */
  function Place(row: Row, due: Times, d: int): (p: nat)
    ensures p <= |row|
    ensures forall i :: 0 <= i < p ==> At(due, row[i]) <= d
    ensures p < |row| ==> At(due, row[p]) > d
  {
    if row == [] || At(due, row[0]) > d then 0 else
      var p := Place(row[1..], due, d) + 1;
      assert forall i :: 1 <= i < p ==> row[i] == row[1..][i - 1];
      p
  }

  /** Insertion behind every equal deadline. */
  function Insert(row: Row, due: Times, t: Timer): (r: Row)
    ensures |r| == |row| + 1
    ensures forall u <- r :: u == t || u in row
    ensures t in r && forall u <- row :: u in r
  {
    if row == [] || At(due, row[0]) > At(due, t) then [t] + row
    else
      assert row == [row[0]] + row[1..];
      [row[0]] + Insert(row[1..], due, t)
  }

  function Without(row: Row, t: Timer): (r: Row)
    ensures forall u <- r :: u in row && u != t
    ensures forall u <- row :: u != t ==> u in r
    ensures t !in row ==> r == row
  {
    if row == [] then [] else
      if row[0] == t then Without(row[1..], t)
      else [row[0]] + Without(row[1..], t)
  }

  lemma Regroup<T>(x: T, a: seq<T>, t: T, b: seq<T>)
    ensures [x] + (a + [t] + b) == [x] + a + [t] + b
  {
  }

  lemma {:induction false} InsertIsAtPlace(row: Row, due: Times, t: Timer)
    ensures var p := Place(row, due, At(due, t)); Insert(row, due, t) == row[..p] + [t] + row[p..]
  {
    var p := Place(row, due, At(due, t));
    if p == 0 {
      assert row[..0] == [] && row[0..] == row;
    } else {
      var rest, a := row[1..], row[1..][..p - 1];
      InsertIsAtPlace(rest, due, t);
      Heads(row, p);
      Regroup(row[0], a, t, row[p..]);
    }
  }

  lemma {:induction false} Heads(row: Row, p: nat)
    requires 0 < p <= |row|
    ensures row[..p] == [row[0]] + row[1..][..p - 1]
    ensures row[1..][p - 1..] == row[p..]
  {
  }

  /** In an ordered row the scan is the only place that splits it at `d`. */
  lemma {:induction false} PlaceUnique(row: Row, due: Times, d: int, p: nat)
    requires Ordered(row, due) && p <= |row|
    requires p > 0 ==> At(due, row[p - 1]) <= d
    requires p < |row| ==> At(due, row[p]) > d
    ensures p == Place(row, due, d)
  {
    OrderedMeans(row, due);
  }

  lemma {:induction false} InsertGood(row: Row, due: Times, t: Timer)
    requires Ordered(row, due) && t !in row
    ensures Ordered(Insert(row, due, t), due)
  {
    if row != [] && At(due, row[0]) <= At(due, t) {
      InsertGood(row[1..], due, t);
      assert Insert(row, due, t)[1..] == Insert(row[1..], due, t);
    } else {
      assert ([t] + row)[1..] == row;
    }
  }

  lemma {:induction false} WithoutGood(row: Row, due: Times, t: Timer)
    requires Ordered(row, due)
    ensures Ordered(Without(row, t), due)
    ensures |Without(row, t)| == |row| - (if t in row then 1 else 0)
  {
    if row != [] {
      WithoutGood(row[1..], due, t);
      if row[0] != t {
        assert Without(row, t)[1..] == Without(row[1..], t);
      }
    }
  }

  lemma {:induction false} WithoutHead(row: Row, due: Times)
    requires row != [] && Ordered(row, due)
    ensures Without(row, row[0]) == row[1..]
  {
  }

  /** The order depends on the deadlines of the timers in the row only. */
  lemma {:induction false} OrderedFrame(row: Row, due: Times, was: Times)
    requires Ordered(row, was) && forall t <- row :: At(due, t) == At(was, t)
    ensures Ordered(row, due)
  {
    if row != [] {
      assert forall t <- row[1..] :: t in row;
      OrderedFrame(row[1..], due, was);
    }
  }

  // ---------- the rows of the skip list ----------

  /** The part of the line that is at least `k` rows tall. */
  function Select(line: Row, height: map<Timer, nat>, k: nat): (r: Row)
    ensures forall t <- r :: t in line && t in height && height[t] >= k
    ensures forall t <- line :: t in height && height[t] >= k ==> t in r
  {
    if line == [] then [] else
      var rest := Select(line[1..], height, k);
      if line[0] in height && height[line[0]] >= k then [line[0]] + rest else rest
  }

  /** Row `l` of `levels` holds the timers of the line that reach it from
      below; the last row holds them all. */
  ghost predicate Layers(rows: seq<Row>, line: Row, height: map<Timer, nat>, levels: nat) {
    && |rows| == levels >= 1
    && rows[levels - 1] == line
    && forall l :: 0 <= l < levels ==> rows[l] == Select(line, height, levels - l)
  }

  /** A timer's height, from the running start counter: one row more for
      every pair of low bits that is zero. */
  function Height(n: nat, levels: nat): (h: nat)
    requires levels >= 1
    ensures 1 <= h <= levels
    decreases levels
  {
    if levels == 1 || n % 4 != 0 then 1 else 1 + Height(n / 4, levels - 1)
  }

  function Power4(k: nat): (p: nat)
    ensures p > 0
  {
    if k == 0 then 1 else 4 * Power4(k - 1)
  }

  /** So a row above the bottom one takes every fourth start of the row below
      it: a timer is in more than k rows if and only if there are as many and
      the counter is a multiple of 4 to the k. */
  lemma {:induction false} HeightIs(n: nat, levels: nat, k: nat)
    requires levels >= 1
    ensures Height(n, levels) > k <==> k < levels && n % Power4(k) == 0
    decreases levels
  {
    if k > 0 && levels > 1 {
      HeightIs(n / 4, levels - 1, k - 1);
      MultipleOfFour(n, Power4(k - 1));
    }
  }

  lemma {:induction false} MultipleOfFour(n: nat, p: nat)
    requires p > 0
    ensures n % (4 * p) == 0 <==> n % 4 == 0 && n / 4 % p == 0
  {
    if n % (4 * p) == 0 {
      var q := n / (4 * p);
      assert n == 4 * (q * p);
      DivModUnique(n / 4, p, q, 0);
    } else if n % 4 == 0 && n / 4 % p == 0 {
      var q := n / 4 / p;
      assert n / 4 == q * p;
      assert n == q * (4 * p);
      DivModUnique(n, 4 * p, q, 0);
    }
  }

  lemma {:induction false} SelectGood(line: Row, height: map<Timer, nat>, k: nat, due: Times)
    requires Ordered(line, due)
    ensures Ordered(Select(line, height, k), due)
  {
    if line != [] {
      SelectGood(line[1..], height, k, due);
      var s, r := Select(line[1..], height, k), Select(line, height, k);
      if r != s {
        assert r[1..] == s;
      }
    }
  }

  lemma {:induction false} SelectFrame(line: Row, height: map<Timer, nat>, was: map<Timer, nat>, k: nat)
    requires forall t <- line :: (t in height <==> t in was) && (t in height ==> height[t] == was[t])
    ensures Select(line, height, k) == Select(line, was, k)
  {
    if line != [] {
      assert forall t <- line[1..] :: t in line;
      SelectFrame(line[1..], height, was, k);
    }
  }

  /** Unlinking from every row is unlinking from the line. */
  lemma {:induction false} SelectWithout(line: Row, height: map<Timer, nat>, k: nat, t: Timer)
    ensures Select(Without(line, t), height, k) == Without(Select(line, height, k), t)
  {
    if line != [] {
      SelectWithout(line[1..], height, k, t);
      var w := Without(line[1..], t);
      if line[0] != t {
        assert Without(line, t) == [line[0]] + w;
        assert ([line[0]] + w)[1..] == w;
      }
      var s := Select(line[1..], height, k);
      assert ([line[0]] + s)[1..] == s;
    }
  }

  /** Inserting in each row a timer reaches, at that row's own scan position,
      is inserting in the line: the rows need no agreement between them. */
  lemma {:induction false} SelectInsert(line: Row, height: map<Timer, nat>, k: nat, due: Times, t: Timer)
    requires Ordered(line, due) && t in height
    ensures Select(Insert(line, due, t), height, k) ==
            if height[t] >= k then Insert(Select(line, height, k), due, t) else Select(line, height, k)
  {
    if line == [] || At(due, line[0]) > At(due, t) {
      assert ([t] + line)[1..] == line;
      var s := Select(line, height, k);
      if s != [] { assert s[0] in line; }
    } else {
      SelectInsert(line[1..], height, k, due, t);
      assert Insert(line, due, t)[1..] == Insert(line[1..], due, t);
      var s := Select(line[1..], height, k);
      assert ([line[0]] + s)[1..] == s;
    }
  }

  lemma {:induction false} LayersWithout(was: seq<Row>, rows: seq<Row>, line: Row, height: map<Timer, nat>, levels: nat, t: Timer)
    requires Layers(was, line, height, levels) && |rows| == levels
    requires forall l :: 0 <= l < levels ==> rows[l] == Without(was[l], t)
    ensures Layers(rows, Without(line, t), height, levels)
  {
    hide Select, Without;
    forall l | 0 <= l < levels ensures rows[l] == Select(Without(line, t), height, levels - l) {
      SelectWithout(line, height, levels - l, t);
    }
  }

  /** Inserting a new timer in its lowest `height[t]` rows is inserting it in
      the line. */
  lemma {:induction false} LayersInsert(was: seq<Row>, rows: seq<Row>, line: Row, rest: map<Timer, nat>, levels: nat, due: Times, t: Timer, h: nat)
    requires Layers(was, line, rest, levels) && |rows| == levels && Ordered(line, due) && t !in line && h >= 1
    requires forall l :: 0 <= l < levels ==> rows[l] == if levels - l <= h then Insert(was[l], due, t) else was[l]
    ensures Layers(rows, Insert(line, due, t), rest[t := h], levels)
  {
    hide Select, Insert, Ordered;
    var height := rest[t := h];
    forall l | 0 <= l < levels ensures rows[l] == Select(Insert(line, due, t), height, levels - l) {
      SelectFrame(line, height, rest, levels - l);
      SelectInsert(line, height, levels - l, due, t);
    }
  }

  /** What the search relies on: each row is ordered, and whatever it holds is
      held by the row below. */
  lemma {:induction false} RowFacts(rows: seq<Row>, line: Row, height: map<Timer, nat>, levels: nat, due: Times, l: nat)
    requires Layers(rows, line, height, levels) && Ordered(line, due) && l < levels
    ensures Ordered(rows[l], due)
    ensures forall t <- rows[l] :: t in line
    ensures l + 1 < levels ==> forall t <- rows[l] :: t in rows[l + 1]
  {
    hide Ordered;
    SelectGood(line, height, levels - l, due);
    if l + 1 < levels {
      assert rows[l + 1] == Select(line, height, levels - (l + 1));
    }
  }
}
