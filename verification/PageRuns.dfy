/**
  The page allocator of slab.c on values: a list of runs of free pages, in
  address order and with an allocated page between any two of them.
*/
module PageRuns {
  datatype Option<T> = None | Some(value: T)

  datatype Run = Run(at: int, len: int)
  type Runs = seq<Run>

  predicate InSpan(at: int, len: int, i: int) {
    at <= i < at + len
  }

  function Span(at: int, len: int): set<int> {
    set i {:trigger InSpan(at, len, i)} | at <= i < at + len && InSpan(at, len, i)
  }

  /** The free pages a list stands for. */
  function Pages(runs: Runs): set<int> {
    if runs == [] then {} else Span(runs[0].at, runs[0].len) + Pages(runs[1..])
  }

  /** In address order, and as few runs as possible. */
  ghost predicate Canonical(runs: Runs) {
    runs != [] ==>
      && runs[0].len > 0
      && (|runs| > 1 ==> runs[0].at + runs[0].len < runs[1].at)
      && Canonical(runs[1..])
  }

  // ---------- the two operations ----------

  /** rt_page_alloc of `n` pages: the first run that is long enough. */
  function Alloc(runs: Runs, n: int): (Option<int>, Runs) {
    if runs == [] then (None, []) else
      var b, rest := runs[0], runs[1..];
      if b.len > n then (Some(b.at), [Run(b.at + n, b.len - n)] + rest)
      else if b.len == n then (Some(b.at), rest)
      else
        var (at, r) := Alloc(rest, n);
        (at, [b] + r)
  }

  /** rt_page_free: joined to the run that ends there, to the one that starts
      there, to both, or put in between. */
  function Free(runs: Runs, at: int, n: int): Runs {
    if runs == [] then [Run(at, n)] else
      var b, rest := runs[0], runs[1..];
      if b.at + b.len == at then
        if rest != [] && b.at + b.len + n == rest[0].at
        then [Run(b.at, b.len + n + rest[0].len)] + rest[1..]
        else [Run(b.at, b.len + n)] + rest
      else if b.at == at + n then [Run(at, n + b.len)] + rest
      else if b.at > at + n then [Run(at, n)] + runs
      else [b] + Free(rest, at, n)
  }

  // ---------- canonical lists ----------

  lemma {:induction false} PagesAbove(runs: Runs)
    requires Canonical(runs) && runs != []
    ensures forall p <- Pages(runs) :: p >= runs[0].at
    ensures forall p <- Pages(runs[1..]) :: p > runs[0].at + runs[0].len
  {
    if |runs| > 1 { PagesAbove(runs[1..]); }
  }

  /** A set of free pages has one canonical list. */
  lemma {:induction false} OneList(a: Runs, b: Runs)
    requires Canonical(a) && Canonical(b) && Pages(a) == Pages(b)
    ensures a == b
  {
    assert a != [] ==> a[0].at in Pages(a);
    assert b != [] ==> b[0].at in Pages(b);
    if a != [] && b != [] {
      PagesAbove(a);
      PagesAbove(b);
      assert a[0].at == b[0].at;
      LengthIs(a);
      LengthIs(b);
      assert a[0].len == b[0].len;
      RestIs(a);
      RestIs(b);
      OneList(a[1..], b[1..]);
      assert a == [a[0]] + a[1..] && b == [b[0]] + b[1..];
    }
  }

  lemma {:induction false} LengthIs(a: Runs)
    requires Canonical(a) && a != []
    ensures a[0].at + a[0].len !in Pages(a)
    ensures forall i :: a[0].at <= i < a[0].at + a[0].len ==> i in Pages(a)
  {
    PagesAbove(a);
  }

  lemma {:induction false} RestIs(a: Runs)
    requires Canonical(a) && a != []
    ensures Pages(a[1..]) == Pages(a) - Span(a[0].at, a[0].len)
  {
    PagesAbove(a);
  }

  // ---------- allocation ----------

  ghost predicate Fits(runs: Runs, at: int, n: int) {
    Span(at, n) <= Pages(runs)
  }

  /** Allocation takes out exactly `n` contiguous pages and keeps the list
      canonical. */
  lemma {:induction false} AllocTakes(runs: Runs, n: int)
    requires Canonical(runs) && n > 0
    ensures var (at, r) := Alloc(runs, n);
            && Canonical(r)
            && (at == None ==> r == runs)
            && (at.Some? ==> Fits(runs, at.value, n) && Pages(r) == Pages(runs) - Span(at.value, n))
            && (runs != [] && r != [] ==> r[0].at >= runs[0].at)
  {
    if runs != [] {
      var b, rest := runs[0], runs[1..];
      PagesAbove(runs);
      if b.len > n {
        var r := [Run(b.at + n, b.len - n)] + rest;
        assert r[1..] == rest;
        assert Pages(r) == Pages(runs) - Span(b.at, n);
      } else if b.len == n {
        assert Pages(rest) == Pages(runs) - Span(b.at, n);
      } else {
        AllocTakes(rest, n);
        var (at, r) := Alloc(rest, n);
        assert ([b] + r)[1..] == r;
        if at.Some? {
          assert Span(at.value, n) !! Span(b.at, b.len) by {
            assert at.value in Span(at.value, n);
            AllocAbove(runs, n);
          }
          assert Pages([b] + r) == Pages(runs) - Span(at.value, n);
        } else {
          assert [b] + r == runs;
        }
      }
    }
  }

  lemma {:induction false} AllocAbove(runs: Runs, n: int)
    requires Canonical(runs) && runs != [] && n > 0
    ensures Alloc(runs, n).0.Some? ==> Alloc(runs, n).0.value >= runs[0].at
    ensures Alloc(runs[1..], n).0.Some? ==> Alloc(runs[1..], n).0.value > runs[0].at + runs[0].len
  {
    if |runs| > 1 { AllocAbove(runs[1..], n); }
  }

  /** Contiguous free pages lie in one run. */
  lemma {:induction false} FitsInOneRun(runs: Runs, at: int, n: int)
    requires Canonical(runs) && n > 0 && Fits(runs, at, n) && runs != []
    ensures Span(at, n) <= Span(runs[0].at, runs[0].len) || Fits(runs[1..], at, n)
  {
    PagesAbove(runs);
    var b := runs[0];
    LengthIs(runs);
    assert at in Span(at, n);
    assert at <= b.at + b.len < at + n ==> b.at + b.len in Span(at, n);
  }

  /** Allocation fails exactly when there are not `n` contiguous free pages
      anywhere, and otherwise gives the lowest such pages. */
  lemma {:induction false} AllocLowest(runs: Runs, n: int)
    requires Canonical(runs) && n > 0
    ensures Alloc(runs, n).0 == None <==> forall at :: !Fits(runs, at, n)
    ensures Alloc(runs, n).0.Some? ==> forall at :: Fits(runs, at, n) ==> Alloc(runs, n).0.value <= at
  {
    AllocTakes(runs, n);
    forall at | Fits(runs, at, n) ensures Alloc(runs, n).0.Some? && Alloc(runs, n).0.value <= at {
      AllocBelow(runs, n, at);
    }
  }

  lemma {:induction false} AllocBelow(runs: Runs, n: int, at: int)
    requires Canonical(runs) && n > 0 && Fits(runs, at, n)
    ensures Alloc(runs, n).0.Some? && Alloc(runs, n).0.value <= at
  {
    assert at in Span(at, n);
    if runs != [] {
      FitsInOneRun(runs, at, n);
      if Fits(runs[1..], at, n) {
        AllocBelow(runs[1..], n, at);
        AllocAbove(runs, n);
      } else {
        assert at in Span(at, n) && at + n - 1 in Span(at, n);
      }
    }
  }

  // ---------- release ----------

  /** Releasing pages that are not free is set union, and keeps the list
      canonical. */
  lemma {:induction false} FreeJoins(runs: Runs, at: int, n: int)
    requires Canonical(runs) && n > 0 && Span(at, n) !! Pages(runs)
    ensures Canonical(Free(runs, at, n))
    ensures Pages(Free(runs, at, n)) == Pages(runs) + Span(at, n)
    ensures Free(runs, at, n) != []
    ensures Free(runs, at, n)[0].at == if runs == [] || at < runs[0].at then at else runs[0].at
  {
    if runs != [] {
      var b, rest := runs[0], runs[1..];
      PagesAbove(runs);
      assert at in Span(at, n) && b.at in Pages(runs);
      if b.at + b.len == at {
        if rest != [] && b.at + b.len + n == rest[0].at {
          var r := [Run(b.at, b.len + n + rest[0].len)] + rest[1..];
          assert r[1..] == rest[1..];
        } else {
          assert ([Run(b.at, b.len + n)] + rest)[1..] == rest;
          if rest != [] { assert rest[0].at in Pages(rest); }
        }
      } else if b.at == at + n {
        assert ([Run(at, n + b.len)] + rest)[1..] == rest;
      } else if b.at > at + n {
        assert ([Run(at, n)] + runs)[1..] == runs;
      } else {
        assert at < b.at < at + n ==> b.at in Span(at, n);
        FreeJoins(rest, at, n);
        var r := Free(rest, at, n);
        assert ([b] + r)[1..] == r;
      }
    }
  }

  /** Releasing what an allocation just returned gives the very same list. */
  lemma {:induction false} AllocThenFree(runs: Runs, n: int)
    requires Canonical(runs) && n > 0 && Alloc(runs, n).0.Some?
    ensures var (at, r) := Alloc(runs, n); Free(r, at.value, n) == runs
  {
    var (at, r) := Alloc(runs, n);
    AllocTakes(runs, n);
    FreeJoins(r, at.value, n);
    OneList(Free(r, at.value, n), runs);
  }

  // ---------- runs of calls ----------

  datatype State = State(free: Runs, owned: map<int, int>) // what was allocated, by first page
  datatype Call = AllocPages(n: int) | FreePages(at: int)

  function Step(s: State, c: Call): State {
    match c
    case AllocPages(n) =>
      if n <= 0 then s else
        var (at, r) := Alloc(s.free, n);
        if at == None then s else State(r, s.owned[at.value := n])
    case FreePages(at) =>
      if at !in s.owned then s else State(Free(s.free, at, s.owned[at]), s.owned - {at})
  }

  function RunCalls(s: State, cs: seq<Call>): State
    decreases |cs|
  {
    if cs == [] then s else RunCalls(Step(s, cs[0]), cs[1..])
  }

  /** Free pages and owned spans split `all` between them. */
  ghost predicate Good(s: State, all: set<int>) {
    && Canonical(s.free)
    && (forall a <- s.owned :: s.owned[a] > 0 && Span(a, s.owned[a]) <= all && Span(a, s.owned[a]) !! Pages(s.free))
    && (forall a <- s.owned, b <- s.owned :: a != b ==> Span(a, s.owned[a]) !! Span(b, s.owned[b]))
    && Pages(s.free) <= all
    && (forall p <- all :: p in Pages(s.free) || exists a <- s.owned :: p in Span(a, s.owned[a]))
  }

  lemma {:induction false} StepGood(s: State, c: Call, all: set<int>)
    requires Good(s, all)
    ensures Good(Step(s, c), all)
  {
    hide Canonical, Alloc, Free;
    match c
    case AllocPages(n) =>
      if n > 0 {
        AllocTakes(s.free, n);
        var (at, r) := Alloc(s.free, n);
        if at.Some? {
          var t := Step(s, c);
          assert at.value in Span(at.value, n);
          assert at.value in s.owned ==> at.value in Span(at.value, s.owned[at.value]);
          forall p <- all ensures p in Pages(t.free) || exists a <- t.owned :: p in Span(a, t.owned[a]) {
            if p in Span(at.value, n) { assert at.value in t.owned; }
            if a :| a in s.owned && p in Span(a, s.owned[a]) { assert a in t.owned; }
          }
        }
      }
    case FreePages(at) =>
      if at in s.owned {
        FreeJoins(s.free, at, s.owned[at]);
        var t := Step(s, c);
        forall p <- all ensures p in Pages(t.free) || exists a <- t.owned :: p in Span(a, t.owned[a]) {
          if a :| a in s.owned && p in Span(a, s.owned[a]) {
            assert a != at ==> a in t.owned;
          }
        }
      }
  }

  lemma {:induction false} RunGood(s: State, cs: seq<Call>, all: set<int>)
    requires Good(s, all)
    ensures Good(RunCalls(s, cs), all)
    decreases |cs|
  {
    hide Good, Step;
    if cs != [] {
      StepGood(s, cs[0], all);
      RunGood(Step(s, cs[0]), cs[1..], all);
    }
  }

  /** Once everything has been released, whatever the order, the list is the
      one the allocator started with. */
  lemma {:induction false} RunLeavesNoTrace(start: Runs, cs: seq<Call>)
    requires Canonical(start) && RunCalls(State(start, map[]), cs).owned == map[]
    ensures RunCalls(State(start, map[]), cs).free == start
  {
    var s := State(start, map[]);
    RunGood(s, cs, Pages(start));
    var r := RunCalls(s, cs);
    assert Pages(r.free) == Pages(start);
    OneList(r.free, start);
  }
}
