/**
  The finsh heap on values (finsh_heap.c): free blocks and allocated blocks,
  each in address order, that fill the heap between them.  Addresses and
  lengths are in words, and a block includes its two-word header.
*/
module FinshHeapPicture {
  import opened PageRuns

  const HEADER := 2
  const LEAST := 5 // a first search wants room for two headers and a word more

  /** A block's data pointer. */
  function Data(b: Run): int {
    b.at + HEADER
  }

  datatype Heap = Heap(free: Runs, used: Runs)

  /** In address order, one behind the other. */
  ghost predicate Stacked(q: Runs) {
    q != [] ==>
      && q[0].len >= HEADER
      && (|q| > 1 ==> q[0].at + q[0].len <= q[1].at)
      && Stacked(q[1..])
  }

  /** Free and allocated blocks fill the heap, no two free blocks touch, and
      the topmost block is free. */
  ghost predicate Good(h: Heap, n: int) {
    && Canonical(h.free) && Stacked(h.free) && Stacked(h.used)
    && Pages(h.free) !! Pages(h.used)
    && Pages(h.free) + Pages(h.used) == Span(0, n)
    && n - 1 in Pages(h.free)
  }

  // ---------- the operations ----------

  /** `n` words from the front of the first free block of at least `least`,
      which leaves the rest of it free. */
  function Carve(free: Runs, n: int, least: int): (Option<int>, Runs) {
    if free == [] then (None, []) else
      var b, rest := free[0], free[1..];
      if b.len >= least then (Some(b.at), [Run(b.at + n, b.len - n)] + rest)
      else
        var (at, r) := Carve(rest, n, least);
        (at, [b] + r)
  }

  /** An allocated block among the others. */
  function Insert(used: Runs, b: Run): Runs {
    if used == [] then [b]
    else if used[0].at > b.at then [b] + used
    else [used[0]] + Insert(used[1..], b)
  }

  function Remove(used: Runs, at: int): Runs {
    if used == [] then [] else if used[0].at == at then used[1..] else [used[0]] + Remove(used[1..], at)
  }

  /** finsh_heap_free. */
  function Release(h: Heap, b: Run): Heap {
    Heap(Free(h.free, b.at, b.len), Remove(h.used, b.at))
  }

  /** finsh_heap_gc from block `i` of `used` on: every block that no pointer in
      `vars` refers to is released. */
  function Collect(h: Heap, todo: Runs, vars: set<int>): Heap
    decreases |todo|
  {
    if todo == [] then h
    else if Data(todo[0]) in vars then Collect(h, todo[1..], vars)
    else Collect(Release(h, todo[0]), todo[1..], vars)
  }

  function Gc(h: Heap, vars: set<int>): Heap {
    Collect(h, h.used, vars)
  }

  /** finsh_heap_allocate of `size` words. */
  function Allocate(h: Heap, size: int, vars: set<int>): (Option<int>, Heap) {
    var n := size + HEADER;
    var (at, free) := Carve(h.free, n, size + LEAST);
    if at.Some? then (Some(at.value + HEADER), Heap(free, Insert(h.used, Run(at.value, n))))
    else
      var g := Gc(h, vars);
      var (again, left) := Carve(g.free, n, size + 2 * HEADER);
      if again.Some? then (Some(again.value + HEADER), Heap(left, Insert(g.used, Run(again.value, n))))
      else (None, g)
  }

  // ---------- lists of blocks ----------

  lemma {:induction false} StackedAbove(q: Runs)
    requires Stacked(q) && q != []
    ensures forall p <- Pages(q) :: p >= q[0].at
    ensures forall p <- Pages(q[1..]) :: p >= q[0].at + q[0].len
    ensures forall b <- q[1..] :: b.at >= q[0].at + q[0].len
  {
    if |q| > 1 {
      StackedAbove(q[1..]);
      assert q[1..] == [q[1]] + q[1..][1..];
    }
  }

  /** Each block of a list is a part of it. */
  lemma {:induction false} BlockIn(q: Runs, b: Run)
    requires b in q
    ensures Span(b.at, b.len) <= Pages(q)
  {
    if b != q[0] { BlockIn(q[1..], b); }
  }

  lemma {:induction false} InsertGood(q: Runs, b: Run)
    requires Stacked(q) && b.len >= HEADER && Span(b.at, b.len) !! Pages(q)
    ensures Stacked(Insert(q, b)) && Pages(Insert(q, b)) == Pages(q) + Span(b.at, b.len)
    ensures forall c :: c in Insert(q, b) <==> c == b || c in q
    ensures Insert(q, b)[0].at == if q == [] || q[0].at > b.at then b.at else q[0].at
  {
    assert b.at in Span(b.at, b.len);
    if q != [] {
      var a := q[0];
      assert a.at in Pages(q);
      assert b.at <= a.at < b.at + b.len ==> a.at in Span(b.at, b.len);
      if a.at > b.at {
        assert ([b] + q)[1..] == q;
      } else {
        assert b.at < a.at + a.len ==> b.at in Pages(q);
        InsertGood(q[1..], b);
        var r := Insert(q[1..], b);
        assert ([a] + r)[1..] == r;
        assert q == [a] + q[1..];
      }
    }
  }

  lemma {:induction false} RemoveGood(q: Runs, b: Run)
    requires Stacked(q) && b in q
    ensures Stacked(Remove(q, b.at)) && Pages(Remove(q, b.at)) == Pages(q) - Span(b.at, b.len)
    ensures forall c :: c in Remove(q, b.at) <==> c != b && c in q
    ensures Remove(q, b.at) != [] ==> Remove(q, b.at)[0].at >= q[0].at
    ensures Span(b.at, b.len) <= Pages(q)
  {
    StackedAbove(q);
    var a, rest := q[0], q[1..];
    assert q == [a] + rest;
    BlockIn(q, b);
    if a.at == b.at {
      assert b != a ==> b in rest;
      assert Pages(rest) == Pages(q) - Span(b.at, b.len);
    } else {
      RemoveGood(rest, b);
      var r := Remove(rest, b.at);
      assert ([a] + r)[1..] == r;
      assert Pages([a] + r) == Pages(q) - Span(b.at, b.len);
    }
  }

  // ---------- every operation keeps the picture ----------

  lemma {:induction false} CarveGood(free: Runs, n: int, least: int)
    requires Canonical(free) && Stacked(free) && n >= HEADER && least >= n + HEADER
    ensures var (at, r) := Carve(free, n, least);
            && Canonical(r) && Stacked(r)
            && (at == None ==> r == free)
            && (at.Some? ==> Span(at.value, n) <= Pages(free) && Pages(r) == Pages(free) - Span(at.value, n) && at.value >= free[0].at)
            && (forall p <- Pages(free) :: p + 1 !in Pages(free) ==> p in Pages(r))
            && (free != [] ==> r != [] && r[0].at >= free[0].at)
  {
    if free != [] {
      var b, rest := free[0], free[1..];
      PagesAbove(free);
      if b.len >= least {
        var r := [Run(b.at + n, b.len - n)] + rest;
        assert r[1..] == rest;
        assert Pages(r) == Pages(free) - Span(b.at, n);
        assert forall p :: p in Span(b.at, n) ==> p + 1 in Span(b.at, b.len);
      } else {
        CarveGood(rest, n, least);
        var (at, r) := Carve(rest, n, least);
        assert ([b] + r)[1..] == r;
        assert at == None ==> [b] + r == free;
        if at.Some? {
          assert at.value in Span(at.value, n);
          assert Pages([b] + r) == Pages(free) - Span(at.value, n);
        }
      }
    }
  }

  lemma {:induction false} CarveFailsIff(free: Runs, n: int, least: int)
    ensures Carve(free, n, least).0 == None <==> forall b <- free :: b.len < least
  {
    if free != [] {
      CarveFailsIff(free[1..], n, least);
      assert free == [free[0]] + free[1..];
    }
  }

  lemma {:induction false} CanonicalIsStacked(runs: Runs)
    requires Canonical(runs) && forall b <- runs :: b.len >= HEADER
    ensures Stacked(runs)
  {
    if runs != [] {
      assert runs == [runs[0]] + runs[1..];
      CanonicalIsStacked(runs[1..]);
    }
  }

  lemma {:induction false} StackedLengths(q: Runs)
    requires Stacked(q)
    ensures forall b <- q :: b.len >= HEADER
  {
    if q != [] {
      StackedLengths(q[1..]);
      assert q == [q[0]] + q[1..];
    }
  }

  lemma {:induction false} FreeLengths(runs: Runs, at: int, n: int)
    requires n >= HEADER && forall b <- runs :: b.len >= HEADER
    ensures forall b <- Free(runs, at, n) :: b.len >= HEADER
  {
    if runs != [] {
      var b, rest := runs[0], runs[1..];
      assert runs == [b] + rest;
      FreeLengths(rest, at, n);
      if rest != [] { assert rest == [rest[0]] + rest[1..]; }
    }
  }

  lemma {:induction false} ReleaseGood(h: Heap, b: Run, n: int)
    requires Good(h, n) && b in h.used
    ensures Good(Release(h, b), n)
    ensures forall c :: c in Release(h, b).used <==> c != b && c in h.used
  {
    hide Canonical, Stacked, Free, Remove, Pages, Span;
    RemoveGood(h.used, b);
    StackedLengths(h.used);
    StackedLengths(h.free);
    FreeJoins(h.free, b.at, b.len);
    FreeLengths(h.free, b.at, b.len);
    CanonicalIsStacked(Free(h.free, b.at, b.len));
  }

  lemma {:induction false} CollectGood(h: Heap, todo: Runs, vars: set<int>, n: int)
    requires Good(h, n) && NoTwice(todo) && forall b <- todo :: b in h.used
    ensures Good(Collect(h, todo, vars), n)
    ensures forall b :: b in Collect(h, todo, vars).used <==> b in h.used && (b !in todo || Data(b) in vars)
    decreases |todo|
  {
    hide Good, Release;
    if todo != [] {
      var b, rest := todo[0], todo[1..];
      assert todo == [b] + rest;
      if Data(b) in vars {
        CollectGood(h, rest, vars, n);
      } else {
        ReleaseGood(h, b, n);
        CollectGood(Release(h, b), rest, vars, n);
      }
    }
  }

  ghost predicate NoTwice(q: Runs) {
    q != [] ==> q[0] !in q[1..] && NoTwice(q[1..])
  }

  lemma {:induction false} StackedNoTwice(q: Runs)
    requires Stacked(q)
    ensures NoTwice(q)
  {
    if q != [] {
      StackedAbove(q);
      StackedNoTwice(q[1..]);
    }
  }

  /** The collector frees exactly the blocks no variable points to. */
  lemma {:induction false} GcExact(h: Heap, vars: set<int>, n: int)
    requires Good(h, n)
    ensures Good(Gc(h, vars), n)
    ensures forall b :: b in Gc(h, vars).used <==> b in h.used && Data(b) in vars
  {
    hide Stacked, Canonical;
    StackedNoTwice(h.used);
    CollectGood(h, h.used, vars, n);
  }

  lemma {:induction false} TakeGood(h: Heap, size: int, least: int, n: int)
    requires Good(h, n) && size >= 0 && least >= size + 2 * HEADER
    requires Carve(h.free, size + HEADER, least).0.Some?
    ensures var (at, free) := Carve(h.free, size + HEADER, least);
            var b := Run(at.value, size + HEADER);
            && Good(Heap(free, Insert(h.used, b)), n)
            && (forall c :: c in Insert(h.used, b) <==> c == b || c in h.used)
            && Span(b.at, b.len) !! Pages(h.used)
  {
    hide Canonical, Stacked, Insert, Carve, Pages;
    CarveGood(h.free, size + HEADER, least);
    var (at, free) := Carve(h.free, size + HEADER, least);
    var b := Run(at.value, size + HEADER);
    InsertGood(h.used, b);
    assert n !in Pages(h.free) by { assert n !in Span(0, n); }
  }

  /** A new block is `size` words that belong to no other block, and no block a
      variable points to is reclaimed, moved or cut for it. */
  lemma {:induction false} AllocateSafe(h: Heap, size: int, vars: set<int>, n: int)
    requires Good(h, n) && size >= 0
    ensures var (p, r) := Allocate(h, size, vars);
            && Good(r, n)
            && (forall b <- h.used :: Data(b) in vars ==> b in r.used)
            && (forall b <- r.used :: b in h.used || (p.Some? && b == Run(p.value - HEADER, size + HEADER)))
            && (p.Some? ==> var b := Run(p.value - HEADER, size + HEADER);
                            b in r.used && forall c <- r.used :: c != b ==> Span(c.at, c.len) !! Span(b.at, b.len))
  {
    hide Good, Carve, Insert, Gc, Pages, Span;
    GcExact(h, vars, n);
    if Carve(h.free, size + HEADER, size + LEAST).0.Some? {
      TakeGood(h, size, size + LEAST, n);
      OthersApart(h.used, Run(Carve(h.free, size + HEADER, size + LEAST).0.value, size + HEADER));
    } else {
      var g := Gc(h, vars);
      if Carve(g.free, size + HEADER, size + 2 * HEADER).0.Some? {
        TakeGood(g, size, size + 2 * HEADER, n);
        OthersApart(g.used, Run(Carve(g.free, size + HEADER, size + 2 * HEADER).0.value, size + HEADER));
      }
    }
  }

  lemma {:induction false} OthersApart(q: Runs, b: Run)
    requires Span(b.at, b.len) !! Pages(q)
    ensures forall c <- q :: Span(c.at, c.len) !! Span(b.at, b.len)
  {
    forall c <- q ensures Span(c.at, c.len) !! Span(b.at, b.len) {
      BlockIn(q, c);
    }
  }

  /** Releasing a block leaves every free block as long as it was, or makes it
      part of a longer one. */
  lemma {:induction false} FreeKeepsRoom(runs: Runs, at: int, n: int, b: Run)
    requires n >= 0 && b in runs && forall r <- runs :: r.len >= 0
    ensures exists c <- Free(runs, at, n) :: c.len >= b.len
    ensures forall r <- Free(runs, at, n) :: r.len >= 0
  {
    var first, rest := runs[0], runs[1..];
    assert runs == [first] + rest;
    if rest != [] { assert rest == [rest[0]] + rest[1..]; }
    var out := Free(runs, at, n);
    assert forall i | 0 <= i < |out| :: out[i] in out;
    if first.at + first.len != at && first.at != at + n && first.at <= at + n {
      if b in rest { FreeKeepsRoom(rest, at, n, b); }
      else if rest != [] { FreeKeepsRoom(rest, at, n, rest[0]); }
    }
  }

  lemma {:induction false} CollectKeepsRoom(h: Heap, todo: Runs, vars: set<int>, b: Run)
    requires b in h.free && (forall r <- h.free :: r.len >= 0) && (forall r <- todo :: r.len >= 0)
    ensures exists c <- Collect(h, todo, vars).free :: c.len >= b.len
    decreases |todo|
  {
    hide Free, Remove;
    if todo != [] {
      var u, rest := todo[0], todo[1..];
      assert todo == [u] + rest;
      if Data(u) in vars {
        CollectKeepsRoom(h, rest, vars, b);
      } else {
        FreeKeepsRoom(h.free, u.at, u.len, b);
        var c :| c in Free(h.free, u.at, u.len) && c.len >= b.len;
        CollectKeepsRoom(Release(h, u), rest, vars, c);
      }
    }
  }

  /** Allocation gives up if and only if, after a collection, no free block has
      room for the data and two headers: the higher bar of the first search
      costs nothing. */
  lemma {:induction false} AllocateFailsIff(h: Heap, size: int, vars: set<int>)
    requires size >= 0 && (forall b <- h.free :: b.len >= 0) && (forall b <- h.used :: b.len >= 0)
    ensures Allocate(h, size, vars).0 == None <==> forall b <- Gc(h, vars).free :: b.len < size + 2 * HEADER
  {
    hide Carve, Collect;
    forall b <- h.free ensures exists c <- Gc(h, vars).free :: c.len >= b.len {
      CollectKeepsRoom(h, h.used, vars, b);
    }
    CarveFailsIff(h.free, size + HEADER, size + LEAST);
    CarveFailsIff(Gc(h, vars).free, size + HEADER, size + 2 * HEADER);
  }

  // ---------- runs ----------

  datatype Call =
    | DoAllocate(size: nat, vars: set<int>) // with the pointers the variables hold at the time
    | DoFree(b: Run)

  function Step(h: Heap, c: Call): Heap {
    match c
    case DoAllocate(size, vars) => Allocate(h, size, vars).1
    case DoFree(b) => if b in h.used then Release(h, b) else h
  }

  function RunCalls(h: Heap, cs: seq<Call>): Heap
    decreases |cs|
  {
    if cs == [] then h else RunCalls(Step(h, cs[0]), cs[1..])
  }

  /** Over every run free and allocated blocks fill the heap, free blocks do not
      touch, and the topmost block is free. */
  lemma {:induction false} RunGood(h: Heap, cs: seq<Call>, n: int)
    requires Good(h, n)
    ensures Good(RunCalls(h, cs), n)
    decreases |cs|
  {
    hide Good, Allocate, Release;
    if cs != [] {
      match cs[0] {
        case DoAllocate(size, vars) => AllocateSafe(h, size, vars, n);
        case DoFree(b) => if b in h.used { ReleaseGood(h, b, n); }
      }
      RunGood(Step(h, cs[0]), cs[1..], n);
    }
  }

  lemma {:induction false} InitialGood(n: int)
    requires n >= HEADER
    ensures Good(Heap([Run(0, n)], []), n)
  {
    assert Pages([Run(0, n)]) == Span(0, n);
  }

  /** A heap with nothing allocated is one free block again. */
  lemma {:induction false} EmptyIsOneBlock(h: Heap, cs: seq<Call>, n: int)
    requires Good(h, n) && n >= HEADER && RunCalls(h, cs).used == []
    ensures RunCalls(h, cs).free == [Run(0, n)]
  {
    RunGood(h, cs, n);
    InitialGood(n);
    assert Pages([]) == {};
    OneList(RunCalls(h, cs).free, [Run(0, n)]);
  }

  // ---------- what the calls answer ----------

  lemma BothEmpty(p: Runs, q: Runs)
    requires forall b :: b in p <==> b in q
    ensures p == [] <==> q == []
  {
    assert p != [] ==> p[0] in p;
    assert q != [] ==> q[0] in q;
  }

  lemma {:induction false} SameUsed(p: Runs, q: Runs)
    requires Stacked(p) && Stacked(q) && forall b :: b in p <==> b in q
    ensures p == q
  {
    BothEmpty(p, q);
    if p != [] && q != [] {
      StackedAbove(p);
      StackedAbove(q);
      assert p == [p[0]] + p[1..] && q == [q[0]] + q[1..];
      assert p[0] in q && q[0] in p;
      forall b ensures b in p[1..] <==> b in q[1..] {
        assert b in p <==> b in q;
      }
      SameUsed(p[1..], q[1..]);
    }
  }

  /** Two heaps of one size with the same allocated blocks are the same, so
      what follows says everything about the heap after a call. */
  lemma {:induction false} UsedDecide(g: Heap, h: Heap, n: int)
    requires Good(g, n) && Good(h, n) && forall b :: b in g.used <==> b in h.used
    ensures g == h
  {
    hide Stacked, Canonical, Pages, Span;
    SameUsed(g.used, h.used);
    assert Pages(g.free) == Span(0, n) - Pages(g.used);
    assert Pages(h.free) == Span(0, n) - Pages(h.used);
    OneList(g.free, h.free);
  }

  /** The lowest free block of at least `least`. */
  ghost predicate LowestOf(free: Runs, b: Run, least: int) {
    b in free && b.len >= least && forall c <- free :: c.len >= least ==> b.at <= c.at
  }

  lemma {:induction false} CarveLowest(free: Runs, n: int, least: int)
    requires Stacked(free)
    ensures Carve(free, n, least).0.Some? <==> exists b <- free :: b.len >= least
    ensures Carve(free, n, least).0.Some? ==> exists b :: LowestOf(free, b, least) && Carve(free, n, least).0.value == b.at
  {
    CarveFailsIff(free, n, least);
    if Carve(free, n, least).0.Some? {
      StackedAbove(free);
      assert free == [free[0]] + free[1..];
      if free[0].len >= least {
        assert LowestOf(free, free[0], least);
      } else {
        CarveLowest(free[1..], n, least);
        var b :| LowestOf(free[1..], b, least) && Carve(free[1..], n, least).0.value == b.at;
        assert LowestOf(free, b, least);
      }
    }
  }

  /** If a free block holds the data, two headers and a word, the lowest such
      gives its front, and nothing else is allocated or released. Otherwise the
      blocks no variable points to are released first, and the lowest free block
      that then holds the data and two headers gives its front, if there is one. */
  lemma {:induction false} AllocateAnswers(h: Heap, size: int, vars: set<int>, n: int)
    requires Good(h, n) && size >= 0
    ensures var (p, r) := Allocate(h, size, vars);
            && ((exists b <- h.free :: b.len >= size + 2 * HEADER + 1) ==>
                  exists b :: LowestOf(h.free, b, size + 2 * HEADER + 1) && p == Some(Data(b))
                    && forall c :: c in r.used <==> c == Run(b.at, size + HEADER) || c in h.used)
            && ((forall b <- h.free :: b.len < size + 2 * HEADER + 1) ==>
                  if p == None then forall c :: c in r.used <==> c in h.used && Data(c) in vars
                  else exists b :: LowestOf(Gc(h, vars).free, b, size + 2 * HEADER) && p == Some(Data(b))
                         && forall c :: c in r.used <==> c == Run(b.at, size + HEADER) || (c in h.used && Data(c) in vars))
  {
    hide Good, Carve, Insert, Gc, Pages, Span, LowestOf;
    GcExact(h, vars, n);
    FreeStacked(h, n);
    FreeStacked(Gc(h, vars), n);
    CarveLowest(h.free, size + HEADER, size + LEAST);
    CarveLowest(Gc(h, vars).free, size + HEADER, size + 2 * HEADER);
    if Carve(h.free, size + HEADER, size + LEAST).0.Some? {
      TakeGood(h, size, size + LEAST, n);
    } else if Carve(Gc(h, vars).free, size + HEADER, size + 2 * HEADER).0.Some? {
      TakeGood(Gc(h, vars), size, size + 2 * HEADER, n);
    }
  }

  lemma FreeStacked(h: Heap, n: int)
    requires Good(h, n)
    ensures Stacked(h.free)
  {
  }

  /** finsh_heap_free: that block is released, and no other. */
  lemma {:induction false} ReleaseAnswers(h: Heap, b: Run, n: int)
    requires Good(h, n) && b in h.used
    ensures var r := Release(h, b);
            && Good(r, n) && (forall c :: c in r.used <==> c in h.used && c != b)
            && Pages(r.free) == Pages(h.free) + Span(b.at, b.len)
  {
    hide Stacked, Canonical;
    ReleaseGood(h, b, n);
    RemoveGood(h.used, b);
    StackedLengths(h.used);
    FreeJoins(h.free, b.at, b.len);
  }

  /** A run of one call is that call. */
  lemma {:induction false} OneCall(h: Heap, size: nat, vars: set<int>, b: Run)
    ensures RunCalls(h, [DoAllocate(size, vars)]) == Allocate(h, size, vars).1
    ensures RunCalls(h, [DoFree(b)]) == if b in h.used then Release(h, b) else h
  {
    hide Allocate, Release;
    assert [DoAllocate(size, vars)][1..] == [] && [DoFree(b)][1..] == [];
  }
}
