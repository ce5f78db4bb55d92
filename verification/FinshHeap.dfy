/**
  The finsh heap in place (finsh_heap.c): one array of words in which every
  block starts with its data length and a link, two lists through these links,
  and a collector that allocation calls when it finds no room.  Each routine is
  proved to be the operation of FinshHeapPicture it stands for.
*/
module FinshHeap {
  import opened PageRuns
  import opened FinshHeapPicture

  const NIL := -1

  // ---------- lists in the heap ----------

  /** From address `h` the links lead through the blocks `q` and then to `t`. */
  ghost predicate Seg(q: Runs, h: int, t: int, mem: seq<int>) {
    if q == [] then h == t else
      && h == q[0].at && 0 <= h && h + q[0].len <= |mem| && q[0].len >= HEADER
      && mem[h] == q[0].len - HEADER
      && Seg(q[1..], mem[h + 1], t, mem)
  }

  function At(q: Runs, i: nat, t: int): int {
    if i < |q| then q[i].at else t
  }

  /** `x` is not a header word of a block of `q`. */
  ghost predicate Spares(q: Runs, x: int) {
    forall b <- q :: x != b.at && x != b.at + 1
  }

  lemma {:induction false} SegUpdate(q: Runs, h: int, t: int, mem: seq<int>, x: int, v: int)
    requires Seg(q, h, t, mem) && Spares(q, x) && 0 <= x < |mem|
    ensures Seg(q, h, t, mem[x := v])
  {
    if q != [] {
      assert q == [q[0]] + q[1..];
      SegUpdate(q[1..], mem[h + 1], t, mem, x, v);
    }
  }

  lemma {:induction false} SegSame(q: Runs, h: int, t: int, mem: seq<int>, mem1: seq<int>)
    requires Seg(q, h, t, mem) && |mem1| == |mem|
    requires forall x :: 0 <= x < |mem| && !Spares(q, x) ==> mem1[x] == mem[x]
    ensures Seg(q, h, t, mem1)
  {
    if q != [] {
      assert q[0] in q && forall b <- q[1..] :: b in q;
      assert !Spares(q, h) && !Spares(q, h + 1);
      assert forall x :: !Spares(q[1..], x) ==> !Spares(q, x);
      SegSame(q[1..], mem[h + 1], t, mem, mem1);
    }
  }

  lemma {:induction false} SegSplit(q: Runs, i: nat, h: int, t: int, mem: seq<int>)
    requires Seg(q, h, t, mem) && i <= |q|
    ensures Seg(q[..i], h, At(q, i, t), mem) && Seg(q[i..], At(q, i, t), t, mem)
  {
    if i == 0 {
      assert q[0..] == q;
    } else {
      SegSplit(q[1..], i - 1, mem[h + 1], t, mem);
      assert q[..i][1..] == q[1..][..i - 1];
      assert q[1..][i - 1..] == q[i..];
    }
  }

  lemma {:induction false} SegJoin(a: Runs, b: Runs, h: int, m: int, t: int, mem: seq<int>)
    requires Seg(a, h, m, mem) && Seg(b, m, t, mem)
    ensures Seg(a + b, h, t, mem)
  {
    if a == [] {
      assert a + b == b;
    } else {
      SegJoin(a[1..], b, mem[h + 1], m, t, mem);
      assert (a + b)[1..] == a[1..] + b;
    }
  }

  /** Setting the last link redirects the list. */
  lemma {:induction false} SegRelink(q: Runs, h: int, t: int, mem: seq<int>, to: int)
    requires q != [] && Seg(q, h, t, mem) && Stacked(q)
    ensures 0 <= q[|q| - 1].at + 1 < |mem|
    ensures Seg(q, h, to, mem[q[|q| - 1].at + 1 := to])
  {
    if |q| > 1 {
      SegRelink(q[1..], mem[h + 1], t, mem, to);
      StackedAbove(q);
      assert q[|q| - 1] in q[1..];
    }
  }

  /** The header of block `i`. */
  lemma {:induction false} SegAt(q: Runs, i: nat, h: int, t: int, mem: seq<int>)
    requires Seg(q, h, t, mem) && i < |q|
    ensures var b := q[i]; 0 <= b.at && b.len >= HEADER && b.at + b.len <= |mem| && mem[b.at] == b.len - HEADER && mem[b.at + 1] == At(q, i + 1, t)
  {
    if i > 0 { SegAt(q[1..], i - 1, mem[h + 1], t, mem); }
  }

  lemma {:induction false} StackedOrder(q: Runs, i: nat, j: nat)
    requires Stacked(q) && i < j < |q|
    ensures q[i].len >= HEADER && q[i].at + q[i].len <= q[j].at
  {
    if i == 0 {
      StackedAbove(q);
      assert q[j] in q[1..];
    } else {
      StackedOrder(q[1..], i - 1, j - 1);
    }
  }

  lemma {:induction false} StackedParts(q: Runs, i: nat)
    requires Stacked(q) && i <= |q|
    ensures Stacked(q[..i]) && Stacked(q[i..])
  {
    if i == 0 {
      assert q[0..] == q;
    } else {
      StackedParts(q[1..], i - 1);
      assert q[..i][1..] == q[1..][..i - 1];
      assert q[1..][i - 1..] == q[i..];
    }
  }

  lemma {:induction false} SparesOutside(q: Runs, x: int)
    requires Stacked(q) && x !in Pages(q)
    ensures Spares(q, x)
  {
    forall b <- q ensures x != b.at && x != b.at + 1 {
      BlockIn(q, b);
      StackedLengths(q);
    }
  }

  /** The place of a block in a list it is not yet in. */
  function Place(q: Runs, at: int): (i: nat)
    ensures i <= |q|
  {
    if q == [] || q[0].at > at then 0 else 1 + Place(q[1..], at)
  }

  lemma {:induction false} InsertIsAtPlace(q: Runs, b: Run)
    ensures var i := Place(q, b.at); Insert(q, b) == q[..i] + [b] + q[i..]
  {
    if q != [] && q[0].at <= b.at {
      var rest := q[1..];
      InsertIsAtPlace(rest, b);
      var j := Place(rest, b.at);
      Parts(q, j + 1);
      var a, c := rest[..j], rest[j..];
      assert [q[0]] + (a + [b] + c) == ([q[0]] + a) + [b] + c;
    }
  }

  lemma {:induction false} Parts(q: Runs, i: nat)
    requires 0 < i <= |q|
    ensures q[1..][i - 1..] == q[i..]
    ensures [q[0]] + q[1..][..i - 1] == q[..i]
  {
  }

  lemma {:induction false} PlaceUnique(q: Runs, at: int, i: nat)
    requires Stacked(q) && i <= |q|
    requires i > 0 ==> q[i - 1].at <= at
    requires i < |q| ==> q[i].at > at
    ensures i == Place(q, at)
  {
    if q != [] {
      if i > 1 { StackedOrder(q, 0, i - 1); }
      if i > 0 { PlaceUnique(q[1..], at, i - 1); }
    }
  }

  lemma {:induction false} RemoveIsAt(q: Runs, i: nat)
    requires Stacked(q) && i < |q|
    ensures Remove(q, q[i].at) == q[..i] + q[i + 1..]
  {
    if i > 0 {
      StackedOrder(q, 0, i);
      RemoveIsAt(q[1..], i - 1);
      Parts(q, i);
      Parts(q, i + 1);
      var a, c := q[1..][..i - 1], q[i + 1..];
      assert [q[0]] + (a + c) == ([q[0]] + a) + c;
    }
  }

  /** A block's own words: its length, and a link to somewhere. */
  ghost predicate Header(b: Run, mem: seq<int>) {
    0 <= b.at && b.len >= HEADER && b.at + b.len <= |mem| && mem[b.at] == b.len - HEADER
  }

  /** The memory once `b` is linked in at place `i`. */
  function Linked(q: Runs, i: nat, b: Run, mem: seq<int>): seq<int>
    requires i <= |q| && 0 <= b.at && b.at + 1 < |mem| && (i > 0 ==> 0 <= q[i - 1].at && q[i - 1].at + 1 < |mem|)
  {
    var m := mem[b.at + 1 := At(q, i, NIL)];
    if i > 0 then m[q[i - 1].at + 1 := b.at] else m
  }

  lemma {:induction false} LinkMid(q: Runs, i: nat, b: Run, h: int, mem: seq<int>)
    requires Seg(q, h, NIL, mem) && Stacked(q) && i <= |q| && Header(b, mem) && Span(b.at, b.len) !! Pages(q)
    ensures var m := mem[b.at + 1 := At(q, i, NIL)]; Seg(q, h, NIL, m) && Seg([b] + q[i..], b.at, NIL, m)
  {
    hide Pages, Stacked;
    var m := mem[b.at + 1 := At(q, i, NIL)];
    assert b.at in Span(b.at, b.len) && b.at + 1 in Span(b.at, b.len);
    SparesOutside(q, b.at + 1);
    SegUpdate(q, h, NIL, mem, b.at + 1, At(q, i, NIL));
    SegSplit(q, i, h, NIL, m);
    assert Seg([], m[b.at + 1], At(q, i, NIL), m);
    assert Seg([b], b.at, At(q, i, NIL), m);
    SegJoin([b], q[i..], b.at, At(q, i, NIL), NIL, m);
  }

  lemma {:induction false} LinkIn(q: Runs, i: nat, b: Run, h: int, mem: seq<int>)
    requires Seg(q, h, NIL, mem) && Stacked(q) && i <= |q| && Header(b, mem) && Span(b.at, b.len) !! Pages(q)
    requires i > 0 ==> 0 <= q[i - 1].at && q[i - 1].at + 1 < |mem|
    ensures Seg(q[..i] + [b] + q[i..], if i > 0 then h else b.at, NIL, Linked(q, i, b, mem))
  {
    hide Pages, Stacked, Seg;
    var m := mem[b.at + 1 := At(q, i, NIL)];
    LinkMid(q, i, b, h, mem);
    SegSplit(q, i, h, NIL, m);
    var front := q[..i];
    assert front + ([b] + q[i..]) == front + [b] + q[i..];
    if i > 0 {
      var last := q[i - 1];
      StackedParts(q, i);
      SegRelink(front, h, At(q, i, NIL), m, b.at);
      BlockIn(q, last);
      StackedLengths(q);
      assert last.at in Span(last.at, last.len) && last.at + 1 in Span(last.at, last.len);
      assert b.at in Span(b.at, b.len) && b.at + 1 in Span(b.at, b.len);
      if i < |q| { StackedOrder(q, i - 1, i); }
      TailSpares(q, i, last.at + 1);
      assert Spares([b] + q[i..], last.at + 1);
      SegUpdate([b] + q[i..], b.at, NIL, m, last.at + 1, b.at);
      SegJoin(front, [b] + q[i..], h, b.at, NIL, Linked(q, i, b, mem));
    } else {
      assert front + [b] + q[i..] == [b] + q[i..];
    }
  }

  lemma {:induction false} TailSpares(q: Runs, j: nat, x: int)
    requires Stacked(q) && j <= |q| && (j < |q| ==> x < q[j].at)
    ensures Spares(q[j..], x)
  {
    forall b <- q[j..] ensures x != b.at && x != b.at + 1 {
      var k :| 0 <= k < |q[j..]| && q[j..][k] == b;
      if k > 0 { StackedOrder(q, j, j + k); StackedLengths(q); assert q[j] in q; }
    }
  }

  /** The memory once block `i` is linked out. */
  function Unlinked(q: Runs, i: nat, mem: seq<int>): seq<int>
    requires i < |q| && 0 <= q[i].at && q[i].at + 1 < |mem| && (i > 0 ==> 0 <= q[i - 1].at && q[i - 1].at + 1 < |mem|)
  {
    if i > 0 then mem[q[i - 1].at + 1 := At(q, i + 1, NIL)] else mem[q[0].at + 1 := NIL]
  }

  lemma {:induction false} LinkOut(q: Runs, i: nat, h: int, mem: seq<int>)
    requires Seg(q, h, NIL, mem) && Stacked(q) && i < |q|
    requires 0 <= q[i].at && q[i].at + 1 < |mem| && (i > 0 ==> 0 <= q[i - 1].at && q[i - 1].at + 1 < |mem|)
    ensures Seg(q[..i] + q[i + 1..], if i > 0 then h else At(q, 1, NIL), NIL, Unlinked(q, i, mem))
  {
    hide Stacked;
    var front, back := q[..i], q[i + 1..];
    SegSplit(q, i + 1, h, NIL, mem);
    SegSplit(q, i, h, NIL, mem);
    StackedLengths(q);
    assert q[i] in q;
    if i + 1 < |q| { StackedOrder(q, i, i + 1); }
    if i > 0 {
      StackedOrder(q, i - 1, i);
      assert q[i - 1] in q;
      TailSpares(q, i + 1, q[i - 1].at + 1);
      SegUpdate(back, At(q, i + 1, NIL), NIL, mem, q[i - 1].at + 1, At(q, i + 1, NIL));
      StackedParts(q, i);
      SegRelink(front, h, q[i].at, mem, At(q, i + 1, NIL));
      SegJoin(front, back, h, At(q, i + 1, NIL), NIL, Unlinked(q, i, mem));
    } else {
      TailSpares(q, 1, q[0].at + 1);
      SegUpdate(back, At(q, 1, NIL), NIL, mem, q[0].at + 1, NIL);
      assert front + back == back;
    }
  }

  /** Block `i` takes in the `d - 1` blocks behind it. */
  lemma {:induction false} Fuse(q: Runs, i: nat, d: nat, m: Run, h: int, mem: seq<int>)
    requires Seg(q, h, NIL, mem) && Stacked(q) && d > 0 && i + d <= |q|
    requires m.at == q[i].at && m.len >= HEADER && 0 <= m.at && m.at + m.len <= |mem|
    requires i + d < |q| ==> m.at + m.len <= q[i + d].at
    ensures Seg(q[..i] + [m] + q[i + d..], h, NIL, mem[m.at := m.len - HEADER][m.at + 1 := At(q, i + d, NIL)])
  {
    hide Stacked, Seg, Spares;
    var front, back := q[..i], q[i + d..];
    var mem2 := mem[m.at := m.len - HEADER][m.at + 1 := At(q, i + d, NIL)];
    FuseAround(q, i, d, m, h, mem);
    FuseOne(m, At(q, i + d, NIL), mem2);
    SegJoin([m], back, m.at, At(q, i + d, NIL), NIL, mem2);
    SegJoin(front, [m] + back, h, m.at, NIL, mem2);
    assert front + ([m] + back) == front + [m] + back;
  }

  /** The blocks in front and behind keep their links. */
  lemma {:induction false} FuseAround(q: Runs, i: nat, d: nat, m: Run, h: int, mem: seq<int>)
    requires Seg(q, h, NIL, mem) && Stacked(q) && d > 0 && i + d <= |q|
    requires m.at == q[i].at && m.len >= HEADER && 0 <= m.at && m.at + m.len <= |mem|
    requires i + d < |q| ==> m.at + m.len <= q[i + d].at
    ensures var mem2 := mem[m.at := m.len - HEADER][m.at + 1 := At(q, i + d, NIL)];
            Seg(q[..i], h, m.at, mem2) && Seg(q[i + d..], At(q, i + d, NIL), NIL, mem2)
  {
    hide Stacked, Seg;
    var front, back := q[..i], q[i + d..];
    var mem2 := mem[m.at := m.len - HEADER][m.at + 1 := At(q, i + d, NIL)];
    SegSplit(q, i, h, NIL, mem);
    SegSplit(q, i + d, h, NIL, mem);
    FrontSpares(q, i, m.at);
    FrontSpares(q, i, m.at + 1);
    TailSpares(q, i + d, m.at);
    TailSpares(q, i + d, m.at + 1);
    SegSame(front, h, q[i].at, mem, mem2);
    SegSame(back, At(q, i + d, NIL), NIL, mem, mem2);
  }

  lemma {:induction false} FuseOne(m: Run, t: int, mem2: seq<int>)
    requires m.len >= HEADER && 0 <= m.at && m.at + 1 < |mem2| && m.at + m.len <= |mem2|
    requires mem2[m.at] == m.len - HEADER && mem2[m.at + 1] == t
    ensures Seg([m], m.at, t, mem2)
  {
    assert Seg([], mem2[m.at + 1], t, mem2) && [m][1..] == [];
  }

  lemma {:induction false} FrontSpares(q: Runs, i: nat, x: int)
    requires Stacked(q) && i < |q| && x >= q[i].at
    ensures Spares(q[..i], x)
  {
    forall b <- q[..i] ensures x != b.at && x != b.at + 1 {
      var k :| 0 <= k < i && q[k] == b;
      StackedOrder(q, k, i);
    }
  }

  /** Block `i` cut in two. */
  lemma {:induction false} Cut(q: Runs, i: nat, size: nat, h: int, mem: seq<int>)
    requires Seg(q, h, NIL, mem) && Stacked(q) && i < |q| && q[i].len >= size + 2 * HEADER
    ensures var b := q[i];
            var n := b.at + HEADER + size;
            && 0 <= b.at && n + 1 < |mem|
            && Seg(q[..i] + [Run(b.at, size + HEADER), Run(n, b.len - size - HEADER)] + q[i + 1..], h, NIL,
                   mem[n := b.len - 2 * HEADER - size][b.at := size][n + 1 := At(q, i + 1, NIL)][b.at + 1 := n])
  {
    hide Stacked, Seg;
    var b := q[i];
    var n, t := b.at + HEADER + size, At(q, i + 1, NIL);
    SegAt(q, i, h, NIL, mem);
    var front, back := q[..i], q[i + 1..];
    var m1 := mem[n := b.len - 2 * HEADER - size];
    var m2 := m1[b.at := size];
    var m3 := m2[n + 1 := t];
    var m4 := m3[b.at + 1 := n];
    SegSplit(q, i, h, NIL, mem);
    SegSplit(q, i + 1, h, NIL, mem);
    if i + 1 < |q| { StackedOrder(q, i, i + 1); }
    forall x | b.at <= x <= n + 1 ensures Spares(front, x) && Spares(back, x) {
      FrontSpares(q, i, x);
      TailSpares(q, i + 1, x);
    }
    SegSame(front, h, b.at, mem, m4);
    SegSame(back, t, NIL, mem, m4);
    CutPair(Run(b.at, size + HEADER), Run(n, b.len - size - HEADER), t, m4);
    var pair := [Run(b.at, size + HEADER), Run(n, b.len - size - HEADER)];
    SegJoin(pair, back, b.at, t, NIL, m4);
    SegJoin(front, pair + back, h, b.at, NIL, m4);
    assert front + (pair + back) == front + pair + back;
  }

  lemma {:induction false} CutPair(a: Run, c: Run, t: int, mem: seq<int>)
    requires Header(a, mem) && Header(c, mem) && mem[a.at + 1] == c.at && mem[c.at + 1] == t
    ensures Seg([a, c], a.at, t, mem)
  {
    assert [a, c][1..] == [c];
    assert [c][1..] == [];
  }

  predicate Before(free: Runs, i: nat, b: Run)
    requires i <= |free|
  {
    i > 0 && free[i - 1].at + free[i - 1].len == b.at
  }

  predicate Behind(free: Runs, i: nat, b: Run)
    requires i <= |free|
  {
    i < |free| && b.at + b.len == free[i].at
  }

  /** A block put at place `i` of the free list and merged with what it
      touches. */
  function Merged(free: Runs, i: nat, b: Run): Runs
    requires i <= |free|
  {
    if Before(free, i, b) && Behind(free, i, b) then
      free[..i - 1] + [Run(free[i - 1].at, free[i - 1].len + b.len + free[i].len)] + free[i + 1..]
    else if Before(free, i, b) then free[..i - 1] + [Run(free[i - 1].at, free[i - 1].len + b.len)] + free[i..]
    else if Behind(free, i, b) then free[..i] + [Run(b.at, b.len + free[i].len)] + free[i + 1..]
    else free[..i] + [b] + free[i..]
  }

  lemma {:induction false} MergedRest(free: Runs, i: nat, b: Run)
    requires 0 < i <= |free| && (i == 1 ==> !Before(free, i, b))
    ensures Merged(free, i, b) == [free[0]] + Merged(free[1..], i - 1, b)
  {
    var rest, f := free[1..], [free[0]];
    Parts(free, i);
    assert Before(free, i, b) == Before(rest, i - 1, b) && Behind(free, i, b) == Behind(rest, i - 1, b);
    if Before(free, i, b) {
      Parts(free, i - 1);
      if Behind(free, i, b) {
        Assoc(f, rest[..i - 2], [Run(free[i - 1].at, free[i - 1].len + b.len + free[i].len)], free[i + 1..]);
      } else {
        Assoc(f, rest[..i - 2], [Run(free[i - 1].at, free[i - 1].len + b.len)], free[i..]);
      }
    } else if Behind(free, i, b) {
      Assoc(f, rest[..i - 1], [Run(b.at, b.len + free[i].len)], free[i + 1..]);
    } else {
      Assoc(f, rest[..i - 1], [b], free[i..]);
    }
  }

  lemma {:induction false} Assoc(f: Runs, a: Runs, m: Runs, c: Runs)
    ensures f + (a + m + c) == (f + a) + m + c
  {
  }

  /** Releasing a block is putting it in its place and merging. */
  lemma {:induction false} FreeIsMerged(free: Runs, b: Run)
    requires Canonical(free) && b.len > 0 && Span(b.at, b.len) !! Pages(free)
    ensures Free(free, b.at, b.len) == Merged(free, Place(free, b.at), b)
  {
    if free != [] {
      var f, rest := free[0], free[1..];
      var i := Place(free, b.at);
      assert b.at in Span(b.at, b.len) && f.at in Pages(free);
      assert b.at <= f.at < b.at + b.len ==> f.at in Span(b.at, b.len);
      assert f.at <= b.at < f.at + f.len ==> b.at in Pages(free);
      if i == 0 {
        assert free[..0] == [];
        assert [b] + free == [] + [b] + free[0..];
      } else {
        FreeIsMerged(rest, b);
        if f.at + f.len == b.at {
          assert i == 1 && free[..0] == [] && free[1..] == rest;
          if rest != [] { assert free[2..] == rest[1..]; }
        } else {
          MergedRest(free, i, b);
        }
      }
    }
  }

  // ---------- one list does not see what happens in the other ----------

  lemma {:induction false} Elsewhere(a: Runs, b: Runs)
    requires Stacked(a) && Stacked(b) && Pages(a) !! Pages(b)
    ensures forall x :: !Spares(a, x) ==> Spares(b, x) && x in Pages(a)
  {
    forall x | !Spares(a, x) ensures Spares(b, x) && x in Pages(a) {
      var c :| c in a && (x == c.at || x == c.at + 1);
      BlockIn(a, c);
      StackedLengths(a);
      assert x in Span(c.at, c.len);
      SparesOutside(b, x);
    }
  }

  /** `x` is a data word of a block. */
  predicate InData(b: Run, x: int) {
    Data(b) <= x < b.at + b.len
  }

  lemma {:induction false} DataSpared(q: Runs, b: Run, x: int)
    requires Stacked(q) && b in q && InData(b, x)
    ensures Spares(q, x) && x in Pages(q)
  {
    BlockIn(q, b);
    assert x in Span(b.at, b.len);
    StackedLengths(q);
    var i :| 0 <= i < |q| && q[i] == b;
    forall c <- q ensures x != c.at && x != c.at + 1 {
      var k :| 0 <= k < |q| && q[k] == c;
      if k < i { StackedOrder(q, k, i); }
      if i < k { StackedOrder(q, i, k); }
    }
  }

  /** The topmost block is free, so a block never goes behind the last free one. */
  lemma {:induction false} NeverLast(h: Heap, b: Run, n: int)
    requires FinshHeapPicture.Good(h, n) && b in h.used
    ensures Place(h.free, b.at) < |h.free|
  {
    StackedLengths(h.used);
    BlockIn(h.used, b);
    assert b.at in Span(b.at, b.len);
    assert b.at < n;
    TopAbove(h.free, b.at, n);
  }

  lemma {:induction false} TopAbove(free: Runs, x: int, n: int)
    requires Canonical(free) && n - 1 in Pages(free) && x !in Pages(free) && x < n
    requires forall p <- Pages(free) :: p < n
    ensures Place(free, x) < |free|
  {
    if free[0].at <= x {
      assert x !in Span(free[0].at, free[0].len);
      assert n - 1 !in Span(free[0].at, free[0].len);
      TopAbove(free[1..], x, n);
    }
  }

  // ---------- the search for room ----------

  function FirstFit(free: Runs, least: int): (k: nat)
    ensures k <= |free|
  {
    if free == [] || free[0].len >= least then 0 else 1 + FirstFit(free[1..], least)
  }

  lemma {:induction false} FirstFitIs(free: Runs, least: int, k: nat)
    requires k <= |free| && forall j :: 0 <= j < k ==> free[j].len < least
    requires k < |free| ==> free[k].len >= least
    ensures FirstFit(free, least) == k
  {
    if k > 0 {
      assert forall j :: 0 <= j < k - 1 ==> free[1..][j] == free[j + 1];
      FirstFitIs(free[1..], least, k - 1);
    }
  }

  lemma {:induction false} CarveIs(free: Runs, n: int, least: int)
    ensures var k := FirstFit(free, least);
            && (k < |free| ==> free[k].len >= least)
            && Carve(free, n, least) ==
               if k == |free| then (None, free)
               else (Some(free[k].at), free[..k] + [Run(free[k].at + n, free[k].len - n)] + free[k + 1..])
  {
    if free != [] && free[0].len < least {
      CarveIs(free[1..], n, least);
      var k := FirstFit(free, least);
      assert free == [free[0]] + free[1..];
      if k < |free| {
        Parts(free, k);
        Parts(free, k + 1);
        Assoc([free[0]], free[1..][..k - 1], [Run(free[k].at + n, free[k].len - n)], free[k + 1..]);
      }
    } else if free != [] {
      assert free[..0] == [];
      var m := [Run(free[0].at + n, free[0].len - n)];
      assert [] + m + free[1..] == m + free[1..];
    }
  }

  // ---------- the heap ----------

  /** A slot of the variable table: a pointer, if the slot has a type. */
  datatype Var = Var(typed: bool, ptr: int)

  function Pointers(vars: seq<Var>): set<int> {
    set v | v in vars && v.typed :: v.ptr
  }

  class Store {
    const mem: array<int>
    var freeList: int
    var allocateList: int
    ghost var h: Heap

    ghost predicate Valid()
      reads this, mem
    {
      && Seg(h.free, freeList, NIL, mem[..])
      && Seg(h.used, allocateList, NIL, mem[..])
      && FinshHeapPicture.Good(h, mem.Length)
    }

    /** finsh_heap_init. */
    constructor (words: nat)
      requires words >= HEADER
      ensures Valid() && fresh(mem) && mem.Length == words && h == Heap([Run(0, words)], [])
    {
      mem := new int[words];
      freeList, allocateList, h := 0, NIL, Heap([Run(0, words)], []);
      new;
      mem[0], mem[1] := words - HEADER, NIL;
      InitialGood(words);
    }

    /** finsh_block_insert.  A block that becomes the last one keeps whatever
        link it had, so it must already end the list. */
    method BlockInsert(list: int, header: int, ghost q: Runs, ghost b: Run) returns (head: int)
      requires Seg(q, list, NIL, mem[..]) && Stacked(q) && header == b.at && Header(b, mem[..])
      requires Span(b.at, b.len) !! Pages(q)
      requires Place(q, header) == |q| ==> mem[header + 1] == NIL
      modifies mem
      ensures Seg(Insert(q, b), head, NIL, mem[..])
      ensures forall x :: 0 <= x < mem.Length && Spares(q, x) && x != header + 1 ==> mem[x] == old(mem[x])
    {
      hide Stacked, Seg, Pages, Span, Place, Insert;
      ghost var mem0 := mem[..];
      InsertIsAtPlace(q, b);
      Ends(q, list, mem0);
      if list == NIL {
        PlaceUnique(q, header, 0);
        LinkIn(q, 0, b, list, mem0);
        assert Linked(q, 0, b, mem0) == mem0;
        return header;
      }
      FirstAt(q, list, mem0);
      var node := list;
      if node > header {
        PlaceUnique(q, header, 0);
        LinkIn(q, 0, b, list, mem0);
        mem[header + 1] := node;
        assert mem[..] == Linked(q, 0, b, mem0);
        return header;
      }
      ghost var i := 0;
      while true
        invariant i < |q| && node == q[i].at && node <= header && mem[..] == mem0
        decreases |q| - i
      {
        SegAt(q, i, list, NIL, mem0);
        if i + 1 < |q| { SegAt(q, i + 1, list, NIL, mem0); }
        if mem[node + 1] > header || mem[node + 1] == NIL {
          break;
        }
        node := mem[node + 1];
        i := i + 1;
      }
      SegAt(q, i, list, NIL, mem0);
      PlaceUnique(q, header, i + 1);
      LinkIn(q, i + 1, b, list, mem0);
      assert q[i] in q;
      if mem[node + 1] != NIL {
        mem[header + 1] := mem[node + 1];
      }
      mem[node + 1] := header;
      assert mem[..] == Linked(q, i + 1, b, mem0);
      head := list;
    }

    lemma {:induction false} Ends(q: Runs, h: int, m: seq<int>)
      requires Seg(q, h, NIL, m)
      ensures h == NIL <==> q == []
    {
    }

    /** finsh_block_remove. */
    method BlockRemove(list: int, header: int, ghost q: Runs, ghost i: nat) returns (head: int)
      requires Seg(q, list, NIL, mem[..]) && Stacked(q) && i < |q| && header == q[i].at
      modifies mem
      ensures Seg(q[..i] + q[i + 1..], head, NIL, mem[..])
      ensures 0 <= header && header + 1 < mem.Length && (i == 0 ==> mem[header + 1] == NIL)
      ensures forall x :: 0 <= x < mem.Length && Spares(q, x) ==> mem[x] == old(mem[x])
      ensures forall x :: 0 <= x < mem.Length && (i == 0 ==> x != header + 1) && (i > 0 ==> x != q[i - 1].at + 1) ==> mem[x] == old(mem[x])
    {
      hide Stacked, Seg;
      ghost var mem0 := mem[..];
      SegAt(q, i, list, NIL, mem0);
      SegAt(q, 0, list, NIL, mem0);
      FirstAt(q, list, mem0);
      assert q[i] in q;
      if i > 0 { StackedOrder(q, 0, i); SegAt(q, i - 1, list, NIL, mem0); assert q[i - 1] in q; }
      LinkOut(q, i, list, mem0);
      if list == header {
        head := mem[header + 1];
        mem[header + 1] := NIL;
        assert mem[..] == Unlinked(q, i, mem0);
        return;
      }
      head := list;
      var node := list;
      ghost var k := 0;
      while node != NIL
        invariant k < i && node == q[k].at && 0 <= node && mem[..] == mem0
        decreases i - k
      {
        SegAt(q, k, list, NIL, mem0);
        SegAt(q, k + 1, list, NIL, mem0);
        if k + 1 < i { StackedOrder(q, k + 1, i); }
        if mem[node + 1] == header {
          mem[node + 1] := mem[header + 1];
          assert mem[..] == Unlinked(q, i, mem0);
          return;
        }
        node := mem[node + 1];
        k := k + 1;
      }
    }

    lemma {:induction false} FirstAt(q: Runs, h: int, m: seq<int>)
      requires Seg(q, h, NIL, m) && q != []
      ensures h == q[0].at
    {
    }

    /** finsh_block_merge. */
    method BlockMerge(list: int, header: int, ghost free: Runs, ghost i: nat, ghost b: Run)
      requires i <= |free| && header == b.at
      requires Seg(Among(free, i, b), list, NIL, mem[..]) && Stacked(Among(free, i, b))
      modifies mem
      ensures Seg(Merged(free, i, b), list, NIL, mem[..])
      ensures forall x :: 0 <= x < mem.Length && Spares(Among(free, i, b), x) ==> mem[x] == old(mem[x])
    {
      hide Stacked, Seg, Merged, Among;
      ghost var mem0 := mem[..];
      Neighbours(free, i, b, list, mem0);
      var next := mem[header + 1];
      var prev := FindPrev(list, header, Among(free, i, b), i);
      if prev != NIL && prev + mem[prev] + HEADER == header {
        if next != NIL && header + mem[header] + HEADER == next {
          MergeThree(free, i, b, list, mem0);
          mem[prev] := mem[prev] + mem[header] + mem[next] + 2 * HEADER;
          mem[prev + 1] := mem[next + 1];
        } else {
          MergeFront(free, i, b, list, mem0);
          mem[prev] := mem[prev] + mem[header] + HEADER;
          mem[prev + 1] := mem[header + 1];
        }
      } else if next != NIL && header + mem[header] + HEADER == next {
        MergeBack(free, i, b, list, mem0);
        mem[header] := mem[header] + mem[next] + HEADER;
        mem[header + 1] := mem[next + 1];
      } else {
        NoMerge(free, i, b);
      }
    }

    ghost function Among(free: Runs, i: nat, b: Run): Runs
      requires i <= |free|
    {
      free[..i] + [b] + free[i..]
    }

    lemma NoMerge(free: Runs, i: nat, b: Run)
      requires i <= |free| && !Before(free, i, b) && !Behind(free, i, b)
      ensures Merged(free, i, b) == Among(free, i, b)
    {
    }

    /** The words merging reads: those of the block and of its neighbours. */
    lemma {:induction false} Neighbours(free: Runs, i: nat, b: Run, h: int, m: seq<int>)
      requires i <= |free|
      requires Seg(Among(free, i, b), h, NIL, m) && Stacked(Among(free, i, b))
      ensures i < |Among(free, i, b)| && Among(free, i, b)[i] == b
      ensures i > 0 ==> Among(free, i, b)[i - 1] == free[i - 1]
      ensures 0 <= b.at && b.at + 1 < |m| && m[b.at] == b.len - HEADER && m[b.at + 1] == At(free, i, NIL)
      ensures i > 0 ==> var p := free[i - 1]; 0 <= p.at && p.at + 1 < b.at && m[p.at] == p.len - HEADER
      ensures i < |free| ==> var c := free[i]; b.at + 1 < c.at && c.at + 1 < |m| && m[c.at] == c.len - HEADER && m[c.at + 1] == At(free, i + 1, NIL)
      ensures forall x :: Spares(Among(free, i, b), x) ==> x != b.at && x != b.at + 1 && (i > 0 ==> x != free[i - 1].at && x != free[i - 1].at + 1)
    {
      hide Stacked, Seg;
      var q := Among(free, i, b);
      Around(free, i, b);
      SegAt(q, i, h, NIL, m);
      assert b in q;
      if i > 0 { StackedOrder(q, i - 1, i); SegAt(q, i - 1, h, NIL, m); assert q[i - 1] in q; }
      if i < |free| { StackedOrder(q, i, i + 1); SegAt(q, i + 1, h, NIL, m); }
      if i + 1 < |free| { assert q[i + 2] == free[i + 1]; }
    }

    lemma {:induction false} MergeThree(free: Runs, i: nat, b: Run, h: int, m: seq<int>)
      requires i <= |free| && Before(free, i, b) && Behind(free, i, b)
      requires Seg(Among(free, i, b), h, NIL, m) && Stacked(Among(free, i, b))
      requires 0 <= free[i - 1].at && free[i - 1].at + 1 < |m|
      ensures var p, c := free[i - 1], free[i];
              Seg(Merged(free, i, b), h, NIL, m[p.at := p.len + b.len + c.len - HEADER][p.at + 1 := At(free, i + 1, NIL)])
    {
      hide Stacked, Seg;
      var q := Among(free, i, b);
      Around(free, i, b);
      SegAt(q, i + 1, h, NIL, m);
      SegAt(q, i, h, NIL, m);
      SegAt(q, i - 1, h, NIL, m);
      if i + 1 < |free| { StackedOrder(q, i + 1, i + 2); assert q[i + 2] == free[i + 1]; }
      Fuse(q, i - 1, 3, Run(free[i - 1].at, free[i - 1].len + b.len + free[i].len), h, m);
      MergedIs(free, i, b);
    }

    lemma {:induction false} MergeFront(free: Runs, i: nat, b: Run, h: int, m: seq<int>)
      requires i <= |free| && Before(free, i, b) && !Behind(free, i, b)
      requires Seg(Among(free, i, b), h, NIL, m) && Stacked(Among(free, i, b))
      requires 0 <= free[i - 1].at && free[i - 1].at + 1 < |m|
      ensures var p := free[i - 1];
              Seg(Merged(free, i, b), h, NIL, m[p.at := p.len + b.len - HEADER][p.at + 1 := At(free, i, NIL)])
    {
      hide Stacked, Seg;
      var q := Among(free, i, b);
      Around(free, i, b);
      SegAt(q, i, h, NIL, m);
      SegAt(q, i - 1, h, NIL, m);
      if i < |free| { StackedOrder(q, i, i + 1); }
      Fuse(q, i - 1, 2, Run(free[i - 1].at, free[i - 1].len + b.len), h, m);
      MergedIs(free, i, b);
    }

    lemma {:induction false} MergeBack(free: Runs, i: nat, b: Run, h: int, m: seq<int>)
      requires i <= |free| && !Before(free, i, b) && Behind(free, i, b)
      requires Seg(Among(free, i, b), h, NIL, m) && Stacked(Among(free, i, b))
      requires 0 <= b.at && b.at + 1 < |m|
      ensures Seg(Merged(free, i, b), h, NIL, m[b.at := b.len + free[i].len - HEADER][b.at + 1 := At(free, i + 1, NIL)])
    {
      hide Stacked, Seg;
      var q := Among(free, i, b);
      Around(free, i, b);
      SegAt(q, i, h, NIL, m);
      SegAt(q, i + 1, h, NIL, m);
      if i + 1 < |free| { StackedOrder(q, i + 1, i + 2); assert q[i + 2] == free[i + 1]; }
      Fuse(q, i, 2, Run(b.at, b.len + free[i].len), h, m);
      MergedIs(free, i, b);
    }

    /** finsh_heap_free of an allocated block's data pointer. */
    method HeapFree(ptr: int, ghost b: Run)
      requires Valid() && b in h.used && ptr == Data(b)
      modifies this, mem
      ensures Valid() && h == Release(old(h), b)
      ensures forall c, x :: c in h.used && InData(c, x) && 0 <= x < mem.Length ==> mem[x] == old(mem[x])
    {
      hide FinshHeapPicture.Good, Seg, Stacked, Pages, Span, Free, Remove, Insert, Place, Merged, Spares, Canonical;
      var header := ptr - HEADER;
      ghost var was, mem0 := h, mem[..];
      ghost var k :| 0 <= k < |was.used| && was.used[k] == b;
      Apart(was, b);
      SegAt(was.used, k, allocateList, NIL, mem0);
      if k > 0 { StackedOrder(was.used, k - 1, k); SegAt(was.used, k - 1, allocateList, NIL, mem0); }
      RemoveIsAt(was.used, k);
      allocateList := BlockRemove(allocateList, header, was.used, k);
      ghost var mem1 := mem[..];
      SegSame(was.free, freeList, NIL, mem0, mem1);
      ghost var i := Place(was.free, header);
      ghost var q := Insert(was.free, b);
      InsertIsAtPlace(was.free, b);
      freeList := BlockInsert(freeList, header, was.free, b);
      ghost var mem2 := mem[..];
      FinshHeapPicture.InsertGood(was.free, b);
      BlockMerge(freeList, header, was.free, i, b);
      FreeIsMerged(was.free, b);
      h := Release(was, b);
      ReleaseGood(was, b, mem.Length);
      Untouched(was, b);
      SegSame(h.used, allocateList, NIL, mem1, mem[..]);
    }

    /** finsh_heap_gc: every block no typed variable points to is released. */
    method HeapGc(vars: seq<Var>)
      requires Valid()
      modifies this, mem
      ensures Valid() && h == Gc(old(h), Pointers(vars))
      ensures forall c, x :: c in h.used && InData(c, x) && 0 <= x < mem.Length ==> mem[x] == old(mem[x])
    {
      hide FinshHeapPicture.Good, Seg, Stacked, Release, Pointers;
      ghost var todo, done := h.used, [];
      var header := allocateList;
      Heads();
      while header != NIL
        invariant Valid() && h.used == done + todo && header == At(todo, 0, NIL)
        invariant Collect(h, todo, Pointers(vars)) == Gc(old(h), Pointers(vars))
        invariant forall c <- h.used :: c in old(h.used)
        invariant forall c, x :: c in h.used && InData(c, x) && 0 <= x < mem.Length ==> mem[x] == old(mem[x])
        decreases |todo|
      {
        Heads();
        ghost var b := todo[0];
        assert h.used[|done|] == b && At(h.used, |done| + 1, NIL) == At(todo, 1, NIL);
        SegAt(h.used, |done|, allocateList, NIL, mem[..]);
        var i := 0;
        while i < |vars|
          invariant i <= |vars| && forall k :: 0 <= k < i ==> !(vars[k].typed && vars[k].ptr == header + HEADER)
        {
          if vars[i].typed && vars[i].ptr == header + HEADER {
            break;
          }
          i := i + 1;
        }
        PointersHave(vars, header + HEADER, i);
        var temp := header;
        header := mem[header + 1];
        if i == |vars| {
          RemoveNext(h, done, todo);
          HeapFree(temp + HEADER, b);
        } else {
          done := done + [b];
        }
        todo := todo[1..];
      }
      Heads();
      assert Collect(h, [], Pointers(vars)) == h;
    }

    lemma Heads()
      requires Valid()
      ensures forall b <- h.used :: b.at >= 0
      ensures allocateList == At(h.used, 0, NIL) && freeList == At(h.free, 0, NIL)
    {
      forall b <- h.used ensures b.at >= 0 {
        var k :| 0 <= k < |h.used| && h.used[k] == b;
        SegAt(h.used, k, allocateList, NIL, mem[..]);
      }
    }

    lemma {:induction false} PointersHave(vars: seq<Var>, p: int, i: nat)
      requires i <= |vars| && forall k :: 0 <= k < i ==> !(vars[k].typed && vars[k].ptr == p)
      requires i < |vars| ==> vars[i].typed && vars[i].ptr == p
      ensures p in Pointers(vars) <==> i < |vars|
    {
      if i < |vars| { assert vars[i] in vars; }
    }

    lemma {:induction false} RemoveNext(p: Heap, done: Runs, todo: Runs)
      requires FinshHeapPicture.Good(p, mem.Length) && p.used == done + todo && todo != []
      ensures Release(p, todo[0]).used == done + todo[1..]
      ensures todo[0] in p.used
      ensures forall c <- Release(p, todo[0]).used :: c in p.used
    {
      RemoveIsAt(p.used, |done|);
      assert p.used[|done|] == todo[0];
      assert p.used[..|done|] == done && p.used[|done| + 1..] == todo[1..];
    }

    /** finsh_heap_allocate of `size` words, zeroed, or NIL. */
    method HeapAllocate(size: nat, vars: seq<Var>) returns (ptr: int)
      requires Valid()
      modifies this, mem
      ensures Valid()
      ensures (if ptr == NIL then None else Some(ptr), h) == Allocate(old(h), size, Pointers(vars))
      ensures forall c, x :: c in old(h.used) && c in h.used && Data(c) != ptr && InData(c, x) && 0 <= x < mem.Length ==> mem[x] == old(mem[x])
      ensures ptr != NIL ==> 0 <= ptr && ptr + size <= mem.Length && forall x :: ptr <= x < ptr + size ==> mem[x] == 0
    {
      hide FinshHeapPicture.Good, Seg, Stacked, Pointers, Carve, Gc, Insert, InData;
      var header := FindFit(size + HEADER + 1);
      CarveIs(h.free, size + HEADER, size + LEAST);
      if header == NIL {
        HeapGc(vars);
        header := FindFit(size + HEADER);
        CarveIs(h.free, size + HEADER, size + 2 * HEADER);
        if header == NIL {
          return NIL;
        }
        Take(header, size, size + 2 * HEADER);
      } else {
        Take(header, size, size + LEAST);
      }
      ptr := header + HEADER;
    }

    /** The first free block with at least `least` data words, or NIL. */
    method FindFit(least: int) returns (header: int)
      requires Valid()
      ensures header == At(h.free, FirstFit(h.free, least + HEADER), NIL)
      ensures header != NIL ==> header >= 0 && FirstFit(h.free, least + HEADER) < |h.free|
      ensures header == NIL ==> FirstFit(h.free, least + HEADER) == |h.free|
    {
      hide FinshHeapPicture.Good, Seg, FirstFit;
      Heads();
      ghost var k := 0;
      header := freeList;
      if 0 < |h.free| { SegAt(h.free, 0, freeList, NIL, mem[..]); }
      while header != NIL && mem[header] < least
        invariant k <= |h.free| && header == At(h.free, k, NIL)
        invariant k < |h.free| ==> 0 <= header < mem.Length && mem[header] == h.free[k].len - HEADER
        invariant forall j :: 0 <= j < k ==> h.free[j].len < least + HEADER
        decreases |h.free| - k
      {
        SegAt(h.free, k, freeList, NIL, mem[..]);
        header := mem[header + 1];
        k := k + 1;
        if k < |h.free| { SegAt(h.free, k, freeList, NIL, mem[..]); }
      }
      FirstFitIs(h.free, least + HEADER, k);
    }

    /** The second half of finsh_heap_allocate: the free block found is cut, and
        its front becomes the new block. */
    method Take(header: int, size: nat, ghost least: int)
      requires Valid() && least >= size + 2 * HEADER
      requires FirstFit(h.free, least) < |h.free| && header == h.free[FirstFit(h.free, least)].at
      modifies this, mem
      ensures Valid() && 0 <= header && header + HEADER + size <= mem.Length
      ensures h == Heap(Carve(old(h.free), size + HEADER, least).1, Insert(old(h.used), Run(header, size + HEADER)))
      ensures forall c :: c in h.used <==> c in old(h.used) || c == Run(header, size + HEADER)
      ensures forall c, x :: c in old(h.used) && InData(c, x) && 0 <= x < mem.Length ==> mem[x] == old(mem[x])
      ensures forall x :: header + HEADER <= x < header + HEADER + size ==> mem[x] == 0
    {
      hide FinshHeapPicture.Good, Seg, Stacked, Carve, Insert, FirstFit, Pages, Span, Spares, Canonical, InData;
      ghost var was, k, mem0 := h, FirstFit(h.free, least), mem[..];
      ghost var a := Run(header, size + HEADER);
      ghost var q, left := Halves(was.free, k, size), Carve(was.free, size + HEADER, least).1;
      CarveIs(was.free, size + HEADER, least);
      Parted(was, mem.Length);
      TakeParts(was, size, least);
      HalvesAt(was.free, k, size);
      Detach(header, size, k);
      ghost var mem2 := mem[..];
      mem[header + 1] := NIL;
      ghost var mem3 := mem[..];
      SegSame(was.used, allocateList, NIL, mem0, mem3);
      SegUpdate(left, freeList, NIL, mem2, header + 1, NIL);
      allocateList := BlockInsert(allocateList, header, was.used, a);
      h := Heap(left, Insert(was.used, a));
      SegSame(left, freeList, NIL, mem3, mem[..]);
      ghost var mem4 := mem[..];
      Clear(header + HEADER, size);
      assert forall x :: header + HEADER <= x < header + HEADER + size ==> InData(a, x) by { DataIs(a); }
      SegSame(left, freeList, NIL, mem4, mem[..]);
      SegSame(h.used, allocateList, NIL, mem4, mem[..]);
    }

    /** The block is cut and its front half taken off the free list. */
    method Detach(header: int, size: nat, ghost k: nat)
      requires Seg(h.free, freeList, NIL, mem[..]) && Stacked(h.free) && k < |h.free| && header == h.free[k].at
      requires h.free[k].len >= size + 2 * HEADER && Stacked(Halves(h.free, k, size))
      modifies this`freeList, mem
      ensures var q := Halves(h.free, k, size); k < |q| && Seg(q[..k] + q[k + 1..], freeList, NIL, mem[..])
      ensures 0 <= header && header + 2 * HEADER + size <= mem.Length && mem[header] == size
      ensures forall x :: 0 <= x < mem.Length && Spares(Halves(h.free, k, size), x) ==> mem[x] == old(mem[x]) && x != header + 1
    {
      hide Seg, Stacked, Halves;
      ghost var q := Halves(h.free, k, size);
      ghost var a, c := Run(header, size + HEADER), Run(header + HEADER + size, h.free[k].len - size - HEADER);
      HalvesAt(h.free, k, size);
      Cut(h.free, k, size, freeList, mem[..]);
      SegAt(h.free, k, freeList, NIL, mem[..]);
      BlockSplit(header, size);
      CutSpared(q, k, a, c);
      if k > 0 { StackedOrder(q, k - 1, k); }
      assert Seg(q, freeList, NIL, mem[..]) by { HalvesAre(h.free, k, size); }
      freeList := BlockRemove(freeList, header, q, k);
    }

    lemma HalvesAre(free: Runs, k: nat, size: nat)
      requires k < |free|
      ensures Halves(free, k, size) ==
              free[..k] + [Run(free[k].at, size + HEADER), Run(free[k].at + HEADER + size, free[k].len - size - HEADER)] + free[k + 1..]
    {
    }

    /** finsh_block_split. */
    method BlockSplit(header: int, size: nat)
      requires 0 <= header && header + 2 * HEADER + size <= mem.Length
      modifies mem
      ensures var n := header + HEADER + size;
              mem[..] == old(mem[..])[n := old(mem[header]) - HEADER - size][header := size][n + 1 := old(mem[header + 1])][header + 1 := n]
    {
      var next := header + HEADER + size;
      mem[next] := mem[header] - HEADER - size;
      mem[header] := size;
      mem[next + 1] := mem[header + 1];
      mem[header + 1] := next;
    }

    /** memset of a new block's data. */
    method Clear(from: int, size: nat)
      requires 0 <= from && from + size <= mem.Length
      modifies mem
      ensures forall x :: from <= x < from + size ==> mem[x] == 0
      ensures forall x :: 0 <= x < mem.Length && !(from <= x < from + size) ==> mem[x] == old(mem[x])
    {
      var i := 0;
      while i < size
        invariant i <= size
        invariant forall x :: from <= x < from + i ==> mem[x] == 0
        invariant forall x :: 0 <= x < mem.Length && !(from <= x < from + size) ==> mem[x] == old(mem[x])
      {
        mem[from + i] := 0;
        i := i + 1;
      }
    }

    /** The free list with block `k` in two halves. */
    ghost function Halves(free: Runs, k: nat, size: nat): Runs
      requires k < |free|
    {
      free[..k] + [Run(free[k].at, size + HEADER), Run(free[k].at + HEADER + size, free[k].len - size - HEADER)] + free[k + 1..]
    }

    lemma {:induction false} HalvesGood(free: Runs, k: nat, size: nat)
      requires Stacked(free) && k < |free| && free[k].len >= size + 2 * HEADER
      ensures Stacked(Halves(free, k, size)) && Pages(Halves(free, k, size)) == Pages(free)
      ensures Halves(free, k, size)[0].at == free[0].at
    {
      var q, f := Halves(free, k, size), free[0];
      if k == 0 {
        var a, c := Run(f.at, size + HEADER), Run(f.at + HEADER + size, f.len - size - HEADER);
        assert q == [a, c] + free[1..];
        assert q[1..] == [c] + free[1..];
        assert q[1..][1..] == free[1..];
        assert Span(f.at, f.len) == Span(a.at, a.len) + Span(c.at, c.len);
      } else {
        HalvesGood(free[1..], k - 1, size);
        var r := Halves(free[1..], k - 1, size);
        Parts(free, k);
        Assoc([f], free[1..][..k - 1], [Run(free[k].at, size + HEADER), Run(free[k].at + HEADER + size, free[k].len - size - HEADER)], free[k + 1..]);
        assert q == [f] + r && q[1..] == r;
      }
    }

    /** What taking the front of the block found leaves alone. */
    lemma {:induction false} TakeParts(p: Heap, size: nat, least: int)
      requires FinshHeapPicture.Good(p, mem.Length) && least >= size + 2 * HEADER && FirstFit(p.free, least) < |p.free|
      ensures var k := FirstFit(p.free, least);
              var a, q := Run(p.free[k].at, size + HEADER), Halves(p.free, k, size);
              var left, u := Carve(p.free, size + HEADER, least).1, Insert(p.used, Run(p.free[k].at, size + HEADER));
              && p.free[k].len >= size + 2 * HEADER
              && Stacked(q) && FinshHeapPicture.Good(Heap(left, u), mem.Length)
              && Span(a.at, a.len) !! Pages(p.used)
              && (forall c :: c in u <==> c == a || c in p.used)
              && (forall x :: !Spares(p.used, x) ==> Spares(q, x))
              && Spares(left, a.at + 1)
              && (forall x :: !Spares(left, x) ==> Spares(p.used, x) && x != a.at + 1)
              && (forall x :: InData(a, x) ==> Spares(left, x) && Spares(u, x))
              && (forall c, x :: c in p.used && InData(c, x) ==> Spares(q, x) && Spares(p.used, x) && x != a.at + 1 && !InData(a, x))
    {
      hide FinshHeapPicture.Good, Stacked, Carve, Insert, FirstFit, Pages, Spares, Canonical, Halves;
      var k := FirstFit(p.free, least);
      CarveIs(p.free, size + HEADER, least);
      Parted(p, mem.Length);
      TakeGood(p, size, least, mem.Length);
      HalvesGood(p.free, k, size);
      var a, q := Run(p.free[k].at, size + HEADER), Halves(p.free, k, size);
      var left, u := Carve(p.free, size + HEADER, least).1, Insert(p.used, a);
      Parted(Heap(left, u), mem.Length);
      Elsewhere(p.used, q);
      BlockIn(u, a);
      assert a.at + 1 in Span(a.at, a.len);
      SparesOutside(left, a.at + 1);
      Elsewhere(left, u);
      forall x | !Spares(left, x) ensures Spares(p.used, x) && x != a.at + 1 {
        FewerSpare(p.used, u, x);
      }
      forall x | InData(a, x) ensures Spares(left, x) && Spares(u, x) {
        DataSpared(u, a, x);
        SparesOutside(left, x);
      }
      forall c, x | c in p.used && InData(c, x) ensures Spares(q, x) && Spares(p.used, x) && x != a.at + 1 && !InData(a, x) {
        DataSpared(p.used, c, x);
        SparesOutside(q, x);
        assert InData(a, x) ==> x in Span(a.at, a.len);
      }
    }

    lemma CutSpared(q: Runs, k: nat, a: Run, c: Run)
      requires k + 1 < |q| && q[k] == a && q[k + 1] == c
      ensures forall x :: Spares(q, x) ==> x != a.at && x != a.at + 1 && x != c.at && x != c.at + 1
    {
      assert a in q && c in q;
    }

    lemma DataIs(a: Run)
      ensures forall x :: InData(a, x) <==> a.at + HEADER <= x < a.at + a.len
    {
    }

    lemma FewerSpare(part: Runs, all: Runs, x: int)
      requires Spares(all, x) && forall b <- part :: b in all
      ensures Spares(part, x)
    {
    }

    lemma {:induction false} HalvesAt(free: Runs, k: nat, size: nat)
      requires k < |free|
      ensures var q := Halves(free, k, size);
              && k + 1 < |q| && q[k] == Run(free[k].at, size + HEADER)
              && q[k + 1] == Run(free[k].at + HEADER + size, free[k].len - size - HEADER)
              && q[..k] + q[k + 1..] == free[..k] + [Run(free[k].at + size + HEADER, free[k].len - size - HEADER)] + free[k + 1..]
    {
    }

    /** The facts a release needs about the two lists. */
    lemma Apart(p: Heap, b: Run)
      requires FinshHeapPicture.Good(p, mem.Length) && b in p.used
      ensures Stacked(p.free) && Stacked(p.used) && Canonical(p.free)
      ensures Span(b.at, b.len) !! Pages(p.free) && b.len >= HEADER
      ensures Place(p.free, b.at) < |p.free|
      ensures forall x :: !Spares(p.free, x) ==> Spares(p.used, x)
    {
      BlockIn(p.used, b);
      StackedLengths(p.used);
      NeverLast(p, b, mem.Length);
      Elsewhere(p.free, p.used);
    }

    /** Neither the headers of the other allocated blocks nor their data are
        header words of the free list with `b` in it. */
    lemma {:induction false} Untouched(p: Heap, b: Run)
      requires FinshHeapPicture.Good(p, mem.Length) && b in p.used
      ensures var u := Remove(p.used, b.at);
              && Stacked(u)
              && (forall x :: !Spares(u, x) ==> Spares(p.free, x) && Spares(Insert(p.free, b), x) && x != b.at + 1)
              && (forall c, x :: c in u && InData(c, x) ==> Spares(p.free, x) && Spares(Insert(p.free, b), x) && Spares(p.used, x) && x != b.at + 1)
    {
      hide FinshHeapPicture.Good, Pages, Remove, Insert, Stacked;
      ReleaseGood(p, b, mem.Length);
      Parted(p, mem.Length);
      RemoveGood(p.used, b);
      BlockIn(p.used, b);
      StackedLengths(p.used);
      assert b.at + 1 in Span(b.at, b.len);
      FinshHeapPicture.InsertGood(p.free, b);
      var u, q := Remove(p.used, b.at), Insert(p.free, b);
      assert Pages(u) !! Pages(q);
      Elsewhere(u, p.free);
      Elsewhere(u, q);
      forall c, x | c in u && InData(c, x)
        ensures Spares(p.free, x) && Spares(q, x) && Spares(p.used, x) && x != b.at + 1
      {
        DataSpared(u, c, x);
        DataSpared(p.used, c, x);
        SparesOutside(p.free, x);
        SparesOutside(q, x);
      }
    }

    lemma Parted(p: Heap, n: int)
      requires FinshHeapPicture.Good(p, n)
      ensures Stacked(p.free) && Stacked(p.used) && Pages(p.free) !! Pages(p.used)
    {
    }

    /** The block in front of `header` in a list, or NIL. */
    method FindPrev(list: int, header: int, ghost q: Runs, ghost i: nat) returns (prev: int)
      requires Seg(q, list, NIL, mem[..]) && Stacked(q) && i < |q| && header == q[i].at
      ensures prev == if i == 0 then NIL else q[i - 1].at
    {
      hide Stacked, Seg;
      FirstAt(q, list, mem[..]);
      if i > 0 { StackedOrder(q, 0, i); }
      if list == header {
        return NIL;
      }
      prev := list;
      ghost var k := 0;
      SegAt(q, 0, list, NIL, mem[..]);
      while prev != NIL
        invariant k < i && prev == q[k].at && 0 <= prev
        decreases i - k
      {
        SegAt(q, k, list, NIL, mem[..]);
        SegAt(q, k + 1, list, NIL, mem[..]);
        if k + 1 < i { StackedOrder(q, k + 1, i); }
        if mem[prev + 1] == header {
          return;
        }
        prev := mem[prev + 1];
        k := k + 1;
      }
    }

    lemma {:induction false} Around(free: Runs, i: nat, b: Run)
      requires i <= |free|
      ensures var q := free[..i] + [b] + free[i..]; |q| == |free| + 1 && q[i] == b
      ensures var q := free[..i] + [b] + free[i..]; (i > 0 ==> q[i - 1] == free[i - 1]) && (i < |free| ==> q[i + 1] == free[i])
    {
    }

    lemma {:induction false} MergedIs(free: Runs, i: nat, b: Run)
      requires i <= |free|
      ensures var q := free[..i] + [b] + free[i..];
              Merged(free, i, b) ==
              if Before(free, i, b) && Behind(free, i, b) then
                q[..i - 1] + [Run(free[i - 1].at, free[i - 1].len + b.len + free[i].len)] + q[i + 2..]
              else if Before(free, i, b) then q[..i - 1] + [Run(free[i - 1].at, free[i - 1].len + b.len)] + q[i + 1..]
              else if Behind(free, i, b) then q[..i] + [Run(b.at, b.len + free[i].len)] + q[i + 2..]
              else q
    {
      var q := free[..i] + [b] + free[i..];
      assert q[..i] == free[..i];
      assert q[i + 1..] == free[i..];
      if i > 0 { assert q[..i - 1] == free[..i - 1]; }
      if i < |free| { assert q[i + 2..] == free[i + 1..]; }
    }
  }
}
