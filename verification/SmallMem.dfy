/**
  The small-memory heap in place (mem.c): an array of words in which every
  block starts with a used flag, the address of the next block and the address
  of the previous one.  Each routine is proved to be the operation of
  SmallMemPicture it stands for.
*/
module SmallMem {
  import opened SmallMemPicture

  // ---------- headers in memory ----------

  ghost predicate Header(b: Block, prev: int, mem: seq<int>) {
    && 0 <= b.at && b.at + HEADER <= |mem|
    && mem[b.at] == (if b.used then 1 else 0)
    && mem[b.at + 1] == b.at + b.len
    && mem[b.at + 2] == prev
  }

  /** Every block has its header, and `prev` undoes `next`. */
  ghost predicate Headers(q: Blocks, prev: int, mem: seq<int>) {
    q != [] ==> Header(q[0], prev, mem) && Headers(q[1..], q[0].at, mem)
  }

  function Last(q: Blocks, prev: int): int {
    if q == [] then prev else q[|q| - 1].at
  }

  lemma {:induction false} HeadersConcat(a: Blocks, b: Blocks, prev: int, mem: seq<int>)
    ensures Headers(a + b, prev, mem) <==> Headers(a, prev, mem) && Headers(b, Last(a, prev), mem)
  {
    if a == [] {
      assert a + b == b;
    } else {
      assert (a + b)[1..] == a[1..] + b;
      HeadersConcat(a[1..], b, a[0].at, mem);
    }
  }

  lemma {:induction false} HeadersSame(q: Blocks, prev: int, from: int, to: int, mem: seq<int>, mem1: seq<int>)
    requires Tiles(q, from, to) && Headers(q, prev, mem) && |mem1| == |mem|
    requires forall x :: 0 <= x < |mem| && from <= x < to ==> mem1[x] == mem[x]
    ensures Headers(q, prev, mem1)
  {
    if q != [] {
      Bounds(q[1..], from + q[0].len, to);
      HeadersSame(q[1..], q[0].at, from + q[0].len, to, mem, mem1);
    }
  }

  /** The first block of what follows learns its new predecessor. */
  lemma {:induction false} HeadersReprev(q: Blocks, prev: int, now: int, from: int, to: int, mem: seq<int>, mem1: seq<int>)
    requires Tiles(q, from, to) && Headers(q, prev, mem) && |mem1| == |mem|
    requires forall x :: 0 <= x < |mem| && from <= x < to && x != from + 2 ==> mem1[x] == mem[x]
    requires q != [] ==> 0 <= from && from + 2 < |mem| && mem1[from + 2] == now
    ensures Headers(q, now, mem1)
  {
    if q != [] {
      Bounds(q[1..], from + q[0].len, to);
      HeadersSame(q[1..], q[0].at, from + q[0].len, to, mem, mem1);
    }
  }

  /** Replacing `m` by `n` between `a` and `b`: memory in front is untouched,
      `n` has its headers, and behind it only the first `prev` changed. */
  lemma {:induction false} SpliceHeaders(a: Blocks, m: Blocks, n: Blocks, b: Blocks, end: int, mem: seq<int>, mem1: seq<int>)
    requires Tiles(a + (m + b), 0, end) && Headers(a + (m + b), 0, mem) && |mem1| == |mem|
    requires m != [] && n != [] && Headers(n, Last(a, 0), mem1)
    requires forall x :: 0 <= x < |mem| && x < m[0].at ==> mem1[x] == mem[x]
    requires forall x :: 0 <= x < |mem| && End(m, 0) <= x < end && x != End(m, 0) + 2 ==> mem1[x] == mem[x]
    requires b != [] ==> 0 <= End(m, 0) && End(m, 0) + 2 < |mem| && mem1[End(m, 0) + 2] == n[|n| - 1].at
    ensures Headers(a + (n + b), 0, mem1)
  {
    TilesConcat(a, m + b, 0, end);
    TilesConcat(m, b, End(a, 0), end);
    HeadersConcat(a, m + b, 0, mem);
    HeadersConcat(m, b, Last(a, 0), mem);
    HeadersSame(a, 0, 0, End(a, 0), mem, mem1);
    HeadersReprev(b, Last(m, Last(a, 0)), n[|n| - 1].at, End(m, 0), end, mem, mem1);
    HeadersConcat(n, b, Last(a, 0), mem1);
    HeadersConcat(a, n + b, 0, mem1);
  }

  lemma {:induction false} HeaderAt(q: Blocks, i: nat, end: int, mem: seq<int>)
    requires Tiles(q, 0, end) && Headers(q, 0, mem) && i < |q|
    ensures Header(q[i], if i == 0 then 0 else q[i - 1].at, mem)
    ensures q[i].len >= HEADER && q[i].at + q[i].len <= end
    ensures i + 1 < |q| ==> q[i + 1].at == q[i].at + q[i].len
    ensures i + 1 == |q| ==> q[i].at + q[i].len == end
  {
    BlockAt(q, i, end);
    Behind(q, i, end);
    var a, b := q[..i], q[i..];
    assert q == a + b && b[0] == q[i];
    HeadersConcat(a, b, 0, mem);
  }

  // ---------- the effect of each rewriting ----------

  /** What joining block `i` with the next one writes. */
  function Joined(q: Blocks, i: nat, mem: seq<int>): seq<int>
    requires i + 1 < |q| && 0 <= q[i].at && q[i].at + 1 < |mem|
    requires 0 <= q[i + 1].at + q[i + 1].len && q[i + 1].at + q[i + 1].len + 2 < |mem|
  {
    var next := q[i + 1].at + q[i + 1].len;
    mem[q[i].at + 1 := next][next + 2 := q[i].at]
  }

  lemma {:induction false} JoinHeaders(q: Blocks, i: nat, end: int, mem: seq<int>)
    requires Tiles(q, 0, end) && Headers(q, 0, mem) && i + 1 < |q| && |mem| == end + HEADER && !q[i].used
    requires 0 <= q[i].at && q[i].at + HEADER <= |mem| && 0 <= q[i + 1].at + q[i + 1].len <= end
    ensures Headers(Join(q, i), 0, Joined(q, i, mem))
  {
    hide Tiles, Headers;
    HeaderAt(q, i, end, mem);
    HeaderAt(q, i + 1, end, mem);
    var a, m, b := q[..i], [q[i], q[i + 1]], q[i + 2..];
    var n := [Block(q[i].at, q[i].len + q[i + 1].len, false)];
    assert q == a + (m + b) && Join(q, i) == a + (n + b);
    OneHeader(n[0], Last(a, 0), Joined(q, i, mem));
    SpliceHeaders(a, m, n, b, end, mem, Joined(q, i, mem));
  }

  lemma OneHeader(b: Block, prev: int, mem: seq<int>)
    requires Header(b, prev, mem)
    ensures Headers([b], prev, mem)
  {
    assert [b][1..] == [];
  }

  lemma TwoHeaders(b: Block, c: Block, prev: int, mem: seq<int>)
    requires Header(b, prev, mem) && Header(c, b.at, mem)
    ensures Headers([b, c], prev, mem)
  {
    assert [b, c][1..] == [c] && [c][1..] == [];
  }

  /** Memory differs in header words of `q` at most: what lies in the data of
      used blocks stays. */
  ghost predicate DataKept(q: Blocks, mem: seq<int>, mem1: seq<int>) {
    && |mem1| == |mem|
    && forall c, x :: c in q && c.used && 0 <= x < |mem| && c.at + HEADER <= x < c.at + c.len ==> mem1[x] == mem[x]
  }

  /** A word in the header of a block, or in a free block, is no used data. */
  lemma {:induction false} NoData(q: Blocks, i: nat, end: int, x: int)
    requires Tiles(q, 0, end) && i < |q|
    requires q[i].at <= x < q[i].at + HEADER || (!q[i].used && q[i].at <= x < q[i].at + q[i].len)
    ensures forall c <- q :: c.used ==> !(c.at + HEADER <= x < c.at + c.len)
  {
    forall c <- q | c.used ensures !(c.at + HEADER <= x < c.at + c.len) {
      var k :| 0 <= k < |q| && q[k] == c;
      if k < i { Order(q, k, i, end); }
      if i < k { Order(q, i, k, end); }
    }
  }

  /** Nor is a word behind the arena. */
  lemma {:induction false} NoDataAbove(q: Blocks, end: int, x: int)
    requires Tiles(q, 0, end) && x >= end
    ensures forall c <- q :: c.used ==> !(c.at + HEADER <= x < c.at + c.len)
  {
    Bounds(q, 0, end);
  }

  /** A new flag in a header. */
  lemma {:induction false} FlagHeaders(q: Blocks, i: nat, used: bool, end: int, mem: seq<int>)
    requires Tiles(q, 0, end) && Headers(q, 0, mem) && i < |q| && |mem| == end + HEADER
    requires 0 <= q[i].at && q[i].at + HEADER <= |mem|
    ensures var mem1 := mem[q[i].at := if used then 1 else 0];
            Headers(q[i := q[i].(used := used)], 0, mem1) && DataKept(q, mem, mem1) && DataKept(q[i := q[i].(used := used)], mem, mem1)
  {
    hide Headers, Tiles;
    var b, front, back := q[i], q[..i], q[i + 1..];
    var mem1 := mem[b.at := if used then 1 else 0];
    var n := b.(used := used);
    HeaderAt(q, i, end, mem);
    if i + 1 < |q| { HeaderAt(q, i + 1, end, mem); }
    assert q == front + ([b] + back) && q[i := n] == front + ([n] + back);
    assert Last(front, 0) == if i == 0 then 0 else q[i - 1].at;
    OneHeader(n, Last(front, 0), mem1);
    SpliceHeaders(front, [b], [n], back, end, mem, mem1);
    NoData(q, i, end, b.at);
    assert forall c <- q[i := n] :: c == n || c in q;
  }

  /** What cutting a block writes, but for its flag. */
  function CutMem(b: Block, size: int, end: int, mem: seq<int>): seq<int>
    requires size >= 0 && b.len - HEADER >= size + HEADER && 0 <= b.at && b.at + b.len <= end && |mem| == end + HEADER
  {
    var ptr2, next := b.at + HEADER + size, b.at + b.len;
    var m := mem[ptr2 := 0][ptr2 + 1 := next][ptr2 + 2 := b.at][b.at + 1 := ptr2];
    if next != end then m[next + 2 := ptr2] else m
  }

  lemma CutMemIs(b: Block, size: int, end: int, mem: seq<int>)
    requires size >= 0 && b.len - HEADER >= size + HEADER && 0 <= b.at && b.at + b.len <= end && |mem| == end + HEADER
    ensures var m, ptr2, next := CutMem(b, size, end, mem), b.at + HEADER + size, b.at + b.len;
            && |m| == |mem| && m[ptr2] == 0 && m[ptr2 + 1] == next && m[ptr2 + 2] == b.at
            && m[b.at] == mem[b.at] && m[b.at + 1] == ptr2 && m[b.at + 2] == mem[b.at + 2]
            && (next != end ==> m[next + 2] == ptr2)
            && (forall x :: b.at + HEADER <= x < ptr2 ==> m[x] == mem[x])
            && (forall x :: 0 <= x < |mem| && (x < b.at || x >= next) && (x != next + 2 || next == end) ==> m[x] == mem[x])
  {
  }

  /** Memory that differs only in block `k` and the header behind it keeps all
      used data, if the block is free. */
  lemma {:induction false} KeptAround(q: Blocks, k: nat, end: int, mem: seq<int>, mem1: seq<int>)
    requires Tiles(q, 0, end) && k < |q| && !q[k].used && |mem1| == |mem|
    requires forall x :: 0 <= x < |mem| && !(q[k].at <= x < q[k].at + q[k].len + HEADER) ==> mem1[x] == mem[x]
    ensures DataKept(q, mem, mem1)
  {
    hide Tiles;
    forall c, x | c in q && c.used && 0 <= x < |mem| && c.at + HEADER <= x < c.at + c.len ensures mem1[x] == mem[x] {
      var j :| 0 <= j < |q| && q[j] == c;
      BlockAt(q, k, end);
      if j < k { Order(q, j, k, end); }
      if k < j { Order(q, k, j, end); }
    }
  }

  lemma {:induction false} CutHeaders(q: Blocks, k: nat, size: int, end: int, mem: seq<int>)
    requires Tiles(q, 0, end) && Headers(q, 0, mem) && k < |q| && |mem| == end + HEADER
    requires !q[k].used && q[k].len - HEADER >= size + HEADER + MIN_ALIGNED && size >= 0
    requires 0 <= q[k].at && q[k].at + q[k].len <= end
    ensures var mem1 := CutMem(q[k], size, end, mem)[q[k].at := 1];
            && Headers(Give(q, k, size), 0, mem1) && DataKept(q, mem, mem1) && k < |Give(q, k, size)|
            && Give(q, k, size)[k].len == size + HEADER
            && (forall x :: end <= x < end + 2 ==> mem1[x] == mem[x])
  {
    hide Headers, Tiles, DataKept, CutMem;
    CutMemIs(q[k], size, end, mem);
    var b, front, back := q[k], q[..k], q[k + 1..];
    var mem1 := CutMem(b, size, end, mem)[b.at := 1];
    HeaderAt(q, k, end, mem);
    if k + 1 < |q| { HeaderAt(q, k + 1, end, mem); }
    assert q == front + ([b] + back) && Give(q, k, size) == front + (Given(b, size) + back);
    assert Last(front, 0) == if k == 0 then 0 else q[k - 1].at;
    TwoHeaders(Block(b.at, size + HEADER, true), Block(b.at + HEADER + size, b.len - size - HEADER, false), Last(front, 0), mem1);
    SpliceHeaders(front, [b], Given(b, size), back, end, mem, mem1);
    KeptAround(q, k, end, mem, mem1);
  }

  lemma {:induction false} WholeHeaders(q: Blocks, k: nat, size: int, end: int, mem: seq<int>)
    requires Tiles(q, 0, end) && Headers(q, 0, mem) && k < |q| && |mem| == end + HEADER
    requires !q[k].used && !(q[k].len - HEADER >= size + HEADER + MIN_ALIGNED)
    requires 0 <= q[k].at && q[k].at + q[k].len <= end && q[k].len >= HEADER
    ensures var mem1 := mem[q[k].at := 1];
            && Headers(Give(q, k, size), 0, mem1) && DataKept(q, mem, mem1) && k < |Give(q, k, size)|
            && Give(q, k, size)[k].len == q[k].len
  {
    hide Headers, Tiles, DataKept;
    var b, front, back := q[k], q[..k], q[k + 1..];
    var mem1 := mem[b.at := 1];
    HeaderAt(q, k, end, mem);
    if k + 1 < |q| { HeaderAt(q, k + 1, end, mem); }
    assert q == front + ([b] + back) && Give(q, k, size) == front + (Given(b, size) + back);
    assert Last(front, 0) == if k == 0 then 0 else q[k - 1].at;
    OneHeader(b.(used := true), Last(front, 0), mem1);
    SpliceHeaders(front, [b], Given(b, size), back, end, mem, mem1);
    KeptAround(q, k, end, mem, mem1);
  }

  // ---------- the searches ----------

  lemma {:induction false} FindAt(q: Blocks, k: nat, lfree: int, limit: int, size: int)
    requires k < |q| && Fits(q[k], lfree, limit, size)
    requires forall j :: 0 <= j < k ==> q[j].at < limit && !Fits(q[j], lfree, limit, size)
    ensures Find(q, lfree, limit, size) == k
  {
    if k > 0 {
      assert forall j :: 0 <= j < k - 1 ==> q[1..][j] == q[j + 1];
      FindAt(q[1..], k - 1, lfree, limit, size);
    }
  }

  lemma {:induction false} FindNone(q: Blocks, lfree: int, limit: int, size: int)
    requires forall j :: 0 <= j < |q| ==> !Fits(q[j], lfree, limit, size)
    ensures Find(q, lfree, limit, size) == |q|
  {
    if q != [] {
      assert forall j :: 0 <= j < |q| - 1 ==> q[1..][j] == q[j + 1];
      FindNone(q[1..], lfree, limit, size);
    }
  }

  lemma {:induction false} FirstUnused(q: Blocks, n: nat, end: int)
    requires n <= |q| && forall i :: 0 <= i < n ==> q[i].used
    requires n < |q| ==> !q[n].used && q[n].at >= 0
    ensures FirstFree(q, 0, end) == if n < |q| then q[n].at else end
  {
    if n > 0 {
      assert forall i :: 0 <= i < n - 1 ==> q[1..][i] == q[i + 1];
      FirstUnused(q[1..], n - 1, end);
    }
  }

  /** Where a walk over used blocks from block `k` ends. */
  lemma {:induction false} FirstFreeWalk(q: Blocks, k: nat, j: nat, end: int)
    requires Tiles(q, 0, end) && k < |q| && k <= j <= |q| && forall i :: k <= i < j ==> q[i].used
    requires j < |q| ==> !q[j].used
    ensures FirstFree(q, q[k].at, end) == if j < |q| then q[j].at else end
  {
    hide Tiles, FirstFree;
    CutAt(q, k, end);
    var rest := [q[k]] + q[k + 1..];
    assert rest == q[k..];
    Bounds(q, 0, end);
    FreeSplit(q[..k], q[k].at, rest, end);
    if j < |q| { assert q[j] in q; }
    FirstUnused(rest, j - k, end);
  }

  // ---------- data that moves and data that stays ----------

  function Min(a: int, b: int): int {
    if a < b then a else b
  }

  ghost predicate Copied(to: int, from: int, words: int, mem: seq<int>, mem1: seq<int>) {
    && 0 <= words && 0 <= to && to + words <= |mem1| && 0 <= from && from + words <= |mem|
    && mem1[to..to + words] == mem[from..from + words]
  }

  /** The data of every used block but the one at `at` stays. */
  ghost predicate OthersKept(q: Blocks, at: int, mem: seq<int>, mem1: seq<int>) {
    && |mem1| == |mem|
    && forall c, x :: c in q && c.used && c.at != at && 0 <= x < |mem| && c.at + HEADER <= x < c.at + c.len ==> mem1[x] == mem[x]
  }

  lemma SameOthers(q: Blocks, at: int, m: seq<int>)
    ensures OthersKept(q, at, m, m)
  {
  }

  lemma KeptOthers(q: Blocks, at: int, m0: seq<int>, m1: seq<int>)
    requires DataKept(q, m0, m1)
    ensures OthersKept(q, at, m0, m1)
  {
  }

  lemma SameCopied(p: int, words: int, m: seq<int>)
    requires 0 <= p && 0 <= words && p + words <= |m|
    ensures Copied(p, p, words, m, m)
  {
  }

  ghost function AddedBlock(was: Blocks, q: Blocks, at: int, words: int): (b: Block)
    requires Adds(was, q, at, words)
    ensures b in q && b.at == at && b.used && b.len - HEADER >= words && b !in was
    ensures forall c :: c in q && c.used <==> c == b || (c in was && c.used)
  {
    var b :| b in q && b.at == at && b.used && b.len - HEADER >= words && b !in was
             && forall c :: c in q && c.used <==> c == b || (c in was && c.used);
    b
  }

  lemma {:induction false} Disjoint(q: Blocks, b: Block, c: Block, end: int)
    requires Tiles(q, 0, end) && b in q && c in q && b != c
    ensures b.at + b.len <= c.at || c.at + c.len <= b.at
    ensures b.at >= 0 && b.len >= HEADER && b.at + b.len <= end && c.at >= 0 && c.len >= HEADER && c.at + c.len <= end
  {
    Bounds(q, 0, end);
    var i :| 0 <= i < |q| && q[i] == b;
    var j :| 0 <= j < |q| && q[j] == c;
    if i < j { Order(q, i, j, end); }
    if j < i { Order(q, j, i, end); }
  }

  lemma {:induction false} HeadersSpared(q: Blocks, prev: int, mem: seq<int>, mem1: seq<int>)
    requires Headers(q, prev, mem) && |mem1| == |mem|
    requires forall c <- q :: 0 <= c.at && c.at + HEADER <= |mem| ==> forall x :: c.at <= x < c.at + HEADER ==> mem1[x] == mem[x]
    ensures Headers(q, prev, mem1)
  {
    if q != [] {
      assert q[0] in q && forall c <- q[1..] :: c in q;
      HeadersSpared(q[1..], q[0].at, mem, mem1);
    }
  }

  /** Writing in the data of one block touches no header and no other data. */
  lemma {:induction false} DataWritten(q: Blocks, b: Block, end: int, mem: seq<int>, mem1: seq<int>)
    requires Tiles(q, 0, end) && Headers(q, 0, mem) && b in q && |mem1| == |mem|
    requires forall x :: 0 <= x < |mem| && !(b.at + HEADER <= x < b.at + b.len) ==> mem1[x] == mem[x]
    ensures Headers(q, 0, mem1) && (b.used ==> OthersKept(q, b.at, mem, mem1))
  {
    hide Tiles, Headers;
    forall c <- q | c != b ensures b.at + b.len <= c.at || c.at + c.len <= b.at {
      Disjoint(q, b, c, end);
    }
    Bounds(q, 0, end);
    HeadersSpared(q, 0, mem, mem1);
  }

  /** Cutting a used block in two keeps the data in front of the cut. */
  lemma {:induction false} HalvesHeaders(q: Blocks, i: nat, size: int, end: int, mem: seq<int>)
    requires Tiles(q, 0, end) && Headers(q, 0, mem) && i < |q| && q[i].used && |mem| == end + HEADER
    requires size >= 0 && q[i].len - size - HEADER >= HEADER && 0 <= q[i].at && q[i].at + q[i].len <= end
    ensures var mem1 := CutMem(q[i], size, end, mem);
            && Headers(Halves(q, i, size), 0, mem1)
            && (forall x :: end <= x < end + 2 ==> mem1[x] == mem[x])
            && (forall x :: q[i].at + HEADER <= x < q[i].at + HEADER + size ==> mem1[x] == mem[x])
            && OthersKept(q, q[i].at, mem, mem1)
  {
    hide Headers, Tiles, CutMem, OthersKept, Halves;
    CutMemIs(q[i], size, end, mem);
    NextFits(q, i, end);
    AroundUsed(q, i, end, mem, CutMem(q[i], size, end, mem));
    HalvesSpliced(q, i, size, end, mem);
  }

  lemma {:induction false} HalvesSpliced(q: Blocks, i: nat, size: int, end: int, mem: seq<int>)
    requires Tiles(q, 0, end) && Headers(q, 0, mem) && i < |q| && q[i].used && |mem| == end + HEADER
    requires size >= 0 && q[i].len - size - HEADER >= HEADER && 0 <= q[i].at && q[i].at + q[i].len <= end
    ensures Headers(Halves(q, i, size), 0, CutMem(q[i], size, end, mem))
  {
    hide Headers, Tiles, CutMem, Halves, Header;
    CutMemIs(q[i], size, end, mem);
    NextFits(q, i, end);
    var b, front, back := q[i], q[..i], q[i + 1..];
    var mem1 := CutMem(b, size, end, mem);
    var u, f := Block(b.at, size + HEADER, true), Block(b.at + size + HEADER, b.len - size - HEADER, false);
    HalvesPair(q, i, size, end, mem);
    HeaderAt(q, i, end, mem);
    HalvesAre(q, i, size);
    SpliceHeaders(front, [b], [u, f], back, end, mem, mem1);
  }

  /** What follows a block is another whole one, or the end. */
  lemma {:induction false} NextFits(q: Blocks, i: nat, end: int)
    requires Tiles(q, 0, end) && i < |q|
    ensures var next := q[i].at + q[i].len; q[i].at >= 0 && if i + 1 < |q| then next + HEADER <= end else next == end
  {
    hide Tiles;
    Bounds(q, 0, end);
    assert q[i] in q;
    BlockAt(q, i, end);
    if i + 1 < |q| { assert q[i + 1] in q; }
  }

  lemma {:induction false} HalvesPair(q: Blocks, i: nat, size: int, end: int, mem: seq<int>)
    requires Tiles(q, 0, end) && Headers(q, 0, mem) && i < |q| && q[i].used && |mem| == end + HEADER
    requires size >= 0 && q[i].len - size - HEADER >= HEADER && 0 <= q[i].at && q[i].at + q[i].len <= end
    ensures Headers([Block(q[i].at, size + HEADER, true), Block(q[i].at + size + HEADER, q[i].len - size - HEADER, false)],
                    Last(q[..i], 0), CutMem(q[i], size, end, mem))
  {
    hide Headers, Tiles, CutMem;
    CutMemIs(q[i], size, end, mem);
    HeaderAt(q, i, end, mem);
    assert Last(q[..i], 0) == if i == 0 then 0 else q[i - 1].at;
    TwoHeaders(Block(q[i].at, size + HEADER, true), Block(q[i].at + size + HEADER, q[i].len - size - HEADER, false),
               Last(q[..i], 0), CutMem(q[i], size, end, mem));
  }

  lemma {:induction false} AroundUsed(q: Blocks, k: nat, end: int, mem: seq<int>, mem1: seq<int>)
    requires Tiles(q, 0, end) && k < |q| && |mem1| == |mem|
    requires forall x :: 0 <= x < |mem| && !(q[k].at <= x < q[k].at + q[k].len + HEADER) ==> mem1[x] == mem[x]
    ensures OthersKept(q, q[k].at, mem, mem1)
  {
    hide Tiles;
    forall c, x | c in q && c.used && c.at != q[k].at && 0 <= x < |mem| && c.at + HEADER <= x < c.at + c.len ensures mem1[x] == mem[x] {
      var j :| 0 <= j < |q| && q[j] == c;
      BlockAt(q, k, end);
      if j < k { Order(q, j, k, end); }
      if k < j { Order(q, k, j, end); }
    }
  }

  lemma ShrunkKept(q: Blocks, r: Blocks, i: nat, size: nat, m0: seq<int>, m1: seq<int>, m2: seq<int>)
    requires i < |q| && OthersKept(q, q[i].at, m0, m1) && DataKept(r, m1, m2)
    requires Block(q[i].at, size + HEADER, true) in r
    requires forall c :: c in r && c.used <==> c == Block(q[i].at, size + HEADER, true) || (c in q && c.used && c != q[i])
    requires 0 <= q[i].at && q[i].at + HEADER + size <= |m0|
    requires forall x :: q[i].at + HEADER <= x < q[i].at + HEADER + size ==> m1[x] == m0[x]
    ensures OthersKept(q, q[i].at, m0, m2) && Copied(q[i].at + HEADER, q[i].at + HEADER, size, m0, m2)
  {
    var u := Block(q[i].at, size + HEADER, true);
    var p := u.at + HEADER;
    forall c, x | c in q && c.used && c.at != q[i].at && 0 <= x < |m0| && c.at + HEADER <= x < c.at + c.len ensures m2[x] == m0[x] {
      assert c in r;
    }
    forall x | p <= x < p + size ensures m2[x] == m0[x] { assert u in r; }
    assert m2[p..p + size] == m0[p..p + size];
  }

  /** A move in one: malloc, copy, free. */
  lemma MovedKept(q: Blocks, r: Blocks, s: Blocks, source: Block, target: Block, words: int, end: int,
                  m0: seq<int>, m1: seq<int>, m2: seq<int>, m3: seq<int>)
    requires Tiles(r, 0, end) && |m0| == end + HEADER && source in r && target in r && source in q && source.used && target.used && target != source && target !in q
    requires DataKept(q, m0, m1) && |m2| == |m1| && DataKept(s, m2, m3)
    requires 0 <= words <= source.len - HEADER && words <= target.len - HEADER
    requires forall x :: 0 <= x < |m1| && !(target.at + HEADER <= x < target.at + HEADER + words) ==> m2[x] == m1[x]
    requires forall x :: target.at + HEADER <= x < target.at + HEADER + words && 0 <= x < |m1| && 0 <= x - target.at + source.at < |m1| ==> m2[x] == m1[x - target.at + source.at]
    requires forall c :: c in r && c.used <==> c == target || (c in q && c.used)
    requires forall c :: c in s && c.used <==> c in r && c.used && c != source
    requires forall c <- q :: c.at == source.at ==> c == source
    ensures OthersKept(q, source.at, m0, m3) && Copied(target.at + HEADER, source.at + HEADER, words, m0, m3)
  {
    Disjoint(r, source, target, end);
    forall c, x | c in q && c.used && c.at != source.at && 0 <= x < |m0| && c.at + HEADER <= x < c.at + c.len ensures m3[x] == m0[x] {
      assert c in r && c in s;
      if c != target { Disjoint(r, c, target, end); }
    }
    var n, p := target.at + HEADER, source.at + HEADER;
    var to, from := m3[n..n + words], m0[p..p + words];
    forall k | 0 <= k < words ensures to[k] == from[k] {
      assert m0[p + k] == m1[p + k];
      assert m2[n + k] == m1[p + k];
      assert target in s;
    }
  }

  // ---------- the heap ----------

  const NULL := -1

  class SmallHeap {
    const mem: array<int> // heap_ptr, in words, with heap_end behind the arena
    var lfree: int
    var usedMem: int
    var maxMem: int
    ghost var blocks: Blocks

    function ArenaEnd(): int {
      mem.Length - HEADER
    }

    ghost function Abstract(): Arena
      reads this
    {
      Arena(blocks, lfree, usedMem, maxMem)
    }

    /** The end of the arena counts as used, and its `prev` means nothing. */
    ghost predicate Sentinel()
      reads mem
    {
      mem.Length >= HEADER && mem[ArenaEnd()] == 1 && mem[ArenaEnd() + 1] == ArenaEnd()
    }

    ghost predicate Valid()
      reads this, mem
    {
      && Sentinel()
      && Headers(blocks, 0, mem[..])
      && Good(Abstract(), ArenaEnd())
    }

    /** rt_system_heap_init over an aligned area of `words` words. */
    constructor (words: nat)
      requires words >= 2 * HEADER + MIN_ALIGNED
      ensures Valid() && fresh(mem) && mem.Length == words
      ensures Abstract() == Arena([Block(0, words - HEADER, false)], 0, 0, 0)
    {
      mem := new int[words];
      lfree, usedMem, maxMem := 0, 0, 0;
      blocks := [Block(0, words - HEADER, false)];
      new;
      mem[0], mem[1], mem[2] := 0, words - HEADER, 0;
      mem[words - HEADER], mem[words - HEADER + 1], mem[words - HEADER + 2] := 1, words - HEADER, words - HEADER;
      SmallMemPicture.InitialGood(words - HEADER);
    }

    /** plug_holes. */
    method PlugHoles(m: int, ghost q: Blocks, ghost i: nat) returns (ghost r: Blocks)
      requires Sentinel() && Headers(q, 0, mem[..]) && Hole(q, i, ArenaEnd()) && m == q[i].at
      modifies this`lfree, mem
      ensures Sentinel() && Headers(r, 0, mem[..])
      ensures (r, lfree) == Plug(q, old(lfree), i)
      ensures DataKept(q, old(mem[..]), mem[..])
    {
      hide Headers, Sentinel, Hole, PlugForward, PlugBackward;
      ForwardGood(q, lfree, i, ArenaEnd());
      r := PlugNext(m, q, i);
      r := PlugPrevious(m, r, i);
    }

    /** The half of plug_holes that looks forward. */
    method PlugNext(m: int, ghost q: Blocks, ghost i: nat) returns (ghost r: Blocks)
      requires Sentinel() && Headers(q, 0, mem[..]) && Hole(q, i, ArenaEnd()) && m == q[i].at
      modifies this`lfree, mem
      ensures Sentinel() && Headers(r, 0, mem[..])
      ensures (r, lfree) == PlugForward(q, old(lfree), i)
      ensures DataKept(q, old(mem[..]), mem[..])
    {
      hide Tiles, Headers, Calm, Join;
      ghost var mem0 := mem[..];
      HeaderAt(q, i, ArenaEnd(), mem0);
      r := q;
      var nmem := mem[m + 1];
      if i + 1 < |q| { HeaderAt(q, i + 1, ArenaEnd(), mem0); }
      if m != nmem && mem[nmem] == 0 && nmem != ArenaEnd() {
        JoinHeaders(q, i, ArenaEnd(), mem0);
        JoinData(q, i, ArenaEnd());
        if lfree == nmem { lfree := m; }
        mem[m + 1] := mem[nmem + 1];
        mem[mem[nmem + 1] + 2] := m;
        assert mem[..] == Joined(q, i, mem0);
        r := Join(q, i);
      }
    }

    /** The half that looks back. */
    method PlugPrevious(m: int, ghost q: Blocks, ghost i: nat) returns (ghost r: Blocks)
      requires Sentinel() && Headers(q, 0, mem[..]) && Hole(q, i, ArenaEnd()) && m == q[i].at
      modifies this`lfree, mem
      ensures Sentinel() && Headers(r, 0, mem[..])
      ensures (r, lfree) == PlugBackward(q, old(lfree), i)
      ensures DataKept(q, old(mem[..]), mem[..])
    {
      hide Tiles, Headers, Calm, Join;
      ghost var mem0 := mem[..];
      HeaderAt(q, i, ArenaEnd(), mem0);
      if i > 0 { HeaderAt(q, i - 1, ArenaEnd(), mem0); } else { BlockAt(q, 0, ArenaEnd()); assert q[..0] == []; }
      r := q;
      var pmem := mem[m + 2];
      if pmem != m && mem[pmem] == 0 {
        JoinHeaders(q, i - 1, ArenaEnd(), mem0);
        JoinData(q, i - 1, ArenaEnd());
        if lfree == m { lfree := pmem; }
        mem[pmem + 1] := mem[m + 1];
        mem[mem[m + 1] + 2] := pmem;
        assert mem[..] == Joined(q, i - 1, mem0);
        r := Join(q, i - 1);
      }
    }

    /** rt_malloc: a data pointer, or NULL. */
    method Malloc(bytes: nat) returns (p: int)
      requires Valid()
      modifies this, mem
      ensures Valid()
      ensures (if p == NULL then None else Some(p - HEADER), Abstract()) == SmallMemPicture.Malloc(old(Abstract()), bytes, ArenaEnd())
      ensures DataKept(old(blocks), old(mem[..]), mem[..])
    {
      hide Good, Headers, Find, Give, FirstFree, Tiles, DataKept, LfreeOk, Given, Calm, Adds, UsedSum, FreeAt;
      if bytes == 0 {
        SameData(blocks, mem[..]);
        return NULL;
      }
      var size := Words(bytes);
      if size > ArenaEnd() - HEADER {
        SameData(blocks, mem[..]);
        return NULL;
      }
      if size < MIN_ALIGNED {
        size := MIN_ALIGNED;
      }
      var ptr := FindFit(size);
      ghost var a, k := Abstract(), Find(blocks, lfree, ArenaEnd() - HEADER - size, size);
      if ptr == NULL {
        SameData(blocks, mem[..]);
        return NULL;
      }
      FindIs(blocks, lfree, ArenaEnd() - HEADER - size, size);
      MallocGood(a, bytes, ArenaEnd());
      Pieces(a);
      GiveTiles(blocks, k, size, ArenaEnd());
      GivenGood(blocks[k], size);
      var taken := GiveBlock(ptr, size, k);
      blocks := Give(blocks, k, size);
      usedMem := usedMem + taken;
      if maxMem < usedMem {
        maxMem := usedMem;
      }
      if ptr == lfree {
        AdvanceLfree(k);
      }
      p := ptr + HEADER;
    }

    lemma Pieces(a: Arena)
      requires Good(a, ArenaEnd())
      ensures Tiles(a.blocks, 0, ArenaEnd()) && Calm(a.blocks) && LfreeOk(a.blocks, a.lfree, ArenaEnd())
    {
    }

    lemma SameData(q: Blocks, m: seq<int>)
      ensures DataKept(q, m, m)
    {
    }

    /** The search loop of rt_malloc. */
    method FindFit(size: int) returns (ptr: int)
      requires Valid() && size >= 0
      ensures var k := Find(blocks, lfree, ArenaEnd() - HEADER - size, size);
              if k < |blocks| then ptr == blocks[k].at && ptr >= 0 else ptr == NULL
    {
      hide Headers, Tiles, Find, Calm;
      var limit := ArenaEnd() - HEADER - size;
      ptr := lfree;
      ghost var k := StartAt();
      while ptr < limit
        invariant k <= |blocks| && (if k < |blocks| then ptr == blocks[k].at && ptr >= 0 else ptr == ArenaEnd())
        invariant lfree <= ptr && forall j :: 0 <= j < k ==> !Fits(blocks[j], lfree, limit, size)
        decreases |blocks| - k
      {
        HeaderAt(blocks, k, ArenaEnd(), mem[..]);
        if mem[ptr] == 0 && mem[ptr + 1] - (ptr + HEADER) >= size {
          forall j | 0 <= j < k ensures blocks[j].at < limit { Order(blocks, j, k, ArenaEnd()); }
          FindAt(blocks, k, lfree, limit, size);
          return;
        }
        ptr := mem[ptr + 1];
        k := k + 1;
        if k < |blocks| { HeaderAt(blocks, k, ArenaEnd(), mem[..]); }
      }
      forall j | k <= j < |blocks| ensures blocks[j].at >= limit {
        if k < j { Order(blocks, k, j, ArenaEnd()); }
      }
      FindNone(blocks, lfree, limit, size);
      ptr := NULL;
    }

    /** The block the search starts at; nothing below it is free at lfree. */
    ghost method StartAt() returns (k: nat)
      requires Valid()
      ensures k <= |blocks| && (if k < |blocks| then lfree == blocks[k].at && lfree >= 0 else lfree == ArenaEnd())
      ensures forall j :: 0 <= j < k ==> blocks[j].at < lfree
    {
      hide Headers, Tiles, Calm;
      Bounds(blocks, 0, ArenaEnd());
      if lfree == ArenaEnd() {
        k := |blocks|;
        forall j | 0 <= j < k ensures blocks[j].at < lfree { assert blocks[j] in blocks; }
      } else {
        var b :| b in blocks && b.at == lfree && !b.used;
        k :| 0 <= k < |blocks| && blocks[k] == b;
        forall j | 0 <= j < k ensures blocks[j].at < lfree { Order(blocks, j, k, ArenaEnd()); }
      }
    }

    /** The block found becomes a used one, cut if there is room for another. */
    method GiveBlock(ptr: int, size: int, ghost k: nat) returns (taken: int)
      requires Sentinel() && Headers(blocks, 0, mem[..]) && Tiles(blocks, 0, ArenaEnd())
      requires k < |blocks| && ptr == blocks[k].at && !blocks[k].used && blocks[k].len - HEADER >= size >= MIN_ALIGNED
      modifies mem
      ensures Sentinel() && Headers(Give(blocks, k, size), 0, mem[..])
      ensures k < |Give(blocks, k, size)| && taken == Give(blocks, k, size)[k].len
      ensures DataKept(blocks, old(mem[..]), mem[..])
    {
      hide Headers, Tiles, Give, Given, DataKept;
      ghost var mem0 := mem[..];
      HeaderAt(blocks, k, ArenaEnd(), mem0);
      if mem[ptr + 1] - (ptr + HEADER) >= size + HEADER + MIN_ALIGNED {
        CutHeaders(blocks, k, size, ArenaEnd(), mem0);
        var ptr2 := CutAfter(ptr, size, blocks[k]);
        mem[ptr] := 1;
        taken := size + HEADER;
      } else {
        WholeHeaders(blocks, k, size, ArenaEnd(), mem0);
        mem[ptr] := 1;
        taken := mem[ptr + 1] - ptr;
        assert mem[..] == mem0[ptr := 1];
      }
    }

    /** lfree moves on to the next free block, or to the end. */
    method AdvanceLfree(ghost k: nat)
      requires Sentinel() && Headers(blocks, 0, mem[..]) && Tiles(blocks, 0, ArenaEnd()) && k < |blocks| && lfree == blocks[k].at
      modifies this`lfree
      ensures lfree == FirstFree(blocks, old(lfree), ArenaEnd())
    {
      hide Headers, Tiles, FirstFree;
      ghost var j := k;
      HeaderAt(blocks, k, ArenaEnd(), mem[..]);
      while mem[lfree] != 0 && lfree != ArenaEnd()
        invariant k <= j <= |blocks| && 0 <= lfree <= ArenaEnd() && lfree == (if j < |blocks| then blocks[j].at else ArenaEnd())
        invariant forall i :: k <= i < j ==> blocks[i].used
        decreases |blocks| - j
      {
        HeaderAt(blocks, j, ArenaEnd(), mem[..]);
        lfree := mem[lfree + 1];
        j := j + 1;
        if j < |blocks| { HeaderAt(blocks, j, ArenaEnd(), mem[..]); }
      }
      if j < |blocks| { HeaderAt(blocks, j, ArenaEnd(), mem[..]); }
      FirstFreeWalk(blocks, k, j, ArenaEnd());
    }

    /** rt_free: of NULL, of a pointer outside the arena, or of a used block. */
    method FreeMem(p: int, ghost i: nat)
      requires Valid()
      requires p == NULL || p < 0 || p >= ArenaEnd() || (i < |blocks| && blocks[i].used && p == blocks[i].at + HEADER)
      modifies this, mem
      ensures Valid()
      ensures Abstract() == if p == NULL || p < 0 || p >= ArenaEnd() then old(Abstract()) else SmallMemPicture.Free(old(Abstract()), i)
      ensures DataKept(blocks, old(mem[..]), mem[..])
    {
      hide Good, Headers, Tiles, Calm, DataKept, Hole, Plug;
      if p == NULL || p < 0 || p >= ArenaEnd() {
        SameData(blocks, mem[..]);
        return;
      }
      var m := p - HEADER;
      ghost var a, q, mem0 := Abstract(), blocks, mem[..];
      Pieces(a);
      FreeGood(a, i, ArenaEnd());
      ReleaseGood(q, i, ArenaEnd());
      HeaderAt(q, i, ArenaEnd(), mem0);
      ghost var r := q[i := q[i].(used := false)];
      FlagHeaders(q, i, false, ArenaEnd(), mem0);
      mem[m] := 0;
      if m < lfree {
        lfree := m;
      }
      usedMem := usedMem - (mem[m + 1] - m);
      ghost var mem1 := mem[..];
      blocks := PlugHoles(m, r, i);
      KeptOn(r, blocks, q, mem0, mem1, mem[..]) by { PlugGood(r, if m < a.lfree then m else a.lfree, i, ArenaEnd()); }
    }

    /** What is used in the end was used all along. */
    lemma KeptOn(r: Blocks, s: Blocks, q: Blocks, m0: seq<int>, m1: seq<int>, m2: seq<int>)
      requires DataKept(r, m0, m1) && DataKept(r, m1, m2)
      requires forall c :: c in s && c.used ==> c in r
      ensures DataKept(s, m0, m2)
    {
    }

    /** rt_realloc of NULL, of a pointer outside the arena, or of a used block.
        The words both blocks have are carried over, and no other used block
        loses any. */
    method ReallocMem(p: int, bytes: nat, ghost i: nat) returns (n: int)
      requires Valid()
      requires p == NULL || p < 0 || p >= ArenaEnd() || (i < |blocks| && blocks[i].used && p == blocks[i].at + HEADER)
      modifies this, mem
      ensures Valid()
      ensures 0 <= p < ArenaEnd() ==>
                (if n == NULL then None else Some(n - HEADER), Abstract()) == Realloc(old(Abstract()), Some(p - HEADER), bytes, ArenaEnd())
      ensures p == NULL ==>
                (if n == NULL then None else Some(n - HEADER), Abstract()) == Realloc(old(Abstract()), None, bytes, ArenaEnd())
      ensures p != NULL && !(0 <= p < ArenaEnd()) ==> Abstract() == old(Abstract()) && n == if Words(bytes) > ArenaEnd() - HEADER then NULL else p
      ensures 0 <= p < ArenaEnd() && n != NULL ==>
                Copied(n, p, Min(old(blocks)[i].len - HEADER, Words(bytes)), old(mem[..]), mem[..])
      ensures OthersKept(old(blocks), p - HEADER, old(mem[..]), mem[..])
    {
      hide Good, Headers, Tiles, Calm, DataKept, SmallMemPicture.Malloc, SmallMemPicture.Free, Shrink, IndexOf, OthersKept, Copied;
      ghost var a, q, mem0 := Abstract(), blocks, mem[..];
      SameOthers(q, p - HEADER, mem0);
      Pieces(a);
      var size := Words(bytes);
      if size > ArenaEnd() - HEADER {
        return NULL;
      }
      if p == NULL {
        n := Malloc(size * 4);
        KeptOthers(q, p - HEADER, mem0, mem[..]);
        return;
      }
      if p < 0 || p >= ArenaEnd() {
        return p;
      }
      var m := p - HEADER;
      HeaderAt(q, i, ArenaEnd(), mem0);
      IndexIs(q, i, ArenaEnd());
      var have := mem[m + 1] - m - HEADER;
      if have == size {
        SameCopied(p, size, mem0);
        return p;
      }
      if size + HEADER + MIN_SIZE < have {
        ShrinkInPlace(m, size, i);
        return p;
      }
      n := MoveTo(p, have, size, i);
    }

    /** The data go over to the new block and the old one is given up; `mem2`
        is what memory holds between the two. */
    method CarryOver(n: int, p: int, words: int, ghost source: Block, ghost target: Block) returns (ghost mem2: seq<int>)
      requires Valid() && source in blocks && target in blocks && source != target && source.used && target.used
      requires n == target.at + HEADER && p == source.at + HEADER && 0 <= p < ArenaEnd()
      requires 0 <= words <= source.len - HEADER && words <= target.len - HEADER
      modifies this, mem
      ensures Valid()
      ensures var j := IndexOf(old(blocks), p - HEADER);
              j < |old(blocks)| && Abstract() == SmallMemPicture.Free(old(Abstract()), j)
      ensures forall c :: c in blocks && c.used <==> c in old(blocks) && c.used && c != source
      ensures |mem2| == mem.Length && DataKept(blocks, mem2, mem[..])
      ensures forall x :: 0 <= x < mem.Length && !(n <= x < n + words) ==> mem2[x] == old(mem[x])
      ensures forall x :: n <= x < n + words && 0 <= x < mem.Length && 0 <= x - n + p < mem.Length ==> mem2[x] == old(mem[x - n + p])
    {
      hide Good, Headers, Tiles, Calm, DataKept, SmallMemPicture.Free, IndexOf;
      Pieces(Abstract());
      Disjoint(blocks, target, source, ArenaEnd());
      LiveIn(blocks, source, ArenaEnd());
      ghost var j, mem1 := IndexOf(blocks, p - HEADER), mem[..];
      FreeGood(Abstract(), j, ArenaEnd());
      Copy(n, p, words);
      mem2 := mem[..];
      DataWritten(blocks, target, ArenaEnd(), mem1, mem2);
      FreeMem(p, j);
    }

    /** The end of rt_realloc: a new block, the data copied, the old one freed. */
    method MoveTo(p: int, have: int, size: nat, ghost i: nat) returns (n: int)
      requires Valid() && i < |blocks| && blocks[i].used && p == blocks[i].at + HEADER && have == blocks[i].len - HEADER
      requires size == Words(size * 4) <= ArenaEnd() - HEADER && 0 <= p < ArenaEnd()
      modifies this, mem
      ensures Valid()
      ensures var (o, r) := SmallMemPicture.Malloc(old(Abstract()), size * 4, ArenaEnd());
              var j := IndexOf(r.blocks, p - HEADER);
              && (if n == NULL then None else Some(n - HEADER)) == o
              && Abstract() == if n == NULL || j == |r.blocks| then r else SmallMemPicture.Free(r, j)
      ensures n != NULL ==> Copied(n, p, Min(have, size), old(mem[..]), mem[..])
      ensures OthersKept(old(blocks), p - HEADER, old(mem[..]), mem[..])
    {
      hide Good, Headers, Tiles, Calm, DataKept, SmallMemPicture.Malloc, SmallMemPicture.Free, IndexOf, OthersKept, Copied, Adds;
      ghost var a, q, mem0 := Abstract(), blocks, mem[..];
      ghost var source := q[i];
      Pieces(a);
      HeaderAt(q, i, ArenaEnd(), mem0);
      MallocGood(a, size * 4, ArenaEnd());
      n := Malloc(size * 4);
      if n == NULL {
        KeptOthers(q, p - HEADER, mem0, mem[..]);
        return;
      }
      ghost var r, mem1 := blocks, mem[..];
      Pieces(Abstract());
      ghost var target := AddedBlock(q, r, n - HEADER, size);
      assert source in r && target != source;
      Disjoint(r, target, source, ArenaEnd());
      ghost var mem2 := CarryOver(n, p, if have < size then have else size, source, target);
      OnlyAt(q, i, ArenaEnd());
      MovedKept(q, r, blocks, source, target, Min(have, size), ArenaEnd(), mem0, mem1, mem2, mem[..]);
    }

    lemma {:induction false} OnlyAt(q: Blocks, i: nat, end: int)
      requires Tiles(q, 0, end) && i < |q|
      ensures forall c <- q :: c.at == q[i].at ==> c == q[i]
    {
      hide Tiles;
      forall c <- q | c != q[i] ensures c.at != q[i].at { Disjoint(q, c, q[i], end); }
    }

    /** rt_memcpy between two blocks. */
    method Copy(to: int, from: int, words: int)
      requires 0 <= to && 0 <= from && 0 <= words && to + words <= mem.Length && from + words <= mem.Length
      requires to + words <= from || from + words <= to
      modifies mem
      ensures forall x :: to <= x < to + words ==> mem[x] == old(mem[x - to + from])
      ensures forall x :: 0 <= x < mem.Length && !(to <= x < to + words) ==> mem[x] == old(mem[x])
    {
      var k := 0;
      while k < words
        invariant 0 <= k <= words
        invariant forall x :: to <= x < to + k ==> mem[x] == old(mem[x - to + from])
        invariant forall x :: 0 <= x < mem.Length && !(to <= x < to + k) ==> mem[x] == old(mem[x])
      {
        mem[to + k] := mem[from + k];
        k := k + 1;
      }
    }

    /** A free block made of what is behind `size` words of data. */
    method CutAfter(m: int, size: int, ghost b: Block) returns (ptr2: int)
      requires 0 <= m == b.at && 0 <= size && b.len - HEADER >= size + HEADER && b.at + b.len <= ArenaEnd() && mem[m + 1] == b.at + b.len
      modifies mem
      ensures ptr2 == m + HEADER + size && mem[..] == CutMem(b, size, ArenaEnd(), old(mem[..]))
    {
      ptr2 := m + HEADER + size;
      mem[ptr2] := 0;
      mem[ptr2 + 1] := mem[m + 1];
      mem[ptr2 + 2] := m;
      mem[m + 1] := ptr2;
      if mem[ptr2 + 1] != ArenaEnd() {
        mem[mem[ptr2 + 1] + 2] := ptr2;
      }
    }

    /** The branch of rt_realloc that gives back the end of a block. */
    method ShrinkInPlace(m: int, size: nat, ghost i: nat)
      requires Valid() && i < |blocks| && blocks[i].used && m == blocks[i].at
      requires size + HEADER + MIN_SIZE < blocks[i].len - HEADER
      modifies this, mem
      ensures Valid() && Abstract() == Shrink(old(Abstract()), i, size)
      ensures Copied(m + HEADER, m + HEADER, size, old(mem[..]), mem[..])
      ensures OthersKept(old(blocks), m, old(mem[..]), mem[..])
    {
      hide Good, Headers, Tiles, Calm, DataKept, Hole, Plug, OthersKept, Copied, Halves, Shrink, CutMem;
      hide LfreeOk, UsedSum, FirstFree, FreeAt;
      ghost var a, q, mem0 := Abstract(), blocks, mem[..];
      Pieces(a);
      HeaderAt(q, i, ArenaEnd(), mem0);
      ShrinkGood(a, i, size, ArenaEnd());
      ShrinkIs(a, i, size);
      HalvesGood(q, i, size, ArenaEnd());
      HalvesHeaders(q, i, size, ArenaEnd(), mem0);
      usedMem := usedMem - (mem[m + 1] - m - HEADER - size);
      var ptr2 := CutAfter(m, size, q[i]);
      ghost var r, mem1 := Halves(q, i, size), mem[..];
      blocks := PlugHoles(ptr2, r, i + 1);
      HalvesMembers(q, i, size, ArenaEnd());
      ShrunkKept(q, r, i, size, mem0, mem1, mem[..]);
    }

    /** Joining blocks writes no data of a used block. */
    lemma {:induction false} JoinData(q: Blocks, i: nat, end: int)
      requires Tiles(q, 0, end) && i + 1 < |q| && !q[i].used
      ensures forall c <- q :: c.used ==> !(c.at + HEADER <= q[i].at + 1 < c.at + c.len)
      ensures forall c <- q :: c.used ==> !(c.at + HEADER <= q[i + 1].at + q[i + 1].len + 2 < c.at + c.len)
      ensures q[i].at + 1 < end && (q[i + 1].at + q[i + 1].len + 2 < end || q[i + 1].at + q[i + 1].len == end)
    {
      hide Tiles;
      BlockAt(q, i, end);
      BlockAt(q, i + 1, end);
      Behind(q, i + 1, end);
      if i + 2 < |q| { Behind(q, i + 2, end); }
      NoData(q, i, end, q[i].at + 1);
      var x := q[i + 1].at + q[i + 1].len + 2;
      if i + 2 < |q| { BlockAt(q, i + 2, end); NoData(q, i + 2, end, x); } else { NoDataAbove(q, end, x); }
    }
  }
}
