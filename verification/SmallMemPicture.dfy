/**
  The small-memory heap on values (mem.c): blocks that tile the arena, a
  pointer near the lowest free one, and a running count of used memory.
  Addresses and lengths are in 4-byte words; a block includes its header.
*/
module SmallMemPicture {
  datatype Option<T> = None | Some(value: T)

  const HEADER := 4      // SIZEOF_STRUCT_MEM
  const MIN_ALIGNED := 4 // MIN_SIZE_ALIGNED
  const MIN_SIZE := 3    // MIN_SIZE, not aligned

  datatype Block = Block(at: int, len: int, used: bool)
  type Blocks = seq<Block>

  /** `lfree` is an address; `used` and `peak` are used_mem and max_mem. */
  datatype Arena = Arena(blocks: Blocks, lfree: int, used: int, peak: int)

  /** RT_ALIGN of a size in bytes to 8, in words. */
  function Words(bytes: nat): nat {
    (bytes + 7) / 8 * 2
  }

  // ---------- the picture ----------

  ghost predicate Tiles(q: Blocks, from: int, to: int) {
    if q == [] then from == to
    else q[0].at == from && q[0].len >= HEADER && Tiles(q[1..], from + q[0].len, to)
  }

  /** No two adjacent blocks are free. */
  ghost predicate Calm(q: Blocks) {
    |q| > 1 ==> (q[0].used || q[1].used) && Calm(q[1..])
  }

  function UsedSum(q: Blocks): int {
    if q == [] then 0 else (if q[0].used then q[0].len else 0) + UsedSum(q[1..])
  }

  /** The lowest free block from `from` on, or the end of the arena. */
  function FirstFree(q: Blocks, from: int, end: int): int {
    if q == [] then end
    else if q[0].at >= from && !q[0].used then q[0].at
    else FirstFree(q[1..], from, end)
  }

  ghost predicate FreeAt(q: Blocks, a: int) {
    exists b <- q :: b.at == a && !b.used
  }

  ghost predicate Good(a: Arena, end: int) {
    && Tiles(a.blocks, 0, end) && Calm(a.blocks)
    && (a.lfree == end || FreeAt(a.blocks, a.lfree))
    && a.used == UsedSum(a.blocks) <= a.peak
  }

  /** lfree is the lowest free block. */
  ghost predicate Lowest(a: Arena, end: int) {
    a.lfree == FirstFree(a.blocks, 0, end)
  }

  // ---------- the operations ----------

  /** The search of rt_malloc: the place of the first free block from `lfree`
      on, and below `limit`, with room for `size`; or |q|. */
  function Find(q: Blocks, lfree: int, limit: int, size: int): (k: nat)
    ensures k <= |q|
  {
    if q == [] then 0
    else if q[0].at >= limit then |q|
    else if q[0].at >= lfree && !q[0].used && q[0].len - HEADER >= size then 0
    else 1 + Find(q[1..], lfree, limit, size)
  }

  /** A block given to a caller who wants `size`: cut if the rest can hold a
      header and the least data. */
  function Given(b: Block, size: int): Blocks {
    if b.len - HEADER >= size + HEADER + MIN_ALIGNED then
      [Block(b.at, size + HEADER, true), Block(b.at + size + HEADER, b.len - size - HEADER, false)]
    else [b.(used := true)]
  }

  function Give(q: Blocks, i: nat, size: int): Blocks
    requires i < |q|
  {
    q[..i] + Given(q[i], size) + q[i + 1..]
  }

  function Max(a: int, b: int): int {
    if a < b then b else a
  }

  function Malloc(a: Arena, bytes: nat, end: int): (Option<int>, Arena) {
    var total := end - HEADER; // mem_size_aligned
    if bytes == 0 || Words(bytes) > total then (None, a) else
      var size := Max(Words(bytes), MIN_ALIGNED);
      var i := Find(a.blocks, a.lfree, total - size, size);
      if i == |a.blocks| then (None, a) else
        var b, q := a.blocks[i], Give(a.blocks, i, size);
        var used := a.used + q[i].len;
        (Some(b.at), Arena(q, if b.at == a.lfree then FirstFree(q, b.at, end) else a.lfree, used, Max(a.peak, used)))
  }

  /** Blocks `i` and `i + 1` as one free block. */
  function Join(q: Blocks, i: nat): Blocks
    requires i + 1 < |q|
  {
    q[..i] + [Block(q[i].at, q[i].len + q[i + 1].len, false)] + q[i + 2..]
  }

  /** plug_holes: a free block joined with the free blocks next to it. */
  function PlugForward(q: Blocks, lfree: int, i: nat): (Blocks, int)
    requires i < |q|
  {
    if i + 1 < |q| && !q[i + 1].used then (Join(q, i), if lfree == q[i + 1].at then q[i].at else lfree)
    else (q, lfree)
  }

  function PlugBackward(q: Blocks, lfree: int, i: nat): (Blocks, int)
    requires i < |q|
  {
    if i > 0 && !q[i - 1].used then (Join(q, i - 1), if lfree == q[i].at then q[i - 1].at else lfree)
    else (q, lfree)
  }

  function Plug(q: Blocks, lfree: int, i: nat): (Blocks, int)
    requires i < |q|
  {
    var (r, l) := PlugForward(q, lfree, i);
    PlugBackward(r, l, i)
  }

  /** rt_free of block `i`. */
  function Free(a: Arena, i: nat): Arena
    requires i < |a.blocks|
  {
    var b := a.blocks[i];
    var q := a.blocks[i := b.(used := false)];
    var (r, l) := Plug(q, if b.at < a.lfree then b.at else a.lfree, i);
    Arena(r, l, a.used - b.len, a.peak)
  }

  /** The branch of rt_realloc that shrinks block `i` in place. */
  function Shrink(a: Arena, i: nat, size: int): Arena
    requires i < |a.blocks|
  {
    var b := a.blocks[i];
    var q := a.blocks[..i] + [Block(b.at, size + HEADER, true), Block(b.at + size + HEADER, b.len - size - HEADER, false)] + a.blocks[i + 1..];
    var (r, l) := Plug(q, a.lfree, i + 1);
    Arena(r, l, a.used - (b.len - HEADER - size), a.peak)
  }

  function IndexOf(q: Blocks, at: int): (i: nat)
    ensures i <= |q|
    ensures i < |q| ==> q[i].at == at
  {
    if q == [] || q[0].at == at then 0 else 1 + IndexOf(q[1..], at)
  }

  predicate Live(a: Arena, at: int) {
    var i := IndexOf(a.blocks, at); i < |a.blocks| && a.blocks[i].used
  }

  /** rt_realloc of a live block, or of the null pointer. */
  function Realloc(a: Arena, at: Option<int>, bytes: nat, end: int): (Option<int>, Arena) {
    var size := Words(bytes);
    if size > end - HEADER then (None, a)
    else if at == None then Malloc(a, size * 4, end)
    else if !Live(a, at.value) then (at, a)
    else
      var i := IndexOf(a.blocks, at.value);
      var have := a.blocks[i].len - HEADER;
      if have == size then (at, a)
      else if size + HEADER + MIN_SIZE < have then (at, Shrink(a, i, size))
      else
        var (p, r) := Malloc(a, size * 4, end);
        var j := IndexOf(r.blocks, at.value);
        if p == None || j == |r.blocks| then (p, r) else (p, Free(r, j))
  }

  // ---------- taking lists apart ----------

  function End(q: Blocks, from: int): int {
    if q == [] then from else q[|q| - 1].at + q[|q| - 1].len
  }

  lemma {:induction false} TilesConcat(a: Blocks, b: Blocks, from: int, to: int)
    ensures Tiles(a + b, from, to) <==> Tiles(a, from, End(a, from)) && Tiles(b, End(a, from), to)
  {
    if a == [] {
      assert a + b == b;
    } else {
      assert (a + b)[1..] == a[1..] + b;
      TilesConcat(a[1..], b, from + a[0].len, to);
    }
  }

  lemma {:induction false} CalmConcat(a: Blocks, b: Blocks)
    ensures Calm(a + b) <==> Calm(a) && Calm(b) && (a == [] || b == [] || a[|a| - 1].used || b[0].used)
  {
    if a == [] {
      assert a + b == b;
    } else {
      assert (a + b)[1..] == a[1..] + b;
      CalmConcat(a[1..], b);
    }
  }

  lemma {:induction false} SumConcat(a: Blocks, b: Blocks)
    ensures UsedSum(a + b) == UsedSum(a) + UsedSum(b)
  {
    if a == [] {
      assert a + b == b;
    } else {
      assert (a + b)[1..] == a[1..] + b;
      SumConcat(a[1..], b);
    }
  }

  lemma {:induction false} FirstFreeConcat(a: Blocks, b: Blocks, from: int, end: int)
    ensures FirstFree(a + b, from, end) == FirstFree(a, from, FirstFree(b, from, end))
  {
    if a == [] {
      assert a + b == b;
    } else {
      assert (a + b)[1..] == a[1..] + b;
      FirstFreeConcat(a[1..], b, from, end);
    }
  }

  lemma {:induction false} Bounds(q: Blocks, from: int, to: int)
    requires Tiles(q, from, to)
    ensures from <= to && End(q, from) == to
    ensures forall b <- q :: from <= b.at && b.at + b.len <= to && b.len >= HEADER
  {
    if q != [] {
      Bounds(q[1..], from + q[0].len, to);
      assert q == [q[0]] + q[1..];
    }
  }

  /** Everything the picture says, in terms of a cut at place `i`. */
  lemma {:induction false} Parts(q: Blocks, i: nat, j: nat, end: int)
    requires Tiles(q, 0, end) && i <= j <= |q|
    ensures q == q[..i] + (q[i..j] + q[j..])
    ensures Tiles(q[..i], 0, End(q[..i], 0)) && Tiles(q[i..j], End(q[..i], 0), End(q[i..j], End(q[..i], 0)))
    ensures Tiles(q[j..], End(q[i..j], End(q[..i], 0)), end)
  {
    assert q == q[..i] + (q[i..j] + q[j..]);
    TilesConcat(q[..i], q[i..j] + q[j..], 0, end);
    TilesConcat(q[i..j], q[j..], End(q[..i], 0), end);
  }

  /** `m` between `a` and `b` replaced by `n`, which covers the same span. */
  lemma {:induction false} Replace(a: Blocks, m: Blocks, n: Blocks, b: Blocks, end: int)
    requires Tiles(a + (m + b), 0, end) && Tiles(n, End(a, 0), End(m, End(a, 0)))
    ensures Tiles(a + (n + b), 0, end)
    ensures UsedSum(a + (n + b)) == UsedSum(a + (m + b)) - UsedSum(m) + UsedSum(n)
    ensures m != [] && n != [] ==>
              (Calm(a + (n + b)) <==> Calm(a) && Calm(n) && Calm(b)
                                      && (a == [] || a[|a| - 1].used || n[0].used) && (b == [] || n[|n| - 1].used || b[0].used))
  {
    TilesConcat(a, m + b, 0, end);
    TilesConcat(m, b, End(a, 0), end);
    TilesConcat(a, n + b, 0, end);
    TilesConcat(n, b, End(a, 0), end);
    Bounds(n, End(a, 0), End(m, End(a, 0)));
    SumConcat(a, m + b);
    SumConcat(m, b);
    SumConcat(a, n + b);
    SumConcat(n, b);
    CalmConcat(a, n + b);
    CalmConcat(n, b);
    if n != [] { assert (n + b)[0] == n[0]; }
  }

  lemma {:induction false} CalmParts(a: Blocks, m: Blocks, b: Blocks)
    requires Calm(a + (m + b)) && m != []
    ensures Calm(a) && Calm(m) && Calm(b)
    ensures (a == [] || a[|a| - 1].used || m[0].used) && (b == [] || m[|m| - 1].used || b[0].used)
  {
    CalmConcat(a, m + b);
    CalmConcat(m, b);
    assert (m + b)[0] == m[0];
  }

  lemma {:induction false} Three(q: Blocks, i: nat, j: nat)
    requires i <= j <= |q|
    ensures q == q[..i] + (q[i..j] + q[j..])
  {
  }

  // ---------- plugging holes ----------

  lemma {:induction false} TwoTile(x: Block, y: Block)
    requires x.len >= HEADER && y.len >= HEADER && y.at == x.at + x.len
    ensures Tiles([x, y], x.at, y.at + y.len) && UsedSum([x, y]) == (if x.used then x.len else 0) + (if y.used then y.len else 0)
    ensures Calm([x, y]) <==> x.used || y.used
  {
    assert [x, y][1..] == [y] && [y][1..] == [];
    assert Tiles([], y.at + y.len, y.at + y.len) && UsedSum([]) == 0;
    assert Tiles([y], y.at, y.at + y.len) && UsedSum([y]) == (if y.used then y.len else 0);
    assert Calm([y]);
  }

  lemma {:induction false} OneTile(x: Block)
    requires x.len >= HEADER
    ensures Tiles([x], x.at, x.at + x.len) && Calm([x]) && UsedSum([x]) == if x.used then x.len else 0
  {
    assert [x][1..] == [];
    assert Tiles([], x.at + x.len, x.at + x.len) && UsedSum([]) == 0;
  }

  lemma {:induction false} BlockAt(q: Blocks, i: nat, end: int)
    requires Tiles(q, 0, end) && i < |q|
    ensures q[i].at == End(q[..i], 0) && q[i].len >= HEADER
    ensures i + 1 < |q| ==> q[i + 1].at == q[i].at + q[i].len && q[i + 1].len >= HEADER
    ensures i + 1 == |q| ==> q[i].at + q[i].len == end
  {
    Parts(q, i, i + 1, end);
    assert q[i..i + 1] == [q[i]];
    if i + 1 < |q| { assert q[i + 1..][0] == q[i + 1]; }
  }

  lemma {:induction false} JoinGood(q: Blocks, i: nat, end: int)
    requires Tiles(q, 0, end) && i + 1 < |q| && !q[i].used && !q[i + 1].used
    ensures Tiles(Join(q, i), 0, end) && UsedSum(Join(q, i)) == UsedSum(q)
    ensures FirstFree(Join(q, i), 0, end) == FirstFree(q, 0, end)
    ensures forall a :: FreeAt(q, a) && a != q[i + 1].at ==> FreeAt(Join(q, i), a)
    ensures FreeAt(Join(q, i), q[i].at)
    ensures forall b :: b in Join(q, i) && b.used <==> b in q && b.used
  {
    BlockAt(q, i, end);
    var x, y, m := q[i], q[i + 1], Block(q[i].at, q[i].len + q[i + 1].len, false);
    var a, b := q[..i], q[i + 2..];
    Three(q, i, i + 2);
    assert q[i..i + 2] == [x, y];
    TwoTile(x, y);
    OneTile(m);
    BlockAt(q, i + 1, end);
    assert End([x, y], End(a, 0)) == y.at + y.len;
    Replace(a, [x, y], [m], b, end);
    assert Join(q, i) == a + ([m] + b);
    FirstFreeConcat(a, [x, y] + b, 0, end);
    FirstFreeConcat(a, [m] + b, 0, end);
    Bounds(q, 0, end);
    assert ([x, y] + b)[0] == x && ([m] + b)[0] == m;
    assert m in Join(q, i);
    forall c | c in q ensures c in a || c == x || c == y || c in b {
      assert c in a + ([x, y] + b);
    }
    assert forall c :: c in Join(q, i) <==> c in a || c == m || c in b;
    assert x in q && y in q && forall c <- a + b :: c in q;
  }

  /** A free block that may touch free ones on either side. */
  ghost predicate Hole(q: Blocks, i: nat, end: int) {
    i < |q| && Tiles(q, 0, end) && !q[i].used && Calm(q[..i]) && Calm(q[i + 1..])
  }

  ghost predicate LfreeOk(q: Blocks, lfree: int, end: int) {
    lfree == end || FreeAt(q, lfree)
  }

  lemma {:induction false} ForwardGood(q: Blocks, lfree: int, i: nat, end: int)
    requires Hole(q, i, end)
    ensures var (r, l) := PlugForward(q, lfree, i);
            && i < |r| && Hole(r, i, end) && r[..i] == q[..i] && r[i].at == q[i].at && (i + 1 < |r| ==> r[i + 1].used)
            && UsedSum(r) == UsedSum(q) && FirstFree(r, 0, end) == FirstFree(q, 0, end)
            && (LfreeOk(q, lfree, end) ==> LfreeOk(r, l, end))
            && (lfree == FirstFree(q, 0, end) ==> l == lfree)
            && (forall b :: b in r && b.used <==> b in q && b.used)
  {
    hide Tiles, Calm, UsedSum, FirstFree, FreeAt, Join;
    if i + 1 < |q| && !q[i + 1].used {
      BlockAt(q, i, end);
      JoinGood(q, i, end);
      JoinShape(q, i);
      CalmTail(q, i + 1);
      LowestNot(q, i, end);
    }
  }

  lemma {:induction false} JoinShape(q: Blocks, i: nat)
    requires i + 1 < |q|
    ensures var r := Join(q, i);
            && |r| == |q| - 1 && r[..i] == q[..i] && r[i + 1..] == q[i + 2..]
            && r[i] == Block(q[i].at, q[i].len + q[i + 1].len, false) && (i + 2 < |q| ==> r[i + 1] == q[i + 2])
  {
  }

  lemma {:induction false} CalmTail(q: Blocks, i: nat)
    requires i < |q| && Calm(q[i..]) && !q[i].used
    ensures Calm(q[i + 1..]) && (i + 1 < |q| ==> q[i + 1].used)
  {
    assert q[i..][1..] == q[i + 1..];
    if i + 1 < |q| { assert q[i..][1] == q[i + 1]; } else { assert q[i + 1..] == []; }
  }

  /** A free block behind another is not the lowest. */
  lemma {:induction false} LowestNot(q: Blocks, i: nat, end: int)
    requires Tiles(q, 0, end) && i + 1 < |q| && !q[i].used
    ensures FirstFree(q, 0, end) != q[i + 1].at
  {
    Three(q, i, i + 1);
    assert q[i..i + 1] == [q[i]];
    FirstFreeConcat(q[..i], [q[i]] + q[i + 1..], 0, end);
    Bounds(q, 0, end);
    BlockAt(q, i, end);
    assert ([q[i]] + q[i + 1..])[0] == q[i];
    Parts(q, i, i, end);
    Bounds(q[..i], 0, q[i].at);
    FirstFreeBelow(q[..i], 0, q[i].at);
  }

  lemma {:induction false} FirstFreeBelow(q: Blocks, from: int, end: int)
    requires forall b <- q :: b.at < end
    ensures FirstFree(q, from, end) <= end
  {
    if q != [] {
      assert forall b <- q[1..] :: b in q;
      FirstFreeBelow(q[1..], from, end);
    }
  }

  lemma {:induction false} BackwardGood(q: Blocks, lfree: int, i: nat, end: int)
    requires Hole(q, i, end) && (i + 1 < |q| ==> q[i + 1].used)
    ensures var (r, l) := PlugBackward(q, lfree, i);
            && Tiles(r, 0, end) && Calm(r)
            && UsedSum(r) == UsedSum(q) && FirstFree(r, 0, end) == FirstFree(q, 0, end)
            && (LfreeOk(q, lfree, end) ==> LfreeOk(r, l, end))
            && (lfree == FirstFree(q, 0, end) ==> l == lfree)
            && (forall b :: b in r && b.used <==> b in q && b.used)
  {
    hide Tiles, Calm, UsedSum, FirstFree, FreeAt, Join;
    if i > 0 && !q[i - 1].used {
      BlockAt(q, i - 1, end);
      JoinGood(q, i - 1, end);
      JoinShape(q, i - 1);
      LowestNot(q, i - 1, end);
      CalmHead(q, i);
      CalmAround(Join(q, i - 1), i - 1);
    } else {
      CalmAround(q, i);
    }
  }

  lemma {:induction false} CalmHead(q: Blocks, i: nat)
    requires 0 < i <= |q| && Calm(q[..i]) && !q[i - 1].used
    ensures Calm(q[..i - 1]) && (i > 1 ==> q[i - 2].used)
  {
    assert q[..i] == q[..i - 1] + [q[i - 1]];
    CalmConcat(q[..i - 1], [q[i - 1]]);
  }

  lemma {:induction false} CalmAround(q: Blocks, i: nat)
    requires i < |q| && Calm(q[..i]) && Calm(q[i + 1..])
    requires (i > 0 ==> q[i - 1].used) && (i + 1 < |q| ==> q[i + 1].used)
    ensures Calm(q)
  {
    var a, b := q[..i], q[i + 1..];
    assert q == a + ([q[i]] + b);
    assert Calm([q[i]]);
    CalmConcat(a, [q[i]] + b);
    CalmConcat([q[i]], b);
  }

  lemma {:induction false} PlugGood(q: Blocks, lfree: int, i: nat, end: int)
    requires Hole(q, i, end)
    ensures var (r, l) := Plug(q, lfree, i);
            && Tiles(r, 0, end) && Calm(r)
            && UsedSum(r) == UsedSum(q) && FirstFree(r, 0, end) == FirstFree(q, 0, end)
            && (LfreeOk(q, lfree, end) ==> LfreeOk(r, l, end))
            && (lfree == FirstFree(q, 0, end) ==> l == lfree)
            && (forall b :: b in r && b.used <==> b in q && b.used)
  {
    hide LfreeOk, FirstFree, PlugForward, PlugBackward, Tiles, Calm, UsedSum;
    ForwardGood(q, lfree, i, end);
    var (r, l) := PlugForward(q, lfree, i);
    BackwardGood(r, l, i, end);
  }

  // ---------- every operation keeps the picture ----------

  lemma {:induction false} GiveTiles(q: Blocks, i: nat, size: int, end: int)
    requires Tiles(q, 0, end) && Calm(q) && i < |q| && !q[i].used && q[i].len - HEADER >= size >= 0
    ensures var r := Give(q, i, size);
            && Tiles(r, 0, end) && Calm(r) && i < |r| && r[i] == Given(q[i], size)[0]
            && UsedSum(r) == UsedSum(q) + r[i].len
  {
    hide Tiles, Calm, UsedSum, Given;
    BlockAt(q, i, end);
    var a, b, n := q[..i], q[i + 1..], Given(q[i], size);
    Three(q, i, i + 1);
    assert q[i..i + 1] == [q[i]];
    CalmParts(a, [q[i]], b);
    GivenGood(q[i], size);
    assert End([q[i]], End(a, 0)) == q[i].at + q[i].len;
    Replace(a, [q[i]], n, b, end);
    OneTile(q[i]);
    assert Give(q, i, size) == a + (n + b);
  }

  /** The used blocks are the old ones and the new one, and no free block but
      the one given is lost. */
  lemma {:induction false} GiveMembers(q: Blocks, i: nat, size: int)
    requires i < |q| && !q[i].used && q[i].len - HEADER >= size >= 0
    ensures var r := Give(q, i, size);
            && i < |r|
            && (forall b :: b in r && b.used <==> b == r[i] || (b in q && b.used))
            && (forall a :: FreeAt(q, a) && a != q[i].at ==> FreeAt(r, a))
  {
    hide Given;
    var a, b, n, r := q[..i], q[i + 1..], Given(q[i], size), Give(q, i, size);
    GivenGood(q[i], size);
    forall c | c in q ensures c in a || c == q[i] || c in b {
      var k :| 0 <= k < |q| && q[k] == c;
      if k < i { assert c == a[k]; }
      if k > i { assert c == b[k - i - 1]; }
    }
    assert forall c :: c in r <==> c in a || c in n || c in b;
    assert forall c :: c in n && c.used <==> c == n[0];
  }

  lemma {:induction false} GiveLowest(q: Blocks, i: nat, size: int, end: int)
    requires Tiles(q, 0, end) && i < |q| && !q[i].used && q[i].len - HEADER >= size >= 0
    ensures var r := Give(q, i, size);
            && (FirstFree(q, 0, end) != q[i].at ==> FirstFree(r, 0, end) == FirstFree(q, 0, end))
            && (FirstFree(q, 0, end) == q[i].at ==> FirstFree(r, 0, end) == FirstFree(r, q[i].at, end))
  {
    hide Tiles, FirstFree, Given;
    var a, b, n, x := q[..i], q[i + 1..], Given(q[i], size), q[i].at;
    CutAt(q, i, end);
    GivenGood(q[i], size);
    Bounds(n, x, x + q[i].len);
    assert Give(q, i, size) == a + (n + b);
    FreeSplit(a, x, [q[i]] + b, end);
    FreeSplit(a, x, n + b, end);
    HeadFree(q[i], b, end);
  }

  /** What is in front of a block lies below it, what is behind above. */
  lemma {:induction false} CutAt(q: Blocks, i: nat, end: int)
    requires Tiles(q, 0, end) && i < |q|
    ensures q == q[..i] + ([q[i]] + q[i + 1..]) && q[i].at >= 0
    ensures forall b <- q[..i] :: b.at < q[i].at
    ensures forall c <- q[i + 1..] :: c.at >= q[i].at
  {
    hide Tiles;
    Bounds(q, 0, end);
    assert q[i] in q;
    forall b <- q[..i] ensures b.at < q[i].at {
      var k :| 0 <= k < i && q[k] == b;
      Order(q, k, i, end);
    }
    forall c <- q[i + 1..] ensures c.at >= q[i].at {
      var k :| 0 <= k < |q| - i - 1 && q[i + 1..][k] == c;
      Order(q, i, i + 1 + k, end);
    }
  }

  lemma {:induction false} HeadFree(x: Block, b: Blocks, end: int)
    requires !x.used && x.at >= 0
    ensures FirstFree([x] + b, 0, end) == x.at
  {
    assert ([x] + b)[0] == x;
  }

  /** The lowest free block is in front of `x` or is the lowest from `x` on. */
  lemma {:induction false} FreeSplit(a: Blocks, x: int, rest: Blocks, end: int)
    requires x >= 0 && (forall b <- a :: b.at < x) && (forall c <- rest :: c.at >= x)
    ensures FirstFree(a, 0, x) <= x
    ensures FirstFree(a, 0, x) < x ==> FirstFree(a + rest, 0, end) == FirstFree(a, 0, x)
    ensures FirstFree(a, 0, x) == x ==> FirstFree(a + rest, 0, end) == FirstFree(rest, 0, end)
    ensures FirstFree(a + rest, x, end) == FirstFree(rest, 0, end)
  {
    hide FirstFree;
    FirstFreeConcat(a, rest, 0, end);
    FirstFreeConcat(a, rest, x, end);
    FirstFreeBelow(a, 0, x);
    FirstFreeRange(a, 0, x, FirstFree(rest, 0, end));
    FirstFreeSkips(a, x, FirstFree(rest, x, end));
    SameFrom(rest, x, end);
  }

  lemma {:induction false} SameFrom(q: Blocks, from: int, y: int)
    requires from >= 0 && forall b <- q :: b.at >= from
    ensures FirstFree(q, from, y) == FirstFree(q, 0, y)
  {
    if q != [] {
      assert q[0] in q && forall b <- q[1..] :: b in q;
      SameFrom(q[1..], from, y);
    }
  }

  lemma {:induction false} FirstFreeIs(q: Blocks, from: int, end: int)
    ensures LfreeOk(q, FirstFree(q, from, end), end)
  {
    if q != [] {
      FirstFreeIs(q[1..], from, end);
      assert q[0] in q && forall b <- q[1..] :: b in q;
    }
  }

  lemma {:induction false} FirstFreeSkips(q: Blocks, from: int, y: int)
    requires forall b <- q :: b.at < from
    ensures FirstFree(q, from, y) == y
  {
    if q != [] {
      assert q[0] in q && forall b <- q[1..] :: b in q;
      FirstFreeSkips(q[1..], from, y);
    }
  }

  /** A search that stops in `q` does not depend on what follows. */
  lemma {:induction false} FirstFreeRange(q: Blocks, from: int, x: int, y: int)
    requires forall b <- q :: b.at < x
    ensures FirstFree(q, from, x) < x ==> FirstFree(q, from, y) == FirstFree(q, from, x)
    ensures FirstFree(q, from, x) >= x ==> FirstFree(q, from, y) == y
  {
    if q != [] {
      assert forall b <- q[1..] :: b in q;
      FirstFreeRange(q[1..], from, x, y);
    }
  }

  lemma {:induction false} GivenGood(b: Block, size: int)
    requires b.len - HEADER >= size >= 0
    ensures var n := Given(b, size);
            && n != [] && Tiles(n, b.at, b.at + b.len) && Calm(n) && n[0].used && UsedSum(n) == n[0].len
            && n[0].at == b.at && n[0].len >= size + HEADER
            && (|n| == 1 || (|n| == 2 && !n[1].used))
  {
    if b.len - HEADER >= size + HEADER + MIN_ALIGNED {
      TwoTile(Block(b.at, size + HEADER, true), Block(b.at + size + HEADER, b.len - size - HEADER, false));
    } else {
      OneTile(b.(used := true));
    }
  }

  lemma {:induction false} FindIs(q: Blocks, lfree: int, limit: int, size: int)
    ensures var k := Find(q, lfree, limit, size);
            k < |q| ==> lfree <= q[k].at < limit && !q[k].used && q[k].len - HEADER >= size
  {
    if q != [] && q[0].at < limit { FindIs(q[1..], lfree, limit, size); }
  }

  /** A used block at a free block's address is new. */
  lemma {:induction false} Distinct(q: Blocks, i: nat, b: Block, end: int)
    requires Tiles(q, 0, end) && i < |q| && !q[i].used && b.used && b.at == q[i].at
    ensures b !in q
  {
    forall k | 0 <= k < |q| ensures q[k] != b {
      if k < i { Order(q, k, i, end); }
      if i < k { Order(q, i, k, end); }
    }
  }

  lemma {:induction false} Order(q: Blocks, i: nat, j: nat, end: int)
    requires Tiles(q, 0, end) && i < j < |q|
    ensures q[i].len >= HEADER && q[i].at + q[i].len <= q[j].at
    decreases j - i
  {
    BlockAt(q, i, end);
    if i + 1 < j { Order(q, i + 1, j, end); }
  }

  /** The new block among the old used ones. */
  ghost predicate Adds(was: Blocks, q: Blocks, at: int, words: int) {
    exists b <- q ::
      && b.at == at && b.used && b.len - HEADER >= words && b !in was
      && forall c :: c in q && c.used <==> c == b || (c in was && c.used)
  }

  /** rt_malloc keeps the picture, adds one used block that is large enough and
      takes nothing from any other, and keeps lfree the lowest free block if it
      was. */
  lemma {:induction false} MallocGood(a: Arena, bytes: nat, end: int)
    requires Good(a, end)
    ensures var (p, r) := Malloc(a, bytes, end);
            && Good(r, end)
            && (Lowest(a, end) ==> Lowest(r, end))
            && (p == None ==> r == a)
            && (p.Some? ==> Adds(a.blocks, r.blocks, p.value, Words(bytes)))
  {
    hide Tiles, Calm, UsedSum, FirstFree, Find, Give, FreeAt;
    var total := end - HEADER;
    if bytes != 0 && Words(bytes) <= total {
      var size := Max(Words(bytes), MIN_ALIGNED);
      var i := Find(a.blocks, a.lfree, total - size, size);
      FindIs(a.blocks, a.lfree, total - size, size);
      if i < |a.blocks| {
        var q, r := a.blocks, Give(a.blocks, i, size);
        GiveTiles(q, i, size, end);
        GiveMembers(q, i, size);
        GiveLowest(q, i, size, end);
        GivenGood(q[i], size);
        FirstFreeIs(r, q[i].at, end);
        Distinct(q, i, r[i], end);
        assert r[i] in r;
      }
    }
  }

  /** Block `i` marked free, before any hole is plugged. */
  lemma {:induction false} ReleaseGood(q: Blocks, i: nat, end: int)
    requires Tiles(q, 0, end) && Calm(q) && i < |q| && q[i].used
    ensures var r := q[i := q[i].(used := false)];
            && Hole(r, i, end) && UsedSum(r) == UsedSum(q) - q[i].len
            && FirstFree(r, 0, end) == (if q[i].at < FirstFree(q, 0, end) then q[i].at else FirstFree(q, 0, end))
  {
    hide Tiles, Calm, UsedSum, FirstFree;
    var a, b, x, y := q[..i], q[i + 1..], q[i], q[i].(used := false);
    var r := q[i := y];
    CutAt(q, i, end);
    BlockAt(q, i, end);
    CalmParts(a, [x], b);
    assert r == a + ([y] + b) && r[..i] == a && r[i + 1..] == b;
    OneTile(x);
    OneTile(y);
    assert End([x], End(a, 0)) == x.at + x.len;
    Replace(a, [x], [y], b, end);
    FreeSplit(a, x.at, [x] + b, end);
    FreeSplit(a, x.at, [y] + b, end);
    HeadFree(y, b, end);
    HeadUsed(x, b, end);
    Bounds(q, 0, end);
    Behind(q, i, end);
    Above(b, x.at + x.len, end);
  }

  lemma {:induction false} HeadUsed(x: Block, b: Blocks, end: int)
    requires x.used
    ensures FirstFree([x] + b, 0, end) == FirstFree(b, 0, end)
  {
    assert ([x] + b)[1..] == b;
  }

  lemma {:induction false} Behind(q: Blocks, i: nat, end: int)
    requires Tiles(q, 0, end) && i < |q|
    ensures forall c <- q[i + 1..] :: c.at >= q[i].at + q[i].len
    ensures q[i].len >= HEADER && q[i].at + q[i].len <= end
  {
    hide Tiles;
    Bounds(q, 0, end);
    assert q[i] in q;
    forall c <- q[i + 1..] ensures c.at >= q[i].at + q[i].len {
      var k :| 0 <= k < |q| - i - 1 && q[i + 1..][k] == c;
      Order(q, i, i + 1 + k, end);
    }
  }

  lemma {:induction false} Above(q: Blocks, x: int, end: int)
    requires x <= end && forall b <- q :: b.at >= x
    ensures FirstFree(q, 0, end) >= x
  {
    if q != [] {
      assert q[0] in q && forall b <- q[1..] :: b in q;
      Above(q[1..], x, end);
    }
  }

  /** Updating one block changes the membership of nothing else. */
  lemma {:induction false} Updated(q: Blocks, i: nat, y: Block, end: int)
    requires Tiles(q, 0, end) && i < |q| && q[i].used && !y.used && y.at == q[i].at
    ensures var r := q[i := y];
            && (forall c :: c in r && c.used <==> c in q && c.used && c != q[i])
            && (forall a :: FreeAt(q, a) ==> FreeAt(r, a)) && FreeAt(r, y.at)
  {
    hide Tiles;
    var r := q[i := y];
    forall c ensures c in r && c.used <==> c in q && c.used && c != q[i] {
      if c in q && c != q[i] {
        var k :| 0 <= k < |q| && q[k] == c;
        assert r[k] == c;
      }
      if c in r && c.used {
        var k :| 0 <= k < |r| && r[k] == c;
        assert q[k] == c;
        if k < i { Order(q, k, i, end); }
        if i < k { Order(q, i, k, end); }
      }
    }
    forall a | FreeAt(q, a) ensures FreeAt(r, a) {
      var c :| c in q && c.at == a && !c.used;
      var k :| 0 <= k < |q| && q[k] == c;
      assert r[k] == c;
    }
    assert r[i] == y;
  }

  /** rt_free keeps the picture, gives up one used block and nothing else, and
      keeps lfree the lowest free block if it was. */
  lemma {:induction false} FreeGood(a: Arena, i: nat, end: int)
    requires Good(a, end) && i < |a.blocks| && a.blocks[i].used
    ensures var r := Free(a, i);
            && Good(r, end)
            && (Lowest(a, end) ==> Lowest(r, end))
            && (forall c :: c in r.blocks && c.used <==> c in a.blocks && c.used && c != a.blocks[i])
  {
    hide Tiles, Calm, UsedSum, FirstFree, FreeAt, Plug, Hole;
    var q, b := a.blocks, a.blocks[i];
    var r := q[i := b.(used := false)];
    var lfree := if b.at < a.lfree then b.at else a.lfree;
    ReleaseGood(q, i, end);
    Updated(q, i, b.(used := false), end);
    PlugGood(r, lfree, i, end);
    BlockAt(q, i, end);
  }

  /** Block `i` in two, the second part free. */
  function Halves(q: Blocks, i: nat, size: int): Blocks
    requires i < |q|
  {
    q[..i] + [Block(q[i].at, size + HEADER, true), Block(q[i].at + size + HEADER, q[i].len - size - HEADER, false)] + q[i + 1..]
  }

  lemma {:induction false} HalvesAre(q: Blocks, i: nat, size: int)
    requires i < |q|
    ensures q == q[..i] + ([q[i]] + q[i + 1..])
    ensures Halves(q, i, size) ==
            q[..i] + ([Block(q[i].at, size + HEADER, true), Block(q[i].at + size + HEADER, q[i].len - size - HEADER, false)] + q[i + 1..])
  {
  }

  lemma {:induction false} HalvesGood(q: Blocks, i: nat, size: int, end: int)
    requires Tiles(q, 0, end) && Calm(q) && i < |q| && q[i].used && size >= 0 && q[i].len - size - HEADER >= HEADER
    ensures var r, f := Halves(q, i, size), Block(q[i].at + size + HEADER, q[i].len - size - HEADER, false);
            && i + 1 < |r| && r[i + 1] == f && r[i].used && Hole(r, i + 1, end)
            && (i + 1 < |q| <==> i + 2 < |r|) && (i + 1 < |q| ==> r[i + 2] == q[i + 1])
            && UsedSum(r) == UsedSum(q) - f.len
            && FirstFree(r, 0, end) == (if q[i].at < FirstFree(q, 0, end) then f.at else FirstFree(q, 0, end))
  {
    hide Tiles, Calm, UsedSum, FirstFree, Halves;
    HalvesAre(q, i, size);
    HalvesTile(q, i, size, end);
    HalvesLowest(q, i, size, end);
    var u := Block(q[i].at, size + HEADER, true);
    var r := Halves(q, i, size);
    assert r[..i + 1] == q[..i] + [u] && r[i + 2..] == q[i + 1..];
    CalmParts(q[..i], [q[i]], q[i + 1..]);
    CalmConcat(q[..i], [u]);
    assert Calm([u]) by { OneTile(u); }
  }

  lemma {:induction false} HalvesTile(q: Blocks, i: nat, size: int, end: int)
    requires Tiles(q, 0, end) && i < |q| && q[i].used && size >= 0 && q[i].len - size - HEADER >= HEADER
    ensures var r := Halves(q, i, size);
            Tiles(r, 0, end) && UsedSum(r) == UsedSum(q) - (q[i].len - size - HEADER)
  {
    hide Tiles, UsedSum, Halves;
    var x := q[i];
    var u, f := Block(x.at, size + HEADER, true), Block(x.at + size + HEADER, x.len - size - HEADER, false);
    HalvesAre(q, i, size);
    BlockAt(q, i, end);
    OneTile(x);
    TwoTile(u, f);
    assert End([x], End(q[..i], 0)) == x.at + x.len;
    Replace(q[..i], [x], [u, f], q[i + 1..], end);
  }

  lemma {:induction false} HalvesLowest(q: Blocks, i: nat, size: int, end: int)
    requires Tiles(q, 0, end) && i < |q| && q[i].used && size >= 0 && q[i].len - size - HEADER >= HEADER
    ensures FirstFree(Halves(q, i, size), 0, end) ==
            if q[i].at < FirstFree(q, 0, end) then q[i].at + size + HEADER else FirstFree(q, 0, end)
  {
    hide Tiles, FirstFree, Halves;
    var a, b, x := q[..i], q[i + 1..], q[i];
    var u, f := Block(x.at, size + HEADER, true), Block(x.at + size + HEADER, x.len - size - HEADER, false);
    HalvesAre(q, i, size);
    CutAt(q, i, end);
    FreeSplit(a, x.at, [x] + b, end);
    FreeSplit(a, x.at, [u, f] + b, end);
    assert [u, f] + b == [u] + ([f] + b);
    HeadUsed(u, [f] + b, end);
    HeadFree(f, b, end);
    HeadUsed(x, b, end);
    Behind(q, i, end);
    Above(b, x.at + x.len, end);
  }

  lemma Among(a: Blocks, m: Blocks, b: Blocks)
    ensures forall c :: c in a + (m + b) <==> c in a || c in m || c in b
  {
  }

  lemma {:induction false} HalvesMembers(q: Blocks, i: nat, size: int, end: int)
    requires Tiles(q, 0, end) && i < |q| && q[i].used && size >= 0 && q[i].len - size - HEADER >= HEADER
    ensures var r, u := Halves(q, i, size), Block(q[i].at, size + HEADER, true);
            && (forall c :: c in r && c.used <==> c == u || (c in q && c.used && c != q[i]))
            && (forall a :: FreeAt(q, a) ==> FreeAt(r, a))
  {
    hide Tiles, Halves;
    var a, b, x := q[..i], q[i + 1..], q[i];
    var u, f := Block(x.at, size + HEADER, true), Block(x.at + size + HEADER, x.len - size - HEADER, false);
    HalvesAre(q, i, size);
    Among(a, [x], b);
    Among(a, [u, f], b);
    CutAt(q, i, end);
    Behind(q, i, end);
  }

  /** The shrinking branch of rt_realloc keeps the picture and shortens one used
      block; it keeps lfree the lowest free block if and only if lfree was below
      the block, or the block's neighbour is free. */
  lemma {:induction false} ShrinkGood(a: Arena, i: nat, size: int, end: int)
    requires Good(a, end) && i < |a.blocks| && a.blocks[i].used
    requires size >= 0 && size + HEADER + MIN_SIZE < a.blocks[i].len - HEADER
    ensures var r, b := Shrink(a, i, size), a.blocks[i];
            && Good(r, end)
            && (forall c :: c in r.blocks && c.used <==> c == Block(b.at, size + HEADER, true) || (c in a.blocks && c.used && c != b))
    ensures Lowest(a, end) ==>
              (Lowest(Shrink(a, i, size), end) <==> a.lfree < a.blocks[i].at || (i + 1 < |a.blocks| && !a.blocks[i + 1].used))
  {
    hide Tiles, Calm, UsedSum, FirstFree, FreeAt, Hole, Halves;
    var q := a.blocks;
    var r := Halves(q, i, size);
    ShrinkIs(a, i, size);
    HalvesGood(q, i, size, end);
    HalvesMembers(q, i, size, end);
    PlugGood(r, a.lfree, i + 1, end);
    BlockAt(q, i, end);
    Bounds(q, 0, end);
    if i + 1 < |q| && !q[i + 1].used { NextLowest(q, i, end); }
    LowestNotUsed(q, i, end);
    PlugLfree(r, a.lfree, i + 1);
  }

  lemma PlugLfree(q: Blocks, lfree: int, i: nat)
    requires 0 < i < |q| && q[i - 1].used
    ensures Plug(q, lfree, i).1 == if i + 1 < |q| && !q[i + 1].used && lfree == q[i + 1].at then q[i].at else lfree
  {
    if i + 1 < |q| && !q[i + 1].used {
      JoinShape(q, i);
      assert Join(q, i)[i - 1] == q[..i][i - 1];
    }
  }

  lemma ShrinkIs(a: Arena, i: nat, size: int)
    requires i < |a.blocks|
    ensures i + 1 < |Halves(a.blocks, i, size)|
    ensures var (r, l) := Plug(Halves(a.blocks, i, size), a.lfree, i + 1);
            Shrink(a, i, size) == Arena(r, l, a.used - (a.blocks[i].len - HEADER - size), a.peak)
  {
  }

  /** If nothing below a used block is free and its neighbour is, that one is
      the lowest. */
  lemma {:induction false} NextLowest(q: Blocks, i: nat, end: int)
    requires Tiles(q, 0, end) && i + 1 < |q| && q[i].used && !q[i + 1].used
    ensures FirstFree(q, 0, end) >= q[i].at ==> FirstFree(q, 0, end) == q[i + 1].at
  {
    hide Tiles, FirstFree;
    var a, b := q[..i], q[i + 2..];
    CutAt(q, i, end);
    assert q[i + 1..] == [q[i + 1]] + b;
    FreeSplit(a, q[i].at, [q[i]] + q[i + 1..], end);
    HeadUsed(q[i], q[i + 1..], end);
    BlockAt(q, i, end);
    HeadFree(q[i + 1], b, end);
  }

  lemma {:induction false} LowestNotUsed(q: Blocks, i: nat, end: int)
    requires Tiles(q, 0, end) && i < |q| && q[i].used
    ensures FirstFree(q, 0, end) < q[i].at || FirstFree(q, 0, end) >= q[i].at + q[i].len
  {
    hide Tiles, FirstFree;
    CutAt(q, i, end);
    BlockAt(q, i, end);
    Bounds(q, 0, end);
    FreeSplit(q[..i], q[i].at, [q[i]] + q[i + 1..], end);
    HeadUsed(q[i], q[i + 1..], end);
    Behind(q, i, end);
    Above(q[i + 1..], q[i].at + q[i].len, end);
  }

  // ---------- finding used blocks ----------

  lemma {:induction false} IndexIs(q: Blocks, i: nat, end: int)
    requires Tiles(q, 0, end) && i < |q|
    ensures IndexOf(q, q[i].at) == i
  {
    IndexFrom(q, i, 0, end);
  }

  lemma {:induction false} IndexFrom(q: Blocks, i: nat, from: int, end: int)
    requires Tiles(q, from, end) && i < |q|
    ensures IndexOf(q, q[i].at) == i
  {
    if i > 0 {
      Bounds(q[1..], from + q[0].len, end);
      assert q[1..][i - 1] == q[i];
      assert q[i] in q[1..];
      IndexFrom(q[1..], i - 1, from + q[0].len, end);
    }
  }

  lemma {:induction false} LiveIn(q: Blocks, b: Block, end: int)
    requires Tiles(q, 0, end) && b in q
    ensures IndexOf(q, b.at) < |q| && q[IndexOf(q, b.at)] == b
  {
    var i :| 0 <= i < |q| && q[i] == b;
    IndexIs(q, i, end);
  }

  lemma {:induction false} ReallocGood(a: Arena, at: Option<int>, bytes: nat, end: int)
    requires Good(a, end)
    ensures Good(Realloc(a, at, bytes, end).1, end)
    ensures var (p, r) := Realloc(a, at, bytes, end);
            forall c :: c in a.blocks && c.used && at != Some(c.at) ==> c in r.blocks
  {
    hide Tiles, Calm, UsedSum, FirstFree, FreeAt, IndexOf, Malloc, Free, Shrink, Adds;
    var size := Words(bytes);
    if size <= end - HEADER {
      MallocGood(a, size * 4, end);
      MallocKeeps(a, size * 4, end);
      if at.Some? && Live(a, at.value) {
        var i := IndexOf(a.blocks, at.value);
        var have := a.blocks[i].len - HEADER;
        if have == size {
        } else if size + HEADER + MIN_SIZE < have {
          ShrinkGood(a, i, size, end);
        } else {
          var (p, r) := Malloc(a, size * 4, end);
          if p.Some? {
            LiveIn(r.blocks, a.blocks[i], end);
            FreeGood(r, IndexOf(r.blocks, at.value), end);
          }
        }
      }
    }
  }

  lemma MallocKeeps(a: Arena, bytes: nat, end: int)
    requires Good(a, end)
    ensures forall c :: c in a.blocks && c.used ==> c in Malloc(a, bytes, end).1.blocks
  {
    hide Good, Malloc;
    MallocGood(a, bytes, end);
  }

  // ---------- which block a request gets ----------

  predicate Fits(c: Block, lfree: int, limit: int, size: int) {
    lfree <= c.at < limit && !c.used && c.len - HEADER >= size
  }

  /** The search gives the lowest block that fits, if one does. */
  lemma {:induction false} FindLowest(q: Blocks, lfree: int, limit: int, size: int, from: int, end: int)
    requires Tiles(q, from, end)
    ensures var k := Find(q, lfree, limit, size);
            && (k < |q| ==> Fits(q[k], lfree, limit, size))
            && forall c <- q :: Fits(c, lfree, limit, size) ==> k < |q| && q[k].at <= c.at
  {
    if q != [] {
      Bounds(q[1..], from + q[0].len, end);
      assert q == [q[0]] + q[1..];
      if q[0].at < limit { FindLowest(q[1..], lfree, limit, size, from + q[0].len, end); }
    }
  }

  /** rt_malloc returns the lowest block that fits, from lfree on and below the
      limit of its search; with lfree the lowest free block none is left out in
      front. */
  lemma {:induction false} MallocLowest(a: Arena, bytes: nat, end: int)
    requires Good(a, end) && 0 < Words(bytes) <= end - HEADER
    ensures var size := Max(Words(bytes), MIN_ALIGNED);
            match Malloc(a, bytes, end).0
            case Some(p) => (exists b <- a.blocks :: b.at == p && Fits(b, a.lfree, end - HEADER - size, size))
                            && forall c <- a.blocks :: Fits(c, a.lfree, end - HEADER - size, size) ==> p <= c.at
            case None => forall c <- a.blocks :: !Fits(c, a.lfree, end - HEADER - size, size)
    ensures Lowest(a, end) ==> forall c <- a.blocks :: !c.used ==> a.lfree <= c.at
  {
    hide Tiles, Calm, UsedSum, FirstFree, FreeAt, Find;
    var size := Max(Words(bytes), MIN_ALIGNED);
    FindLowest(a.blocks, a.lfree, end - HEADER - size, size, 0, end);
    if Lowest(a, end) {
      forall c <- a.blocks | !c.used ensures a.lfree <= c.at {
        NoneBelow(a.blocks, c, end);
      }
    }
    var i := Find(a.blocks, a.lfree, end - HEADER - size, size);
    if i < |a.blocks| { assert a.blocks[i] in a.blocks; }
  }

  lemma {:induction false} NoneBelow(q: Blocks, c: Block, end: int)
    requires c in q && !c.used && Tiles(q, 0, end)
    ensures FirstFree(q, 0, end) <= c.at
  {
    hide Tiles, FirstFree;
    var i :| 0 <= i < |q| && q[i] == c;
    CutAt(q, i, end);
    FreeSplit(q[..i], c.at, [c] + q[i + 1..], end);
    HeadFree(c, q[i + 1..], end);
  }

  /** So a request fails if and only if every free block that is large enough
      lies below lfree, or is the last of the arena and fits exactly: the bound
      of the search is one short. */
  lemma {:induction false} MallocFailsIff(a: Arena, bytes: nat, end: int)
    requires Good(a, end) && bytes > 0
    ensures var size := Max(Words(bytes), MIN_ALIGNED);
            Malloc(a, bytes, end).0 == None <==>
            forall c <- a.blocks :: !c.used && c.len - HEADER >= size ==>
              c.at < a.lfree || (c.at + c.len == end && c.len - HEADER == size)
  {
    hide Good;
    GoodTiles(a, end);
    Bounds(a.blocks, 0, end);
    if Words(bytes) <= end - HEADER {
      MallocFailsUnlessFits(a, bytes, end);
    }
  }

  lemma {:induction false} MallocFailsUnlessFits(a: Arena, bytes: nat, end: int)
    requires Good(a, end) && bytes > 0 && Words(bytes) <= end - HEADER
    ensures var size := Max(Words(bytes), MIN_ALIGNED);
            Malloc(a, bytes, end).0 == None <==>
            forall c <- a.blocks :: !c.used && c.len - HEADER >= size ==>
              c.at < a.lfree || (c.at + c.len == end && c.len - HEADER == size)
  {
    hide Malloc, Good;
    MallocLowest(a, bytes, end);
    GoodTiles(a, end);
    Bounds(a.blocks, 0, end);
  }

  lemma GoodTiles(a: Arena, end: int)
    requires Good(a, end)
    ensures Tiles(a.blocks, 0, end)
  {
  }

  // ---------- runs ----------

  datatype Call =
    | DoMalloc(bytes: nat)
    | DoFree(at: int)
    | DoRealloc(p: Option<int>, bytes: nat)

  function Step(a: Arena, c: Call, end: int): Arena {
    match c
    case DoMalloc(bytes) => Malloc(a, bytes, end).1
    case DoFree(at) => if Live(a, at) then Free(a, IndexOf(a.blocks, at)) else a
    case DoRealloc(p, bytes) => Realloc(a, p, bytes, end).1
  }

  function Run(a: Arena, cs: seq<Call>, end: int): Arena
    decreases |cs|
  {
    if cs == [] then a else Run(Step(a, cs[0], end), cs[1..], end)
  }

  lemma {:induction false} StepGood(a: Arena, c: Call, end: int)
    requires Good(a, end)
    ensures Good(Step(a, c, end), end)
    ensures !c.DoRealloc? && Lowest(a, end) ==> Lowest(Step(a, c, end), end)
  {
    hide Good, Malloc, Free, Realloc, Adds, Lowest;
    match c
    case DoMalloc(bytes) => MallocGood(a, bytes, end);
    case DoFree(at) => if Live(a, at) { FreeGood(a, IndexOf(a.blocks, at), end); }
    case DoRealloc(p, bytes) => ReallocGood(a, p, bytes, end);
  }

  /** Over every run blocks tile the arena, no two adjacent ones are free,
      used_mem is what the used blocks cover, max_mem is at least that, and
      lfree is a free block or the end. */
  lemma {:induction false} RunGood(a: Arena, cs: seq<Call>, end: int)
    requires Good(a, end)
    ensures Good(Run(a, cs, end), end)
    decreases |cs|
  {
    hide Good, Step;
    if cs != [] {
      StepGood(a, cs[0], end);
      RunGood(Step(a, cs[0], end), cs[1..], end);
    }
  }

  /** A realloc that shrinks a live block below which there is no free one, and
      behind which there is none either: the block it gives back is the lowest
      free one, and lfree stays where it is. */
  predicate Forgets(a: Arena, c: Call, end: int) {
    && c.DoRealloc? && c.p.Some? && Live(a, c.p.value) && Words(c.bytes) <= end - HEADER
    && var i := IndexOf(a.blocks, c.p.value);
       && Words(c.bytes) + HEADER + MIN_SIZE < a.blocks[i].len - HEADER
       && a.lfree >= a.blocks[i].at
       && (i + 1 < |a.blocks| ==> a.blocks[i + 1].used)
  }

  /** Any call leaves lfree the lowest free block if and only if it is not of
      that kind. */
  lemma {:induction false} StepLowestIff(a: Arena, c: Call, end: int)
    requires Good(a, end) && Lowest(a, end)
    ensures Lowest(Step(a, c, end), end) <==> !Forgets(a, c, end)
  {
    hide Good, Malloc, Free, Adds, Lowest, Shrink, IndexOf, Words, Live;
    match c
    case DoMalloc(bytes) => MallocGood(a, bytes, end);
    case DoFree(at) => if Live(a, at) { FreeLive(a, at, end); }
    case DoRealloc(p, bytes) => ReallocLowest(a, p, bytes, end);
  }

  lemma {:induction false} FreeLive(a: Arena, at: int, end: int)
    requires Good(a, end) && Lowest(a, end) && Live(a, at)
    ensures IndexOf(a.blocks, at) < |a.blocks| && Lowest(Free(a, IndexOf(a.blocks, at)), end)
  {
    hide Good, Lowest, Free;
    FreeGood(a, IndexOf(a.blocks, at), end);
  }

  lemma {:induction false} ReallocLowest(a: Arena, p: Option<int>, bytes: nat, end: int)
    requires Good(a, end) && Lowest(a, end)
    ensures Lowest(Realloc(a, p, bytes, end).1, end) <==> !Forgets(a, DoRealloc(p, bytes), end)
  {
    hide Tiles, Calm, UsedSum, FirstFree, FreeAt, IndexOf, Malloc, Free, Shrink, Adds, Lowest;
    var size := Words(bytes);
    if size <= end - HEADER {
      MallocGood(a, size * 4, end);
      if p.Some? && Live(a, p.value) {
        var i := IndexOf(a.blocks, p.value);
        var have := a.blocks[i].len - HEADER;
        if size + HEADER + MIN_SIZE < have {
          ShrinkGood(a, i, size, end);
        } else if have != size {
          MallocKeeps(a, size * 4, end);
          var (n, r) := Malloc(a, size * 4, end);
          if n.Some? {
            LiveIn(r.blocks, a.blocks[i], end);
            FreeGood(r, IndexOf(r.blocks, p.value), end);
          }
        }
      }
    }
  }

  /** lfree is the lowest free block before and after every call. */
  ghost predicate LowestThroughout(a: Arena, cs: seq<Call>, end: int)
    decreases |cs|
  {
    Lowest(a, end) && (cs != [] ==> LowestThroughout(Step(a, cs[0], end), cs[1..], end))
  }

  predicate NeverForgets(a: Arena, cs: seq<Call>, end: int)
    decreases |cs|
  {
    cs != [] ==> !Forgets(a, cs[0], end) && NeverForgets(Step(a, cs[0], end), cs[1..], end)
  }

  /** Over a run lfree is always the lowest free block if and only if no call
      forgets; calls of malloc and free do not. */
  lemma {:induction false} RunLowestIff(a: Arena, cs: seq<Call>, end: int)
    requires Good(a, end) && Lowest(a, end)
    ensures LowestThroughout(a, cs, end) <==> NeverForgets(a, cs, end)
    ensures (forall c <- cs :: !c.DoRealloc?) ==> NeverForgets(a, cs, end)
    decreases |cs|
  {
    hide Good, Lowest, Step, Forgets;
    if cs != [] {
      assert cs[0] in cs && forall c <- cs[1..] :: c in cs;
      StepGood(a, cs[0], end);
      StepLowestIff(a, cs[0], end);
      OnlyReallocForgets(a, cs[0], end);
      if !Forgets(a, cs[0], end) { RunLowestIff(Step(a, cs[0], end), cs[1..], end); }
    }
  }

  lemma OnlyReallocForgets(a: Arena, c: Call, end: int)
    ensures Forgets(a, c, end) ==> c.DoRealloc?
  {
  }

  /** And then it is at the end. */
  lemma {:induction false} RunLowest(a: Arena, cs: seq<Call>, end: int)
    requires Good(a, end) && Lowest(a, end) && NeverForgets(a, cs, end)
    ensures Lowest(Run(a, cs, end), end)
    decreases |cs|
  {
    hide Good, Lowest, Step, Forgets;
    if cs != [] {
      StepGood(a, cs[0], end);
      StepLowestIff(a, cs[0], end);
      RunLowest(Step(a, cs[0], end), cs[1..], end);
    }
  }

  lemma {:induction false} InitialGood(end: int)
    requires end >= HEADER
    ensures var a := Arena([Block(0, end, false)], 0, 0, 0); Good(a, end) && Lowest(a, end)
  {
    OneTile(Block(0, end, false));
    assert Block(0, end, false) in [Block(0, end, false)];
  }

  /** An arena with nothing used is one free block again. */
  lemma {:induction false} EmptyIsOneBlock(a: Arena, end: int)
    requires Good(a, end) && end > 0 && forall b <- a.blocks :: !b.used
    ensures a.blocks == [Block(0, end, false)] && a.used == 0
  {
    var q := a.blocks;
    assert forall k :: 0 <= k < |q| ==> q[k] in q;
    assert |q| == 1 && q[1..] == [] && q == [q[0]];
    assert Tiles(q[1..], q[0].len, end) && UsedSum(q[1..]) == 0;
  }

  /** What the lfree that rt_realloc does not lower costs: after two requests
      that fill an arena of 240 bytes and a realloc of the first to 16 bytes, a
      request for 32 is refused, though the 48 bytes given back are free and
      not the last of the arena. */
  lemma {:induction false} ShrinkHidesBlock()
    ensures var start := Arena([Block(0, 60, false)], 0, 0, 0);
            var a := Run(start, [DoMalloc(80), DoMalloc(104), DoRealloc(Some(0), 16)], 60);
            && Good(start, 60) && Good(a, 60)
            && Block(8, 16, false) in a.blocks && 16 - HEADER >= Words(32) && 8 + 16 < 60
            && a.lfree == 60 && Malloc(a, 32, 60).0 == None
  {
    hide Good, Step;
    InitialGood(60);
    var start := Arena([Block(0, 60, false)], 0, 0, 0);
    var cs := [DoMalloc(80), DoMalloc(104), DoRealloc(Some(0), 16)];
    RunGood(start, cs, 60);
    HidingSteps();
    assert cs[1..] == [DoMalloc(104), DoRealloc(Some(0), 16)] && cs[1..][1..] == [DoRealloc(Some(0), 16)];
    assert cs[1..][1..][1..] == [];
    var a := Run(start, cs, 60);
    assert a.blocks == [Block(0, 8, true), Block(8, 16, false), Block(24, 36, true)];
    MallocFailsIff(a, 32, 60);
  }

  lemma {:induction false} HidingSteps()
    ensures var start := Arena([Block(0, 60, false)], 0, 0, 0);
            Step(Step(Step(start, DoMalloc(80), 60), DoMalloc(104), 60), DoRealloc(Some(0), 16), 60) ==
            Arena([Block(0, 8, true), Block(8, 16, false), Block(24, 36, true)], 60, 44, 60)
  {
    hide Step;
    FirstHalf();
    SecondHalf();
    HalfGivenBack();
  }

  lemma {:induction false} FirstHalf()
    ensures Step(Arena([Block(0, 60, false)], 0, 0, 0), DoMalloc(80), 60) ==
            Arena([Block(0, 24, true), Block(24, 36, false)], 24, 24, 24)
  {
    var q := [Block(0, 60, false)];
    assert Find(q, 0, 36, 20) == 0;
    assert Give(q, 0, 20) == [Block(0, 24, true), Block(24, 36, false)];
    assert Give(q, 0, 20)[1..] == [Block(24, 36, false)];
  }

  lemma {:induction false} SecondHalf()
    ensures Step(Arena([Block(0, 24, true), Block(24, 36, false)], 24, 24, 24), DoMalloc(104), 60) ==
            Arena([Block(0, 24, true), Block(24, 36, true)], 60, 60, 60)
  {
    var q, r := [Block(0, 24, true), Block(24, 36, false)], [Block(0, 24, true), Block(24, 36, true)];
    assert q[1..] == [Block(24, 36, false)] && Find(q[1..], 24, 30, 26) == 0;
    assert Find(q, 24, 30, 26) == 1;
    assert Give(q, 1, 26) == r;
    assert r[1..] == [Block(24, 36, true)] && r[1..][1..] == [];
    assert FirstFree(r[1..], 24, 60) == 60;
  }

  lemma {:induction false} HalfGivenBack()
    ensures Step(Arena([Block(0, 24, true), Block(24, 36, true)], 60, 60, 60), DoRealloc(Some(0), 16), 60) ==
            Arena([Block(0, 8, true), Block(8, 16, false), Block(24, 36, true)], 60, 44, 60)
  {
    var a := Arena([Block(0, 24, true), Block(24, 36, true)], 60, 60, 60);
    assert IndexOf(a.blocks, 0) == 0;
    assert Shrink(a, 0, 4).blocks == [Block(0, 8, true), Block(8, 16, false), Block(24, 36, true)];
  }
}
