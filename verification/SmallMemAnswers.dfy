/**
  What the calls of mem.c answer, said of the blocks there are before and after
  them: which blocks are used, how large they are, and when a call fails or
  leaves a block where it is. Nothing here depends on how SmallMemPicture
  computes it.
*/
module SmallMemAnswers {
  import opened SmallMemPicture

  function UsedSet(q: Blocks): set<Block> {
    set b | b in q && b.used
  }

  // ---------- the used blocks determine all blocks ----------

  lemma {:induction false} SamePlace(p: Blocks, q: Blocks, end: int, k: nat)
    requires Tiles(p, 0, end) && Tiles(q, 0, end) && UsedSet(p) == UsedSet(q)
    requires k < |p| && k < |q| && p[k].at == q[k].at && p[k].used
    ensures p[k] == q[k]
  {
    assert p[k] in UsedSet(q);
    LiveIn(q, p[k], end);
    IndexIs(q, k, end);
  }

  lemma {:induction false} CalmAt(q: Blocks, k: nat)
    requires Calm(q) && k + 1 < |q|
    ensures q[k].used || q[k + 1].used
  {
    if k > 0 { CalmAt(q[1..], k - 1); }
  }

  lemma {:induction false} NoLonger(p: Blocks, q: Blocks, end: int, k: nat)
    requires Tiles(p, 0, end) && Tiles(q, 0, end) && Calm(q) && UsedSet(p) == UsedSet(q)
    requires k < |p| && k < |q| && p[k].at == q[k].at && !p[k].used && !q[k].used
    ensures p[k].len <= q[k].len
  {
    hide Tiles, Calm;
    BlockAt(p, k, end);
    BlockAt(q, k, end);
    Bounds(p, 0, end);
    if k + 1 < |q| {
      CalmAt(q, k);
      assert q[k + 1] in UsedSet(p);
      var m :| 0 <= m < |p| && p[m] == q[k + 1];
      if m < k { Order(p, m, k, end); }
      if m > k { Order(p, k, m, end); }
    }
  }

  lemma {:induction false} SamePrefix(p: Blocks, q: Blocks, end: int, k: nat)
    requires Tiles(p, 0, end) && Tiles(q, 0, end) && Calm(p) && Calm(q) && UsedSet(p) == UsedSet(q)
    requires k < |p|
    ensures k < |q| && p[k] == q[k]
    decreases k
  {
    hide Tiles, Calm, UsedSet;
    BlockAt(p, k, end);
    Bounds(p, 0, end);
    assert p[k] in p;
    if k > 0 {
      SamePrefix(p, q, end, k - 1);
      BlockAt(p, k - 1, end);
      BlockAt(q, k - 1, end);
    } else if q == [] {
      Nothing(end);
    }
    BlockAt(q, k, end);
    if k == 0 { assert p[..0] == [] && q[..0] == []; }
    if p[k].used { SamePlace(p, q, end, k); }
    else if q[k].used { SamePlace(q, p, end, k); }
    else { NoLonger(p, q, end, k); NoLonger(q, p, end, k); }
  }

  lemma Nothing(end: int)
    ensures Tiles([], 0, end) ==> end == 0
  {
  }

  /** Two arenas of the same size with the same used blocks have the same
      blocks: where no two free ones touch nothing else is left open. So what
      follows says everything about the blocks after a call. */
  lemma {:induction false} UsedDecide(p: Blocks, q: Blocks, end: int)
    requires Tiles(p, 0, end) && Tiles(q, 0, end) && Calm(p) && Calm(q)
    requires UsedSet(p) == UsedSet(q)
    ensures p == q
  {
    hide Tiles, Calm, UsedSet;
    if p != [] { SamePrefix(p, q, end, |p| - 1); }
    if q != [] { SamePrefix(q, p, end, |q| - 1); }
    forall k | 0 <= k < |p| ensures p[k] == q[k] { SamePrefix(p, q, end, k); }
  }

  // ---------- malloc and free ----------

  /** A request covers the bytes asked for, in steps of 8, and no more. */
  lemma {:induction false} WordsIs(bytes: nat)
    ensures bytes <= Words(bytes) * 4 < bytes + 8 && Words(bytes) * 4 % 8 == 0
  {
  }

  /** The block handed out: cut to the request if what is left can hold a
      header and the least data, whole otherwise. */
  function Handed(b: Block, size: int): Block {
    Block(b.at, if b.len - HEADER >= size + HEADER + MIN_ALIGNED then size + HEADER else b.len, true)
  }

  lemma {:induction false} GiveUsed(q: Blocks, i: nat, size: int)
    requires i < |q| && !q[i].used
    ensures UsedSet(Give(q, i, size)) == UsedSet(q) + {Handed(q[i], size)}
  {
    Three(q, i, i + 1);
    assert q[i..i + 1] == [q[i]];
    Among(q[..i], [q[i]], q[i + 1..]);
    Among(q[..i], Given(q[i], size), q[i + 1..]);
    assert Give(q, i, size) == q[..i] + (Given(q[i], size) + q[i + 1..]);
    assert Given(q[i], size)[0] == Handed(q[i], size);
    assert forall c :: c in Given(q[i], size) && c.used ==> c == Handed(q[i], size);
  }

  /** rt_malloc turns the lowest free block that is large enough, from lfree on
      and not just fitting at the end, into a used one, cut or whole; no other
      block starts or stops being used. */
  lemma {:induction false} MallocAnswers(a: Arena, bytes: nat, end: int)
    requires Good(a, end) && Malloc(a, bytes, end).0.Some?
    ensures var (p, r) := Malloc(a, bytes, end);
            var size := Max(Words(bytes), MIN_ALIGNED);
            exists b <- a.blocks ::
              && b.at == p.value && !b.used && b.len - HEADER >= size && b.at >= a.lfree && b.at + size + HEADER < end
              && (forall c <- a.blocks :: !c.used && c.len - HEADER >= size && a.lfree <= c.at && c.at + size + HEADER < end ==> b.at <= c.at)
              && UsedSet(r.blocks) == UsedSet(a.blocks) + {Handed(b, size)}
  {
    hide UsedSet, Find, Give, FirstFree, Tiles, Calm, UsedSum, FreeAt, Words;
    var size := Max(Words(bytes), MIN_ALIGNED);
    var i := Find(a.blocks, a.lfree, end - HEADER - size, size);
    FindLowest(a.blocks, a.lfree, end - HEADER - size, size, 0, end);
    GiveUsed(a.blocks, i, size);
    assert a.blocks[i] in a.blocks;
  }

  /** rt_free: that block stops being used, and no other. */
  lemma {:induction false} FreeAnswers(a: Arena, i: nat, end: int)
    requires Good(a, end) && i < |a.blocks| && a.blocks[i].used
    ensures UsedSet(Free(a, i).blocks) == UsedSet(a.blocks) - {a.blocks[i]}
  {
    hide Good, Free;
    FreeGood(a, i, end);
  }

  /** used_mem follows: it is the sum of the used blocks and max_mem the most it
      has been, which each call raises only where it raises used_mem. */
  lemma {:induction false} PeakAnswers(a: Arena, bytes: nat, end: int)
    requires Good(a, end)
    ensures var r := Malloc(a, bytes, end).1;
            r.peak == if r.used > a.peak then r.used else a.peak
  {
    hide Find, Give, FirstFree, Tiles, Calm, UsedSum, FreeAt, Words;
  }

  // ---------- realloc ----------

  lemma {:induction false} ShrinkUsed(a: Arena, i: nat, size: int, end: int)
    requires Good(a, end) && i < |a.blocks| && a.blocks[i].used
    requires size >= 0 && size + HEADER + MIN_SIZE < a.blocks[i].len - HEADER
    ensures UsedSet(Shrink(a, i, size).blocks) == UsedSet(a.blocks) - {a.blocks[i]} + {Block(a.blocks[i].at, size + HEADER, true)}
  {
    hide Good, Shrink;
    ShrinkGood(a, i, size, end);
  }

  /** A block that moves: the new one is used, the old one no longer is. */
  lemma {:induction false} MoveUsed(a: Arena, i: nat, bytes: nat, end: int)
    requires Good(a, end) && i < |a.blocks| && a.blocks[i].used && Malloc(a, bytes, end).0.Some?
    ensures var (p, r) := Malloc(a, bytes, end);
            var j := IndexOf(r.blocks, a.blocks[i].at);
            && j < |r.blocks| && p.value != a.blocks[i].at
            && exists c: Block :: c.at == p.value && c.used && c.len - HEADER >= Words(bytes)
                 && UsedSet(Free(r, j).blocks) == UsedSet(a.blocks) - {a.blocks[i]} + {c}
  {
    hide UsedSet, Good, Malloc, Free, Words;
    var (p, r) := Malloc(a, bytes, end);
    var size := Max(Words(bytes), MIN_ALIGNED);
    MallocGood(a, bytes, end);
    MallocAnswers(a, bytes, end);
    var b :| b in a.blocks && b.at == p.value && !b.used && b.len - HEADER >= size
      && UsedSet(r.blocks) == UsedSet(a.blocks) + {Handed(b, size)};
    GoodTiles(a, end);
    GoodTiles(r, end);
    InUse(a.blocks, i);
    InUsed(r.blocks, a.blocks[i]);
    LiveIn(r.blocks, a.blocks[i], end);
    LiveIn(a.blocks, b, end);
    IndexIs(a.blocks, i, end);
    FreeAnswers(r, IndexOf(r.blocks, a.blocks[i].at), end);
    var c := Handed(b, size);
    assert c != a.blocks[i];
    assert UsedSet(a.blocks) + {c} - {a.blocks[i]} == UsedSet(a.blocks) - {a.blocks[i]} + {c};
  }

  lemma InUse(q: Blocks, i: nat)
    requires i < |q| && q[i].used
    ensures q[i] in UsedSet(q)
  {
  }

  lemma InUsed(q: Blocks, b: Block)
    requires b in UsedSet(q)
    ensures b in q
  {
  }

  /** A block with room for `have` words stays where it is only if the request
      is for exactly that, or leaves a header and 12 bytes over. */
  predicate Stays(have: int, size: int) {
    size == have || size + HEADER + MIN_SIZE < have
  }

  /** rt_realloc of a used block: the answer is the old address if the block
      stays; otherwise it fails exactly where a fresh request would, changing
      nothing, and else gives one used block that is large enough for the old
      one. */
  lemma {:induction false} ReallocAnswers(a: Arena, i: nat, bytes: nat, end: int)
    requires Good(a, end) && i < |a.blocks| && a.blocks[i].used
    ensures var b, size := a.blocks[i], Words(bytes);
            var (p, r) := Realloc(a, Some(b.at), bytes, end);
            && (p == Some(b.at) <==> Stays(b.len - HEADER, size))
            && (p == None <==> !Stays(b.len - HEADER, size) && (size == 0 || NoneFor(a, Max(size, MIN_ALIGNED), end)))
            && (p == None ==> r == a)
            && (p.Some? ==>
                  exists c: Block :: c.at == p.value && c.used && c.len - HEADER >= size
                    && UsedSet(r.blocks) == UsedSet(a.blocks) - {b} + {c}
                    && (Stays(b.len - HEADER, size) ==> c.len == size + HEADER))
  {
    hide UsedSet, Good, Free, Shrink, Malloc;
    var b, size := a.blocks[i], Words(bytes);
    GoodTiles(a, end);
    IndexIs(a.blocks, i, end);
    Bounds(a.blocks, 0, end);
    InUse(a.blocks, i);
    var have := b.len - HEADER;
    Again(bytes);
    if size > end - HEADER {
      assert NoneFor(a, Max(size, MIN_ALIGNED), end);
    } else if size == have {
      assert UsedSet(a.blocks) == UsedSet(a.blocks) - {b} + {b};
    } else if size + HEADER + MIN_SIZE < have {
      ShrinkUsed(a, i, size, end);
    } else {
      MallocGood(a, size * 4, end);
      if size == 0 { MallocNothing(a, end); } else { MallocFailsIff(a, size * 4, end); }
      if Malloc(a, size * 4, end).0.Some? { MoveUsed(a, i, size * 4, end); }
    }
  }

  /** Every free block with room lies below lfree, or is the last of the arena
      and just fits. */
  ghost predicate NoneFor(a: Arena, size: int, end: int) {
    forall c <- a.blocks :: !c.used && c.len - HEADER >= size ==> c.at < a.lfree || (c.at + c.len == end && c.len - HEADER == size)
  }

  lemma Again(bytes: nat)
    ensures Words(Words(bytes) * 4) == Words(bytes) >= 0
  {
  }

  lemma MallocNothing(a: Arena, end: int)
    ensures Malloc(a, 0, end).0 == None
  {
  }

  /** A null pointer asks for a fresh block; a pointer to no used block, as one
      outside the arena is, comes back as it is unless the request is too large. */
  lemma {:induction false} ReallocElse(a: Arena, at: Option<int>, bytes: nat, end: int)
    requires Good(a, end) && (at.Some? ==> forall b <- a.blocks :: b.used ==> b.at != at.value)
    ensures Realloc(a, at, bytes, end) ==
            if Words(bytes) > end - HEADER then (None, a)
            else if at == None then Malloc(a, Words(bytes) * 4, end) else (at, a)
  {
  }

  // ---------- runs ----------

  /** A run of one call is that call. */
  lemma {:induction false} OneCall(a: Arena, i: nat, p: Option<int>, bytes: nat, end: int)
    requires Good(a, end) && i < |a.blocks| && a.blocks[i].used
    ensures Run(a, [DoMalloc(bytes)], end) == Malloc(a, bytes, end).1
    ensures Run(a, [DoFree(a.blocks[i].at)], end) == Free(a, i)
    ensures Run(a, [DoRealloc(p, bytes)], end) == Realloc(a, p, bytes, end).1
  {
    hide Malloc, Free, Realloc;
    IndexIs(a.blocks, i, end);
    assert [DoMalloc(bytes)][1..] == [] && [DoFree(a.blocks[i].at)][1..] == [] && [DoRealloc(p, bytes)][1..] == [];
  }
}
