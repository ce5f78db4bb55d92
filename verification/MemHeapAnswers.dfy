/** What the calls of MDK/src/memheap.c answer, said of the blocks there are before and after them: which
    blocks are used, how large they are, and when a call fails or stays where it is.  Nothing here depends
    on how MemHeapPicture computes it. */
module MemHeapAnswers {
  import opened MemHeapPicture

  function UsedSet(blocks: seq<Block>): set<Block>
  {
    set b | b in blocks && b.used
  }

  // ---- The used blocks determine all blocks ----

  lemma {:induction false} UsedAt(a: seq<Block>, b: seq<Block>, end: int, k: nat)
    requires Tiled(a, end) && Tiled(b, end) && UsedSet(a) == UsedSet(b)
    requires k < |a| && k < |b| && a[k].at == b[k].at && a[k].used
    ensures a[k] == b[k]
  {
    assert a[k] in UsedSet(b);
    var m :| 0 <= m < |b| && b[m] == a[k];
    FindIs(b, end, m);
    FindIs(b, end, k);
  }

  lemma {:induction false} FreeAt(a: seq<Block>, b: seq<Block>, end: int, k: nat)
    requires Tiled(a, end) && Tiled(b, end) && NoTwoFree(a) && NoTwoFree(b) && UsedSet(a) == UsedSet(b)
    requires k < |a| && k < |b| && a[k].at == b[k].at && !a[k].used && !b[k].used
    ensures a[k].size <= b[k].size
  {
    assert k + 1 < |a| && k + 1 < |b| && a[k + 1].used && b[k + 1].used;
    assert b[k + 1] in UsedSet(a);
    var m :| 0 <= m < |a| && a[m] == b[k + 1];
    if m < k { TiledOrder(a, end, m, k); }
    if m > k + 1 { TiledOrder(a, end, k + 1, m); }
  }

  lemma {:induction false} SamePrefix(a: seq<Block>, b: seq<Block>, end: int, k: nat)
    requires Tiled(a, end) && Tiled(b, end) && NoTwoFree(a) && NoTwoFree(b) && UsedSet(a) == UsedSet(b)
    requires k < |a|
    ensures k < |b| && a[k] == b[k]
    decreases k
  {
    hide NoTwoFree;
    if k > 0 {
      SamePrefix(a, b, end, k - 1);
      if k == |b| { TiledOrder(a, end, k - 1, k); TailerLast(a, end, k); }
    }
    if a[k].used { UsedAt(a, b, end, k); }
    else if b[k].used { UsedAt(b, a, end, k); }
    else { FreeAt(a, b, end, k); FreeAt(b, a, end, k); }
  }

  lemma {:induction false} TailerLast(a: seq<Block>, end: int, k: nat)
    requires Tiled(a, end) && k < |a|
    ensures a[k].at <= end - HDR
  {
    if k < |a| - 1 { TiledOrder(a, end, k, |a| - 1); }
  }

  // Two pools of the same size with the same used blocks are the same: where no two free blocks touch,
  // nothing else is left open.  So what follows says everything about the blocks after a call.
  lemma {:induction false} UsedDecide(a: seq<Block>, b: seq<Block>, end: int)
    requires Tiled(a, end) && Tiled(b, end) && NoTwoFree(a) && NoTwoFree(b)
    requires UsedSet(a) == UsedSet(b)
    ensures a == b
  {
    SamePrefix(a, b, end, |a| - 1);
    SamePrefix(b, a, end, |b| - 1);
    forall k | 0 <= k < |a| ensures a[k] == b[k] { SamePrefix(a, b, end, k); }
  }

  // ---- What becomes used and what stops being used ----

  lemma {:induction false} Elsewhere(blocks: seq<Block>, end: int, i: nat, k: nat, b: Block)
    requires Tiled(blocks, end) && i <= k <= |blocks| && (b in blocks[..i] || b in blocks[k..])
    ensures b !in blocks[i..k]
  {
    var m :| 0 <= m < |blocks| && (m < i || m >= k) && blocks[m] == b;
    forall x | i <= x < k ensures blocks[x] != b {
      FindIs(blocks, end, x);
      FindIs(blocks, end, m);
    }
  }

  lemma InThree(a: seq<Block>, m: seq<Block>, c: seq<Block>)
    ensures forall b :: b in a + m + c <==> b in a || b in m || b in c
  {
  }

  lemma {:induction false} UsedReplaced(blocks: seq<Block>, end: int, i: nat, k: nat, mid: seq<Block>)
    requires Tiled(blocks, end) && i <= k <= |blocks|
    ensures UsedSet(Replace(blocks, i, k, mid)) == UsedSet(blocks) - UsedSet(blocks[i..k]) + UsedSet(mid)
  {
    hide Tiled;
    var a, gone, c := blocks[..i], blocks[i..k], blocks[k..];
    assert blocks == a + gone + c;
    InThree(a, gone, c);
    InThree(a, mid, c);
    forall b | b in a || b in c ensures b !in gone { Elsewhere(blocks, end, i, k, b); }
  }

  lemma {:induction false} UsedOne(b: Block)
    ensures UsedSet([b]) == if b.used then {b} else {}
  {
  }

  lemma {:induction false} UsedTwo(b: Block, c: Block)
    ensures UsedSet([b, c]) == UsedSet([b]) + UsedSet([c])
  {
  }

  // The block handed out: cut to the request if what is left can hold a header and 12 bytes, whole otherwise.
  function Handed(b: Block, need: int): Block
  {
    Block(b.at, if b.size >= need + HDR + MINI then need else b.size, true)
  }

  lemma {:induction false} TakenUsed(pic: Picture, end: int, j: nat, need: int)
    requires Good(pic, end) && j < |pic.free| && need >= 0 && Fits(pic, j, need)
    ensures var i := Find(pic.blocks, pic.free[j]);
            && i + 1 < |pic.blocks| && !pic.blocks[i].used && pic.blocks[i].at == pic.free[j] && pic.blocks[i].size >= need
            && UsedSet(AllocAt(pic, j, need).blocks) == UsedSet(pic.blocks) + {Handed(pic.blocks[i], need)}
  {
    hide UsedSet;
    FreeEntry(pic, end, j);
    var i := Find(pic.blocks, pic.free[j]);
    var b := pic.blocks[i];
    var c, d := Block(b.at, need, true), Block(b.at + HDR + need, b.size - need - HDR, false);
    UsedReplaced(pic.blocks, end, i, i + 1, [c, d]);
    UsedReplaced(pic.blocks, end, i, i + 1, [b.(used := true)]);
    assert pic.blocks[i..i + 1] == [b];
    assert pic.blocks[i := b.(used := true)] == Replace(pic.blocks, i, i + 1, [b.(used := true)]);
    UsedOne(b);
    UsedTwo(c, d);
    UsedOne(c);
    UsedOne(d);
    UsedOne(b.(used := true));
  }

  // rt_memheap_alloc of `need` words: the first block in the order of the free list that is large enough
  // becomes used, cut or whole, and no other block starts or stops being used.
  lemma {:induction false} AllocAnswers(pic: Picture, end: int, need: int)
    requires Good(pic, end) && need >= 0 && Alloc(pic, need).Some?
    ensures var (after, p) := Alloc(pic, need).value;
            exists i, j | 0 <= i < |pic.blocks| && 0 <= j < |pic.free| ::
              && pic.blocks[i].at == p == pic.free[j] && !pic.blocks[i].used && pic.blocks[i].size >= need
              && (forall c <- pic.blocks, k | 0 <= k < j :: c.at == pic.free[k] ==> c.size < need)
              && UsedSet(after.blocks) == UsedSet(pic.blocks) + {Handed(pic.blocks[i], need)}
  {
    hide UsedSet, Good, AllocAt;
    var j := FirstFit(pic, need, 0);
    TakenUsed(pic, end, j, need);
    var i := Find(pic.blocks, pic.free[j]);
    forall c <- pic.blocks, k | 0 <= k < j && c.at == pic.free[k] ensures c.size < need {
      TooSmall(pic, end, k, need, c);
    }
  }

  lemma {:induction false} TooSmall(pic: Picture, end: int, k: nat, need: int, c: Block)
    requires Good(pic, end) && k < |pic.free| && !Fits(pic, k, need) && c in pic.blocks && c.at == pic.free[k]
    ensures c.size < need
  {
    var m :| 0 <= m < |pic.blocks| && pic.blocks[m] == c;
    FindIs(pic.blocks, end, m);
  }

  // rt_memheap_free: that block stops being used, and no other.
  lemma {:induction false} FreeAnswers(pic: Picture, end: int, i: nat)
    requires Good(pic, end) && i + 1 < |pic.blocks| && pic.blocks[i].used
    ensures UsedSet(Free(pic, i).blocks) == UsedSet(pic.blocks) - {pic.blocks[i]}
  {
    hide UsedSet, Free;
    Around(pic, end, i);
    FreeIsOneBlock(pic, end, i);
    var lo, hi := Lo(pic, i), Hi(pic, i);
    var all := Block(pic.blocks[lo].at, pic.blocks[hi].at - pic.blocks[lo].at - HDR, false);
    UsedReplaced(pic.blocks, end, lo, hi, [all]);
    UsedOne(all);
    UsedStretch(pic, i);
  }

  lemma {:induction false} UsedStretch(pic: Picture, i: nat)
    requires i + 1 < |pic.blocks| && pic.blocks[i].used && Hi(pic, i) < |pic.blocks|
    ensures UsedSet(pic.blocks[Lo(pic, i)..Hi(pic, i)]) == {pic.blocks[i]}
    ensures UsedSet(pic.blocks[i..Hi(pic, i)]) == {pic.blocks[i]}
  {
    assert pic.blocks[i..Hi(pic, i)][0] == pic.blocks[i];
    assert pic.blocks[Lo(pic, i)..Hi(pic, i)][i - Lo(pic, i)] == pic.blocks[i];
  }

  // ---- realloc ----

  lemma {:induction false} GrowUsed(pic: Picture, end: int, i: nat, need: int)
    requires Good(pic, end) && i + 1 < |pic.blocks| && pic.blocks[i].used && !pic.blocks[i + 1].used && CanGrow(pic, i, need)
    ensures UsedSet(Grow(pic, i, need).blocks) == UsedSet(pic.blocks) - {pic.blocks[i]} + {Block(pic.blocks[i].at, need, true)}
  {
    hide UsedSet;
    Around(pic, end, i);
    var b, n := pic.blocks[i], pic.blocks[i + 1];
    var c, d := Block(b.at, need, true), Block(b.at + HDR + need, n.size - (need - b.size), false);
    UsedReplaced(pic.blocks, end, i, i + 2, [c, d]);
    UsedTwo(c, d);
    UsedOne(c);
    UsedOne(d);
    UsedStretch(pic, i);
  }

  lemma {:induction false} ShrinkUsed(pic: Picture, end: int, i: nat, need: int)
    requires Good(pic, end) && i + 1 < |pic.blocks| && pic.blocks[i].used
    ensures UsedSet(Shrink(pic, i, need).blocks) == UsedSet(pic.blocks) - {pic.blocks[i]} + {Block(pic.blocks[i].at, need, true)}
  {
    hide UsedSet, Shrink;
    Around(pic, end, i);
    ShrinkIsTwoBlocks(pic, end, i, need);
    var hi, q := Hi(pic, i), pic.blocks[i].at + HDR + need;
    var c, d := Block(pic.blocks[i].at, need, true), Block(q, pic.blocks[hi].at - q - HDR, false);
    UsedReplaced(pic.blocks, end, i, hi, [c, d]);
    UsedTwo(c, d);
    UsedOne(c);
    UsedOne(d);
    UsedStretch(pic, i);
  }

  // A block that moves: the new one is used, the old one no longer is.
  lemma {:induction false} MoveUsed(pic: Picture, end: int, i: nat, need: int)
    requires Good(pic, end) && i + 1 < |pic.blocks| && pic.blocks[i].used && need > pic.blocks[i].size >= 0
    requires Alloc(pic, need).Some?
    ensures var (after, p) := Alloc(pic, need).value;
            var i' := Find(after.blocks, pic.blocks[i].at);
            && i' + 1 < |after.blocks| && p >= START && p != pic.blocks[i].at
            && exists c: Block :: c.at == p && c.used && c.size >= need
                           && UsedSet(Free(after, i').blocks) == UsedSet(pic.blocks) - {pic.blocks[i]} + {c}
  {
    hide UsedSet, Free, Good, AllocAt;
    var j := FirstFit(pic, need, 0);
    var i' := OwnedSurvivesAlloc(pic, end, j, need, i);
    GoodAlloc(pic, end, j, need);
    TakenUsed(pic, end, j, need);
    FreeAnswers(AllocAt(pic, j, need), end, i');
    var f := Find(pic.blocks, pic.free[j]);
    var c := Handed(pic.blocks[f], need);
    AtLeastStart(pic, end, f, i);
    assert c != pic.blocks[i];
    assert UsedSet(pic.blocks) + {c} - {pic.blocks[i]} == UsedSet(pic.blocks) - {pic.blocks[i]} + {c};
  }

  lemma {:induction false} AtLeastStart(pic: Picture, end: int, f: nat, i: nat)
    requires Good(pic, end) && f < |pic.blocks| && i < |pic.blocks| && pic.blocks[f].used != pic.blocks[i].used
    ensures pic.blocks[f].at >= START && pic.blocks[i].at >= START && pic.blocks[f].at != pic.blocks[i].at
  {
    FindIs(pic.blocks, end, f);
    FindIs(pic.blocks, end, i);
    if f > 0 { TiledOrder(pic.blocks, end, 0, f); }
    if i > 0 { TiledOrder(pic.blocks, end, 0, i); }
  }

  // A block of `size` words can stay where it is if it is large enough, or if the next one is free and the
  // two together have more than the request and 12 bytes.
  predicate Stays(b: Block, next: Block, need: int)
  {
    need <= b.size || (!next.used && b.size + next.size > need + MINI)
  }

  // rt_memheap_realloc of a used block to n bytes.
  lemma {:induction false} ReallocAnswers(pic: Picture, end: int, i: nat, n: nat)
    requires Good(pic, end) && i + 1 < |pic.blocks| && pic.blocks[i].used
    ensures var (r, p) := Realloc(pic, i, n);
            var b, need, again := pic.blocks[i], RequestWords(n), RequestWords(RequestBytes(n));
            && (p == b.at + HDR <==> Stays(b, pic.blocks[i + 1], need))
            && (p == NIL <==> !Stays(b, pic.blocks[i + 1], need)
                              && (again >= FreeWords(pic.blocks) || forall c <- pic.blocks :: c.used || c.size < again))
            && (p == NIL ==> r == pic)
            && (p != NIL ==>
                  exists c: Block :: c.at + HDR == p && c.used && c.size >= need
                              && UsedSet(r.blocks) == UsedSet(pic.blocks) - {b} + {c}
                              && (Stays(b, pic.blocks[i + 1], need) ==>
                                    c.size == if b.size < need || b.size > need + HDR + MINI then need else b.size))
  {
    hide UsedSet, Good, Free, Grow, Shrink, Alloc, RequestWords, RequestBytes;
    var b, need, again := pic.blocks[i], RequestWords(n), RequestWords(RequestBytes(n));
    AskAgain(n);
    Around(pic, end, i);
    OnOrAfterStart(pic, end, i);
    InUse(pic, i);
    if need > b.size && CanGrow(pic, i, need) {
      GrowUsed(pic, end, i, need);
    } else if need > b.size {
      AllocFailsIff(pic, end, again);
      EveryBlock(pic.blocks, again);
      if Alloc(pic, again).Some? { MoveUsed(pic, end, i, again); }
    } else if need + HDR + MINI < b.size {
      ShrinkUsed(pic, end, i, need);
    } else {
      assert UsedSet(pic.blocks) == UsedSet(pic.blocks) - {b} + {b};
    }
  }

  lemma InUse(pic: Picture, i: nat)
    requires i < |pic.blocks| && pic.blocks[i].used
    ensures pic.blocks[i] in UsedSet(pic.blocks)
  {
  }

  lemma AskAgain(n: nat)
    ensures RequestWords(RequestBytes(n)) >= RequestWords(n) >= MINI
  {
  }

  lemma EveryBlock(blocks: seq<Block>, again: int)
    ensures (forall i | 0 <= i < |blocks| :: blocks[i].used || blocks[i].size < again) <==>
            (forall c <- blocks :: c.used || c.size < again)
  {
  }

  lemma {:induction false} OnOrAfterStart(pic: Picture, end: int, i: nat)
    requires Good(pic, end) && i < |pic.blocks|
    ensures pic.blocks[i].at >= START
  {
    if i > 0 { TiledOrder(pic.blocks, end, 0, i); }
  }

  // Of max_used_size: while it runs a realloc never has more in use than with the block at its new size,
  // and the old one beside it if it moves.
  lemma {:induction false} BusiestAnswers(pic: Picture, end: int, i: nat, n: nat)
    requires Good(pic, end) && i + 1 < |pic.blocks| && pic.blocks[i].used
    ensures var (r, p) := Realloc(pic, i, n);
            var b, most := pic.blocks[i], Busiest(pic, i, n);
            && (p == NIL || RequestWords(n) <= b.size ==> most == pic)
            && (p == b.at + HDR && RequestWords(n) > b.size ==> most == r)
            && (p != NIL && p != b.at + HDR ==> UsedSet(most.blocks) == UsedSet(r.blocks) + {b})
  {
    hide UsedSet, Good, Free, Grow, Shrink, AllocAt, RequestWords, RequestBytes;
    var b, need, again := pic.blocks[i], RequestWords(n), RequestWords(RequestBytes(n));
    AskAgain(n);
    Around(pic, end, i);
    OnOrAfterStart(pic, end, i);
    if need > b.size && !CanGrow(pic, i, need) && Alloc(pic, again).Some? {
      var j := FirstFit(pic, again, 0);
      var i' := OwnedSurvivesAlloc(pic, end, j, again, i);
      GoodAlloc(pic, end, j, again);
      FreeAnswers(AllocAt(pic, j, again), end, i');
      InUse(AllocAt(pic, j, again), i');
      MoveUsed(pic, end, i, again);
    }
  }

  // ---- The order of the free list ----

  // The addresses that are also in another list, in their order.
  function Kept(q: seq<int>, now: seq<int>): seq<int>
  {
    if q == [] then [] else (if q[0] in now then [q[0]] else []) + Kept(q[1..], now)
  }

  // What was free before and still is keeps its order; at most one new entry stands in front of it all.
  ghost predicate NewFirst(was: seq<int>, now: seq<int>)
  {
    now == Kept(was, now) || (now != [] && now[0] !in was && now[1..] == Kept(was, now))
  }

  lemma {:induction false} AllKept(was: seq<int>, now: seq<int>)
    requires forall x <- was :: x in now
    ensures Kept(was, now) == was
  {
    if was != [] {
      var x := was[0];
      assert x in was && x in now;
      forall y <- was[1..] ensures y in now { assert y in was; }
      AllKept(was[1..], now);
    }
  }

  lemma {:induction false} OneDropped(was: seq<int>, x: int, now: seq<int>)
    requires Distinct(was) && x !in now && forall y <- was :: y != x ==> y in now
    ensures Kept(was, now) == Without(was, x)
  {
    if was != [] {
      assert forall k | 0 <= k < |was[1..]| :: was[1..][k] == was[k + 1];
      assert Distinct(was[1..]) && was[0] !in was[1..] && forall y <- was[1..] :: y in was;
      if was[0] == x { AllKept(was[1..], now); } else { OneDropped(was[1..], x, now); }
    }
  }

  lemma {:induction false} NewInFront(was: seq<int>, rest: seq<int>, x: int, now: seq<int>)
    requires Distinct(was) && rest == Without(was, x)
    requires now == rest || (now != [] && now[0] !in was && now[0] != x && now[1..] == rest)
    ensures NewFirst(was, now)
  {
    WithoutElems(was, x);
    assert now != [] ==> now == [now[0]] + now[1..];
    OneDropped(was, x, now);
  }

  lemma {:induction false} WithoutAt(s: seq<int>, j: nat)
    requires Distinct(s) && j < |s|
    ensures RemoveAt(s, j) == Without(s, s[j])
  {
    if j > 0 {
      assert forall k | 0 <= k < |s[1..]| :: s[1..][k] == s[k + 1];
      WithoutAt(s[1..], j - 1);
      assert RemoveAt(s, j) == [s[0]] + RemoveAt(s[1..], j - 1);
    }
  }

  lemma {:induction false} WithoutNone(s: seq<int>, x: int)
    requires x !in s
    ensures Without(s, x) == s
  {
    if s != [] { WithoutNone(s[1..], x); }
  }

  // An address inside a block is no header.
  lemma {:induction false} InsideBlock(pic: Picture, end: int, m: nat, y: int)
    requires Good(pic, end) && m + 1 < |pic.blocks| && pic.blocks[m].at < y < pic.blocks[m + 1].at
    ensures y !in pic.free
  {
    if y in pic.free {
      var k :| 0 <= k < |pic.blocks| && pic.blocks[k].at == y && !pic.blocks[k].used;
      if k < m { TiledOrder(pic.blocks, end, k, m); }
      if k > m + 1 { TiledOrder(pic.blocks, end, m + 1, k); }
    }
  }

  // Taking a block leaves the order of the free list; what is cut off becomes the first to be tried.
  lemma {:induction false} AllocOrder(pic: Picture, end: int, need: int)
    requires Good(pic, end) && need >= 0 && Alloc(pic, need).Some?
    ensures NewFirst(pic.free, Alloc(pic, need).value.0.free)
  {
    hide Without, RemoveAt, NewFirst, Split;
    var j := FirstFit(pic, need, 0);
    FreeEntry(pic, end, j);
    var i := Find(pic.blocks, pic.free[j]);
    var b := pic.blocks[i];
    WithoutAt(pic.free, j);
    if b.size >= need + HDR + MINI {
      InsideBlock(pic, end, i, b.at + HDR + need);
    }
    NewInFront(pic.free, RemoveAt(pic.free, j), b.at, AllocAt(pic, j, need).free);
  }

  // So does a release: the block is the first to be tried unless its left neighbour swallows it.
  lemma {:induction false} FreeOrder(pic: Picture, end: int, i: nat)
    requires Good(pic, end) && i + 1 < |pic.blocks| && pic.blocks[i].used
    ensures NewFirst(pic.free, Free(pic, i).free)
    ensures i == 0 || pic.blocks[i - 1].used ==> Free(pic, i).free != [] && Free(pic, i).free[0] == pic.blocks[i].at
  {
    hide Without, NewFirst;
    UsedNotFree(pic, end, i);
    var n := pic.blocks[i + 1];
    if n.used {
      UsedNotFree(pic, end, i + 1);
      WithoutNone(pic.free, n.at);
    }
    NewInFront(pic.free, Without(pic.free, n.at), n.at, Free(pic, i).free);
  }

  // And a realloc that stays in place: what it leaves behind the block is tried first.
  lemma {:induction false} ResizeOrder(pic: Picture, end: int, i: nat, n: nat)
    requires Good(pic, end) && i + 1 < |pic.blocks| && pic.blocks[i].used
    requires Stays(pic.blocks[i], pic.blocks[i + 1], RequestWords(n))
    ensures NewFirst(pic.free, Realloc(pic, i, n).0.free)
    ensures var r, b := Realloc(pic, i, n).0, pic.blocks[i];
            RequestWords(n) > b.size || RequestWords(n) + HDR + MINI < b.size ==>
              r.free != [] && r.free[0] == b.at + HDR + RequestWords(n)
  {
    hide Without, NewFirst, Good, Split, Merge, Replace;
    var b, m, need := pic.blocks[i], pic.blocks[i + 1], RequestWords(n);
    var q := b.at + HDR + need;
    GoodFreeList(pic, end);
    Around(pic, end, i);
    if m.used {
      UsedNotFree(pic, end, i + 1);
      WithoutNone(pic.free, m.at);
    }
    if need > b.size {
      InsideBlock(pic, end, i + 1, q);
      NewInFront(pic.free, Without(pic.free, m.at), m.at, Grow(pic, i, need).free);
    } else if need + HDR + MINI < b.size {
      InsideBlock(pic, end, i, q);
      ShrinkSteps(pic, end, i, need);
      NewInFront(pic.free, Without(pic.free, m.at), m.at, Shrink(pic, i, need).free);
    } else {
      Unchanged(pic.free);
    }
  }

  lemma GoodFreeList(pic: Picture, end: int)
    requires Good(pic, end)
    ensures Distinct(pic.free)
  {
  }

  lemma Unchanged(q: seq<int>)
    ensures NewFirst(q, q)
  {
    AllKept(q, q);
  }

  // ---- Runs ----

  // A run of one call is that call.
  lemma {:induction false} OneCall(pic: Picture, end: int, i: nat, n: nat)
    requires Good(pic, end) && i + 1 < |pic.blocks| && pic.blocks[i].used
    ensures Run(pic, [DoAlloc(n)]) == (match Alloc(pic, RequestWords(n)) case None => pic case Some(r) => r.0)
    ensures Run(pic, [DoFree(pic.blocks[i].at)]) == Free(pic, i)
    ensures Run(pic, [DoRealloc(pic.blocks[i].at, n)]) == if n == 0 then Free(pic, i) else Realloc(pic, i, n).0
  {
    hide Alloc, Free, Realloc, RequestWords;
    FindIs(pic.blocks, end, i);
    assert [DoAlloc(n)][1..] == [] && [DoFree(pic.blocks[i].at)][1..] == [] && [DoRealloc(pic.blocks[i].at, n)][1..] == [];
  }
}
