/** The simple picture that MDK/src/memheap.c must agree with: a pool tiled by blocks, each
    free or owned, and the order of the free list.  All sizes and addresses count 32-bit words. */
module MemHeapPicture {

  const HDR := 6           // RT_MEMHEAP_SIZE: six 4-byte fields, rounded up to 8 bytes
  const MINI := 3          // RT_MEMHEAP_MINIALLOC: 12 bytes
  const ALIGN_BYTES := 8   // RT_ALIGN_SIZE
  const START := HDR       // start_addr; the words below it are the free-list header in the heap object

  const NIL := -1          // RT_NULL

  datatype Option<+T> = None | Some(value: T)

  // A block header at address `at`, followed by `size` words of payload.
  datatype Block = Block(at: int, size: int, used: bool)

  datatype Picture = Picture(blocks: seq<Block>, free: seq<int>)

  // The size computation of every request: RT_ALIGN, then the minimum (which is not itself aligned).
  function RequestBytes(n: nat): (r: nat)
    ensures n <= r && 12 <= r && r % 4 == 0
    ensures r % ALIGN_BYTES != 0 <==> n <= 8
    ensures n > 8 ==> r < n + ALIGN_BYTES
  {
    var units := (n + 7) / 8;
    assert 8 * units >= n && 8 * units < n + 8;
    var aligned := units * ALIGN_BYTES;
    if aligned < 4 * MINI then 4 * MINI else aligned
  }

  function RequestWords(n: nat): (w: nat)
    ensures 4 * w >= n && w >= MINI
  {
    RequestBytes(n) / 4
  }

  // ---- Well-formed pictures ----

  // The blocks tile [START, end) without gaps or overlap, in address order.
  ghost predicate Tiled(blocks: seq<Block>, end: int)
  {
    && |blocks| >= 2
    && blocks[0].at == START
    && (forall i | 0 <= i < |blocks| :: blocks[i].size >= 0)
    && (forall i | 0 <= i < |blocks| - 1 :: blocks[i + 1].at == blocks[i].at + HDR + blocks[i].size)
    && blocks[|blocks| - 1] == Block(end - HDR, 0, true)
  }

  ghost predicate NoTwoFree(blocks: seq<Block>)
  {
    forall i | 0 <= i < |blocks| - 1 :: blocks[i].used || blocks[i + 1].used
  }

  ghost predicate Distinct(s: seq<int>)
  {
    forall i, j | 0 <= i < j < |s| :: s[i] != s[j]
  }

  ghost predicate HasFree(blocks: seq<Block>, p: int)
  {
    exists i | 0 <= i < |blocks| :: blocks[i].at == p && !blocks[i].used
  }

  // The free list holds exactly the unused blocks, once each.
  ghost predicate FreeExact(blocks: seq<Block>, free: seq<int>)
  {
    Distinct(free) && forall p :: p in free <==> HasFree(blocks, p)
  }

  ghost predicate Good(pic: Picture, end: int)
  {
    Tiled(pic.blocks, end) && NoTwoFree(pic.blocks) && FreeExact(pic.blocks, pic.free)
  }

  function FreeWords(blocks: seq<Block>): int
  {
    if blocks == [] then 0
    else (if blocks[0].used then 0 else blocks[0].size) + FreeWords(blocks[1..])
  }

  // ---- Positions ----

  // Index of the block whose header is at `p`, or |blocks|.
  function Find(blocks: seq<Block>, p: int): (i: nat)
    ensures i <= |blocks|
    ensures i < |blocks| ==> blocks[i].at == p
    ensures forall k | 0 <= k < i :: blocks[k].at != p
  {
    if blocks == [] then 0
    else if blocks[0].at == p then 0
    else
      var rest := Find(blocks[1..], p);
      assert forall k | 1 <= k < rest + 1 :: blocks[k] == blocks[1..][k - 1];
      rest + 1
  }

  lemma {:induction false} TiledOrder(blocks: seq<Block>, end: int, i: int, j: int)
    requires Tiled(blocks, end) && 0 <= i < j < |blocks|
    ensures blocks[i].at + HDR + blocks[i].size <= blocks[j].at
    decreases j
  {
    if i + 1 < j {
      TiledOrder(blocks, end, i, j - 1);
    }
  }

  lemma {:induction false} FindIs(blocks: seq<Block>, end: int, i: int)
    requires Tiled(blocks, end) && 0 <= i < |blocks|
    ensures Find(blocks, blocks[i].at) == i
  {
    var k := Find(blocks, blocks[i].at);
    if k < i {
      TiledOrder(blocks, end, k, i);
    }
  }

  // ---- The operations on pictures ----

  // First free-list position whose block holds at least `need` words, or |free|.
  function FirstFit(pic: Picture, need: int, from: nat): (j: nat)
    requires from <= |pic.free|
    ensures from <= j <= |pic.free|
    ensures j < |pic.free| ==> Fits(pic, j, need)
    ensures forall k | from <= k < j :: !Fits(pic, k, need)
    decreases |pic.free| - from
  {
    if from == |pic.free| || Fits(pic, from, need) then from else FirstFit(pic, need, from + 1)
  }

  predicate Fits(pic: Picture, j: nat, need: int)
    requires j < |pic.free|
  {
    var i := Find(pic.blocks, pic.free[j]);
    i < |pic.blocks| && pic.blocks[i].size >= need
  }

  function RemoveAt<T>(s: seq<T>, j: nat): seq<T>
    requires j < |s|
  {
    s[..j] + s[j + 1..]
  }

  function Without(s: seq<int>, x: int): seq<int>
  {
    if s == [] then [] else if s[0] == x then s[1..] else [s[0]] + Without(s[1..], x)
  }

  // The stretch i..k gives way to `mid`.
  function Replace(blocks: seq<Block>, i: nat, k: nat, mid: seq<Block>): seq<Block>
    requires i <= k <= |blocks|
  {
    blocks[..i] + mid + blocks[k..]
  }

  // Block i keeps `keep` words; the rest becomes a block of its own behind it.
  function Split(blocks: seq<Block>, i: nat, keep: int): seq<Block>
    requires i < |blocks|
  {
    var b := blocks[i];
    Replace(blocks, i, i + 1, [Block(b.at, keep, true), Block(b.at + HDR + keep, b.size - keep - HDR, false)])
  }

  // Block i swallows the header and payload of its successor.
  function Merge(blocks: seq<Block>, i: nat): seq<Block>
    requires i + 1 < |blocks|
  {
    Replace(blocks, i, i + 2, [blocks[i].(size := blocks[i].size + HDR + blocks[i + 1].size)])
  }

  function AllocAt(pic: Picture, j: nat, need: int): Picture
    requires j < |pic.free| && Fits(pic, j, need)
  {
    var i := Find(pic.blocks, pic.free[j]);
    if pic.blocks[i].size >= need + HDR + MINI then
      Picture(Split(pic.blocks, i, need), [pic.free[j] + HDR + need] + RemoveAt(pic.free, j))
    else
      Picture(pic.blocks[i := pic.blocks[i].(used := true)], RemoveAt(pic.free, j))
  }

  // The new picture and the header address handed out, if any.
  function Alloc(pic: Picture, need: int): Option<(Picture, int)>
  {
    var j := FirstFit(pic, need, 0);
    if need < FreeWords(pic.blocks) && j < |pic.free| then Some((AllocAt(pic, j, need), pic.free[j])) else None
  }

  // Merging with the successor, when it is free, takes it off the free list.
  function MergeRight(pic: Picture, i: nat): Picture
    requires i + 1 < |pic.blocks|
  {
    if pic.blocks[i + 1].used then pic
    else Picture(Merge(pic.blocks, i), Without(pic.free, pic.blocks[i + 1].at))
  }

  function Free(pic: Picture, i: nat): Picture
    requires i + 1 < |pic.blocks|
  {
    var marked := pic.blocks[i := pic.blocks[i].(used := false)];
    if i > 0 && !marked[i - 1].used then
      MergeRight(Picture(Merge(marked, i - 1), pic.free), i - 1)
    else
      var merged := MergeRight(Picture(marked, pic.free), i);
      merged.(free := [pic.blocks[i].at] + merged.free)
  }

  predicate CanGrow(pic: Picture, i: nat, need: int)
    requires i + 1 < |pic.blocks|
  {
    !pic.blocks[i + 1].used && pic.blocks[i + 1].size + pic.blocks[i].size > need + MINI
  }

  // Growing in place slides the header of the free successor up.
  function Grow(pic: Picture, i: nat, need: int): Picture
    requires i + 1 < |pic.blocks| && CanGrow(pic, i, need)
  {
    var b, n := pic.blocks[i], pic.blocks[i + 1];
    var q := b.at + HDR + need;
    Picture(Replace(pic.blocks, i, i + 2, [Block(b.at, need, true), Block(q, n.size - (need - b.size), false)]),
            [q] + Without(pic.free, n.at))
  }

  function Shrink(pic: Picture, i: nat, need: int): Picture
    requires i + 1 < |pic.blocks|
  {
    var q := pic.blocks[i].at + HDR + need;
    var merged := MergeRight(Picture(Split(pic.blocks, i, need), pic.free), i + 1);
    merged.(free := [q] + merged.free)
  }

  // Resizing the owned block i to n bytes: grow in place, move, leave alone, or shrink in place.
  // The size that a move allocates has been rounded twice.
  function Realloc(pic: Picture, i: nat, n: nat): (Picture, int)
    requires i + 1 < |pic.blocks|
  {
    var b, need := pic.blocks[i], RequestWords(n);
    if need > b.size then
      if CanGrow(pic, i, need) then (Grow(pic, i, need), b.at + HDR)
      else
        match Alloc(pic, RequestWords(RequestBytes(n)))
        case None => (pic, NIL)
        case Some((after, p)) =>
          var i' := Find(after.blocks, b.at);
          (if i' + 1 < |after.blocks| then Free(after, i') else after, p + HDR)
    else if need + HDR + MINI >= b.size then (pic, b.at + HDR)
    else (Shrink(pic, i, need), b.at + HDR)
  }

  // The picture at the moment of that operation when most words are in use.
  function Busiest(pic: Picture, i: nat, n: nat): Picture
    requires i + 1 < |pic.blocks|
  {
    var b, need := pic.blocks[i], RequestWords(n);
    if need <= b.size then pic
    else if CanGrow(pic, i, need) then Grow(pic, i, need)
    else
      match Alloc(pic, RequestWords(RequestBytes(n)))
      case None => pic
      case Some((after, p)) => after
  }

  function Fresh(end: int): Picture
  {
    Picture([Block(START, end - 2 * HDR - START, false), Block(end - HDR, 0, true)], [START])
  }

  // ---- Well-formedness is kept ----

  // A stretch of blocks i..k (never the tailer) is replaced by another that covers the same words.
  ghost predicate Covers(blocks: seq<Block>, i: int, k: int, mid: seq<Block>)
  {
    && 0 <= i < k < |blocks| && |mid| > 0
    && mid[0].at == blocks[i].at
    && (forall m | 0 <= m < |mid| :: mid[m].size >= 0)
    && (forall m | 0 <= m < |mid| - 1 :: mid[m + 1].at == mid[m].at + HDR + mid[m].size)
    && mid[|mid| - 1].at + HDR + mid[|mid| - 1].size == blocks[k].at
  }

  lemma {:induction false} TiledReplace(blocks: seq<Block>, end: int, i: int, k: int, mid: seq<Block>)
    requires Tiled(blocks, end) && Covers(blocks, i, k, mid)
    ensures Tiled(Replace(blocks, i, k, mid), end)
  {
    var r := Replace(blocks, i, k, mid);
    forall m | 0 <= m < |r| - 1
      ensures r[m + 1].at == r[m].at + HDR + r[m].size
    {
      if i <= m < i + |mid| {
        assert r[m] == mid[m - i];
        assert m + 1 < i + |mid| ==> r[m + 1] == mid[m + 1 - i];
      } else if m >= i + |mid| {
        assert r[m] == blocks[m - |mid| - i + k] && r[m + 1] == blocks[m + 1 - |mid| - i + k];
      }
    }
  }

  lemma {:induction false} HasFreeConcat(a: seq<Block>, b: seq<Block>, p: int)
    ensures HasFree(a + b, p) <==> HasFree(a, p) || HasFree(b, p)
  {
    if HasFree(a, p) {
      var i :| 0 <= i < |a| && a[i].at == p && !a[i].used;
      assert (a + b)[i] == a[i];
    }
    if HasFree(b, p) {
      var i :| 0 <= i < |b| && b[i].at == p && !b[i].used;
      assert (a + b)[|a| + i] == b[i];
    }
  }

  // What a replacement does to the set of free addresses.
  lemma {:induction false} HasFreeReplace(blocks: seq<Block>, end: int, i: int, k: int, mid: seq<Block>, p: int)
    requires Tiled(blocks, end) && Covers(blocks, i, k, mid)
    ensures blocks[i].at <= p < blocks[k].at ==> (HasFree(Replace(blocks, i, k, mid), p) <==> HasFree(mid, p))
    ensures blocks[i].at <= p < blocks[k].at ==> (HasFree(blocks, p) <==> HasFree(blocks[i..k], p))
    ensures !(blocks[i].at <= p < blocks[k].at) ==> (HasFree(Replace(blocks, i, k, mid), p) <==> HasFree(blocks, p))
  {
    var pre, gone, post := blocks[..i], blocks[i..k], blocks[k..];
    assert blocks == pre + gone + post;
    HasFreeConcat(pre + gone, post, p);
    HasFreeConcat(pre, gone, p);
    HasFreeConcat(pre + mid, post, p);
    HasFreeConcat(pre, mid, p);
    Bounds(blocks, end, i, k, mid);
    HasFreeWithin(mid, blocks[i].at, blocks[k].at, p);
    HasFreeWithin(gone, blocks[i].at, blocks[k].at, p);
    HasFreeWithin(pre, blocks[0].at, blocks[i].at, p);
    HasFreeWithin(post, blocks[k].at, end, p);
    hide HasFree, Tiled, Covers;
  }

  lemma {:induction false} HasFreeWithin(bs: seq<Block>, lo: int, hi: int, p: int)
    requires forall m | 0 <= m < |bs| :: lo <= bs[m].at < hi
    ensures HasFree(bs, p) ==> lo <= p < hi
  {
  }

  lemma {:induction false} Bounds(blocks: seq<Block>, end: int, i: int, k: int, mid: seq<Block>)
    requires Tiled(blocks, end) && Covers(blocks, i, k, mid)
    ensures forall m | 0 <= m < i :: blocks[0].at <= blocks[m].at < blocks[i].at
    ensures forall m | i <= m < k :: blocks[i].at <= blocks[m].at < blocks[k].at
    ensures forall m | k <= m < |blocks| :: blocks[k].at <= blocks[m].at < end
    ensures forall m | 0 <= m < |mid| :: blocks[i].at <= mid[m].at < blocks[k].at
  {
    forall m | 0 <= m < |blocks|
      ensures m < i ==> blocks[0].at <= blocks[m].at < blocks[i].at
      ensures i <= m < k ==> blocks[i].at <= blocks[m].at < blocks[k].at
      ensures k <= m ==> blocks[k].at <= blocks[m].at < end
    {
      if 0 < m { TiledOrder(blocks, end, 0, m); }
      if m < |blocks| - 1 { TiledOrder(blocks, end, m, |blocks| - 1); }
      if m < i { TiledOrder(blocks, end, m, i); }
      if i < m { TiledOrder(blocks, end, i, m); }
      if m < k { TiledOrder(blocks, end, m, k); }
      if k < m { TiledOrder(blocks, end, k, m); }
    }
    forall m | 0 <= m < |mid|
      ensures blocks[i].at <= mid[m].at < blocks[k].at
    {
      ChainBounds(mid, m);
    }
  }

  lemma {:induction false} ChainBounds(mid: seq<Block>, m: int)
    requires 0 <= m < |mid|
    requires forall j | 0 <= j < |mid| :: mid[j].size >= 0
    requires forall j | 0 <= j < |mid| - 1 :: mid[j + 1].at == mid[j].at + HDR + mid[j].size
    ensures mid[0].at <= mid[m].at < mid[|mid| - 1].at + HDR + mid[|mid| - 1].size
    decreases |mid|
  {
    if |mid| > 1 {
      if m > 0 {
        ChainBounds(mid[1..], m - 1);
      } else {
        ChainBounds(mid[1..], 0);
      }
    }
  }

  lemma {:induction false} WithoutElems(s: seq<int>, x: int)
    requires Distinct(s)
    ensures Distinct(Without(s, x))
    ensures forall p :: p in Without(s, x) <==> p in s && p != x
  {
    if s != [] {
      assert Distinct(s[1..]) && s[0] !in s[1..] by {
        assert forall j | 0 <= j < |s[1..]| :: s[1..][j] == s[j + 1];
      }
      WithoutElems(s[1..], x);
      assert forall p :: p in s <==> p == s[0] || p in s[1..];
    }
  }

  lemma {:induction false} RemoveAtElems(s: seq<int>, j: nat)
    requires Distinct(s) && j < |s|
    ensures Distinct(RemoveAt(s, j))
    ensures forall p :: p in RemoveAt(s, j) <==> p in s && p != s[j]
  {
    var r := RemoveAt(s, j);
    forall p | p in s && p != s[j]
      ensures p in r
    {
      var m :| 0 <= m < |s| && s[m] == p;
      assert p == r[if m < j then m else m - 1];
    }
  }

  // The one argument behind every operation: a stretch is retiled without creating two free
  // neighbours, and the free list changes by the same addresses.
  lemma {:induction false} GoodReplace(pic: Picture, end: int, i: int, k: int, mid: seq<Block>, free: seq<int>)
    requires Good(pic, end) && Covers(pic.blocks, i, k, mid)
    requires NoTwoFree(mid)
    requires i > 0 ==> pic.blocks[i - 1].used || mid[0].used
    requires pic.blocks[k].used || mid[|mid| - 1].used
    requires Distinct(free)
    requires forall p :: p in free <==>
      if pic.blocks[i].at <= p < pic.blocks[k].at then HasFree(mid, p) else p in pic.free
    ensures Good(Picture(Replace(pic.blocks, i, k, mid), free), end)
  {
    var r := Replace(pic.blocks, i, k, mid);
    TiledReplace(pic.blocks, end, i, k, mid);
    forall m | 0 <= m < |r| - 1
      ensures r[m].used || r[m + 1].used
    {
      if m + 1 < i {
        assert r[m] == pic.blocks[m] && r[m + 1] == pic.blocks[m + 1];
      } else if m + 1 == i {
      } else if m < i + |mid| {
        assert r[m] == mid[m - i];
        assert m + 1 < i + |mid| ==> r[m + 1] == mid[m + 1 - i];
      } else {
        assert r[m] == pic.blocks[m - |mid| - i + k] && r[m + 1] == pic.blocks[m + 1 - |mid| - i + k];
      }
    }
    forall p
      ensures p in free <==> HasFree(r, p)
    {
      HasFreeReplace(pic.blocks, end, i, k, mid, p);
    }
  }

  lemma {:induction false} FreshGood(end: int)
    requires end >= START + 2 * HDR
    ensures Good(Fresh(end), end)
    ensures FreeWords(Fresh(end).blocks) == end - START - 2 * HDR
  {
    var pic := Fresh(end);
    assert HasFree(pic.blocks, START) by { assert pic.blocks[0].at == START; }
    assert FreeWords(pic.blocks[1..]) == 0 by {
      assert pic.blocks[1..][1..] == [] && FreeWords([]) == 0;
    }
  }

  // Every free-list entry is a block other than the tailer.
  lemma {:induction false} FreeEntry(pic: Picture, end: int, j: nat)
    requires Good(pic, end) && j < |pic.free|
    ensures var i := Find(pic.blocks, pic.free[j]);
            i + 1 < |pic.blocks| && !pic.blocks[i].used && pic.blocks[i].at == pic.free[j]
  {
    assert pic.free[j] in pic.free;
    var i :| 0 <= i < |pic.blocks| && pic.blocks[i].at == pic.free[j] && !pic.blocks[i].used;
    FindIs(pic.blocks, end, i);
  }

  lemma {:induction false} HasFreeOne(b: Block, p: int)
    ensures HasFree([b], p) <==> b.at == p && !b.used
  {
    if b.at == p && !b.used {
      assert [b][0].at == p;
    }
  }

  lemma {:induction false} HasFreeTwo(b: Block, c: Block, p: int)
    ensures HasFree([b, c], p) <==> (b.at == p && !b.used) || (c.at == p && !c.used)
  {
    assert [b, c] == [b] + [c];
    HasFreeConcat([b], [c], p);
    HasFreeOne(b, p);
    HasFreeOne(c, p);
  }

  // Inside the stretch i..k the free list names exactly the stretch's own free blocks.
  lemma {:induction false} FreeInStretch(pic: Picture, end: int, i: int, k: int, p: int)
    requires Good(pic, end) && 0 <= i < k < |pic.blocks|
    ensures pic.blocks[i].at <= p < pic.blocks[k].at ==> (p in pic.free <==> HasFree(pic.blocks[i..k], p))
  {
    TiledStretch(pic.blocks, end, i, k);
    HasFreeReplace(pic.blocks, end, i, k, pic.blocks[i..k], p);
  }

  lemma {:induction false} TiledStretch(blocks: seq<Block>, end: int, i: int, k: int)
    requires Tiled(blocks, end) && 0 <= i < k < |blocks|
    ensures Covers(blocks, i, k, blocks[i..k])
  {
    var mid := blocks[i..k];
    assert mid[|mid| - 1] == blocks[k - 1];
    forall m | 0 <= m < |mid| - 1
      ensures mid[m + 1].at == mid[m].at + HDR + mid[m].size
    {
      assert mid[m] == blocks[i + m] && mid[m + 1] == blocks[i + m + 1];
    }
  }

  lemma {:induction false} GoodAllocSplit(pic: Picture, end: int, j: nat, i: nat, need: int)
    requires Good(pic, end) && j < |pic.free| && need >= 0
    requires i + 1 < |pic.blocks| && pic.blocks[i].at == pic.free[j] && !pic.blocks[i].used
    requires pic.blocks[i].size >= need + HDR + MINI
    ensures Good(Picture(Split(pic.blocks, i, need), [pic.free[j] + HDR + need] + RemoveAt(pic.free, j)), end)
  {
    hide Good, Covers, RemoveAt, Distinct;
    var b := pic.blocks[i];
    var c, d := Block(b.at, need, true), Block(b.at + HDR + need, b.size - need - HDR, false);
    var free := [d.at] + RemoveAt(pic.free, j);
    AroundFree(pic, end, i);
    CoversTwo(pic.blocks, i, i + 1, c, d);
    forall p
      ensures p in free <==> if b.at <= p < pic.blocks[i + 1].at then p == d.at else p in pic.free
    {
      FreeListTaken(pic, end, i, j, d.at, p);
    }
    FreeListTaken(pic, end, i, j, d.at, 0);
    GoodResize(pic, end, i, i + 1, c, d, free);
  }

  lemma {:induction false} AroundFree(pic: Picture, end: int, i: nat)
    requires Good(pic, end) && i + 1 < |pic.blocks| && !pic.blocks[i].used
    ensures pic.blocks[i + 1].used && pic.blocks[i + 1].at == pic.blocks[i].at + HDR + pic.blocks[i].size
    ensures pic.blocks[i].size >= 0 && (i > 0 ==> pic.blocks[i - 1].used)
  {
  }

  lemma {:induction false} FreeListTaken(pic: Picture, end: int, i: nat, j: nat, q: int, p: int)
    requires Good(pic, end) && j < |pic.free| && i + 1 < |pic.blocks|
    requires pic.blocks[i].at == pic.free[j] && !pic.blocks[i].used && pic.blocks[i].at < q < pic.blocks[i + 1].at
    ensures Distinct([q] + RemoveAt(pic.free, j))
    ensures p in [q] + RemoveAt(pic.free, j) <==>
      if pic.blocks[i].at <= p < pic.blocks[i + 1].at then p == q else p in pic.free
  {
    RemoveAtElems(pic.free, j);
    FreeNeighbours(pic, end, i, i + 1, i, q);
    FreeNeighbours(pic, end, i, i + 1, i, p);
  }

  lemma {:induction false} GoodAllocWhole(pic: Picture, end: int, j: nat, i: nat)
    requires Good(pic, end) && j < |pic.free|
    requires i + 1 < |pic.blocks| && pic.blocks[i].at == pic.free[j] && !pic.blocks[i].used
    ensures Good(Picture(pic.blocks[i := pic.blocks[i].(used := true)], RemoveAt(pic.free, j)), end)
  {
    var b := pic.blocks[i];
    var c := b.(used := true);
    RemoveAtElems(pic.free, j);
    forall p
      ensures p in RemoveAt(pic.free, j) <==>
        if b.at <= p < pic.blocks[i + 1].at then HasFree([c], p) else p in pic.free
    {
      HasFreeOne(c, p);
      FreeNeighbours(pic, end, i, i + 1, i, p);
    }
    GoodReplace(pic, end, i, i + 1, [c], RemoveAt(pic.free, j));
    assert pic.blocks[i := c] == Replace(pic.blocks, i, i + 1, [c]);
  }

  lemma {:induction false} GoodAlloc(pic: Picture, end: int, j: nat, need: int)
    requires Good(pic, end) && j < |pic.free| && need >= 0 && Fits(pic, j, need)
    ensures Good(AllocAt(pic, j, need), end)
  {
    FreeEntry(pic, end, j);
    var i := Find(pic.blocks, pic.free[j]);
    if pic.blocks[i].size >= need + HDR + MINI {
      GoodAllocSplit(pic, end, j, i, need);
    } else {
      GoodAllocWhole(pic, end, j, i);
    }
  }

  // Where the block that a free leaves behind begins, and the block it ends at.
  function Lo(pic: Picture, i: nat): (lo: nat)
    requires i < |pic.blocks|
    ensures i - 1 <= lo <= i
  {
    if i > 0 && !pic.blocks[i - 1].used then i - 1 else i
  }

  function Hi(pic: Picture, i: nat): (hi: nat)
    requires i + 1 < |pic.blocks|
    ensures i + 1 <= hi <= i + 2
  {
    if pic.blocks[i + 1].used then i + 1 else i + 2
  }

  // The surroundings of an owned block.
  lemma {:induction false} Around(pic: Picture, end: int, i: nat)
    requires Good(pic, end) && i + 1 < |pic.blocks| && pic.blocks[i].used
    ensures Hi(pic, i) < |pic.blocks| && pic.blocks[Hi(pic, i)].used
    ensures pic.blocks[i + 1].at == pic.blocks[i].at + HDR + pic.blocks[i].size
    ensures Hi(pic, i) == i + 2 ==> pic.blocks[i + 2].at == pic.blocks[i + 1].at + HDR + pic.blocks[i + 1].size
    ensures Lo(pic, i) < i ==> pic.blocks[i].at == pic.blocks[i - 1].at + HDR + pic.blocks[i - 1].size
    ensures pic.blocks[i].size >= 0 && pic.blocks[i + 1].size >= 0
  {
  }

  lemma {:induction false} FreeIsOneBlock(pic: Picture, end: int, i: nat)
    requires Good(pic, end) && i + 1 < |pic.blocks| && pic.blocks[i].used && Hi(pic, i) < |pic.blocks|
    ensures var lo, hi := Lo(pic, i), Hi(pic, i);
            Free(pic, i).blocks == Replace(pic.blocks, lo, hi,
              [Block(pic.blocks[lo].at, pic.blocks[hi].at - pic.blocks[lo].at - HDR, false)])
  {
    hide Good;
    Around(pic, end, i);
    var lo, hi := Lo(pic, i), Hi(pic, i);
    var all := Block(pic.blocks[lo].at, pic.blocks[hi].at - pic.blocks[lo].at - HDR, false);
    if lo < i {
      FreeMergesLeft(pic, i, all);
    } else if hi == i + 2 {
      ReplaceUpdate(pic.blocks, i, pic.blocks[i].(used := false), i, hi, [all]);
    } else {
      assert pic.blocks[i := all] == Replace(pic.blocks, i, i + 1, [all]);
    }
  }

  lemma {:induction false} ReplaceAt(blocks: seq<Block>, i: nat, k: nat, b: Block)
    requires i < k <= |blocks|
    ensures |Replace(blocks, i, k, [b])| == |blocks| - (k - i) + 1 && Replace(blocks, i, k, [b])[i] == b
    ensures k < |blocks| ==> Replace(blocks, i, k, [b])[i + 1] == blocks[k]
  {
  }

  lemma {:induction false} FreeMergesLeft(pic: Picture, i: nat, all: Block)
    requires 0 < i && i + 1 < |pic.blocks| && !pic.blocks[i - 1].used && Hi(pic, i) < |pic.blocks|
    requires pic.blocks[i + 1].at == pic.blocks[i].at + HDR + pic.blocks[i].size
    requires Hi(pic, i) == i + 2 ==> pic.blocks[i + 2].at == pic.blocks[i + 1].at + HDR + pic.blocks[i + 1].size
    requires pic.blocks[i].at == pic.blocks[i - 1].at + HDR + pic.blocks[i - 1].size
    requires all == Block(pic.blocks[i - 1].at, pic.blocks[Hi(pic, i)].at - pic.blocks[i - 1].at - HDR, false)
    ensures Free(pic, i).blocks == Replace(pic.blocks, i - 1, Hi(pic, i), [all])
  {
    hide Without, RemoveAt, Split, Replace;
    var left := Block(all.at, pic.blocks[i + 1].at - all.at - HDR, false);
    ReplaceAt(pic.blocks, i - 1, i + 1, left);
    ReplaceUpdate(pic.blocks, i, pic.blocks[i].(used := false), i - 1, i + 1, [left]);
    ReplaceTwice(pic.blocks, i - 1, i + 1, left, all);
  }

  lemma {:induction false} ReplaceUpdate(blocks: seq<Block>, j: nat, b: Block, i: nat, k: nat, mid: seq<Block>)
    requires i <= j < k <= |blocks|
    ensures Replace(blocks[j := b], i, k, mid) == Replace(blocks, i, k, mid)
  {
  }

  lemma {:induction false} ReplaceTwice(blocks: seq<Block>, i: nat, k: nat, x: Block, y: Block)
    requires i <= k < |blocks|
    ensures Replace(Replace(blocks, i, k, [x]), i, i + 2, [y]) == Replace(blocks, i, k + 1, [y])
    ensures Replace(blocks, i, k, [x])[i] == x && Replace(blocks, i, k, [x])[i + 1] == blocks[k]
  {
  }

  lemma {:induction false} FreeListOfFree(pic: Picture, end: int, i: nat, p: int)
    requires Good(pic, end) && i + 1 < |pic.blocks| && pic.blocks[i].used
    ensures Distinct(Free(pic, i).free)
    ensures p in Free(pic, i).free <==>
      (p in pic.free && p != pic.blocks[i + 1].at) || (p == pic.blocks[i].at && Lo(pic, i) == i)
  {
    var n := pic.blocks[i + 1];
    WithoutElems(pic.free, n.at);
    FreeNeighbours(pic, end, i, i + 1, i, pic.blocks[i].at);
    if n.used {
      if n.at in pic.free {
        var m :| 0 <= m < |pic.blocks| && pic.blocks[m].at == n.at && !pic.blocks[m].used;
        FindIs(pic.blocks, end, m);
        FindIs(pic.blocks, end, i + 1);
        assert false;
      }
    }
  }

  lemma {:induction false} GoodFree(pic: Picture, end: int, i: nat)
    requires Good(pic, end) && i + 1 < |pic.blocks| && pic.blocks[i].used
    ensures Good(Free(pic, i), end)
  {
    hide Good, Free, Covers, Distinct, Lo, Hi, NoTwoFree;
    Around(pic, end, i);
    FreeIsOneBlock(pic, end, i);
    FreeStretch(pic, end, i);
    var lo, hi := Lo(pic, i), Hi(pic, i);
    var all := Block(pic.blocks[lo].at, pic.blocks[hi].at - pic.blocks[lo].at - HDR, false);
    forall p
      ensures p in Free(pic, i).free <==>
        if pic.blocks[lo].at <= p < pic.blocks[hi].at then HasFree([all], p) else p in pic.free
    {
      FreeElems(pic, end, i, p);
      HasFreeOne(all, p);
    }
    FreeListOfFree(pic, end, i, 0);
    assert NoTwoFree([all]) by { OneIsFine(all); }
    GoodReplace(pic, end, lo, hi, [all], Free(pic, i).free);
  }

  lemma {:induction false} OneIsFine(b: Block)
    ensures NoTwoFree([b])
  {
  }

  lemma {:induction false} FreeElems(pic: Picture, end: int, i: nat, p: int)
    requires Good(pic, end) && i + 1 < |pic.blocks| && pic.blocks[i].used && Hi(pic, i) < |pic.blocks|
    ensures p in Free(pic, i).free <==>
      if pic.blocks[Lo(pic, i)].at <= p < pic.blocks[Hi(pic, i)].at then p == pic.blocks[Lo(pic, i)].at else p in pic.free
  {
    hide Good, Free;
    Around(pic, end, i);
    FreeAround(pic, end, i, p);
    FreeListOfFree(pic, end, i, p);
    if pic.blocks[i + 1].used { UsedNotFree(pic, end, i + 1); }
  }

  lemma {:induction false} FreeStretch(pic: Picture, end: int, i: nat)
    requires Good(pic, end) && i + 1 < |pic.blocks| && pic.blocks[i].used && Hi(pic, i) < |pic.blocks|
    ensures var lo, hi := Lo(pic, i), Hi(pic, i);
            && Covers(pic.blocks, lo, hi, [Block(pic.blocks[lo].at, pic.blocks[hi].at - pic.blocks[lo].at - HDR, false)])
            && pic.blocks[hi].used
            && (lo > 0 ==> pic.blocks[lo - 1].used)
  {
    TiledOrder(pic.blocks, end, Lo(pic, i), Hi(pic, i));
  }

  lemma {:induction false} FreeAround(pic: Picture, end: int, i: nat, p: int)
    requires Good(pic, end) && i + 1 < |pic.blocks| && pic.blocks[i].used && Hi(pic, i) < |pic.blocks|
    ensures var lo, hi := Lo(pic, i), Hi(pic, i);
            pic.blocks[lo].at <= p < pic.blocks[hi].at ==>
              (p in pic.free <==> (lo < i && p == pic.blocks[lo].at) || (hi == i + 2 && p == pic.blocks[i + 1].at))
    ensures pic.blocks[Lo(pic, i)].at <= pic.blocks[i].at < pic.blocks[i + 1].at
    ensures Hi(pic, i) == i + 2 ==> pic.blocks[i + 1].at < pic.blocks[i + 2].at
  {
    FreeNeighbours(pic, end, Lo(pic, i), Hi(pic, i), i, p);
  }

  lemma {:induction false} FreeNeighbours(pic: Picture, end: int, lo: int, hi: int, i: int, p: int)
    requires Good(pic, end) && 0 <= lo <= i < hi < |pic.blocks| && i - 1 <= lo && hi <= i + 2
    ensures pic.blocks[lo].at <= p < pic.blocks[hi].at ==>
      (p in pic.free <==> exists m | lo <= m < hi :: pic.blocks[m].at == p && !pic.blocks[m].used)
  {
    FreeInStretch(pic, end, lo, hi, p);
    if HasFree(pic.blocks[lo..hi], p) {
      var m :| 0 <= m < hi - lo && pic.blocks[lo..hi][m].at == p && !pic.blocks[lo..hi][m].used;
      assert pic.blocks[lo + m].at == p;
    }
    if m :| lo <= m < hi && pic.blocks[m].at == p && !pic.blocks[m].used {
      assert pic.blocks[lo..hi][m - lo].at == p;
    }
  }

  // What the free list becomes when the free block behind block i, if any, gives way to one at q.
  function Moved(pic: Picture, i: nat, q: int): seq<int>
    requires i + 1 < |pic.blocks|
  {
    [q] + if pic.blocks[i + 1].used then pic.free else Without(pic.free, pic.blocks[i + 1].at)
  }

  lemma {:induction false} FreeListMoved(pic: Picture, end: int, i: nat, hi: nat, q: int, p: int)
    requires Good(pic, end) && i + 1 < |pic.blocks| && pic.blocks[i].used && hi == Hi(pic, i) && hi < |pic.blocks|
    requires pic.blocks[i].at < q < pic.blocks[hi].at
    ensures Distinct(Moved(pic, i, q))
    ensures p in Moved(pic, i, q) <==> if pic.blocks[i].at <= p < pic.blocks[hi].at then p == q else p in pic.free
  {
    WithoutElems(pic.free, pic.blocks[i + 1].at);
    FreeNeighbours(pic, end, i, hi, i, q);
    FreeNeighbours(pic, end, i, hi, i, p);
    assert pic.blocks[i].at < pic.blocks[i + 1].at;
  }

  lemma {:induction false} UsedNotFree(pic: Picture, end: int, m: nat)
    requires Good(pic, end) && m < |pic.blocks| && pic.blocks[m].used
    ensures pic.blocks[m].at !in pic.free
  {
    if pic.blocks[m].at in pic.free {
      var k :| 0 <= k < |pic.blocks| && pic.blocks[k].at == pic.blocks[m].at && !pic.blocks[k].used;
      FindIs(pic.blocks, end, m);
      FindIs(pic.blocks, end, k);
    }
  }

  lemma {:induction false} FreeIsListed(pic: Picture, end: int, m: nat)
    requires Good(pic, end) && m < |pic.blocks| && !pic.blocks[m].used
    ensures pic.blocks[m].at in pic.free
  {
    assert HasFree(pic.blocks, pic.blocks[m].at);
  }

  lemma {:induction false} MergeIndices(blocks: seq<Block>, k: nat)
    requires k + 1 < |blocks|
    ensures var r := Merge(blocks, k);
            && |r| == |blocks| - 1 && r[k].at == blocks[k].at && r[k].used == blocks[k].used
            && (k + 2 < |blocks| ==> r[k + 1] == blocks[k + 2])
  {
  }

  // Growing in place is: swallow the free successor, then give back what is not needed.
  lemma {:induction false} GrowIsMergeSplit(pic: Picture, i: nat, need: int)
    requires i + 2 < |pic.blocks| && CanGrow(pic, i, need) && pic.blocks[i].used
    requires pic.blocks[i + 1].at == pic.blocks[i].at + HDR + pic.blocks[i].size
    ensures Grow(pic, i, need).blocks == Split(Merge(pic.blocks, i), i, need)
    ensures Merge(pic.blocks, i)[i].used && Merge(pic.blocks, i)[i].at == pic.blocks[i].at
    ensures i + 1 < |Grow(pic, i, need).blocks| && Grow(pic, i, need).blocks[i + 1].at == pic.blocks[i].at + HDR + need
  {
    var merged := Merge(pic.blocks, i);
    assert merged[i + 1..] == pic.blocks[i + 2..] && merged[..i] == pic.blocks[..i];
  }

  // The indices, lists and byte counts met on the way through a shrink.
  lemma {:induction false} ShrinkSteps(pic: Picture, end: int, i: nat, need: int)
    requires Good(pic, end) && i + 1 < |pic.blocks| && pic.blocks[i].used
    requires 0 <= need && need + HDR + MINI < pic.blocks[i].size
    ensures var split := Split(pic.blocks, i, need);
            var q := pic.blocks[i].at + HDR + need;
            && |split| == |pic.blocks| + 1
            && split[i].at == pic.blocks[i].at && split[i + 1] == Block(q, pic.blocks[i].size - need - HDR, false)
            && split[i + 2] == pic.blocks[i + 1] && (i + 2 < |pic.blocks| ==> split[i + 3] == pic.blocks[i + 2])
            && Tiled(split, end)
            && Shrink(pic, i, need) == MergeRight(Picture(split, pic.free), i + 1).(free := Shrink(pic, i, need).free)
            && Shrink(pic, i, need).free == [q] + MergeRight(Picture(split, pic.free), i + 1).free
            && q !in MergeRight(Picture(split, pic.free), i + 1).free
  {
    hide Good, Covers, Without, Distinct, FreeWords, Tiled;
    Around(pic, end, i);
    var split := Split(pic.blocks, i, need);
    var q := pic.blocks[i].at + HDR + need;
    FreeListMoved(pic, end, i, Hi(pic, i), q, q);
    FirstIsNew(Moved(pic, i, q));
    SplitTiled(pic, end, i, need);
  }

  lemma {:induction false} SplitTiled(pic: Picture, end: int, i: nat, need: int)
    requires Good(pic, end) && i + 1 < |pic.blocks| && pic.blocks[i].used
    requires 0 <= need && need + HDR + MINI < pic.blocks[i].size
    ensures Tiled(Split(pic.blocks, i, need), end)
  {
    hide Good, Covers, Tiled;
    Around(pic, end, i);
    var split := Split(pic.blocks, i, need);
    CoversTwo(pic.blocks, i, i + 1, split[i], split[i + 1]);
    GoodIsTiled(pic, end);
    TiledReplace(pic.blocks, end, i, i + 1, [split[i], split[i + 1]]);
  }

  /** Where the block behind the new free one starts, and what is gained. */
  lemma {:induction false} ShrinkAfter(pic: Picture, end: int, i: nat, need: int)
    requires Good(pic, end) && i + 1 < |pic.blocks| && pic.blocks[i].used
    requires 0 <= need && need + HDR + MINI < pic.blocks[i].size
    ensures FreeWords(Shrink(pic, i, need).blocks) == FreeWords(pic.blocks)
              + (if pic.blocks[i + 1].used then pic.blocks[i].size - need - HDR else pic.blocks[i].size - need)
    ensures var after := Shrink(pic, i, need).blocks;
            var q := pic.blocks[i].at + HDR + need;
            && i + 2 < |after| && after[i + 1].at == q
            && after[i + 2].at == q + HDR +
                 (if pic.blocks[i + 1].used then pic.blocks[i].size - need - HDR
                  else pic.blocks[i].size - need + pic.blocks[i + 1].size)
  {
    hide Good, Covers, Without, Distinct, FreeWords, Tiled;
    Around(pic, end, i);
    FreeWordsSplit(pic.blocks, i, need);
    if !pic.blocks[i + 1].used { FreeWordsMerge(Split(pic.blocks, i, need), i + 1); }
  }

  lemma {:induction false} GoodIsTiled(pic: Picture, end: int)
    requires Good(pic, end)
    ensures Tiled(pic.blocks, end)
  {
  }

  lemma {:induction false} FirstIsNew(s: seq<int>)
    requires Distinct(s) && |s| > 0
    ensures s[0] !in s[1..]
  {
    assert forall k | 0 <= k < |s| - 1 :: s[1..][k] == s[k + 1];
  }

  // Two blocks c (owned) and d (free) take the place of an owned block and what follows it.
  lemma {:induction false} GoodResize(pic: Picture, end: int, i: nat, hi: nat, c: Block, d: Block, free: seq<int>)
    requires Good(pic, end) && i < hi < |pic.blocks| && pic.blocks[hi].used && c.used && !d.used
    requires Covers(pic.blocks, i, hi, [c, d]) && Distinct(free)
    requires forall p :: p in free <==> if pic.blocks[i].at <= p < pic.blocks[hi].at then p == d.at else p in pic.free
    ensures Good(Picture(Replace(pic.blocks, i, hi, [c, d]), free), end)
  {
    forall p
      ensures p in free <==>
        if pic.blocks[i].at <= p < pic.blocks[hi].at then HasFree([c, d], p) else p in pic.free
    {
      HasFreeTwo(c, d, p);
    }
    assert d.at == c.at + HDR + c.size;
    GoodReplace(pic, end, i, hi, [c, d], free);
  }

  lemma {:induction false} CoversTwo(blocks: seq<Block>, i: nat, hi: nat, c: Block, d: Block)
    requires i < hi < |blocks|
    requires c.at == blocks[i].at && d.at == c.at + HDR + c.size && d.at + HDR + d.size == blocks[hi].at
    requires c.size >= 0 && d.size >= 0
    ensures Covers(blocks, i, hi, [c, d])
    ensures blocks[i].at < d.at < blocks[hi].at
  {
  }

  lemma {:induction false} GoodGrow(pic: Picture, end: int, i: nat, need: int)
    requires Good(pic, end) && i + 1 < |pic.blocks| && pic.blocks[i].used
    requires CanGrow(pic, i, need) && need > pic.blocks[i].size
    ensures Good(Grow(pic, i, need), end)
  {
    hide Good, Covers, Without, Distinct;
    Around(pic, end, i);
    var b, n := pic.blocks[i], pic.blocks[i + 1];
    var c, d := Block(b.at, need, true), Block(b.at + HDR + need, n.size - (need - b.size), false);
    CoversTwo(pic.blocks, i, i + 2, c, d);
    forall p
      ensures p in Grow(pic, i, need).free <==>
        if b.at <= p < pic.blocks[i + 2].at then p == d.at else p in pic.free
    {
      FreeListMoved(pic, end, i, i + 2, d.at, p);
    }
    FreeListMoved(pic, end, i, i + 2, d.at, 0);
    GoodResize(pic, end, i, i + 2, c, d, Grow(pic, i, need).free);
  }

  lemma {:induction false} ShrinkIsTwoBlocks(pic: Picture, end: int, i: nat, need: int)
    requires Good(pic, end) && i + 1 < |pic.blocks| && pic.blocks[i].used
    ensures Hi(pic, i) < |pic.blocks|
    ensures var q := pic.blocks[i].at + HDR + need;
            && Shrink(pic, i, need).blocks == Replace(pic.blocks, i, Hi(pic, i),
                 [Block(pic.blocks[i].at, need, true), Block(q, pic.blocks[Hi(pic, i)].at - q - HDR, false)])
            && Shrink(pic, i, need).free == Moved(pic, i, q)
  {
    hide Good;
    Around(pic, end, i);
    var hi, b := Hi(pic, i), pic.blocks[i];
    var q := b.at + HDR + need;
    var c, d := Block(b.at, need, true), Block(q, b.size - need - HDR, false);
    if hi == i + 2 {
      ReplaceTail(pic.blocks, i, c, d, Block(q, pic.blocks[hi].at - q - HDR, false));
    }
    assert Split(pic.blocks, i, need)[i + 2] == pic.blocks[i + 1];
  }

  lemma {:induction false} ReplaceTail(blocks: seq<Block>, i: nat, c: Block, d: Block, e: Block)
    requires i + 1 < |blocks|
    ensures Replace(Replace(blocks, i, i + 1, [c, d]), i + 1, i + 3, [e]) == Replace(blocks, i, i + 2, [c, e])
  {
    var r := Replace(blocks, i, i + 1, [c, d]);
    assert r[..i + 1] == blocks[..i] + [c] && r[i + 3..] == blocks[i + 2..];
  }

  lemma {:induction false} GoodShrink(pic: Picture, end: int, i: nat, need: int)
    requires Good(pic, end) && i + 1 < |pic.blocks| && pic.blocks[i].used
    requires 0 <= need && need + HDR + MINI < pic.blocks[i].size
    ensures Good(Shrink(pic, i, need), end)
  {
    hide Good, Covers, Without, Distinct, Shrink;
    Around(pic, end, i);
    var b, hi := pic.blocks[i], Hi(pic, i);
    ShrinkIsTwoBlocks(pic, end, i, need);
    var q := b.at + HDR + need;
    var c, d := Block(b.at, need, true), Block(q, pic.blocks[hi].at - q - HDR, false);
    CoversTwo(pic.blocks, i, hi, c, d);
    forall p
      ensures p in Shrink(pic, i, need).free <==>
        if b.at <= p < pic.blocks[hi].at then p == q else p in pic.free
    {
      FreeListMoved(pic, end, i, hi, q, p);
    }
    FreeListMoved(pic, end, i, hi, q, 0);
    GoodResize(pic, end, i, hi, c, d, Shrink(pic, i, need).free);
  }

  // ---- Accounting ----

  lemma {:induction false} FreeWordsConcat(a: seq<Block>, b: seq<Block>)
    ensures FreeWords(a + b) == FreeWords(a) + FreeWords(b)
  {
    if a == [] {
      assert a + b == b;
    } else {
      assert (a + b)[1..] == a[1..] + b;
      FreeWordsConcat(a[1..], b);
    }
  }

  lemma {:induction false} FreeWordsReplace(blocks: seq<Block>, i: nat, k: nat, mid: seq<Block>)
    requires i <= k <= |blocks|
    ensures FreeWords(Replace(blocks, i, k, mid)) == FreeWords(blocks) - FreeWords(blocks[i..k]) + FreeWords(mid)
  {
    assert blocks == blocks[..i] + (blocks[i..k] + blocks[k..]);
    FreeWordsConcat(blocks[..i], blocks[i..k] + blocks[k..]);
    FreeWordsConcat(blocks[i..k], blocks[k..]);
    assert Replace(blocks, i, k, mid) == blocks[..i] + (mid + blocks[k..]);
    FreeWordsConcat(blocks[..i], mid + blocks[k..]);
    FreeWordsConcat(mid, blocks[k..]);
  }

  function Weight(b: Block): int
  {
    if b.used then 0 else b.size
  }

  lemma {:induction false} FreeWordsOne(b: Block)
    ensures FreeWords([b]) == Weight(b)
  {
    assert [b][1..] == [];
  }

  lemma {:induction false} FreeWordsTwo(b: Block, c: Block)
    ensures FreeWords([b, c]) == Weight(b) + Weight(c)
  {
    assert [b, c] == [b] + [c];
    FreeWordsConcat([b], [c]);
    FreeWordsOne(b);
    FreeWordsOne(c);
  }

  lemma {:induction false} FreeWordsMark(blocks: seq<Block>, i: nat, used: bool)
    requires i < |blocks|
    ensures FreeWords(blocks[i := blocks[i].(used := used)]) ==
            FreeWords(blocks) - Weight(blocks[i]) + Weight(blocks[i].(used := used))
  {
    var c := blocks[i].(used := used);
    assert blocks[i := c] == Replace(blocks, i, i + 1, [c]);
    assert blocks[i..i + 1] == [blocks[i]];
    FreeWordsReplace(blocks, i, i + 1, [c]);
    FreeWordsOne(c);
    FreeWordsOne(blocks[i]);
  }

  lemma {:induction false} FreeWordsRetile(blocks: seq<Block>, i: nat, mid: seq<Block>)
    requires i < |blocks|
    ensures FreeWords(Replace(blocks, i, i + 1, mid)) == FreeWords(blocks) - Weight(blocks[i]) + FreeWords(mid)
  {
    assert blocks[i..i + 1] == [blocks[i]];
    FreeWordsReplace(blocks, i, i + 1, mid);
    FreeWordsOne(blocks[i]);
  }

  lemma {:induction false} FreeWordsSplit(blocks: seq<Block>, i: nat, keep: int)
    requires i < |blocks|
    ensures FreeWords(Split(blocks, i, keep)) ==
            FreeWords(blocks) - Weight(blocks[i]) + (blocks[i].size - keep - HDR)
  {
    var b := blocks[i];
    var c, d := Block(b.at, keep, true), Block(b.at + HDR + keep, b.size - keep - HDR, false);
    FreeWordsRetile(blocks, i, [c, d]);
    FreeWordsTwo(c, d);
  }

  lemma {:induction false} FreeWordsMerge(blocks: seq<Block>, i: nat)
    requires i + 1 < |blocks| && !blocks[i].used && !blocks[i + 1].used
    ensures FreeWords(Merge(blocks, i)) == FreeWords(blocks) + HDR
  {
    var c := blocks[i].(size := blocks[i].size + HDR + blocks[i + 1].size);
    assert blocks[i..i + 2] == [blocks[i], blocks[i + 1]];
    FreeWordsReplace(blocks, i, i + 2, [c]);
    FreeWordsOne(c);
    FreeWordsTwo(blocks[i], blocks[i + 1]);
  }

  lemma {:induction false} FreeWordsGrow(pic: Picture, i: nat, need: int)
    requires i + 1 < |pic.blocks| && pic.blocks[i].used && CanGrow(pic, i, need)
    ensures FreeWords(Grow(pic, i, need).blocks) == FreeWords(pic.blocks) - (need - pic.blocks[i].size)
  {
    var b, n := pic.blocks[i], pic.blocks[i + 1];
    var c, d := Block(b.at, need, true), Block(b.at + HDR + need, n.size - (need - b.size), false);
    assert pic.blocks[i..i + 2] == [b, n];
    FreeWordsReplace(pic.blocks, i, i + 2, [c, d]);
    FreeWordsTwo(b, n);
    FreeWordsTwo(c, d);
  }

  function UsedWords(blocks: seq<Block>): int
  {
    if blocks == [] then 0
    else (if blocks[0].used then blocks[0].size else 0) + UsedWords(blocks[1..])
  }

  // An owned block survives an allocation unchanged, and the new block is another one.
  lemma {:induction false} OwnedSurvivesAlloc(pic: Picture, end: int, j: nat, need: int, i: nat) returns (i': nat)
    requires Good(pic, end) && j < |pic.free| && need >= 0 && Fits(pic, j, need)
    requires i < |pic.blocks| && pic.blocks[i].used
    ensures var after := AllocAt(pic, j, need);
            && i' < |after.blocks| && after.blocks[i'] == pic.blocks[i] && i' == Find(after.blocks, pic.blocks[i].at)
            && (i + 1 < |pic.blocks| ==> i' + 1 < |after.blocks|)
            && Find(after.blocks, pic.free[j]) != i'
  {
    FreeEntry(pic, end, j);
    GoodAlloc(pic, end, j, need);
    var f := Find(pic.blocks, pic.free[j]);
    var after := AllocAt(pic, j, need);
    i' := if i < f || |after.blocks| == |pic.blocks| then i else i + 1;
    assert after.blocks[i'] == pic.blocks[i];
    assert after.blocks[f].at == pic.free[j];
    FindIs(after.blocks, end, i');
    FindIs(after.blocks, end, f);
  }

  lemma {:induction false} AllocatedBlock(pic: Picture, end: int, j: nat, need: int)
    requires Good(pic, end) && j < |pic.free| && need >= 0 && Fits(pic, j, need)
    ensures var after := AllocAt(pic, j, need);
            var f := Find(after.blocks, pic.free[j]);
            && f + 1 < |after.blocks| && after.blocks[f].used && after.blocks[f].at == pic.free[j]
            && after.blocks[f].size >= need && Good(after, end)
  {
    FreeEntry(pic, end, j);
    GoodAlloc(pic, end, j, need);
    var f := Find(pic.blocks, pic.free[j]);
    var after := AllocAt(pic, j, need);
    assert after.blocks[f].at == pic.free[j] && after.blocks[f].used;
    FindIs(after.blocks, end, f);
  }

  // Nothing is lost: every word of the pool is a header, free payload or owned payload.
  lemma {:induction false} Conservation(blocks: seq<Block>, end: int)
    requires |blocks| > 0
    requires forall i | 0 <= i < |blocks| - 1 :: blocks[i + 1].at == blocks[i].at + HDR + blocks[i].size
    requires blocks[|blocks| - 1] == Block(end - HDR, 0, true)
    ensures FreeWords(blocks) + UsedWords(blocks) + HDR * |blocks| == end - blocks[0].at
  {
    if |blocks| > 1 {
      Conservation(blocks[1..], end);
    } else {
      assert blocks[1..] == [];
    }
  }

  // ---- What the picture promises its callers ----

  // Live payloads are pairwise disjoint, and disjoint from every header.
  lemma {:induction false} PayloadsDisjoint(blocks: seq<Block>, end: int, i: nat, j: nat, a: int)
    requires Tiled(blocks, end) && i < |blocks| && j < |blocks|
    requires blocks[i].at + HDR <= a < blocks[i].at + HDR + blocks[i].size
    ensures START + HDR <= a < end - HDR
    ensures i != j ==> !(blocks[j].at <= a < blocks[j].at + HDR + blocks[j].size)
    ensures !(blocks[j].at <= a < blocks[j].at + HDR)
  {
    if i > 0 { TiledOrder(blocks, end, 0, i); }
    TiledOrder(blocks, end, i, |blocks| - 1);
    if i < j { TiledOrder(blocks, end, i, j); }
    if j < i { TiledOrder(blocks, end, j, i); }
  }

  ghost predicate NothingOwned(blocks: seq<Block>)
  {
    forall i | 0 <= i < |blocks| - 1 :: !blocks[i].used
  }

  // A picture with no owned block besides the tailer is the initial one: no fragmentation survives.
  lemma {:induction false} AllFreeIsFresh(pic: Picture, end: int)
    requires Good(pic, end) && NothingOwned(pic.blocks)
    ensures pic == Fresh(end)
  {
    var first, second := pic.blocks[0], pic.blocks[1];
    assert |pic.blocks| == 2;
    assert pic.blocks[1].at == first.at + HDR + first.size;
    assert pic.blocks == Fresh(end).blocks;
    assert HasFree(pic.blocks, START) by { assert first.at == START; }
    forall p
      ensures p in pic.free <==> p == START
    {
    }
    OnlyElement(pic.free, START);
  }

  lemma {:induction false} OnlyElement(s: seq<int>, x: int)
    requires Distinct(s) && forall p :: p in s <==> p == x
    ensures s == [x]
  {
    assert x in s;
    assert s[0] in s && s[|s| - 1] in s;
  }

  lemma {:induction false} SplitThenFree(pic: Picture, end: int, i: nat, need: int, free: seq<int>)
    requires Good(pic, end) && need >= 0 && i + 1 < |pic.blocks| && !pic.blocks[i].used
    ensures Free(Picture(Split(pic.blocks, i, need), free), i).blocks == pic.blocks
  {
    var split := Split(pic.blocks, i, need);
    assert i > 0 ==> pic.blocks[i - 1].used;
    assert split[i + 2..] == pic.blocks[i + 1..];
    assert Merge(split[i := split[i].(used := false)], i) == pic.blocks;
  }

  lemma {:induction false} TakeThenFree(pic: Picture, end: int, i: nat, free: seq<int>)
    requires Good(pic, end) && i + 1 < |pic.blocks| && !pic.blocks[i].used
    ensures Free(Picture(pic.blocks[i := pic.blocks[i].(used := true)], free), i).blocks == pic.blocks
  {
    var taken := pic.blocks[i := pic.blocks[i].(used := true)];
    assert taken[i := taken[i].(used := false)] == pic.blocks;
  }

  // Freeing at once what alloc handed out restores every block.
  lemma {:induction false} AllocThenFree(pic: Picture, end: int, need: int)
    requires Good(pic, end) && need >= 0 && Alloc(pic, need).Some?
    ensures var (after, p) := Alloc(pic, need).value;
            var i := Find(after.blocks, p);
            i + 1 < |after.blocks| && after.blocks[i].used && Free(after, i).blocks == pic.blocks
  {
    var j := FirstFit(pic, need, 0);
    var after := AllocAt(pic, j, need);
    FreeEntry(pic, end, j);
    GoodAlloc(pic, end, j, need);
    var i := Find(pic.blocks, pic.free[j]);
    assert after.blocks[i].at == pic.free[j] && after.blocks[i].used;
    FindIs(after.blocks, end, i);
    SplitThenFree(pic, end, i, need, after.free);
    TakeThenFree(pic, end, i, after.free);
  }

  // Alloc fails exactly when the byte count says so or no single free block is large enough.
  lemma {:induction false} AllocFailsIff(pic: Picture, end: int, need: int)
    requires Good(pic, end)
    ensures Alloc(pic, need).None? <==>
      need >= FreeWords(pic.blocks)
      || forall i | 0 <= i < |pic.blocks| :: pic.blocks[i].used || pic.blocks[i].size < need
  {
    var j := FirstFit(pic, need, 0);
    if j == |pic.free| {
      forall i | 0 <= i < |pic.blocks| && !pic.blocks[i].used
        ensures pic.blocks[i].size < need
      {
        assert HasFree(pic.blocks, pic.blocks[i].at);
        var k :| 0 <= k < |pic.free| && pic.free[k] == pic.blocks[i].at;
        assert !Fits(pic, k, need);
        FindIs(pic.blocks, end, i);
      }
    } else {
      FreeEntry(pic, end, j);
    }
  }

  // ---- Whole runs ----

  // A caller's request; the address is that of an owned block's header.
  datatype Op = DoAlloc(n: nat) | DoFree(at: int) | DoRealloc(at: int, m: nat)

  predicate Owned(pic: Picture, at: int)
  {
    var i := Find(pic.blocks, at);
    i + 1 < |pic.blocks| && pic.blocks[i].used
  }

  function Apply(pic: Picture, op: Op): Picture
  {
    match op
    case DoAlloc(n) => (match Alloc(pic, RequestWords(n)) case None => pic case Some((after, _)) => after)
    case DoFree(at) => if Owned(pic, at) then Free(pic, Find(pic.blocks, at)) else pic
    case DoRealloc(at, m) =>
      if !Owned(pic, at) then pic
      else if m == 0 then Free(pic, Find(pic.blocks, at))
      else Realloc(pic, Find(pic.blocks, at), m).0
  }

  function Run(pic: Picture, ops: seq<Op>): Picture
    decreases |ops|
  {
    if ops == [] then pic else Run(Apply(pic, ops[0]), ops[1..])
  }

  lemma {:induction false} GoodRealloc(pic: Picture, end: int, i: nat, n: nat)
    requires Good(pic, end) && i + 1 < |pic.blocks| && pic.blocks[i].used
    ensures Good(Realloc(pic, i, n).0, end)
  {
    hide Good;
    var b, need := pic.blocks[i], RequestWords(n);
    if need > b.size && CanGrow(pic, i, need) {
      GoodGrow(pic, end, i, need);
    } else if need > b.size {
      var again := RequestWords(RequestBytes(n));
      var j := FirstFit(pic, again, 0);
      if Alloc(pic, again).Some? {
        var i' := OwnedSurvivesAlloc(pic, end, j, again, i);
        GoodAlloc(pic, end, j, again);
        GoodFree(AllocAt(pic, j, again), end, i');
      }
    } else if need + HDR + MINI < b.size {
      GoodShrink(pic, end, i, need);
    }
  }

  lemma {:induction false} GoodApply(pic: Picture, end: int, op: Op)
    requires Good(pic, end)
    ensures Good(Apply(pic, op), end)
  {
    hide Good;
    match op
    case DoAlloc(n) =>
      if Alloc(pic, RequestWords(n)).Some? {
        GoodAlloc(pic, end, FirstFit(pic, RequestWords(n), 0), RequestWords(n));
      }
    case DoFree(at) =>
      if Owned(pic, at) { GoodFree(pic, end, Find(pic.blocks, at)); }
    case DoRealloc(at, m) =>
      if Owned(pic, at) {
        GoodFree(pic, end, Find(pic.blocks, at));
        GoodRealloc(pic, end, Find(pic.blocks, at), m);
      }
  }

  // After any run of alloc, realloc and free the pool is tiled, no two free blocks touch and the free
  // list names exactly the free blocks.
  lemma {:induction false} RunGood(pic: Picture, end: int, ops: seq<Op>)
    requires Good(pic, end)
    ensures Good(Run(pic, ops), end)
    decreases |ops|
  {
    if ops != [] {
      GoodApply(pic, end, ops[0]);
      RunGood(Apply(pic, ops[0]), end, ops[1..]);
    }
  }

  // Whatever the order of requests, a run that leaves nothing owned ends in the initial picture.
  lemma {:induction false} RunLeavesNoTrace(end: int, ops: seq<Op>)
    requires end >= START + 2 * HDR
    requires NothingOwned(Run(Fresh(end), ops).blocks)
    ensures Run(Fresh(end), ops) == Fresh(end)
  {
    FreshGood(end);
    RunGood(Fresh(end), end, ops);
    AllFreeIsFresh(Run(Fresh(end), ops), end);
  }

  // ---- Alignment ----

  // Payloads are aligned to RT_ALIGN_SIZE: every header lies at an even word.
  ghost predicate Aligned(blocks: seq<Block>)
  {
    forall b | b in blocks :: b.at % 2 == 0 && b.size % 2 == 0
  }

  predicate Large(op: Op)
  {
    match op
    case DoAlloc(n) => n > 8
    case DoFree(_) => true
    case DoRealloc(_, m) => m == 0 || m > 8
  }

  ghost predicate LargeRequests(ops: seq<Op>)
  {
    forall op | op in ops :: Large(op)
  }

  lemma {:induction false} AlignedReplace(blocks: seq<Block>, i: nat, k: nat, mid: seq<Block>)
    requires Aligned(blocks) && Aligned(mid) && i <= k <= |blocks|
    ensures Aligned(Replace(blocks, i, k, mid))
  {
    forall b | b in Replace(blocks, i, k, mid)
      ensures b.at % 2 == 0 && b.size % 2 == 0
    {
      assert b in blocks[..i] || b in mid || b in blocks[k..];
    }
  }

  lemma {:induction false} AlignedSplit(blocks: seq<Block>, i: nat, need: int)
    requires Aligned(blocks) && i < |blocks| && need % 2 == 0
    ensures Aligned(Split(blocks, i, need))
  {
    var b := blocks[i];
    AlignedReplace(blocks, i, i + 1, [Block(b.at, need, true), Block(b.at + HDR + need, b.size - need - HDR, false)]);
  }

  lemma {:induction false} AlignedMerge(blocks: seq<Block>, i: nat)
    requires Aligned(blocks) && i + 1 < |blocks|
    ensures Aligned(Merge(blocks, i))
  {
    AlignedReplace(blocks, i, i + 2, [blocks[i].(size := blocks[i].size + HDR + blocks[i + 1].size)]);
  }

  lemma {:induction false} AlignedMark(blocks: seq<Block>, i: nat, used: bool)
    requires Aligned(blocks) && i < |blocks|
    ensures Aligned(blocks[i := blocks[i].(used := used)])
  {
    var marked := blocks[i := blocks[i].(used := used)];
    forall b | b in marked
      ensures b.at % 2 == 0 && b.size % 2 == 0
    {
      assert b in blocks || b == blocks[i].(used := used);
    }
  }

  lemma {:induction false} AlignedAlloc(pic: Picture, need: int)
    requires Aligned(pic.blocks) && need % 2 == 0 && Alloc(pic, need).Some?
    ensures Aligned(Alloc(pic, need).value.0.blocks)
  {
    var i := Find(pic.blocks, pic.free[FirstFit(pic, need, 0)]);
    AlignedSplit(pic.blocks, i, need);
    AlignedMark(pic.blocks, i, true);
  }

  lemma {:induction false} AlignedFree(pic: Picture, i: nat)
    requires Aligned(pic.blocks) && i + 1 < |pic.blocks|
    ensures Aligned(Free(pic, i).blocks)
  {
    AlignedMark(pic.blocks, i, false);
    var marked := pic.blocks[i := pic.blocks[i].(used := false)];
    if i > 0 {
      AlignedMerge(marked, i - 1);
      AlignedMerge(Merge(marked, i - 1), i - 1);
    }
    AlignedMerge(marked, i);
  }

  lemma {:induction false} AlignedGrow(pic: Picture, i: nat, need: int)
    requires Aligned(pic.blocks) && i + 1 < |pic.blocks| && need % 2 == 0 && CanGrow(pic, i, need)
    ensures Aligned(Grow(pic, i, need).blocks)
  {
    hide Aligned;
    var b, next := pic.blocks[i], pic.blocks[i + 1];
    var c, d := Block(b.at, need, true), Block(b.at + HDR + need, next.size - (need - b.size), false);
    AlignedAt(pic.blocks, i);
    AlignedAt(pic.blocks, i + 1);
    AlignedPair(c, d);
    AlignedReplace(pic.blocks, i, i + 2, [c, d]);
  }

  lemma {:induction false} AlignedAt(blocks: seq<Block>, i: nat)
    requires Aligned(blocks) && i < |blocks|
    ensures blocks[i].at % 2 == 0 && blocks[i].size % 2 == 0
  {
    assert blocks[i] in blocks;
  }

  lemma {:induction false} AlignedPair(c: Block, d: Block)
    requires c.at % 2 == 0 && c.size % 2 == 0 && d.at % 2 == 0 && d.size % 2 == 0
    ensures Aligned([c, d])
  {
  }

  lemma {:induction false} AlignedShrink(pic: Picture, i: nat, need: int)
    requires Aligned(pic.blocks) && i + 1 < |pic.blocks| && need % 2 == 0
    ensures Aligned(Shrink(pic, i, need).blocks)
  {
    hide Aligned;
    AlignedSplit(pic.blocks, i, need);
    AlignedMerge(Split(pic.blocks, i, need), i + 1);
  }

  lemma {:induction false} AlignedMove(pic: Picture, at: int, need: int)
    requires Aligned(pic.blocks) && need % 2 == 0 && Alloc(pic, need).Some?
    ensures var after := Alloc(pic, need).value.0;
            var i' := Find(after.blocks, at);
            Aligned(after.blocks) && (i' + 1 < |after.blocks| ==> Aligned(Free(after, i').blocks))
  {
    hide Aligned, Free, Alloc;
    AlignedAlloc(pic, need);
    var after := Alloc(pic, need).value.0;
    var i' := Find(after.blocks, at);
    if i' + 1 < |after.blocks| { AlignedFree(after, i'); }
  }

  lemma {:induction false} AlignedRealloc(pic: Picture, i: nat, n: nat)
    requires Aligned(pic.blocks) && i + 1 < |pic.blocks| && n > 8
    ensures Aligned(Realloc(pic, i, n).0.blocks)
  {
    hide Aligned, Free, Alloc, Grow, Shrink, CanGrow, Find, RequestWords, RequestBytes;
    var b, need := pic.blocks[i], RequestWords(n);
    LargeWords(n);
    if need > b.size && CanGrow(pic, i, need) {
      AlignedGrow(pic, i, need);
    } else if need > b.size {
      if Alloc(pic, RequestWords(RequestBytes(n))).Some? { AlignedMove(pic, b.at, RequestWords(RequestBytes(n))); }
    } else if need + HDR + MINI < b.size {
      AlignedShrink(pic, i, need);
    }
  }

  lemma {:induction false} LargeWords(n: nat)
    requires n > 8
    ensures RequestWords(n) % 2 == 0 && RequestWords(RequestBytes(n)) % 2 == 0
  {
  }

  // A request of at most 8 bytes is given 12, an odd number of words; moved, it is rounded again.
  lemma {:induction false} SmallWords(n: nat)
    ensures RequestWords(n) == MINI <==> n <= 8
    ensures RequestWords(n) % 2 == 0 <==> n > 8
    ensures n <= 8 ==> RequestWords(RequestBytes(n)) == 4
  {
  }

  // The steps that cut a block off after 12 bytes.
  predicate CutsSmall(pic: Picture, op: Op)
  {
    match op
    case DoAlloc(n) =>
      && n <= 8 && Alloc(pic, MINI).Some?
      && pic.blocks[Find(pic.blocks, pic.free[FirstFit(pic, MINI, 0)])].size >= MINI + HDR + MINI
    case DoFree(_) => false
    case DoRealloc(at, m) =>
      && Owned(pic, at) && 0 < m <= 8
      && var i := Find(pic.blocks, at);
         if pic.blocks[i].size < MINI then CanGrow(pic, i, MINI) else pic.blocks[i].size > MINI + HDR + MINI
  }

  lemma {:induction false} OddBlock(blocks: seq<Block>, i: nat, k: nat, b: Block, c: Block)
    requires i <= k <= |blocks| && b.size % 2 != 0
    ensures !Aligned(Replace(blocks, i, k, [b, c])) && !Aligned(Replace(blocks, i, k, [b]))
  {
    assert Replace(blocks, i, k, [b, c])[i] == b && Replace(blocks, i, k, [b])[i] == b;
  }

  lemma {:induction false} SmallAllocIff(pic: Picture, n: nat)
    requires Aligned(pic.blocks) && n <= 8
    ensures Aligned(Apply(pic, DoAlloc(n)).blocks) <==> !CutsSmall(pic, DoAlloc(n))
  {
    hide Aligned;
    SmallWords(n);
    if Alloc(pic, MINI).Some? {
      var i := Find(pic.blocks, pic.free[FirstFit(pic, MINI, 0)]);
      var b := pic.blocks[i];
      OddBlock(pic.blocks, i, i + 1, Block(b.at, MINI, true), Block(b.at + HDR + MINI, b.size - MINI - HDR, false));
      AlignedMark(pic.blocks, i, true);
    }
  }

  // What is left of a shrunk block stays, whatever its tail is joined with.
  lemma {:induction false} ShrunkBlock(pic: Picture, i: nat, need: int)
    requires i + 1 < |pic.blocks|
    ensures i < |Shrink(pic, i, need).blocks| && Shrink(pic, i, need).blocks[i] == Block(pic.blocks[i].at, need, true)
  {
  }

  lemma {:induction false} SmallReallocIff(pic: Picture, at: int, m: nat)
    requires Aligned(pic.blocks) && Owned(pic, at) && 0 < m <= 8
    ensures Aligned(Apply(pic, DoRealloc(at, m)).blocks) <==> !CutsSmall(pic, DoRealloc(at, m))
  {
    hide Shrink, Free, Alloc;
    SmallWords(m);
    var i := Find(pic.blocks, at);
    var b := pic.blocks[i];
    if b.size < MINI && CanGrow(pic, i, MINI) {
      var next := pic.blocks[i + 1];
      OddBlock(pic.blocks, i, i + 2, Block(b.at, MINI, true), Block(b.at + HDR + MINI, next.size - (MINI - b.size), false));
    } else if b.size < MINI {
      match Alloc(pic, 4)
      case None =>
      case Some((after, p)) =>
        AlignedAlloc(pic, 4);
        var i' := Find(after.blocks, b.at);
        if i' + 1 < |after.blocks| { AlignedFree(after, i'); }
    } else if b.size > MINI + HDR + MINI {
      ShrunkBlock(pic, i, MINI);
      assert Shrink(pic, i, MINI).blocks[i] in Shrink(pic, i, MINI).blocks;
    }
  }

  // Any step takes an aligned pool to an aligned one if and only if it does not cut a block there:
  // never for requests over 8 bytes, and for smaller ones only where the block is not taken whole.
  lemma {:induction false} ApplyAlignedIff(pic: Picture, op: Op)
    requires Aligned(pic.blocks)
    ensures Aligned(Apply(pic, op).blocks) <==> !CutsSmall(pic, op)
    ensures Large(op) ==> !CutsSmall(pic, op)
  {
    hide Aligned, Free, Alloc, Realloc, CanGrow, AllocAt, FirstFit;
    match op
    case DoAlloc(n) =>
      SmallWords(n);
      if n <= 8 { SmallAllocIff(pic, n); }
      else if Alloc(pic, RequestWords(n)).Some? { AlignedAlloc(pic, RequestWords(n)); }
    case DoFree(at) => if Owned(pic, at) { AlignedFree(pic, Find(pic.blocks, at)); }
    case DoRealloc(at, m) =>
      if Owned(pic, at) {
        AlignedFree(pic, Find(pic.blocks, at));
        if m > 8 { AlignedRealloc(pic, Find(pic.blocks, at), m); }
        else if m > 0 { SmallReallocIff(pic, at, m); }
      }
  }

  // Aligned before and after every step.
  ghost predicate AlignedThroughout(pic: Picture, ops: seq<Op>)
    decreases |ops|
  {
    Aligned(pic.blocks) && (ops != [] ==> AlignedThroughout(Apply(pic, ops[0]), ops[1..]))
  }

  predicate NeverCutsSmall(pic: Picture, ops: seq<Op>)
    decreases |ops|
  {
    ops != [] ==> !CutsSmall(pic, ops[0]) && NeverCutsSmall(Apply(pic, ops[0]), ops[1..])
  }

  // So over a run every payload is aligned if and only if no step makes that cut ...
  lemma {:induction false} RunAlignedIff(pic: Picture, ops: seq<Op>)
    requires Aligned(pic.blocks)
    ensures AlignedThroughout(pic, ops) <==> NeverCutsSmall(pic, ops)
    decreases |ops|
  {
    hide Aligned, Apply, CutsSmall;
    if ops != [] {
      ApplyAlignedIff(pic, ops[0]);
      if !CutsSmall(pic, ops[0]) { RunAlignedIff(Apply(pic, ops[0]), ops[1..]); }
    }
  }

  // ... which runs whose every request exceeds 8 bytes do not ...
  lemma {:induction false} RunAligned(pic: Picture, ops: seq<Op>)
    requires Aligned(pic.blocks) && LargeRequests(ops)
    ensures Aligned(Run(pic, ops).blocks)
    decreases |ops|
  {
    hide Aligned, Apply, CutsSmall;
    if ops != [] {
      assert Large(ops[0]) && forall op | op in ops[1..] :: op in ops;
      ApplyAlignedIff(pic, ops[0]);
      RunAligned(Apply(pic, ops[0]), ops[1..]);
    }
  }

  // ... and one request of at most 8 bytes to a fresh pool does.
  lemma {:induction false} SmallRequestMisaligns(end: int, n: nat)
    requires n <= 8 && end >= START + 4 * HDR + MINI
    ensures !Aligned(Run(Fresh(end), [DoAlloc(n)]).blocks)
  {
    var pic := Fresh(end);
    FreshGood(end);
    assert Fits(pic, 0, MINI);
    var after := Apply(pic, DoAlloc(n));
    assert [DoAlloc(n)][1..] == [] && Run(after, []) == after;
    assert after.blocks[1].at == START + HDR + MINI;
    assert after.blocks[1] in after.blocks;
  }
}
