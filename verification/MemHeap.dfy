/** MDK/src/memheap.c on real memory: `mem` is the pool as an array of 32-bit words, block headers
    lie in band, and every link is a word that is read and rewritten in place.  Word 0..HDR stands
    for the free-list header inside the heap object, the pool itself starts at START. */
module MemHeap {
  import opened MemHeapPicture

  const LIST := 0            // address of free_header
  const HEAP := 0x4ea9       // the value of pool_ptr
  const MAX_REQUEST := 0xFFFF_FFE0  // above it the 32-bit size arithmetic of the source wraps around
  const MAGIC := 0x1ea01ea0  // RT_MEMHEAP_MAGIC, used bit clear

  // Word offsets of the fields of struct rt_memheap_item.
  const TAG := 0
  const POOL := 1
  const NEXT := 2
  const PREV := 3
  const NEXT_FREE := 4
  const PREV_FREE := 5

  type Header = h: seq<int> | |h| == HDR witness [0, 0, 0, 0, 0, 0]
  type Headers = map<int, Header>

  function Max(a: int, b: int): int
  {
    if b > a then b else a
  }

  function TagOf(used: bool): int
  {
    if used then MAGIC + 1 else MAGIC
  }

  // b follows a in the doubly linked list over fields f and f + 1.
  ghost predicate Link(hdr: Headers, a: int, b: int, f: int)
    requires f == NEXT || f == NEXT_FREE
  {
    a in hdr && b in hdr && hdr[a][f] == b && hdr[b][f + 1] == a
  }

  // The headers at addresses s form one circular doubly linked list.
  ghost predicate Ring(hdr: Headers, s: seq<int>, f: int)
    requires f == NEXT || f == NEXT_FREE
  {
    && |s| > 0 && Distinct(s)
    && Link(hdr, s[|s| - 1], s[0], f)
    && forall j | 0 <= j < |s| - 1 :: Link(hdr, s[j], s[j + 1], f)
  }

  function Before(s: seq<int>, j: nat): int
    requires j < |s|
  {
    if j == 0 then s[|s| - 1] else s[j - 1]
  }

  function After(s: seq<int>, j: nat): int
    requires j < |s|
  {
    if j + 1 == |s| then s[0] else s[j + 1]
  }

  // Only fields f and f + 1 may differ.
  ghost predicate SameBut(was: Headers, now: Headers, f: int)
  {
    && was.Keys == now.Keys
    && forall p, k | p in now && 0 <= k < HDR && k != f && k != f + 1 :: now[p][k] == was[p][k]
  }

  ghost predicate InHeaders(keys: set<int>, a: int)
  {
    exists p | p in keys :: p <= a < p + HDR
  }

  function Addresses(blocks: seq<Block>): (s: seq<int>)
    ensures |s| == |blocks|
    ensures forall i | 0 <= i < |s| :: s[i] == blocks[i].at
  {
    seq(|blocks|, i requires 0 <= i < |blocks| => blocks[i].at)
  }

  function InsertAt(s: seq<int>, j: nat, q: int): seq<int>
    requires j <= |s|
  {
    s[..j] + [q] + s[j..]
  }

  lemma {:induction false} RingFrame(was: Headers, now: Headers, s: seq<int>, f: int, g: int)
    requires (f == NEXT && g == NEXT_FREE) || (f == NEXT_FREE && g == NEXT)
    requires Ring(was, s, f) && SameBut(was, now, g)
    ensures Ring(now, s, f)
  {
  }

  lemma {:induction false} RingLinks(hdr: Headers, s: seq<int>, f: int, j: nat)
    requires (f == NEXT || f == NEXT_FREE) && Ring(hdr, s, f) && j < |s|
    ensures Link(hdr, Before(s, j), s[j], f) && Link(hdr, s[j], After(s, j), f)
  {
  }

  // A new header is neither element nor neighbour.
  lemma {:induction false} RingApart(hdr: Headers, s: seq<int>, f: int, j: nat, q: int)
    requires (f == NEXT || f == NEXT_FREE) && Ring(hdr, s, f) && j < |s| && q !in s
    ensures q != s[j] && q != After(s, j)
  {
  }

  // In a ring of two or more no element is its own neighbour.
  lemma {:induction false} RingAlone(hdr: Headers, s: seq<int>, f: int, j: nat)
    requires (f == NEXT || f == NEXT_FREE) && Ring(hdr, s, f) && j < |s| && |s| > 1
    ensures s[j] != Before(s, j) && s[j] != After(s, j)
  {
  }

  lemma {:induction false} RingMembers(hdr: Headers, s: seq<int>, f: int)
    requires (f == NEXT || f == NEXT_FREE) && Ring(hdr, s, f)
    ensures forall x | x in s :: x in hdr
  {
    forall j | 0 <= j < |s|
      ensures s[j] in hdr
    {
      RingLinks(hdr, s, f, j);
    }
  }

  // The effect of linking a to b.
  ghost predicate Relinked(was: Headers, now: Headers, a: int, b: int, f: int)
    requires f == NEXT || f == NEXT_FREE
  {
    && was.Keys == now.Keys && a in was && b in was
    && forall x, k | x in now && 0 <= k < HDR :: now[x][k] ==
         if x == b && k == f + 1 then a else if x == a && k == f then b else was[x][k]
  }

  // The effect of linking q between a and b.
  ghost predicate Inserted(was: Headers, now: Headers, a: int, b: int, q: int, f: int)
    requires f == NEXT || f == NEXT_FREE
  {
    && was.Keys == now.Keys && a in was && b in was && q in was
    && forall x, k | x in now && 0 <= k < HDR :: now[x][k] ==
         if x == q && k == f then b else if x == q && k == f + 1 then a
         else if x == b && k == f + 1 then q else if x == a && k == f then q else was[x][k]
  }

  // One word of one header rewritten.
  function Set(hdr: Headers, p: int, k: int, v: int): Headers
    requires p in hdr && 0 <= k < HDR
  {
    hdr[p := hdr[p][k := v]]
  }

  lemma {:induction false} InsertedBy(was: Headers, a: int, b: int, q: int, f: int)
    requires (f == NEXT || f == NEXT_FREE) && a in was && b in was && q in was && a != q && b != q
    ensures Inserted(was, Set(Set(Set(Set(was, q, f + 1, a), q, f, b), b, f + 1, q), a, f, q), a, b, q, f)
  {
    var now := Set(Set(Set(Set(was, q, f + 1, a), q, f, b), b, f + 1, q), a, f, q);
    assert now.Keys == was.Keys;
  }

  lemma {:induction false} RelinkedBy(was: Headers, a: int, b: int, f: int)
    requires (f == NEXT || f == NEXT_FREE) && a in was && b in was
    ensures Relinked(was, Set(Set(was, b, f + 1, a), a, f, b), a, b, f)
    ensures SameBut(was, Set(Set(was, b, f + 1, a), a, f, b), f)
  {
    assert Set(Set(was, b, f + 1, a), a, f, b).Keys == was.Keys;
  }

  lemma {:induction false} InsertedSame(was: Headers, now: Headers, a: int, b: int, q: int, f: int)
    requires (f == NEXT || f == NEXT_FREE) && Inserted(was, now, a, b, q, f)
    ensures SameBut(was, now, f)
  {
  }

  // Taking s[j] out of the ring rewrites one field of each neighbour.
  lemma {:induction false} RingRemove(was: Headers, now: Headers, s: seq<int>, f: int, j: nat)
    requires (f == NEXT || f == NEXT_FREE) && Ring(was, s, f) && j < |s| && |s| > 1
    requires Relinked(was, now, Before(s, j), After(s, j), f)
    ensures Ring(now, RemoveAt(s, j), f)
  {
    var a, b := Before(s, j), After(s, j);
    var r := RemoveAt(s, j);
    assert Link(now, a, b, f);
    forall m | 0 <= m < |s| - 1 && m != j && m + 1 != j
      ensures Link(now, s[m], s[m + 1], f)
    {
      assert Link(was, s[m], s[m + 1], f);
      assert s[m] != a && s[m + 1] != b;
    }
    forall m | 0 <= m < |r| - 1
      ensures Link(now, r[m], r[m + 1], f)
    {
      if m + 1 != j {
        var i := if m < j then m else m + 1;
        assert s[i] == r[m] && s[i + 1] == r[m + 1];
      }
    }
  }

  // Linking q behind s[j]: first q gets both links, then its neighbours point to it.
  lemma {:induction false} RingInsert(was: Headers, now: Headers, s: seq<int>, f: int, j: nat, q: int)
    requires (f == NEXT || f == NEXT_FREE) && Ring(was, s, f) && j < |s| && q !in s
    requires Inserted(was, now, s[j], After(s, j), q, f)
    ensures Ring(now, InsertAt(s, j + 1, q), f)
  {
    var a, b := s[j], After(s, j);
    var r := InsertAt(s, j + 1, q);
    assert Link(now, a, q, f) && Link(now, q, b, f);
    forall m | 0 <= m < |s| - 1 && m != j
      ensures Link(now, s[m], s[m + 1], f)
    {
      assert Link(was, s[m], s[m + 1], f);
      assert s[m] != a && s[m + 1] != b;
    }
    forall m | 0 <= m < |r| - 1
      ensures Link(now, r[m], r[m + 1], f)
    {
      if m < j {
        assert r[m] == s[m] && r[m + 1] == s[m + 1];
      } else if m > j + 1 {
        assert r[m] == s[m - 1] && r[m + 1] == s[m];
      }
    }
  }

  // Headers that keep their tag and pool words.
  ghost predicate SameTags(was: Headers, now: Headers)
  {
    forall p | p in was && p in now :: now[p][TAG] == was[p][TAG] && now[p][POOL] == was[p][POOL]
  }

  // The two lists, whatever else `hdr` holds.
  ghost predicate Shape(hdr: Headers, addrs: seq<int>, free: seq<int>)
  {
    && Ring(hdr, addrs, NEXT) && Ring(hdr, [LIST] + free, NEXT_FREE)
    && LIST !in addrs && LIST in hdr && (forall p | p in addrs :: p in hdr)
    && (forall p | p in free :: p in addrs)
  }

  ghost predicate TagOk(hdr: Headers, b: Block)
  {
    b.at in hdr && hdr[b.at][TAG] == TagOf(b.used) && hdr[b.at][POOL] == HEAP
  }

  ghost predicate Tagged(hdr: Headers, blocks: seq<Block>)
  {
    forall b | b in blocks :: TagOk(hdr, b)
  }

  // The payload words of the owned blocks are unchanged.
  ghost predicate Kept(was: seq<int>, now: seq<int>, blocks: seq<Block>)
  {
    && |was| == |now|
    && forall i, a | 0 <= i < |blocks| && blocks[i].used
                     && blocks[i].at + HDR <= a < blocks[i].at + HDR + blocks[i].size && 0 <= a < |now| :: now[a] == was[a]
  }

  // Header writes at the blocks' own addresses, or at q inside the free block h, touch no owned payload.
  lemma {:induction false} HeadersMissPayloads(blocks: seq<Block>, end: int, keys: set<int>, q: int, h: nat, was: seq<int>, now: seq<int>)
    requires Tiled(blocks, end) && |was| == |now| == end && h < |blocks|
    requires forall p | p in keys :: p == LIST || p in Addresses(blocks) || p == q
    requires q == LIST || (!blocks[h].used && blocks[h].at <= q && q <= blocks[h].at + blocks[h].size)
    requires forall a | 0 <= a < end && !InHeaders(keys, a) :: now[a] == was[a]
    ensures Kept(was, now, blocks)
  {
    forall i, a | 0 <= i < |blocks| && blocks[i].used
                  && blocks[i].at + HDR <= a < blocks[i].at + HDR + blocks[i].size && 0 <= a < end
      ensures now[a] == was[a]
    {
      PayloadsDisjoint(blocks, end, i, h, a);
      forall p | p in keys
        ensures !(p <= a < p + HDR)
      {
        if p != LIST && p != q {
          var m :| 0 <= m < |blocks| && Addresses(blocks)[m] == p;
          PayloadsDisjoint(blocks, end, i, m, a);
        }
      }
    }
  }

  // A block other than those at p and q keeps its tag.
  lemma {:induction false} TaggedReplace(was: Headers, now: Headers, blocks: seq<Block>, i: nat, k: nat, mid: seq<Block>)
    requires Tagged(was, blocks) && i <= k <= |blocks| && Tagged(now, mid)
    requires forall m | 0 <= m < |blocks| && !(i <= m < k) :: TagOk(was, blocks[m]) ==> TagOk(now, blocks[m])
    ensures Tagged(now, Replace(blocks, i, k, mid))
  {
    forall b | b in Replace(blocks, i, k, mid)
      ensures TagOk(now, b)
    {
      if b !in mid {
        assert b in blocks[..i] || b in blocks[k..];
        var m :| 0 <= m < |blocks| && !(i <= m < k) && blocks[m] == b;
      }
    }
  }

  lemma {:induction false} InsertElems(s: seq<int>, j: nat, q: int)
    requires j <= |s|
    ensures forall x :: x in InsertAt(s, j, q) <==> x == q || x in s
  {
    assert s == s[..j] + s[j..];
  }

  lemma {:induction false} FirstFitIs(pic: Picture, need: int, j: nat)
    requires j <= |pic.free| && (j < |pic.free| ==> Fits(pic, j, need))
    requires forall k | 0 <= k < j :: !Fits(pic, k, need)
    ensures FirstFit(pic, need, 0) == j
  {
  }

  // Rewriting headers outside a ring leaves it alone.
  lemma {:induction false} RingIgnores(was: Headers, now: Headers, s: seq<int>, f: int)
    requires (f == NEXT || f == NEXT_FREE) && Ring(was, s, f)
    requires forall x | x in s :: x in now && x in was && now[x][f] == was[x][f] && now[x][f + 1] == was[x][f + 1]
    ensures Ring(now, s, f)
  {
    assert Link(now, s[|s| - 1], s[0], f);
    forall j | 0 <= j < |s| - 1
      ensures Link(now, s[j], s[j + 1], f)
    {
      assert Link(was, s[j], s[j + 1], f);
      assert s[j] in s && s[j + 1] in s;
    }
  }

  lemma {:induction false} ShapeMembers(hdr: Headers, addrs: seq<int>, free: seq<int>, p: int)
    requires Shape(hdr, addrs, free) && p in addrs
    ensures p in hdr && p != LIST
  {
  }

  // The lists do not depend on a tag.
  lemma {:induction false} ShapeMarked(was: Headers, now: Headers, addrs: seq<int>, free: seq<int>, p: int)
    requires Shape(was, addrs, free) && p in was && p in now && now == was[p := now[p]]
    requires forall k | NEXT <= k < HDR :: now[p][k] == was[p][k]
    ensures Shape(now, addrs, free)
  {
    hide Ring;
    assert now.Keys == was.Keys;
    assert forall x | x in [LIST] + free :: x == LIST || x in free;
    RingIgnores(was, now, [LIST] + free, NEXT_FREE);
    RingIgnores(was, now, addrs, NEXT);
  }

  // Nor on the free links of a header that is on no free list.
  lemma {:induction false} ShapeCleared(was: Headers, addrs: seq<int>, free: seq<int>, p: int)
    requires Shape(was, addrs, free) && p in addrs && p !in free
    ensures p in was && Shape(Set(Set(was, p, NEXT_FREE, NIL), p, PREV_FREE, NIL), addrs, free)
    ensures SameTags(was, Set(Set(was, p, NEXT_FREE, NIL), p, PREV_FREE, NIL))
  {
    hide Ring;
    var now := Set(Set(was, p, NEXT_FREE, NIL), p, PREV_FREE, NIL);
    assert now.Keys == was.Keys;
    assert forall x | x in [LIST] + free :: x == LIST || x in free;
    RingIgnores(was, now, [LIST] + free, NEXT_FREE);
    RingIgnores(was, now, addrs, NEXT);
  }

  // The headers are those of the picture.
  ghost predicate Represents(hdr: Headers, pic: Picture)
  {
    && Shape(hdr, Addresses(pic.blocks), pic.free)
    && (forall p :: p in hdr <==> p == LIST || p in Addresses(pic.blocks))
    && Tagged(hdr, pic.blocks)
  }

  lemma {:induction false} Unpack(hdr: Headers, pic: Picture, i: nat)
    requires Represents(hdr, pic) && i < |pic.blocks|
    ensures Shape(hdr, Addresses(pic.blocks), pic.free)
    ensures TagOk(hdr, pic.blocks[i]) && pic.blocks[i].at in hdr && Addresses(pic.blocks)[i] in Addresses(pic.blocks)
  {
  }

  lemma {:induction false} AddressesDiffer(hdr: Headers, pic: Picture)
    requires Represents(hdr, pic)
    ensures Distinct(Addresses(pic.blocks)) && Distinct(pic.free)
    ensures forall i, j | 0 <= i < |pic.blocks| && 0 <= j < |pic.blocks| && i != j :: pic.blocks[i].at != pic.blocks[j].at
  {
    var addrs := Addresses(pic.blocks);
    forall i, j | 0 <= i < |addrs| && 0 <= j < |addrs| && i != j
      ensures addrs[i] != addrs[j]
    {
    }
    forall i, j | 0 <= i < j < |pic.free|
      ensures pic.free[i] != pic.free[j]
    {
      assert ([LIST] + pic.free)[i + 1] == pic.free[i] && ([LIST] + pic.free)[j + 1] == pic.free[j];
    }
  }

  lemma {:induction false} MarkSettles(was: Headers, now: Headers, pic: Picture, i: nat, used: bool, free: seq<int>)
    requires Represents(was, pic) && i < |pic.blocks|
    requires now.Keys == was.Keys && pic.blocks[i].at in was
    requires SameTags(was[pic.blocks[i].at := was[pic.blocks[i].at][TAG := TagOf(used)]], now)
    requires Shape(now, Addresses(pic.blocks), free)
    ensures Represents(now, Picture(pic.blocks[i := pic.blocks[i].(used := used)], free))
  {
    hide Ring;
    var b := pic.blocks[i];
    AddressesDiffer(was, pic);
    assert TagOk(was, b);
    var blocks := pic.blocks[i := b.(used := used)];
    assert Addresses(blocks) == Addresses(pic.blocks);
    forall c | c in blocks
      ensures TagOk(now, c)
    {
      var m :| 0 <= m < |blocks| && blocks[m] == c;
      assert TagOk(was, pic.blocks[m]);
    }
  }

  // Block k has swallowed block k + 1, whose header is no longer one.
  lemma {:induction false} MergeSettles(was: Headers, now: Headers, pic: Picture, k: nat, free: seq<int>)
    requires Represents(was, pic) && k + 1 < |pic.blocks|
    requires now.Keys == was.Keys - {pic.blocks[k + 1].at} && SameTags(was, now)
    requires Shape(now, RemoveAt(Addresses(pic.blocks), k + 1), free)
    ensures Represents(now, Picture(Merge(pic.blocks, k), free))
  {
    hide Ring;
    AddressesDiffer(was, pic);
    var addrs := Addresses(pic.blocks);
    assert Addresses(Merge(pic.blocks, k)) == RemoveAt(addrs, k + 1);
    RemoveAtElems(addrs, k + 1);
    forall c | c in Merge(pic.blocks, k)
      ensures TagOk(now, c)
    {
      if c == pic.blocks[k].(size := c.size) {
        assert TagOk(was, pic.blocks[k]);
      } else {
        var m :| 0 <= m < |pic.blocks| && m != k && m != k + 1 && pic.blocks[m] == c;
        assert TagOk(was, pic.blocks[m]);
      }
    }
  }

  lemma {:induction false} WithoutIsRemoveAt(s: seq<int>, j: nat)
    requires Distinct(s) && j < |s|
    ensures Without(s, s[j]) == RemoveAt(s, j)
  {
    if j > 0 {
      assert Distinct(s[1..]) by { assert forall k | 0 <= k < |s| - 1 :: s[1..][k] == s[k + 1]; }
      WithoutIsRemoveAt(s[1..], j - 1);
    }
  }

  // After a split of block i the headers agree with the new blocks.
  lemma {:induction false} SplitSettles(was: Headers, now: Headers, pic: Picture, i: nat, need: int, free: seq<int>)
    requires Represents(was, pic) && i < |pic.blocks|
    requires var p, q := pic.blocks[i].at, pic.blocks[i].at + HDR + need;
             && now.Keys == was.Keys + {q} && q !in was
             && SameTags(was[p := was[p][TAG := TagOf(true)]], now)
             && now[q][TAG] == TagOf(false) && now[q][POOL] == HEAP
             && Shape(now, InsertAt(Addresses(pic.blocks), i + 1, q), free)
    ensures Represents(now, Picture(Split(pic.blocks, i, need), free))
  {
    hide Ring;
    var b := pic.blocks[i];
    var q := b.at + HDR + need;
    var addrs := Addresses(pic.blocks);
    var c, d := Block(b.at, need, true), Block(q, b.size - need - HDR, false);
    assert TagOk(now, c) && TagOk(now, d) by { assert TagOk(was, b); }
    AddressesDiffer(was, pic);
    TaggedReplace(was, now, pic.blocks, i, i + 1, [c, d]);
    assert Addresses(Split(pic.blocks, i, need)) == InsertAt(addrs, i + 1, q);
    InsertElems(addrs, i + 1, q);
  }

  // From the words before a move to those after it: the copy has arrived, every owned payload stays.
  lemma {:induction false} MovedPayload(was: Picture, after: Picture, end: int, w0: seq<int>, w1: seq<int>, w2: seq<int>, w3: seq<int>,
                                        r: int, f: nat, p: int, i: nat, n: int)
    requires Good(after, end) && |w0| == |w1| == |w2| == |w3| == end
    requires 0 <= n && 0 <= r && r + n <= end && 0 <= p && p + n <= end
    requires i < |was.blocks| && was.blocks[i] == Block(p - HDR, n, true)
    requires f < |after.blocks| && after.blocks[f].used && after.blocks[f].at + HDR == r && n <= after.blocks[f].size
    requires Kept(w0, w1, was.blocks) && Kept(w2, w3, after.blocks)
    requires forall m | 0 <= m < |was.blocks| && was.blocks[m].used :: OwnedElsewhere(after, f, was.blocks[m])
    requires w2[r..r + n] == w1[p..p + n] && forall a | 0 <= a < end && !(r <= a < r + n) :: w2[a] == w1[a]
    ensures w3[r..r + n] == w0[p..p + n]
    ensures Kept(w0, w3, was.blocks)
  {
    forall k {:trigger w3[r..r + n][k]} | 0 <= k < n
      ensures w3[r..r + n][k] == w0[p..p + n][k]
    {
      assert w3[r + k] == w2[r + k] by { assert after.blocks[f].used; }
      assert w2[r + k] == w2[r..r + n][k] == w1[p..p + n][k] == w1[p + k];
      assert w1[p + k] == w0[p + k] by { assert was.blocks[i].used; }
    }
    forall m, a | 0 <= m < |was.blocks| && was.blocks[m].used
                  && was.blocks[m].at + HDR <= a < was.blocks[m].at + HDR + was.blocks[m].size && 0 <= a < end
      ensures w3[a] == w0[a]
    {
      assert OwnedElsewhere(after, f, was.blocks[m]);
      var m' :| 0 <= m' < |after.blocks| && m' != f && after.blocks[m'] == was.blocks[m];
      PayloadsDisjoint(after.blocks, end, m', f, a);
      assert w3[a] == w2[a] == w1[a] == w0[a];
    }
  }

  function Smaller(a: int, b: int): int
  {
    if a < b then a else b
  }

  // The blocks with block i out of account.
  function Others(blocks: seq<Block>, i: nat): seq<Block>
    requires i < |blocks|
  {
    blocks[i := blocks[i].(used := false)]
  }

  lemma {:induction false} KeptOthers(was: seq<int>, now: seq<int>, blocks: seq<Block>, i: nat)
    requires Kept(was, now, blocks) && i < |blocks|
    ensures Kept(was, now, Others(blocks, i))
  {
  }

  lemma {:induction false} KeptSame(was: seq<int>, blocks: seq<Block>)
    ensures Kept(was, was, blocks)
  {
  }

  lemma {:induction false} KeptPayload(was: seq<int>, now: seq<int>, blocks: seq<Block>, i: nat, n: int)
    requires Kept(was, now, blocks) && i < |blocks| && blocks[i].used && 0 <= n <= blocks[i].size
    requires 0 <= blocks[i].at && blocks[i].at + HDR + n <= |was|
    ensures now[blocks[i].at + HDR..blocks[i].at + HDR + n] == was[blocks[i].at + HDR..blocks[i].at + HDR + n]
  {
  }

  lemma {:induction false} KeptSplit(was: seq<int>, now: seq<int>, blocks: seq<Block>, i: nat, need: int)
    requires i < |blocks| && Kept(was, now, Split(blocks, i, need)) && 0 <= need
    requires 0 <= blocks[i].at && blocks[i].at + HDR + need <= |was|
    ensures Kept(was, now, Others(blocks, i))
    ensures now[blocks[i].at + HDR..blocks[i].at + HDR + need] == was[blocks[i].at + HDR..blocks[i].at + HDR + need]
  {
    var split := Split(blocks, i, need);
    assert split[i] == Block(blocks[i].at, need, true);
    forall m | 0 <= m < |blocks| && m != i
      ensures split[if m < i then m else m + 1] == blocks[m]
    {
    }
    KeptPayload(was, now, split, i, need);
  }

  // rt_memheap_realloc rounds the size and passes it to rt_memheap_alloc, which rounds it again.
  lemma {:induction false} RoundedTwice(n: nat)
    requires n <= MAX_REQUEST
    ensures RequestBytes(n) <= MAX_REQUEST
    ensures RequestWords(RequestBytes(n)) == if n <= 8 then RequestWords(n) + 1 else RequestWords(n)
  {
  }

  lemma {:induction false} OthersSurvive(was: Picture, end: int, j: nat, need: int)
    requires Good(was, end) && j < |was.free| && need >= 0 && Fits(was, j, need)
    ensures var after := AllocAt(was, j, need);
            forall m | 0 <= m < |was.blocks| && was.blocks[m].used ::
              OwnedElsewhere(after, Find(after.blocks, was.free[j]), was.blocks[m])
  {
    forall m | 0 <= m < |was.blocks| && was.blocks[m].used
      ensures OwnedElsewhere(AllocAt(was, j, need), Find(AllocAt(was, j, need).blocks, was.free[j]), was.blocks[m])
    {
      var m' := OwnedSurvivesAlloc(was, end, j, need, m);
    }
  }

  lemma TailerUsed(pic: Picture, end: int)
    requires Good(pic, end)
    ensures |pic.blocks| > 0 && pic.blocks[|pic.blocks| - 1].used
  {
  }

  lemma {:induction false} AllocIs(pic: Picture, need: int)
    requires MemHeapPicture.Alloc(pic, need).Some?
    ensures var j := FirstFit(pic, need, 0);
            j < |pic.free| && Fits(pic, j, need) && MemHeapPicture.Alloc(pic, need).value == (AllocAt(pic, j, need), pic.free[j])
  {
  }

  // Where a block to be moved is after its new place has been allocated.
  lemma {:induction false} Landed(was: Picture, end: int, j: nat, need: int, i: nat) returns (i': nat)
    requires Good(was, end) && j < |was.free| && Fits(was, j, need)
    requires i + 1 < |was.blocks| && was.blocks[i].used && 0 <= was.blocks[i].size < need
    ensures var after, b := AllocAt(was, j, need), was.blocks[i];
            var f := Find(after.blocks, was.free[j]);
            && Good(after, end) && f < |after.blocks| && after.blocks[f].used
            && after.blocks[f].at == was.free[j] && b.size <= after.blocks[f].size
            && i' + 1 < |after.blocks| && after.blocks[i'] == b && i' == Find(after.blocks, b.at)
            && (was.free[j] + b.size <= b.at || b.at + b.size <= was.free[j])
            && 0 < b.at && b.at + HDR + b.size <= end && 0 < was.free[j] && was.free[j] + HDR + b.size <= end
            && forall m | 0 <= m < |was.blocks| && was.blocks[m].used :: OwnedElsewhere(after, f, was.blocks[m])
  {
    hide Good, AllocAt, Fits, OwnedElsewhere;
    i' := OwnedSurvivesAlloc(was, end, j, need, i);
    AllocatedBlock(was, end, j, need);
    OthersSurvive(was, end, j, need);
    var after := AllocAt(was, j, need);
    FarApart(after, end, Find(after.blocks, was.free[j]), i', was.blocks[i].size);
  }

  lemma {:induction false} NotBetween(blocks: seq<Block>, end: int, i: nat, k: nat, m: nat)
    requires Tiled(blocks, end) && i < k < |blocks| && m < |blocks| && (m <= i || m >= k)
    ensures !(blocks[i].at < blocks[m].at < blocks[k].at)
  {
    if m < i { TiledOrder(blocks, end, m, i); }
    if m > k { TiledOrder(blocks, end, k, m); }
  }

  lemma {:induction false} FarApart(pic: Picture, end: int, f: nat, i: nat, n: int)
    requires Good(pic, end) && f < |pic.blocks| && i < |pic.blocks| && f != i
    requires 0 <= n <= pic.blocks[f].size && n <= pic.blocks[i].size
    ensures pic.blocks[f].at + n <= pic.blocks[i].at || pic.blocks[i].at + n <= pic.blocks[f].at
    ensures 0 < pic.blocks[f].at && pic.blocks[f].at + HDR + n <= end
    ensures 0 < pic.blocks[i].at && pic.blocks[i].at + HDR + n <= end
  {
    var last := |pic.blocks| - 1;
    if f < i { TiledOrder(pic.blocks, end, f, i); } else { TiledOrder(pic.blocks, end, i, f); }
    if f > 0 { TiledOrder(pic.blocks, end, 0, f); }
    if i > 0 { TiledOrder(pic.blocks, end, 0, i); }
    if f < last { TiledOrder(pic.blocks, end, f, last); }
    if i < last { TiledOrder(pic.blocks, end, i, last); }
  }

  ghost predicate OwnedElsewhere(after: Picture, f: nat, b: Block)
  {
    exists m | 0 <= m < |after.blocks| :: m != f && after.blocks[m] == b
  }

  class Pool {
    const mem: array<int>
    var available: int
    var maxUsed: int
    ghost var hdr: Headers
    ghost var pic: Picture

    ghost predicate Coupled()
      reads this`hdr, mem
    {
      && (forall p | p in hdr :: 0 <= p && p + HDR <= mem.Length)
      && (forall p, k | p in hdr && 0 <= k < HDR :: hdr[p][k] == mem[p + k])
      && (forall p, q | p in hdr && q in hdr && p < q :: p + HDR <= q)
    }

    // `p->field = v`
    method Put(p: int, k: int, v: int)
      requires Coupled() && p in hdr && 0 <= k < HDR
      modifies this`hdr, mem
      ensures Coupled() && hdr == Set(old(hdr), p, k, v) && hdr.Keys == old(hdr).Keys
      ensures forall a | 0 <= a < mem.Length && !InHeaders(hdr.Keys, a) :: mem[a] == old(mem[a])
    {
      mem[p + k] := v;
      hdr := Set(hdr, p, k, v);
      assert hdr.Keys == old(hdr).Keys;
      assert InHeaders(hdr.Keys, p + k);
    }

    lemma Word(p: int, k: int)
      requires Coupled() && p in hdr && 0 <= k < HDR
      ensures 0 <= p && p + HDR <= mem.Length && mem[p + k] == hdr[p][k]
    {
    }

    // new->prev = p; new->next = p->next; p->next->prev = new; p->next = new
    method Splice(p: int, q: int, f: int)
      requires f == NEXT || f == NEXT_FREE
      requires Coupled() && p in hdr && q in hdr && p != q && hdr[p][f] in hdr && hdr[p][f] != q
      modifies this`hdr, mem
      ensures Coupled() && Inserted(old(hdr), hdr, p, old(hdr)[p][f], q, f)
      ensures forall a | 0 <= a < mem.Length && !InHeaders(hdr.Keys, a) :: mem[a] == old(mem[a])
    {
      hide Coupled, Inserted, InHeaders;
      ghost var b := hdr[p][f];
      InsertedBy(hdr, p, b, q, f);
      Put(q, f + 1, p);
      Word(p, f);
      Put(q, f, mem[p + f]);
      Word(p, f);
      Put(mem[p + f], f + 1, q);
      Put(p, f, q);
    }

    method InsertAfter(p: int, q: int, f: int, ghost s: seq<int>, ghost j: nat)
      requires f == NEXT || f == NEXT_FREE
      requires Coupled() && Ring(hdr, s, f) && j < |s| && s[j] == p
      requires q in hdr && q !in s
      modifies this`hdr, mem
      ensures Coupled() && Ring(hdr, InsertAt(s, j + 1, q), f) && SameBut(old(hdr), hdr, f)
      ensures forall a | 0 <= a < mem.Length && !InHeaders(hdr.Keys, a) :: mem[a] == old(mem[a])
    {
      hide Coupled, Inserted, InHeaders, Ring;
      RingLinks(hdr, s, f, j);
      RingApart(hdr, s, f, j, q);
      Splice(p, q, f);
      InsertedSame(old(hdr), hdr, p, After(s, j), q, f);
      RingInsert(old(hdr), hdr, s, f, j, q);
    }

    // p->next->prev = p->prev; p->prev->next = p->next
    method Remove(p: int, f: int, ghost s: seq<int>, ghost j: nat)
      requires f == NEXT || f == NEXT_FREE
      requires Coupled() && Ring(hdr, s, f) && j < |s| && s[j] == p && |s| > 1
      modifies this`hdr, mem
      ensures Coupled() && Ring(hdr, RemoveAt(s, j), f) && SameBut(old(hdr), hdr, f)
      ensures forall a | 0 <= a < mem.Length && !InHeaders(hdr.Keys, a) :: mem[a] == old(mem[a])
    {
      hide Coupled, Relinked, InHeaders, Ring;
      RingLinks(hdr, s, f, j);
      RingAlone(hdr, s, f, j);
      ghost var a, b := Before(s, j), After(s, j);
      RelinkedBy(hdr, a, b, f);
      Word(p, f);
      Word(p, f + 1);
      Put(mem[p + f], f + 1, mem[p + f + 1]);
      Word(p, f);
      Word(p, f + 1);
      Put(mem[p + f + 1], f, mem[p + f]);
      RingRemove(old(hdr), hdr, s, f, j);
    }

    // Words of a payload become a header: it is given the magic word and the heap it belongs to.
    method NewHeader(q: int)
      requires Coupled() && 0 <= q && q + HDR <= mem.Length
      requires forall p | p in hdr :: p + HDR <= q || q + HDR <= p
      modifies this`hdr, mem
      ensures Coupled() && q !in old(hdr) && q in hdr && hdr == old(hdr)[q := hdr[q]]
      ensures hdr[q][TAG] == MAGIC && hdr[q][POOL] == HEAP
      ensures forall a | 0 <= a < mem.Length && !InHeaders(hdr.Keys, a) :: mem[a] == old(mem[a])
    {
      mem[q + TAG] := MAGIC;
      mem[q + POOL] := HEAP;
      hdr := hdr[q := mem[q..q + HDR]];
      assert q in hdr.Keys;
      assert InHeaders(hdr.Keys, q + TAG) && InHeaders(hdr.Keys, q + POOL);
    }

    method NewBlock(q: int, ghost addrs: seq<int>, ghost free: seq<int>)
      requires Coupled() && Shape(hdr, addrs, free)
      requires q > 0 && q + HDR <= mem.Length
      requires forall x | x in hdr :: x + HDR <= q || q + HDR <= x
      modifies this`hdr, mem
      ensures Coupled() && Shape(hdr, addrs, free)
      ensures hdr.Keys == old(hdr).Keys + {q} && q !in old(hdr) && SameTags(old(hdr), hdr)
      ensures hdr[q][TAG] == MAGIC && hdr[q][POOL] == HEAP
      ensures forall a | 0 <= a < mem.Length && !InHeaders(hdr.Keys, a) :: mem[a] == old(mem[a])
    {
      NewHeader(q);
      assert forall x | x in [LIST] + free :: x == LIST || x in free;
      RingIgnores(old(hdr), hdr, addrs, NEXT);
      RingIgnores(old(hdr), hdr, [LIST] + free, NEXT_FREE);
    }

    // Build a header at q and link it behind block i, at p.
    method Carve(p: int, q: int, ghost addrs: seq<int>, ghost free: seq<int>, ghost i: nat)
      requires Coupled() && Shape(hdr, addrs, free) && i < |addrs| && addrs[i] == p
      requires q > 0 && q + HDR <= mem.Length
      requires forall x | x in hdr :: x + HDR <= q || q + HDR <= x
      modifies this`hdr, mem
      ensures Coupled() && Shape(hdr, InsertAt(addrs, i + 1, q), free)
      ensures hdr.Keys == old(hdr).Keys + {q} && q !in old(hdr) && SameTags(old(hdr), hdr)
      ensures hdr[q][TAG] == MAGIC && hdr[q][POOL] == HEAP
      ensures forall a | 0 <= a < mem.Length && !InHeaders(hdr.Keys, a) :: mem[a] == old(mem[a])
    {
      hide Ring, Coupled, InHeaders;
      NewBlock(q, addrs, free);
      ghost var made := hdr;
      InsertAfter(p, q, NEXT, addrs, i);
      RingFrame(made, hdr, [LIST] + free, NEXT_FREE, NEXT);
    }

    // Unlink a block from the block list.
    method UnlinkBlock(q: int, ghost addrs: seq<int>, ghost free: seq<int>, ghost i: nat)
      requires Coupled() && Shape(hdr, addrs, free) && i < |addrs| && addrs[i] == q && |addrs| > 1
      modifies this`hdr, mem
      ensures Coupled() && Ring(hdr, RemoveAt(addrs, i), NEXT) && Ring(hdr, [LIST] + free, NEXT_FREE)
      ensures hdr.Keys == old(hdr).Keys && SameTags(old(hdr), hdr)
      ensures forall a | 0 <= a < mem.Length && !InHeaders(hdr.Keys, a) :: mem[a] == old(mem[a])
    {
      Remove(q, NEXT, addrs, i);
      RingFrame(old(hdr), hdr, [LIST] + free, NEXT_FREE, NEXT);
    }

    method UnlinkFree(p: int, ghost addrs: seq<int>, ghost free: seq<int>, ghost j: nat)
      requires Coupled() && Ring(hdr, addrs, NEXT) && Ring(hdr, [LIST] + free, NEXT_FREE)
      requires j < |free| && free[j] == p
      modifies this`hdr, mem
      ensures Coupled() && Ring(hdr, addrs, NEXT) && Ring(hdr, [LIST] + RemoveAt(free, j), NEXT_FREE)
      ensures hdr.Keys == old(hdr).Keys && SameTags(old(hdr), hdr)
      ensures forall a | 0 <= a < mem.Length && !InHeaders(hdr.Keys, a) :: mem[a] == old(mem[a])
    {
      Remove(p, NEXT_FREE, [LIST] + free, j + 1);
      RingFrame(old(hdr), hdr, addrs, NEXT, NEXT_FREE);
      assert RemoveAt([LIST] + free, j + 1) == [LIST] + RemoveAt(free, j);
    }

    // Every block that becomes free goes to the front of the free list.
    method PushFree(q: int, ghost addrs: seq<int>, ghost free: seq<int>)
      requires Coupled() && Shape(hdr, addrs, free) && q in addrs && q !in free
      modifies this`hdr, mem
      ensures Coupled() && Shape(hdr, addrs, [q] + free)
      ensures hdr.Keys == old(hdr).Keys && SameTags(old(hdr), hdr)
      ensures forall a | 0 <= a < mem.Length && !InHeaders(hdr.Keys, a) :: mem[a] == old(mem[a])
    {
      assert forall x | x in [LIST] + free :: x == LIST || x in free;
      InsertAfter(LIST, q, NEXT_FREE, [LIST] + free, 0);
      RingFrame(old(hdr), hdr, addrs, NEXT, NEXT_FREE);
      assert InsertAt([LIST] + free, 1, q) == [LIST] + ([q] + free);
    }

    // A merged block's header is payload from now on.
    ghost method Forget(q: int, addrs: seq<int>, free: seq<int>)
      requires Coupled() && Ring(hdr, addrs, NEXT) && Ring(hdr, [LIST] + free, NEXT_FREE)
      requires q !in addrs && q !in [LIST] + free
      modifies this`hdr
      ensures Coupled() && Ring(hdr, addrs, NEXT) && Ring(hdr, [LIST] + free, NEXT_FREE)
      ensures hdr.Keys == old(hdr).Keys - {q} && SameTags(old(hdr), hdr)
    {
      hdr := hdr - {q};
      assert forall x | x in addrs :: x in old(hdr) by { RingMembers(old(hdr), addrs, NEXT); }
      assert forall x | x in [LIST] + free :: x in old(hdr) by { RingMembers(old(hdr), [LIST] + free, NEXT_FREE); }
      RingIgnores(old(hdr), hdr, addrs, NEXT);
      RingIgnores(old(hdr), hdr, [LIST] + free, NEXT_FREE);
    }

    // The pool agrees with its picture.
    ghost predicate Valid()
      reads this, mem
    {
      && Coupled() && Represents(hdr, pic) && Good(pic, mem.Length)
      && available == FreeWords(pic.blocks)
      && mem.Length - START - available <= maxUsed
    }

    // MEMITEM_SIZE
    function ItemSize(p: int): int
      requires 0 <= p && p + HDR <= mem.Length
      reads mem
    {
      mem[p + NEXT] - p - HDR
    }

    lemma ItemSizeIs(i: nat)
      requires Valid() && i + 1 < |pic.blocks|
      ensures 0 <= pic.blocks[i].at && pic.blocks[i].at + HDR <= mem.Length
      ensures ItemSize(pic.blocks[i].at) == pic.blocks[i].size
      ensures mem[pic.blocks[i].at + NEXT] == pic.blocks[i + 1].at
    {
      RingLinks(hdr, Addresses(pic.blocks), NEXT, i);
    }

    // A header at q, between those of blocks i and k, keeps its distance from all headers outside.
    lemma ClearOfHeaders(was: Picture, i: nat, k: nat, q: int)
      requires Good(was, mem.Length) && i < k < |was.blocks|
      requires forall x | x in hdr :: x == LIST || (x in Addresses(was.blocks) && !(was.blocks[i].at < x < was.blocks[k].at))
      requires was.blocks[i].at + HDR <= q && q + HDR <= was.blocks[k].at
      ensures forall x | x in hdr :: x + HDR <= q || q + HDR <= x
      ensures q > 0 && q + HDR <= mem.Length
    {
      forall x | x in hdr
        ensures x + HDR <= q || q + HDR <= x
      {
        if i > 0 { TiledOrder(was.blocks, mem.Length, 0, i); }
        if x != LIST {
          var m :| 0 <= m < |was.blocks| && Addresses(was.blocks)[m] == x;
          if m < i { TiledOrder(was.blocks, mem.Length, m, i); }
          if i < m < k { TiledOrder(was.blocks, mem.Length, i, m); TiledOrder(was.blocks, mem.Length, m, k); }
          if m > k { TiledOrder(was.blocks, mem.Length, k, m); }
        }
      }
      if k < |was.blocks| - 1 { TiledOrder(was.blocks, mem.Length, k, |was.blocks| - 1); }
      if i > 0 { TiledOrder(was.blocks, mem.Length, 0, i); }
    }

    method Charge()
      modifies this`maxUsed
      ensures maxUsed == Max(old(maxUsed), mem.Length - START - available)
    {
      if mem.Length - START - available > maxUsed {
        maxUsed := mem.Length - START - available;
      }
    }

    // next_free = prev_free = RT_NULL in a header that has left the free list.
    method ClearLinks(p: int, ghost addrs: seq<int>, ghost free: seq<int>)
      requires Coupled() && Shape(hdr, addrs, free) && p in addrs && p !in free
      modifies this`hdr, mem
      ensures Coupled() && Shape(hdr, addrs, free)
      ensures hdr.Keys == old(hdr).Keys && SameTags(old(hdr), hdr)
      ensures forall a | 0 <= a < mem.Length && !InHeaders(hdr.Keys, a) :: mem[a] == old(mem[a])
    {
      hide Coupled, InHeaders, Shape, SameTags, Set;
      ShapeCleared(hdr, addrs, free, p);
      Put(p, NEXT_FREE, NIL);
      Put(p, PREV_FREE, NIL);
    }

    // The pointer work of a split: q is carved off, p leaves the free list, q joins it.
    method RelinkSplit(p: int, q: int, ghost addrs: seq<int>, ghost free: seq<int>, ghost i: nat, ghost j: nat)
      requires Coupled() && Shape(hdr, addrs, free) && i < |addrs| && addrs[i] == p
      requires j < |free| && free[j] == p && Distinct(free)
      requires q > 0 && q + HDR <= mem.Length
      requires forall x | x in hdr :: x + HDR <= q || q + HDR <= x
      modifies this`hdr, mem
      ensures Coupled() && Shape(hdr, InsertAt(addrs, i + 1, q), [q] + RemoveAt(free, j))
      ensures hdr.Keys == old(hdr).Keys + {q} && q !in old(hdr) && SameTags(old(hdr), hdr)
      ensures hdr[q][TAG] == MAGIC && hdr[q][POOL] == HEAP
      ensures forall a | 0 <= a < mem.Length && !InHeaders(hdr.Keys, a) :: mem[a] == old(mem[a])
    {
      hide Ring, Coupled, InHeaders;
      ghost var addrs', free' := InsertAt(addrs, i + 1, q), RemoveAt(free, j);
      RemoveAtElems(free, j);
      Carve(p, q, addrs, free, i);
      UnlinkFree(p, addrs', free, j);
      ClearLinks(p, addrs', free');
      PushFree(q, addrs', free');
    }

    // magic |= RT_MEMHEAP_USED, or &= ~RT_MEMHEAP_USED
    method Mark(p: int, used: bool, ghost addrs: seq<int>, ghost free: seq<int>)
      requires Coupled() && Shape(hdr, addrs, free) && p in addrs
      requires hdr[p][TAG] == MAGIC || hdr[p][TAG] == MAGIC + 1
      modifies this`hdr, mem
      ensures Coupled() && Shape(hdr, addrs, free)
      ensures hdr.Keys == old(hdr).Keys && hdr == old(hdr)[p := old(hdr)[p][TAG := TagOf(used)]]
      ensures forall a | 0 <= a < mem.Length && !InHeaders(hdr.Keys, a) :: mem[a] == old(mem[a])
    {
      hide Coupled, InHeaders, Shape;
      ShapeMembers(hdr, addrs, free, p);
      Word(p, TAG);
      if used {
        Put(p, TAG, mem[p + TAG] + 1 - mem[p + TAG] % 2);
      } else {
        Put(p, TAG, mem[p + TAG] - mem[p + TAG] % 2);
      }
      ShapeMarked(old(hdr), hdr, addrs, free, p);
    }

    method SplitHeaders(p: int, q: int, ghost addrs: seq<int>, ghost free: seq<int>, ghost i: nat, ghost j: nat)
      requires Coupled() && Shape(hdr, addrs, free) && i < |addrs| && addrs[i] == p
      requires j < |free| && free[j] == p && Distinct(free)
      requires q > 0 && q + HDR <= mem.Length
      requires forall x | x in hdr :: x + HDR <= q || q + HDR <= x
      requires hdr[p][TAG] == MAGIC || hdr[p][TAG] == MAGIC + 1
      modifies this`hdr, mem
      ensures Coupled() && Shape(hdr, InsertAt(addrs, i + 1, q), [q] + RemoveAt(free, j))
      ensures hdr.Keys == old(hdr).Keys + {q} && q !in old(hdr)
      ensures SameTags(old(hdr)[p := old(hdr)[p][TAG := TagOf(true)]], hdr)
      ensures hdr[q][TAG] == MAGIC && hdr[q][POOL] == HEAP
      ensures forall a | 0 <= a < mem.Length && !InHeaders(hdr.Keys, a) :: mem[a] == old(mem[a])
    {
      hide Ring, Distinct, RemoveAt, Coupled, InHeaders;
      RelinkSplit(p, q, addrs, free, i, j);
      InsertElems(addrs, i + 1, q);
      Mark(p, true, InsertAt(addrs, i + 1, q), [q] + RemoveAt(free, j));
    }

    // The block is large enough to be split.
    method TakeSplit(p: int, need: int, ghost i: nat, ghost j: nat)
      requires Coupled() && Represents(hdr, pic) && i < |pic.blocks| && pic.blocks[i].at == p && !pic.blocks[i].used
      requires j < |pic.free| && pic.free[j] == p && Distinct(pic.free)
      requires p + HDR + need > 0 && p + HDR + need + HDR <= mem.Length
      requires forall x | x in hdr :: x + HDR <= p + HDR + need || p + HDR + need + HDR <= x
      modifies this`hdr, this`pic, mem
      ensures Coupled() && Represents(hdr, pic) && hdr.Keys == old(hdr).Keys + {p + HDR + need}
      ensures pic == Picture(Split(old(pic).blocks, i, need), [p + HDR + need] + RemoveAt(old(pic).free, j))
      ensures forall a | 0 <= a < mem.Length && !InHeaders(hdr.Keys, a) :: mem[a] == old(mem[a])
    {
      hide Represents, Shape, Split, RemoveAt, Distinct, SameTags;
      var q := p + need + HDR;
      ghost var addrs, free := Addresses(pic.blocks), pic.free;
      Unpack(hdr, pic, i);
      SplitHeaders(p, q, addrs, free, i, j);
      SplitSettles(old(hdr), hdr, pic, i, need, [q] + RemoveAt(free, j));
      pic := Picture(Split(pic.blocks, i, need), [q] + RemoveAt(free, j));
    }

    method MarkHeaders(p: int, used: bool, ghost addrs: seq<int>, ghost free: seq<int>)
      requires Coupled() && Shape(hdr, addrs, free) && p in addrs
      requires hdr[p][TAG] == MAGIC || hdr[p][TAG] == MAGIC + 1
      modifies this`hdr, mem
      ensures Coupled() && Shape(hdr, addrs, free) && hdr.Keys == old(hdr).Keys
      ensures SameTags(old(hdr)[p := old(hdr)[p][TAG := TagOf(used)]], hdr)
      ensures forall a | 0 <= a < mem.Length && !InHeaders(hdr.Keys, a) :: mem[a] == old(mem[a])
    {
      Mark(p, used, addrs, free);
    }

    method MarkStep(p: int, used: bool, ghost i: nat)
      requires Coupled() && Represents(hdr, pic) && i < |pic.blocks| && pic.blocks[i].at == p
      modifies this`hdr, this`pic, mem
      ensures Coupled() && Represents(hdr, pic) && hdr.Keys == old(hdr).Keys
      ensures pic == old(pic).(blocks := old(pic).blocks[i := old(pic).blocks[i].(used := used)])
      ensures forall a | 0 <= a < mem.Length && !InHeaders(hdr.Keys, a) :: mem[a] == old(mem[a])
    {
      hide Represents, Shape, SameTags;
      Unpack(hdr, pic, i);
      MarkHeaders(p, used, Addresses(pic.blocks), pic.free);
      MarkSettles(old(hdr), hdr, pic, i, used, pic.free);
      pic := Picture(pic.blocks[i := pic.blocks[i].(used := used)], pic.free);
    }

    method TakeWholeHeaders(p: int, ghost addrs: seq<int>, ghost free: seq<int>, ghost j: nat)
      requires Coupled() && Shape(hdr, addrs, free) && p in addrs
      requires j < |free| && free[j] == p && Distinct(free)
      requires hdr[p][TAG] == MAGIC || hdr[p][TAG] == MAGIC + 1
      modifies this`hdr, mem
      ensures Coupled() && Shape(hdr, addrs, RemoveAt(free, j)) && hdr.Keys == old(hdr).Keys
      ensures SameTags(old(hdr)[p := old(hdr)[p][TAG := TagOf(true)]], hdr)
      ensures forall a | 0 <= a < mem.Length && !InHeaders(hdr.Keys, a) :: mem[a] == old(mem[a])
    {
      hide Ring, Distinct, RemoveAt, Coupled, InHeaders;
      RemoveAtElems(free, j);
      UnlinkFree(p, addrs, free, j);
      ClearLinks(p, addrs, RemoveAt(free, j));
      Mark(p, true, addrs, RemoveAt(free, j));
    }

    // The block is handed out whole.
    method TakeWhole(p: int, ghost i: nat, ghost j: nat)
      requires Coupled() && Represents(hdr, pic) && i < |pic.blocks| && pic.blocks[i].at == p
      requires j < |pic.free| && pic.free[j] == p && Distinct(pic.free)
      modifies this`hdr, this`pic, mem
      ensures Coupled() && Represents(hdr, pic) && hdr.Keys == old(hdr).Keys
      ensures pic == Picture(old(pic).blocks[i := old(pic).blocks[i].(used := true)], RemoveAt(old(pic).free, j))
      ensures forall a | 0 <= a < mem.Length && !InHeaders(hdr.Keys, a) :: mem[a] == old(mem[a])
    {
      hide Represents, Shape, SameTags, RemoveAt, Distinct;
      Unpack(hdr, pic, i);
      TakeWholeHeaders(p, Addresses(pic.blocks), pic.free, j);
      MarkSettles(old(hdr), hdr, pic, i, true, RemoveAt(pic.free, j));
      pic := Picture(pic.blocks[i := pic.blocks[i].(used := true)], RemoveAt(pic.free, j));
    }

    // Merging with the left neighbour: the header at q leaves the block list; it is on no free list.
    method SwallowLeft(q: int, ghost k: nat)
      requires Coupled() && Represents(hdr, pic) && k + 1 < |pic.blocks| && pic.blocks[k + 1].at == q
      requires q !in pic.free
      modifies this`hdr, this`pic, mem
      ensures Coupled() && Represents(hdr, pic) && hdr.Keys == old(hdr).Keys - {q}
      ensures pic == Picture(Merge(old(pic).blocks, k), old(pic).free)
      ensures forall a | 0 <= a < mem.Length && !InHeaders(old(hdr).Keys, a) :: mem[a] == old(mem[a])
    {
      hide Represents, RemoveAt, Distinct, Ring;
      ghost var addrs := Addresses(pic.blocks);
      Unpack(hdr, pic, k + 1);
      AddressesDiffer(hdr, pic);
      RemoveAtElems(addrs, k + 1);
      UnlinkBlock(q, addrs, pic.free, k + 1);
      assert q !in [LIST] + pic.free;
      Forget(q, RemoveAt(addrs, k + 1), pic.free);
      MergeSettles(old(hdr), hdr, pic, k, pic.free);
      pic := Picture(Merge(pic.blocks, k), pic.free);
    }

    // Merging with the right neighbour: the header at q leaves the block list, then the free list.
    method SwallowRight(q: int, ghost k: nat, ghost j: nat)
      requires Coupled() && Represents(hdr, pic) && k + 1 < |pic.blocks| && pic.blocks[k + 1].at == q
      requires j < |pic.free| && pic.free[j] == q
      modifies this`hdr, this`pic, mem
      ensures Coupled() && Represents(hdr, pic) && hdr.Keys == old(hdr).Keys - {q}
      ensures pic == Picture(Merge(old(pic).blocks, k), Without(old(pic).free, q))
      ensures forall a | 0 <= a < mem.Length && !InHeaders(old(hdr).Keys, a) :: mem[a] == old(mem[a])
    {
      hide Represents, RemoveAt, Distinct, Ring, Without;
      ghost var addrs, free' := Addresses(pic.blocks), RemoveAt(pic.free, j);
      Unpack(hdr, pic, k + 1);
      AddressesDiffer(hdr, pic);
      RemoveAtElems(addrs, k + 1);
      RemoveAtElems(pic.free, j);
      WithoutIsRemoveAt(pic.free, j);
      UnlinkBlock(q, addrs, pic.free, k + 1);
      UnlinkFree(q, RemoveAt(addrs, k + 1), pic.free, j);
      assert q !in [LIST] + free';
      Forget(q, RemoveAt(addrs, k + 1), free');
      MergeSettles(old(hdr), hdr, pic, k, free');
      pic := Picture(Merge(pic.blocks, k), free');
    }

    // The same before growing in place: first off the free list, then out of the block list.
    method SwallowNext(q: int, ghost k: nat, ghost j: nat)
      requires Coupled() && Represents(hdr, pic) && k + 1 < |pic.blocks| && pic.blocks[k + 1].at == q
      requires j < |pic.free| && pic.free[j] == q
      modifies this`hdr, this`pic, mem
      ensures Coupled() && Represents(hdr, pic) && hdr.Keys == old(hdr).Keys - {q}
      ensures pic == Picture(Merge(old(pic).blocks, k), Without(old(pic).free, q))
      ensures forall a | 0 <= a < mem.Length && !InHeaders(old(hdr).Keys, a) :: mem[a] == old(mem[a])
    {
      hide Represents, RemoveAt, Distinct, Ring, Without;
      ghost var addrs, free' := Addresses(pic.blocks), RemoveAt(pic.free, j);
      Unpack(hdr, pic, k + 1);
      AddressesDiffer(hdr, pic);
      RemoveAtElems(addrs, k + 1);
      RemoveAtElems(pic.free, j);
      WithoutIsRemoveAt(pic.free, j);
      UnlinkFree(q, addrs, pic.free, j);
      RingMembers(hdr, addrs, NEXT);
      RingMembers(hdr, [LIST] + free', NEXT_FREE);
      assert LIST in hdr by { assert LIST in [LIST] + free'; }
      UnlinkBlock(q, addrs, free', k + 1);
      assert q !in [LIST] + free';
      Forget(q, RemoveAt(addrs, k + 1), free');
      MergeSettles(old(hdr), hdr, pic, k, free');
      pic := Picture(Merge(pic.blocks, k), free');
    }

    // A new free block behind an owned one.
    method CarveStep(p: int, q: int, need: int, ghost i: nat)
      requires Coupled() && Represents(hdr, pic) && i < |pic.blocks| && pic.blocks[i].at == p && pic.blocks[i].used
      requires q == p + HDR + need && q > 0 && q + HDR <= mem.Length
      requires forall x | x in hdr :: x + HDR <= q || q + HDR <= x
      modifies this`hdr, this`pic, mem
      ensures Coupled() && Represents(hdr, pic) && hdr.Keys == old(hdr).Keys + {q}
      ensures pic == Picture(Split(old(pic).blocks, i, need), old(pic).free)
      ensures forall a | 0 <= a < mem.Length && !InHeaders(hdr.Keys, a) :: mem[a] == old(mem[a])
    {
      hide Represents, Shape, Split;
      ghost var addrs := Addresses(pic.blocks);
      Unpack(hdr, pic, i);
      Carve(p, q, addrs, pic.free, i);
      SplitSettles(old(hdr), hdr, pic, i, need, pic.free);
      pic := Picture(Split(pic.blocks, i, need), pic.free);
    }

    method PushStep(q: int, ghost i: nat)
      requires Coupled() && Represents(hdr, pic) && i < |pic.blocks| && pic.blocks[i].at == q && q !in pic.free
      modifies this`hdr, this`pic, mem
      ensures Coupled() && Represents(hdr, pic) && hdr.Keys == old(hdr).Keys
      ensures pic == old(pic).(free := [q] + old(pic).free)
      ensures forall a | 0 <= a < mem.Length && !InHeaders(hdr.Keys, a) :: mem[a] == old(mem[a])
    {
      hide Shape;
      ghost var addrs := Addresses(pic.blocks);
      assert addrs[i] == q && q in addrs;
      Unpack(hdr, pic, i);
      PushFree(q, addrs, pic.free);
      forall b | b in pic.blocks
        ensures TagOk(hdr, b)
      {
        assert TagOk(old(hdr), b);
      }
      pic := pic.(free := [q] + pic.free);
    }

    // heap->free_list->next_free, and next_free of the j-th free block
    lemma FreeLinks(j: nat)
      requires Coupled() && Represents(hdr, pic) && j <= |pic.free|
      ensures LIST + HDR <= mem.Length
      ensures mem[LIST + NEXT_FREE] == if |pic.free| == 0 then LIST else pic.free[0]
      ensures j < |pic.free| ==>
        && 0 < pic.free[j] && pic.free[j] + HDR <= mem.Length
        && mem[pic.free[j] + NEXT_FREE] == if j + 1 == |pic.free| then LIST else pic.free[j + 1]
    {
      RingLinks(hdr, [LIST] + pic.free, NEXT_FREE, 0);
      if j < |pic.free| {
        RingLinks(hdr, [LIST] + pic.free, NEXT_FREE, j + 1);
        assert pic.free[j] in pic.free;
      }
    }

    // The first-fit search along the free list.
    method FindFit(need: int) returns (p: int, freeSize: int, ghost j: nat)
      requires Valid() && need > 0
      ensures j == FirstFit(pic, need, 0)
      ensures freeSize >= need <==> j < |pic.free|
      ensures j < |pic.free| ==> p > 0 && p == pic.free[j] && freeSize == pic.blocks[Find(pic.blocks, p)].size
    {
      hide Represents, Coupled, Good, FreeWords, FirstFit;
      freeSize, j := 0, 0;
      FreeLinks(0);
      p := mem[LIST + NEXT_FREE];
      while p != LIST && freeSize < need
        invariant j <= |pic.free| && p == if j == |pic.free| then LIST else pic.free[j]
        invariant forall k | 0 <= k < j :: !Fits(pic, k, need)
        invariant freeSize >= need ==> j < |pic.free| && Fits(pic, j, need)
                                       && freeSize == pic.blocks[Find(pic.blocks, p)].size
        decreases |pic.free| - j, need - freeSize
      {
        FreeLinks(j);
        FreeEntry(pic, mem.Length, j);
        ItemSizeIs(Find(pic.blocks, p));
        freeSize := ItemSize(p);
        if freeSize < need {
          p := mem[p + NEXT_FREE];
          j := j + 1;
        }
      }
      FreeLinks(j);
      FirstFitIs(pic, need, j);
    }

    method Alloc(n: nat) returns (ptr: int)
      requires Valid() && n <= MAX_REQUEST
      modifies this, mem
      ensures Valid()
      ensures match MemHeapPicture.Alloc(old(pic), RequestWords(n))
              case None =>
                ptr == NIL && pic == old(pic) && maxUsed == old(maxUsed) && mem[..] == old(mem[..])
              case Some((after, p)) =>
                ptr == p + HDR && p > 0 && pic == after && maxUsed == Max(old(maxUsed), mem.Length - START - available)
      ensures Kept(old(mem[..]), mem[..], old(pic).blocks)
    {
      var need := RequestWords(n);
      ptr := NIL;
      if need < available {
        var p, freeSize, j := FindFit(need);
        if freeSize >= need {
          Take(p, freeSize, need, j);
          ptr := p + HDR;
        }
      }
    }

    // The addresses of the headers are those of the blocks.
    lemma Keys(p: int)
      requires Valid() && p in hdr && p != LIST
      ensures exists m | 0 <= m < |pic.blocks| :: pic.blocks[m].at == p
    {
      var m :| 0 <= m < |pic.blocks| && Addresses(pic.blocks)[m] == p;
    }

    lemma Unhide(i: nat)
      requires Valid() && i < |pic.blocks|
      ensures Tiled(pic.blocks, mem.Length) && Distinct(pic.free)
      ensures i + 1 < |pic.blocks| ==> forall p | p in hdr.Keys :: !(pic.blocks[i].at < p < pic.blocks[i + 1].at)
      ensures i + 2 < |pic.blocks| ==> forall p | p in hdr.Keys && p != pic.blocks[i + 1].at :: !(pic.blocks[i].at < p < pic.blocks[i + 2].at)
      ensures forall p | p in hdr.Keys :: p == LIST || p in Addresses(pic.blocks)
      ensures forall p, q | q == LIST && p in hdr.Keys + {q} :: p == LIST || p in Addresses(pic.blocks)
    {
      hide Coupled, FreeWords, NoTwoFree, Shape, Tagged;
      forall p | p in hdr.Keys
        ensures i + 1 < |pic.blocks| ==> !(pic.blocks[i].at < p < pic.blocks[i + 1].at)
        ensures i + 2 < |pic.blocks| && p != pic.blocks[i + 1].at ==> !(pic.blocks[i].at < p < pic.blocks[i + 2].at)
      {
        if p == LIST {
          if i > 0 { TiledOrder(pic.blocks, mem.Length, 0, i); }
        } else {
          Keys(p);
          var m :| 0 <= m < |pic.blocks| && pic.blocks[m].at == p;
          if i + 1 < |pic.blocks| { NotBetween(pic.blocks, mem.Length, i, i + 1, m); }
          if i + 2 < |pic.blocks| && m != i + 1 { NotBetween(pic.blocks, mem.Length, i, i + 2, m); }
        }
      }
    }

    // Carries out what the search decided: split the block or hand it out whole.
    method Take(p: int, freeSize: int, need: int, ghost j: nat)
      requires Valid() && j < |pic.free| && pic.free[j] == p && need >= 0 && Fits(pic, j, need)
      requires freeSize == pic.blocks[Find(pic.blocks, p)].size
      modifies this, mem
      ensures Valid() && pic == AllocAt(old(pic), j, need)
      ensures maxUsed == Max(old(maxUsed), mem.Length - START - available)
      ensures Kept(old(mem[..]), mem[..], old(pic).blocks)
    {
      hide Represents, Coupled, Good, FreeWords, Tiled, Kept, InHeaders, Split, RemoveAt, Distinct;
      ghost var i := Find(pic.blocks, p);
      ghost var blocks := pic.blocks;
      Unhide(i);
      FreeEntry(pic, mem.Length, j);
      AroundFree(pic, mem.Length, i);
      GoodAlloc(pic, mem.Length, j, need);
      if freeSize >= need + HDR + MINI {
        FreeWordsSplit(blocks, i, need);
        ClearOfHeaders(pic, i, i + 1, p + HDR + need);
        TakeSplit(p, need, i, j);
        available := available - need - HDR;
        HeadersMissPayloads(blocks, mem.Length, hdr.Keys, p + HDR + need, i, old(mem[..]), mem[..]);
      } else {
        FreeWordsMark(blocks, i, true);
        available := available - freeSize;
        TakeWhole(p, i, j);
        HeadersMissPayloads(blocks, mem.Length, hdr.Keys, LIST, i, old(mem[..]), mem[..]);
      }
      Charge();
    }

    // What the code reads from the header of block i.
    lemma Reads(i: nat)
      requires Coupled() && Represents(hdr, pic) && i < |pic.blocks|
      ensures var p := pic.blocks[i].at;
              && 0 < p && p + HDR <= mem.Length
              && mem[p + TAG] == TagOf(pic.blocks[i].used) && mem[p + POOL] == HEAP
              && mem[p + NEXT] == pic.blocks[if i + 1 == |pic.blocks| then 0 else i + 1].at
              && mem[p + PREV] == pic.blocks[if i == 0 then |pic.blocks| - 1 else i - 1].at
    {
      var addrs := Addresses(pic.blocks);
      assert addrs[i] in addrs;
      assert TagOk(hdr, pic.blocks[i]);
      RingLinks(hdr, addrs, NEXT, i);
      assert Before(addrs, i) == addrs[if i == 0 then |addrs| - 1 else i - 1];
      assert After(addrs, i) == addrs[if i + 1 == |addrs| then 0 else i + 1];
    }

    // The block is marked free; if its left neighbour is free too, that one swallows it.
    method AbsorbLeft(header: int, ghost i: nat) returns (h: int, merged: bool)
      requires Coupled() && Represents(hdr, pic) && available == FreeWords(pic.blocks)
      requires i + 1 < |pic.blocks| && pic.blocks[i].at == header && !pic.blocks[i].used && header !in pic.free
      requires pic.blocks[|pic.blocks| - 1].used
      modifies this`hdr, this`pic, this`available, mem
      ensures Coupled() && Represents(hdr, pic) && available == FreeWords(pic.blocks)
      ensures merged <==> i > 0 && !old(pic).blocks[i - 1].used
      ensures merged ==> h == old(pic).blocks[i - 1].at && pic == Picture(Merge(old(pic).blocks, i - 1), old(pic).free)
      ensures !merged ==> h == header && pic == old(pic)
      ensures hdr.Keys <= old(hdr).Keys && available >= old(available)
      ensures forall a | 0 <= a < mem.Length && !InHeaders(old(hdr).Keys, a) :: mem[a] == old(mem[a])
    {
      hide Represents, Coupled, FreeWords, Merge;
      h, merged := header, false;
      Reads(i);
      Reads(if i == 0 then |pic.blocks| - 1 else i - 1);
      if mem[mem[h + PREV] + TAG] % 2 == 0 {
        FreeWordsMerge(pic.blocks, i - 1);
        available := available + HDR;
        var prev := mem[h + PREV];
        SwallowLeft(h, i - 1);
        h, merged := prev, true;
      }
    }

    // If the right neighbour is free, the block at h swallows it.
    method AbsorbRight(h: int, ghost i: nat)
      requires Coupled() && Represents(hdr, pic) && available == FreeWords(pic.blocks)
      requires i + 1 < |pic.blocks| && pic.blocks[i].at == h && !pic.blocks[i].used
      requires !pic.blocks[i + 1].used ==> pic.blocks[i + 1].at in pic.free
      modifies this`hdr, this`pic, this`available, mem
      ensures Coupled() && Represents(hdr, pic) && available == FreeWords(pic.blocks)
      ensures pic == MergeRight(old(pic), i)
      ensures hdr.Keys <= old(hdr).Keys && available >= old(available)
      ensures forall a | 0 <= a < mem.Length && !InHeaders(old(hdr).Keys, a) :: mem[a] == old(mem[a])
    {
      hide Represents, Coupled, FreeWords, Merge, Without;
      Reads(i);
      Reads(i + 1);
      if mem[mem[h + NEXT] + TAG] % 2 == 0 {
        FreeWordsMerge(pic.blocks, i);
        available := available + HDR;
        ghost var j :| 0 <= j < |pic.free| && pic.free[j] == pic.blocks[i + 1].at;
        SwallowRight(mem[h + NEXT], i, j);
      }
    }

    // Position of the block that a caller's pointer belongs to.
    ghost function At(ptr: int): nat
      reads this`pic
    {
      Find(pic.blocks, ptr - HDR)
    }

    // A pointer that alloc or realloc handed out and nobody freed since.
    ghost predicate Live(ptr: int)
      reads this`pic
    {
      At(ptr) + 1 < |pic.blocks| && pic.blocks[At(ptr)].used
    }

    method Free(ptr: int)
      requires Valid() && (ptr == NIL || Live(ptr))
      modifies this, mem
      ensures Valid() && maxUsed == old(maxUsed)
      ensures pic == if ptr == NIL then old(pic) else MemHeapPicture.Free(old(pic), old(At(ptr)))
      ensures Kept(old(mem[..]), mem[..], old(pic).blocks)
    {
      if ptr == NIL {
        return;
      }
      FreeBlock(ptr - HDR, At(ptr));
    }

    // The block's tag and payload now count as free; no merging yet.
    method MarkFree(header: int, ghost i: nat)
      requires Valid() && i + 1 < |pic.blocks| && pic.blocks[i].used && pic.blocks[i].at == header
      modifies this`hdr, this`pic, this`available, mem
      ensures Coupled() && Represents(hdr, pic) && available == FreeWords(pic.blocks) >= old(available)
      ensures pic == old(pic).(blocks := old(pic).blocks[i := old(pic).blocks[i].(used := false)])
      ensures hdr.Keys == old(hdr).Keys
      ensures forall a | 0 <= a < mem.Length && !InHeaders(hdr.Keys, a) :: mem[a] == old(mem[a])
    {
      hide Represents, Coupled, Good, FreeWords, InHeaders;
      Around(pic, mem.Length, i);
      Reads(i);
      assert mem[header + TAG] - mem[header + TAG] % 2 == MAGIC && mem[header + POOL] == HEAP;
      FreeWordsMark(pic.blocks, i, false);
      MarkStep(header, false, i);
      Reads(i);
      available := available + ItemSize(header);
    }

    method FreeBlock(header: int, ghost i: nat)
      requires Valid() && i + 1 < |pic.blocks| && pic.blocks[i].used && pic.blocks[i].at == header
      modifies this, mem
      ensures Valid() && maxUsed == old(maxUsed)
      ensures pic == MemHeapPicture.Free(old(pic), i)
      ensures Kept(old(mem[..]), mem[..], old(pic).blocks)
    {
      hide Represents, Coupled, Good, FreeWords, Tiled, Kept, Merge, MergeRight, Distinct;
      ghost var was := pic;
      Unhide(i);
      Around(pic, mem.Length, i);
      UsedNotFree(pic, mem.Length, i);
      GoodFree(pic, mem.Length, i);
      TailerUsed(pic, mem.Length);
      if !was.blocks[i + 1].used { FreeIsListed(was, mem.Length, i + 1); }
      MarkFree(header, i);
      if i > 0 { MergeIndices(pic.blocks, i - 1); }
      var h, merged := AbsorbLeft(header, i);
      AbsorbRight(h, if merged then i - 1 else i);
      if !merged {
        PushBack(was, i);
        PushStep(h, i);
      }
      HeadersMissPayloads(was.blocks, mem.Length, old(hdr).Keys, LIST, i, old(mem[..]), mem[..]);
    }

    // After merging to the right the block is still number i, and not yet on the free list.
    lemma PushBack(was: Picture, i: nat)
      requires Good(was, mem.Length) && i + 1 < |was.blocks| && was.blocks[i].used
      requires pic == MergeRight(Picture(was.blocks[i := was.blocks[i].(used := false)], was.free), i)
      ensures i < |pic.blocks| && pic.blocks[i].at == was.blocks[i].at && was.blocks[i].at !in pic.free
    {
      UsedNotFree(was, mem.Length, i);
      WithoutElems(was.free, was.blocks[i + 1].at);
    }

    // Grow in place: the free successor is taken apart and rebuilt further up.
    method GrowInPlace(header: int, next: int, need: int, ghost i: nat)
      requires Valid() && i + 1 < |pic.blocks| && pic.blocks[i].used && pic.blocks[i].at == header
      requires CanGrow(pic, i, need) && need > pic.blocks[i].size && next == pic.blocks[i + 1].at
      modifies this, mem
      ensures Valid() && pic == Grow(old(pic), i, need)
      ensures maxUsed == Max(old(maxUsed), mem.Length - START - available)
      ensures Kept(old(mem[..]), mem[..], old(pic).blocks)
    {
      hide Represents, Coupled, Good, FreeWords, Tiled, Kept, Merge, Split, Grow, Without, Distinct;
      ghost var was := pic;
      Unhide(i);
      Around(pic, mem.Length, i);
      FreeIsListed(pic, mem.Length, i + 1);
      GoodGrow(pic, mem.Length, i, need);
      MergeIndices(pic.blocks, i);
      FreeWordsGrow(pic, i, need);
      ItemSizeIs(i);
      available := available - (need - ItemSize(header));
      Charge();
      ghost var j :| 0 <= j < |pic.free| && pic.free[j] == next;
      SwallowNext(next, i, j);
      BuildRest(header, header + HDR + need, need, i, was);
      HeadersMissPayloads(was.blocks, mem.Length, old(hdr).Keys + {header + HDR + need}, header + HDR + need, i + 1, old(mem[..]), mem[..]);
    }

    // The second half: a header for what is left of the successor, linked behind the grown block.
    method BuildRest(header: int, q: int, need: int, ghost i: nat, ghost was: Picture)
      requires Coupled() && Represents(hdr, pic) && Good(was, mem.Length)
      requires i + 2 < |was.blocks| && was.blocks[i].used && was.blocks[i].at == header && q == header + HDR + need
      requires CanGrow(was, i, need) && need > was.blocks[i].size
      requires pic == Picture(Merge(was.blocks, i), Without(was.free, was.blocks[i + 1].at))
      requires forall x | x in hdr :: x == LIST || (x in Addresses(was.blocks) && !(was.blocks[i].at < x < was.blocks[i + 2].at))
      modifies this`hdr, this`pic, mem
      ensures Coupled() && Represents(hdr, pic) && pic == Grow(was, i, need) && hdr.Keys == old(hdr).Keys + {q}
      ensures forall a | 0 <= a < mem.Length && !InHeaders(hdr.Keys, a) :: mem[a] == old(mem[a])
    {
      hide Represents, Coupled, Good, Merge, Split, Grow, Without, InHeaders;
      Around(was, mem.Length, i);
      GrowIsMergeSplit(was, i, need);
      MergeIndices(was.blocks, i);
      ClearOfHeaders(was, i, i + 2, q);
      CarveStep(header, q, need, i);
      NotYetListed(was, i, need);
      SplitIndex(Merge(was.blocks, i), i, need);
      PushStep(q, i + 1);
    }

    lemma SplitIndex(blocks: seq<Block>, i: nat, need: int)
      requires i < |blocks|
      ensures i + 1 < |Split(blocks, i, need)| && Split(blocks, i, need)[i + 1].at == blocks[i].at + HDR + need
    {
    }

    lemma NotYetListed(was: Picture, i: nat, need: int)
      requires Good(was, mem.Length) && i + 1 < |was.blocks| && was.blocks[i].used
      requires CanGrow(was, i, need) && need > was.blocks[i].size
      ensures was.blocks[i].at + HDR + need !in Without(was.free, was.blocks[i + 1].at)
      ensures Grow(was, i, need).free == [was.blocks[i].at + HDR + need] + Without(was.free, was.blocks[i + 1].at)
    {
      var q := was.blocks[i].at + HDR + need;
      Around(was, mem.Length, i);
      FreeListMoved(was, mem.Length, i, i + 2, q, q);
      var s, w := Moved(was, i, q), Without(was.free, was.blocks[i + 1].at);
      assert s == [q] + w;
      assert forall k | 0 <= k < |w| :: w[k] == s[k + 1] && s[k + 1] != s[0];
    }

    // The span of block i, as MEMITEM_SIZE sees it.
    lemma Gap(i: nat)
      requires Coupled() && Represents(hdr, pic) && i + 1 < |pic.blocks|
      ensures 0 < pic.blocks[i].at && pic.blocks[i].at + HDR <= mem.Length
      ensures ItemSize(pic.blocks[i].at) == pic.blocks[i + 1].at - pic.blocks[i].at - HDR
    {
      Reads(i);
    }

    // The block at q, not yet counted as available, swallows a free right neighbour that was.
    method AbsorbUncounted(q: int, ghost i: nat)
      requires Coupled() && Represents(hdr, pic)
      requires i + 1 < |pic.blocks| && pic.blocks[i].at == q
      requires !pic.blocks[i + 1].used ==>
        pic.blocks[i + 1].at in pic.free && i + 2 < |pic.blocks|
        && pic.blocks[i + 2].at == pic.blocks[i + 1].at + HDR + pic.blocks[i + 1].size
      modifies this`hdr, this`pic, this`available, mem
      ensures Coupled() && Represents(hdr, pic) && pic == MergeRight(old(pic), i)
      ensures available == old(available) - if old(pic).blocks[i + 1].used then 0 else old(pic).blocks[i + 1].size
      ensures hdr.Keys <= old(hdr).Keys
      ensures forall a | 0 <= a < mem.Length && !InHeaders(old(hdr).Keys, a) :: mem[a] == old(mem[a])
    {
      hide Represents, Coupled, Merge, Without;
      Reads(i);
      Reads(i + 1);
      if mem[mem[q + NEXT] + TAG] % 2 == 0 {
        Gap(i + 1);
        ghost var j :| 0 <= j < |pic.free| && pic.free[j] == pic.blocks[i + 1].at;
        available := available - ItemSize(mem[q + NEXT]);
        SwallowRight(mem[q + NEXT], i, j);
      }
    }

    // Give back the end of an owned block, merged with a free successor.
    method ShrinkInPlace(header: int, need: int, ghost i: nat)
      requires Valid() && i + 1 < |pic.blocks| && pic.blocks[i].used && pic.blocks[i].at == header
      requires 0 <= need && need + HDR + MINI < pic.blocks[i].size
      modifies this, mem
      ensures Valid() && pic == Shrink(old(pic), i, need) && maxUsed == old(maxUsed)
      ensures Kept(old(mem[..]), mem[..], Split(old(pic).blocks, i, need))
    {
      hide Represents, Coupled, Good, FreeWords, Tiled, Kept, MergeRight, Distinct, Split, Shrink;
      ghost var was := pic;
      ghost var split := Split(pic.blocks, i, need);
      var q := header + need + HDR;
      Unhide(i);
      Around(pic, mem.Length, i);
      GoodShrink(pic, mem.Length, i, need);
      ShrinkSteps(pic, mem.Length, i, need);
      ShrinkAfter(pic, mem.Length, i, need);
      if !pic.blocks[i + 1].used { FreeIsListed(was, mem.Length, i + 1); }
      ClearOfHeaders(was, i, i + 1, q);
      CarveStep(header, q, need, i);
      AbsorbUncounted(q, i + 1);
      PushStep(q, i + 1);
      Gap(i + 1);
      available := available + ItemSize(q);
      AddressesOfSplit(was, i, need);
      HeadersMissPayloads(split, mem.Length, old(hdr).Keys + {q}, q, i + 1, old(mem[..]), mem[..]);
    }

    lemma AddressesOfSplit(was: Picture, i: nat, need: int)
      requires i < |was.blocks|
      ensures forall p | p in Addresses(was.blocks) :: p in Addresses(Split(was.blocks, i, need))
    {
      var split := Split(was.blocks, i, need);
      forall m | 0 <= m < |was.blocks|
        ensures was.blocks[m].at in Addresses(split)
      {
        assert Addresses(split)[if m <= i then m else m + 1] == was.blocks[m].at;
      }
    }

    // rt_memcpy, word by word
    method CopyWords(dst: int, src: int, n: int)
      requires Coupled() && 0 <= n && 0 <= src && src + n <= mem.Length && 0 <= dst && dst + n <= mem.Length
      requires dst + n <= src || src + n <= dst
      requires forall a | dst <= a < dst + n :: !InHeaders(hdr.Keys, a)
      modifies mem
      ensures Coupled() && mem[dst..dst + n] == old(mem[src..src + n])
      ensures forall a | 0 <= a < mem.Length && !(dst <= a < dst + n) :: mem[a] == old(mem[a])
    {
      var k := 0;
      while k < n
        invariant 0 <= k <= n && Coupled()
        invariant mem[dst..dst + k] == old(mem[src..src + k])
        invariant forall a | 0 <= a < mem.Length && !(dst <= a < dst + k) :: mem[a] == old(mem[a])
      {
        assert !InHeaders(hdr.Keys, dst + k);
        mem[dst + k] := mem[src + k];
        k := k + 1;
      }
    }

    lemma PayloadClear(i: nat)
      requires Valid() && i < |pic.blocks|
      ensures forall a | pic.blocks[i].at + HDR <= a < pic.blocks[i].at + HDR + pic.blocks[i].size ::
        0 <= a < mem.Length && !InHeaders(hdr.Keys, a)
    {
      forall a | pic.blocks[i].at + HDR <= a < pic.blocks[i].at + HDR + pic.blocks[i].size
        ensures 0 <= a < mem.Length && !InHeaders(hdr.Keys, a)
      {
        PayloadsDisjoint(pic.blocks, mem.Length, i, i, a);
        forall p | p in hdr.Keys
          ensures !(p <= a < p + HDR)
        {
          if p != LIST {
            var m :| 0 <= m < |pic.blocks| && Addresses(pic.blocks)[m] == p;
            PayloadsDisjoint(pic.blocks, mem.Length, i, m, a);
          }
        }
      }
    }

    // The contents go to another block, and the first is freed; `w2` is what memory holds between.
    method Transfer(dst: int, src: int, n: int, ghost f: nat, ghost i: nat) returns (ghost w2: seq<int>)
      requires Valid() && f < |pic.blocks| && i + 1 < |pic.blocks| && pic.blocks[i].used
      requires pic.blocks[i].at + HDR == src && pic.blocks[f].at + HDR == dst
      requires 0 <= n <= pic.blocks[f].size && n <= pic.blocks[i].size
      requires 0 <= src && src + n <= mem.Length && 0 <= dst && dst + n <= mem.Length && (dst + n <= src || src + n <= dst)
      modifies this, mem
      ensures Valid() && pic == MemHeapPicture.Free(old(pic), i) && maxUsed == old(maxUsed)
      ensures |w2| == mem.Length && w2[dst..dst + n] == old(mem[src..src + n])
      ensures forall a | 0 <= a < mem.Length && !(dst <= a < dst + n) :: w2[a] == old(mem[a])
      ensures Kept(w2, mem[..], old(pic).blocks)
    {
      hide Represents, Coupled, Good, Tiled, Kept, FreeWords, InHeaders, MemHeapPicture.Free;
      PayloadClear(f);
      CopyWords(dst, src, n);
      w2 := mem[..];
      FreeBlock(src - HDR, i);
    }

    // Re-allocate elsewhere: allocate, copy, free.
    method Move(ptr: int, oldSize: int, n: nat, ghost i: nat) returns (r: int)
      requires Valid() && n <= MAX_REQUEST
      requires i + 1 < |pic.blocks| && pic.blocks[i] == Block(ptr - HDR, oldSize, true) && oldSize < RequestWords(n)
      modifies this, mem
      ensures Valid()
      ensures match MemHeapPicture.Alloc(old(pic), RequestWords(RequestBytes(n)))
              case None => r == NIL && pic == old(pic) && maxUsed == old(maxUsed) && mem[..] == old(mem[..])
              case Some((after, p)) =>
                && r == p + HDR && Find(after.blocks, ptr - HDR) + 1 < |after.blocks|
                && pic == MemHeapPicture.Free(after, Find(after.blocks, ptr - HDR))
                && maxUsed == Max(old(maxUsed), mem.Length - START - FreeWords(after.blocks))
      ensures r != NIL ==>
        && 0 <= ptr && 0 <= oldSize && ptr + oldSize <= mem.Length && 0 <= r && r + oldSize <= mem.Length
        && mem[r..r + oldSize] == old(mem[ptr..ptr + oldSize])
      ensures Kept(old(mem[..]), mem[..], old(pic).blocks)
    {
      hide Represents, Coupled, Good, Tiled, Kept, FreeWords, RequestWords, RequestBytes, OwnedElsewhere, MemHeapPicture.Free;
      hide MemHeapPicture.Alloc, AllocAt, FirstFit, Fits;
      ghost var was, w0 := pic, mem[..];
      RoundedTwice(n);
      Around(pic, mem.Length, i);
      r := Alloc(RequestBytes(n));
      if r != NIL {
        ghost var need := RequestWords(RequestBytes(n));
        ghost var j := FirstFit(was, need, 0);
        AllocIs(was, need);
        ghost var i' := Landed(was, mem.Length, j, need, i);
        ghost var f := Find(pic.blocks, r - HDR);
        ghost var after, w1 := pic, mem[..];
        ghost var w2 := Transfer(r, ptr, oldSize, f, i');
        MovedPayload(was, after, mem.Length, w0, w1, w2, mem[..], r, f, ptr, i, oldSize);
      }
    }

    method Realloc(ptr: int, n: nat) returns (r: int)
      requires Valid() && n <= MAX_REQUEST && (ptr == NIL || Live(ptr))
      modifies this, mem
      ensures Valid()
      // realloc(p, 0) is free, realloc(NULL, n) is an alloc of the rounded size
      ensures n == 0 ==>
        && r == NIL && maxUsed == old(maxUsed)
        && pic == if ptr == NIL then old(pic) else MemHeapPicture.Free(old(pic), old(At(ptr)))
      ensures n > 0 && ptr == NIL ==>
        match MemHeapPicture.Alloc(old(pic), RequestWords(RequestBytes(n)))
        case None => r == NIL && pic == old(pic) && maxUsed == old(maxUsed)
        case Some((after, p)) =>
          r == p + HDR && pic == after && maxUsed == Max(old(maxUsed), mem.Length - START - FreeWords(after.blocks))
      ensures n > 0 && ptr != NIL ==>
        && (pic, r) == MemHeapPicture.Realloc(old(pic), old(At(ptr)), n)
        && maxUsed == Max(old(maxUsed), mem.Length - START - FreeWords(Busiest(old(pic), old(At(ptr)), n).blocks))
      // what the block held survives, up to the smaller of the two sizes
      ensures n > 0 && ptr != NIL && r != NIL ==>
        && 0 <= ptr && 0 <= r
        && var size := Smaller(old(pic.blocks[At(ptr)].size), RequestWords(n));
           && 0 <= size && ptr + size <= mem.Length && r + size <= mem.Length
           && mem[r..r + size] == old(mem[ptr..ptr + size])
      // nobody else's words change
      ensures Kept(old(mem[..]), mem[..], if ptr == NIL then old(pic).blocks else Others(old(pic).blocks, old(At(ptr))))
    {
      hide Kept, Good, Represents, Coupled, Tiled, FreeWords, RequestWords, RequestBytes, MemHeapPicture.Free, Grow, Shrink;
      if n == 0 {
        Free(ptr);
        if ptr != NIL { KeptOthers(old(mem[..]), mem[..], old(pic).blocks, old(At(ptr))); }
        return NIL;
      }
      RoundedTwice(n);
      if ptr == NIL {
        r := Alloc(RequestBytes(n));
        return;
      }
      r := Resize(ptr, n, At(ptr));
    }

    method Resize(ptr: int, n: nat, ghost i: nat) returns (r: int)
      requires Valid() && n <= MAX_REQUEST && n > 0
      requires i + 1 < |pic.blocks| && pic.blocks[i].used && pic.blocks[i].at + HDR == ptr
      modifies this, mem
      ensures Valid() && (pic, r) == MemHeapPicture.Realloc(old(pic), i, n)
      ensures maxUsed == Max(old(maxUsed), mem.Length - START - FreeWords(Busiest(old(pic), i, n).blocks))
      ensures r != NIL ==>
        && 0 <= ptr && 0 <= r
        && var size := Smaller(old(pic).blocks[i].size, RequestWords(n));
           && 0 <= size && ptr + size <= mem.Length && r + size <= mem.Length
           && mem[r..r + size] == old(mem[ptr..ptr + size])
      ensures Kept(old(mem[..]), mem[..], Others(old(pic).blocks, i))
    {
      hide Kept, Good, Represents, Coupled, Tiled, FreeWords, RequestWords, RequestBytes, MemHeapPicture.Free, Grow, Shrink, Split;
      ghost var was := pic;
      var need := RequestWords(n);
      var header := ptr - HDR;
      Around(pic, mem.Length, i);
      Gap(i);
      PayloadInside(i);
      var oldSize := ItemSize(header);
      if need > oldSize {
        r := Enlarge(ptr, oldSize, n, i);
        return;
      }
      if need + HDR + MINI < oldSize {
        ShrinkInPlace(header, need, i);
        KeptSplit(old(mem[..]), mem[..], was.blocks, i, need);
      } else {
        KeptSame(old(mem[..]), Others(was.blocks, i));
      }
      return ptr;
    }

    method GrowKeeping(header: int, next: int, need: int, oldSize: int, ghost i: nat)
      requires Valid() && i + 1 < |pic.blocks| && pic.blocks[i] == Block(header, oldSize, true)
      requires CanGrow(pic, i, need) && need > oldSize && next == pic.blocks[i + 1].at
      modifies this, mem
      ensures Valid() && pic == Grow(old(pic), i, need)
      ensures maxUsed == Max(old(maxUsed), mem.Length - START - available)
      ensures Kept(old(mem[..]), mem[..], Others(old(pic).blocks, i))
      ensures 0 <= header + HDR && 0 <= oldSize && header + HDR + oldSize <= mem.Length
      ensures mem[header + HDR..header + HDR + oldSize] == old(mem[header + HDR..header + HDR + oldSize])
    {
      hide Kept, Good, Represents, Coupled, FreeWords, Grow, CanGrow;
      ghost var was := pic;
      PayloadInside(i);
      GrowInPlace(header, next, need, i);
      KeptOthers(old(mem[..]), mem[..], was.blocks, i);
      KeptPayload(old(mem[..]), mem[..], was.blocks, i, oldSize);
    }

    method Enlarge(ptr: int, oldSize: int, n: nat, ghost i: nat) returns (r: int)
      requires Valid() && n <= MAX_REQUEST && RequestWords(n) > oldSize
      requires i + 1 < |pic.blocks| && pic.blocks[i] == Block(ptr - HDR, oldSize, true)
      modifies this, mem
      ensures Valid() && (pic, r) == MemHeapPicture.Realloc(old(pic), i, n)
      ensures maxUsed == Max(old(maxUsed), mem.Length - START - FreeWords(Busiest(old(pic), i, n).blocks))
      ensures r != NIL ==>
        && 0 <= ptr && 0 <= oldSize && ptr + oldSize <= mem.Length && 0 <= r && r + oldSize <= mem.Length
        && mem[r..r + oldSize] == old(mem[ptr..ptr + oldSize])
      ensures Kept(old(mem[..]), mem[..], Others(old(pic).blocks, i))
    {
      hide Kept, Good, Represents, Coupled, Tiled, FreeWords, RequestWords, RequestBytes, MemHeapPicture.Free, Grow, Shrink, Split;
      ghost var was := pic;
      var need := RequestWords(n);
      var header := ptr - HDR;
      var next, grows := HasRoom(header, oldSize, need, i);
      if grows {
        GrowKeeping(header, next, need, oldSize, i);
        return ptr;
      }
      r := Move(ptr, oldSize, n, i);
      KeptOthers(old(mem[..]), mem[..], was.blocks, i);
    }

    // Looks at the next header: is it free, and large enough together with this block?
    method HasRoom(header: int, oldSize: int, need: int, ghost i: nat) returns (next: int, grows: bool)
      requires Valid() && i + 1 < |pic.blocks| && pic.blocks[i] == Block(header, oldSize, true) && need > oldSize
      ensures next == pic.blocks[i + 1].at && grows == CanGrow(pic, i, need)
      ensures 0 < header && 0 <= oldSize && header + HDR + oldSize <= mem.Length
    {
      hide Good, Represents, Coupled, Tiled, FreeWords;
      Around(pic, mem.Length, i);
      Reads(i);
      Reads(i + 1);
      PayloadInside(i);
      next, grows := mem[header + NEXT], false;
      assert next > header;
      if mem[next + TAG] % 2 == 0 {
        Gap(i + 1);
        var nextSize := ItemSize(next);
        grows := nextSize + oldSize > need + MINI;
      }
    }

    lemma PayloadInside(i: nat)
      requires Valid() && i + 1 < |pic.blocks|
      ensures 0 < pic.blocks[i].at && pic.blocks[i].size >= 0
      ensures pic.blocks[i].at + HDR + pic.blocks[i].size <= mem.Length
    {
      TiledOrder(pic.blocks, mem.Length, i, |pic.blocks| - 1);
      Gap(i);
    }

    // rt_memheap_init over the pool's words
    constructor (memory: array<int>)
      requires memory.Length >= START + 2 * HDR
      modifies memory
      ensures Valid() && mem == memory && pic == Fresh(memory.Length)
      ensures maxUsed == memory.Length - START - available
    {
      hide Coupled, Represents, Good, InHeaders;
      mem := memory;
      available := memory.Length - START - 2 * HDR;
      maxUsed := 2 * HDR;
      hdr := map[];
      pic := Fresh(memory.Length);
      new;
      var tail := START + available + HDR;
      WriteHeader(LIST, MAGIC, NIL, NIL, LIST, LIST);
      WriteHeader(START, MAGIC, tail, tail, START, START);
      WriteHeader(tail, MAGIC + 1, START, START, NIL, NIL);
      Splice(LIST, START, NEXT_FREE);
      FreshGood(memory.Length);
      InitialHeaders(hdr, memory.Length);
    }

    method WriteHeader(p: int, tag: int, next: int, prev: int, nextFree: int, prevFree: int)
      requires Coupled() && 0 <= p && p + HDR <= mem.Length
      requires forall x | x in hdr :: x + HDR <= p || p + HDR <= x
      modifies this`hdr, mem
      ensures Coupled() && hdr == old(hdr)[p := [tag, HEAP, next, prev, nextFree, prevFree]]
    {
      mem[p + TAG], mem[p + POOL] := tag, HEAP;
      mem[p + NEXT], mem[p + PREV] := next, prev;
      mem[p + NEXT_FREE], mem[p + PREV_FREE] := nextFree, prevFree;
      hdr := hdr[p := [tag, HEAP, next, prev, nextFree, prevFree]];
    }
  }

  lemma {:induction false} InitialHeaders(hdr: Headers, end: int)
    requires end >= START + 2 * HDR
    requires hdr.Keys == {LIST, START, end - HDR}
    requires hdr[LIST][NEXT_FREE] == START && hdr[LIST][PREV_FREE] == START
    requires hdr[START] == [MAGIC, HEAP, end - HDR, end - HDR, LIST, LIST]
    requires hdr[end - HDR] == [MAGIC + 1, HEAP, START, START, NIL, NIL]
    ensures Represents(hdr, Fresh(end))
  {
    var pic := Fresh(end);
    assert Addresses(pic.blocks) == [START, end - HDR];
    assert [LIST] + pic.free == [LIST, START];
  }
}
