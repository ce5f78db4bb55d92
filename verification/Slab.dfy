/**
  The slab allocator in place (slab.c), on top of the page allocator: zone
  headers, the lists they are on, and the page descriptors.  rt_malloc and
  rt_free are proved to be those of SlabPicture.
*/
module SlabHeap {
  import opened PageRuns
  import opened PageAllocator
  import opened SlabPicture

  const NULL := -1

  class SlabAllocator {
    const pageHeap: PageHeap
    const zpages: nat                // zone_page_cnt
    const memusage: array<Usage>
    var zones: map<int, Zone>        // the header of a zone, by its first page
    var zoneArray: seq<seq<int>>     // zone_array: zones with room, by chunk size
    var zoneFree: seq<int>
    var zoneFreeCnt: int
    var usedMem: int                 // used_mem and max_mem
    var maxMem: int
    ghost var live: map<int, set<int>>
    ghost var owned: map<int, int>
    ghost var all: set<int>          // the pages rt_malloc hands out

    ghost function Descriptors(): map<int, Usage>
      reads memusage
    {
      map p | 0 <= p < memusage.Length :: memusage[p]
    }

    ghost function Abstract(): Slab
      reads this, memusage, pageHeap
    {
      Slab(zpages, pageHeap.runs, Descriptors(), zones, zoneArray, zoneFree, zoneFreeCnt, live, owned)
    }

    ghost predicate Valid()
      reads this, memusage, pageHeap, pageHeap.next, pageHeap.page
    {
      && pageHeap.Valid() && pageHeap.next.Length == memusage.Length
      && all <= Span(0, memusage.Length)
      && SlabPicture.Good(Abstract(), all)
      && usedMem == UsedBytes(Abstract()) <= maxMem
    }

    /** What an allocation does to the two counts. */
    twostate predicate Counted(p: int, n: int)
      reads this`usedMem, this`maxMem
    {
      if p == NULL then usedMem == old(usedMem) && maxMem == old(maxMem)
      else usedMem == old(usedMem) + n && maxMem == if usedMem > old(maxMem) then usedMem else old(maxMem)
    }

    /** The end of each branch of rt_malloc. */
    method Count(p: int, n: nat)
      modifies this`usedMem, this`maxMem
      ensures Counted(p, n)
    {
      if p != NULL {
        usedMem := usedMem + n;
        if usedMem > maxMem {
          maxMem := usedMem;
        }
      }
    }

    /** rt_system_heap_init over `npages` pages, the first of which hold the
        descriptors. */
    constructor (npages: nat)
      requires npages > 0
      ensures Valid() && live == map[] && owned == map[] && usedMem == 0 && maxMem == 0
      ensures var k := Up(npages * 4, PAGE) / PAGE; all == Span(0, npages) - Span(0, k)
      ensures zones == map[] && zoneFree == [] && forall p :: 0 <= p < memusage.Length ==> memusage[p] == Unused
      ensures zpages > 8 ==> zpages * PAGE < npages * PAGE / 1024
      ensures zpages < 32 ==> zpages * PAGE * 2 >= npages * PAGE / 1024
      ensures fresh(pageHeap) && fresh(memusage) && fresh(pageHeap.next) && fresh(pageHeap.page)
    {
      var heap := new PageHeap(npages);
      var k := Up(npages * 4, PAGE) / PAGE;
      UpIs(npages * 4, PAGE);
      var at := heap.AllocPages(k);
      var limsize := npages * PAGE;
      var zoneSize := 32 * 1024;
      while zoneSize < 128 * 1024 && zoneSize * 2 < limsize / 1024
        invariant zoneSize == 32 * 1024 || zoneSize == 64 * 1024 || zoneSize == 128 * 1024
        invariant zoneSize > 32 * 1024 ==> zoneSize < limsize / 1024
        decreases 128 * 1024 - zoneSize
      {
        zoneSize := zoneSize * 2;
      }
      pageHeap := heap;
      zpages := zoneSize / PAGE;
      memusage := new Usage[npages](_ => Unused);
      zones, zoneArray, zoneFree, zoneFreeCnt := map[], seq(NZONES, _ => []), [], 0;
      usedMem, maxMem := 0, 0;
      live, owned, all := map[], map[], Span(0, npages) - Span(0, k);
      new;
      assert SlabPicture.Good(Abstract(), all) by {
        assert Pages([Run(0, npages)]) == Span(0, npages);
        AllocTakes([Run(0, npages)], k);
      }
    }

    /** The descriptors of a new zone's pages. */
    method MarkSmall(a: int)
      requires 0 <= a && a + zpages <= memusage.Length
      modifies memusage
      ensures Descriptors() == SetSmall(old(Descriptors()), a, zpages)
    {
      var off := 0;
      while off < zpages
        invariant off <= zpages
        invariant forall p :: 0 <= p < memusage.Length ==> memusage[p] == if a <= p < a + off then Small(p - a) else old(memusage[p])
      {
        memusage[a + off] := Small(off);
        off := off + 1;
      }
      SpanIn(a);
    }

    lemma SpanIn(a: int)
      requires 0 <= a && a + zpages <= memusage.Length
      ensures forall p <- Span(a, zpages) :: 0 <= p < memusage.Length
    {
    }

    /** The descriptors of a zone's pages when it is given back. */
    method MarkUnused(a: int)
      requires 0 <= a && a + zpages <= memusage.Length
      modifies memusage
      ensures Descriptors() == SetUnused(old(Descriptors()), a, zpages)
    {
      var i := 0;
      while i < zpages
        invariant i <= zpages
        invariant forall p :: 0 <= p < memusage.Length ==> memusage[p] == if a <= p < a + i then Unused else old(memusage[p])
      {
        memusage[a + i] := Unused;
        i := i + 1;
      }
      SpanIn(a);
    }

    /** What the invariant says about where things are. */
    lemma {:induction false} Places()
      requires Valid()
      ensures |zoneArray| == NZONES && (zpages == 8 || zpages == 16 || zpages == 32)
      ensures forall zi :: 0 <= zi < NZONES ==> zoneArray[zi] != [] ==> zoneArray[zi][0] in zones
      ensures forall a <- owned :: owned[a] > 0 && 0 <= a && a + owned[a] <= memusage.Length && Span(a, owned[a]) !! Pages(pageHeap.runs)
      ensures forall a <- zones :: a in owned && owned[a] == zpages
    {
      MallocGood(Abstract(), 0, all);
      ZpagesAre(Abstract());
      forall a <- owned ensures owned[a] > 0 && 0 <= a && a + owned[a] <= memusage.Length && Span(a, owned[a]) !! Pages(pageHeap.runs) {
        PositiveSpan(Abstract(), a, all);
        assert a + owned[a] - 1 in Span(a, owned[a]);
      }
    }

    /** rt_malloc. */
    method Malloc(size: nat) returns (p: int)
      requires Valid()
      modifies this, memusage, pageHeap, pageHeap.next, pageHeap.page
      ensures Valid() && all == old(all)
      ensures |old(zoneArray)| == NZONES && forall zi :: 0 <= zi < NZONES ==> old(zoneArray)[zi] != [] ==> old(zoneArray)[zi][0] in old(zones)
      ensures (if p == NULL then None else Some(p), Abstract()) == SlabPicture.Malloc(old(Abstract()), size)
      ensures Counted(p, GivenBytes(old(Abstract()), size))
    {
      hide SlabPicture.Good, Fresh, SlabPicture.MallocSmall, SlabPicture.MallocLarge, ZoneIndex, UsedBytes;
      Places();
      MallocGood(Abstract(), size, all);
      MallocUsed(Abstract(), size, all);
      if size == 0 {
        return NULL;
      }
      var zoneLimit := if zpages * PAGE / 4 > 16384 then 16384 else zpages * PAGE / 4;
      if size >= zoneLimit {
        UpIs(size, PAGE);
        p := MallocPages(Up(size, PAGE) / PAGE);
        Count(p, Up(size, PAGE));
        return;
      }
      ZoneIndexIs(size);
      var (zi, chunkSize) := ZoneIndex(size);
      ChunkPositive(zi);
      p := MallocChunk(zi, chunkSize);
      Count(p, chunkSize);
    }

    /** The large requests of rt_malloc. */
    method MallocPages(npages: nat) returns (p: int)
      requires Valid() && npages > 0
      modifies memusage, pageHeap, pageHeap.next, pageHeap.page, this`owned
      ensures pageHeap.Valid()
      ensures (if p == NULL then None else Some(p), Abstract()) == SlabPicture.MallocLarge(old(Abstract()), npages)
    {
      hide SlabPicture.Good, Alloc, UsedBytes;
      ghost var was := Descriptors();
      InHeap(npages);
      var chunk := pageHeap.AllocPages(npages);
      if chunk == NIL {
        assert Descriptors() == was;
        return NULL;
      }
      memusage[chunk] := Large(npages);
      owned := owned[chunk := npages];
      assert Descriptors() == was[chunk := Large(npages)];
      p := chunk * PAGE;
    }

    /** Pages the page allocator would give out are pages of the heap. */
    lemma {:induction false} InHeap(n: nat)
      requires Valid() && n > 0
      ensures var (at, r) := Alloc(pageHeap.runs, n);
              && (at == None ==> r == pageHeap.runs)
              && (at.Some? ==> 0 <= at.value && at.value + n <= memusage.Length)
    {
      AllocTakes(pageHeap.runs, n);
      var at := Alloc(pageHeap.runs, n).0;
      if at.Some? {
        assert at.value in Span(at.value, n) && at.value + n - 1 in Span(at.value, n);
      }
    }

    /** The small requests. */
    method MallocChunk(zi: nat, chunkSize: nat) returns (p: int)
      requires Valid() && zi < NZONES && chunkSize == ChunkSize(zi) > 0
      requires |zoneArray| == NZONES && (zoneArray[zi] != [] ==> zoneArray[zi][0] in zones)
      modifies this, memusage, pageHeap, pageHeap.next, pageHeap.page
      ensures pageHeap.Valid() && all == old(all) && usedMem == old(usedMem) && maxMem == old(maxMem)
      ensures (if p == NULL then None else Some(p), Abstract()) == SlabPicture.MallocSmall(old(Abstract()), zi)
    {
      hide SlabPicture.Good, Alloc, FromZone, FirstOf, SetSmall, UsedBytes;
      Places();
      if zoneArray[zi] != [] {
        p := TakeFrom(zi, chunkSize);
        return;
      }
      var a: int;
      if zoneFree != [] {
        a := zoneFree[0];
        EmptyZone();
        zoneFree := zoneFree[1..];
        zoneFreeCnt := zoneFreeCnt - 1;
      } else {
        ghost var was := Descriptors();
        InHeap(zpages);
        a := pageHeap.AllocPages(zpages);
        if a == NIL {
          assert Descriptors() == was;
          return NULL;
        }
        MarkSmall(a);
        owned := owned[a := zpages];
      }
      p := MakeZone(zi, chunkSize, a);
    }

    /** A new zone at page `a`, its first chunk taken. */
    method MakeZone(zi: nat, chunkSize: nat, a: int) returns (p: int)
      requires zi < |zoneArray| && chunkSize == ChunkSize(zi) > 0 && a >= 0
      modifies this`zones, this`zoneArray, this`live
      ensures (p, Abstract()) == FirstOf(old(Abstract()), zi, a) && p >= 0
    {
      var z := NewZone(zi, chunkSize, zpages * PAGE);
      zones := zones[a := z];
      zoneArray := zoneArray[zi := [a] + zoneArray[zi]];
      live := live[a := {0}];
      p := a * PAGE + z.off;
    }

    lemma EmptyZone()
      requires Valid() && zoneFree != []
      ensures zoneFree[0] in zones && zoneFree[0] >= 0
    {
      assert zoneFree[0] in zoneFree;
      Places();
    }

    /** A chunk of the first zone with room. */
    method TakeFrom(zi: nat, chunkSize: nat) returns (p: int)
      requires Valid() && zi < NZONES && chunkSize == ChunkSize(zi) > 0
      requires |zoneArray| == NZONES && zoneArray[zi] != [] && zoneArray[zi][0] in zones
      modifies this`zones, this`zoneArray, this`live
      ensures (p, Abstract()) == FromZone(old(Abstract()), zi) && p >= 0
    {
      hide SlabPicture.Good, UsedBytes, ChunkSize, PageHeap.Valid;
      Roomy(zi);
      var a := zoneArray[zi][0];
      var z := zones[a];
      var i: int;
      if z.nfree - 1 == 0 {
        zoneArray := zoneArray[zi := zoneArray[zi][1..]];
      }
      if z.uindex + 1 != z.nmax {
        i := z.uindex + 1;
        zones := zones[a := z.(nfree := z.nfree - 1, uindex := i)];
      } else {
        i := z.free[0];
        zones := zones[a := z.(nfree := z.nfree - 1, free := z.free[1..])];
      }
      live := live[a := (if a in live then live[a] else {}) + {i}];
      p := a * PAGE + z.off + i * chunkSize;
    }

    /** A zone on a list has a chunk to give. */
    lemma {:induction false} Roomy(zi: nat)
      requires Valid() && zi < NZONES && |zoneArray| == NZONES && zoneArray[zi] != []
      ensures var a := zoneArray[zi][0];
              && a in zones && a >= 0 && zones[a].size == ChunkSize(zi)
              && (zones[a].uindex + 1 == zones[a].nmax ==> zones[a].free != [])
              && zones[a].uindex >= 0 && (zones[a].free != [] ==> zones[a].free[0] >= 0)
    {
      HeadListed(Abstract(), zi);
      Places();
      var a := zoneArray[zi][0];
      if zones[a].free != [] { assert zones[a].free[0] in zones[a].free; }
    }

    /** rt_free of the address of a live chunk, or of a large block. */
    method FreeMem(ptr: int, ghost a: int, ghost i: int)
      requires Valid()
      requires || ptr == NULL
               || (a in live && i in live[a] && ptr == ChunkAt(Abstract(), a, i))
               || (a in owned && a !in zones && ptr == a * PAGE)
      modifies this, memusage, pageHeap, pageHeap.next, pageHeap.page
      ensures Valid() && all == old(all)
      ensures Abstract() == if ptr == NULL then old(Abstract()) else FreePtr(old(Abstract()), ptr)
      ensures maxMem == old(maxMem)
    {
      hide SlabPicture.Good, FreeChunk, FreeLarge, FreePtr, UsedBytes;
      if ptr == NULL {
        return;
      }
      if a in live && i in live[a] && ptr == ChunkAt(Abstract(), a, i) {
        SlabPicture.FreeGood(Abstract(), a, i, all);
        SmallHere(a, i);
        FreeChunkUsed(Abstract(), a, i, all);
      } else {
        FreeLargeGood(Abstract(), a, all);
        LargeHere(a);
        FreeLargeUsed(Abstract(), a, all);
      }
      var page := ptr / PAGE;
      if memusage[page].Large? {
        FreeBlock(page, memusage[page].pages);
        return;
      }
      var first := page - memusage[page].offset;
      FreeFromZone(first, (ptr - first * PAGE - zones[first].off) / zones[first].size);
    }

    lemma LargeHere(a: int)
      requires Valid() && a in owned && a !in zones
      ensures 0 <= a < memusage.Length && memusage[a] == Large(owned[a]) && owned[a] > 0 && a * PAGE / PAGE == a
    {
      Places();
      assert a in Descriptors();
    }

    lemma SmallHere(a: int, i: int)
      requires Valid() && a in live && i in live[a]
      ensures var p := ChunkAt(Abstract(), a, i) / PAGE;
              0 <= p < memusage.Length && memusage[p] == Small(p - a) && a in zones && zones[a].size > 0
      ensures var p := ChunkAt(Abstract(), a, i); (p - a * PAGE - zones[a].off) / zones[a].size == i
    {
      LookupChunk(Abstract(), a, i, all);
    }

    /** rt_free of a large block. */
    method FreeBlock(page: int, n: nat)
      requires Valid() && page in owned && page !in zones && n == owned[page]
      modifies this`owned, this`usedMem, memusage, pageHeap, pageHeap.next, pageHeap.page
      ensures pageHeap.Valid() && usedMem == old(usedMem) - n * PAGE
      ensures Abstract() == FreeLarge(old(Abstract()), page, n)
    {
      hide SlabPicture.Good, UsedBytes;
      Places();
      LargeHere(page);
      ghost var was := Descriptors();
      memusage[page] := Large(0);
      usedMem := usedMem - n * PAGE;
      owned := owned - {page};
      assert Descriptors() == was[page := Large(0)];
      pageHeap.FreePages(page, n);
    }

    /** rt_free of a chunk. */
    method FreeFromZone(a: int, i: int)
      requires Valid() && a in live && i in live[a] && a in zones && zones[a].index < |zoneArray|
      modifies this, memusage, pageHeap, pageHeap.next, pageHeap.page
      ensures pageHeap.Valid() && all == old(all) && maxMem == old(maxMem)
      ensures usedMem == old(usedMem) - old(zones)[a].size
      ensures Abstract() == FreeChunk(old(Abstract()), a, i)
    {
      hide SlabPicture.Good, Remove, Free, SetUnused, UsedBytes;
      Places();
      var z := zones[a];
      var k := z.index;
      zones := zones[a := z.(nfree := z.nfree + 1, free := [i] + z.free)];
      live := live[a := live[a] - {i}];
      usedMem := usedMem - z.size;
      if z.nfree == 0 {
        zoneArray := zoneArray[k := [a] + zoneArray[k]];
      }
      assert zoneArray == old(zoneArray)[k := zoneArray[k]];
      if z.nfree + 1 == z.nmax && |zoneArray[k]| > 1 {
        RetireZone(a, k);
      }
    }

    /** An empty zone leaves its list, and perhaps the heap. */
    method RetireZone(a: int, k: nat)
      requires pageHeap.Valid() && pageHeap.next.Length == memusage.Length && zpages > 0
      requires k < |zoneArray| && 0 <= a && a + zpages <= memusage.Length && Span(a, zpages) !! Pages(pageHeap.runs)
      modifies this, memusage, pageHeap, pageHeap.next, pageHeap.page
      ensures pageHeap.Valid() && all == old(all) && usedMem == old(usedMem) && maxMem == old(maxMem)
      ensures Abstract() == Retire(old(Abstract()), a, k)
    {
      hide Remove, Free, SetUnused, Span, Pages, PageHeap.Valid;
      ShelveZone(a, k);
      if zoneFreeCnt > KEEP {
        var y := zoneFree[0];
        zoneFree := zoneFree[1..];
        zoneFreeCnt := zoneFreeCnt - 1;
        ReleaseZone(y);
      }
    }

    /** From the list of its size to the front of the empty zones. */
    method ShelveZone(a: int, k: nat)
      requires k < |zoneArray|
      modifies this`zoneArray, this`live, this`zoneFree, this`zoneFreeCnt
      ensures zoneArray == old(zoneArray)[k := Remove(old(zoneArray)[k], a)] && live == old(live) - {a}
      ensures zoneFree == [a] + old(zoneFree) && zoneFree[1..] == old(zoneFree) && zoneFreeCnt == old(zoneFreeCnt) + 1
    {
      var rest := RemoveFrom(zoneArray[k], a);
      zoneArray := zoneArray[k := rest];
      live := live - {a};
      zoneFree := [a] + zoneFree;
      zoneFreeCnt := zoneFreeCnt + 1;
    }

    /** A zone's pages go back to the page allocator. */
    method ReleaseZone(y: int)
      requires pageHeap.Valid() && pageHeap.next.Length == memusage.Length && zpages > 0
      requires 0 <= y && y + zpages <= memusage.Length && Span(y, zpages) !! Pages(pageHeap.runs)
      modifies this`zones, this`owned, memusage, pageHeap, pageHeap.next, pageHeap.page
      ensures pageHeap.Valid()
      ensures Descriptors() == SetUnused(old(Descriptors()), y, zpages)
      ensures zones == old(zones) - {y} && owned == old(owned) - {y}
      ensures pageHeap.runs == Free(old(pageHeap.runs), y, zpages)
    {
      hide Free, SetUnused, Span, Pages;
      MarkUnused(y);
      ghost var marked := Descriptors();
      zones := zones - {y};
      owned := owned - {y};
      pageHeap.FreePages(y, zpages);
      assert Descriptors() == marked;
    }

    /** The loop that takes a zone out of its list. */
    method RemoveFrom(q: seq<int>, a: int) returns (r: seq<int>)
      ensures r == Remove(q, a)
    {
      var n := 0;
      assert q[0..] == q && q[..0] == [];
      while n < |q| && q[n] != a
        invariant n <= |q|
        invariant Remove(q, a) == q[..n] + Remove(q[n..], a)
      {
        assert q[n..][1..] == q[n + 1..];
        assert q[..n + 1] == q[..n] + [q[n]];
        n := n + 1;
      }
      if n == |q| {
        assert q[n..] == [] && q[..n] + [] == q;
        return q;
      }
      assert q[n..][1..] == q[n + 1..];
      return q[..n] + q[n + 1..];
    }
  }
}
