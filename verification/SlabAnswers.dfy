/**
  Where rt_malloc of slab.c takes a chunk from, and what becomes of a zone whose
  last chunk is given back: said of the zones, kept empty zones and pages there
  are before and after, not of how SlabPicture moves them.
*/
module SlabAnswers {
  import PageRuns
  import opened SlabPicture

  // ---------- one zone ----------

  /** A zone gives out the chunks never used first, in their order, and then
      the one given back last: one given back is the next one given out. */
  lemma {:induction false} LastBackFirst(z: Zone, live: set<int>, i: int)
    requires ZoneOk(z, live) && i in live
    ensures z.uindex + 1 == z.nmax ==> TakeChunk(GiveChunk(z, i)) == (z, i)
    ensures z.uindex + 1 < z.nmax ==> TakeChunk(z).1 == z.uindex + 1 && forall j <- live :: j < z.uindex + 1
  {
    if z.uindex + 1 == z.nmax { assert ([i] + z.free)[1..] == z.free; }
  }

  // ---------- rt_malloc ----------

  /** Some zone in use for the `zi`-th size has a chunk left. */
  ghost predicate HasRoom(s: Slab, zi: nat) {
    exists a <- s.live :: a in s.zones && s.zones[a].index == zi && |s.live[a]| < s.zones[a].nmax
  }

  lemma {:induction false} RoomListed(s: Slab, zi: nat, all: set<int>)
    requires Good(s, all) && zi < NZONES
    ensures |s.lists| == NZONES && (s.lists[zi] != [] <==> HasRoom(s, zi))
    ensures s.lists[zi] != [] ==> s.lists[zi][0] in s.live && s.lists[zi][0] in s.zones && s.zones[s.lists[zi][0]].index == zi
  {
    hide ZoneOk, Shaped, NoTwice, Paged;
    ListEmptyIff(s, zi);
    forall a <- s.live ensures |s.live[a]| <= s.zones[a].nmax {
      FreeCount(s.zones[a], s.live[a]);
      NeverNegative(s.zones[a], s.live[a]);
    }
    if s.lists[zi] != [] { HeadListed(s, zi); }
  }

  /** A small request takes its chunk from a zone in use if one of its size has
      room, else from the empty zone kept last, else from the lowest pages that
      make a zone; the others stay as they are. */
  lemma {:induction false} SmallFrom(s: Slab, zi: nat, all: set<int>)
    requires Good(s, all) && zi < NZONES && 4 * ChunkSize(zi) <= ZoneSize(s)
    ensures |s.lists| == NZONES && (s.lists[zi] != [] ==> s.lists[zi][0] in s.zones) && ChunkSize(zi) > 0
    ensures var (p, r) := MallocSmall(s, zi);
            && (HasRoom(s, zi) ==>
                  && p.Some? && r.pages == s.pages && r.owned == s.owned && r.usage == s.usage && r.zoneFree == s.zoneFree
                  && r.live.Keys == s.live.Keys && forall a <- s.live :: a in s.zones && s.zones[a].index != zi ==> r.live[a] == s.live[a])
            && (!HasRoom(s, zi) && s.zoneFree != [] ==>
                  && p.Some? && r.pages == s.pages && r.owned == s.owned && r.usage == s.usage && [s.zoneFree[0]] + r.zoneFree == s.zoneFree
                  && r.live == s.live[s.zoneFree[0] := {0}])
            && (!HasRoom(s, zi) && s.zoneFree == [] && p.Some? ==>
                  exists at ::
                    && PageRuns.Fits(s.pages, at, s.zpages) && (forall b :: PageRuns.Fits(s.pages, b, s.zpages) ==> at <= b)
                    && r.owned == s.owned[at := s.zpages] && r.zoneFree == s.zoneFree && r.live == s.live[at := {0}]
                    && PageRuns.Pages(r.pages) == PageRuns.Pages(s.pages) - PageRuns.Span(at, s.zpages))
  {
    hide Zoned, Paged, TakeChunk, NewZone, SetSmall, ChunkSize, PageRuns.Alloc, PageRuns.Fits, PageRuns.Pages, HasRoom;
    RoomListed(s, zi, all);
    ChunkPositive(zi);
    if s.lists[zi] == [] && s.zoneFree == [] {
      PositivePages(s, all);
      CanonicalPages(s, all);
      PageRuns.AllocTakes(s.pages, s.zpages);
      PageRuns.AllocLowest(s.pages, s.zpages);
    }
  }

  lemma PositivePages(s: Slab, all: set<int>)
    requires Good(s, all)
    ensures s.zpages > 0
  {
  }

  // ---------- rt_free ----------

  lemma {:induction false} MoreThanOne(q: seq<int>, a: int)
    requires NoTwice(q) && a in q
    ensures |q| > 1 <==> exists b <- q :: b != a
  {
    if |q| > 1 {
      assert q[0] !in q[1..] && q[1] == q[1..][0] && q[1] in q[1..];
      var b := if q[0] == a then q[1] else q[0];
      assert b in q && b != a;
    } else {
      assert q == [a];
    }
  }

  /** Another zone of the size of zone `a` has a chunk left. */
  ghost predicate Spare(s: Slab, a: int)
    requires a in s.zones
  {
    exists b <- s.live :: b != a && b in s.zones && s.zones[b].index == s.zones[a].index && |s.live[b]| < s.zones[b].nmax
  }

  lemma {:induction false} SpareListed(s: Slab, a: int, all: set<int>)
    requires Good(s, all) && a in s.live
    ensures a in s.zones && s.zones[a].index < |s.lists|
    ensures var q := s.lists[s.zones[a].index];
            && (Spare(s, a) <==> exists b <- q :: b != a)
            && (a in q <==> |s.live[a]| < s.zones[a].nmax) && NoTwice(q)
  {
    hide ZoneOk, Shaped, NoTwice, Paged;
    forall b <- s.live ensures b in s.zones && s.zones[b].nfree == s.zones[b].nmax - |s.live[b]| {
      FreeCount(s.zones[b], s.live[b]);
    }
    forall b <- s.live ensures s.zones[b].nfree >= 0 {
      NeverNegative(s.zones[b], s.live[b]);
    }
    var k := s.zones[a].index;
    assert |s.lists| == NZONES && k < NZONES && NoTwice(s.lists[k]);
    forall b | b != a ensures b in s.lists[k] <==> b in s.live && s.zones[b].index == k && |s.live[b]| < s.zones[b].nmax {
      assert b in s.live ==> b in s.zones;
    }
    if Spare(s, a) {
      var b :| b in s.live && b != a && b in s.zones && s.zones[b].index == k && |s.live[b]| < s.zones[b].nmax;
      assert b in s.lists[k];
    }
  }

  /** When the chunk was the only live one of its zone and another zone of the
      size has room, the zone leaves use: it is kept as an empty one, or if
      enough of these are kept its pages are free again. Otherwise it stays in
      use, and a zone that was full is the next to be taken from. */
  lemma {:induction false} RetiredIff(s: Slab, a: int, i: int, all: set<int>)
    requires Good(s, all) && a in s.live && i in s.live[a]
    ensures a in s.zones && s.zones[a].index < |s.lists|
    ensures var r := FreeChunk(s, a, i);
            && (a !in r.live <==> s.live[a] == {i} && Spare(s, a))
            && (a in r.live ==> r.pages == s.pages && r.owned == s.owned && r.usage == s.usage && r.zoneFree == s.zoneFree)
            && (a in r.live && |s.live[a]| == s.zones[a].nmax ==>
                  r.lists[s.zones[a].index] == [a] + s.lists[s.zones[a].index])
  {
    hide Zoned, Paged, Retire, Spare, ZoneOk;
    SpareListed(s, a, all);
    ZonesOk(s, a, all);
    FreeCount(s.zones[a], s.live[a]);
    LastChunk(s, a, i);
    var q := s.lists[s.zones[a].index];
    if s.live[a] == {i} {
      assert |s.live[a]| == 1;
      MoreThanOne(q, a);
    }
    RetireDrops(s, a, i);
  }

  lemma ZonesOk(s: Slab, a: int, all: set<int>)
    requires Good(s, all) && a in s.live
    ensures a in s.zones && ZoneOk(s.zones[a], s.live[a]) && s.zones[a].nmax >= 2 && |s.lists| == NZONES
  {
  }

  lemma RetireDrops(s: Slab, a: int, i: int)
    requires a in s.zones && s.zones[a].index < |s.lists| && a in s.live
    ensures var was, k := s.zones[a], s.zones[a].index;
            var list := if was.nfree == 0 then [a] + s.lists[k] else s.lists[k];
            a !in FreeChunk(s, a, i).live <==> was.nfree + 1 == was.nmax && |list| > 1
  {
  }

  lemma {:induction false} RetiredTo(s: Slab, a: int, i: int, all: set<int>)
    requires Good(s, all) && a in s.live && i in s.live[a]
    requires a in s.zones && s.zones[a].index < |s.lists| && a !in FreeChunk(s, a, i).live
    ensures var r := FreeChunk(s, a, i);
            && (|s.zoneFree| < KEEP ==> r.zoneFree == [a] + s.zoneFree && r.pages == s.pages && r.owned == s.owned && r.usage == s.usage)
            && (|s.zoneFree| == KEEP ==>
                  && r.zoneFree == s.zoneFree && a !in r.zones && r.owned == s.owned - {a}
                  && PageRuns.Pages(r.pages) == PageRuns.Pages(s.pages) + PageRuns.Span(a, s.zpages)
                  && (forall p | a <= p < a + s.zpages :: p in r.usage && r.usage[p] == Unused)
                  && (forall p | p in s.usage && !(a <= p < a + s.zpages) :: p in r.usage && r.usage[p] == s.usage[p]))
  {
    hide Paged, Zoned, PageRuns.Free, PageRuns.Pages;
    KeptEmpty(s, all);
    PagedZone(s, a, all);
    ZonePages(s, a, all);
    PositivePages(s, all);
    PageRuns.FreeJoins(s.pages, a, s.zpages);
    UnusedIs(s.usage, a, s.zpages);
    hide SetUnused;
  }

  lemma KeptEmpty(s: Slab, all: set<int>)
    requires Good(s, all)
    ensures s.cnt == |s.zoneFree| <= KEEP && PageRuns.Canonical(s.pages)
  {
  }

  lemma ZonePages(s: Slab, a: int, all: set<int>)
    requires Good(s, all) && a in s.zones
    ensures PageRuns.Span(a, s.zpages) !! PageRuns.Pages(s.pages)
  {
    assert a in s.owned && s.owned[a] == s.zpages;
  }

  lemma UnusedIs(usage: map<int, Usage>, a: int, n: nat)
    ensures var r := SetUnused(usage, a, n);
            && (forall p | a <= p < a + n :: p in r && r[p] == Unused)
            && (forall p | p in usage && !(a <= p < a + n) :: p in r && r[p] == usage[p])
  {
    forall p | a <= p < a + n ensures p in SetUnused(usage, a, n) {
      assert PageRuns.InSpan(a, n, p);
      assert p in PageRuns.Span(a, n);
    }
  }

  // ---------- large blocks ----------

  /** A large request gets the lowest free pages that hold it, and their first
      descriptor counts them; giving them back frees just these and clears the
      count. */
  lemma {:induction false} LargeTakes(s: Slab, npages: int, all: set<int>)
    requires Good(s, all) && npages > 0
    ensures var (p, r) := MallocLarge(s, npages);
            p.Some? ==>
              exists at ::
                && p.value == at * PAGE && PageRuns.Fits(s.pages, at, npages)
                && (forall b :: PageRuns.Fits(s.pages, b, npages) ==> at <= b)
                && PageRuns.Pages(r.pages) == PageRuns.Pages(s.pages) - PageRuns.Span(at, npages)
                && r == s.(pages := r.pages, usage := s.usage[at := Large(npages)], owned := s.owned[at := npages])
  {
    hide PageRuns.Alloc, PageRuns.Fits, PageRuns.Pages, Zoned;
    CanonicalPages(s, all);
    PageRuns.AllocTakes(s.pages, npages);
    PageRuns.AllocLowest(s.pages, npages);
  }

  lemma {:induction false} LargeGivesBack(s: Slab, a: int, all: set<int>)
    requires Good(s, all) && a in s.owned && a !in s.zones
    ensures var r := FreeLarge(s, a, s.owned[a]);
            && PageRuns.Pages(r.pages) == PageRuns.Pages(s.pages) + PageRuns.Span(a, s.owned[a])
            && r == s.(pages := r.pages, usage := s.usage[a := Large(0)], owned := s.owned - {a})
  {
    hide PageRuns.Free, PageRuns.Pages, Zoned;
    PageRuns.FreeJoins(s.pages, a, s.owned[a]);
  }

  // ---------- runs ----------

  /** A run of one call is that call. */
  lemma {:induction false} OneCall(s: Slab, size: nat, all: set<int>)
    requires Good(s, all)
    ensures |s.lists| == NZONES && forall zi :: 0 <= zi < NZONES ==> s.lists[zi] != [] ==> s.lists[zi][0] in s.zones
    ensures RunCalls(s, [DoMalloc(size)]) == Malloc(s, size).1
    ensures forall a, i | a in s.live && i in s.live[a] ::
              a in s.zones && s.zones[a].index < |s.lists| && RunCalls(s, [DoFreeChunk(a, i)]) == FreeChunk(s, a, i)
    ensures forall a | a in s.owned && a !in s.zones :: RunCalls(s, [DoFreeLarge(a)]) == FreeLarge(s, a, s.owned[a])
  {
    hide Good, Malloc, FreePtr, FreeChunk, FreeLarge, ChunkAt;
    MallocGood(s, size, all);
    assert [DoMalloc(size)][1..] == [];
    forall a, i | a in s.live && i in s.live[a]
      ensures a in s.zones && s.zones[a].index < |s.lists| && RunCalls(s, [DoFreeChunk(a, i)]) == FreeChunk(s, a, i)
    {
      FreeGood(s, a, i, all);
      assert [DoFreeChunk(a, i)][1..] == [];
    }
    forall a | a in s.owned && a !in s.zones ensures RunCalls(s, [DoFreeLarge(a)]) == FreeLarge(s, a, s.owned[a]) {
      FreeLargeGood(s, a, all);
      assert [DoFreeLarge(a)][1..] == [];
    }
  }
}
