/**
  The slab allocator of slab.c on values: zones of equal chunks on top of the
  page allocator, a list of zones with room for each chunk size, a short list
  of empty zones, and a descriptor for every page.
*/
module SlabPicture {
  import opened PageRuns
  import opened BinaryDigits
  import opened ReadyBits

  const PAGE := 4096     // RT_MM_PAGE_SIZE
  const NZONES := 72
  const HEADER := 36     // sizeof(slab_zone)
  const KEEP := 2        // ZONE_RELEASE_THRESH

  /** The alignment of a request to a power of two. */
  function Up(n: nat, step: nat): nat
    requires step > 0
  {
    (n + step - 1) / step * step
  }

  // ---------- chunk sizes ----------

  /** zoneindex: the zone of a request, and the chunk size it gets. */
  function ZoneIndex(n: nat): (nat, nat)
    requires n < 16384
  {
    if n < 128 then (var m := Up(n, 8); ((if m >= 8 then m / 8 - 1 else 0), m))
    else if n < 256 then (var m := Up(n, 16); (m / 16 + 7, m))
    else if n < 512 then (var m := Up(n, 32); (m / 32 + 15, m))
    else if n < 1024 then (var m := Up(n, 64); (m / 64 + 23, m))
    else if n < 2048 then (var m := Up(n, 128); (m / 128 + 31, m))
    else if n < 4096 then (var m := Up(n, 256); (m / 256 + 39, m))
    else if n < 8192 then (var m := Up(n, 512); (m / 512 + 47, m))
    else (var m := Up(n, 1024); (m / 1024 + 55, m))
  }

  /** The chunk size of a zone index. */
  function ChunkSize(zi: nat): nat {
    if zi < 16 then (zi + 1) * 8
    else if zi < 24 then (zi - 7) * 16
    else if zi < 32 then (zi - 15) * 32
    else if zi < 40 then (zi - 23) * 64
    else if zi < 48 then (zi - 31) * 128
    else if zi < 56 then (zi - 39) * 256
    else if zi < 64 then (zi - 47) * 512
    else (zi - 55) * 1024
  }

  /** A request gets the chunk size of its zone, which is the least chunk size
      that holds it: one zone never mixes sizes. */
  lemma {:induction false} ZoneIndexIs(n: nat)
    requires 0 < n < 16384
    ensures var (zi, m) := ZoneIndex(n);
            && zi < NZONES && m == ChunkSize(zi) && m >= n
            && (zi > 0 ==> ChunkSize(zi - 1) < n)
  {
    hide Up;
    if n < 128 { UpIs(n, 8); }
    else if n < 256 { UpIs(n, 16); }
    else if n < 512 { UpIs(n, 32); }
    else if n < 1024 { UpIs(n, 64); }
    else { ZoneIndexLarge(n); }
  }

  lemma {:induction false} ZoneIndexLarge(n: nat)
    requires 1024 <= n < 16384
    ensures var (zi, m) := ZoneIndex(n);
            zi < NZONES && m == ChunkSize(zi) && m >= n && zi > 0 && ChunkSize(zi - 1) < n
  {
    hide Up;
    if n < 2048 { UpIs(n, 128); }
    else if n < 4096 { UpIs(n, 256); }
    else if n < 8192 { UpIs(n, 512); }
    else { UpIs(n, 1024); }
  }

  lemma {:induction false} UpIs(n: nat, step: nat)
    requires step > 0
    ensures n <= Up(n, step) < n + step && Up(n, step) % step == 0
  {
    var m := n + step - 1;
    QuotientIs(m, step);
    DivModUnique(m / step * step, step, m / step, 0);
  }

  lemma QuotientIs(m: nat, step: nat)
    requires step > 0
    ensures m - step < m / step * step <= m
  {
  }

  lemma {:induction false} ChunkSizesGrow(i: nat, j: nat)
    requires i < j < NZONES
    ensures 8 <= ChunkSize(i) < ChunkSize(j) <= 16384 && ChunkSize(i) % 8 == 0
  {
    if i + 1 < j { ChunkSizesGrow(i, j - 1); }
  }

  // ---------- one zone ----------

  /** A zone's header; `free` lists the chunks given back, by number. */
  datatype Zone = Zone(index: nat, size: nat, off: nat, nmax: int, nfree: int, uindex: int, free: seq<int>)

  predicate PowerOfTwo(n: nat) {
    n == 1 || (n > 1 && n % 2 == 0 && PowerOfTwo(n / 2))
  }

  /** Where the chunks of a zone start: aligned to the chunk size if that is a
      power of two. */
  function Offset(size: nat): nat
    requires size > 0
  {
    if PowerOfTwo(size) then Up(HEADER, size) else Up(HEADER, 8)
  }

  lemma {:induction false} HasExponent(n: nat)
    requires PowerOfTwo(n)
    ensures exists k: nat :: n == Pow2(k)
  {
    if n == 1 {
      assert n == Pow2(0);
    } else {
      HasExponent(n / 2);
      var k: nat :| n / 2 == Pow2(k);
      assert n == Pow2(k + 1);
    }
  }

  lemma {:induction false} PowersAre(k: nat)
    ensures PowerOfTwo(Pow2(k))
  {
    if k > 0 {
      PowersAre(k - 1);
      assert Pow2(k) == 2 * Pow2(k - 1);
    }
  }

  /** The chunks start at the first place behind the header where every chunk
      of a power of two, and else the first one to 8 bytes, is aligned. */
  lemma {:induction false} ChunksAligned(size: nat, i: nat)
    requires size > 0
    ensures (exists k: nat :: size == Pow2(k)) ==>
              HEADER <= Offset(size) < HEADER + size && (Offset(size) + i * size) % size == 0
    ensures (forall k: nat :: size != Pow2(k)) ==> HEADER <= Offset(size) < HEADER + 8 && Offset(size) % 8 == 0
  {
    hide PowerOfTwo, Up;
    UpIs(HEADER, size);
    UpIs(HEADER, 8);
    if k: nat :| size == Pow2(k) {
      PowersAre(k);
      AlignedOn(Offset(size), i, size);
    } else if PowerOfTwo(size) {
      HasExponent(size);
    }
  }

  lemma {:induction false} AlignedOn(off: nat, i: nat, size: nat)
    requires size > 0 && off % size == 0
    ensures (off + i * size) % size == 0
  {
    var q := off / size;
    assert off == q * size;
    Distribute(q, i, size);
    DivModUnique(off + i * size, size, q + i, 0);
  }

  lemma Distribute(a: nat, b: nat, d: nat)
    ensures (a + b) * d == a * d + b * d
  {
  }

  /** A new zone, its first chunk taken. */
  function NewZone(zi: nat, size: nat, zoneSize: nat): Zone
    requires size > 0
  {
    var nmax := (zoneSize - Offset(size)) / size;
    Zone(zi, size, Offset(size), nmax, nmax - 1, 0, [])
  }

  /** The chunk a zone with room gives out: one never used before as long as
      there is one, then one given back. */
  function TakeChunk(z: Zone): (Zone, int)
  {
    if z.uindex + 1 != z.nmax then (z.(nfree := z.nfree - 1, uindex := z.uindex + 1), z.uindex + 1)
    else if z.free != [] then (z.(nfree := z.nfree - 1, free := z.free[1..]), z.free[0])
    else (z.(nfree := z.nfree - 1), -1)
  }

  function GiveChunk(z: Zone, i: int): Zone {
    z.(nfree := z.nfree + 1, free := [i] + z.free)
  }

  ghost predicate NoTwice(q: seq<int>) {
    q != [] ==> q[0] !in q[1..] && NoTwice(q[1..])
  }

  /** The numbers up to `n`. */
  function UpTo(n: int): set<int> {
    Span(0, n + 1)
  }

  function Elements(q: seq<int>): set<int> {
    set i | i in q
  }

  /** Every chunk is never used, given back, or live, and nfree counts those
      that are not live. */
  ghost predicate ZoneOk(z: Zone, live: set<int>) {
    && 0 <= z.uindex < z.nmax
    && NoTwice(z.free) && (forall i <- z.free :: 0 <= i <= z.uindex)
    && live == UpTo(z.uindex) - Elements(z.free)
    && z.nfree == z.nmax - 1 - z.uindex + |z.free|
  }

  lemma {:induction false} UpToSize(n: int)
    requires n >= -1
    ensures |UpTo(n)| == n + 1
  {
    if n >= 0 {
      UpToSize(n - 1);
      assert UpTo(n) == UpTo(n - 1) + {n};
    } else {
      assert UpTo(n) == {};
    }
  }

  lemma {:induction false} ElementsSize(q: seq<int>)
    requires NoTwice(q)
    ensures |Elements(q)| == |q|
  {
    if q != [] {
      ElementsSize(q[1..]);
      assert q == [q[0]] + q[1..];
      assert Elements(q) == {q[0]} + Elements(q[1..]);
    } else {
      assert Elements(q) == {};
    }
  }

  /** nfree is the number of chunks that are not live. */
  lemma {:induction false} FreeCount(z: Zone, live: set<int>)
    requires ZoneOk(z, live)
    ensures z.nfree == z.nmax - |live|
    ensures z.nfree == z.nmax <==> live == {}
  {
    UpToSize(z.uindex);
    ElementsSize(z.free);
    var f := Elements(z.free);
    assert f <= UpTo(z.uindex);
    assert UpTo(z.uindex) == live + f;
  }

  lemma {:induction false} TakeOk(z: Zone, live: set<int>)
    requires ZoneOk(z, live) && z.nfree > 0
    ensures var (r, i) := TakeChunk(z); i !in live && 0 <= i < z.nmax && ZoneOk(r, live + {i})
  {
    var (r, i) := TakeChunk(z);
    if z.uindex + 1 != z.nmax {
      assert UpTo(z.uindex + 1) == UpTo(z.uindex) + {z.uindex + 1};
    } else {
      assert z.free == [z.free[0]] + z.free[1..];
      assert Elements(z.free) == {z.free[0]} + Elements(z.free[1..]);
      assert z.free[0] in z.free && z.free[0] in UpTo(z.uindex);
      assert forall j <- z.free[1..] :: j in z.free;
      assert live + {i} == UpTo(z.uindex) - Elements(z.free[1..]);
    }
  }

  lemma {:induction false} GiveOk(z: Zone, live: set<int>, i: int)
    requires ZoneOk(z, live) && i in live
    ensures ZoneOk(GiveChunk(z, i), live - {i})
  {
    assert ([i] + z.free)[1..] == z.free;
    assert Elements([i] + z.free) == {i} + Elements(z.free);
  }

  lemma {:induction false} NewOk(zi: nat, zoneSize: nat)
    requires zi < NZONES && zoneSize >= 8 * PAGE && 4 * ChunkSize(zi) <= zoneSize
    ensures ChunkSize(zi) > 0
    ensures var z := NewZone(zi, ChunkSize(zi), zoneSize);
            && ZoneOk(z, {0}) && z.nfree > 0 && z.off >= HEADER && z.off + z.nmax * z.size <= zoneSize
  {
    var size := ChunkSize(zi);
    if zi > 0 { ChunkSizesGrow(0, zi); }
    OffsetIs(size);
    var off := Offset(size);
    var nmax := (zoneSize - off) / size;
    QuotientIs(zoneSize - off, size);
    AtLeastTwo(nmax, size, zoneSize - off);
    assert UpTo(0) == {0};
  }

  lemma AtLeastTwo(q: int, size: nat, m: int)
    requires size > 0 && q * size > m - size && m >= 2 * size
    ensures q >= 2
  {
    assert q <= 1 ==> q * size <= size;
  }

  lemma OffsetIs(size: nat)
    requires size > 0
    ensures HEADER <= Offset(size) < HEADER + Max(size, 8)
  {
    UpIs(HEADER, size);
    UpIs(HEADER, 8);
  }

  function Max(a: nat, b: nat): nat {
    if a < b then b else a
  }

  // ---------- the allocator ----------

  /** A page's descriptor: in a zone, how far from its first page; at the start
      of a large block, how many pages. */
  datatype Usage = Unused | Small(offset: int) | Large(pages: int)

  /** `live` and `owned` record what is allocated: nothing reads them but the
      statements about it. */
  datatype Slab = Slab(
    zpages: nat, pages: Runs, usage: map<int, Usage>, zones: map<int, Zone>,
    lists: seq<seq<int>>, zoneFree: seq<int>, cnt: int,
    live: map<int, set<int>>, owned: map<int, int>)

  function ZoneSize(s: Slab): nat {
    s.zpages * PAGE
  }

  /** zone_limit. */
  function Limit(s: Slab): int {
    if ZoneSize(s) / 4 > 16384 then 16384 else ZoneSize(s) / 4
  }

  function SetSmall(usage: map<int, Usage>, a: int, zpages: nat): map<int, Usage> {
    map p | p in usage.Keys + Span(a, zpages) :: if a <= p < a + zpages then Small(p - a) else usage[p]
  }

  function SetUnused(usage: map<int, Usage>, a: int, zpages: nat): map<int, Usage> {
    map p | p in usage.Keys + Span(a, zpages) :: if a <= p < a + zpages then Unused else usage[p]
  }

  /** A chunk of zone `a`, which has room, for the `zi`-th size. */
  function FromZone(s: Slab, zi: nat): (int, Slab)
    requires zi < |s.lists| && s.lists[zi] != [] && s.lists[zi][0] in s.zones
  {
    var a := s.lists[zi][0];
    var (z, i) := TakeChunk(s.zones[a]);
    var chunk := a * PAGE + z.off + i * z.size;
    (chunk, s.(zones := s.zones[a := z],
               lists := if z.nfree == 0 then s.lists[zi := s.lists[zi][1..]] else s.lists,
               live := s.live[a := (if a in s.live then s.live[a] else {}) + {i}]))
  }

  /** The first chunk of a zone made at page `a`. */
  function FirstOf(s: Slab, zi: nat, a: int): (int, Slab)
    requires zi < |s.lists| && ChunkSize(zi) > 0
  {
    var z := NewZone(zi, ChunkSize(zi), ZoneSize(s));
    (a * PAGE + z.off, s.(zones := s.zones[a := z], lists := s.lists[zi := [a] + s.lists[zi]], live := s.live[a := {0}]))
  }

  /** rt_malloc of less than the zone limit. */
  function MallocSmall(s: Slab, zi: nat): (Option<int>, Slab)
    requires zi < |s.lists| && (s.lists[zi] != [] ==> s.lists[zi][0] in s.zones) && ChunkSize(zi) > 0
  {
    if s.lists[zi] != [] then
      var (p, r) := FromZone(s, zi);
      (Some(p), r)
    else if s.zoneFree != [] then
      var (p, r) := FirstOf(s.(zoneFree := s.zoneFree[1..], cnt := s.cnt - 1), zi, s.zoneFree[0]);
      (Some(p), r)
    else
      var (at, pages) := Alloc(s.pages, s.zpages);
      if at == None then (None, s) else
        var (p, r) := FirstOf(s.(pages := pages, usage := SetSmall(s.usage, at.value, s.zpages), owned := s.owned[at.value := s.zpages]), zi, at.value);
        (Some(p), r)
  }

  function MallocLarge(s: Slab, npages: int): (Option<int>, Slab) {
    var (at, pages) := Alloc(s.pages, npages);
    if at == None then (None, s) else
      (Some(at.value * PAGE), s.(pages := pages, usage := s.usage[at.value := Large(npages)], owned := s.owned[at.value := npages]))
  }

  /** rt_free of chunk `i` of zone `a`. */
  function FreeChunk(s: Slab, a: int, i: int): Slab
    requires a in s.zones && s.zones[a].index < |s.lists|
  {
    var was, k := s.zones[a], s.zones[a].index;
    var z := GiveChunk(was, i);
    var list := if was.nfree == 0 then [a] + s.lists[k] else s.lists[k];
    var t := s.(zones := s.zones[a := z], lists := s.lists[k := list],
                live := s.live[a := (if a in s.live then s.live[a] else {}) - {i}]);
    if z.nfree == z.nmax && |list| > 1 then Retire(t, a, k) else t
  }

  function Remove(q: seq<int>, a: int): seq<int> {
    if q == [] then [] else if q[0] == a then q[1..] else [q[0]] + Remove(q[1..], a)
  }

  /** An empty zone leaves its list for the empty zones, and if there are too
      many of these its pages are given back. */
  function Retire(s: Slab, a: int, k: nat): Slab
    requires k < |s.lists|
  {
    var t := s.(lists := s.lists[k := Remove(s.lists[k], a)], live := s.live - {a});
    if s.cnt + 1 > KEEP then
      t.(pages := Free(s.pages, a, s.zpages), usage := SetUnused(s.usage, a, s.zpages), zones := s.zones - {a}, owned := s.owned - {a})
    else
      t.(zoneFree := [a] + s.zoneFree, cnt := s.cnt + 1)
  }

  function FreeLarge(s: Slab, a: int, npages: int): Slab {
    s.(usage := s.usage[a := Large(0)], pages := Free(s.pages, a, npages), owned := s.owned - {a})
  }

  // ---------- the invariant ----------

  ghost predicate Shaped(z: Zone, zoneSize: nat) {
    && z.index < NZONES && z.size == ChunkSize(z.index) && z.size > 0
    && z.off == Offset(z.size) && z.nmax == (zoneSize - z.off) / z.size && z.nmax >= 2
    && z.off + z.nmax * z.size <= zoneSize
  }

  /** A zone in use is on the list of its size exactly when it has room. */
  ghost predicate Listed(s: Slab) {
    && |s.lists| == NZONES
    && (forall k :: 0 <= k < NZONES ==> NoTwice(s.lists[k]))
    && (forall k, a | 0 <= k < NZONES && a in s.lists[k] :: a in s.live && a in s.zones && s.zones[a].index == k && s.zones[a].nfree > 0)
    && (forall a <- s.live :: a in s.zones && s.zones[a].index < NZONES && (s.zones[a].nfree > 0 ==> a in s.lists[s.zones[a].index]))
  }

  ghost predicate Zoned(s: Slab) {
    && (s.zpages == 8 || s.zpages == 16 || s.zpages == 32)
    && Listed(s)
    && (forall a <- s.live :: a in s.zones && ZoneOk(s.zones[a], s.live[a]) && Shaped(s.zones[a], ZoneSize(s)))
    && NoTwice(s.zoneFree) && s.cnt == |s.zoneFree| <= KEEP
    && (forall a <- s.zoneFree :: a in s.zones && a !in s.live)
    && (forall a <- s.zones :: a in s.live || a in s.zoneFree)
  }

  /** Zones, large blocks and free pages share the pages out between them, and
      every page of a zone knows where its zone starts. */
  ghost predicate Paged(s: Slab, all: set<int>) {
    && PageRuns.Good(State(s.pages, s.owned), all)
    && s.zpages > 0
    && (forall a <- s.zones :: a in s.owned && s.owned[a] == s.zpages)
    && (forall a, p | a in s.zones && a <= p < a + s.zpages :: p in s.usage && s.usage[p] == Small(p - a))
    && (forall a <- s.owned :: a !in s.zones ==> a in s.usage && s.usage[a] == Large(s.owned[a]))
  }

  ghost predicate Good(s: Slab, all: set<int>) {
    Zoned(s) && Paged(s, all)
  }

  // ---------- zones ----------

  lemma FirstGone(q: seq<int>)
    requires q != [] && NoTwice(q)
    ensures NoTwice(q[1..]) && q[0] !in q[1..] && (forall a <- q :: a in q[1..] <==> a != q[0]) && forall a <- q[1..] :: a in q
  {
    assert q == [q[0]] + q[1..];
  }

  lemma FirstAdded(q: seq<int>, a: int)
    requires NoTwice(q) && a !in q
    ensures NoTwice([a] + q) && forall b :: b in [a] + q <==> b == a || b in q
  {
    assert ([a] + q)[1..] == q;
  }

  /** A chunk from a zone with room was not live, and is now. */
  lemma {:induction false} FromZoneGood(s: Slab, zi: nat)
    requires Zoned(s) && zi < NZONES && s.lists[zi] != []
    ensures s.lists[zi][0] in s.zones
    ensures Zoned(FromZone(s, zi).1)
    ensures var a := s.lists[zi][0]; var i := TakeChunk(s.zones[a]).1;
            a in s.live && i !in s.live[a] && 0 <= i < s.zones[a].nmax && FromZone(s, zi).1.live == s.live[a := s.live[a] + {i}]
  {
    hide NoTwice, ZoneOk, Listed, Shaped, TakeChunk;
    ListCount(s);
    HeadListed(s, zi);
    var a := s.lists[zi][0];
    TakeOk(s.zones[a], s.live[a]);
    TakeShaped(s.zones[a], ZoneSize(s));
    FromZoneListed(s, zi);
    var r := FromZone(s, zi).1;
    forall b <- r.live ensures b in r.zones && ZoneOk(r.zones[b], r.live[b]) && Shaped(r.zones[b], ZoneSize(r)) {
      assert b in s.live;
    }
  }

  lemma TakeShaped(z: Zone, zoneSize: nat)
    requires Shaped(z, zoneSize)
    ensures Shaped(TakeChunk(z).0, zoneSize)
  {
  }

  lemma HeadListed(s: Slab, zi: nat)
    requires Listed(s) && zi < NZONES && s.lists[zi] != []
    ensures var a := s.lists[zi][0]; a in s.zones && a in s.live && s.zones[a].nfree > 0 && s.zones[a].index == zi
  {
    assert s.lists[zi][0] in s.lists[zi];
  }

  lemma {:induction false} FromZoneListed(s: Slab, zi: nat)
    requires Listed(s) && zi < NZONES && s.lists[zi] != []
    ensures s.lists[zi][0] in s.zones && Listed(FromZone(s, zi).1)
  {
    hide NoTwice;
    var a := s.lists[zi][0];
    assert a in s.lists[zi];
    FirstGone(s.lists[zi]);
    var r := FromZone(s, zi).1;
    forall k, b | 0 <= k < NZONES && b in r.lists[k] ensures b in s.lists[k] && (b == a ==> r.zones[a].nfree > 0) {
      if k == zi && r.zones[a].nfree == 0 { assert b in s.lists[zi][1..]; }
    }
    forall b <- r.live | r.zones[b].nfree > 0 ensures b in r.lists[r.zones[b].index] {
      assert b in s.lists[s.zones[b].index];
    }
  }

  /** A new zone for a size none of whose zones has room. */
  lemma {:induction false} FirstOfGood(s: Slab, zi: nat, a: int)
    requires Zoned(s) && zi < NZONES && s.lists[zi] == [] && a !in s.zones && 4 * ChunkSize(zi) <= ZoneSize(s)
    ensures ChunkSize(zi) > 0 && Zoned(FirstOf(s, zi, a).1)
  {
    hide NoTwice, ZoneOk, Listed;
    NewOk(zi, ZoneSize(s));
    ListCount(s);
    var r := FirstOf(s, zi, a).1;
    FirstOfListed(s, r, zi, a);
    assert forall b <- r.live :: b != a ==> r.zones[b] == s.zones[b] && r.live[b] == s.live[b];
    FreeCount(r.zones[a], {0});
  }

  lemma {:induction false} FirstOfListed(s: Slab, r: Slab, zi: nat, a: int)
    requires Listed(s) && zi < NZONES && s.lists[zi] == [] && a !in s.live
    requires r.lists == s.lists[zi := [a] + s.lists[zi]] && r.live == s.live[a := {0}]
    requires a in r.zones && r.zones[a].index == zi && r.zones[a].nfree > 0 && forall b <- s.live :: b in s.zones ==> b in r.zones && r.zones[b] == s.zones[b]
    ensures Listed(r)
  {
    hide NoTwice;
    FirstAdded(s.lists[zi], a) by { Nothing(); }
  }

  lemma Nothing()
    ensures NoTwice([])
  {
  }

  lemma {:induction false} RemoveIs(q: seq<int>, a: int)
    requires NoTwice(q)
    ensures NoTwice(Remove(q, a)) && forall b :: b in Remove(q, a) <==> b in q && b != a
  {
    if q != [] {
      assert q == [q[0]] + q[1..];
      if q[0] != a {
        RemoveIs(q[1..], a);
        assert ([q[0]] + Remove(q[1..], a))[1..] == Remove(q[1..], a);
      }
    }
  }

  lemma ListedAt(s: Slab, a: int)
    requires Listed(s) && a in s.live
    ensures a in s.zones && s.zones[a].index < NZONES == |s.lists| && NoTwice(s.lists[s.zones[a].index])
    ensures a in s.lists[s.zones[a].index] <==> s.zones[a].nfree > 0
  {
  }

  lemma GiveShaped(z: Zone, i: int, zoneSize: nat)
    ensures Shaped(z, zoneSize) ==> Shaped(GiveChunk(z, i), zoneSize)
  {
  }

  /** A chunk that was live is so no longer, and its zone has room. */
  lemma {:induction false} GiveGood(s: Slab, a: int, i: int)
    requires Zoned(s) && a in s.live && i in s.live[a]
    ensures a in s.zones && s.zones[a].index < NZONES
    ensures var k, z := s.zones[a].index, GiveChunk(s.zones[a], i);
            var list := if s.zones[a].nfree == 0 then [a] + s.lists[k] else s.lists[k];
            var t := s.(zones := s.zones[a := z], lists := s.lists[k := list], live := s.live[a := s.live[a] - {i}]);
            Zoned(t) && a in t.lists[k]
  {
    hide NoTwice, ZoneOk, Listed, Shaped;
    ListedAt(s, a);
    GiveOk(s.zones[a], s.live[a], i);
    FreeCount(s.zones[a], s.live[a]);
    GiveShaped(s.zones[a], i, ZoneSize(s));
    var k, z := s.zones[a].index, GiveChunk(s.zones[a], i);
    var list := if s.zones[a].nfree == 0 then [a] + s.lists[k] else s.lists[k];
    if s.zones[a].nfree == 0 { FirstAdded(s.lists[k], a); }
    var t := s.(zones := s.zones[a := z], lists := s.lists[k := list], live := s.live[a := s.live[a] - {i}]);
    NfreeNotNegative(s.zones[a], s.live[a]);
    GiveListed(s, t, a, k);
  }

  lemma NfreeNotNegative(z: Zone, live: set<int>)
    requires ZoneOk(z, live)
    ensures z.nfree >= 0
  {
  }

  lemma {:induction false} GiveListed(s: Slab, t: Slab, a: int, k: nat)
    requires Listed(s) && a in s.live && a in s.zones && k == s.zones[a].index && s.zones[a].nfree >= 0
    requires a in t.zones && t.zones == s.zones[a := t.zones[a]] && t.zones[a].index == k && t.zones[a].nfree > 0
    requires |t.lists| == |s.lists| && t.lists == s.lists[k := t.lists[k]] && NoTwice(t.lists[k])
    requires forall b :: b in t.lists[k] <==> b in s.lists[k] || b == a
    requires t.live.Keys == s.live.Keys
    ensures Listed(t)
  {
    hide NoTwice;
    assert forall j | 0 <= j < NZONES && j != k :: t.lists[j] == s.lists[j];
    forall j, b | 0 <= j < NZONES && b in t.lists[j] ensures b in t.live && b in t.zones && t.zones[b].index == j && t.zones[b].nfree > 0 {
      GiveMember(s, t, a, k, j, b);
    }
    forall b <- t.live | t.zones[b].nfree > 0 ensures b in t.lists[t.zones[b].index] {
      if b != a { assert b in s.lists[s.zones[b].index]; }
    }
  }

  lemma {:induction false} GiveMember(s: Slab, t: Slab, a: int, k: nat, j: nat, b: int)
    requires Listed(s) && a in s.live && a in s.zones && k == s.zones[a].index
    requires a in t.zones && t.zones == s.zones[a := t.zones[a]] && t.zones[a].index == k && t.zones[a].nfree > 0
    requires |t.lists| == |s.lists| && k < |s.lists| && t.lists == s.lists[k := t.lists[k]]
    requires t.live.Keys == s.live.Keys && j < NZONES && b in t.lists[j] && (b == a || b in s.lists[j])
    requires b == a ==> j == k || a in s.lists[j]
    ensures b in t.live && b in t.zones && t.zones[b].index == j && t.zones[b].nfree > 0
  {
    hide NoTwice;
  }

  /** An empty zone retired. */
  lemma {:induction false} RetireGood(s: Slab, a: int, k: nat)
    requires Zoned(s) && a in s.live && a in s.zones && s.live[a] == {} && k == s.zones[a].index < NZONES
    ensures Zoned(Retire(s, a, k))
  {
    hide NoTwice, ZoneOk, Shaped, Listed, Remove;
    ListCount(s);
    var r := Retire(s, a, k);
    RetireListed(s, r, a, k);
    if s.cnt + 1 <= KEEP { FirstAdded(s.zoneFree, a); }
  }

  lemma {:induction false} RetireListed(s: Slab, r: Slab, a: int, k: nat)
    requires Listed(s) && k < NZONES && a in s.live && a in s.zones && s.zones[a].index == k
    requires r.lists == s.lists[k := Remove(s.lists[k], a)] && r.live == s.live - {a}
    requires forall b <- r.live :: b in r.zones && r.zones[b] == s.zones[b]
    ensures Listed(r)
  {
    hide NoTwice;
    RemoveIs(s.lists[k], a);
    forall j, b | 0 <= j < NZONES && b in r.lists[j] ensures b in s.lists[j] && b != a {
      if j != k { assert b in s.lists[j]; }
    }
    forall b <- r.live | r.zones[b].nfree > 0 ensures b in r.lists[r.zones[b].index] {
      assert b in s.lists[s.zones[b].index];
    }
  }

  lemma {:induction false} FreeChunkGood(s: Slab, a: int, i: int)
    requires Zoned(s) && a in s.live && i in s.live[a]
    ensures a in s.zones && s.zones[a].index < NZONES
    ensures Zoned(FreeChunk(s, a, i))
  {
    hide Zoned, Retire;
    GiveGood(s, a, i);
    assert |s.lists| == NZONES by { ListCount(s); }
    var k, z := s.zones[a].index, GiveChunk(s.zones[a], i);
    var list := if s.zones[a].nfree == 0 then [a] + s.lists[k] else s.lists[k];
    var t := s.(zones := s.zones[a := z], lists := s.lists[k := list], live := s.live[a := s.live[a] - {i}]);
    if z.nfree == z.nmax && |list| > 1 {
      EmptyIs(t, a);
      RetireGood(t, a, k);
    }
  }

  lemma ListCount(s: Slab)
    requires Zoned(s)
    ensures |s.lists| == NZONES
  {
  }

  lemma EmptyIs(s: Slab, a: int)
    requires Zoned(s) && a in s.live
    ensures a in s.zones && (s.zones[a].nfree == s.zones[a].nmax <==> s.live[a] == {})
  {
    FreeCount(s.zones[a], s.live[a]);
  }

  // ---------- pages ----------

  /** Zone headers may change as long as the zones stay where they are. */
  lemma PagedFrame(s: Slab, r: Slab, all: set<int>)
    requires Paged(s, all) && r.pages == s.pages && r.owned == s.owned && r.usage == s.usage && r.zpages == s.zpages
    requires r.zones.Keys == s.zones.Keys
    ensures Paged(r, all)
  {
  }

  lemma {:induction false} NewPages(s: Slab, npages: int, all: set<int>)
    requires Paged(s, all) && npages > 0
    ensures var (at, pages) := Alloc(s.pages, npages);
            at.Some? ==>
              && PageRuns.Good(State(pages, s.owned[at.value := npages]), all)
              && at.value !in s.owned
              && (forall b <- s.owned :: Span(b, s.owned[b]) !! Span(at.value, npages))
  {
    hide PageRuns.Good, Alloc;
    PageRuns.StepGood(State(s.pages, s.owned), AllocPages(npages), all);
    var (at, pages) := Alloc(s.pages, npages);
    if at.Some? {
      AllocTakes(s.pages, npages) by { CanonicalPages(s, all); }
      OwnedApart(s, at.value, npages, all);
    }
  }

  lemma CanonicalPages(s: Slab, all: set<int>)
    requires Paged(s, all)
    ensures Canonical(s.pages)
  {
  }

  lemma {:induction false} OwnedApart(s: Slab, at: int, n: int, all: set<int>)
    requires Paged(s, all) && n > 0 && Fits(s.pages, at, n)
    ensures at !in s.owned
    ensures forall b <- s.owned :: Span(b, s.owned[b]) !! Span(at, n)
  {
    assert at in Span(at, n);
    assert at in s.owned ==> at in Span(at, s.owned[at]);
  }

  lemma {:induction false} ZonePage(s: Slab, at: int, a: int, p: int, all: set<int>)
    requires Paged(s, all) && a in s.zones && a <= p < a + s.zpages
    requires forall b <- s.owned :: Span(b, s.owned[b]) !! Span(at, s.zpages)
    ensures p in s.usage && s.usage[p] == Small(p - a) && p !in Span(at, s.zpages)
  {
    hide PageRuns.Good;
    assert p in Span(a, s.owned[a]);
  }

  lemma {:induction false} SetSmallIs(usage: map<int, Usage>, a: int, n: nat)
    ensures forall p <- Span(a, n) :: p in SetSmall(usage, a, n) && SetSmall(usage, a, n)[p] == Small(p - a)
    ensures forall p <- usage :: p !in Span(a, n) ==> p in SetSmall(usage, a, n) && SetSmall(usage, a, n)[p] == usage[p]
  {
  }

  /** New pages become a zone. */
  lemma {:induction false} ZonePaged(s: Slab, r: Slab, at: int, all: set<int>)
    requires Paged(s, all) && Alloc(s.pages, s.zpages).0 == Some(at)
    requires r.pages == Alloc(s.pages, s.zpages).1 && r.owned == s.owned[at := s.zpages] && r.zpages == s.zpages
    requires r.usage == SetSmall(s.usage, at, s.zpages) && r.zones.Keys == s.zones.Keys + {at}
    ensures Paged(r, all) && at !in s.zones
  {
    hide PageRuns.Good, Alloc, SetSmall, Span;
    NewPages(s, s.zpages, all);
    ZoneUsage(s, r, at, all);
  }

  /** The descriptors after the pages of a new zone are marked. */
  lemma {:induction false} ZoneUsage(s: Slab, r: Slab, at: int, all: set<int>)
    requires Paged(s, all) && at !in s.owned && r.owned == s.owned[at := s.zpages] && r.zpages == s.zpages
    requires forall b <- s.owned :: Span(b, s.owned[b]) !! Span(at, s.zpages)
    requires r.usage == SetSmall(s.usage, at, s.zpages) && r.zones.Keys == s.zones.Keys + {at}
    ensures forall a, p | a in r.zones && a <= p < a + r.zpages :: p in r.usage && r.usage[p] == Small(p - a)
    ensures forall a <- r.owned :: a !in r.zones ==> a in r.usage && r.usage[a] == Large(r.owned[a])
  {
    hide Paged, SetSmall;
    SetSmallIs(s.usage, at, s.zpages);
    forall a, p | a in r.zones && a <= p < a + r.zpages ensures p in r.usage && r.usage[p] == Small(p - a) {
      if a == at { assert p in Span(at, s.zpages); } else { ZonePage(s, at, a, p, all); }
    }
    forall a <- r.owned | a !in r.zones ensures a in r.usage && r.usage[a] == Large(r.owned[a]) {
      LargePage(s, at, a, all);
    }
  }

  lemma {:induction false} LargePage(s: Slab, at: int, a: int, all: set<int>)
    requires Paged(s, all) && a in s.owned && a !in s.zones
    requires forall b <- s.owned :: Span(b, s.owned[b]) !! Span(at, s.zpages)
    ensures a in s.usage && s.usage[a] == Large(s.owned[a]) && a !in Span(at, s.zpages)
  {
    hide PageRuns.Good;
    PositiveSpan(s, a, all);
  }

  lemma PositiveSpan(s: Slab, a: int, all: set<int>)
    requires Paged(s, all) && a in s.owned
    ensures s.owned[a] > 0 && a in Span(a, s.owned[a])
  {
  }

  /** A zone's pages go back to the page allocator. */
  lemma {:induction false} PagesBack(s: Slab, r: Slab, a: int, all: set<int>)
    requires Paged(s, all) && a in s.owned
    requires r.pages == Free(s.pages, a, s.owned[a]) && r.owned == s.owned - {a} && r.zpages == s.zpages
    requires r.zones.Keys == s.zones.Keys - {a}
    requires forall p :: p in s.usage && p !in Span(a, s.owned[a]) ==> p in r.usage && r.usage[p] == s.usage[p]
    ensures Paged(r, all)
  {
    hide PageRuns.Good, Free;
    PageRuns.StepGood(State(s.pages, s.owned), FreePages(a), all);
    forall b, p | b in r.zones && b <= p < b + r.zpages ensures p in r.usage && r.usage[p] == Small(p - b) {
      Apart(s, a, b, all);
      assert p in Span(b, s.owned[b]);
    }
    forall b <- r.owned | b !in r.zones ensures b in r.usage && r.usage[b] == Large(r.owned[b]) {
      Apart(s, a, b, all);
      PositiveSpan(s, b, all);
    }
  }

  lemma Apart(s: Slab, a: int, b: int, all: set<int>)
    requires Paged(s, all) && a in s.owned && b in s.owned && a != b
    ensures Span(a, s.owned[a]) !! Span(b, s.owned[b])
  {
  }

  // ---------- the descriptor of a chunk's page ----------

  /** The address of chunk `i` of zone `a`. */
  function ChunkAt(s: Slab, a: int, i: int): int {
    a * PAGE + (if a in s.zones then s.zones[a].off + i * s.zones[a].size else 0)
  }

  /** From the address of a live chunk the descriptor of its page leads back to
      its own zone, and its place in the zone to its own number. */
  lemma {:induction false} LookupChunk(s: Slab, a: int, i: int, all: set<int>)
    requires Good(s, all) && a in s.live && i in s.live[a]
    ensures a in s.zones
    ensures var p := ChunkAt(s, a, i);
            && p / PAGE in s.usage && s.usage[p / PAGE] == Small(p / PAGE - a)
            && s.zones[a].size > 0 && (p - a * PAGE - s.zones[a].off) / s.zones[a].size == i
            && (p - a * PAGE - s.zones[a].off) % s.zones[a].size == 0
  {
    var z := s.zones[a];
    LiveBelow(z, s.live[a], i);
    var o := z.off + i * z.size;
    BelowProduct(i, z.nmax, z.size);
    assert 0 <= o < ZoneSize(s);
    var q := o / PAGE;
    assert (a * PAGE + o) / PAGE == a + q;
    assert a <= a + q < a + s.zpages;
    DivModUnique(i * z.size, z.size, i, 0);
  }

  lemma LiveBelow(z: Zone, live: set<int>, i: int)
    requires ZoneOk(z, live) && i in live
    ensures 0 <= i < z.nmax
  {
  }

  lemma BelowProduct(i: int, n: int, size: int)
    requires 0 <= i < n && size > 0
    ensures 0 <= i * size && i * size + size <= n * size
  {
    assert (i + 1) * size == i * size + size;
    assert (i + 1) * size <= n * size;
  }

  /** Different live chunks of a zone, and chunks of different zones, have no
      byte in common. */
  lemma {:induction false} ChunksApart(s: Slab, a: int, i: int, b: int, j: int, all: set<int>)
    requires Good(s, all) && a in s.live && i in s.live[a] && b in s.live && j in s.live[b] && (a != b || i < j)
    ensures a in s.zones && b in s.zones
    ensures var p, q := ChunkAt(s, a, i), ChunkAt(s, b, j); p + s.zones[a].size <= q || q + s.zones[b].size <= p
  {
    var y, z := s.zones[a], s.zones[b];
    LiveBelow(y, s.live[a], i);
    LiveBelow(z, s.live[b], j);
    BelowProduct(i, y.nmax, y.size);
    BelowProduct(j, z.nmax, z.size);
    if a == b {
      BelowProduct(i, j, y.size);
    } else {
      Apart(s, a, b, all);
      SpansApart(a, b, s.zpages);
    }
  }

  lemma SpansApart(a: int, b: int, n: int)
    requires n > 0 && a != b && Span(a, n) !! Span(b, n)
    ensures a + n <= b || b + n <= a
  {
    assert a in Span(a, n) && b in Span(b, n);
    assert a < b < a + n ==> b in Span(a, n);
    assert b < a < b + n ==> a in Span(b, n);
  }

  // ---------- malloc and free ----------

  /** rt_malloc. */
  function Malloc(s: Slab, size: nat): (Option<int>, Slab)
    requires |s.lists| == NZONES && (forall zi :: 0 <= zi < NZONES ==> s.lists[zi] != [] ==> s.lists[zi][0] in s.zones)
  {
    if size == 0 then (None, s)
    else if size >= Limit(s) then MallocLarge(s, Up(size, PAGE) / PAGE)
    else
      ZoneIndexIs(size);
      ChunkPositive(ZoneIndex(size).0);
      MallocSmall(s, ZoneIndex(size).0)
  }

  lemma ChunkPositive(zi: nat)
    requires zi < NZONES
    ensures ChunkSize(zi) > 0
  {
    if zi > 0 { ChunkSizesGrow(0, zi); }
  }

  /** rt_free, as far as the pointer goes: the descriptor of its page says what
      it is and where it starts. */
  function FreePtr(s: Slab, p: int): Slab {
    var page := p / PAGE;
    if page !in s.usage then s else
      match s.usage[page]
      case Large(n) => FreeLarge(s, page, n)
      case Small(offset) =>
        var a := page - offset;
        if a !in s.zones || s.zones[a].index >= |s.lists| || s.zones[a].size == 0 then s else
          FreeChunk(s, a, (p - a * PAGE - s.zones[a].off) / s.zones[a].size)
      case Unused => s
  }

  /** The zone limit leaves room for several chunks in every zone. */
  lemma {:induction false} BelowLimit(s: Slab, size: nat)
    requires (s.zpages == 8 || s.zpages == 16 || s.zpages == 32) && 0 < size < Limit(s)
    ensures size < 16384 && ZoneIndex(size).0 < NZONES && 4 * ChunkSize(ZoneIndex(size).0) <= ZoneSize(s)
  {
    ZoneIndexIs(size);
    var zi := ZoneIndex(size).0;
    AllGrow();
    assert zi <= 71 && (zi > 63 ==> ChunkSize(63) <= ChunkSize(zi - 1));
    assert zi <= 63 ==> ChunkSize(zi) <= ChunkSize(63);
    assert ChunkSize(zi) <= ChunkSize(71);
  }

  lemma AllGrow()
    ensures forall i: nat, j: nat | i < j < NZONES :: ChunkSize(i) < ChunkSize(j)
  {
    forall i: nat, j: nat | i < j < NZONES ensures ChunkSize(i) < ChunkSize(j) {
      ChunkSizesGrow(i, j);
    }
  }

  lemma {:induction false} SmallGood(s: Slab, zi: nat, all: set<int>)
    requires Good(s, all) && zi < NZONES && 4 * ChunkSize(zi) <= ZoneSize(s)
    ensures (s.lists[zi] != [] ==> s.lists[zi][0] in s.zones) && ChunkSize(zi) > 0
    ensures var (p, r) := MallocSmall(s, zi);
            && Good(r, all)
            && (p == None ==> r == s)
            && (p.Some? ==> Fresh(s, r, zi, p.value))
  {
    hide Zoned, Paged, FirstOf, FromZone, Alloc, SetSmall;
    ListCount(s);
    ChunkPositive(zi);
    if s.lists[zi] != [] {
      FromZoneGood(s, zi);
      FromZonePaged(s, zi, all);
    } else if s.zoneFree != [] {
      ReuseGood(s, zi, all);
    } else {
      var (at, pages) := Alloc(s.pages, s.zpages);
      if at.Some? { BuildGood(s, zi, at.value, pages, all); }
    }
  }

  /** The chunk at `p` is of the right size, was not live, and is the only one
      that has become so. */
  ghost predicate Fresh(s: Slab, r: Slab, zi: nat, p: int) {
    exists a, i ::
      && a in r.live && a in r.zones && r.zones[a].size == ChunkSize(zi) && p == ChunkAt(r, a, i)
      && (a in s.live ==> i !in s.live[a])
      && r.live == s.live[a := (if a in s.live then s.live[a] else {}) + {i}]
  }

  lemma {:induction false} FromZonePaged(s: Slab, zi: nat, all: set<int>)
    requires Good(s, all) && zi < NZONES && s.lists[zi] != []
    ensures s.lists[zi][0] in s.zones
    ensures var (p, r) := FromZone(s, zi); Paged(r, all) && Fresh(s, r, zi, p)
  {
    hide Paged;
    HeadListed(s, zi);
    var (p, r) := FromZone(s, zi);
    var a := s.lists[zi][0];
    TakeOk(s.zones[a], s.live[a]);
    PagedFrame(s, r, all);
    assert p == ChunkAt(r, a, TakeChunk(s.zones[a]).1);
  }

  lemma {:induction false} ReuseGood(s: Slab, zi: nat, all: set<int>)
    requires Good(s, all) && zi < NZONES && s.lists[zi] == [] && s.zoneFree != [] && 4 * ChunkSize(zi) <= ZoneSize(s)
    ensures ChunkSize(zi) > 0
    ensures var (p, r) := FirstOf(s.(zoneFree := s.zoneFree[1..], cnt := s.cnt - 1), zi, s.zoneFree[0]);
            Good(r, all) && Fresh(s, r, zi, p)
  {
    hide Paged, NoTwice, ZoneOk, Shaped, Listed;
    ChunkPositive(zi);
    var a := s.zoneFree[0];
    FirstGone(s.zoneFree);
    assert a in s.zoneFree;
    var m := s.(zoneFree := s.zoneFree[1..], cnt := s.cnt - 1, zones := s.zones - {a});
    ListedFrame(s, m);
    FirstOfGood(m, zi, a);
    var (p, r) := FirstOf(s.(zoneFree := s.zoneFree[1..], cnt := s.cnt - 1), zi, a);
    assert r == FirstOf(m, zi, a).1 by { assert r.zones == FirstOf(m, zi, a).1.zones; }
    PagedFrame(s, r, all);
    assert p == ChunkAt(r, a, 0);
    assert {} + {0} == {0};
    assert r.live == s.live[a := {0}];
  }

  lemma ListedFrame(s: Slab, m: Slab)
    requires Listed(s) && m.lists == s.lists && m.live == s.live
    requires forall b <- s.live :: b in s.zones ==> b in m.zones && m.zones[b] == s.zones[b]
    ensures Listed(m)
  {
  }

  lemma {:induction false} BuildGood(s: Slab, zi: nat, at: int, pages: Runs, all: set<int>)
    requires Good(s, all) && zi < NZONES && s.lists[zi] == [] && 4 * ChunkSize(zi) <= ZoneSize(s)
    requires Alloc(s.pages, s.zpages) == (Some(at), pages)
    ensures ChunkSize(zi) > 0
    ensures var (p, r) := FirstOf(s.(pages := pages, usage := SetSmall(s.usage, at, s.zpages), owned := s.owned[at := s.zpages]), zi, at);
            Good(r, all) && Fresh(s, r, zi, p)
  {
    hide Paged, Alloc, SetSmall, NoTwice, ZoneOk, Shaped, Listed;
    ChunkPositive(zi);
    ListCount(s);
    var m := s.(pages := pages, usage := SetSmall(s.usage, at, s.zpages), owned := s.owned[at := s.zpages]);
    var (p, r) := FirstOf(m, zi, at);
    ZonePaged(s, r, at, all);
    ZonedFrame(s, m);
    FirstOfGood(m, zi, at);
    assert at !in s.live;
    assert p == ChunkAt(r, at, 0);
    assert {} + {0} == {0};
    assert r.live == s.live[at := {0}];
  }

  lemma {:induction false} LargeGood(s: Slab, npages: int, all: set<int>)
    requires Good(s, all) && npages > 0
    ensures var (p, r) := MallocLarge(s, npages);
            && Good(r, all) && r.live == s.live
            && (p == None ==> r == s)
            && (p.Some? ==> p.value % PAGE == 0 && p.value / PAGE !in s.owned && r.owned == s.owned[p.value / PAGE := npages])
  {
    hide Paged, Zoned, Alloc;
    var (at, pages) := Alloc(s.pages, npages);
    if at.Some? {
      var r := MallocLarge(s, npages).1;
      LargePaged(s, r, at.value, npages, all);
      assert Zoned(r) by { ZonedFrame(s, r); }
      assert at.value * PAGE / PAGE == at.value;
    }
  }

  /** Zones do not depend on what is outside them. */
  lemma ZonedFrame(s: Slab, r: Slab)
    requires Zoned(s) && r.zpages == s.zpages && r.zones == s.zones && r.lists == s.lists
    requires r.zoneFree == s.zoneFree && r.cnt == s.cnt && r.live == s.live
    ensures Zoned(r)
  {
    hide Listed, ZoneOk, Shaped, NoTwice;
    ListedFrame(s, r);
  }

  /** New pages become a large block. */
  lemma {:induction false} LargePaged(s: Slab, r: Slab, at: int, n: int, all: set<int>)
    requires Paged(s, all) && n > 0 && Alloc(s.pages, n).0 == Some(at)
    requires r.pages == Alloc(s.pages, n).1 && r.owned == s.owned[at := n] && r.zpages == s.zpages
    requires r.usage == s.usage[at := Large(n)] && r.zones == s.zones
    ensures Paged(r, all) && at !in s.owned
  {
    hide PageRuns.Good, Alloc;
    NewPages(s, n, all);
    assert at in Span(at, n);
    forall a, p | a in r.zones && a <= p < a + r.zpages ensures p in r.usage && r.usage[p] == Small(p - a) {
      assert p in Span(a, s.owned[a]);
    }
    forall a <- r.owned | a !in r.zones ensures a in r.usage && r.usage[a] == Large(r.owned[a]) {
      assert a == at || a in s.owned;
    }
  }

  /** rt_malloc keeps the invariant, and what it returns is a chunk that was
      not live, of the least size that holds the request, or pages of its own. */
  lemma {:induction false} MallocGood(s: Slab, size: nat, all: set<int>)
    requires Good(s, all)
    ensures |s.lists| == NZONES && forall zi :: 0 <= zi < NZONES ==> s.lists[zi] != [] ==> s.lists[zi][0] in s.zones
    ensures var (p, r) := Malloc(s, size);
            && Good(r, all)
            && (p == None ==> r == s)
            && (p.Some? && size < Limit(s) ==> size < 16384 && Fresh(s, r, ZoneIndex(size).0, p.value))
            && (p.Some? && size >= Limit(s) ==> p.value / PAGE !in s.owned && r.live == s.live)
  {
    hide Zoned, Paged, Listed, Fresh, MallocSmall, MallocLarge;
    ListCount(s);
    forall zi | 0 <= zi < NZONES && s.lists[zi] != [] ensures s.lists[zi][0] in s.zones { InZones(s, zi); }
    if size != 0 {
      if size >= Limit(s) {
        UpIs(size, PAGE);
        LimitPositive(s);
        LargeGood(s, Up(size, PAGE) / PAGE, all);
      } else {
        ZpagesAre(s);
        BelowLimit(s, size);
        SmallGood(s, ZoneIndex(size).0, all);
      }
    }
  }

  lemma InZones(s: Slab, zi: nat)
    requires Zoned(s) && zi < NZONES && s.lists[zi] != []
    ensures s.lists[zi][0] in s.zones
  {
    HeadListed(s, zi);
  }

  lemma ZpagesAre(s: Slab)
    requires Zoned(s)
    ensures s.zpages == 8 || s.zpages == 16 || s.zpages == 32
  {
  }

  lemma LimitPositive(s: Slab)
    requires Zoned(s)
    ensures Limit(s) >= 8192
  {
  }

  /** rt_free of a live chunk gives back that chunk and no other. */
  lemma {:induction false} FreeGood(s: Slab, a: int, i: int, all: set<int>)
    requires Good(s, all) && a in s.live && i in s.live[a]
    ensures a in s.zones && s.zones[a].index < |s.lists|
    ensures FreePtr(s, ChunkAt(s, a, i)) == FreeChunk(s, a, i)
    ensures Good(FreeChunk(s, a, i), all)
    ensures forall b <- s.live :: b != a ==> b in FreeChunk(s, a, i).live && FreeChunk(s, a, i).live[b] == s.live[b]
    ensures var r := FreeChunk(s, a, i); if a in r.live then r.live[a] == s.live[a] - {i} else s.live[a] == {i}
  {
    hide Zoned, Paged;
    ListCount(s);
    FreeChunkGood(s, a, i);
    LookupChunk(s, a, i, all);
    FreeChunkPaged(s, a, i, all);
    LastChunk(s, a, i);
  }

  lemma LastChunk(s: Slab, a: int, i: int)
    requires Zoned(s) && a in s.live && i in s.live[a] && a in s.zones
    ensures GiveChunk(s.zones[a], i).nfree == GiveChunk(s.zones[a], i).nmax ==> s.live[a] == {i}
  {
    hide ZoneOk;
    FreeCount(s.zones[a], s.live[a]);
    if |s.live[a]| == 1 { OnlyOne(s.live[a], i); }
  }

  lemma OnlyOne(x: set<int>, i: int)
    requires i in x && |x| == 1
    ensures x == {i}
  {
    assert x == (x - {i}) + {i};
    assert |x - {i}| == 0;
  }

  lemma {:induction false} SetUnusedIs(usage: map<int, Usage>, a: int, n: nat)
    ensures forall p <- usage :: p !in Span(a, n) ==> p in SetUnused(usage, a, n) && SetUnused(usage, a, n)[p] == usage[p]
  {
  }

  lemma {:induction false} PagedZone(s: Slab, a: int, all: set<int>)
    requires Paged(s, all) && a in s.zones
    ensures a in s.owned && s.owned[a] == s.zpages
  {
  }

  lemma {:induction false} FreeChunkPaged(s: Slab, a: int, i: int, all: set<int>)
    requires Paged(s, all) && a in s.zones && s.zones[a].index < |s.lists|
    ensures Paged(FreeChunk(s, a, i), all)
  {
    hide PageRuns.Good, Free, SetUnused, Remove, Paged;
    PagedZone(s, a, all);
    SetUnusedIs(s.usage, a, s.zpages);
    var k, z := s.zones[a].index, GiveChunk(s.zones[a], i);
    var list := if s.zones[a].nfree == 0 then [a] + s.lists[k] else s.lists[k];
    var t := s.(zones := s.zones[a := z], lists := s.lists[k := list],
                live := s.live[a := (if a in s.live then s.live[a] else {}) - {i}]);
    PagedFrame(s, t, all);
    if z.nfree == z.nmax && |list| > 1 {
      if t.cnt + 1 > KEEP { PagesBack(t, Retire(t, a, k), a, all); } else { PagedFrame(t, Retire(t, a, k), all); }
    }
  }

  lemma {:induction false} FreeLargeGood(s: Slab, a: int, all: set<int>)
    requires Good(s, all) && a in s.owned && a !in s.zones
    ensures FreePtr(s, a * PAGE) == FreeLarge(s, a, s.owned[a])
    ensures Good(FreeLarge(s, a, s.owned[a]), all)
  {
    hide PageRuns.Good, Free;
    PositiveSpan(s, a, all);
    assert a * PAGE / PAGE == a;
    var r := FreeLarge(s, a, s.owned[a]);
    PagesBack(s, r, a, all);
    assert Zoned(r);
  }

  /** A zone of the `zi`-th size has a chunk to give exactly if one is listed. */
  lemma {:induction false} ListEmptyIff(s: Slab, zi: nat)
    requires Zoned(s) && zi < NZONES
    ensures |s.lists| == NZONES && (forall a <- s.live :: a in s.zones)
    ensures s.lists[zi] == [] <==>
            forall a <- s.live :: s.zones[a].index == zi ==> |s.live[a]| == s.zones[a].nmax
  {
    hide ZoneOk, Shaped, NoTwice;
    forall a <- s.live ensures s.zones[a].nfree == s.zones[a].nmax - |s.live[a]| && s.zones[a].nfree >= 0 {
      FreeCount(s.zones[a], s.live[a]);
      NeverNegative(s.zones[a], s.live[a]);
    }
    if s.lists[zi] != [] { HeadListed(s, zi); }
  }

  lemma NeverNegative(z: Zone, live: set<int>)
    requires ZoneOk(z, live)
    ensures z.nfree >= 0
  {
  }

  lemma {:induction false} NoEmptyZoneIff(s: Slab)
    requires Zoned(s)
    ensures s.zoneFree == [] <==> forall a <- s.zones :: a in s.live
  {
    hide Listed, ZoneOk, Shaped, NoTwice;
    if s.zoneFree != [] {
      var a := s.zoneFree[0];
      assert a in s.zoneFree;
      assert a in s.zones && a !in s.live;
    }
  }

  lemma {:induction false} NoPagesIff(s: Slab, n: int, all: set<int>)
    requires Paged(s, all) && n > 0
    ensures Alloc(s.pages, n).0 == None <==> forall at :: !Fits(s.pages, at, n)
  {
    hide Alloc, PageRuns.Good;
    CanonicalPages(s, all);
    AllocLowest(s.pages, n);
  }

  /** A large request fails if and only if no run of free pages is long enough;
      a small one if and only if every zone of its chunk size is full, no empty
      zone is kept, and there are no pages for a new one. */
  lemma {:induction false} MallocFailsIff(s: Slab, size: nat, all: set<int>)
    requires Good(s, all) && size > 0
    requires |s.lists| == NZONES && forall zi :: 0 <= zi < NZONES ==> s.lists[zi] != [] ==> s.lists[zi][0] in s.zones
    ensures size >= Limit(s) ==>
              (Malloc(s, size).0 == None <==> forall at :: !Fits(s.pages, at, Up(size, PAGE) / PAGE))
    ensures size < Limit(s) ==> size < 16384 && (forall a <- s.live :: a in s.zones)
    ensures size < Limit(s) ==>
              var zi := ZoneIndex(size).0;
              (Malloc(s, size).0 == None <==>
                && (forall a <- s.live :: s.zones[a].index == zi ==> |s.live[a]| == s.zones[a].nmax)
                && (forall a <- s.zones :: a in s.live)
                && forall at :: !Fits(s.pages, at, s.zpages))
  {
    hide Zoned, Paged, FromZone, FirstOf, ZoneIndex, Alloc, PageRuns.Fits;
    if size >= Limit(s) {
      UpIs(size, PAGE);
      LimitPositive(s);
      NoPagesIff(s, Up(size, PAGE) / PAGE, all);
    } else {
      ZoneIndexIs(size);
      ZpagesAre(s);
      ListEmptyIff(s, ZoneIndex(size).0);
      NoEmptyZoneIff(s);
      NoPagesIff(s, s.zpages, all);
    }
  }

  // ---------- used memory ----------

  ghost function Pick(f: map<int, int>): (k: int)
    requires f != map[]
    ensures k in f
  {
    HasKey(f);
    var k :| k in f.Keys; k
  }

  lemma HasKey(f: map<int, int>)
    ensures f == map[] || exists k :: k in f.Keys
  {
    if !exists k :: k in f.Keys { assert f == map[]; }
  }

  ghost function Sum(f: map<int, int>): int
    decreases |f|
  {
    if f == map[] then 0 else f[Pick(f)] + Sum(f - {Pick(f)})
  }

  lemma {:induction false} SumTake(f: map<int, int>, k: int)
    requires k in f
    ensures Sum(f) == f[k] + Sum(f - {k})
    decreases |f|
  {
    var j := Pick(f);
    if j != k {
      SumTake(f - {j}, k);
      SumTake(f - {k}, j);
      assert f - {j} - {k} == f - {k} - {j};
    }
  }

  /** What the zone or the large block at page `a` counts for. */
  function Charge(s: Slab, a: int): int {
    if a !in s.owned then 0
    else if a !in s.zones then s.owned[a] * PAGE
    else if a in s.live then |s.live[a]| * s.zones[a].size else 0
  }

  /** All live chunks and large blocks, by their sizes. */
  ghost function UsedBytes(s: Slab): int {
    Sum(map a | a in s.owned :: Charge(s, a))
  }

  lemma {:induction false} UsedChange(s: Slab, r: Slab, a: int)
    requires forall b | b != a :: (b in s.owned <==> b in r.owned) && Charge(s, b) == Charge(r, b)
    ensures UsedBytes(r) == UsedBytes(s) - Charge(s, a) + Charge(r, a)
  {
    hide Charge;
    var f, g := map b | b in s.owned :: Charge(s, b), map b | b in r.owned :: Charge(r, b);
    assert f - {a} == g - {a};
    if a in f { SumTake(f, a); } else { assert f - {a} == f; NoCharge(s, a); }
    if a in g { SumTake(g, a); } else { assert g - {a} == g; NoCharge(r, a); }
  }

  lemma NoCharge(s: Slab, a: int)
    requires a !in s.owned
    ensures Charge(s, a) == 0
  {
  }

  /** The bytes a request is given. */
  function GivenBytes(s: Slab, size: nat): nat {
    if size >= Limit(s) || size >= 16384 then Up(size, PAGE) else ChunkSize(ZoneIndex(size).0)
  }

  lemma {:induction false} OneMore(x: set<int>, i: int, size: int)
    requires i !in x
    ensures |x + {i}| * size == |x| * size + size
  {
    assert |x + {i}| == |x| + 1;
  }

  lemma {:induction false} FromZoneUsed(s: Slab, zi: nat, all: set<int>)
    requires Good(s, all) && zi < NZONES == |s.lists| && s.lists[zi] != [] && s.lists[zi][0] in s.zones
    ensures UsedBytes(FromZone(s, zi).1) == UsedBytes(s) + ChunkSize(zi)
  {
    hide UsedBytes, Listed, ZoneOk, NoTwice, PageRuns.Good;
    FromZoneGood(s, zi);
    HeadListed(s, zi);
    var a, r := s.lists[zi][0], FromZone(s, zi).1;
    var i := TakeChunk(s.zones[a]).1;
    OneMore(s.live[a], i, ChunkSize(zi));
    UsedChange(s, r, a);
  }

  lemma {:induction false} FirstOfUsed(s: Slab, m: Slab, zi: nat, a: int)
    requires zi < |s.lists| && ChunkSize(zi) > 0 && a !in s.live && Charge(s, a) == 0
    requires m.zones == s.zones && m.live == s.live && m.lists == s.lists
    requires m.owned == s.owned[a := m.zpages]
    ensures UsedBytes(FirstOf(m, zi, a).1) == UsedBytes(s) + ChunkSize(zi)
  {
    hide UsedBytes;
    var r := FirstOf(m, zi, a).1;
    OneMore({}, 0, ChunkSize(zi));
    assert {} + {0} == {0};
    UsedChange(s, r, a);
  }

  lemma {:induction false} SmallUsed(s: Slab, zi: nat, all: set<int>)
    requires Good(s, all) && zi < NZONES == |s.lists|
    requires (s.lists[zi] != [] ==> s.lists[zi][0] in s.zones) && ChunkSize(zi) > 0
    ensures var (p, r) := MallocSmall(s, zi); UsedBytes(r) == UsedBytes(s) + if p == None then 0 else ChunkSize(zi)
  {
    hide UsedBytes, Listed, ZoneOk, NoTwice, PageRuns.Good, FromZone, FirstOf, Alloc;
    if s.lists[zi] != [] {
      FromZoneUsed(s, zi, all);
    } else if s.zoneFree != [] {
      var a := s.zoneFree[0];
      assert a in s.zoneFree && a in s.owned;
      assert s.owned == s.owned[a := s.zpages];
      FirstOfUsed(s, s.(zoneFree := s.zoneFree[1..], cnt := s.cnt - 1), zi, a);
    } else {
      var (at, pages) := Alloc(s.pages, s.zpages);
      if at.Some? {
        NewPages(s, s.zpages, all);
        FirstOfUsed(s, s.(pages := pages, usage := SetSmall(s.usage, at.value, s.zpages), owned := s.owned[at.value := s.zpages]), zi, at.value);
      }
    }
  }

  lemma {:induction false} LargeUsed(s: Slab, n: int, all: set<int>)
    requires Good(s, all) && n > 0
    ensures var (p, r) := MallocLarge(s, n); UsedBytes(r) == UsedBytes(s) + if p == None then 0 else n * PAGE
  {
    hide UsedBytes, Zoned, PageRuns.Good, Alloc;
    var (at, pages) := Alloc(s.pages, n);
    if at.Some? {
      NewPages(s, n, all);
      UsedChange(s, MallocLarge(s, n).1, at.value);
    }
  }

  /** rt_malloc adds the size of what it hands out, and nothing if it fails. */
  lemma {:induction false} MallocUsed(s: Slab, size: nat, all: set<int>)
    requires Good(s, all)
    requires |s.lists| == NZONES && forall zi :: 0 <= zi < NZONES ==> s.lists[zi] != [] ==> s.lists[zi][0] in s.zones
    ensures var (p, r) := Malloc(s, size);
            UsedBytes(r) == UsedBytes(s) + if p == None then 0 else GivenBytes(s, size)
  {
    hide UsedBytes, Good, MallocSmall, MallocLarge, ZoneIndex;
    if size != 0 {
      if size >= Limit(s) {
        UpIs(size, PAGE);
        GoodZoned(s, all);
        LimitPositive(s);
        LargeUsed(s, Up(size, PAGE) / PAGE, all);
      } else {
        ZoneIndexIs(size);
        ChunkPositive(ZoneIndex(size).0);
        SmallUsed(s, ZoneIndex(size).0, all);
      }
    }
  }

  lemma GoodZoned(s: Slab, all: set<int>)
    requires Good(s, all)
    ensures Zoned(s)
  {
  }

  /** rt_free of a chunk takes off its size. */
  lemma {:induction false} FreeChunkUsed(s: Slab, a: int, i: int, all: set<int>)
    requires Good(s, all) && a in s.live && i in s.live[a] && a in s.zones && s.zones[a].index < |s.lists|
    ensures UsedBytes(FreeChunk(s, a, i)) == UsedBytes(s) - s.zones[a].size
  {
    hide UsedBytes, Listed, Shaped, NoTwice, PageRuns.Good, Free, Remove, SetUnused;
    var r := FreeChunk(s, a, i);
    OneMore(s.live[a] - {i}, i, s.zones[a].size);
    assert s.live[a] - {i} + {i} == s.live[a];
    LastChunk(s, a, i);
    if s.live[a] == {i} { assert s.live[a] - {i} == {}; }
    UsedChange(s, r, a);
  }

  /** And rt_free of a large block the size of its pages. */
  lemma {:induction false} FreeLargeUsed(s: Slab, a: int, all: set<int>)
    requires Good(s, all) && a in s.owned && a !in s.zones
    ensures UsedBytes(FreeLarge(s, a, s.owned[a])) == UsedBytes(s) - s.owned[a] * PAGE
  {
    hide UsedBytes, Zoned, PageRuns.Good, Free;
    UsedChange(s, FreeLarge(s, a, s.owned[a]), a);
  }

  /** Nothing is used if and only if no chunk is live and no large block owned. */
  lemma {:induction false} NothingUsedIff(s: Slab, all: set<int>)
    requires Good(s, all)
    ensures UsedBytes(s) >= 0
    ensures UsedBytes(s) == 0 <==> (forall a <- s.live :: s.live[a] == {}) && forall a <- s.owned :: a in s.zones
  {
    hide UsedBytes, Listed, NoTwice, PageRuns.Good, Charge;
    var f := map a | a in s.owned :: Charge(s, a);
    forall a <- s.owned ensures f[a] >= 0 && (f[a] == 0 <==> a in s.zones && (a in s.live ==> s.live[a] == {})) { ChargeSign(s, a, all); }
    SumSign(f);
    UsedIs(s);
  }

  lemma UsedIs(s: Slab)
    ensures UsedBytes(s) == Sum(map a | a in s.owned :: Charge(s, a))
  {
  }

  lemma {:induction false} ChargeSign(s: Slab, a: int, all: set<int>)
    requires Good(s, all) && a in s.owned
    ensures Charge(s, a) >= 0 && (Charge(s, a) == 0 <==> a in s.zones && (a in s.live ==> s.live[a] == {}))
  {
    hide Listed, NoTwice, PageRuns.Good, ZoneOk;
    PositiveSpan(s, a, all);
    if a in s.zones && a in s.live {
      var x, size := s.live[a], s.zones[a].size;
      assert size > 0;
      if x != {} { assert |x| > 0; assert |x| * size > 0; }
    }
  }

  lemma {:induction false} SumSign(f: map<int, int>)
    requires forall k <- f :: f[k] >= 0
    ensures Sum(f) >= 0 && (Sum(f) == 0 <==> forall k <- f :: f[k] == 0)
    decreases |f|
  {
    if f != map[] {
      SumSign(f - {Pick(f)});
      assert forall k <- f :: k == Pick(f) || k in f - {Pick(f)};
    }
  }

  // ---------- runs ----------

  datatype Call =
    | DoMalloc(size: nat)
    | DoFreeChunk(a: int, i: int) // rt_free of a live chunk's address
    | DoFreeLarge(a: int)         // rt_free of a large block's address

  function Step(s: Slab, c: Call): Slab {
    match c
    case DoMalloc(size) =>
      if |s.lists| == NZONES && (forall zi :: 0 <= zi < NZONES ==> s.lists[zi] != [] ==> s.lists[zi][0] in s.zones)
      then Malloc(s, size).1 else s
    case DoFreeChunk(a, i) => if a in s.live && i in s.live[a] then FreePtr(s, ChunkAt(s, a, i)) else s
    case DoFreeLarge(a) => if a in s.owned && a !in s.zones then FreePtr(s, a * PAGE) else s
  }

  function RunCalls(s: Slab, cs: seq<Call>): Slab
    decreases |cs|
  {
    if cs == [] then s else RunCalls(Step(s, cs[0]), cs[1..])
  }

  /** Over every run: each chunk of a zone is never used, given back or live; a
      zone is listed exactly when it has room and is in use; at most two empty
      zones are kept; zones, large blocks and free pages fill the heap; and
      every page of a zone leads back to it. */
  lemma {:induction false} RunGood(s: Slab, cs: seq<Call>, all: set<int>)
    requires Good(s, all)
    ensures Good(RunCalls(s, cs), all)
    decreases |cs|
  {
    hide Good, Malloc, FreePtr, FreeChunk, FreeLarge, Fresh;
    if cs != [] {
      match cs[0] {
        case DoMalloc(size) => MallocGood(s, size, all);
        case DoFreeChunk(a, i) => if a in s.live && i in s.live[a] { FreeGood(s, a, i, all); }
        case DoFreeLarge(a) => if a in s.owned && a !in s.zones { FreeLargeGood(s, a, all); }
      }
      RunGood(Step(s, cs[0]), cs[1..], all);
    }
  }
}
