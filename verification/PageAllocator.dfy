/**
  The page allocator of slab.c in place: each free run keeps its length and a
  link to the next run in its own first page.  Both operations are proved to be
  those of PageRuns.
*/
module PageAllocator {
  import opened PageRuns

  const NIL := -1

  /** The list that starts at page `h` spells `runs`. */
  ghost predicate Chain(runs: Runs, h: int, next: seq<int>, page: seq<int>) {
    if runs == [] then h == NIL else
      && h == runs[0].at && 0 <= h < |next| && |page| == |next| && h + runs[0].len <= |next|
      && page[h] == runs[0].len
      && Chain(runs[1..], next[h], next, page)
  }

  function Head(runs: Runs): int {
    if runs == [] then NIL else runs[0].at
  }

  /** `d` runs at place `i` replaced by `mid`. */
  function Splice(runs: Runs, i: nat, d: nat, mid: Runs): Runs
    requires i + d <= |runs|
  {
    if i == 0 then mid + runs[d..] else [runs[0]] + Splice(runs[1..], i - 1, d, mid)
  }

  /** Cells from `lo` on are all that matters to a list that starts there. */
  lemma {:induction false} ChainFrame(runs: Runs, lo: int, h: int, next: seq<int>, page: seq<int>, next1: seq<int>, page1: seq<int>)
    requires Canonical(runs) && Chain(runs, h, next, page) && |next1| == |next| && |page1| == |page|
    requires runs != [] ==> runs[0].at >= lo
    requires lo >= 0 && forall x :: lo <= x < |next| && x < |page| ==> next1[x] == next[x] && page1[x] == page[x]
    ensures Chain(runs, h, next1, page1)
  {
    if runs != [] {
      ChainFrame(runs[1..], lo, next[h], next, page, next1, page1);
    }
  }

  /** What the method changed: the header of `mid`, and the link at `p` in
      front of it. */
  ghost predicate Changed(next: seq<int>, page: seq<int>, next1: seq<int>, page1: seq<int>, p: int, m: int) {
    && |next1| == |next| == |page| == |page1|
    && (forall x :: 0 <= x < |next| && x != m ==> page1[x] == page[x])
    && (forall x :: 0 <= x < |next| && x != m && x != p ==> next1[x] == next[x])
  }

  /** Replacing runs at place `i > 0` by at most one needs its header, and the
      link in front of it. */
  lemma {:induction false} ChainSplice(runs: Runs, i: nat, d: nat, mid: Runs, h: int, next: seq<int>, page: seq<int>, next1: seq<int>, page1: seq<int>, m: int)
    requires 0 < i && i + d <= |runs|
    requires Chain(runs, h, next, page) && Canonical(runs)
    requires Changed(next, page, next1, page1, runs[i - 1].at, m) && m >= runs[i - 1].at
    requires m == runs[i - 1].at ==> 0 <= m < |page| && page1[m] == page[m]
    requires 0 <= runs[i - 1].at < |next| && next1[runs[i - 1].at] == Head(mid + runs[i + d..])
    requires Chain(mid + runs[i + d..], Head(mid + runs[i + d..]), next1, page1)
    ensures Chain(Splice(runs, i, d, mid), h, next1, page1)
    decreases i
  {
    hide Changed, Canonical;
    var rest, tail := runs[1..], mid + runs[i + d..];
    assert rest[i - 1 + d..] == runs[i + d..];
    var r := Splice(rest, i - 1, d, mid);
    assert ([runs[0]] + r)[0] == runs[0] && ([runs[0]] + r)[1..] == r;
    if i > 1 {
      HeadBelow(runs, i - 1);
      HeadBelow(runs, 0);
      Unchanged(next, page, next1, page1, runs[i - 1].at, m, h);
      CanonicalRest(runs);
      ChainSplice(rest, i - 1, d, mid, next[h], next, page, next1, page1, m);
    } else {
      Unchanged(next, page, next1, page1, h, m, h);
      assert r == tail;
    }
  }

  lemma Unchanged(next: seq<int>, page: seq<int>, next1: seq<int>, page1: seq<int>, p: int, m: int, x: int)
    requires Changed(next, page, next1, page1, p, m) && 0 <= x < |next|
    ensures |next1| == |next| == |page| == |page1|
    ensures x != m ==> page1[x] == page[x]
    ensures x != m && x != p ==> next1[x] == next[x]
  {
  }

  lemma CanonicalRest(runs: Runs)
    requires Canonical(runs) && runs != []
    ensures Canonical(runs[1..])
  {
  }

  lemma {:induction false} HeadBelow(runs: Runs, k: nat)
    requires Canonical(runs) && k < |runs|
    ensures runs[k].len > 0 && (k > 0 ==> runs[0].at + runs[0].len < runs[k].at)
  {
    if k > 0 { HeadBelow(runs[1..], k - 1); }
  }

  lemma {:induction false} TailCanonical(runs: Runs, i: nat)
    requires Canonical(runs) && i <= |runs|
    ensures Canonical(runs[i..])
  {
    if i > 0 {
      TailCanonical(runs[1..], i - 1);
      assert runs[1..][i - 1..] == runs[i..];
    } else {
      assert runs[0..] == runs;
    }
  }

  lemma {:induction false} ChainTail(runs: Runs, i: nat, h: int, next: seq<int>, page: seq<int>)
    requires Chain(runs, h, next, page) && i <= |runs|
    ensures Chain(runs[i..], Head(runs[i..]), next, page)
    ensures i < |runs| ==> 0 <= runs[i].at < |next| == |page|
  {
    if i > 0 {
      ChainTail(runs[1..], i - 1, next[h], next, page);
      assert runs[1..][i - 1..] == runs[i..];
    } else {
      assert runs[0..] == runs;
    }
  }

  // ---------- what the search loops find ----------

  /** The run an allocation that fits exactly or too well leaves. */
  function Remainder(b: Run, n: int): Runs {
    if b.len > n then [Run(b.at + n, b.len - n)] else []
  }

  lemma {:induction false} AllocAt(runs: Runs, n: int, i: nat)
    requires i < |runs| && runs[i].len >= n && forall k :: 0 <= k < i ==> runs[k].len < n
    ensures Alloc(runs, n) == (Some(runs[i].at), Splice(runs, i, 1, Remainder(runs[i], n)))
  {
    if i > 0 {
      var rest := runs[1..];
      assert forall k :: 0 <= k < i - 1 ==> rest[k] == runs[k + 1];
      AllocAt(rest, n, i - 1);
      assert runs[0].len < n;
    } else {
      assert [] + runs[1..] == runs[1..];
    }
  }

  lemma {:induction false} AllocNone(runs: Runs, n: int)
    requires forall k :: 0 <= k < |runs| ==> runs[k].len < n
    ensures Alloc(runs, n) == (None, runs)
  {
    if runs != [] {
      var rest := runs[1..];
      assert forall k :: 0 <= k < |rest| ==> rest[k] == runs[k + 1];
      AllocNone(rest, n);
      assert runs[0].len < n;
      assert [runs[0]] + rest == runs;
    }
  }

  predicate Skips(b: Run, at: int, n: int) {
    b.at + b.len != at && b.at < at + n
  }

  /** How many runs a release replaces where its search stops, and by what. */
  function Joined(rest: Runs, at: int, n: int): (nat, Run) {
    if rest == [] then (0, Run(at, n)) else
      var b := rest[0];
      if b.at + b.len == at then
        if |rest| > 1 && at + n == rest[1].at then (2, Run(b.at, b.len + n + rest[1].len)) else (1, Run(b.at, b.len + n))
      else if b.at == at + n then (1, Run(at, n + b.len))
      else (0, Run(at, n))
  }

  lemma {:induction false} FreeHere(rest: Runs, at: int, n: int)
    requires rest != [] ==> !Skips(rest[0], at, n)
    ensures Joined(rest, at, n).0 <= |rest|
    ensures Free(rest, at, n) == [Joined(rest, at, n).1] + rest[Joined(rest, at, n).0..]
  {
    assert rest[0..] == rest;
    if |rest| > 1 { assert rest[1..][0] == rest[1] && rest[1..][1..] == rest[2..]; }
  }

  lemma {:induction false} FreeAt(runs: Runs, at: int, n: int, i: nat)
    requires i <= |runs| && forall k :: 0 <= k < i ==> Skips(runs[k], at, n)
    requires i < |runs| ==> !Skips(runs[i], at, n)
    ensures Joined(runs[i..], at, n).0 <= |runs| - i
    ensures Free(runs, at, n) == Splice(runs, i, Joined(runs[i..], at, n).0, [Joined(runs[i..], at, n).1])
  {
    hide Joined;
    if i > 0 {
      var rest := runs[1..];
      assert forall k :: 0 <= k < i - 1 ==> rest[k] == runs[k + 1];
      FreeAt(rest, at, n, i - 1);
      assert rest[i - 1..] == runs[i..];
      assert Skips(runs[0], at, n);
    } else {
      assert runs[0..] == runs;
      FreeHere(runs, at, n);
    }
  }

  // ---------- the heap ----------

  class PageHeap {
    const next: array<int> // rt_page_head.next, by page number
    const page: array<int> // rt_page_head.page
    var list: int          // rt_page_list
    ghost var runs: Runs

    ghost predicate Valid()
      reads this, next, page
    {
      && next != page && next.Length == page.Length
      && Canonical(runs) && Chain(runs, list, next[..], page[..])
    }

    /** rt_page_init over the whole heap. */
    constructor (npages: nat)
      requires npages > 0
      ensures Valid() && runs == [Run(0, npages)] && next.Length == npages
      ensures fresh(next) && fresh(page)
    {
      next, page := new int[npages], new int[npages];
      list, runs := 0, [Run(0, npages)];
      new;
      next[0], page[0] := NIL, npages;
    }

    /** *prev := to, where `prev` is the list head or the link in a run. */
    method SetLink(prev: int, to: int)
      requires prev == NIL || 0 <= prev < next.Length
      modifies this`list, next
      ensures prev == NIL ==> list == to && next[..] == old(next[..])
      ensures prev != NIL ==> list == old(list) && next[..] == old(next[..])[prev := to]
    {
      if prev == NIL { list := to; } else { next[prev] := to; }
    }

    /** rt_page_alloc: NIL for no pages at all, or when no run is long enough. */
    method AllocPages(npages: nat) returns (b: int)
      requires Valid()
      modifies this, next, page
      ensures Valid()
      ensures npages == 0 ==> b == NIL && runs == old(runs)
      ensures npages > 0 ==> runs == Alloc(old(runs), npages).1
      ensures npages > 0 ==> b == match Alloc(old(runs), npages).0 case Some(at) => at case None => NIL
    {
      hide Canonical, Alloc, Splice, Chain;
      if npages == 0 {
        return NIL;
      }
      var prev := NIL;
      b := list;
      ghost var i := 0;
      Node(0);
      while b != NIL
        invariant Valid() && runs == old(runs)
        invariant i <= |runs| && b == Head(runs[i..]) && prev == (if i == 0 then NIL else runs[i - 1].at)
        invariant forall k :: 0 <= k < i ==> runs[k].len < npages
        decreases |runs| - i
      {
        Node(i);
        Node(i + 1);
        if page[b] >= npages {
          AllocAt(runs, npages, i);
          AllocTakes(runs, npages);
          Carve(i, b, prev, npages);
          return;
        }
        prev := b;
        b := next[b];
        i := i + 1;
      }
      Node(i);
      AllocNone(runs, npages);
    }

    /** rt_page_free of pages that are not free. */
    method FreePages(n: int, npages: nat)
      requires Valid() && npages > 0 && 0 <= n && n + npages <= next.Length
      requires Span(n, npages) !! Pages(runs)
      modifies this, next, page
      ensures Valid() && runs == Free(old(runs), n, npages)
    {
      hide Canonical, Free, Splice, Chain, Joined, Span, Pages;
      FreeJoins(runs, n, npages);
      var prev := NIL;
      var b := list;
      ghost var i := 0;
      Node(0);
      while b != NIL
        invariant Valid() && runs == old(runs)
        invariant i <= |runs| && b == Head(runs[i..]) && prev == (if i == 0 then NIL else runs[i - 1].at)
        invariant forall k :: 0 <= k < i ==> Skips(runs[k], n, npages)
        decreases |runs| - i
      {
        Node(i);
        Node(i + 1);
        if b + page[b] == n {
          FreeAt(runs, n, npages, i);
          Extend(i, b, n, npages);
          return;
        }
        if b == n + npages {
          FreeAt(runs, n, npages, i);
          Prepend(i, b, prev, n, npages);
          return;
        }
        if b > n + npages {
          break;
        }
        prev := b;
        b := next[b];
        i := i + 1;
      }
      Node(i);
      FreeAt(runs, n, npages, i);
      Place(i, b, prev, n, npages);
    }

    /** What a release puts at place `i`. */
    ghost predicate Releases(was: Runs, i: nat, n: int, npages: int) {
      && i <= |was| && npages > 0 && 0 <= n && n + npages <= next.Length
      && Span(n, npages) !! Pages(was)
      && (forall k :: 0 <= k < i ==> Skips(was[k], n, npages))
      && Joined(was[i..], n, npages).0 <= |was| - i
      && Canonical(Splice(was, i, Joined(was[i..], n, npages).0, [Joined(was[i..], n, npages).1]))
    }

    /** The pages follow run `b`, and perhaps lead up to the one after it. */
    method Extend(ghost i: nat, b: int, n: int, npages: nat)
      requires Valid() && Releases(runs, i, n, npages)
      requires i < |runs| && b == runs[i].at && b + runs[i].len == n
      modifies this, next, page
      ensures Valid() && runs == Splice(old(runs), i, Joined(old(runs)[i..], n, npages).0, [Joined(old(runs)[i..], n, npages).1])
    {
      hide Canonical, Splice, Chain, Span, Pages;
      ghost var was, list0, next0, page0 := runs, list, next[..], page[..];
      ghost var (d, m) := Joined(runs[i..], n, npages);
      Node(i);
      Node(i + 1);
      if i > 0 { Node(i - 1); }
      assert i + 1 < |was| ==> was[i..][1] == was[i + 1];
      page[b] := page[b] + npages;
      if b + page[b] == next[b] {
        page[b] := page[b] + page[next[b]];
        next[b] := next[next[b]];
      }
      Front(was, i, d, m);
      Spliced(was, i, d, [m], list0, next0, page0, if i == 0 then NIL else was[i - 1].at, b);
      runs := Splice(was, i, d, [m]);
    }

    /** The pages lead up to run `b`. */
    method Prepend(ghost i: nat, b: int, prev: int, n: int, npages: nat)
      requires Valid() && Releases(runs, i, n, npages)
      requires i < |runs| && b == runs[i].at && b == n + npages
      requires prev == (if i == 0 then NIL else runs[i - 1].at)
      modifies this, next, page
      ensures Valid() && runs == Splice(old(runs), i, Joined(old(runs)[i..], n, npages).0, [Joined(old(runs)[i..], n, npages).1])
    {
      hide Canonical, Splice, Chain, Span, Pages;
      ghost var was, list0, next0, page0 := runs, list, next[..], page[..];
      ghost var (d, m) := Joined(runs[i..], n, npages);
      Node(i);
      Node(i + 1);
      if i > 0 { Beside(was, i - 1, n, npages); Node(i - 1); }
      page[n] := page[b] + npages;
      next[n] := next[b];
      SetLink(prev, n);
      Front(was, i, d, m);
      Spliced(was, i, d, [m], list0, next0, page0, prev, n);
      runs := Splice(was, i, d, [m]);
    }

    /** The pages touch no run: a run of their own. */
    method Place(ghost i: nat, b: int, prev: int, n: int, npages: nat)
      requires Valid() && Releases(runs, i, n, npages)
      requires b == Head(runs[i..]) && (i < |runs| ==> b > n + npages && !Skips(runs[i], n, npages) && b + runs[i].len != n)
      requires prev == (if i == 0 then NIL else runs[i - 1].at)
      modifies this, next, page
      ensures Valid() && runs == Splice(old(runs), i, Joined(old(runs)[i..], n, npages).0, [Joined(old(runs)[i..], n, npages).1])
    {
      hide Canonical, Splice, Chain, Span, Pages;
      ghost var was, list0, next0, page0 := runs, list, next[..], page[..];
      ghost var (d, m) := Joined(runs[i..], n, npages);
      Node(i);
      if i > 0 { Beside(was, i - 1, n, npages); Node(i - 1); }
      page[n] := npages;
      next[n] := b;
      SetLink(prev, n);
      Front(was, i, d, m);
      Spliced(was, i, d, [m], list0, next0, page0, prev, n);
      runs := Splice(was, i, d, [m]);
    }

    lemma Front(was: Runs, i: nat, d: nat, m: Run)
      requires i + d <= |was|
      ensures Head([m] + was[i + d..]) == m.at
    {
    }

    /** A run lies on one side of pages that are not free. */
    lemma {:induction false} Beside(rs: Runs, k: nat, n: int, npages: int)
      requires Canonical(rs) && k < |rs| && npages > 0 && Span(n, npages) !! Pages(rs)
      ensures rs[k].at + rs[k].len <= n || rs[k].at >= n + npages
    {
      if k > 0 {
        Beside(rs[1..], k - 1, n, npages);
      } else {
        var a := rs[0].at;
        assert a in Pages(rs);
        assert n in Span(n, npages);
        assert n <= a < n + npages ==> a in Span(n, npages);
      }
    }

    /** Run `i` starts where the search stands. */
    lemma Node(i: nat)
      requires Valid()
      ensures i < |runs| ==> var b := runs[i]; 0 <= b.at < next.Length && page[b.at] == b.len && runs[i..] != [] && Head(runs[i..]) == b.at
      ensures i < |runs| ==> next[runs[i].at] == Head(runs[i + 1..])
      ensures i < |runs| ==> runs[i].at + runs[i].len <= next.Length && runs[i].len > 0
      ensures i + 1 < |runs| ==> runs[i].at + runs[i].len < runs[i + 1].at
      ensures i > |runs| || (i == |runs| <==> (i <= |runs| && Head(runs[i..]) == NIL))
      ensures i == 0 ==> list == Head(runs[i..])
    {
      if i < |runs| {
        ChainTail(runs, i, list, next[..], page[..]);
        ChainTail(runs, i + 1, list, next[..], page[..]);
        Order1(runs, i);
        assert runs[i..][1..] == runs[i + 1..];
      }
      assert i == 0 ==> runs[i..] == runs;
    }

    lemma {:induction false} Order1(rs: Runs, i: nat)
      requires Canonical(rs) && i < |rs|
      ensures rs[i].len > 0 && (i + 1 < |rs| ==> rs[i].at + rs[i].len < rs[i + 1].at)
    {
      if i > 0 { Order1(rs[1..], i - 1); }
    }

    /** `npages` from the front of a run that has them. */
    method Carve(ghost i: nat, b: int, prev: int, npages: nat)
      requires Valid() && npages > 0 && i < |runs| && b == runs[i].at && runs[i].len >= npages
      requires prev == (if i == 0 then NIL else runs[i - 1].at)
      requires Canonical(Splice(runs, i, 1, Remainder(runs[i], npages)))
      modifies this, next, page
      ensures Valid() && runs == Splice(old(runs), i, 1, Remainder(old(runs)[i], npages))
    {
      hide Canonical, Alloc, Splice, Chain;
      ghost var was, list0, next0, page0 := runs, list, next[..], page[..];
      Node(i);
      Node(i + 1);
      if i > 0 { Node(i - 1); }
      if page[b] > npages {
        var n := b + npages;
        next[n] := next[b];
        page[n] := page[b] - npages;
        SetLink(prev, n);
        Spliced(was, i, 1, [Run(n, was[i].len - npages)], list0, next0, page0, prev, n);
      } else {
        SetLink(prev, next[b]);
        Spliced(was, i, 1, [], list0, next0, page0, prev, prev);
      }
      runs := Splice(was, i, 1, Remainder(was[i], npages));
    }

    /** Once `mid` has its header and the link to its place leads to it, the
        whole list is the spliced one.  `p` is the run in front, or NIL. */
    lemma {:induction false} Spliced(was: Runs, i: nat, d: nat, mid: Runs, h: int, next0: seq<int>, page0: seq<int>, p: int, m: int)
      requires i + d <= |was| && next.Length == page.Length
      requires Chain(was, h, next0, page0) && Canonical(was)
      requires p == (if i == 0 then NIL else was[i - 1].at)
      requires Changed(next0, page0, next[..], page[..], p, m)
      requires if mid == [] then m == p && page[..] == page0
               else |mid| == 1 && m == mid[0].at && p < m && 0 <= m < next.Length && m + mid[0].len <= next.Length
                    && page[m] == mid[0].len && next[m] == Head(was[i + d..])
      requires i + d < |was| ==> m < was[i + d].at
      requires if i == 0 then list == Head(mid + was[d..])
               else list == h && 0 <= p < next.Length && next[p] == Head(mid + was[i + d..])
      ensures Chain(Splice(was, i, d, mid), list, next[..], page[..])
    {
      var rest := was[i + d..];
      ChainTail(was, i + d, h, next0, page0);
      TailCanonical(was, i + d);
      ChainFrame(rest, m + 1, Head(rest), next0, page0, next[..], page[..]);
      var r := mid + rest;
      if mid == [] { assert r == rest; } else { assert r[1..] == rest; }
      if i > 0 { ChainSplice(was, i, d, mid, h, next0, page0, next[..], page[..], m); }
    }
  }
}
