/** PagePool: hands out runs of pages from sets of NUM_PAGES pages, takes them back,
    and drops the sets nobody uses. */
module PagePool {
  import opened Addresses
  import opened Common
  import opened PageRegions

  class PageSet {
    /** free_regions */
    var free: seq<Region>
    /** What has been handed out and not yet returned. */
    ghost var live: seq<Region>

    /** Free and handed-out regions together cover each page of the set exactly once. */
    ghost predicate Valid()
      reads this
    {
      NonEmpty(free) && NonEmpty(live) && Partition(free, live)
    }

    ghost predicate SameFreePages(s: seq<Region>)
      reads this
    {
      forall p: nat :: Cover(free, p) == Cover(s, p)
    }

    constructor ()
      ensures Valid() && free == [Region(0, NUM_PAGES)] && live == []
    {
      free := [Region(0, NUM_PAGES)];
      live := [];
      forall p: nat ensures Cover([Region(0, NUM_PAGES)], p) == if p < NUM_PAGES then 1 else 0 {
        CoverOne(Region(0, NUM_PAGES), p);
      }
    }

    /** One pass of the merging loop: merges the first neighbours that touch. */
    method CoalesceOnce() returns (changed: bool)
      requires Valid() && Ordered(free) && free != []
      modifies this`free
      ensures Valid() && Ordered(free) && free != [] && SameFreePages(old(free))
      ensures changed ==> |free| < |old(free)|
      ensures !changed ==> free == old(free) && Gapped(free)
    {
      changed := false;
      var i := 0;
      while i != |free| - 1
        invariant 0 <= i <= |free| - 1 && free == old(free)
        invariant forall k :: 0 <= k < i ==> free[k].start + free[k].num != free[k + 1].start
      {
        if free[i].start + free[i].num == free[i + 1].start {
          forall p: nat ensures Cover(Joined(free, i), p) == Cover(free, p) {
            JoinedCovers(free, i, p);
          }
          JoinedOrdered(free, i);
          free := Joined(free, i);
          changed := true;
          return;
        }
        i := i + 1;
      }
      NeighboursApart(free);
    }

    /** The free pages stay the same; the regions end up sorted with gaps between them. */
    method Coalesce()
      requires Valid()
      modifies this`free
      ensures Valid() && SameFreePages(old(free)) && Gapped(free)
    {
      hide Cover, SortRegions;
      if |free| < 2 {
        return;
      }
      SortKeeps(free);
      NonEmptyRearranged(free, SortRegions(free));
      forall p: nat ensures Cover(SortRegions(free), p) == Cover(free, p) {
        CoverRearranged(SortRegions(free), free, p);
      }
      free := SortRegions(free);
      var changed := CoalesceOnce();
      while changed
        invariant Valid() && Ordered(free) && free != [] && SameFreePages(old(free))
        invariant !changed ==> Gapped(free)
        decreases |free|, changed
      {
        changed := CoalesceOnce();
      }
    }

    /** Exact when it may coalesce: true just when n free pages lie side by side. */
    method CanAllocate(n: int, canCoalesce: bool) returns (ok: bool)
      requires Valid()
      modifies this`free
      ensures Valid() && SameFreePages(old(free)) && (!canCoalesce ==> free == old(free))
      ensures ok ==> Fits(free, n)
      ensures !canCoalesce && n <= NUM_PAGES ==> (ok <==> Fits(free, n))
      ensures canCoalesce && n > 0 ==> (ok <==> exists start: nat :: AllCovered(old(free), start, n))
      decreases canCoalesce
    {
      if n > NUM_PAGES {
        forall start: nat ensures !AllCovered(free, start, n) {
          TooMany(free, live, start, n);
        }
        return false;
      }
      if free == [] {
        NothingFree(n);
        return false;
      }
      var i := 0;
      while i < |free|
        invariant 0 <= i <= |free|
        invariant forall k :: 0 <= k < i ==> free[k].num < n
      {
        if free[i].num >= n {
          if n > 0 {
            RegionAllCovered(free, i, n);
          }
          return true;
        }
        i := i + 1;
      }
      if canCoalesce {
        Coalesce();
        ok := CanAllocate(n, false);
        if n > 0 {
          CoalescedExact(free, n);
          SameAllCovered(free, old(free), n);
        }
        return;
      }
      return false;
    }

    /** First fit. A region is taken from its front, and dropped when used up. */
    method Get(n: nat, canCoalesce: bool) returns (data: Option<nat>)
      requires Valid() && 0 < n <= NUM_PAGES && free != []
      modifies this
      ensures Valid()
      ensures data.Some? ==> live == old(live) + [Region(data.value, n)] && data.value + n <= NUM_PAGES
      ensures data.Some? ==> AllCovered(old(free), data.value, n)
      ensures data.None? ==> live == old(live) && SameFreePages(old(free))
      ensures data.None? && canCoalesce ==> forall start: nat :: !AllCovered(old(free), start, n)
      ensures !canCoalesce ==> (data.Some? <==> Fits(old(free), n))
      ensures !canCoalesce && data.Some? ==> exists k: nat :: FirstFit(old(free), k, n) && data.value == old(free)[k].start
      decreases canCoalesce
    {
      var i := 0;
      while i < |free|
        invariant 0 <= i <= |free|
        invariant forall k :: 0 <= k < i ==> free[k].num < n
      {
        if free[i].num >= n {
          data := Some(free[i].start);
          assert FirstFit(free, i, n);
          Take(i, n);
          return;
        }
        i := i + 1;
      }
      if canCoalesce {
        Coalesce();
        ghost var merged := free;
        CoalescedExact(free, n);
        SameAllCovered(free, old(free), n);
        CoalescedNotEmpty(old(free), free);
        data := Get(n, false);
        if data.Some? {
          SameRange(merged, old(free), data.value, n);
        }
        return;
      }
      data := None;
    }

    /** Removing n pages from the front of region i, and handing them out. */
    method Take(i: nat, n: nat)
      requires Valid() && i < |free| && 0 < n <= free[i].num
      modifies this
      ensures Valid() && live == old(live) + [Region(old(free)[i].start, n)]
      ensures old(free)[i].start + n <= NUM_PAGES && AllCovered(old(free), old(free)[i].start, n)
    {
      ghost var r, was := free[i], free;
      RegionAllCovered(free, i, n);
      RegionInside(free, live, i);
      var rest := Region(free[i].start + n, free[i].num - n);
      free := free[i := rest];
      live := live + [Region(r.start, n)];
      if rest.num == 0 {
        free := Without(free, i);
      }
      forall p: nat ensures Cover(free, p) + Cover(live, p) == if p < NUM_PAGES then 1 else 0 {
        CoverReplaced(was, i, rest, p);
        CoverAt(was[i := rest], i, p);
        CoverConcat(old(live), [Region(r.start, n)], p);
        CoverOne(Region(r.start, n), p);
      }
    }

    /** The k-th handed-out region comes back, and becomes a free region of its own. */
    method Return(ptr: nat, n: nat, ghost k: nat)
      requires Valid() && k < |live| && live[k] == Region(ptr, n)
      modifies this
      ensures Valid() && live == Without(old(live), k) && free == old(free) + [Region(ptr, n)]
    {
      ghost var was := live;
      free := free + [Region(ptr, n)];
      live := Without(live, k);
      forall p: nat ensures Cover(free, p) + Cover(live, p) == if p < NUM_PAGES then 1 else 0 {
        CoverConcat(old(free), [Region(ptr, n)], p);
        CoverOne(Region(ptr, n), p);
        CoverAt(was, k, p);
      }
    }

    predicate Empty()
      reads this
    {
      |free| == 1 && free[0].num == NUM_PAGES
    }

    lemma NothingFree(n: int)
      requires Valid() && free == []
      ensures forall start: nat :: n > 0 ==> !AllCovered(free, start, n)
    {
      forall start: nat | n > 0 ensures !AllCovered(free, start, n) {
        assert Cover(free, start) == 0;
      }
    }

    /** After coalescing, Empty says exactly that nothing is handed out. */
    lemma EmptyExact()
      requires Valid() && Gapped(free)
      ensures Empty() <==> live == []
    {
      if live == [] {
        assert AllCovered(free, 0, NUM_PAGES);
        var k := ContiguousInOne(free, 0, NUM_PAGES);
        RegionInside(free, live, k);
        OnlyRegion(free, live, k);
      } else if Empty() {
        RegionInside(free, live, 0);
        var p := live[0].start;
        LiveInside(free, live, 0);
        RegionCovered(live, 0, p);
        RegionCovered(free, 0, p);
        assert false;
      }
    }
  }

  ghost predicate Fits(s: seq<Region>, n: int) {
    exists k :: 0 <= k < |s| && s[k].num >= n
  }

  ghost predicate FirstFit(s: seq<Region>, k: nat, n: nat) {
    k < |s| && s[k].num >= n && forall j :: 0 <= j < k ==> s[j].num < n
  }

  // ----- Facts about a set's regions -----

  ghost predicate Partition(free: seq<Region>, live: seq<Region>) {
    forall p: nat :: Cover(free, p) + Cover(live, p) == if p < NUM_PAGES then 1 else 0
  }

  lemma RegionInside(free: seq<Region>, live: seq<Region>, k: nat)
    requires Partition(free, live) && k < |free| && free[k].num > 0
    ensures free[k].start + free[k].num <= NUM_PAGES
  {
    RegionCovered(free, k, free[k].start + free[k].num - 1);
  }

  lemma LiveInside(free: seq<Region>, live: seq<Region>, k: nat)
    requires Partition(free, live) && k < |live| && live[k].num > 0
    ensures live[k].start + live[k].num <= NUM_PAGES
  {
    RegionCovered(live, k, live[k].start + live[k].num - 1);
  }

  /** A region that is the whole set is the only one. */
  lemma OnlyRegion(free: seq<Region>, live: seq<Region>, k: nat)
    requires Partition(free, live) && NonEmpty(free) && k < |free|
    requires free[k].start == 0 && free[k].num == NUM_PAGES
    ensures |free| == 1
  {
    if |free| > 1 {
      var j := if k == 0 then 1 else 0;
      RegionInside(free, live, j);
      CoverOnce(free, if j < k then j else k, if j < k then k else j, free[j].start);
    }
  }

  lemma RegionAllCovered(s: seq<Region>, k: nat, n: nat)
    requires k < |s| && 0 < n <= s[k].num
    ensures AllCovered(s, s[k].start, n)
  {
    forall p | s[k].start <= p < s[k].start + n ensures Cover(s, p) > 0 {
      RegionCovered(s, k, p);
    }
  }

  lemma TooMany(free: seq<Region>, live: seq<Region>, start: nat, n: nat)
    requires Partition(free, live) && n > NUM_PAGES
    ensures !AllCovered(free, start, n)
  {
    assert Cover(free, start + n - 1) == 0;
  }

  /** In a coalesced list a run of n free pages exists just when some region has n pages. */
  lemma CoalescedExact(s: seq<Region>, n: nat)
    requires Gapped(s) && n > 0
    ensures Fits(s, n) <==> (exists start: nat :: AllCovered(s, start, n))
  {
    forall k: nat | k < |s| && s[k].num >= n ensures AllCovered(s, s[k].start, n) {
      RegionAllCovered(s, k, n);
    }
    forall start: nat | AllCovered(s, start, n) ensures Fits(s, n) {
      var k := ContiguousInOne(s, start, n);
    }
  }

  lemma SameRange(s: seq<Region>, t: seq<Region>, start: nat, n: nat)
    requires forall p: nat :: Cover(s, p) == Cover(t, p)
    ensures AllCovered(s, start, n) <==> AllCovered(t, start, n)
  {
  }

  lemma SameAllCovered(s: seq<Region>, t: seq<Region>, n: nat)
    requires forall p: nat :: Cover(s, p) == Cover(t, p)
    ensures (exists start: nat :: AllCovered(s, start, n)) <==> (exists start: nat :: AllCovered(t, start, n))
  {
    forall start: nat ensures AllCovered(s, start, n) <==> AllCovered(t, start, n) {
      SameRange(s, t, start, n);
    }
  }

  lemma CoalescedNotEmpty(s: seq<Region>, t: seq<Region>)
    requires s != [] && NonEmpty(s) && forall p: nat :: Cover(s, p) == Cover(t, p)
    ensures t != []
  {
    RegionCovered(s, 0, s[0].start);
    assert Cover(t, s[0].start) > 0;
  }

  // ----- The pool -----

  class PageReference {
    const parent: PageSet
    /** The first page, counted from the start of the set. */
    const data: nat
    const numPages: nat

    constructor (parent: PageSet, data: nat, numPages: nat)
      ensures this.parent == parent && this.data == data && this.numPages == numPages
    {
      this.parent, this.data, this.numPages := parent, data, numPages;
    }
  }

  /** The pages that the references hold in one set, oldest reference first. */
  ghost function Held(refs: seq<PageReference>, s: PageSet): (r: seq<Region>) {
    if refs == [] then [] else
      var last := refs[|refs| - 1];
      Held(refs[..|refs| - 1], s) + if last.parent == s then [Region(last.data, last.numPages)] else []
  }

  ghost function Forgotten(refs: seq<PageReference>, k: nat): (r: seq<PageReference>)
    requires k < |refs|
  {
    refs[..k] + refs[k + 1..]
  }

  lemma {:induction false} HeldConcat(a: seq<PageReference>, b: seq<PageReference>, s: PageSet)
    ensures Held(a + b, s) == Held(a, s) + Held(b, s)
    decreases |b|
  {
    if b == [] {
      assert a + b == a;
    } else {
      HeldConcat(a, b[..|b| - 1], s);
      assert (a + b)[..|a + b| - 1] == a + b[..|b| - 1];
    }
  }

  lemma HeldOne(r: PageReference, s: PageSet)
    ensures Held([r], s) == if r.parent == s then [Region(r.data, r.numPages)] else []
  {
    assert [r][..0] == [];
  }

  /** Dropping reference k takes its region, and no other, out of its set. */
  lemma HeldForgotten(refs: seq<PageReference>, k: nat, s: PageSet)
    requires k < |refs|
    ensures var i := |Held(refs[..k], s)|;
      if refs[k].parent == s then
        i < |Held(refs, s)| && Held(refs, s)[i] == Region(refs[k].data, refs[k].numPages)
        && Held(Forgotten(refs, k), s) == Without(Held(refs, s), i)
      else Held(Forgotten(refs, k), s) == Held(refs, s)
  {
    assert refs == refs[..k] + [refs[k]] + refs[k + 1..];
    HeldConcat(refs[..k] + [refs[k]], refs[k + 1..], s);
    HeldConcat(refs[..k], [refs[k]], s);
    HeldConcat(refs[..k], refs[k + 1..], s);
    HeldOne(refs[k], s);
  }

  lemma ForgottenParents(refs: seq<PageReference>, k: nat)
    requires k < |refs|
    ensures forall i :: 0 <= i < |Forgotten(refs, k)| ==> Forgotten(refs, k)[i] in refs
  {
  }

  /** Two references into one set hold two of its handed-out regions. */
  lemma HeldTwo(refs: seq<PageReference>, i: nat, j: nat, s: PageSet) returns (a: nat, b: nat)
    requires i < j < |refs| && refs[i].parent == refs[j].parent == s
    ensures a < b < |Held(refs, s)|
    ensures Held(refs, s)[a] == Region(refs[i].data, refs[i].numPages)
    ensures Held(refs, s)[b] == Region(refs[j].data, refs[j].numPages)
  {
    HeldForgotten(refs, j, s);
    HeldForgotten(refs[..j], i, s);
    assert refs[..j][..i] == refs[..i];
    a, b := |Held(refs[..i], s)|, |Held(refs[..j], s)|;
    assert refs == refs[..j] + refs[j..];
    HeldConcat(refs[..j], refs[j..], s);
  }

  class Pool {
    var current: PageSet?
    var sets: set<PageSet>
    /** The references that have not been destroyed. */
    ghost var refs: seq<PageReference>

    /** Every set is partitioned between its free regions and the live references into
        it, and every live reference points into a set the pool still has. */
    ghost predicate Valid()
      reads this, sets
    {
      && (current != null ==> current in sets)
      && (forall s :: s in sets ==> s.Valid() && s.live == Held(refs, s))
      && forall i :: 0 <= i < |refs| ==> refs[i].parent in sets
    }

    constructor ()
      ensures Valid() && refs == [] && sets == {}
    {
      current, sets, refs := null, {}, [];
    }

    /** Succeeds for every size below a whole set; a set is added only when the current
        one has no region that is large enough. */
    method Allocate(n: nat) returns (r: PageReference)
      requires Valid() && 0 < n < NUM_PAGES
      modifies this, sets
      ensures Valid() && fresh(r) && fresh(sets - old(sets)) && old(sets) <= sets
      ensures refs == old(refs) + [r] && r.numPages == n && r.data + n <= NUM_PAGES && r.parent == current
      ensures if old(current != null && Fits(current.free, n)) then sets == old(sets) && current == old(current)
              else current !in old(sets) && sets == old(sets) + {current}
    {
      hide Cover, NonEmpty, AllCovered, Held;
      var ok := false;
      if current != null {
        ok := current.CanAllocate(n, false);
      }
      if !ok {
        var s := new PageSet();
        NoneHeld(refs, s);
        current := s;
        sets := sets + {s};
        assert s.free[0].num >= n;
      }
      ghost var before := refs;
      var data := current.Get(n, false);
      r := new PageReference(current, data.value, n);
      refs := refs + [r];
      forall s | s in sets ensures s.live == Held(refs, s) {
        HeldConcat(before, [r], s);
        HeldOne(r, s);
      }
    }

    method AllocateB(bytes: nat) returns (r: PageReference)
      requires Valid() && 1 + bytes / PAGE_SIZE < NUM_PAGES
      modifies this, sets
      ensures Valid() && fresh(r) && fresh(sets - old(sets)) && refs == old(refs) + [r]
      ensures bytes < r.numPages * PAGE_SIZE <= bytes + PAGE_SIZE
    {
      r := Allocate(1 + bytes / PAGE_SIZE);
    }

    /** ~PageReference */
    method Destroy(r: PageReference, ghost k: nat)
      requires Valid() && k < |refs| && refs[k] == r
      modifies this`refs, r.parent
      ensures Valid() && refs == Forgotten(old(refs), k)
    {
      hide Cover, NonEmpty, Held, Forgotten;
      HeldForgotten(refs, k, r.parent);
      ForgottenParents(refs, k);
      ghost var i := |Held(refs[..k], r.parent)|;
      r.parent.Return(r.data, r.numPages, i);
      ghost var before := refs;
      refs := Forgotten(refs, k);
      forall s | s in sets ensures s.live == Held(refs, s) {
        HeldForgotten(before, k, s);
      }
    }

    /** Deletes exactly the sets that no reference points into. */
    method GC()
      requires Valid()
      modifies this`sets, this`current, sets
      ensures Valid() && sets <= old(sets)
      ensures forall s :: s in old(sets) ==> (s in sets <==> exists i :: 0 <= i < |refs| && refs[i].parent == s)
      ensures current == if old(current) in sets then old(current) else null
    {
      var changed := true;
      while changed
        invariant Valid() && sets <= old(sets)
        invariant forall s :: s in old(sets) - sets ==> Unused(s)
        invariant !changed ==> forall s :: s in sets ==> !Unused(s)
        invariant current == if old(current) in sets then old(current) else null
        decreases |sets|, changed
      {
        changed := Sweep();
      }
      forall s | s in old(sets) ensures s in sets <==> exists i :: 0 <= i < |refs| && refs[i].parent == s {
        assert Unused(s) <==> s !in sets;
      }
    }

    /** One pass over the sets, in whatever order, up to the first that can go. */
    method Sweep() returns (changed: bool)
      requires Valid()
      modifies this`sets, this`current, sets
      ensures Valid()
      ensures !changed ==> sets == old(sets) && current == old(current) && forall s :: s in sets ==> !Unused(s)
      ensures changed ==> exists s :: s in old(sets) && Unused(s) && sets == old(sets) - {s} &&
                                      current == if old(current) == s then null else old(current)
    {
      hide Cover, NonEmpty, Gapped, Held;
      changed := false;
      var rest := sets;
      while rest != {}
        invariant rest <= sets == old(sets) && current == old(current) && Valid()
        invariant forall s :: s in sets - rest ==> !Unused(s)
        decreases rest
      {
        var s :| s in rest;
        rest := rest - {s};
        s.Coalesce();
        s.EmptyExact();
        HeldNone(refs, s);
        if s.Empty() {
          sets := sets - {s};
          if current == s {
            current := null;
          }
          changed := true;
          return;
        }
      }
    }

    /** No page is ever held twice. */
    lemma ReferencesApart(i: nat, j: nat)
      requires Valid() && i < j < |refs| && refs[i].parent == refs[j].parent
      ensures refs[i].data + refs[i].numPages <= refs[j].data || refs[j].data + refs[j].numPages <= refs[i].data
    {
      var s := refs[i].parent;
      var a, b := HeldTwo(refs, i, j, s);
      var p: nat := if refs[i].data < refs[j].data then refs[j].data else refs[i].data;
      assert Cover(s.free, p) + Cover(s.live, p) <= 1;
      if Has(s.live[a], p) && Has(s.live[b], p) {
        CoverOnce(s.live, a, b, p);
      }
      assert s.live[a].num > 0 && s.live[b].num > 0;
    }

    ghost predicate Unused(s: PageSet)
      reads this
    {
      forall i :: 0 <= i < |refs| ==> refs[i].parent != s
    }
  }

  lemma {:induction false} HeldNone(refs: seq<PageReference>, s: PageSet)
    ensures Held(refs, s) == [] <==> forall i :: 0 <= i < |refs| ==> refs[i].parent != s
    decreases |refs|
  {
    if refs != [] {
      HeldNone(refs[..|refs| - 1], s);
      assert forall i :: 0 <= i < |refs| - 1 ==> refs[..|refs| - 1][i] == refs[i];
    }
  }

  lemma NoneHeld(refs: seq<PageReference>, s: PageSet)
    requires forall i :: 0 <= i < |refs| ==> refs[i].parent != s
    ensures Held(refs, s) == []
  {
    HeldNone(refs, s);
  }
}
