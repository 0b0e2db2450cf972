/** Regions of pages within one page set, and how often a list of regions covers a page. */
module PageRegions {

  const NUM_PAGES := 1024

  /** FreePageSet: num pages from page start on, counted from the start of the set. */
  datatype Region = Region(start: nat, num: nat)

  predicate Has(r: Region, p: nat) {
    r.start <= p < r.start + r.num
  }

  function Count(r: Region, p: nat): (c: nat) {
    if Has(r, p) then 1 else 0
  }

  /** How many of the regions contain page p. */
  ghost function Cover(s: seq<Region>, p: nat): (c: nat) {
    if s == [] then 0 else Cover(s[..|s| - 1], p) + Count(s[|s| - 1], p)
  }

  ghost predicate NonEmpty(s: seq<Region>) {
    forall i :: 0 <= i < |s| ==> s[i].num > 0
  }

  // ----- Covering -----

  lemma {:induction false} CoverConcat(s: seq<Region>, t: seq<Region>, p: nat)
    ensures Cover(s + t, p) == Cover(s, p) + Cover(t, p)
    decreases |t|
  {
    if t == [] {
      assert s + t == s;
    } else {
      CoverConcat(s, t[..|t| - 1], p);
      assert (s + t)[..|s + t| - 1] == s + t[..|t| - 1];
    }
  }

  lemma CoverOne(r: Region, p: nat)
    ensures Cover([r], p) == Count(r, p)
  {
    assert [r][..0] == [];
  }

  function Without(s: seq<Region>, k: nat): (r: seq<Region>)
    requires k < |s|
    ensures |r| == |s| - 1
  {
    s[..k] + s[k + 1..]
  }

  lemma CoverAt(s: seq<Region>, k: nat, p: nat)
    requires k < |s|
    ensures Cover(s, p) == Cover(s[..k], p) + Count(s[k], p) + Cover(s[k + 1..], p)
    ensures Cover(s, p) == Cover(Without(s, k), p) + Count(s[k], p)
  {
    assert s == s[..k] + [s[k]] + s[k + 1..];
    CoverConcat(s[..k] + [s[k]], s[k + 1..], p);
    CoverConcat(s[..k], [s[k]], p);
    CoverConcat(s[..k], s[k + 1..], p);
    CoverOne(s[k], p);
  }

  lemma CoverReplaced(s: seq<Region>, k: nat, r: Region, p: nat)
    requires k < |s|
    ensures Cover(s[k := r], p) == Cover(s, p) - Count(s[k], p) + Count(r, p)
  {
    CoverAt(s, k, p);
    CoverAt(s[k := r], k, p);
    assert s[k := r][..k] == s[..k] && s[k := r][k + 1..] == s[k + 1..];
  }

  /** A covered page lies in some region. */
  lemma {:induction false} Covering(s: seq<Region>, p: nat) returns (k: nat)
    requires Cover(s, p) > 0
    ensures k < |s| && Has(s[k], p)
    decreases |s|
  {
    if Has(s[|s| - 1], p) {
      k := |s| - 1;
    } else {
      k := Covering(s[..|s| - 1], p);
    }
  }

  /** Two regions of the list share a page that is covered once: they are the same. */
  lemma CoverOnce(s: seq<Region>, i: nat, j: nat, p: nat)
    requires i < j < |s| && Has(s[i], p) && Has(s[j], p)
    ensures Cover(s, p) >= 2
  {
    CoverAt(s, j, p);
    CoverAt(s[..j], i, p);
  }

  // ----- Sorting by start, as std::sort does -----

  ghost predicate Ordered(s: seq<Region>) {
    forall i, j :: 0 <= i < j < |s| ==> s[i].start <= s[j].start
  }

  function InsertRegion(s: seq<Region>, r: Region): (t: seq<Region>)
    ensures |t| == |s| + 1
  {
    if s == [] || s[|s| - 1].start <= r.start then s + [r]
    else InsertRegion(s[..|s| - 1], r) + [s[|s| - 1]]
  }

  function SortRegions(s: seq<Region>): (t: seq<Region>)
    ensures |t| == |s|
  {
    if s == [] then [] else InsertRegion(SortRegions(s[..|s| - 1]), s[|s| - 1])
  }

  lemma {:induction false} InsertMembers(s: seq<Region>, r: Region)
    ensures multiset(InsertRegion(s, r)) == multiset(s) + multiset{r}
    decreases |s|
  {
    if s != [] && s[|s| - 1].start > r.start {
      InsertMembers(s[..|s| - 1], r);
      assert s == s[..|s| - 1] + [s[|s| - 1]];
    }
  }

  lemma {:induction false} InsertOrdered(s: seq<Region>, r: Region)
    requires Ordered(s)
    ensures Ordered(InsertRegion(s, r))
    ensures forall i :: 0 <= i < |InsertRegion(s, r)| ==>
      InsertRegion(s, r)[i].start <= if s != [] && s[|s| - 1].start > r.start then s[|s| - 1].start else r.start
    decreases |s|
  {
    if s != [] && s[|s| - 1].start > r.start {
      InsertOrdered(s[..|s| - 1], r);
    }
  }

  lemma {:induction false} SortKeeps(s: seq<Region>)
    ensures multiset(SortRegions(s)) == multiset(s) && Ordered(SortRegions(s))
    decreases |s|
  {
    if s != [] {
      SortKeeps(s[..|s| - 1]);
      InsertMembers(SortRegions(s[..|s| - 1]), s[|s| - 1]);
      InsertOrdered(SortRegions(s[..|s| - 1]), s[|s| - 1]);
      assert s == s[..|s| - 1] + [s[|s| - 1]];
    }
  }

  lemma WithoutMultiset(s: seq<Region>, k: nat)
    requires k < |s|
    ensures multiset(Without(s, k)) == multiset(s) - multiset{s[k]}
  {
    assert s == s[..k] + [s[k]] + s[k + 1..];
  }

  /** Where the last region of one list is in a rearrangement of it, and what is left. */
  lemma LastElsewhere(s: seq<Region>, t: seq<Region>) returns (k: nat)
    requires s != [] && multiset(s) == multiset(t)
    ensures k < |t| && t[k] == s[|s| - 1] && multiset(s[..|s| - 1]) == multiset(Without(t, k))
  {
    assert s[|s| - 1] in multiset(t);
    k :| 0 <= k < |t| && t[k] == s[|s| - 1];
    WithoutMultiset(t, k);
    WithoutMultiset(s, |s| - 1);
    assert Without(s, |s| - 1) == s[..|s| - 1];
  }

  lemma SameLength(s: seq<Region>, t: seq<Region>)
    requires multiset(s) == multiset(t)
    ensures |s| == |t|
  {
    assert |multiset(s)| == |s| && |multiset(t)| == |t|;
  }

  /** Order does not matter to covering. */
  lemma {:induction false} CoverRearranged(s: seq<Region>, t: seq<Region>, p: nat)
    requires multiset(s) == multiset(t)
    ensures Cover(s, p) == Cover(t, p)
    decreases |s|
  {
    hide Without, Count;
    SameLength(s, t);
    if s != [] {
      var k := LastElsewhere(s, t);
      CoverRearranged(s[..|s| - 1], Without(t, k), p);
      CoverAt(t, k, p);
    }
  }

  lemma NonEmptyRearranged(s: seq<Region>, t: seq<Region>)
    requires multiset(s) == multiset(t) && NonEmpty(s)
    ensures NonEmpty(t)
  {
    forall i | 0 <= i < |t| ensures t[i].num > 0 {
      assert t[i] in multiset(t);
      assert t[i] in s;
    }
  }

  // ----- Coalesced lists -----

  /** Sorted, with a gap after every region but the last. */
  ghost predicate Gapped(s: seq<Region>) {
    forall i, j :: 0 <= i < j < |s| ==> s[i].start + s[i].num < s[j].start
  }

  ghost predicate AllCovered(s: seq<Region>, start: nat, n: nat) {
    forall p :: start <= p < start + n ==> Cover(s, p) > 0
  }

  /** In a coalesced list, contiguous covered pages lie in one region. */
  lemma ContiguousInOne(s: seq<Region>, start: nat, n: nat) returns (k: nat)
    requires Gapped(s) && n > 0 && AllCovered(s, start, n)
    ensures k < |s| && s[k].start <= start && start + n <= s[k].start + s[k].num
  {
    assert Cover(s, start) > 0;
    k := Covering(s, start);
    var end := s[k].start + s[k].num;
    if end < start + n {
      assert Cover(s, end) > 0;
      var j := Covering(s, end);
      assert false;
    }
  }

  lemma {:induction false} RegionCovered(s: seq<Region>, k: nat, p: nat)
    requires k < |s| && Has(s[k], p)
    ensures Cover(s, p) > 0
  {
    CoverAt(s, k, p);
  }

  /** A list without overlap and in order lies end to start. */
  lemma OrderedApart(s: seq<Region>, i: nat, j: nat)
    requires Ordered(s) && NonEmpty(s) && i < j < |s| && forall p :: Cover(s, p) <= 1
    ensures s[i].start + s[i].num <= s[j].start
  {
    if s[i].start + s[i].num > s[j].start {
      CoverOnce(s, i, j, s[j].start);
    }
  }

  /** Once no neighbours touch, no regions do. */
  lemma NeighboursApart(s: seq<Region>)
    requires Ordered(s) && NonEmpty(s) && forall p :: Cover(s, p) <= 1
    requires forall i :: 0 <= i < |s| - 1 ==> s[i].start + s[i].num != s[i + 1].start
    ensures Gapped(s)
  {
    forall i, j | 0 <= i < j < |s| ensures s[i].start + s[i].num < s[j].start {
      OrderedApart(s, i, i + 1);
      if i + 1 < j {
        OrderedApart(s, i + 1, j);
      }
    }
  }

  /** Merging two neighbours that touch: the pages stay, one region goes. */
  function Joined(s: seq<Region>, i: nat): (t: seq<Region>)
    requires i + 1 < |s|
    ensures |t| == |s| - 1
  {
    Without(s[i := Region(s[i].start, s[i].num + s[i + 1].num)], i + 1)
  }

  lemma JoinedCovers(s: seq<Region>, i: nat, p: nat)
    requires i + 1 < |s| && s[i].start + s[i].num == s[i + 1].start
    ensures Cover(Joined(s, i), p) == Cover(s, p)
  {
    var r := Region(s[i].start, s[i].num + s[i + 1].num);
    CoverReplaced(s, i, r, p);
    CoverAt(s[i := r], i + 1, p);
  }

  lemma JoinedOrdered(s: seq<Region>, i: nat)
    requires i + 1 < |s| && Ordered(s) && NonEmpty(s)
    ensures Ordered(Joined(s, i)) && NonEmpty(Joined(s, i))
  {
  }
}
