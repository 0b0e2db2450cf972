/** Which prefixes Optimize chooses: those that most edges share go first, and every shared
    prefix overlaps one that was chosen before it or is chosen itself. */
module DecodeRanking {
  import opened BinaryText
  import opened Common
  import opened DecodeTree
  import opened DecodeOptimize

  /** p is a prefix of the label that is long enough and leaves enough of it. */
  predicate Shares(e: Prefix, p: Prefix, minLength: nat) {
    minLength <= p.length <= e.length - minLength && Extends(e, p)
  }

  /** How many labels share it. */
  function Sharers(labels: seq<Prefix>, p: Prefix, minLength: nat): (n: nat) {
    if labels == [] then 0
    else Sharers(labels[1..], p, minLength) + if Shares(labels[0], p, minLength) then 1 else 0
  }

  lemma {:induction false} PrefixesOfCount(e: Prefix, length: int, minLength: nat, p: Prefix)
    requires length <= e.length && minLength >= 1
    ensures multiset(PrefixesOf(e, length, minLength))[p] == if minLength <= p.length <= length && Extends(e, p) then 1 else 0
    decreases length
  {
    hide High, PrefixesOf, Extends;
    PrefixesOfDef(e, length, minLength, p);
    if length >= minLength {
      PrefixesOfCount(e, length - 1, minLength, p);
      CountFirst(Prefix(length, High(e.value, e.length - length)), PrefixesOf(e, length - 1, minLength), p);
    }
  }

  lemma PrefixesOfDef(e: Prefix, length: int, minLength: nat, p: Prefix)
    requires length <= e.length && minLength >= 1
    ensures length < minLength ==> PrefixesOf(e, length, minLength) == []
    ensures length >= minLength ==>
      && PrefixesOf(e, length, minLength) == [Prefix(length, High(e.value, e.length - length))] + PrefixesOf(e, length - 1, minLength)
      && (p == Prefix(length, High(e.value, e.length - length)) <==> p.length == length && Extends(e, p))
  {
  }

  lemma CountFirst(q: Prefix, rest: seq<Prefix>, p: Prefix)
    ensures multiset([q] + rest)[p] == multiset(rest)[p] + if p == q then 1 else 0
  {
  }

  lemma CountJoin(a: seq<Prefix>, b: seq<Prefix>, p: Prefix)
    ensures multiset(a + b)[p] == multiset(a)[p] + multiset(b)[p]
  {
  }

  function OwnPrefixes(e: Prefix, minLength: nat): (r: seq<Prefix>)
    requires minLength >= 1
  {
    if e.length >= minLength then PrefixesOf(e, e.length - minLength, minLength) else []
  }

  lemma OwnPrefixesCount(e: Prefix, minLength: nat, p: Prefix)
    requires minLength >= 1
    ensures multiset(OwnPrefixes(e, minLength))[p] == if Shares(e, p, minLength) then 1 else 0
  {
    if e.length >= minLength {
      PrefixesOfCount(e, e.length - minLength, minLength, p);
    }
  }

  lemma AllPrefixesDef(labels: seq<Prefix>, minLength: nat)
    requires minLength >= 1 && labels != []
    ensures AllPrefixes(labels, minLength) == OwnPrefixes(labels[0], minLength) + AllPrefixes(labels[1..], minLength)
  {
  }

  /** The popularity of a prefix is the number of labels that share it. */
  lemma {:induction false} PopularityIsSharers(labels: seq<Prefix>, minLength: nat, p: Prefix)
    requires minLength >= 1
    ensures multiset(AllPrefixes(labels, minLength))[p] == Sharers(labels, p, minLength)
    decreases labels
  {
    if labels == [] {
      assert AllPrefixes([], minLength) == [];
    } else {
      hide AllPrefixes, OwnPrefixes, Shares;
      PopularityIsSharers(labels[1..], minLength, p);
      AllPrefixesDef(labels, minLength);
      OwnPrefixesCount(labels[0], minLength, p);
      CountJoin(OwnPrefixes(labels[0], minLength), AllPrefixes(labels[1..], minLength), p);
    }
  }

  /** Each ranks before all that follow it. */
  ghost predicate InOrder(ranked: seq<Prefix>, popularity: multiset<Prefix>) {
    forall i, j :: 0 <= i < j < |ranked| ==> RanksBefore(ranked[i], ranked[j], popularity)
  }

  lemma {:induction false} InsertInOrder(ranked: seq<Prefix>, p: Prefix, popularity: multiset<Prefix>)
    requires InOrder(ranked, popularity) && p !in ranked
    ensures InOrder(InsertRanked(ranked, p, popularity), popularity)
    decreases ranked
  {
    if ranked != [] && !RanksBefore(p, ranked[0], popularity) {
      var r := InsertRanked(ranked[1..], p, popularity);
      assert ranked[0] in ranked;
      InsertInOrder(ranked[1..], p, popularity);
      forall j | 0 <= j < |r| ensures RanksBefore(ranked[0], r[j], popularity) {
        assert r[j] in r;
        if r[j] != p {
          var k :| 1 <= k < |ranked| && ranked[k] == r[j];
        }
      }
    }
  }

  lemma {:induction false} RankingInOrder(prefixes: seq<Prefix>, popularity: multiset<Prefix>, minMembers: nat)
    ensures InOrder(Ranking(prefixes, popularity, minMembers), popularity)
    decreases prefixes
  {
    if prefixes != [] {
      hide RanksBefore;
      RankingInOrder(prefixes[1..], popularity, minMembers);
      var r := Ranking(prefixes[1..], popularity, minMembers);
      if popularity[prefixes[0]] >= minMembers && prefixes[0] !in r {
        InsertInOrder(r, prefixes[0], popularity);
      }
    }
  }

  lemma {:induction false} SelectKeeps(ranked: seq<Prefix>, chosen: seq<Prefix>)
    ensures forall c :: c in chosen ==> c in Select(ranked, chosen)
    decreases ranked
  {
    if ranked != [] {
      if !exists c :: c in chosen && Overlap(c, ranked[0]) {
        SelectKeeps(ranked[1..], chosen + [ranked[0]]);
      } else {
        SelectKeeps(ranked[1..], chosen);
      }
    }
  }

  /** Every ranked prefix overlaps a chosen one that was chosen before or ranks no later. */
  lemma {:induction false} SelectGreedy(ranked: seq<Prefix>, chosen: seq<Prefix>, j: nat) returns (c: Prefix)
    requires j < |ranked|
    ensures c in Select(ranked, chosen) && Overlap(c, ranked[j])
    ensures c in chosen || exists i :: 0 <= i <= j && ranked[i] == c
    decreases ranked
  {
    hide Overlap, Bits;
    SelectKeeps(ranked, chosen);
    if c' :| c' in chosen && Overlap(c', ranked[j]) {
      c := c';
    } else if j == 0 {
      c := ranked[0];
      SelectKeeps(ranked[1..], chosen + [c]);
      SelfOverlap(c);
    } else if exists d :: d in chosen && Overlap(d, ranked[0]) {
      c := SelectGreedy(ranked[1..], chosen, j - 1);
      if c !in chosen {
        var i :| 0 <= i <= j - 1 && ranked[1..][i] == c;
        assert ranked[i + 1] == c;
      }
    } else {
      c := SelectGreedy(ranked[1..], chosen + [ranked[0]], j - 1);
      if c !in chosen && c != ranked[0] {
        var i :| 0 <= i <= j - 1 && ranked[1..][i] == c;
        assert ranked[i + 1] == c;
      }
    }
  }

  lemma SelfOverlap(c: Prefix)
    ensures Overlap(c, c)
  {
  }

  /** Shared by more labels, or by as many and longer, or as long and larger. */
  predicate Precedes(labels: seq<Prefix>, minLength: nat, a: Prefix, b: Prefix) {
    var m, n := Sharers(labels, a, minLength), Sharers(labels, b, minLength);
    m > n || (m == n && (a.length > b.length || (a.length == b.length && a.value > b.value)))
  }

  /** A prefix is worth factoring out if enough labels share it. */
  predicate Worth(labels: seq<Prefix>, minLength: nat, minMembers: nat, p: Prefix) {
    Sharers(labels, p, minLength) >= 1 && Sharers(labels, p, minLength) >= minMembers
  }

  /** Only prefixes that are worth it are chosen, and each that is either is chosen or
      overlaps a chosen one that precedes it. */
  lemma SelectedGreedy(labels: seq<Prefix>, minLength: nat, minMembers: nat, p: Prefix)
    requires minLength >= 1
    ensures p in Selected(labels, minLength, minMembers) ==> Worth(labels, minLength, minMembers, p)
    ensures Worth(labels, minLength, minMembers, p) ==>
      exists c :: c in Selected(labels, minLength, minMembers) && Overlap(c, p) && (c == p || Precedes(labels, minLength, c, p))
  {
    hide Overlap, Select, AllPrefixes, Sharers, Extends;
    var all := AllPrefixes(labels, minLength);
    var popularity := multiset(all);
    var ranked := Ranking(all, popularity, minMembers);
    RankingInOrder(all, popularity, minMembers);
    PopularityIsSharers(labels, minLength, p);
    assert p in all <==> popularity[p] >= 1;
    if Worth(labels, minLength, minMembers, p) {
      var j :| 0 <= j < |ranked| && ranked[j] == p;
      var c := SelectGreedy(ranked, [], j);
      PopularityIsSharers(labels, minLength, c);
    }
  }
}
