/** Optimize: left-factoring the constrained edges of every node. */
module DecodeOptimize {
  import opened BinaryText
  import opened Common
  import opened DecodeTree
  import opened DecodeInsert

  datatype Prefix = Prefix(length: nat, value: nat)

  /** UNSIGNED_BITS of a value: all but the lowest `drop` bits. */
  function High(value: nat, drop: nat): nat {
    DivNonNegative(value, Pow2(drop));
    value / Pow2(drop)
  }

  /** UNSIGNED_BITS of a value: the lowest `keep` bits. */
  function Low(value: nat, keep: nat): nat {
    value % Pow2(keep)
  }

  // ----- Choosing the prefixes -----

  /** The labels of edges. */
  function Labels(edges: seq<Edge>): (r: seq<Prefix>)
    ensures |r| == |edges|
    ensures forall k :: 0 <= k < |r| ==> r[k] == Prefix(edges[k].length, edges[k].value)
  {
    seq(|edges|, k requires 0 <= k < |edges| => Prefix(edges[k].length, edges[k].value))
  }

  /** The prefixes of one label, longest first. */
  function PrefixesOf(e: Prefix, length: int, minLength: nat): seq<Prefix>
    requires length <= e.length && minLength >= 1
    decreases length
  {
    if length < minLength then []
    else [Prefix(length, High(e.value, e.length - length))] + PrefixesOf(e, length - 1, minLength)
  }

  /** The prefixes of all labels that are long enough. */
  function AllPrefixes(edges: seq<Prefix>, minLength: nat): seq<Prefix>
    requires minLength >= 1
  {
    if edges == [] then []
    else
      (if edges[0].length >= minLength then PrefixesOf(edges[0], edges[0].length - minLength, minLength) else [])
      + AllPrefixes(edges[1..], minLength)
  }

  /** More popular first; then longer, then larger. */
  predicate RanksBefore(a: Prefix, b: Prefix, popularity: multiset<Prefix>) {
    || popularity[a] > popularity[b]
    || (popularity[a] == popularity[b] && (a.length > b.length || (a.length == b.length && a.value > b.value)))
  }

  function InsertRanked(ranked: seq<Prefix>, p: Prefix, popularity: multiset<Prefix>): (r: seq<Prefix>)
    ensures forall q :: q in r <==> q == p || q in ranked
  {
    if ranked == [] || RanksBefore(p, ranked[0], popularity) then [p] + ranked
    else [ranked[0]] + InsertRanked(ranked[1..], p, popularity)
  }

  /** The prefixes shared by at least `minMembers` edges, in rank order. */
  function Ranking(prefixes: seq<Prefix>, popularity: multiset<Prefix>, minMembers: nat): (r: seq<Prefix>)
    ensures forall q :: q in r <==> q in prefixes && popularity[q] >= minMembers
  {
    if prefixes == [] then []
    else
      var r := Ranking(prefixes[1..], popularity, minMembers);
      if popularity[prefixes[0]] < minMembers || prefixes[0] in r then r
      else InsertRanked(r, prefixes[0], popularity)
  }

  /** One prefix, written in binary, begins with the other. */
  predicate Overlap(a: Prefix, b: Prefix) {
    Bits(a.value, a.length) <= Bits(b.value, b.length) || Bits(b.value, b.length) <= Bits(a.value, a.length)
  }

  /** Greedy selection of mutually exclusive prefixes. */
  function Select(ranked: seq<Prefix>, chosen: seq<Prefix>): (r: seq<Prefix>)
    ensures forall q :: q in r ==> q in ranked || q in chosen
    decreases ranked
  {
    if ranked == [] then chosen
    else if exists c :: c in chosen && Overlap(c, ranked[0]) then Select(ranked[1..], chosen)
    else Select(ranked[1..], chosen + [ranked[0]])
  }

  function Selected(edges: seq<Prefix>, minLength: nat, minMembers: nat): seq<Prefix>
    requires minLength >= 1
  {
    var all := AllPrefixes(edges, minLength);
    Select(Ranking(all, multiset(all), minMembers), [])
  }

  // ----- Factoring one prefix out -----

  predicate Extends(e: Prefix, p: Prefix) {
    p.length <= e.length && High(e.value, e.length - p.length) == p.value
  }

  predicate StartsWith(e: Edge, p: Prefix) {
    Extends(Prefix(e.length, e.value), p)
  }

  function Filter(edges: seq<Edge>, p: Prefix, keep: bool): (r: seq<Edge>)
    ensures forall e :: e in r <==> e in edges && StartsWith(e, p) == keep
  {
    if edges == [] then []
    else (if StartsWith(edges[0], p) == keep then [edges[0]] else []) + Filter(edges[1..], p, keep)
  }

  function Shorten(e: Edge, p: Prefix): Edge
    requires p.length <= e.length
  {
    Edge(e.length - p.length, Low(e.value, e.length - p.length), e.node)
  }

  /** An edge used up by the prefix becomes a zero-length unconstrained edge. */
  function Attach(node: Node, e: Edge): Node {
    if e.length == 0 then node.(wild := Some(e)) else node.(edges := InsertEdge(node.edges, e))
  }

  /** The shortened edges, attached in turn. */
  function Gather(node: Node, matches: seq<Edge>, p: Prefix): Node
    requires forall e :: e in matches ==> StartsWith(e, p)
    decreases matches
  {
    if matches == [] then node
    else
      assert StartsWith(matches[0], p);
      Gather(Attach(node, Shorten(matches[0], p)), matches[1..], p)
  }

  function Intermediate(n: Node, p: Prefix): Node {
    Gather(Node(n.start + p.length, [], None, None), Filter(n.edges, p, true), p)
  }

  function Factor(n: Node, p: Prefix): Node {
    n.(edges := InsertEdge(Filter(n.edges, p, false), Edge(p.length, p.value, Intermediate(n, p))))
  }

  // ----- Factoring keeps the paths -----

  /** A prefix that may be factored out of `n`. */
  predicate Factorable(n: Node, p: Prefix) {
    1 <= p.length && p.value < Pow2(p.length) && n.start + p.length < WORD
  }

  lemma ThroughShortened(e: Edge, p: Prefix, q: string, i: Insn)
    requires StartsWith(e, p) && p.length <= |q|
    ensures Through(e, q, i) <==>
      q[..p.length] == Bits(p.value, p.length) && Through(Shorten(e, p), q[p.length..], i)
  {
    hide HasPath, Bits, Pow2;
    var d := e.length - p.length;
    BitsSplit(e.value, e.length, p.length);
    var a, b := Bits(p.value, p.length), Bits(Low(e.value, d), d);
    assert Bits(e.value, e.length) == a + b;
    if e.length <= |q| {
      var r := q[p.length..];
      assert q[..e.length] == q[..p.length] + r[..d];
      assert q[e.length..] == r[d..];
      assert (q[..p.length] + r[..d])[..p.length] == q[..p.length];
      assert (a + b)[..p.length] == a;
      assert (q[..p.length] + r[..d])[p.length..] == r[..d];
      assert (a + b)[p.length..] == b;
    }
  }

  lemma ThroughNeedsPrefix(e: Edge, p: Prefix, q: string, i: Insn)
    requires StartsWith(e, p) && Through(e, q, i)
    ensures p.length <= |q|
  {
  }

  lemma ShortenInjective(a: Edge, b: Edge, p: Prefix)
    requires StartsWith(a, p) && StartsWith(b, p)
    requires a.length == b.length && Low(a.value, a.length - p.length) == Low(b.value, b.length - p.length)
    ensures a.value == b.value
  {
    var m := Pow2(a.length - p.length);
    assert a.value == m * (a.value / m) + a.value % m;
    assert b.value == m * (b.value / m) + b.value % m;
  }

  ghost predicate Unlike(edges: seq<Edge>, e: Edge) {
    forall f :: f in edges ==> f.length != e.length || f.value != e.value
  }

  /** Attaching an edge adds the paths through it, unless it displaces one. */
  lemma AttachPaths(node: Node, e: Edge, q: string, i: Insn)
    requires node.target.None?
    requires e.length == 0 ==> node.wild.None?
    ensures HasPath(Attach(node, e), q, i) <==> HasPath(node, q, i) || Through(e, q, i)
  {
    hide Bits;
    var m := Attach(node, e);
    if e.length == 0 {
      assert q[..0] == Bits(e.value, 0);
      assert ThroughWild(e, q, i) <==> Through(e, q, i);
    } else {
      assert e in m.edges;
      assert forall f :: f in node.edges ==> f in m.edges;
      assert forall f :: f in m.edges ==> f == e || f in node.edges;
    }
  }

  lemma AttachShaped(node: Node, e: Edge)
    requires Shaped(node) && Shaped(e.node)
    requires e.value < Pow2(e.length) && e.node.start == node.start + e.length
    requires Unlike(node.edges, e)
    ensures Shaped(Attach(node, e))
  {
    hide InsertEdge, Pow2;
    if e.length > 0 {
      InsertDistinct(node.edges, e);
      assert e.node.start <= WORD;
    }
  }

  ghost predicate Gatherable(node: Node, matches: seq<Edge>, p: Prefix) {
    && Distinct(matches)
    && (forall e :: e in matches ==> StartsWith(e, p))
    && (forall e :: e in matches ==> Unlike(node.edges, Shorten(e, p)))
    && (node.wild.Some? ==> forall e :: e in matches ==> e.length > p.length)
    && node.target.None?
  }

  lemma GatherableTail(node: Node, matches: seq<Edge>, p: Prefix)
    requires Gatherable(node, matches, p) && matches != [] && StartsWith(matches[0], p)
    ensures Gatherable(Attach(node, Shorten(matches[0], p)), matches[1..], p)
  {
    hide InsertEdge, Low;
    var e := matches[0];
    var node' := Attach(node, Shorten(e, p));
    assert e in matches;
    forall f | f in matches[1..]
      ensures StartsWith(f, p) && Unlike(node'.edges, Shorten(f, p)) && (node'.wild.Some? ==> f.length > p.length)
    {
      assert f in matches;
      assert f.length != e.length || f.value != e.value by {
        var j :| 1 <= j < |matches| && matches[j] == f;
      }
      if f.length == e.length && Shorten(f, p).value == Shorten(e, p).value {
        ShortenInjective(f, e, p);
      }
    }
  }

  lemma {:induction false} GatherPaths(node: Node, matches: seq<Edge>, p: Prefix, q: string, i: Insn)
    requires Gatherable(node, matches, p)
    ensures HasPath(Gather(node, matches, p), q, i) <==>
      HasPath(node, q, i) || exists e :: e in matches && StartsWith(e, p) && Through(Shorten(e, p), q, i)
    decreases matches
  {
    hide HasPath, Through, StartsWith;
    if matches != [] {
      var e := matches[0];
      assert e in matches;
      GatherableTail(node, matches, p);
      var node' := Attach(node, Shorten(e, p));
      GatherPaths(node', matches[1..], p, q, i);
      AttachPaths(node, Shorten(e, p), q, i);
      assert forall f :: f in matches <==> f == e || f in matches[1..];
    }
  }

  ghost predicate FitsUnder(e: Edge, start: nat, p: Prefix) {
    && StartsWith(e, p) && e.value < Pow2(e.length)
    && Shaped(e.node) && e.node.start == start + e.length - p.length
  }

  lemma {:induction false} GatherShaped(node: Node, matches: seq<Edge>, p: Prefix)
    requires Gatherable(node, matches, p) && Shaped(node)
    requires forall e :: e in matches ==> FitsUnder(e, node.start, p)
    ensures Shaped(Gather(node, matches, p)) && Gather(node, matches, p).start == node.start
    decreases matches
  {
    if matches != [] {
      hide Shaped, InsertEdge, StartsWith;
      var e := matches[0];
      assert e in matches && FitsUnder(e, node.start, p);
      GatherableTail(node, matches, p);
      assert Low(e.value, e.length - p.length) < Pow2(e.length - p.length);
      AttachShaped(node, Shorten(e, p));
      GatherShaped(Attach(node, Shorten(e, p)), matches[1..], p);
    }
  }

  lemma {:induction false} FilterDistinct(edges: seq<Edge>, p: Prefix, keep: bool)
    requires Distinct(edges)
    ensures Distinct(Filter(edges, p, keep))
  {
    if edges != [] {
      var rest := Filter(edges[1..], p, keep);
      FilterDistinct(edges[1..], p, keep);
      forall j | 0 <= j < |rest| ensures rest[j].length != edges[0].length || rest[j].value != edges[0].value {
        assert rest[j] in rest && rest[j] in edges[1..];
      }
    }
  }

  lemma ShapedEdges(n: Node)
    requires Shaped(n)
    ensures n.start <= WORD && (n.target.Some? <==> n.start == WORD) && Distinct(n.edges)
    ensures forall e :: e in n.edges ==>
      1 <= e.length && e.value < Pow2(e.length) && Shaped(e.node) && e.node.start == n.start + e.length <= WORD
  {
  }

  /** The intermediate node is ready to gather the matching edges. */
  lemma IntermediateReady(n: Node, p: Prefix)
    requires Shaped(n) && Factorable(n, p)
    ensures var node, ms := Node(n.start + p.length, [], None, None), Filter(n.edges, p, true);
      Shaped(node) && Gatherable(node, ms, p) && forall e :: e in ms ==> FitsUnder(e, node.start, p)
  {
    hide Filter, Pow2;
    ShapedEdges(n);
    FilterDistinct(n.edges, p, true);
  }

  lemma FactorShaped(n: Node, p: Prefix)
    requires Shaped(n) && Factorable(n, p)
    ensures Shaped(Factor(n, p))
  {
    hide Filter, Pow2, Gather, InsertEdge;
    ShapedEdges(n);
    IntermediateReady(n, p);
    var m, rest := Intermediate(n, p), Filter(n.edges, p, false);
    GatherShaped(Node(n.start + p.length, [], None, None), Filter(n.edges, p, true), p);
    FilterDistinct(n.edges, p, false);
    var e := Edge(p.length, p.value, m);
    assert Unlike(rest, e) by {
      forall f | f in rest ensures f.length != p.length || f.value != p.value {
        HighZero(f.value);
      }
    }
    InsertDistinct(rest, e);
  }

  lemma HighZero(value: nat)
    ensures High(value, 0) == value
  {
  }

  /** Factoring a prefix out of a node changes no path. */
  lemma FactorPaths(n: Node, p: Prefix, q: string, i: Insn)
    requires Shaped(n) && Factorable(n, p)
    ensures HasPath(Factor(n, p), q, i) <==> HasPath(n, q, i)
  {
    hide HasPath, Through, StartsWith, Filter, Gather, InsertEdge, Shaped;
    ShapedEdges(n);
    IntermediateReady(n, p);
    var node, ms, rest := Node(n.start + p.length, [], None, None), Filter(n.edges, p, true), Filter(n.edges, p, false);
    var e := Edge(p.length, p.value, Intermediate(n, p));
    if p.length <= |q| {
      var r := q[p.length..];
      GatherPaths(node, ms, p, r, i);
      EmptyNode(node, r, i);
      ThroughDef(e, q, i);
    } else {
      ThroughDef(e, q, i);
    }
    assert Through(e, q, i) <==> exists f :: f in ms && Through(f, q, i) by {
      if f :| f in ms && Through(f, q, i) {
        ThroughNeedsPrefix(f, p, q, i);
        ThroughShortened(f, p, q, i);
      }
      if Through(e, q, i) {
        var f :| f in ms && StartsWith(f, p) && Through(Shorten(f, p), q[p.length..], i);
        ThroughShortened(f, p, q, i);
      }
    }
    PathDef(n, q, i);
    PathDef(Factor(n, p), q, i);
    assert forall f :: f in n.edges <==> f in ms || f in rest;
    assert forall f :: f in Factor(n, p).edges <==> f == e || f in rest;
  }

  lemma EmptyNode(node: Node, q: string, i: Insn)
    requires node.edges == [] && node.wild.None? && node.target.None?
    ensures !HasPath(node, q, i)
  {
  }

  lemma ThroughDef(e: Edge, q: string, i: Insn)
    ensures Through(e, q, i) <==>
      e.length <= |q| && q[..e.length] == Bits(e.value, e.length) && HasPath(e.node, q[e.length..], i)
  {
  }

  lemma PathDef(n: Node, q: string, i: Insn)
    requires n.target.None?
    ensures HasPath(n, q, i) <==>
      (exists e :: e in n.edges && Through(e, q, i)) || (n.wild.Some? && ThroughWild(n.wild.value, q, i))
  {
  }

  // ----- The selected prefixes -----

  lemma HighRange(value: nat, length: nat, keep: nat)
    requires keep <= length && value < Pow2(length)
    ensures High(value, length - keep) < Pow2(keep)
  {
    Pow2Add(length - keep, keep);
    QuotientRange(value, Pow2(length - keep), Pow2(keep));
  }

  lemma {:induction false} PrefixesOfLabel(e: Prefix, length: int, minLength: nat, p: Prefix)
    requires length <= e.length && minLength >= 1
    requires p in PrefixesOf(e, length, minLength)
    ensures minLength <= p.length <= length && Extends(e, p)
    decreases length
  {
    if p != Prefix(length, High(e.value, e.length - length)) {
      PrefixesOfLabel(e, length - 1, minLength, p);
    }
  }

  /** Every candidate prefix is a proper prefix of some label. */
  lemma {:induction false} PrefixesFromLabels(labels: seq<Prefix>, minLength: nat, p: Prefix) returns (e: Prefix)
    requires minLength >= 1 && p in AllPrefixes(labels, minLength)
    ensures e in labels && Extends(e, p) && minLength <= p.length <= e.length - minLength
    decreases labels
  {
    e := labels[0];
    if e.length >= minLength && p in PrefixesOf(e, e.length - minLength, minLength) {
      PrefixesOfLabel(e, e.length - minLength, minLength, p);
    } else {
      e := PrefixesFromLabels(labels[1..], minLength, p);
    }
  }

  lemma SelectedFactorable(n: Node, minLength: nat, minMembers: nat, p: Prefix)
    requires Shaped(n) && minLength >= 1 && p in Selected(Labels(n.edges), minLength, minMembers)
    ensures Factorable(n, p)
  {
    hide Ranking, Select, AllPrefixes;
    var l := PrefixesFromLabels(Labels(n.edges), minLength, p);
    var k :| 0 <= k < |n.edges| && l == Labels(n.edges)[k];
    assert n.edges[k] in n.edges;
    HighRange(l.value, l.length, p.length);
  }

  /** No selected prefix is a prefix of another. */
  ghost predicate Exclusive(ps: seq<Prefix>) {
    forall i, j :: 0 <= i < j < |ps| ==> !Overlap(ps[i], ps[j])
  }

  lemma {:induction false} SelectExclusive(ranked: seq<Prefix>, chosen: seq<Prefix>)
    requires Exclusive(chosen)
    ensures Exclusive(Select(ranked, chosen))
    decreases ranked
  {
    hide Overlap;
    if ranked != [] {
      if exists c :: c in chosen && Overlap(c, ranked[0]) {
        SelectExclusive(ranked[1..], chosen);
      } else {
        assert Exclusive(chosen + [ranked[0]]) by {
          assert forall c :: c in chosen ==> !Overlap(c, ranked[0]);
        }
        SelectExclusive(ranked[1..], chosen + [ranked[0]]);
      }
    }
  }

  // ----- Optimize -----

  function FactorAll(n: Node, ps: seq<Prefix>): Node
    decreases ps
  {
    if ps == [] then n else FactorAll(Factor(n, ps[0]), ps[1..])
  }

  lemma {:induction false} FactorAllShaped(n: Node, ps: seq<Prefix>)
    requires Shaped(n) && forall p :: p in ps ==> Factorable(n, p)
    ensures var r := FactorAll(n, ps); Shaped(r) && r.start == n.start && r.wild == n.wild && r.target == n.target
    decreases ps
  {
    if ps != [] {
      hide Shaped, Filter, InsertEdge, Intermediate;
      assert ps[0] in ps;
      FactorShaped(n, ps[0]);
      forall p | p in ps[1..] ensures Factorable(Factor(n, ps[0]), p) {
        assert p in ps && Factorable(n, p);
      }
      FactorAllShaped(Factor(n, ps[0]), ps[1..]);
    }
  }

  lemma {:induction false} FactorAllPaths(n: Node, ps: seq<Prefix>, q: string, i: Insn)
    requires Shaped(n) && forall p :: p in ps ==> Factorable(n, p)
    ensures HasPath(FactorAll(n, ps), q, i) <==> HasPath(n, q, i)
    decreases ps
  {
    if ps != [] {
      hide Shaped, HasPath, Filter, InsertEdge, Intermediate;
      assert ps[0] in ps;
      FactorShaped(n, ps[0]);
      FactorPaths(n, ps[0], q, i);
      forall p | p in ps[1..] ensures Factorable(Factor(n, ps[0]), p) {
        assert p in ps && Factorable(n, p);
      }
      FactorAllPaths(Factor(n, ps[0]), ps[1..], q, i);
    }
  }

  /** The node with its own edges factored. */
  function Factored(n: Node, minLength: nat, minMembers: nat): (r: Node)
    requires Shaped(n) && minLength >= 1
    ensures Shaped(r) && r.start == n.start && r.wild == n.wild && r.target == n.target
  {
    FactoredShaped(n, minLength, minMembers);
    FactorAll(n, Selected(Labels(n.edges), minLength, minMembers))
  }

  lemma FactoredShaped(n: Node, minLength: nat, minMembers: nat)
    requires Shaped(n) && minLength >= 1
    ensures forall p :: p in Selected(Labels(n.edges), minLength, minMembers) ==> Factorable(n, p)
    ensures var r := FactorAll(n, Selected(Labels(n.edges), minLength, minMembers));
      Shaped(r) && r.start == n.start && r.wild == n.wild && r.target == n.target
  {
    hide Shaped, Selected, Factorable, FactorAll;
    forall p | p in Selected(Labels(n.edges), minLength, minMembers) ensures Factorable(n, p) {
      SelectedFactorable(n, minLength, minMembers, p);
    }
    FactorAllShaped(n, Selected(Labels(n.edges), minLength, minMembers));
  }

  function Optimize(n: Node, minLength: nat, minMembers: nat): (r: Node)
    requires Shaped(n) && minLength >= 1
    decreases WORD - n.start, 1, n
  {
    var f := Factored(n, minLength, minMembers);
    ShapedEdges(f);
    Node(n.start,
         OptimizeEdges(n.start, f.edges, minLength, minMembers),
         if n.wild.None? then None
         else Some(n.wild.value.(node := Optimize(n.wild.value.node, minLength, minMembers))),
         n.target)
  }

  function OptimizeEdges(start: nat, edges: seq<Edge>, minLength: nat, minMembers: nat): (r: seq<Edge>)
    requires minLength >= 1
    requires forall e :: e in edges ==> Shaped(e.node) && start < e.node.start <= WORD
    ensures |r| == |edges|
    decreases WORD - start, 0, |edges|
  {
    if edges == [] then []
    else
      assert edges[0] in edges;
      [edges[0].(node := Optimize(edges[0].node, minLength, minMembers))]
      + OptimizeEdges(start, edges[1..], minLength, minMembers)
  }

  /** Same label, same position, and a child with the same paths. */
  ghost predicate Alike(a: Edge, b: Edge, q: string, i: Insn) {
    && a.length == b.length && a.value == b.value
    && a.node.start == b.node.start && Shaped(a.node) && Shaped(b.node)
    && forall k :: 0 <= k <= |q| ==> (HasPath(a.node, q[k..], i) <==> HasPath(b.node, q[k..], i))
  }

  lemma AlikeThrough(a: Edge, b: Edge, q: string, i: Insn)
    requires Alike(a, b, q, i)
    ensures Through(a, q, i) <==> Through(b, q, i)
    ensures ThroughWild(a, q, i) <==> ThroughWild(b, q, i)
  {
    hide HasPath, Shaped;
    if a.length <= |q| {
      assert HasPath(a.node, q[a.length..], i) <==> HasPath(b.node, q[a.length..], i);
    }
  }

  ghost predicate AlikeChildren(a: Node, b: Node, q: string, i: Insn) {
    && a.start == b.start && a.target == b.target && |a.edges| == |b.edges|
    && (forall k :: 0 <= k < |a.edges| ==> Alike(a.edges[k], b.edges[k], q, i))
    && a.wild.Some? == b.wild.Some?
    && (a.wild.Some? ==> Alike(a.wild.value, b.wild.value, q, i))
  }

  lemma AlikeShaped(a: Node, b: Node, q: string, i: Insn)
    requires Shaped(a) && AlikeChildren(a, b, q, i)
    ensures Shaped(b)
  {
    hide HasPath, Pow2, Alike;
    forall e | e in b.edges
      ensures 1 <= e.length && e.value < Pow2(e.length) && e.node.start == b.start + e.length <= WORD && Shaped(e.node)
    {
      var k :| 0 <= k < |b.edges| && b.edges[k] == e;
      AlikeEdge(a, b, q, i, k);
    }
    forall j, k | 0 <= j < k < |b.edges|
      ensures b.edges[j].length != b.edges[k].length || b.edges[j].value != b.edges[k].value
    {
      AlikeEdge(a, b, q, i, j);
      AlikeEdge(a, b, q, i, k);
      ShapedEdges(a);
    }
    if b.wild.Some? {
      AlikeWild(a, b, q, i);
    }
  }

  lemma AlikeEdge(a: Node, b: Node, q: string, i: Insn, k: nat)
    requires Shaped(a) && AlikeChildren(a, b, q, i) && k < |b.edges|
    ensures var e := b.edges[k];
      && e.length == a.edges[k].length && e.value == a.edges[k].value
      && 1 <= e.length && e.value < Pow2(e.length) && e.node.start == b.start + e.length <= WORD && Shaped(e.node)
  {
    hide HasPath, Pow2, Shaped;
    ShapedEdges(a);
    assert a.edges[k] in a.edges;
  }

  lemma AlikeWild(a: Node, b: Node, q: string, i: Insn)
    requires Shaped(a) && AlikeChildren(a, b, q, i) && b.wild.Some?
    ensures b.wild.value.node.start == b.start + b.wild.value.length && Shaped(b.wild.value.node)
  {
    hide HasPath, Shaped;
    ShapedWild(a);
  }

  /** Replacing children by ones with the same paths keeps the paths. */
  lemma AlikePaths(a: Node, b: Node, q: string, i: Insn)
    requires AlikeChildren(a, b, q, i)
    ensures HasPath(a, q, i) <==> HasPath(b, q, i)
  {
    hide HasPath, Through, ThroughWild, Shaped, Alike;
    if a.target.None? {
      PathDef(a, q, i);
      PathDef(b, q, i);
      forall k | 0 <= k < |a.edges| ensures Through(a.edges[k], q, i) <==> Through(b.edges[k], q, i) {
        AlikeThrough(a.edges[k], b.edges[k], q, i);
      }
      if e :| e in a.edges && Through(e, q, i) {
        var k :| 0 <= k < |a.edges| && a.edges[k] == e;
        assert b.edges[k] in b.edges && Through(b.edges[k], q, i);
      }
      if e :| e in b.edges && Through(e, q, i) {
        var k :| 0 <= k < |b.edges| && b.edges[k] == e;
        assert a.edges[k] in a.edges && Through(a.edges[k], q, i);
      }
      if a.wild.Some? {
        AlikeThrough(a.wild.value, b.wild.value, q, i);
      }
    } else {
      LeafPaths(a, q, i);
      LeafPaths(b, q, i);
    }
  }

  lemma LeafPaths(n: Node, q: string, i: Insn)
    requires n.target.Some?
    ensures HasPath(n, q, i) <==> n.target == Some(i) && q == []
  {
  }

  /** Optimize keeps exactly the paths of the tree, and its shape. */
  lemma {:induction false} OptimizePaths(n: Node, minLength: nat, minMembers: nat, q: string, i: Insn)
    requires Shaped(n) && minLength >= 1
    ensures var r := Optimize(n, minLength, minMembers);
      Shaped(r) && r.start == n.start && (HasPath(r, q, i) <==> HasPath(n, q, i))
    decreases WORD - n.start, 1, n
  {
    hide Shaped, HasPath, FactorAll, Selected, OptimizeEdges;
    var f, r := Factored(n, minLength, minMembers), Optimize(n, minLength, minMembers);
    assert HasPath(f, q, i) <==> HasPath(n, q, i) by {
      FactoredShaped(n, minLength, minMembers);
      FactorAllPaths(n, Selected(Labels(n.edges), minLength, minMembers), q, i);
    }
    ShapedEdges(n);
    ShapedEdges(f);
    OptimizeEdgesAlike(n.start, f.edges, minLength, minMembers, q, i);
    if n.wild.Some? {
      var w := n.wild.value;
      ShapedWild(n);
      forall k | 0 <= k <= |q|
        ensures Shaped(r.wild.value.node) && r.wild.value.node.start == w.node.start
        ensures HasPath(w.node, q[k..], i) <==> HasPath(r.wild.value.node, q[k..], i)
      {
        OptimizePaths(w.node, minLength, minMembers, q[k..], i);
      }
      assert q[0..] == q;
      assert Alike(w, r.wild.value, q, i);
    }
    AlikeShaped(f, r, q, i);
    AlikePaths(f, r, q, i);
  }

  lemma ShapedWild(n: Node)
    requires Shaped(n) && n.wild.Some?
    ensures Shaped(n.wild.value.node) && n.wild.value.node.start == n.start + n.wild.value.length <= WORD
    ensures n.wild.value.node < n
  {
  }

  lemma {:induction false} OptimizeEdgesAlike(start: nat, edges: seq<Edge>, minLength: nat, minMembers: nat, q: string, i: Insn)
    requires minLength >= 1
    requires forall e :: e in edges ==> Shaped(e.node) && start < e.node.start <= WORD
    ensures var r := OptimizeEdges(start, edges, minLength, minMembers);
      forall k :: 0 <= k < |edges| ==> Alike(edges[k], r[k], q, i)
    decreases WORD - start, 0, |edges|
  {
    if edges != [] {
      hide Shaped, Optimize, Alike;
      assert edges[0] in edges;
      OptimizeChildAlike(start, edges[0], minLength, minMembers, q, i);
      OptimizeEdgesAlike(start, edges[1..], minLength, minMembers, q, i);
    }
  }

  lemma {:induction false} OptimizeChildAlike(start: nat, e: Edge, minLength: nat, minMembers: nat, q: string, i: Insn)
    requires minLength >= 1 && Shaped(e.node) && start < e.node.start <= WORD
    ensures Alike(e, e.(node := Optimize(e.node, minLength, minMembers)), q, i)
    decreases WORD - start, 0, 0
  {
    hide Shaped, HasPath, Optimize;
    var child := Optimize(e.node, minLength, minMembers);
    forall k | 0 <= k <= |q|
      ensures Shaped(child) && child.start == e.node.start
      ensures HasPath(e.node, q[k..], i) <==> HasPath(child, q[k..], i)
    {
      OptimizePaths(e.node, minLength, minMembers, q[k..], i);
    }
    assert q[0..] == q;
  }

  // ----- Each edge moves at most once -----

  lemma StartsWithIsPrefix(e: Edge, p: Prefix)
    requires StartsWith(e, p)
    ensures Bits(p.value, p.length) <= Bits(e.value, e.length)
  {
    BitsSplit(e.value, e.length, p.length);
  }

  lemma PrefixesOfOne(a: string, b: string, c: string)
    requires a <= c && b <= c
    ensures a <= b || b <= a
  {
    if |a| <= |b| {
      assert a == c[..|a|] && b == c[..|b|];
    }
  }

  /** Factoring out a prefix neither takes edges from nor gives edges to a prefix
      that does not overlap it. */
  lemma FactorLeavesOthers(n: Node, p: Prefix, other: Prefix, e: Edge)
    requires !Overlap(p, other)
    ensures (e in Factor(n, p).edges && StartsWith(e, other)) <==> (e in n.edges && StartsWith(e, other))
  {
    hide Bits, High, Filter, Intermediate, InsertEdge;
    if StartsWith(e, other) {
      StartsWithIsPrefix(e, other);
      if StartsWith(e, p) {
        StartsWithIsPrefix(e, p);
        PrefixesOfOne(Bits(p.value, p.length), Bits(other.value, other.length), Bits(e.value, e.length));
      }
    }
  }

  lemma {:induction false} FactorAllLeavesOthers(n: Node, ps: seq<Prefix>, other: Prefix, e: Edge)
    requires forall p :: p in ps ==> !Overlap(p, other)
    ensures (e in FactorAll(n, ps).edges && StartsWith(e, other)) <==> (e in n.edges && StartsWith(e, other))
    decreases ps
  {
    if ps != [] {
      hide Overlap, StartsWith, Factor;
      assert ps[0] in ps;
      FactorLeavesOthers(n, ps[0], other, e);
      FactorAllLeavesOthers(Factor(n, ps[0]), ps[1..], other, e);
    }
  }

  lemma SelectedExclusive(edges: seq<Prefix>, minLength: nat, minMembers: nat)
    requires minLength >= 1
    ensures Exclusive(Selected(edges, minLength, minMembers))
  {
    hide AllPrefixes, Ranking, Select, Overlap;
    var all := AllPrefixes(edges, minLength);
    SelectExclusive(Ranking(all, multiset(all), minMembers), []);
  }

  /** Each edge moves at most once: when its turn comes, a selected prefix collects exactly
      the node's original edges that start with it, and no edge starts with two of them. */
  lemma SelectedMoveOnce(n: Node, minLength: nat, minMembers: nat, k: nat, e: Edge)
    requires minLength >= 1 && k < |Selected(Labels(n.edges), minLength, minMembers)|
    ensures var ps := Selected(Labels(n.edges), minLength, minMembers);
      && ((e in FactorAll(n, ps[..k]).edges && StartsWith(e, ps[k])) <==> (e in n.edges && StartsWith(e, ps[k])))
      && forall j :: 0 <= j < |ps| && j != k && StartsWith(e, ps[k]) ==> !StartsWith(e, ps[j])
  {
    hide Selected, FactorAll, Overlap, StartsWith;
    var ps := Selected(Labels(n.edges), minLength, minMembers);
    SelectedExclusive(Labels(n.edges), minLength, minMembers);
    FactorAllLeavesOthers(n, ps[..k], ps[k], e);
    forall j | 0 <= j < |ps| && j != k && StartsWith(e, ps[k]) ensures !StartsWith(e, ps[j]) {
      OneSelected(ps[if j < k then j else k], ps[if j < k then k else j], e);
    }
  }

  /** An edge that starts with both of two prefixes makes them overlap. */
  lemma OneSelected(p: Prefix, q: Prefix, e: Edge)
    requires !Overlap(p, q)
    ensures !(StartsWith(e, p) && StartsWith(e, q))
  {
    hide Bits, StartsWith;
    if StartsWith(e, p) && StartsWith(e, q) {
      StartsWithIsPrefix(e, p);
      StartsWithIsPrefix(e, q);
      PrefixesOfOne(Bits(p.value, p.length), Bits(q.value, q.length), Bits(e.value, e.length));
    }
  }
}
