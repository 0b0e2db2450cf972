/** Which pattern wins in an optimized tree, and when Optimize changes what a word decodes
    to: it can only make the longer of two runs of fixed bits go first. */
module DecodeOptimizedOrder {
  import opened BinaryText
  import opened Common
  import opened DecodeTree
  import opened DecodeSearch
  import opened DecodeInsert
  import opened DecodeOptimize
  import opened DecodeTheorems
  import opened DecodePriority

  /** A node behind a whole run of fixed bits. */
  ghost predicate Whole(n: Node) {
    Built(n) && Ascends(n) && n.edges == []
  }

  /** What Optimize works on: a node as built, or one that it has put in between. */
  ghost predicate Runs(n: Node) {
    && Ascending(n.edges) && (forall e :: e in n.edges ==> Whole(e.node))
    && (n.wild.Some? ==>
          && Built(n.wild.value.node) && Ascends(n.wild.value.node)
          && (n.wild.value.length == 0 ==> Whole(n.wild.value.node)))
  }

  ghost predicate Workable(n: Node) {
    Shaped(n) && Runs(n)
  }

  lemma BuiltWorkable(n: Node)
    requires Built(n) && Ascends(n)
    ensures Workable(n)
  {
  }

  // ----- Factoring -----

  lemma {:induction false} GatherRuns(node: Node, matches: seq<Edge>, p: Prefix)
    requires Runs(node) && forall e :: e in matches ==> StartsWith(e, p) && Whole(e.node)
    ensures Runs(Gather(node, matches, p))
    decreases matches
  {
    if matches != [] {
      hide Whole, StartsWith, Built, Ascending, Ascends, InsertEdge;
      var e := matches[0];
      assert e in matches;
      WholeBuilt(e.node);
      if e.length > p.length {
        InsertAscending(node.edges, Shorten(e, p));
      }
      GatherRuns(Attach(node, Shorten(e, p)), matches[1..], p);
    }
  }

  lemma WholeBuilt(n: Node)
    requires Whole(n)
    ensures Built(n) && Ascends(n) && NoBitFirst(n) && !Zero(n) && Pure(n)
  {
    EndsRun(n);
  }

  /** A node in between is left by bits or by an edge of length zero. */
  lemma {:induction false} GatherPure(node: Node, matches: seq<Edge>, p: Prefix)
    requires (node.wild.None? || Zero(node)) && forall e :: e in matches ==> StartsWith(e, p)
    ensures Pure(Gather(node, matches, p))
    decreases matches
  {
    if matches != [] {
      hide StartsWith, InsertEdge;
      assert matches[0] in matches;
      GatherPure(Attach(node, Shorten(matches[0], p)), matches[1..], p);
    }
  }

  lemma {:induction false} FilterAscending(edges: seq<Edge>, p: Prefix, keep: bool)
    requires Ascending(edges)
    ensures Ascending(Filter(edges, p, keep))
    decreases edges
  {
    if edges != [] {
      hide StartsWith;
      var r := Filter(edges[1..], p, keep);
      FilterAscending(edges[1..], p, keep);
      forall k | 0 <= k < |r| ensures edges[0].length <= r[k].length {
        assert r[k] in r && r[k] in edges[1..];
      }
    }
  }

  /** Among the edges of f: what is left of those of n, and one for every prefix done. */
  ghost predicate Partly(f: Node, n: Node, done: seq<Prefix>) {
    Ascending(f.edges) && forall g :: g in f.edges ==> Left(g, n, done) || Made(g, done)
  }

  ghost predicate Left(g: Edge, n: Node, done: seq<Prefix>) {
    g in n.edges && forall p :: p in done ==> !StartsWith(g, p)
  }

  ghost predicate Made(g: Edge, done: seq<Prefix>) {
    Prefix(g.length, g.value) in done && Workable(g.node) && Pure(g.node)
  }

  lemma FactorPartly(f: Node, n: Node, done: seq<Prefix>, p: Prefix)
    requires Shaped(f) && Runs(n) && Partly(f, n, done) && Factorable(f, p) && forall d :: d in done ==> !Overlap(d, p)
    ensures Partly(Factor(f, p), n, done + [p])
  {
    hide Filter, Gather, InsertEdge, StartsWith, Shaped, Built, Overlap, Ascending, Pure;
    var node, ms := Node(f.start + p.length, [], None, None), Filter(f.edges, p, true);
    forall e | e in ms ensures Whole(e.node) {
      MatchLeft(f, n, done, p, e);
    }
    IntermediateReady(f, p);
    GatherShaped(node, ms, p);
    BareRuns(node);
    GatherRuns(node, ms, p);
    GatherPure(node, ms, p);
    FilterAscending(f.edges, p, false);
    InsertAscending(Filter(f.edges, p, false), Edge(p.length, p.value, Intermediate(f, p)));
    forall g | g in Factor(f, p).edges ensures Left(g, n, done + [p]) || Made(g, done + [p]) {
      if g in Filter(f.edges, p, false) {
        assert g in f.edges && !StartsWith(g, p);
      } else {
        assert g == Edge(p.length, p.value, Intermediate(f, p));
      }
    }
  }

  lemma BareRuns(n: Node)
    requires n.edges == [] && n.wild.None?
    ensures Runs(n)
  {
  }

  /** An edge that is moved is one of the original ones. */
  lemma MatchLeft(f: Node, n: Node, done: seq<Prefix>, p: Prefix, e: Edge)
    requires Runs(n) && Partly(f, n, done) && e in f.edges && StartsWith(e, p) && forall d :: d in done ==> !Overlap(d, p)
    ensures Whole(e.node)
  {
    hide StartsWith, Whole, Bits;
    StartsWithIsPrefix(e, p);
    assert Overlap(Prefix(e.length, e.value), p);
  }

  lemma {:induction false} FactorAllPartly(f: Node, n: Node, done: seq<Prefix>, ps: seq<Prefix>)
    requires Shaped(f) && Runs(n) && Partly(f, n, done) && Exclusive(done + ps)
    requires forall p :: p in ps ==> Factorable(f, p)
    ensures Partly(FactorAll(f, ps), n, done + ps)
    decreases ps
  {
    hide Shaped, Runs, Partly, Overlap, Filter, InsertEdge, Intermediate;
    if ps == [] {
      assert done + ps == done;
    } else {
      var p := ps[0];
      assert p in ps && (done + ps)[|done|] == p;
      forall d | d in done ensures !Overlap(d, p) {
        var k :| 0 <= k < |done| && done[k] == d;
        assert (done + ps)[k] == d;
      }
      FactorPartly(f, n, done, p);
      FactorShaped(f, p);
      assert done + ps == done + [p] + ps[1..];
      forall q | q in ps[1..] ensures Factorable(Factor(f, p), q) {
        assert q in ps && Factorable(f, q);
      }
      FactorAllPartly(Factor(f, p), n, done + [p], ps[1..]);
    }
  }

  lemma LabelStarts(e: Edge, p: Prefix)
    requires p.length <= e.length && e.value < Pow2(e.length) && p.value < Pow2(p.length)
    requires Bits(p.value, p.length) <= Bits(e.value, e.length)
    ensures StartsWith(e, p)
  {
    hide Bits, Pow2, Value;
    BitsSplit(e.value, e.length, p.length);
    var h := High(e.value, e.length - p.length);
    HighRange(e.value, e.length, p.length);
    var b := Bits(e.value, e.length);
    assert b[..p.length] == Bits(h, p.length) && b[..p.length] == Bits(p.value, p.length);
    ValueOfBits(h, p.length);
    ValueOfBits(p.value, p.length);
  }

  ghost predicate Parted(f: Node) {
    && Ascending(f.edges) && (forall e :: e in f.edges ==> Workable(e.node) && Pure(e.node))
    && (forall e, g :: e in f.edges && g in f.edges && Begins(e, g) ==> NoBitFirst(e.node) && !Zero(e.node))
  }

  /** After factoring, a label that another begins with is still a whole run. */
  lemma FactoredParted(n: Node, minLength: nat, minMembers: nat)
    requires Workable(n) && minLength >= 1
    ensures Parted(Factored(n, minLength, minMembers))
  {
    hide Shaped, Selected, FactorAll, Runs, Built, Overlap, Factorable, NoBitFirst, Ascending, Pure, Zero;
    var ps, f := Selected(Labels(n.edges), minLength, minMembers), Factored(n, minLength, minMembers);
    SelectedExclusive(Labels(n.edges), minLength, minMembers);
    FactoredShaped(n, minLength, minMembers);
    assert [] + ps == ps;
    NothingDone(n);
    FactorAllPartly(n, n, [], ps);
    ShapedEdges(f);
    forall e | e in f.edges ensures Workable(e.node) && Pure(e.node) {
      LeftWorkable(e, n, ps);
    }
    forall e, g | e in f.edges && g in f.edges && Begins(e, g) ensures NoBitFirst(e.node) && !Zero(e.node) {
      BeginsWhole(e, g, n, ps);
    }
  }

  lemma NothingDone(n: Node)
    requires Runs(n)
    ensures Partly(n, n, [])
  {
  }

  lemma LeftWorkable(e: Edge, n: Node, ps: seq<Prefix>)
    requires Runs(n) && (Left(e, n, ps) || Made(e, ps))
    ensures Workable(e.node) && Pure(e.node)
  {
    if Left(e, n, ps) {
      WholeBuilt(e.node);
      BuiltWorkable(e.node);
    }
  }

  lemma BeginsWhole(e: Edge, g: Edge, n: Node, ps: seq<Prefix>)
    requires Runs(n) && Exclusive(ps) && Begins(e, g) && (Left(e, n, ps) || Made(e, ps)) && (Left(g, n, ps) || Made(g, ps))
    requires e.value < Pow2(e.length) && g.value < Pow2(g.length)
    ensures NoBitFirst(e.node) && !Zero(e.node)
  {
    hide Bits, Pow2, StartsWith, Shaped, Built, HasPath, Workable;
    var p, q := Prefix(e.length, e.value), Prefix(g.length, g.value);
    LabelStarts(g, p);
    assert Overlap(p, q);
    if p in ps && q in ps {
      ExclusiveMembers(ps, p, q);
    } else {
      WholeBuilt(e.node);
    }
  }

  lemma ExclusiveMembers(ps: seq<Prefix>, p: Prefix, q: Prefix)
    requires Exclusive(ps) && p in ps && q in ps && p != q
    ensures !Overlap(p, q)
  {
    hide Bits;
    var i :| 0 <= i < |ps| && ps[i] == p;
    var j :| 0 <= j < |ps| && ps[j] == q;
    assert !Overlap(ps[if i < j then i else j], ps[if i < j then j else i]);
  }

  // ----- Optimize -----

  lemma {:induction false} OptimizeEdgesAt(start: nat, edges: seq<Edge>, minLength: nat, minMembers: nat, k: nat)
    requires minLength >= 1 && k < |edges|
    requires forall e :: e in edges ==> Shaped(e.node) && start < e.node.start <= WORD
    ensures edges[k] in edges
    ensures OptimizeEdges(start, edges, minLength, minMembers)[k] ==
      edges[k].(node := Optimize(edges[k].node, minLength, minMembers))
    decreases |edges|
  {
    hide Shaped, Optimize;
    assert edges[0] in edges;
    if k > 0 {
      OptimizeEdgesAt(start, edges[1..], minLength, minMembers, k - 1);
    }
  }

  lemma OptimizeNoBit(n: Node, minLength: nat, minMembers: nat)
    requires Shaped(n) && minLength >= 1 && NoBitFirst(n)
    ensures NoBitFirst(Optimize(n, minLength, minMembers))
  {
    hide Shaped, HasPath, Optimize;
    forall p: string, i: Insn | HasPath(Optimize(n, minLength, minMembers), p, i) ensures p == [] || p[0] == 'x' {
      OptimizePaths(n, minLength, minMembers, p, i);
    }
  }

  lemma {:induction false} OptimizeSorted(n: Node, minLength: nat, minMembers: nat)
    requires Workable(n) && minLength >= 1
    ensures Sorted(Optimize(n, minLength, minMembers))
    decreases WORD - n.start, 1, n
  {
    hide Optimize, Factored, Shaped, Runs, HasPath, NoBitFirst, Bits, Sorted, Built, Begins, Pure;
    var f, r := Factored(n, minLength, minMembers), Optimize(n, minLength, minMembers);
    FactoredParted(n, minLength, minMembers);
    ShapedEdges(f);
    OptimizeDef(n, minLength, minMembers);
    forall k | 0 <= k < |r.edges| ensures IsOptimized(f.edges[k], r.edges[k], minLength, minMembers) && Sorted(r.edges[k].node) {
      OptimizeEdgesAt(n.start, f.edges, minLength, minMembers, k);
      OptimizeSorted(f.edges[k].node, minLength, minMembers);
    }
    if n.wild.Some? {
      var w := n.wild.value;
      ShapedWild(n);
      RunsWild(n);
      OptimizeSorted(w.node, minLength, minMembers);
      if w.length == 0 {
        OptimizeNoBit(w.node, minLength, minMembers);
      }
    }
    OptimizedParted(f, r, minLength, minMembers);
    SortedDef(r);
  }

  ghost predicate IsOptimized(e: Edge, r: Edge, minLength: nat, minMembers: nat) {
    minLength >= 1 && Shaped(e.node) && r == e.(node := Optimize(e.node, minLength, minMembers))
  }

  lemma OptimizeDef(n: Node, minLength: nat, minMembers: nat)
    requires Shaped(n) && minLength >= 1
    ensures var f, r := Factored(n, minLength, minMembers), Optimize(n, minLength, minMembers);
      && (forall e :: e in f.edges ==> Shaped(e.node) && n.start < e.node.start <= WORD)
      && r.start == n.start && r.target == n.target
      && r.edges == OptimizeEdges(n.start, f.edges, minLength, minMembers) && r.wild.Some? == n.wild.Some?
      && (n.wild.Some? ==> IsOptimized(n.wild.value, r.wild.value, minLength, minMembers))
  {
    hide Factored, OptimizeEdges;
    ShapedEdges(Factored(n, minLength, minMembers));
  }

  lemma RunsWild(n: Node)
    requires Runs(n) && n.wild.Some?
    ensures Workable(n.wild.value.node) && (n.wild.value.length == 0 ==> NoBitFirst(n.wild.value.node))
  {
    BuiltWorkable(n.wild.value.node);
    if n.wild.value.length == 0 {
      WholeBuilt(n.wild.value.node);
    }
  }

  lemma SortedDef(r: Node)
    requires Ascending(r.edges)
    requires forall e, f :: e in r.edges && f in r.edges && Begins(e, f) ==> NoBitFirst(e.node) && !Zero(e.node)
    requires forall k :: 0 <= k < |r.edges| ==> Sorted(r.edges[k].node) && Pure(r.edges[k].node)
    requires r.wild.Some? ==> Sorted(r.wild.value.node) && (r.wild.value.length == 0 ==> NoBitFirst(r.wild.value.node))
    ensures Sorted(r)
  {
  }

  lemma OptimizedParted(f: Node, r: Node, minLength: nat, minMembers: nat)
    requires Parted(f) && minLength >= 1 && |r.edges| == |f.edges|
    requires forall k :: 0 <= k < |r.edges| ==> IsOptimized(f.edges[k], r.edges[k], minLength, minMembers)
    ensures Ascending(r.edges) && forall k :: 0 <= k < |r.edges| ==> Pure(r.edges[k].node)
    ensures forall e, g :: e in r.edges && g in r.edges && Begins(e, g) ==> NoBitFirst(e.node) && !Zero(e.node)
  {
    hide Optimize, Shaped, NoBitFirst, Bits, Pure, Zero;
    forall k | 0 <= k < |r.edges| ensures Pure(r.edges[k].node) {
      assert f.edges[k] in f.edges;
      OptimizePure(f.edges[k].node, minLength, minMembers);
    }
    forall e, g | e in r.edges && g in r.edges && Begins(e, g) ensures NoBitFirst(e.node) && !Zero(e.node) {
      var j :| 0 <= j < |r.edges| && r.edges[j] == e;
      var k :| 0 <= k < |r.edges| && r.edges[k] == g;
      assert Begins(f.edges[j], f.edges[k]) && f.edges[j] in f.edges && f.edges[k] in f.edges;
      OptimizeNoBit(f.edges[j].node, minLength, minMembers);
      OptimizePure(f.edges[j].node, minLength, minMembers);
    }
  }

  /** Optimize keeps what kind of edges leave a node. */
  lemma OptimizePure(n: Node, minLength: nat, minMembers: nat)
    requires Shaped(n) && minLength >= 1
    ensures var r := Optimize(n, minLength, minMembers);
      (Zero(r) <==> Zero(n)) && (Pure(n) ==> Pure(r))
  {
    hide Shaped, Optimize, OptimizeEdges;
    OptimizeDef(n, minLength, minMembers);
    if n.edges == [] {
      NothingSelected(minLength, minMembers);
      assert Labels(n.edges) == [];
    }
  }

  lemma NothingSelected(minLength: nat, minMembers: nat)
    requires minLength >= 1
    ensures Selected([], minLength, minMembers) == []
  {
    assert AllPrefixes([], minLength) == [];
    assert Ranking([], multiset([]), minMembers) == [];
  }

  // ----- The optimized tree -----

  /** Of the inserted patterns, p matches the word and leads all others that do in the tree. */
  ghost predicate Leader(r: Node, ins: seq<Insertion>, w: nat, p: string) {
    Contends(ins, w, p) && forall q :: Contends(ins, w, q) ==> Leads(r, p, q)
  }

  lemma OneLeader(r: Node, p: string, q: string)
    requires Leads(r, p, q) && Leads(r, q, p)
    ensures p == q
  {
    hide Falls;
  }

  /** In the optimized tree a word decodes to the owner of the pattern that leads. */
  lemma LeaderWins(ins: seq<Insertion>, minLength: nat, minMembers: nat, w: nat)
    requires Legal(ins) && minLength >= 1
    ensures Shaped(Optimize(Build(ins), minLength, minMembers))
    ensures var r := Optimize(Build(ins), minLength, minMembers);
      && (Decode(r, w).Some? ==> exists p :: Leader(r, ins, w, p))
      && forall p :: Leader(r, ins, w, p) ==> Decode(r, w) == FirstOwner(ins, p)
  {
    hide HasPath, Built, Shaped, Sorted, Ascends, Decode, FirstOwner, Matches, Rival, Leads, Optimize;
    var n := Build(ins);
    BuiltIsShaped(n);
    BuildAscends(ins);
    BuiltWorkable(n);
    var r := Optimize(n, minLength, minMembers);
    OptimizeSorted(n, minLength, minMembers);
    OptimizePaths(n, minLength, minMembers, [], 0);
    forall p: string, i: Insn | |p| == WORD && IsPattern(p) ensures HasPath(r, p, i) <==> FirstOwner(ins, p) == Some(i) {
      BuildPaths(ins, p, i);
      OptimizePaths(n, minLength, minMembers, p, i);
    }
    Contenders(r, ins, w);
    if Decode(r, w).Some? {
      var p := Winner(r, w);
      forall q | Contends(ins, w, q) ensures Leads(r, p, q) {
        assert Rival(r, q, FirstOwner(ins, q).value, w);
      }
      assert Leader(r, ins, w, p);
      forall q | Leader(r, ins, w, q) ensures q == p {
        OneLeader(r, p, q);
      }
    }
    forall p | Leader(r, ins, w, p) ensures Decode(r, w).Some? {
      OptimizedFinds(ins, minLength, minMembers, w, p);
    }
  }

  /** The first pattern still leads after Optimize if and only if the tree does not fall
      through where the pattern's run of fixed bits is the shorter one. */
  lemma FirstStillLeads(ins: seq<Insertion>, r: Node, w: nat, p: string)
    requires First(ins, w, p)
    ensures Leader(r, ins, w, p) <==>
      forall q, k: nat :: Contends(ins, w, q) && ForksAt(p, q, k) && !Free(p, k) ==> !Falls(r, p, k)
  {
    hide Falls, Contends;
    if Leader(r, ins, w, p) {
      forall q, k: nat | Contends(ins, w, q) && ForksAt(p, q, k) && !Free(p, k) ensures !Falls(r, p, k) {
        assert Leads(r, p, q) && Before(p, q);
      }
    }
    if forall q, k: nat :: Contends(ins, w, q) && ForksAt(p, q, k) && !Free(p, k) ==> !Falls(r, p, k) {
      forall q | Contends(ins, w, q) ensures Leads(r, p, q) {
        if q != p {
          var k: nat :| ForksAt(p, q, k) && ((p[k] == 'x') <==> !Free(p, k));
          assert LeadsAt(r, p, q, k);
        }
      }
    }
  }

  /** Optimize does not change what a word decodes to if and only if one instruction owns
      the pattern that is first and the one that leads in the optimized tree. */
  lemma OptimizeKeepsExactly(ins: seq<Insertion>, minLength: nat, minMembers: nat, w: nat, p: string, p': string)
    requires Legal(ins) && minLength >= 1 && First(ins, w, p)
    requires Shaped(Build(ins)) && Leader(Optimize(Build(ins), minLength, minMembers), ins, w, p')
    ensures Shaped(Optimize(Build(ins), minLength, minMembers))
    ensures Decode(Optimize(Build(ins), minLength, minMembers), w) == Decode(Build(ins), w) <==>
      FirstOwner(ins, p) == FirstOwner(ins, p')
  {
    hide Decode, Optimize, Shaped, FirstOwner, Leader, First, Build;
    FirstPatternWins(ins, w);
    LeaderWins(ins, minLength, minMembers, w);
  }

  /** Where the first of the patterns that match differs from each other one first at a free
      place, Optimize does not change what the word decodes to, whatever it factors out. */
  lemma OptimizeKeepsFirst(ins: seq<Insertion>, minLength: nat, minMembers: nat, w: nat, p: string)
    requires Legal(ins) && minLength >= 1 && First(ins, w, p)
    requires forall q, k: nat :: Contends(ins, w, q) && ForksAt(p, q, k) ==> Free(p, k)
    ensures Shaped(Optimize(Build(ins), minLength, minMembers))
    ensures Decode(Optimize(Build(ins), minLength, minMembers), w) == Decode(Build(ins), w) == FirstOwner(ins, p)
  {
    hide Decode, Optimize, Shaped, FirstOwner, Leader, First, Contends, Build, Falls;
    FirstPatternWins(ins, w);
    LeaderWins(ins, minLength, minMembers, w);
    FirstStillLeads(ins, Optimize(Build(ins), minLength, minMembers), w, p);
  }

  lemma OptimizedFinds(ins: seq<Insertion>, minLength: nat, minMembers: nat, w: nat, p: string)
    requires Legal(ins) && minLength >= 1 && Contends(ins, w, p) && Shaped(Optimize(Build(ins), minLength, minMembers))
    ensures Decode(Optimize(Build(ins), minLength, minMembers), w).Some?
  {
    hide HasPath, Shaped, Decode, Matches, Optimize;
    var i := FirstOwner(ins, p).value;
    BuildPaths(ins, p, i);
    OptimizePaths(Build(ins), minLength, minMembers, p, i);
    DecodeComplete(Optimize(Build(ins), minLength, minMembers), w, p, i);
  }

  // ----- A word that Optimize decodes otherwise -----

  /** k ones and then x. */
  function Ones(k: nat): (p: string)
    requires k <= WORD
    ensures |p| == WORD && IsPattern(p) && forall j :: 0 <= j < WORD ==> p[j] == if j < k then '1' else 'x'
  {
    seq(k, _ => '1') + seq(WORD - k, _ => 'x')
  }

  function Leaf(i: Insn): Node {
    Node(WORD, [], None, Some(i))
  }

  /** Behind k bits, x up to the end of the word. */
  function Tail(k: nat, i: Insn): Node
    requires k <= WORD
  {
    Node(k, [], Some(Edge(WORD - k, 0, Leaf(i))), None)
  }

  lemma OnesPrefix(k: nat)
    requires 1 <= k < WORD
    ensures PrefixLength(Ones(k)) == k && AllX(Ones(k)[k..]) && |Ones(k)[k..]| == WORD - k
  {
    var p := Ones(k);
    assert p[0] == '1' && p[k] == 'x' && (forall j :: 0 <= j < k ==> p[j] != 'x');
    var r := PrefixLength(p);
    assert r < WORD ==> p[r] == 'x';
  }

  lemma AddTail(k: nat, i: Insn, p: string)
    requires 1 <= k < WORD && |p| == WORD - k && AllX(p)
    ensures Built(NewNode(i, k)) && Add(NewNode(i, k), p, i).node == Tail(k, i)
  {
    assert p[0] == 'x' && PrefixLength(p) == |p|;
    assert Built(NewNode(i, WORD)) && Add(NewNode(i, WORD), [], i).node == Leaf(i);
    assert p[|p|..] == [];
  }

  lemma AddOnes(n: Node, k: nat, i: Insn)
    requires Built(n) && n.start == 0 && 1 <= k < WORD
    requires forall e :: e in n.edges ==> e.length != k
    ensures Add(n, Ones(k), i).node == n.(edges := InsertEdge(n.edges, Edge(k, Value(Ones(k)[..k]), Tail(k, i))))
  {
    hide InsertEdge, Value, Built;
    OnesPrefix(k);
    assert Ones(k)[0] == '1';
    AddTail(k, i, Ones(k)[k..]);
  }

  ghost function Two(): (ins: seq<Insertion>) {
    [Insertion(Ones(1), 0), Insertion(Ones(2), 1)]
  }

  ghost function TwoTree(): (n: Node) {
    Node(0, [Edge(1, 1, Tail(1, 0)), Edge(2, 3, Tail(2, 1))], None, None)
  }

  lemma TwoBuilt()
    ensures Legal(Two()) && Build(Two()) == TwoTree()
  {
    hide Add, Built, Tail, Ones;
    OneBuilt();
    var a, n := Insertion(Ones(1), 0), Node(0, [Edge(1, 1, Tail(1, 0))], None, None);
    assert Two()[..1] == [a];
    assert Ones(2)[..2] == "11";
    OnesValue();
    AddOnes(n, 2, 1);
  }

  lemma OneBuilt()
    ensures var ins := [Insertion(Ones(1), 0)]; Legal(ins) && Build(ins) == Node(0, [Edge(1, 1, Tail(1, 0))], None, None)
  {
    hide Add, Tail, Ones;
    var ins := [Insertion(Ones(1), 0)];
    assert ins[..0] == [];
    assert Ones(1)[..1] == "1";
    OnesValue();
    AddOnes(ROOT, 1, 0);
  }

  lemma OnesValue()
    ensures Value("1") == 1 && Value("11") == 3
  {
    assert "1"[..0] == "" && "11"[..1] == "1";
  }

  lemma SelectedTwo()
    ensures Selected([Prefix(1, 1), Prefix(2, 3)], 1, 1) == [Prefix(1, 1)]
    ensures Selected([Prefix(1, 1)], 1, 1) == [] && Selected([], 1, 1) == []
  {
    var a, b, c := Prefix(1, 1), Prefix(2, 3), Prefix(1, 1);
    assert Pow2(1) == 2 && High(3, 1) == 1;
    assert PrefixesOf(a, 0, 1) == [] && PrefixesOf(b, 1, 1) == [c];
    assert AllPrefixes([], 1) == [] && [a][1..] == [] && [b][1..] == [] && [a, b][1..] == [b];
    assert AllPrefixes([b], 1) == [c] && AllPrefixes([a, b], 1) == [c] && AllPrefixes([a], 1) == [];
    assert [c][1..] == [] && Ranking([], multiset([c]), 1) == [] && Ranking([c], multiset([c]), 1) == [c];
    assert Select([], [c]) == [c] && Select([c], []) == [c];
  }

  /** The node that Optimize puts behind the first bit. */
  ghost function Between(): (n: Node) {
    Node(1, [Edge(1, 1, Tail(2, 1))], Some(Edge(0, 0, Tail(1, 0))), None)
  }

  lemma TwoFactored()
    ensures Factor(TwoTree(), Prefix(1, 1)) == Node(0, [Edge(1, 1, Between())], None, None)
  {
    hide Tail;
    var a, b, p := Edge(1, 1, Tail(1, 0)), Edge(2, 3, Tail(2, 1)), Prefix(1, 1);
    assert Pow2(0) == 1 && Pow2(1) == 2;
    assert StartsWith(a, p) && StartsWith(b, p);
    assert Shorten(a, p) == Edge(0, 0, Tail(1, 0)) && Shorten(b, p) == Edge(1, 1, Tail(2, 1));
    assert [a, b][1..] == [b] && [b][1..] == [] && Filter([], p, true) == [] && Filter([], p, false) == [];
    assert Filter([b], p, true) == [b] && Filter([b], p, false) == [];
    assert Filter([a, b], p, true) == [a, b] && Filter([a, b], p, false) == [];
    var m := Node(1, [], None, None);
    assert Gather(m, [a, b], p) == Gather(Attach(m, Shorten(a, p)), [b], p);
    assert Gather(Attach(m, Shorten(a, p)), [b], p) == Between();
  }

  lemma TailShaped(k: nat, i: Insn)
    requires 1 <= k < WORD
    ensures Shaped(Tail(k, i)) && Shaped(Leaf(i))
  {
  }

  lemma OptimizeTail(k: nat, i: Insn)
    requires 1 <= k < WORD && Shaped(Tail(k, i))
    ensures Optimize(Tail(k, i), 1, 1) == Tail(k, i)
  {
    hide Selected;
    SelectedTwo();
    TailShaped(k, i);
    assert Labels([]) == [];
    assert Optimize(Leaf(i), 1, 1) == Leaf(i);
  }

  /** A node whose children Optimize does not change. */
  lemma OptimizeOne(n: Node, e: Edge)
    requires Shaped(n) && Factored(n, 1, 1).edges == [e] && Shaped(e.node) && Optimize(e.node, 1, 1) == e.node
    requires n.wild.Some? ==> Shaped(n.wild.value.node) && Optimize(n.wild.value.node, 1, 1) == n.wild.value.node
    ensures Optimize(n, 1, 1) == n.(edges := [e])
  {
    hide Optimize, Factored, Shaped;
    OptimizeDef(n, 1, 1);
    OptimizeEdgesAt(n.start, [e], 1, 1, 0);
  }

  lemma TwoOptimized()
    ensures Shaped(TwoTree()) && Optimize(TwoTree(), 1, 1) == Node(0, [Edge(1, 1, Between())], None, None)
  {
    hide Selected, Shaped, Tail, Factor, Optimize, Between;
    TwoShaped();
    BetweenOptimized();
    SelectedTwo();
    TwoFactored();
    assert Labels(TwoTree().edges) == [Prefix(1, 1), Prefix(2, 3)];
    FactorOne(TwoTree(), Prefix(1, 1));
    OptimizeOne(TwoTree(), Edge(1, 1, Between()));
  }

  lemma TwoShaped()
    ensures Shaped(TwoTree())
  {
    hide Built, TwoTree;
    TwoBuilt();
    BuiltIsShaped(TwoTree());
  }

  lemma FactorOne(n: Node, p: Prefix)
    ensures FactorAll(n, [p]) == Factor(n, p) && FactorAll(n, []) == n
  {
    hide Factor;
    assert [p][1..] == [];
  }

  lemma BetweenOptimized()
    ensures Shaped(Between()) && Optimize(Between(), 1, 1) == Between()
  {
    BetweenShaped();
    hide Selected, Shaped, Tail, Factor, Optimize;
    SelectedTwo();
    assert Labels(Between().edges) == [Prefix(1, 1)];
    FactorOne(Between(), Prefix(1, 1));
    OptimizeTail(1, 0);
    OptimizeTail(2, 1);
    OptimizeOne(Between(), Edge(1, 1, Tail(2, 1)));
  }

  lemma BetweenShaped()
    ensures Shaped(Between()) && Shaped(Tail(1, 0)) && Shaped(Tail(2, 1))
  {
    TailShaped(1, 0);
    TailShaped(2, 1);
    assert Pow2(1) == 2;
  }

  lemma TailDecodes(k: nat, i: Insn, w: nat)
    requires 1 <= k < WORD && Shaped(Tail(k, i))
    ensures Decode(Tail(k, i), w) == Some(i)
  {
    TailShaped(k, i);
    assert Decode(Leaf(i), w) == Some(i);
  }

  /** Optimize may change what a word decodes to: for every word that starts with two ones,
      the shorter pattern goes first before and the longer one after. */
  lemma OptimizeChangesDecode(w: nat)
    requires Matches(Ones(2), w, 0)
    ensures Legal(Two()) && Shaped(Optimize(Build(Two()), 1, 1))
    ensures Decode(Build(Two()), w) == Some(0) && Decode(Optimize(Build(Two()), 1, 1), w) == Some(1)
  {
    hide Optimize, Shaped, Bits, Chunk, Tail;
    TwoBuilt();
    TwoOptimized();
    BetweenOptimized();
    OptimizePaths(TwoTree(), 1, 1, [], 0);
    TailShaped(1, 0);
    TailShaped(2, 1);
    TailDecodes(1, 0, w);
    TailDecodes(2, 1, w);
    OnesChunks(w);
  }

  lemma OnesChunks(w: nat)
    requires Matches(Ones(2), w, 0)
    ensures Chunk(w, 0, 1) == 1 && Chunk(w, 1, 1) == 1
  {
    hide Chunk;
    var b := Bits(w, WORD);
    assert Ones(2)[0] == '1' && Ones(2)[1] == '1';
    assert Bits(1, 1) == "1" && Pow2(1) == 2 by {
      assert Bits(0, 0) == "";
    }
    hide Bits;
    assert b[0..1] == "1" && b[1..2] == "1";
    ChunkMatches(w, 0, 1, 1);
    ChunkMatches(w, 1, 1, 1);
  }
}
