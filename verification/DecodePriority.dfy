/** Which of several matching patterns a word decodes to: an order on patterns that the
    search follows, and how much of it Optimize keeps. */
module DecodePriority {
  import opened BinaryText
  import opened Common
  import opened DecodeTree
  import opened DecodeSearch
  import opened DecodeInsert
  import opened DecodeOptimize
  import opened DecodeTheorems

  // ----- The order -----

  /** k is the first place where exactly one of the patterns is x. */
  ghost predicate ForksAt(p: string, q: string, k: nat) {
    && |p| == |q| && k < |p| && (p[k] == 'x') != (q[k] == 'x')
    && forall i :: 0 <= i < k ==> ((p[i] == 'x') <==> (q[i] == 'x'))
  }

  /** No fixed bit stands right before k. */
  ghost predicate Free(p: string, k: nat)
    requires k <= |p|
  {
    k == 0 || p[k - 1] == 'x'
  }

  /** At a free place the fixed bit goes first. At any other the x does, which is where the
      run of fixed bits is shorter. */
  ghost predicate Before(p: string, q: string) {
    exists k: nat :: ForksAt(p, q, k) && ((p[k] == 'x') <==> !Free(p, k))
  }

  /** Of two different patterns that match a word, one comes before the other. */
  lemma OneFirst(p: string, q: string, w: nat, start: nat)
    requires p != q && |p| == |q| && start + |p| == WORD && Matches(p, w, start) && Matches(q, w, start)
    ensures Before(p, q) <==> !Before(q, p)
  {
    if forall k :: 0 <= k < |p| ==> ((p[k] == 'x') <==> (q[k] == 'x')) {
      SameMask(p, q, w, start);
    }
    hide Matches, Bits;
    var k := FirstFork(p, q, 0);
    BeforeAt(p, q, k);
    BeforeAt(q, p, k);
  }

  lemma BeforeAt(p: string, q: string, k: nat)
    requires ForksAt(p, q, k)
    ensures ForksAt(q, p, k) && (Free(p, k) <==> Free(q, k)) && (Before(p, q) <==> ((p[k] == 'x') <==> !Free(p, k)))
  {
    if Before(p, q) {
      var m: nat :| ForksAt(p, q, m) && ((p[m] == 'x') <==> !Free(p, m));
      assert m == k;
    }
  }

  lemma SameMask(p: string, q: string, w: nat, start: nat)
    requires |p| == |q| && start + |p| == WORD && Matches(p, w, start) && Matches(q, w, start)
    requires forall k :: 0 <= k < |p| ==> ((p[k] == 'x') <==> (q[k] == 'x'))
    ensures p == q
  {
    hide Bits;
  }

  lemma {:induction false} FirstFork(p: string, q: string, from: nat) returns (k: nat)
    requires |p| == |q| && (exists k :: from <= k < |p| && (p[k] == 'x') != (q[k] == 'x'))
    requires forall i :: 0 <= i < from ==> ((p[i] == 'x') <==> (q[i] == 'x'))
    ensures ForksAt(p, q, k)
    decreases |p| - from
  {
    if (p[from] == 'x') != (q[from] == 'x') {
      k := from;
    } else {
      k := FirstFork(p, q, from + 1);
    }
  }

  // ----- The order in a tree -----

  /** The node is left by an edge of length zero when no other fits. */
  ghost predicate Zero(n: Node) {
    n.wild.Some? && n.wild.value.length == 0
  }

  ghost predicate Passes(e: Edge, p: string) {
    exists i: Insn :: Through(e, p, i)
  }

  ghost predicate PassesWild(e: Edge, p: string) {
    exists i: Insn :: ThroughWild(e, p, i)
  }

  /** The pattern's way through the tree has such a node at k. */
  ghost predicate Falls(n: Node, p: string, k: nat) {
    if k == 0 then Zero(n)
    else
      || (exists e :: e in n.edges && e.length <= k && Passes(e, p) && Falls(e.node, p[e.length..], k - e.length))
      || (n.wild.Some? && n.wild.value.length <= k && PassesWild(n.wild.value, p)
          && Falls(n.wild.value.node, p[n.wild.value.length..], k - n.wild.value.length))
  }

  /** As Before, but where the tree falls through at the end of the shorter run, the longer
      one goes first. */
  ghost predicate Leads(n: Node, p: string, q: string) {
    p == q || exists k: nat :: ForksAt(p, q, k) && LeadsAt(n, p, q, k)
  }

  ghost predicate LeadsAt(n: Node, p: string, q: string, k: nat)
    requires ForksAt(p, q, k)
  {
    if Free(p, k) then p[k] != 'x' else (p[k] == 'x') <==> !Falls(n, if p[k] == 'x' then p else q, k)
  }

  /** No pattern of the tree starts with a fixed bit. */
  ghost predicate NoBitFirst(n: Node) {
    forall p: string, i: Insn :: HasPath(n, p, i) ==> p == [] || p[0] == 'x'
  }

  ghost predicate Begins(e: Edge, f: Edge) {
    e.length < f.length && Bits(e.value, e.length) <= Bits(f.value, f.length)
  }

  ghost predicate Ascending(edges: seq<Edge>) {
    forall j, k :: 0 <= j < k < |edges| ==> edges[j].length <= edges[k].length
  }

  /** Not both edges with bits and an edge with x. */
  ghost predicate Pure(n: Node) {
    n.edges == [] || n.wild.None? || Zero(n)
  }

  /** What the search needs to follow the order: shorter labels come first; where one label
      begins with another, the other is a whole run of fixed bits; behind fixed bits there
      are either more of them or x; and an edge of length zero leads to x. */
  ghost predicate Sorted(n: Node) {
    && Ascending(n.edges)
    && (forall e, f :: e in n.edges && f in n.edges && Begins(e, f) ==> NoBitFirst(e.node) && !Zero(e.node))
    && (forall e :: e in n.edges ==> Pure(e.node) && Sorted(e.node))
    && (n.wild.Some? ==> Sorted(n.wild.value.node) && (n.wild.value.length == 0 ==> NoBitFirst(n.wild.value.node)))
  }

  ghost predicate Rival(n: Node, q: string, i: Insn, w: nat) {
    HasPath(n, q, i) && n.start + |q| == WORD && Matches(q, w, n.start)
  }

  // ----- Pieces of patterns -----

  /** Fixed bits that match the same word agree. */
  lemma SameBit(p: string, q: string, w: nat, start: nat, k: nat)
    requires |p| == |q| && start + |p| == WORD && Matches(p, w, start) && Matches(q, w, start)
    requires k < |p| && p[k] != 'x' && q[k] != 'x'
    ensures p[k] == q[k]
  {
    hide Bits;
  }

  /** A pattern that starts with a bit and one that starts with x. */
  lemma BitLeads(n: Node, p: string, q: string)
    requires |p| == |q| && p != [] && p[0] != 'x' && q[0] == 'x'
    ensures Leads(n, p, q)
  {
    assert ForksAt(p, q, 0);
  }

  /** The fork of two patterns behind the same label. */
  lemma ForkBehind(a: string, p: string, q: string, k: nat)
    requires ForksAt(p, q, k)
    ensures ForksAt(a + p, a + q, |a| + k) && (a + p)[|a| + k] == p[k] && (a + q)[|a| + k] == q[k]
    ensures Free(a + p, |a| + k) <==> if k == 0 then a == [] || a[|a| - 1] == 'x' else Free(p, k)
  {
    var m := |a| + k;
    assert (a + p)[m] == p[k] && (a + q)[m] == q[k];
    forall i | 0 <= i < m ensures (a + p)[i] == 'x' <==> (a + q)[i] == 'x' {
      if i >= |a| {
        assert (a + p)[i] == p[i - |a|] && (a + q)[i] == q[i - |a|];
      }
    }
    if k > 0 {
      assert (a + p)[m - 1] == p[k - 1];
    } else if a != [] {
      assert (a + p)[m - 1] == a[|a| - 1];
    }
  }

  // ----- Ways through a tree -----

  lemma SortedWild(n: Node)
    requires Sorted(n) && n.wild.Some?
    ensures Sorted(n.wild.value.node) && (n.wild.value.length == 0 ==> NoBitFirst(n.wild.value.node))
  {
  }

  lemma SortedChild(n: Node, e: Edge)
    requires Sorted(n) && e in n.edges
    ensures Sorted(e.node) && Pure(e.node)
  {
  }

  lemma SortedEdges(n: Node, e: Edge, f: Edge)
    requires Sorted(n) && e in n.edges && f in n.edges && Begins(e, f)
    ensures NoBitFirst(e.node) && !Zero(e.node)
  {
  }

  lemma WildThrough(n: Node, q: string, i: Insn)
    requires Sorted(n) && n.wild.Some? && ThroughWild(n.wild.value, q, i)
    ensures q == [] || q[0] == 'x'
  {
    hide Sorted;
    SortedWild(n);
    var e := n.wild.value;
    if e.length == 0 {
      assert q[0..] == q;
    } else {
      assert q[..e.length][0] == q[0];
    }
  }

  lemma EdgeThrough(e: Edge, q: string, i: Insn)
    requires Through(e, q, i)
    ensures e.length <= |q| && forall k :: 0 <= k < e.length ==> q[k] == Bits(e.value, e.length)[k] && q[k] != 'x'
  {
    BitsAreBinary(e.value, e.length);
    hide Bits;
    forall k | 0 <= k < e.length ensures q[k] == Bits(e.value, e.length)[k] {
      assert q[..e.length][k] == q[k];
    }
  }

  /** Two edges whose labels agree as far as both go: the shorter one is a whole run. */
  lemma EdgesPart(n: Node, e: Edge, p: string, f: Edge, q: string, i: Insn, j: Insn)
    requires Sorted(n) && e in n.edges && f in n.edges && e.length < f.length
    requires Through(e, p, i) && Through(f, q, j) && |p| == |q| && forall k :: 0 <= k < e.length ==> p[k] == q[k]
    ensures !Zero(e.node) && e.length < |p| && p[e.length] == 'x'
    ensures forall k :: 0 <= k < f.length ==> q[k] != 'x' && (k < e.length ==> p[k] != 'x')
  {
    hide Sorted, HasPath, Bits;
    EdgeThrough(e, p, i);
    EdgeThrough(f, q, j);
    var a, b := Bits(e.value, e.length), Bits(f.value, f.length);
    assert forall k :: 0 <= k < e.length ==> a[k] == b[k];
    assert a <= b;
    SortedEdges(n, e, f);
    assert p[e.length..] != [] && p[e.length..][0] == p[e.length];
  }

  /** Labels of the same length that a pattern starts with are one label. */
  lemma SameLabel(n: Node, e: Edge, f: Edge, q: string, i: Insn, j: Insn)
    requires Shaped(n) && e in n.edges && f in n.edges && e.length == f.length && Through(e, q, i) && Through(f, q, j)
    ensures e == f
  {
    ShapedEdges(n);
    hide Shaped, HasPath, Pow2, Bits;
    ValueOfBits(e.value, e.length);
    ValueOfBits(f.value, f.length);
    var a :| 0 <= a < |n.edges| && n.edges[a] == e;
    var b :| 0 <= b < |n.edges| && n.edges[b] == f;
  }

  /** A pattern passes at most one edge. */
  lemma OnePassed(n: Node, e: Edge, f: Edge, q: string, i: Insn, j: Insn)
    requires Shaped(n) && Sorted(n) && e in n.edges && f in n.edges && Through(e, q, i) && Through(f, q, j)
    ensures e == f
  {
    if e.length == f.length {
      SameLabel(n, e, f, q, i, j);
    } else if e.length < f.length {
      EdgesPart(n, e, q, f, q, i, j);
    } else {
      EdgesPart(n, f, q, e, q, j, i);
    }
  }

  lemma FallsEdge(n: Node, e: Edge, q: string, i: Insn, k: nat)
    requires Shaped(n) && Sorted(n) && e in n.edges && Through(e, q, i) && e.length <= k
    ensures Falls(n, q, k) <==> Falls(e.node, q[e.length..], k - e.length)
  {
    hide Shaped, Sorted, HasPath, Bits, Distinct;
    assert Passes(e, q);
    ShapedEdges(n);
    if Falls(n, q, k) {
      if f :| f in n.edges && f.length <= k && Passes(f, q) && Falls(f.node, q[f.length..], k - f.length) {
        var j :| Through(f, q, j);
        OnePassed(n, e, f, q, i, j);
      } else {
        var j :| ThroughWild(n.wild.value, q, j);
        EdgeThrough(e, q, i);
        WildThrough(n, q, j);
      }
    }
  }

  lemma FallsWild(n: Node, q: string, i: Insn, k: nat)
    requires Shaped(n) && Sorted(n) && n.wild.Some? && ThroughWild(n.wild.value, q, i) && 0 < k < |q| && n.wild.value.length <= k
    ensures Falls(n, q, k) <==> Falls(n.wild.value.node, q[n.wild.value.length..], k - n.wild.value.length)
  {
    hide Sorted, Shaped, Through, ThroughWild;
    assert PassesWild(n.wild.value, q);
    WildThrough(n, q, i);
    ShapedEdges(n);
    if f :| f in n.edges && f.length <= k && Passes(f, q) && Falls(f.node, q[f.length..], k - f.length) {
      var j :| Through(f, q, j);
      EdgeThrough(f, q, j);
    }
  }

  // ----- The search follows it -----

  lemma PathOfEdge(e: Edge, r: string, i: Insn)
    requires HasPath(e.node, r, i)
    ensures Through(e, Bits(e.value, e.length) + r, i)
  {
    var a := Bits(e.value, e.length);
    assert (a + r)[e.length..] == r && (a + r)[..e.length] == a;
  }

  lemma PathOfWild(e: Edge, r: string, i: Insn)
    requires HasPath(e.node, r, i)
    ensures ThroughWild(e, seq(e.length, _ => 'x') + r, i)
  {
    var a := seq(e.length, _ => 'x');
    assert (a + r)[e.length..] == r && (a + r)[..e.length] == a;
  }

  /** A node behind fixed bits, with a pattern that goes on with a bit and one with x. */
  lemma PureZero(n: Node, r: string, t: string, i: Insn, j: Insn)
    requires Shaped(n) && Sorted(n) && Pure(n) && HasPath(n, r, i) && HasPath(n, t, j)
    requires r != [] && r[0] != 'x' && t != [] && t[0] == 'x'
    ensures Zero(n)
  {
    if n.wild.Some? && ThroughWild(n.wild.value, r, i) {
      WildThrough(n, r, i);
    }
    if e :| e in n.edges && Through(e, t, j) {
      EdgeThrough(e, t, j);
    }
  }

  lemma EdgeBehind(n: Node, e: Edge, r: string, t: string, i: Insn, j: Insn)
    requires Shaped(n) && Sorted(n) && e in n.edges && HasPath(e.node, r, i) && HasPath(e.node, t, j)
    requires |r| == |t| && Leads(e.node, r, t)
    ensures var a := Bits(e.value, e.length); Leads(n, a + r, a + t)
  {
    hide Sorted, Shaped, HasPath, Bits, Through, Falls, Pure, LeadsAt, ForksAt;
    var a := Bits(e.value, e.length);
    if r != t {
      var k: nat :| ForksAt(r, t, k) && LeadsAt(e.node, r, t, k);
      EdgeBehindAt(n, e, r, t, i, j, k);
    }
  }

  lemma EdgeBehindAt(n: Node, e: Edge, r: string, t: string, i: Insn, j: Insn, k: nat)
    requires Shaped(n) && Sorted(n) && e in n.edges && HasPath(e.node, r, i) && HasPath(e.node, t, j)
    requires ForksAt(r, t, k) && LeadsAt(e.node, r, t, k)
    ensures var a := Bits(e.value, e.length); ForksAt(a + r, a + t, |a| + k) && LeadsAt(n, a + r, a + t, |a| + k)
  {
    hide Sorted, Shaped, HasPath, Bits, Through, Falls, Pure;
    ShapedEdges(n);
    SortedChild(n, e);
    BitsAreBinary(e.value, e.length);
    ForkBehind(Bits(e.value, e.length), r, t, k);
    BehindFalls(n, e, r, i, k);
    BehindFalls(n, e, t, j, k);
    FallsAtOnce(e.node, t);
    if k == 0 {
      PureZero(e.node, r, t, i, j);
    }
  }

  lemma FallsAtOnce(n: Node, p: string)
    ensures Falls(n, p, 0) <==> Zero(n)
  {
  }

  lemma BehindFalls(n: Node, e: Edge, r: string, i: Insn, k: nat)
    requires Shaped(n) && Sorted(n) && e in n.edges && HasPath(e.node, r, i)
    ensures var a := Bits(e.value, e.length); Falls(n, a + r, |a| + k) <==> Falls(e.node, r, k)
  {
    hide Sorted, Shaped, HasPath, Falls;
    var a := Bits(e.value, e.length);
    PathOfEdge(e, r, i);
    FallsEdge(n, e, a + r, i, |a| + k);
    assert (a + r)[|a|..] == r;
  }

  lemma WildBehind(n: Node, r: string, t: string, i: Insn, j: Insn)
    requires Shaped(n) && Sorted(n) && n.wild.Some? && HasPath(n.wild.value.node, r, i) && HasPath(n.wild.value.node, t, j)
    requires |r| == |t| && Leads(n.wild.value.node, r, t)
    ensures var a := seq(n.wild.value.length, _ => 'x'); Leads(n, a + r, a + t)
  {
    hide Sorted, Shaped, HasPath, Falls;
    var e := n.wild.value;
    var a := seq(e.length, _ => 'x');
    if r != t {
      var k: nat :| ForksAt(r, t, k) && LeadsAt(e.node, r, t, k);
      ForkBehind(a, r, t, k);
      if k > 0 {
        PathOfWild(e, r, i);
        PathOfWild(e, t, j);
        FallsWild(n, a + r, i, |a| + k);
        FallsWild(n, a + t, j, |a| + k);
        assert (a + r)[|a|..] == r && (a + t)[|a|..] == t;
      }
      assert LeadsAt(n, a + r, a + t, |a| + k);
    }
  }

  lemma SameLengthSame(n: Node, j: nat, k: nat, p: string, q: string, i: Insn, i': Insn, w: nat)
    requires Shaped(n) && j < |n.edges| && k < |n.edges| && j != k
    requires Through(n.edges[j], p, i) && Through(n.edges[k], q, i') && |p| == |q| && n.start + |p| == WORD
    requires Matches(p, w, n.start) && Matches(q, w, n.start)
    ensures n.edges[j].length != n.edges[k].length
  {
    var e, f := n.edges[j], n.edges[k];
    ShapedEdges(n);
    assert e in n.edges && f in n.edges;
    hide Shaped, HasPath;
    if e.length == f.length {
      LabelMatches(p, w, n.start, e.length, e.value);
      LabelMatches(q, w, n.start, f.length, f.value);
    }
  }

  ghost predicate RivalFrom(n: Node, k: nat, q: string, i: Insn, w: nat)
    requires k <= |n.edges|
  {
    && n.start + |q| == WORD && Matches(q, w, n.start)
    && ((exists m :: k <= m < |n.edges| && Through(n.edges[m], q, i)) || (n.wild.Some? && ThroughWild(n.wild.value, q, i)))
  }

  /** Decode gives the instruction of a pattern that leads all others that match. */
  lemma {:induction false} Winner(n: Node, w: nat) returns (p: string)
    requires Shaped(n) && Sorted(n) && Decode(n, w).Some?
    ensures Rival(n, p, Decode(n, w).value, w)
    ensures forall q: string, i: Insn :: Rival(n, q, i, w) ==> Leads(n, p, q)
    decreases n, |n.edges| + 1, 0
  {
    if n.target.Some? {
      p := [];
    } else {
      p := WinnerFrom(n, 0, w);
      forall q: string, i: Insn | Rival(n, q, i, w) ensures Leads(n, p, q) {
        RivalEdge(n, q, i, w);
      }
      RivalPath(n, p, Decode(n, w).value, w);
    }
  }

  lemma RivalEdge(n: Node, q: string, i: Insn, w: nat)
    requires n.target.None? && Rival(n, q, i, w)
    ensures RivalFrom(n, 0, q, i, w)
  {
    if e :| e in n.edges && Through(e, q, i) {
      var m :| 0 <= m < |n.edges| && n.edges[m] == e;
    }
  }

  lemma RivalPath(n: Node, q: string, i: Insn, w: nat)
    requires n.target.None? && RivalFrom(n, 0, q, i, w)
    ensures Rival(n, q, i, w)
  {
    if m :| 0 <= m < |n.edges| && Through(n.edges[m], q, i) {
      assert n.edges[m] in n.edges;
    }
  }

  lemma {:induction false} WinnerFrom(n: Node, k: nat, w: nat) returns (p: string)
    requires Shaped(n) && Sorted(n) && n.target.None?
    requires k <= |n.edges| && DecodeFrom(n, k, w).Some?
    ensures RivalFrom(n, k, p, DecodeFrom(n, k, w).value, w)
    ensures forall q: string, i: Insn :: RivalFrom(n, k, q, i, w) ==> Leads(n, p, q)
    decreases n, |n.edges| - k, 1
  {
    if k == |n.edges| {
      p := WinnerWild(n, w);
    } else {
      var e := n.edges[k];
      assert e in n.edges;
      if Chunk(w, n.start, e.length) == e.value && Decode(e.node, w).Some? {
        p := WinnerEdge(n, k, w);
      } else {
        p := WinnerFrom(n, k + 1, w);
        forall q: string, i: Insn | RivalFrom(n, k, q, i, w) ensures Leads(n, p, q) {
          if Through(e, q, i) {
            FoundThrough(n, e, q, i, w);
          }
          assert RivalFrom(n, k + 1, q, i, w);
        }
      }
    }
  }

  /** An edge that leads to a matching pattern is not given up on. */
  lemma FoundThrough(n: Node, e: Edge, q: string, i: Insn, w: nat)
    requires Shaped(n) && e in n.edges && n.start + |q| == WORD && Matches(q, w, n.start) && Through(e, q, i)
    ensures Chunk(w, n.start, e.length) == e.value && Decode(e.node, w).Some?
  {
    LabelMatches(q, w, n.start, e.length, e.value);
    DecodeComplete(e.node, w, q[e.length..], i);
  }

  lemma {:induction false} WinnerWild(n: Node, w: nat) returns (p: string)
    requires Shaped(n) && Sorted(n) && n.target.None?
    requires DecodeFrom(n, |n.edges|, w).Some?
    ensures RivalFrom(n, |n.edges|, p, DecodeFrom(n, |n.edges|, w).value, w)
    ensures forall q: string, i: Insn :: RivalFrom(n, |n.edges|, q, i, w) ==> Leads(n, p, q)
    decreases n, 0, 0
  {
    hide Leads, Shaped, Sorted;
    ShapedWild(n);
    SortedWild(n);
    var e := n.wild.value;
    var r := Winner(e.node, w);
    p := seq(e.length, _ => 'x') + r;
    WildRival(n, w, r);
    forall q: string, i: Insn | RivalFrom(n, |n.edges|, q, i, w) ensures Leads(n, p, q) {
      WildLeads(n, w, r, q, i);
    }
  }

  lemma WildRival(n: Node, w: nat, r: string)
    requires Shaped(n) && n.target.None? && n.wild.Some? && Decode(n.wild.value.node, w).Some?
    requires Rival(n.wild.value.node, r, Decode(n.wild.value.node, w).value, w)
    ensures DecodeFrom(n, |n.edges|, w) == Decode(n.wild.value.node, w)
    ensures RivalFrom(n, |n.edges|, seq(n.wild.value.length, _ => 'x') + r, Decode(n.wild.value.node, w).value, w)
  {
    ShapedWild(n);
    hide Shaped;
    var e := n.wild.value;
    var p := seq(e.length, _ => 'x') + r;
    PathOfWild(e, r, Decode(e.node, w).value);
    assert p[e.length..] == r;
    WildMatches(p, w, n.start, e.length);
  }

  lemma WildLeads(n: Node, w: nat, r: string, q: string, i: Insn)
    requires Shaped(n) && Sorted(n) && n.target.None? && n.wild.Some? && Decode(n.wild.value.node, w).Some?
    requires Rival(n.wild.value.node, r, Decode(n.wild.value.node, w).value, w)
    requires forall t: string, j: Insn :: Rival(n.wild.value.node, t, j, w) ==> Leads(n.wild.value.node, r, t)
    requires RivalFrom(n, |n.edges|, q, i, w)
    ensures Leads(n, seq(n.wild.value.length, _ => 'x') + r, q)
  {
    hide Leads, Matches, HasPath, Decode, Shaped, Sorted;
    ShapedWild(n);
    var e := n.wild.value;
    var t := q[e.length..];
    WildMatches(q, w, n.start, e.length);
    XFirst(q, e.length);
    assert Rival(e.node, t, i, w);
    WildBehind(n, r, t, Decode(e.node, w).value, i);
  }

  lemma XFirst(q: string, k: nat)
    requires k <= |q| && AllX(q[..k])
    ensures q == seq(k, _ => 'x') + q[k..]
  {
    assert q == q[..k] + q[k..];
  }

  lemma {:induction false} WinnerEdge(n: Node, k: nat, w: nat) returns (p: string)
    requires Shaped(n) && Sorted(n) && n.target.None? && k < |n.edges|
    requires Chunk(w, n.start, n.edges[k].length) == n.edges[k].value && Decode(n.edges[k].node, w).Some?
    ensures RivalFrom(n, k, p, DecodeFrom(n, k, w).value, w)
    ensures forall q: string, i: Insn :: RivalFrom(n, k, q, i, w) ==> Leads(n, p, q)
    decreases n, |n.edges| - k, 0
  {
    hide Leads, Shaped, Sorted;
    var e := n.edges[k];
    assert e in n.edges;
    ShapedEdges(n);
    SortedChild(n, e);
    var r := Winner(e.node, w);
    p := Bits(e.value, e.length) + r;
    EdgeRival(n, k, w, r);
    forall q: string, i: Insn | RivalFrom(n, k, q, i, w) ensures Leads(n, p, q) {
      EdgeLeads(n, k, w, r, q, i);
    }
  }

  lemma EdgeRival(n: Node, k: nat, w: nat, r: string)
    requires Shaped(n) && n.target.None? && k < |n.edges|
    requires Chunk(w, n.start, n.edges[k].length) == n.edges[k].value && Decode(n.edges[k].node, w).Some?
    requires Rival(n.edges[k].node, r, Decode(n.edges[k].node, w).value, w)
    ensures var e := n.edges[k];
      var p := Bits(e.value, e.length) + r;
      && DecodeFrom(n, k, w) == Decode(e.node, w) && n.start + |p| == WORD && Matches(p, w, n.start)
      && Through(e, p, Decode(e.node, w).value)
  {
    var e := n.edges[k];
    assert e in n.edges;
    var a := Bits(e.value, e.length);
    var p := a + r;
    assert p[e.length..] == r && p[..e.length] == a;
    LabelMatches(p, w, n.start, e.length, e.value);
  }

  lemma EdgeLeads(n: Node, k: nat, w: nat, r: string, q: string, i: Insn)
    requires Shaped(n) && Sorted(n) && n.target.None? && k < |n.edges|
    requires Chunk(w, n.start, n.edges[k].length) == n.edges[k].value && Decode(n.edges[k].node, w).Some?
    requires Rival(n.edges[k].node, r, Decode(n.edges[k].node, w).value, w)
    requires forall t: string, j: Insn :: Rival(n.edges[k].node, t, j, w) ==> Leads(n.edges[k].node, r, t)
    requires RivalFrom(n, k, q, i, w)
    ensures Leads(n, Bits(n.edges[k].value, n.edges[k].length) + r, q)
  {
    hide Leads, Matches, HasPath, Decode, DecodeFrom, Shaped, Sorted, Through, ThroughWild, Bits, Rival, Chunk;
    var e := n.edges[k];
    assert e in n.edges;
    ShapedEdges(n);
    EdgeRival(n, k, w, r);
    var p, won := Bits(e.value, e.length) + r, Decode(e.node, w).value;
    if Through(e, q, i) {
      SameEdgeLeads(n, e, w, r, q, i);
    } else if m :| k < m < |n.edges| && Through(n.edges[m], q, i) {
      OtherEdgeLeads(n, k, m, w, p, won, q, i);
    } else {
      EdgeThrough(e, p, won);
      WildThrough(n, q, i);
      BitLeads(n, p, q);
    }
  }

  lemma SameEdgeLeads(n: Node, e: Edge, w: nat, r: string, q: string, i: Insn)
    requires Shaped(n) && Sorted(n) && e in n.edges && Decode(e.node, w).Some?
    requires Rival(e.node, r, Decode(e.node, w).value, w)
    requires forall t: string, j: Insn :: Rival(e.node, t, j, w) ==> Leads(e.node, r, t)
    requires n.start + |q| == WORD && Matches(q, w, n.start) && Through(e, q, i)
    ensures Leads(n, Bits(e.value, e.length) + r, q)
  {
    hide Shaped, Sorted, Leads, Decode, Matches, HasPath, Chunk, Pow2;
    ShapedEdges(n);
    var a, t := Bits(e.value, e.length), q[e.length..];
    LabelMatches(q, w, n.start, e.length, e.value);
    assert q == a + t;
    assert Rival(e.node, t, i, w);
    EdgeBehind(n, e, r, t, Decode(e.node, w).value, i);
  }

  lemma OtherEdgeLeads(n: Node, k: nat, m: nat, w: nat, p: string, won: Insn, q: string, i: Insn)
    requires Shaped(n) && Sorted(n) && k < m < |n.edges|
    requires Through(n.edges[k], p, won) && Through(n.edges[m], q, i) && |p| == |q| && n.start + |p| == WORD
    requires Matches(p, w, n.start) && Matches(q, w, n.start)
    ensures Leads(n, p, q)
  {
    var e, f := n.edges[k], n.edges[m];
    assert e in n.edges && f in n.edges;
    SameLengthSame(n, k, m, p, q, won, i, w);
    assert e.length < f.length;
    ShapedEdges(n);
    hide Sorted, Shaped, HasPath, Matches, Falls, Bits, Through;
    EdgeThrough(e, p, won);
    EdgeThrough(f, q, i);
    forall j | 0 <= j < e.length ensures p[j] == q[j] {
      SameBit(p, q, w, n.start, j);
    }
    EdgesPart(n, e, p, f, q, won, i);
    FallsEdge(n, e, p, won, e.length);
    FallsAtOnce(e.node, p[e.length..]);
    assert ForksAt(p, q, e.length) && LeadsAt(n, p, q, e.length);
  }

  // ----- The tree as built -----

  lemma EndsRun(n: Node)
    requires Built(n) && n.edges == []
    ensures NoBitFirst(n)
  {
    forall p: string, i: Insn | HasPath(n, p, i) ensures p == [] || p[0] == 'x' {
      RunEnded(n, p, i);
    }
  }

  lemma RunEnded(n: Node, p: string, i: Insn)
    requires Built(n) && n.edges == [] && HasPath(n, p, i)
    ensures p == [] || p[0] == 'x'
  {
    if p != [] {
      var e := n.wild.value;
      assert ThroughWild(e, p, i);
      assert p[..e.length][0] == p[0];
    }
  }

  ghost predicate Ascends(n: Node) {
    && Ascending(n.edges) && (forall e :: e in n.edges ==> Ascends(e.node))
    && (n.wild.Some? ==> Ascends(n.wild.value.node))
  }

  lemma {:induction false} BuiltSorted(n: Node)
    requires Built(n) && Ascends(n)
    ensures Sorted(n)
    decreases n
  {
    forall e | e in n.edges ensures NoBitFirst(e.node) && !Zero(e.node) && Pure(e.node) && Sorted(e.node) {
      EndsRun(e.node);
      BuiltSorted(e.node);
    }
    if n.wild.Some? {
      BuiltSorted(n.wild.value.node);
    }
  }

  /** A tree as built has no edge of length zero. */
  lemma {:induction false} BuiltNeverFalls(n: Node, p: string, k: nat)
    requires Built(n)
    ensures !Falls(n, p, k)
    decreases n
  {
    if k > 0 {
      forall e | e in n.edges && e.length <= k && Passes(e, p) ensures !Falls(e.node, p[e.length..], k - e.length) {
        BuiltNeverFalls(e.node, p[e.length..], k - e.length);
      }
      if n.wild.Some? && n.wild.value.length <= k && PassesWild(n.wild.value, p) {
        var e := n.wild.value;
        BuiltNeverFalls(e.node, p[e.length..], k - e.length);
      }
    }
  }

  lemma BuiltLeads(n: Node, p: string, q: string)
    requires Built(n) && Leads(n, p, q)
    ensures p == q || Before(p, q)
  {
    hide Built, Falls;
    if p != q {
      var k: nat :| ForksAt(p, q, k) && LeadsAt(n, p, q, k);
      BuiltNeverFalls(n, if p[k] == 'x' then p else q, k);
    }
  }

  lemma {:induction false} InsertAscending(edges: seq<Edge>, e: Edge)
    requires Ascending(edges)
    ensures Ascending(InsertEdge(edges, e))
    decreases |edges|
  {
    if edges != [] && e.length >= edges[0].length {
      var r := InsertEdge(edges[1..], e);
      InsertAscending(edges[1..], e);
      forall k | 0 <= k < |r| ensures edges[0].length <= r[k].length {
        assert r[k] in r;
        if r[k] != e {
          assert r[k] in edges[1..];
        }
      }
    }
  }

  lemma InsertAscends(n: Node, e: Edge)
    requires Ascends(n) && Ascends(e.node)
    ensures Ascends(n.(edges := InsertEdge(n.edges, e)))
  {
    InsertAscending(n.edges, e);
  }

  lemma ReplaceAscends(n: Node, j: nat, m: Node)
    requires Ascends(n) && j < |n.edges| && Ascends(m)
    ensures Ascends(n.(edges := n.edges[j := n.edges[j].(node := m)]))
  {
    var r := n.edges[j := n.edges[j].(node := m)];
    forall e | e in r ensures Ascends(e.node) {
      if e != r[j] {
        assert e in n.edges;
      }
    }
  }

  /** Insertion keeps shorter labels first. */
  lemma {:induction false} AddAscends(n: Node, p: string, i: Insn)
    requires Built(n) && Ascends(n) && n.start + |p| == WORD
    ensures Ascends(Add(n, p, i).node)
    decreases |p|
  {
    if p != [] {
      var k := PrefixLength(p);
      if p[0] == 'x' {
        if n.wild.None? {
          AddAscends(NewNode(i, n.start + k), p[k..], i);
        } else if k >= n.wild.value.length {
          AddAscends(n.wild.value.node, p[n.wild.value.length..], i);
        } else {
          BrokenBuilt(n, k);
          AddAscends(Broken(n, k), p[k..], i);
        }
      } else {
        AddBitAscends(n, p, i);
      }
    }
  }

  lemma {:induction false} AddBitAscends(n: Node, p: string, i: Insn)
    requires Built(n) && Ascends(n) && n.start + |p| == WORD && p != [] && p[0] != 'x'
    ensures Ascends(Add(n, p, i).node)
    decreases |p|, 0
  {
    hide Built, Ascends, InsertEdge, Value, Pow2;
    BuiltParts(n);
    var k := PrefixLength(p);
    var v := Value(p[..k]);
    var j := FindEdge(n.edges, k, v);
    if j < |n.edges| {
      AscendsChild(n, n.edges[j]);
      AddAscends(n.edges[j].node, p[k..], i);
      ReplaceAscends(n, j, Add(n.edges[j].node, p[k..], i).node);
    } else {
      var m := NewNode(i, n.start + k);
      NewNodeAscends(i, n.start + k);
      AddAscends(m, p[k..], i);
      InsertAscends(n, Edge(k, v, Add(m, p[k..], i).node));
    }
  }

  lemma AscendsChild(n: Node, e: Edge)
    requires Ascends(n) && e in n.edges
    ensures Ascends(e.node)
  {
  }

  lemma NewNodeAscends(i: Insn, start: nat)
    requires start <= WORD
    ensures Built(NewNode(i, start)) && Ascends(NewNode(i, start))
  {
  }

  lemma {:induction false} BuildAscends(ins: seq<Insertion>)
    requires Legal(ins)
    ensures Ascends(Build(ins))
    decreases |ins|
  {
    if ins != [] {
      hide Built, Ascends, Add;
      var last := ins[|ins| - 1];
      BuildAscends(ins[..|ins| - 1]);
      AddAscends(Build(ins[..|ins| - 1]), last.pattern, last.insn);
    } else {
      assert Ascends(ROOT);
    }
  }

  /** Of the inserted patterns, p matches the word and comes before all others that do. */
  ghost predicate First(ins: seq<Insertion>, w: nat, p: string) {
    && Contends(ins, w, p)
    && forall q :: Contends(ins, w, q) ==> q == p || Before(p, q)
  }

  ghost predicate Contends(ins: seq<Insertion>, w: nat, p: string) {
    |p| == WORD && IsPattern(p) && FirstOwner(ins, p).Some? && Matches(p, w, 0)
  }

  lemma Contenders(n: Node, ins: seq<Insertion>, w: nat)
    requires Legal(ins) && n.start == 0
    requires forall p: string, i: Insn :: |p| == WORD && IsPattern(p) ==> (HasPath(n, p, i) <==> FirstOwner(ins, p) == Some(i))
    ensures forall p: string, i: Insn :: Rival(n, p, i, w) <==> Contends(ins, w, p) && FirstOwner(ins, p) == Some(i)
  {
    hide HasPath, Matches, FirstOwner;
    forall p: string, i: Insn | Rival(n, p, i, w) ensures Contends(ins, w, p) && FirstOwner(ins, p) == Some(i) {
      PathIsPattern(n, p, i);
    }
  }

  /** A word decodes to the owner of the first of the inserted patterns that match it. */
  lemma FirstPatternWins(ins: seq<Insertion>, w: nat)
    requires Legal(ins)
    ensures Decode(Build(ins), w).Some? ==> exists p :: First(ins, w, p)
    ensures forall p :: First(ins, w, p) ==> Decode(Build(ins), w) == FirstOwner(ins, p)
  {
    hide HasPath, Built, Shaped, Sorted, Ascends, Decode, FirstOwner, Matches, Rival, Leads;
    var n := Build(ins);
    BuiltIsShaped(n);
    BuildAscends(ins);
    BuiltSorted(n);
    forall p: string, i: Insn | |p| == WORD && IsPattern(p) ensures HasPath(n, p, i) <==> FirstOwner(ins, p) == Some(i) {
      BuildPaths(ins, p, i);
    }
    Contenders(n, ins, w);
    if Decode(n, w).Some? {
      var r := Winner(n, w);
      forall q | Contends(ins, w, q) ensures q == r || Before(r, q) {
        assert Rival(n, q, FirstOwner(ins, q).value, w);
        BuiltLeads(n, r, q);
      }
      assert First(ins, w, r);
      forall p | First(ins, w, p) ensures p == r {
        if p != r {
          OneFirst(p, r, w, 0);
        }
      }
    }
    forall p | First(ins, w, p) ensures Decode(n, w).Some? {
      BuildFinds(ins, w, p);
    }
  }

  lemma BuiltIsShaped(n: Node)
    requires Built(n)
    ensures Shaped(n)
  {
  }

  lemma BuildFinds(ins: seq<Insertion>, w: nat, p: string)
    requires Legal(ins) && Contends(ins, w, p)
    ensures Decode(Build(ins), w).Some?
  {
    hide HasPath, Shaped, Decode, Matches;
    var i := FirstOwner(ins, p).value;
    BuildPaths(ins, p, i);
    DecodeComplete(Build(ins), w, p, i);
  }
}
