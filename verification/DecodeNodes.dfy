/** The decode tree as the program keeps it: nodes on the heap, updated in place.
    Every operation is proved to compute its counterpart on tree values. */
module DecodeNodes {
  import opened BinaryText
  import opened Common
  import opened DecodeTree
  import opened DecodeInsert
  import opened DecodeOptimize

  datatype DecodeTransition = DecodeTransition(length: nat, value: nat, target: DecodeNode)

  class DecodeNode {
    var start: nat
    var transitions: seq<DecodeTransition>
    var unconstrained: Option<DecodeTransition>
    var target: Option<Insn>
    ghost var Repr: set<DecodeNode>
    ghost var tree: Node

    ghost predicate Owns(t: DecodeTransition, e: Edge)
      reads this, Repr
    {
      && t.target in Repr && t.target.Repr <= Repr && this !in t.target.Repr
      && e == Edge(t.length, t.value, t.target.tree)
    }

    /** Validity up to the unconstrained edge. */
    ghost predicate EdgesValid()
      reads this, Repr
      ensures EdgesValid() ==> this in Repr && tree.start == start && tree.target == target && |tree.edges| == |transitions|
      decreases Repr, 0
    {
      && this in Repr
      && tree.start == start && tree.target == target
      && |tree.edges| == |transitions|
      && (forall k :: 0 <= k < |transitions| ==>
            Owns(transitions[k], tree.edges[k]) && transitions[k].target.Valid())
      && (forall j, k :: 0 <= j < k < |transitions| ==> transitions[j].target.Repr !! transitions[k].target.Repr)
    }

    /** A subtree apart from this node and from all constrained edges. */
    ghost predicate Apart(n: DecodeNode)
      reads this, Repr, n
    {
      this !in n.Repr && forall k :: 0 <= k < |transitions| && transitions[k].target in Repr ==> transitions[k].target.Repr !! n.Repr
    }

    ghost predicate Valid()
      reads this, Repr
      ensures Valid() ==> this in Repr && tree.start == start && tree.target == target && |tree.edges| == |transitions|
      ensures Valid() ==> unconstrained.Some? == tree.wild.Some?
      decreases Repr, 1
    {
      && EdgesValid()
      && unconstrained.Some? == tree.wild.Some?
      && (unconstrained.Some? ==>
            && Owns(unconstrained.value, tree.wild.value) && unconstrained.value.target.Valid()
            && Apart(unconstrained.value.target))
    }

    /** A node carries the instruction if it stands at the end of the word. */
    constructor (i: Insn, start: nat)
      ensures Valid() && fresh(Repr) && tree == NewNode(i, start)
    {
      this.start := start;
      transitions := [];
      unconstrained := None;
      target := if start == WORD then Some(i) else None;
      Repr := {this};
      tree := NewNode(i, start);
    }

    /** The node put into the middle of an unconstrained edge. */
    constructor Middle(start: nat, length: nat, below: DecodeNode)
      requires below.Valid()
      ensures Valid() && fresh(this) && Repr == {this} + below.Repr
      ensures tree == Node(start, [], Some(Edge(length, 0, below.tree)), None)
    {
      this.start := start;
      transitions := [];
      unconstrained := Some(DecodeTransition(length, 0, below));
      target := None;
      Repr := {this} + below.Repr;
      tree := Node(start, [], Some(Edge(length, 0, below.tree)), None);
    }

    /** A node without edges or instruction. */
    constructor Empty(start: nat)
      ensures Valid() && fresh(this) && Repr == {this}
      ensures tree == Node(start, [], None, None)
    {
      this.start := start;
      transitions := [];
      unconstrained := None;
      target := None;
      Repr := {this};
      tree := Node(start, [], None, None);
    }

    /** AddInstruction for one bit string. */
    method AddInstruction(i: Insn, bits: string) returns (ok: bool)
      requires Valid() && Built(tree) && |bits| == WORD && IsPattern(bits) && start <= WORD
      modifies Repr
      ensures Valid() && fresh(Repr - old(Repr)) && old(Repr) <= Repr
      ensures tree == Add(old(tree), bits[old(start)..], i).node
      ensures ok == Add(old(tree), bits[old(start)..], i).ok
      decreases WORD - start, 2
    {
      if start == |bits| {
        hide Built;
        return !(target.Some? && target.value != i);
      }
      hide Built, Add, Valid, IsPattern;
      assert bits[start..][0] == bits[start];
      var prefix := GetPrefix(bits, start);
      if bits[start] == 'x' {
        ok := AddUnconstrained(i, bits, prefix);
      } else {
        ok := AddConstrained(i, bits, prefix);
      }
    }

    /** The first run is x: create, follow or break the unconstrained edge. */
    method AddUnconstrained(i: Insn, bits: string, prefix: nat) returns (ok: bool)
      requires Valid() && Built(tree) && |bits| == WORD && IsPattern(bits)
      requires start < WORD && bits[start] == 'x' && prefix == PrefixLength(bits[start..])
      modifies Repr
      ensures Valid() && fresh(Repr - old(Repr)) && old(Repr) <= Repr
      ensures tree == Add(old(tree), bits[old(start)..], i).node
      ensures ok == Add(old(tree), bits[old(start)..], i).ok
      decreases WORD - start, 1
    {
      hide Built, Shaped, Run, IsPattern, Valid, Add;
      AddWildDef(tree, bits[start..], i);
      ghost var p := bits[start..];
      assert p[0] == 'x' && p[prefix..] == bits[start + prefix..];
      if unconstrained.None? {
        ok := AddNewWild(i, bits, prefix);
      } else {
        var length := UnconstrainedLength();
        if prefix >= length {
          assert p[length..] == bits[start + length..];
        } else {
          BreakUnconstrained(prefix);
        }
        ok := AddThroughWild(i, bits);
      }
    }

    method UnconstrainedLength() returns (length: nat)
      requires Valid() && tree.wild.Some?
      ensures length == tree.wild.value.length
    {
      length := unconstrained.value.length;
    }

    /** Split the unconstrained edge `pos` bits in. */
    method BreakUnconstrained(pos: nat)
      requires Valid() && tree.wild.Some? && pos < tree.wild.value.length
      modifies this
      ensures Valid() && old(Repr) <= Repr && fresh(Repr - old(Repr)) && start == old(start)
      ensures tree == old(tree).(wild := Some(Edge(pos, old(tree.wild.value.value), Broken(old(tree), pos))))
    {
      var t := unconstrained.value;
      var node := new DecodeNode.Middle(start + pos, t.length - pos, t.target);
      unconstrained := Some(DecodeTransition(pos, t.value, node));
      Repr := Repr + node.Repr;
      tree := tree.(wild := Some(Edge(pos, t.value, node.tree)));
    }

    method AddNewWild(i: Insn, bits: string, prefix: nat) returns (ok: bool)
      requires Valid() && tree.wild.None? && |bits| == WORD && IsPattern(bits) && Built(NewNode(i, start + prefix))
      requires 1 <= prefix && start + prefix <= WORD
      modifies Repr
      ensures Valid() && fresh(Repr - old(Repr)) && old(Repr) <= Repr
      ensures var r := Add(NewNode(i, old(start) + prefix), bits[old(start) + prefix..], i);
        ok == r.ok && tree == old(tree).(wild := Some(Edge(prefix, 0, r.node)))
      decreases WORD - start, 0, 1
    {
      hide Built, Add, IsPattern, EdgesValid;
      var child := new DecodeNode(i, start + prefix);
      ok := AddBelow(child, prefix, 0, i, bits);
    }

    method AddThroughWild(i: Insn, bits: string) returns (ok: bool)
      requires Valid() && tree.wild.Some? && |bits| == WORD && IsPattern(bits) && Built(tree.wild.value.node)
      requires start < tree.wild.value.node.start <= WORD
      modifies Repr
      ensures Valid() && fresh(Repr - old(Repr)) && old(Repr) <= Repr
      ensures var e := old(tree.wild.value);
        var r := Add(e.node, bits[e.node.start..], i);
        ok == r.ok && tree == old(tree).(wild := Some(e.(node := r.node)))
      decreases WORD - start, 0, 1
    {
      hide Built, Add, IsPattern, EdgesValid;
      var t := unconstrained.value;
      ok := AddBelow(t.target, t.length, t.value, i, bits);
    }

    /** The first run is bits: follow the edge with this label or add one. */
    method AddConstrained(i: Insn, bits: string, prefix: nat) returns (ok: bool)
      requires Valid() && Built(tree) && |bits| == WORD && IsPattern(bits)
      requires start < WORD && bits[start] != 'x' && prefix == PrefixLength(bits[start..])
      modifies Repr
      ensures Valid() && fresh(Repr - old(Repr)) && old(Repr) <= Repr
      ensures tree == Add(old(tree), bits[old(start)..], i).node
      ensures ok == Add(old(tree), bits[old(start)..], i).ok
      decreases WORD - start, 1
    {
      hide Built, Shaped, Pow2, Run, IsPattern, EdgesValid;
      BuiltParts(tree);
      ghost var p := bits[start..];
      assert p[0] != 'x' && p[..prefix] == bits[start..start + prefix];
      assert p[prefix..] == bits[start + prefix..];
      var val := ParseBinary(bits[start..start + prefix]);
      var j := Find(prefix, val);
      if j < |transitions| {
        assert tree.edges[j].node.start == start + prefix;
        var _ := AddThrough(j, i, bits);
        ok := true;
      } else {
        NewNodeBuilt(i, start + prefix);
        var child := new DecodeNode(i, start + prefix);
        ok := AddBeside(child, prefix, val, i, bits);
      }
    }

    method Find(length: nat, value: nat) returns (j: nat)
      requires Valid()
      ensures j == FindEdge(tree.edges, length, value) && |tree.edges| == |transitions|
    {
      j := 0;
      while j < |transitions| && (transitions[j].length != length || transitions[j].value != value)
        invariant 0 <= j <= |transitions|
        invariant FindEdge(tree.edges, length, value) == j + FindEdge(tree.edges[j..], length, value)
      {
        assert tree.edges[j..][1..] == tree.edges[j + 1..];
        assert Owns(transitions[j], tree.edges[j]);
        j := j + 1;
      }
      if j < |transitions| {
        assert Owns(transitions[j], tree.edges[j]);
      }
    }

    /** Insert below an existing constrained edge. */
    method AddThrough(j: nat, i: Insn, bits: string) returns (ok: bool)
      requires Valid() && j < |tree.edges| && Built(tree.edges[j].node)
      requires |bits| == WORD && IsPattern(bits) && start < tree.edges[j].node.start <= WORD
      modifies Repr
      ensures Valid() && fresh(Repr - old(Repr)) && old(Repr) <= Repr
      ensures var e := old(tree.edges[j]);
        tree == old(tree).(edges := old(tree.edges)[j := e.(node := Add(e.node, bits[e.node.start..], i).node)])
      decreases WORD - start, 0
    {
      hide Built, Add, IsPattern;
      assert Owns(transitions[j], tree.edges[j]);
      var child := transitions[j].target;
      ok := child.AddInstruction(i, bits);
      Repr := Repr + child.Repr;
      tree := tree.(edges := tree.edges[j := tree.edges[j].(node := child.tree)]);
    }

    /** Insert below a new constrained edge to `child`. */
    method AddBeside(child: DecodeNode, length: nat, value: nat, i: Insn, bits: string) returns (ok: bool)
      requires Valid() && child.Valid() && child.Repr !! Repr
      requires Built(child.tree) && |bits| == WORD && IsPattern(bits) && start < child.start <= WORD
      modifies this, child.Repr
      ensures Valid() && Repr == old(Repr) + child.Repr && fresh(child.Repr - old(child.Repr))
      ensures ok == Add(old(child.tree), bits[old(child.start)..], i).ok
      ensures var e := Edge(length, value, Add(old(child.tree), bits[old(child.start)..], i).node);
        tree == old(tree).(edges := InsertEdge(old(tree.edges), e))
      decreases WORD - start, 0, 0
    {
      hide Built, Add, IsPattern;
      hide EdgesValid;
      ok := child.AddInstruction(i, bits);
      Insert(length, value, child);
    }

    /** Enter an edge into the multimap of transitions. */
    method Insert(length: nat, value: nat, child: DecodeNode)
      requires Valid() && child.Valid() && child.Repr !! Repr
      modifies this
      ensures Valid() && Repr == old(Repr) + child.Repr
      ensures tree == old(tree).(edges := InsertEdge(old(tree.edges), Edge(length, value, child.tree)))
    {
      hide InsertEdge, Valid, Union, Loose;
      ghost var es, parts := tree.edges, Parts();
      ValidParts();
      var k := Position(length);
      var t := DecodeTransition(length, value, child);
      ghost var e := Edge(length, value, child.tree);
      InsertEdgeAt(es, e, k);
      LooseInsert(transitions, es, parts, k, t, e);
      Install(transitions[..k] + [t] + transitions[k..], es[..k] + [e] + es[k..],
              parts[..k] + [child.Repr] + parts[k..], Repr + child.Repr);
    }

    /** Replace all constrained edges. */
    method Install(ts: seq<DecodeTransition>, ghost es: seq<Edge>, ghost parts: seq<set<DecodeNode>>, ghost repr: set<DecodeNode>)
      requires Valid() && Loose(ts, es, parts)
      requires this in repr && this !in Union(parts) && Union(parts) <= repr
      requires WildRepr() <= repr && WildRepr() !! Union(parts)
      modifies this
      ensures Valid() && Repr == repr && tree == old(tree).(edges := es)
    {
      hide EdgesValid, Apart, Union;
      UnionMember(parts);
      transitions := ts;
      tree := tree.(edges := es);
      Repr := repr;
      assert Loose(ts, es, parts);
      EdgesIntro(parts);
      if unconstrained.Some? {
        ApartIntro(unconstrained.value.target, parts);
      }
    }

    /** The nodes below the unconstrained edge. */
    ghost function WildRepr(): set<DecodeNode>
      reads this, if unconstrained.Some? then {unconstrained.value.target} else {}
    {
      if unconstrained.Some? then unconstrained.value.target.Repr else {}
    }

    /** The node sets of the constrained edges' subtrees. */
    ghost function Parts(): (r: seq<set<DecodeNode>>)
      reads this, set t | t in transitions :: t.target
      ensures |r| == |transitions| && forall k :: 0 <= k < |r| ==> r[k] == transitions[k].target.Repr
    {
      seq(|transitions|, k requires 0 <= k < |transitions|
            reads this, set t | t in transitions :: t.target => transitions[k].target.Repr)
    }

    lemma ValidParts()
      requires Valid()
      ensures Loose(transitions, tree.edges, Parts())
      ensures this !in Union(Parts()) && Union(Parts()) <= Repr
      ensures WildRepr() <= Repr && this !in WildRepr() && WildRepr() !! Union(Parts())
    {
      hide Union;
      ghost var parts := Parts();
      UnionMember(parts);
      forall k | 0 <= k < |transitions|
        ensures parts[k] <= Repr && this !in parts[k] && parts[k] !! WildRepr()
      {
        assert Owns(transitions[k], tree.edges[k]);
      }
    }

    lemma EdgesIntro(parts: seq<set<DecodeNode>>)
      requires this in Repr && tree.start == start && tree.target == target
      requires Loose(transitions, tree.edges, parts)
      requires this !in Union(parts) && Union(parts) <= Repr
      ensures EdgesValid()
    {
      UnionMember(parts);
    }

    lemma ApartIntro(n: DecodeNode, parts: seq<set<DecodeNode>>)
      requires Loose(transitions, tree.edges, parts)
      requires this !in n.Repr && n.Repr !! Union(parts)
      ensures Apart(n)
    {
      UnionMember(parts);
    }

    /** Take the transitions that start with a prefix out of this node. */
    method Detach(p: Prefix) returns (matches: seq<DecodeTransition>, ghost moved: seq<set<DecodeNode>>)
      requires Valid()
      modifies this
      ensures Valid() && Repr == old(Repr) - Union(moved) && Union(moved) <= old(Repr)
      ensures tree == old(tree).(edges := Filter(old(tree.edges), p, false))
      ensures Loose(matches, Filter(old(tree.edges), p, true), moved)
    {
      hide Filter, Picked, Valid, Union;
      ghost var es, parts := tree.edges, Parts();
      ValidParts();
      ghost var mi, ri, kept;
      var rest;
      LooseLabels(transitions, es, parts);
      matches, rest, mi, ri := Partition(transitions, es, p);
      moved, kept := LoosePick(transitions, es, parts, mi, matches, ri, rest, p);
      UnionMember(moved);
      Install(rest, Filter(es, p, false), kept, Repr - Union(moved));
      assert Loose(matches, Filter(es, p, true), moved);
    }

    /** Attach a shortened edge: constrained, or unconstrained if nothing is left. */
    method Attach(length: nat, value: nat, child: DecodeNode)
      requires Valid() && child.Valid() && child.Repr !! Repr
      modifies this
      ensures Valid() && Repr == old(Repr) + child.Repr
      ensures tree == DecodeOptimize.Attach(old(tree), Edge(length, value, child.tree))
    {
      hide InsertEdge;
      if length == 0 {
        unconstrained := Some(DecodeTransition(length, value, child));
        Repr := Repr + child.Repr;
        tree := tree.(wild := Some(Edge(length, value, child.tree)));
      } else {
        hide EdgesValid;
        Insert(length, value, child);
      }
    }

    /** Move the transitions that start with a prefix below a new node. */
    method FactorOut(p: Prefix)
      requires Valid()
      modifies this
      ensures Valid() && old(Repr) <= Repr && fresh(Repr - old(Repr))
      ensures tree == Factor(old(tree), p)
    {
      hide EdgesValid, Filter, Gather, InsertEdge, StartsWith, Loose;
      ghost var es := Filter(tree.edges, p, true);
      var matches;
      ghost var moved;
      matches, moved := Detach(p);
      var node := GatherNode(start + p.length, matches, es, moved, p);
      Insert(p.length, p.value, node);
    }

    method EdgeLabels() returns (labels: seq<Prefix>)
      requires Valid()
      ensures labels == Labels(tree.edges)
    {
      labels := [];
      var k := 0;
      while k < |transitions|
        invariant 0 <= k <= |transitions| && |labels| == k
        invariant forall j :: 0 <= j < k ==> labels[j] == Prefix(tree.edges[j].length, tree.edges[j].value)
      {
        assert Owns(transitions[k], tree.edges[k]);
        labels := labels + [Prefix(transitions[k].length, transitions[k].value)];
        k := k + 1;
      }
    }

    /** Factor every selected prefix out of this node. */
    method FactorEdges(minLength: nat, minMembers: nat)
      requires Valid() && Shaped(tree) && minLength >= 1
      modifies this
      ensures Valid() && old(Repr) <= Repr && fresh(Repr - old(Repr))
      ensures tree == Factored(old(tree), minLength, minMembers)
    {
      hide Valid, Factor, Selected, Shaped;
      var labels := EdgeLabels();
      var ps := Selected(labels, minLength, minMembers);
      var k := 0;
      assert ps[0..] == ps;
      while k < |ps|
        invariant 0 <= k <= |ps| && Valid() && old(Repr) <= Repr && fresh(Repr - old(Repr))
        invariant FactorAll(tree, ps[k..]) == FactorAll(old(tree), ps)
      {
        assert ps[k..][0] == ps[k] && ps[k..][1..] == ps[k + 1..];
        FactorOut(ps[k]);
        k := k + 1;
      }
    }

    /** Optimize: factor this node's edges, then optimize all children. */
    method Optimize(minLength: nat, minMembers: nat)
      requires Valid() && Shaped(tree) && minLength >= 1
      modifies Repr
      ensures Valid() && old(Repr) <= Repr && fresh(Repr - old(Repr))
      ensures tree == DecodeOptimize.Optimize(old(tree), minLength, minMembers)
      decreases WORD - tree.start, WildDepth(tree), 2
    {
      hide Valid, Shaped, FactorAll;
      FactorEdges(minLength, minMembers);
      ghost var f := tree;
      ShapedEdges(f);
      OptimizeChildren(minLength, minMembers);
      if unconstrained.Some? {
        ShapedWild(f);
        OptimizeWild(minLength, minMembers);
      }
    }

    method OptimizeChildren(minLength: nat, minMembers: nat)
      requires Valid() && minLength >= 1
      requires forall e :: e in tree.edges ==> Shaped(e.node) && start < e.node.start <= WORD
      modifies Repr
      ensures Valid() && old(Repr) <= Repr && fresh(Repr - old(Repr))
      ensures tree == old(tree).(edges := OptimizeEdges(old(start), old(tree.edges), minLength, minMembers))
      decreases WORD - tree.start, WildDepth(tree), 1
    {
      hide Valid, Shaped, DecodeOptimize.Optimize;
      ghost var f := tree;
      OptimizeEdgesAt(f.start, f.edges, minLength, minMembers);
      var k := 0;
      while k < |transitions|
        invariant Valid() && old(Repr) <= Repr && fresh(Repr - old(Repr))
        invariant 0 <= k <= |transitions| == |f.edges| == |tree.edges|
        invariant tree == f.(edges := tree.edges)
        invariant forall j :: k <= j < |f.edges| ==> tree.edges[j] == f.edges[j]
        invariant forall j :: 0 <= j < k ==> f.edges[j] in f.edges && tree.edges[j] == OptimizedEdge(f.edges[j], minLength, minMembers)
      {
        assert f.edges[k] in f.edges;
        OptimizeChild(k, minLength, minMembers);
        k := k + 1;
      }
      assert tree.edges == OptimizeEdges(f.start, f.edges, minLength, minMembers);
    }

    method OptimizeChild(j: nat, minLength: nat, minMembers: nat)
      requires Valid() && minLength >= 1
      requires j < |tree.edges| && Shaped(tree.edges[j].node) && start < tree.edges[j].node.start <= WORD
      modifies Repr
      ensures Valid() && old(Repr) <= Repr && fresh(Repr - old(Repr))
      ensures |transitions| == |old(transitions)|
      ensures tree == old(tree).(edges := old(tree.edges)[j := OptimizedEdge(old(tree.edges)[j], minLength, minMembers)])
      decreases WORD - tree.start, WildDepth(tree), 0
    {
      hide Shaped, DecodeOptimize.Optimize;
      assert Owns(transitions[j], tree.edges[j]);
      var child := transitions[j].target;
      child.Optimize(minLength, minMembers);
      Repr := Repr + child.Repr;
      tree := tree.(edges := tree.edges[j := tree.edges[j].(node := child.tree)]);
    }

    method OptimizeWild(minLength: nat, minMembers: nat)
      requires Valid() && minLength >= 1 && tree.wild.Some?
      requires Shaped(tree.wild.value.node) && start <= tree.wild.value.node.start <= WORD
      modifies Repr
      ensures Valid() && old(Repr) <= Repr && fresh(Repr - old(Repr))
      ensures tree == old(tree).(wild := Some(OptimizedEdge(old(tree.wild.value), minLength, minMembers)))
      decreases WORD - tree.start, WildDepth(tree), 1
    {
      hide Shaped, DecodeOptimize.Optimize;
      var child := unconstrained.value.target;
      child.Optimize(minLength, minMembers);
      Repr := Repr + child.Repr;
      tree := tree.(wild := Some(tree.wild.value.(node := child.tree)));
    }

    /** Decode: constrained edges in order, then the unconstrained one. */
    method Decode(w: nat) returns (r: Option<Insn>)
      requires Valid() && Shaped(tree)
      ensures r == DecodeTree.Decode(tree, w)
      decreases Repr
    {
      if target.Some? {
        return target;
      }
      var k := 0;
      while k < |transitions|
        invariant 0 <= k <= |transitions|
        invariant DecodeTree.Decode(tree, w) == DecodeFrom(tree, k, w)
      {
        var t := transitions[k];
        assert Owns(t, tree.edges[k]);
        if Chunk(w, start, t.length) == t.value {
          r := t.target.Decode(w);
          if r.Some? {
            return;
          }
        }
        k := k + 1;
      }
      if unconstrained.Some? {
        r := unconstrained.value.target.Decode(w);
      } else {
        r := None;
      }
    }

    /** Where a multimap keyed by length puts a new entry. */
    method Position(length: nat) returns (k: nat)
      requires Valid()
      ensures k <= |tree.edges| == |transitions|
      ensures forall t :: 0 <= t < k ==> tree.edges[t].length <= length
      ensures k < |tree.edges| ==> length < tree.edges[k].length
    {
      k := 0;
      while k < |transitions| && transitions[k].length <= length
        invariant 0 <= k <= |transitions|
        invariant forall t :: 0 <= t < k ==> tree.edges[t].length <= length
      {
        assert Owns(transitions[k], tree.edges[k]);
        k := k + 1;
      }
      if k < |transitions| {
        assert Owns(transitions[k], tree.edges[k]);
      }
    }

    /** Insert below the unconstrained edge, which then leads to `child`. */
    method AddBelow(child: DecodeNode, length: nat, value: nat, i: Insn, bits: string) returns (ok: bool)
      requires EdgesValid() && child.Valid() && Apart(child)
      requires Built(child.tree) && |bits| == WORD && IsPattern(bits) && start < child.start <= WORD
      modifies this, child.Repr
      ensures Valid() && Repr == old(Repr) + child.Repr && fresh(child.Repr - old(child.Repr))
      ensures ok == Add(old(child.tree), bits[old(child.start)..], i).ok
      ensures tree == old(tree).(wild := Some(Edge(length, value, Add(old(child.tree), bits[old(child.start)..], i).node)))
      decreases WORD - start, 0, 0
    {
      hide Built, Add, IsPattern;
      ok := child.AddInstruction(i, bits);
      unconstrained := Some(DecodeTransition(length, value, child));
      Repr := Repr + child.Repr;
      tree := tree.(wild := Some(Edge(length, value, child.tree)));
    }
  }

  ghost function OptimizedEdge(e: Edge, minLength: nat, minMembers: nat): Edge
    requires Shaped(e.node) && minLength >= 1
  {
    e.(node := DecodeOptimize.Optimize(e.node, minLength, minMembers))
  }

  ghost function WildDepth(n: Node): nat {
    if n.wild.None? then 0 else 1 + WildDepth(n.wild.value.node)
  }

  lemma {:induction false} OptimizeEdgesAt(start: nat, edges: seq<Edge>, minLength: nat, minMembers: nat)
    requires minLength >= 1
    requires forall e :: e in edges ==> Shaped(e.node) && start < e.node.start <= WORD
    ensures forall k :: 0 <= k < |edges| ==>
      edges[k] in edges
      && OptimizeEdges(start, edges, minLength, minMembers)[k] == OptimizedEdge(edges[k], minLength, minMembers)
    decreases edges
  {
    if edges != [] {
      hide Shaped, DecodeOptimize.Optimize;
      OptimizeEdgesAt(start, edges[1..], minLength, minMembers);
      var r, rest := OptimizeEdges(start, edges, minLength, minMembers), OptimizeEdges(start, edges[1..], minLength, minMembers);
      assert edges[0] in edges && r == [OptimizedEdge(edges[0], minLength, minMembers)] + rest;
      forall k | 0 <= k < |edges|
        ensures edges[k] in edges && r[k] == OptimizedEdge(edges[k], minLength, minMembers)
      {
        if k > 0 {
          assert edges[1..][k - 1] == edges[k] && r[k] == rest[k - 1];
        }
      }
    }
  }

  ghost function Union(parts: seq<set<DecodeNode>>): set<DecodeNode> {
    if parts == [] then {} else Union(parts[..|parts| - 1]) + parts[|parts| - 1]
  }

  lemma {:induction false} UnionMember(parts: seq<set<DecodeNode>>)
    ensures forall k :: 0 <= k < |parts| ==> parts[k] <= Union(parts)
    ensures forall o :: o in Union(parts) ==> exists k :: 0 <= k < |parts| && o in parts[k]
  {
    if parts != [] {
      var init, last := parts[..|parts| - 1], |parts| - 1;
      UnionMember(init);
      forall k | 0 <= k < |parts| ensures parts[k] <= Union(parts) {
        assert k < last ==> init[k] == parts[k];
      }
      forall o | o in Union(parts) ensures exists k :: 0 <= k < |parts| && o in parts[k] {
        if o in Union(init) {
          var k :| 0 <= k < |init| && o in init[k];
          assert o in parts[k];
        } else {
          assert o in parts[last];
        }
      }
    }
  }

  ghost predicate Disjoint(parts: seq<set<DecodeNode>>) {
    forall j, k :: 0 <= j < k < |parts| ==> parts[j] !! parts[k]
  }

  /** Valid subtrees over disjoint node sets, with the values they stand for. */
  ghost predicate Loose(ts: seq<DecodeTransition>, es: seq<Edge>, parts: seq<set<DecodeNode>>)
    reads set t | t in ts :: t.target, set t, n | t in ts && n in t.target.Repr :: n
  {
    && |ts| == |es| == |parts| && Disjoint(parts)
    && forall k :: 0 <= k < |ts| ==>
         ts[k].target.Valid() && ts[k].target.Repr == parts[k] && es[k] == Edge(ts[k].length, ts[k].value, ts[k].target.tree)
  }

  /** `r` is the part of `s` at the increasing positions `idx`. */
  ghost predicate Picked<T>(s: seq<T>, idx: seq<nat>, r: seq<T>) {
    && |r| == |idx|
    && (forall j :: 0 <= j < |idx| ==> idx[j] < |s| && r[j] == s[idx[j]])
    && (forall i, j :: 0 <= i < j < |idx| ==> idx[i] < idx[j])
  }

  lemma PickedSnoc<T>(s: seq<T>, k: nat, idx: seq<nat>, r: seq<T>)
    requires k < |s| && Picked(s[..k], idx, r)
    ensures Picked(s[..k + 1], idx, r) && Picked(s[..k + 1], idx + [k], r + [s[k]])
  {
  }

  ghost predicate SameLabels(ts: seq<DecodeTransition>, es: seq<Edge>) {
    |ts| == |es| && forall k :: 0 <= k < |ts| ==> ts[k].length == es[k].length && ts[k].value == es[k].value
  }

  /** Split transitions by a prefix; `mi` and `ri` say where each comes from. */
  method Partition(ts: seq<DecodeTransition>, ghost es: seq<Edge>, p: Prefix)
    returns (matches: seq<DecodeTransition>, rest: seq<DecodeTransition>, ghost mi: seq<nat>, ghost ri: seq<nat>)
    requires SameLabels(ts, es)
    ensures Picked(ts, mi, matches) && Picked(es, mi, Filter(es, p, true))
    ensures Picked(ts, ri, rest) && Picked(es, ri, Filter(es, p, false))
  {
    hide Picked, Filter, Extends;
    matches, rest, mi, ri := [], [], [], [];
    ghost var me: seq<Edge>, re: seq<Edge> := [], [];
    PickedNone(ts);
    PickedNone(es);
    var k := 0;
    assert es[0..] == es;
    while k < |ts|
      invariant 0 <= k <= |ts|
      invariant Picked(ts[..k], mi, matches) && Picked(es[..k], mi, me)
      invariant Picked(ts[..k], ri, rest) && Picked(es[..k], ri, re)
      invariant me + Filter(es[k..], p, true) == Filter(es, p, true)
      invariant re + Filter(es[k..], p, false) == Filter(es, p, false)
    {
      FilterStep(es, k, p, true);
      FilterStep(es, k, p, false);
      PickedSnoc(ts, k, mi, matches);
      PickedSnoc(es, k, mi, me);
      PickedSnoc(ts, k, ri, rest);
      PickedSnoc(es, k, ri, re);
      if Extends(Prefix(ts[k].length, ts[k].value), p) {
        matches, mi, me := matches + [ts[k]], mi + [k], me + [es[k]];
      } else {
        rest, ri, re := rest + [ts[k]], ri + [k], re + [es[k]];
      }
      k := k + 1;
    }
    assert ts[..k] == ts && es[..k] == es && es[k..] == [];
    FilterNone(p);
    assert me == me + [] && re == re + [];
  }

  lemma SpliceAt<T>(s: seq<T>, k: nat, x: T)
    requires k <= |s|
    ensures var r := s[..k] + [x] + s[k..];
      && |r| == |s| + 1 && r[k] == x
      && (forall j :: 0 <= j < k ==> r[j] == s[j])
      && (forall j :: k < j < |r| ==> r[j] == s[j - 1])
  {
  }

  /** Inserting a part disjoint from all others. */
  lemma DisjointInsert(parts: seq<set<DecodeNode>>, k: nat, part: set<DecodeNode>)
    requires Disjoint(parts) && k <= |parts| && part !! Union(parts)
    ensures Disjoint(parts[..k] + [part] + parts[k..])
    ensures Union(parts[..k] + [part] + parts[k..]) == Union(parts) + part
  {
    var parts' := parts[..k] + [part] + parts[k..];
    SpliceAt(parts, k, part);
    DisjointSplice(parts, k, part, parts');
  }

  lemma DisjointSplice(parts: seq<set<DecodeNode>>, k: nat, part: set<DecodeNode>, r: seq<set<DecodeNode>>)
    requires Disjoint(parts) && k <= |parts| && part !! Union(parts)
    requires |r| == |parts| + 1 && r[k] == part
    requires forall j :: 0 <= j < k ==> r[j] == parts[j]
    requires forall j :: k < j < |r| ==> r[j] == parts[j - 1]
    ensures Disjoint(r) && Union(r) == Union(parts) + part
  {
    hide Union;
    UnionMember(parts);
    UnionMember(r);
    forall o | o in Union(parts) ensures o in Union(r) {
      var j :| 0 <= j < |parts| && o in parts[j];
      assert r[if j < k then j else j + 1] == parts[j];
    }
  }

  lemma LooseLabels(ts: seq<DecodeTransition>, es: seq<Edge>, parts: seq<set<DecodeNode>>)
    requires Loose(ts, es, parts)
    ensures SameLabels(ts, es)
  {
  }

  lemma LooseInsert(ts: seq<DecodeTransition>, es: seq<Edge>, parts: seq<set<DecodeNode>>, k: nat, t: DecodeTransition, e: Edge)
    requires Loose(ts, es, parts) && k <= |ts|
    requires t.target.Valid() && t.target.Repr !! Union(parts) && e == Edge(t.length, t.value, t.target.tree)
    ensures Loose(ts[..k] + [t] + ts[k..], es[..k] + [e] + es[k..], parts[..k] + [t.target.Repr] + parts[k..])
    ensures Union(parts[..k] + [t.target.Repr] + parts[k..]) == Union(parts) + t.target.Repr
  {
    hide DecodeNode.Valid, Union, Disjoint;
    DisjointInsert(parts, k, t.target.Repr);
    var ts', es', parts' := ts[..k] + [t] + ts[k..], es[..k] + [e] + es[k..], parts[..k] + [t.target.Repr] + parts[k..];
    SpliceAt(ts, k, t);
    SpliceAt(es, k, e);
    SpliceAt(parts, k, t.target.Repr);
    forall j | 0 <= j < |ts'|
      ensures ts'[j].target.Valid() && ts'[j].target.Repr == parts'[j] && es'[j] == Edge(ts'[j].length, ts'[j].value, ts'[j].target.tree)
    {
      var i := if j < k then j else j - 1;
      if j == k {
        assert ts'[j] == t && es'[j] == e && parts'[j] == t.target.Repr;
      } else {
        assert ts'[j] == ts[i] && es'[j] == es[i] && parts'[j] == parts[i];
      }
    }
  }

  /** The first k matching transitions are attached to the new node. */
  ghost predicate Gathering(n: DecodeNode, matches: seq<DecodeTransition>, es: seq<Edge>, parts: seq<set<DecodeNode>>, k: nat, p: Prefix)
    reads n, n.Repr, set t | t in matches :: t.target, set t, n | t in matches && n in t.target.Repr :: n
    requires forall e :: e in es ==> StartsWith(e, p)
  {
    && Loose(matches, es, parts) && k <= |matches|
    && n.Valid() && n !in Union(parts)
    && n.Repr == {n} + Union(parts[..k])
    && Gather(n.tree, es[k..], p) == Gather(Node(n.start, [], None, None), es, p)
  }

  method AttachNext(n: DecodeNode, matches: seq<DecodeTransition>, ghost es: seq<Edge>, ghost parts: seq<set<DecodeNode>>, k: nat, p: Prefix)
    requires forall e :: e in es ==> StartsWith(e, p)
    requires k < |matches| && Gathering(n, matches, es, parts, k, p)
    modifies n
    ensures Gathering(n, matches, es, parts, k + 1, p)
    ensures n.start == old(n.start)
  {
    hide StartsWith, Gather, DecodeNode.Valid, Union;
    var m := matches[k];
    assert es[k] in es;
    GatherStep(n.tree, es, k, p);
    UnionStep(parts, k);
    n.Attach(m.length - p.length, Low(m.value, m.length - p.length), m.target);
  }

  lemma UnionStep(parts: seq<set<DecodeNode>>, k: nat)
    requires k < |parts| && Disjoint(parts)
    ensures Union(parts[..k + 1]) == Union(parts[..k]) + parts[k]
    ensures parts[k] !! Union(parts[..k])
    ensures forall j :: 0 <= j < |parts| ==> parts[j] <= Union(parts)
  {
    assert parts[..k + 1][..k] == parts[..k];
    UnionMember(parts);
    UnionMember(parts[..k]);
  }

  /** The new node, with all matching transitions shortened and attached to it. */
  method GatherNode(start: nat, matches: seq<DecodeTransition>, ghost es: seq<Edge>, ghost parts: seq<set<DecodeNode>>, p: Prefix)
    returns (n: DecodeNode)
    requires Loose(matches, es, parts) && forall e :: e in es ==> StartsWith(e, p)
    ensures fresh(n) && n.Valid() && n.Repr == {n} + Union(parts)
    ensures n.tree == Gather(Node(start, [], None, None), es, p)
  {
    hide StartsWith, Gather;
    UnionMember(parts);
    n := new DecodeNode.Empty(start);
    var k := 0;
    assert es[0..] == es && parts[..0] == [];
    while k < |matches|
      invariant 0 <= k <= |matches| && fresh(n) && n.start == start
      invariant Gathering(n, matches, es, parts, k, p)
    {
      AttachNext(n, matches, es, parts, k, p);
      k := k + 1;
    }
    assert parts[..k] == parts && es[k..] == [];
    GatherNone(n.tree, p);
  }

  lemma GatherStep(node: Node, es: seq<Edge>, k: nat, p: Prefix)
    requires k < |es| && forall e :: e in es ==> StartsWith(e, p)
    ensures p.length <= es[k].length
    ensures Gather(node, es[k..], p) == Gather(DecodeOptimize.Attach(node, Shorten(es[k], p)), es[k + 1..], p)
  {
    assert es[k] in es;
    assert es[k..][0] == es[k] && es[k..][1..] == es[k + 1..];
  }

  lemma GatherNone(node: Node, p: Prefix)
    ensures Gather(node, [], p) == node
  {
  }

  lemma PickedNone<T>(s: seq<T>)
    ensures Picked(s[..0], [], [])
  {
  }

  lemma FilterNone(p: Prefix)
    ensures Filter([], p, true) == [] && Filter([], p, false) == []
  {
  }

  ghost function Pick(parts: seq<set<DecodeNode>>, idx: seq<nat>): (r: seq<set<DecodeNode>>)
    requires forall j :: 0 <= j < |idx| ==> idx[j] < |parts|
    ensures |r| == |idx| && forall j :: 0 <= j < |r| ==> r[j] == parts[idx[j]]
  {
    seq(|idx|, j requires 0 <= j < |idx| => parts[idx[j]])
  }

  lemma LoosePicked(ts: seq<DecodeTransition>, es: seq<Edge>, parts: seq<set<DecodeNode>>, idx: seq<nat>, rt: seq<DecodeTransition>, re: seq<Edge>)
    requires Loose(ts, es, parts) && Picked(ts, idx, rt) && Picked(es, idx, re)
    ensures Loose(rt, re, Pick(parts, idx)) && Union(Pick(parts, idx)) <= Union(parts)
  {
    UnionMember(parts);
    UnionMember(Pick(parts, idx));
  }

  /** Both halves of a partition are loose, over disjoint node sets. */
  lemma LoosePick(ts: seq<DecodeTransition>, es: seq<Edge>, parts: seq<set<DecodeNode>>,
                  mi: seq<nat>, matches: seq<DecodeTransition>, ri: seq<nat>, rest: seq<DecodeTransition>, p: Prefix)
    returns (moved: seq<set<DecodeNode>>, kept: seq<set<DecodeNode>>)
    requires Loose(ts, es, parts)
    requires Picked(ts, mi, matches) && Picked(es, mi, Filter(es, p, true))
    requires Picked(ts, ri, rest) && Picked(es, ri, Filter(es, p, false))
    ensures Loose(matches, Filter(es, p, true), moved) && Loose(rest, Filter(es, p, false), kept)
    ensures Union(moved) !! Union(kept) && Union(moved) <= Union(parts) && Union(kept) <= Union(parts)
  {
    moved, kept := Pick(parts, mi), Pick(parts, ri);
    LoosePicked(ts, es, parts, mi, matches, Filter(es, p, true));
    LoosePicked(ts, es, parts, ri, rest, Filter(es, p, false));
    hide Filter, StartsWith, Union, Loose;
    assert Disjoint(parts);
    UnionMember(moved);
    UnionMember(kept);
    forall i, j | 0 <= i < |mi| && 0 <= j < |ri| ensures moved[i] !! kept[j] {
      assert es[mi[i]] in Filter(es, p, true) && es[ri[j]] in Filter(es, p, false);
      assert mi[i] != ri[j];
    }
  }

  lemma FilterStep(edges: seq<Edge>, k: nat, p: Prefix, keep: bool)
    requires k < |edges|
    ensures Filter(edges[k..], p, keep)
         == (if StartsWith(edges[k], p) == keep then [edges[k]] else []) + Filter(edges[k + 1..], p, keep)
  {
    assert edges[k..][0] == edges[k] && edges[k..][1..] == edges[k + 1..];
  }

  /** Insertion of a pattern that starts with x, case by case. */
  lemma AddWildDef(n: Node, p: string, i: Insn)
    requires Built(n) && n.start + |p| == WORD && p != [] && p[0] == 'x'
    ensures var k := PrefixLength(p);
      n.start + k <= WORD &&
      if n.wild.None? then
        var c := NewNode(i, n.start + k);
        Built(c) && Add(n, p, i) == var r := Add(c, p[k..], i); Added(n.(wild := Some(Edge(k, 0, r.node))), r.ok)
      else
        var e := n.wild.value;
        1 <= e.length && e.node.start == n.start + e.length <= WORD && Built(e.node) &&
        if k >= e.length then
          Add(n, p, i) == var r := Add(e.node, p[e.length..], i); Added(n.(wild := Some(e.(node := r.node))), r.ok)
        else
          var c := Broken(n, k);
          Built(c) && c.start < WORD
          && Add(n, p, i) == var r := Add(c, p[k..], i); Added(n.(wild := Some(Edge(k, e.value, r.node))), r.ok)
  {
    hide Built;
    BuiltParts(n);
    NewNodeBuilt(i, n.start + PrefixLength(p));
    if n.wild.Some? && PrefixLength(p) < n.wild.value.length {
      BrokenBuilt(n, PrefixLength(p));
    }
  }

  lemma {:induction false} InsertEdgeAt(edges: seq<Edge>, e: Edge, k: nat)
    requires k <= |edges|
    requires forall t :: 0 <= t < k ==> edges[t].length <= e.length
    requires k < |edges| ==> e.length < edges[k].length
    ensures InsertEdge(edges, e) == edges[..k] + [e] + edges[k..]
    decreases edges
  {
    if k > 0 {
      InsertEdgeAt(edges[1..], e, k - 1);
    }
  }

  /** GetPrefix: the length of the run of x, or of bits, that starts at `start`. */
  method GetPrefix(str: string, start: nat) returns (length: nat)
    requires start < |str|
    ensures length == PrefixLength(str[start..])
  {
    var i := start;
    var x := str[start] == 'x';
    while i < |str| && (str[i] == 'x') == x
      invariant start <= i <= |str|
      invariant Run(str[start..], x) == i - start + Run(str[i..], x)
    {
      assert str[i..][1..] == str[i + 1..];
      i := i + 1;
    }
    length := i - start;
  }
}
