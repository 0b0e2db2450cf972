/** Insertion adds exactly one path, or none if the pattern already has an owner. */
module DecodeInsert {
  import opened BinaryText
  import opened Common
  import opened DecodeTree

  lemma {:induction false} InsertDistinct(edges: seq<Edge>, e: Edge)
    requires Distinct(edges)
    requires forall f :: f in edges ==> f.length != e.length || f.value != e.value
    ensures Distinct(InsertEdge(edges, e))
  {
    if edges != [] && e.length >= edges[0].length {
      var rest := InsertEdge(edges[1..], e);
      InsertDistinct(edges[1..], e);
      forall j | 0 <= j < |rest| ensures rest[j].length != edges[0].length || rest[j].value != edges[0].value {
        assert rest[j] in rest;
        assert rest[j] == e || rest[j] in edges[1..];
      }
    }
  }

  lemma SetWild(n: Node, e: Edge)
    requires Built(n) && Built(e.node)
    requires 1 <= e.length && e.node.start == n.start + e.length
    ensures Built(n.(wild := Some(e)))
  {
  }

  lemma SetEdge(n: Node, j: nat, c: Node)
    requires Built(n) && j < |n.edges| && Built(c)
    requires c.start == n.edges[j].node.start && c.edges == []
    ensures Built(n.(edges := n.edges[j := n.edges[j].(node := c)]))
  {
    var e := n.edges[j].(node := c);
    assert forall f :: f in n.edges[j := e] ==> f == e || f in n.edges;
    assert n.edges[j] in n.edges;
  }

  lemma PutEdge(n: Node, e: Edge)
    requires Built(n) && Built(e.node) && e.node.edges == []
    requires 1 <= e.length && e.value < Pow2(e.length) && e.node.start == n.start + e.length
    requires forall f :: f in n.edges ==> f.length != e.length || f.value != e.value
    ensures Built(n.(edges := InsertEdge(n.edges, e)))
  {
    hide InsertEdge, Pow2;
    assert e.node.start <= WORD;
    InsertDistinct(n.edges, e);
  }

  lemma BuiltParts(n: Node)
    requires Built(n)
    ensures n.start <= WORD && (n.target.Some? <==> n.start == WORD)
    ensures n.wild.Some? ==> var e := n.wild.value;
      1 <= e.length && e.node.start == n.start + e.length <= WORD && Built(e.node)
    ensures forall j :: 0 <= j < |n.edges| ==> var e := n.edges[j];
      1 <= e.length && e.value < Pow2(e.length) && e.node.start == n.start + e.length <= WORD
      && Built(e.node) && e.node.edges == []
  {
    forall j | 0 <= j < |n.edges| ensures n.edges[j] in n.edges {}
  }

  lemma NewNodeBuilt(i: Insn, start: nat)
    requires start <= WORD
    ensures Built(NewNode(i, start))
  {
  }

  /** Insertion keeps the tree's shape. */
  lemma {:induction false} AddBuilt(n: Node, p: string, i: Insn)
    requires Built(n) && n.start + |p| == WORD
    ensures var r := Add(n, p, i).node;
      && Built(r) && r.start == n.start && r.target == n.target
      && (n.edges == [] && (p == [] || p[0] == 'x') ==> r.edges == [])
    decreases |p|
  {
    hide Built, Shaped, Pow2, Run;
    BuiltParts(n);
    if p != [] {
      var k := PrefixLength(p);
      NewNodeBuilt(i, n.start + k);
      if p[0] == 'x' {
        AddBuiltWild(n, p, i, k);
      } else {
        var v := Value(p[..k]);
        ValueRange(p[..k]);
        var j := FindEdge(n.edges, k, v);
        if j < |n.edges| {
          AddBuilt(n.edges[j].node, p[k..], i);
          SetEdge(n, j, Add(n.edges[j].node, p[k..], i).node);
        } else {
          AddBuilt(NewNode(i, n.start + k), p[k..], i);
          PutEdge(n, Edge(k, v, Add(NewNode(i, n.start + k), p[k..], i).node));
        }
      }
    }
  }

  lemma {:induction false} AddBuiltWild(n: Node, p: string, i: Insn, k: nat)
    requires Built(n) && n.start + |p| == WORD && p != [] && p[0] == 'x' && k == PrefixLength(p)
    ensures var r := Add(n, p, i).node;
      Built(r) && r.start == n.start && r.target == n.target && r.edges == n.edges
    decreases |p|, 0
  {
    hide Built, Shaped, Pow2, Run;
    BuiltParts(n);
    if n.wild.None? {
      NewNodeBuilt(i, n.start + k);
      AddBuilt(NewNode(i, n.start + k), p[k..], i);
      SetWild(n, Edge(k, 0, Add(NewNode(i, n.start + k), p[k..], i).node));
    } else {
      var e := n.wild.value;
      if k >= e.length {
        AddBuilt(e.node, p[e.length..], i);
        SetWild(n, e.(node := Add(e.node, p[e.length..], i).node));
      } else {
        BrokenBuilt(n, k);
        AddBuilt(Broken(n, k), p[k..], i);
        SetWild(n, Edge(k, e.value, Add(Broken(n, k), p[k..], i).node));
      }
    }
  }

  // ----- The owner of a pattern -----

  /** Who owns pattern `p`: in a built tree its path is determined step by step. */
  function Owner(n: Node, p: string): Option<Insn>
    requires Built(n) && n.start + |p| == WORD
    decreases |p|
  {
    if p == [] then n.target
    else if p[0] == 'x' then
      if n.wild.Some? && n.wild.value.length <= PrefixLength(p) then
        Owner(n.wild.value.node, p[n.wild.value.length..])
      else None
    else
      var k := PrefixLength(p);
      var j := FindEdge(n.edges, k, Value(p[..k]));
      if j < |n.edges| then Owner(n.edges[j].node, p[k..]) else None
  }

  lemma XIsNotBits(p: string, e: Edge, i: Insn)
    requires p != [] && p[0] == 'x' && 1 <= e.length
    ensures !Through(e, p, i)
  {
    BitsAreBinary(e.value, e.length);
    assert Bits(e.value, e.length)[0] != 'x';
  }

  lemma AllXIsRun(p: string, length: nat)
    requires p != [] && length <= |p| && 1 <= length
    ensures AllX(p[..length]) <==> p[0] == 'x' && length <= PrefixLength(p)
  {
    var k := PrefixLength(p);
    assert p[..length][0] == p[0];
    assert k < length ==> p[..length][k] == p[k];
  }

  /** A path that starts with a constrained bit uses the edge for the whole run. */
  lemma ConstrainedStep(n: Node, p: string, i: Insn, e: Edge)
    requires Built(n) && n.start + |p| == WORD && IsPattern(p) && p != [] && p[0] != 'x'
    requires e in n.edges && Through(e, p, i)
    ensures e.length == PrefixLength(p) && e.value == Value(p[..e.length])
  {
    BuiltParts(n);
    var k := PrefixLength(p);
    BitsAreBinary(e.value, e.length);
    assert forall t :: 0 <= t < e.length ==> p[t] == Bits(e.value, e.length)[t];
    if e.length < k {
      var c, q := e.node, p[e.length..];
      assert q[0] == p[e.length] != 'x';
      BuiltParts(c);
      assert HasPath(c, q, i) && c.target.None? && c.edges == [];
      AllXIsRun(q, c.wild.value.length);
    }
    ValueOfBits(e.value, e.length);
  }

  /** In a built tree the paths are exactly the owned patterns. */
  lemma {:induction false} OwnerIsPath(n: Node, p: string, i: Insn)
    requires Built(n) && n.start + |p| == WORD && IsPattern(p)
    ensures HasPath(n, p, i) <==> Owner(n, p) == Some(i)
    decreases |p|
  {
    hide Built, Shaped, Pow2, Run, Through, Bits, Value;
    BuiltParts(n);
    if p != [] {
      var k := PrefixLength(p);
      if p[0] == 'x' {
        forall e | e in n.edges ensures !Through(e, p, i) {
          XIsNotBits(p, e, i);
        }
        if n.wild.Some? && n.wild.value.length <= |p| {
          AllXIsRun(p, n.wild.value.length);
          if n.wild.value.length <= k {
            OwnerIsPath(n.wild.value.node, p[n.wild.value.length..], i);
          }
        }
      } else {
        if n.wild.Some? && n.wild.value.length <= |p| {
          AllXIsRun(p, n.wild.value.length);
        }
        OwnerIsPathConstrained(n, p, i, k);
      }
    }
  }

  lemma {:induction false} OwnerIsPathConstrained(n: Node, p: string, i: Insn, k: nat)
    requires Built(n) && n.start + |p| == WORD && IsPattern(p)
    requires p != [] && p[0] != 'x' && k == PrefixLength(p)
    ensures (exists e :: e in n.edges && Through(e, p, i)) <==> Owner(n, p) == Some(i)
    decreases |p|, 0
  {
    hide Built, Shaped, Pow2, Run, Bits, Value;
    BuiltParts(n);
    var j := FindEdge(n.edges, k, Value(p[..k]));
    if e :| e in n.edges && Through(e, p, i) {
      ConstrainedStep(n, p, i, e);
      SameLabelSameEdge(n, e, j);
      OwnerIsPath(e.node, p[k..], i);
    }
    if j < |n.edges| && Owner(n, p) == Some(i) {
      var e := n.edges[j];
      OwnerIsPath(e.node, p[k..], i);
      BitsOfValue(p[..k]);
      assert Through(e, p, i);
    }
  }

  lemma SameLabelSameEdge(n: Node, e: Edge, j: nat)
    requires Built(n) && e in n.edges
    requires j == FindEdge(n.edges, e.length, e.value)
    ensures j < |n.edges| && n.edges[j] == e
  {
  }

  // ----- What insertion changes -----

  lemma SuffixEqual(p: string, q: string, k: nat)
    requires k <= |p| && k <= |q| && p[..k] == q[..k]
    ensures p == q <==> p[k..] == q[k..]
  {
    assert p == p[..k] + p[k..] && q == q[..k] + q[k..];
  }

  /** What `Owner` answers for `q` once `p` has been inserted for `i`. */
  ghost function OwnerAfter(n: Node, p: string, i: Insn, q: string): Option<Insn>
    requires Built(n) && n.start + |p| == WORD && n.start + |q| == WORD
  {
    if q == p && Owner(n, p).None? then Some(i) else Owner(n, q)
  }

  lemma SamePrefixOfX(p: string, q: string, k: nat)
    requires 1 <= k && p != [] && q != [] && p[0] == 'x' && q[0] == 'x'
    requires k <= PrefixLength(p) && k <= PrefixLength(q)
    ensures p[..k] == q[..k]
  {
  }

  /** Splitting an unconstrained edge changes no owner. */
  lemma BrokenOwner(n: Node, k: nat, q: string)
    requires Built(n) && n.wild.Some? && 1 <= k < n.wild.value.length
    requires n.start + |q| == WORD && q != [] && q[0] == 'x' && k <= PrefixLength(q)
    ensures Built(Broken(n, k)) && Owner(Broken(n, k), q[k..]) == Owner(n, q)
  {
    hide Built, Owner;
    BrokenBuilt(n, k);
    OwnerByWild(n, q);
    var e, r := n.wild.value, q[k..];
    if k < PrefixLength(q) {
      RunSuffix(q, k);
      OwnerByWild(Broken(n, k), r);
      if e.length <= PrefixLength(q) {
        assert r[e.length - k..] == q[e.length..];
      }
    } else {
      assert r != [] ==> r[0] == q[k] != 'x';
      BrokenByBit(n, k, r);
    }
  }

  lemma BrokenByBit(n: Node, k: nat, r: string)
    requires n.wild.Some? && 1 <= k < n.wild.value.length && Built(Broken(n, k))
    requires n.start + k + |r| == WORD && (r == [] || r[0] != 'x')
    ensures Owner(Broken(n, k), r) == None
  {
  }

  lemma {:induction false} RunSuffix(q: string, k: nat)
    requires q != [] && q[0] == 'x' && k < PrefixLength(q)
    ensures q[k..] != [] && q[k] == 'x' && PrefixLength(q[k..]) == PrefixLength(q) - k
    decreases k
  {
    if k > 0 {
      assert q[k..] == q[1..][k - 1..];
      RunSuffix(q[1..], k - 1);
    }
  }

  lemma NewNodeOwner(i: Insn, start: nat, p: string, q: string)
    requires start + |p| == WORD && start + |q| == WORD
    ensures Built(NewNode(i, start))
    ensures OwnerAfter(NewNode(i, start), p, i, q) == if p == q then Some(i) else None
  {
  }

  lemma OwnerByEdge(m: Node, q: string, e: Edge)
    requires Built(m) && m.start + |q| == WORD && q != [] && q[0] != 'x'
    requires e in m.edges && e.length == PrefixLength(q) && e.value == Value(q[..e.length])
    ensures Built(e.node) && e.node.start == m.start + e.length && Owner(m, q) == Owner(e.node, q[e.length..])
  {
    SameLabelSameEdge(m, e, FindEdge(m.edges, e.length, e.value));
  }

  lemma OwnerByWild(m: Node, q: string)
    requires Built(m) && m.start + |q| == WORD && q != [] && q[0] == 'x'
    ensures Owner(m, q) ==
      if m.wild.Some? && m.wild.value.length <= PrefixLength(q) then
        Owner(m.wild.value.node, q[m.wild.value.length..])
      else None
  {
  }

  /** Only constrained edges matter to a pattern that starts with a bit, only the
      unconstrained one to a pattern that starts with x. */
  lemma OwnerFrame(m: Node, m': Node, q: string)
    requires Built(m) && Built(m') && m.start == m'.start && m.start + |q| == WORD && q != []
    requires q[0] == 'x' ==> m.wild == m'.wild
    requires q[0] != 'x' ==> m.edges == m'.edges
    ensures Owner(m, q) == Owner(m', q)
  {
  }

  /** Insertion gives an unowned pattern its owner and touches no other pattern. */
  lemma {:induction false} AddOwner(n: Node, p: string, i: Insn, q: string)
    requires Built(n) && n.start + |p| == WORD && n.start + |q| == WORD
    requires IsPattern(p) && IsPattern(q)
    ensures Built(Add(n, p, i).node) && Add(n, p, i).node.start == n.start
    ensures Owner(Add(n, p, i).node, q) == OwnerAfter(n, p, i, q)
    decreases |p|, 1
  {
    hide Built, Shaped, Pow2, Run, Value, Owner;
    AddBuilt(n, p, i);
    BuiltParts(n);
    if p == [] {
      assert Owner(n, q) == n.target by {
        OwnerEnd(n, q);
      }
    } else if (p[0] == 'x') != (q[0] == 'x') {
      OwnerFrame(n, Add(n, p, i).node, q);
    } else if p[0] == 'x' {
      AddOwnerWild(n, p, i, q);
    } else {
      AddOwnerConstrained(n, p, i, q);
    }
  }

  lemma OwnerEnd(n: Node, q: string)
    requires Built(n) && n.start + |q| == WORD && q == []
    ensures Owner(n, q) == n.target
  {
  }

  lemma AddNewWild(n: Node, p: string, i: Insn)
    requires Built(n) && n.start + |p| == WORD && p != [] && p[0] == 'x' && n.wild.None?
    ensures var k := PrefixLength(p);
      && Built(NewNode(i, n.start + k))
      && Add(n, p, i).node == n.(wild := Some(Edge(k, 0, Add(NewNode(i, n.start + k), p[k..], i).node)))
  {
  }

  lemma AddBelowWild(n: Node, p: string, i: Insn)
    requires Built(n) && n.start + |p| == WORD && p != [] && p[0] == 'x' && n.wild.Some?
    ensures var e, k := n.wild.value, PrefixLength(p);
      var h := if k >= e.length then e.length else k;
      var c := if k >= e.length then e.node else Broken(n, k);
      && 1 <= h && Built(c) && c.start == n.start + h
      && Add(n, p, i).node == n.(wild := Some(Edge(h, e.value, Add(c, p[h..], i).node)))
  {
    BuiltParts(n);
    if PrefixLength(p) < n.wild.value.length {
      BrokenBuilt(n, PrefixLength(p));
    }
  }

  lemma {:induction false} AddOwnerWild(n: Node, p: string, i: Insn, q: string)
    requires Built(n) && n.start + |p| == WORD && n.start + |q| == WORD
    requires IsPattern(p) && IsPattern(q) && p != [] && p[0] == 'x' == q[0]
    requires Built(Add(n, p, i).node) && Add(n, p, i).node.start == n.start
    ensures Owner(Add(n, p, i).node, q) == OwnerAfter(n, p, i, q)
    decreases |p|, 0
  {
    hide Built, Shaped, Pow2, Run, Value, Owner, Add;
    BuiltParts(n);
    var n' := Add(n, p, i).node;
    OwnerByWild(n', q);
    OwnerByWild(n, q);
    OwnerByWild(n, p);
    var k, l := PrefixLength(p), PrefixLength(q);
    if n.wild.None? {
      AddNewWild(n, p, i);
      NewNodeOwner(i, n.start + k, p[k..], p[k..]);
      if k <= l {
        SamePrefixOfX(p, q, k);
        SuffixEqual(p, q, k);
        AddOwner(NewNode(i, n.start + k), p[k..], i, q[k..]);
        NewNodeOwner(i, n.start + k, p[k..], q[k..]);
      }
    } else {
      var e := n.wild.value;
      var h := if k >= e.length then e.length else k;
      var c := if k >= e.length then e.node else Broken(n, k);
      AddBelowWild(n, p, i);
      if h <= l {
        SamePrefixOfX(p, q, h);
        SuffixEqual(p, q, h);
        if k < e.length {
          BrokenOwner(n, k, p);
          BrokenOwner(n, k, q);
        }
        AddOwner(c, p[h..], i, q[h..]);
      }
    }
  }

  /** The child insertion goes down to, and the edge that leads to it afterwards. */
  ghost function ChildFor(n: Node, p: string, i: Insn): Node
    requires p != []
  {
    var k := PrefixLength(p);
    var j := FindEdge(n.edges, k, Value(p[..k]));
    if j < |n.edges| then n.edges[j].node else NewNode(i, n.start + k)
  }

  lemma AddedEdge(n: Node, p: string, i: Insn)
    requires Built(n) && n.start + |p| == WORD && p != [] && p[0] != 'x'
    ensures var k, c, n' := PrefixLength(p), ChildFor(n, p, i), Add(n, p, i).node;
      && Built(c) && c.start == n.start + k
      && var e := Edge(k, Value(p[..k]), Add(c, p[k..], i).node);
      && e in n'.edges
      && (forall f :: f in n'.edges ==> f == e || f in n.edges)
      && (forall f :: f in n.edges && (f.length != e.length || f.value != e.value) ==> f in n'.edges)
  {
    hide Built, Shaped, Pow2, Run, Value;
    BuiltParts(n);
    var k := PrefixLength(p);
    NewNodeBuilt(i, n.start + k);
    var j := FindEdge(n.edges, k, Value(p[..k]));
    if j < |n.edges| {
      var n' := Add(n, p, i).node;
      assert n'.edges[j] in n'.edges;
      forall f | f in n.edges && (f.length != k || f.value != Value(p[..k])) ensures f in n'.edges {
        var t :| 0 <= t < |n.edges| && n.edges[t] == f;
        assert n'.edges[t] == f;
      }
    }
  }

  lemma {:induction false} AddOwnerConstrained(n: Node, p: string, i: Insn, q: string)
    requires Built(n) && n.start + |p| == WORD && n.start + |q| == WORD
    requires IsPattern(p) && IsPattern(q) && p != [] && p[0] != 'x' && q[0] != 'x'
    requires Built(Add(n, p, i).node) && Add(n, p, i).node.start == n.start
    ensures Owner(Add(n, p, i).node, q) == OwnerAfter(n, p, i, q)
    decreases |p|, 0
  {
    hide Built, Shaped, Pow2, Run, Value, Add;
    var n' := Add(n, p, i).node;
    var k, l := PrefixLength(p), PrefixLength(q);
    var c := ChildFor(n, p, i);
    AddedEdge(n, p, i);
    if l == k && Value(q[..l]) == Value(p[..k]) {
      BitsOfValue(p[..k]);
      BitsOfValue(q[..k]);
      SuffixEqual(p, q, k);
      OwnerByEdge(n', q, Edge(k, Value(p[..k]), Add(c, p[k..], i).node));
      AddOwner(c, p[k..], i, q[k..]);
      NewNodeOwner(i, n.start + k, p[k..], q[k..]);
    } else {
      var t := FindEdge(n.edges, l, Value(q[..l]));
      if t < |n.edges| {
        OwnerByEdge(n', q, n.edges[t]);
      }
    }
  }

  // ----- Conflicts -----

  /** Insertion reports a conflict exactly when the pattern has no constrained bit
      and another instruction owns it: below a matching constrained edge the
      result of the recursive call is dropped. */
  lemma {:induction false} AddReportsConflict(n: Node, p: string, i: Insn)
    requires Built(n) && n.start + |p| == WORD
    ensures Add(n, p, i).ok <==> !(AllX(p) && Owner(n, p).Some? && Owner(n, p) != Some(i))
    decreases |p|
  {
    hide Built, Shaped, Pow2, Run, Value;
    BuiltParts(n);
    if p != [] {
      var k := PrefixLength(p);
      NewNodeBuilt(i, n.start + k);
      if p[0] == 'x' {
        assert forall h :: 1 <= h <= k ==> AllX(p) == AllX(p[h..]) by {
          forall h | 1 <= h <= k ensures AllX(p) == AllX(p[h..]) {
            AllXSuffix(p, h);
          }
        }
        if n.wild.None? {
          AddReportsConflict(NewNode(i, n.start + k), p[k..], i);
          NewNodeOwner(i, n.start + k, p[k..], p[k..]);
        } else if k >= n.wild.value.length {
          AddReportsConflict(n.wild.value.node, p[n.wild.value.length..], i);
        } else {
          BrokenOwner(n, k, p);
          AddReportsConflict(Broken(n, k), p[k..], i);
        }
      } else if FindEdge(n.edges, k, Value(p[..k])) == |n.edges| {
        AddReportsConflict(NewNode(i, n.start + k), p[k..], i);
        NewNodeOwner(i, n.start + k, p[k..], p[k..]);
      }
    }
  }

  lemma AllXSuffix(p: string, h: nat)
    requires p != [] && p[0] == 'x' && h <= PrefixLength(p)
    ensures AllX(p) <==> AllX(p[h..])
  {
    assert forall k :: 0 <= k < |p[h..]| ==> p[h..][k] == p[h + k];
    assert forall k :: h <= k < |p| ==> p[k] == p[h..][k - h];
  }
}
