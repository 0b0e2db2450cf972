/** The instruction decode tree as a value: nodes, the paths through them, and what
    insertion, look-up and search compute. Words and patterns are 32 bits long. */
module DecodeTree {
  import opened BinaryText
  import opened Common

  const WORD := 32

  /** An instruction description, known by identity only. */
  type Insn = nat

  datatype Node = Node(start: nat, edges: seq<Edge>, wild: Option<Edge>, target: Option<Insn>)

  datatype Edge = Edge(length: nat, value: nat, node: Node)

  predicate IsPattern(p: string) {
    forall k :: 0 <= k < |p| ==> p[k] == '0' || p[k] == '1' || p[k] == 'x'
  }

  predicate AllX(p: string) {
    forall k :: 0 <= k < |p| ==> p[k] == 'x'
  }

  // ----- Shape -----

  ghost predicate Distinct(edges: seq<Edge>) {
    forall i, j :: 0 <= i < j < |edges| ==> edges[i].length != edges[j].length || edges[i].value != edges[j].value
  }

  /** What search needs: positions add up, labels are in range, and exactly the
      nodes at the end of the word carry an instruction. */
  ghost predicate Shaped(n: Node) {
    && n.start <= WORD
    && (n.target.Some? <==> n.start == WORD)
    && Distinct(n.edges)
    && (forall e :: e in n.edges ==>
          1 <= e.length && e.value < Pow2(e.length) && e.node.start == n.start + e.length <= WORD && Shaped(e.node))
    && (n.wild.Some? ==>
          n.wild.value.node.start == n.start + n.wild.value.length && Shaped(n.wild.value.node))
  }

  /** What insertion keeps besides: no zero-length edge, and a constrained edge is
      as long as it can be, so none follows it directly. */
  ghost predicate Built(n: Node) {
    && Shaped(n)
    && (forall e :: e in n.edges ==> e.node.edges == [] && Built(e.node))
    && (n.wild.Some? ==> 1 <= n.wild.value.length && Built(n.wild.value.node))
  }

  // ----- Paths -----

  /** `p` labels a path from `n` to a node carrying `i`. */
  ghost predicate HasPath(n: Node, p: string, i: Insn) {
    || (n.target == Some(i) && p == [])
    || (n.target.None? && exists e :: e in n.edges && Through(e, p, i))
    || (n.target.None? && n.wild.Some? && ThroughWild(n.wild.value, p, i))
  }

  ghost predicate Through(e: Edge, p: string, i: Insn) {
    && e.length <= |p|
    && p[..e.length] == Bits(e.value, e.length)
    && HasPath(e.node, p[e.length..], i)
  }

  ghost predicate ThroughWild(e: Edge, p: string, i: Insn) {
    && e.length <= |p|
    && AllX(p[..e.length])
    && HasPath(e.node, p[e.length..], i)
  }

  // ----- Search -----

  /** UNSIGNED_BITS(w, 31 - start, 31 - start - length + 1). */
  function Chunk(w: nat, start: nat, length: nat): nat
    requires start + length <= WORD
  {
    DivNonNegative(w, Pow2(WORD - start - length));
    w / Pow2(WORD - start - length) % Pow2(length)
  }

  function Decode(n: Node, w: nat): Option<Insn>
    requires Shaped(n)
    decreases n, |n.edges| + 1
  {
    if n.target.Some? then n.target else DecodeFrom(n, 0, w)
  }

  function DecodeFrom(n: Node, k: nat, w: nat): Option<Insn>
    requires Shaped(n) && k <= |n.edges|
    decreases n, |n.edges| - k
  {
    if k == |n.edges| then
      if n.wild.Some? then Decode(n.wild.value.node, w) else None
    else
      var e := n.edges[k];
      if Chunk(w, n.start, e.length) == e.value then
        var r := Decode(e.node, w);
        if r.Some? then r else DecodeFrom(n, k + 1, w)
      else DecodeFrom(n, k + 1, w)
  }

  /** The bits of w from position `start` on agree with p wherever p is not x. */
  ghost predicate Matches(p: string, w: nat, start: nat)
    requires start + |p| == WORD
  {
    forall k :: 0 <= k < |p| ==> p[k] == 'x' || p[k] == Bits(w, WORD)[start + k]
  }

  // ----- Insertion -----

  /** The length of the leading run of x (or of non-x) characters. */
  function Run(p: string, x: bool): (r: nat)
    ensures r <= |p|
    ensures forall k :: 0 <= k < r ==> (p[k] == 'x') == x
    ensures r < |p| ==> (p[r] == 'x') != x
  {
    if p == [] || (p[0] == 'x') != x then 0 else 1 + Run(p[1..], x)
  }

  /** GetPrefix: the length of the leading run of either kind. */
  function PrefixLength(p: string): (r: nat)
    requires p != []
    ensures 1 <= r <= |p|
  {
    Run(p, p[0] == 'x')
  }

  /** The edge with this label, or |edges|. */
  function FindEdge(edges: seq<Edge>, length: nat, value: nat): (k: nat)
    ensures k <= |edges|
    ensures k < |edges| ==> edges[k].length == length && edges[k].value == value
    ensures k == |edges| ==> forall e :: e in edges ==> e.length != length || e.value != value
  {
    if edges == [] then 0
    else if edges[0].length == length && edges[0].value == value then 0
    else 1 + FindEdge(edges[1..], length, value)
  }

  /** Insertion into a multimap keyed by length: after all entries not longer. */
  function InsertEdge(edges: seq<Edge>, e: Edge): (r: seq<Edge>)
    ensures |r| == |edges| + 1
    ensures forall f :: f in r <==> f == e || f in edges
  {
    if edges == [] then [e]
    else if e.length < edges[0].length then [e] + edges
    else [edges[0]] + InsertEdge(edges[1..], e)
  }

  /** A node at `start`: it carries the instruction if that is the word's end. */
  function NewNode(i: Insn, start: nat): Node {
    Node(start, [], None, if start == WORD then Some(i) else None)
  }

  datatype Added = Added(node: Node, ok: bool)

  /** AddInstruction: `p` is what is left of the bit string at this node. */
  function Add(n: Node, p: string, i: Insn): Added
    requires Built(n) && n.start + |p| == WORD
    decreases |p|
  {
    if p == [] then Added(n, n.target == None || n.target == Some(i))
    else
      var k := PrefixLength(p);
      if p[0] == 'x' then
        if n.wild.None? then
          var r := Add(NewNode(i, n.start + k), p[k..], i);
          Added(n.(wild := Some(Edge(k, 0, r.node))), r.ok)
        else
          var e := n.wild.value;
          if k >= e.length then
            var r := Add(e.node, p[e.length..], i);
            Added(n.(wild := Some(e.(node := r.node))), r.ok)
          else
            BrokenBuilt(n, k);
            var r := Add(Broken(n, k), p[k..], i);
            Added(n.(wild := Some(Edge(k, e.value, r.node))), r.ok)
      else
        var v := Value(p[..k]);
        var j := FindEdge(n.edges, k, v);
        if j < |n.edges| then
          var r := Add(n.edges[j].node, p[k..], i);
          Added(n.(edges := n.edges[j := n.edges[j].(node := r.node)]), true)
        else
          var r := Add(NewNode(i, n.start + k), p[k..], i);
          Added(n.(edges := InsertEdge(n.edges, Edge(k, v, r.node))), r.ok)
  }

  /** BreakUnconstrainedTransition: the node inserted `k` bits into the edge. */
  function Broken(n: Node, k: nat): Node
    requires n.wild.Some? && k < n.wild.value.length
  {
    var e := n.wild.value;
    Node(n.start + k, [], Some(Edge(e.length - k, 0, e.node)), None)
  }

  lemma BrokenBuilt(n: Node, k: nat)
    requires Built(n) && n.wild.Some? && 1 <= k < n.wild.value.length
    ensures Built(Broken(n, k)) && Broken(n, k).start < WORD
  {
    assert n.wild.value.node.start <= WORD;
  }
}
