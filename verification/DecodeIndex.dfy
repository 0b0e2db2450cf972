/** The decode tree put to use: nodes are built from instruction descriptions, optimized
    in place and searched, and the answer is what matching every pattern gives. */
module DecodeIndex {
  import opened BinaryText
  import opened Common
  import opened DecodeTree
  import opened DecodeInsert
  import opened DecodeOptimize
  import opened DecodeTheorems
  import opened DecodeNodes
  import DecodeOptimizedOrder

  datatype Description = Description(insn: Insn, bitstrings: seq<string>)

  ghost predicate LegalDescription(d: Description) {
    forall k :: 0 <= k < |d.bitstrings| ==> |d.bitstrings[k]| == WORD && IsPattern(d.bitstrings[k])
  }

  /** All patterns of all descriptions, in order. */
  ghost function AllInsertions(ds: seq<Description>): (r: seq<Insertion>) {
    if ds == [] then [] else AllInsertions(ds[..|ds| - 1]) + Insertions(ds[|ds| - 1].insn, ds[|ds| - 1].bitstrings)
  }

  /** AddInstruction of a description: its bit strings in turn, up to the first one that
      is rejected. */
  method AddDescription(root: DecodeNode, d: Description) returns (ok: bool)
    requires root.Valid() && Built(root.tree) && root.tree.start == 0 && LegalDescription(d)
    modifies root.Repr
    ensures root.Valid() && fresh(root.Repr - old(root.Repr)) && old(root.Repr) <= root.Repr
    ensures var r := AddInstruction(old(root.tree), d.insn, d.bitstrings); root.tree == r.node && ok == r.ok
  {
    hide Built, Add, IsPattern;
    var k := 0;
    while k < |d.bitstrings|
      invariant 0 <= k <= |d.bitstrings| && root.Valid() && Built(root.tree) && root.tree.start == 0
      invariant fresh(root.Repr - old(root.Repr)) && old(root.Repr) <= root.Repr
      invariant AddInstruction(root.tree, d.insn, d.bitstrings[k..]) == AddInstruction(old(root.tree), d.insn, d.bitstrings)
    {
      var p := d.bitstrings[k];
      assert d.bitstrings[k..][0] == p && d.bitstrings[k..][1..] == d.bitstrings[k + 1..];
      assert p[0..] == p;
      AddBuilt(root.tree, p, d.insn);
      var done := root.AddInstruction(d.insn, p);
      if !done {
        return false;
      }
      k := k + 1;
    }
    return true;
  }

  /** After a description has been added the nodes are the tree of the insertions made. */
  method Extend(root: DecodeNode, d: Description, ghost ins: seq<Insertion>) returns (ok: bool)
    requires root.Valid() && Legal(ins) && root.tree == Build(ins) && LegalDescription(d)
    modifies root.Repr
    ensures root.Valid() && fresh(root.Repr - old(root.Repr)) && old(root.Repr) <= root.Repr
    ensures Legal(Made(ins, d.insn, d.bitstrings)) && root.tree == Build(Made(ins, d.insn, d.bitstrings))
    ensures ok <==> Accepted(ins, d.insn, d.bitstrings)
  {
    hide Built, Build, IsPattern;
    ok := AddDescription(root, d);
    AddInstructionBuilds(ins, d.insn, d.bitstrings);
  }

  /** The insertions made by all descriptions: each stops at a pattern that is rejected, and
      the next goes on. */
  ghost function AllMade(ds: seq<Description>): (r: seq<Insertion>) {
    if ds == [] then [] else Made(AllMade(ds[..|ds| - 1]), ds[|ds| - 1].insn, ds[|ds| - 1].bitstrings)
  }

  ghost predicate AllAccepted(ds: seq<Description>) {
    ds == [] ||
    (AllAccepted(ds[..|ds| - 1]) && Accepted(AllMade(ds[..|ds| - 1]), ds[|ds| - 1].insn, ds[|ds| - 1].bitstrings))
  }

  lemma {:induction false} AllAcceptedMade(ds: seq<Description>)
    requires AllAccepted(ds)
    ensures AllMade(ds) == AllInsertions(ds)
    decreases |ds|
  {
    if ds != [] {
      AllAcceptedMade(ds[..|ds| - 1]);
      AcceptedMade(AllMade(ds[..|ds| - 1]), ds[|ds| - 1].insn, ds[|ds| - 1].bitstrings);
    }
  }

  /** r is what owns the pattern that leads the matching ones in the optimized tree. */
  ghost predicate LeaderOwns(ins: seq<Insertion>, minLength: nat, minMembers: nat, w: nat, r: Option<Insn>)
    requires Legal(ins) && minLength >= 1
  {
    && Shaped(Build(ins))
    && var t := Optimize(Build(ins), minLength, minMembers);
    && (r.Some? ==> exists p :: DecodeOptimizedOrder.Leader(t, ins, w, p))
    && forall p :: DecodeOptimizedOrder.Leader(t, ins, w, p) ==> r == FirstOwner(ins, p)
  }

  lemma Owned(ins: seq<Insertion>, minLength: nat, minMembers: nat, w: nat)
    requires Legal(ins) && minLength >= 1
    ensures Shaped(Build(ins)) && Shaped(Optimize(Build(ins), minLength, minMembers))
    ensures LeaderOwns(ins, minLength, minMembers, w, Decode(Optimize(Build(ins), minLength, minMembers), w))
  {
    BuiltShaped(ins);
    hide Shaped, Optimize, Build, Decode;
    DecodeOptimizedOrder.LeaderWins(ins, minLength, minMembers, w);
  }

  /** The whole way from descriptions to a decoded word; whether a pattern was rejected is
      found out but, as in the source, has no consequence. */
  method BuildAndDecode(ds: seq<Description>, minLength: nat, minMembers: nat, w: nat) returns (r: Option<Insn>, ok: bool)
    requires ds != [] && minLength >= 1 && forall k :: 0 <= k < |ds| ==> LegalDescription(ds[k])
    ensures Legal(AllMade(ds)) && Agrees(r, AllMade(ds), w) && LeaderOwns(AllMade(ds), minLength, minMembers, w, r)
    ensures (ok <==> AllAccepted(ds)) && (ok ==> AllMade(ds) == AllInsertions(ds))
  {
    hide LegalDescription, Legal, Agrees, Build, Made, Accepted, LeaderOwns;
    var root := new DecodeNode(ds[0].insn, 0);
    ok := true;
    NothingBuilt(ds[0].insn);
    var k := 0;
    while k < |ds|
      invariant 0 <= k <= |ds| && root.Valid() && fresh(root.Repr)
      invariant Legal(AllMade(ds[..k])) && root.tree == Build(AllMade(ds[..k]))
      invariant ok <==> AllAccepted(ds[..k])
    {
      var done := Extend(root, ds[k], AllMade(ds[..k]));
      ok := ok && done;
      assert ds[..k + 1][..k] == ds[..k];
      k := k + 1;
    }
    assert ds[..k] == ds;
    if ok {
      AllAcceptedMade(ds);
    }
    OptimizedDecodes(AllMade(ds), minLength, minMembers, w);
    BuiltShaped(AllMade(ds));
    Owned(AllMade(ds), minLength, minMembers, w);
    root.Optimize(minLength, minMembers);
    r := root.Decode(w);
  }

  lemma NothingBuilt(i: Insn)
    ensures Legal([]) && NewNode(i, 0) == Build([])
  {
  }

  lemma BuiltShaped(ins: seq<Insertion>)
    requires Legal(ins)
    ensures Shaped(Build(ins))
  {
    hide Build;
    BuiltParts(Build(ins));
  }
}
