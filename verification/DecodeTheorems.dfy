/** The decode tree agrees with linear pattern matching, before and after Optimize. */
module DecodeTheorems {
  import opened BinaryText
  import opened Common
  import opened DecodeTree
  import opened DecodeSearch
  import opened DecodeInsert
  import opened DecodeOptimize

  /** One bit string inserted for one instruction. */
  datatype Insertion = Insertion(pattern: string, insn: Insn)

  ghost predicate Legal(ins: seq<Insertion>) {
    forall k :: 0 <= k < |ins| ==> |ins[k].pattern| == WORD && IsPattern(ins[k].pattern)
  }

  const ROOT := Node(0, [], None, None)

  /** The tree after inserting all of `ins` in order. */
  function Build(ins: seq<Insertion>): (n: Node)
    requires Legal(ins)
    ensures Built(n) && n.start == 0
  {
    if ins == [] then ROOT
    else
      var m, last := Build(ins[..|ins| - 1]), ins[|ins| - 1];
      AddBuilt(m, last.pattern, last.insn);
      Add(m, last.pattern, last.insn).node
  }

  /** The instruction of the first insertion of this pattern. */
  function FirstOwner(ins: seq<Insertion>, p: string): Option<Insn> {
    if ins == [] then None
    else if ins[0].pattern == p then Some(ins[0].insn)
    else FirstOwner(ins[1..], p)
  }

  lemma {:induction false} FirstOwnerSnoc(ins: seq<Insertion>, x: Insertion, p: string)
    ensures FirstOwner(ins + [x], p) ==
      if FirstOwner(ins, p).Some? then FirstOwner(ins, p) else if x.pattern == p then Some(x.insn) else None
  {
    if ins != [] {
      assert (ins + [x])[1..] == ins[1..] + [x];
      FirstOwnerSnoc(ins[1..], x, p);
    }
  }

  lemma {:induction false} FirstOwnerInserted(ins: seq<Insertion>, p: string)
    ensures FirstOwner(ins, p).Some? ==> exists k :: 0 <= k < |ins| && ins[k] == Insertion(p, FirstOwner(ins, p).value)
    ensures FirstOwner(ins, p).None? ==> forall k :: 0 <= k < |ins| ==> ins[k].pattern != p
  {
    if ins != [] && ins[0].pattern != p {
      FirstOwnerInserted(ins[1..], p);
      if FirstOwner(ins, p).Some? {
        var k :| 0 <= k < |ins[1..]| && ins[1..][k] == Insertion(p, FirstOwner(ins, p).value);
        assert ins[k + 1] == ins[1..][k];
      }
    } else if ins != [] {
      assert ins[0] == Insertion(p, ins[0].insn);
    }
  }

  /** Whoever inserted a pattern first owns it in the tree. */
  lemma {:induction false} BuildOwner(ins: seq<Insertion>, q: string)
    requires Legal(ins) && |q| == WORD && IsPattern(q)
    ensures Owner(Build(ins), q) == FirstOwner(ins, q)
    decreases |ins|
  {
    hide Built, Owner, Add;
    if ins == [] {
      RootOwner(q);
    } else {
      var init, last := ins[..|ins| - 1], ins[|ins| - 1];
      BuildOwner(init, q);
      BuildOwner(init, last.pattern);
      AddOwner(Build(init), last.pattern, last.insn, q);
      assert ins == init + [last];
      FirstOwnerSnoc(init, last, q);
    }
  }

  lemma RootOwner(q: string)
    requires |q| == WORD
    ensures Built(ROOT) && Owner(ROOT, q) == None
  {
  }

  lemma BuildPaths(ins: seq<Insertion>, p: string, i: Insn)
    requires Legal(ins) && |p| == WORD && IsPattern(p)
    ensures HasPath(Build(ins), p, i) <==> FirstOwner(ins, p) == Some(i)
  {
    hide Built, Owner, HasPath;
    BuildOwner(ins, p);
    OwnerIsPath(Build(ins), p, i);
  }

  /** Labels of paths are patterns. */
  lemma {:induction false} PathIsPattern(n: Node, p: string, i: Insn)
    requires HasPath(n, p, i)
    ensures IsPattern(p)
    decreases n
  {
    if n.target.None? {
      if e :| e in n.edges && Through(e, p, i) {
        PathIsPattern(e.node, p[e.length..], i);
        BitsAreBinary(e.value, e.length);
        assert p == p[..e.length] + p[e.length..];
      } else {
        var e := n.wild.value;
        PathIsPattern(e.node, p[e.length..], i);
        assert p == p[..e.length] + p[e.length..];
      }
    }
  }

  ghost predicate Hits(x: Insertion, w: nat)
    requires |x.pattern| == WORD
  {
    Matches(x.pattern, w, 0)
  }

  /** A tree with the paths of `ins` decodes a word exactly when some inserted
      pattern matches it, and only to an instruction that owns a pattern that does. */
  ghost predicate Agrees(r: Option<Insn>, ins: seq<Insertion>, w: nat)
    requires Legal(ins)
  {
    && (r.Some? <==> exists k :: 0 <= k < |ins| && Hits(ins[k], w))
    && (r.Some? ==> exists k :: 0 <= k < |ins| && FirstOwner(ins, ins[k].pattern) == r && Hits(ins[k], w))
  }

  lemma PathsAgree(n: Node, ins: seq<Insertion>, w: nat)
    requires Legal(ins) && Shaped(n) && n.start == 0
    requires forall p: string, i: Insn :: |p| == WORD && IsPattern(p) ==> (HasPath(n, p, i) <==> FirstOwner(ins, p) == Some(i))
    ensures Agrees(Decode(n, w), ins, w)
  {
    hide HasPath, Shaped, Matches, Decode;
    if Decode(n, w).Some? {
      var i := Decode(n, w).value;
      var p := DecodeSound(n, w);
      PathIsPattern(n, p, i);
      FirstOwnerInserted(ins, p);
      var k :| 0 <= k < |ins| && ins[k] == Insertion(p, i);
      assert Hits(ins[k], w);
    }
    if k :| 0 <= k < |ins| && Hits(ins[k], w) {
      var p := ins[k].pattern;
      FirstOwnerInserted(ins, p);
      DecodeComplete(n, w, p, FirstOwner(ins, p).value);
    }
  }

  /** After any insertions, Decode agrees with trying every pattern in turn. */
  lemma BuildDecodes(ins: seq<Insertion>, w: nat)
    requires Legal(ins)
    ensures Agrees(Decode(Build(ins), w), ins, w)
  {
    hide HasPath, Shaped, Decode, Agrees;
    forall p: string, i: Insn | |p| == WORD && IsPattern(p) ensures HasPath(Build(ins), p, i) <==> FirstOwner(ins, p) == Some(i) {
      BuildPaths(ins, p, i);
    }
    PathsAgree(Build(ins), ins, w);
  }

  /** ... and so it does after Optimize. */
  lemma OptimizedDecodes(ins: seq<Insertion>, minLength: nat, minMembers: nat, w: nat)
    requires Legal(ins) && minLength >= 1
    ensures Shaped(Optimize(Build(ins), minLength, minMembers))
    ensures Agrees(Decode(Optimize(Build(ins), minLength, minMembers), w), ins, w)
  {
    hide HasPath, Shaped, Decode, Agrees, Optimize;
    var r := Optimize(Build(ins), minLength, minMembers);
    OptimizePaths(Build(ins), minLength, minMembers, [], 0);
    forall p: string, i: Insn | |p| == WORD && IsPattern(p) ensures HasPath(r, p, i) <==> FirstOwner(ins, p) == Some(i) {
      BuildPaths(ins, p, i);
      OptimizePaths(Build(ins), minLength, minMembers, p, i);
    }
    PathsAgree(r, ins, w);
  }

  /** If one instruction owns all patterns that match the word, Optimize does not change
      what it decodes to. */
  lemma OptimizeKeepsDecode(ins: seq<Insertion>, minLength: nat, minMembers: nat, w: nat)
    requires Legal(ins) && minLength >= 1
    requires forall j, k :: 0 <= j < |ins| && 0 <= k < |ins| && Hits(ins[j], w) && Hits(ins[k], w) ==>
      FirstOwner(ins, ins[j].pattern) == FirstOwner(ins, ins[k].pattern)
    ensures Shaped(Optimize(Build(ins), minLength, minMembers))
    ensures Decode(Optimize(Build(ins), minLength, minMembers), w) == Decode(Build(ins), w)
  {
    hide Shaped, Decode, Optimize, Hits;
    BuildDecodes(ins, w);
    OptimizedDecodes(ins, minLength, minMembers, w);
  }

  /** After these insertions, another instruction owns the pattern and it has no fixed bit. */
  predicate Rejects(ins: seq<Insertion>, p: string, i: Insn) {
    AllX(p) && FirstOwner(ins, p).Some? && FirstOwner(ins, p) != Some(i)
  }

  /** A rejected insertion is one of the all-x pattern, already owned by another
      instruction. */
  lemma RejectedInsertion(ins: seq<Insertion>, p: string, i: Insn)
    requires Legal(ins) && |p| == WORD && IsPattern(p)
    ensures Add(Build(ins), p, i).ok <==> !Rejects(ins, p, i)
  {
    hide Built, Owner, Add;
    AddReportsConflict(Build(ins), p, i);
    BuildOwner(ins, p);
  }

  /** A rejected insertion changes no owner. */
  lemma RejectedKeepsOwners(ins: seq<Insertion>, p: string, i: Insn, q: string)
    requires Legal(ins) && |p| == WORD && IsPattern(p) && |q| == WORD && IsPattern(q) && Rejects(ins, p, i)
    ensures Built(Add(Build(ins), p, i).node) && Owner(Add(Build(ins), p, i).node, q) == Owner(Build(ins), q)
  {
    hide Built, Owner, Add, FirstOwner;
    BuildOwner(ins, p);
    AddOwner(Build(ins), p, i, q);
  }

  /** A pattern with a fixed bit that another instruction owns: the insertion reports
      success, and the tree keeps the owner it had. */
  lemma UnreportedConflict(ins: seq<Insertion>, p: string, i: Insn)
    requires Legal(ins) && |p| == WORD && IsPattern(p) && !AllX(p)
    requires FirstOwner(ins, p).Some? && FirstOwner(ins, p) != Some(i)
    ensures var a := Add(Build(ins), p, i); a.ok && Built(a.node) && Owner(a.node, p) == FirstOwner(ins, p)
  {
    hide Built, Owner, Add;
    RejectedInsertion(ins, p, i);
    BuildOwner(ins, p);
    AddOwner(Build(ins), p, i, p);
  }

  /** Two instructions with one and the same fully fixed pattern: the second is dropped
      without a word. */
  lemma SilentConflict(p: string)
    requires |p| == WORD && IsBinary(p)
    ensures var a := Add(Build([Insertion(p, 0)]), p, 1); a.ok && Built(a.node) && Owner(a.node, p) == Some(0)
  {
    assert !AllX(p) by {
      assert p[0] != 'x';
    }
    hide Built, Owner, Add, Build;
    UnreportedConflict([Insertion(p, 0)], p, 1);
  }

  /** AddInstruction of a description: its bit strings in turn, up to the first one
      that is rejected. */
  function AddInstruction(n: Node, i: Insn, bitstrings: seq<string>): (r: Added)
    requires Built(n) && n.start == 0
    requires forall k :: 0 <= k < |bitstrings| ==> |bitstrings[k]| == WORD
    decreases bitstrings
  {
    if bitstrings == [] then Added(n, true)
    else
      var a := Add(n, bitstrings[0], i);
      AddBuilt(n, bitstrings[0], i);
      if !a.ok then Added(a.node, false) else AddInstruction(a.node, i, bitstrings[1..])
  }

  function Insertions(i: Insn, bitstrings: seq<string>): (r: seq<Insertion>)
    ensures |r| == |bitstrings|
    ensures forall k :: 0 <= k < |r| ==> r[k] == Insertion(bitstrings[k], i)
  {
    seq(|bitstrings|, k requires 0 <= k < |bitstrings| => Insertion(bitstrings[k], i))
  }

  /** The insertions made once these bit strings have been added for an instruction: up to
      and with the first one that is rejected. */
  function Made(ins: seq<Insertion>, i: Insn, bitstrings: seq<string>): (r: seq<Insertion>)
    decreases bitstrings
  {
    if bitstrings == [] then ins
    else
      var made := ins + [Insertion(bitstrings[0], i)];
      if Rejects(ins, bitstrings[0], i) then made else Made(made, i, bitstrings[1..])
  }

  predicate Accepted(ins: seq<Insertion>, i: Insn, bitstrings: seq<string>)
    decreases bitstrings
  {
    bitstrings == [] ||
    (!Rejects(ins, bitstrings[0], i) && Accepted(ins + [Insertion(bitstrings[0], i)], i, bitstrings[1..]))
  }

  /** Adding a description makes just these insertions, and reports whether one was
      rejected. */
  lemma {:induction false} AddInstructionBuilds(ins: seq<Insertion>, i: Insn, bitstrings: seq<string>)
    requires Legal(ins) && Legal(Insertions(i, bitstrings))
    requires forall k :: 0 <= k < |bitstrings| ==> |bitstrings[k]| == WORD
    ensures Legal(Made(ins, i, bitstrings))
    ensures AddInstruction(Build(ins), i, bitstrings).node == Build(Made(ins, i, bitstrings))
    ensures AddInstruction(Build(ins), i, bitstrings).ok <==> Accepted(ins, i, bitstrings)
    decreases bitstrings
  {
    hide Built, Add, Owner, Build, IsPattern, Rejects;
    if bitstrings != [] {
      var x := Insertion(bitstrings[0], i);
      LegalSplit(ins, i, bitstrings);
      BuildSnoc(ins, x);
      RejectedInsertion(ins, x.pattern, i);
      if Add(Build(ins), x.pattern, i).ok {
        AddInstructionBuilds(ins + [x], i, bitstrings[1..]);
      }
    }
  }

  /** Where none is rejected, all are made. */
  lemma {:induction false} AcceptedMade(ins: seq<Insertion>, i: Insn, bitstrings: seq<string>)
    requires Accepted(ins, i, bitstrings)
    ensures Made(ins, i, bitstrings) == ins + Insertions(i, bitstrings)
    decreases bitstrings
  {
    if bitstrings == [] {
      assert ins + Insertions(i, bitstrings) == ins;
    } else {
      var x := Insertion(bitstrings[0], i);
      AcceptedMade(ins + [x], i, bitstrings[1..]);
      assert ins + [x] + Insertions(i, bitstrings[1..]) == ins + Insertions(i, bitstrings);
    }
  }

  lemma LegalSplit(ins: seq<Insertion>, i: Insn, bitstrings: seq<string>)
    requires Legal(ins) && Legal(Insertions(i, bitstrings)) && bitstrings != []
    ensures |bitstrings[0]| == WORD && IsPattern(bitstrings[0])
    ensures Legal(ins + [Insertion(bitstrings[0], i)]) && Legal(Insertions(i, bitstrings[1..]))
  {
    hide IsPattern;
    assert Insertions(i, bitstrings)[0] == Insertion(bitstrings[0], i);
    forall k | 0 <= k < |bitstrings[1..]| ensures |bitstrings[1..][k]| == WORD && IsPattern(bitstrings[1..][k]) {
      assert Insertions(i, bitstrings)[k + 1] == Insertion(bitstrings[1..][k], i);
    }
  }

  lemma BuildSnoc(ins: seq<Insertion>, x: Insertion)
    requires Legal(ins) && Legal(ins + [x])
    ensures |x.pattern| == WORD && Build(ins + [x]) == Add(Build(ins), x.pattern, x.insn).node
  {
    hide Built, Add;
    assert (ins + [x])[..|ins|] == ins;
    assert (ins + [x])[|ins|] == x;
  }
}
