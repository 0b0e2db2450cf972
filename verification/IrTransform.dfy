/** The run-at-a-time copy that follows a sort, and the transform that chooses
    between sorting, moving NOPs out of the way and doing nothing. */
module IrTransform {
  import opened IrNops
  import opened IrOrder
  import opened IrSorter

  /** An instruction: the block it belongs to, and everything else about it. */
  datatype Instruction = Instruction(block: nat, rest: int)

  datatype Algorithm = Gnome | Merge | Nops

  function Keys(ir: seq<Instruction>): (keys: seq<nat>)
    ensures |keys| == |ir|
  {
    seq(|ir|, i requires 0 <= i < |ir| => ir[i].block)
  }

  function Gather(ir: seq<Instruction>, s: seq<nat>): (r: seq<Instruction>)
    requires forall i :: 0 <= i < |s| ==> s[i] < |ir|
    ensures |r| == |s|
  {
    seq(|s|, i requires 0 <= i < |s| => ir[s[i]])
  }

  ghost predicate BlocksInRange(ir: seq<Instruction>) {
    forall i :: 0 <= i < |ir| ==> ir[i].block <= NOP_BLOCK
  }

  /** The first n instructions' share of block b, in order. */
  ghost function Block(ir: seq<Instruction>, n: nat, b: nat): (r: seq<Instruction>)
    requires n <= |ir|
  {
    if n == 0 then [] else Block(ir, n - 1, b) + if ir[n - 1].block == b then [ir[n - 1]] else []
  }

  ghost predicate Grouped(ir: seq<Instruction>) {
    forall i, j :: 0 <= i < j < |ir| ==> ir[i].block <= ir[j].block
  }

  /** out has the same instructions as ir, and each block other than the NOPs reads the same. */
  ghost predicate KeepsBlocks(ir: seq<Instruction>, out: seq<Instruction>) {
    && |out| == |ir| && multiset(out) == multiset(ir)
    && forall b: nat :: b != NOP_BLOCK ==> Block(out, |out|, b) == Block(ir, |ir|, b)
  }

  // ----- Gathering and blocks -----

  function Identity(n: nat): (s: seq<nat>)
    ensures |s| == n && forall i :: 0 <= i < n ==> s[i] == i
  {
    seq(n, i => i)
  }

  /** The entries of s in block b pick out the block of what s gathers. */
  lemma {:induction false} BlockGathered(ir: seq<Instruction>, s: seq<nat>, n: nat, b: nat)
    requires n <= |s| && InRange(Keys(ir), s)
    ensures Block(Gather(ir, s), n, b) == Gather(ir, Members(Keys(ir), s[..n], b))
  {
    if n > 0 {
      BlockGathered(ir, s, n - 1, b);
      var t := s[..n];
      assert t[..|t| - 1] == s[..n - 1];
      var m := Members(Keys(ir), s[..n - 1], b);
      assert Gather(ir, m + [s[n - 1]]) == Gather(ir, m) + [ir[s[n - 1]]];
      assert m + [] == m;
    }
  }

  lemma GatherIdentity(ir: seq<Instruction>)
    ensures Gather(ir, Identity(|ir|)) == ir
  {
  }

  lemma {:induction false} MembersAscend(keys: seq<nat>, s: seq<nat>, b: nat)
    requires Ascends(keys, s)
    ensures Sorted(keys, Members(keys, s, b))
    ensures forall x :: x in Members(keys, s, b) ==> x in s && keys[x] == b
    decreases |s|
  {
    if s != [] {
      var init, last := s[..|s| - 1], s[|s| - 1];
      MembersAscend(keys, init, b);
      assert s == init + [last];
      if keys[last] == b {
        forall x | x in Members(keys, init, b) ensures Less(keys, x, last) {
          var i :| 0 <= i < |init| && init[i] == x;
          assert s[i] == x && s[|s| - 1] == last;
        }
        SortedConcat(keys, Members(keys, init, b), [last]);
      }
    }
  }

  /** Rearranging without disturbing the order within a block keeps every block. */
  lemma MembersSame(keys: seq<nat>, s: seq<nat>, t: seq<nat>, b: nat)
    requires Ascends(keys, s) && Ascends(keys, t) && multiset(s) == multiset(t)
    ensures Members(keys, s, b) == Members(keys, t, b)
  {
    MembersAscend(keys, s, b);
    MembersAscend(keys, t, b);
    forall x: nat ensures multiset(Members(keys, s, b))[x] == multiset(Members(keys, t, b))[x] {
      MembersCount(keys, s, b, x);
      MembersCount(keys, t, b, x);
    }
    SortedUnique(keys, Members(keys, s, b), Members(keys, t, b));
  }

  lemma {:induction false} GatherMultiset(ir: seq<Instruction>, s: seq<nat>, t: seq<nat>)
    requires InRange(Keys(ir), s) && InRange(Keys(ir), t) && multiset(s) == multiset(t)
    ensures multiset(Gather(ir, s)) == multiset(Gather(ir, t))
    decreases |s|
  {
    hide Gather;
    MultisetMembers(s, t);
    if s == [] {
      assert s == t;
    } else {
      var k := Occurrence(s, t);
      GatherMultiset(ir, s[1..], t[..k] + t[k + 1..]);
      GatherParts(ir, s, t, k);
    }
  }

  lemma Occurrence(s: seq<nat>, t: seq<nat>) returns (k: nat)
    requires s != [] && multiset(s) == multiset(t)
    ensures k < |t| && t[k] == s[0] && multiset(s[1..]) == multiset(t[..k] + t[k + 1..])
  {
    MultisetMembers(s, t);
    assert s[0] in s;
    k :| 0 <= k < |t| && t[k] == s[0];
    DropOne(s, 0);
    DropOne(t, k);
    assert s[..0] + s[1..] == s[1..];
  }

  lemma DropOne(s: seq<nat>, k: nat)
    requires k < |s|
    ensures multiset(s[..k] + s[k + 1..]) == multiset(s) - multiset{s[k]}
  {
    assert s == s[..k] + [s[k]] + s[k + 1..];
  }

  lemma GatherParts(ir: seq<Instruction>, s: seq<nat>, t: seq<nat>, k: nat)
    requires InRange(Keys(ir), s) && InRange(Keys(ir), t) && s != [] && k < |t| && t[k] == s[0]
    ensures multiset(Gather(ir, s)) == multiset{ir[s[0]]} + multiset(Gather(ir, s[1..]))
    ensures multiset(Gather(ir, t)) == multiset{ir[s[0]]} + multiset(Gather(ir, t[..k] + t[k + 1..]))
  {
    assert Gather(ir, s) == [ir[s[0]]] + Gather(ir, s[1..]);
    assert Gather(ir, t) == Gather(ir, t[..k]) + [ir[s[0]]] + Gather(ir, t[k + 1..]);
    assert Gather(ir, t[..k] + t[k + 1..]) == Gather(ir, t[..k]) + Gather(ir, t[k + 1..]);
  }

  // ----- What each arrangement does to the blocks -----

  lemma StableBlock(ir: seq<Instruction>, t: seq<nat>, b: nat)
    requires t == StableSort(Keys(ir), Identity(|ir|)) && Ascends(Keys(ir), t)
    ensures |t| == |ir| && Block(Gather(ir, t), |t|, b) == Block(ir, |ir|, b)
  {
    hide StableSort, Members, Block, Gather;
    MultisetMembers(Identity(|ir|), t);
    MembersSame(Keys(ir), Identity(|ir|), t, b);
    SameBlock(ir, Identity(|ir|), t, b);
  }

  /** A stable arrangement keeps every block, the NOPs included. */
  lemma StableKeeps(ir: seq<Instruction>, t: seq<nat>)
    requires t == StableSort(Keys(ir), Identity(|ir|))
    ensures InRange(Keys(ir), t) && KeepsBlocks(ir, Gather(ir, t)) && Grouped(Gather(ir, t))
    ensures |t| == |ir| && forall b: nat :: Block(Gather(ir, t), |t|, b) == Block(ir, |ir|, b)
  {
    hide StableSort, Block, Sorted, Gather, Grouped;
    StableSortSorted(Keys(ir), Identity(|ir|));
    SortedAscends(Keys(ir), t);
    SortedGrouped(ir, t);
    GatherMultiset(ir, Identity(|ir|), t);
    GatherIdentity(ir);
    MultisetMembers(Identity(|ir|), t);
    forall b: nat ensures Block(Gather(ir, t), |t|, b) == Block(ir, |ir|, b) {
      StableBlock(ir, t, b);
    }
  }

  lemma SortedAscends(keys: seq<nat>, t: seq<nat>)
    requires Sorted(keys, t) && InRange(keys, t)
    ensures Ascends(keys, t)
  {
    assert forall i, j :: 0 <= i < j < |t| ==> Less(keys, t[i], t[j]);
  }

  lemma SortedGrouped(ir: seq<Instruction>, t: seq<nat>)
    requires Sorted(Keys(ir), t) && InRange(Keys(ir), t)
    ensures Grouped(Gather(ir, t))
  {
    var keys := Keys(ir);
    forall i, j | 0 <= i < j < |t| ensures Gather(ir, t)[i].block <= Gather(ir, t)[j].block {
      assert Less(keys, t[i], t[j]);
      assert keys[t[i]] == ir[t[i]].block && keys[t[j]] == ir[t[j]].block;
    }
  }

  lemma SameBlock(ir: seq<Instruction>, s: seq<nat>, t: seq<nat>, b: nat)
    requires s == Identity(|ir|) && |t| == |s| && InRange(Keys(ir), s) && InRange(Keys(ir), t)
    requires Members(Keys(ir), s, b) == Members(Keys(ir), t, b)
    ensures Block(Gather(ir, t), |t|, b) == Block(ir, |ir|, b)
  {
    hide *;
    BlockGathered(ir, s, |s|, b);
    BlockGathered(ir, t, |t|, b);
    assert s[..|s|] == s && t[..|t|] == t;
    GatherIdentity(ir);
  }

  /** The first n instructions without the NOPs, in order. */
  ghost function Program(ir: seq<Instruction>, n: nat): (r: seq<Instruction>)
    requires n <= |ir|
    ensures |r| <= n
  {
    if n == 0 then [] else Program(ir, n - 1) + if ir[n - 1].block == NOP_BLOCK then [] else [ir[n - 1]]
  }

  /** The program first, as it stood, and only NOPs after it. */
  ghost predicate NopsLast(ir: seq<Instruction>, out: seq<Instruction>) {
    var program := Program(ir, |ir|);
    && |program| <= |out| == |ir| && out[..|program|] == program
    && forall i :: |program| <= i < |out| ==> out[i].block == NOP_BLOCK
  }

  lemma {:induction false} ProgramGathered(ir: seq<Instruction>, s: seq<nat>, n: nat)
    requires n <= |s| && InRange(Keys(ir), s)
    ensures InRange(Keys(ir), Real(Keys(ir), s, n))
    ensures Program(Gather(ir, s), n) == Gather(ir, Real(Keys(ir), s, n))
  {
    if n > 0 {
      ProgramGathered(ir, s, n - 1);
      var r := Real(Keys(ir), s, n - 1);
      assert Gather(ir, r + [s[n - 1]]) == Gather(ir, r) + [ir[s[n - 1]]];
      assert r + [] == r;
    }
  }

  lemma {:induction false} BlockPrefix(ir: seq<Instruction>, x: Instruction, n: nat, b: nat)
    requires n <= |ir|
    ensures Block(ir + [x], n, b) == Block(ir, n, b)
  {
    if n > 0 {
      BlockPrefix(ir, x, n - 1, b);
    }
  }

  /** Every block but the NOPs' can be read off the program. */
  lemma {:induction false} BlockOfProgram(ir: seq<Instruction>, n: nat, b: nat)
    requires n <= |ir| && b != NOP_BLOCK
    ensures Block(ir, n, b) == Block(Program(ir, n), |Program(ir, n)|, b)
  {
    if n > 0 {
      BlockOfProgram(ir, n - 1, b);
      var p := Program(ir, n - 1);
      BlockPrefix(p, ir[n - 1], |p|, b);
      assert p + [] == p;
    }
  }

  lemma CompactedNopsLast(ir: seq<Instruction>, t: seq<nat>)
    requires Compacted(Keys(ir), Identity(|ir|), t) && InRange(Keys(ir), t) && |t| == |ir|
    ensures NopsLast(ir, Gather(ir, t))
  {
    var keys, s := Keys(ir), Identity(|ir|);
    ProgramGathered(ir, s, |s|);
    GatherIdentity(ir);
    var kept := Real(keys, s, |s|);
    hide Real, Program;
    assert Gather(ir, t)[..|kept|] == Gather(ir, kept) by {
      assert forall i :: 0 <= i < |kept| ==> t[i] == t[..|kept|][i];
    }
    forall i | |kept| <= i < |t| ensures Gather(ir, t)[i].block == NOP_BLOCK {
      assert IsNop(keys, t, i);
    }
  }

  lemma {:induction false} ProgramSplit(out: seq<Instruction>, k: nat, n: nat)
    requires k <= n <= |out|
    requires forall i :: 0 <= i < k ==> out[i].block != NOP_BLOCK
    requires forall i :: k <= i < n ==> out[i].block == NOP_BLOCK
    ensures Program(out, n) == out[..k]
    decreases n
  {
    if k < n {
      ProgramSplit(out, k, n - 1);
    } else if n > 0 {
      ProgramSplit(out, n - 1, n - 1);
    }
  }

  lemma {:induction false} ProgramReal(ir: seq<Instruction>, n: nat)
    requires n <= |ir|
    ensures forall x :: x in Program(ir, n) ==> x.block != NOP_BLOCK
  {
    if n > 0 {
      ProgramReal(ir, n - 1);
    }
  }

  /** Moving the NOPs out of the way keeps every other block. */
  lemma NopsLastBlocks(ir: seq<Instruction>, out: seq<Instruction>, b: nat)
    requires NopsLast(ir, out) && b != NOP_BLOCK
    ensures Block(out, |out|, b) == Block(ir, |ir|, b)
  {
    var p := Program(ir, |ir|);
    ProgramReal(ir, |ir|);
    forall i | 0 <= i < |p| ensures out[i].block != NOP_BLOCK {
      assert out[i] == out[..|p|][i];
      assert p[i] in p;
    }
    ProgramSplit(out, |p|, |out|);
    BlockOfProgram(ir, |ir|, b);
    BlockOfProgram(out, |out|, b);
  }

  lemma CompactedKeeps(ir: seq<Instruction>, t: seq<nat>)
    requires Compacted(Keys(ir), Identity(|ir|), t) && multiset(t) == multiset(Identity(|ir|))
    requires InRange(Keys(ir), t)
    ensures KeepsBlocks(ir, Gather(ir, t)) && NopsLast(ir, Gather(ir, t))
  {
    MultisetMembers(t, Identity(|ir|));
    CompactedNopsLast(ir, t);
    hide NopsLast, Block;
    forall b: nat | b != NOP_BLOCK ensures Block(Gather(ir, t), |t|, b) == Block(ir, |ir|, b) {
      NopsLastBlocks(ir, Gather(ir, t), b);
    }
    GatherMultiset(ir, t, Identity(|ir|));
    GatherIdentity(ir);
  }

  // ----- IRSorter::perform_sort -----

  /** The longest run of consecutive positions that starts at start. */
  method FindRunSize(idxs: array<nat>, start: nat) returns (size: nat)
    requires start < idxs.Length
    ensures 0 < size && start + size <= idxs.Length
    ensures forall k :: start <= k < start + size ==> idxs[k] == idxs[start] + (k - start)
    ensures start + size < idxs.Length ==> idxs[start + size] != idxs[start] + size
  {
    size := 0;
    while start + size < idxs.Length && idxs[start + size] == idxs[start] + size
      invariant start + size <= idxs.Length
      invariant forall k :: start <= k < start + size ==> idxs[k] == idxs[start] + (k - start)
    {
      size := size + 1;
    }
  }

  /** memcpy of one run. */
  method CopyRun(ir: seq<Instruction>, from: nat, out: array<Instruction>, at: nat, size: nat)
    requires from + size <= |ir| && at + size <= out.Length
    modifies out
    ensures forall k :: at <= k < at + size ==> out[k] == ir[from + (k - at)]
    ensures out[..at] == old(out[..at]) && out[at + size..] == old(out[at + size..])
  {
    forall k | at <= k < at + size {
      out[k] := ir[from + (k - at)];
    }
  }

  /** Copying in runs gathers one by one. */
  method CopyRuns(ir: seq<Instruction>, idxs: array<nat>) returns (out: array<Instruction>)
    requires InRange(Keys(ir), idxs[..])
    ensures fresh(out) && out[..] == Gather(ir, idxs[..])
  {
    out := new Instruction[idxs.Length];
    var start := 0;
    while start < idxs.Length
      invariant 0 <= start <= idxs.Length && fresh(out)
      invariant out[..start] == Gather(ir, idxs[..])[..start]
    {
      var size := FindRunSize(idxs, start);
      assert idxs[..][start + size - 1] == idxs[start] + (size - 1);
      ghost var done := out[..start];
      CopyRun(ir, idxs[start], out, start, size);
      assert out[..start] == done;
      forall k | 0 <= k < start + size ensures out[k] == Gather(ir, idxs[..])[k] {
        if k < start {
          assert out[k] == out[..start][k];
        }
      }
      start := start + size;
    }
    assert out[..start] == out[..];
  }

  method PerformSort(ir: seq<Instruction>, algorithm: Algorithm) returns (out: array<Instruction>)
    requires BlocksInRange(ir)
    ensures fresh(out) && KeepsBlocks(ir, out[..])
    ensures algorithm != Nops ==> Grouped(out[..])
    ensures algorithm != Nops ==> out[..] == Gather(ir, StableSort(Keys(ir), Identity(|ir|)))
    ensures algorithm == Nops ==> NopsLast(ir, out[..])
    ensures algorithm == Nops ==> InRange(Keys(ir), Filtered(Keys(ir), Identity(|ir|)))
                                  && out[..] == Gather(ir, Filtered(Keys(ir), Identity(|ir|)))
  {
    var keys := Keys(ir);
    var sorter := new Sorter(keys);
    assert sorter.idxs[..] == Identity(|ir|);
    match algorithm {
      case Gnome =>
        sorter.GnomeSort();
        StableKeeps(ir, sorter.idxs[..]);
      case Merge =>
        sorter.MergeSort();
        StableKeeps(ir, sorter.idxs[..]);
      case Nops =>
        sorter.NopFilter();
        FilteredCompacted(keys, Identity(|ir|));
        CompactedKeeps(ir, sorter.idxs[..]);
    }
    out := CopyRuns(ir, sorter.idxs);
  }

  // ----- SortIRTransform::Apply -----

  /** What the scan finds out about the first n instructions. */
  ghost predicate RealGrouped(ir: seq<Instruction>, n: nat)
    requires n <= |ir|
  {
    forall i, j :: 0 <= i < j < n && ir[i].block != NOP_BLOCK && ir[j].block != NOP_BLOCK
      ==> ir[i].block <= ir[j].block
  }

  ghost predicate AllNops(ir: seq<Instruction>, n: nat)
    requires n <= |ir|
  {
    forall i :: 0 <= i < n ==> ir[i].block == NOP_BLOCK
  }

  /** What the scan takes for sorted. */
  ghost predicate TakenForSorted(ir: seq<Instruction>, n: nat)
    requires ir != [] && n <= |ir|
  {
    RealGrouped(ir, n) && (ir[0].block != NOP_BLOCK || AllNops(ir, n))
  }

  /** prev is the block of the last instruction that is no NOP, or of the first if there is none. */
  ghost predicate Previous(ir: seq<Instruction>, n: nat, prev: nat)
    requires ir != [] && n <= |ir|
  {
    (prev == ir[0].block && AllNops(ir, n))
    || exists k :: 0 <= k < n && prev == ir[k].block != NOP_BLOCK && forall l :: k < l < n ==> ir[l].block == NOP_BLOCK
  }

  ghost predicate SomeNop(ir: seq<Instruction>, n: nat)
    requires n <= |ir|
  {
    exists k :: 0 <= k < n && ir[k].block == NOP_BLOCK
  }

  ghost predicate NopsAtEnd(ir: seq<Instruction>, n: nat)
    requires n <= |ir|
  {
    forall i, j :: 0 <= i < j < n && ir[i].block == NOP_BLOCK ==> ir[j].block == NOP_BLOCK
  }

  lemma NopsStep(ir: seq<Instruction>, n: nat)
    requires n < |ir|
    ensures SomeNop(ir, n + 1) <==> SomeNop(ir, n) || ir[n].block == NOP_BLOCK
    ensures NopsAtEnd(ir, n + 1) <==> NopsAtEnd(ir, n) && (ir[n].block == NOP_BLOCK || !SomeNop(ir, n))
  {
  }

  lemma ScanStep(ir: seq<Instruction>, n: nat, prev: nat)
    requires n < |ir| && BlocksInRange(ir) && Previous(ir, n, prev)
    ensures var b := ir[n].block;
      && Previous(ir, n + 1, if b == NOP_BLOCK then prev else b)
      && (TakenForSorted(ir, n + 1) <==> TakenForSorted(ir, n) && (b == NOP_BLOCK || b >= prev))
  {
    var b := ir[n].block;
    if TakenForSorted(ir, n) && b != NOP_BLOCK && b >= prev {
      forall i | 0 <= i < n && ir[i].block != NOP_BLOCK ensures ir[i].block <= b {
        assert ir[i].block <= prev;
      }
    }
  }

  /** The scan calls ordered IR unordered just when it starts with a NOP and goes on with
      something else. */
  method Scan(ir: seq<Instruction>) returns (sorted: bool, nopsSorted: bool)
    requires ir != [] && BlocksInRange(ir)
    ensures sorted <==> RealGrouped(ir, |ir|) && (ir[0].block != NOP_BLOCK || AllNops(ir, |ir|))
    ensures nopsSorted <==> NopsAtEnd(ir, |ir|)
  {
    sorted, nopsSorted := true, true;
    var foundNops := false;
    var prev := ir[0].block;
    var i := 0;
    while i < |ir|
      invariant 0 <= i <= |ir|
      invariant (foundNops <==> SomeNop(ir, i)) && (nopsSorted <==> NopsAtEnd(ir, i))
      invariant Previous(ir, i, prev) && (sorted <==> TakenForSorted(ir, i))
    {
      ScanStep(ir, i, prev);
      NopsStep(ir, i);
      hide Previous, TakenForSorted, BlocksInRange, SomeNop, NopsAtEnd;
      var block := ir[i].block;
      if block == NOP_BLOCK {
        foundNops := true;
      } else {
        if foundNops {
          nopsSorted := false;
        }
        if block < prev {
          sorted := false;
        }
        prev := block;
      }
      i := i + 1;
    }
  }

  /** Whatever path is taken, the blocks come out in order, each one as it was. */
  method Apply(ir: seq<Instruction>) returns (out: seq<Instruction>)
    requires ir != [] && BlocksInRange(ir)
    ensures KeepsBlocks(ir, out) && Grouped(out)
  {
    var sorted, nopsSorted := Scan(ir);
    if !sorted {
      var buffer := PerformSort(ir, Merge);
      out := buffer[..];
    } else if !nopsSorted {
      var buffer := PerformSort(ir, Nops);
      out := buffer[..];
      NopsLastGrouped(ir, out);
    } else {
      out := ir;
    }
  }

  lemma {:induction false} ProgramGrouped(ir: seq<Instruction>, n: nat)
    requires n <= |ir| && RealGrouped(ir, n)
    ensures Grouped(Program(ir, n))
    ensures forall x :: x in Program(ir, n) ==> x in ir[..n] && x.block != NOP_BLOCK
  {
    if n > 0 {
      ProgramGrouped(ir, n - 1);
      var p := Program(ir, n - 1);
      assert forall x :: x in ir[..n - 1] ==> x in ir[..n];
      assert ir[n - 1] == ir[..n][n - 1];
      forall i | 0 <= i < |p| && ir[n - 1].block != NOP_BLOCK ensures p[i].block <= ir[n - 1].block {
        assert p[i] in p;
        var k :| 0 <= k < n - 1 && ir[k] == p[i];
      }
    }
  }

  lemma NopsLastGrouped(ir: seq<Instruction>, out: seq<Instruction>)
    requires NopsLast(ir, out) && RealGrouped(ir, |ir|) && BlocksInRange(ir)
    ensures Grouped(out)
  {
    ProgramGrouped(ir, |ir|);
    var p := Program(ir, |ir|);
    forall i, j | 0 <= i < j < |out| ensures out[i].block <= out[j].block {
      if i < |p| {
        assert out[i] == out[..|p|][i] == p[i];
        assert p[i] in p;
        assert p[i] in ir[..|ir|];
      }
      if j < |p| {
        assert out[j] == out[..|p|][j] == p[j];
      }
    }
  }

  // ----- The paths agree -----

  lemma {:induction false} BlockWitness(ir: seq<Instruction>, n: nat, b: nat) returns (k: nat)
    requires n <= |ir| && Block(ir, n, b) != []
    ensures k < n && ir[k].block == b
  {
    if ir[n - 1].block == b {
      k := n - 1;
    } else {
      k := BlockWitness(ir, n - 1, b);
    }
  }

  lemma BlockSnoc(ir: seq<Instruction>, b: nat)
    requires ir != []
    ensures var init, last := ir[..|ir| - 1], ir[|ir| - 1];
      Block(ir, |ir|, b) == Block(init, |init|, b) + if last.block == b then [last] else []
  {
    var init, last := ir[..|ir| - 1], ir[|ir| - 1];
    assert ir == init + [last];
    BlockPrefix(init, last, |init|, b);
  }

  /** In grouped IR, no block comes after the last one's. */
  lemma LastBlock(q: seq<Instruction>, x: nat)
    requires Grouped(q) && Block(q, |q|, x) != []
    ensures q != [] && x <= q[|q| - 1].block
  {
    var k := BlockWitness(q, |q|, x);
    assert k == |q| - 1 || q[k].block <= q[|q| - 1].block;
  }

  lemma LastBlockThere(p: seq<Instruction>)
    requires p != []
    ensures Block(p, |p|, p[|p| - 1].block) != []
  {
  }

  lemma SnocEqual(a: seq<Instruction>, x: Instruction, b: seq<Instruction>, y: Instruction)
    requires a + [x] == b + [y]
    ensures a == b && x == y
  {
    assert a == (a + [x])[..|a + [x]| - 1] && b == (b + [y])[..|b + [y]| - 1];
    assert x == (a + [x])[|a + [x]| - 1] && y == (b + [y])[|b + [y]| - 1];
  }

  /** Grouped IR is determined by its blocks. */
  lemma {:induction false} GroupedUnique(p: seq<Instruction>, q: seq<Instruction>)
    requires Grouped(p) && Grouped(q) && forall b: nat :: Block(p, |p|, b) == Block(q, |q|, b)
    ensures p == q
    decreases |p|
  {
    if p == [] {
      if q != [] {
        LastBlockThere(q);
      }
    } else {
      hide Block, Grouped;
      GroupedLast(p, q);
      var p', q', l, m := p[..|p| - 1], q[..|q| - 1], p[|p| - 1], q[|q| - 1];
      forall b: nat ensures Block(p', |p'|, b) == Block(q', |q'|, b) {
        BlockInit(p, q, b);
      }
      GroupedInit(p);
      GroupedInit(q);
      GroupedUnique(p', q');
      assert p == p' + [l] && q == q' + [m];
    }
  }

  lemma GroupedLast(p: seq<Instruction>, q: seq<Instruction>)
    requires Grouped(p) && Grouped(q) && p != [] && forall b: nat :: Block(p, |p|, b) == Block(q, |q|, b)
    ensures q != [] && p[|p| - 1] == q[|q| - 1]
  {
    hide Block, Grouped;
    LastBlockThere(p);
    LastBlock(q, p[|p| - 1].block);
    LastBlockThere(q);
    LastBlock(p, q[|q| - 1].block);
    var p', q', b := p[..|p| - 1], q[..|q| - 1], p[|p| - 1].block;
    BlockSnoc(p, b);
    BlockSnoc(q, b);
    SnocEqual(Block(p', |p'|, b), p[|p| - 1], Block(q', |q'|, b), q[|q| - 1]);
  }

  lemma BlockInit(p: seq<Instruction>, q: seq<Instruction>, b: nat)
    requires p != [] && q != [] && p[|p| - 1] == q[|q| - 1] && Block(p, |p|, b) == Block(q, |q|, b)
    ensures Block(p[..|p| - 1], |p| - 1, b) == Block(q[..|q| - 1], |q| - 1, b)
  {
    hide Block;
    var l, s, t := p[|p| - 1], Block(p[..|p| - 1], |p| - 1, b), Block(q[..|q| - 1], |q| - 1, b);
    BlockSnoc(p, b);
    BlockSnoc(q, b);
    if l.block == b {
      SnocEqual(s, l, t, l);
    } else {
      assert s + [] == s && t + [] == t;
    }
  }

  lemma GroupedInit(p: seq<Instruction>)
    requires Grouped(p) && p != []
    ensures Grouped(p[..|p| - 1])
  {
  }

  lemma {:induction false} NoNopBlock(ir: seq<Instruction>, n: nat)
    requires n <= |ir| && forall i :: 0 <= i < n ==> ir[i].block != NOP_BLOCK
    ensures Block(ir, n, NOP_BLOCK) == []
  {
    if n > 0 {
      NoNopBlock(ir, n - 1);
    }
  }

  lemma GroupedProgram(ir: seq<Instruction>)
    requires Grouped(ir)
    ensures Grouped(Program(ir, |ir|)) && Block(Program(ir, |ir|), |Program(ir, |ir|)|, NOP_BLOCK) == []
  {
    ProgramGrouped(ir, |ir|);
    var p := Program(ir, |ir|);
    assert forall i :: 0 <= i < |p| ==> p[i] in p;
    NoNopBlock(p, |p|);
  }

  /** Whatever sorted output keeps the blocks, the program it holds is the same. */
  lemma SameProgram(ir: seq<Instruction>, a: seq<Instruction>, b: seq<Instruction>)
    requires KeepsBlocks(ir, a) && Grouped(a) && KeepsBlocks(ir, b) && Grouped(b)
    ensures Program(a, |a|) == Program(b, |b|)
  {
    var p, q := Program(a, |a|), Program(b, |b|);
    GroupedProgram(a);
    GroupedProgram(b);
    forall x: nat ensures Block(p, |p|, x) == Block(q, |q|, x) {
      if x != NOP_BLOCK {
        BlockOfProgram(a, |a|, x);
        BlockOfProgram(b, |b|, x);
      }
    }
    GroupedUnique(p, q);
  }
}
