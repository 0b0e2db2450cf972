/** Backtracking search finds an instruction exactly when some path of the tree
    matches the word. */
module DecodeSearch {
  import opened BinaryText
  import opened Common
  import opened DecodeTree

  lemma ChunkIsSlice(w: nat, start: nat, length: nat)
    requires start + length <= WORD
    ensures Bits(w, WORD)[start..start + length] == Bits(Chunk(w, start, length), length)
  {
    hide Bits, Pow2;
    var hi := w / Pow2(WORD - start - length);
    BitsSplit(w, WORD, start + length);
    BitsSplit(hi, start + length, start);
  }

  lemma ChunkRange(w: nat, start: nat, length: nat)
    requires start + length <= WORD
    ensures Chunk(w, start, length) < Pow2(length)
  {
    hide Pow2;
  }

  /** Comparing the chunk with an edge's value is comparing the word's bits with the
      edge's label. */
  lemma ChunkMatches(w: nat, start: nat, length: nat, value: nat)
    requires start + length <= WORD && value < Pow2(length)
    ensures Chunk(w, start, length) == value <==> Bits(w, WORD)[start..start + length] == Bits(value, length)
  {
    hide Chunk, Bits, Value, Pow2;
    ChunkIsSlice(w, start, length);
    ChunkRange(w, start, length);
    ValueOfBits(value, length);
    ValueOfBits(Chunk(w, start, length), length);
  }

  lemma MatchesSplit(p: string, w: nat, start: nat, k: nat)
    requires start + |p| == WORD && k <= |p|
    ensures Matches(p, w, start) <==>
      Matches(p[k..], w, start + k)
      && forall j :: 0 <= j < k ==> p[j] == 'x' || p[j] == Bits(w, WORD)[start + j]
  {
    hide Bits;
    if Matches(p, w, start) {
      forall j | 0 <= j < |p[k..]| ensures p[k..][j] == 'x' || p[k..][j] == Bits(w, WORD)[start + k + j] {
        assert p[k + j] == p[k..][j];
      }
    }
    if Matches(p[k..], w, start + k) {
      forall j | k <= j < |p| ensures p[j] == 'x' || p[j] == Bits(w, WORD)[start + j] {
        assert p[j] == p[k..][j - k];
      }
    }
  }

  /** A label made of bits matches exactly when it is the word's slice. */
  lemma LabelMatches(p: string, w: nat, start: nat, length: nat, value: nat)
    requires start + |p| == WORD && length <= |p| && value < Pow2(length)
    requires p[..length] == Bits(value, length)
    ensures Matches(p, w, start) <==> Chunk(w, start, length) == value && Matches(p[length..], w, start + length)
  {
    MatchesSplit(p, w, start, length);
    ChunkMatches(w, start, length, value);
    BitsAreBinary(value, length);
    var b, l := Bits(w, WORD), Bits(value, length);
    assert forall j :: 0 <= j < length ==> p[j] == l[j];
    if forall j :: 0 <= j < length ==> p[j] == b[start + j] {
      assert b[start..start + length] == l;
    }
    if b[start..start + length] == l {
      assert forall j :: 0 <= j < length ==> b[start + j] == l[j];
    }
  }

  lemma WildMatches(p: string, w: nat, start: nat, length: nat)
    requires start + |p| == WORD && length <= |p| && AllX(p[..length])
    ensures Matches(p, w, start) <==> Matches(p[length..], w, start + length)
  {
    MatchesSplit(p, w, start, length);
    assert forall j :: 0 <= j < length ==> p[..length][j] == p[j];
  }

  /** Whatever search returns, one of its paths matches the word. */
  lemma {:induction false} DecodeSound(n: Node, w: nat) returns (p: string)
    requires Shaped(n) && Decode(n, w).Some?
    ensures HasPath(n, p, Decode(n, w).value)
    ensures n.start + |p| == WORD && Matches(p, w, n.start)
    decreases n, |n.edges| + 1
  {
    if n.target.Some? {
      p := [];
    } else {
      p := DecodeFromSound(n, 0, w);
    }
  }

  lemma {:induction false} DecodeFromSound(n: Node, k: nat, w: nat) returns (p: string)
    requires Shaped(n) && n.target.None? && k <= |n.edges| && DecodeFrom(n, k, w).Some?
    ensures HasPath(n, p, DecodeFrom(n, k, w).value)
    ensures n.start + |p| == WORD && Matches(p, w, n.start)
    decreases n, |n.edges| - k
  {
    if k == |n.edges| {
      var e := n.wild.value;
      var q := DecodeSound(e.node, w);
      p := seq(e.length, _ => 'x') + q;
      assert p[e.length..] == q;
      WildMatches(p, w, n.start, e.length);
      assert ThroughWild(e, p, DecodeFrom(n, k, w).value);
    } else {
      var e := n.edges[k];
      if Chunk(w, n.start, e.length) == e.value && Decode(e.node, w).Some? {
        var q := DecodeSound(e.node, w);
        p := Bits(e.value, e.length) + q;
        assert p[e.length..] == q && p[..e.length] == Bits(e.value, e.length);
        LabelMatches(p, w, n.start, e.length, e.value);
        assert Through(e, p, DecodeFrom(n, k, w).value);
      } else {
        p := DecodeFromSound(n, k + 1, w);
      }
    }
  }

  /** If some path matches the word, search finds an instruction. */
  lemma {:induction false} DecodeComplete(n: Node, w: nat, p: string, i: Insn)
    requires Shaped(n) && HasPath(n, p, i)
    requires n.start + |p| == WORD && Matches(p, w, n.start)
    ensures Decode(n, w).Some?
    decreases n, |n.edges| + 1
  {
    if n.target.None? {
      assert n.edges[0..] == n.edges;
      DecodeFromComplete(n, 0, w, p, i);
    }
  }

  lemma {:induction false} DecodeFromComplete(n: Node, k: nat, w: nat, p: string, i: Insn)
    requires Shaped(n) && n.target.None? && k <= |n.edges|
    requires n.start + |p| == WORD && Matches(p, w, n.start)
    requires (exists e :: e in n.edges[k..] && Through(e, p, i)) || (n.wild.Some? && ThroughWild(n.wild.value, p, i))
    ensures DecodeFrom(n, k, w).Some?
    decreases n, |n.edges| - k
  {
    if k == |n.edges| {
      var e := n.wild.value;
      WildMatches(p, w, n.start, e.length);
      DecodeComplete(e.node, w, p[e.length..], i);
    } else {
      var e := n.edges[k];
      if Through(e, p, i) {
        LabelMatches(p, w, n.start, e.length, e.value);
        DecodeComplete(e.node, w, p[e.length..], i);
      } else {
        DecodeFromComplete(n, k + 1, w, p, i);
      }
    }
  }
}
