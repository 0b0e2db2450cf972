/** Both reference decoders invert the encoding of every well-formed block. */
module Lz4RoundTrip {
  import opened Common
  import opened Lz4Format

  /** The bytes `e` occur in `src` at position `i`. */
  ghost predicate At(src: seq<byte>, i: nat, e: seq<byte>) {
    i + |e| <= |src| && forall k :: 0 <= k < |e| ==> src[i + k] == e[k]
  }

  lemma AtSplit(src: seq<byte>, i: nat, a: seq<byte>, b: seq<byte>)
    requires At(src, i, a + b)
    ensures At(src, i, a) && At(src, i + |a|, b)
  {
    forall k | 0 <= k < |a| ensures src[i + k] == a[k] {
      assert (a + b)[k] == a[k];
    }
    forall k | 0 <= k < |b| ensures src[i + |a| + k] == b[k] {
      assert (a + b)[|a| + k] == b[k];
    }
  }

  lemma PrefixAt(src: seq<byte>, e: seq<byte>)
    requires e <= src
    ensures At(src, 0, e)
  {
  }

  lemma AtSlice(src: seq<byte>, i: nat, e: seq<byte>)
    requires At(src, i, e)
    ensures PeekSlice(src, i, |e|) == src[i..i + |e|] == e
  {
  }

  lemma {:induction false} ExtensionRead(src: seq<byte>, i: nat, n: nat)
    requires At(src, i, Extension(n))
    ensures ReadExtension(src, i) == (n, i + |Extension(n)|)
    ensures ReadBoundedExtension(src, i) == (n, i + |Extension(n)|)
    decreases n
  {
    if n < 255 {
      assert src[i + 0] == Extension(n)[0];
    } else {
      AtSplit(src, i, [255], Extension(n - 255));
      assert src[i + 0] == Extension(n)[0];
      ExtensionRead(src, i + 1, n - 255);
    }
  }

  lemma LengthRead(src: seq<byte>, i: nat, n: nat)
    requires At(src, i, LengthBytes(n))
    ensures ReadLength(src, Nibble(n), i) == (n, i + |LengthBytes(n)|)
    ensures ReadBoundedLength(src, Nibble(n), i) == (n, i + |LengthBytes(n)|)
  {
    if n >= 15 {
      ExtensionRead(src, i, n - 15);
    }
  }

  /** Reading a literal run back: token, run length and literals. */
  lemma LiteralRunRead(src: seq<byte>, ip: nat, literals: seq<byte>, m: nat)
    requires m <= 15
    requires At(src, ip, LiteralRun(literals, m))
    ensures ip < |src| && src[ip] / 16 == Nibble(|literals|) && src[ip] % 16 == m
    ensures var p := ip + 1 + |LengthBytes(|literals|)|;
      && ReadLength(src, src[ip] / 16, ip + 1) == (|literals|, p)
      && ReadBoundedLength(src, src[ip] / 16, ip + 1) == (|literals|, p)
      && At(src, p, literals)
  {
    hide LengthBytes, ReadLength, ReadBoundedLength, Nibble;
    var token: byte := 16 * Nibble(|literals|) + m;
    var ext := LengthBytes(|literals|);
    AtSplit(src, ip, [token] + ext, literals);
    AtSplit(src, ip, [token], ext);
    assert src[ip + 0] == [token][0];
    LengthRead(src, ip + 1, |literals|);
  }

  lemma OffsetRead(src: seq<byte>, i: nat, offset: nat)
    requires offset <= MAX_DISTANCE
    requires At(src, i, OffsetBytes(offset))
    ensures i + 1 < |src| && U16(src[i], src[i + 1]) == offset
  {
    assert src[i + 0] == OffsetBytes(offset)[0];
    assert src[i + 1] == OffsetBytes(offset)[1];
  }

  ghost function AfterSequence(out: seq<byte>, q: Sequence): (r: seq<byte>)
    requires q.offset <= |out| + |q.literals|
    ensures |r| == |out| + |q.literals| + q.matchLength
  {
    CopyMatch(out + q.literals, q.offset, q.matchLength)
  }

  /** Both decoders' reads at `ip` find this sequence, with its literals at `p`
      and the next token at `end`. */
  ghost predicate ReadsAs(src: seq<byte>, ip: nat, q: Sequence, p: nat, end: nat) {
    var n, m := |q.literals|, q.matchLength - MINMATCH;
    && ip < p && p + n + 2 <= end <= |src|
    && ReadLength(src, src[ip] / 16, ip + 1) == (n, p)
    && ReadBoundedLength(src, src[ip] / 16, ip + 1) == (n, p)
    && At(src, p, q.literals)
    && U16(src[p + n], src[p + n + 1]) == q.offset
    && ReadLength(src, src[ip] % 16, p + n + 2) == (m, end)
    && ReadBoundedLength(src, src[ip] % 16, p + n + 2) == (m, end)
  }

  lemma SequenceRead(src: seq<byte>, ip: nat, q: Sequence)
    requires At(src, ip, EncodeSequence(q))
    ensures ReadsAs(src, ip, q, ip + 1 + |LengthBytes(|q.literals|)|, ip + |EncodeSequence(q)|)
  {
    hide LiteralRun, LengthBytes, ReadLength, ReadBoundedLength, Nibble, OffsetBytes;
    var m := q.matchLength - MINMATCH;
    var run := LiteralRun(q.literals, Nibble(m));
    AtSplit(src, ip, run + OffsetBytes(q.offset), LengthBytes(m));
    AtSplit(src, ip, run, OffsetBytes(q.offset));
    LiteralRunRead(src, ip, q.literals, Nibble(m));
    OffsetRead(src, ip + |run|, q.offset);
    LengthRead(src, ip + |run| + 2, m);
  }

  /** One non-final sequence is one turn of the known-size decoder. */
  lemma KnownStepReads(src: seq<byte>, ip: nat, out: seq<byte>, q: Sequence, p: nat, end: nat, osize: nat)
    requires ReadsAs(src, ip, q, p, end)
    requires q.offset <= |out| + |q.literals| <= osize - MFLIMIT
    requires |out| + |q.literals| + q.matchLength < osize < INT_LIMIT
    ensures KnownStep(src, ip, out, true, osize) == Next(end, AfterSequence(out, q), true)
  {
    hide CopyMatch, ReadLength, ReadBoundedLength, PeekSlice, At;
    var n := |q.literals|;
    AtSlice(src, p, q.literals);
    assert Peek(src, ip) == src[ip];
    assert Peek(src, p + n) == src[p + n] && Peek(src, p + n + 1) == src[p + n + 1];
    assert |out + PeekSlice(src, p, n)| == |out| + n;
  }

  /** One non-final sequence is one turn of the bounded decoder, provided enough
      input follows it. */
  lemma BoundedStepReads(src: seq<byte>, ip: nat, out: seq<byte>, q: Sequence, p: nat, end: nat, capacity: nat)
    requires ReadsAs(src, ip, q, p, end)
    requires q.offset <= |out| + |q.literals| <= capacity - MFLIMIT
    requires |out| + |q.literals| + q.matchLength < capacity < INT_LIMIT
    requires end + 1 + LASTLITERALS <= |src|
    ensures BoundedStep(src, ip, out, true, capacity) == Next(end, AfterSequence(out, q), true)
  {
    hide CopyMatch, ReadLength, ReadBoundedLength, At;
    AtSlice(src, p, q.literals);
    assert |out + q.literals| == |out| + |q.literals|;
    assert p + |q.literals| <= |src| - COPYLENGTH;
  }

  lemma KnownSequence(src: seq<byte>, ip: nat, out: seq<byte>, q: Sequence, osize: nat)
    requires At(src, ip, EncodeSequence(q))
    requires q.offset <= |out| + |q.literals| <= osize - MFLIMIT
    requires |out| + |q.literals| + q.matchLength < osize < INT_LIMIT
    ensures DecodeKnown(src, ip, out, true, osize)
         == DecodeKnown(src, ip + |EncodeSequence(q)|, AfterSequence(out, q), true, osize)
  {
    hide KnownStep, EncodeSequence, AfterSequence, At;
    var p, end := ip + 1 + |LengthBytes(|q.literals|)|, ip + |EncodeSequence(q)|;
    assert KnownStep(src, ip, out, true, osize) == Next(end, AfterSequence(out, q), true) by {
      SequenceRead(src, ip, q);
      KnownStepReads(src, ip, out, q, p, end, osize);
    }
  }

  lemma BoundedSequence(src: seq<byte>, ip: nat, out: seq<byte>, q: Sequence, capacity: nat)
    requires At(src, ip, EncodeSequence(q))
    requires q.offset <= |out| + |q.literals| <= capacity - MFLIMIT
    requires |out| + |q.literals| + q.matchLength < capacity < INT_LIMIT
    requires ip + |EncodeSequence(q)| + 1 + LASTLITERALS <= |src|
    ensures DecodeBounded(src, ip, out, true, capacity)
         == DecodeBounded(src, ip + |EncodeSequence(q)|, AfterSequence(out, q), true, capacity)
  {
    hide BoundedStep, EncodeSequence, AfterSequence, At;
    var p, end := ip + 1 + |LengthBytes(|q.literals|)|, ip + |EncodeSequence(q)|;
    assert BoundedStep(src, ip, out, true, capacity) == Next(end, AfterSequence(out, q), true) by {
      SequenceRead(src, ip, q);
      BoundedStepReads(src, ip, out, q, p, end, capacity);
    }
  }

  lemma KnownLastReads(src: seq<byte>, ip: nat, out: seq<byte>, last: seq<byte>, p: nat, osize: nat)
    requires |out| + |last| == osize < INT_LIMIT
    requires ip < p && At(src, p, last)
    requires ReadLength(src, src[ip] / 16, ip + 1) == (|last|, p)
    ensures KnownStep(src, ip, out, true, osize) == Stop(Done(p + |last|, out + last, true))
  {
    AtSlice(src, p, last);
    assert Peek(src, ip) == src[ip];
  }

  lemma KnownLast(src: seq<byte>, ip: nat, out: seq<byte>, last: seq<byte>, osize: nat)
    requires At(src, ip, LiteralRun(last, 0))
    requires |out| + |last| == osize < INT_LIMIT
    ensures DecodeKnown(src, ip, out, true, osize)
         == Done(ip + |LiteralRun(last, 0)|, out + last, true)
  {
    hide At, LiteralRun, KnownStep, ReadLength, ReadExtension;
    var p := ip + 1 + |LengthBytes(|last|)|;
    LiteralRunRead(src, ip, last, 0);
    KnownLastReads(src, ip, out, last, p, osize);
  }

  lemma BoundedLast(src: seq<byte>, ip: nat, out: seq<byte>, last: seq<byte>, capacity: nat)
    requires At(src, ip, LiteralRun(last, 0))
    requires |src| == ip + |LiteralRun(last, 0)|
    requires |out| + |last| <= capacity < INT_LIMIT
    ensures DecodeBounded(src, ip, out, true, capacity) == Done(|src|, out + last, true)
  {
    LiteralRunRead(src, ip, last, 0);
    AtSlice(src, ip + 1 + |LengthBytes(|last|)|, last);
    assert BoundedStep(src, ip, out, true, capacity) == Stop(Done(|src|, out + last, true));
  }

  lemma {:induction false} KnownSequences(src: seq<byte>, seqs: seq<Sequence>, osize: nat)
    requires Fits(seqs) && MatchesStartBy(seqs, osize - MFLIMIT)
    requires osize < INT_LIMIT && (ExpandedLength(seqs) < osize || seqs == [])
    requires At(src, 0, EncodeSequences(seqs))
    ensures DecodeKnown(src, 0, [], true, osize)
         == DecodeKnown(src, |EncodeSequences(seqs)|, Expand(seqs), true, osize)
  {
    hide DecodeKnown, KnownStep, EncodeSequence, At, CopyMatch;
    if seqs != [] {
      var init, q := seqs[..|seqs| - 1], seqs[|seqs| - 1];
      AtSplit(src, 0, EncodeSequences(init), EncodeSequence(q));
      KnownSequences(src, init, osize);
      KnownSequence(src, |EncodeSequences(init)|, Expand(init), q, osize);
    }
  }

  lemma {:induction false} BoundedSequences(src: seq<byte>, seqs: seq<Sequence>, capacity: nat)
    requires Fits(seqs) && MatchesStartBy(seqs, capacity - MFLIMIT)
    requires capacity < INT_LIMIT && (ExpandedLength(seqs) < capacity || seqs == [])
    requires At(src, 0, EncodeSequences(seqs))
    requires |EncodeSequences(seqs)| + 1 + LASTLITERALS <= |src| || seqs == []
    ensures DecodeBounded(src, 0, [], true, capacity)
         == DecodeBounded(src, |EncodeSequences(seqs)|, Expand(seqs), true, capacity)
  {
    hide DecodeBounded, BoundedStep, EncodeSequence, At, CopyMatch;
    if seqs != [] {
      var init, q := seqs[..|seqs| - 1], seqs[|seqs| - 1];
      AtSplit(src, 0, EncodeSequences(init), EncodeSequence(q));
      BoundedSequences(src, init, capacity);
      BoundedSequence(src, |EncodeSequences(init)|, Expand(init), q, capacity);
    }
  }

  lemma {:induction false} MatchesStartByMonotone(seqs: seq<Sequence>, a: int, b: int)
    requires a <= b && MatchesStartBy(seqs, a)
    ensures MatchesStartBy(seqs, b)
  {
    if seqs != [] {
      MatchesStartByMonotone(seqs[..|seqs| - 1], a, b);
    }
  }

  /** LZ4_uncompress inverts the encoding, consumes exactly the encoding, and does
      not depend on what follows it. */
  lemma KnownRoundTrip(b: Block, src: seq<byte>)
    requires WellFormed(b) && BlockLength(b) < INT_LIMIT
    requires Encode(b) <= src
    ensures DecodeKnown(src, 0, [], true, BlockLength(b)) == Done(|Encode(b)|, Contents(b), true)
  {
    hide DecodeKnown, LiteralRun, At;
    PrefixAt(src, Encode(b));
    AtSplit(src, 0, EncodeSequences(b.seqs), LiteralRun(b.last, 0));
    KnownSequences(src, b.seqs, BlockLength(b));
    KnownLast(src, |EncodeSequences(b.seqs)|, Expand(b.seqs), b.last, BlockLength(b));
  }

  /** LZ4_uncompress_unknownOutputSize inverts the encoding for every capacity
      that holds the contents. */
  lemma BoundedRoundTrip(b: Block, capacity: nat)
    requires WellFormed(b)
    requires BlockLength(b) <= capacity < INT_LIMIT
    ensures DecodeBounded(Encode(b), 0, [], true, capacity) == Done(|Encode(b)|, Contents(b), true)
  {
    hide DecodeBounded, LiteralRun, At;
    var src := Encode(b);
    PrefixAt(src, src);
    AtSplit(src, 0, EncodeSequences(b.seqs), LiteralRun(b.last, 0));
    MatchesStartByMonotone(b.seqs, BlockLength(b) - MFLIMIT, capacity - MFLIMIT);
    BoundedSequences(src, b.seqs, capacity);
    BoundedLast(src, |EncodeSequences(b.seqs)|, Expand(b.seqs), b.last, capacity);
  }
}
