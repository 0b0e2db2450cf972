/** LZ4_compressCtx, LZ4_compress64kCtx and LZ4_compress. The two compressors are
    one text up to the hash width, the table's entry width, the first-byte entry
    and the distance test; Variant says which. */
module Lz4Encode {
  import opened Common
  import opened Lz4Format
  import opened Lz4Words
  import Lz4Copy

  const MINLENGTH := MFLIMIT + 1
  const LIMIT_64K := 65536 + (MFLIMIT - 1)
  const SKIP_STRENGTH := 64 // two to the power SKIPSTRENGTH

  datatype Variant = General | Small64K {
    function TableSize(): nat {
      if General? then 0x4_0000 else 0x8_0000
    }

    /** The top 18 (or 19) bits of the 32-bit product. */
    function Hash(src: seq<byte>, p: nat): (h: nat)
      requires p + 4 <= |src|
      ensures h < TableSize()
    {
      U32(src, p) * 2654435761 % 0x1_0000_0000 / (if General? then 0x4000 else 0x2000)
    }

    /** A position as the table stores it: U32, or U16 in the 64K variant. */
    function Entry(p: nat): nat {
      p % (if General? then 0x1_0000_0000 else 0x1_0000)
    }

    /** The sizes a variant is called for. */
    predicate Admits(isize: nat) {
      if General? then isize < INT_LIMIT else isize < LIMIT_64K
    }

    predicate TooFar(ref: nat, ip: nat) {
      General? && ref < ip - MAX_DISTANCE
    }
  }

  /** The bound itself fits an int if and only if the input is short enough. */
  lemma BoundFits(isize: nat)
    ensures CompressBound(isize) < INT_LIMIT <==> isize < 2139095025
  {
  }

  /** Every position that enters the table fits its entries, 16 bits in the 64K variant. */
  lemma PositionFits(v: Variant, isize: nat, p: nat)
    requires v.Admits(isize) && p + MFLIMIT <= isize
    ensures v.Entry(p) == p
  {
  }

  // ----- Sizes -----

  lemma SequenceBound(q: Sequence)
    ensures |EncodeSequence(q)| <= |q.literals| + q.matchLength + |q.literals| / 255
  {
  }

  lemma {:induction false} SequencesBound(seqs: seq<Sequence>)
    ensures |EncodeSequences(seqs)| <= ExpandedLength(seqs) + ExpandedLength(seqs) / 255
  {
    if seqs != [] {
      hide EncodeSequence;
      SequencesBound(seqs[..|seqs| - 1]);
      SequenceBound(seqs[|seqs| - 1]);
    }
  }

  /** No block is longer than LZ4_compressBound of its contents. */
  lemma EncodeBound(b: Block)
    ensures |Encode(b)| <= CompressBound(BlockLength(b))
  {
    SequencesBound(b.seqs);
  }

  // ----- State between sequences -----

  /** `seqs` stands for src[..anchor] and respects the end-of-block conditions. */
  ghost predicate Covers(src: seq<byte>, seqs: seq<Sequence>, anchor: nat) {
    && anchor <= |src|
    && Fits(seqs) && Expand(seqs) == src[..anchor]
    && MatchesStartBy(seqs, |src| - MFLIMIT)
    && (seqs != [] ==> anchor + LASTLITERALS <= |src|)
  }

  ghost predicate Below(table: seq<nat>, p: nat) {
    forall i :: 0 <= i < |table| ==> table[i] < p
  }

  /** A match at `ip` reaching at least up to `hi + MINMATCH`. */
  ghost predicate MatchAt(src: seq<byte>, ref: nat, ip: nat, hi: nat) {
    && ref < ip <= |src| - MFLIMIT && ip - ref <= MAX_DISTANCE
    && ip <= hi <= |src| - MFLIMIT
    && forall k :: ip <= k < hi + MINMATCH ==> src[k] == src[k - (ip - ref)]
  }

  /** Adding the sequence just written keeps the state. */
  lemma CoversStep(src: seq<byte>, seqs: seq<Sequence>, anchor: nat, ref: nat, ip: nat, end: nat)
    requires Covers(src, seqs, anchor)
    requires anchor <= ip && ref < ip <= |src| - MFLIMIT && ip - ref <= MAX_DISTANCE
    requires ip + MINMATCH <= end <= |src| - LASTLITERALS
    requires forall k :: ip <= k < end ==> src[k] == src[k - (ip - ref)]
    ensures Covers(src, seqs + [Sequence(src[anchor..ip], ip - ref, end - ip)], end)
  {
    hide CopyMatch, Fits, Expand, ExpandedLength, MatchesStartBy;
    var q: Sequence := Sequence(src[anchor..ip], ip - ref, end - ip);
    OneMoreSequence(seqs, q, |src| - MFLIMIT);
    assert src[..anchor] + q.literals == src[..ip];
    MatchIsCopy(src, ref, ip, end);
  }

  /** What one more sequence adds. */
  lemma OneMoreSequence(seqs: seq<Sequence>, q: Sequence, limit: int)
    requires Fits(seqs) && MatchesStartBy(seqs, limit)
    requires q.offset <= ExpandedLength(seqs) + |q.literals| <= limit
    ensures Fits(seqs + [q]) && MatchesStartBy(seqs + [q], limit)
    ensures Expand(seqs + [q]) == CopyMatch(Expand(seqs) + q.literals, q.offset, q.matchLength)
  {
    hide CopyMatch;
    assert (seqs + [q])[..|seqs + [q]| - 1] == seqs;
  }

  /** A stretch that repeats what lies an offset back is a match copy. */
  lemma MatchIsCopy(src: seq<byte>, ref: nat, ip: nat, end: nat)
    requires ref < ip <= end <= |src| && forall k :: ip <= k < end ==> src[k] == src[k - (ip - ref)]
    ensures CopyMatch(src[..ip], ip - ref, end - ip) == src[..end]
  {
    var s := src[..end];
    assert Lz4Copy.Repeats(s, ip, ip - ref);
    Lz4Copy.RepeatsIsCopyMatch(s, ip, ip - ref);
    assert s[..ip] == src[..ip];
  }

  /** Covering all of the input but the last literals is a well-formed block. */
  lemma CoversIsWellFormed(src: seq<byte>, seqs: seq<Sequence>, anchor: nat)
    requires Covers(src, seqs, anchor)
    ensures WellFormed(Block(seqs, src[anchor..])) && Contents(Block(seqs, src[anchor..])) == src
    ensures BlockLength(Block(seqs, src[anchor..])) == |src|
  {
    assert src == src[..anchor] + src[anchor..];
  }

  // ----- Finding a match -----

  /** Where the search looks: at every position to begin with, then further and further
      apart. */
  function Probe(start: nat, i: nat): (p: nat)
    ensures start + i <= p
  {
    if i == 0 then start else Probe(start, i - 1) + (SKIP_STRENGTH + 2 + i) / SKIP_STRENGTH
  }

  lemma ProbesGrow(start: nat, i: nat)
    ensures i > 0 ==> Probe(start, i - 1) < Probe(start, i)
  {
  }

  /** The table once the first n positions are entered. */
  ghost function Entered(v: Variant, src: seq<byte>, table: seq<nat>, start: nat, n: nat): (r: seq<nat>)
    requires |table| == v.TableSize() && (n > 0 ==> Probe(start, n - 1) + 4 <= |src|)
    ensures |r| == |table|
  {
    if n == 0 then table
    else
      ProbesGrow(start, n - 1);
      Entered(v, src, table, start, n - 1)[v.Hash(src, Probe(start, n - 1)) := Probe(start, n - 1)]
  }

  /** What the table has for the n-th position when its turn comes. */
  ghost function Candidate(v: Variant, src: seq<byte>, table: seq<nat>, start: nat, n: nat): (ref: nat)
    requires |table| == v.TableSize() && Probe(start, n) + 4 <= |src|
  {
    ProbesGrow(start, n);
    Entered(v, src, table, start, n)[v.Hash(src, Probe(start, n))]
  }

  /** The n-th position must be taken: the entry is near enough and four bytes agree. */
  ghost predicate Hit(v: Variant, src: seq<byte>, table: seq<nat>, start: nat, n: nat)
    requires |table| == v.TableSize()
  {
    && Probe(start, n) + 4 <= |src|
    && var ref, p := Candidate(v, src, table, start, n), Probe(start, n);
    ref < p && !v.TooFar(ref, p) && Same4(src, ref, p)
  }

  /** The search came to the n-th position: none before it must be taken, and it gave up
      there, at the end of the input, or took it and entered it. */
  ghost predicate Searched(v: Variant, src: seq<byte>, was: seq<nat>, now: seq<nat>, start: nat, n: nat, found: bool, ip: nat, ref: nat)
    requires |was| == v.TableSize()
  {
    && (forall i :: 0 <= i < n ==> !Hit(v, src, was, start, i))
    && (found <==> Probe(start, n + 1) <= |src| - MFLIMIT)
    && (found ==>
          && ip == Probe(start, n) && Hit(v, src, was, start, n)
          && ref == Candidate(v, src, was, start, n) && now == Entered(v, src, was, start, n + 1))
  }

  /** One look: what the table has for the position, and whether it must be taken. */
  method Look(v: Variant, src: seq<byte>, table: array<nat>, h: nat, ip: nat) returns (hit: bool, ref: nat)
    requires v.Admits(|src|) && table.Length == v.TableSize() && h < table.Length
    requires ip + MFLIMIT <= |src| && Below(table[..], ip)
    modifies table
    ensures table[..] == old(table[..])[h := ip] && ref == old(table[h]) < ip && Below(table[..], ip + 1)
    ensures hit <==> !v.TooFar(ref, ip) && Same4(src, ref, ip)
    ensures hit ==> MatchAt(src, ref, ip, ip)
  {
    hide U32;
    ref := table[h];
    table[h] := v.Entry(ip);
    PositionFits(v, |src|, ip);
    SameU32(src, ref, ip);
    hit := !v.TooFar(ref, ip) && U32(src, ref) == U32(src, ip);
  }

  lemma ProbeNext(v: Variant, src: seq<byte>, table: seq<nat>, start: nat, n: nat)
    requires |table| == v.TableSize() && Probe(start, n) + 4 <= |src|
    ensures Probe(start, n + 1) == Probe(start, n) + (SKIP_STRENGTH + 3 + n) / SKIP_STRENGTH > Probe(start, n)
    ensures Entered(v, src, table, start, n + 1) == Entered(v, src, table, start, n)[v.Hash(src, Probe(start, n)) := Probe(start, n)]
    ensures var ref, p := Candidate(v, src, table, start, n), Probe(start, n);
      Hit(v, src, table, start, n) <==> ref < p && !v.TooFar(ref, p) && Same4(src, ref, p)
  {
    hide v.Hash, Same4;
  }

  lemma ProbeFirst(v: Variant, src: seq<byte>, table: seq<nat>, start: nat)
    requires |table| == v.TableSize()
    ensures Probe(start, 0) == start && Entered(v, src, table, start, 0) == table
  {
  }

  /** The search loop: hash, look up, enter the position, step ahead. It takes the first
      position that must be taken, and gives up only at the end of the input. */
  method FindMatch(v: Variant, src: seq<byte>, table: array<nat>, start: nat, forwardH0: nat)
    returns (found: bool, ip: nat, ref: nat, ghost n: nat)
    requires v.Admits(|src|) && table.Length == v.TableSize()
    requires 1 <= start && start + 4 <= |src| && |src| >= MINLENGTH && forwardH0 == v.Hash(src, start)
    requires Below(table[..], start)
    modifies table
    ensures found ==> start <= ip && Below(table[..], ip + 1) && MatchAt(src, ref, ip, ip)
    ensures Searched(v, src, old(table[..]), table[..], start, n, found, ip, ref)
  {
    hide v.Hash, Probe, Entered, Hit, MatchAt, Below, Same4;
    ghost var was := table[..];
    var mflimit := |src| - MFLIMIT;
    var attempts := SKIP_STRENGTH + 3;
    var forwardIp, forwardH := start, forwardH0;
    n := 0;
    ProbeFirst(v, src, was, start);
    while true
      invariant attempts == SKIP_STRENGTH + 3 + n && start <= forwardIp == Probe(start, n)
      invariant forwardIp + 4 <= |src| && forwardH == v.Hash(src, forwardIp)
      invariant n > 0 ==> Probe(start, n - 1) + 4 <= |src|
      invariant Below(table[..], forwardIp) && table[..] == Entered(v, src, was, start, n)
      invariant forall i :: 0 <= i < n ==> !Hit(v, src, was, start, i)
      decreases mflimit - forwardIp
    {
      ProbeNext(v, src, was, start, n);
      var h := forwardH;
      var step := attempts / SKIP_STRENGTH;
      attempts := attempts + 1;
      ip := forwardIp;
      forwardIp := ip + step;
      if forwardIp > mflimit {
        found, ref := false, 0;
        return;
      }
      forwardH := v.Hash(src, forwardIp);
      found, ref := Look(v, src, table, h, ip);
      if found {
        return;
      }
      BelowMonotone(table[..], ip + 1, forwardIp);
      n := n + 1;
    }
  }

  /** Catch up: extend the match backwards over pending literals. */
  method CatchUp(src: seq<byte>, anchor: nat, ref0: nat, ip0: nat) returns (ref: nat, ip: nat)
    requires anchor <= ip0 && MatchAt(src, ref0, ip0, ip0)
    ensures anchor <= ip && ip - ref == ip0 - ref0 && MatchAt(src, ref, ip, ip0)
    ensures ip == anchor || ref == 0 || src[ip - 1] != src[ref - 1]
  {
    ref, ip := ref0, ip0;
    while ip > anchor && ref > 0 && src[ip - 1] == src[ref - 1]
      invariant anchor <= ip && ip - ref == ip0 - ref0
      invariant MatchAt(src, ref, ip, ip0)
    {
      ref, ip := ref - 1, ip - 1;
    }
  }

  // ----- Writing a sequence -----

  /** A full length byte, with at least another 255 to go. */
  method EmitFull(dst: array<byte>, op: nat, len: nat)
    requires op < dst.Length && len >= 255
    modifies dst
    ensures dst[..op + 1] + Extension(len - 255) == old(dst[..op]) + Extension(len)
  {
    dst[op] := 255;
    assert dst[..op + 1] == old(dst[..op]) + [255];
  }

  /** The last length byte. */
  method EmitRest(dst: array<byte>, op: nat, len: nat)
    requires op < dst.Length && len < 255
    modifies dst
    ensures dst[..op + 1] == old(dst[..op]) + Extension(len)
  {
    dst[op] := len;
    assert dst[..op + 1] == old(dst[..op]) + [len];
  }

  /** Length bytes one at a time, as for literals. */
  method EmitExtension(dst: array<byte>, op0: nat, n: nat) returns (op: nat)
    requires op0 + n / 255 + 1 <= dst.Length
    modifies dst
    ensures op == op0 + n / 255 + 1
    ensures dst[..op] == old(dst[..op0]) + Extension(n)
  {
    hide Extension;
    var len := n;
    op := op0;
    while len > 254
      invariant 0 <= len && op + len / 255 == op0 + n / 255
      invariant op0 <= op && dst[..op] + Extension(len) == old(dst[..op0]) + Extension(n)
    {
      EmitFull(dst, op, len);
      op, len := op + 1, len - 255;
    }
    EmitRest(dst, op, len);
    op := op + 1;
  }

  /** Length bytes two at a time, as for matches. */
  method EmitMatchExtension(dst: array<byte>, op0: nat, n: nat) returns (op: nat)
    requires op0 + n / 255 + 1 <= dst.Length
    modifies dst
    ensures op == op0 + n / 255 + 1
    ensures dst[..op] == old(dst[..op0]) + Extension(n)
  {
    hide Extension;
    var len := n;
    op := op0;
    while len > 509
      invariant 0 <= len && op + len / 255 == op0 + n / 255
      invariant op0 <= op && dst[..op] + Extension(len) == old(dst[..op0]) + Extension(n)
    {
      EmitFull(dst, op, len);
      EmitFull(dst, op + 1, len - 255);
      op, len := op + 2, len - 510;
    }
    if len > 254 {
      EmitFull(dst, op, len);
      op, len := op + 1, len - 255;
    }
    EmitRest(dst, op, len);
    op := op + 1;
  }

  /** A token with an empty match nibble and the literal length. */
  method EmitRunLength(dst: array<byte>, token: nat, length: nat) returns (op: nat)
    requires token + 1 + |LengthBytes(length)| <= dst.Length
    modifies dst
    ensures op == token + 1 + |LengthBytes(length)|
    ensures dst[..op] == old(dst[..token]) + [16 * Nibble(length)] + LengthBytes(length)
  {
    op := token + 1;
    if length >= RUN_MASK {
      dst[token] := RUN_MASK * 16;
      op := EmitExtension(dst, op, length - RUN_MASK);
    } else {
      dst[token] := length * 16;
    }
  }

  /** LZ4_BLINDCOPY of the literals: whole words, possibly past `op + n`. */
  method BlindCopy(src: seq<byte>, anchor: nat, dst: array<byte>, op0: nat, n: nat) returns (op: nat)
    requires op0 + n + COPYLENGTH <= dst.Length && anchor + n + COPYLENGTH <= |src|
    modifies dst
    ensures op == op0 + n
    ensures dst[..op] == old(dst[..op0]) + src[anchor..anchor + n]
  {
    var i := 0;
    while true
      invariant 0 <= i <= n
      invariant forall j :: 0 <= j < op0 ==> dst[j] == old(dst[j])
      invariant forall j :: op0 <= j < op0 + i ==> dst[j] == src[anchor + (j - op0)]
      decreases n - i
    {
      forall k | 0 <= k < 8 {
        dst[op0 + i + k] := src[anchor + i + k];
      }
      i := i + 8;
      if i >= n {
        break;
      }
    }
    op := op0 + n;
  }

  /** Token, literal length and literals; the match nibble is filled in later. */
  method EmitLiterals(src: seq<byte>, anchor: nat, ip: nat, dst: array<byte>, token: nat) returns (op: nat)
    requires anchor <= ip && ip + COPYLENGTH <= |src|
    requires token + 1 + |LengthBytes(ip - anchor)| + (ip - anchor) + COPYLENGTH <= dst.Length
    modifies dst
    ensures op == token + |LiteralRun(src[anchor..ip], 0)|
    ensures dst[..op] == old(dst[..token]) + LiteralRun(src[anchor..ip], 0)
  {
    hide LengthBytes, Nibble;
    op := EmitRunLength(dst, token, ip - anchor);
    ghost var head := dst[..op];
    op := BlindCopy(src, anchor, dst, op, ip - anchor);
    assert |src[anchor..ip]| == ip - anchor;
    assert dst[..op] == head + src[anchor..ip];
  }

  /** The match length, in the token's low nibble and after the offset. */
  method EmitMatchLength(dst: array<byte>, token: nat, op0: nat, len: nat) returns (op: nat)
    requires token < op0 && op0 + |LengthBytes(len)| <= dst.Length
    requires dst[token] <= 240
    modifies dst
    ensures op == op0 + |LengthBytes(len)|
    ensures dst[..op] == old(dst[..op0])[token := old(dst[token]) + Nibble(len)] + LengthBytes(len)
  {
    op := op0;
    if len >= ML_MASK {
      dst[token] := dst[token] + ML_MASK;
      op := EmitMatchExtension(dst, op, len - ML_MASK);
    } else {
      dst[token] := dst[token] + len;
    }
  }

  /** Offset, match count and match length for the literals already written at
      `token`. */
  method EmitMatch(src: seq<byte>, ref: nat, ip: nat, ghost hi: nat, dst: array<byte>, token: nat, op0: nat)
    returns (end: nat, op: nat)
    requires MatchAt(src, ref, ip, hi)
    requires token < op0 && op0 + 2 + (|src| - ip) / 255 + 1 <= dst.Length
    requires dst[token] <= 240
    modifies dst
    ensures hi + MINMATCH <= end <= |src| - LASTLITERALS
    ensures forall k :: ip <= k < end ==> src[k] == src[k - (ip - ref)]
    ensures end == |src| - LASTLITERALS || src[end] != src[end - (ip - ref)]
    ensures op == op0 + 2 + |LengthBytes(end - ip - MINMATCH)|
    ensures dst[..op] == old(dst[..op0])[token := old(dst[token]) + Nibble(end - ip - MINMATCH)]
                       + OffsetBytes(ip - ref) + LengthBytes(end - ip - MINMATCH)
  {
    hide LengthBytes, Nibble;
    dst[op0] := (ip - ref) % 256;
    dst[op0 + 1] := (ip - ref) / 256;
    op := op0 + 2;
    ghost var written := dst[..op];
    assert written == old(dst[..op0]) + OffsetBytes(ip - ref);
    end := CountMatch(src, ref + MINMATCH, ip + MINMATCH);
    var len := end - (ip + MINMATCH);
    op := EmitMatchLength(dst, token, op, len);
    ghost var t: byte := old(dst[token]) + Nibble(len);
    assert written[token := t] == old(dst[..op0])[token := t] + OffsetBytes(ip - ref);
  }

  /** Filling in the token's match nibble turns a literal run into a sequence. */
  lemma SequenceWritten(done: seq<byte>, q: Sequence, token: byte)
    requires token == 16 * Nibble(|q.literals|) + Nibble(q.matchLength - MINMATCH)
    ensures (done + LiteralRun(q.literals, 0))[|done| := token]
            + OffsetBytes(q.offset) + LengthBytes(q.matchLength - MINMATCH)
         == done + EncodeSequence(q)
  {
    hide LengthBytes, Nibble, OffsetBytes;
    var run := LiteralRun(q.literals, 0);
    var rest := LengthBytes(|q.literals|) + q.literals;
    assert run == [16 * Nibble(|q.literals|)] + rest;
    assert (done + run)[|done| := token] == done + ([token] + rest);
  }

  lemma EncodeSnoc(seqs: seq<Sequence>, q: Sequence)
    ensures EncodeSequences(seqs + [q]) == EncodeSequences(seqs) + EncodeSequence(q)
  {
    assert (seqs + [q])[..|seqs|] == seqs;
  }

  /** One match after its literals are in place: the stream grows by a sequence. */
  method EmitSequence(src: seq<byte>, anchor: nat, ref: nat, ip: nat, ghost hi: nat, dst: array<byte>, token: nat, op0: nat,
                      ghost seqs0: seq<Sequence>)
    returns (end: nat, op: nat, ghost seqs: seq<Sequence>)
    requires Covers(src, seqs0, anchor) && anchor <= ip && MatchAt(src, ref, ip, hi)
    requires CompressBound(|src|) <= dst.Length
    requires token == |EncodeSequences(seqs0)| && op0 == token + |LiteralRun(src[anchor..ip], 0)| <= dst.Length
    requires dst[..op0] == EncodeSequences(seqs0) + LiteralRun(src[anchor..ip], 0)
    modifies dst
    ensures hi + MINMATCH <= end <= |src| - LASTLITERALS && (end == |src| - LASTLITERALS || src[end] != src[end - (ip - ref)])
    ensures Covers(src, seqs, end) && seqs == seqs0 + [Sequence(src[anchor..ip], ip - ref, end - ip)]
    ensures op == |EncodeSequences(seqs)| <= dst.Length && dst[..op] == EncodeSequences(seqs)
  {
    hide Covers, LengthBytes, Nibble, LiteralRun, EncodeSequences, EncodeSequence, OffsetBytes;
    assert op0 + 2 + (|src| - ip) / 255 + 1 <= dst.Length by {
      SequencesRoom(src, seqs0, anchor, ip);
    }
    assert dst[token] == 16 * Nibble(ip - anchor) by {
      assert dst[token] == dst[..op0][token];
      RunToken(EncodeSequences(seqs0), src[anchor..ip]);
    }
    end, op := EmitMatch(src, ref, ip, hi, dst, token, op0);
    ghost var q := Sequence(src[anchor..ip], ip - ref, end - ip);
    seqs := seqs0 + [q];
    CoversStep(src, seqs0, anchor, ref, ip, end);
    SequenceWritten(EncodeSequences(seqs0), q, 16 * Nibble(ip - anchor) + Nibble(end - ip - MINMATCH));
    EncodeSnoc(seqs0, q);
  }

  lemma RunToken(done: seq<byte>, literals: seq<byte>)
    ensures (done + LiteralRun(literals, 0))[|done|] == 16 * Nibble(|literals|)
  {
  }

  lemma SequencesRoom(src: seq<byte>, seqs: seq<Sequence>, anchor: nat, ip: nat)
    requires Covers(src, seqs, anchor) && anchor <= ip <= |src| - MFLIMIT
    ensures |EncodeSequences(seqs)| + 1 + |LengthBytes(ip - anchor)| + (ip - anchor) + 2
            + (|src| - ip) / 255 + 1 <= CompressBound(|src|)
    ensures |EncodeSequences(seqs)| + 1 + |LengthBytes(ip - anchor)| + (ip - anchor) + COPYLENGTH <= CompressBound(|src|)
  {
    SequencesBound(seqs);
  }

  lemma BelowMonotone(table: seq<nat>, p: nat, q: nat)
    requires Below(table, p) && p <= q
    ensures Below(table, q)
  {
  }

  /** Fill the table and test the position right after a match. */
  method NextPosition(v: Variant, src: seq<byte>, table: array<nat>, ip: nat, ghost hi: nat) returns (found: bool, ref: nat)
    requires v.Admits(|src|) && table.Length == v.TableSize()
    requires hi + MINMATCH <= ip <= |src| - MFLIMIT && Below(table[..], hi + 1)
    modifies table
    ensures var filled := old(table[..])[v.Hash(src, ip - 2) := ip - 2];
      ref == filled[v.Hash(src, ip)] && table[..] == filled[v.Hash(src, ip) := ip]
    ensures Below(table[..], ip + 1)
    ensures ref < ip && (found <==> !v.TooFar(ref, ip) && Same4(src, ref, ip))
    ensures found ==> MatchAt(src, ref, ip, ip)
  {
    hide v.Hash, U32;
    PositionFits(v, |src|, ip);
    PositionFits(v, |src|, ip - 2);
    table[v.Hash(src, ip - 2)] := v.Entry(ip - 2);
    ref := table[v.Hash(src, ip)];
    table[v.Hash(src, ip)] := v.Entry(ip);
    SameU32(src, ref, ip);
    found := !v.TooFar(ref, ip) && U32(src, ref) == U32(src, ip);
  }

  /** The match goes on up to the last literals. */
  ghost predicate Reaches(src: seq<byte>, anchor: nat, ref: nat, ip: nat, hi: nat) {
    anchor <= ip && ref < ip <= hi <= |src| - MFLIMIT && forall k :: hi + MINMATCH <= k < |src| - LASTLITERALS ==> src[k] == src[k - (ip - ref)]
  }

  /** From _next_match on: matches back to back, each entered in the table, until
      the next position does not match or the end is near. */
  method EmitMatches(v: Variant, src: seq<byte>, anchor0: nat, ref0: nat, ip0: nat, ghost hi0: nat,
                     dst: array<byte>, token0: nat, op0: nat, table: array<nat>, ghost seqs0: seq<Sequence>)
    returns (ip: nat, op: nat, ghost seqs: seq<Sequence>)
    requires v.Admits(|src|) && table.Length == v.TableSize()
    requires Covers(src, seqs0, anchor0) && anchor0 <= ip0 <= hi0 <= |src| && MatchAt(src, ref0, ip0, hi0)
    requires Below(table[..], hi0 + 1)
    requires CompressBound(|src|) <= dst.Length
    requires token0 == |EncodeSequences(seqs0)| && op0 == token0 + |LiteralRun(src[anchor0..ip0], 0)| <= dst.Length
    requires dst[..op0] == EncodeSequences(seqs0) + LiteralRun(src[anchor0..ip0], 0)
    modifies dst, table
    ensures Covers(src, seqs, ip) && hi0 < ip <= |src|
    ensures Reaches(src, anchor0, ref0, ip0, hi0) ==>
      ip == |src| - LASTLITERALS && seqs == seqs0 + [Sequence(src[anchor0..ip0], ip0 - ref0, ip - ip0)]
    ensures op == |EncodeSequences(seqs)| <= dst.Length && dst[..op] == EncodeSequences(seqs)
    ensures Below(table[..], ip + 1)
  {
    hide Covers, EncodeSequences, EncodeSequence, LiteralRun, MatchAt, Below, Same4, v.Hash, v.TooFar;
    var mflimit := |src| - MFLIMIT;
    var anchor: nat, ref: nat, token: nat := anchor0, ref0, token0;
    ghost var hi := hi0;
    ip, op, seqs := ip0, op0, seqs0;
    while true
      invariant Covers(src, seqs, anchor) && MatchAt(src, ref, ip, hi) && hi0 <= hi
      invariant 0 <= anchor <= ip <= |src| && ip <= hi
      invariant Below(table[..], hi + 1)
      invariant token == |EncodeSequences(seqs)| && op == token + |LiteralRun(src[anchor..ip], 0)| <= dst.Length
      invariant dst[..op] == EncodeSequences(seqs) + LiteralRun(src[anchor..ip], 0)
      invariant Reaches(src, anchor0, ref0, ip0, hi0) ==>
        anchor == anchor0 && ref == ref0 && ip == ip0 && hi == hi0 && seqs == seqs0
      decreases |src| - ip
    {
      ip, op, seqs := EmitSequence(src, anchor, ref, ip, hi, dst, token, op, seqs);
      anchor := ip;
      if ip > mflimit {
        BelowMonotone(table[..], hi + 1, ip + 1);
        return;
      }
      var found;
      found, ref := NextPosition(v, src, table, ip, hi);
      if !found {
        return;
      }
      hi := ip;
      token := op;
      op := EmitEmptyRun(src, ip, dst, op, seqs);
    }
  }

  /** A token for a sequence without literals. */
  method EmitEmptyRun(src: seq<byte>, ip: nat, dst: array<byte>, op0: nat, ghost seqs: seq<Sequence>) returns (op: nat)
    requires Covers(src, seqs, ip) && ip <= |src| - MFLIMIT
    requires CompressBound(|src|) <= dst.Length
    requires op0 == |EncodeSequences(seqs)| <= dst.Length && dst[..op0] == EncodeSequences(seqs)
    modifies dst
    ensures op == op0 + |LiteralRun(src[ip..ip], 0)| <= dst.Length
    ensures dst[..op] == EncodeSequences(seqs) + LiteralRun(src[ip..ip], 0)
  {
    SequencesRoom(src, seqs, ip, ip);
    dst[op0] := 0;
    op := op0 + 1;
    assert src[ip..ip] == [];
    assert LiteralRun([], 0) == [0];
  }

  /** _last_literals: everything from `anchor` on. */
  method EmitLastLiterals(src: seq<byte>, anchor: nat, dst: array<byte>, op0: nat) returns (op: nat)
    requires anchor <= |src|
    requires op0 + |LiteralRun(src[anchor..], 0)| <= dst.Length
    modifies dst
    ensures op == op0 + |LiteralRun(src[anchor..], 0)|
    ensures dst[..op] == old(dst[..op0]) + LiteralRun(src[anchor..], 0)
  {
    hide LengthBytes, Nibble;
    op := EmitRunLength(dst, op0, |src| - anchor);
    ghost var head := dst[..op];
    forall k | 0 <= k < |src| - anchor {
      dst[op + k] := src[anchor + k];
    }
    op := op + (|src| - anchor);
    assert dst[..op] == head + src[anchor..];
  }

  /** A match found at `hi`: catch up, then write its literals and the matches from
      there on. */
  method EmitFound(v: Variant, src: seq<byte>, anchor: nat, ref0: nat, hi: nat,
                   dst: array<byte>, token: nat, table: array<nat>, ghost seqs0: seq<Sequence>)
    returns (ip: nat, op: nat, ghost seqs: seq<Sequence>)
    requires v.Admits(|src|) && table.Length == v.TableSize()
    requires Covers(src, seqs0, anchor) && anchor <= hi && MatchAt(src, ref0, hi, hi)
    requires Below(table[..], hi + 1)
    requires CompressBound(|src|) <= dst.Length
    requires token == |EncodeSequences(seqs0)| <= dst.Length && dst[..token] == EncodeSequences(seqs0)
    modifies dst, table
    ensures Covers(src, seqs, ip) && hi < ip <= |src|
    ensures ref0 == 0 && Reaches(src, anchor, 0, hi, hi) ==>
      ip == |src| - LASTLITERALS && seqs == seqs0 + [Sequence(src[anchor..hi], hi, ip - hi)]
    ensures op == |EncodeSequences(seqs)| <= dst.Length && dst[..op] == EncodeSequences(seqs)
    ensures Below(table[..], ip + 1)
  {
    hide Covers, EncodeSequences, LiteralRun, Below;
    var ref;
    ref, ip := CatchUp(src, anchor, ref0, hi);
    SequencesRoom(src, seqs0, anchor, ip);
    op := EmitLiterals(src, anchor, ip, dst, token);
    ip, op, seqs := EmitMatches(v, src, anchor, ref, ip, hi, dst, token, op, table, seqs0);
  }

  /** All bytes are the same, and there are enough of them for the search to start. */
  ghost predicate Uniform(src: seq<byte>) {
    |src| > MINLENGTH && forall k :: 0 <= k < |src| ==> src[k] == src[0]
  }

  /** One literal, one match up to the last literals. */
  ghost predicate OneMatch(src: seq<byte>, seqs: seq<Sequence>, anchor: nat) {
    anchor == |src| - LASTLITERALS && anchor >= 5 && src != [] && seqs == [Sequence([src[0]], 1, anchor - 1)]
  }

  ghost predicate Cleared(table: seq<nat>) {
    forall i :: 0 <= i < |table| ==> table[i] == 0
  }

  /** The search finds the first byte again at once. */
  lemma UniformFound(v: Variant, src: seq<byte>, was: seq<nat>, now: seq<nat>, n: nat, found: bool, ip: nat, ref: nat)
    requires Uniform(src) && |was| == v.TableSize() && Cleared(was) && Searched(v, src, was, now, 1, n, found, ip, ref)
    ensures found && ip == 1 && ref == 0 && Reaches(src, 0, 0, 1, 1)
  {
    hide v.Hash;
    assert Probe(1, 0) == 1 && Probe(1, 1) == 2;
    assert Hit(v, src, was, 1, 0);
  }

  lemma UniformWritten(src: seq<byte>, seqs: seq<Sequence>, anchor: nat)
    requires Uniform(src) && anchor == |src| - LASTLITERALS && seqs == [] + [Sequence(src[0..1], 1, anchor - 1)]
    ensures OneMatch(src, seqs, anchor) && anchor > |src| - MFLIMIT
  {
    assert src[0..1] == [src[0]];
  }

  /** Either compressor: for every input the variant is called for, what is written
      is the encoding of a well-formed block whose contents are the input. */
  method CompressCtx(v: Variant, src: seq<byte>, dst: array<byte>) returns (ret: int, ghost b: Block)
    requires v.Admits(|src|)
    requires CompressBound(|src|) <= dst.Length
    modifies dst
    ensures WellFormed(b) && Contents(b) == src
    ensures |Encode(b)| <= CompressBound(|src|) && Encode(b) <= dst[..] && ret == Int32(|Encode(b)|)
    ensures Uniform(src) ==> |Encode(b)| <= 11 + |src| / 255
  {
    hide Covers, EncodeSequences, LiteralRun, Encode, WellFormed, Contents, OneMatch;
    var anchor: nat, op: nat := 0, 0;
    ghost var seqs: seq<Sequence> := [];
    NothingYet(src);
    if |src| >= MINLENGTH {
      anchor, op, seqs := CompressMatches(v, src, dst);
    }
    b := Block(seqs, src[anchor..]);
    if Uniform(src) {
      OneMatchSize(src, seqs, anchor);
    }
    CoversIsWellFormed(src, seqs, anchor);
    EncodeBound(b);
    EncodeDef(b);
    op := EmitLastLiterals(src, anchor, dst, op);
    assert dst[..op] == Encode(b);
    ret := Int32(op);
  }

  /** Everything up to the last literals. */
  method CompressMatches(v: Variant, src: seq<byte>, dst: array<byte>) returns (anchor: nat, op: nat, ghost seqs: seq<Sequence>)
    requires v.Admits(|src|) && |src| >= MINLENGTH && CompressBound(|src|) <= dst.Length
    modifies dst
    ensures Covers(src, seqs, anchor) && anchor <= |src| && (Uniform(src) ==> OneMatch(src, seqs, anchor))
    ensures op == |EncodeSequences(seqs)| <= dst.Length && dst[..op] == EncodeSequences(seqs)
  {
    hide Covers, EncodeSequences, LiteralRun, Below, MatchAt, Uniform, Searched, Reaches, Cleared, OneMatch;
    NothingYet(src);
    anchor, op, seqs := 0, 0, [];
    var mflimit := |src| - MFLIMIT;
    var table := ClearTable(v, src);
    var ip: nat := 1;
    while true
      invariant Covers(src, seqs, anchor) && anchor <= |src|
      invariant ip == anchor + 1 <= mflimit + 1
      invariant Below(table[..], ip)
      invariant op == |EncodeSequences(seqs)| <= dst.Length && dst[..op] == EncodeSequences(seqs)
      invariant fresh(table)
      invariant Uniform(src) ==> seqs == [] && anchor == 0 && ip == 1 && Cleared(table[..])
      decreases |src| - ip
    {
      ghost var was := table[..];
      var found, ref;
      ghost var n;
      found, ip, ref, n := FindMatch(v, src, table, ip, v.Hash(src, ip));
      if Uniform(src) {
        UniformFound(v, src, was, table[..], n, found, ip, ref);
      }
      if !found {
        return;
      }
      ip, op, seqs := EmitFound(v, src, anchor, ref, ip, dst, op, table, seqs);
      anchor := ip;
      if Uniform(src) {
        UniformWritten(src, seqs, anchor);
      }
      if ip > mflimit {
        return;
      }
      ip := ip + 1;
    }
  }

  method ClearTable(v: Variant, src: seq<byte>) returns (table: array<nat>)
    requires |src| >= MINLENGTH
    ensures fresh(table) && table.Length == v.TableSize() && Below(table[..], 1) && Cleared(table[..])
  {
    table := new nat[v.TableSize()](_ => 0);
    if v.General? {
      table[v.Hash(src, 0)] := v.Entry(0);
    }
  }

  lemma OneMatchSize(src: seq<byte>, seqs: seq<Sequence>, anchor: nat)
    requires OneMatch(src, seqs, anchor)
    ensures |Encode(Block(seqs, src[anchor..]))| <= 11 + |src| / 255
  {
    hide LengthBytes, Nibble;
    var q: Sequence := seqs[0];
    assert seqs[..0] == [] && EncodeSequences([]) == [];
    assert |EncodeSequence(q)| == 4 + |LengthBytes(q.matchLength - MINMATCH)|;
    assert LengthBytes(1) == [] && LengthBytes(5) == [] by {
      NoLengthBytes();
    }
  }

  lemma EncodeDef(b: Block)
    ensures Encode(b) == EncodeSequences(b.seqs) + LiteralRun(b.last, 0)
  {
  }

  lemma NoLengthBytes()
    ensures LengthBytes(1) == [] && LengthBytes(5) == []
  {
  }

  lemma NothingYet(src: seq<byte>)
    ensures Covers(src, [], 0) && EncodeSequences([]) == []
  {
  }

  /** LZ4_compress: the 64K variant below its limit, the general one above. */
  method Compress(src: seq<byte>, dst: array<byte>) returns (ret: int, ghost b: Block)
    requires |src| < INT_LIMIT
    requires CompressBound(|src|) <= dst.Length
    modifies dst
    ensures WellFormed(b) && Contents(b) == src
    ensures |Encode(b)| <= CompressBound(|src|) && Encode(b) <= dst[..] && ret == Int32(|Encode(b)|)
    ensures Uniform(src) ==> |Encode(b)| <= 11 + |src| / 255
  {
    if |src| < LIMIT_64K {
      ret, b := CompressCtx(Small64K, src, dst);
    } else {
      ret, b := CompressCtx(General, src, dst);
    }
  }
}
