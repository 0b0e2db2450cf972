/** The LZ4 block format: what a stream of sequences means, how it is laid out
    in bytes, and what the two decoders of lz4.c compute on any input. */
module Lz4Format {
  import opened Common

  const MINMATCH := 4
  const COPYLENGTH := 8
  const LASTLITERALS := 5
  const MFLIMIT := COPYLENGTH + MINMATCH
  const MAX_DISTANCE := 65535
  const RUN_MASK := 15
  const ML_MASK := 15

  function CompressBound(isize: nat): nat {
    isize + isize / 255 + 16
  }

  // ----- Meaning of a block -----

  datatype RawSequence = Sequence(literals: seq<byte>, offset: nat, matchLength: nat)

  type Sequence = q: RawSequence | 1 <= q.offset <= MAX_DISTANCE && MINMATCH <= q.matchLength
    witness Sequence([], 1, 4)

  datatype Block = Block(seqs: seq<Sequence>, last: seq<byte>)

  /** Byte-by-byte copy of n bytes from `offset` back, each byte visible to the next. */
  function CopyMatch(out: seq<byte>, offset: nat, n: nat): (r: seq<byte>)
    requires 1 <= offset <= |out|
    ensures |r| == |out| + n
    decreases n
  {
    if n == 0 then out
    else
      var r := CopyMatch(out, offset, n - 1);
      r + [r[|r| - offset]]
  }

  function ExpandedLength(seqs: seq<Sequence>): nat {
    if seqs == [] then 0
    else
      var q := seqs[|seqs| - 1];
      ExpandedLength(seqs[..|seqs| - 1]) + |q.literals| + q.matchLength
  }

  /** Every match refers to bytes already produced. */
  ghost predicate Fits(seqs: seq<Sequence>) {
    seqs == [] ||
    var q := seqs[|seqs| - 1];
    Fits(seqs[..|seqs| - 1]) &&
    q.offset <= ExpandedLength(seqs[..|seqs| - 1]) + |q.literals|
  }

  ghost function Expand(seqs: seq<Sequence>): (r: seq<byte>)
    requires Fits(seqs)
    ensures |r| == ExpandedLength(seqs)
  {
    if seqs == [] then []
    else
      var q := seqs[|seqs| - 1];
      CopyMatch(Expand(seqs[..|seqs| - 1]) + q.literals, q.offset, q.matchLength)
  }

  /** Every match starts at or before `limit`. */
  ghost predicate MatchesStartBy(seqs: seq<Sequence>, limit: int) {
    seqs == [] ||
    var q := seqs[|seqs| - 1];
    MatchesStartBy(seqs[..|seqs| - 1], limit) &&
    ExpandedLength(seqs[..|seqs| - 1]) + |q.literals| <= limit
  }

  ghost function BlockLength(b: Block): nat {
    ExpandedLength(b.seqs) + |b.last|
  }

  ghost function Contents(b: Block): (r: seq<byte>)
    requires Fits(b.seqs)
    ensures |r| == BlockLength(b)
  {
    Expand(b.seqs) + b.last
  }

  /** "End of block conditions" of the LZ4 Block Format Description. */
  ghost predicate WellFormed(b: Block) {
    && Fits(b.seqs)
    && MatchesStartBy(b.seqs, BlockLength(b) - MFLIMIT)
    && (b.seqs != [] ==> |b.last| >= LASTLITERALS)
  }

  // ----- Layout of a block -----

  /** The bytes that follow a saturated length nibble. */
  function Extension(n: nat): (r: seq<byte>)
    ensures |r| == n / 255 + 1
  {
    if n < 255 then [n] else [255] + Extension(n - 255)
  }

  function Nibble(n: nat): (r: nat)
    ensures r <= 15
  {
    if n < 15 then n else 15
  }

  function LengthBytes(n: nat): (r: seq<byte>)
    ensures |r| == if n < 15 then 0 else (n - 15) / 255 + 1
  {
    if n < 15 then [] else Extension(n - 15)
  }

  function OffsetBytes(offset: nat): (r: seq<byte>)
    requires offset <= MAX_DISTANCE
    ensures |r| == 2
  {
    [offset % 256, offset / 256]
  }

  function LiteralRun(literals: seq<byte>, matchNibble: nat): (r: seq<byte>)
    requires matchNibble <= 15
    ensures |r| == 1 + |LengthBytes(|literals|)| + |literals|
  {
    [16 * Nibble(|literals|) + matchNibble] + LengthBytes(|literals|) + literals
  }

  function EncodeSequence(q: Sequence): seq<byte> {
    LiteralRun(q.literals, Nibble(q.matchLength - MINMATCH))
    + OffsetBytes(q.offset)
    + LengthBytes(q.matchLength - MINMATCH)
  }

  function EncodeSequences(seqs: seq<Sequence>): seq<byte> {
    if seqs == [] then []
    else EncodeSequences(seqs[..|seqs| - 1]) + EncodeSequence(seqs[|seqs| - 1])
  }

  function Encode(b: Block): seq<byte> {
    EncodeSequences(b.seqs) + LiteralRun(b.last, 0)
  }

  // ----- What the decoders compute -----

  /** `exact` is false once a match of offset 0 has been copied: the C code then
      leaves in the output whatever was there before, so `out` says nothing. */
  datatype Outcome =
    | Done(consumed: nat, out: seq<byte>, exact: bool)
    | Fault(pos: nat)
    | Overflow // a length has left the range of int: C says nothing about what follows

  /** A read past the end of `src`; since `src` is arbitrary, 0 stands for the
      end of whatever memory follows the block. */
  function Peek(src: seq<byte>, i: nat): byte {
    if i < |src| then src[i] else 0
  }

  function PeekSlice(src: seq<byte>, i: nat, n: nat): (r: seq<byte>)
    ensures |r| == n
    ensures forall k :: 0 <= k < n ==> r[k] == Peek(src, i + k)
  {
    (src + seq(i + n, _ => 0))[i..i + n]
  }

  /** The added length and the position after the extension bytes at `ip`. */
  function ReadExtension(src: seq<byte>, ip: nat): (r: (nat, nat))
    ensures r.1 > ip
    decreases |src| - ip
  {
    if Peek(src, ip) == 255 then
      var (n, q) := ReadExtension(src, ip + 1);
      (255 + n, q)
    else (Peek(src, ip), ip + 1)
  }

  function ReadLength(src: seq<byte>, nibble: nat, ip: nat): (r: (nat, nat))
    ensures r.1 >= ip
  {
    if nibble == 15 then
      var (n, q) := ReadExtension(src, ip);
      (15 + n, q)
    else (nibble, ip)
  }

  /** As ReadExtension, but stopping at the end of the input. */
  function ReadBoundedExtension(src: seq<byte>, ip: nat): (r: (nat, nat))
    requires ip <= |src|
    ensures ip <= r.1 <= |src|
    decreases |src| - ip
  {
    if ip == |src| then (0, ip)
    else if src[ip] == 255 then
      var (n, q) := ReadBoundedExtension(src, ip + 1);
      (255 + n, q)
    else (src[ip], ip + 1)
  }

  function ReadBoundedLength(src: seq<byte>, nibble: nat, ip: nat): (r: (nat, nat))
    requires ip <= |src|
    ensures ip <= r.1 <= |src|
  {
    if nibble == 15 then
      var (n, q) := ReadBoundedExtension(src, ip);
      (15 + n, q)
    else (nibble, ip)
  }

  function AppendMatch(out: seq<byte>, offset: nat, n: nat): (r: seq<byte>)
    requires offset <= |out|
    ensures |r| == |out| + n
  {
    if offset == 0 then out + seq(n, _ => 0) else CopyMatch(out, offset, n)
  }

  function U16(lo: byte, hi: byte): nat {
    lo as int + 256 * hi as int
  }

  /** One turn of a decoder's main loop: it stops, or goes on from `ip`. */
  datatype Step = Stop(outcome: Outcome) | Next(ip: nat, out: seq<byte>, exact: bool)

  /** Where a match copy leads: it overruns the output, ends it, or goes on. */
  function MatchStep(out: seq<byte>, offset: nat, length: nat, exact: bool, ip: nat, limit: nat): (r: Step)
    requires offset <= |out|
    ensures r.Next? ==> r.ip == ip && |out| < |r.out| < limit
    ensures r.Stop? && r.outcome.Done? ==> |r.outcome.out| <= limit
  {
    if |out| + length + MINMATCH > limit then Stop(Fault(ip))
    else
      var out' := AppendMatch(out, offset, length + MINMATCH);
      if |out'| == limit then Stop(Done(ip, out', exact && offset > 0))
      else Next(ip, out', exact && offset > 0)
  }

  /** The second half of a turn of LZ4_uncompress, with the literals in `out` and
      the offset at `ip`. */
  function KnownMatch(src: seq<byte>, ip: nat, nibble: nat, out: seq<byte>, exact: bool, osize: nat): (r: Step)
    requires |out| <= osize
    ensures r.Next? ==> |out| < |r.out| < osize
    ensures r.Stop? && r.outcome.Done? ==> |r.outcome.out| <= osize
  {
    var offset := U16(Peek(src, ip), Peek(src, ip + 1));
    if offset > |out| then Stop(Fault(ip + 2))
    else
      var (length, end) := ReadLength(src, nibble, ip + 2);
      if length >= INT_LIMIT then Stop(Overflow) else MatchStep(out, offset, length, exact, end, osize)
  }

  /** One turn of the main loop of LZ4_uncompress: `ip` is the input position and
      `out` the output so far. */
  function KnownStep(src: seq<byte>, ip: nat, out: seq<byte>, exact: bool, osize: nat): (r: Step)
    requires |out| <= osize
    ensures r.Next? ==> |out| < |r.out| < osize
    ensures r.Stop? && r.outcome.Done? ==> |r.outcome.out| <= osize
  {
    var token := Peek(src, ip);
    var (run, p) := ReadLength(src, token / 16, ip + 1);
    if run >= INT_LIMIT then Stop(Overflow)
    else if |out| + run > osize then Stop(Fault(p))
    else
      var out' := out + PeekSlice(src, p, run);
      if |out| + run > osize - COPYLENGTH then Stop(Done(p + run, out', exact))
      else KnownMatch(src, p + run, token % 16, out', exact, osize)
  }

  function DecodeKnown(src: seq<byte>, ip: nat, out: seq<byte>, exact: bool, osize: nat): (r: Outcome)
    requires |out| <= osize
    ensures r.Done? ==> |r.out| <= osize
    decreases osize - |out|
  {
    match KnownStep(src, ip, out, exact, osize)
    case Stop(o) => o
    case Next(ip', out', exact') => DecodeKnown(src, ip', out', exact', osize)
  }

  /** The second half of a turn of LZ4_uncompress_unknownOutputSize. */
  function BoundedMatch(src: seq<byte>, ip: nat, nibble: nat, out: seq<byte>, exact: bool, capacity: nat): (r: Step)
    requires |out| <= capacity && ip + 2 <= |src|
    ensures r.Next? ==> |r.out| < capacity && ip < r.ip <= |src|
    ensures r.Stop? && r.outcome.Done? ==> |r.outcome.out| <= capacity
  {
    var offset := U16(src[ip], src[ip + 1]);
    if offset > |out| then Stop(Fault(ip + 2))
    else
      var (length, end) := ReadBoundedLength(src, nibble, ip + 2);
      if length >= INT_LIMIT then Stop(Overflow) else MatchStep(out, offset, length, exact, end, capacity)
  }

  /** One turn of the main loop of LZ4_uncompress_unknownOutputSize. */
  function BoundedStep(src: seq<byte>, ip: nat, out: seq<byte>, exact: bool, capacity: nat): (r: Step)
    requires |out| <= capacity && ip < |src|
    ensures r.Next? ==> |r.out| < capacity && ip < r.ip <= |src|
    ensures r.Stop? && r.outcome.Done? ==> |r.outcome.out| <= capacity
  {
    var (run, p) := ReadBoundedLength(src, src[ip] / 16, ip + 1);
    if run >= INT_LIMIT then Stop(Overflow)
    else if |out| + run > capacity || p + run > |src| then Stop(Fault(p))
    else
      var out' := out + src[p..p + run];
      if |out| + run > capacity - COPYLENGTH || p + run > |src| - COPYLENGTH then
        if p + run < |src| then Stop(Fault(p + run)) else Stop(Done(p + run, out', exact))
      else BoundedMatch(src, p + run, src[ip] % 16, out', exact, capacity)
  }

  function DecodeBounded(src: seq<byte>, ip: nat, out: seq<byte>, exact: bool, capacity: nat): (r: Outcome)
    requires |out| <= capacity && ip <= |src|
    ensures r.Done? ==> |r.out| <= capacity
    decreases |src| - ip
  {
    if ip == |src| then Done(ip, out, exact)
    else
      match BoundedStep(src, ip, out, exact, capacity)
      case Stop(o) => o
      case Next(ip', out', exact') => DecodeBounded(src, ip', out', exact', capacity)
  }
}
