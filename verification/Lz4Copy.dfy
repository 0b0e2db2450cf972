/** The copy macros of lz4.c (64-bit configuration, STEPSIZE 8). They write whole
    8-byte words and so may write past the end they are asked for. */
module Lz4Copy {
  import opened Common
  import opened Lz4Format

  /** `s` extends its first `lo` bytes by repeating what stands `offset` back. */
  ghost predicate Repeats(s: seq<byte>, lo: nat, offset: nat) {
    1 <= offset <= lo && forall j :: lo <= j < |s| ==> s[j] == s[j - offset]
  }

  /** Repetition determines the bytes: it is the byte-by-byte copy. */
  lemma {:induction false} RepeatsIsCopyMatch(s: seq<byte>, lo: nat, offset: nat)
    requires lo <= |s| && Repeats(s, lo, offset)
    ensures s == CopyMatch(s[..lo], offset, |s| - lo)
    decreases |s|
  {
    if |s| == lo {
      assert s[..lo] == s;
    } else {
      var t := s[..|s| - 1];
      assert t[..lo] == s[..lo];
      RepeatsIsCopyMatch(t, lo, offset);
      assert s == t + [s[|s| - 1]];
    }
  }

  /** Going `k` periods back instead of one reads the same byte. */
  lemma {:induction false} PeriodsBack(s: seq<byte>, lo: nat, offset: nat, j: nat, k: nat, distance: nat)
    requires Repeats(s, lo, offset)
    requires 1 <= k && distance == k * offset
    requires lo + distance <= j + offset && j - offset < |s|
    ensures distance <= j && s[j - distance] == s[j - offset]
    decreases k
  {
    if k > 1 {
      assert (k - 1) * offset == distance - offset;
      PeriodsBack(s, lo, offset, j, k - 1, distance - offset);
      var i := j - (distance - offset);
      assert s[i] == s[i - offset];
    }
  }

  /** Appending bytes from `k` periods back keeps the repetition. */
  lemma StepExtends(before: seq<byte>, after: seq<byte>, lo: nat, offset: nat, k: nat, distance: nat)
    requires Repeats(before, lo, offset)
    requires 1 <= k && distance == k * offset
    requires lo <= |before| <= |after| <= |before| + distance
    requires lo + distance <= |before| + offset
    requires forall j :: 0 <= j < |before| ==> after[j] == before[j]
    requires forall j :: |before| <= j < |after| ==> after[j] == before[j - distance]
    ensures Repeats(after, lo, offset)
  {
    forall j | lo <= j < |after| ensures after[j] == after[j - offset] {
      if |before| <= j {
        if j - offset < |before| {
          PeriodsBack(before, lo, offset, j, k, distance);
        } else {
          assert before[j - distance] == before[j - distance - offset];
        }
      }
    }
  }

  /** LZ4_COPYSTEP inside the output: an 8-byte load, then an 8-byte store. */
  method CopyStep(dst: array<byte>, ref: nat, op: nat)
    requires ref <= op && op + 8 <= dst.Length
    modifies dst
    ensures forall j :: 0 <= j < dst.Length && !(op <= j < op + 8) ==> dst[j] == old(dst[j])
    ensures forall j :: op <= j < op + 8 ==> dst[j] == old(dst[j - (op - ref)])
  {
    forall k | 0 <= k < 8 {
      dst[op + k] := dst[ref + k];
    }
  }

  const DEC: seq<nat> := [0, 3, 2, 3, 0, 0, 0, 0]
  const DEC2: seq<int> := [0, 0, 0, -1, 0, 1, 2, 3]

  /** The distance at which the copy goes on after the first 8 bytes. */
  function PeriodsFor(offset: nat): (k: nat)
    requires 1 <= offset
    ensures 1 <= k && 8 <= k * offset <= 8 + offset
  {
    match offset
    case 1 => 8
    case 2 => 4
    case 3 => 3
    case 4 => 2
    case 5 => 2
    case 6 => 2
    case 7 => 2
    case _ => 1
  }

  /** The first 8 bytes of a match: 4 single bytes, the `dec` shift, a 4-byte word
      and the `dec2` shift for short offsets, one 8-byte word otherwise. */
  method FirstEight(dst: array<byte>, start: nat, offset: nat) returns (ref: nat)
    requires offset <= start && start + 8 <= dst.Length
    modifies dst
    ensures dst[..start] == old(dst[..start])
    ensures offset == 0 ==> ref == start + 4
    ensures offset > 0 ==> ref == start + 8 - PeriodsFor(offset) * offset
    ensures offset > 0 ==> Repeats(dst[..start + 8], start, offset)
  {
    if offset < 8 {
      ref := FirstEightShort(dst, start, offset);
    } else {
      CopyStep(dst, start - offset, start);
      ref := start - offset + 8;
    }
  }

  method FirstEightShort(dst: array<byte>, start: nat, offset: nat) returns (ref: nat)
    requires offset <= start && offset < 8 && start + 8 <= dst.Length
    modifies dst
    ensures dst[..start] == old(dst[..start])
    ensures offset == 0 ==> ref == start + 4
    ensures offset > 0 ==> ref == start + 8 - PeriodsFor(offset) * offset
    ensures offset > 0 ==> Repeats(dst[..start + 8], start, offset)
  {
    hide PeriodsFor, Repeats;
    var op := start;
    ref := start - offset;
    var dec2 := DEC2[op - ref];
    FourBytes(dst, ref, op);
    ghost var before := dst[..start + 4];
    op, ref := op + 4, ref + 4;
    ref := ref - DEC[op - ref];
    forall k | 0 <= k < 4 {
      dst[op + k] := dst[ref + k];
    }
    if offset > 0 {
      Shifts(offset);
      StepExtends(before, dst[..start + 8], start, offset, if offset == 1 then 4 else if offset < 4 then 2 else 1, op - ref);
    }
    ref := ref - dec2;
  }

  /** The first shift goes to whole periods back, the second to those the copy goes on at. */
  lemma Shifts(offset: nat)
    requires 1 <= offset < 8
    ensures 4 <= offset + DEC[offset] <= offset + 4
    ensures offset + DEC[offset] == (if offset == 1 then 4 else if offset < 4 then 2 else 1) * offset
    ensures PeriodsFor(offset) * offset == 4 + offset + DEC[offset] + DEC2[offset]
  {
  }

  method FourBytes(dst: array<byte>, ref: nat, op: nat)
    requires ref <= op && op + 4 <= dst.Length
    modifies dst
    ensures dst[..op] == old(dst[..op])
    ensures op > ref ==> Repeats(dst[..op + 4], op, op - ref)
  {
    dst[op] := dst[ref];
    dst[op + 1] := dst[ref + 1];
    dst[op + 2] := dst[ref + 2];
    dst[op + 3] := dst[ref + 3];
  }

  /** LZ4_WILDCOPY inside the output: whole words until `end` is reached. */
  method WildCopy(dst: array<byte>, ref0: nat, op0: nat, end: nat,
                  ghost start: nat, ghost offset: nat, ghost k: nat) returns (ref: nat, op: nat)
    requires start <= op0 < end && end + 7 <= dst.Length
    requires ref0 < op0
    requires offset > 0 ==> Repeats(dst[..op0], start, offset)
    requires offset > 0 ==> 1 <= k && op0 - ref0 == k * offset && 8 <= op0 - ref0 <= op0 - start + offset
    modifies dst
    ensures end <= op < end + 8
    ensures op - ref == op0 - ref0
    ensures dst[..start] == old(dst[..start])
    ensures offset > 0 ==> Repeats(dst[..op], start, offset)
  {
    ref, op := ref0, op0;
    while true
      invariant start <= op < end
      invariant op - ref == op0 - ref0
      invariant dst[..start] == old(dst[..start])
      invariant offset > 0 ==> Repeats(dst[..op], start, offset)
      invariant op0 <= op
      decreases end - op
    {
      ghost var before := dst[..op];
      CopyStep(dst, ref, op);
      if offset > 0 {
        StepExtends(before, dst[..op + 8], start, offset, k, op - ref);
      }
      ref, op := ref + 8, op + 8;
      if op >= end {
        break;
      }
    }
  }

  /** The last bytes of a match, singly, where a whole word might not fit. */
  method CopyBytes(dst: array<byte>, ref0: nat, op0: nat, cpy: nat,
                   ghost start: nat, ghost offset: nat, ghost k: nat) returns (op: nat)
    requires start <= op0 <= dst.Length && cpy <= dst.Length
    requires ref0 < op0
    requires offset > 0 ==> Repeats(dst[..op0], start, offset)
    requires offset > 0 ==> 1 <= k && op0 - ref0 == k * offset <= op0 - start + offset
    modifies dst
    ensures cpy <= op && op0 <= op <= dst.Length
    ensures dst[..start] == old(dst[..start])
    ensures offset > 0 ==> Repeats(dst[..op], start, offset)
  {
    var ref := ref0;
    op := op0;
    while op < cpy
      invariant op0 <= op <= dst.Length && op - ref == op0 - ref0
      invariant dst[..start] == old(dst[..start])
      invariant offset > 0 ==> Repeats(dst[..op], start, offset)
    {
      ghost var before := dst[..op];
      dst[op] := dst[ref];
      if offset > 0 {
        StepExtends(before, dst[..op + 1], start, offset, k, op - ref);
      }
      ref, op := ref + 1, op + 1;
    }
  }

  lemma RepeatedPrefix(s: seq<byte>, start: nat, offset: nat, cpy: nat)
    requires Repeats(s, start, offset) && start <= cpy <= |s|
    ensures s[..cpy] == CopyMatch(s[..start], offset, cpy - start)
  {
    var t := s[..cpy];
    RepeatsIsCopyMatch(t, start, offset);
    assert t[..start] == s[..start];
  }

  /** The whole match copy: `length` is the match length less MINMATCH. Writes stay
      inside `dst`; on success the output is the byte-by-byte copy. */
  method CopyRepeated(dst: array<byte>, start: nat, offset: nat, length: nat) returns (ok: bool, cpy: nat)
    requires offset <= start && start + COPYLENGTH <= dst.Length
    modifies dst
    ensures cpy == start + length + MINMATCH
    ensures ok <==> cpy <= dst.Length
    ensures dst[..start] == old(dst[..start])
    ensures ok && offset > 0 ==> dst[..cpy] == CopyMatch(old(dst[..start]), offset, length + MINMATCH)
  {
    hide CopyMatch, PeriodsFor;
    ghost var k := if offset == 0 then 0 else PeriodsFor(offset);
    var ref := FirstEight(dst, start, offset);
    var op := start + 8;
    cpy := op + length - (8 - 4);
    ok := cpy <= dst.Length;
    if cpy > dst.Length - COPYLENGTH {
      if !ok {
        return;
      }
      if op < dst.Length - COPYLENGTH {
        ref, op := WildCopy(dst, ref, op, dst.Length - COPYLENGTH, start, offset, k);
      }
      op := CopyBytes(dst, ref, op, cpy, start, offset, k);
    } else if op < cpy {
      ref, op := WildCopy(dst, ref, op, cpy, start, offset, k);
    }
    if offset > 0 {
      RepeatedPrefix(dst[..op], start, offset, cpy);
      assert dst[..op][..cpy] == dst[..cpy];
      assert dst[..op][..start] == dst[..start];
    }
  }
}
