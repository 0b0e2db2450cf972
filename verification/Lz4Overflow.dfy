/** When a length in the input of a decoder leaves the range of int. */
module Lz4Overflow {
  import opened Common
  import opened Lz4Format

  /** That many bytes of 255 behind a saturated nibble, and one of at least LAST. */
  const FULL := 8421504
  const LAST := 113

  /** The bytes from ip on reach c times 255 and d more. */
  ghost predicate Reaches(src: seq<byte>, ip: nat, c: nat, d: nat) {
    ip + c < |src| && (forall k :: ip <= k < ip + c ==> src[k] == 255) && src[ip + c] >= d
  }

  lemma {:induction false} ExtensionReaches(src: seq<byte>, ip: nat, c: nat, d: nat)
    requires ip <= |src| && 1 <= d <= 255
    ensures ReadBoundedExtension(src, ip).0 >= 255 * c + d <==> Reaches(src, ip, c, d)
    ensures ReadExtension(src, ip).0 >= 255 * c + d <==> Reaches(src, ip, c, d)
    decreases c
  {
    if ip < |src| && src[ip] == 255 && c > 0 {
      ExtensionReaches(src, ip + 1, c - 1, d);
      assert Reaches(src, ip, c, d) <==> Reaches(src, ip + 1, c - 1, d);
    } else if c > 0 {
      assert !Reaches(src, ip, c, d);
    }
  }

  /** A saturated length overflows if and only if that many full bytes follow, and then a
      large enough one. Both decoders add up the same. */
  lemma OverflowExact(src: seq<byte>, ip: nat)
    requires ip <= |src|
    ensures ReadBoundedLength(src, 15, ip).0 >= INT_LIMIT <==> Reaches(src, ip, FULL, LAST)
    ensures ReadLength(src, 15, ip).0 >= INT_LIMIT <==> Reaches(src, ip, FULL, LAST)
  {
    ExtensionReaches(src, ip, FULL, LAST);
    assert 15 + 255 * FULL + LAST == INT_LIMIT;
  }

  /** Nowhere behind the first byte do so many full bytes follow each other. */
  ghost predicate Tame(src: seq<byte>) {
    forall p :: 1 <= p < |src| ==> !Reaches(src, p, FULL, LAST)
  }

  lemma ShortIsTame(src: seq<byte>)
    requires |src| <= FULL + 1
    ensures Tame(src)
  {
  }

  lemma TameLength(src: seq<byte>, nibble: nat, ip: nat)
    requires Tame(src) && nibble < 16 && ip >= 1
    ensures ReadLength(src, nibble, ip).0 < INT_LIMIT
    ensures ip <= |src| ==> ReadBoundedLength(src, nibble, ip).0 < INT_LIMIT
  {
    if nibble == 15 && ip <= |src| {
      OverflowExact(src, ip);
    }
  }

  lemma TameKnownStep(src: seq<byte>, ip: nat, out: seq<byte>, exact: bool, osize: nat)
    requires Tame(src) && |out| <= osize
    ensures KnownStep(src, ip, out, exact, osize) != Stop(Overflow)
  {
    hide Tame, ReadLength, PeekSlice;
    var token := Peek(src, ip);
    TameLength(src, token / 16, ip + 1);
    var (run, p) := ReadLength(src, token / 16, ip + 1);
    TameLength(src, token % 16, p + run + 2);
  }

  lemma TameBoundedStep(src: seq<byte>, ip: nat, out: seq<byte>, exact: bool, capacity: nat)
    requires Tame(src) && |out| <= capacity && ip < |src|
    ensures BoundedStep(src, ip, out, exact, capacity) != Stop(Overflow)
  {
    hide Tame, ReadBoundedLength;
    var token := src[ip];
    TameLength(src, token / 16, ip + 1);
    var (run, p) := ReadBoundedLength(src, token / 16, ip + 1);
    TameLength(src, token % 16, p + run + 2);
  }

  /** On an input without so long a run of full bytes no length overflows. */
  lemma {:induction false} TameKnown(src: seq<byte>, ip: nat, out: seq<byte>, exact: bool, osize: nat)
    requires Tame(src) && |out| <= osize
    ensures DecodeKnown(src, ip, out, exact, osize) != Overflow
    decreases osize - |out|
  {
    hide Tame, KnownStep;
    TameKnownStep(src, ip, out, exact, osize);
    match KnownStep(src, ip, out, exact, osize) {
      case Stop(_) =>
      case Next(ip', out', exact') => TameKnown(src, ip', out', exact', osize);
    }
  }

  lemma {:induction false} TameBounded(src: seq<byte>, ip: nat, out: seq<byte>, exact: bool, capacity: nat)
    requires Tame(src) && |out| <= capacity && ip <= |src|
    ensures DecodeBounded(src, ip, out, exact, capacity) != Overflow
    decreases |src| - ip
  {
    hide Tame, BoundedStep;
    if ip < |src| {
      TameBoundedStep(src, ip, out, exact, capacity);
      match BoundedStep(src, ip, out, exact, capacity) {
        case Stop(_) =>
        case Next(ip', out', exact') => TameBounded(src, ip', out', exact', capacity);
      }
    }
  }

  /** An input on which both decoders' first length overflows, whatever the output's size. */
  lemma OverflowingInput(size: nat)
    ensures var src := [240] + seq(FULL, _ => 255) + [LAST];
      DecodeKnown(src, 0, [], true, size) == DecodeBounded(src, 0, [], true, size) == Overflow
  {
    var src: seq<byte> := [240] + seq(FULL, _ => 255) + [LAST];
    assert src[0] == 240 && src[1 + FULL] == LAST;
    assert Reaches(src, 1, FULL, LAST);
    OverflowExact(src, 1);
    hide ReadLength, ReadBoundedLength;
    assert KnownStep(src, 0, [], true, size) == Stop(Overflow);
    assert BoundedStep(src, 0, [], true, size) == Stop(Overflow);
  }
}
