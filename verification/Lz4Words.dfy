/** Word reads of lz4.c: 16-, 32- and 64-bit little-endian loads, the hash of four
    bytes, and LZ4_NbCommonBytes. */
module Lz4Words {
  import opened Common
  import opened Lz4Format

  function U32(src: seq<byte>, p: nat): (r: nat)
    requires p + 4 <= |src|
    ensures r < 0x1_0000_0000
  {
    src[p] as int + 0x100 * src[p + 1] as int + 0x1_0000 * src[p + 2] as int + 0x100_0000 * src[p + 3] as int
  }

  predicate Same4(src: seq<byte>, p: nat, q: nat)
    requires p + 4 <= |src| && q + 4 <= |src|
  {
    src[p] == src[q] && src[p + 1] == src[q + 1] && src[p + 2] == src[q + 2] && src[p + 3] == src[q + 3]
  }

  lemma SameDigit(a: byte, x: nat, b: byte, y: nat)
    requires a as int + 256 * x == b as int + 256 * y
    ensures a == b && x == y
  {
  }

  lemma SameU32(src: seq<byte>, p: nat, q: nat)
    requires p + 4 <= |src| && q + 4 <= |src|
    ensures U32(src, p) == U32(src, q) <==> Same4(src, p, q)
  {
    if U32(src, p) == U32(src, q) {
      var x2 := src[p + 2] as int + 256 * src[p + 3] as int;
      var y2 := src[q + 2] as int + 256 * src[q + 3] as int;
      SameDigit(src[p], src[p + 1] as int + 256 * x2, src[q], src[q + 1] as int + 256 * y2);
      SameDigit(src[p + 1], x2, src[q + 1], y2);
    }
  }

  lemma SameU16(a0: byte, a1: byte, b0: byte, b1: byte)
    ensures U16(a0, a1) == U16(b0, b1) <==> a0 == b0 && a1 == b1
  {
  }

  /** Bitwise exclusive or of two n-bit numbers. */
  function XorBits(a: nat, b: nat, n: nat): nat {
    if n == 0 then 0
    else (if a % 2 == b % 2 then 0 else 1) + 2 * XorBits(a / 2, b / 2, n - 1)
  }

  lemma {:induction false} XorBitsRange(a: nat, b: nat, n: nat, pow: nat)
    requires n <= 8 && pow == [1, 2, 4, 8, 16, 32, 64, 128, 256][n]
    requires a < pow && b < pow
    ensures XorBits(a, b, n) < pow
    ensures XorBits(a, b, n) == 0 <==> a == b
    decreases n
  {
    if n > 0 {
      XorBitsRange(a / 2, b / 2, n - 1, pow / 2);
    }
  }

  function XorByte(a: byte, b: byte): byte {
    XorBitsRange(a, b, 8, 256);
    XorBits(a, b, 8)
  }

  lemma XorByteZero(a: byte, b: byte)
    ensures XorByte(a, b) == 0 <==> a == b
  {
    XorBitsRange(a, b, 8, 256);
  }

  /** The exclusive or of two little-endian words given by their bytes. */
  function Xor(a: seq<byte>, b: seq<byte>): nat
    requires |a| == |b|
  {
    if a == [] then 0
    else XorByte(a[0], b[0]) as int + 256 * Xor(a[1..], b[1..])
  }

  /** The number of trailing zero bits (__builtin_ctzll). */
  function TrailingZeros(x: nat): nat
    requires x != 0
  {
    if x % 2 == 1 then 0 else 1 + TrailingZeros(x / 2)
  }

  function NbCommonBytes(diff: nat): nat
    requires diff != 0
  {
    TrailingZeros(diff) / 8
  }

  lemma {:induction false} TrailingZerosShift(x: nat)
    requires x != 0
    ensures TrailingZeros(256 * x) == 8 + TrailingZeros(x)
  {
    hide TrailingZeros;
    TrailingZerosDouble(x);
    TrailingZerosDouble(2 * x);
    TrailingZerosDouble(4 * x);
    TrailingZerosDouble(8 * x);
    TrailingZerosDouble(16 * x);
    TrailingZerosDouble(32 * x);
    TrailingZerosDouble(64 * x);
    TrailingZerosDouble(128 * x);
  }

  lemma TrailingZerosDouble(x: nat)
    requires x != 0
    ensures TrailingZeros(2 * x) == 1 + TrailingZeros(x)
  {
  }

  /** One of the lowest `bits` bits is set. */
  predicate LowBitSet(x: nat, bits: nat) {
    bits > 0 && (x % 2 == 1 || LowBitSet(x / 2, bits - 1))
  }

  lemma {:induction false} TrailingZerosLow(x: nat, bits: nat)
    requires LowBitSet(x, bits)
    ensures x != 0 && TrailingZeros(x) < bits
    decreases bits
  {
    if x % 2 == 0 {
      TrailingZerosLow(x / 2, bits - 1);
    }
  }

  lemma {:induction false} LowBitSetMore(x: nat, bits: nat, more: nat)
    requires LowBitSet(x, bits) && bits <= more
    ensures LowBitSet(x, more)
    decreases bits
  {
    if x % 2 == 0 {
      LowBitSetMore(x / 2, bits - 1, more - 1);
    }
  }

  lemma LowPairBitSet(x: nat)
    requires x % 4 != 0
    ensures LowBitSet(x, 2)
  {
    assert x % 2 == 0 ==> x / 2 % 2 == 1;
  }

  lemma LowNibbleBitSet(x: nat)
    requires x % 16 != 0
    ensures LowBitSet(x, 4)
  {
    if x % 4 != 0 {
      LowPairBitSet(x);
      LowBitSetMore(x, 2, 4);
    } else {
      LowPairBitSet(x / 4);
      assert x / 2 / 2 == x / 4;
      assert LowBitSet(x / 2, 3);
    }
  }

  lemma LowByteBitSet(x: nat)
    requires x % 256 != 0
    ensures LowBitSet(x, 8)
  {
    if x % 16 != 0 {
      LowNibbleBitSet(x);
      LowBitSetMore(x, 4, 8);
    } else {
      LowNibbleBitSet(x / 16);
      assert x / 8 / 2 == x / 16 && x / 4 / 2 == x / 8 && x / 2 / 2 == x / 4;
      assert LowBitSet(x / 8, 5);
      assert LowBitSet(x / 4, 6);
      assert LowBitSet(x / 2, 7);
    }
  }

  lemma {:induction false} XorZero(a: seq<byte>, b: seq<byte>)
    requires |a| == |b|
    ensures Xor(a, b) == 0 <==> a == b
  {
    if a != [] {
      XorByteZero(a[0], b[0]);
      XorZero(a[1..], b[1..]);
      assert a == [a[0]] + a[1..] && b == [b[0]] + b[1..];
    }
  }

  /** NbCommonBytes of the exclusive or is the length of the common prefix. */
  lemma {:induction false} CommonBytes(a: seq<byte>, b: seq<byte>)
    requires |a| == |b| && Xor(a, b) != 0
    ensures var n := NbCommonBytes(Xor(a, b));
      n < |a| && a[n] != b[n] && forall k :: 0 <= k < n ==> a[k] == b[k]
  {
    hide TrailingZeros, XorByte;
    XorByteZero(a[0], b[0]);
    if a[0] == b[0] {
      var d := Xor(a[1..], b[1..]);
      assert Xor(a, b) == 256 * d;
      CommonBytes(a[1..], b[1..]);
      TrailingZerosShift(d);
      var n := NbCommonBytes(Xor(a, b));
      assert n == 1 + NbCommonBytes(d);
      forall k | 0 <= k < n ensures a[k] == b[k] {
        if k > 0 {
          assert a[k] == a[1..][k - 1] && b[k] == b[1..][k - 1];
        }
      }
    } else {
      LowByteBitSet(Xor(a, b));
      TrailingZerosLow(Xor(a, b), 8);
    }
  }

  /** How far the bytes from `ip` on repeat the bytes from `ref` on, up to
      LASTLITERALS before the end: 8-, 4-, 2- and 1-byte comparisons. */
  method CountMatch(src: seq<byte>, ref0: nat, ip0: nat) returns (ip: nat)
    requires ref0 < ip0 <= |src| - LASTLITERALS
    ensures ip0 <= ip <= |src| - LASTLITERALS
    ensures forall k :: ip0 <= k < ip ==> src[k] == src[k - (ip0 - ref0)]
    ensures ip < |src| - LASTLITERALS ==> src[ip] != src[ip - (ip0 - ref0)]
  {
    hide Xor, NbCommonBytes;
    var ref;
    ref, ip := ref0, ip0;
    var matchlimit := |src| - LASTLITERALS;
    while ip < matchlimit - 7
      invariant ip0 <= ip <= matchlimit && ip - ref == ip0 - ref0
      invariant forall k :: ip0 <= k < ip ==> src[k] == src[k - (ip0 - ref0)]
    {
      var a, b := src[ref..ref + 8], src[ip..ip + 8];
      var diff := Xor(a, b);
      XorZero(a, b);
      if diff != 0 {
        CommonBytes(a, b);
        var n := NbCommonBytes(diff);
        forall k | ip <= k < ip + n ensures src[k] == src[k - (ip0 - ref0)] {
          assert a[k - ip] == b[k - ip];
        }
        ip := ip + n;
        return;
      }
      forall k | ip <= k < ip + 8 ensures src[k] == src[k - (ip0 - ref0)] {
        assert a[k - ip] == b[k - ip];
      }
      ref, ip := ref + 8, ip + 8;
    }
    ip := CountTail(src, ref, ip);
  }

  method CountTail(src: seq<byte>, ref0: nat, ip0: nat) returns (ip: nat)
    requires ref0 < ip0 && |src| - LASTLITERALS - 7 <= ip0 <= |src| - LASTLITERALS
    ensures ip0 <= ip <= |src| - LASTLITERALS
    ensures forall k :: ip0 <= k < ip ==> src[k] == src[k - (ip0 - ref0)]
    ensures ip < |src| - LASTLITERALS ==> src[ip] != src[ip - (ip0 - ref0)]
  {
    var ref;
    ref, ip := ref0, ip0;
    var matchlimit := |src| - LASTLITERALS;
    if ip < matchlimit - 3 {
      SameU32(src, ref, ip);
      if U32(src, ref) == U32(src, ip) {
        ref, ip := ref + 4, ip + 4;
      }
    }
    if ip < matchlimit - 1 {
      SameU16(src[ref], src[ref + 1], src[ip], src[ip + 1]);
      if U16(src[ref], src[ref + 1]) == U16(src[ip], src[ip + 1]) {
        ref, ip := ref + 2, ip + 2;
      }
    }
    if ip < matchlimit && src[ref] == src[ip] {
      ip := ip + 1;
    }
  }
}
