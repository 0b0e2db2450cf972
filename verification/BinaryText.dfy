/** Fixed-width binary strings: Util::parse_binary and Util::FormatBinary. */
module BinaryText {

  function Pow2(n: nat): (r: nat)
    ensures r >= 1
  {
    if n == 0 then 1 else 2 * Pow2(n - 1)
  }

  /** The low `width` bits of x, most significant first. */
  function Bits(x: nat, width: nat): (r: string)
    ensures |r| == width
  {
    if width == 0 then "" else Bits(x / 2, width - 1) + [if x % 2 == 1 then '1' else '0']
  }

  /** The number a string denotes; every character but '1' counts as a zero bit. */
  function Value(s: string): (r: nat) {
    if s == "" then 0
    else 2 * Value(s[..|s| - 1]) + (if s[|s| - 1] == '1' then 1 else 0)
  }

  predicate IsBinary(s: string) {
    forall k :: 0 <= k < |s| ==> s[k] == '0' || s[k] == '1'
  }

  lemma {:induction false} ValueRange(s: string)
    ensures Value(s) < Pow2(|s|)
  {
    if s != "" {
      ValueRange(s[..|s| - 1]);
    }
  }

  lemma {:induction false} BitsAreBinary(x: nat, width: nat)
    ensures IsBinary(Bits(x, width))
  {
    if width > 0 {
      BitsAreBinary(x / 2, width - 1);
    }
  }

  lemma {:induction false} BitsOfValue(s: string)
    requires IsBinary(s)
    ensures Bits(Value(s), |s|) == s
  {
    if s != "" {
      BitsOfValue(s[..|s| - 1]);
    }
  }

  lemma {:induction false} ValueOfBits(x: nat, width: nat)
    requires x < Pow2(width)
    ensures Value(Bits(x, width)) == x
  {
    if width > 0 {
      ValueOfBits(x / 2, width - 1);
      assert Bits(x, width)[..width - 1] == Bits(x / 2, width - 1);
    }
  }

  lemma DivNonNegative(x: int, p: int)
    requires x >= 0 && p >= 1
    ensures x / p >= 0
  {
  }

  lemma BitsJoin(x: nat, n: nat, k: nat, q: nat, h: nat, r: nat)
    requires k < n
    requires Bits(x / 2, n - 1) == Bits(q, k) + Bits(h, n - 1 - k)
    requires r / 2 == h && r % 2 == x % 2
    ensures Bits(x, n) == Bits(q, k) + Bits(r, n - k)
  {
  }

  /** Cutting a number's bits in two is dividing by a power of two. */
  lemma {:induction false} BitsSplit(x: nat, n: nat, k: nat)
    requires k <= n
    ensures x / Pow2(n - k) >= 0
    ensures Bits(x, n) == Bits(x / Pow2(n - k), k) + Bits(x % Pow2(n - k), n - k)
    decreases n - k
  {
    hide Bits;
    DivNonNegative(x, Pow2(n - k));
    if k == n {
      BitsNone(x % 1);
      assert Bits(x, n) == Bits(x, n) + "";
    } else {
      var p := Pow2(n - k - 1);
      DivNonNegative(x / 2, p);
      BitsSplit(x / 2, n - 1, k);
      DivModHalves(x, p);
      BitsJoin(x, n, k, x / 2 / p, x / 2 % p, x % (2 * p));
    }
  }

  /** The character at k is the bit of weight two to the width - 1 - k. */
  lemma BitAt(x: nat, width: nat, k: nat)
    requires k < width
    ensures Bits(x, width)[k] == if x / Pow2(width - 1 - k) % 2 == 1 then '1' else '0'
  {
    hide Pow2;
    BitsSplit(x, width, k + 1);
    var h := x / Pow2(width - 1 - k);
    assert Bits(h, k + 1)[k] == if h % 2 == 1 then '1' else '0';
  }

  lemma BitsNone(x: nat)
    ensures Bits(x, 0) == ""
  {
  }

  lemma DivModHalves(x: nat, p: nat)
    requires p >= 1
    ensures x / 2 / p == x / (2 * p)
    ensures x % (2 * p) / 2 == x / 2 % p
    ensures x % (2 * p) % 2 == x % 2
  {
    var q, r := x / (2 * p), x % (2 * p);
    assert x == 2 * p * q + r;
    var h := r / 2;
    assert x / 2 == p * q + h by {
      assert x == 2 * (p * q + h) + r % 2;
    }
    assert 0 <= h < p;
    DivModUnique(x / 2, p, q, h);
    assert x % 2 == r % 2 by {
      assert x == 2 * (p * q) + r;
    }
  }

  lemma MulAtLeast(p: int, d: int)
    requires p >= 1 && d >= 1
    ensures p * d >= p
  {
  }

  lemma DivModUnique(x: int, p: int, q: int, r: int)
    requires p >= 1 && x == p * q + r && 0 <= r < p
    ensures x / p == q && x % p == r
  {
    var q2, r2 := x / p, x % p;
    assert x == p * q2 + r2;
    if q > q2 {
      MulAtLeast(p, q - q2);
    } else if q < q2 {
      MulAtLeast(p, q2 - q);
    }
  }

  lemma Pow2Of32()
    ensures Pow2(32) == 0x1_0000_0000
  {
    assert Pow2(8) == 256;
    assert Pow2(16) == 0x1_0000;
    assert Pow2(24) == 0x100_0000;
  }

  lemma ParseStep(v: nat, d: nat, bit: nat)
    ensures (2 * v + d) * bit == v * (2 * bit) + d * bit
  {
  }

  lemma {:induction false} Pow2Add(a: nat, b: nat)
    ensures Pow2(a + b) == Pow2(a) * Pow2(b)
  {
    if a > 0 {
      Pow2Add(a - 1, b);
      assert 2 * (Pow2(a - 1) * Pow2(b)) == (2 * Pow2(a - 1)) * Pow2(b);
    }
  }

  lemma QuotientRange(x: nat, p: nat, q: nat)
    requires p >= 1 && x < p * q
    ensures x / p < q
  {
    if x / p >= q {
      MulMonotone(p, q, x / p);
    }
  }

  lemma MulMonotone(p: nat, a: nat, b: nat)
    requires a <= b
    ensures p * a <= p * b
  {
  }

  method ParseBinary(str: string) returns (val: nat)
    requires 1 <= |str| <= 32
    ensures val == Value(str) < 0x1_0000_0000
  {
    assert Value(str) < 0x1_0000_0000 by {
      ValueRange(str);
      Pow2Of32();
      Pow2Monotone(|str|, 32);
    }
    assert Value(str[..0]) == 0;
    hide Pow2, Value;
    val := 0;
    var bit := Pow2(|str| - 1);
    var i := 0;
    while i < |str|
      invariant 0 <= i <= |str|
      invariant bit == if i < |str| then Pow2(|str| - 1 - i) else 0
      invariant val == Value(str[..i]) * Pow2(|str| - i)
    {
      ParseTurn(str, i);
      if str[i] == '1' {
        val := val + bit;
      }
      bit := bit / 2;
      i := i + 1;
    }
    assert str[..|str|] == str;
    NoBits();
  }

  lemma NoBits()
    ensures Pow2(0) == 1
  {
  }

  /** One turn of the loop: the digit at i at its place, and the next place. */
  lemma ParseTurn(str: string, i: nat)
    requires i < |str|
    ensures Value(str[..i + 1]) * Pow2(|str| - 1 - i) ==
      Value(str[..i]) * Pow2(|str| - i) + (if str[i] == '1' then Pow2(|str| - 1 - i) else 0)
    ensures Pow2(|str| - 1 - i) / 2 == if i + 1 < |str| then Pow2(|str| - 2 - i) else 0
  {
    assert str[..i + 1][..i] == str[..i];
    ParseStep(Value(str[..i]), if str[i] == '1' then 1 else 0, Pow2(|str| - 1 - i));
  }

  lemma {:induction false} Pow2Monotone(a: nat, b: nat)
    requires a <= b
    ensures Pow2(a) <= Pow2(b)
  {
    if a < b {
      Pow2Monotone(a, b - 1);
    }
  }

  lemma LowBits(x: nat, n: nat)
    ensures Bits(x, n) == Bits(x % Pow2(n), n)
  {
    BitsSplit(x, n, 0);
  }

  lemma HeadBit(x: nat, n: nat)
    requires n >= 1
    ensures Bits(x, n) == [if x / Pow2(n - 1) % 2 == 1 then '1' else '0'] + Bits(x % Pow2(n - 1), n - 1)
  {
    BitsSplit(x, n, 1);
  }

  lemma SubtractModulus(x: nat, i: nat)
    requires i >= 1 && x / i % 2 == 1
    ensures x >= i && (x - i) % i == x % i
  {
    var q, r := x / i, x % i;
    MulAtLeast(i, q);
    assert x - i == i * (q - 1) + r;
    DivModUnique(x - i, i, q - 1, r);
  }

  /** `x & i` for a power of two i. */
  predicate TestBit(x: nat, i: nat)
    requires i >= 1
  {
    x / i % 2 == 1
  }

  lemma FormatStep(x: nat, m: nat)
    ensures var i := Pow2(m);
      && (TestBit(x, i) ==> x >= i)
      && Bits(x, m + 1) == (if TestBit(x, i) then "1" + Bits(x - i, m) else "0" + Bits(x, m))
  {
    var i := Pow2(m);
    HeadBit(x, m + 1);
    LowBits(x, m);
    if TestBit(x, i) {
      SubtractModulus(x, i);
      LowBits(x - i, m);
    }
  }

  method FormatBinary(x0: nat, width: nat) returns (str: string)
    requires 1 <= width <= 32
    ensures str == Bits(x0, width)
  {
    hide Bits, TestBit;
    var x := x0;
    var i := Pow2(width - 1);
    var w := 0;
    str := "";
    while w < width
      invariant 0 <= w <= width && 0 <= x
      invariant i == if w < width then Pow2(width - 1 - w) else 0
      invariant str + Bits(x, width - w) == Bits(x0, width)
    {
      FormatStep(x, width - 1 - w);
      if TestBit(x, i) {
        str := str + "1";
        x := x - i;
      } else {
        str := str + "0";
      }
      i := i / 2;
      w := w + 1;
    }
    assert str == str + Bits(x, 0);
  }
}
