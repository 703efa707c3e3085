/** Bytes, positional numerals and the rounding macro that the generated C code relies on. */
module Bytes {

  type byte = b: int | 0 <= b < 256

  const U32_MODULUS: nat := 0x1_0000_0000
  const U64_MODULUS: nat := 0x1_0000_0000_0000_0000

  /** Truncation to BUINT32. */
  function U32(x: nat): (r: nat)
    ensures r < U32_MODULUS && r <= x
    ensures r == x <==> x < U32_MODULUS
  {
    x % U32_MODULUS
  }

  function Fill(v: byte, n: nat): (s: seq<byte>)
    ensures |s| == n
  {
    seq(n, _ => v)
  }

  function Reverse(s: seq<byte>): (r: seq<byte>)
    ensures |r| == |s|
  {
    seq(|s|, i requires 0 <= i < |s| => s[|s| - 1 - i])
  }

  /** Swapping the bytes twice restores the value: a second call of a generated function
      on the same by-reference argument undoes what the first one did to it. */
  lemma ReverseTwice(s: seq<byte>)
    ensures Reverse(Reverse(s)) == s
  {
  }

  function Pow256(n: nat): (p: nat)
    ensures p >= 1
  {
    if n == 0 then 1 else 256 * Pow256(n - 1)
  }

  /** Value of a little-endian byte string (the in-memory form of an integer argument). */
  function LeValue(s: seq<byte>): nat {
    if s == [] then 0 else s[0] + 256 * LeValue(s[1..])
  }

  /** Value of a big-endian byte string. */
  function BeValue(s: seq<byte>): nat {
    if s == [] then 0 else 256 * BeValue(s[..|s| - 1]) + s[|s| - 1]
  }

  /** The low `len` bytes of `n`, most significant first. */
  function Be(n: nat, len: nat): (s: seq<byte>)
    ensures |s| == len
    decreases len
  {
    if len == 0 then [] else Be(n / 256, len - 1) + [n % 256]
  }

  lemma {:induction false} BeValueBound(s: seq<byte>)
    ensures BeValue(s) < Pow256(|s|)
  {
    if s != [] {
      BeValueBound(s[..|s| - 1]);
    }
  }

  lemma {:induction false} BeValueOfBe(n: nat, len: nat)
    requires n < Pow256(len)
    ensures BeValue(Be(n, len)) == n
    decreases len
  {
    if len > 0 {
      BeValueOfBe(n / 256, len - 1);
      assert Be(n, len)[..len - 1] == Be(n / 256, len - 1);
    }
  }

  lemma {:induction false} BeOfBeValue(s: seq<byte>)
    ensures Be(BeValue(s), |s|) == s
  {
    if s != [] {
      BeOfBeValue(s[..|s| - 1]);
      assert s == s[..|s| - 1] + [s[|s| - 1]];
    }
  }

  lemma {:induction false} BeValueReverse(s: seq<byte>)
    ensures BeValue(Reverse(s)) == LeValue(s)
  {
    if s != [] {
      BeValueReverse(s[1..]);
      assert Reverse(s)[..|s| - 1] == Reverse(s[1..]);
    }
  }

  /** Reversing the memory form of an integer gives its big-endian numeral. */
  lemma ReverseIsBigEndian(s: seq<byte>)
    ensures Reverse(s) == Be(LeValue(s), |s|)
    ensures LeValue(s) < Pow256(|s|)
  {
    BeValueReverse(s);
    BeOfBeValue(Reverse(s));
    BeValueBound(Reverse(s));
  }

  /** Leading zero bytes do not change the numeral. */
  lemma {:induction false} BeZeroExtend(n: nat, high: nat, low: nat)
    requires n < Pow256(low)
    ensures Be(n, high + low) == Fill(0, high) + Be(n, low)
    decreases low, high
  {
    if low > 0 {
      BeZeroExtend(n / 256, high, low - 1);
    } else if high > 0 {
      BeZeroExtend(0, high - 1, 0);
      assert Fill(0, high) == Fill(0, high - 1) + [0];
    }
  }

  lemma {:induction false} BeValueAppend(a: seq<byte>, b: seq<byte>)
    ensures BeValue(a + b) == BeValue(a) * Pow256(|b|) + BeValue(b)
    decreases |b|
  {
    if b == [] {
      assert a + b == a;
    } else {
      var b' := b[..|b| - 1];
      BeValueAppend(a, b');
      assert (a + b)[..|a + b| - 1] == a + b';
      MulAssoc256(BeValue(a), Pow256(|b'|));
    }
  }

  lemma MulAssoc256(x: nat, p: nat)
    ensures x * (256 * p) == 256 * (x * p)
  {
  }

  lemma {:induction false} FillValue(v: byte, n: nat)
    requires v == 0 || v == 0xFF
    ensures BeValue(Fill(v, n)) == if v == 0 then 0 else Pow256(n) - 1
  {
    if n > 0 {
      FillValue(v, n - 1);
      assert Fill(v, n)[..n - 1] == Fill(v, n - 1);
    }
  }

  lemma {:induction false} Pow256Add(a: nat, b: nat)
    ensures Pow256(a) * Pow256(b) == Pow256(a + b)
    decreases b
  {
    if b > 0 {
      Pow256Add(a, b - 1);
      MulAssoc256(Pow256(a), Pow256(b - 1));
    }
  }

  lemma Pow256Of4()
    ensures Pow256(4) == U32_MODULUS
  {
    assert Pow256(2) == 65536;
  }

  lemma Pow256Of8()
    ensures Pow256(8) == U64_MODULUS
  {
    Pow256Of4();
    Pow256Add(4, 4);
  }

  lemma SplitModulo(n: nat, p: nat)
    requires p >= 1
    ensures n % (256 * p) == 256 * (n / 256 % p) + n % 256
  {
    var q, r := n / 256 / p, n / 256 % p;
    assert n / 256 == q * p + r;
    var low := 256 * r + n % 256;
    MulAssoc256(q, p);
    assert n == q * (256 * p) + low;
    assert low < 256 * p;
    QuotientUnique(n, 256 * p, q, low);
  }

  lemma QuotientUnique(n: nat, m: nat, q: nat, r: nat)
    requires r < m && n == q * m + r
    ensures n % m == r
  {
    var k := n / m;
    assert n == k * m + n % m;
    if k < q {
      Distance(k, q, m);
    } else if q < k {
      Distance(q, k, m);
    }
  }

  lemma Distance(a: nat, b: nat, m: nat)
    requires a < b
    ensures a * m + m <= b * m
  {
    assert (b - a - 1) * m >= 0;
    assert b * m == a * m + m + (b - a - 1) * m;
  }

  /** The low bytes of a number are the number modulo the power. */
  lemma {:induction false} LowBytes(n: nat, len: nat)
    ensures BeValue(Be(n, len)) == n % Pow256(len)
    decreases len
  {
    if len > 0 {
      LowBytes(n / 256, len - 1);
      assert Be(n, len)[..len - 1] == Be(n / 256, len - 1);
      SplitModulo(n, Pow256(len - 1));
    }
  }

  /** The wrap-around of BUINT32 keeps exactly the low four bytes; size_t has eight. */
  lemma TruncationKeepsLowBytes(n: nat)
    ensures U32(n) == BeValue(Be(n, 4))
    ensures n % U64_MODULUS == BeValue(Be(n, 8))
  {
    hide Be, BeValue, Pow256;
    LowBytes(n, 4);
    LowBytes(n, 8);
    Pow256Of4();
    Pow256Of8();
  }

  /** A 32-bit quantity written into the low four bytes of a zeroed word is its uint256 numeral. */
  lemma BeWordOfU32(n: nat)
    requires n < U32_MODULUS
    ensures Be(n, 32) == Fill(0, 28) + Be(n, 4)
    ensures BeValue(Be(n, 32)) == n
  {
    Pow256Of4();
    BeZeroExtend(n, 28, 4);
    BeValueOfBe(n, 4);
    BeValueAppend(Fill(0, 28), Be(n, 4));
    FillValue(0, 28);
  }

  /** The least multiple of 32 that is at least `v` (see `CeilWordLeast`). */
  function CeilWord(v: nat): nat {
    (v + 31) / 32 * 32
  }

  lemma CeilWordLeast(v: nat, m: nat)
    ensures CeilWord(v) % 32 == 0 && CeilWord(v) >= v
    ensures m % 32 == 0 && m >= v ==> CeilWord(v) <= m
  {
    var q, k := (v + 31) / 32, m / 32;
    assert 32 * q <= v + 31 < 32 * q + 32;
    assert m == 32 * k + m % 32;
    if m % 32 == 0 && m >= v {
      assert k > q - 1;
    }
  }

  /** BOAT_ROUNDUP(v, 32) evaluated in an unsigned type of the given modulus:
      subtraction, addition and multiplication all wrap. */
  function RoundUp(v: nat, modulus: nat): nat
    requires modulus > 0
  {
    (((v - 1) % modulus) / 32 + 1) % modulus * 32 % modulus
  }

  predicate UnsignedWidth(modulus: nat) {
    modulus == U32_MODULUS || modulus == U64_MODULUS
  }

  lemma SmallModulo(x: nat, modulus: nat)
    requires x < modulus
    ensures x % modulus == x
  {
  }

  lemma CeilWordOfPositive(v: nat)
    requires v > 0
    ensures CeilWord(v) == ((v - 1) / 32 + 1) * 32
  {
    assert (v + 31) / 32 == (v - 1) / 32 + 1;
  }

  /** On a positive value only the last multiplication can wrap. */
  lemma RoundUpOfPositive(v: nat, modulus: nat)
    requires 0 < v < modulus && modulus >= 32
    ensures RoundUp(v, modulus) == CeilWord(v) % modulus
  {
    CeilWordOfPositive(v);
    SmallModulo(v - 1, modulus);
    assert (v - 1) / 32 + 1 <= v;
    SmallModulo((v - 1) / 32 + 1, modulus);
  }

  /** On 0 the subtraction wraps to the largest value, and the multiplication wraps back to 0. */
  lemma RoundUpOfZero(modulus: nat)
    requires UnsignedWidth(modulus)
    ensures RoundUp(0, modulus) == 0 == CeilWord(0)
  {
    assert (0 - 1) % modulus == modulus - 1;
  }

  lemma CeilWordWithin(v: nat, words: nat)
    requires v <= 32 * words
    ensures CeilWord(v) <= 32 * words
    ensures CeilWord(v) < 32 * words <==> v <= 32 * words - 32
  {
    var q := (v + 31) / 32;
    assert 32 * q <= v + 31 < 32 * q + 32;
  }

  /** In both unsigned widths the wrapped macro is the true round-up modulo the width, for
      every value of the type; it is the round-up itself exactly when that fits. */
  lemma RoundUpIsCeil(v: nat, modulus: nat)
    requires UnsignedWidth(modulus) && v < modulus
    ensures RoundUp(v, modulus) == CeilWord(v) % modulus
    ensures RoundUp(v, modulus) == CeilWord(v) <==> v <= modulus - 32
  {
    hide RoundUp, CeilWord;
    if v == 0 {
      RoundUpOfZero(modulus);
    } else {
      RoundUpOfPositive(v, modulus);
      CeilWordWithin(v, modulus / 32);
    }
    if CeilWord(v) < modulus {
      SmallModulo(CeilWord(v), modulus);
    }
  }
}
