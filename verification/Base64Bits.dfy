/** Base64 as a bit stream: an independent reading of the group definitions, and what decoding an
    arbitrary text amounts to. */
module Base64Bits {
  import opened Base64Tables
  import opened Base64Spec
  import opened Base64Codec

  predicate Bit(b: bv8, mask: bv8) {
    b & mask != 0
  }

  /** The bits of an octet, most significant first. */
  function Bits8(b: bv8): (s: seq<bool>)
    ensures |s| == 8
  {
    [Bit(b, 0x80), Bit(b, 0x40), Bit(b, 0x20), Bit(b, 0x10), Bit(b, 0x08), Bit(b, 0x04), Bit(b, 0x02), Bit(b, 0x01)]
  }

  /** The bits of a sextet, most significant first. */
  function Bits6(x: sextet): (s: seq<bool>)
    ensures |s| == 6
  {
    [Bit(x, 0x20), Bit(x, 0x10), Bit(x, 0x08), Bit(x, 0x04), Bit(x, 0x02), Bit(x, 0x01)]
  }

  function OctetBits(bs: seq<bv8>): (s: seq<bool>)
    ensures |s| == 8 * |bs|
  {
    if bs == [] then [] else Bits8(bs[0]) + OctetBits(bs[1..])
  }

  function SextetBits(xs: seq<sextet>): (s: seq<bool>)
    ensures |s| == 6 * |xs|
  {
    if xs == [] then [] else Bits6(xs[0]) + SextetBits(xs[1..])
  }

  /** A sextet is cut after its second or its fourth bit. */
  function High2(x: sextet): seq<bool> { [Bit(x, 0x20), Bit(x, 0x10)] }
  function Low4(x: sextet): seq<bool> { [Bit(x, 0x08), Bit(x, 0x04), Bit(x, 0x02), Bit(x, 0x01)] }
  function High4(x: sextet): seq<bool> { [Bit(x, 0x20), Bit(x, 0x10), Bit(x, 0x08), Bit(x, 0x04)] }
  function Low2(x: sextet): seq<bool> { [Bit(x, 0x02), Bit(x, 0x01)] }

  lemma Cuts(x: sextet)
    ensures Bits6(x) == High2(x) + Low4(x)
    ensures Bits6(x) == High4(x) + Low2(x)
  {
    hide Bit;
  }

  lemma FirstOctet(w: sextet, x: sextet)
    ensures var b := Partial(0, w) | Completion(1, x);
            && Bit(b, 0x80) == Bit(w, 0x20) && Bit(b, 0x40) == Bit(w, 0x10)
            && Bit(b, 0x20) == Bit(w, 0x08) && Bit(b, 0x10) == Bit(w, 0x04)
            && Bit(b, 0x08) == Bit(w, 0x02) && Bit(b, 0x04) == Bit(w, 0x01)
            && Bit(b, 0x02) == Bit(x, 0x20) && Bit(b, 0x01) == Bit(x, 0x10)
  {
  }

  lemma FirstOctetBits(w: sextet, x: sextet)
    ensures Bits8(Partial(0, w) | Completion(1, x)) == Bits6(w) + High2(x)
  {
    hide Bit, Partial, Completion;
    FirstOctet(w, x);
  }

  lemma SecondOctet(x: sextet, y: sextet)
    ensures var b := Partial(1, x) | Completion(2, y);
            && Bit(b, 0x80) == Bit(x, 0x08) && Bit(b, 0x40) == Bit(x, 0x04)
            && Bit(b, 0x20) == Bit(x, 0x02) && Bit(b, 0x10) == Bit(x, 0x01)
            && Bit(b, 0x08) == Bit(y, 0x20) && Bit(b, 0x04) == Bit(y, 0x10)
            && Bit(b, 0x02) == Bit(y, 0x08) && Bit(b, 0x01) == Bit(y, 0x04)
  {
  }

  lemma SecondOctetBits(x: sextet, y: sextet)
    ensures Bits8(Partial(1, x) | Completion(2, y)) == Low4(x) + High4(y)
  {
    hide Bit, Partial, Completion;
    SecondOctet(x, y);
  }

  lemma ThirdOctet(y: sextet, z: sextet)
    ensures var b := Partial(2, y) | Completion(3, z);
            && Bit(b, 0x80) == Bit(y, 0x02) && Bit(b, 0x40) == Bit(y, 0x01)
            && Bit(b, 0x20) == Bit(z, 0x20) && Bit(b, 0x10) == Bit(z, 0x10)
            && Bit(b, 0x08) == Bit(z, 0x08) && Bit(b, 0x04) == Bit(z, 0x04)
            && Bit(b, 0x02) == Bit(z, 0x02) && Bit(b, 0x01) == Bit(z, 0x01)
  {
  }

  lemma TwoAndSix(a: bool, b: bool, c: bool, d: bool, e: bool, f: bool, g: bool, h: bool)
    ensures [a, b, c, d, e, f, g, h] == [a, b] + [c, d, e, f, g, h]
  {
    var whole, low := [a, b, c, d, e, f, g, h], [c, d, e, f, g, h];
    assert whole[2..] == low;
    assert whole[..2] == [a, b];
  }

  lemma ThirdOctetBits(y: sextet, z: sextet)
    ensures Bits8(Partial(2, y) | Completion(3, z)) == Low2(y) + Bits6(z)
  {
    hide Bit, Partial, Completion;
    ThirdOctet(y, z);
    TwoAndSix(Bit(y, 0x02), Bit(y, 0x01),
              Bit(z, 0x20), Bit(z, 0x10), Bit(z, 0x08), Bit(z, 0x04), Bit(z, 0x02), Bit(z, 0x01));
  }

  lemma Recut(w: seq<bool>, a: seq<bool>, b: seq<bool>, c: seq<bool>, d: seq<bool>, z: seq<bool>)
    ensures (w + a) + (b + c) + (d + z) == w + (a + b) + (c + d) + z
  {
  }

  lemma UngroupBits(w: sextet, x: sextet, y: sextet, z: sextet)
    ensures var g := Ungroup(w, x, y, z);
            Bits8(g[0]) + Bits8(g[1]) + Bits8(g[2]) == Bits6(w) + Bits6(x) + Bits6(y) + Bits6(z)
  {
    hide Bits6, Bits8, Ungroup, Partial, Completion, High2, High4, Low2, Low4;
    UngroupBySteps(w, x, y, z);
    FirstOctetBits(w, x);
    SecondOctetBits(x, y);
    ThirdOctetBits(y, z);
    Cuts(x);
    Cuts(y);
    Recut(Bits6(w), High2(x), Low4(x), High4(y), Low2(y), Bits6(z));
  }

  lemma Flatten(a: seq<bool>, b: seq<bool>, c: seq<bool>, d: seq<bool>, e: seq<bool>)
    ensures a + (b + (c + (d + e))) == a + b + c + d + e
  {
  }

  lemma FirstSextet(xs: seq<sextet>)
    requires xs != []
    ensures SextetBits(xs) == Bits6(xs[0]) + SextetBits(xs[1..])
  {
  }

  lemma FourSextets(xs: seq<sextet>)
    requires |xs| >= 4
    ensures SextetBits(xs) == Bits6(xs[0]) + Bits6(xs[1]) + Bits6(xs[2]) + Bits6(xs[3]) + SextetBits(xs[4..])
  {
    hide Bits6, SextetBits;
    var r1, r2, r3, r4 := xs[1..], xs[2..], xs[3..], xs[4..];
    assert r1[1..] == r2 && r2[1..] == r3 && r3[1..] == r4;
    FirstSextet(xs);
    FirstSextet(r1);
    FirstSextet(r2);
    FirstSextet(r3);
    Flatten(Bits6(xs[0]), Bits6(xs[1]), Bits6(xs[2]), Bits6(xs[3]), SextetBits(r4));
  }

  lemma ThreeOctets(g: seq<bv8>, rest: seq<bv8>)
    requires |g| == 3
    ensures OctetBits(g + rest) == Bits8(g[0]) + Bits8(g[1]) + Bits8(g[2]) + OctetBits(rest)
  {
    hide Bits8;
    var bs := g + rest;
    var r1, r2 := bs[1..], bs[2..];
    assert r1[1..] == r2 && r2[1..] == rest;
    assert OctetBits(r2) == Bits8(g[2]) + OctetBits(rest);
    assert OctetBits(r1) == Bits8(g[1]) + OctetBits(r2);
  }

  /** The octets decoded are the leading bits of the sextet stream, cut at the last whole octet. */
  lemma {:induction false} OctetsAreLeadingBits(xs: seq<sextet>)
    ensures |ToOctets(xs)| == 6 * |xs| / 8
    ensures OctetBits(ToOctets(xs)) == SextetBits(xs)[..8 * |ToOctets(xs)|]
  {
    hide Bits6, Bits8, Ungroup, OctetBits, SextetBits, ToOctets;
    OctetCount(xs);
    if |xs| < 4 {
      ShortLeadingBits(xs);
    } else {
      var g, rest := Ungroup(xs[0], xs[1], xs[2], xs[3]), ToOctets(xs[4..]);
      OctetsAreLeadingBits(xs[4..]);
      OctetCount(xs[4..]);
      FirstGroup(xs);
      UngroupBits(xs[0], xs[1], xs[2], xs[3]);
      FourSextets(xs);
      ThreeOctets(g, rest);
      TakeAfter(Bits6(xs[0]) + Bits6(xs[1]) + Bits6(xs[2]) + Bits6(xs[3]), SextetBits(xs[4..]), 8 * |rest|);
    }
  }

  lemma FirstGroup(xs: seq<sextet>)
    requires |xs| >= 4
    ensures ToOctets(xs) == Ungroup(xs[0], xs[1], xs[2], xs[3]) + ToOctets(xs[4..])
  {
    hide Ungroup;
  }

  lemma TakeAfter(a: seq<bool>, b: seq<bool>, n: nat)
    requires n <= |b|
    ensures (a + b)[..|a| + n] == a + b[..n]
  {
  }

  /** A short group behaves as one completed with zero sextets. */
  lemma ShortLeadingBits(xs: seq<sextet>)
    requires |xs| < 4
    ensures |ToOctets(xs)| == 6 * |xs| / 8
    ensures OctetBits(ToOctets(xs)) == SextetBits(xs)[..8 * |ToOctets(xs)|]
  {
    hide Bits6, Bits8, Ungroup, OctetBits, SextetBits, ToOctets;
    if |xs| < 2 {
      ShortOctets(xs);
      assert OctetBits([]) == [] && SextetBits(xs)[..0] == [];
    } else if |xs| == 2 {
      TwoLeadingBits(xs[0], xs[1]);
      assert xs == [xs[0], xs[1]];
    } else {
      ThreeLeadingBits(xs[0], xs[1], xs[2]);
      assert xs == [xs[0], xs[1], xs[2]];
    }
  }

  lemma TwoLeadingBits(w: sextet, x: sextet)
    ensures ToOctets([w, x]) == Ungroup(w, x, 0, 0)[..1]
    ensures OctetBits(ToOctets([w, x])) == SextetBits([w, x])[..8]
  {
    hide Bits6, Bits8, Ungroup;
    var g := Ungroup(w, x, 0, 0);
    UngroupBits(w, x, 0, 0);
    assert SextetBits([w, x]) == Bits6(w) + (Bits6(x) + []);
    assert OctetBits([g[0]]) == Bits8(g[0]) + [];
    var all := Bits8(g[0]) + Bits8(g[1]) + Bits8(g[2]);
    assert all[..8] == Bits8(g[0]);
    assert (Bits6(w) + Bits6(x) + Bits6(0) + Bits6(0))[..8] == (Bits6(w) + (Bits6(x) + []))[..8];
  }

  lemma ThreeLeadingBits(w: sextet, x: sextet, y: sextet)
    ensures ToOctets([w, x, y]) == Ungroup(w, x, y, 0)[..2]
    ensures OctetBits(ToOctets([w, x, y])) == SextetBits([w, x, y])[..16]
  {
    hide Bits6, Bits8, Ungroup;
    var g := Ungroup(w, x, y, 0);
    UngroupBits(w, x, y, 0);
    assert [w, x, y][1..] == [x, y] && [x, y][1..] == [y] && [y][1..] == [];
    assert SextetBits([y]) == Bits6(y) + [];
    assert SextetBits([x, y]) == Bits6(x) + SextetBits([y]);
    assert SextetBits([w, x, y]) == Bits6(w) + SextetBits([x, y]);
    assert OctetBits([g[0], g[1]]) == Bits8(g[0]) + (Bits8(g[1]) + []);
    var all := Bits8(g[0]) + Bits8(g[1]) + Bits8(g[2]);
    assert all[..16] == Bits8(g[0]) + (Bits8(g[1]) + []);
    PrefixOfMore(Bits6(w), Bits6(x), Bits6(y), Bits6(0));
  }

  lemma PrefixOfMore(a: seq<bool>, b: seq<bool>, c: seq<bool>, d: seq<bool>)
    requires |a| + |b| + |c| >= 16
    ensures (a + b + c + d)[..16] == (a + (b + (c + [])))[..16]
  {
  }

  // ----- The encoder's side

  function ZeroBits(n: nat): (s: seq<bool>)
    ensures |s| == n
  {
    seq(n, _ => false)
  }

  /** The zero bits that complete the last sextet. */
  function Slack(n: nat): nat {
    if n % 3 == 1 then 4 else if n % 3 == 2 then 2 else 0
  }

  lemma GroupBits(a: bv8, b: bv8, c: bv8)
    ensures var g := Group(a, b, c);
            Bits6(g[0]) + Bits6(g[1]) + Bits6(g[2]) + Bits6(g[3]) == Bits8(a) + Bits8(b) + Bits8(c)
  {
    hide Bits6, Bits8, Group, Ungroup;
    var g := Group(a, b, c);
    UngroupGroup(a, b, c);
    UngroupBits(g[0], g[1], g[2], g[3]);
  }

  lemma ZeroOctet()
    ensures Bits8(0) == ZeroBits(8)
  {
  }

  lemma OneOctet(a: bv8)
    ensures SextetBits(ToSextets([a])) == OctetBits([a]) + ZeroBits(4)
  {
    hide Bits6, Bits8, Group;
    var g := Group(a, 0, 0);
    GroupBits(a, 0, 0);
    ZeroOctet();
    TwoSextets(g[0], g[1]);
    assert ToSextets([a]) == [g[0], g[1]];
    assert OctetBits([a]) == Bits8(a) + [];
    assert (Bits6(g[0]) + Bits6(g[1]) + Bits6(g[2]) + Bits6(g[3]))[..12] == Bits6(g[0]) + Bits6(g[1]);
    assert (Bits8(a) + ZeroBits(8) + ZeroBits(8))[..12] == Bits8(a) + ZeroBits(4);
  }

  lemma TwoOctets(a: bv8, b: bv8)
    ensures SextetBits(ToSextets([a, b])) == OctetBits([a, b]) + ZeroBits(2)
  {
    hide Bits6, Bits8, Group;
    var g := Group(a, b, 0);
    GroupBits(a, b, 0);
    ZeroOctet();
    ThreeSextets(g[0], g[1], g[2]);
    assert ToSextets([a, b]) == [g[0], g[1], g[2]];
    assert OctetBits([b]) == Bits8(b) + [] && [a, b][1..] == [b];
    assert OctetBits([a, b]) == Bits8(a) + Bits8(b);
    assert (Bits6(g[0]) + Bits6(g[1]) + Bits6(g[2]) + Bits6(g[3]))[..18] == Bits6(g[0]) + Bits6(g[1]) + Bits6(g[2]);
    assert (Bits8(a) + Bits8(b) + ZeroBits(8))[..18] == Bits8(a) + Bits8(b) + ZeroBits(2);
  }

  lemma TwoSextets(w: sextet, x: sextet)
    ensures SextetBits([w, x]) == Bits6(w) + Bits6(x)
  {
    hide Bits6;
    assert [w, x][1..] == [x] && SextetBits([x]) == Bits6(x) + [];
  }

  lemma ThreeSextets(w: sextet, x: sextet, y: sextet)
    ensures SextetBits([w, x, y]) == Bits6(w) + Bits6(x) + Bits6(y)
  {
    hide Bits6;
    TwoSextets(x, y);
    assert [w, x, y][1..] == [x, y];
  }

  /** The sextets encoded are the bits of the octets, completed with zero bits. */
  lemma {:induction false} SextetsAreBits(bs: seq<bv8>)
    ensures SextetBits(ToSextets(bs)) == OctetBits(bs) + ZeroBits(Slack(|bs|))
  {
    hide Bits6, Bits8, Group, OctetBits, SextetBits, ToSextets, ZeroBits;
    if |bs| == 0 {
      NoOctets(bs);
    } else if |bs| == 1 {
      assert bs == [bs[0]];
      OneOctet(bs[0]);
    } else if |bs| == 2 {
      assert bs == [bs[0], bs[1]];
      TwoOctets(bs[0], bs[1]);
    } else {
      var g, rest := Group(bs[0], bs[1], bs[2]), ToSextets(bs[3..]);
      SextetsAreBits(bs[3..]);
      FirstOctets(bs);
      assert (g + rest)[4..] == rest;
      FourSextets(g + rest);
      GroupBits(bs[0], bs[1], bs[2]);
      ThreeOctets([bs[0], bs[1], bs[2]], bs[3..]);
      assert bs == [bs[0], bs[1], bs[2]] + bs[3..];
      Regroup(Bits8(bs[0]) + Bits8(bs[1]) + Bits8(bs[2]), OctetBits(bs[3..]), ZeroBits(Slack(|bs|)));
    }
  }

  lemma Regroup(a: seq<bool>, b: seq<bool>, c: seq<bool>)
    ensures a + (b + c) == a + b + c
  {
  }

  lemma NoOctets(bs: seq<bv8>)
    requires bs == []
    ensures SextetBits(ToSextets(bs)) == OctetBits(bs) + ZeroBits(0)
  {
  }

  lemma FirstOctets(bs: seq<bv8>)
    requires |bs| >= 3
    ensures ToSextets(bs) == Group(bs[0], bs[1], bs[2]) + ToSextets(bs[3..])
  {
    hide Group;
  }

  // ----- Decoding any text

  /** A text can be read when its length is a multiple of four and everything before the first pad
      is in the alphabet. */
  predicate Readable(s: seq<char>) {
    |s| % 4 == 0 && AllInAlphabet(s[..FirstPad(s)])
  }

  /** Decoding any text: the leading octets of the bit stream before the first pad, 3p/4 of them,
      or nothing if the text cannot be read. */
  lemma DecodeCharacterised(s: seq<char>)
    ensures !Readable(s) ==> Decode(s) == []
    ensures Readable(s) ==>
      var p := FirstPad(s);
      && |Decode(s)| == 3 * p / 4
      && OctetBits(Decode(s)) == SextetBits(Sextets(s[..p]))[..8 * (3 * p / 4)]
  {
    hide OctetBits, SextetBits, ToOctets, FirstPad, AllInAlphabet, Sextets;
    if Readable(s) {
      OctetsAreLeadingBits(Sextets(s[..FirstPad(s)]));
    }
  }

  /** The decoded size fits BASE64_DECODE_OUT_SIZE, and a readable text without an equals sign
      needs all of it. */
  lemma DecodeSize(s: seq<char>)
    ensures |Decode(s)| <= DecodeOutSize(|s|)
    ensures Readable(s) && '=' !in s ==> |Decode(s)| == DecodeOutSize(|s|)
  {
    hide Decode, AllInAlphabet, FirstPad;
    DecodeCharacterised(s);
    if Readable(s) {
      var p, q := FirstPad(s), |s| / 4;
      assert 3 * p <= 3 * |s| == 4 * (3 * q);
      assert '=' !in s ==> p == |s|;
    }
  }

  /** What follows the first pad does not matter, as long as the length stays a multiple of four. */
  lemma PaddingIgnored(s: seq<char>, t: seq<char>)
    requires |s| % 4 == |t| % 4 && FirstPad(s) == FirstPad(t) && s[..FirstPad(s)] == t[..FirstPad(t)]
    ensures Decode(s) == Decode(t)
  {
  }
}
