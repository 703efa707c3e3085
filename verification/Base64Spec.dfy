/** Base64 as defined in RFC 4648: 24-bit groups (section 4), padding (section 3.2) and canonical
    encodings (section 3.5). */
module Base64Spec {
  import opened Base64Tables

  type sextet = x: bv8 | x < 64

  // ----- Groups

  /** Three octets are concatenated to 24 bits and read as four sextets. */
  function Group(a: bv8, b: bv8, c: bv8): (g: seq<sextet>)
    ensures |g| == 4
  {
    var n := (a as bv24 << 16) | (b as bv24 << 8) | c as bv24;
    [((n >> 18) & 0x3F) as bv8, ((n >> 12) & 0x3F) as bv8, ((n >> 6) & 0x3F) as bv8, (n & 0x3F) as bv8]
  }

  /** Four sextets are concatenated to 24 bits and read as three octets. */
  function Ungroup(w: sextet, x: sextet, y: sextet, z: sextet): (g: seq<bv8>)
    ensures |g| == 3
  {
    var n := (w as bv24 << 18) | (x as bv24 << 12) | (y as bv24 << 6) | z as bv24;
    [((n >> 16) & 0xFF) as bv8, ((n >> 8) & 0xFF) as bv8, (n & 0xFF) as bv8]
  }

  /** The sextets of an octet string; a short last group is completed with zero bits. */
  function ToSextets(bs: seq<bv8>): seq<sextet> {
    if |bs| == 0 then []
    else if |bs| == 1 then Group(bs[0], 0, 0)[..2]
    else if |bs| == 2 then Group(bs[0], bs[1], 0)[..3]
    else Group(bs[0], bs[1], bs[2]) + ToSextets(bs[3..])
  }

  /** The whole octets of a sextet string. */
  function ToOctets(xs: seq<sextet>): seq<bv8> {
    if |xs| < 2 then []
    else if |xs| == 2 then Ungroup(xs[0], xs[1], 0, 0)[..1]
    else if |xs| == 3 then Ungroup(xs[0], xs[1], xs[2], 0)[..2]
    else Ungroup(xs[0], xs[1], xs[2], xs[3]) + ToOctets(xs[4..])
  }

  // ----- Text

  function Char(x: sextet): char {
    EncodeChar(x as int)
  }

  function Chars(xs: seq<sextet>): (s: seq<char>)
    ensures |s| == |xs|
  {
    seq(|xs|, i requires 0 <= i < |xs| => Char(xs[i]))
  }

  function Pads(n: nat): (s: seq<char>)
    ensures |s| == n
  {
    seq(n, _ => PAD)
  }

  function Encode(bs: seq<bv8>): seq<char> {
    Chars(ToSextets(bs)) + Pads((3 - |bs| % 3) % 3)
  }

  /** Position of the first pad character, or the length. */
  function FirstPad(s: seq<char>): (p: nat)
    ensures p <= |s| && (p < |s| ==> s[p] == PAD)
    ensures forall i :: 0 <= i < p ==> s[i] != PAD
  {
    if s == [] || s[0] == PAD then 0 else 1 + FirstPad(s[1..])
  }

  predicate AllInAlphabet(s: seq<char>) {
    forall i :: 0 <= i < |s| ==> InAlphabet(s[i])
  }

  function Sextet(c: char): sextet
    requires InAlphabet(c)
  {
    DecodeChar(c) as bv8
  }

  function Sextets(s: seq<char>): (xs: seq<sextet>)
    requires AllInAlphabet(s)
    ensures |xs| == |s|
  {
    seq(|s|, i requires 0 <= i < |s| => Sextet(s[i]))
  }

  /** Lenient decoding: what follows the first pad is ignored, whatever it is; an input that
      cannot be read gives no octets. */
  function Decode(s: seq<char>): seq<bv8> {
    var p := FirstPad(s);
    if |s| % 4 == 0 && AllInAlphabet(s[..p]) then ToOctets(Sextets(s[..p])) else []
  }

  /** Only trailing padding, and zero in the bits that carry no data. */
  predicate Canonical(s: seq<char>) {
    var p := FirstPad(s);
    && |s| % 4 == 0 && |s| - p <= 2
    && AllInAlphabet(s[..p]) && s[p..] == Pads(|s| - p)
    && ZeroTail(Sextets(s[..p]))
  }

  predicate ZeroTail(xs: seq<sextet>) {
    && (|xs| % 4 == 2 ==> xs[|xs| - 1] & 0xF == 0)
    && (|xs| % 4 == 3 ==> xs[|xs| - 1] & 0x3 == 0)
  }

  // ----- Groups undo each other

  lemma UngroupGroup(a: bv8, b: bv8, c: bv8)
    ensures var g := Group(a, b, c); Ungroup(g[0], g[1], g[2], g[3]) == [a, b, c]
  {
  }

  lemma GroupUngroup(w: sextet, x: sextet, y: sextet, z: sextet)
    ensures var g := Ungroup(w, x, y, z); Group(g[0], g[1], g[2]) == [w, x, y, z]
  {
  }

  lemma ShortGroups(a: bv8, b: bv8)
    ensures var g := Group(a, 0, 0); Ungroup(g[0], g[1], 0, 0)[..1] == [a] && g[1] & 0xF == 0
    ensures var g := Group(a, b, 0); Ungroup(g[0], g[1], g[2], 0)[..2] == [a, b] && g[2] & 0x3 == 0
  {
  }

  lemma ShortUngroups(w: sextet, x: sextet, y: sextet)
    ensures x & 0xF == 0 ==> Group(Ungroup(w, x, 0, 0)[0], 0, 0)[..2] == [w, x]
    ensures y & 0x3 == 0 ==> var g := Ungroup(w, x, y, 0); Group(g[0], g[1], 0)[..3] == [w, x, y]
  {
  }

  // ----- Strings of groups

  lemma {:induction false} OctetsOfSextets(bs: seq<bv8>)
    ensures ToOctets(ToSextets(bs)) == bs
  {
    hide Group, Ungroup;
    if |bs| == 0 {
    } else if |bs| < 3 {
      ShortGroups(bs[0], if |bs| == 2 then bs[1] else 0);
      assert bs == if |bs| == 1 then [bs[0]] else [bs[0], bs[1]];
    } else {
      var g, rest := Group(bs[0], bs[1], bs[2]), ToSextets(bs[3..]);
      OctetsOfSextets(bs[3..]);
      UngroupGroup(bs[0], bs[1], bs[2]);
      assert (g + rest)[4..] == rest;
      assert bs == [bs[0], bs[1], bs[2]] + bs[3..];
    }
  }

  lemma {:induction false} SextetsShape(bs: seq<bv8>)
    ensures |ToSextets(bs)| == (4 * |bs| + 2) / 3
    ensures ZeroTail(ToSextets(bs))
  {
    hide Group;
    if |bs| == 0 {
    } else if |bs| < 3 {
      ShortGroups(bs[0], if |bs| == 2 then bs[1] else 0);
    } else {
      SextetsShape(bs[3..]);
      ZeroTailAppend(Group(bs[0], bs[1], bs[2]), ToSextets(bs[3..]));
    }
  }

  lemma ZeroTailAppend(g: seq<sextet>, rest: seq<sextet>)
    requires |g| == 4 && ZeroTail(rest)
    ensures ZeroTail(g + rest)
  {
  }

  lemma LastSextets(xs: seq<sextet>)
    requires 2 <= |xs| <= 3 && ZeroTail(xs)
    ensures ToSextets(ToOctets(xs)) == xs && |ToOctets(xs)| == |xs| - 1
  {
    hide Group, Ungroup;
    ShortUngroups(xs[0], xs[1], if |xs| == 3 then xs[2] else 0);
    assert xs == if |xs| == 2 then [xs[0], xs[1]] else [xs[0], xs[1], xs[2]];
  }

  lemma {:induction false} SextetsOfOctets(xs: seq<sextet>)
    requires |xs| % 4 != 1 && ZeroTail(xs)
    ensures ToSextets(ToOctets(xs)) == xs
    ensures |ToOctets(xs)| == 3 * |xs| / 4
  {
    hide Group, Ungroup;
    if |xs| == 0 {
    } else if |xs| < 4 {
      LastSextets(xs);
    } else {
      var g, rest := Ungroup(xs[0], xs[1], xs[2], xs[3]), ToOctets(xs[4..]);
      SextetsOfOctets(xs[4..]);
      GroupUngroup(xs[0], xs[1], xs[2], xs[3]);
      assert (g + rest)[3..] == rest;
      assert xs == [xs[0], xs[1], xs[2], xs[3]] + xs[4..];
    }
  }

  lemma SextetOfChar(x: sextet)
    ensures InAlphabet(Char(x)) && Sextet(Char(x)) == x && Char(x) != PAD
  {
    hide EncodeChar, DecodeChar;
    DecodeEncodeChar(x as int);
  }

  lemma SextetsOfChars(xs: seq<sextet>)
    ensures AllInAlphabet(Chars(xs)) && Sextets(Chars(xs)) == xs
    ensures forall i :: 0 <= i < |xs| ==> Chars(xs)[i] != PAD
  {
    hide Char, Sextet, InAlphabet;
    forall i | 0 <= i < |xs| ensures InAlphabet(Chars(xs)[i]) && Sextet(Chars(xs)[i]) == xs[i] && Chars(xs)[i] != PAD {
      SextetOfChar(xs[i]);
    }
  }

  lemma CharOfSextet(c: char)
    requires InAlphabet(c)
    ensures Char(Sextet(c)) == c
  {
    hide EncodeChar, DecodeChar;
    EncodeDecodeChar(c);
    ThroughByte(DecodeChar(c));
  }

  lemma ThroughByte(n: nat)
    requires n < 64
    ensures (n as bv8) as int == n
  {
    hide *;
    if n < 32 {
      LowThroughByte(n);
    } else {
      HighThroughByte(n);
    }
  }

  lemma LowThroughByte(n: nat)
    requires n < 32
    ensures (n as bv8) as int == n
  {
    hide *;
  }

  lemma HighThroughByte(n: nat)
    requires 32 <= n < 64
    ensures (n as bv8) as int == n
  {
    hide *;
  }

  lemma CharsOfSextets(s: seq<char>)
    requires AllInAlphabet(s)
    ensures Chars(Sextets(s)) == s
  {
    hide Char, Sextet, InAlphabet;
    forall i | 0 <= i < |s| ensures Chars(Sextets(s))[i] == s[i] {
      CharOfSextet(s[i]);
    }
  }

  lemma FirstPadAt(s: seq<char>, p: nat)
    requires p <= |s| && (p < |s| ==> s[p] == PAD) && forall i :: 0 <= i < p ==> s[i] != PAD
    ensures FirstPad(s) == p
  {
    hide EncodeChar, DecodeChar;
  }

  /** Data and padding together are the last complete group of four. */
  lemma EncodeCounts(n: nat)
    ensures (4 * n + 2) / 3 + (3 - n % 3) % 3 == (n + 2) / 3 * 4
    ensures ((n + 2) / 3 * 4) % 4 == 0 && (3 - n % 3) % 3 <= 2
  {
    var q, r := n / 3, n % 3;
    assert n == 3 * q + r;
  }

  lemma EncodeParts(bs: seq<bv8>)
    ensures |Chars(ToSextets(bs))| == (4 * |bs| + 2) / 3
    ensures |Encode(bs)| == (|bs| + 2) / 3 * 4
  {
    hide Chars, ToSextets;
    SextetsShape(bs);
    EncodeCounts(|bs|);
  }

  /** Padding follows the data and completes the last group of four. */
  lemma EncodeShape(bs: seq<bv8>)
    ensures var xs := ToSextets(bs);
            && FirstPad(Encode(bs)) == |xs| && Encode(bs)[..|xs|] == Chars(xs)
            && Encode(bs)[|xs|..] == Pads(|Encode(bs)| - |xs|)
            && |Encode(bs)| == (|bs| + 2) / 3 * 4
  {
    hide Chars, ToSextets, InAlphabet, Sextets, AllInAlphabet;
    var xs := ToSextets(bs);
    EncodeParts(bs);
    SextetsOfChars(xs);
    FirstPadAt(Encode(bs), |xs|);
  }

  /** The padding, in characters: two equals signs after one last octet, one after two, none after
      a complete group, and no equals sign before them. */
  lemma EncodePadding(bs: seq<bv8>)
    ensures var s, p := Encode(bs), |ToSextets(bs)|;
            && p <= |s| && '=' !in s[..p]
            && s[p..] == if |bs| % 3 == 1 then "==" else if |bs| % 3 == 2 then "=" else ""
  {
    hide Chars, ToSextets, InAlphabet, Sextets, AllInAlphabet, Encode, FirstPad, Pads;
    SextetsOfChars(ToSextets(bs));
    EncodeShape(bs);
    EncodeParts(bs);
    EncodeCounts(|bs|);
    FewPads();
  }

  lemma FewPads()
    ensures Pads(0) == "" && Pads(1) == "=" && Pads(2) == "=="
  {
  }

  /** Decoding reads up to the first equals sign. */
  lemma DecodeStops(t: seq<char>, rest: seq<char>)
    requires '=' !in t && (rest == [] || rest[0] == '=')
    ensures Decode(t + rest)
         == if (|t| + |rest|) % 4 == 0 && AllInAlphabet(t) then ToOctets(Sextets(t)) else []
  {
    hide ToOctets, Sextets, AllInAlphabet, FirstPad;
    var s := t + rest;
    FirstPadAt(s, |t|);
    assert s[..|t|] == t;
  }

  /** Decoding an encoding gives the octets back. */
  lemma DecodeEncode(bs: seq<bv8>)
    ensures Decode(Encode(bs)) == bs
  {
    hide ToSextets, ToOctets, Encode, AllInAlphabet, Chars, Sextets, FirstPad, Pads;
    EncodeShape(bs);
    EncodeCounts(|bs|);
    SextetsOfChars(ToSextets(bs));
    OctetsOfSextets(bs);
  }

  lemma EncodeIsCanonical(bs: seq<bv8>)
    ensures Canonical(Encode(bs))
  {
    hide Encode, ToSextets, ZeroTail, FirstPad, AllInAlphabet, Sextets, Chars, Pads;
    var xs := ToSextets(bs);
    EncodeShape(bs);
    SextetsOfChars(xs);
    SextetsShape(bs);
    EncodeCounts(|bs|);
  }

  /** The padding of a complete text is what its octet count calls for. */
  lemma PadCount(p: nat, length: nat)
    requires length % 4 == 0 && p <= length <= p + 2
    ensures p % 4 != 1 && (3 - (3 * p / 4) % 3) % 3 == length - p
  {
    var q := length / 4;
    assert 3 * p / 4 == 3 * q - (length - p);
  }

  lemma EncodeDecodeCanonical(s: seq<char>)
    requires Canonical(s)
    ensures Encode(Decode(s)) == s
  {
    hide ToSextets, ToOctets, AllInAlphabet, Chars, Sextets, ZeroTail, FirstPad, Pads;
    var p := FirstPad(s);
    var xs := Sextets(s[..p]);
    PadCount(p, |s|);
    SextetsOfOctets(xs);
    CharsOfSextets(s[..p]);
    assert s == s[..p] + s[p..];
  }

  /** Re-encoding a decoded text gives it back exactly when the text is canonical. */
  lemma EncodeDecode(s: seq<char>)
    ensures Encode(Decode(s)) == s <==> Canonical(s)
  {
    hide EncodeChar, DecodeChar;
    EncodeIsCanonical(Decode(s));
    if Canonical(s) {
      EncodeDecodeCanonical(s);
    }
  }

  // ----- Test vectors of section 10 of RFC 4648

  lemma FirstThree(rest: seq<bv8>)
    ensures ToSextets([0x66, 0x6F, 0x6F] + rest) == [25, 38, 61, 47] + ToSextets(rest)
  {
    assert Group(0x66, 0x6F, 0x6F) == [25, 38, 61, 47];
    assert ([0x66, 0x6F, 0x6F] + rest)[3..] == rest;
  }

  lemma LastOctets()
    ensures ToSextets([0x62]) == [24, 32]
    ensures ToSextets([0x62, 0x61]) == [24, 38, 4]
    ensures ToSextets([0x62, 0x61, 0x72]) == [24, 38, 5, 50]
  {
    assert Group(0x62, 0, 0)[..2] == [24, 32];
    assert Group(0x62, 0x61, 0)[..3] == [24, 38, 4];
    assert Group(0x62, 0x61, 0x72) == [24, 38, 5, 50];
  }

  lemma CharsUsed()
    ensures Char(25) == 'Z' && Char(38) == 'm' && Char(61) == '9' && Char(47) == 'v' && Char(24) == 'Y'
    ensures Char(32) == 'g' && Char(4) == 'E' && Char(5) == 'F' && Char(50) == 'y'
  {
    hide EncodeChar;
    EncodeCharIsRfc(25);
    EncodeCharIsRfc(38);
    EncodeCharIsRfc(61);
    EncodeCharIsRfc(47);
    EncodeCharIsRfc(24);
    EncodeCharIsRfc(32);
    EncodeCharIsRfc(4);
    EncodeCharIsRfc(5);
    EncodeCharIsRfc(50);
  }

  /** "foob", "fooba" and "foobar" are encoded as the RFC says. */
  lemma TestVectors()
    ensures Encode([0x66, 0x6F, 0x6F] + [0x62]) == "Zm9vYg=="
    ensures Encode([0x66, 0x6F, 0x6F] + [0x62, 0x61]) == "Zm9vYmE="
    ensures Encode([0x66, 0x6F, 0x6F] + [0x62, 0x61, 0x72]) == "Zm9vYmFy"
  {
    hide ToSextets, Char;
    LastOctets();
    CharsUsed();
    FirstThree([0x62]);
    FirstThree([0x62, 0x61]);
    FirstThree([0x62, 0x61, 0x72]);
    assert Chars([25, 38, 61, 47] + [24, 32]) == "Zm9vYg";
    assert Chars([25, 38, 61, 47] + [24, 38, 4]) == "Zm9vYmE";
  }
}
