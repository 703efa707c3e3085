/** The streaming encoder and decoder of the base64 utility. */
module Base64Codec {
  import opened Base64Tables
  import opened Base64Spec
  import Bytes

  /** BASE64_ENCODE_OUT_SIZE */
  function EncodeOutSize(n: nat): nat {
    (n + 2) / 3 * 4 + 1
  }

  /** BASE64_DECODE_OUT_SIZE */
  function DecodeOutSize(n: nat): nat {
    n / 4 * 3
  }

  // ----- The encoder's steps

  /** The characters written on reading `c` in state `s` with carry `l`. */
  function Step(s: nat, l: bv8, c: bv8): seq<sextet> {
    match s
    case 0 => [(c >> 2) & 0x3F]
    case 1 => [((l & 0x3) << 4) | ((c >> 4) & 0xF)]
    case _ => [((l & 0xF) << 2) | ((c >> 6) & 0x3), c & 0x3F]
  }

  /** The sextet written after the last octet. */
  function Flush(s: nat, l: bv8): seq<sextet> {
    match s
    case 0 => []
    case 1 => [(l & 0x3) << 4]
    case _ => [(l & 0xF) << 2]
  }

  /** The sextets written by the time `bs` has been read. */
  ghost function Written(bs: seq<bv8>): seq<sextet> {
    if |bs| == 0 then []
    else if |bs| == 1 then Group(bs[0], 0, 0)[..1]
    else if |bs| == 2 then Group(bs[0], bs[1], 0)[..2]
    else Group(bs[0], bs[1], bs[2]) + Written(bs[3..])
  }

  /** The groups of three octets, in the shifts and masks of the state machine. */
  lemma GroupBySteps(a: bv8, b: bv8, c: bv8)
    ensures Group(a, b, c) == [(a >> 2) & 0x3F, ((a & 0x3) << 4) | ((b >> 4) & 0xF),
                               ((b & 0xF) << 2) | ((c >> 6) & 0x3), c & 0x3F]
  {
  }

  lemma FlushBits(a: bv8, b: bv8)
    ensures Group(a, 0, 0)[1] == (a & 0x3) << 4
    ensures Group(a, b, 0)[2] == (b & 0xF) << 2
  {
  }

  ghost function Carry(bs: seq<bv8>): bv8 {
    if bs == [] then 0 else bs[|bs| - 1]
  }

  lemma StepOne(a: bv8)
    ensures Written([a]) == Step(0, 0, a)
  {
    hide Group;
    GroupBySteps(a, 0, 0);
  }

  lemma StepTwo(a: bv8, b: bv8)
    ensures Written([a, b]) == Step(0, 0, a) + Step(1, a, b)
  {
    hide Group;
    GroupBySteps(a, b, 0);
  }

  lemma StepThree(a: bv8, b: bv8, c: bv8)
    ensures Written([a, b, c]) == Step(0, 0, a) + Step(1, a, b) + Step(2, b, c)
  {
    hide Group;
    GroupBySteps(a, b, c);
    assert [a, b, c][3..] == [];
  }

  lemma WrittenStepShort(bs: seq<bv8>, c: bv8)
    requires |bs| < 3
    ensures Written(bs + [c]) == Written(bs) + Step(|bs|, Carry(bs), c)
  {
    hide Step, Written;
    EmptyWritten();
    if |bs| == 0 {
      assert bs == [] && bs + [c] == [c];
      StepOne(c);
    } else if |bs| == 1 {
      assert bs == [bs[0]] && bs + [c] == [bs[0], c];
      StepOne(bs[0]);
      StepTwo(bs[0], c);
    } else {
      assert bs == [bs[0], bs[1]] && bs + [c] == [bs[0], bs[1], c];
      StepTwo(bs[0], bs[1]);
      StepThree(bs[0], bs[1], c);
    }
  }

  /** Each step extends what has been written by exactly the new sextets. */
  lemma {:induction false} WrittenStep(bs: seq<bv8>, c: bv8)
    ensures Written(bs + [c]) == Written(bs) + Step(|bs| % 3, Carry(bs), c)
  {
    if |bs| < 3 {
      WrittenStepShort(bs, c);
    } else {
      hide Group;
      WrittenStep(bs[3..], c);
      assert (bs + [c])[3..] == bs[3..] + [c];
      SameStep(bs, c);
    }
  }

  lemma SameStep(bs: seq<bv8>, c: bv8)
    requires |bs| >= 3
    ensures Step(|bs| % 3, Carry(bs), c) == Step(|bs[3..]| % 3, Carry(bs[3..]), c)
  {
  }

  lemma FlushOne(a: bv8)
    ensures ToSextets([a]) == Written([a]) + Flush(1, a)
  {
    hide Group;
    FlushBits(a, 0);
  }

  lemma FlushTwo(a: bv8, b: bv8)
    ensures ToSextets([a, b]) == Written([a, b]) + Flush(2, b)
  {
    hide Group;
    FlushBits(a, b);
  }

  lemma WrittenFlushShort(bs: seq<bv8>)
    requires |bs| < 3
    ensures ToSextets(bs) == Written(bs) + Flush(|bs|, Carry(bs))
  {
    if |bs| == 1 {
      assert bs == [bs[0]];
      FlushOne(bs[0]);
    } else if |bs| == 2 {
      assert bs == [bs[0], bs[1]];
      FlushTwo(bs[0], bs[1]);
    }
  }

  /** After the last octet only the flushed sextet is missing from the RFC definition. */
  lemma {:induction false} WrittenFlush(bs: seq<bv8>)
    ensures ToSextets(bs) == Written(bs) + Flush(|bs| % 3, Carry(bs))
  {
    if |bs| < 3 {
      hide ToSextets, Written, Flush;
      WrittenFlushShort(bs);
    } else {
      hide Group;
      WrittenFlush(bs[3..]);
      SameFlush(bs);
    }
  }

  lemma SameFlush(bs: seq<bv8>)
    requires |bs| >= 3
    ensures Flush(|bs| % 3, Carry(bs)) == Flush(|bs[3..]| % 3, Carry(bs[3..]))
  {
  }

  /** The switch in the loop: writes one or two characters and moves to the next state. */
  method EncodeOctet(out: array<char>, at: nat, s: nat, l: bv8, c: bv8) returns (s': nat, j: nat)
    requires s < 3 && at + 2 <= out.Length
    modifies out
    ensures s' == (s + 1) % 3 && j == at + |Step(s, l, c)|
    ensures out[..j] == old(out[..at]) + Chars(Step(s, l, c)) && out[j..] == old(out[j..])
  {
    hide EncodeChar;
    j := at;
    match s {
      case 0 =>
        s' := 1;
        out[j] := Char((c >> 2) & 0x3F);
        j := j + 1;
      case 1 =>
        s' := 2;
        out[j] := Char(((l & 0x3) << 4) | ((c >> 4) & 0xF));
        j := j + 1;
      case _ =>
        s' := 0;
        out[j] := Char(((l & 0xF) << 2) | ((c >> 6) & 0x3));
        j := j + 1;
        out[j] := Char(c & 0x3F);
        j := j + 1;
    }
    assert out[at..j] == Chars(Step(s, l, c));
    assert out[..j] == out[..at] + out[at..j];
  }

  /** The switch after the loop: the carried bits and the padding. */
  method EncodeRest(out: array<char>, at: nat, s: nat, l: bv8) returns (j: nat)
    requires s < 3 && at + (if s == 0 then 0 else 4 - s) <= out.Length
    modifies out
    ensures j == at + if s == 0 then 0 else 4 - s
    ensures out[..j] == old(out[..at]) + (Chars(Flush(s, l)) + Pads((3 - s) % 3)) && out[j..] == old(out[j..])
  {
    hide EncodeChar;
    j := at;
    match s {
      case 1 =>
        out[j] := Char((l & 0x3) << 4);
        out[j + 1] := PAD;
        out[j + 2] := PAD;
        j := j + 3;
      case 2 =>
        out[j] := Char((l & 0xF) << 2);
        out[j + 1] := PAD;
        j := j + 2;
      case _ =>
    }
    assert out[at..j] == Chars(Flush(s, l)) + Pads((3 - s) % 3);
    assert out[..j] == out[..at] + out[at..j];
  }

  /** The cursor after `i` octets leaves room for the next step. */
  lemma EncodeRoom(i: nat, n: nat)
    requires i <= n
    ensures i < n ==> i / 3 * 4 + i % 3 + 2 < EncodeOutSize(n)
    ensures n / 3 * 4 + n % 3 + (if n % 3 == 0 then 0 else 4 - n % 3) + 1 == EncodeOutSize(n)
    ensures (i + 1) / 3 * 4 + (i + 1) % 3 == i / 3 * 4 + i % 3 + (if i % 3 < 2 then 1 else 2)
    ensures (i + 1) % 3 == (i % 3 + 1) % 3
  {
  }

  /** The loop of the encoder: everything but the flush, the padding and the NUL. */
  method EncodeOctets(input: array<bv8>, inlen: nat, out: array<char>) returns (s: nat, l: bv8, j: nat)
    requires inlen <= input.Length && EncodeOutSize(inlen) <= out.Length && input as object != out
    modifies out
    ensures s == inlen % 3 && l == Carry(input[..inlen]) && j == inlen / 3 * 4 + inlen % 3 <= out.Length
    ensures out[..j] == Chars(Written(input[..inlen])) && out[j..] == old(out[j..])
  {
    hide Written, Step, Chars, EncodeOutSize, Carry, Char;
    ghost var bs := input[..inlen];
    s, l, j := 0, 0, 0;
    var i := 0;
    EmptyWritten();
    NoChars();
    NextCarry([], 0);
    EncodeRoom(inlen, inlen);
    while i < inlen
      invariant i <= inlen && s == i % 3 && l == Carry(bs[..i])
      invariant j == i / 3 * 4 + i % 3 <= out.Length
      invariant out[..j] == Chars(Written(bs[..i])) && out[j..] == old(out[j..])
    {
      var c := input[i];
      assert bs[..i + 1] == bs[..i] + [c];
      WrittenStep(bs[..i], c);
      CharsAppend(Written(bs[..i]), Step(s, l, c));
      StepLength(s, l, c);
      NextCarry(bs[..i], c);
      EncodeRoom(i, inlen);
      s, j := EncodeOctet(out, j, s, l, c);
      l := c;
      i := i + 1;
    }
    assert bs[..inlen] == bs;
  }

  /** What the loop, the flush and the padding write is the encoding. */
  lemma WrittenText(bs: seq<bv8>)
    ensures var s := |bs| % 3;
            Chars(Written(bs)) + (Chars(Flush(s, Carry(bs))) + Pads((3 - s) % 3)) == Encode(bs)
  {
    hide Written, Flush, Chars, ToSextets, Carry, Pads;
    WrittenFlush(bs);
    var rest := Flush(|bs| % 3, Carry(bs));
    CharsAppend(Written(bs), rest);
    AppendTwice(Chars(Written(bs)), Chars(rest), Pads((3 - |bs| % 3) % 3));
  }

  lemma AppendTwice(a: seq<char>, b: seq<char>, c: seq<char>)
    ensures a + (b + c) == a + b + c
  {
    hide *;
  }

  /** BoAT_base64_encode: `input` of `inlen` octets, `out` with room for the text and a NUL. */
  method EncodeText(input: array<bv8>, inlen: nat, out: array<char>) returns (j: nat)
    requires inlen <= input.Length && EncodeOutSize(inlen) <= out.Length && input as object != out
    requires EncodeOutSize(inlen) < Bytes.U32_MODULUS
    modifies out
    ensures j + 1 == EncodeOutSize(inlen)
    ensures out[..j] == Encode(input[..inlen]) && out[j] == '\0'
    ensures out[j + 1..] == old(out[j + 1..])
  {
    hide Written, Flush, Chars, Encode, EncodeOutSize, Carry, Pads;
    ghost var bs, before := input[..inlen], out[..];
    EncodeRoom(inlen, inlen);
    var s, l, start := EncodeOctets(input, inlen, out);
    WrittenText(bs);
    j := EncodeRest(out, start, s, l);
    assert out[j..] == before[start..][j - start..] == before[j..];
    out[j] := '\0';
  }

  lemma NextCarry(bs: seq<bv8>, c: bv8)
    ensures Carry(bs + [c]) == c && Carry([]) == 0
  {
  }

  lemma StepLength(s: nat, l: bv8, c: bv8)
    ensures |Step(s, l, c)| == if s < 2 then 1 else 2
  {
  }

  lemma NoChars()
    ensures Chars([]) == []
  {
  }

  lemma EmptyWritten()
    ensures Written([]) == []
  {
  }

  lemma CharsAppend(xs: seq<sextet>, ys: seq<sextet>)
    ensures Chars(xs + ys) == Chars(xs) + Chars(ys)
  {
    hide Char;
  }

  // ----- The decoder's steps

  /** The partial octet left at `out[j]` after the sextet `x` at position `k` of its group. */
  function Partial(k: nat, x: sextet): bv8 {
    match k
    case 0 => (x << 2) & 0xFF
    case 1 => (x & 0xF) << 4
    case 2 => (x & 0x3) << 6
    case _ => 0
  }

  /** The bits that complete the partial octet. */
  function Completion(k: nat, x: sextet): bv8 {
    match k
    case 0 => 0
    case 1 => (x >> 4) & 0x3
    case 2 => (x >> 2) & 0xF
    case _ => x
  }

  lemma UngroupBySteps(w: sextet, x: sextet, y: sextet, z: sextet)
    ensures Ungroup(w, x, y, z) == [Partial(0, w) | Completion(1, x), Partial(1, x) | Completion(2, y),
                                    Partial(2, y) | Completion(3, z)]
  {
  }

  /** The octets completed when the sextet at position `k` arrives after `last`. */
  function Completed(k: nat, last: sextet, x: sextet): seq<bv8> {
    if k == 0 then [] else [Partial(k - 1, last) | Completion(k, x)]
  }

  ghost function Last(xs: seq<sextet>): sextet {
    if xs == [] then 0 else xs[|xs| - 1]
  }

  lemma OctetsTwo(w: sextet, x: sextet)
    ensures ToOctets([w, x]) == Completed(1, w, x)
  {
    hide Ungroup, Partial, Completion;
    UngroupBySteps(w, x, 0, 0);
  }

  lemma OctetsThree(w: sextet, x: sextet, y: sextet)
    ensures ToOctets([w, x, y]) == Completed(1, w, x) + Completed(2, x, y)
  {
    hide Ungroup, Partial, Completion;
    UngroupBySteps(w, x, y, 0);
  }

  lemma OctetsFour(w: sextet, x: sextet, y: sextet, z: sextet)
    ensures ToOctets([w, x, y, z]) == Completed(1, w, x) + Completed(2, x, y) + Completed(3, y, z)
  {
    hide Ungroup, Partial, Completion;
    UngroupBySteps(w, x, y, z);
    assert [w, x, y, z][4..] == [];
  }

  lemma ShortOctets(xs: seq<sextet>)
    requires |xs| < 2
    ensures ToOctets(xs) == []
  {
  }

  lemma NoneCompleted(last: sextet, x: sextet)
    ensures Completed(0, last, x) == []
  {
  }

  lemma OctetsStepShort(xs: seq<sextet>, x: sextet)
    requires |xs| < 4
    ensures ToOctets(xs + [x]) == ToOctets(xs) + Completed(|xs|, Last(xs), x)
  {
    hide ToOctets, Completed;
    if |xs| == 0 {
      ShortOctets(xs);
      ShortOctets(xs + [x]);
      NoneCompleted(Last(xs), x);
    } else if |xs| == 1 {
      ShortOctets(xs);
      assert xs + [x] == [xs[0], x];
      OctetsTwo(xs[0], x);
    } else if |xs| == 2 {
      assert xs == [xs[0], xs[1]] && xs + [x] == [xs[0], xs[1], x];
      OctetsTwo(xs[0], xs[1]);
      OctetsThree(xs[0], xs[1], x);
    } else {
      assert xs == [xs[0], xs[1], xs[2]] && xs + [x] == [xs[0], xs[1], xs[2], x];
      OctetsThree(xs[0], xs[1], xs[2]);
      OctetsFour(xs[0], xs[1], xs[2], x);
    }
  }

  /** Each sextet completes at most one octet, from the partial octet and its own high bits. */
  lemma {:induction false} OctetsStep(xs: seq<sextet>, x: sextet)
    ensures ToOctets(xs + [x]) == ToOctets(xs) + Completed(|xs| % 4, Last(xs), x)
  {
    if |xs| < 4 {
      OctetsStepShort(xs, x);
    } else {
      hide Ungroup, Completed;
      OctetsStep(xs[4..], x);
      assert (xs + [x])[4..] == xs[4..] + [x];
      SameCompletion(xs, x);
    }
  }

  lemma SameCompletion(xs: seq<sextet>, x: sextet)
    requires |xs| >= 4
    ensures Completed(|xs| % 4, Last(xs), x) == Completed(|xs[4..]| % 4, Last(xs[4..]), x)
  {
    hide Partial, Completion;
  }

  lemma {:induction false} OctetCount(xs: seq<sextet>)
    ensures |ToOctets(xs)| == 3 * |xs| / 4
  {
    hide Ungroup;
    if |xs| >= 4 {
      OctetCount(xs[4..]);
    }
  }

  /** A plain char as the C comparison sees it. */
  function CharValue(c: char, signedChar: bool): int {
    if signedChar && c as int >= 128 then c as int - 256 else c as int
  }

  /** The switch in the loop, for the sextet `c` at position `k` of its group: `|=` completes the
      octet that the previous sextet began at `out[at]`, and the next octet is begun. */
  method DecodeSextet(out: array<bv8>, at: nat, k: nat, c: sextet, ghost last: sextet) returns (j: nat)
    requires k < 4 && at + (if k == 1 || k == 2 then 2 else 1) <= out.Length
    requires k != 0 ==> out[at] == Partial(k - 1, last)
    modifies out
    ensures j == (if k == 0 then at else at + 1) && out[..j] == old(out[..at]) + Completed(k, last, c)
    ensures k < 3 ==> out[j] == Partial(k, c)
    ensures var end := if k < 3 then j + 1 else j; out[end..] == old(out[end..])
  {
    hide Partial, Completion;
    j := at;
    match k {
      case 0 =>
        out[j] := Partial(0, c);
      case 1 =>
        out[j] := out[j] | Completion(1, c);
        j := j + 1;
        out[j] := Partial(1, c);
      case 2 =>
        out[j] := out[j] | Completion(2, c);
        j := j + 1;
        out[j] := Partial(2, c);
      case _ =>
        out[j] := out[j] | Completion(3, c);
        j := j + 1;
    }
    assert out[..at] == old(out[..at]);
    if k == 0 {
      assert out[..j] == out[..at] + [];
    } else {
      assert out[..j] == out[..at] + [out[at]];
    }
  }

  /** What the loop has established after `i` characters. */
  ghost predicate DecodedSoFar(s: seq<char>, i: nat, out: array<bv8>, j: nat, limit: nat)
    requires i <= |s| && limit <= out.Length
    reads out
  {
    && AllInAlphabet(s[..i]) && (forall k :: 0 <= k < i ==> s[k] != PAD)
    && j == 3 * i / 4 <= limit && out[..j] == ToOctets(Sextets(s[..i]))
    && (i % 4 != 0 ==> j < limit && out[j] == Partial(i % 4 - 1, Last(Sextets(s[..i]))))
  }

  lemma NothingDecoded(s: seq<char>, out: array<bv8>, limit: nat)
    requires limit <= out.Length
    ensures DecodedSoFar(s, 0, out, 0, limit)
  {
    ShortOctets([]);
    assert s[..0] == [] && out[..0] == [];
  }

  /** The cursor after `i` characters leaves room for the octet being completed and the next. */
  lemma DecodeRoom(i: nat, n: nat)
    requires i < n && n % 4 == 0
    ensures 3 * i / 4 + (if i % 4 == 1 || i % 4 == 2 then 2 else 1) <= DecodeOutSize(n)
    ensures 3 * (i + 1) / 4 == (if i % 4 == 0 then 3 * i / 4 else 3 * i / 4 + 1)
    ensures (i + 1) % 4 == if i % 4 == 3 then 0 else i % 4 + 1
  {
    var q, r := i / 4, i % 4;
    ThreeQuarters(q, r);
    if r == 3 {
      ThreeQuarters(q + 1, 0);
    } else {
      ThreeQuarters(q, r + 1);
    }
    assert n / 4 >= q + 1;
  }

  lemma ThreeQuarters(q: nat, r: nat)
    requires r < 4
    ensures 3 * (4 * q + r) / 4 == 3 * q + (if r == 0 then 0 else r - 1)
  {
  }

  /** One character of the loop body, once it is known to be in the alphabet. */
  method DecodeNext(s: seq<char>, i: nat, out: array<bv8>, at: nat, limit: nat, c: sextet) returns (j: nat)
    requires i < |s| && |s| % 4 == 0 && limit == DecodeOutSize(|s|) <= out.Length
    requires DecodedSoFar(s, i, out, at, limit) && s[i] != PAD && InAlphabet(s[i]) && c == Sextet(s[i])
    modifies out
    ensures DecodedSoFar(s, i + 1, out, j, limit) && out[limit..] == old(out[limit..])
  {
    hide ToOctets, Partial, Completion, Completed, Sextet, InAlphabet, DecodeOutSize, AllInAlphabet, Sextets;
    ghost var xs := Sextets(s[..i]);
    NextSextet(s, i, c);
    OctetsStep(xs, c);
    DecodeRoom(i, |s|);
    j := DecodeSextet(out, at, i % 4, c, Last(xs));
    assert Last(xs + [c]) == c;
  }

  /** BoAT_base64_decode, for plain char signed or not. Everything before the first pad decides the
      result; every write, the look-ahead one included, stays below BASE64_DECODE_OUT_SIZE; and the
      result does not depend on what `out` held. */
  method DecodeText(input: array<char>, inlen: nat, out: array<bv8>, signedChar: bool) returns (n: nat)
    requires inlen <= input.Length && inlen < Bytes.U32_MODULUS
    requires DecodeOutSize(inlen) <= out.Length && input as object != out
    requires forall i :: 0 <= i < inlen ==> input[i] as int < 256
    modifies out
    ensures n <= out.Length && out[..n] == Decode(input[..inlen])
    ensures out[DecodeOutSize(inlen)..] == old(out[DecodeOutSize(inlen)..])
  {
    hide DecodeChar, ToOctets, FirstPad, DecodedSoFar;
    ghost var s := input[..inlen];
    var limit := DecodeOutSize(inlen);
    if inlen % 4 != 0 {
      return 0;
    }
    var i: nat, j: nat := 0, 0;
    NothingDecoded(s, out, limit);
    while i < inlen
      invariant i <= inlen && input[..inlen] == s
      invariant DecodedSoFar(s, i, out, j, limit)
      invariant out[limit..] == old(out[limit..])
    {
      if input[i] == PAD {
        break;
      }
      RangeTest(input[i], signedChar);
      var v := CharValue(input[i], signedChar);
      if v < '+' as int || v > 'z' as int {
        Rejected(s, i, out, j, limit);
        return 0;
      }
      var code := DecodeChar(input[i]);
      if code == INVALID {
        Rejected(s, i, out, j, limit);
        return 0;
      }
      j := DecodeNext(input[..inlen], i, out, j, limit, code as bv8);
      i := i + 1;
    }
    Finished(s, i, out, j, limit);
    n := j;
  }

  lemma Finished(s: seq<char>, i: nat, out: array<bv8>, j: nat, limit: nat)
    requires |s| % 4 == 0 && i <= |s| && limit <= out.Length && DecodedSoFar(s, i, out, j, limit)
    requires i < |s| ==> s[i] == PAD
    ensures j <= limit && out[..j] == Decode(s)
  {
    hide DecodeChar, ToOctets, FirstPad, Partial;
    FirstPadAt(s, i);
  }

  /** The range test rejects only characters outside the alphabet, whichever way char is signed. */
  lemma RangeTest(c: char, signedChar: bool)
    requires c as int < 256
    ensures var v := CharValue(c, signedChar);
            v < '+' as int || v > 'z' as int ==> !InAlphabet(c)
  {
    hide DecodeChar;
    AlphabetRange(c);
  }

  /** A character outside the alphabet before any pad makes the whole input unreadable. */
  lemma Rejected(s: seq<char>, i: nat, out: array<bv8>, j: nat, limit: nat)
    requires i < |s| && !InAlphabet(s[i]) && s[i] != PAD
    requires limit <= out.Length && DecodedSoFar(s, i, out, j, limit)
    ensures Decode(s) == []
  {
    hide InAlphabet, FirstPad, ToOctets, Sextets, Partial;
    assert FirstPad(s) > i;
    assert s[..FirstPad(s)][i] == s[i];
  }

  lemma NextSextet(s: seq<char>, i: nat, c: sextet)
    requires i < |s| && AllInAlphabet(s[..i]) && InAlphabet(s[i]) && c == Sextet(s[i])
    ensures AllInAlphabet(s[..i + 1]) && Sextets(s[..i + 1]) == Sextets(s[..i]) + [c]
  {
    hide InAlphabet, Sextet;
    assert s[..i + 1] == s[..i] + [s[i]];
  }
}
