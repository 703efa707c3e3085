/** A reference decoder for call data: it reads the head, follows the offset words, and undoes the
    byte order of each word. It recovers every argument the generated code wrote, the signed types
    whose sign fill is wrong included. */
module Decoder {
  import opened Bytes
  import opened ContractTypes
  import opened Wrappers
  import opened Layout
  import Abi = SolidityAbi

  function Slice(data: seq<byte>, at: nat, n: nat): Option<seq<byte>> {
    if at + n <= |data| then Some(data[at..at + n]) else None
  }

  /** A word read as an unsigned integer. */
  function ReadWord(data: seq<byte>, at: nat): Option<nat> {
    if at + 32 <= |data| then Some(BeValue(data[at..at + 32])) else None
  }

  /** The memory form of an elementary value: the low bytes of a right-aligned word, reversed, or
      the first bytes of a left-aligned one. */
  function ReadElem(e: Elem, data: seq<byte>, at: nat): Option<seq<byte>>
    requires ValidElem(e)
  {
    if at + 32 > |data| then None
    else if RightAligned(e) then Some(Reverse(data[at + 32 - Size(e)..at + 32]))
    else Some(data[at..at + Size(e)])
  }

  function ReadElems(e: Elem, data: seq<byte>, at: nat, n: nat): Option<seq<seq<byte>>>
    requires ValidElem(e)
  {
    if n == 0 then Some([])
    else
      match (ReadElems(e, data, at, n - 1), ReadElem(e, data, at + 32 * (n - 1)))
      case (Some(es), Some(x)) => Some(es + [x])
      case _ => None
  }

  function ReadBlob(data: seq<byte>, at: nat): Option<seq<byte>> {
    match ReadWord(data, at)
    case Some(n) => Slice(data, at + 32, n)
    case None => None
  }

  /** `n` variable-length values whose inner offsets start at `base` and are relative to it. */
  function ReadBlobs(data: seq<byte>, base: nat, n: nat): Option<seq<seq<byte>>> {
    if n == 0 then Some([])
    else
      match (ReadBlobs(data, base, n - 1), ReadWord(data, base + 32 * (n - 1)))
      case (Some(fs), Some(offset)) =>
        (match ReadBlob(data, base + offset)
         case Some(f) => Some(fs + [f])
         case None => None)
      case _ => None
  }

  /** The length of a type's head. */
  function HeadOf(t: AbiType): nat {
    if t.FixedArray? then 32 * t.length else 32
  }

  /** The contents of a dynamic type, starting at `at`. */
  function ReadTail(t: AbiType, data: seq<byte>, at: nat): Option<Arg>
    requires ValidType(t) && DynamicType(t)
  {
    match t
    case Blob(isString) =>
      (match ReadBlob(data, at)
       case Some(bs) => Some(BlobArg(isString, bs))
       case None => None)
    case BlobFixedArray(isString, k) =>
      (match ReadBlobs(data, at, k)
       case Some(fs) => Some(BlobFixedArrayArg(isString, fs))
       case None => None)
    case BlobArray(isString) =>
      (match ReadWord(data, at)
       case Some(k) =>
         (match ReadBlobs(data, at + 32, k)
          case Some(fs) => Some(BlobArrayArg(isString, fs))
          case None => None)
       case None => None)
    case DynArray(e) =>
      (match ReadWord(data, at)
       case Some(k) =>
         (match ReadElems(e, data, at + 32, k)
          case Some(es) => Some(ArrayArg(e, es))
          case None => None)
       case None => None)
  }

  /** The argument of type `t` whose head is at `at`. */
  function ReadArg(t: AbiType, data: seq<byte>, at: nat): Option<Arg>
    requires ValidType(t)
  {
    match t
    case Elementary(e) =>
      (match ReadElem(e, data, at)
       case Some(x) => Some(ScalarArg(e, x))
       case None => None)
    case FixedArray(e, k) =>
      (match ReadElems(e, data, at, k)
       case Some(es) => Some(FixedArrayArg(e, es))
       case None => None)
    case _ =>
      (match ReadWord(data, at)
       case Some(offset) => ReadTail(t, data, offset)
       case None => None)
  }

  function HeadPosition(ts: seq<AbiType>, n: nat): nat
    requires n <= |ts|
  {
    if n == 0 then 0 else HeadPosition(ts, n - 1) + HeadOf(ts[n - 1])
  }

  /** The first `n` arguments. */
  function Decode(ts: seq<AbiType>, data: seq<byte>, n: nat): Option<seq<Arg>>
    requires n <= |ts| && forall i :: 0 <= i < |ts| ==> ValidType(ts[i])
  {
    if n == 0 then Some([])
    else
      match (Decode(ts, data, n - 1), ReadArg(ts[n - 1], data, HeadPosition(ts, n - 1)))
      case (Some(xs), Some(x)) => Some(xs + [x])
      case _ => None
  }

  // ----- Round trip

  /** `data` holds `s` at position `at`. */
  ghost predicate HoldsAt(data: seq<byte>, at: nat, s: seq<byte>) {
    at + |s| <= |data| && data[at..at + |s|] == s
  }

  lemma HoldsSub(data: seq<byte>, at: nat, s: seq<byte>, a: nat, b: nat)
    requires HoldsAt(data, at, s) && a <= b <= |s|
    ensures HoldsAt(data, at + a, s[a..b])
  {
    forall k | a <= k < b ensures data[at + k] == s[k] {
      assert data[at..at + |s|][k] == s[k];
    }
  }

  lemma HoldsSplit(data: seq<byte>, at: nat, s: seq<byte>, t: seq<byte>)
    requires HoldsAt(data, at, s + t)
    ensures HoldsAt(data, at, s) && HoldsAt(data, at + |s|, t)
  {
    HoldsSub(data, at, s + t, 0, |s|);
    HoldsSub(data, at, s + t, |s|, |s + t|);
    assert (s + t)[0..|s|] == s && (s + t)[|s|..|s + t|] == t;
  }

  lemma ReadWordAt(data: seq<byte>, at: nat, n: nat)
    requires n < U32_MODULUS && HoldsAt(data, at, Be(n, 32))
    ensures ReadWord(data, at) == Some(n)
  {
    hide Be, BeValue;
    BeWordOfU32(n);
  }

  lemma ReadElemAt(e: Elem, pos: Position, data: seq<byte>, at: nat, mem: seq<byte>)
    requires ValidMem(e, mem) && HoldsAt(data, at, Word(e, pos, mem))
    ensures ReadElem(e, data, at) == Some(mem)
  {
    var w := Word(e, pos, mem);
    if RightAligned(e) {
      HoldsSub(data, at, w, 32 - Size(e), 32);
      assert w[32 - Size(e)..32] == Reverse(mem);
      ReverseTwice(mem);
    } else {
      HoldsSub(data, at, w, 0, Size(e));
      assert w[0..Size(e)] == mem;
    }
  }

  /** Head and tail `i` of an assembled tuple, found at their positions in the data. */
  lemma FindPart(data: seq<byte>, at: nat, ps: seq<Abi.Part>, i: nat)
    requires HoldsAt(data, at, Abi.Assemble(ps)) && i < |ps|
    ensures HoldsAt(data, at + Abi.HeadSize(ps, i), Abi.Head(ps, i))
    ensures HoldsAt(data, at + Abi.TailAt(ps, i), Abi.Tail(ps[i]))
    ensures Abi.TailAt(ps, i) + |Abi.Tail(ps[i])| <= |Abi.Assemble(ps)|
  {
    hide Abi.Heads, Abi.Tails, Abi.Assemble, Abi.Head, Abi.Tail, Abi.HeadSize, Abi.TailSize, Abi.TailAt, HoldsAt;
    Abi.Tiling(ps, i);
    var s := Abi.Assemble(ps);
    HoldsSub(data, at, s, Abi.HeadSize(ps, i), Abi.HeadSize(ps, i + 1));
    HoldsSub(data, at, s, Abi.TailAt(ps, i), Abi.TailAt(ps, i + 1));
  }

  lemma {:induction false} ReadElemsAt(e: Elem, pos: Position, data: seq<byte>, at: nat, elems: seq<seq<byte>>, n: nat)
    requires AllValid(e, elems) && HoldsAt(data, at, Abi.Assemble(WordParts(e, pos, elems))) && n <= |elems|
    ensures ReadElems(e, data, at, n) == Some(elems[..n])
  {
    hide Abi.Assemble, Abi.Tail, Abi.TailAt, Abi.HeadSize, Word, ReadElem, HoldsAt, ValidElem;
    if n > 0 {
      ReadElemsAt(e, pos, data, at, elems, n - 1);
      var ps := WordParts(e, pos, elems);
      FindPart(data, at, ps, n - 1);
      WordPartsSize(ps, n - 1);
      ReadElemAt(e, pos, data, at + 32 * (n - 1), elems[n - 1]);
      assert elems[..n] == elems[..n - 1] + [elems[n - 1]];
    }
  }

  lemma ReadBlobAt(data: seq<byte>, at: nat, bs: seq<byte>)
    requires |bs| < U32_MODULUS && HoldsAt(data, at, BlobBytes(bs))
    ensures ReadBlob(data, at) == Some(bs)
  {
    hide Be, CeilWord;
    var padding := Fill(0, CeilWord(|bs|) - |bs|);
    HoldsSplit(data, at, Be(|bs|, 32), bs + padding);
    HoldsSplit(data, at + 32, bs, padding);
    ReadWordAt(data, at, |bs|);
  }

  lemma {:induction false} ReadBlobsAt(data: seq<byte>, at: nat, fields: seq<seq<byte>>, n: nat)
    requires HoldsAt(data, at, Abi.Assemble(BlobParts(fields))) && n <= |fields|
    requires |Abi.Assemble(BlobParts(fields))| < U32_MODULUS
    ensures ReadBlobs(data, at, n) == Some(fields[..n])
  {
    hide Abi.Assemble, BlobBytes, HoldsAt, Be, ReadBlob, ReadWord, Abi.TailAt, Abi.HeadSize, CeilWord;
    if n > 0 {
      ReadBlobsAt(data, at, fields, n - 1);
      var ps := BlobParts(fields);
      FindPart(data, at, ps, n - 1);
      BlobHeads(fields, n - 1);
      ReadWordAt(data, at + 32 * (n - 1), Abi.TailAt(ps, n - 1));
      BlobLonger(fields[n - 1]);
      ReadBlobAt(data, at + Abi.TailAt(ps, n - 1), fields[n - 1]);
      assert fields[..n] == fields[..n - 1] + [fields[n - 1]];
    }
  }

  lemma BlobLonger(bs: seq<byte>)
    ensures |bs| < |BlobBytes(bs)|
  {
  }

  /** A counted array starts with its length. */
  lemma ReadCount(data: seq<byte>, at: nat, n: nat, rest: seq<byte>)
    requires n < U32_MODULUS && HoldsAt(data, at, Be(n, 32) + rest)
    ensures ReadWord(data, at) == Some(n) && HoldsAt(data, at + 32, rest)
  {
    hide Be, HoldsAt, ReadWord;
    HoldsSplit(data, at, Be(n, 32), rest);
    ReadWordAt(data, at, n);
  }

  lemma CountBound(a: Arg)
    requires ValidArg(a)
    ensures a.ArrayArg? ==> |a.elems| <= |ArgBytes(a)|
    ensures a.BlobArrayArg? || a.BlobFixedArrayArg? ==>
      |a.fields| <= |Abi.Assemble(BlobParts(a.fields))| <= |ArgBytes(a)|
    ensures a.BlobArg? ==> |a.bs| <= |ArgBytes(a)|
  {
    hide Word, Be, CeilWord, Abi.Heads, Abi.Tails;
    match a
    case ArrayArg(e, elems) => WordPartsSize(WordParts(e, InArray, elems), |elems|);
    case BlobArrayArg(_, fields) => BlobHeads(fields, |fields|);
    case BlobFixedArrayArg(_, fields) => BlobHeads(fields, |fields|);
    case BlobArg(_, bs) => BlobLonger(bs);
    case _ =>
  }

  lemma ReadTailAt(data: seq<byte>, at: nat, a: Arg)
    requires ValidArg(a) && Dynamic(a) && |ArgBytes(a)| < U32_MODULUS && HoldsAt(data, at, ArgBytes(a))
    ensures ValidType(TypeOf(a)) && ReadTail(TypeOf(a), data, at) == Some(a)
  {
    hide Word, Be, HoldsAt, ReadWord, ReadBlob, ReadBlobs, ReadElems, Abi.Assemble, BlobBytes;
    CountBound(a);
    match a
    case ArrayArg(e, elems) =>
      ReadCount(data, at, |elems|, Abi.Assemble(WordParts(e, InArray, elems)));
      ReadElemsAt(e, InArray, data, at + 32, elems, |elems|);
      assert elems[..|elems|] == elems;
    case BlobArg(_, bs) =>
      ReadBlobAt(data, at, bs);
    case BlobArrayArg(_, fields) =>
      ReadCount(data, at, |fields|, Abi.Assemble(BlobParts(fields)));
      ReadBlobsAt(data, at + 32, fields, |fields|);
      assert fields[..|fields|] == fields;
    case BlobFixedArrayArg(_, fields) =>
      ReadBlobsAt(data, at, fields, |fields|);
      assert fields[..|fields|] == fields;
  }

  function TypesOf(args: seq<Arg>): (ts: seq<AbiType>)
    ensures |ts| == |args|
  {
    seq(|args|, i requires 0 <= i < |args| => TypeOf(args[i]))
  }

  lemma ValidTypes(args: seq<Arg>)
    requires ValidArgs(args)
    ensures forall i :: 0 <= i < |args| ==> ValidType(TypesOf(args)[i])
  {
    forall i | 0 <= i < |args| ensures ValidType(TypesOf(args)[i]) {
      assert ValidArg(args[i]);
    }
  }

  lemma HeadLength(a: Arg)
    requires ValidArg(a)
    ensures Abi.HeadLen(Abi.Part(Dynamic(a), ArgBytes(a))) == HeadOf(TypeOf(a))
  {
    hide Word, Abi.Heads, Abi.Tails, Be;
    if a.FixedArrayArg? {
      WordPartsSize(WordParts(a.e, InFixedArray, a.elems), |a.elems|);
    }
  }

  lemma {:induction false} HeadPositions(args: seq<Arg>, n: nat)
    requires ValidArgs(args) && n <= |args|
    ensures HeadPosition(TypesOf(args), n) == Abi.HeadSize(ArgParts(args), n)
  {
    hide ArgBytes, HeadOf;
    if n > 0 {
      HeadPositions(args, n - 1);
      HeadLength(args[n - 1]);
    }
  }

  lemma ReadFromHead(data: seq<byte>, at: nat, a: Arg, offset: nat)
    requires ValidArg(a) && |ArgBytes(a)| < U32_MODULUS
    requires !Dynamic(a) ==> HoldsAt(data, at, ArgBytes(a))
    requires Dynamic(a) ==>
      offset < U32_MODULUS && HoldsAt(data, at, Be(offset, 32)) && HoldsAt(data, offset, ArgBytes(a))
    ensures ValidType(TypeOf(a)) && ReadArg(TypeOf(a), data, at) == Some(a)
  {
    hide Word, Be, HoldsAt, ReadWord, ReadTail, ReadElems, ReadElem, Abi.Assemble, BlobBytes;
    match a
    case ScalarArg(e, mem) =>
      ReadElemAt(e, Single, data, at, mem);
    case FixedArrayArg(e, elems) =>
      ReadElemsAt(e, InFixedArray, data, at, elems, |elems|);
      assert elems[..|elems|] == elems;
    case _ =>
      ReadWordAt(data, at, offset);
      ReadTailAt(data, offset, a);
  }

  lemma ReadArgAt(args: seq<Arg>, i: nat)
    requires ValidArgs(args) && i < |args| && |CallArgs(args)| < U32_MODULUS
    ensures ValidType(TypeOf(args[i]))
    ensures ReadArg(TypeOf(args[i]), CallArgs(args), Abi.HeadSize(ArgParts(args), i)) == Some(args[i])
  {
    hide ArgBytes, Dynamic, Be, HoldsAt, ReadArg, Abi.Assemble, Abi.HeadSize, Abi.TailSize, Abi.TailAt;
    var data, ps := CallArgs(args), ArgParts(args);
    WholeHolds(data);
    FindPart(data, 0, ps, i);
    Abi.Tiling(ps, i);
    ReadFromHead(data, Abi.HeadSize(ps, i), args[i], Abi.TailAt(ps, i));
  }

  lemma WholeHolds(data: seq<byte>)
    ensures HoldsAt(data, 0, data)
  {
  }

  /** Decoding the bytes written for any arguments gives those arguments back. */
  lemma {:induction false} DecodeCallArgs(args: seq<Arg>, n: nat)
    requires ValidArgs(args) && |CallArgs(args)| < U32_MODULUS && n <= |args|
    ensures (forall i :: 0 <= i < |args| ==> ValidType(TypesOf(args)[i]))
    ensures Decode(TypesOf(args), CallArgs(args), n) == Some(args[..n])
  {
    hide CallArgs, ReadArg, Abi.HeadSize;
    ValidTypes(args);
    if n > 0 {
      DecodeCallArgs(args, n - 1);
      HeadPositions(args, n - 1);
      ReadArgAt(args, n - 1);
      assert args[..n] == args[..n - 1] + [args[n - 1]];
    }
  }

  /** For one contract function, different arguments never share their call data. */
  lemma CallArgsInjective(args: seq<Arg>, args': seq<Arg>)
    requires ValidArgs(args) && ValidArgs(args') && TypesOf(args) == TypesOf(args')
    requires |CallArgs(args)| < U32_MODULUS
    requires CallArgs(args) == CallArgs(args')
    ensures args == args'
  {
    hide CallArgs, Decode;
    DecodeCallArgs(args, |args|);
    DecodeCallArgs(args', |args'|);
    assert args[..|args|] == args && args'[..|args'|] == args';
  }
}