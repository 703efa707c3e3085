/** The statements of a generated function body that fill the call-data buffer. */
module Emitted {
  import opened Bytes
  import opened ContractTypes
  import opened Layout
  import opened Params
  import opened Sizing
  import opened CMemory
  import Abi = SolidityAbi

  /** The memset value chosen by the emitted test: `value >= 0` on a native integer reads its
      sign bit, on an array type it compares an address and always holds. */
  method ChooseFill(e: Elem, pos: Position, mem: seq<byte>) returns (f: byte)
    requires ValidMem(e, mem)
    ensures f == FillByte(e, pos, mem)
  {
    f := 0;
    if SignTested(e, pos) {
      var nonNegative := !Native(e) || mem[|mem| - 1] < 128;
      if !nonNegative {
        f := 0xFF;
      }
    }
  }

  lemma SingleByte(s: seq<byte>)
    requires |s| <= 1
    ensures Reverse(s) == s
  {
  }

  lemma AlignedIsWord(e: Elem, pos: Position, mem: seq<byte>, src: seq<byte>)
    requires ValidMem(e, mem)
    requires src == if Swapped(e, pos) then Reverse(mem) else mem
    ensures Aligned(FillByte(e, pos, mem), src, RightAligned(e)) == Word(e, pos, mem)
  {
    if !Swapped(e, pos) && RightAligned(e) {
      SingleByte(mem);
    }
  }

  /** An elementary parameter in the head. */
  method PutScalar(buf: array<byte>, at: nat, e: Elem, arg: array<byte>) returns (next: nat, ok: bool)
    requires ValidElem(e) && arg.Length == Size(e) && arg != buf && at <= buf.Length
    modifies buf, if SwappedInPlace(e) then {arg} else {}
    ensures ok <==> at + 32 <= buf.Length
    ensures ok ==> next == at + 32 && buf[..next] == old(buf[..at]) + Word(e, Single, old(arg[..]))
    ensures arg[..] == if AddressOrWide(e) then Reverse(old(arg[..])) else old(arg[..])
  {
    ghost var mem := arg[..];
    var size := Size(e);
    var variable := arg;
    if Native(e) {
      variable := new byte[size](i requires 0 <= i < arg.Length reads arg => arg[i]);
      assert variable[..] == mem;
    }
    var f := ChooseFill(e, Single, variable[..]);
    if Swapped(e, Single) {
      ChangeEndian(variable, size);
    }
    assert variable[..] == variable[..size];
    AlignedIsWord(e, Single, mem, variable[..]);
    next, ok := PutWord(buf, at, f, variable[..], RightAligned(e));
  }

  lemma ElementAt(s: seq<byte>, size: nat, n: nat, i: nat)
    requires n * size <= |s| && i < n
    ensures i * size + size <= |s|
    ensures Elements(s, size, n)[i] == s[i * size..i * size + size]
    decreases n
  {
    assert n * size == (n - 1) * size + size;
    if i < n - 1 {
      ElementAt(s, size, n - 1, i);
    }
  }

  /** The element loop shared by fixed arrays in the head and dynamic arrays in the tail: each
      element is first copied to the scratch buffer, so the caller's array is not changed and
      what an earlier element left in the scratch buffer does not matter. */
  method PutElements(buf: array<byte>, at: nat, scratch: array<byte>,
                     e: Elem, pos: Position, n: nat, mem: array<byte>)
      returns (next: nat, ok: bool)
    requires ValidElem(e) && n * Size(e) <= mem.Length && at <= buf.Length
    requires scratch.Length == 32 && buf != scratch && mem != buf && mem != scratch
    modifies buf, scratch
    ensures ok <==> at + 32 * n <= buf.Length
    ensures AllValid(e, Elements(mem[..], Size(e), n))
    ensures ok ==> next == at + 32 * n
    ensures ok ==> buf[..next] == old(buf[..at]) + Abi.Assemble(WordParts(e, pos, Elements(mem[..], Size(e), n)))
  {
    hide Elements, WordParts, Word, Abi.Heads, Abi.Head, Abi.Assemble;
    var size := Size(e);
    ghost var s, before := mem[..], buf[..at];
    ghost var ps := ElementParts(s, e, pos, n);
    next, ok := at, true;
    NoHeads(before, ps);
    for i := 0 to n
      invariant ok && next == at + 32 * i <= buf.Length
      invariant buf[..next] == before + Abi.Heads(ps, i)
    {
      ElementAt(s, size, n, i);
      assert mem[i * size..i * size + size] == s[i * size..i * size + size];
      next, ok := PutElement(buf, next, scratch, e, pos, mem[i * size..i * size + size]);
      if !ok {
        return;
      }
      AppendElement(before, s, e, pos, n, i);
    }
    OnlyHeads(ps);
  }

  /** The words of a C array, as components of a static tuple. */
  ghost function ElementParts(s: seq<byte>, e: Elem, pos: Position, n: nat): (ps: seq<Abi.Part>)
    requires ValidElem(e) && n * Size(e) <= |s|
    ensures |ps| == n && StaticWords(ps)
  {
    WordParts(e, pos, Elements(s, Size(e), n))
  }

  lemma NoHeads(before: seq<byte>, ps: seq<Abi.Part>)
    ensures before + Abi.Heads(ps, 0) == before && Abi.HeadSize(ps, 0) == 0
  {
  }

  lemma OnlyHeads(ps: seq<Abi.Part>)
    requires StaticWords(ps)
    ensures Abi.Assemble(ps) == Abi.Heads(ps, |ps|)
    ensures |Abi.Assemble(ps)| == 32 * |ps|
  {
    Abi.StaticTails(ps, |ps|);
    WordPartsSize(ps, |ps|);
  }

  lemma AppendElement(before: seq<byte>, s: seq<byte>, e: Elem, pos: Position, n: nat, i: nat)
    requires ValidElem(e) && n * Size(e) <= |s| && i < n
    ensures i * Size(e) + Size(e) <= |s|
    ensures var ps, mem := ElementParts(s, e, pos, n), s[i * Size(e)..i * Size(e) + Size(e)];
            before + Abi.Heads(ps, i) + Word(e, pos, mem) == before + Abi.Heads(ps, i + 1)
  {
    hide Elements, Word, Abi.Heads;
    ElementAt(s, Size(e), n, i);
    AppendHead(before, ElementParts(s, e, pos, n), i);
  }

  lemma AppendHead(before: seq<byte>, ps: seq<Abi.Part>, i: nat)
    requires i < |ps|
    ensures before + Abi.Heads(ps, i) + Abi.Head(ps, i) == before + Abi.Heads(ps, i + 1)
  {
  }

  method PutElement(buf: array<byte>, at: nat, scratch: array<byte>, e: Elem, pos: Position, elem: seq<byte>)
      returns (next: nat, ok: bool)
    requires ValidMem(e, elem) && at <= buf.Length
    requires scratch.Length == 32 && buf != scratch
    modifies buf, scratch
    ensures ok <==> at + 32 <= buf.Length
    ensures ok ==> next == at + 32 && buf[..next] == old(buf[..at]) + Word(e, pos, elem)
  {
    var size := Size(e);
    ok := Memcpy(scratch, 0, elem);
    assert scratch[..size] == elem;
    var f := ChooseFill(e, pos, elem);
    if Swapped(e, pos) {
      ChangeEndian(scratch, size);
    }
    AlignedIsWord(e, pos, elem, scratch[..size]);
    next, ok := PutWord(buf, at, f, scratch[..size], RightAligned(e));
  }

  /** The tail of a dynamic array of elementary values. */
  method PutArray(buf: array<byte>, at: nat, scratch: array<byte>, e: Elem, n: nat, mem: array<byte>)
      returns (next: nat, ok: bool)
    requires ValidElem(e) && n * Size(e) <= mem.Length && n < U32_MODULUS && at <= buf.Length
    requires scratch.Length == 32 && buf != scratch && mem != buf && mem != scratch
    modifies buf, scratch
    ensures ok <==> at + 32 + 32 * n <= buf.Length
    ensures ok ==> next == at + 32 + 32 * n
    ensures ok ==> buf[..next] == old(buf[..at]) + ArgBytes(ArrayArg(e, Elements(mem[..], Size(e), n)))
  {
    hide Elements, WordParts, AllValid, Be, Abi.Assemble;
    ghost var before := buf[..at];
    next, ok := PutU32(buf, at, n);
    if ok {
      next, ok := PutElements(buf, next, scratch, e, InArray, n, mem);
      if ok {
        ghost var words := Abi.Assemble(WordParts(e, InArray, Elements(mem[..], Size(e), n)));
        assert buf[..next] == before + (Be(n, 32) + words);
      }
    }
  }

  /** The tail of `bytes` and `string`. The length word and the memcpy use the length cut to 32
      bits, the memset and the cursor the rounded-up length cut to 32 bits. */
  method PutBlob(buf: array<byte>, at: nat, isString: bool, bs: seq<byte>) returns (next: nat, ok: bool)
    requires |bs| < if isString then U64_MODULUS else U32_MODULUS
    requires at <= buf.Length < U32_MODULUS
    modifies buf
    ensures ok <==> at + 32 + CeilWord(U32(|bs|)) <= buf.Length
    ensures ok ==> next == at + 32 + CeilWord(U32(|bs|))
    ensures ok ==> buf[..next] == old(buf[..at]) + BlobBytes(bs[..U32(|bs|)])
  {
    hide RoundedLength, CeilWord, BlobBytes;
    RoundedLengthModulo(isString, |bs|);
    var length := U32(|bs|);
    var filled := U32(RoundedLength(isString, |bs|));
    next, ok := PutField(buf, at, bs[..length], filled);
  }

  /** A length word and padded contents. If the padded length does not fit in 32 bits, the contents
      alone already reach past the end of the buffer. */
  method PutField(buf: array<byte>, at: nat, field: seq<byte>, filled: nat) returns (next: nat, ok: bool)
    requires |field| < U32_MODULUS && filled == U32(CeilWord(|field|))
    requires at <= buf.Length < U32_MODULUS
    modifies buf
    ensures ok <==> at + 32 + CeilWord(|field|) <= buf.Length
    ensures ok ==> next == at + 32 + CeilWord(|field|) && filled == CeilWord(|field|)
    ensures ok ==> buf[..next] == old(buf[..at]) + BlobBytes(field)
  {
    hide CeilWord, Be;
    ghost var before := buf[..at];
    CeilWordFits(|field|);
    next, ok := PutU32(buf, at, |field|);
    if ok {
      next, ok := PutPadded(buf, next, field, filled);
      if ok {
        assert buf[..next] == before + (Be(|field|, 32) + (field + Fill(0, filled - |field|)));
      }
    }
  }

  /** The inner heads of an array of variable-length values. Each `_offset_location` is the
      previous one plus the previous element's first-pass length, and that recurrence is the
      distance from the first inner offset to the element's length word. */
  method PutInnerOffsets(buf: array<byte>, at: nat, fields: seq<seq<byte>>, filled: array<nat>)
      returns (next: nat, ok: bool)
    requires FirstPass(filled, fields) && at <= buf.Length
    modifies buf
    ensures ok <==> at + 32 * |fields| <= buf.Length
    ensures ok ==> next == at + 32 * |fields|
    ensures ok && |Abi.Assemble(BlobParts(fields))| < U32_MODULUS ==>
      buf[..next] == old(buf[..at]) + Abi.Heads(BlobParts(fields), |fields|)
  {
    hide CeilWord, RoundUp, U32, Be, BlobParts;
    hide Abi.Heads, Abi.Head, Abi.Tails, Abi.HeadSize, Abi.TailSize, Abi.Assemble;
    var n := |fields|;
    ghost var ps, before := BlobParts(fields), buf[..at];
    ghost var fits := |Abi.Assemble(ps)| < U32_MODULUS;
    var offset := new nat[n];
    next, ok := at, true;
    NoHeads(before, ps);
    for i := 0 to n
      invariant ok && next == at + 32 * i <= buf.Length
      invariant i > 0 && fits ==> offset[i - 1] == Abi.TailAt(ps, i - 1)
      invariant fits ==> buf[..next] == before + Abi.Heads(ps, i)
    {
      if fits {
        NextOffset(fields, i);
        AppendBlobHead(before, fields, i);
      }
      if i == 0 {
        offset[i] := U32(n * 32);
      } else {
        offset[i] := U32(offset[i - 1] + filled[i - 1]);
      }
      next, ok := PutU32(buf, next, offset[i]);
      if !ok {
        return;
      }
    }
  }

  lemma AppendBlobHead(before: seq<byte>, fields: seq<seq<byte>>, i: nat)
    requires i < |fields|
    ensures var ps := BlobParts(fields);
            before + Abi.Heads(ps, i) + Be(Abi.TailAt(ps, i), 32) == before + Abi.Heads(ps, i + 1)
  {
    AppendHead(before, BlobParts(fields), i);
  }

  /** One step of the offset recurrence, free of wrap-around. */
  lemma NextOffset(fields: seq<seq<byte>>, i: nat)
    requires i < |fields| && |Abi.Assemble(BlobParts(fields))| < U32_MODULUS
    ensures var ps := BlobParts(fields);
            && Abi.TailAt(ps, i) < U32_MODULUS
            && (i == 0 ==> Abi.TailAt(ps, i) == U32(|fields| * 32))
            && (i > 0 ==>
              U32(RoundUp(|fields[i - 1]|, U32_MODULUS) + 32) == Abi.TailAt(ps, i) - Abi.TailAt(ps, i - 1))
  {
    hide Abi.Heads, Abi.Tails, Abi.Assemble, Abi.HeadSize, RoundUp, CeilWord, U32, BlobBytes;
    var ps := BlobParts(fields);
    BlobHeads(fields, |fields|);
    Abi.TailsGrow(ps, i, |fields|);
    NoTails([], ps);
    if i > 0 {
      assert Abi.TailSize(ps, i) == Abi.TailSize(ps, i - 1) + (32 + CeilWord(|fields[i - 1]|));
      PaddedExact(|fields[i - 1]|);
    }
  }

  lemma PaddedExact(n: nat)
    requires CeilWord(n) < U32_MODULUS
    ensures RoundUp(n, U32_MODULUS) == CeilWord(n) >= n
  {
    RoundUpIsCeil(n, U32_MODULUS);
  }

  /** The elements' length words and padded contents; `_filled_length` is rewritten to the padded
      length alone. */
  method PutInnerTails(buf: array<byte>, at: nat, fields: seq<seq<byte>>, filled: array<nat>)
      returns (next: nat, ok: bool)
    requires FieldsFit(fields) && filled.Length == |fields| && at <= buf.Length < U32_MODULUS
    modifies buf, filled
    ensures ok <==> at + Abi.TailSize(BlobParts(fields), |fields|) <= buf.Length
    ensures ok ==> next == at + Abi.TailSize(BlobParts(fields), |fields|) <= buf.Length
    ensures ok ==> buf[..next] == old(buf[..at]) + Abi.Tails(BlobParts(fields), |fields|)
    ensures ok ==> forall i :: 0 <= i < |fields| ==> filled[i] == CeilWord(|fields[i]|)
  {
    hide CeilWord, RoundUp, U32, Be, BlobParts, BlobBytes, Abi.Tails, Abi.TailSize;
    var n := |fields|;
    ghost var ps, before := BlobParts(fields), buf[..at];
    next, ok := at, true;
    NoTails(before, ps);
    for i := 0 to n
      invariant ok && next == at + Abi.TailSize(ps, i) <= buf.Length
      invariant buf[..next] == before + Abi.Tails(ps, i)
      invariant forall k :: 0 <= k < i ==> filled[k] == CeilWord(|fields[k]|)
    {
      AppendBlobTail(before, fields, i);
      RoundUpModulo(|fields[i]|, U32_MODULUS);
      RoundUpBound(|fields[i]|);
      filled[i] := RoundUp(|fields[i]|, U32_MODULUS);
      next, ok := PutField(buf, next, fields[i], filled[i]);
      if !ok {
        return;
      }
    }
  }

  lemma RoundUpBound(n: nat)
    ensures U32(RoundUp(n, U32_MODULUS)) == RoundUp(n, U32_MODULUS)
  {
  }

  lemma NoTails(before: seq<byte>, ps: seq<Abi.Part>)
    ensures before + Abi.Tails(ps, 0) == before && Abi.TailSize(ps, 0) == 0
  {
  }

  lemma AppendTail(before: seq<byte>, ps: seq<Abi.Part>, i: nat)
    requires i < |ps|
    ensures before + Abi.Tails(ps, i) + Abi.Tail(ps[i]) == before + Abi.Tails(ps, i + 1)
    ensures Abi.TailSize(ps, i) + Abi.TailLen(ps[i]) == Abi.TailSize(ps, i + 1) <= Abi.TailSize(ps, |ps|)
  {
    Abi.TailsGrow(ps, i + 1, |ps|);
  }

  lemma AppendBlobTail(before: seq<byte>, fields: seq<seq<byte>>, i: nat)
    requires i < |fields|
    ensures var ps := BlobParts(fields);
            && before + Abi.Tails(ps, i) + BlobBytes(fields[i]) == before + Abi.Tails(ps, i + 1)
            && Abi.TailSize(ps, i) + 32 + CeilWord(|fields[i]|) == Abi.TailSize(ps, i + 1) <= Abi.TailSize(ps, |fields|)
  {
    AppendTail(before, BlobParts(fields), i);
  }

  /** The tail of an array of `bytes` or `string`; a dynamic array is preceded by its length. */
  method PutBlobArray(buf: array<byte>, at: nat, a: Arg, filled: array<nat>) returns (next: nat, ok: bool)
    requires a.BlobArrayArg? || a.BlobFixedArrayArg?
    requires FieldsFit(a.fields) && FirstPass(filled, a.fields) && at <= buf.Length < U32_MODULUS
    modifies buf, filled
    ensures ok <==> at + |ArgBytes(a)| <= buf.Length
    ensures ok ==> next == at + |ArgBytes(a)| <= buf.Length
    ensures ok ==> buf[..next] == old(buf[..at]) + ArgBytes(a)
    ensures ok ==> forall i :: 0 <= i < |a.fields| ==> filled[i] == CeilWord(|a.fields[i]|)
  {
    hide CeilWord, Be, BlobParts, FieldsFit, Abi.Heads, Abi.Tails, Abi.HeadSize, Abi.TailSize;
    var fields := a.fields;
    ghost var ps, before := BlobParts(fields), buf[..at];
    ghost var count := if a.BlobArrayArg? then Be(|fields|, 32) else [];
    BlobHeads(fields, |fields|);
    CountFits(fields);
    assert ArgBytes(a) == count + Abi.Assemble(ps);
    next, ok := at, true;
    assert buf[..next] == before;
    if a.BlobArrayArg? {
      next, ok := PutU32(buf, at, |fields|);
      if !ok {
        return;
      }
    }
    assert buf[..next] == before + count;
    next, ok := PutInnerOffsets(buf, next, fields, filled);
    if !ok {
      return;
    }
    next, ok := PutInnerTails(buf, next, fields, filled);
    if ok {
      Regroup(before, count, Abi.Heads(ps, |fields|), Abi.Tails(ps, |fields|));
    }
  }

  lemma CountFits(fields: seq<seq<byte>>)
    requires FieldsFit(fields)
    ensures |fields| < U32_MODULUS
  {
  }

  lemma Regroup(a: seq<byte>, b: seq<byte>, c: seq<byte>, d: seq<byte>)
    ensures a + b + c + d == a + (b + (c + d))
  {
  }

  /** The lengths computed from the parameters are those of the encoding of `sent`. Nothing here
      depends on memory, so it stays true while by-reference arguments are being swapped. */
  ghost predicate Sized(ps: seq<Param>, sent: seq<Arg>)
    ensures Sized(ps, sent) ==> ValidArgs(sent) && |ps| == |sent|
  {
    && ValidArgs(sent) && |ps| == |sent|
    && forall k :: 0 <= k <= |ps| ==>
      && Abi.HeadSize(ArgParts(sent), k) == HeadTotal(ps, k)
      && Abi.TailSize(ArgParts(sent), k) == ArrayTotal(ps, k) + BlobTotal(ps, k)
  }

  lemma HoldsSized(ps: seq<Param>, args: seq<Arg>)
    requires Holds(ps, args)
    ensures ValidArgs(args) && Sized(ps, Truncated(args))
  {
    hide ArgParts, Abi.HeadSize, Abi.TailSize, HeadTotal, ArrayTotal, BlobTotal, ValidArg;
    forall k | 0 <= k < |args| ensures ValidArg(args[k]) {
      assert args[k] == ArgOf(ps[k]);
    }
    forall k | 0 <= k <= |ps|
      ensures Abi.HeadSize(ArgParts(Truncated(args)), k) == HeadTotal(ps, k)
      ensures Abi.TailSize(ArgParts(Truncated(args)), k) == ArrayTotal(ps, k) + BlobTotal(ps, k)
    {
      TotalsAreSizes(ps, args, k);
    }
  }

  /** The offset word of a dynamic parameter, computed before any tail exists, is where its tail
      will start. */
  method PutOffset(buf: array<byte>, at: nat, ps: seq<Param>, lengths: seq<nat>, i: nat, ghost sent: seq<Arg>)
      returns (next: nat, ok: bool)
    requires ValidParams(ps) && DataLengths(ps, lengths) && i < |ps| && Sized(ps, sent)
    requires at <= buf.Length
    modifies buf
    ensures ok <==> at + 32 <= buf.Length
    ensures ok ==> next == at + 32
    ensures ok && |CallArgs(sent)| < U32_MODULUS ==>
      buf[..next] == old(buf[..at]) + Be(Abi.TailAt(ArgParts(sent), i), 32)
  {
    hide U32, Be, HeadTotal, ArrayTotal, BlobTotal, ArgParts;
    hide Abi.Heads, Abi.Tails, Abi.HeadSize, Abi.TailSize, Abi.Assemble;
    Abi.TailsGrow(ArgParts(sent), i, |sent|);
    var location := Offset(ps, lengths, i);
    assert |CallArgs(sent)| < U32_MODULUS ==> location == Abi.TailAt(ArgParts(sent), i);
    next, ok := PutU32(buf, at, location);
  }

  /** One parameter's share of the head. */
  method PutHeadOf(buf: array<byte>, at: nat, scratch: array<byte>, ps: seq<Param>, lengths: seq<nat>, i: nat,
                   ghost args: seq<Arg>)
      returns (next: nat, ok: bool)
    requires ValidParams(ps) && DataLengths(ps, lengths) && i < |ps| && |ps| == |args|
    requires ArgOf(ps[i]) == args[i] && Sized(ps, Truncated(args)) && at <= buf.Length
    requires scratch.Length == 32 && buf != scratch
    requires InMemory(ps[i]) ==> ps[i].mem != buf && ps[i].mem != scratch
    modifies buf, scratch, if ByReference(ps[i]) then {ps[i].mem} else {}
    ensures ok <==> at + Abi.HeadLen(ArgParts(Truncated(args))[i]) <= buf.Length
    ensures ok ==> next == at + Abi.HeadLen(ArgParts(Truncated(args))[i]) <= buf.Length
    ensures ok && |CallArgs(Truncated(args))| < U32_MODULUS ==>
      buf[..next] == old(buf[..at]) + Abi.Head(ArgParts(Truncated(args)), i)
    ensures ok ==> ArgOf(ps[i]) == AfterCall(args[i])
  {
    hide Elements, Word, Be, Sized, CallArgs, AllValid;
    HeadBytesOf(Truncated(args), i);
    ArgSize(ps[i], args[i]);
    match ps[i]
    case ScalarParam(e, mem) =>
      next, ok := PutScalar(buf, at, e, mem);
    case FixedArrayParam(e, n, mem) =>
      next, ok := PutElements(buf, at, scratch, e, InFixedArray, n, mem);
    case _ =>
      next, ok := PutOffset(buf, at, ps, lengths, i, Truncated(args));
  }

  lemma HeadBytesOf(args: seq<Arg>, i: nat)
    requires ValidArgs(args) && i < |args|
    ensures var ps := ArgParts(args);
            && Abi.Head(ps, i) == (if Dynamic(args[i]) then Be(Abi.TailAt(ps, i), 32) else ArgBytes(args[i]))
            && Abi.HeadLen(ps[i]) == (if Dynamic(args[i]) then 32 else |ArgBytes(args[i])|)
  {
  }

  /** All heads, in parameter order. Every argument not yet written still holds its value, and
      every argument already written is either unchanged or byte-swapped in place. */
  method PutHeads(buf: array<byte>, at: nat, scratch: array<byte>, ps: seq<Param>, lengths: seq<nat>,
                  ghost args: seq<Arg>)
      returns (next: nat, ok: bool)
    requires Holds(ps, args) && Sized(ps, Truncated(args)) && Separate(ps) && DataLengths(ps, lengths)
    requires scratch.Length == 32 && buf != scratch && buf !in Memory(ps) && scratch !in Memory(ps)
    requires at <= buf.Length
    modifies buf, scratch, SwappedMemory(ps)
    ensures ok <==> at + Abi.HeadSize(ArgParts(Truncated(args)), |args|) <= buf.Length
    ensures ok ==> next == at + Abi.HeadSize(ArgParts(Truncated(args)), |args|) <= buf.Length
    ensures ok && |CallArgs(Truncated(args))| < U32_MODULUS ==>
      buf[..next] == old(buf[..at]) + Abi.Heads(ArgParts(Truncated(args)), |args|)
    ensures ok ==> forall j :: 0 <= j < |ps| ==> ArgOf(ps[j]) == AfterCall(args[j])
  {
    hide Sized, CallArgs, ArgParts, ArgOf, AfterCall, DataLengths, Truncated, FitsCTypes, ValidArg;
    hide Abi.Heads, Abi.Head, Abi.HeadSize, Abi.HeadLen, Abi.Tails, Abi.TailSize;
    ghost var sent, before := Truncated(args), buf[..at];
    ghost var parts := ArgParts(sent);
    ghost var fits := |CallArgs(sent)| < U32_MODULUS;
    next, ok := at, true;
    NoHeads(before, parts);
    for i := 0 to |ps|
      invariant ok && next == at + Abi.HeadSize(parts, i) <= buf.Length
      invariant fits ==> buf[..next] == before + Abi.Heads(parts, i)
      invariant forall j :: 0 <= j < i ==> ArgOf(ps[j]) == AfterCall(args[j])
      invariant forall j :: i <= j < |ps| ==> ArgOf(ps[j]) == args[j]
    {
      HeadGrows(sent, i);
      AppendHead(before, parts, i);
      next, ok := PutHeadOf(buf, next, scratch, ps, lengths, i, args);
      if !ok {
        return;
      }
    }
  }

  lemma HeadGrows(args: seq<Arg>, i: nat)
    requires ValidArgs(args) && i < |args|
    ensures var ps := ArgParts(args);
            Abi.HeadSize(ps, i) + Abi.HeadLen(ps[i]) == Abi.HeadSize(ps, i + 1) <= Abi.HeadSize(ps, |args|)
  {
    hide ArgBytes, Abi.Heads, Abi.Tails;
    Abi.HeadsGrow(ArgParts(args), i + 1, |args|);
  }

  /** The tail part of an argument as it is sent. */
  ghost function SentPart(a: Arg): Abi.Part
    requires ValidArg(a)
  {
    Abi.Part(Dynamic(Truncate(a)), ArgBytes(Truncate(a)))
  }

  /** One parameter's tail; a static parameter has none. */
  method PutTailOf(buf: array<byte>, at: nat, scratch: array<byte>, p: Param, filled: array<nat>, ghost a: Arg)
      returns (next: nat, ok: bool)
    requires ValidParam(p) && FitsCTypes(p) && ArgOf(p) == a && at <= buf.Length < U32_MODULUS
    requires BlobArrayLike(p) ==> FirstPass(filled, p.fields)
    requires scratch.Length == 32 && buf != scratch
    requires InMemory(p) ==> p.mem != buf && p.mem != scratch
    modifies buf, scratch, filled
    ensures ok <==> at + Abi.TailLen(SentPart(a)) <= buf.Length
    ensures ok ==> next == at + Abi.TailLen(SentPart(a)) <= buf.Length
    ensures ok ==> buf[..next] == old(buf[..at]) + Abi.Tail(SentPart(a))
  {
    hide Elements, Word, Be, CeilWord, Abi.Assemble, BlobBytes, AllValid, WordParts, BlobParts, FirstPass;
    ArgSize(p, a);
    match p
    case ArrayParam(e, n, mem) =>
      next, ok := PutArray(buf, at, scratch, e, n, mem);
    case BlobParam(isString, bs) =>
      NotCut(isString, bs);
      next, ok := PutBlob(buf, at, isString, bs);
    case BlobArrayParam(_, fields) =>
      next, ok := PutBlobArray(buf, at, BlobArrayArg(p.isString, fields), filled);
    case BlobFixedArrayParam(_, fields) =>
      next, ok := PutBlobArray(buf, at, BlobFixedArrayArg(p.isString, fields), filled);
    case _ =>
      next, ok := at, true;
      assert buf[..at] + [] == buf[..at];
  }

  /** The length of `bytes` is a BUINT32 already. */
  lemma NotCut(isString: bool, bs: seq<byte>)
    requires |bs| < if isString then U64_MODULUS else U32_MODULUS
    ensures Truncate(BlobArg(isString, bs)) == BlobArg(isString, bs[..U32(|bs|)])
  {
    assert bs[..|bs|] == bs;
  }

  lemma TailGrows(before: seq<byte>, args: seq<Arg>, i: nat)
    requires ValidArgs(args) && i < |args|
    ensures ValidArg(args[i])
    ensures var ps := ArgParts(Truncated(args));
            && Abi.TailSize(ps, i) + Abi.TailLen(SentPart(args[i])) == Abi.TailSize(ps, i + 1)
            && Abi.TailSize(ps, i + 1) <= Abi.TailSize(ps, |args|)
            && before + Abi.Tails(ps, i) + Abi.Tail(SentPart(args[i])) == before + Abi.Tails(ps, i + 1)
  {
    hide ArgBytes, Truncate;
    AppendTail(before, ArgParts(Truncated(args)), i);
  }

  /** All tails, in parameter order. */
  method PutTails(buf: array<byte>, at: nat, scratch: array<byte>, ps: seq<Param>, filled: seq<array<nat>>,
                  ghost args: seq<Arg>)
      returns (next: nat, ok: bool)
    requires |ps| == |args| && ValidParams(ps) && ValidArgs(args) && FilledArrays(ps, filled)
    requires forall j :: 0 <= j < |ps| ==> ArgOf(ps[j]) == AfterCall(args[j])
    requires scratch.Length == 32 && buf != scratch && buf !in Memory(ps) && scratch !in Memory(ps)
    requires at <= buf.Length < U32_MODULUS
    modifies buf, scratch, filled
    ensures ok <==> at + Abi.TailSize(ArgParts(Truncated(args)), |args|) <= buf.Length
    ensures ok ==> next == at + Abi.TailSize(ArgParts(Truncated(args)), |args|) <= buf.Length
    ensures ok ==> buf[..next] == old(buf[..at]) + Abi.Tails(ArgParts(Truncated(args)), |args|)
    ensures forall j :: 0 <= j < |ps| ==> ArgOf(ps[j]) == AfterCall(args[j])
  {
    hide ArgParts, ArgBytes, AfterCall, Truncated, SentPart, FirstPass;
    hide Abi.Tails, Abi.Tail, Abi.TailSize, Abi.TailLen;
    ghost var parts, before := ArgParts(Truncated(args)), buf[..at];
    next, ok := at, true;
    NoTails(before, parts);
    for i := 0 to |ps|
      invariant ok && next == at + Abi.TailSize(parts, i) <= buf.Length
      invariant buf[..next] == before + Abi.Tails(parts, i)
      invariant forall j :: 0 <= j < |ps| ==> ArgOf(ps[j]) == AfterCall(args[j])
      invariant forall j :: i <= j < |ps| && BlobArrayLike(ps[j]) ==> FirstPass(filled[j], ps[j].fields)
    {
      TailGrows(before, args, i);
      DynamicUnchanged(args[i]);
      if ps[i].ScalarParam? || ps[i].FixedArrayParam? {
        NoTail(args[i], buf[..next]);
      } else {
        next, ok := PutTailOf(buf, next, scratch, ps[i], filled[i], args[i]);
        if !ok {
          return;
        }
      }
    }
  }

  lemma DynamicUnchanged(a: Arg)
    ensures !a.ScalarArg? ==> AfterCall(a) == a
    ensures AfterCall(a).ScalarArg? <==> a.ScalarArg?
  {
  }

  lemma NoTail(a: Arg, written: seq<byte>)
    requires ValidArg(a) && !Dynamic(a)
    ensures Abi.TailLen(SentPart(a)) == 0 && written + Abi.Tail(SentPart(a)) == written
  {
  }

  /** The whole buffer: selector, heads and tails, in storage of the computed length. Every write
      stays inside that storage exactly when the call data fits in 32 bits. Then the cursor ends at
      the end of the buffer, so every byte was written, whatever malloc left in it and in the
      scratch word. */
  method FillBuffer(buf: array<byte>, selector: seq<byte>, ps: seq<Param>, lengths: seq<nat>,
                    filled: seq<array<nat>>, ghost args: seq<Arg>)
      returns (cursor: nat, ok: bool)
    requires |selector| == 4 && Holds(ps, args) && ValidArgs(args) && Sized(ps, Truncated(args)) && Separate(ps)
    requires DataLengths(ps, lengths) && FilledArrays(ps, filled)
    requires buf !in Memory(ps) && buf.Length == U32(4 + |CallArgs(Truncated(args))|)
    modifies buf, SwappedMemory(ps), filled
    ensures ok <==> Fits(args)
    ensures ok ==> cursor == buf.Length && buf[..] == selector + CallArgs(Truncated(args))
    ensures ok ==> forall j :: 0 <= j < |ps| ==> ArgOf(ps[j]) == AfterCall(args[j])
  {
    hide Sized, DataLengths, ArgParts, Truncated, U32, Abi.Heads, Abi.Tails, Abi.HeadSize, Abi.TailSize;
    ghost var parts := ArgParts(Truncated(args));
    var scratch := new byte[32];
    cursor := 4;
    ok := Memcpy(buf, 0, selector);
    if !ok {
      return;
    }
    assert buf[..cursor] == selector;
    cursor, ok := PutHeads(buf, cursor, scratch, ps, lengths, args);
    if !ok {
      return;
    }
    cursor, ok := PutTails(buf, cursor, scratch, ps, filled, args);
    if ok {
      assert buf[..] == buf[..cursor];
      assert selector + Abi.Heads(parts, |args|) + Abi.Tails(parts, |args|) == selector + CallArgs(Truncated(args));
    }
  }
}
