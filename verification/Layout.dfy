/** What the generated code writes, as a function of the argument values, and how it relates to
    the Solidity ABI: equal exactly when no argument falls into a mishandled signed case. */
module Layout {
  import opened Bytes
  import opened ContractTypes
  import Abi = SolidityAbi

  /** An argument value. Elementary values are their bytes in memory, integers and
      addresses least significant byte first. */
  datatype Arg =
    | ScalarArg(e: Elem, mem: seq<byte>)
    | FixedArrayArg(e: Elem, elems: seq<seq<byte>>)
    | ArrayArg(e: Elem, elems: seq<seq<byte>>)
    | BlobArg(isString: bool, bs: seq<byte>)
    | BlobArrayArg(isString: bool, fields: seq<seq<byte>>)
    | BlobFixedArrayArg(isString: bool, fields: seq<seq<byte>>)

  function TypeOf(a: Arg): AbiType {
    match a
    case ScalarArg(e, _) => Elementary(e)
    case FixedArrayArg(e, elems) => FixedArray(e, |elems|)
    case ArrayArg(e, _) => DynArray(e)
    case BlobArg(isString, _) => Blob(isString)
    case BlobArrayArg(isString, _) => BlobArray(isString)
    case BlobFixedArrayArg(isString, fields) => BlobFixedArray(isString, |fields|)
  }

  predicate Dynamic(a: Arg) {
    DynamicType(TypeOf(a))
  }

  // ----- Well-formed arguments

  predicate ValidMem(e: Elem, mem: seq<byte>) {
    ValidElem(e) && |mem| == Size(e)
  }

  /** The memory of a conforming value: a `bool` is 0 or 1. */
  predicate Conforms(e: Elem, mem: seq<byte>) {
    ValidMem(e, mem) && (e.Bool? ==> mem[0] <= 1)
  }

  predicate AllValid(e: Elem, elems: seq<seq<byte>>) {
    ValidElem(e) && forall i :: 0 <= i < |elems| ==> |elems[i]| == Size(e)
  }

  predicate AllConform(e: Elem, elems: seq<seq<byte>>)
    ensures AllConform(e, elems) ==> AllValid(e, elems)
  {
    AllValid(e, elems) && forall i :: 0 <= i < |elems| ==> Conforms(e, elems[i])
  }

  predicate ValidArg(a: Arg) {
    match a
    case ScalarArg(e, mem) => ValidMem(e, mem)
    case FixedArrayArg(e, elems) => AllValid(e, elems)
    case ArrayArg(e, elems) => AllValid(e, elems)
    case _ => true
  }

  predicate ConformingArg(a: Arg)
    ensures ConformingArg(a) ==> ValidArg(a)
  {
    match a
    case ScalarArg(e, mem) => Conforms(e, mem)
    case FixedArrayArg(e, elems) => AllConform(e, elems)
    case ArrayArg(e, elems) => AllConform(e, elems)
    case _ => true
  }

  predicate ValidArgs(args: seq<Arg>) {
    forall i :: 0 <= i < |args| ==> ValidArg(args[i])
  }

  predicate ConformingArgs(args: seq<Arg>) {
    forall i :: 0 <= i < |args| ==> ConformingArg(args[i])
  }

  // ----- The bytes written

  predicate Negative(mem: seq<byte>)
    requires mem != []
  {
    mem[|mem| - 1] >= 128
  }

  /** The memset value under a word. For a type that is not a native integer the emitted
      comparison with 0 compares an address, and is always true. */
  function FillByte(e: Elem, pos: Position, mem: seq<byte>): byte
    requires ValidMem(e, mem)
  {
    if SignTested(e, pos) && Native(e) && Negative(mem) then 0xFF else 0
  }

  function Word(e: Elem, pos: Position, mem: seq<byte>): (w: seq<byte>)
    requires ValidMem(e, mem)
    ensures |w| == 32
  {
    if RightAligned(e) then Fill(FillByte(e, pos, mem), 32 - |mem|) + Reverse(mem)
    else mem + Fill(0, 32 - |mem|)
  }

  function WordParts(e: Elem, pos: Position, elems: seq<seq<byte>>): (ps: seq<Abi.Part>)
    requires AllValid(e, elems)
    ensures |ps| == |elems|
  {
    seq(|elems|, i requires 0 <= i < |elems| => Abi.Part(false, Word(e, pos, elems[i])))
  }

  /** A length word followed by the contents, zero-padded to whole words. */
  function BlobBytes(bs: seq<byte>): (s: seq<byte>)
    ensures |s| == 32 + CeilWord(|bs|)
  {
    Be(|bs|, 32) + (bs + Fill(0, CeilWord(|bs|) - |bs|))
  }

  function BlobParts(fields: seq<seq<byte>>): (ps: seq<Abi.Part>)
    ensures |ps| == |fields|
  {
    seq(|fields|, i requires 0 <= i < |fields| => Abi.Part(true, BlobBytes(fields[i])))
  }

  /** What the argument contributes: to the head if it is static, to the tail if it is dynamic. */
  function ArgBytes(a: Arg): seq<byte>
    requires ValidArg(a)
  {
    match a
    case ScalarArg(e, mem) => Word(e, Single, mem)
    case FixedArrayArg(e, elems) => Abi.Assemble(WordParts(e, InFixedArray, elems))
    case ArrayArg(e, elems) => Be(|elems|, 32) + Abi.Assemble(WordParts(e, InArray, elems))
    case BlobArg(_, bs) => BlobBytes(bs)
    case BlobArrayArg(_, fields) => Be(|fields|, 32) + Abi.Assemble(BlobParts(fields))
    case BlobFixedArrayArg(_, fields) => Abi.Assemble(BlobParts(fields))
  }

  function ArgParts(args: seq<Arg>): (ps: seq<Abi.Part>)
    requires ValidArgs(args)
    ensures |ps| == |args|
  {
    seq(|args|, i requires 0 <= i < |args| => Abi.Part(Dynamic(args[i]), ArgBytes(args[i])))
  }

  function CallArgs(args: seq<Arg>): seq<byte>
    requires ValidArgs(args)
  {
    Abi.Assemble(ArgParts(args))
  }

  // ----- What of a string the generated code sees

  /** The length of a `string` is kept in a BUINT32: only that many bytes are written. */
  function Truncate(a: Arg): (t: Arg)
    ensures ValidArg(a) ==> ValidArg(t)
    ensures TypeOf(t) == TypeOf(a)
  {
    if a.BlobArg? && a.isString then BlobArg(true, a.bs[..U32(|a.bs|)]) else a
  }

  function Truncated(args: seq<Arg>): (ts: seq<Arg>)
    ensures |ts| == |args| && forall i :: 0 <= i < |args| ==> ts[i] == Truncate(args[i])
    ensures ValidArgs(args) ==> ValidArgs(ts)
  {
    seq(|args|, i requires 0 <= i < |args| => Truncate(args[i]))
  }

  /** The call data of the arguments fits in storage sized by a BUINT32. */
  predicate Fits(args: seq<Arg>)
    requires ValidArgs(args)
  {
    4 + |CallArgs(Truncated(args))| < U32_MODULUS
  }

  /** The string is short enough to be sent whole. */
  predicate Whole(a: Arg) {
    a.BlobArg? && a.isString ==> |a.bs| < U32_MODULUS
  }

  // ----- The ABI values denoted by the arguments

  function SignedValue(mem: seq<byte>): int
    requires mem != []
  {
    if Negative(mem) then LeValue(mem) - Pow256(|mem|) else LeValue(mem)
  }

  function ElemValue(e: Elem, mem: seq<byte>): Abi.Value
    requires ValidMem(e, mem)
  {
    match e
    case Address => Abi.Address(LeValue(mem))
    case Bool => Abi.Bool(mem[0] != 0)
    case UInt(n) => Abi.UInt(n, LeValue(mem))
    case SInt(n) => Abi.Int(n, SignedValue(mem))
    case FixedBytes(_) => Abi.FixedBytes(mem)
  }

  function ElemType(e: Elem): Abi.Type {
    match e
    case Address => Abi.AddressT
    case Bool => Abi.BoolT
    case UInt(n) => Abi.UIntT(n)
    case SInt(n) => Abi.IntT(n)
    case FixedBytes(n) => Abi.FixedBytesT(n)
  }

  function BlobValue(isString: bool, bs: seq<byte>): Abi.Value {
    if isString then Abi.String(bs) else Abi.Bytes(bs)
  }

  function BlobType(isString: bool): Abi.Type {
    if isString then Abi.StringT else Abi.BytesT
  }

  function ElemValues(e: Elem, elems: seq<seq<byte>>): (vs: seq<Abi.Value>)
    requires AllValid(e, elems)
    ensures |vs| == |elems|
  {
    seq(|elems|, i requires 0 <= i < |elems| => ElemValue(e, elems[i]))
  }

  function BlobValues(isString: bool, fields: seq<seq<byte>>): (vs: seq<Abi.Value>)
    ensures |vs| == |fields|
  {
    seq(|fields|, i requires 0 <= i < |fields| => BlobValue(isString, fields[i]))
  }

  function ValueOf(a: Arg): Abi.Value
    requires ValidArg(a)
  {
    match a
    case ScalarArg(e, mem) => ElemValue(e, mem)
    case FixedArrayArg(e, elems) => Abi.FixedArray(ElemType(e), ElemValues(e, elems))
    case ArrayArg(e, elems) => Abi.Array(ElemType(e), ElemValues(e, elems))
    case BlobArg(isString, bs) => BlobValue(isString, bs)
    case BlobArrayArg(isString, fields) => Abi.Array(BlobType(isString), BlobValues(isString, fields))
    case BlobFixedArrayArg(isString, fields) => Abi.FixedArray(BlobType(isString), BlobValues(isString, fields))
  }

  function ValuesOf(args: seq<Arg>): (vs: seq<Abi.Value>)
    requires ValidArgs(args)
    ensures |vs| == |args|
  {
    seq(|args|, i requires 0 <= i < |args| => ValueOf(args[i]))
  }

  // ----- When the bytes written are the ABI encoding

  /** A signed integer narrower than a word whose fill ignores the sign. */
  predicate SignLost(e: Elem, pos: Position) {
    e.SInt? && e.size < 32 && (pos == InFixedArray || e.size == 16)
  }

  predicate ElemSafe(e: Elem, pos: Position, mem: seq<byte>)
    requires ValidMem(e, mem)
  {
    SignLost(e, pos) ==> !Negative(mem)
  }

  /** No negative value in `int8..int128[k]`, `int128` or `int128[]`. */
  predicate Safe(a: Arg)
    requires ValidArg(a)
  {
    match a
    case ScalarArg(e, mem) => ElemSafe(e, Single, mem)
    case FixedArrayArg(e, elems) => AllSafe(e, InFixedArray, elems)
    case ArrayArg(e, elems) => AllSafe(e, InArray, elems)
    case _ => true
  }

  lemma ConformingIsValid(args: seq<Arg>)
    requires ConformingArgs(args)
    ensures ValidArgs(args)
  {
    forall i | 0 <= i < |args| ensures ValidArg(args[i]) {
      assert ConformingArg(args[i]);
    }
  }

  lemma TopByteValue(mem: seq<byte>)
    requires mem != []
    ensures var p := Pow256(|mem| - 1);
            mem[|mem| - 1] * p <= LeValue(mem) < mem[|mem| - 1] * p + p
  {
    var n := |mem| - 1;
    var low := Reverse(mem[..n]);
    BeValueReverse(mem);
    assert Reverse(mem) == [mem[n]] + low;
    BeValueAppend([mem[n]], low);
    assert BeValue([mem[n]]) == mem[n];
    BeValueBound(low);
  }

  lemma HalfOfRange(top: byte, p: nat, v: nat)
    requires top * p <= v < top * p + p
    ensures top >= 128 ==> 2 * v >= 256 * p
    ensures top < 128 ==> 2 * v < 256 * p
    ensures v < 256 * p
  {
    if top >= 128 {
      Scale(128, top, p);
      Scale(top, 255, p);
    } else {
      Scale(top, 127, p);
    }
  }

  lemma Scale(a: nat, b: nat, p: nat)
    requires a <= b
    ensures a * p <= b * p
  {
  }

  /** The most significant byte of a little-endian value decides which half it lies in. */
  lemma TopByte(mem: seq<byte>)
    requires mem != []
    ensures Negative(mem) ==> 2 * LeValue(mem) >= Pow256(|mem|)
    ensures !Negative(mem) ==> 2 * LeValue(mem) < Pow256(|mem|)
    ensures LeValue(mem) < Pow256(|mem|)
  {
    TopByteValue(mem);
    HalfOfRange(mem[|mem| - 1], Pow256(|mem| - 1), LeValue(mem));
  }

  lemma ElemWellFormed(e: Elem, mem: seq<byte>)
    requires ValidMem(e, mem)
    ensures Abi.WellFormed(ElemValue(e, mem))
    ensures !Abi.Dynamic(ElemValue(e, mem))
  {
    TopByte(mem);
  }

  /** A zero-filled word holding the reversed memory is the uint256 numeral of the value. */
  lemma ZeroFilled(mem: seq<byte>)
    requires 1 <= |mem| <= 32
    ensures Fill(0, 32 - |mem|) + Reverse(mem) == Be(LeValue(mem), 32)
  {
    ReverseIsBigEndian(mem);
    BeZeroExtend(LeValue(mem), 32 - |mem|, |mem|);
  }

  lemma NegativeEnc(mem: seq<byte>)
    requires 1 <= |mem| <= 32 && Negative(mem)
    ensures 0 <= Pow256(|mem|) + SignedValue(mem) < Pow256(|mem|)
    ensures Abi.SignExtended(SignedValue(mem), |mem|) == Fill(0xFF, 32 - |mem|) + Reverse(mem)
  {
    hide Be, LeValue, Pow256, Reverse, Fill;
    TopByte(mem);
    ReverseIsBigEndian(mem);
  }

  lemma NonNegativeEnc(mem: seq<byte>)
    requires 1 <= |mem| <= 32 && !Negative(mem)
    ensures 0 <= SignedValue(mem)
    ensures Abi.SignExtended(SignedValue(mem), |mem|) == Fill(0, 32 - |mem|) + Reverse(mem)
  {
    hide Be, LeValue, Pow256, Reverse, Fill;
    TopByte(mem);
    ReverseIsBigEndian(mem);
  }

  lemma SignedEnc(mem: seq<byte>)
    requires 1 <= |mem| <= 32
    ensures 0 <= Pow256(|mem|) + SignedValue(mem)
    ensures Abi.SignExtended(SignedValue(mem), |mem|)
         == Fill(if Negative(mem) then 0xFF else 0, 32 - |mem|) + Reverse(mem)
  {
    hide Abi.SignExtended, SignedValue, Pow256, Reverse, Fill;
    if Negative(mem) {
      NegativeEnc(mem);
    } else {
      NonNegativeEnc(mem);
    }
  }

  lemma FillDecides(f: byte, g: byte, n: nat, rest: seq<byte>)
    ensures Fill(f, n) + rest == Fill(g, n) + rest <==> n == 0 || f == g
  {
    if n > 0 && f != g {
      assert (Fill(f, n) + rest)[0] == f;
      assert (Fill(g, n) + rest)[0] == g;
    }
  }

  lemma SignedWord(e: Elem, pos: Position, mem: seq<byte>)
    requires ValidMem(e, mem) && e.SInt?
    requires Abi.WellFormed(ElemValue(e, mem))
    ensures Word(e, pos, mem) == Abi.Enc(ElemValue(e, mem)) <==> ElemSafe(e, pos, mem)
  {
    SignedEnc(mem);
    FillDecides(FillByte(e, pos, mem), if Negative(mem) then 0xFF else 0, 32 - |mem|, Reverse(mem));
  }

  /** One word: the code writes enc(X) exactly when the sign of X is not lost. */
  lemma WordIsEnc(e: Elem, pos: Position, mem: seq<byte>)
    requires Conforms(e, mem)
    ensures Abi.WellFormed(ElemValue(e, mem)) && |Abi.Enc(ElemValue(e, mem))| == 32
    ensures Word(e, pos, mem) == Abi.Enc(ElemValue(e, mem)) <==> ElemSafe(e, pos, mem)
  {
    hide Be, Reverse, LeValue, Fill, CeilWord, Abi.SignExtended, SignedValue, Word, Pow256, Negative;
    ElemWellFormed(e, mem);
    if e.SInt? {
      SignedWord(e, pos, mem);
      SignedEnc(mem);
    } else if e.FixedBytes? {
      FixedBytesWord(e, pos, mem);
    } else {
      UnsignedWord(e, pos, mem);
      if e.Bool? {
        OneByteValue(mem);
      }
    }
  }

  lemma FixedBytesWord(e: Elem, pos: Position, mem: seq<byte>)
    requires ValidMem(e, mem) && e.FixedBytes?
    ensures Word(e, pos, mem) == Abi.PadRight(mem) && CeilWord(|mem|) == 32
  {
  }

  lemma UnsignedWord(e: Elem, pos: Position, mem: seq<byte>)
    requires ValidMem(e, mem) && RightAligned(e) && !e.SInt?
    ensures Word(e, pos, mem) == Be(LeValue(mem), 32)
  {
    hide Be, Reverse, LeValue, Fill;
    ZeroFilled(mem);
  }

  lemma OneByteValue(mem: seq<byte>)
    requires |mem| == 1
    ensures LeValue(mem) == mem[0]
  {
    assert LeValue(mem[1..]) == 0;
  }

  /** The integer a right-aligned value stands for. */
  function IntegerOf(e: Elem, mem: seq<byte>): int
    requires ValidMem(e, mem)
  {
    if e.SInt? then SignedValue(mem) else LeValue(mem)
  }

  lemma FilledValue(f: byte, mem: seq<byte>, width: nat)
    requires |mem| <= width && (f == 0 || f == 0xFF)
    ensures BeValue(Fill(f, width - |mem|) + Reverse(mem))
         == LeValue(mem) + (if f == 0 then 0 else Pow256(width) - Pow256(|mem|))
  {
    hide Be, LeValue, BeValue, Pow256, Reverse, Fill;
    var d, p := width - |mem|, Pow256(|mem|);
    BeValueReverse(mem);
    BeValueAppend(Fill(f, d), Reverse(mem));
    FillValue(f, d);
    Pow256Add(d, |mem|);
    DistributePred(Pow256(d), p);
  }

  /** Reversal, alignment and fill together: the big-endian value of a written word is the
      argument modulo 2^256, unless the sign was lost. */
  lemma WordDenotes(e: Elem, pos: Position, mem: seq<byte>)
    requires ValidMem(e, mem) && RightAligned(e)
    ensures var n := IntegerOf(e, mem);
            BeValue(Word(e, pos, mem)) == (if n < 0 then Pow256(32) + n else n) <==> ElemSafe(e, pos, mem)
  {
    hide LeValue, BeValue, Pow256, Reverse, Fill;
    TopByte(mem);
    FilledValue(FillByte(e, pos, mem), mem, 32);
    Pow256Strict(32 - |mem|, |mem|);
  }

  lemma DistributePred(a: nat, b: nat)
    requires a >= 1
    ensures (a - 1) * b == a * b - b
  {
  }

  /** 256^(d + n) exceeds 256^n exactly when d is positive. */
  lemma Pow256Strict(d: nat, n: nat)
    ensures Pow256(d + n) == Pow256(n) <==> d == 0
  {
    if d > 0 {
      Pow256Add(d - 1, n);
      assert Pow256(d + n) == 256 * Pow256(d - 1 + n);
      ProductBound(Pow256(d - 1), Pow256(n));
    }
  }

  lemma ProductBound(a: nat, b: nat)
    requires a >= 1
    ensures a * b >= b
  {
  }

  ghost predicate ArrayOf(whole: Abi.Value, t: Abi.Type, vs: seq<Abi.Value>) {
    whole == Abi.Array(t, vs) || whole == Abi.FixedArray(t, vs)
  }

  predicate StaticWords(ps: seq<Abi.Part>) {
    forall i :: 0 <= i < |ps| ==> !ps[i].dynamic && |ps[i].enc| == 32
  }

  /** The word the specification calls for. */
  ghost function SpecWord(e: Elem, mem: seq<byte>): (w: seq<byte>)
    requires Conforms(e, mem)
    ensures |w| == 32
  {
    WordIsEnc(e, Single, mem);
    Abi.Enc(ElemValue(e, mem))
  }

  ghost function SpecParts(e: Elem, elems: seq<seq<byte>>): (ps: seq<Abi.Part>)
    requires AllConform(e, elems)
    ensures |ps| == |elems|
  {
    seq(|elems|, i requires 0 <= i < |elems| => Abi.Part(false, SpecWord(e, elems[i])))
  }

  /** The component of an array value that one element makes. */
  lemma ElemIsPart(e: Elem, mem: seq<byte>)
    requires Conforms(e, mem)
    ensures Abi.WellFormed(ElemValue(e, mem))
    ensures !Abi.Dynamic(ElemValue(e, mem)) && Abi.Enc(ElemValue(e, mem)) == SpecWord(e, mem)
  {
    hide ElemValue, Abi.Enc, Abi.Dynamic, Abi.WellFormed;
    ElemWellFormed(e, mem);
  }

  lemma TypeOfElem(e: Elem, mem: seq<byte>)
    requires ValidMem(e, mem)
    ensures Abi.TypeOfValue(ElemValue(e, mem)) == ElemType(e)
  {
  }

  lemma ArrayWellFormed(e: Elem, elems: seq<seq<byte>>, whole: Abi.Value)
    requires AllConform(e, elems)
    requires ArrayOf(whole, ElemType(e), ElemValues(e, elems))
    ensures Abi.WellFormed(whole)
  {
    hide ElemValue, ValidElem, Conforms;
    var vs := ElemValues(e, elems);
    forall i | 0 <= i < |vs| ensures Abi.WellFormed(vs[i]) && Abi.TypeOfValue(vs[i]) == ElemType(e) {
      hide Abi.WellFormed;
      ElemIsPart(e, elems[i]);
      TypeOfElem(e, elems[i]);
    }
  }

  /** The components of an array value are its elements' words. */
  lemma ElemsWellFormed(e: Elem, elems: seq<seq<byte>>, whole: Abi.Value)
    requires AllConform(e, elems)
    requires ArrayOf(whole, ElemType(e), ElemValues(e, elems))
    ensures Abi.WellFormed(whole)
    ensures Abi.Components(whole) == SpecParts(e, elems)
  {
    hide ElemValue, ValidElem, Conforms, SpecWord, Abi.Enc, Abi.Dynamic;
    ArrayWellFormed(e, elems, whole);
    var vs := ElemValues(e, elems);
    forall i | 0 <= i < |vs|
      ensures Abi.WellFormed(vs[i]) && Abi.Part(Abi.Dynamic(vs[i]), Abi.Enc(vs[i])) == SpecParts(e, elems)[i]
    {
      hide Abi.WellFormed;
      ElemIsPart(e, elems[i]);
    }
  }

  /** enc(X) of an array value is its words, after their number if the array is dynamic. */
  lemma EncOfElems(e: Elem, elems: seq<seq<byte>>, whole: Abi.Value)
    requires AllConform(e, elems)
    requires ArrayOf(whole, ElemType(e), ElemValues(e, elems))
    ensures Abi.WellFormed(whole)
    ensures Abi.Enc(whole) == (if whole.Array? then Be(|elems|, 32) else []) + Abi.Assemble(SpecParts(e, elems))
  {
    hide SpecParts, Abi.Assemble, Be, AllConform, ElemValues;
    ElemsWellFormed(e, elems, whole);
    assert [] + Abi.Assemble(SpecParts(e, elems)) == Abi.Assemble(SpecParts(e, elems));
  }

  predicate AllSafe(e: Elem, pos: Position, elems: seq<seq<byte>>)
    requires AllValid(e, elems)
  {
    forall i :: 0 <= i < |elems| ==> ElemSafe(e, pos, elems[i])
  }

  /** An array of words: every element must be safe, and one unsafe element is enough to differ. */
  lemma WordsAreEnc(e: Elem, pos: Position, elems: seq<seq<byte>>)
    requires AllConform(e, elems)
    ensures var ps, qs := WordParts(e, pos, elems), SpecParts(e, elems);
            && |Abi.Assemble(ps)| == |Abi.Assemble(qs)|
            && (Abi.Assemble(ps) == Abi.Assemble(qs) <==> AllSafe(e, pos, elems))
  {
    hide Abi.Assemble, Word, ElemSafe, SpecWord;
    var ps, qs := WordParts(e, pos, elems), SpecParts(e, elems);
    SamePartsSameBytes(ps, qs);
    forall i | 0 <= i < |elems| ensures ps[i] == qs[i] <==> ElemSafe(e, pos, elems[i]) {
      WordIsSpec(e, pos, elems[i]);
    }
  }

  lemma WordIsSpec(e: Elem, pos: Position, mem: seq<byte>)
    requires Conforms(e, mem)
    ensures Word(e, pos, mem) == SpecWord(e, mem) <==> ElemSafe(e, pos, mem)
  {
    hide Word, ElemSafe, ElemValue, Abi.Enc, Abi.WellFormed;
    WordIsEnc(e, pos, mem);
  }

  lemma SamePartsSameBytes(ps: seq<Abi.Part>, qs: seq<Abi.Part>)
    requires Abi.SameShape(ps, qs)
    ensures |Abi.Assemble(ps)| == |Abi.Assemble(qs)|
    ensures Abi.Assemble(ps) == Abi.Assemble(qs) <==> ps == qs
  {
    Abi.SameShapeSizes(ps, qs, |ps|);
    if Abi.Assemble(ps) == Abi.Assemble(qs) {
      Abi.AssembleInjective(ps, qs);
    }
  }

  lemma {:induction false} BlobHeads(fields: seq<seq<byte>>, n: nat)
    requires n <= |fields|
    ensures Abi.HeadSize(BlobParts(fields), n) == 32 * n
  {
    hide BlobBytes;
    if n > 0 {
      BlobHeads(fields, n - 1);
    }
  }

  lemma {:induction false} WordPartsSize(ps: seq<Abi.Part>, n: nat)
    requires n <= |ps|
    requires StaticWords(ps)
    ensures Abi.HeadSize(ps, n) == 32 * n && Abi.TailSize(ps, n) == 0
  {
    if n > 0 {
      WordPartsSize(ps, n - 1);
    }
  }

  lemma BlobsAreEnc(isString: bool, fields: seq<seq<byte>>, whole: Abi.Value)
    requires ArrayOf(whole, BlobType(isString), BlobValues(isString, fields))
    ensures Abi.WellFormed(whole)
    ensures BlobParts(fields) == Abi.Components(whole)
  {
    var vs := BlobValues(isString, fields);
    forall i | 0 <= i < |fields| ensures Abi.WellFormed(vs[i]) && Abi.TypeOfValue(vs[i]) == BlobType(isString) {
    }
    assert Abi.WellFormed(whole);
  }

  /** The bytes of an argument are enc(X) exactly when it is safe; shape and length always agree. */
  ghost predicate EncodedIffSafe(a: Arg) {
    && ValidArg(a)
    && Abi.WellFormed(ValueOf(a)) && Abi.Dynamic(ValueOf(a)) == Dynamic(a)
    && |Abi.Enc(ValueOf(a))| == |ArgBytes(a)|
    && (ArgBytes(a) == Abi.Enc(ValueOf(a)) <==> Safe(a))
  }

  lemma ArgIsEnc(a: Arg)
    requires ConformingArg(a)
    ensures EncodedIffSafe(a)
  {
    match a
    case ScalarArg(e, mem) => ScalarIsEnc(e, mem);
    case FixedArrayArg(e, elems) => FixedArrayIsEnc(e, elems);
    case ArrayArg(e, elems) => ArrayIsEnc(e, elems);
    case BlobArg(isString, bs) => BlobIsEnc(isString, bs);
    case BlobArrayArg(isString, fields) => BlobArrayIsEnc(isString, fields);
    case BlobFixedArrayArg(isString, fields) => BlobFixedArrayIsEnc(isString, fields);
  }

  lemma ScalarIsEnc(e: Elem, mem: seq<byte>)
    requires Conforms(e, mem)
    ensures EncodedIffSafe(ScalarArg(e, mem))
  {
    WordIsEnc(e, Single, mem);
    ElemWellFormed(e, mem);
  }

  lemma FixedArrayIsEnc(e: Elem, elems: seq<seq<byte>>)
    requires AllConform(e, elems)
    ensures EncodedIffSafe(FixedArrayArg(e, elems))
  {
    hide Abi.Assemble, Abi.Enc, Abi.WellFormed, WordParts, SpecParts, AllSafe, AllConform, ElemValues;
    var v := ValueOf(FixedArrayArg(e, elems));
    EncOfElems(e, elems, v);
    WordsAreEnc(e, InFixedArray, elems);
    StaticElem(e);
    assert [] + Abi.Assemble(SpecParts(e, elems)) == Abi.Assemble(SpecParts(e, elems));
  }

  lemma StaticElem(e: Elem)
    ensures !Abi.DynamicType(ElemType(e))
  {
  }

  lemma ArrayIsEnc(e: Elem, elems: seq<seq<byte>>)
    requires AllConform(e, elems)
    ensures EncodedIffSafe(ArrayArg(e, elems))
  {
    hide Abi.Assemble, Abi.Enc, Abi.WellFormed, WordParts, SpecParts, Be, AllSafe, AllConform, ElemValues;
    var v := ValueOf(ArrayArg(e, elems));
    EncOfElems(e, elems, v);
    WordsAreEnc(e, InArray, elems);
    SamePrefix(Be(|elems|, 32), Abi.Assemble(WordParts(e, InArray, elems)), Abi.Assemble(SpecParts(e, elems)));
  }

  lemma BlobIsEnc(isString: bool, bs: seq<byte>)
    ensures EncodedIffSafe(BlobArg(isString, bs))
  {
  }

  lemma BlobArrayIsEnc(isString: bool, fields: seq<seq<byte>>)
    ensures EncodedIffSafe(BlobArrayArg(isString, fields))
  {
    BlobsAreEnc(isString, fields, ValueOf(BlobArrayArg(isString, fields)));
  }

  lemma BlobFixedArrayIsEnc(isString: bool, fields: seq<seq<byte>>)
    ensures EncodedIffSafe(BlobFixedArrayArg(isString, fields))
  {
    BlobsAreEnc(isString, fields, ValueOf(BlobFixedArrayArg(isString, fields)));
  }

  lemma SamePrefix(p: seq<byte>, a: seq<byte>, b: seq<byte>)
    ensures p + a == p + b <==> a == b
  {
    if p + a == p + b {
      assert a == (p + a)[|p|..];
      assert b == (p + b)[|p|..];
    }
  }

  /** The generated code writes the Solidity ABI encoding of the argument tuple exactly when
      every argument is safe. */
  lemma CallArgsIsEnc(args: seq<Arg>)
    requires ConformingArgs(args)
    ensures ValidArgs(args) && Abi.WellFormed(Abi.Tuple(ValuesOf(args)))
    ensures |CallArgs(args)| == |Abi.Enc(Abi.Tuple(ValuesOf(args)))|
    ensures CallArgs(args) == Abi.Enc(Abi.Tuple(ValuesOf(args)))
       <==> forall i :: 0 <= i < |args| ==> Safe(args[i])
  {
    hide ArgBytes, ValueOf, Safe, Dynamic, ConformingArg, Abi.Assemble, Abi.Dynamic;
    ConformingIsValid(args);
    var vs := ValuesOf(args);
    forall i | 0 <= i < |args|
      ensures Abi.WellFormed(vs[i]) && Abi.Dynamic(vs[i]) == Dynamic(args[i])
      ensures |Abi.Enc(vs[i])| == |ArgBytes(args[i])|
      ensures ArgBytes(args[i]) == Abi.Enc(vs[i]) <==> Safe(args[i])
    {
      assert ConformingArg(args[i]);
      ArgIsEnc(args[i]);
    }
    var whole := Abi.Tuple(vs);
    assert Abi.WellFormed(whole);
    var ps, qs := ArgParts(args), Abi.Parts(whole, vs);
    SamePartsSameBytes(ps, qs);
    assert ps == qs <==> forall i :: 0 <= i < |args| ==> ps[i].enc == qs[i].enc;
  }

  lemma TruncateShortens(a: Arg)
    requires ValidArg(a)
    ensures Whole(a) ==> Truncate(a) == a
    ensures !Whole(a) ==> Dynamic(a) && |ArgBytes(Truncate(a))| < |ArgBytes(a)|
  {
    hide Be, Word;
    if Whole(a) {
      if a.BlobArg? && a.isString {
        assert a.bs[..|a.bs|] == a.bs;
      }
    } else {
      CeilWordGap(|a.bs|);
    }
  }

  lemma CeilWordGap(n: nat)
    requires n >= U32_MODULUS
    ensures CeilWord(U32(n)) < CeilWord(n)
  {
    var q := n / U32_MODULUS;
    assert n == U32_MODULUS * q + U32(n);
    assert n >= U32_MODULUS + U32(n);
  }

  /** Truncation leaves the head as long as it was and can only shorten the tails. */
  lemma {:induction false} TruncatedSizes(args: seq<Arg>, n: nat)
    requires ValidArgs(args) && n <= |args|
    ensures var ps, qs := ArgParts(Truncated(args)), ArgParts(args);
            && Abi.HeadSize(ps, n) == Abi.HeadSize(qs, n) && Abi.TailSize(ps, n) <= Abi.TailSize(qs, n)
            && ((exists i :: 0 <= i < n && !Whole(args[i])) ==> Abi.TailSize(ps, n) < Abi.TailSize(qs, n))
  {
    hide ArgBytes, Whole, Truncate, Dynamic, Abi.HeadLen, Abi.TailLen;
    if n > 0 {
      TruncatedSizes(args, n - 1);
      TruncatedPart(args, n - 1);
    }
  }

  lemma TruncatedPart(args: seq<Arg>, i: nat)
    requires ValidArgs(args) && i < |args|
    ensures var p, q := ArgParts(Truncated(args))[i], ArgParts(args)[i];
            && Abi.HeadLen(p) == Abi.HeadLen(q) && Abi.TailLen(p) <= Abi.TailLen(q)
            && (!Whole(args[i]) ==> Abi.TailLen(p) < Abi.TailLen(q))
  {
    hide ArgBytes;
    assert ValidArg(args[i]);
    TruncateShortens(args[i]);
  }

  /** What is written for any arguments is the ABI encoding of those arguments exactly when every
      argument is safe and every string is short enough to be sent whole. */
  lemma SentIsEnc(args: seq<Arg>)
    requires ConformingArgs(args)
    ensures ValidArgs(args) && Abi.WellFormed(Abi.Tuple(ValuesOf(args)))
    ensures CallArgs(Truncated(args)) == Abi.Enc(Abi.Tuple(ValuesOf(args)))
       <==> forall i :: 0 <= i < |args| ==> Safe(args[i]) && Whole(args[i])
  {
    hide Abi.Enc, Abi.WellFormed, Safe, Whole, Truncate, ArgParts, ValidArg, ValuesOf;
    CallArgsIsEnc(args);
    if forall i :: 0 <= i < |args| ==> Whole(args[i]) {
      forall i | 0 <= i < |args| ensures Truncated(args)[i] == args[i] {
        TruncateShortens(args[i]);
      }
      assert Truncated(args) == args;
    } else {
      TruncatedSizes(args, |args|);
      assert |CallArgs(Truncated(args))| < |CallArgs(args)|;
    }
  }

  /** A concrete failure: `int8[1]` holding -1 is written as 255. */
  lemma LostSignExample()
    ensures var args := [FixedArrayArg(SInt(1), [[0xFF]])];
            && ConformingArgs(args)
            && CallArgs(args) == Fill(0, 31) + [0xFF]
            && Abi.WellFormed(Abi.Tuple(ValuesOf(args)))
            && Abi.Enc(Abi.Tuple(ValuesOf(args))) != CallArgs(args)
  {
    hide CallArgs, Safe, Abi.Enc, Abi.WellFormed, Fill;
    var a := FixedArrayArg(SInt(1), [[0xFF]]);
    LostSignWord();
    assert ConformingArg(a);
    CallArgsIsEnc([a]);
    assert !Safe([a][0]);
  }

  lemma LostSignWord()
    ensures var a := FixedArrayArg(SInt(1), [[0xFF]]);
            ValidArg(a) && !Safe(a) && CallArgs([a]) == Fill(0, 31) + [0xFF]
  {
    hide Fill, Abi.Assemble;
    var elems: seq<seq<byte>> := [[0xFF]];
    var args := [FixedArrayArg(SInt(1), elems)];
    assert Negative(elems[0]) && !ElemSafe(SInt(1), InFixedArray, elems[0]);
    assert Reverse(elems[0]) == [0xFF];
    SinglePart(WordParts(SInt(1), InFixedArray, elems));
    SinglePart(ArgParts(args));
  }

  lemma SinglePart(ps: seq<Abi.Part>)
    requires |ps| == 1 && !ps[0].dynamic
    ensures Abi.Assemble(ps) == ps[0].enc
  {
    Abi.StaticTails(ps, 1);
    assert Abi.Heads(ps, 0) == [];
    assert Abi.Heads(ps, 1) == [] + ps[0].enc;
  }
}
