/** The passes that size the buffer and compute the head offsets, in the C arithmetic of the
    emitted expressions: BUINT32 variables, with size_t wherever strlen takes part. */
module Sizing {
  import opened Bytes
  import opened ContractTypes
  import opened Layout
  import opened Params
  import Abi = SolidityAbi

  predicate BlobArrayLike(p: Param) {
    p.BlobArrayParam? || p.BlobFixedArrayParam?
  }

  /** Parameters whose tail length is kept in a `_data_length` variable. */
  predicate ArrayLike(p: Param) {
    p.ArrayParam? || BlobArrayLike(p)
  }

  function FieldTotal(fields: seq<seq<byte>>, n: nat): nat
    requires n <= |fields|
  {
    if n == 0 then 0 else FieldTotal(fields, n - 1) + (CeilWord(|fields[n - 1]|) + 32)
  }

  function HeadBytes(p: Param): nat {
    if p.FixedArrayParam? then p.length * 32 else 32
  }

  /** Length of the tail of an array-like parameter. */
  function ArrayTail(p: Param): nat {
    match p
    case ArrayParam(_, n, _) => n * 32 + 32
    case BlobArrayParam(_, fields) => FieldTotal(fields, |fields|) + (|fields| * 32 + 32)
    case BlobFixedArrayParam(_, fields) => FieldTotal(fields, |fields|) + |fields| * 32
    case _ => 0
  }

  /** Length of the tail of `bytes` and `string`, of which a BUINT32 number of bytes is written. */
  function BlobTail(p: Param): nat {
    if p.BlobParam? then CeilWord(U32(|p.bs|)) + 32 else 0
  }

  function HeadTotal(ps: seq<Param>, n: nat): nat
    requires n <= |ps|
  {
    if n == 0 then 0 else HeadTotal(ps, n - 1) + HeadBytes(ps[n - 1])
  }

  function ArrayTotal(ps: seq<Param>, n: nat): nat
    requires n <= |ps|
  {
    if n == 0 then 0 else ArrayTotal(ps, n - 1) + ArrayTail(ps[n - 1])
  }

  function BlobTotal(ps: seq<Param>, n: nat): nat
    requires n <= |ps|
  {
    if n == 0 then 0 else BlobTotal(ps, n - 1) + BlobTail(ps[n - 1])
  }

  // ----- The lengths computed are those of the encoding

  lemma {:induction false} FieldTotalIsTails(fields: seq<seq<byte>>, n: nat)
    requires n <= |fields|
    ensures Abi.TailSize(BlobParts(fields), n) == FieldTotal(fields, n)
  {
    hide CeilWord, BlobBytes;
    if n > 0 {
      FieldTotalIsTails(fields, n - 1);
    }
  }

  /** The bytes written for a parameter holding `a` are as many as computed from its lengths. */
  lemma ArgSize(p: Param, a: Arg)
    requires ValidParam(p) && FitsCTypes(p) && ArgOf(p) == a
    ensures Dynamic(a) <==> ArrayLike(p) || p.BlobParam?
    ensures |ArgBytes(Truncate(a))| == if Dynamic(a) then ArrayTail(p) + BlobTail(p) else HeadBytes(p)
  {
    hide CeilWord, Word, Be, Elements, U32, Abi.Heads, Abi.Tails, Abi.TailSize, Abi.HeadSize;
    match a
    case ScalarArg(e, mem) =>
    case FixedArrayArg(e, elems) =>
      WordPartsSize(WordParts(e, InFixedArray, elems), |elems|);
    case ArrayArg(e, elems) =>
      WordPartsSize(WordParts(e, InArray, elems), |elems|);
    case BlobArg(_, bs) =>
    case BlobArrayArg(_, fields) =>
      BlobHeads(fields, |fields|);
      FieldTotalIsTails(fields, |fields|);
    case BlobFixedArrayArg(_, fields) =>
      BlobHeads(fields, |fields|);
      FieldTotalIsTails(fields, |fields|);
  }

  lemma {:induction false} TotalsAreSizes(ps: seq<Param>, args: seq<Arg>, n: nat)
    requires Holds(ps, args) && ValidArgs(args) && n <= |ps|
    ensures Abi.HeadSize(ArgParts(Truncated(args)), n) == HeadTotal(ps, n)
    ensures Abi.TailSize(ArgParts(Truncated(args)), n) == ArrayTotal(ps, n) + BlobTotal(ps, n)
  {
    hide ArgBytes, HeadBytes, ArrayTail, BlobTail, Dynamic, Truncate, ArgOf, ValidParam, FitsCTypes, ValidArg;
    if n > 0 {
      TotalsAreSizes(ps, args, n - 1);
      PartSize(ps[n - 1], args[n - 1]);
    }
  }

  lemma PartSize(p: Param, a: Arg)
    requires ValidParam(p) && FitsCTypes(p) && ArgOf(p) == a
    ensures var t := Truncate(a);
            var part := Abi.Part(Dynamic(t), ArgBytes(t));
            Abi.HeadLen(part) == HeadBytes(p) && Abi.TailLen(part) == ArrayTail(p) + BlobTail(p)
  {
    hide ArgBytes;
    ArgSize(p, a);
  }

  // ----- Arithmetic modulo the C types

  /** Adding in either unsigned width preserves the sum modulo 2^32. */
  lemma WrapAdd(x: nat, y: nat, modulus: nat, sum: nat, term: nat)
    requires UnsignedWidth(modulus) && U32(x) == U32(sum) && U32(y) == U32(term)
    ensures U32((x + y) % modulus) == U32(sum + term)
  {
    NarrowAfterWrap(x + y, modulus);
    U32AddSame(x, y, sum, term);
  }

  lemma NarrowAfterWrap(z: nat, modulus: nat)
    requires UnsignedWidth(modulus)
    ensures U32(z % modulus) == U32(z)
  {
    if modulus == U64_MODULUS {
      var r := z % U64_MODULUS;
      var a, q := r / U32_MODULUS, z / U64_MODULUS;
      Remainder(r, a, U32(r));
      Remainder(z, U32_MODULUS * q + a, U32(r));
    } else {
      U32Idempotent(z);
    }
  }

  /** Quotient and remainder determine each other. */
  lemma Remainder(x: nat, q: nat, r: nat)
    requires x == U32_MODULUS * q + r && r < U32_MODULUS
    ensures U32(x) == r
  {
    var d := x / U32_MODULUS;
    assert x == U32_MODULUS * d + U32(x);
    assert d == q;
  }

  lemma U32AddSame(x: nat, y: nat, sum: nat, term: nat)
    requires U32(x) == U32(sum) && U32(y) == U32(term)
    ensures U32(x + y) == U32(sum + term)
  {
    U32AddLeft(x, y);
    U32AddLeft(y, U32(x));
    U32AddLeft(sum, term);
    U32AddLeft(term, U32(sum));
  }

  lemma U32AddLeft(x: nat, y: nat)
    ensures U32(x + y) == U32(U32(x) + y)
  {
    assert x == U32_MODULUS * (x / U32_MODULUS) + U32(x);
  }

  lemma RoundUpModulo(v: nat, modulus: nat)
    requires UnsignedWidth(modulus) && v < modulus
    ensures U32(RoundUp(v, modulus)) == U32(CeilWord(v))
  {
    RoundUpIsCeil(v, modulus);
    WrapAdd(0, CeilWord(v), modulus, 0, CeilWord(v));
  }

  /** BOAT_ROUNDUP of the length of `bytes` (a BUINT32) or `string` (strlen, a size_t). */
  function RoundedLength(isString: bool, n: nat): nat {
    RoundUp(n, if isString then U64_MODULUS else U32_MODULUS)
  }

  /** Cutting a length to 32 bits before or after rounding it up makes no difference modulo 2^32. */
  lemma CeilOfTruncated(n: nat)
    ensures U32(CeilWord(U32(n))) == U32(CeilWord(n))
  {
    hide U32;
    var k := n - U32(n);
    MultipleOfModulus(n);
    CeilWordShift(U32(n), k);
    U32Shift(k, 0, CeilWord(U32(n)));
  }

  lemma MultipleOfModulus(n: nat)
    ensures U32(n - U32(n)) == 0 && (n - U32(n)) % 32 == 0
  {
    var q := n / U32_MODULUS;
    assert n - U32(n) == U32_MODULUS * q;
    Remainder(n - U32(n), q, 0);
    MultipleOf32(n - U32(n), 0x800_0000 * q);
  }

  lemma MultipleOf32(x: nat, k: nat)
    requires x == 32 * k
    ensures x % 32 == 0
  {
  }

  lemma CeilWordShift(r: nat, k: nat)
    requires k % 32 == 0
    ensures CeilWord(r + k) == CeilWord(r) + k
  {
    var q := k / 32;
    assert k == 32 * q;
    assert (r + k + 31) / 32 == (r + 31) / 32 + q;
  }

  /** The macro applied to the full length, kept in a BUINT32. */
  lemma RoundedLengthModulo(isString: bool, n: nat)
    requires n < if isString then U64_MODULUS else U32_MODULUS
    ensures U32(RoundedLength(isString, n)) == U32(CeilWord(U32(n)))
  {
    hide U32, CeilWord, RoundUp;
    RoundUpModulo(n, if isString then U64_MODULUS else U32_MODULUS);
    CeilOfTruncated(n);
  }

  /** A 32-bit length either rounds up within 32 bits, or is so long that it reaches past any
      storage a BUINT32 can size. */
  lemma CeilWordFits(n: nat)
    requires n < U32_MODULUS
    ensures n <= CeilWord(n) <= U32_MODULUS
    ensures CeilWord(n) == U32_MODULUS ==> n > U32_MODULUS - 32
  {
  }

  /** `acc + BOAT_ROUNDUP(length, 32) + 32`, in size_t once a strlen is part of the sum. */
  method AddBlobTerm(acc: nat, width: nat, isString: bool, length: nat, ghost sum: nat)
      returns (acc': nat, width': nat)
    requires UnsignedWidth(width) && U32(acc) == U32(sum)
    requires length < if isString then U64_MODULUS else U32_MODULUS
    ensures UnsignedWidth(width')
    ensures U32(acc') == U32(sum + (CeilWord(U32(length)) + 32))
  {
    hide RoundedLength, CeilWord, U32;
    ghost var padded := CeilWord(U32(length));
    width' := if isString then U64_MODULUS else width;
    var rounded := RoundedLength(isString, length);
    RoundedLengthModulo(isString, length);
    WrapAdd(acc, rounded, width', sum, padded);
    acc' := (acc + rounded) % width';
    WrapAdd(acc', 32, width', sum + padded, 32);
    acc' := (acc' + 32) % width';
  }

  // ----- The passes

  /** gen_nonFixed_mallocSize_exp: the terms for `bytes` and `string`. */
  method BlobTerms(ps: seq<Param>) returns (acc: nat, width: nat)
    requires ValidParams(ps)
    ensures UnsignedWidth(width) && U32(acc) == U32(BlobTotal(ps, |ps|))
  {
    hide U32, CeilWord, RoundUp;
    acc, width := 0, U32_MODULUS;
    for i := 0 to |ps|
      invariant UnsignedWidth(width) && U32(acc) == U32(BlobTotal(ps, i))
    {
      if ps[i].BlobParam? {
        acc, width := AddBlobTerm(acc, width, ps[i].isString, |ps[i].bs|, BlobTotal(ps, i));
      }
    }
  }

  /** gen_Fixed_mallocSize_exp: the number of words in the head. */
  method HeadWords(ps: seq<Param>) returns (cnt: nat)
    ensures cnt * 32 == HeadTotal(ps, |ps|)
  {
    cnt := 0;
    for i := 0 to |ps|
      invariant cnt * 32 == HeadTotal(ps, i)
    {
      if ps[i].FixedArrayParam? {
        cnt := cnt + ps[i].length;
      } else {
        cnt := cnt + 1;
      }
    }
  }

  /** The first-pass contents of `_filled_length`: padded length plus the length word. */
  ghost predicate FirstPass(filled: array<nat>, fields: seq<seq<byte>>)
    reads filled
  {
    && filled.Length == |fields|
    && forall i :: 0 <= i < |fields| ==> filled[i] == U32(RoundUp(|fields[i]|, U32_MODULUS) + 32)
  }

  method FieldLengths(fields: seq<seq<byte>>) returns (dataLength: nat, filled: array<nat>)
    requires FieldsFit(fields)
    ensures dataLength < U32_MODULUS && U32(dataLength) == U32(FieldTotal(fields, |fields|))
    ensures fresh(filled) && FirstPass(filled, fields)
  {
    hide U32, CeilWord, RoundUp;
    filled := new nat[|fields|];
    dataLength := 0;
    for i := 0 to |fields|
      invariant dataLength < U32_MODULUS && U32(dataLength) == U32(FieldTotal(fields, i))
      invariant forall k :: 0 <= k < i ==> filled[k] == U32(RoundUp(|fields[k]|, U32_MODULUS) + 32)
    {
      RoundUpModulo(|fields[i]|, U32_MODULUS);
      filled[i] := U32(RoundUp(|fields[i]|, U32_MODULUS) + 32);
      FilledTerm(|fields[i]|);
      U32Add(dataLength, filled[i], FieldTotal(fields, i), CeilWord(|fields[i]|) + 32);
      dataLength := U32(dataLength + filled[i]);
    }
  }

  lemma U32Add(x: nat, y: nat, sum: nat, term: nat)
    requires U32(x) == U32(sum) && U32(y) == U32(term)
    ensures U32(U32(x + y)) == U32(sum + term)
  {
    WrapAdd(x, y, U32_MODULUS, sum, term);
  }

  lemma FilledTerm(n: nat)
    requires n < U32_MODULUS
    ensures U32(U32(RoundUp(n, U32_MODULUS) + 32)) == U32(CeilWord(n) + 32)
  {
    RoundUpModulo(n, U32_MODULUS);
    U32Add(RoundUp(n, U32_MODULUS), 32, CeilWord(n), 32);
  }

  /** The `_data_length` of one array-like parameter. */
  method DataLength(p: Param) returns (dataLength: nat, filled: array<nat>)
    requires FitsCTypes(p) && ArrayLike(p)
    ensures dataLength == U32(ArrayTail(p))
    ensures fresh(filled) && (BlobArrayLike(p) ==> FirstPass(filled, p.fields))
  {
    hide CeilWord, RoundUp;
    dataLength := 0;
    if BlobArrayLike(p) {
      dataLength, filled := FieldLengths(p.fields);
    } else {
      filled := new nat[p.length];
    }
    var n := if BlobArrayLike(p) then |p.fields| else p.length;
    var extra := if p.BlobFixedArrayParam? then n * 32 else n * 32 + 32;
    U32Add(dataLength, U32(extra), if BlobArrayLike(p) then FieldTotal(p.fields, n) else 0, extra);
    dataLength := U32(dataLength + U32(extra));
  }

  /** The `_filled_length` arrays of the array-like parameters, each with its own storage. */
  ghost predicate FilledArrays(ps: seq<Param>, filled: seq<array<nat>>)
    reads filled
  {
    && |filled| == |ps|
    && (forall i :: 0 <= i < |ps| && BlobArrayLike(ps[i]) ==> FirstPass(filled[i], ps[i].fields))
    && forall i, j :: 0 <= i < j < |ps| ==> filled[i] != filled[j]
  }

  /** The `_data_length` variables. */
  ghost predicate DataLengths(ps: seq<Param>, lengths: seq<nat>) {
    && |lengths| == |ps|
    && forall i :: 0 <= i < |ps| && ArrayLike(ps[i]) ==> lengths[i] == U32(ArrayTail(ps[i]))
  }

  /** generate_nonFixedArray_length: adds every `_data_length` to `field_len`. */
  method ArrayLengths(ps: seq<Param>, start: nat) returns (fieldLen: nat, lengths: seq<nat>, filled: seq<array<nat>>)
    requires ValidParams(ps)
    ensures U32(fieldLen) == U32(start + ArrayTotal(ps, |ps|)) && (start < U32_MODULUS ==> fieldLen < U32_MODULUS)
    ensures DataLengths(ps, lengths)
    ensures FilledArrays(ps, filled) && forall i :: 0 <= i < |filled| ==> fresh(filled[i])
  {
    hide U32, ArrayTail, FirstPass, FitsCTypes, ValidParam, BlobArrayLike;
    fieldLen, lengths, filled := start, [], [];
    for i := 0 to |ps|
      invariant U32(fieldLen) == U32(start + ArrayTotal(ps, i)) && (start < U32_MODULUS ==> fieldLen < U32_MODULUS)
      invariant |lengths| == |filled| == i
      invariant DataLengths(ps[..i], lengths)
      invariant FilledArrays(ps[..i], filled)
      invariant forall k :: 0 <= k < i ==> fresh(filled[k])
    {
      var dataLength, storage := 0, new nat[0];
      if ArrayLike(ps[i]) {
        dataLength, storage := DataLength(ps[i]);
        U32Add(fieldLen, dataLength, start + ArrayTotal(ps, i), ArrayTail(ps[i]));
        fieldLen := U32(fieldLen + dataLength);
      } else {
        NoArrayTail(ps[i]);
      }
      lengths := lengths + [dataLength];
      filled := filled + [storage];
    }
    assert ps[..|ps|] == ps;
  }

  lemma NoArrayTail(p: Param)
    requires !ArrayLike(p)
    ensures ArrayTail(p) == 0
  {
  }

  /** The three sizing passes: whatever the arguments, `field_len` is the length of the call data
      modulo 2^32. */
  method FieldLength(ps: seq<Param>) returns (fieldLen: nat, lengths: seq<nat>, filled: seq<array<nat>>)
    requires ValidParams(ps)
    ensures fieldLen == U32(4 + HeadTotal(ps, |ps|) + (ArrayTotal(ps, |ps|) + BlobTotal(ps, |ps|)))
    ensures DataLengths(ps, lengths)
    ensures FilledArrays(ps, filled) && forall i :: 0 <= i < |filled| ==> fresh(filled[i])
  {
    hide U32, HeadTotal, ArrayTotal, BlobTotal, FilledArrays, DataLengths;
    var acc, width := BlobTerms(ps);
    var cnt := HeadWords(ps);
    WrapAdd(acc, cnt * 32 + 4, width, BlobTotal(ps, |ps|), cnt * 32 + 4);
    var start := U32((acc + (cnt * 32 + 4)) % width);
    U32Idempotent((acc + (cnt * 32 + 4)) % width);
    fieldLen, lengths, filled := ArrayLengths(ps, start);
    U32Shift(start, BlobTotal(ps, |ps|) + (cnt * 32 + 4), ArrayTotal(ps, |ps|));
  }

  lemma U32Idempotent(x: nat)
    ensures U32(U32(x)) == U32(x)
  {
  }

  lemma U32Shift(x: nat, y: nat, z: nat)
    requires U32(x) == U32(y)
    ensures U32(x + z) == U32(y + z)
  {
    U32AddSame(x, z, y, z);
  }

  /** get_nonFixed_offset: the head length plus the tails of the parameters before `index`, from
      the lengths known before any tail is written. */
  method Offset(ps: seq<Param>, lengths: seq<nat>, index: nat) returns (location: nat)
    requires ValidParams(ps) && DataLengths(ps, lengths) && index <= |ps|
    ensures location == U32(HeadTotal(ps, |ps|) + (ArrayTotal(ps, index) + BlobTotal(ps, index)))
  {
    hide U32, CeilWord, RoundUp, ArrayTail;
    var offsetInt := 0;
    for i := 0 to |ps|
      invariant offsetInt == HeadTotal(ps, i)
    {
      if ps[i].FixedArrayParam? {
        offsetInt := offsetInt + ps[i].length * 32;
      } else {
        offsetInt := offsetInt + 32;
      }
    }
    var acc: nat, width: nat := 0, U32_MODULUS;
    for i := 0 to index
      invariant UnsignedWidth(width) && U32(acc) == U32(ArrayTotal(ps, i) + BlobTotal(ps, i))
    {
      if ArrayLike(ps[i]) {
        U32Idempotent(ArrayTail(ps[i]));
        WrapAdd(acc, lengths[i], width, ArrayTotal(ps, i) + BlobTotal(ps, i), ArrayTail(ps[i]));
        acc := (acc + lengths[i]) % width;
      } else {
        NoArrayTail(ps[i]);
        if ps[i].BlobParam? {
          acc, width := AddBlobTerm(acc, width, ps[i].isString, |ps[i].bs|, ArrayTotal(ps, i) + BlobTotal(ps, i));
        }
      }
    }
    WrapAdd(acc, offsetInt, width, ArrayTotal(ps, index) + BlobTotal(ps, index), offsetInt);
    location := U32((acc + offsetInt) % width);
  }
}
