/** The parameters of a generated function as they lie in memory. */
module Params {
  import opened Bytes
  import opened ContractTypes
  import opened Layout
  import TypeNames

  /** Elementary values and element arrays live in caller memory; `mem` of a native integer is
      the caller's copy, which C passes by value. Variable-length contents are only ever the
      source of a memcpy, so their bytes are given as a value. */
  datatype Param =
    | ScalarParam(e: Elem, mem: array<byte>)
    | FixedArrayParam(e: Elem, length: nat, mem: array<byte>)
    | ArrayParam(e: Elem, length: nat, mem: array<byte>)
    | BlobParam(isString: bool, bs: seq<byte>)
    | BlobArrayParam(isString: bool, fields: seq<seq<byte>>)
    | BlobFixedArrayParam(isString: bool, fields: seq<seq<byte>>)

  predicate InMemory(p: Param) {
    p.ScalarParam? || p.FixedArrayParam? || p.ArrayParam?
  }

  /** The first `n` elements of a C array with elements of `size` bytes. */
  function Elements(s: seq<byte>, size: nat, n: nat): (es: seq<seq<byte>>)
    requires n * size <= |s|
    ensures |es| == n && forall i :: 0 <= i < n ==> |es[i]| == size
  {
    if n == 0 then []
    else
      assert n * size == (n - 1) * size + size;
      Elements(s, size, n - 1) + [s[(n - 1) * size..n * size]]
  }

  predicate ValidParam(p: Param) {
    match p
    case ScalarParam(e, mem) => ValidElem(e) && mem.Length == Size(e)
    case FixedArrayParam(e, n, mem) => ValidElem(e) && n * Size(e) <= mem.Length
    case ArrayParam(e, n, mem) => ValidElem(e) && n * Size(e) <= mem.Length
    case _ => true
  }

  /** The value a parameter holds. */
  function ArgOf(p: Param): (a: Arg)
    requires ValidParam(p)
    reads if InMemory(p) then {p.mem} else {}
    ensures ValidArg(a)
  {
    match p
    case ScalarParam(e, mem) => ScalarArg(e, mem[..])
    case FixedArrayParam(e, n, mem) => FixedArrayArg(e, Elements(mem[..], Size(e), n))
    case ArrayParam(e, n, mem) => ArrayArg(e, Elements(mem[..], Size(e), n))
    case BlobParam(isString, bs) => BlobArg(isString, bs)
    case BlobArrayParam(isString, fields) => BlobArrayArg(isString, fields)
    case BlobFixedArrayParam(isString, fields) => BlobFixedArrayArg(isString, fields)
  }

  /** Lengths are BUINT32 variables, except strlen, which is a 64-bit size_t. */
  predicate FitsCTypes(p: Param) {
    match p
    case ScalarParam(_, _) => true
    case FixedArrayParam(_, n, _) => n < U32_MODULUS
    case ArrayParam(_, n, _) => n < U32_MODULUS
    case BlobParam(isString, bs) => |bs| < if isString then U64_MODULUS else U32_MODULUS
    case BlobArrayParam(_, fields) => FieldsFit(fields)
    case BlobFixedArrayParam(_, fields) => FieldsFit(fields)
  }

  predicate FieldsFit(fields: seq<seq<byte>>) {
    |fields| < U32_MODULUS && forall i :: 0 <= i < |fields| ==> |fields[i]| < U32_MODULUS
  }

  predicate ValidParams(ps: seq<Param>) {
    forall i :: 0 <= i < |ps| ==> ValidParam(ps[i]) && FitsCTypes(ps[i])
  }

  function Memory(ps: seq<Param>): set<array<byte>> {
    set i | 0 <= i < |ps| && InMemory(ps[i]) :: ps[i].mem
  }

  /** The parameters hold the given values. */
  ghost predicate Holds(ps: seq<Param>, args: seq<Arg>)
    reads Memory(ps)
  {
    && |ps| == |args| && ValidParams(ps)
    && forall i :: 0 <= i < |ps| ==> ArgOf(ps[i]) == args[i]
  }

  /** A scalar wider than a native integer is a pointer to the caller's buffer, and it is that
      buffer which is byte-swapped. */
  predicate SwappedInPlace(e: Elem) {
    !Native(e) && Swapped(e, Single)
  }

  predicate ByReference(p: Param) {
    p.ScalarParam? && SwappedInPlace(p.e)
  }

  function SwappedMemory(ps: seq<Param>): set<array<byte>> {
    set i | 0 <= i < |ps| && ByReference(ps[i]) :: ps[i].mem
  }

  /** A buffer that gets swapped is not shared with another parameter. */
  predicate Separate(ps: seq<Param>) {
    forall i, j :: 0 <= i < |ps| && 0 <= j < |ps| && i != j && ByReference(ps[i]) && InMemory(ps[j]) ==>
      ps[i].mem != ps[j].mem
  }

  /** What a call leaves in a parameter. */
  function AfterCall(a: Arg): Arg {
    if a.ScalarArg? && SwappedInPlace(a.e) then a.(mem := Reverse(a.mem)) else a
  }

  predicate AddressOrWide(e: Elem) {
    e.Address? || ((e.UInt? || e.SInt?) && e.size in {16, 32})
  }

  /** Which elementary arguments a call leaves byte-swapped in the caller's memory: addresses and
      integers of 128 and 256 bits, as the two tables say for the text of the type. */
  lemma SwappedByCall(e: Elem, mem: seq<byte>)
    requires ValidElem(e)
    ensures AfterCall(ScalarArg(e, mem)).mem == if AddressOrWide(e) then Reverse(mem) else mem
    ensures AddressOrWide(e) <==>
      var s := TypeNames.Name(Elementary(e)); TypeNames.RequireEndianChange(s) && !TypeNames.IsValueType(s)
  {
    hide TypeNames.IsSignedValue, TypeNames.IsRightAligned, TypeNames.RequireEndianChange, TypeNames.IsValueType;
    TypeNames.Lookups(e, Single, 0);
    TypeNames.NameInMapping(e);
  }

  /** Two calls leave every argument as it was. */
  lemma TwoCallsRestore(a: Arg)
    ensures AfterCall(AfterCall(a)) == a
  {
  }
}
