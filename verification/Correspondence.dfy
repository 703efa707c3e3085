/** Accepted types and conforming arguments against the types and values of the ABI: each accepted
    type has its canonical name, and the C arguments of a type are exactly its ABI values. */
module Correspondence {
  import opened Bytes
  import opened ContractTypes
  import opened Layout
  import opened Texts
  import TypeNames
  import Abi = SolidityAbi

  /** The ABI type an accepted type stands for. */
  function AbiTypeOf(t: AbiType): Abi.Type {
    match t
    case Elementary(e) => ElemType(e)
    case FixedArray(e, k) => Abi.FixedArrayT(ElemType(e), k)
    case DynArray(e) => Abi.ArrayT(ElemType(e))
    case Blob(isString) => BlobType(isString)
    case BlobArray(isString) => Abi.ArrayT(BlobType(isString))
    case BlobFixedArray(isString, k) => Abi.FixedArrayT(BlobType(isString), k)
  }

  lemma TypeOfArg(a: Arg)
    requires ValidArg(a)
    ensures Abi.TypeOfValue(ValueOf(a)) == AbiTypeOf(TypeOf(a))
  {
    if a.ScalarArg? {
      TypeOfElem(a.e, a.mem);
    }
  }

  // ----- Names

  lemma ElemNameIsCanonical(e: Elem)
    requires ValidElem(e)
    ensures TypeNames.ElemName(e) == Abi.TypeName(ElemType(e))
  {
    hide Decimal;
    if e.UInt? || e.SInt? {
      TypeNames.IntegerName(e.size);
    }
  }

  /** The type string of an accepted type is its canonical name in the ABI. */
  lemma NameIsCanonical(t: AbiType)
    requires ValidType(t)
    ensures TypeNames.Name(t) == Abi.TypeName(AbiTypeOf(t))
  {
    hide Decimal, TypeNames.ElemName;
    var b := TypeNames.BaseName(t);
    if TypeNames.HasElem(t) {
      ElemNameIsCanonical(t.e);
    }
    match t
    case DynArray(_) => TypeNames.OneSuffix(b, "");
    case BlobArray(_) => TypeNames.OneSuffix(b, "");
    case FixedArray(_, k) => TypeNames.OneSuffix(b, Decimal(k));
    case BlobFixedArray(_, k) => TypeNames.OneSuffix(b, Decimal(k));
    case _ => assert TypeNames.Name(t) == b;
  }

  /** The type strings under which a negative value loses its sign. */
  predicate MishandledText(s: string) {
    var base, brackets := TypeNames.BaseText(s), TypeNames.BracketText(s);
    || s == "int128" || s == "int128[]"
    || (base in {"int8", "int16", "int32", "int64", "int128"} && brackets.Some? && brackets.value != "")
  }

  /** The sign is lost for `int128`, `int128[]` and `int8[k]` to `int128[k]`, and for nothing else. */
  lemma MishandledTypes(e: Elem, pos: Position, k: nat)
    requires ValidElem(e)
    ensures SignLost(e, pos) <==> MishandledText(TypeNames.Name(TypeNames.TypeAt(e, pos, k)))
  {
    hide Decimal, TypeNames.BaseText, TypeNames.BracketText, TypeNames.Base, TypeNames.ElemName, TypeNames.Suffixes;
    var b, ds := TypeNames.ElemName(e), TypeNames.Brackets(TypeNames.TypeAt(e, pos, k));
    TypeNames.BaseNameInTable(Elementary(e));
    TypeNames.BaseShape(b);
    TypeNames.ReadText(b, ds);
    SignedNames(e);
    assert "int128" + "[]" == "int128[]" && "int128[]"[6] == '[';
    if pos == Single {
      TypeNames.PlainClasses(b);
    } else {
      TypeNames.SuffixEquals(b, ds[0], "int128");
      NotPlain(b, ds[0], "int128");
    }
  }

  /** Some integer in the argument has its sign bit set. */
  predicate SomeNegative(a: Arg)
    requires ValidArg(a)
  {
    match a
    case ScalarArg(_, mem) => Negative(mem)
    case FixedArrayArg(_, elems) => exists i :: 0 <= i < |elems| && elems[i] != [] && Negative(elems[i])
    case ArrayArg(_, elems) => exists i :: 0 <= i < |elems| && elems[i] != [] && Negative(elems[i])
    case _ => false
  }

  /** An argument is unsafe exactly when its type string is a mishandled one and it holds a negative
      integer. */
  lemma SafeByText(a: Arg)
    requires ValidArg(a)
    ensures Safe(a) <==> !(MishandledText(TypeNames.Name(TypeOf(a))) && SomeNegative(a))
  {
    hide MishandledText, SignLost, TypeNames.Name, Negative;
    match a
    case ScalarArg(e, _) => MishandledTypes(e, Single, 0);
    case FixedArrayArg(e, elems) => MishandledTypes(e, InFixedArray, |elems|);
    case ArrayArg(e, _) => MishandledTypes(e, InArray, 0);
    case _ =>
  }

  lemma NotPlain(b: string, d: string, w: string)
    requires TypeNames.Plain(w)
    ensures TypeNames.Text(b, [d]) != w
  {
    TypeNames.OneSuffix(b, d);
    assert TypeNames.Text(b, [d])[|b|] == '[';
  }

  lemma SignedNames(e: Elem)
    requires ValidElem(e)
    ensures TypeNames.ElemName(e) == "int128" <==> e == SInt(16)
    ensures TypeNames.ElemName(e) in {"int8", "int16", "int32", "int64", "int128"} <==> e.SInt? && e.size < 32
  {
    if e.FixedBytes? {
      assert TypeNames.ElemName(e)[0] == 'b';
    }
  }

  // ----- Values

  /** The memory of an unsigned value. */
  function LeBytes(n: nat, len: nat): (mem: seq<byte>)
    ensures |mem| == len
  {
    Reverse(Be(n, len))
  }

  lemma LeBytesValue(n: nat, len: nat)
    requires n < Pow256(len)
    ensures LeValue(LeBytes(n, len)) == n
  {
    hide Be, Reverse, LeValue, BeValue, Pow256;
    BeValueOfBe(n, len);
    BeValueReverse(LeBytes(n, len));
    ReverseTwice(Be(n, len));
  }

  lemma SameLeValue(a: seq<byte>, b: seq<byte>)
    requires |a| == |b| && LeValue(a) == LeValue(b)
    ensures a == b
  {
    hide Be, Reverse, LeValue, Pow256;
    ReverseIsBigEndian(a);
    ReverseIsBigEndian(b);
    ReverseTwice(a);
    ReverseTwice(b);
  }

  /** The memory that holds an elementary ABI value. */
  ghost function MemoryOf(v: Abi.Value): seq<byte>
    requires Abi.WellFormed(v)
  {
    match v
    case UInt(size, n) => LeBytes(n, size)
    case Int(size, i) => LeBytes(if i < 0 then Pow256(size) + i else i, size)
    case Address(n) => LeBytes(n, 20)
    case Bool(b) => [if b then 1 else 0]
    case FixedBytes(bs) => bs
    case _ => []
  }

  /** Every ABI value of an elementary type has a conforming memory form, as long as the C type. */
  lemma EveryElemValue(e: Elem, v: Abi.Value)
    requires ValidElem(e) && Abi.WellFormed(v) && Abi.TypeOfValue(v) == ElemType(e)
    ensures Conforms(e, MemoryOf(v)) && ElemValue(e, MemoryOf(v)) == v
  {
    hide LeBytes, LeValue, Pow256;
    match v
    case UInt(size, n) => LeBytesValue(n, size);
    case Int(size, i) => EverySigned(size, i);
    case Address(n) => LeBytesValue(n, 20);
    case _ =>
  }

  lemma EverySigned(size: nat, i: int)
    requires size >= 1 && 0 <= Pow256(size) + 2 * i && 2 * i < Pow256(size)
    ensures SignedValue(LeBytes(if i < 0 then Pow256(size) + i else i, size)) == i
  {
    hide LeBytes, LeValue, Pow256, Negative;
    var n := if i < 0 then Pow256(size) + i else i;
    LeBytesValue(n, size);
    TopByte(LeBytes(n, size));
  }

  ghost function MemoriesOf(vs: seq<Abi.Value>): (elems: seq<seq<byte>>)
    requires forall i :: 0 <= i < |vs| ==> Abi.WellFormed(vs[i])
    ensures |elems| == |vs|
  {
    seq(|vs|, i requires 0 <= i < |vs| => MemoryOf(vs[i]))
  }

  lemma EveryElemValues(e: Elem, vs: seq<Abi.Value>)
    requires ValidElem(e)
    requires forall i :: 0 <= i < |vs| ==> Abi.WellFormed(vs[i]) && Abi.TypeOfValue(vs[i]) == ElemType(e)
    ensures AllConform(e, MemoriesOf(vs)) && ElemValues(e, MemoriesOf(vs)) == vs
  {
    hide Conforms, ElemValue, ElemType, MemoryOf, Abi.WellFormed, Abi.TypeOfValue;
    var elems := MemoriesOf(vs);
    forall i | 0 <= i < |vs| ensures Conforms(e, elems[i]) && |elems[i]| == Size(e) && ElemValue(e, elems[i]) == vs[i] {
      EveryElemValue(e, vs[i]);
      ConformingLength(e, elems[i]);
    }
  }

  lemma ConformingLength(e: Elem, mem: seq<byte>)
    requires Conforms(e, mem)
    ensures ValidMem(e, mem) && |mem| == Size(e)
  {
  }

  /** Every well-formed ABI value of an accepted type is the value of a conforming argument: the C
      types are wide enough. */
  lemma EveryValue(t: AbiType, v: Abi.Value) returns (a: Arg)
    requires ValidType(t) && Abi.WellFormed(v) && Abi.TypeOfValue(v) == AbiTypeOf(t)
    ensures ConformingArg(a) && TypeOf(a) == t && ValueOf(a) == v
  {
    match t
    case Elementary(e) =>
      EveryElemValue(e, v);
      a := ScalarArg(e, MemoryOf(v));
    case FixedArray(e, _) =>
      EveryElemValues(e, v.vs);
      a := FixedArrayArg(e, MemoriesOf(v.vs));
    case DynArray(e) =>
      EveryElemValues(e, v.vs);
      a := ArrayArg(e, MemoriesOf(v.vs));
    case Blob(isString) =>
      a := BlobArg(isString, BlobOf(v));
    case BlobArray(isString) =>
      a := BlobArrayArg(isString, BlobsOf(v.vs));
      assert ValueOf(a).vs == v.vs;
    case BlobFixedArray(isString, _) =>
      a := BlobFixedArrayArg(isString, BlobsOf(v.vs));
      assert ValueOf(a).vs == v.vs;
  }

  ghost function BlobOf(v: Abi.Value): seq<byte> {
    if v.String? then v.utf8 else if v.Bytes? then v.bs else []
  }

  ghost function BlobsOf(vs: seq<Abi.Value>): (fields: seq<seq<byte>>)
    ensures |fields| == |vs|
  {
    seq(|vs|, i requires 0 <= i < |vs| => BlobOf(vs[i]))
  }

  lemma SameElem(e: Elem, a: seq<byte>, b: seq<byte>)
    requires Conforms(e, a) && Conforms(e, b) && ElemValue(e, a) == ElemValue(e, b)
    ensures a == b
  {
    hide LeValue, Pow256, Negative;
    match e
    case Bool =>
    case FixedBytes(_) =>
    case SInt(_) =>
      TopByte(a);
      TopByte(b);
      SameLeValue(a, b);
    case _ =>
      SameLeValue(a, b);
  }

  lemma SameElems(e: Elem, a: seq<seq<byte>>, b: seq<seq<byte>>)
    requires AllConform(e, a) && AllConform(e, b) && ElemValues(e, a) == ElemValues(e, b)
    ensures a == b
  {
    hide ElemValue, Conforms;
    forall i | 0 <= i < |a| ensures a[i] == b[i] {
      assert ElemValues(e, a)[i] == ElemValues(e, b)[i];
      SameElem(e, a[i], b[i]);
    }
  }

  /** Different conforming arguments have different ABI values: the C types are not too wide. */
  lemma SameValue(a: Arg, b: Arg)
    requires ConformingArg(a) && ConformingArg(b) && ValueOf(a) == ValueOf(b)
    ensures a == b
  {
    hide ElemValue, Conforms, AllConform, ElemValues;
    SameType(a, b);
    match a
    case ScalarArg(e, mem) => SameElem(e, mem, b.mem);
    case FixedArrayArg(e, elems) => SameElems(e, elems, b.elems);
    case ArrayArg(e, elems) => SameElems(e, elems, b.elems);
    case BlobArg(_, _) =>
    case BlobArrayArg(isString, fields) => SameBlobs(isString, fields, b.fields);
    case BlobFixedArrayArg(isString, fields) => SameBlobs(isString, fields, b.fields);
  }

  lemma SameBlobs(isString: bool, a: seq<seq<byte>>, b: seq<seq<byte>>)
    requires BlobValues(isString, a) == BlobValues(isString, b)
    ensures a == b
  {
    forall i | 0 <= i < |a| ensures a[i] == b[i] {
      assert BlobValues(isString, a)[i] == BlobValues(isString, b)[i];
    }
  }

  lemma SameType(a: Arg, b: Arg)
    requires ValidArg(a) && ValidArg(b) && ValueOf(a) == ValueOf(b)
    ensures TypeOf(a) == TypeOf(b)
  {
    hide ValueOf, ValidArg, TypeOf;
    TypeOfArg(a);
    TypeOfArg(b);
    SameAbiType(TypeOf(a), TypeOf(b));
  }

  lemma SameAbiType(t: AbiType, u: AbiType)
    requires AbiTypeOf(t) == AbiTypeOf(u)
    ensures t == u
  {
  }
}
