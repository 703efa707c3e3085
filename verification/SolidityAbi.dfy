/** The Solidity Contract ABI Specification, section "Formal Specification of the Encoding",
    for every type of the specification, nested arrays and tuples included. */
module SolidityAbi {
  import opened Bytes
  import opened Texts

  datatype Type =
    | UIntT(size: nat)
    | IntT(size: nat)
    | AddressT
    | BoolT
    | FixedBytesT(size: nat)
    | BytesT
    | StringT
    | ArrayT(elem: Type)
    | FixedArrayT(elem: Type, length: nat)
    | TupleT(members: seq<Type>)

  /** A value carries its type; sizes are in bytes. */
  datatype Value =
    | UInt(size: nat, n: nat)
    | Int(size: nat, i: int)
    | Address(n: nat)
    | Bool(b: bool)
    | FixedBytes(bs: seq<byte>)
    | Bytes(bs: seq<byte>)
    | String(utf8: seq<byte>)
    | Array(elem: Type, vs: seq<Value>)
    | FixedArray(elem: Type, vs: seq<Value>)
    | Tuple(vs: seq<Value>)

  predicate DynamicType(t: Type) {
    match t
    case BytesT | StringT | ArrayT(_) => true
    case FixedArrayT(u, _) => DynamicType(u)
    case TupleT(ts) => exists i :: 0 <= i < |ts| && DynamicType(ts[i])
    case _ => false
  }

  predicate Dynamic(v: Value) {
    match v
    case Bytes(_) | String(_) | Array(_, _) => true
    case FixedArray(t, _) => DynamicType(t)
    case Tuple(vs) => exists i :: 0 <= i < |vs| && Dynamic(vs[i])
    case _ => false
  }

  function TypeOfValue(v: Value): Type {
    match v
    case UInt(size, _) => UIntT(size)
    case Int(size, _) => IntT(size)
    case Address(_) => AddressT
    case Bool(_) => BoolT
    case FixedBytes(bs) => FixedBytesT(|bs|)
    case Bytes(_) => BytesT
    case String(_) => StringT
    case Array(t, _) => ArrayT(t)
    case FixedArray(t, vs) => FixedArrayT(t, |vs|)
    case Tuple(vs) => TupleT(seq(|vs|, i requires 0 <= i < |vs| => TypeOfValue(vs[i])))
  }

  /** The canonical spelling of a type: widths of integers in bits, of byte strings in bytes. */
  function TypeName(t: Type): string {
    match t
    case UIntT(size) => "uint" + Decimal(8 * size)
    case IntT(size) => "int" + Decimal(8 * size)
    case AddressT => "address"
    case BoolT => "bool"
    case FixedBytesT(size) => "bytes" + Decimal(size)
    case BytesT => "bytes"
    case StringT => "string"
    case ArrayT(u) => TypeName(u) + "[]"
    case FixedArrayT(u, k) => TypeName(u) + "[" + Decimal(k) + "]"
    case TupleT(ts) => "(" + CommaJoin(seq(|ts|, i requires 0 <= i < |ts| => TypeName(ts[i]))) + ")"
  }

  /** The text whose hash starts with the selector: the name and the types of the arguments. */
  function Signature(name: string, args: Value): string
    requires args.Tuple?
  {
    name + TypeName(TypeOfValue(args))
  }

  /** One component of a tuple: whether its type is dynamic, and its own encoding. */
  datatype Part = Part(dynamic: bool, enc: seq<byte>)

  function HeadLen(p: Part): nat {
    if p.dynamic then 32 else |p.enc|
  }

  function TailLen(p: Part): nat {
    if p.dynamic then |p.enc| else 0
  }

  /** Total length of the first `n` heads. */
  function HeadSize(ps: seq<Part>, n: nat): nat
    requires n <= |ps|
  {
    if n == 0 then 0 else HeadSize(ps, n - 1) + HeadLen(ps[n - 1])
  }

  /** Total length of the first `n` tails. */
  function TailSize(ps: seq<Part>, n: nat): nat
    requires n <= |ps|
  {
    if n == 0 then 0 else TailSize(ps, n - 1) + TailLen(ps[n - 1])
  }

  /** Position of the `i`th tail: len(head(X(1)) ... head(X(k)) tail(X(1)) ... tail(X(i-1))). */
  function TailAt(ps: seq<Part>, i: nat): nat
    requires i <= |ps|
  {
    HeadSize(ps, |ps|) + TailSize(ps, i)
  }

  function Head(ps: seq<Part>, i: nat): (h: seq<byte>)
    requires i < |ps|
    ensures |h| == HeadLen(ps[i])
  {
    if ps[i].dynamic then Be(TailAt(ps, i), 32) else ps[i].enc
  }

  function Tail(p: Part): (t: seq<byte>)
    ensures |t| == TailLen(p)
  {
    if p.dynamic then p.enc else []
  }

  /** The first `n` heads, concatenated. */
  function Heads(ps: seq<Part>, n: nat): (s: seq<byte>)
    requires n <= |ps|
    ensures |s| == HeadSize(ps, n)
  {
    if n == 0 then [] else Heads(ps, n - 1) + Head(ps, n - 1)
  }

  /** The first `n` tails, concatenated. */
  function Tails(ps: seq<Part>, n: nat): (s: seq<byte>)
    requires n <= |ps|
    ensures |s| == TailSize(ps, n)
  {
    if n == 0 then [] else Tails(ps, n - 1) + Tail(ps[n - 1])
  }

  /** head(X(1)) ... head(X(k)) tail(X(1)) ... tail(X(k)) */
  function Assemble(ps: seq<Part>): (s: seq<byte>)
    ensures |s| == TailAt(ps, |ps|)
  {
    Heads(ps, |ps|) + Tails(ps, |ps|)
  }

  /** Big-endian two's complement in `size` bytes, padded on the left with the sign. */
  function SignExtended(i: int, size: nat): seq<byte>
    requires size <= 32 && 0 <= Pow256(size) + i
  {
    if i < 0 then Fill(0xFF, 32 - size) + Be(Pow256(size) + i, size)
    else Fill(0, 32 - size) + Be(i, size)
  }

  function PadRight(bs: seq<byte>): (s: seq<byte>)
    ensures |s| == CeilWord(|bs|)
  {
    bs + Fill(0, CeilWord(|bs|) - |bs|)
  }

  ghost predicate WellFormed(v: Value) {
    match v
    case UInt(size, n) => 1 <= size <= 32 && n < Pow256(size)
    case Int(size, i) => 1 <= size <= 32 && 0 <= Pow256(size) + 2 * i && 2 * i < Pow256(size)
    case Address(n) => n < Pow256(20)
    case Bool(_) => true
    case FixedBytes(bs) => 1 <= |bs| <= 32
    case Bytes(_) => true
    case String(_) => true
    case Array(t, vs) => forall i :: 0 <= i < |vs| ==> WellFormed(vs[i]) && TypeOfValue(vs[i]) == t
    case FixedArray(t, vs) => forall i :: 0 <= i < |vs| ==> WellFormed(vs[i]) && TypeOfValue(vs[i]) == t
    case Tuple(vs) => forall i :: 0 <= i < |vs| ==> WellFormed(vs[i])
  }

  /** enc(X) */
  ghost function Enc(v: Value): seq<byte>
    requires WellFormed(v)
  {
    match v
    case UInt(_, n) => Be(n, 32)
    case Int(size, i) => SignExtended(i, size)
    case Address(n) => Be(n, 32)
    case Bool(b) => Be(if b then 1 else 0, 32)
    case FixedBytes(bs) => PadRight(bs)
    case Bytes(bs) => Be(|bs|, 32) + PadRight(bs)
    case String(bs) => Be(|bs|, 32) + PadRight(bs)
    case Array(_, vs) => Be(|vs|, 32) + Assemble(Parts(v, vs))
    case FixedArray(_, vs) => Assemble(Parts(v, vs))
    case Tuple(vs) => Assemble(Parts(v, vs))
  }

  /** The components `vs` of the composite value `whole`, encoded one by one. */
  ghost function Parts(whole: Value, vs: seq<Value>): (ps: seq<Part>)
    requires forall i :: 0 <= i < |vs| ==> vs[i] < whole && WellFormed(vs[i])
    ensures |ps| == |vs|
    ensures forall i :: 0 <= i < |vs| ==> ps[i] == Part(Dynamic(vs[i]), Enc(vs[i]))
    decreases whole, 0
  {
    seq(|vs|, i requires 0 <= i < |vs| => Part(Dynamic(vs[i]), Enc(vs[i])))
  }

  /** The components of an array or a tuple. */
  ghost function Components(whole: Value): seq<Part>
    requires (whole.Array? || whole.FixedArray? || whole.Tuple?) && WellFormed(whole)
  {
    Parts(whole, whole.vs)
  }

  // ----- The layout of an assembled tuple

  lemma {:induction false} HeadsGrow(ps: seq<Part>, i: nat, j: nat)
    requires i <= j <= |ps|
    ensures HeadSize(ps, i) <= HeadSize(ps, j)
    ensures Heads(ps, j)[..HeadSize(ps, i)] == Heads(ps, i)
    decreases j
  {
    hide Head, HeadLen;
    if i < j {
      HeadsGrow(ps, i, j - 1);
      PrefixOfConcat(Heads(ps, j - 1), Head(ps, j - 1), HeadSize(ps, i));
    }
  }

  lemma {:induction false} TailsGrow(ps: seq<Part>, i: nat, j: nat)
    requires i <= j <= |ps|
    ensures TailSize(ps, i) <= TailSize(ps, j)
    ensures Tails(ps, j)[..TailSize(ps, i)] == Tails(ps, i)
    decreases j
  {
    hide Tail, TailLen;
    if i < j {
      TailsGrow(ps, i, j - 1);
      PrefixOfConcat(Tails(ps, j - 1), Tail(ps[j - 1]), TailSize(ps, i));
    }
  }

  lemma PrefixOfConcat(a: seq<byte>, b: seq<byte>, n: nat)
    requires n <= |a|
    ensures (a + b)[..n] == a[..n]
  {
  }

  lemma SliceOfFront(whole: seq<byte>, rest: seq<byte>, a: nat, b: nat)
    requires a <= b <= |whole|
    ensures (whole + rest)[a..b] == whole[a..b]
  {
  }

  /** If a string starts with `a` and then `b`, then `b` is where `a` ends. */
  lemma LastRegion(whole: seq<byte>, a: seq<byte>, b: seq<byte>)
    requires |a + b| <= |whole| && whole[..|a + b|] == a + b
    ensures whole[|a|..|a + b|] == b
  {
    assert whole[|a|..|a + b|] == (a + b)[|a|..];
  }

  lemma SliceOfSuffix(front: seq<byte>, whole: seq<byte>, a: nat, b: nat)
    requires a <= b <= |whole|
    ensures (front + whole)[|front| + a..|front| + b] == whole[a..b]
  {
  }

  /** Heads and tails tile the encoding: component `i` has its head at `HeadSize(ps, i)` and its
      tail at `TailAt(ps, i)`; each region ends where the next begins and the last one ends the
      encoding. */
  lemma Tiling(ps: seq<Part>, i: nat)
    requires i < |ps|
    ensures HeadSize(ps, i + 1) == HeadSize(ps, i) + HeadLen(ps[i]) <= HeadSize(ps, |ps|)
    ensures HeadSize(ps, |ps|) <= TailAt(ps, i)
    ensures TailAt(ps, i + 1) == TailAt(ps, i) + TailLen(ps[i]) <= |Assemble(ps)|
    ensures Assemble(ps)[HeadSize(ps, i)..HeadSize(ps, i + 1)] == Head(ps, i)
    ensures Assemble(ps)[TailAt(ps, i)..TailAt(ps, i + 1)] == Tail(ps[i])
  {
    hide Heads, Tails, Head, Tail, HeadLen, TailLen;
    HeadsGrow(ps, i + 1, |ps|);
    TailsGrow(ps, i + 1, |ps|);
    HeadRegion(ps, i);
    TailRegion(ps, i);
  }

  lemma HeadRegion(ps: seq<Part>, i: nat)
    requires i < |ps|
    requires HeadSize(ps, i + 1) <= HeadSize(ps, |ps|)
    ensures Assemble(ps)[HeadSize(ps, i)..HeadSize(ps, i + 1)] == Head(ps, i)
  {
    hide Heads, Tails, Head, HeadLen;
    var heads, tails := Heads(ps, |ps|), Tails(ps, |ps|);
    HeadsRegion(ps, i, heads);
    SliceOfFront(heads, tails, HeadSize(ps, i), HeadSize(ps, i + 1));
  }

  lemma HeadsRegion(ps: seq<Part>, i: nat, heads: seq<byte>)
    requires i < |ps| && heads == Heads(ps, |ps|)
    requires HeadSize(ps, i + 1) <= |heads|
    ensures heads[HeadSize(ps, i)..HeadSize(ps, i + 1)] == Head(ps, i)
  {
    hide Head;
    HeadsGrow(ps, i + 1, |ps|);
    LastRegion(heads, Heads(ps, i), Head(ps, i));
  }

  lemma TailRegion(ps: seq<Part>, i: nat)
    requires i < |ps|
    requires TailSize(ps, i + 1) <= TailSize(ps, |ps|)
    ensures Assemble(ps)[TailAt(ps, i)..TailAt(ps, i + 1)] == Tail(ps[i])
  {
    hide Heads, Tails, Tail, TailLen, HeadSize;
    var heads, tails := Heads(ps, |ps|), Tails(ps, |ps|);
    TailsRegion(ps, i, tails);
    SliceOfSuffix(heads, tails, TailSize(ps, i), TailSize(ps, i + 1));
  }

  lemma TailsRegion(ps: seq<Part>, i: nat, tails: seq<byte>)
    requires i < |ps| && tails == Tails(ps, |ps|)
    requires TailSize(ps, i + 1) <= |tails|
    ensures tails[TailSize(ps, i)..TailSize(ps, i + 1)] == Tail(ps[i])
  {
    hide Tail;
    TailsGrow(ps, i + 1, |ps|);
    LastRegion(tails, Tails(ps, i), Tail(ps[i]));
  }

  /** Tuples of the same shape have the same layout. */
  lemma {:induction false} SameShapeSizes(ps: seq<Part>, qs: seq<Part>, n: nat)
    requires |ps| == |qs| && n <= |ps|
    requires forall i :: 0 <= i < n ==> ps[i].dynamic == qs[i].dynamic && |ps[i].enc| == |qs[i].enc|
    ensures HeadSize(ps, n) == HeadSize(qs, n) && TailSize(ps, n) == TailSize(qs, n)
  {
    if n > 0 {
      SameShapeSizes(ps, qs, n - 1);
    }
  }

  predicate SameShape(ps: seq<Part>, qs: seq<Part>) {
    && |ps| == |qs|
    && forall i :: 0 <= i < |ps| ==> ps[i].dynamic == qs[i].dynamic && |ps[i].enc| == |qs[i].enc|
  }

  lemma SameRegions(ps: seq<Part>, qs: seq<Part>, i: nat)
    requires SameShape(ps, qs) && i <= |ps|
    ensures HeadSize(ps, i) == HeadSize(qs, i) && TailAt(ps, i) == TailAt(qs, i)
  {
    hide HeadSize, TailSize;
    SameShapeSizes(ps, qs, i);
    SameShapeSizes(ps, qs, |ps|);
  }

  /** A component is found in its tail or in its head. */
  lemma SameComponent(ps: seq<Part>, qs: seq<Part>, i: nat)
    requires SameShape(ps, qs) && Assemble(ps) == Assemble(qs) && i < |ps|
    ensures ps[i] == qs[i]
  {
    hide Assemble, HeadSize, TailSize, TailAt, HeadLen, TailLen;
    SameRegions(ps, qs, i);
    SameRegions(ps, qs, i + 1);
    Tiling(ps, i);
    Tiling(qs, i);
    assert Head(ps, i) == Head(qs, i) && Tail(ps[i]) == Tail(qs[i]);
  }

  /** For tuples of the same shape, equal encodings mean equal components. */
  lemma AssembleInjective(ps: seq<Part>, qs: seq<Part>)
    requires SameShape(ps, qs) && Assemble(ps) == Assemble(qs)
    ensures ps == qs
  {
    hide Assemble;
    forall i | 0 <= i < |ps| ensures ps[i] == qs[i] {
      SameComponent(ps, qs, i);
    }
  }

  /** Static components leave no tail. */
  lemma {:induction false} StaticTails(ps: seq<Part>, n: nat)
    requires n <= |ps| && forall i :: 0 <= i < n ==> !ps[i].dynamic
    ensures Tails(ps, n) == []
  {
    if n > 0 {
      StaticTails(ps, n - 1);
    }
  }
}
