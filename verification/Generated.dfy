/** A whole generated function: argument checks, the fallible calls with their jump to cleanup,
    allocation and release of the buffer. */
module Generated {
  import opened Bytes
  import opened ContractTypes
  import opened Layout
  import opened Params
  import opened Sizing
  import opened Emitted
  import opened Texts
  import TypeNames
  import opened Wrappers
  import Correspondence
  import Decoder
  import Abi = SolidityAbi

  const BOAT_SUCCESS := 0
  const BOAT_ERROR := -1

  /** A Keccak-256 digest; the hash itself is a parameter. */
  type Digest = d: seq<byte> | |d| == 32 witness Fill(0, 32)

  // ----- The prototype string

  function TypeName(p: Param): string
    requires ValidParam(p)
  {
    match p
    case ScalarParam(e, _) => TypeNames.Name(Elementary(e))
    case FixedArrayParam(e, n, _) => TypeNames.Name(FixedArray(e, n))
    case ArrayParam(e, _, _) => TypeNames.Name(DynArray(e))
    case BlobParam(isString, _) => TypeNames.Name(Blob(isString))
    case BlobArrayParam(isString, _) => TypeNames.Name(BlobArray(isString))
    case BlobFixedArrayParam(isString, fields) => TypeNames.Name(BlobFixedArray(isString, |fields|))
  }

  function ArgTypeNames(args: seq<Arg>): (names: seq<string>)
    requires ValidArgs(args)
    ensures |names| == |args|
  {
    seq(|args|, i requires 0 <= i < |args| => TypeNames.Name(TypeOf(args[i])))
  }

  /** name(type1,...,typen) */
  function Prototype(name: string, types: seq<string>): string {
    name + "(" + CommaJoin(types) + ")"
  }

  /** The prototype is the function signature of the ABI. */
  lemma PrototypeIsSignature(name: string, args: seq<Arg>)
    requires ValidArgs(args)
    ensures Prototype(name, ArgTypeNames(args)) == Abi.Signature(name, Abi.Tuple(ValuesOf(args)))
  {
    hide CommaJoin, TypeNames.Name, TypeOf, ValueOf, ValidArg, ValidType;
    var t := Abi.TypeOfValue(Abi.Tuple(ValuesOf(args)));
    forall i | 0 <= i < |args| ensures ArgTypeNames(args)[i] == Abi.TypeName(t.members[i]) {
      Correspondence.TypeOfArg(args[i]);
      ArgTypeValid(args[i]);
      Correspondence.NameIsCanonical(TypeOf(args[i]));
    }
    assert ArgTypeNames(args) == seq(|args|, i requires 0 <= i < |args| => Abi.TypeName(t.members[i]));
    assert name + "(" + CommaJoin(ArgTypeNames(args)) + ")" == name + ("(" + CommaJoin(ArgTypeNames(args)) + ")");
  }

  lemma ArgTypeValid(a: Arg)
    requires ValidArg(a)
    ensures ValidType(TypeOf(a))
  {
  }

  /** Contract name, parenthesis, types separated by commas, parenthesis: read back from the text. */
  lemma PrototypeReads(name: string, args: seq<Arg>)
    requires ValidArgs(args)
    ensures var p, n := Prototype(name, ArgTypeNames(args)), |name|;
            && |p| >= n + 2 && p[..n] == name && p[n] == '(' && p[|p| - 1] == ')'
            && (args == [] <==> p[n + 1..|p| - 1] == "")
            && (args != [] ==> Split(p[n + 1..|p| - 1]) == ArgTypeNames(args))
  {
    hide CommaJoin, TypeNames.Name, Split, TypeOf, ValidArg;
    var types := ArgTypeNames(args);
    var p := Prototype(name, types);
    assert p[|name| + 1..|p| - 1] == CommaJoin(types);
    EmptyJoin();
    if args != [] {
      forall i | 0 <= i < |types| ensures ',' !in types[i] && types[i] != "" {
        ArgTypeValid(args[i]);
        TypeNames.NoComma(TypeOf(args[i]));
      }
      SplitJoin(types);
      SplitEmpty(types);
    }
  }

  lemma TypeNameOfParam(p: Param, args: seq<Arg>, i: nat)
    requires ValidArgs(args) && i < |args| && ValidParam(p) && ArgOf(p) == args[i]
    ensures TypeName(p) == ArgTypeNames(args)[i]
  {
    hide TypeNames.Name;
  }

  /** The prototype after `i` types, a comma included if more follow. */
  function Begun(name: string, types: seq<string>, i: nat): string
    requires i <= |types|
  {
    name + "(" + CommaJoin(types[..i]) + if 0 < i < |types| then "," else ""
  }

  lemma NoneBegun(name: string, types: seq<string>)
    ensures Begun(name, types, 0) == name + "("
  {
  }

  lemma NextBegun(name: string, types: seq<string>, i: nat)
    requires i < |types|
    ensures Begun(name, types, i + 1)
         == Begun(name, types, i) + types[i] + if i != |types| - 1 then "," else ""
  {
    hide CommaJoin;
    EmptyJoin();
    CommaJoinLast(types[..i], types[i]);
    assert types[..i + 1] == types[..i] + [types[i]];
  }

  lemma AllBegun(name: string, types: seq<string>)
    ensures Begun(name, types, |types|) + ")" == Prototype(name, types)
  {
    assert types[..|types|] == types;
  }

  method BuildPrototype(name: string, ps: seq<Param>, ghost args: seq<Arg>) returns (proto: string)
    requires Holds(ps, args) && ValidArgs(args)
    ensures proto == Prototype(name, ArgTypeNames(args)) == Abi.Signature(name, Abi.Tuple(ValuesOf(args)))
  {
    hide TypeName, Abi.Signature, ValuesOf, ArgTypeNames, Prototype, Begun;
    PrototypeIsSignature(name, args);
    ghost var types := ArgTypeNames(args);
    proto := name + "(";
    NoneBegun(name, types);
    for i := 0 to |ps|
      invariant proto == Begun(name, types, i)
    {
      TypeNameOfParam(ps[i], args, i);
      NextBegun(name, types, i);
      proto := proto + TypeName(ps[i]);
      if i != |ps| - 1 {
        proto := proto + ",";
      }
    }
    AllBegun(name, types);
    proto := proto + ")";
  }

  // ----- The environment

  /** The allocator and the transaction that receives the call data. */
  class Runtime {
    var live: set<array<byte>>
    var mallocs: nat
    var frees: nat
    var submitted: seq<seq<byte>>

    constructor ()
      ensures live == {} && mallocs == frees == 0 && submitted == []
    {
      live, mallocs, frees, submitted := {}, 0, 0, [];
    }

    /** BoatMalloc: fresh storage with arbitrary contents, or NULL. */
    method Malloc(n: nat, succeeds: bool) returns (p: array?<byte>)
      modifies this
      ensures submitted == old(submitted) && frees == old(frees)
      ensures succeeds ==> p != null && fresh(p) && p.Length == n
                           && live == old(live) + {p} && mallocs == old(mallocs) + 1
      ensures !succeeds ==> p == null && live == old(live) && mallocs == old(mallocs)
    {
      p := null;
      if succeeds {
        p := new byte[n];
        live := live + {p};
        mallocs := mallocs + 1;
      }
    }

    /** BoatFree: only storage that is allocated and not yet freed. */
    method Free(p: array<byte>)
      requires p in live
      modifies this
      ensures live == old(live) - {p} && frees == old(frees) + 1
      ensures mallocs == old(mallocs) && submitted == old(submitted)
    {
      live := live - {p};
      frees := frees + 1;
    }

    /** The call data handed on, to a transaction or to a contract call. */
    method Submit(data: seq<byte>)
      modifies this
      ensures submitted == old(submitted) + [data]
      ensures live == old(live) && mallocs == old(mallocs) && frees == old(frees)
    {
      submitted := submitted + [data];
    }
  }

  /** What every call outside the generated code returns in one run. */
  datatype Outcomes = Outcomes(setNonce: int, malloc: bool, setData: int, send: int)

  /** An actual argument: a NULL pointer, or a parameter that is there. */
  datatype Actual = Null(t: AbiType) | Given(p: Param)

  /** Only pointers that the generated code tests may be NULL. */
  predicate NullsChecked(actuals: seq<Actual>) {
    forall i :: 0 <= i < |actuals| && actuals[i].Null? ==> NullChecked(actuals[i].t)
  }

  predicate AnyNull(actuals: seq<Actual>) {
    exists i :: 0 <= i < |actuals| && actuals[i].Null?
  }

  /** The parameters, if none of them is NULL. */
  function ParamsOf(actuals: seq<Actual>): (ps: seq<Param>)
    ensures !AnyNull(actuals) ==>
      |ps| == |actuals| && forall i :: 0 <= i < |actuals| ==> actuals[i] == Given(ps[i])
  {
    if AnyNull(actuals) then [] else seq(|actuals|, i requires 0 <= i < |actuals| => actuals[i].p)
  }

  /** The NULL tests pass. */
  predicate Proceeds(txNull: bool, actuals: seq<Actual>) {
    !txNull && !AnyNull(actuals)
  }

  /** The buffer gets allocated. */
  predicate Allocates(o: Outcomes) {
    o.setNonce == BOAT_SUCCESS && o.malloc
  }

  predicate Succeeds(o: Outcomes) {
    Allocates(o) && o.setData == BOAT_SUCCESS && o.send == BOAT_SUCCESS
  }

  /** The call data for the given contract function and arguments. */
  function CallData(hash: string -> Digest, name: string, args: seq<Arg>): seq<byte>
    requires ValidArgs(args)
  {
    hash(Prototype(name, ArgTypeNames(args)))[..4] + CallArgs(Truncated(args))
  }

  lemma SizeMatches(ps: seq<Param>, sent: seq<Arg>)
    requires Sized(ps, sent)
    ensures |CallArgs(sent)| == HeadTotal(ps, |ps|) + (ArrayTotal(ps, |ps|) + BlobTotal(ps, |ps|))
  {
    hide Abi.Heads, Abi.Tails, HeadTotal, ArrayTotal, BlobTotal, ArgParts, Abi.HeadSize, Abi.TailSize;
  }

  /** Allocation and filling. Once the storage is there, no write leaves it exactly when the call
      data fits in 32 bits; then it is as long as the call data and holds exactly it. */
  method BuildCallData(rt: Runtime, hash: string -> Digest, name: string, ps: seq<Param>, malloc: bool,
                       ghost args: seq<Arg>)
      returns (buf: array?<byte>, ok: bool)
    requires Holds(ps, args) && ValidArgs(args) && (malloc ==> Separate(ps))
    modifies rt, SwappedMemory(ps)
    ensures rt.submitted == old(rt.submitted) && rt.frees == old(rt.frees)
    ensures malloc ==> buf != null && fresh(buf) && (ok <==> Fits(args))
                       && rt.live == old(rt.live) + {buf} && rt.mallocs == old(rt.mallocs) + 1
    ensures malloc && ok ==> buf[..] == CallData(hash, name, args)
    ensures !malloc ==> ok && buf == null && rt.live == old(rt.live) && rt.mallocs == old(rt.mallocs)
    ensures ok ==> forall j :: 0 <= j < |ps| ==> ArgOf(ps[j]) == if malloc then AfterCall(args[j]) else args[j]
  {
    hide CallArgs, Truncated, Fits, Prototype, ArgTypeNames, HeadTotal, ArrayTotal, BlobTotal;
    hide DataLengths, FilledArrays, Sized, Separate, AfterCall;
    HoldsSized(ps, args);
    SizeMatches(ps, Truncated(args));
    var fieldLen, lengths, filled := FieldLength(ps);
    assert fieldLen == U32(4 + |CallArgs(Truncated(args))|);
    ok := true;
    buf := rt.Malloc(fieldLen, malloc);
    if buf != null {
      var proto := BuildPrototype(name, ps, args);
      var cursor: nat;
      cursor, ok := FillBuffer(buf, hash(proto)[..4], ps, lengths, filled, args);
    }
  }

  /** A stateful contract function. For every outcome of the calls it makes, it returns the
      transaction hash exactly when all of them succeed and no checked pointer is NULL; storage is
      released exactly once if it was allocated; and what is submitted is the call data. Where it
      writes, the call data must fit: by `BuildCallData` it otherwise leaves its storage. */
  method SendTransaction(rt: Runtime, hash: string -> Digest, name: string, txNull: bool, actuals: seq<Actual>,
                         o: Outcomes, txHash: string, ghost args: seq<Arg>)
      returns (result: Option<string>)
    requires NullsChecked(actuals) && Holds(ParamsOf(actuals), args) && ValidArgs(args)
    requires Proceeds(txNull, actuals) && Allocates(o) ==> Separate(ParamsOf(actuals)) && Fits(args)
    modifies rt, SwappedMemory(ParamsOf(actuals))
    ensures result == if Proceeds(txNull, actuals) && Succeeds(o) then Some(txHash) else None
    ensures result.Some? <==>
      && !txNull && (forall i :: 0 <= i < |actuals| ==> actuals[i].Given?)
      && o.setNonce == 0 && o.malloc && o.setData == 0 && o.send == 0
    ensures rt.live == old(rt.live)
    ensures var n := if Proceeds(txNull, actuals) && Allocates(o) then 1 else 0;
            rt.mallocs == old(rt.mallocs) + n && rt.frees == old(rt.frees) + n
    ensures rt.submitted == old(rt.submitted) +
              if Proceeds(txNull, actuals) && Allocates(o) then [CallData(hash, name, args)] else []
    ensures var ps := ParamsOf(actuals);
            forall j :: 0 <= j < |ps| ==>
              ArgOf(ps[j]) == if Proceeds(txNull, actuals) && Allocates(o) then AfterCall(args[j]) else args[j]
  {
    hide CallArgs, CallData, Fits, Separate, AfterCall;
    assert rt.submitted + [] == rt.submitted;
    if txNull || exists i :: 0 <= i < |actuals| && actuals[i].Null? {
      return None;
    }
    var exception := BOAT_SUCCESS;
    var buf: array?<byte> := null;
    label cleanup: {
      if o.setNonce != BOAT_SUCCESS {
        exception := o.setNonce;
        break cleanup;
      }
      var ok: bool;
      buf, ok := BuildCallData(rt, hash, name, ParamsOf(actuals), o.malloc, args);
      if buf == null {
        exception := BOAT_ERROR;
        break cleanup;
      }
      rt.Submit(buf[..]);
      if o.setData != BOAT_SUCCESS {
        exception := o.setData;
        break cleanup;
      }
      if o.send != BOAT_SUCCESS {
        exception := o.send;
        break cleanup;
      }
    }
    if exception != BOAT_SUCCESS {
      if buf != null {
        rt.Free(buf);
      }
      return None;
    }
    rt.Free(buf);
    return Some(txHash);
  }

  /** A constant contract function: the arguments without the selector go to the contract call,
      whose result is returned; storage is released exactly once if it was allocated. */
  method CallConstant(rt: Runtime, hash: string -> Digest, name: string, txNull: bool, actuals: seq<Actual>,
                      malloc: bool, answer: Option<string>, ghost args: seq<Arg>)
      returns (result: Option<string>)
    requires NullsChecked(actuals) && Holds(ParamsOf(actuals), args) && ValidArgs(args)
    requires Proceeds(txNull, actuals) && malloc ==> Separate(ParamsOf(actuals)) && Fits(args)
    modifies rt, SwappedMemory(ParamsOf(actuals))
    ensures result == if Proceeds(txNull, actuals) && malloc then answer else None
    ensures rt.live == old(rt.live)
    ensures var n := if Proceeds(txNull, actuals) && malloc then 1 else 0;
            rt.mallocs == old(rt.mallocs) + n && rt.frees == old(rt.frees) + n
    ensures rt.submitted == old(rt.submitted) +
              if Proceeds(txNull, actuals) && malloc then [CallArgs(Truncated(args))] else []
    ensures var ps := ParamsOf(actuals);
            forall j :: 0 <= j < |ps| ==>
              ArgOf(ps[j]) == if Proceeds(txNull, actuals) && malloc then AfterCall(args[j]) else args[j]
  {
    hide CallArgs, Truncated, Fits, Separate, AfterCall, Prototype, ArgTypeNames;
    assert rt.submitted + [] == rt.submitted;
    if txNull || exists i :: 0 <= i < |actuals| && actuals[i].Null? {
      return None;
    }
    var buf, ok := BuildCallData(rt, hash, name, ParamsOf(actuals), malloc, args);
    if buf == null {
      return None;
    }
    assert buf[..] == hash(Prototype(name, ArgTypeNames(args)))[..4] + CallArgs(Truncated(args));
    assert buf[4..] == buf[..][4..] == CallArgs(Truncated(args));
    rt.Submit(buf[4..]);
    result := answer;
    rt.Free(buf);
  }

  /** The submitted call data is the selector of the ABI signature followed by the Solidity ABI encoding of the
      arguments exactly when no negative value sits in a type whose sign fill is wrong and no
      string has a length that a BUINT32 cannot hold. */
  lemma CallDataIsAbi(hash: string -> Digest, name: string, args: seq<Arg>)
    requires ConformingArgs(args)
    ensures ValidArgs(args) && Abi.WellFormed(Abi.Tuple(ValuesOf(args)))
    ensures CallData(hash, name, args)
            == hash(Abi.Signature(name, Abi.Tuple(ValuesOf(args))))[..4] + Abi.Enc(Abi.Tuple(ValuesOf(args)))
       <==> forall i :: 0 <= i < |args| ==> Safe(args[i]) && Whole(args[i])
  {
    hide Abi.Enc, Abi.Signature, CallArgs, Truncated, Safe, Whole, Prototype, ArgTypeNames, ValuesOf;
    SentIsEnc(args);
    PrototypeIsSignature(name, args);
    SamePrefix(hash(Prototype(name, ArgTypeNames(args)))[..4], CallArgs(Truncated(args)),
               Abi.Enc(Abi.Tuple(ValuesOf(args))));
  }

  /** `uint8[]` with 2^27 elements does not fit: storage of 68 bytes is asked for, and the elements
      alone take 2^32. */
  lemma OverrunByArray(elems: seq<seq<byte>>)
    requires AllValid(UInt(1), elems) && |elems| == 0x800_0000
    ensures var args := [ArrayArg(UInt(1), elems)];
            ValidArgs(args) && !Fits(args) && U32(4 + |CallArgs(Truncated(args))|) == 68
  {
    hide ArgBytes, CallArgs, Truncated, AllValid;
    OneDynamic(ArrayArg(UInt(1), elems));
    ArrayLength(UInt(1), elems);
  }

  lemma ArrayLength(e: Elem, elems: seq<seq<byte>>)
    requires AllValid(e, elems)
    ensures |ArgBytes(ArrayArg(e, elems))| == 32 + 32 * |elems|
  {
    hide Be, Word, Abi.Heads, Abi.Tails;
    WordPartsSize(WordParts(e, InArray, elems), |elems|);
  }

  /** `bytes` of length 2^32 - 1 do not fit either: the padded length wraps to 0 and the contents
      are copied past the end of 68 bytes. */
  lemma OverrunByBytes(bs: seq<byte>)
    requires |bs| == U32_MODULUS - 1
    ensures var args := [BlobArg(false, bs)];
            ValidArgs(args) && !Fits(args) && U32(4 + |CallArgs(Truncated(args))|) == 68
  {
    hide Be;
    OneDynamic(BlobArg(false, bs));
  }

  lemma OneDynamic(a: Arg)
    requires ValidArg(a) && Dynamic(a) && Truncate(a) == a
    ensures ValidArgs([a]) && |CallArgs(Truncated([a]))| == 32 + |ArgBytes(a)|
  {
    hide ArgBytes, ValidArg, Truncate;
    var sent := Truncated([a]);
    assert sent == [a];
    var ps := ArgParts(sent);
    assert Abi.HeadSize(ps, 0) == 0 && Abi.TailSize(ps, 0) == 0;
    assert Abi.HeadSize(ps, 1) == 32 && Abi.TailSize(ps, 1) == |ArgBytes(a)|;
  }

  /** What a call leaves in all of its arguments. */
  function AfterCallAll(args: seq<Arg>): (after: seq<Arg>)
    ensures |after| == |args|
  {
    seq(|args|, i requires 0 <= i < |args| => AfterCall(args[i]))
  }

  /** The bytes of an address or a wide integer read the same in both directions. */
  predicate Palindrome(a: Arg) {
    a.ScalarArg? && AddressOrWide(a.e) ==> Reverse(a.mem) == a.mem
  }

  lemma AfterCallSameTypes(args: seq<Arg>)
    requires ValidArgs(args)
    ensures ValidArgs(AfterCallAll(args))
    ensures Decoder.TypesOf(AfterCallAll(args)) == Decoder.TypesOf(args)
  {
    forall i | 0 <= i < |args|
      ensures ValidArg(AfterCall(args[i])) && TypeOf(AfterCall(args[i])) == TypeOf(args[i])
    {
      assert ValidArg(args[i]);
    }
  }

  lemma TruncatedAfterCall(args: seq<Arg>)
    ensures Truncated(AfterCallAll(args)) == AfterCallAll(Truncated(args))
  {
    forall i | 0 <= i < |args| ensures Truncate(AfterCall(args[i])) == AfterCall(Truncate(args[i])) {
    }
  }

  lemma SameAfterCall(args: seq<Arg>)
    requires ValidArgs(args)
    ensures AfterCallAll(args) == args <==> forall i :: 0 <= i < |args| ==> Palindrome(args[i])
  {
    hide Reverse;
    forall i | 0 <= i < |args| ensures AfterCallAll(args)[i] == args[i] <==> Palindrome(args[i]) {
      assert ValidArg(args[i]);
    }
  }

  /** Calling again with the same argument buffers: the first call has swapped the by-reference
      ones, so the second submits the same call data exactly when each of them is a palindrome. */
  lemma RepeatedCall(args: seq<Arg>)
    requires ValidArgs(args) && Fits(args)
    ensures ValidArgs(AfterCallAll(args))
    ensures CallArgs(Truncated(AfterCallAll(args))) == CallArgs(Truncated(args))
       <==> forall i :: 0 <= i < |args| ==> Palindrome(args[i])
  {
    hide CallArgs, ValidArg, AfterCall, AfterCallAll, Truncate, Palindrome, Decoder.TypesOf;
    var sent := Truncated(args);
    AfterCallSameTypes(args);
    AfterCallSameTypes(sent);
    TruncatedAfterCall(args);
    SameAfterCall(sent);
    forall i | 0 <= i < |args| ensures Palindrome(sent[i]) <==> Palindrome(args[i]) {
      TruncateKeepsPalindrome(args[i]);
    }
    if CallArgs(AfterCallAll(sent)) == CallArgs(sent) {
      Decoder.CallArgsInjective(sent, AfterCallAll(sent));
    }
  }

  lemma TruncateKeepsPalindrome(a: Arg)
    ensures Palindrome(Truncate(a)) <==> Palindrome(a)
  {
  }
}
