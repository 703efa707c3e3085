/** `helloworld_setName`, a generated function kept in the repository, statement by statement. */
module HelloWorld {
  import opened Bytes
  import opened ContractTypes
  import opened Layout
  import opened CMemory
  import opened Emitted
  import opened Sizing
  import opened Generated
  import TypeNames
  import Abi = SolidityAbi

  function SetNameArgs(name: seq<byte>): seq<Arg> {
    [BlobArg(true, name)]
  }

  /** setName(string) has one offset word, pointing past itself, and one tail. */
  lemma SetNameLayout(name: seq<byte>)
    ensures CallArgs(SetNameArgs(name)) == Be(32, 32) + BlobBytes(name)
    ensures ArgTypeNames(SetNameArgs(name)) == ["string"]
  {
    hide Be, BlobBytes;
    var args := SetNameArgs(name);
    var ps := ArgParts(args);
    assert ps == [Abi.Part(true, BlobBytes(name))];
    assert Abi.HeadSize(ps, 0) == 0 && Abi.TailSize(ps, 0) == 0;
    assert Abi.HeadSize(ps, 1) == 32;
    assert Abi.Heads(ps, 0) == [] && Abi.Tails(ps, 0) == [];
    assert Abi.Heads(ps, 1) == [] + Be(32, 32);
    assert Abi.Tails(ps, 1) == [] + BlobBytes(name);
    assert TypeNames.Suffixes([]) == [];
    assert TypeNames.Name(Blob(true)) == "string" + [] == "string";
    assert ArgTypeNames(args) == [TypeNames.Name(Blob(true))];
  }

  lemma SetNameCallData(hash: string -> Digest, name: seq<byte>)
    ensures CallData(hash, "setName", SetNameArgs(name))
         == hash("setName(string)")[..4] + (Be(32, 32) + BlobBytes(name[..U32(|name|)]))
  {
    hide CallArgs, ArgTypeNames, Be, BlobBytes, U32;
    assert Truncated(SetNameArgs(name)) == SetNameArgs(name[..U32(|name|)]);
    SetNameLayout(name);
    SetNameLayout(name[..U32(|name|)]);
    assert Prototype("setName", ["string"]) == "setName(string)";
  }

  lemma SetNameFits(name: seq<byte>)
    ensures Fits(SetNameArgs(name)) <==> 68 + CeilWord(U32(|name|)) < U32_MODULUS
  {
    hide Be, BlobBytes, U32, CallArgs, CeilWord;
    assert Truncated(SetNameArgs(name)) == SetNameArgs(name[..U32(|name|)]);
    SetNameLayout(name[..U32(|name|)]);
  }

  /** The buffer is sized by one expression and filled without loops. No write leaves it exactly
      when the general scheme fits, and then it holds the call data of the general scheme. `name` is
      the string without its terminator, of any length a size_t can hold. */
  method SetNameBuffer(hash: string -> Digest, name: seq<byte>) returns (buf: array<byte>, cursor: nat, ok: bool)
    requires |name| < U64_MODULUS
    ensures fresh(buf) && (ok <==> Fits(SetNameArgs(name)))
    ensures ok ==> cursor == buf.Length && buf[..] == CallData(hash, "setName", SetNameArgs(name))
  {
    hide RoundUp, CeilWord, Be, U32, CallArgs, CallData, Fits, BlobBytes;
    ghost var padded := CeilWord(U32(|name|));
    RoundedLengthModulo(true, |name|);
    SetNameFits(name);
    SetNameCallData(hash, name);
    U32Shift(RoundUp(|name|, U64_MODULUS), padded, 68);
    var fieldLen := U32(RoundUp(|name|, U64_MODULUS) + 32 + (1 * 32 + 4));
    buf := new byte[fieldLen];
    var digest := hash("setName(string)");
    cursor := 4;
    ok := Memcpy(buf, 0, digest[..4]);
    if !ok {
      return;
    }
    assert buf[..4] == digest[..4];
    cursor, ok := PutU32(buf, cursor, 32);
    if !ok {
      return;
    }
    var nameLen := U32(|name|);
    var filled := U32(RoundUp(|name|, U64_MODULUS));
    cursor, ok := PutField(buf, cursor, name[..nameLen], filled);
    if ok {
      assert buf[..] == buf[..cursor];
      assert buf[..] == digest[..4] + (Be(32, 32) + BlobBytes(name[..nameLen]));
    }
  }

  /** A name of exactly 2^32 bytes stays inside a buffer of 68 bytes and is sent as the empty
      string. */
  lemma SetNameWraps(hash: string -> Digest, name: seq<byte>)
    requires |name| == U32_MODULUS
    ensures Fits(SetNameArgs(name))
    ensures CallData(hash, "setName", SetNameArgs(name)) == CallData(hash, "setName", SetNameArgs([]))
  {
    hide Be, BlobBytes, CallData, Fits;
    SetNameFits(name);
    SetNameCallData(hash, name);
    var empty: seq<byte> := [];
    SetNameCallData(hash, empty);
    assert name[..0] == empty && empty[..0] == empty;
  }
}
