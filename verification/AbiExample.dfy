/** An example of the Solidity Contract ABI Specification, section "Examples", with its bytes written
    out: sam(bytes,bool,uint256[]) called with "dave", true and [1,2,3]. */
module AbiExample {
  import opened Bytes
  import opened Texts
  import opened SolidityAbi

  function Dave(): seq<byte> {
    [0x64, 0x61, 0x76, 0x65]
  }

  /** sam(bytes,bool,uint256[]) with "dave", true and [1,2,3]. */
  function Sam(): Value {
    Tuple([Bytes(Dave()), Bool(true), Triple(1, 2, 3)])
  }

  /** A word holding a number below 256. */
  function Small(n: byte): seq<byte> {
    Fill(0, 31) + [n]
  }

  lemma SmallWord(n: byte)
    ensures Be(n, 32) == Small(n)
  {
    hide Be, Fill;
    assert Pow256(1) == 256;
    BeZeroExtend(n, 31, 1);
    OneByte(n);
  }

  lemma OneByte(n: byte)
    ensures Be(n, 1) == [n]
  {
    assert Be(n / 256, 0) == [];
  }

  lemma ThreeParts(ps: seq<Part>)
    requires |ps| == 3
    ensures HeadSize(ps, 3) == HeadLen(ps[0]) + HeadLen(ps[1]) + HeadLen(ps[2])
    ensures TailSize(ps, 0) == 0 && TailSize(ps, 2) == TailLen(ps[0]) + TailLen(ps[1])
    ensures Assemble(ps) == Head(ps, 0) + Head(ps, 1) + Head(ps, 2) + (Tail(ps[0]) + Tail(ps[1]) + Tail(ps[2]))
  {
    hide Head, Tail, HeadLen, TailLen;
    assert HeadSize(ps, 1) == HeadLen(ps[0]) && TailSize(ps, 1) == TailLen(ps[0]);
    assert Heads(ps, 0) == [] && Tails(ps, 0) == [];
    assert Heads(ps, 1) == Head(ps, 0) && Tails(ps, 1) == Tail(ps[0]);
    assert Heads(ps, 2) == Head(ps, 0) + Head(ps, 1) && Tails(ps, 2) == Tail(ps[0]) + Tail(ps[1]);
  }

  /** uint256[] with three small elements. */
  function Triple(a: byte, b: byte, c: byte): Value {
    Array(UIntT(32), [UInt(32, a), UInt(32, b), UInt(32, c)])
  }

  lemma TripleEnc(a: byte, b: byte, c: byte)
    ensures WellFormed(Triple(a, b, c))
    ensures Enc(Triple(a, b, c)) == Small(3) + (Small(a) + Small(b) + Small(c))
  {
    hide Be, Small, Assemble, Pow256;
    SmallNumber(a);
    SmallNumber(b);
    SmallNumber(c);
    SmallWord(3);
    var v := Triple(a, b, c);
    assert WellFormed(v);
    var ps := Components(v);
    ThreeParts(ps);
    assert ps == [Part(false, Small(a)), Part(false, Small(b)), Part(false, Small(c))];
    NoTails(Small(a) + Small(b) + Small(c));
  }

  lemma NoTails(s: seq<byte>)
    ensures s + ([] + [] + []) == s
  {
  }

  lemma SmallNumber(n: byte)
    ensures n < Pow256(32) && Enc(UInt(32, n)) == Small(n) && |Small(n)| == 32
  {
    hide Be;
    SmallWord(n);
    BeValueOfSmall(n);
  }

  lemma BeValueOfSmall(n: byte)
    ensures n < Pow256(32)
  {
    Pow256Add(1, 31);
    assert Pow256(1) == 256;
    assert Pow256(31) >= 1;
  }

  lemma DaveEnc()
    ensures WellFormed(Bytes(Dave())) && Enc(Bytes(Dave())) == Small(4) + (Dave() + Fill(0, 28))
    ensures |Enc(Bytes(Dave()))| == 64
  {
    hide Be, Small;
    SmallWord(4);
    assert CeilWord(4) == 32;
  }

  /** The specification gives the signature and the nine words of this call. */
  lemma SamExample()
    ensures WellFormed(Sam()) && Signature("sam", Sam()) == "sam(bytes,bool,uint256[])"
    ensures Enc(Sam()) == Small(0x60) + Small(1) + Small(0xA0)
                        + ((Small(4) + (Dave() + Fill(0, 28)))
                          + (Small(3) + (Small(1) + Small(2) + Small(3))))
  {
    hide Be, Small, Fill, Assemble, Dave, Triple, Pow256, Enc, WellFormed, Signature;
    SamSignature();
    SamParts();
    DaveEnc();
    var d, t := Enc(Bytes(Dave())), Enc(Triple(1, 2, 3));
    TripleEnc(1, 2, 3);
    assert |t| == 128 by { SmallNumber(1); SmallNumber(2); SmallNumber(3); }
    DynamicStaticDynamic([Part(true, d), Part(false, Small(1)), Part(true, t)]);
    SmallWord(0x60);
    SmallWord(0xA0);
    SmallNumber(1);
  }

  lemma SamParts()
    ensures WellFormed(Sam()) && WellFormed(Triple(1, 2, 3))
    ensures Enc(Sam())
         == Assemble([Part(true, Enc(Bytes(Dave()))), Part(false, Small(1)), Part(true, Enc(Triple(1, 2, 3)))])
  {
    hide Be, Small, Fill, Assemble, Dave, Triple, Pow256, Enc;
    TripleEnc(1, 2, 3);
    SamWellFormed();
    BoolEnc();
    EncOfThree(Sam());
  }

  lemma SamWellFormed()
    ensures WellFormed(Bytes(Dave())) && WellFormed(Bool(true)) && WellFormed(Sam())
    ensures Dynamic(Bytes(Dave())) && !Dynamic(Bool(true)) && Dynamic(Triple(1, 2, 3))
  {
    hide Enc, Dave, Triple, Small, WellFormed, Dynamic;
    TripleEnc(1, 2, 3);
    SimpleParts(Dave());
    TripleDynamic();
    ThreeWellFormed(Bytes(Dave()), Bool(true), Triple(1, 2, 3));
  }

  lemma SimpleParts(bs: seq<byte>)
    ensures WellFormed(Bytes(bs)) && WellFormed(Bool(true)) && Dynamic(Bytes(bs)) && !Dynamic(Bool(true))
  {
  }

  lemma TripleDynamic()
    ensures Dynamic(Triple(1, 2, 3))
  {
  }

  lemma ThreeWellFormed(a: Value, b: Value, c: Value)
    requires WellFormed(a) && WellFormed(b) && WellFormed(c)
    ensures WellFormed(Tuple([a, b, c]))
  {
    var vs := [a, b, c];
    forall i | 0 <= i < |vs| ensures WellFormed(vs[i]) {
      assert vs[i] == a || vs[i] == b || vs[i] == c;
    }
  }

  lemma BoolEnc()
    ensures WellFormed(Bool(true)) && Enc(Bool(true)) == Small(1)
  {
    hide Be;
    SmallWord(1);
  }

  lemma EncOfThree(v: Value)
    requires v.Tuple? && |v.vs| == 3 && WellFormed(v)
    ensures WellFormed(v.vs[0]) && WellFormed(v.vs[1]) && WellFormed(v.vs[2])
    ensures Enc(v) == Assemble([Part(Dynamic(v.vs[0]), Enc(v.vs[0])), Part(Dynamic(v.vs[1]), Enc(v.vs[1])),
                                Part(Dynamic(v.vs[2]), Enc(v.vs[2]))])
  {
    hide Assemble, Dynamic;
    assert Components(v) == [Part(Dynamic(v.vs[0]), Enc(v.vs[0])), Part(Dynamic(v.vs[1]), Enc(v.vs[1])),
                             Part(Dynamic(v.vs[2]), Enc(v.vs[2]))];
  }

  lemma DynamicStaticDynamic(ps: seq<Part>)
    requires |ps| == 3 && ps[0].dynamic && !ps[1].dynamic && ps[2].dynamic
    ensures var a, b, c := ps[0].enc, ps[1].enc, ps[2].enc;
            Assemble(ps) == Be(64 + |b|, 32) + b + Be(64 + |b| + |a|, 32) + (a + c)
  {
    hide Be, Assemble, HeadSize, TailSize;
    ThreeParts(ps);
    EmptyMiddle(ps[0].enc, ps[2].enc);
  }

  lemma EmptyMiddle(a: seq<byte>, c: seq<byte>)
    ensures a + [] + c == a + c
  {
    hide *;
  }

  lemma SamSignature()
    ensures Signature("sam", Sam()) == "sam(bytes,bool,uint256[])"
  {
    hide Decimal, CommaJoin, TypeName;
    SamTypes();
    ThreeNames("bytes", "bool", "uint256[]");
    Bits256();
    TupleName(BytesT, BoolT, ArrayT(UIntT(32)));
  }

  lemma SamTypes()
    ensures TypeOfValue(Sam()) == TupleT([BytesT, BoolT, ArrayT(UIntT(32))])
  {
  }

  lemma Bits256()
    ensures TypeName(BytesT) == "bytes" && TypeName(BoolT) == "bool"
    ensures TypeName(ArrayT(UIntT(32))) == "uint256[]"
  {
    assert Decimal(2) == "2" && Decimal(25) == "25" && Decimal(256) == "256";
    assert TypeName(UIntT(32)) == "uint256";
  }

  lemma TupleName(a: Type, b: Type, c: Type)
    ensures TypeName(TupleT([a, b, c])) == "(" + CommaJoin([TypeName(a), TypeName(b), TypeName(c)]) + ")"
  {
    hide CommaJoin;
    var ts := [a, b, c];
    assert seq(|ts|, i requires 0 <= i < |ts| => TypeName(ts[i])) == [TypeName(a), TypeName(b), TypeName(c)];
  }

  lemma ThreeNames(a: string, b: string, c: string)
    ensures CommaJoin([a, b, c]) == a + "," + (b + "," + c)
  {
    assert [a, b, c][1..] == [b, c] && [b, c][1..] == [c];
    assert CommaJoin([c]) == c && CommaJoin([b, c]) == b + "," + c;
  }
}
