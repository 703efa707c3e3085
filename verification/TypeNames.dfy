/** The generator's decisions on type strings, as it makes them: table look-ups and substring
    searches on the text of the type. */
module TypeNames {
  import opened ContractTypes
  import opened Texts
  import opened Wrappers

  // ----- Python string operations

  predicate OccursAt(s: string, p: string, i: int) {
    0 <= i && i + |p| <= |s| && s[i..i + |p|] == p
  }

  function FindFrom(s: string, p: string, i: nat): (r: int)
    ensures r == -1 || (r >= i && OccursAt(s, p, r))
    ensures forall k :: i <= k && (r == -1 || k < r) ==> !OccursAt(s, p, k)
    decreases |s| - i
  {
    if i + |p| > |s| then -1
    else if OccursAt(s, p, i) then i
    else if i == |s| then -1
    else FindFrom(s, p, i + 1)
  }

  /** str.find: the first index at which `p` occurs in `s`, or -1. */
  function Find(s: string, p: string): (r: int)
    ensures r == -1 || OccursAt(s, p, r)
    ensures forall k :: 0 <= k && (r == -1 || k < r) ==> !OccursAt(s, p, k)
  {
    FindFrom(s, p, 0)
  }

  predicate Contains(s: string, p: string) {
    Find(s, p) != -1
  }

  /** s[0:k], where k = -1 drops the last character. */
  function UpTo(s: string, k: int): string
    requires -1 <= k <= |s|
  {
    if k >= 0 then s[..k] else if s == [] then [] else s[..|s| - 1]
  }

  // ----- The tables

  predicate BlobBase(b: string) {
    b == "string" || b == "bytes"
  }

  predicate IntegerBase(b: string) {
    b in {"address", "bool", "uint8", "uint16", "uint32", "uint64", "uint128", "uint256",
          "int8", "int16", "int32", "int64", "int128", "int256"}
  }

  predicate FixedBytesBase(b: string) {
    exists n :: 1 <= n <= 32 && b == "bytes" + Decimal(n)
  }

  /** The keys of type_mapping without a bracket. */
  predicate Base(b: string) {
    BlobBase(b) || IntegerBase(b) || FixedBytesBase(b)
  }

  /** type_mapping has every base both plain and followed by `[]`. */
  predicate InMapping(t: string) {
    Base(t) || (|t| >= 2 && t[|t| - 2..] == "[]" && Base(t[..|t| - 2]))
  }

  predicate RequireEndianChange(t: string) {
    t in {"uint16", "uint32", "uint64", "uint128", "uint256",
          "int16", "int32", "int64", "int128", "int256", "address",
          "address[]", "bool[]", "uint8[]", "uint16[]", "uint32[]", "uint64[]", "uint128[]", "uint256[]",
          "int8[]", "int16[]", "int32[]", "int64[]", "int128[]", "int256[]"}
  }

  predicate IsRightAligned(t: string) {
    t in {"address", "bool", "uint8", "uint16", "uint32", "uint64", "uint128", "uint256",
          "int8", "int16", "int32", "int64", "int128", "int256",
          "address[]", "bool[]", "uint8[]", "uint16[]", "uint32[]", "uint64[]", "uint128[]", "uint256[]",
          "int8[]", "int16[]", "int32[]", "int64[]", "int128[]", "int256[]"}
  }

  predicate IsSignedValue(t: string) {
    t in {"int8", "int16", "int32", "int64", "int128", "int256",
          "int8[]", "int16[]", "int32[]", "int64[]", "int128[]", "int256[]"}
  }

  predicate ValueTypeKey(t: string) {
    t in {"bool", "uint8", "uint16", "uint32", "uint64", "int8", "int16", "int32", "int64"}
  }

  predicate IsValueType(t: string) {
    if Find(t, "[") != -1 then ValueTypeKey(t[..Find(t, "[")]) else ValueTypeKey(t)
  }

  // ----- The class predicates

  predicate IsNonFixedSizeNonFixedArray(t: string) {
    t == "bytes[]" || t == "string[]"
  }

  predicate IsNonFixedSizeFixedArray(t: string) {
    (Contains(t, "bytes[") && t != "bytes[]") || (Contains(t, "string[") && t != "string[]")
  }

  predicate IsNonFixedSize(t: string) {
    t == "string" || t == "bytes"
  }

  predicate IsFixedSizeNonFixedArray(t: string) {
    Contains(t, "[]") && t != "string[]" && t != "bytes[]"
  }

  predicate IsFixedSizeFixedArray(t: string) {
    Contains(t, "[") && !Contains(t, "[]") && !Contains(t, "string") && !Contains(t, "bytes[")
  }

  /** get_input_type; None is the generator giving up. */
  function InputType(t: string): Option<string> {
    if InMapping(t) then Some(t)
    else if IsNonFixedSizeFixedArray(t) || IsFixedSizeFixedArray(t) then Some(UpTo(t, Find(t, "[")))
    else None
  }

  predicate IsSupported(t: string) {
    if InMapping(t) then true
    else if Contains(t[Find(t, "[") + 1..], "[") then false
    else InMapping(UpTo(t, Find(t, "[")))
  }

  /** A parameter of this type gets past generate_func_prototype. */
  predicate Accepts(t: string) {
    InputType(t).Some? && IsSupported(t)
  }

  // ----- Type strings: a base and array suffixes

  predicate Plain(b: string) {
    forall i :: 0 <= i < |b| ==> b[i] != '[' && b[i] != ']'
  }

  function Suffixes(ds: seq<string>): string {
    if ds == [] then [] else "[" + ds[0] + "]" + Suffixes(ds[1..])
  }

  predicate AllDigits(ds: seq<string>) {
    forall i :: 0 <= i < |ds| ==> Digits(ds[i])
  }

  function Text(b: string, ds: seq<string>): string {
    b + Suffixes(ds)
  }

  // ----- Facts about the tables

  /** What the spelling of a base looks like. */
  predicate BaseLike(b: string) {
    && b != [] && Plain(b)
    && (b != "string" ==> 'g' !in b)
    && (b[|b| - 1] == 's' ==> b == "bytes" || b == "address")
  }

  lemma FixedBytesShape(b: string, n: nat)
    requires b == "bytes" + Decimal(n)
    ensures BaseLike(b)
  {
    hide Decimal;
    var d := Decimal(n);
    assert Digits(d) && b[|b| - 1] == d[|d| - 1];
    forall i | 0 <= i < |b| ensures b[i] != '[' && b[i] != ']' && b[i] != 'g' {
      if i >= 5 {
        assert b[i] == d[i - 5];
      }
    }
  }

  lemma IntegerShape(b: string)
    requires IntegerBase(b)
    ensures BaseLike(b)
  {
  }

  lemma BaseShape(b: string)
    requires Base(b)
    ensures BaseLike(b)
  {
    hide IntegerBase, Decimal;
    if IntegerBase(b) {
      IntegerShape(b);
    } else if FixedBytesBase(b) {
      var n :| 1 <= n <= 32 && b == "bytes" + Decimal(n);
      FixedBytesShape(b, n);
    }
  }

  /** A string with a bracket is in the table only as base + "[]". */
  lemma MappingOfText(b: string, ds: seq<string>)
    requires Plain(b) && AllDigits(ds)
    ensures InMapping(Text(b, ds)) <==> Base(b) && (ds == [] || ds == [""])
  {
    if ds == [] {
      assert Text(b, ds) == b;
      if |b| >= 2 {
        assert b[|b| - 2..][0] == b[|b| - 2] != '[';
      }
    } else {
      MappingOfSuffixed(b, ds);
    }
  }

  lemma MappingOfSuffixed(b: string, ds: seq<string>)
    requires Plain(b) && AllDigits(ds) && ds != []
    ensures InMapping(Text(b, ds)) <==> Base(b) && ds == [""]
  {
    hide Base, Suffixes;
    var t, n := Text(b, ds), |Text(b, ds)|;
    SuffixesLength(ds);
    assert t[|b|] == '[';
    NotBase(t, |b|);
    if |b| < n - 2 {
      NotBase(t[..n - 2], |b|);
    } else {
      assert t[..n - 2] == b;
      OneSuffix(b, "");
      assert t[n - 2..] == "[]";
    }
  }

  lemma NotBase(t: string, i: nat)
    requires i < |t| && t[i] == '['
    ensures !Base(t)
  {
    hide Base;
    if Base(t) {
      BaseShape(t);
    }
  }

  lemma SuffixesLength(ds: seq<string>)
    requires ds != []
    ensures |Suffixes(ds)| >= 2 && Suffixes(ds)[0] == '['
    ensures |Suffixes(ds)| == 2 <==> ds == [""]
  {
    if |ds| > 1 {
      SuffixesLength(ds[1..]);
    }
  }

  /** Searching for one character. */
  lemma FindChar(s: string, c: char, k: int)
    requires 0 <= k < |s| ==> s[k] == c
    requires forall i :: 0 <= i < |s| && (k < 0 || i < k) ==> s[i] != c
    requires -1 <= k < |s|
    ensures Find(s, [c]) == k
  {
    var r := Find(s, [c]);
    if k >= 0 {
      assert OccursAt(s, [c], k);
    }
    if r >= 0 {
      assert s[r..r + 1][0] == c;
    }
  }

  lemma FirstBracket(b: string, ds: seq<string>)
    requires Plain(b)
    ensures Find(Text(b, ds), "[") == if ds == [] then -1 else |b|
  {
    FindChar(Text(b, ds), '[', if ds == [] then -1 else |b|);
  }

  lemma LaterBracket(b: string, ds: seq<string>)
    requires Plain(b) && AllDigits(ds) && ds != []
    ensures Contains(Text(b, ds)[|b| + 1..], "[") <==> |ds| > 1
  {
    var rest := Text(b, ds)[|b| + 1..];
    assert rest == ds[0] + "]" + Suffixes(ds[1..]);
    assert Digits(ds[0]);
    FindChar(rest, '[', if |ds| == 1 then -1 else |ds[0]| + 1);
  }

  lemma Absent(s: string, p: string, c: char)
    requires c in p && c !in s
    ensures !Contains(s, p)
  {
  }

  lemma Present(s: string, p: string, i: nat)
    requires i + |p| <= |s| && s[i..i + |p|] == p
    ensures Contains(s, p)
  {
    assert OccursAt(s, p, i);
  }

  /** `base[d]` with a digit string: the text has one bracket pair and no `[]` unless d is empty. */
  lemma OneSuffix(b: string, d: string)
    ensures Text(b, [d]) == b + "[" + d + "]"
  {
    assert Suffixes([d]) == "[" + d + "]" + Suffixes([d][1..]);
    assert Suffixes([]) == [];
  }

  lemma OnlyBracket(b: string, d: string, i: nat)
    requires Plain(b) && Digits(d) && i < |b + "[" + d + "]"|
    ensures (b + "[" + d + "]")[i] == '[' <==> i == |b|
  {
  }

  lemma WordBeforeBracket(b: string, d: string, w: string, r: nat)
    requires Plain(b) && Digits(d) && OccursAt(b + "[" + d + "]", w + "[", r)
    ensures |w| <= |b| && b[|b| - |w|..] == w
  {
    var t := b + "[" + d + "]";
    var m := t[r..r + |w| + 1];
    assert m == w + "[";
    assert m[|w|] == '[' && m[|w|] == t[r + |w|];
    OnlyBracket(b, d, r + |w|);
    forall k | 0 <= k < |w| ensures b[r + k] == w[k] {
      assert m[k] == t[r + k];
    }
  }

  /** A word and a bracket occur in base[d] exactly when the base ends with that word. */
  lemma WordThenBracket(b: string, d: string, w: string)
    requires Plain(b) && Digits(d)
    ensures Contains(Text(b, [d]), w + "[") <==> |w| <= |b| && b[|b| - |w|..] == w
  {
    hide Text, Digits, Plain;
    OneSuffix(b, d);
    var t := b + "[" + d + "]";
    var r := Find(t, w + "[");
    if r >= 0 {
      WordBeforeBracket(b, d, w, r);
    }
    if |w| <= |b| && b[|b| - |w|..] == w {
      assert t[|b| - |w|..|b| + 1] == w + "[";
      Present(t, w + "[", |b| - |w|);
    }
  }

  lemma BlobWords(b: string, d: string)
    requires Base(b) && Digits(d)
    ensures Contains(Text(b, [d]), "bytes[") <==> b == "bytes"
    ensures Contains(Text(b, [d]), "string[") <==> b == "string"
  {
    hide Base, Contains, Text;
    BaseShape(b);
    BaseEndings(b);
    WordThenBracket(b, d, "bytes");
    WordThenBracket(b, d, "string");
    assert "bytes" + "[" == "bytes[" && "string" + "[" == "string[";
  }

  lemma EmptyBrackets(b: string, d: string)
    requires Plain(b) && Digits(d)
    ensures Contains(Text(b, [d]), "[]") <==> d == ""
  {
    OneSuffix(b, d);
    var t := Text(b, [d]);
    var r := Find(t, "[]");
    if r >= 0 {
      assert t[r..r + 2][0] == '[' && t[r..r + 2][1] == ']';
      assert t[r] == '[' && t[r + 1] == ']';
      assert r == |b|;
    }
    if d == "" {
      assert t[|b|..|b| + 2] == "[]";
      Present(t, "[]", |b|);
    }
  }

  /** One suffix on a base of the table: which class predicates hold. */
  lemma SuffixClasses(b: string, d: string)
    requires Base(b) && Digits(d)
    ensures var t := Text(b, [d]);
            && (IsNonFixedSizeNonFixedArray(t) <==> BlobBase(b) && d == "")
            && (IsNonFixedSizeFixedArray(t) <==> BlobBase(b) && d != "")
            && !IsNonFixedSize(t)
            && (IsFixedSizeNonFixedArray(t) <==> !BlobBase(b) && d == "")
            && (IsFixedSizeFixedArray(t) <==> !BlobBase(b) && d != "")
  {
    hide Base, Contains, Text, Digits;
    BaseShape(b);
    EmptyBrackets(b, d);
    HasBracket(b, d);
    BlobWords(b, d);
    StringInside(b, d);
    SuffixEquals(b, d, "bytes");
    SuffixEquals(b, d, "string");
    assert "bytes" + "[]" == "bytes[]" && "string" + "[]" == "string[]";
  }

  lemma HasBracket(b: string, d: string)
    requires Plain(b)
    ensures Contains(Text(b, [d]), "[")
    ensures Text(b, [d]) != "string" && Text(b, [d]) != "bytes"
  {
    FirstBracket(b, [d]);
    OneSuffix(b, d);
    assert Text(b, [d])[|b|] == '[';
  }

  lemma SuffixEquals(b: string, d: string, w: string)
    requires Plain(b) && Plain(w) && Digits(d)
    ensures Text(b, [d]) == w + "[]" <==> b == w && d == ""
  {
    OneSuffix(b, d);
    var t := Text(b, [d]);
    if t == w + "[]" {
      assert t[|b|] == '[' && t[|w|] == '[';
      assert |b| == |w|;
      assert t[..|b|] == b && t[..|w|] == w;
    }
  }

  lemma BaseEndings(b: string)
    requires Base(b)
    ensures |b| >= 5 && b[|b| - 5..] == "bytes" <==> b == "bytes"
    ensures |b| >= 6 && b[|b| - 6..] == "string" <==> b == "string"
  {
    hide Base, Plain;
    BaseShape(b);
    if |b| >= 5 && b[|b| - 5..] == "bytes" {
      assert b[|b| - 5..][4] == b[|b| - 1];
      assert b[|b| - 5..][0] == b[|b| - 5];
    }
    if |b| >= 6 && b[|b| - 6..] == "string" {
      assert b[|b| - 6..][5] == b[|b| - 1] == 'g';
    }
  }

  lemma StringInside(b: string, d: string)
    requires Base(b) && Digits(d)
    ensures Contains(Text(b, [d]), "string") <==> b == "string"
  {
    OneSuffix(b, d);
    BaseShape(b);
    var t := Text(b, [d]);
    if b == "string" {
      assert t[0..6] == "string";
      Present(t, "string", 0);
    } else {
      Absent(t, "string", 'g');
    }
  }

  /** The generator accepts a type string exactly when its base is in the table and it has at
      most one array suffix. */
  lemma Acceptance(b: string, ds: seq<string>)
    requires Plain(b) && AllDigits(ds)
    ensures Accepts(Text(b, ds)) <==> Base(b) && |ds| <= 1
  {
    hide Find, Base;
    var t := Text(b, ds);
    MappingOfText(b, ds);
    FirstBracket(b, ds);
    if ds == [] {
      assert !Contains(t, "[");
      NoBracketNoClass(t);
    } else {
      LaterBracket(b, ds);
      assert t[..|b|] == b;
      assert Text(b, []) == b;
      MappingOfText(b, []);
      if Base(b) && |ds| == 1 {
        assert ds == [ds[0]];
        SuffixClasses(b, ds[0]);
      }
    }
  }

  lemma NoBracketNoClass(t: string)
    requires !Contains(t, "[")
    ensures !IsNonFixedSizeFixedArray(t) && !IsFixedSizeFixedArray(t)
  {
    NoBracketNoWord(t, "bytes[");
    NoBracketNoWord(t, "string[");
  }

  lemma NoBracketNoWord(t: string, p: string)
    requires !Contains(t, "[") && '[' in p
    ensures !Contains(t, p)
  {
    forall i | 0 <= i < |t| ensures t[i] != '[' {
      assert !OccursAt(t, "[", i);
      assert t[i..i + 1] == [t[i]];
    }
    Absent(t, p, '[');
  }

  // ----- The names of the accepted types

  function ElemName(e: Elem): string
    requires ValidElem(e)
  {
    match e
    case Address => "address"
    case Bool => "bool"
    case UInt(n) =>
      if n == 1 then "uint8" else if n == 2 then "uint16" else if n == 4 then "uint32"
      else if n == 8 then "uint64" else if n == 16 then "uint128" else "uint256"
    case SInt(n) =>
      if n == 1 then "int8" else if n == 2 then "int16" else if n == 4 then "int32"
      else if n == 8 then "int64" else if n == 16 then "int128" else "int256"
    case FixedBytes(n) => "bytes" + Decimal(n)
  }

  function BaseName(t: AbiType): string
    requires ValidType(t)
  {
    match t
    case Elementary(e) => ElemName(e)
    case FixedArray(e, _) => ElemName(e)
    case DynArray(e) => ElemName(e)
    case Blob(isString) => if isString then "string" else "bytes"
    case BlobArray(isString) => if isString then "string" else "bytes"
    case BlobFixedArray(isString, _) => if isString then "string" else "bytes"
  }

  function Brackets(t: AbiType): seq<string> {
    match t
    case Elementary(_) | Blob(_) => []
    case DynArray(_) | BlobArray(_) => [""]
    case FixedArray(_, k) => [Decimal(k)]
    case BlobFixedArray(_, k) => [Decimal(k)]
  }

  /** The Solidity spelling of a type. */
  function Name(t: AbiType): string
    requires ValidType(t)
  {
    Text(BaseName(t), Brackets(t))
  }

  lemma ElemNameInTable(e: Elem)
    requires ValidElem(e)
    ensures e.FixedBytes? <==> !IntegerBase(ElemName(e))
    ensures e.FixedBytes? <==> FixedBytesBase(ElemName(e))
    ensures !BlobBase(ElemName(e))
  {
    var b := ElemName(e);
    if e.FixedBytes? {
      assert Digits(Decimal(e.size));
      FixedBytesApart(b, e.size);
    } else {
      IntegerApart(b);
    }
  }

  lemma IntegerApart(b: string)
    requires IntegerBase(b)
    ensures !FixedBytesBase(b) && !BlobBase(b)
  {
    assert b[1] != 'y';
    forall n | 1 <= n <= 32 ensures b != "bytes" + Decimal(n) {
      assert ("bytes" + Decimal(n))[1] == 'y';
    }
  }

  lemma FixedBytesApart(b: string, n: nat)
    requires b == "bytes" + Decimal(n)
    ensures !IntegerBase(b) && !BlobBase(b)
  {
    assert b[0] == 'b' && b[1] == 'y' && |b| > 5;
  }

  /** Each accepted type satisfies exactly one class predicate, or none if it is elementary. */
  lemma ClassOfName(t: AbiType)
    requires ValidType(t)
    ensures Accepts(Name(t))
    ensures IsNonFixedSizeNonFixedArray(Name(t)) <==> t.BlobArray?
    ensures IsNonFixedSizeFixedArray(Name(t)) <==> t.BlobFixedArray?
    ensures IsNonFixedSize(Name(t)) <==> t.Blob?
    ensures IsFixedSizeNonFixedArray(Name(t)) <==> t.DynArray?
    ensures IsFixedSizeFixedArray(Name(t)) <==> t.FixedArray?
  {
    hide Decimal, Accepts, IntegerBase, FixedBytesBase, ElemName;
    var b, ds := BaseName(t), Brackets(t);
    BaseNameInTable(t);
    BaseShape(b);
    Acceptance(b, ds);
    if ds == [] {
      PlainClasses(b);
    } else {
      assert ds == [ds[0]];
      SuffixClasses(b, ds[0]);
    }
  }

  lemma BaseNameInTable(t: AbiType)
    requires ValidType(t)
    ensures Base(BaseName(t))
    ensures BlobBase(BaseName(t)) <==> t.Blob? || t.BlobArray? || t.BlobFixedArray?
  {
    hide Decimal, IntegerBase, FixedBytesBase, ElemName;
    if t.Elementary? || t.FixedArray? || t.DynArray? {
      ElemNameInTable(t.e);
    }
  }

  lemma PlainClasses(b: string)
    requires Plain(b)
    ensures Text(b, []) == b
    ensures !IsNonFixedSizeNonFixedArray(b) && !IsNonFixedSizeFixedArray(b)
    ensures !IsFixedSizeNonFixedArray(b) && !IsFixedSizeFixedArray(b)
  {
    assert Text(b, []) == b;
    FirstBracket(b, []);
    NoBracketNoClass(b);
    NoBracketNoWord(b, "[]");
    assert '[' in "bytes[]" && '[' in "string[]";
  }

  /** The text of an element type at each position. */
  function TypeAt(e: Elem, pos: Position, k: nat): AbiType {
    match pos
    case Single => Elementary(e)
    case InFixedArray => FixedArray(e, k)
    case InArray => DynArray(e)
  }

  /** The look-ups made on the text agree with the properties of the type: the sign table is
      consulted with the full text, the byte-order and alignment tables with get_input_type. */
  lemma Lookups(e: Elem, pos: Position, k: nat)
    requires ValidElem(e)
    ensures var t := Name(TypeAt(e, pos, k));
            && InputType(t).Some?
            && (IsSignedValue(t) <==> SignTested(e, pos))
            && (RequireEndianChange(InputType(t).value) <==> Swapped(e, pos))
            && (IsRightAligned(InputType(t).value) <==> RightAligned(e))
            && (IsValueType(t) <==> Native(e))
  {
    hide Decimal, Find, Base, IsSignedValue, RequireEndianChange, IsRightAligned, ValueTypeKey, ElemName;
    var ty := TypeAt(e, pos, k);
    var b, ds := ElemName(e), Brackets(ty);
    BaseNameInTable(ty);
    BaseShape(b);
    MappingOfText(b, ds);
    FirstBracket(b, ds);
    ClassOfName(ty);
    ElemLookups(e);
    assert Name(ty)[..|b|] == b;
    match pos
    case Single =>
      assert Name(ty) == b;
    case InFixedArray =>
      NotSigned(b, Decimal(k));
    case InArray =>
      OneSuffix(b, "");
      assert Name(ty) == b + "[]";
  }

  /** get_input_type of an elementary type is the type itself. */
  lemma NameInMapping(e: Elem)
    requires ValidElem(e)
    ensures InputType(Name(Elementary(e))) == Some(Name(Elementary(e)))
  {
    hide Base;
    BaseNameInTable(Elementary(e));
    assert Name(Elementary(e)) == ElemName(e);
  }

  ghost predicate LookedUp(e: Elem, b: string) {
    && (IsSignedValue(b) <==> SignTested(e, Single)) && (IsSignedValue(b + "[]") <==> SignTested(e, InArray))
    && (RequireEndianChange(b) <==> Swapped(e, Single)) && (RequireEndianChange(b + "[]") <==> Swapped(e, InArray))
    && (IsRightAligned(b) <==> RightAligned(e)) && (IsRightAligned(b + "[]") <==> RightAligned(e))
    && (ValueTypeKey(b) <==> Native(e))
  }

  lemma ElemLookups(e: Elem)
    requires ValidElem(e)
    ensures LookedUp(e, ElemName(e))
  {
    var b := ElemName(e);
    SignedKeys(b);
    SignedKeys(b + "[]");
    match e
    case Address => assert b + "[]" == "address[]";
    case Bool => assert b + "[]" == "bool[]";
    case UInt(n) =>
      assert b + "[]" == if n == 1 then "uint8[]" else if n == 2 then "uint16[]" else if n == 4 then "uint32[]"
        else if n == 8 then "uint64[]" else if n == 16 then "uint128[]" else "uint256[]";
    case SInt(n) =>
      assert b + "[]" == if n == 1 then "int8[]" else if n == 2 then "int16[]" else if n == 4 then "int32[]"
        else if n == 8 then "int64[]" else if n == 16 then "int128[]" else "int256[]";
    case FixedBytes(n) =>
      RightAlignedKeys(b);
      RightAlignedKeys(b + "[]");
  }

  lemma SignedKeys(t: string)
    ensures IsSignedValue(t) ==> t[0] == 'i'
  {
  }

  lemma RightAlignedKeys(t: string)
    ensures RequireEndianChange(t) || ValueTypeKey(t) ==> IsRightAligned(t)
    ensures IsRightAligned(t) ==> |t| >= 2 && t[1] != 'y'
  {
  }

  /** Which parameters get a NULL test, from the text of the type. */
  lemma NullTestOfName(t: AbiType)
    requires ValidType(t)
    ensures IsNonFixedSize(Name(t)) || !IsValueType(Name(t)) <==> NullChecked(t)
    ensures NullChecked(t) <==> !(HasElem(t) && (t.e.Bool? || ((t.e.UInt? || t.e.SInt?) && t.e.size in {1, 2, 4, 8})))
  {
    hide Name, IsValueType, InputType, IsSignedValue, RequireEndianChange, IsRightAligned, SignTested, Swapped;
    ClassOfName(t);
    match t
    case Elementary(e) => Lookups(e, Single, 0);
    case FixedArray(e, k) => Lookups(e, InFixedArray, k);
    case DynArray(e) => Lookups(e, InArray, 0);
    case Blob(_) =>
    case BlobArray(_) => BlobNotValue(t);
    case BlobFixedArray(_, _) => BlobNotValue(t);
  }

  lemma BlobNotValue(t: AbiType)
    requires t.BlobArray? || t.BlobFixedArray?
    ensures !IsValueType(Name(t))
  {
    hide Find, Decimal;
    var b, ds := BaseName(t), Brackets(t);
    assert Plain(b);
    FirstBracket(b, ds);
    assert Name(t)[..|b|] == b;
  }

  /** No signed key ends like base[d]. */
  lemma NotSigned(b: string, d: string)
    requires Digits(d) && d != ""
    ensures !IsSignedValue(Text(b, [d]))
  {
    OneSuffix(b, d);
    var t := Text(b, [d]);
    assert t[|t| - 1] == ']' && t[|t| - 2] == d[|d| - 1];
  }

  /** get_FixedArray_length reads back the length in the type. */
  lemma LengthOfName(b: string, k: nat)
    requires Plain(b)
    ensures var t := Text(b, [Decimal(k)]);
            var s, e := Find(t, "["), Find(t, "]");
            0 <= s + 1 <= e <= |t| && Digits(t[s + 1..e]) && ParseInt(t[s + 1..e]) == k
  {
    var d := Decimal(k);
    OneSuffix(b, d);
    var t := Text(b, [d]);
    FirstBracket(b, [d]);
    FindChar(t, ']', |b| + 1 + |d|);
    assert t[|b| + 1..|b| + 1 + |d|] == d;
    ParseDecimal(k);
  }

  // ----- What a name says

  /** The number written after a prefix. */
  function NumberAfter(b: string, prefix: string): Option<nat> {
    if |prefix| < |b| && b[..|prefix|] == prefix && Digits(b[|prefix|..]) then Some(ParseInt(b[|prefix|..])) else None
  }

  /** The base names the elementary type: integers by their bits, byte strings by their bytes. */
  predicate Spells(b: string, e: Elem)
    requires ValidElem(e)
  {
    match e
    case Address => b == "address"
    case Bool => b == "bool"
    case UInt(_) => NumberAfter(b, "uint") == Some(8 * Size(e))
    case SInt(_) => NumberAfter(b, "int") == Some(8 * Size(e))
    case FixedBytes(_) => NumberAfter(b, "bytes") == Some(Size(e))
  }

  lemma BitsText(n: nat)
    requires IntegerSize(n)
    ensures Decimal(8 * n) == if n == 1 then "8" else if n == 2 then "16" else if n == 4 then "32"
                              else if n == 8 then "64" else if n == 16 then "128" else "256"
  {
    hide Decimal;
    OneDigit();
    if n >= 2 {
      DecimalStep(8 * n);
      if n >= 16 {
        DecimalStep(8 * n / 10);
      }
    }
  }

  lemma OneDigit()
    ensures Decimal(1) == "1" && Decimal(2) == "2" && Decimal(3) == "3" && Decimal(6) == "6" && Decimal(8) == "8"
  {
  }

  lemma DecimalStep(n: nat)
    requires n >= 10
    ensures Decimal(n) == Decimal(n / 10) + ['0' + (n % 10) as char]
  {
  }

  lemma IntegerName(n: nat)
    requires IntegerSize(n)
    ensures ElemName(UInt(n)) == "uint" + Decimal(8 * n)
    ensures ElemName(SInt(n)) == "int" + Decimal(8 * n)
  {
    hide Decimal;
    BitsText(n);
  }

  lemma NumberRead(prefix: string, n: nat)
    ensures NumberAfter(prefix + Decimal(n), prefix) == Some(n)
  {
    hide Decimal, ParseInt;
    var b := prefix + Decimal(n);
    assert b[..|prefix|] == prefix && b[|prefix|..] == Decimal(n);
    ParseDecimal(n);
  }

  lemma ElemNameSpells(e: Elem)
    requires ValidElem(e)
    ensures Spells(ElemName(e), e)
  {
    hide NumberAfter, Decimal;
    match e
    case UInt(n) => IntegerName(n); NumberRead("uint", 8 * n);
    case SInt(n) => IntegerName(n); NumberRead("int", 8 * n);
    case FixedBytes(n) => NumberRead("bytes", n);
    case _ =>
  }

  /** A base names at most one elementary type. */
  lemma SpellsOne(b: string, e: Elem, f: Elem)
    requires ValidElem(e) && ValidElem(f) && Spells(b, e) && Spells(b, f)
    ensures e == f
  {
    hide ParseInt;
    SpellsFirst(b, e);
    SpellsFirst(b, f);
  }

  lemma SpellsFirst(b: string, e: Elem)
    requires ValidElem(e) && Spells(b, e)
    ensures |b| >= 2
    ensures b[..2] == match e case Address => "ad" case Bool => "bo" case UInt(_) => "ui" case SInt(_) => "in"
                              case FixedBytes(_) => "by"
  {
    hide ParseInt;
    match e
    case UInt(_) => assert b[..2] == b[..4][..2];
    case SInt(_) => assert b[..2] == b[..3][..2];
    case FixedBytes(_) => assert b[..2] == b[..5][..2];
    case _ =>
  }

  /** The text of a type: base and what stands between the brackets, if there are any. */
  predicate Says(t: AbiType, base: string, brackets: Option<string>)
    requires ValidType(t)
  {
    match t
    case Elementary(e) => Spells(base, e) && brackets == None
    case DynArray(e) => Spells(base, e) && brackets == Some("")
    case FixedArray(e, k) => Spells(base, e) && LengthText(brackets, k)
    case Blob(isString) => base == (if isString then "string" else "bytes") && brackets == None
    case BlobArray(isString) => base == (if isString then "string" else "bytes") && brackets == Some("")
    case BlobFixedArray(isString, k) => base == (if isString then "string" else "bytes") && LengthText(brackets, k)
  }

  predicate LengthText(brackets: Option<string>, k: nat) {
    brackets.Some? && brackets.value != "" && Digits(brackets.value) && ParseInt(brackets.value) == k
  }

  /** What stands before the first bracket, and between it and the first closing one. */
  function BaseText(s: string): string {
    if Find(s, "[") < 0 then s else s[..Find(s, "[")]
  }

  function BracketText(s: string): Option<string> {
    var i, j := Find(s, "["), Find(s, "]");
    if 0 <= i < j then Some(s[i + 1..j]) else None
  }

  /** Every name can be read: signedness, width in bits, array or not, and array length. */
  lemma NameReads(t: AbiType)
    requires ValidType(t)
    ensures Says(t, BaseText(Name(t)), BracketText(Name(t)))
  {
    hide Find, Spells, Decimal, ParseInt, ElemName, Base;
    var b, ds := BaseName(t), Brackets(t);
    BaseNameInTable(t);
    BaseShape(b);
    ReadText(b, ds);
    if t.Elementary? || t.FixedArray? || t.DynArray? {
      ElemNameSpells(t.e);
    }
    if t.FixedArray? || t.BlobFixedArray? {
      ParseDecimal(t.length);
    }
  }

  lemma ReadText(b: string, ds: seq<string>)
    requires Plain(b) && AllDigits(ds) && |ds| <= 1
    ensures BaseText(Text(b, ds)) == b
    ensures BracketText(Text(b, ds)) == if ds == [] then None else Some(ds[0])
  {
    hide Find;
    var t := Text(b, ds);
    FirstBracket(b, ds);
    if ds == [] {
      assert t == b;
    } else {
      var d := ds[0];
      assert ds == [d] && Digits(d);
      OneSuffix(b, d);
      FindChar(t, ']', |b| + 1 + |d|);
      assert t[|b| + 1..|b| + 1 + |d|] == d && t[..|b|] == b;
    }
  }

  /** Different types have different names, so no two prototypes differ in a type alone and agree. */
  lemma NameInjective(t: AbiType, u: AbiType)
    requires ValidType(t) && ValidType(u) && Name(t) == Name(u)
    ensures t == u
  {
    hide Name, Spells, BaseText, BracketText, ParseInt;
    NameReads(t);
    NameReads(u);
    var b := BaseText(Name(t));
    if HasElem(t) && HasElem(u) {
      SpellsOne(b, t.e, u.e);
    } else if HasElem(t) {
      BlobNotSpelled(b, t.e);
    } else if HasElem(u) {
      BlobNotSpelled(b, u.e);
    }
  }

  predicate HasElem(t: AbiType) {
    t.Elementary? || t.FixedArray? || t.DynArray?
  }

  lemma NoComma(t: AbiType)
    requires ValidType(t)
    ensures ',' !in Name(t) && Name(t) != ""
  {
    hide Decimal, ElemName;
    var b, ds := BaseName(t), Brackets(t);
    if HasElem(t) {
      ElemNameNoComma(t.e);
    }
    if ds == [] {
      assert Name(t) == b;
    } else {
      assert ds == [ds[0]] && Digits(ds[0]);
      OneSuffix(b, ds[0]);
    }
  }

  lemma ElemNameNoComma(e: Elem)
    requires ValidElem(e)
    ensures ',' !in ElemName(e) && ElemName(e) != ""
  {
    if e.FixedBytes? {
      assert Digits(Decimal(e.size));
    }
  }

  lemma BlobNotSpelled(b: string, e: Elem)
    requires ValidElem(e) && Spells(b, e)
    ensures !BlobBase(b)
  {
    hide ParseInt;
    SpellsFirst(b, e);
    assert "string"[..2] == "st" && "bytes"[..2] == "by";
  }

  predicate IntegerByRule(b: string) {
    exists n :: n in {1, 2, 4, 8, 16, 32} && (b == "uint" + Decimal(8 * n) || b == "int" + Decimal(8 * n))
  }

  /** The table, by rule: integers of 8, 16, .. 256 bits and byte strings of 1 to 32 bytes. */
  lemma BaseByRule(b: string)
    ensures Base(b) <==>
      || b == "address" || b == "bool" || b == "string" || b == "bytes"
      || IntegerByRule(b) || FixedBytesBase(b)
  {
    hide IntegerBase;
    IntegerBases(b);
  }

  lemma IntegerBases(b: string)
    ensures IntegerBase(b) <==> b == "address" || b == "bool" || IntegerByRule(b)
  {
    hide Decimal, IntegerBase, FixedBytesBase, ElemName;
    if IntegerByRule(b) {
      var n :| n in {1, 2, 4, 8, 16, 32} && (b == "uint" + Decimal(8 * n) || b == "int" + Decimal(8 * n));
      IntegerName(n);
      ElemNameInTable(UInt(n));
      ElemNameInTable(SInt(n));
    }
    ElemNameInTable(Address);
    ElemNameInTable(Bool);
    AddressAndBool();
    if IntegerBase(b) {
      var e := ElemOfName(b);
      ElemNameInTable(e);
      if e.UInt? || e.SInt? {
        IntegerName(e.size);
        assert e.size in {1, 2, 4, 8, 16, 32};
      }
    }
  }

  lemma AddressAndBool()
    ensures ElemName(Address) == "address" && ElemName(Bool) == "bool"
  {
  }

  lemma ElemOfName(b: string) returns (e: Elem)
    requires IntegerBase(b) || FixedBytesBase(b)
    ensures ValidElem(e) && ElemName(e) == b
  {
    if b == "address" { e := Address; }
    else if b == "bool" { e := Bool; }
    else if b == "uint8" { e := UInt(1); }
    else if b == "uint16" { e := UInt(2); }
    else if b == "uint32" { e := UInt(4); }
    else if b == "uint64" { e := UInt(8); }
    else if b == "uint128" { e := UInt(16); }
    else if b == "uint256" { e := UInt(32); }
    else if b == "int8" { e := SInt(1); }
    else if b == "int16" { e := SInt(2); }
    else if b == "int32" { e := SInt(4); }
    else if b == "int64" { e := SInt(8); }
    else if b == "int128" { e := SInt(16); }
    else if b == "int256" { e := SInt(32); }
    else {
      var n :| 1 <= n <= 32 && b == "bytes" + Decimal(n);
      e := FixedBytes(n);
    }
  }

  /** Array lengths written as usual, without leading zeros. */
  predicate Canonical(ds: seq<string>) {
    AllDigits(ds) && forall i :: 0 <= i < |ds| ==> ds[i] == "" || ds[i] == Decimal(ParseInt(ds[i]))
  }

  /** The six type classes cover everything the generator accepts, however many leading zeros a
      length is written with. */
  lemma AcceptedIsNamed(b: string, ds: seq<string>) returns (t: AbiType)
    requires Plain(b) && AllDigits(ds) && Accepts(Text(b, ds))
    ensures ValidType(t) && |ds| <= 1 && Says(t, b, if ds == [] then None else Some(ds[0]))
    ensures Canonical(ds) ==> Name(t) == Text(b, ds)
  {
    hide IntegerBase, FixedBytesBase, ElemName, Spells, Accepts, Text, Decimal, ParseInt;
    Acceptance(b, ds);
    var k := if ds == [] || ds == [""] then 0 else ParseInt(ds[0]);
    if BlobBase(b) {
      t := if ds == [] then Blob(b == "string")
      else if ds == [""] then BlobArray(b == "string")
      else BlobFixedArray(b == "string", k);
    } else {
      var e := ElemOfName(b);
      ElemNameSpells(e);
      t := if ds == [] then Elementary(e)
      else if ds == [""] then DynArray(e)
      else FixedArray(e, k);
    }
    assert ds == [] || ds == [ds[0]];
    assert Canonical(ds) ==> Brackets(t) == ds;
  }
}
