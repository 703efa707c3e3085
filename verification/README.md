# BoAT-X call-data encoder and base64 codec: a Dafny model

`tools/eth2c.py` compiles a contract ABI into C functions. Each generated function sizes a buffer,
writes a 4-byte selector, a head of 32-byte words (values or offsets) and then the tails of the
variable-length parameters, all through one moving cursor, and hands the result to a transaction or
a contract call. The sizing passes, the offset expression, the head writer and the tail writer are
separate pieces of the generator that must agree for every list of types and every argument. This
project models the emitted code and proves that they do, relates the bytes to the Solidity Contract
ABI Specification (section "Formal Specification of the Encoding"), and decodes them again. A
second part covers the streaming base64 codec of `sdk/utilities/base64.c` against RFC 4648.

Verify everything with `dafny verify dfyconfig.toml`.

## Files

| file | contents |
|---|---|
| `Wrappers.dfy`, `Texts.dfy`, `Bytes.dfy` | `Option`; decimal numerals and comma-separated lists; bytes, little- and big-endian numerals, `BOAT_ROUNDUP` with wrap-around |
| `SolidityAbi.dfy`, `AbiExample.dfy` | the ABI specification for all its types: `Enc`, heads, tails, their layout, canonical names; one of its examples in bytes |
| `ContractTypes.dfy`, `TypeNames.dfy` | the accepted types; the generator's look-ups and substring tests on type strings |
| `Layout.dfy` | the bytes written for given argument values, and when they are the ABI encoding |
| `Correspondence.dfy` | accepted types and C arguments against ABI types, names and values |
| `Params.dfy`, `CMemory.dfy`, `Sizing.dfy`, `Emitted.dfy` | parameters in memory; library calls; the sizing and offset passes; the emitted writers |
| `Decoder.dfy` | a reference decoder and the round trip |
| `Generated.dfy`, `HelloWorld.dfy` | whole generated functions with their cleanup; the checked-in `helloworld_setName` |
| `Base64Tables.dfy`, `Base64Spec.dfy`, `Base64Codec.dfy`, `Base64Bits.dfy` | the tables; RFC 4648; the codec; the bit-stream reading |

## Main results

- `Emitted.FillBuffer`, `Generated.BuildCallData`: for every list of accepted types and all
  arguments, the emitted writes stay inside the storage that the sizing passes asked for **if and
  only if** the call data is shorter than 2^32 bytes, each `string` counted with its length modulo
  2^32. Then they fill the storage with exactly selector, heads and tails; the cursor ends at its
  end, and each by-reference integer or address is left byte-swapped while nothing else changes.
- `Sizing.FieldLength`, `Sizing.Offset`: in wrapping C arithmetic, without any bound on the
  arguments, the allocated length and every offset are the true ones modulo 2^32.
- `Generated.CallDataIsAbi`: the call data is the selector of the ABI signature and the ABI encoding
  **if and only if** no negative value is passed in `int8[k]`..`int128[k]`, `int128` or `int128[]`,
  and no `string` has 2^32 bytes or more.
- `Correspondence.EveryValue`, `Correspondence.SameValue`: the conforming C arguments of an accepted
  type are in one-to-one correspondence with the ABI values of that type.
- `Decoder.DecodeCallArgs`, `Decoder.CallArgsInjective`: the bytes determine the arguments, those
  signed types included.
- `Generated.RepeatedCall`: since by-reference arguments are swapped in the caller's buffer, a second
  call with the same buffers submits the same call data if and only if each `address` and each
  integer of 128 or 256 bits among them is a byte palindrome.
- `TypeNames.Acceptance`, `TypeNames.NameReads`, `Generated.PrototypeIsSignature`: a type string is
  accepted if and only if its base is in the table and it has at most one array suffix; each name
  says the width, the signedness and the length of its type; the prototype is the ABI signature.
- `Generated.SendTransaction`: for every outcome of the outside calls, what is returned, submitted
  and freed.
- `Base64Codec.EncodeText`, `Base64Codec.DecodeText`, `Base64Spec.DecodeEncode`,
  `Base64Spec.EncodeDecode`, `Base64Bits.DecodeCharacterised`: the state machines compute the RFC
  definitions over its alphabet (`Base64Tables.EncodeCharIsRfc`); decoding undoes encoding;
  re-encoding gives a text back if and only if it is canonical.

## Where the code departs from the ABI

Each failing family has its exact condition and a concrete member.

**Lost signs.** The sign fill is decided by looking up the full type string in a table without
fixed-size arrays (tools/eth2c.py:930), and for `int128` forms the emitted `>= 0` compares an address
(tools/eth2c.py:945, 1047). The fill is then zero and a negative value is encoded as a large
positive one. `Layout.LostSignExample` is a concrete case, `int8[1]` holding -1.
`Layout.WordIsEnc`, `Layout.ArgIsEnc`, `Layout.CallArgsIsEnc` and `Generated.CallDataIsAbi` state the
exact condition at the level of one word, one argument, all arguments and the whole call data;
`Correspondence.SafeByText` reads it off the type strings.

**Cut strings.** `strlen` has 64 bits and the length variable 32 (tools/eth2c.py:1014-1026), so only
the first strlen modulo 2^32 bytes are written, inside the storage. `Layout.SentIsEnc` has the
condition; `HelloWorld.SetNameWraps` is a case, a name of 2^32 bytes sent as the empty string.

**Overrun storage.** `field_len` is a BUINT32 and wraps (tools/eth2c.py:862-867). When the call data
reaches 2^32 bytes, `BoatMalloc` gets a length that is too small and some write leaves the storage:
`Generated.OverrunByArray` is `uint8[]` with 2^27 elements and `Generated.OverrunByBytes` is `bytes`
of length 2^32 - 1, both with storage of 68 bytes. `Emitted.FillBuffer` has the condition.

## Conventions

- The host is little-endian; `size_t` has 64 bits; BUINT32 arithmetic wraps explicitly.
- Elementary values and element arrays are `array<byte>` in caller memory. Variable-length contents
  are only read, so they are sequences; a `string` argument is its bytes without the terminator.
- Where the memset of a word stands before the byte swap in the emitted text and after it in the
  model, the two statements touch different storage.
- The Keccak digest is a function parameter; outcomes of allocation, nonce, data and send calls are
  parameters, so each contract holds for every combination of them.
- A writer returns `ok`: false when the next memset or memcpy would leave its storage, and the run is
  then followed no further. Each contract says exactly when that happens. `Generated.SendTransaction`
  and `Generated.CallConstant` speak of what comes after the writes, so where they write they require
  the condition of `Generated.BuildCallData`.
- `Layout.Truncated` cuts each `string` to what the code sends of it. Length variables are BUINT32
  except `strlen`, which is a 64-bit size_t.
- Swapped buffers are distinct from the other parameters.
- An `address` argument, like an integer, stands for the little-endian number of its bytes: the
  emitted code reverses it before writing (tools/eth2c.py:255, 711-712), and `Generated.CallDataIsAbi`
  reads it so. The SDK keeps account addresses most significant byte first
  (sdk/wallet/api_ethereum.c:82), so one of those passed straight in is encoded reversed.

## Model

| member | source | states |
|---|---|---|
| Bytes.ReverseTwice | include/boatutility.h:433-450 | swapping the byte order twice gives the value back |
| Bytes.ReverseIsBigEndian | tools/eth2c.py:711-712 | the swapped memory of an integer is its big-endian numeral |
| Bytes.BeWordOfU32 | tools/eth2c.py:701-707 | a swapped BUINT32 at the end of a zeroed word is its uint256 numeral |
| Bytes.CeilWordLeast | include/boatutility.h:155-164 | the rounded value is the least multiple of 32 not below the value |
| Bytes.RoundUpIsCeil | include/boatutility.h:164 | the wrapped macro is the round-up modulo 2^32 or 2^64 for every value, 0 included, and exact if and only if the value is at most the width minus 32 |
| Bytes.TruncationKeepsLowBytes | include/boattypes.h:43-44 | BUINT32 wrap-around keeps exactly the low four bytes, 64-bit wrap-around the low eight |
| SolidityAbi.Tiling | tools/eth2c.py:897-1060 | heads and tails tile an encoding: position and contents of each, no gap, no overlap |
| SolidityAbi.AssembleInjective | tools/eth2c.py:897-1060 | encodings of tuples of the same shape are equal only if the components are |
| AbiExample.SamExample | tools/eth2c.py:897-1060 | the reference encoding and signature give the nine words of the specification's own example `sam(bytes,bool,uint256[])` |
| TypeNames.Acceptance | tools/eth2c.py:282-290 | base followed by any number of suffixes is accepted iff the base is in the table and there is at most one suffix |
| TypeNames.AcceptedIsNamed | tools/eth2c.py:486-495 | every accepted type string, lengths with leading zeros included, denotes a type of one of the six classes whose width, signedness and length are those written in it, and is its name when written without leading zeros |
| TypeNames.ClassOfName | tools/eth2c.py:391-430 | an accepted type satisfies exactly the class predicate of its class, and none if it is elementary |
| TypeNames.SuffixClasses | tools/eth2c.py:400-430 | which of the five predicates hold of a table base with one suffix, from the substring tests |
| TypeNames.Lookups | tools/eth2c.py:240-379 | the sign, byte-order, alignment and value-type look-ups, each with the text it is really given, agree with the type and position |
| TypeNames.NullTestOfName | tools/eth2c.py:838-844 | the parameters that get a NULL test, decided from the type string: all but `bool`, integers of at most 64 bits and arrays of them |
| TypeNames.LengthOfName | tools/eth2c.py:381-384 | the fixed array length written in the type is read back |
| TypeNames.NameReads | tools/eth2c.py:168-222 | base and brackets of every name: the digits are the C size in bits (bytes for `bytesN`), `string` and `bytes` are told apart, the text between the brackets is the length |
| TypeNames.NameInjective | tools/eth2c.py:878-888 | different types never have the same name |
| TypeNames.BaseByRule | tools/eth2c.py:103-222 | the table by rule: `address`, `bool`, `string`, `bytes`, integers of 8 to 256 bits, `bytes1` to `bytes32` |
| Correspondence.NameIsCanonical | tools/eth2c.py:878-888 | a type string is the canonical ABI name of the type |
| Correspondence.EveryValue | tools/eth2c.py:55-97 | every ABI value of an accepted type is held by a conforming argument of the mapped C type |
| Correspondence.SameValue | tools/eth2c.py:55-97 | different conforming arguments have different ABI values |
| Correspondence.MishandledTypes | tools/eth2c.py:930-955 | the sign is lost exactly under `int128`, `int128[]` and `int8[k]` to `int128[k]`, in text |
| Correspondence.SafeByText | tools/eth2c.py:924-955 | an argument is unsafe iff its type string is one of those and it holds a negative integer |
| Layout.WordIsEnc | tools/eth2c.py:709-719 | one written word is enc(X) iff the sign of X is not lost |
| Layout.WordDenotes | tools/eth2c.py:944-955 | the big-endian value of a right-aligned word is the argument modulo 2^256 iff the sign is not lost |
| Layout.WordsAreEnc | tools/eth2c.py:924-942 | the words written for an array are the words the ABI calls for iff every element is safe; the lengths always agree |
| Layout.BlobsAreEnc | tools/eth2c.py:986-1010 | arrays of `bytes` and `string` are encoded as the ABI says, offsets included |
| Layout.ArgIsEnc | tools/eth2c.py:915-1059 | one argument's bytes are enc(X) iff it is safe; staticness and length always agree |
| Layout.CallArgsIsEnc | tools/eth2c.py:897-1060 | all arguments: equal to the ABI encoding of the tuple iff every argument is safe |
| Layout.TruncateShortens | tools/eth2c.py:1014-1026 | a string is sent whole iff its length fits in 32 bits; otherwise its tail is strictly shorter |
| Layout.SentIsEnc | tools/eth2c.py:1012-1026 | what is sent is the ABI encoding of the arguments iff every argument is safe and no string is cut |
| Layout.LostSignExample | tools/eth2c.py:930-940 | `int8[1]` holding -1 is written as 255, not as the ABI encoding |
| Params.TwoCallsRestore | tools/eth2c.py:711-712 | a second call undoes what the first did to a by-reference argument |
| Params.SwappedByCall | tools/eth2c.py:236-274 | a call reverses exactly `address` and integers of 128 and 256 bits: those in the byte-order table and not in the value-type table |
| CMemory.ChangeEndian | include/boatutility.h:433-450 | the in-place swap loop reverses the first n bytes and leaves the rest |
| CMemory.PutWord | tools/eth2c.py:709-719 | memset, memcpy and cursor step append one aligned word, whatever was there, and stay inside iff 32 bytes are left |
| CMemory.PutU32 | tools/eth2c.py:701-707 | an offset or length is appended as its uint256 numeral, inside iff 32 bytes are left |
| CMemory.PutPadded | tools/eth2c.py:1023-1026 | contents are appended and zero-padded to the filled length; inside iff both lengths are, also when the filled length wrapped |
| Sizing.BlobTerms | tools/eth2c.py:504-531 | the `bytes` and `string` terms add up to their tails modulo 2^32, in mixed widths |
| Sizing.HeadWords | tools/eth2c.py:533-548 | the counted words are exactly the head |
| Sizing.FieldLengths | tools/eth2c.py:661-667 | first pass over an array of variable-length values: the filled lengths and their sum modulo 2^32 |
| Sizing.DataLength | tools/eth2c.py:659-676 | a `_data_length` is the tail length modulo 2^32, for the three array classes |
| Sizing.ArrayLengths | tools/eth2c.py:649-680 | every `_data_length` is added to `field_len`; the length arrays are separate |
| Sizing.FieldLength | tools/eth2c.py:862-865 | the three passes together give the call-data length modulo 2^32, for any arguments |
| Sizing.RoundedLengthModulo | tools/eth2c.py:1014-1023 | the padded length, computed from the 64-bit length, is modulo 2^32 that of the cut contents |
| Sizing.Offset | tools/eth2c.py:552-593 | the offset is the head plus the preceding tails modulo 2^32, for any mix of types |
| Sizing.ArgSize | tools/eth2c.py:649-680 | the sizes computed from lengths are those of the bytes written, a cut string included |
| Emitted.PutScalar | tools/eth2c.py:943-955 | an elementary head word, written iff it fits; an `address` or an integer of 128 or 256 bits is left swapped in the caller's buffer, any other argument is untouched |
| Emitted.PutElement | tools/eth2c.py:1045-1057 | one element goes through the scratch word; its stale bytes do not matter |
| Emitted.ElementAt | tools/eth2c.py:1042-1045 | element i of a C array is the sizeof bytes at i times sizeof |
| Emitted.PutElements | tools/eth2c.py:927-942 | the element loop appends the words of the array iff all fit, and does not change it |
| Emitted.PutArray | tools/eth2c.py:1027-1059 | the tail of a dynamic array of elementary values, written iff it fits |
| Emitted.PutBlob | tools/eth2c.py:1012-1026 | the tail of `bytes` and `string` of any length, cut to the length modulo 2^32; inside iff that tail fits |
| Emitted.PutField | tools/eth2c.py:997-1010 | a length word and padded contents, written iff they fit, also when the padded length wraps to 0 |
| Emitted.PutInnerOffsets | tools/eth2c.py:986-993 | the recurrence makes each inner offset the distance to its element's length word; inside iff all offset words fit |
| Emitted.PutInnerTails | tools/eth2c.py:997-1010 | the elements follow iff they fit; the filled lengths are rewritten to the padded lengths |
| Emitted.PutBlobArray | tools/eth2c.py:975-1010 | the whole tail of `bytes[]`, `string[]`, `bytes[N]`, `string[N]`, written iff it fits |
| Emitted.PutOffset | tools/eth2c.py:915-923 | the offset word, computed before any tail exists, is where the tail will start |
| Emitted.PutHeads | tools/eth2c.py:897-955 | all heads are appended iff they fit; arguments are unchanged or swapped in place |
| Emitted.PutTails | tools/eth2c.py:957-1060 | all tails are appended in order iff they fit |
| Emitted.FillBuffer | tools/eth2c.py:890-1060 | in storage of the wrapped length every write stays inside iff the call data is shorter than 2^32 bytes; then the storage is selector, heads and tails and the cursor ends at its end |
| Decoder.DecodeCallArgs | tools/eth2c.py:897-1060 | following head and inner offsets recovers every argument, signed exceptions included |
| Decoder.CallArgsInjective | tools/eth2c.py:897-1060 | for one type list, different arguments have different call data |
| Generated.BuildPrototype | tools/eth2c.py:878-888 | the loop builds the ABI signature: the name and the canonical type names between parentheses, separated by commas |
| Generated.PrototypeIsSignature | tools/eth2c.py:878-888 | the prototype is the function signature of the ABI for the values passed |
| Generated.PrototypeReads | tools/eth2c.py:878-888 | name, parentheses and comma-separated type names can be read back from the prototype |
| Generated.Runtime.Malloc | tools/eth2c.py:867-871 | fresh storage with arbitrary contents, or NULL |
| Generated.Runtime.Free | tools/eth2c.py:1072-1082 | only live storage can be freed, once |
| Generated.BuildCallData | tools/eth2c.py:862-1060 | once storage is allocated, the writes stay inside it iff the call data is shorter than 2^32 bytes; then it holds exactly the call data |
| Generated.SendTransaction | demo/demo_platon/helloworld.c:72-131 | the hash is returned iff no checked pointer is NULL and nonce, allocation, data and send all succeed, else NULL; storage freed exactly once iff allocated; what is submitted is the call data |
| Generated.CallConstant | tools/eth2c.py:1062-1085 | a constant function submits the arguments without the selector and frees its storage once |
| Generated.CallDataIsAbi | tools/eth2c.py:890-1060 | first four bytes of the hash of the ABI signature and ABI encoding of the arguments iff every argument is safe and every string shorter than 2^32 bytes |
| Generated.OverrunByArray | tools/eth2c.py:862-867 | `uint8[]` with 2^27 elements: the call data does not fit and 68 bytes are allocated |
| Generated.OverrunByBytes | tools/eth2c.py:862-867 | `bytes` of length 2^32 - 1: the call data does not fit and 68 bytes are allocated |
| Generated.RepeatedCall | tools/eth2c.py:711-712 | a second call with the same buffers submits the same call data iff every `address` and every integer of 128 or 256 bits is a byte palindrome |
| HelloWorld.SetNameBuffer | demo/demo_platon/helloworld.c:79-112 | for a name of any length the checked-in function stays in its buffer iff the general scheme does, and then builds the same call data |
| HelloWorld.SetNameLayout | demo/demo_platon/helloworld.c:93-112 | one offset word of 32, then length and padded name |
| HelloWorld.SetNameFits | demo/demo_platon/helloworld.c:79-112 | when a name fits, in terms of its length alone |
| HelloWorld.SetNameWraps | demo/demo_platon/helloworld.c:93-112 | a name of 2^32 bytes fits and is sent as the empty string |
| Base64Tables.DecodeEncodeChar | sdk/utilities/base64.c:10-70 | the encode table is the alphabet of RFC 4648, the decode table undoes it, and no code is the pad |
| Base64Tables.EncodeDecodeChar | sdk/utilities/base64.c:10-70 | the encode table undoes the decode table on the alphabet, whose characters get their RFC 4648 codes |
| Base64Tables.EncodeCharIsRfc | sdk/utilities/base64.c:10-19 | code by code the table is Table 1 of RFC 4648: upper case, lower case, digits, plus, slash |
| Base64Tables.AlphabetIsRfc | sdk/utilities/base64.c:22-70 | the decode table accepts exactly letters, digits, plus and slash |
| Base64Tables.AlphabetRange | sdk/utilities/base64.c:136-138 | the range test rejects nothing the table accepts |
| Base64Codec.WrittenStep | sdk/utilities/base64.c:83-102 | each state-machine step extends the output by the sextets the 24-bit groups call for |
| Base64Codec.WrittenFlush | sdk/utilities/base64.c:104-114 | after the flush the sextets are those of RFC 4648 section 4, for every length modulo 3 |
| Base64Codec.EncodeText | sdk/utilities/base64.c:72-119 | exactly BASE64_ENCODE_OUT_SIZE characters are written: the RFC encoding and a NUL |
| Base64Codec.EncodeRoom | sdk/utilities/base64.h:4 | the cursor never passes BASE64_ENCODE_OUT_SIZE and ends there |
| Base64Codec.OctetsStep | sdk/utilities/base64.c:145-160 | each sextet completes at most one octet, from the partial octet and its own high bits |
| Base64Codec.DecodeSextet | sdk/utilities/base64.c:145-160 | `OR`-ing completes an octet written earlier in the run and the next one is begun |
| Base64Codec.DecodeRoom | sdk/utilities/base64.h:5 | every write, the look-ahead one included, is below BASE64_DECODE_OUT_SIZE |
| Base64Codec.DecodeText | sdk/utilities/base64.c:121-164 | the result is the lenient decoding, whatever `out` held and however plain char is signed |
| Base64Spec.DecodeEncode | sdk/utilities/base64.c:72-164 | decoding the encoding of any octets gives them back |
| Base64Spec.EncodeIsCanonical | sdk/utilities/base64.c:104-114 | encodings are canonical in the sense of RFC 4648 section 3.5 |
| Base64Spec.EncodePadding | sdk/utilities/base64.c:104-114 | two equals signs after one last octet, one after two, none after a complete group, and none earlier |
| Base64Spec.DecodeStops | sdk/utilities/base64.c:128-143 | decoding reads exactly up to the first equals sign |
| Base64Spec.TestVectors | sdk/utilities/base64.c:72-119 | the test vectors of RFC 4648 section 10 for `foob`, `fooba` and `foobar` |
| Base64Spec.EncodeDecode | sdk/utilities/base64.c:72-164 | re-encoding the decoded text gives it back iff it is canonical |
| Base64Bits.SextetsAreBits | sdk/utilities/base64.c:83-114 | the encoded sextets are the bits of the octets followed by zero bits up to a whole sextet |
| Base64Bits.OctetsAreLeadingBits | sdk/utilities/base64.c:145-160 | the decoded octets are the leading bits of the sextet stream |
| Base64Bits.DecodeCharacterised | sdk/utilities/base64.c:128-163 | for any text: 3p/4 octets of the bit stream before the first pad p, or none if it cannot be read |
| Base64Bits.DecodeSize | sdk/utilities/base64.h:5 | BASE64_DECODE_OUT_SIZE is never exceeded and is reached by every readable text without an equals sign |
| Base64Bits.PaddingIgnored | sdk/utilities/base64.c:133-135 | what follows the first pad does not change the result |

## Left out

- The generators for the other chains (`tools/platon2c.py`, `tools/quorum2c.py` and so on) emit the same layout under other API names.
- JSON loading, C text formatting and generated names for unnamed parameters; parameters are identified by position.
- Type strings that are not a base and digit suffixes, such as unbalanced brackets.
- Signed overflow of the literal expression for the head length when the head alone exceeds 2^31 bytes: the model wraps where the C standard leaves it undefined.
- Zero-length variable-length arrays on the C stack, and arguments that overlap a byte-swapped buffer.
- Fixed array types with 2^32 elements or more: the emitted loop counter is a BUINT32.
- What a run does after a write outside its storage, which the C standard leaves undefined.
- Dereferencing a NULL pointer that the generated code does not check: the model has NULL only where it is tested.
- Keccak, signing, RPC and the wallet: calls into them appear only as outcomes.
- RLP encoding: its implementation is not part of this model.
