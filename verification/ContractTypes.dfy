/** The types the generator accepts, by class, and what its look-up tables say about them. */
module ContractTypes {

  /** An elementary type; sizes are in bytes. */
  datatype Elem = Address | Bool | UInt(size: nat) | SInt(size: nat) | FixedBytes(size: nat)

  /** The five classes of array and variable-length types, and the elementary types. */
  datatype AbiType =
    | Elementary(e: Elem)
    | FixedArray(e: Elem, length: nat)
    | DynArray(e: Elem)
    | Blob(isString: bool)
    | BlobArray(isString: bool)
    | BlobFixedArray(isString: bool, length: nat)

  /** Where a value of an elementary type is written from. */
  datatype Position = Single | InFixedArray | InArray

  predicate IntegerSize(n: nat) {
    n == 1 || n == 2 || n == 4 || n == 8 || n == 16 || n == 32
  }

  predicate ValidElem(e: Elem) {
    match e
    case Address | Bool => true
    case UInt(n) => IntegerSize(n)
    case SInt(n) => IntegerSize(n)
    case FixedBytes(n) => 1 <= n <= 32
  }

  predicate ValidType(t: AbiType) {
    match t
    case Elementary(e) => ValidElem(e)
    case FixedArray(e, _) => ValidElem(e)
    case DynArray(e) => ValidElem(e)
    case _ => true
  }

  /** sizeof of the C type an elementary type is mapped to. */
  function Size(e: Elem): (n: nat)
    requires ValidElem(e)
    ensures 1 <= n <= 32
  {
    match e
    case Address => 20
    case Bool => 1
    case UInt(n) => n
    case SInt(n) => n
    case FixedBytes(n) => n
  }

  /** is_value_type: mapped to a native C integer, so passed by value and comparable with 0. */
  predicate Native(e: Elem) {
    match e
    case Bool => true
    case UInt(n) => n <= 8
    case SInt(n) => n <= 8
    case _ => false
  }

  /** is_right_aligned_type */
  predicate RightAligned(e: Elem) {
    !e.FixedBytes?
  }

  /** is_signed_value_type of the full type string: `intN[k]` is not in the table. */
  predicate SignTested(e: Elem, pos: Position) {
    e.SInt? && pos != InFixedArray
  }

  /** require_endian_change of the type string that reaches it. */
  predicate Swapped(e: Elem, pos: Position) {
    match e
    case Address => true
    case Bool => pos == InArray
    case UInt(n) => pos == InArray || n != 1
    case SInt(n) => pos == InArray || n != 1
    case FixedBytes(_) => false
  }

  predicate DynamicType(t: AbiType) {
    !t.Elementary? && !t.FixedArray?
  }

  /** The pointers tested against NULL: all except native integers and arrays of them. */
  predicate NullChecked(t: AbiType) {
    match t
    case Elementary(e) => !Native(e)
    case FixedArray(e, _) => !Native(e)
    case DynArray(e) => !Native(e)
    case _ => true
  }
}
