/**
  Shared vocabulary of the row encoder and the checkpoint packer: results and
  errors, the physical types the encoders dispatch on, and the values a
  column vector holds.
 */
module Types {
  import opened ByteOrder

  datatype Option<T> = None | Some(value: T)

  /** The exceptions the modelled code throws. */
  datatype Error =
    | NotImplemented(message: string)   // NotImplementedException
    | Internal(message: string)         // InternalException
    | NotModelled(message: string)      // behaviour that lives in a file outside this model

  datatype Result<T> = Ok(value: T) | Err(error: Error)

  /** Result of an operation that returns nothing but may throw. */
  datatype Outcome = Done | Failed(error: Error)

  /** The physical types the encoders dispatch on, plus two nested types that every switch rejects. */
  datatype PhysicalType =
    | BOOL | UINT8 | INT8 | UINT16 | INT16 | UINT32 | INT32 | UINT64 | INT64
    | FLOAT | DOUBLE | INTERVAL | HASH | INT128 | VARCHAR | LIST | STRUCT

  /**
    One entry of a column vector. Fixed-width scalars are the bit pattern of
    the C++ object (an IEEE-754 pattern for FLOAT and DOUBLE, two's complement
    for signed integers). hugeint_t and interval_t are kept as their 16-byte
    object representation, whose inner layout the model does not interpret.
    A string (string_t) is its 32-bit size field and its raw bytes.
   */
  datatype Value =
    | Byte(b: bv8)
    | Half(h: bv16)
    | Word(w: bv32)
    | Long(l: bv64)
    | Opaque16(raw: seq<bv8>)
    | Str(size: bv32, chars: seq<bv8>)

  /** Types stored in a fixed number of bytes (the templated cases of every switch). */
  predicate TypeIsConstantSize(t: PhysicalType) {
    !(t.VARCHAR? || t.LIST? || t.STRUCT?)
  }

  /** sizeof of the C++ type that represents a constant-size physical type. */
  function TypeIdSize(t: PhysicalType): (size: nat)
    requires TypeIsConstantSize(t)
    ensures size in {1, 2, 4, 8, 16}
  {
    match t
    case BOOL | UINT8 | INT8 => 1
    case UINT16 | INT16 => 2
    case UINT32 | INT32 | FLOAT => 4
    case UINT64 | INT64 | DOUBLE | HASH => 8
    case INTERVAL | INT128 => 16
  }

  /** 2^32: string sizes and tail offsets are 32-bit in the source. */
  const UINT32_RANGE: nat := 0x1_0000_0000

  /** 2^64: idx_t arithmetic wraps at this modulus. */
  const UINT64_RANGE: nat := 0x1_0000_0000_0000_0000

  /** `v` is a value a vector of physical type `t` can hold. */
  predicate HasType(v: Value, t: PhysicalType) {
    match t
    case BOOL | UINT8 | INT8 => v.Byte?
    case UINT16 | INT16 => v.Half?
    case UINT32 | INT32 | FLOAT => v.Word?
    case UINT64 | INT64 | DOUBLE | HASH => v.Long?
    case INTERVAL | INT128 => v.Opaque16? && |v.raw| == 16
    case VARCHAR => v.Str?
    case LIST | STRUCT => true
  }

  /** A string_t's size field holds the number of its bytes. */
  predicate StringSized(v: Value) {
    v.Str? ==> Unsigned32(v.size) == |v.chars|
  }

  /**
    A vector after Orrify: its values, its validity mask (RowIsValid) and
    the selection vector that maps a row to a position in `data`.
   */
  datatype VectorData = VectorData(data: seq<Value>, validity: seq<bool>, sel: seq<nat>)

  /** Every value of the vector has physical type `t`. */
  predicate AllHaveType(vdata: VectorData, t: PhysicalType) {
    forall k :: 0 <= k < |vdata.data| ==> HasType(vdata.data[k], t)
  }

  /** Every string of the vector has a size field that counts its bytes. */
  predicate AllStringsSized(vdata: VectorData) {
    forall k :: 0 <= k < |vdata.data| ==> StringSized(vdata.data[k])
  }

  /** Row i reads `vdata.sel[sel[i]]` (sel.get_index, then vdata.sel->get_index). */
  function SourceIndex(vdata: VectorData, sel: seq<nat>, i: nat): nat
    requires i < |sel| && sel[i] < |vdata.sel|
  {
    vdata.sel[sel[i]]
  }

  /** The first `count` rows of `sel` select values and validity entries that exist. */
  predicate Selects(vdata: VectorData, sel: seq<nat>, count: nat) {
    count <= |sel| &&
    forall i :: 0 <= i < count ==>
      sel[i] < |vdata.sel| && vdata.sel[sel[i]] < |vdata.data| && vdata.sel[sel[i]] < |vdata.validity|
  }
}
