/**
 Element types of tensors and the fixed list of those whose elements
 are multi-byte numbers, the only ones the byte swapper touches.
 */
module DTypes {

  /**
   The element types of the framework, named as in its Python `dtypes`
   module: the fifteen multi-byte numeric types of the swap list, and
   the single-byte and non-numeric ones that must be left alone.
   */
  datatype DataType =
    | Float16 | Float32 | Float64 | BFloat16
    | Complex64 | Complex128
    | UInt16 | UInt32 | UInt64
    | Int16 | Int32 | Int64
    | QInt16 | QUInt16 | QInt32
    | Bool | Int8 | UInt8 | QInt8 | QUInt8
    | String | Resource | Variant | Invalid

  /** The swap list, in the order the source writes it. */
  const ByteSwappable: seq<DataType> := [
    Float16, Float32, Float64, BFloat16,
    Complex64, Complex128, UInt16, UInt32,
    UInt64, Int16, Int32, Int64, QInt16,
    QUInt16, QInt32
  ]

  /** `tensor.dtype in byte_swappable`. */
  predicate IsByteSwappable(d: DataType) {
    d in ByteSwappable
  }

  /**
   Size in bytes of one element; 0 for types without a fixed-width
   encoding (strings, handles, the invalid type).
   */
  function ElementWidth(d: DataType): nat {
    match d
    case Float16 | BFloat16 | UInt16 | Int16 | QInt16 | QUInt16 => 2
    case Float32 | UInt32 | Int32 | QInt32 => 4
    case Float64 | UInt64 | Int64 | Complex64 => 8
    case Complex128 => 16
    case Bool | Int8 | UInt8 | QInt8 | QUInt8 => 1
    case String | Resource | Variant | Invalid => 0
  }

  /**
   The swap list holds exactly the types whose elements occupy at least
   two bytes: no single-byte or variable-width type is ever swapped, and
   no multi-byte numeric type is missed.
   */
  lemma SwappableIffMultiByte(d: DataType)
    ensures IsByteSwappable(d) <==> ElementWidth(d) >= 2
  {
  }

  /** The list names fifteen distinct types. */
  lemma ByteSwappableHasFifteenTypes()
    ensures |ByteSwappable| == 15
    ensures forall i, j :: 0 <= i < j < |ByteSwappable| ==> ByteSwappable[i] != ByteSwappable[j]
  {
  }
}
