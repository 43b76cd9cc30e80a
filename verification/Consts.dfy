/**
 The nvtype codes and the table that gives each integer kind its scalar and
 array code (nvlist/consts.go).
 */
module Consts {
  import opened Bytes

  const TYPE_UNKNOWN := 0
  const TYPE_BOOLEAN := 1
  const TYPE_BYTE := 2
  const TYPE_INT16 := 3
  const TYPE_UINT16 := 4
  const TYPE_INT32 := 5
  const TYPE_UINT32 := 6
  const TYPE_INT64 := 7
  const TYPE_UINT64 := 8
  const TYPE_STRING := 9
  const TYPE_BYTE_ARRAY := 10
  const TYPE_INT16_ARRAY := 11
  const TYPE_UINT16_ARRAY := 12
  const TYPE_INT32_ARRAY := 13
  const TYPE_UINT32_ARRAY := 14
  const TYPE_INT64_ARRAY := 15
  const TYPE_UINT64_ARRAY := 16
  const TYPE_STRING_ARRAY := 17
  const TYPE_HRTIME := 18
  const TYPE_NVLIST := 19
  const TYPE_NVLIST_ARRAY := 20
  const TYPE_BOOLEAN_VALUE := 21
  const TYPE_INT8 := 22
  const TYPE_UINT8 := 23
  const TYPE_BOOLEAN_ARRAY := 24
  const TYPE_INT8_ARRAY := 25
  const TYPE_UINT8_ARRAY := 26
  const TYPE_DOUBLE := 27

  const PAIR_HEADER_SIZE := 16
  const UNIQUE_NAME_FLAG := 1
  const MAX_INT16 := 0x7FFF
  const MAX_INT32 := 0x7FFF_FFFF
  const MAX_ELEMS := 65535

  datatype IntKind = Int8 | Int16 | Int32 | Int64 | Uint8 | Uint16 | Uint32 | Uint64 {
    function Width(): (w: nat)
      ensures w in {1, 2, 4, 8}
    {
      match this
      case Int8 => 1
      case Uint8 => 1
      case Int16 => 2
      case Uint16 => 2
      case Int32 => 4
      case Uint32 => 4
      case Int64 => 8
      case Uint64 => 8
    }

    predicate Signed() {
      Int8? || Int16? || Int32? || Int64?
    }
  }

  /** nvtypeFromKind on the integer kinds; uint8 becomes a byte. */
  function ScalarCode(k: IntKind): (t: nat)
    ensures t != TYPE_UNKNOWN && KindOfScalar(t) == Some(k)
  {
    match k
    case Int8 => TYPE_INT8
    case Int16 => TYPE_INT16
    case Int32 => TYPE_INT32
    case Int64 => TYPE_INT64
    case Uint8 => TYPE_BYTE
    case Uint16 => TYPE_UINT16
    case Uint32 => TYPE_UINT32
    case Uint64 => TYPE_UINT64
  }

  /** nvtypeFromArrayKind on the integer kinds; []uint8 becomes a byte array. */
  function ArrayCode(k: IntKind): (t: nat)
    ensures t != TYPE_UNKNOWN && KindOfArray(t) == Some(k)
  {
    match k
    case Int8 => TYPE_INT8_ARRAY
    case Int16 => TYPE_INT16_ARRAY
    case Int32 => TYPE_INT32_ARRAY
    case Int64 => TYPE_INT64_ARRAY
    case Uint8 => TYPE_BYTE_ARRAY
    case Uint16 => TYPE_UINT16_ARRAY
    case Uint32 => TYPE_UINT32_ARRAY
    case Uint64 => TYPE_UINT64_ARRAY
  }

  /** The Go integer kind the decoder makes for a scalar code, if it is one. */
  function KindOfScalar(t: nat): Option<IntKind> {
    if t == TYPE_BYTE || t == TYPE_UINT8 then Some(Uint8)
    else if t == TYPE_INT8 then Some(Int8)
    else if t == TYPE_INT16 then Some(Int16)
    else if t == TYPE_UINT16 then Some(Uint16)
    else if t == TYPE_INT32 then Some(Int32)
    else if t == TYPE_UINT32 then Some(Uint32)
    else if t == TYPE_INT64 then Some(Int64)
    else if t == TYPE_UINT64 then Some(Uint64)
    else None
  }

  /** The Go element kind the decoder makes for an integer array code, if it is one. */
  function KindOfArray(t: nat): Option<IntKind> {
    if t == TYPE_BYTE_ARRAY || t == TYPE_UINT8_ARRAY then Some(Uint8)
    else if t == TYPE_INT8_ARRAY then Some(Int8)
    else if t == TYPE_INT16_ARRAY then Some(Int16)
    else if t == TYPE_UINT16_ARRAY then Some(Uint16)
    else if t == TYPE_INT32_ARRAY then Some(Int32)
    else if t == TYPE_UINT32_ARRAY then Some(Uint32)
    else if t == TYPE_INT64_ARRAY then Some(Int64)
    else if t == TYPE_UINT64_ARRAY then Some(Uint64)
    else None
  }
}
