/**
 * The field descriptors a Struct is made of. Each descriptor carries the field's kind
 * together with its current value, the width `l` taken from the field's `stob` tag,
 * and its byte order `e`. The kinds are the ones the reader and writer strategies
 * are bound to, by Go kind, in setReader and setWriter.
 */
module Schema {
  import opened Wire
  import opened ByteOrder

  datatype Kind =
    | Int(x: int64)                        // int, int8, int16, int32, int64
    | Uint(u: uint64)                      // uint, uint16, uint32, uint64
    | Byte(b: byte)                        // uint8
    | Bool(v: bool)
    | Bytes(bs: seq<byte>, isArray: bool)  // []byte, or [N]byte when isArray
    | Str(s: seq<byte>)                    // string; l == 0 is variable width
    | SliceInt(xs: seq<int64>)             // slices and arrays of signed integers
    | SliceUint(us: seq<uint64>)           // slices and arrays of unsigned integers
    | SliceBool(vs: seq<bool>)             // slices and arrays of bool
    | SliceStr(ss: seq<seq<byte>>)         // slices and arrays of string
    | Nested(fields: seq<Field>)           // a struct, or a pointer to one

  datatype Field = Field(kind: Kind, l: nat, e: Endian)

  /**
   * The `Bytes` strategies index the first `l` elements of the field's own value,
   * which Go only allows when the value has that many; every other kind is always
   * well formed, and a nested struct when all its fields are.
   */
  predicate Valid(f: Field)
  {
    match f.kind
    case Bytes(bs, _) => f.l <= |bs|
    case Nested(fs) => forall i :: 0 <= i < |fs| ==> Valid(fs[i])
    case _ => true
  }

  /**
   * setWriter binds a decoder for every kind here except the slices and arrays of
   * integers, bools and strings, for which it reports an unknown field type.
   */
  predicate Writable(f: Field)
  {
    match f.kind
    case SliceInt(_) => false
    case SliceUint(_) => false
    case SliceBool(_) => false
    case SliceStr(_) => false
    case Nested(fs) => forall i :: 0 <= i < |fs| ==> Writable(fs[i])
    case _ => true
  }
}
