/** Scalar values shared by the wire side and the domain side, and the
    required-field primitive every decoder goes through.

    Field elements, hashes and addresses are treated as opaque bounded values:
    the model never does arithmetic on them. Their scalar adapters (bytes on the
    wire, fixed-width values in process) are the identity here, because the
    layer below guarantees well-formed scalars. */
module Primitives {
  import opened Wrappers

  /** The order of the STARK field, 2^251 + 17 * 2^192 + 1. */
  const FELT_PRIME: nat := 0x800000000000011000000000000000000000000000000000000000000000001

  /** A field element. */
  type Felt = x: nat | x < FELT_PRIME

  /** A 160-bit Ethereum address value. */
  type H160 = x: nat | x < 0x1_0000_0000_0000_0000_0000_0000_0000_0000_0000_0000

  newtype U32 = x: int | 0 <= x < 0x1_0000_0000

  newtype U64 = x: int | 0 <= x < 0x1_0000_0000_0000_0000

  /** Rust's `u64::from(u32)`: an infallible widening. */
  function Widen(x: U32): U64 {
    x as int as U64
  }

  /** The structured decode error. The diagnostic text of the error the source
      builds is not modelled, only the field name it carries. */
  datatype Error = MissingField(field: string)

  /** `proto_field`: a present wire slot gives its value; an absent one fails
      with a missing-field error naming the caller's field. */
  function ProtoField<T>(slot: Option<T>, fieldName: string): (r: Result<T, Error>)
    ensures r.Ok? <==> slot.Some?
    ensures r.Ok? ==> r.value == slot.value
    ensures r.Err? ==> r.error == MissingField(fieldName)
  {
    match slot
    case Some(x) => Ok(x)
    case None => Err(MissingField(fieldName))
  }
}
