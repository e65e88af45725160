/** The value type exchanged between transactions and the code executor (`SVMPrimitives`). */
module Primitives {

  /** The payload of `U24` is an unsigned 24-bit number. */
  const U24_LIMIT: nat := 0x100_0000
  type u24 = x: nat | x < U24_LIMIT

  /** A scalar, or a tuple of values; tuples nest. */
  datatype Primitive = U24(n: u24) | Tup(els: seq<Primitive>)
}
