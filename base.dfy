/** Shared vocabulary: optional values, results with a string error, bytes and store keys. */
module Base {

  /** `Option<T>` of the Rust code. */
  datatype Option<+T> = None | Some(value: T)

  /** `Result<T, String>` of the Rust code. */
  datatype Result<+T> = Ok(value: T) | Err(error: string)

  /** A byte (`u8`). */
  newtype u8 = x: int | 0 <= x < 0x100

  /** A `u32`, and the width of a `u64`. */
  const U32_LIMIT: nat := 0x1_0000_0000
  const U64_LIMIT: nat := 0x1_0000_0000_0000_0000
  type u32 = x: nat | x < U32_LIMIT
  type u64 = x: nat | x < U64_LIMIT

  /** Store keys are byte vectors (`Vec<u8>`). */
  type Key = seq<u8>
}
