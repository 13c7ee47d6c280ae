/** Shared value types: unsigned bytes and the error-carrying wrappers
    that stand for Python exceptions and C "no value" results. */
module Base {

  /** An unsigned 8-bit value (C `uint8_t`, numpy `uint8`, a Python `bytes` element). */
  type Byte = b: int | 0 <= b < 256

  datatype Option<+T> = None | Some(value: T)

  datatype Result<+T, +E> = Ok(value: T) | Err(error: E)
}
