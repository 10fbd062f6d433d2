/** Shared vocabulary of the scale protocol model: bytes and optional values. */
module Bytes {

  /** A C# `byte`. Bit operations on it wrap at 8 bits exactly as `(byte)(... & 0xFF)` does. */
  type byte = bv8

  /** The outcome of an operation that may produce nothing (no frame written). */
  datatype Option<+T> = None | Some(value: T)
}
