/** Shared vocabulary of the DRO volume reducer: bytes, register/value
    pairs, the failures the transcoder can end with, and a success-or-failure
    result type. */
module Dro {

  /** One byte of a DRO file, as its unsigned value. */
  newtype Byte = x: int | 0 <= x < 256

  /** A (register, value) command pair as it appears in the pair stream. */
  datatype Pair = Pair(register: Byte, value: Byte)

  /** Everything that ends a transcoding pass early.  The Python script
      reports some of these as error messages and crashes on the others
      with an uncaught exception; either way no complete output is produced. */
  datatype Error =
    | ShortHeader                         // fewer than 26 header bytes: `struct.error`
    | BadSignature                        // header magic is not DBRAWOPL
    | CodemapIndexOutOfRange(index: Byte) // `codemap[reg]` raises IndexError
    | UnmappedLevelRegister(register: Byte) // `LEVEL_TO_ALGORITHM[reg]` raises KeyError
    | ShortPair                           // a one-byte final pair: `struct.error`

  /** The outcome of an operation that can end the pass early. */
  datatype Result<+T> = Success(value: T) | Failure(error: Error)

  function Min(a: int, b: int): int {
    if a < b then a else b
  }
}
