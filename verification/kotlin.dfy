/** The Kotlin value types the prediction core passes between its steps. */
module Kotlin {

  /** The raw bits of one Kotlin `Byte`, as stored in a `ByteBuffer` or a
      `ByteArray`.  How the bits are read as a number is up to the reader:
      `Byte.toInt()` reads them signed. */
  type Byte = bv8

  /** A Kotlin nullable value: an interpreter that is not loaded yet, a field
      that does not exist. */
  datatype Option<+T> = None | Some(value: T)
}
