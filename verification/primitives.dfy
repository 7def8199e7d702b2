/** The error shared by the lookup tables under `model/primitives`. */
module Primitives {

  /** `EnumError::Unknown`: the value had no variant; it is handed back. */
  datatype EnumError<T> = Unknown(value: T)
}
