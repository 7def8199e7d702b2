/** The part of serde the decoders of `model/primitives` talk to: the
    integer a self-describing deserializer hands a visitor, and the
    `invalid_value` error a visitor reports. */
module Serde {
  import opened Wrappers
  import opened Bits

  /** A JSON integer as it reaches a visitor: `visit_i64` for one read as
      signed, `visit_u64` for one read as unsigned. */
  datatype Integer = I64(i: i64) | U64(u: u64) {

    /** The number itself. */
    function Value(): int {
      match this
      case I64(i) => i
      case U64(u) => u
    }
  }

  /** `serde::de::Unexpected`: the offending value an error reports. */
  datatype Unexpected = Signed(i: i64) | Unsigned(u: u64) | Str(s: string)

  /** `de::Error::invalid_value(unexpected, &self)`: what was found, and the
      visitor's `expecting` text. */
  datatype DeError = InvalidValue(unexpected: Unexpected, expected: string)

  /** The `visit_u64` every integer visitor of the crate shares: a value
      above `i64::MAX` is refused as `Unsigned`, any other goes on to
      `visit_i64` as a signed value. */
  function VisitU64<T>(v: u64, visitI64: i64 -> Result<T, DeError>, expected: string): (r: Result<T, DeError>)
    ensures v > I64_MAX ==> r == Err(InvalidValue(Unsigned(v), expected))
    ensures v <= I64_MAX ==> r == visitI64(v)
  {
    if v > I64_MAX then Err(InvalidValue(Unsigned(v), expected)) else visitI64(v)
  }

  /** The error an integer visitor built on `VisitU64` reports for `n`:
      `Unsigned` only for a `u64` too large for `i64`, `Signed` otherwise,
      also when the value came in through `visit_u64`. */
  function Reported(n: Integer): Unexpected {
    match n
    case I64(i) => Signed(i)
    case U64(u) => if u > I64_MAX then Unsigned(u) else Signed(u)
  }
}
