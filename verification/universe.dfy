/** `Universe`: the 8-bit universe field of a Steam id and its code, the
    `X` of `STEAM_X:Y:Z`. */
module Universes {
  import opened Wrappers
  import opened Bits
  import opened Primitives

  datatype Universe = Invalid | Public | Beta | Internal | Dev | Rc {

    /** `as_u64`: the code of the variant, its position in declaration order. */
    function AsU64(): (code: u64)
      ensures code <= 5
    {
      match this
      case Invalid => 0
      case Public => 1
      case Beta => 2
      case Internal => 3
      case Dev => 4
      case Rc => 5
    }
  }

  /** `Universe::try_from(u64)`: codes 0 to 5 name a universe, anything else
      is handed back as `Unknown`. */
  function TryFrom(value: u64): (r: Result<Universe, EnumError<u64>>)
    ensures r.Ok? <==> value <= 5
    ensures r.Ok? ==> r.value.AsU64() == value
    ensures r.Err? ==> r.error == Unknown(value)
  {
    match value
    case 0 => Ok(Invalid)
    case 1 => Ok(Public)
    case 2 => Ok(Beta)
    case 3 => Ok(Internal)
    case 4 => Ok(Dev)
    case 5 => Ok(Rc)
    case _ => Err(Unknown(value))
  }

  /** Decoding the code of a universe gives the universe back. */
  lemma TryFromAsU64(u: Universe)
    ensures TryFrom(u.AsU64()) == Ok(u)
  {
  }

  /** Code 1 is the public universe, the one friend codes assume. */
  lemma PublicIsOne()
    ensures TryFrom(1) == Ok(Public) && Public.AsU64() == 1
  {
  }
}
