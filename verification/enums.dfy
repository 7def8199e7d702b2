/** The older crate-root copies of `PersonaState` and
    `CommunityVisibilityState`: the same variants and discriminants as the
    `model/primitives` types, which stand in for them here, decoded from an
    `i32` with a fixed message as the error. */
module LegacyEnums {
  import opened Wrappers
  import opened Bits
  import PersonaStates
  import VisibilityStates

  /** The older `PersonaState::try_from(i32)`. */
  function PersonaFrom(value: i32): (r: Result<PersonaStates.PersonaState, string>)
    ensures r.Ok? <==> 0 <= value <= 7
    ensures r.Ok? ==> r.value.Code() == value
    ensures r.Err? ==> r.error == "invalid persona state"
  {
    match value
    case 0 => Ok(PersonaStates.Offline)
    case 1 => Ok(PersonaStates.Online)
    case 2 => Ok(PersonaStates.Busy)
    case 3 => Ok(PersonaStates.Away)
    case 4 => Ok(PersonaStates.Snooze)
    case 5 => Ok(PersonaStates.LookingToTrade)
    case 6 => Ok(PersonaStates.LookingToPlay)
    case 7 => Ok(PersonaStates.Invisible)
    case _ => Err("invalid persona state")
  }

  /** The older `CommunityVisibilityState::try_from(i32)`. */
  function VisibilityFrom(value: i32): (r: Result<VisibilityStates.CommunityVisibilityState, string>)
    ensures r.Ok? <==> 1 <= value <= 3
    ensures r.Ok? ==> r.value.Code() == value
    ensures r.Err? ==> r.error == "invalid community visibility state"
  {
    match value
    case 1 => Ok(VisibilityStates.Private)
    case 2 => Ok(VisibilityStates.FriendsOnly)
    case 3 => Ok(VisibilityStates.Public)
    case _ => Err("invalid community visibility state")
  }

  /** On every `i32` the older decoders accept the same codes as the newer
      `i64` ones and give the same variants; only the error differs. */
  lemma DecodersAgree(value: i32)
    ensures PersonaFrom(value).ToOption() == PersonaStates.TryFrom(value).ToOption()
    ensures VisibilityFrom(value).ToOption() == VisibilityStates.TryFrom(value).ToOption()
  {
  }

  /** Decoding a variant's discriminant gives the variant back. */
  lemma DecodeCodes(p: PersonaStates.PersonaState, v: VisibilityStates.CommunityVisibilityState)
    ensures PersonaFrom(p.Code()) == Ok(p)
    ensures VisibilityFrom(v.Code()) == Ok(v)
  {
  }
}
