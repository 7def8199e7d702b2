/** `PersonaState`: a user's online status as the player-summary endpoint
    reports it, an integer from 0 to 7. */
module PersonaStates {
  import opened Wrappers
  import opened Bits
  import opened Primitives
  import opened Serde

  datatype PersonaState =
    | Offline
    | Online
    | Busy
    | Away
    | Snooze
    | LookingToTrade
    | LookingToPlay
    | Invisible
  {
    /** The explicit discriminant of the variant. */
    function Code(): (code: int)
      ensures 0 <= code <= 7
    {
      match this
      case Offline => 0
      case Online => 1
      case Busy => 2
      case Away => 3
      case Snooze => 4
      case LookingToTrade => 5
      case LookingToPlay => 6
      case Invisible => 7
    }
  }

  /** `PersonaState::try_from(i64)`: 0 to 7 name a state, anything else
      (negative or larger) is handed back as `Unknown`. */
  function TryFrom(value: i64): (r: Result<PersonaState, EnumError<i64>>)
    ensures r.Ok? <==> 0 <= value <= 7
    ensures r.Ok? ==> r.value.Code() == value
    ensures r.Err? ==> r.error == Unknown(value)
  {
    match value
    case 0 => Ok(Offline)
    case 1 => Ok(Online)
    case 2 => Ok(Busy)
    case 3 => Ok(Away)
    case 4 => Ok(Snooze)
    case 5 => Ok(LookingToTrade)
    case 6 => Ok(LookingToPlay)
    case 7 => Ok(Invisible)
    case _ => Err(Unknown(value))
  }

  /** Decoding a state's discriminant gives the state back. */
  lemma TryFromCode(s: PersonaState)
    ensures TryFrom(s.Code()) == Ok(s)
  {
  }

  const EXPECTING: string := "persona state enum variant as an integer"

  /** `PersonaStateVisitor::visit_i64`. */
  function VisitI64(v: i64): Result<PersonaState, DeError> {
    match TryFrom(v)
    case Ok(s) => Ok(s)
    case Err(_) => Err(InvalidValue(Signed(v), EXPECTING))
  }

  /** `Deserialize for PersonaState`: an integer of either signedness
      decodes exactly when its value is 0 to 7; a `u64` beyond `i64::MAX`
      is refused before the table is consulted. */
  function Deserialize(n: Integer): (r: Result<PersonaState, DeError>)
    ensures r.Ok? <==> 0 <= n.Value() <= 7
    ensures r.Ok? ==> r.value.Code() == n.Value()
    ensures r.Err? ==> r.error == InvalidValue(Reported(n), EXPECTING)
  {
    match n
    case I64(i) => VisitI64(i)
    case U64(u) => VisitU64(u, VisitI64, EXPECTING)
  }

  /** A `u64` within `i64` range decodes exactly as the same value read as
      an `i64`, error included. */
  lemma UnsignedAsSigned(v: u64)
    requires v <= I64_MAX
    ensures Deserialize(U64(v)) == Deserialize(I64(v))
  {
  }

  /** The crate's test: the integers 0 to 7 in order decode to the eight
      states in declaration order. */
  lemma DeserializeAll(xs: seq<Integer>)
    requires xs == [U64(0), U64(1), U64(2), U64(3), U64(4), U64(5), U64(6), U64(7)]
    ensures TryMap(xs, Deserialize)
         == Ok([Offline, Online, Busy, Away, Snooze, LookingToTrade, LookingToPlay, Invisible])
  {
    var want := [Offline, Online, Busy, Away, Snooze, LookingToTrade, LookingToPlay, Invisible];
    forall i | 0 <= i < 8
      ensures Deserialize(xs[i]) == Ok(want[i])
    {
      TryFromCode(want[i]);
    }
    TryMapAllOk(xs, Deserialize, want);
  }
}
