/** `CommunityVisibilityState`: who may see a profile, an integer from 1
    to 3. */
module VisibilityStates {
  import opened Wrappers
  import opened Bits
  import opened Primitives
  import opened Serde

  datatype CommunityVisibilityState = Private | FriendsOnly | Public {

    /** The explicit discriminant of the variant. */
    function Code(): (code: int)
      ensures 1 <= code <= 3
    {
      match this
      case Private => 1
      case FriendsOnly => 2
      case Public => 3
    }
  }

  /** `CommunityVisibilityState::try_from(i64)`: 1 to 3 name a state;
      anything else, 0 included, is handed back as `Unknown`. */
  function TryFrom(value: i64): (r: Result<CommunityVisibilityState, EnumError<i64>>)
    ensures r.Ok? <==> 1 <= value <= 3
    ensures r.Ok? ==> r.value.Code() == value
    ensures r.Err? ==> r.error == Unknown(value)
  {
    match value
    case 1 => Ok(Private)
    case 2 => Ok(FriendsOnly)
    case 3 => Ok(Public)
    case _ => Err(Unknown(value))
  }

  /** Decoding a state's discriminant gives the state back. */
  lemma TryFromCode(s: CommunityVisibilityState)
    ensures TryFrom(s.Code()) == Ok(s)
  {
  }

  /** The visitor's `expecting` text, which the crate shares word for word
      with the persona-state visitor. */
  const EXPECTING: string := "persona state enum variant as an integer"

  /** `CommunityVisibilityStateVisitor::visit_i64`. */
  function VisitI64(v: i64): Result<CommunityVisibilityState, DeError> {
    match TryFrom(v)
    case Ok(s) => Ok(s)
    case Err(_) => Err(InvalidValue(Signed(v), EXPECTING))
  }

  /** `Deserialize for CommunityVisibilityState`: an integer of either
      signedness decodes exactly when its value is 1 to 3; a `u64` beyond
      `i64::MAX` is refused before the table is consulted. */
  function Deserialize(n: Integer): (r: Result<CommunityVisibilityState, DeError>)
    ensures r.Ok? <==> 1 <= n.Value() <= 3
    ensures r.Ok? ==> r.value.Code() == n.Value()
    ensures r.Err? ==> r.error == InvalidValue(Reported(n), EXPECTING)
  {
    match n
    case I64(i) => VisitI64(i)
    case U64(u) => VisitU64(u, VisitI64, EXPECTING)
  }

  /** A `u64` within `i64` range decodes exactly as the same value read as
      an `i64`, error included. */
  lemma UnsignedAsSigned(v: u64)
    requires v <= I64_MAX
    ensures Deserialize(U64(v)) == Deserialize(I64(v))
  {
  }

  /** The crate's test: `[1, 2, 3]` decodes to the three states in
      declaration order. */
  lemma DeserializeAll(xs: seq<Integer>)
    requires xs == [U64(1), U64(2), U64(3)]
    ensures TryMap(xs, Deserialize) == Ok([Private, FriendsOnly, Public])
  {
    var want := [Private, FriendsOnly, Public];
    forall i | 0 <= i < 3
      ensures Deserialize(xs[i]) == Ok(want[i])
    {
      TryFromCode(want[i]);
    }
    TryMapAllOk(xs, Deserialize, want);
  }
}
