/** `ProfileState`: whether a user has set up a community profile. The API
    sends `1` for a configured profile and leaves the field out otherwise. */
module ProfileStates {
  import opened Wrappers
  import opened Bits
  import opened Serde

  datatype ProfileState = Configured | NotConfigured

  const EXPECTING: string := "profile state enum as either nothing or the number 1"

  /** `ProfileStateVisitor::visit_i64`: only 1 is accepted. */
  function VisitI64(v: i64): Result<ProfileState, DeError> {
    if v == 1 then Ok(Configured) else Err(InvalidValue(Signed(v), EXPECTING))
  }

  /** `Deserialize for ProfileState`, through `deserialize_option`: a field
      that is absent or `null` (`None` here) is `NotConfigured`; a present
      integer must be 1, which is `Configured`, and any other value of
      either signedness is an error. */
  function Deserialize(v: Option<Integer>): (r: Result<ProfileState, DeError>)
    ensures r == Ok(NotConfigured) <==> v.None?
    ensures r == Ok(Configured) <==> v.Some? && v.value.Value() == 1
    ensures r.Err? ==> v.Some? && r.error == InvalidValue(Reported(v.value), EXPECTING)
  {
    match v
    case None => Ok(NotConfigured)
    case Some(I64(i)) => VisitI64(i)
    case Some(U64(u)) => VisitU64(u, VisitI64, EXPECTING)
  }

  /** Whenever decoding succeeds, the profile is configured exactly when
      the field was present; so testing for presence, as the older
      player-summary parser does, tells the same thing. */
  lemma ConfiguredIffPresent(v: Option<Integer>)
    requires Deserialize(v).Ok?
    ensures Deserialize(v).value == Configured <==> v.Some?
  {
  }

  /** The crate's tests: `1` gives `Configured`, an object without the
      field gives `NotConfigured`. */
  lemma Examples()
    ensures Deserialize(Some(U64(1))) == Ok(Configured)
    ensures Deserialize(None) == Ok(NotConfigured)
  {
  }
}
