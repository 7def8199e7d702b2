/** The crate-root `player_summary` module: summaries of up to 100
    distinct ids in a map where a requested id the response leaves out
    stays `None`, and the checks that turn a raw summary into a parsed one.
    Which Unix times chrono can represent is left to a parameter
    `validTime`; the visibility and persona decoders are called through a
    `new` the enums do not define, taken here to be their `try_from` with
    the error dropped. */
module PlayerSummariesLegacy {
  import opened Wrappers
  import opened Bits
  import opened Decimal
  import opened Clients
  import opened SteamIds
  import opened BatchesLegacy
  import opened LegacyEnums
  import PersonaStates
  import VisibilityStates
  import SteamIdLegacy

  /** One element of `response.players` as it arrives. */
  datatype RawSummary = RawSummary(
    steamId: string,
    communityVisibilityState: i32,
    profileState: Option<i32>,
    personaName: string,
    profileUrl: string,
    avatar: string,
    avatarMedium: string,
    avatarFull: string,
    avatarHash: string,
    lastLogoff: Option<i64>,
    personaState: i32,
    realName: Option<string>,
    primaryClanId: Option<string>,
    timeCreated: Option<i64>,
    personaStateFlags: Option<u32>,
    localCountryCode: Option<string>)

  /** `PlayerSummary`; the two times stay Unix seconds. */
  datatype PlayerSummary = PlayerSummary(
    steamId: SteamId,
    communityVisibilityState: VisibilityStates.CommunityVisibilityState,
    profileConfigured: bool,
    personaName: string,
    profileUrl: string,
    avatar: string,
    avatarMedium: string,
    avatarFull: string,
    avatarHash: string,
    lastLogoff: Option<i64>,
    personaState: PersonaStates.PersonaState,
    realName: Option<string>,
    primaryClanId: Option<u64>,
    timeCreated: Option<i64>,
    personaStateFlags: Option<u32>,
    localCountryCode: Option<string>)

  datatype PlayerSummaryError =
    | TooManyIds
    | NonUniqueIds(id: SteamId)
    | Reqwest(cause: HttpError)
    | InvalidCommunityVisibilityState(visibility: i32)
    | InvalidPrimaryClanId(clan: string)
    | InvalidPersonaState(persona: i32)
    | InvalidSteamId(text: string)
    | InvalidTimestamp(unix: i64)

  /** `PLAYER_SUMMARIES_IDS_PER_REQUEST`. */
  const PLAYER_SUMMARIES_IDS_PER_REQUEST: nat := 100

  // ---------------------------------------------------------------------
  // The checks, in the order `parse_response` makes them

  /** An absent time passes; a present one must be representable. */
  predicate TimeOk(t: Option<i64>, validTime: i64 -> bool) {
    t.None? || validTime(t.value)
  }

  predicate TimesOk(raw: RawSummary, validTime: i64 -> bool) {
    TimeOk(raw.lastLogoff, validTime) && TimeOk(raw.timeCreated, validTime)
  }

  predicate VisibilityOk(raw: RawSummary) {
    VisibilityFrom(raw.communityVisibilityState).Ok?
  }

  predicate PersonaOk(raw: RawSummary) {
    PersonaFrom(raw.personaState).Ok?
  }

  /** An absent clan id passes; a present one must be a decimal `u64`. */
  predicate ClanOk(raw: RawSummary) {
    raw.primaryClanId.None? || ParseU64(raw.primaryClanId.value).Some?
  }

  predicate IdOk(raw: RawSummary) {
    ParseU64(raw.steamId).Some?
  }

  /** The first unrepresentable time: the last log-off before the
      creation time. */
  function BadTime(raw: RawSummary, validTime: i64 -> bool): i64
    requires !TimesOk(raw, validTime)
  {
    if !TimeOk(raw.lastLogoff, validTime) then raw.lastLogoff.value else raw.timeCreated.value
  }

  /** `PlayerSummary::parse_response`. */
  function ParseSummary(raw: RawSummary, validTime: i64 -> bool): (r: Result<PlayerSummary, PlayerSummaryError>)
    ensures r.Ok? <==> TimesOk(raw, validTime) && VisibilityOk(raw) && PersonaOk(raw) && ClanOk(raw) && IdOk(raw)
    ensures (r.Err? && r.error.InvalidTimestamp?) <==> !TimesOk(raw, validTime)
    ensures !TimesOk(raw, validTime) ==> r == Err(InvalidTimestamp(BadTime(raw, validTime)))
    ensures r == Err(InvalidCommunityVisibilityState(raw.communityVisibilityState)) <==> TimesOk(raw, validTime) && !VisibilityOk(raw)
    ensures r == Err(InvalidPersonaState(raw.personaState)) <==> TimesOk(raw, validTime) && VisibilityOk(raw) && !PersonaOk(raw)
    ensures (r.Err? && r.error.InvalidPrimaryClanId?) <==> TimesOk(raw, validTime) && VisibilityOk(raw) && PersonaOk(raw) && !ClanOk(raw)
    ensures r.Err? && r.error.InvalidPrimaryClanId? ==> r.error.clan == raw.primaryClanId.value
    ensures r == Err(InvalidSteamId(raw.steamId)) <==> TimesOk(raw, validTime) && VisibilityOk(raw) && PersonaOk(raw) && ClanOk(raw) && !IdOk(raw)
    ensures r.Ok? ==> (r.value.profileConfigured <==> raw.profileState.Some?)
    ensures r.Ok? ==> r.value.steamId.raw == ParseU64(raw.steamId).value
    ensures r.Ok? ==> (r.value.primaryClanId.None? <==> raw.primaryClanId.None?)
    ensures r.Ok? && raw.primaryClanId.Some? ==> r.value.primaryClanId.value == ParseU64(raw.primaryClanId.value).value
    ensures r.Ok? ==> r.value.communityVisibilityState.Code() == raw.communityVisibilityState
    ensures r.Ok? ==> r.value.personaState.Code() == raw.personaState
    ensures r.Ok? ==> r.value == PlayerSummary(r.value.steamId, r.value.communityVisibilityState, raw.profileState.Some?,
                                               raw.personaName, raw.profileUrl, raw.avatar, raw.avatarMedium,
                                               raw.avatarFull, raw.avatarHash, raw.lastLogoff, r.value.personaState,
                                               raw.realName, r.value.primaryClanId, raw.timeCreated,
                                               raw.personaStateFlags, raw.localCountryCode)
  {
    if !TimeOk(raw.lastLogoff, validTime) then Err(InvalidTimestamp(raw.lastLogoff.value))
    else if !TimeOk(raw.timeCreated, validTime) then Err(InvalidTimestamp(raw.timeCreated.value))
    else
      match VisibilityFrom(raw.communityVisibilityState).ToOption()
      case None => Err(InvalidCommunityVisibilityState(raw.communityVisibilityState))
      case Some(vis) =>
        match PersonaFrom(raw.personaState).ToOption()
        case None => Err(InvalidPersonaState(raw.personaState))
        case Some(persona) =>
          var clan :=
            match raw.primaryClanId
            case None => Ok(None)
            case Some(text) =>
              match ParseU64(text)
              case None => Err(InvalidPrimaryClanId(text))
              case Some(n) => Ok(Some(n));
          if clan.Err? then Err(clan.error)
          else
            match SteamIdLegacy.FromStr(raw.steamId)
            case Err(_) => Err(InvalidSteamId(raw.steamId))
            case Ok(id) =>
              Ok(PlayerSummary(id, vis, raw.profileState.Some?, raw.personaName, raw.profileUrl, raw.avatar,
                               raw.avatarMedium, raw.avatarFull, raw.avatarHash, raw.lastLogoff, persona,
                               raw.realName, clan.value, raw.timeCreated, raw.personaStateFlags,
                               raw.localCountryCode))
  }

  /** The parse of each response entry under a given `validTime`. */
  function Parser(validTime: i64 -> bool): RawSummary -> Result<PlayerSummary, PlayerSummaryError> {
    raw => ParseSummary(raw, validTime)
  }

  function SummaryId(s: PlayerSummary): SteamId {
    s.steamId
  }

  /** The method's names for the batch failures. */
  function Named(f: Failure<PlayerSummaryError>): PlayerSummaryError {
    match f
    case TooMany => TooManyIds
    case Repeated(id) => NonUniqueIds(id)
    case Http(e) => Reqwest(e)
    case Parse(e) => e
  }

  /** `Client::get_player_summaries`. */
  function GetPlayerSummaries(c: Client, ids: seq<SteamId>, validTime: i64 -> bool, net: string -> nat -> Attempt<seq<RawSummary>>): (r: (Result<map<SteamId, Option<PlayerSummary>>, PlayerSummaryError>, Client))
    ensures r.0 == Err(TooManyIds) <==> |ids| > PLAYER_SUMMARIES_IDS_PER_REQUEST
    ensures (exists id :: r.0 == Err(NonUniqueIds(id))) <==> |ids| <= PLAYER_SUMMARIES_IDS_PER_REQUEST && !Unique(ids)
    ensures r.0.Err? && r.0.error.NonUniqueIds? ==> exists j :: FirstRepeatAt(ids, j) && r.0.error.id == ids[j]
    ensures r.0.Err? && (r.0.error.TooManyIds? || r.0.error.NonUniqueIds?) ==> r.1 == c
    ensures |ids| <= PLAYER_SUMMARIES_IDS_PER_REQUEST && Unique(ids) ==>
              var g := GetJson(c, net(SteamIdExt.ToSteamIdString(ids, ",")));
              && r.1 == g.1
              && (g.0.Err? ==> r.0 == Err(Reqwest(g.0.error)))
              && (g.0.Ok? ==> forall i :: FirstErrAt(g.0.value, Parser(validTime), i) ==> r.0 == Err(ParseSummary(g.0.value[i], validTime).error))
              && (g.0.Ok? && TryMap(g.0.value, Parser(validTime)).Ok? ==>
                    r.0 == Ok(Merged(ids, TryMap(g.0.value, Parser(validTime)).value, SummaryId)))
  {
    var parse := Parser(validTime);
    var (res, c') := Fetch(c, ids, PLAYER_SUMMARIES_IDS_PER_REQUEST, net, parse, SummaryId);
    SummaryErrors(GetJson(c, net(SteamIdExt.ToSteamIdString(ids, ","))).0, validTime);
    match res
    case Ok(m) => (Ok(m), c')
    case Err(f) => (Err(Named(f)), c')
  }

  /** A response entry that fails to parse never reports a batch
      refusal. */
  lemma SummaryErrors(g: Result<seq<RawSummary>, HttpError>, validTime: i64 -> bool)
    ensures g.Ok? && TryMap(g.value, Parser(validTime)).Err? ==>
              !TryMap(g.value, Parser(validTime)).error.TooManyIds? && !TryMap(g.value, Parser(validTime)).error.NonUniqueIds?
  {
    if g.Ok? && TryMap(g.value, Parser(validTime)).Err? {
      var i :| 0 <= i < |g.value| && Parser(validTime)(g.value[i]) == Err(TryMap(g.value, Parser(validTime)).error);
    }
  }
}
