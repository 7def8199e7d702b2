/** The crate-root `player_bans` module: bans of up to 100 distinct ids
    in a map where a requested id the response leaves out stays `None`.
    The economy-ban word goes through an `EconomyBan` that `src/enums.rs`
    does not define; the legacy ban keeps the word as sent. */
module PlayerBansLegacy {
  import opened Wrappers
  import opened Bits
  import opened Decimal
  import opened Clients
  import opened SteamIds
  import opened BatchesLegacy
  import SteamIdLegacy

  /** One element of `players` as it arrives. */
  datatype RawBan = RawBan(
    steamId: string,
    communityBanned: bool,
    vacBanned: bool,
    numberOfVacBans: i32,
    daysSinceLastBan: i32,
    numberOfGameBans: i32,
    economyBan: string)

  datatype PlayerBan = PlayerBan(
    steamId: SteamId,
    communityBanned: bool,
    vacBanned: bool,
    numberOfVacBans: i32,
    daysSinceLastBan: i32,
    numberOfGameBans: i32,
    economyBan: string)

  datatype PlayerBanError = TooManyIds | NonUniqueIds(id: SteamId) | Reqwest(cause: HttpError) | InvalidSteamId(text: string)

  /** `PLAYER_BANS_IDS_PER_REQUEST`. */
  const PLAYER_BANS_IDS_PER_REQUEST: nat := 100

  /** `PlayerBan::parse_response`: the id must parse; every other field is
      copied. */
  function ParseBan(raw: RawBan): (r: Result<PlayerBan, PlayerBanError>)
    ensures r.Ok? <==> ParseU64(raw.steamId).Some?
    ensures r.Ok? ==> r.value.steamId.raw == ParseU64(raw.steamId).value
    ensures r.Ok? ==> r.value.(steamId := SteamId(0)) ==
                      PlayerBan(SteamId(0), raw.communityBanned, raw.vacBanned, raw.numberOfVacBans,
                                raw.daysSinceLastBan, raw.numberOfGameBans, raw.economyBan)
    ensures r.Err? ==> r.error == InvalidSteamId(raw.steamId)
  {
    match SteamIdLegacy.FromStr(raw.steamId)
    case Err(_) => Err(InvalidSteamId(raw.steamId))
    case Ok(id) =>
      Ok(PlayerBan(id, raw.communityBanned, raw.vacBanned, raw.numberOfVacBans,
                   raw.daysSinceLastBan, raw.numberOfGameBans, raw.economyBan))
  }

  /** `raws[i]` carries the first id text of the response that is not a
      `u64`. */
  predicate FirstBadId(raws: seq<RawBan>, i: int) {
    && 0 <= i < |raws|
    && ParseU64(raws[i].steamId).None?
    && forall j :: 0 <= j < i ==> ParseU64(raws[j].steamId).Some?
  }

  function BanId(b: PlayerBan): SteamId {
    b.steamId
  }

  /** The method's names for the batch failures. */
  function Named(f: Failure<PlayerBanError>): PlayerBanError {
    match f
    case TooMany => TooManyIds
    case Repeated(id) => NonUniqueIds(id)
    case Http(e) => Reqwest(e)
    case Parse(e) => e
  }

  /** `Client::get_player_bans`. */
  function GetPlayerBans(c: Client, ids: seq<SteamId>, net: string -> nat -> Attempt<seq<RawBan>>): (r: (Result<map<SteamId, Option<PlayerBan>>, PlayerBanError>, Client))
    ensures r.0 == Err(TooManyIds) <==> |ids| > PLAYER_BANS_IDS_PER_REQUEST
    ensures (exists id :: r.0 == Err(NonUniqueIds(id))) <==> |ids| <= PLAYER_BANS_IDS_PER_REQUEST && !Unique(ids)
    ensures r.0.Err? && r.0.error.NonUniqueIds? ==> exists j :: FirstRepeatAt(ids, j) && r.0.error.id == ids[j]
    ensures r.0.Err? && (r.0.error.TooManyIds? || r.0.error.NonUniqueIds?) ==> r.1 == c
    ensures |ids| <= PLAYER_BANS_IDS_PER_REQUEST && Unique(ids) ==>
              var g := GetJson(c, net(SteamIdExt.ToSteamIdString(ids, ",")));
              && r.1 == g.1
              && (g.0.Err? ==> r.0 == Err(Reqwest(g.0.error)))
              && (g.0.Ok? ==> forall i :: FirstBadId(g.0.value, i) ==> r.0 == Err(InvalidSteamId(g.0.value[i].steamId)))
              && (g.0.Ok? && (forall i :: 0 <= i < |g.0.value| ==> ParseU64(g.0.value[i].steamId).Some?) ==>
                    r.0 == Ok(Merged(ids, TryMap(g.0.value, ParseBan).value, BanId)))
  {
    var (res, c') := Fetch(c, ids, PLAYER_BANS_IDS_PER_REQUEST, net, ParseBan, BanId);
    BanErrors(GetJson(c, net(SteamIdExt.ToSteamIdString(ids, ","))).0);
    match res
    case Ok(m) => (Ok(m), c')
    case Err(f) => (Err(Named(f)), c')
  }

  /** A response fails to parse only on an id text, and the first id
      text that is not a `u64` is the one reported. */
  lemma BanErrors(g: Result<seq<RawBan>, HttpError>)
    ensures g.Ok? && TryMap(g.value, ParseBan).Err? ==> TryMap(g.value, ParseBan).error.InvalidSteamId?
    ensures g.Ok? ==> forall i :: FirstBadId(g.value, i) ==> FirstErrAt(g.value, ParseBan, i)
  {
    if g.Ok? && TryMap(g.value, ParseBan).Err? {
      var i :| 0 <= i < |g.value| && ParseBan(g.value[i]) == Err(TryMap(g.value, ParseBan).error);
    }
  }

  /** More than 100 ids are refused before anything else, repeats or
      not. */
  lemma TooManyFirst(c: Client, ids: seq<SteamId>, net: string -> nat -> Attempt<seq<RawBan>>)
    requires |ids| > PLAYER_BANS_IDS_PER_REQUEST
    ensures GetPlayerBans(c, ids, net) == (Err(TooManyIds), c)
  {
  }

  /** The first repeat is the id reported. */
  lemma RepeatReported(c: Client, ids: seq<SteamId>, net: string -> nat -> Attempt<seq<RawBan>>, j: nat)
    requires |ids| <= PLAYER_BANS_IDS_PER_REQUEST && FirstRepeatAt(ids, j)
    ensures GetPlayerBans(c, ids, net) == (Err(NonUniqueIds(ids[j])), c)
  {
    var r := GetPlayerBans(c, ids, net);
    assert !Unique(ids) by {
      var i :| 0 <= i < j && ids[i] == ids[j];
    }
    var j' :| FirstRepeatAt(ids, j') && r.0.error.id == ids[j'];
    FirstRepeatUnique(ids, j, j');
  }
}
