/** The newer `model::api::player_summary` module: the summaries of up to
    100 distinct ids, keyed by id. Each summary's id arrives through
    `SteamIdStr`, whose definition is not part of this model; it is taken
    here as an already parsed `SteamId`, and the two timestamps as raw
    seconds. */
module PlayerSummaries {
  import opened Wrappers
  import opened Bits
  import opened Maps
  import opened Clients
  import opened SteamIds
  import opened PersonaStates
  import opened VisibilityStates
  import opened ProfileStates
  import opened Batches

  datatype PlayerSummary = PlayerSummary(
    steamId: SteamId,
    communityVisibilityState: CommunityVisibilityState,
    profileState: ProfileState,
    personaName: string,
    profileUrl: string,
    avatar: string,
    avatarMedium: string,
    avatarFull: string,
    avatarHash: string,
    lastLogoff: Option<int>,
    personaState: PersonaState,
    realName: Option<string>,
    primaryClanId: Option<string>,
    timeCreated: Option<int>,
    personaStateFlags: Option<u64>,
    localCountryCode: Option<string>)

  /** `Response`, with `response.players` flattened. */
  datatype Response = Response(players: seq<PlayerSummary>)

  /** `PlayerSummaries`, a map from id to summary. */
  datatype PlayerSummaries = PlayerSummaries(inner: map<SteamId, PlayerSummary>)

  /** `PlayerSummaryError`; a body that does not decode is
      `Reqwest(Decode)`. */
  datatype PlayerSummaryError = TooManyIds | Reqwest(cause: HttpError)

  function SummaryId(s: PlayerSummary): SteamId {
    s.steamId
  }

  /** `From<Response> for PlayerSummaries`. */
  function FromResponse(resp: Response): PlayerSummaries {
    PlayerSummaries(IndexBy(resp.players, SummaryId))
  }

  /** The keys are exactly the ids of the returned summaries, and a later
      summary for the same id wins. */
  lemma FromResponseSpec(resp: Response)
    ensures forall id :: id in FromResponse(resp).inner <==> exists i :: 0 <= i < |resp.players| && resp.players[i].steamId == id
    ensures forall i :: LastWith(resp.players, SummaryId, i) ==> FromResponse(resp).inner[resp.players[i].steamId] == resp.players[i]
  {
    IndexBySpec(resp.players, SummaryId);
  }

  /** `Client::get_player_summaries`. */
  function GetPlayerSummaries(c: Client, ids: seq<SteamId>, net: string -> nat -> Attempt<Response>): (r: (Result<PlayerSummaries, PlayerSummaryError>, Client))
    ensures r.0 == Err(TooManyIds) <==> |Distinct(ids)| > PLAYER_SUMMARIES_IDS_PER_REQUEST
    ensures r.0 == Err(TooManyIds) ==> r.1 == c
    ensures r.0.Ok? ==> exists resp :: Request(c, ids, PLAYER_SUMMARIES_IDS_PER_REQUEST, net) == Some((Ok(resp), r.1)) && r.0.value == FromResponse(resp)
    ensures Request(c, ids, PLAYER_SUMMARIES_IDS_PER_REQUEST, net).Some? ==>
              var g := Request(c, ids, PLAYER_SUMMARIES_IDS_PER_REQUEST, net).value;
              && r.1 == g.1
              && (g.0.Err? ==> r.0 == Err(Reqwest(g.0.error)))
              && (g.0.Ok? ==> r.0 == Ok(FromResponse(g.0.value)))
              && (g.0.Ok? ==> forall id :: id in r.0.value.inner <==>
                                exists i :: 0 <= i < |g.0.value.players| && g.0.value.players[i].steamId == id)
  {
    match Request(c, ids, PLAYER_SUMMARIES_IDS_PER_REQUEST, net)
    case None => (Err(TooManyIds), c)
    case Some((Ok(resp), c')) => FromResponseSpec(resp); (Ok(FromResponse(resp)), c')
    case Some((Err(e), c')) => (Err(Reqwest(e)), c')
  }

  /** Repeating ids or reordering them changes nothing. */
  lemma GetPlayerSummariesIgnoresOrderAndRepeats(c: Client, a: seq<SteamId>, b: seq<SteamId>, net: string -> nat -> Attempt<Response>)
    requires forall id :: id in a <==> id in b
    ensures GetPlayerSummaries(c, a, net) == GetPlayerSummaries(c, b, net)
  {
    RequestIgnoresOrderAndRepeats(c, a, b, PLAYER_SUMMARIES_IDS_PER_REQUEST, net);
  }
}
