/** The newer `model::api::player_bans` module: the bans of up to 100
    distinct ids, keyed by id. */
module PlayerBans {
  import opened Wrappers
  import opened Bits
  import opened Maps
  import opened Clients
  import opened SteamIds
  import opened EconomyBans
  import opened Batches

  datatype PlayerBan = PlayerBan(
    steamId: SteamId,
    communityBanned: bool,
    vacBanned: bool,
    numberOfVacBans: i32,
    daysSinceLastBan: i32,
    numberOfGameBans: i32,
    economyBan: EconomyBan)

  datatype Response = Response(players: seq<PlayerBan>)

  /** `PlayerBans`, a map from id to ban. */
  datatype PlayerBans = PlayerBans(inner: map<SteamId, PlayerBan>)

  /** `PlayerBanError`; a body that does not decode is `Reqwest(Decode)`. */
  datatype PlayerBanError = TooManyIds | Reqwest(cause: HttpError)

  function BanId(b: PlayerBan): SteamId {
    b.steamId
  }

  /** `From<Response> for PlayerBans`. */
  function FromResponse(resp: Response): PlayerBans {
    PlayerBans(IndexBy(resp.players, BanId))
  }

  /** The keys are exactly the ids the response reports, so an id it
      leaves out is absent, and a later entry for the same id wins. */
  lemma FromResponseSpec(resp: Response)
    ensures forall id :: id in FromResponse(resp).inner <==> exists i :: 0 <= i < |resp.players| && resp.players[i].steamId == id
    ensures forall i :: LastWith(resp.players, BanId, i) ==> FromResponse(resp).inner[resp.players[i].steamId] == resp.players[i]
  {
    IndexBySpec(resp.players, BanId);
  }

  /** `Client::get_player_bans`. */
  function GetPlayerBans(c: Client, ids: seq<SteamId>, net: string -> nat -> Attempt<Response>): (r: (Result<PlayerBans, PlayerBanError>, Client))
    ensures r.0 == Err(TooManyIds) <==> |Distinct(ids)| > PLAYER_BANS_IDS_PER_REQUEST
    ensures r.0 == Err(TooManyIds) ==> r.1 == c
    ensures r.0.Ok? ==> exists resp :: Request(c, ids, PLAYER_BANS_IDS_PER_REQUEST, net) == Some((Ok(resp), r.1)) && r.0.value == FromResponse(resp)
    ensures Request(c, ids, PLAYER_BANS_IDS_PER_REQUEST, net).Some? ==>
              var g := Request(c, ids, PLAYER_BANS_IDS_PER_REQUEST, net).value;
              && r.1 == g.1
              && (g.0.Err? ==> r.0 == Err(Reqwest(g.0.error)))
              && (g.0.Ok? ==> r.0 == Ok(FromResponse(g.0.value)))
              && (g.0.Ok? ==> forall id :: id in r.0.value.inner <==>
                                exists i :: 0 <= i < |g.0.value.players| && g.0.value.players[i].steamId == id)
  {
    match Request(c, ids, PLAYER_BANS_IDS_PER_REQUEST, net)
    case None => (Err(TooManyIds), c)
    case Some((Ok(resp), c')) => FromResponseSpec(resp); (Ok(FromResponse(resp)), c')
    case Some((Err(e), c')) => (Err(Reqwest(e)), c')
  }

  /** Repeating ids or reordering them changes nothing. */
  lemma GetPlayerBansIgnoresOrderAndRepeats(c: Client, a: seq<SteamId>, b: seq<SteamId>, net: string -> nat -> Attempt<Response>)
    requires forall id :: id in a <==> id in b
    ensures GetPlayerBans(c, a, net) == GetPlayerBans(c, b, net)
  {
    RequestIgnoresOrderAndRepeats(c, a, b, PLAYER_BANS_IDS_PER_REQUEST, net);
  }
}
