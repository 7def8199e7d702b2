/** The crate-root `vanity_url` module: resolving a vanity name to an id
    that may not exist. */
module VanityUrls {
  import opened Wrappers
  import opened Decimal
  import opened Clients
  import opened SteamIds
  import SteamIdLegacy

  /** `Response`, with `response.steamid` flattened. */
  datatype Response = Response(steamId: Option<string>)

  datatype VanityUrlError = Reqwest(cause: HttpError) | InvalidSteamId(text: string)

  /** `parse_response` for `Option<SteamId>`: no id means the name is not
      taken; a present id must be a decimal `u64`. */
  function ParseResponse(resp: Response): (r: Result<Option<SteamId>, VanityUrlError>)
    ensures r == Ok(None) <==> resp.steamId.None?
    ensures r.Ok? && r.value.Some? <==> resp.steamId.Some? && ParseU64(resp.steamId.value).Some?
    ensures r.Ok? && r.value.Some? ==> r.value.value.raw == ParseU64(resp.steamId.value).value
    ensures r.Err? ==> resp.steamId.Some? && r.error == InvalidSteamId(resp.steamId.value)
  {
    match resp.steamId
    case None => Ok(None)
    case Some(text) =>
      match SteamIdLegacy.FromStr(text)
      case Err(_) => Err(InvalidSteamId(text))
      case Ok(id) => Ok(Some(id))
  }

  /** An id the response carries comes back as the same id. */
  lemma ParseDisplayed(id: SteamId)
    ensures ParseResponse(Response.Response(Some(Display(id)))) == Ok(Some(id))
  {
    FromStrDisplay(id);
  }

  /** `Client::resolve_vanity_url`. */
  function ResolveVanityUrl(c: Client, net: nat -> Attempt<Response>): (r: (Result<Option<SteamId>, VanityUrlError>, Client))
    ensures r.1 == GetJson(c, net).1
    ensures GetJson(c, net).0.Err? ==> r.0 == Err(Reqwest(GetJson(c, net).0.error))
    ensures GetJson(c, net).0.Ok? ==> r.0 == ParseResponse(GetJson(c, net).0.value)
  {
    var (json, c') := GetJson(c, net);
    match json
    case Err(e) => (Err(Reqwest(e)), c')
    case Ok(resp) => (ParseResponse(resp), c')
  }
}
