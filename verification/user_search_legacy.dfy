/** The crate-root `user_search` module, the older copy of the search. Its
    row rules are those of the newer HTML parser, its `search_page`
    normalisation that of the newer conversion; what is its own is how an
    entry's URL is read and the order in which a response is checked. */
module UserSearchLegacy {
  import opened Wrappers
  import opened Strings
  import opened Clients
  import opened SteamIds
  import SteamIdLegacy
  import opened UserSearchHtml
  import UserSearch

  const PROFILES_MARKER: string := "/profiles/"
  const VANITY_MARKER: string := "/id/"

  datatype UserSearchError =
    | Reqwest(cause: HttpError)
    | NoSuccess
    | InvalidSelector
    | InvalidSearchPage
    | InvalidHtmlPayload(error: Error)

  // ---------------------------------------------------------------------
  // Entries

  /** `UserSearchEntry::steam_id`: the text after the first `/profiles/`,
      parsed as a decimal `u64`. */
  function SteamIdOf(e: UserSearchEntry): (r: Option<SteamId>)
    ensures r.Some? <==> SplitOnce(e.profileUrl, PROFILES_MARKER).Some? &&
                         SteamIdLegacy.FromStr(SplitOnce(e.profileUrl, PROFILES_MARKER).value.1).Ok?
    ensures r.Some? ==> r.value == SteamIdLegacy.FromStr(SplitOnce(e.profileUrl, PROFILES_MARKER).value.1).value
  {
    match SplitOnce(e.profileUrl, PROFILES_MARKER)
    case None => None
    case Some(parts) => SteamIdLegacy.FromStr(parts.1).ToOption()
  }

  /** `UserSearchEntry::vanity_url`: the text after the first `/id/`. */
  function VanityUrl(e: UserSearchEntry): (r: Option<string>)
    ensures r.None? <==> forall j :: !OccursAt(e.profileUrl, VANITY_MARKER, j)
    ensures r.Some? ==>
              var at := |e.profileUrl| - |VANITY_MARKER| - |r.value|;
              0 <= at && e.profileUrl[..at] + VANITY_MARKER + r.value == e.profileUrl &&
              forall j :: 0 <= j < at ==> !OccursAt(e.profileUrl, VANITY_MARKER, j)
  {
    match SplitOnce(e.profileUrl, VANITY_MARKER)
    case None => None
    case Some(parts) => Some(parts.1)
  }

  /** What follows the first occurrence of a marker in `host + marker +
      tail`, when `host` holds no occurrence of its own. */
  lemma AfterFirst(host: string, pat: string, tail: string)
    requires forall j :: 0 <= j < |host| ==> !OccursAt(host + pat + tail, pat, j)
    ensures SplitOnce(host + pat + tail, pat) == Some((host, tail))
  {
    var url := host + pat + tail;
    assert url[|host|..|host| + |pat|] == pat;
    assert OccursAt(url, pat, |host|);
    var parts := SplitOnce(url, pat).value;
    var i := |parts.0|;
    assert url[..i] == parts.0 && url[i..i + |pat|] == pat by {
      assert url == parts.0 + pat + parts.1;
    }
    assert OccursAt(url, pat, i);
    assert i == |host|;
    assert parts.0 == url[..|host|] == host;
    assert parts.1 == url[|host| + |pat|..] == tail by {
      assert url == parts.0 + pat + parts.1;
    }
  }

  /** A profile URL yields the id it was built from, and a vanity URL the
      name, whatever comes before the marker. */
  lemma UrlsRoundTrip(e: UserSearchEntry, host: string, id: SteamId, name: string)
    ensures e.profileUrl == host + PROFILES_MARKER + Display(id) &&
            (forall j :: 0 <= j < |host| ==> !OccursAt(e.profileUrl, PROFILES_MARKER, j))
            ==> SteamIdOf(e) == Some(id)
    ensures e.profileUrl == host + VANITY_MARKER + name &&
            (forall j :: 0 <= j < |host| ==> !OccursAt(e.profileUrl, VANITY_MARKER, j))
            ==> VanityUrl(e) == Some(name)
  {
    if e.profileUrl == host + PROFILES_MARKER + Display(id) &&
       (forall j :: 0 <= j < |host| ==> !OccursAt(e.profileUrl, PROFILES_MARKER, j)) {
      AfterFirst(host, PROFILES_MARKER, Display(id));
      SteamIdLegacy.FromStrDisplay(id, Display(id));
    }
    if e.profileUrl == host + VANITY_MARKER + name &&
       (forall j :: 0 <= j < |host| ==> !OccursAt(e.profileUrl, VANITY_MARKER, j)) {
      AfterFirst(host, VANITY_MARKER, name);
    }
  }

  // ---------------------------------------------------------------------
  // The two conversions

  /** `ParseResponse for UserSearchPage`: `success`, then the parser (whose
      construction is `built`), then the page, then the HTML payload. */
  function ParseResponse(v: UserSearch.RawResponse, built: bool): (r: Result<UserSearch.UserSearchPage, UserSearchError>)
    ensures r == Err(NoSuccess) <==> v.success != 1
    ensures r == Err(InvalidSelector) <==> v.success == 1 && !built
    ensures r == Err(InvalidSearchPage) <==> v.success == 1 && built && UserSearch.PageNumber(v.searchPage).None?
    ensures r.Err? && r.error.InvalidHtmlPayload? <==>
              v.success == 1 && built && UserSearch.PageNumber(v.searchPage).Some? && Parse(v.html).Err?
    ensures r.Err? && r.error.InvalidHtmlPayload? ==> r.error.error == Parse(v.html).error
    ensures r.Ok? ==> UserSearch.TryFrom(v) == Ok(r.value)
  {
    if v.success != 1 then Err(NoSuccess)
    else if !built then Err(InvalidSelector)
    else
      match UserSearch.PageNumber(v.searchPage)
      case None => Err(InvalidSearchPage)
      case Some(page) =>
        match Parse(v.html)
        case Err(e) => Err(InvalidHtmlPayload(e))
        case Ok(results) => Ok(UserSearch.UserSearchPage(v.searchText, v.searchResultCount, v.searchFilter, page, results))
  }

  /** `ParseJsonResponse for Response`: `success`, then the page, then the
      parser, then the HTML payload. */
  function ParseSteamJson(v: UserSearch.RawResponse, built: bool): (r: Result<UserSearch.UserSearchPage, UserSearchError>)
    ensures r == Err(NoSuccess) <==> v.success != 1
    ensures r == Err(InvalidSearchPage) <==> v.success == 1 && UserSearch.PageNumber(v.searchPage).None?
    ensures r == Err(InvalidSelector) <==> v.success == 1 && UserSearch.PageNumber(v.searchPage).Some? && !built
    ensures r.Ok? ==> UserSearch.TryFrom(v) == Ok(r.value)
  {
    if v.success != 1 then Err(NoSuccess)
    else
      match UserSearch.PageNumber(v.searchPage)
      case None => Err(InvalidSearchPage)
      case Some(page) =>
        if !built then Err(InvalidSelector)
        else
          match Parse(v.html)
          case Err(e) => Err(InvalidHtmlPayload(e))
          case Ok(results) => Ok(UserSearch.UserSearchPage(v.searchText, v.searchResultCount, v.searchFilter, page, results))
  }

  /** The two conversions disagree only when the parser cannot be built and
      the page is also invalid; since the selectors are constants that
      parse, they always agree in practice. */
  lemma ConversionsAgree(v: UserSearch.RawResponse, built: bool)
    ensures ParseResponse(v, built) == ParseSteamJson(v, built) <==>
              built || v.success != 1 || UserSearch.PageNumber(v.searchPage).Some?
    ensures ParseResponse(v, true) == ParseSteamJson(v, true)
  {
  }

  /** The older conversions check the page before the HTML payload and the
      newer one after it: a response with both faults is reported
      differently. */
  lemma OrderDiffers(v: UserSearch.RawResponse)
    requires v.success == 1 && UserSearch.PageNumber(v.searchPage).None? && Parse(v.html).Err?
    ensures ParseResponse(v, true) == Err(InvalidSearchPage)
    ensures UserSearch.TryFrom(v) == Err(UserSearch.ParseError(Parse(v.html).error))
  {
  }

  /** Apart from that order and the error names, the older and newer
      conversions agree. */
  lemma SameAsNewer(v: UserSearch.RawResponse)
    ensures ParseResponse(v, true).Ok? <==> UserSearch.TryFrom(v).Ok?
    ensures UserSearch.PageNumber(v.searchPage).Some? || Parse(v.html).Ok? ==>
              (ParseResponse(v, true).Err? && ParseResponse(v, true).error.InvalidHtmlPayload? <==>
               UserSearch.TryFrom(v).Err? && UserSearch.TryFrom(v).error.ParseError?)
  {
  }

  /** `Client::get_search_page`: the same request as the newer client; a
      response goes through `parse_response`, whose selectors parse. */
  function GetSearchPage(c: Client, text: string, page: nat, net: seq<(string, string)> -> nat -> Attempt<UserSearch.RawResponse>)
    : (r: (Result<UserSearch.UserSearchPage, UserSearchError>, Client))
    ensures var call := GetJson(c, net(UserSearch.SearchQuery(c, text, page)));
      && r.1 == call.1
      && (r.0.Err? && r.0.error.Reqwest? <==> call.0.Err?)
      && (call.0.Err? ==> r.0.error.cause == call.0.error)
      && (call.0.Ok? ==> r.0 == ParseResponse(call.0.value, true))
    ensures r.0.Ok? <==> UserSearch.GetSearchPage(c, text, page, net).0.Ok?
    ensures r.0.Ok? ==> UserSearch.GetSearchPage(c, text, page, net).0 == Ok(r.0.value)
  {
    var call := GetJson(c, net(UserSearch.SearchQuery(c, text, page)));
    match call.0
    case Err(e) => (Err(Reqwest(e)), call.1)
    case Ok(resp) => (ParseResponse(resp, true), call.1)
  }
}
