/** The newer `model::api::user_search` module: the search request, the
    `search_page` normalisation and the conversion of the raw response
    into a `UserSearchPage`. The HTML payload is given as the rows the
    row selector finds in it. */
module UserSearch {
  import opened Wrappers
  import opened Bits
  import opened Decimal
  import opened Clients
  import opened UserSearchHtml

  /** The `serde_json` number representations; `NegInt` only ever holds a
      negative value. */
  datatype JsonNumber = PosInt(u: u64) | NegInt(i: i64) | Float

  /** The shapes `search_page` can take; `Other` is null, a boolean, an
      array or an object. */
  datatype JsonValue = Number(n: JsonNumber) | Str(s: string) | Other

  /** The deserialized `Response`, its `html` already split into rows. */
  datatype RawResponse = RawResponse(
    success: i32,
    searchText: string,
    searchResultCount: nat,
    searchFilter: string,
    searchPage: JsonValue,
    html: seq<Row>)

  datatype UserSearchPage = UserSearchPage(
    searchString: string,
    totalResultCount: nat,
    searchFilter: string,
    searchPage: u64,
    results: seq<UserSearchEntry>)

  datatype UserSearchError =
    | Reqwest(cause: HttpError)
    | NoSuccess
    | InvalidSearchPage
    | ParseError(error: Error)

  /** `search_page` as a number: a non-negative JSON integer, or a string
      holding a decimal `u64`. */
  function PageNumber(v: JsonValue): (r: Option<u64>)
    ensures r.Some? <==> (v.Number? && v.n.PosInt?) || (v.Str? && ParseU64(v.s).Some?)
    ensures r.Some? && v.Number? ==> r.value == v.n.u
    ensures r.Some? && v.Str? ==> r.value == ParseU64(v.s).value
  {
    match v
    case Number(PosInt(u)) => Some(u)
    case Number(_) => None
    case Str(s) => ParseU64(s)
    case Other => None
  }

  /** A page sent as a number and the same page sent as its decimal string
      read the same; a negative number, a float and a negative string do
      not read at all. */
  lemma PageForms(n: u64, i: i64)
    requires i < 0
    ensures PageNumber(Number(PosInt(n))) == PageNumber(Str(NatToString(n))) == Some(n)
    ensures PageNumber(Number(NegInt(i))).None? && PageNumber(Number(Float)).None? && PageNumber(Other).None?
    ensures PageNumber(Str("-" + NatToString(n))).None?
  {
    ParseDisplay(n);
    ParseRejectsMinus("-" + NatToString(n));
  }

  /** `TryFrom<Response> for UserSearchPage`: `success` first, then the
      HTML payload, then the page; the other fields are copied. */
  function TryFrom(v: RawResponse): (r: Result<UserSearchPage, UserSearchError>)
    ensures r == Err(NoSuccess) <==> v.success != 1
    ensures r.Err? && r.error.ParseError? <==> v.success == 1 && Parse(v.html).Err?
    ensures r.Err? && r.error.ParseError? ==> r.error.error == Parse(v.html).error
    ensures r == Err(InvalidSearchPage) <==> v.success == 1 && Parse(v.html).Ok? && PageNumber(v.searchPage).None?
    ensures r.Err? ==> !r.error.Reqwest?
    ensures r.Ok? ==> r.value.searchString == v.searchText && r.value.totalResultCount == v.searchResultCount
    ensures r.Ok? ==> r.value.searchFilter == v.searchFilter && Some(r.value.searchPage) == PageNumber(v.searchPage)
    ensures r.Ok? ==> r.value.results == Parse(v.html).value
  {
    if v.success != 1 then Err(NoSuccess)
    else
      match Parse(v.html)
      case Err(e) => Err(ParseError(e))
      case Ok(results) =>
        match PageNumber(v.searchPage)
        case None => Err(InvalidSearchPage)
        case Some(page) => Ok(UserSearchPage(v.searchText, v.searchResultCount, v.searchFilter, page, results))
  }

  /** Whether Steam sends the page as a number or a string makes no
      difference to the conversion. */
  lemma TryFromPageForms(v: RawResponse, n: u64)
    ensures TryFrom(v.(searchPage := Number(PosInt(n)))) == TryFrom(v.(searchPage := Str(NatToString(n))))
  {
    ParseDisplay(n);
  }

  /** The query of `get_search_page`: the filter, the text, the session id
      and the page number in decimal. */
  function SearchQuery(c: Client, text: string, page: nat): (q: seq<(string, string)>)
    ensures |q| == 4 && q[0] == ("filter", "users") && q[1] == ("text", text)
    ensures q[2] == ("sessionid", c.sessionId) && q[3].0 == "page"
    ensures Canonical(q[3].1) && Value(q[3].1) == page
  {
    ValueOfNatToString(page);
    [("filter", "users"), ("text", text), ("sessionid", c.sessionId), ("page", NatToString(page))]
  }

  /** `Client::get_search_page`: a request failure is `Reqwest`, a response
      goes through `TryFrom`; the client is left as `get_json` leaves it. */
  function GetSearchPage(c: Client, text: string, page: nat, net: seq<(string, string)> -> nat -> Attempt<RawResponse>)
    : (r: (Result<UserSearchPage, UserSearchError>, Client))
    ensures var call := GetJson(c, net(SearchQuery(c, text, page)));
      && r.1 == call.1
      && (r.0.Err? && r.0.error.Reqwest? <==> call.0.Err?)
      && (call.0.Err? ==> r.0.error.cause == call.0.error)
      && (call.0.Ok? ==> r.0 == TryFrom(call.0.value))
  {
    var call := GetJson(c, net(SearchQuery(c, text, page)));
    match call.0
    case Err(e) => (Err(Reqwest(e)), call.1)
    case Ok(resp) => (TryFrom(resp), call.1)
  }
}
