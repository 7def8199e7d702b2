/** The crate-root `player_friends` module: a free function with its own
    retry loop over a plain HTTP client, the `Client` method built on
    `get_json`, and the parsing of each friend's id. `RETRIES` is not
    defined in the constants module, so the loop takes it as a parameter;
    the sleep between attempts and the friendship timestamp's conversion
    to a date are not modelled. */
module PlayerFriendsLegacy {
  import opened Wrappers
  import opened Bits
  import opened Decimal
  import opened Clients
  import SteamIds
  import SteamIdLegacy

  /** `PlayerFriendsError`. */
  datatype FriendsError = Reqwest(cause: HttpError) | InvalidSteamId(text: string)

  /** One element of `friendslist.friends` as it arrives. */
  datatype RawFriend = RawFriend(steamId: string, relationship: string, friendsSince: u64)

  /** `Friend`: the parsed id and the raw friendship time in seconds. */
  datatype Friend = Friend(steamId: SteamIds.SteamId, friendsSince: u64)

  // ---------------------------------------------------------------------
  // Parsing

  /** `Friend::parse_response`: the id must parse, and the error carries
      the string that did not. */
  function ParseFriend(raw: RawFriend): (r: Result<Friend, FriendsError>)
    ensures r.Ok? <==> ParseU64(raw.steamId).Some?
    ensures r.Ok? ==> r.value.steamId.raw == ParseU64(raw.steamId).value && r.value.friendsSince == raw.friendsSince
    ensures r.Err? ==> r.error == InvalidSteamId(raw.steamId)
  {
    match SteamIdLegacy.FromStr(raw.steamId)
    case Err(_) => Err(InvalidSteamId(raw.steamId))
    case Ok(id) => Ok(Friend(id, raw.friendsSince))
  }

  /** The loop pushing each parsed friend, with `?` on each. */
  function ParseFriends(raws: seq<RawFriend>): Result<Option<seq<Friend>>, FriendsError> {
    match TryMap(raws, ParseFriend)
    case Err(e) => Err(e)
    case Ok(fs) => Ok(Some(fs))
  }

  /** The friends keep the response's order; the first id that does not
      parse fails the whole list with that very string. */
  lemma ParseFriendsSpec(raws: seq<RawFriend>)
    ensures ParseFriends(raws).Ok? <==> forall i :: 0 <= i < |raws| ==> ParseU64(raws[i].steamId).Some?
    ensures ParseFriends(raws).Ok? ==>
              ParseFriends(raws).value.Some? && |ParseFriends(raws).value.value| == |raws| &&
              forall i :: 0 <= i < |raws| ==>
                ParseFriends(raws).value.value[i].steamId.raw == ParseU64(raws[i].steamId).value &&
                ParseFriends(raws).value.value[i].friendsSince == raws[i].friendsSince
    ensures ParseFriends(raws).Err? ==>
              exists i :: 0 <= i < |raws| && ParseU64(raws[i].steamId).None? &&
                          ParseFriends(raws).error == InvalidSteamId(raws[i].steamId) &&
                          forall j :: 0 <= j < i ==> ParseU64(raws[j].steamId).Some?
  {
    var r := TryMap(raws, ParseFriend);
    if r.Err? {
      var i :| 0 <= i < |raws| && ParseFriend(raws[i]) == Err(r.error) && forall j :: 0 <= j < i ==> ParseFriend(raws[j]).Ok?;
      assert ParseU64(raws[i].steamId).None?;
    }
  }

  // ---------------------------------------------------------------------
  // The free function's loop

  /** An attempt the loop tries again after: a response with an error
      status other than 401. */
  predicate Repeats<T>(a: Attempt<T>) {
    a.Response? && a.status != UNAUTHORIZED && IsErrorStatus(a.status)
  }

  /** What the loop makes of the attempt it stops at: a send error is
      returned by `?`, 401 means a deleted profile or private friends, a
      success status hands on the decoded body (or its decoding error), and
      another error status is returned. */
  function Stopped<T>(a: Attempt<T>): Result<Option<T>, HttpError> {
    if a.SendFailed? then Err(Transport)
    else if a.status == UNAUTHORIZED then Ok(None)
    else if IsErrorStatus(a.status) then Err(Status(a.status))
    else if a.body.Some? then Ok(Some(a.body.value))
    else Err(Decode)
  }

  /** The loop's result and the number of attempts it made. */
  datatype Fetched<T> = Fetched(result: Result<Option<T>, HttpError>, attempts: nat)

  /** The loop from attempt number `retries` on, with `RETRIES` as
      `limit`. */
  function FetchLoop<T>(limit: nat, net: nat -> Attempt<T>, retries: nat): (f: Fetched<T>)
    requires retries <= limit
    ensures retries < f.attempts <= limit + 1
    ensures forall j :: retries <= j < f.attempts - 1 ==> Repeats(net(j))
    ensures !Repeats(net(f.attempts - 1)) || f.attempts == limit + 1
    ensures f.result == Stopped(net(f.attempts - 1))
    decreases limit - retries
  {
    var a := net(retries);
    if a.SendFailed? then Fetched(Err(Transport), retries + 1)
    else if a.status == UNAUTHORIZED then Fetched(Ok(None), retries + 1)
    else if !IsErrorStatus(a.status) then Fetched(if a.body.Some? then Ok(Some(a.body.value)) else Err(Decode), retries + 1)
    else if retries >= limit then Fetched(Err(Status(a.status)), retries + 1)
    else FetchLoop(limit, net, retries + 1)
  }

  /** The free `get_player_friends`: the loop, then the parse of the
      friends it fetched. */
  function GetPlayerFriends(limit: nat, net: nat -> Attempt<seq<RawFriend>>): (r: (Result<Option<seq<Friend>>, FriendsError>, nat))
    ensures 1 <= r.1 <= limit + 1
    ensures forall j :: 0 <= j < r.1 - 1 ==> Repeats(net(j))
    ensures !Repeats(net(r.1 - 1)) || r.1 == limit + 1
    ensures r.0 == Ok(None) <==> net(r.1 - 1).Response? && net(r.1 - 1).status == UNAUTHORIZED
    ensures net(r.1 - 1).SendFailed? ==> r.0 == Err(Reqwest(Transport))
    ensures Succeeded(net(r.1 - 1)) && net(r.1 - 1).body.Some? ==> r.0 == ParseFriends(net(r.1 - 1).body.value)
    ensures Succeeded(net(r.1 - 1)) && net(r.1 - 1).body.None? ==> r.0 == Err(Reqwest(Decode))
    ensures Repeats(net(r.1 - 1)) ==> r.1 == limit + 1 && r.0 == Err(Reqwest(Status(net(r.1 - 1).status)))
  {
    var f := FetchLoop(limit, net, 0);
    var result :=
      match f.result
      case Err(e) => Err(Reqwest(e))
      case Ok(None) => Ok(None)
      case Ok(Some(raws)) => ParseFriends(raws);
    assert result == Ok(None) ==> f.result == Ok(None);
    (result, f.attempts)
  }

  /** A 401 on the first attempt ends the call with `Ok(None)`: one
      attempt, no retry, no parsing. */
  lemma UnauthorizedAtOnce(limit: nat, net: nat -> Attempt<seq<RawFriend>>)
    requires net(0).Response? && net(0).status == UNAUTHORIZED
    ensures GetPlayerFriends(limit, net) == (Ok(None), 1)
  {
  }

  /** A send failure is returned at once, even with retries left. */
  lemma SendFailureNotRetried(limit: nat, net: nat -> Attempt<seq<RawFriend>>, k: nat)
    requires k <= limit && net(k).SendFailed?
    requires forall j :: 0 <= j < k ==> Repeats(net(j))
    ensures GetPlayerFriends(limit, net) == (Err(Reqwest(Transport)), k + 1)
  {
    var last: nat := GetPlayerFriends(limit, net).1 - 1;
    assert last < k ==> Repeats(net(last));
    assert k < last ==> Repeats(net(k));
  }

  /** When every status is a server error, the call makes `RETRIES + 1`
      attempts and returns the last one's status. */
  lemma ServerErrorsExhaust(limit: nat, net: nat -> Attempt<seq<RawFriend>>)
    requires forall j :: net(j) == Response(503, None)
    ensures GetPlayerFriends(limit, net) == (Err(Reqwest(Status(503))), limit + 1)
  {
  }

  // ---------------------------------------------------------------------
  // The client method

  /** `Client::get_player_friends`: `get_json`, a 401 error read as
      `Ok(None)`, any other error passed on, then the same parse. The
      client comes back with its counter updated. */
  function ClientGetPlayerFriends(c: Client, net: nat -> Attempt<seq<RawFriend>>): (r: (Result<Option<seq<Friend>>, FriendsError>, Client))
    ensures r.1 == GetJson(c, net).1
    ensures r.0.Ok? && r.0.value.None? <==> net(StopIndex(c, net)).Response? && net(StopIndex(c, net)).status == UNAUTHORIZED
    ensures net(StopIndex(c, net)).SendFailed? ==> r.0 == Err(Reqwest(Transport))
    ensures Succeeded(net(StopIndex(c, net))) && net(StopIndex(c, net)).body.Some? ==>
              r.0 == ParseFriends(net(StopIndex(c, net)).body.value)
    ensures Succeeded(net(StopIndex(c, net))) && net(StopIndex(c, net)).body.None? ==> r.0 == Err(Reqwest(Decode))
    ensures Repeats(net(StopIndex(c, net))) ==> r.0 == Err(Reqwest(Status(net(StopIndex(c, net)).status)))
  {
    var (json, c') := GetJson(c, net);
    var result :=
      match json
      case Ok(raws) => ParseFriends(raws)
      case Err(e) => if e.StatusOf() == Some(UNAUTHORIZED) then Ok(None) else Err(Reqwest(e));
    (result, c')
  }

  /** With 401 on the no-retry list, a 401 on the first attempt gives
      `Ok(None)` and leaves the counter alone. */
  lemma ClientUnauthorizedAtOnce(c: Client, net: nat -> Attempt<seq<RawFriend>>)
    requires UNAUTHORIZED in c.dontRetry
    requires net(0).Response? && net(0).status == UNAUTHORIZED
    ensures ClientGetPlayerFriends(c, net) == (Ok(None), c)
  {
    DontRetryStops(c, net);
  }

  /** Without it, the client keeps retrying the 401 until the retries run
      out, then still reads it as `Ok(None)` and counts every sleep. */
  lemma ClientUnauthorizedRetried(c: Client, net: nat -> Attempt<seq<RawFriend>>)
    requires UNAUTHORIZED !in c.dontRetry
    requires forall j :: net(j) == Response(UNAUTHORIZED, None)
    ensures ClientGetPlayerFriends(c, net) == (Ok(None), c.(retries := c.retries + c.maxRetries))
  {
    var k := StopIndex(c, net);
    assert Retryable(net(k), c.dontRetry);
  }
}
