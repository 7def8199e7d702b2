/** The newer `model::api::player_friends` module: a friend list keyed by
    id, private when the response has no list, and the `Client` method
    that fetches it. A friend's id arrives through `SteamIdStr`, whose
    definition is not part of this model; it is taken here as an already
    parsed `SteamId`, and the friendship time as its raw seconds. */
module PlayerFriends {
  import opened Wrappers
  import opened Clients
  import opened Maps
  import opened SteamIds

  datatype Friend = Friend(steamId: SteamId, relationship: string, friendsSince: int)

  /** `Response`: `friendslist` may be missing. */
  datatype Response = Response(friendList: Option<seq<Friend>>)

  /** `FriendsList`: `None` when the friends are private, otherwise every
      friend by id (empty when there are none). */
  datatype FriendsList = FriendsList(inner: Option<map<SteamId, Friend>>) {

    /** `into_inner`. */
    function IntoInner(): Option<map<SteamId, Friend>> {
      inner
    }

    /** `as_inner_ref`: a borrow of the same value. */
    function AsInnerRef(): Option<map<SteamId, Friend>> {
      inner
    }
  }

  /** A friend's key in the map. */
  function IdOf(f: Friend): SteamId {
    f.steamId
  }

  /** `From<Response> for FriendsList`. */
  function FromResponse(resp: Response): FriendsList {
    match resp.friendList
    case None => FriendsList(None)
    case Some(fs) => FriendsList(Some(IndexBy(fs, IdOf)))
  }

  /** The friend list is private exactly when the response has no list;
      otherwise its keys are exactly the listed ids, each holding the last
      friend listed with it, and an empty list gives an empty map. */
  lemma FromResponseSpec(resp: Response)
    ensures FromResponse(resp).inner.None? <==> resp.friendList.None?
    ensures resp.friendList.Some? ==>
              forall id :: id in FromResponse(resp).inner.value <==>
                           exists i :: 0 <= i < |resp.friendList.value| && resp.friendList.value[i].steamId == id
    ensures resp.friendList.Some? ==>
              forall i :: LastWith(resp.friendList.value, IdOf, i) ==>
                          FromResponse(resp).inner.value[resp.friendList.value[i].steamId] == resp.friendList.value[i]
    ensures resp.friendList == Some([]) ==> FromResponse(resp).inner == Some(map[])
  {
    if resp.friendList.Some? {
      IndexBySpec(resp.friendList.value, IdOf);
    }
  }

  /** Both accessors expose the same value. */
  lemma AccessorsAgree(list: FriendsList)
    ensures list.IntoInner() == list.AsInnerRef() == list.inner
  {
  }

  /** The error of the newer module: the HTTP error, or the `todo!` panic
      that a 401 reaches. */
  datatype FriendsCall = Done(result: Result<FriendsList, HttpError>) | Todo

  /** `Client::get_player_friends` and the counter it leaves. */
  function GetPlayerFriends(c: Client, net: nat -> Attempt<Response>): (r: (FriendsCall, Client))
    ensures r.1 == GetJson(c, net).1
    ensures r.0 == Todo <==> net(StopIndex(c, net)).Response? && net(StopIndex(c, net)).status == UNAUTHORIZED
    ensures Succeeded(net(StopIndex(c, net))) && net(StopIndex(c, net)).body.Some? ==>
              r.0 == Done(Ok(FromResponse(net(StopIndex(c, net)).body.value)))
    ensures net(StopIndex(c, net)).SendFailed? ==> r.0 == Done(Err(Transport))
    ensures Succeeded(net(StopIndex(c, net))) && net(StopIndex(c, net)).body.None? ==> r.0 == Done(Err(Decode))
    ensures net(StopIndex(c, net)).Response? && IsErrorStatus(net(StopIndex(c, net)).status) &&
              net(StopIndex(c, net)).status != UNAUTHORIZED ==>
              r.0 == Done(Err(Status(net(StopIndex(c, net)).status)))
  {
    var (json, c') := GetJson(c, net);
    match json
    case Ok(resp) => (Done(Ok(FromResponse(resp))), c')
    case Err(e) => if e.StatusOf() == Some(UNAUTHORIZED) then (Todo, c') else (Done(Err(e)), c')
  }

  /** A 401 the client does not retry panics at once instead of reporting
      private friends the way the crate-root function does. */
  lemma UnauthorizedPanics(c: Client, net: nat -> Attempt<Response>)
    requires UNAUTHORIZED in c.dontRetry
    requires net(0).Response? && net(0).status == UNAUTHORIZED
    ensures GetPlayerFriends(c, net) == (Todo, c)
  {
    DontRetryStops(c, net);
  }
}
