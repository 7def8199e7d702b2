/** `Client` and its builder `ClientOptions`: the settings a chain of
    builder calls leaves, what `build` makes of them, the retry loop of
    `get_json` over the outcomes of successive attempts, the shared retry
    counter, and the session id read from the cookie string. */
module Clients {
  import opened Wrappers
  import opened Strings
  import opened SortedSets

  /** `reqwest::StatusCode`: a three-digit HTTP status. */
  type StatusCode = c: nat | 100 <= c <= 999 witness 200

  const UNAUTHORIZED: StatusCode := 401

  /** `std::time::Duration`, counted in nanoseconds. */
  type Duration = nat

  /** `Duration::from_millis`. */
  function FromMillis(ms: nat): Duration {
    ms * 1_000_000
  }

  // ---------------------------------------------------------------------
  // The builder

  /** One call of the builder chain. */
  datatype Setting =
    | RetryTimeout(dur: Duration)
    | RetryTimeoutMs(ms: nat)
    | Retries(n: nat)
    | ApiKey(key: string)
    | ApiKeys(keys: seq<string>)
    | DontRetry(code: StatusCode)
    | DontRetries(codes: seq<StatusCode>)
    | DontRetryUnauthorized
    | NoCookieStore
    | NoSessionId
  {
    /** The retry delay the call sets, if it sets one. */
    function Timeout(): Option<Duration> {
      match this
      case RetryTimeout(d) => Some(d)
      case RetryTimeoutMs(ms) => Some(FromMillis(ms))
      case _ => None
    }

    /** The retry limit the call sets, if it sets one. */
    function Limit(): Option<nat> {
      if Retries? then Some(n) else None
    }

    /** The api keys the call adds, in order. */
    function Keys(): seq<string> {
      match this
      case ApiKey(k) => [k]
      case ApiKeys(ks) => ks
      case _ => []
    }

    /** The status codes the call adds to the no-retry list. */
    function Codes(): seq<StatusCode> {
      match this
      case DontRetry(c) => [c]
      case DontRetries(cs) => cs
      case DontRetryUnauthorized => [UNAUTHORIZED]
      case _ => []
    }
  }

  datatype ClientOptions = ClientOptions(
    retryTimeout: Option<Duration>,
    maxRetries: Option<nat>,
    apiKeys: seq<string>,
    dontRetry: seq<StatusCode>,
    cookieStore: bool,
    getSessionId: bool)
  {
    /** One builder method. */
    function Apply(s: Setting): ClientOptions {
      match s
      case RetryTimeout(d) => this.(retryTimeout := Some(d))
      case RetryTimeoutMs(ms) => this.(retryTimeout := Some(FromMillis(ms)))
      case Retries(n) => this.(maxRetries := Some(n))
      case ApiKey(k) => this.(apiKeys := apiKeys + [k])
      case ApiKeys(ks) => this.(apiKeys := apiKeys + ks)
      case DontRetry(c) => this.(dontRetry := dontRetry + [c])
      case DontRetries(cs) => this.(dontRetry := dontRetry + cs)
      case DontRetryUnauthorized => this.(dontRetry := dontRetry + [UNAUTHORIZED])
      case NoCookieStore => this.(cookieStore := false, getSessionId := false)
      case NoSessionId => this.(getSessionId := false)
    }
  }

  /** `ClientOptions::new()`: nothing set, cookie store and session id on. */
  const NEW: ClientOptions := ClientOptions(None, None, [], [], true, true)

  /** `ClientOptions::new()` followed by the calls `ss`, left to right. */
  function Configure(ss: seq<Setting>): ClientOptions
    decreases |ss|
  {
    if ss == [] then NEW else Configure(ss[..|ss| - 1]).Apply(ss[|ss| - 1])
  }

  /** What one builder call changes: keys and codes are appended, a delay
      or limit replaces the previous one, and the two cookie switches can
      only be turned off. */
  lemma ApplyFields(o: ClientOptions, s: Setting)
    ensures o.Apply(s).apiKeys == o.apiKeys + s.Keys()
    ensures o.Apply(s).dontRetry == o.dontRetry + s.Codes()
    ensures o.Apply(s).retryTimeout == (if s.Timeout().Some? then s.Timeout() else o.retryTimeout)
    ensures o.Apply(s).maxRetries == (if s.Limit().Some? then s.Limit() else o.maxRetries)
    ensures o.Apply(s).cookieStore == (o.cookieStore && s != NoCookieStore)
    ensures o.Apply(s).getSessionId == (o.getSessionId && s != NoCookieStore && s != NoSessionId)
  {
  }

  /** `ss[i]` is the first call that adds api keys. */
  predicate FirstKeys(ss: seq<Setting>, i: int) {
    0 <= i < |ss| && ss[i].Keys() != [] && forall j :: 0 <= j < i ==> ss[j].Keys() == []
  }

  /** The keys are those the calls add, in call order, so the first one
      is the first key of the first call that adds any. */
  lemma {:induction false} ConfigureKeys(ss: seq<Setting>)
    ensures Configure(ss).apiKeys == [] <==> forall i :: 0 <= i < |ss| ==> ss[i].Keys() == []
    ensures forall i :: FirstKeys(ss, i) ==> Configure(ss).apiKeys[0] == ss[i].Keys()[0]
    decreases |ss|
  {
    if ss != [] {
      var init, last := ss[..|ss| - 1], ss[|ss| - 1];
      ConfigureKeys(init);
      ApplyFields(Configure(init), last);
      assert forall i :: 0 <= i < |init| ==> init[i] == ss[i];
      forall i | FirstKeys(ss, i)
        ensures Configure(ss).apiKeys[0] == ss[i].Keys()[0]
      {
        if i < |init| {
          assert FirstKeys(init, i);
        }
      }
    }
  }

  /** The no-retry list holds exactly the codes the calls add. */
  lemma {:induction false} ConfigureCodes(ss: seq<Setting>)
    ensures forall c :: c in Configure(ss).dontRetry <==> exists i :: 0 <= i < |ss| && c in ss[i].Codes()
    decreases |ss|
  {
    if ss != [] {
      var init, last := ss[..|ss| - 1], ss[|ss| - 1];
      ConfigureCodes(init);
      ApplyFields(Configure(init), last);
      forall c | c in Configure(ss).dontRetry
        ensures exists i :: 0 <= i < |ss| && c in ss[i].Codes()
      {
        if c !in last.Codes() {
          var i :| 0 <= i < |init| && c in init[i].Codes();
          assert ss[i] == init[i];
        }
      }
      forall c, i | 0 <= i < |ss| && c in ss[i].Codes()
        ensures c in Configure(ss).dontRetry
      {
        if i < |init| {
          assert init[i] == ss[i];
        }
      }
    }
  }

  /** `ss[i]` is the last call that sets the delay. */
  predicate LastTimeout(ss: seq<Setting>, i: int) {
    0 <= i < |ss| && ss[i].Timeout().Some? && forall j :: i < j < |ss| ==> ss[j].Timeout().None?
  }

  /** `ss[i]` is the last call that sets the retry limit. */
  predicate LastLimit(ss: seq<Setting>, i: int) {
    0 <= i < |ss| && ss[i].Limit().Some? && forall j :: i < j < |ss| ==> ss[j].Limit().None?
  }

  /** The last call that sets the delay decides it. */
  lemma {:induction false} ConfigureTimeout(ss: seq<Setting>)
    ensures Configure(ss).retryTimeout.None? <==> forall i :: 0 <= i < |ss| ==> ss[i].Timeout().None?
    ensures forall i :: LastTimeout(ss, i) ==> Configure(ss).retryTimeout == ss[i].Timeout()
    decreases |ss|
  {
    if ss != [] {
      var init, last := ss[..|ss| - 1], ss[|ss| - 1];
      ConfigureTimeout(init);
      var c := Configure(init);
      assert Configure(ss) == c.Apply(last);
      ApplyFields(c, last);
      assert forall i :: 0 <= i < |init| ==> init[i] == ss[i];
      if last.Timeout().Some? {
        assert ss[|ss| - 1].Timeout().Some?;
      } else {
        assert Configure(ss).retryTimeout == c.retryTimeout;
      }
      forall i | LastTimeout(ss, i)
        ensures Configure(ss).retryTimeout == ss[i].Timeout()
      {
        if i < |init| {
          assert ss[|ss| - 1].Timeout().None?;
          assert LastTimeout(init, i);
        }
      }
    }
  }

  /** The last call that sets the retry limit decides it. */
  lemma {:induction false} ConfigureLimit(ss: seq<Setting>)
    ensures Configure(ss).maxRetries.None? <==> forall i :: 0 <= i < |ss| ==> ss[i].Limit().None?
    ensures forall i :: LastLimit(ss, i) ==> Configure(ss).maxRetries == ss[i].Limit()
    decreases |ss|
  {
    if ss != [] {
      var init, last := ss[..|ss| - 1], ss[|ss| - 1];
      ConfigureLimit(init);
      var c := Configure(init);
      assert Configure(ss) == c.Apply(last);
      ApplyFields(c, last);
      assert forall i :: 0 <= i < |init| ==> init[i] == ss[i];
      if last.Limit().Some? {
        assert ss[|ss| - 1].Limit().Some?;
      } else {
        assert Configure(ss).maxRetries == c.maxRetries;
      }
      forall i | LastLimit(ss, i)
        ensures Configure(ss).maxRetries == ss[i].Limit()
      {
        if i < |init| {
          assert ss[|ss| - 1].Limit().None?;
          assert LastLimit(init, i);
        }
      }
    }
  }

  /** The cookie store stays on unless `no_cookie_store` is called, and the
      session id is fetched unless that or `no_session_id` is; so a chain
      of builder calls never asks for a session id without a cookie
      store. */
  lemma {:induction false} ConfigureCookies(ss: seq<Setting>)
    ensures Configure(ss).cookieStore <==> forall i :: 0 <= i < |ss| ==> ss[i] != NoCookieStore
    ensures Configure(ss).getSessionId <==> forall i :: 0 <= i < |ss| ==> ss[i] != NoCookieStore && ss[i] != NoSessionId
    ensures Configure(ss).getSessionId ==> Configure(ss).cookieStore
    decreases |ss|
  {
    if ss != [] {
      var init, last := ss[..|ss| - 1], ss[|ss| - 1];
      ConfigureCookies(init);
      ApplyFields(Configure(init), last);
      assert forall i :: 0 <= i < |init| ==> init[i] == ss[i];
    }
  }

  // ---------------------------------------------------------------------
  // build

  /** Why `build` panics. */
  datatype BuildPanic =
    | MissingApiKey
    | SessionIdWithoutCookieStore
    | SessionIdUnavailable

  datatype Client = Client(
    retryTimeout: Duration,
    maxRetries: nat,
    dontRetry: seq<StatusCode>,
    sessionId: string,
    apiKeys: seq<string>,
    retries: nat)
  {
    /** `api_key()`: the first key; `build` never makes a client without
        one. */
    function ApiKey(): string
      requires |apiKeys| > 0
    {
      apiKeys[0]
    }

    /** `reset_retries()`. */
    function ResetRetries(): (c: Client)
      ensures c.retries == 0 && c.(retries := retries) == this
    {
      this.(retries := 0)
    }
  }

  /** The distinct codes of a list, ascending. */
  function SortedCodes(codes: seq<StatusCode>): (r: seq<StatusCode>)
    ensures Increasing(r) && Elems(r) == Elems(codes)
  {
    var r := SortDedup(codes);
    assert forall i :: 0 <= i < |r| ==> r[i] in Elems(codes);
    r
  }

  /** `ClientOptions::build`. `fetched` is what `client_with_session_id`
      returns when it is called: the session id, or `None` when the
      request or the cookie lookup fails. Without an api key, or with a
      session id wanted but no cookie store, it panics, in that order; a
      failed fetch panics at the `unwrap`. */
  function Build(o: ClientOptions, fetched: Option<string>): (r: Result<Client, BuildPanic>)
    ensures r.Err? <==> o.apiKeys == [] || (o.getSessionId && (!o.cookieStore || fetched.None?))
    ensures r.Err? ==> r.error == (if o.apiKeys == [] then MissingApiKey
                                   else if !o.cookieStore then SessionIdWithoutCookieStore
                                   else SessionIdUnavailable)
    ensures r.Ok? ==> r.value.retryTimeout == o.retryTimeout.GetOr(FromMillis(1000))
    ensures r.Ok? ==> r.value.maxRetries == o.maxRetries.GetOr(3)
    ensures r.Ok? ==> Increasing(r.value.dontRetry) && Elems(r.value.dontRetry) == Elems(o.dontRetry)
    ensures r.Ok? ==> r.value.sessionId == (if o.getSessionId then fetched.value else "")
    ensures r.Ok? ==> r.value.apiKeys == o.apiKeys && r.value.retries == 0
  {
    if o.apiKeys == [] then Err(MissingApiKey)
    else if !(o.cookieStore || !o.getSessionId) then Err(SessionIdWithoutCookieStore)
    else
      var session :=
        if o.cookieStore && o.getSessionId then
          if fetched.None? then None else Some(fetched.value)
        else Some("");
      if session.None? then Err(SessionIdUnavailable)
      else
        Ok(Client(
          o.retryTimeout.GetOr(FromMillis(1000)),
          o.maxRetries.GetOr(3),
          SortedCodes(o.dontRetry),
          session.value,
          o.apiKeys,
          0))
  }

  /** What a chain of builder calls gives once built: with no delay or
      limit set, 1000 ms and 3 retries; `api_key()` is the first key
      added; the no-retry list is sorted, without repeats, and holds every
      code added; and the only panics left are a missing key and a failed
      session-id fetch. */
  lemma BuildConfigured(ss: seq<Setting>, fetched: Option<string>)
    ensures (forall i :: 0 <= i < |ss| ==> ss[i].Timeout().None?) && Build(Configure(ss), fetched).Ok?
      ==> Build(Configure(ss), fetched).value.retryTimeout == FromMillis(1000)
    ensures (forall i :: 0 <= i < |ss| ==> ss[i].Limit().None?) && Build(Configure(ss), fetched).Ok?
      ==> Build(Configure(ss), fetched).value.maxRetries == 3
    ensures Build(Configure(ss), fetched) != Err(SessionIdWithoutCookieStore)
    ensures Build(Configure(ss), fetched) == Err(MissingApiKey) <==> forall i :: 0 <= i < |ss| ==> ss[i].Keys() == []
    ensures forall i :: FirstKeys(ss, i) && Build(Configure(ss), fetched).Ok? ==>
              Build(Configure(ss), fetched).value.ApiKey() == ss[i].Keys()[0]
    ensures Build(Configure(ss), fetched).Ok? ==>
      var c := Build(Configure(ss), fetched).value;
      Increasing(c.dontRetry) && forall code :: code in c.dontRetry <==> exists i :: 0 <= i < |ss| && code in ss[i].Codes()
  {
    ConfigureKeys(ss);
    ConfigureCodes(ss);
    ConfigureTimeout(ss);
    ConfigureLimit(ss);
    ConfigureCookies(ss);
  }

  // ---------------------------------------------------------------------
  // get_json

  /** How one attempt went: the request could not be sent, or a response
      came back with a status and a body that decodes to a `T` or not. */
  datatype Attempt<T> = SendFailed | Response(status: StatusCode, body: Option<T>)

  /** `reqwest::Error`, by what `get_json` does with it. */
  datatype HttpError = Transport | Status(code: StatusCode) | Decode {

    /** `err.status()`. */
    function StatusOf(): Option<StatusCode> {
      if Status? then Some(code) else None
    }
  }

  /** `error_for_status` fails for 4xx and 5xx statuses. */
  predicate IsErrorStatus(status: StatusCode) {
    400 <= status <= 599
  }

  predicate Succeeded<T>(a: Attempt<T>) {
    a.Response? && !IsErrorStatus(a.status)
  }

  /** The error a failed attempt leaves. */
  function Failure<T>(a: Attempt<T>): HttpError {
    if a.Response? then Status(a.status) else Transport
  }

  /** A failed attempt that the no-retry list does not stop. */
  predicate Retryable<T>(a: Attempt<T>, dontRetry: seq<StatusCode>) {
    !Succeeded(a) && !(a.Response? && a.status in dontRetry)
  }

  /** What one call of `get_json` did: its result, the attempts it made,
      the sleeps between them, and whether the sleeps reached the shared
      counter (they do not when the `?` on the body's decoding returns
      early). */
  datatype Call<T> = Call(result: Result<T, HttpError>, attempts: nat, sleeps: nat, counted: bool)

  /** The result of the attempt the loop stops at. */
  function Outcome<T>(a: Attempt<T>): Result<T, HttpError> {
    if Succeeded(a) then (if a.body.Some? then Ok(a.body.value) else Err(Decode))
    else Err(Failure(a))
  }

  /** The loop from attempt number `retries` on; `net(k)` is how attempt
      `k` goes. */
  function RetryLoop<T>(maxRetries: nat, dontRetry: seq<StatusCode>, net: nat -> Attempt<T>, retries: nat): (call: Call<T>)
    requires retries <= maxRetries
    ensures retries <= call.sleeps <= maxRetries && call.attempts == call.sleeps + 1
    ensures forall j :: retries <= j < call.sleeps ==> Retryable(net(j), dontRetry)
    ensures !Retryable(net(call.sleeps), dontRetry) || call.sleeps == maxRetries
    ensures call.result == Outcome(net(call.sleeps))
    ensures call.counted <==> !(Succeeded(net(call.sleeps)) && net(call.sleeps).body.None?)
    decreases maxRetries - retries
  {
    var a := net(retries);
    if Succeeded(a) then Call(Outcome(a), retries + 1, retries, a.body.Some?)
    else if retries == maxRetries then Call(Err(Failure(a)), retries + 1, retries, true)
    else if Failure(a).StatusOf().Some? && Failure(a).StatusOf().value in dontRetry then
      Call(Err(Failure(a)), retries + 1, retries, true)
    else RetryLoop(maxRetries, dontRetry, net, retries + 1)
  }

  /** Attempt `k` is where `get_json` stops: every attempt before it
      failed in a way that is retried, and it succeeded, failed with a
      status on the no-retry list, or used up the last retry. */
  predicate StopsAt<T>(c: Client, net: nat -> Attempt<T>, k: nat) {
    && k <= c.maxRetries
    && (forall j :: 0 <= j < k ==> Retryable(net(j), c.dontRetry))
    && (!Retryable(net(k), c.dontRetry) || k == c.maxRetries)
  }

  /** The counter after a call that stopped at attempt `k`: `k` sleeps are
      added, unless the successful body failed to decode. */
  function Counted<T>(c: Client, net: nat -> Attempt<T>, k: nat): Client {
    c.(retries := c.retries + (if Succeeded(net(k)) && net(k).body.None? then 0 else k))
  }

  /** The attempt the loop stops at. */
  function StopIndex<T>(c: Client, net: nat -> Attempt<T>): (k: nat)
    ensures StopsAt(c, net, k)
  {
    RetryLoop(c.maxRetries, c.dontRetry, net, 0).sleeps
  }

  /** `Client::get_json`: tries until an attempt succeeds, fails with a
      status on the no-retry list, or `max_retries` retries are used up,
      sleeping between attempts; a transport error is always retried. The
      result is that of the last attempt, and the counter grows by the
      number of sleeps unless the successful body failed to decode. */
  function GetJson<T>(c: Client, net: nat -> Attempt<T>): (r: (Result<T, HttpError>, Client))
    ensures r.0 == Outcome(net(StopIndex(c, net)))
    ensures r.1 == Counted(c, net, StopIndex(c, net))
  {
    var call := RetryLoop(c.maxRetries, c.dontRetry, net, 0);
    (call.result, c.(retries := c.retries + (if call.counted then call.sleeps else 0)))
  }

  /** There is only one place the loop can stop. */
  lemma StopsOnce<T>(c: Client, net: nat -> Attempt<T>, k: nat, k': nat)
    requires StopsAt(c, net, k) && StopsAt(c, net, k')
    ensures k == k'
  {
    assert k < k' ==> Retryable(net(k), c.dontRetry);
    assert k' < k ==> Retryable(net(k'), c.dontRetry);
  }

  /** With `max_retries` 0 there is exactly one attempt, whose result is
      returned, and nothing is added to the counter. */
  lemma SingleAttempt<T>(c: Client, net: nat -> Attempt<T>)
    requires c.maxRetries == 0
    ensures GetJson(c, net) == (Outcome(net(0)), c)
  {
    assert StopIndex(c, net) == 0;
  }

  /** A first response with a status on the no-retry list is returned as
      that status error at once, with no sleep counted. */
  lemma DontRetryStops<T>(c: Client, net: nat -> Attempt<T>)
    requires net(0).Response? && IsErrorStatus(net(0).status) && net(0).status in c.dontRetry
    ensures GetJson(c, net) == (Err(Status(net(0).status)), c)
  {
    StopsOnce(c, net, StopIndex(c, net), 0);
  }

  /** A send that fails is retried while retries are left: after `n`
      failed sends the loop is at attempt `n` at least. */
  lemma TransportRetried<T>(c: Client, net: nat -> Attempt<T>, n: nat, k: nat)
    requires n <= c.maxRetries && forall j :: 0 <= j < n ==> net(j).SendFailed?
    requires StopsAt(c, net, k)
    ensures n <= k
  {
    assert k < n ==> net(k).SendFailed? && Retryable(net(k), c.dontRetry);
  }

  /** `reset_retries` zeroes the counter and leaves the rest alone. */
  lemma ResetAfterCall<T>(c: Client, net: nat -> Attempt<T>)
    ensures GetJson(c, net).1.ResetRetries() == c.ResetRetries()
  {
  }

  // ---------------------------------------------------------------------
  // The session id

  const SESSION_ID: string := "sessionid="

  /** A piece that starts with `prefix` once leading whitespace is
      trimmed. */
  predicate Carries(piece: string, prefix: string) {
    StartsWith(TrimStart(piece), prefix)
  }

  /** The cookie-string step of `client_with_session_id`, for a cookie
      prefix such as `sessionid=`: split at `;`, trim each piece's start,
      and take the rest of the first piece that starts with the prefix;
      `None` when no piece does. */
  function CookieValue(cookies: string, prefix: string): (r: Option<string>)
    ensures r.Some? <==> exists j :: 0 <= j < |Split(cookies, ';')| && Carries(Split(cookies, ';')[j], prefix)
  {
    var pieces := Split(cookies, ';');
    match Position(pieces, piece => Carries(piece, prefix))
    case None => None
    case Some(i) =>
      assert 0 <= i < |Split(cookies, ';')| && Carries(Split(cookies, ';')[i], prefix);
      Some(TrimStart(pieces[i])[|prefix|..])
  }

  /** The session id in a cookie string. */
  function SessionId(cookies: string): Option<string> {
    CookieValue(cookies, SESSION_ID)
  }

  /** A cookie string made of pieces none of which carries the prefix,
      then the prefix and a value, then anything, all joined with `;` and
      each piece possibly indented, gives back that value. */
  lemma CookieValueOf(before: seq<string>, pad: string, prefix: string, value: string, after: seq<string>)
    requires forall i :: 0 <= i < |before| ==> ';' !in before[i] && !Carries(before[i], prefix)
    requires forall i :: 0 <= i < |after| ==> ';' !in after[i]
    requires forall i :: 0 <= i < |pad| ==> IsWhitespace(pad[i])
    requires prefix != [] && !IsWhitespace(prefix[0])
    requires ';' !in pad && ';' !in prefix && ';' !in value
    ensures CookieValue(Join(before + [pad + prefix + value] + after, ";"), prefix) == Some(value)
  {
    var piece := pad + prefix + value;
    var pieces := before + [piece] + after;
    assert ';' !in piece;
    NoSeparatorIn(before, piece, after);
    SplitJoinPieces(pieces, ';');
    PieceCarries(pad, prefix, value);
    assert pieces[|before|] == piece;
    assert forall j :: 0 <= j < |before| ==> !Carries(pieces[j], prefix) by {
      assert forall j :: 0 <= j < |before| ==> pieces[j] == before[j];
    }
    CookieValueAt(Join(pieces, ";"), pieces, prefix, |before|);
  }

  /** The value comes from the first piece that carries the prefix. */
  lemma CookieValueAt(cookies: string, pieces: seq<string>, prefix: string, k: nat)
    requires Split(cookies, ';') == pieces
    requires k < |pieces| && Carries(pieces[k], prefix)
    requires forall j :: 0 <= j < k ==> !Carries(pieces[j], prefix)
    ensures CookieValue(cookies, prefix) == Some(TrimStart(pieces[k])[|prefix|..])
  {
    PositionAt(pieces, piece => Carries(piece, prefix), k);
  }

  /** An indented piece `prefix + value` carries the prefix, and what
      follows it is the value. */
  lemma PieceCarries(pad: string, prefix: string, value: string)
    requires forall i :: 0 <= i < |pad| ==> IsWhitespace(pad[i])
    requires prefix != [] && !IsWhitespace(prefix[0])
    ensures TrimStart(pad + prefix + value) == prefix + value
    ensures Carries(pad + prefix + value, prefix)
    ensures (prefix + value)[|prefix|..] == value
  {
    assert pad + prefix + value == pad + (prefix + value);
    TrimStartPad(pad, prefix + value);
    assert (prefix + value)[..|prefix|] == prefix;
  }

  lemma NoSeparatorIn(before: seq<string>, piece: string, after: seq<string>)
    requires forall i :: 0 <= i < |before| ==> ';' !in before[i]
    requires forall i :: 0 <= i < |after| ==> ';' !in after[i]
    requires ';' !in piece
    ensures forall i :: 0 <= i < |before + [piece] + after| ==> ';' !in (before + [piece] + after)[i]
  {
    var pieces := before + [piece] + after;
    forall i | 0 <= i < |pieces|
      ensures ';' !in pieces[i]
    {
      if i < |before| {
        assert pieces[i] == before[i];
      } else if i > |before| {
        assert pieces[i] == after[i - |before| - 1];
      }
    }
  }

  /** The session id follows `sessionid=` in the first piece that carries
      it, and a cookie string with no such piece has none. */
  lemma SessionIdOfCookies(before: seq<string>, pad: string, id: string, after: seq<string>)
    requires forall i :: 0 <= i < |before| ==> ';' !in before[i] && !Carries(before[i], SESSION_ID)
    requires forall i :: 0 <= i < |after| ==> ';' !in after[i]
    requires forall i :: 0 <= i < |pad| ==> IsWhitespace(pad[i])
    requires ';' !in pad && ';' !in id
    ensures SessionId(Join(before + [pad + SESSION_ID + id] + after, ";")) == Some(id)
  {
    var prefix := SESSION_ID;
    assert prefix[0] == 's' && ';' !in prefix;
    CookieValueOf(before, pad, prefix, id, after);
  }
}
