/**
  The remote job client of the CPLUS plugin (`api/request.py`): endpoint URL
  templates, the multipart part count, the bearer-token cache, the status
  poller, the part-upload retry loop and the status code each facade call
  accepts.

  The network is an oracle: every request consumes one `Reply` (a decoded
  body with its HTTP status, or a transport failure).  `time.sleep` appends
  to a delay log and `datetime.now()` is an integer clock in seconds.
*/
module ApiRequest {
  import opened Wrappers

  // ---------------------------------------------------------------------
  // Constants and the transport's observable outcome
  // ---------------------------------------------------------------------

  /** Size of one multipart upload chunk: 100 MiB. */
  const CHUNK_SIZE: nat := 100 * 1024 * 1024

  const ONE_HOUR: int := 3600
  const ONE_DAY: int := 86400

  const JOB_COMPLETED_STATUS: string := "Completed"
  const JOB_CANCELLED_STATUS: string := "Cancelled"
  const JOB_STOPPED_STATUS: string := "Stopped"

  /** A decoded JSON object, reduced to its top-level string fields. */
  type Body = map<string, string>

  /** What one HTTP call yields: a body with its status code, or a transport failure. */
  datatype Reply = Response(body: Body, status: int) | NetworkError(reason: string)

  // ---------------------------------------------------------------------
  // Endpoint URLs (CplusApiUrl)
  // ---------------------------------------------------------------------

  datatype Endpoint =
    | LayerDetail(layerUuid: string)
    | LayerCheck
    | LayerUploadStart
    | LayerUploadFinish(layerUuid: string)
    | LayerUploadAbort(layerUuid: string)
    | ScenarioSubmit(pluginVersion: Option<string>)
    | ScenarioExecute(scenarioUuid: string)
    | ScenarioStatus(scenarioUuid: string)
    | ScenarioCancel(scenarioUuid: string)
    | ScenarioDetail(scenarioUuid: string)
    | ScenarioOutputList(scenarioUuid: string)

  const SUBMIT_PATH: string := "/scenario/submit/"
  /** Appended to the submit URL, followed by the plugin version, when a version is given. */
  const VERSION_QUERY: string := "?plugin_version="
  /** The output listing's fixed query: the first page of at most 100 outputs. */
  const FIRST_PAGE_QUERY: string := "?page=1&page_size=100"

  /** Python truthiness of an optional string: present and non-empty. */
  predicate Truthy(s: Option<string>)
  {
    s.Some? && s.value != ""
  }

  /** The text an endpoint inserts into its template (a uuid or the plugin version). */
  function Identifier(e: Endpoint): string
  {
    match e
    case LayerDetail(u) => u
    case LayerUploadFinish(u) => u
    case LayerUploadAbort(u) => u
    case ScenarioSubmit(v) => if Truthy(v) then v.value else ""
    case ScenarioExecute(u) => u
    case ScenarioStatus(u) => u
    case ScenarioCancel(u) => u
    case ScenarioDetail(u) => u
    case ScenarioOutputList(u) => u
    case _ => ""
  }

  /** Fixed text the template places between the base URL and the identifier. */
  function Lead(e: Endpoint): string
  {
    match e
    case LayerDetail(_) => "/layer/"
    case LayerCheck => "/layer/check/?id_type=layer_uuid"
    case LayerUploadStart => "/layer/upload/start/"
    case LayerUploadFinish(_) => "/layer/upload/"
    case LayerUploadAbort(_) => "/layer/upload/"
    case ScenarioSubmit(v) => if Truthy(v) then SUBMIT_PATH + VERSION_QUERY else SUBMIT_PATH
    case ScenarioExecute(_) => "/scenario/"
    case ScenarioStatus(_) => "/scenario/"
    case ScenarioCancel(_) => "/scenario/"
    case ScenarioDetail(_) => "/scenario/"
    case ScenarioOutputList(_) => "/scenario_output/"
  }

  /** Fixed text the template places after the identifier. */
  function Tail(e: Endpoint): string
  {
    match e
    case LayerDetail(_) => "/"
    case LayerUploadFinish(_) => "/finish/"
    case LayerUploadAbort(_) => "/abort/"
    case ScenarioExecute(_) => "/execute/"
    case ScenarioStatus(_) => "/status/"
    case ScenarioCancel(_) => "/cancel/"
    case ScenarioDetail(_) => "/detail/"
    case ScenarioOutputList(_) => "/list/" + FIRST_PAGE_QUERY
    case _ => ""
  }

  /** The URL of an endpoint: the base URL, the template's lead, the identifier
      verbatim, then the template's tail. */
  function Url(baseUrl: string, e: Endpoint): string
  {
    baseUrl + Lead(e) + Identifier(e) + Tail(e)
  }

  /** Two endpoints of the same kind whose identifiers are both present or both absent. */
  predicate SameTemplate(e1: Endpoint, e2: Endpoint)
  {
    Lead(e1) == Lead(e2) && Tail(e1) == Tail(e2)
  }

  lemma {:induction false} SplitInjective(a: string, x: string, y: string, b: string)
    requires a + x + b == a + y + b
    ensures x == y
  {
    var s := a + x + b;
    assert |x| == |y|;
    assert x == s[|a|..|a| + |x|];
    assert y == (a + y + b)[|a|..|a| + |y|];
  }

  /** Two URLs built from one template are equal only when their identifiers are. */
  lemma UrlDeterminesIdentifier(baseUrl: string, e1: Endpoint, e2: Endpoint)
    requires SameTemplate(e1, e2)
    requires Url(baseUrl, e1) == Url(baseUrl, e2)
    ensures Identifier(e1) == Identifier(e2)
  {
    SplitInjective(baseUrl + Lead(e1), Identifier(e1), Identifier(e2), Tail(e1));
  }

  /** Where each part of a four-part concatenation sits. */
  lemma {:induction false} ConcatLayout<T>(a: seq<T>, b: seq<T>, c: seq<T>, d: seq<T>)
    ensures |a| + |b| + |c| + |d| == |a + b + c + d|
    ensures (a + b + c + d)[..|a|] == a
    ensures (a + b + c + d)[|a| + |b|..|a| + |b| + |c|] == c
    ensures (a + b + c + d)[|a| + |b| + |c|..] == d
  {
    var s := a + b + c + d;
    assert s[..|a|] == a;
    assert s[|a| + |b|..|a| + |b| + |c|] == c;
    assert s[|a| + |b| + |c|..] == d;
  }

  /** Every URL starts with the base URL and carries the identifier verbatim
      right after the template's fixed lead. */
  lemma UrlLayout(baseUrl: string, e: Endpoint)
    ensures var url := Url(baseUrl, e);
      && |baseUrl| + |Lead(e)| + |Identifier(e)| <= |url|
      && url[..|baseUrl|] == baseUrl
      && url[|baseUrl| + |Lead(e)|..|baseUrl| + |Lead(e)| + |Identifier(e)|] == Identifier(e)
  {
    ConcatLayout(baseUrl, Lead(e), Identifier(e), Tail(e));
  }

  /** `scenario_submit` tags the URL with the version only when the version is truthy:
      the tagged URL extends the untagged one by exactly `?plugin_version=v`. */
  lemma SubmitUrlVersionTag(baseUrl: string, v: Option<string>)
    ensures !Truthy(v) ==> Url(baseUrl, ScenarioSubmit(v)) == Url(baseUrl, ScenarioSubmit(None))
    ensures Truthy(v) ==>
      Url(baseUrl, ScenarioSubmit(v)) == Url(baseUrl, ScenarioSubmit(None)) + VERSION_QUERY + v.value
  {
    var e0, e := ScenarioSubmit(None), ScenarioSubmit(v);
    assert Identifier(e0) == [] && Tail(e0) == [] && Tail(e) == [];
    if Truthy(v) {
      TagRegroups(baseUrl, SUBMIT_PATH, VERSION_QUERY, v.value);
    }
  }

  lemma {:induction false} TagRegroups<T>(a: seq<T>, b: seq<T>, c: seq<T>, d: seq<T>)
    ensures a + (b + c) + d + [] == a + b + [] + [] + c + d
  {
    assert a + (b + c) + d + [] == a + b + c + d;
    assert a + b + [] + [] == a + b;
  }

  /** The output listing always asks for the first page of 100 results only. */
  lemma OutputListIsFirstPage(baseUrl: string, scenarioUuid: string)
    ensures var url := Url(baseUrl, ScenarioOutputList(scenarioUuid));
      |FIRST_PAGE_QUERY| <= |url| && url[|url| - |FIRST_PAGE_QUERY|..] == FIRST_PAGE_QUERY
  {
    var e := ScenarioOutputList(scenarioUuid);
    EndsWith(baseUrl + Lead(e) + Identifier(e), "/list/", FIRST_PAGE_QUERY);
  }

  /** A sequence ending in `c + q` ends in `q`. */
  lemma {:induction false} EndsWith<T>(a: seq<T>, c: seq<T>, q: seq<T>)
    ensures var s := a + (c + q); |q| <= |s| && s[|s| - |q|..] == q
  {
    assert a + (c + q) == (a + c) + q;
    assert ((a + c) + q)[|a + c|..] == q;
  }

  // ---------------------------------------------------------------------
  // Multipart upload: number of parts and the start/finish payloads
  // ---------------------------------------------------------------------

  /** `math.ceil(file_size / CHUNK_SIZE)`. */
  function NumberOfParts(size: nat): (parts: nat)
    ensures size == 0 <==> parts == 0
    ensures size > 0 ==> (parts - 1) * CHUNK_SIZE < size <= parts * CHUNK_SIZE
  {
    (size + CHUNK_SIZE - 1) / CHUNK_SIZE
  }

  /** The body `start_upload_layer` posts to open an upload session. */
  datatype StartUploadPayload = StartUploadPayload(
    layerType: int, componentType: string, privacyType: string,
    name: string, size: nat, numberOfParts: nat)

  function StartUploadRequest(name: string, size: nat, layerType: int, componentType: string): (p: StartUploadPayload)
    ensures p.privacyType == "private" && p.size == size && p.name == name
    ensures size == 0 <==> p.numberOfParts == 0
    ensures size > 0 ==> (p.numberOfParts - 1) * CHUNK_SIZE < size <= p.numberOfParts * CHUNK_SIZE
  {
    StartUploadPayload(layerType, componentType, "private", name, size, NumberOfParts(size))
  }

  /** One uploaded part, as collected for the finish call. */
  datatype PartResponse = PartResponse(partNumber: int, etag: string)

  /** The body `finish_upload_layer` posts: each field only when its value is truthy. */
  datatype FinishUploadPayload = FinishUploadPayload(multipartUploadId: Option<string>, items: Option<seq<PartResponse>>)

  function FinishUploadRequest(uploadId: Option<string>, items: seq<PartResponse>): (p: FinishUploadPayload)
    ensures p.multipartUploadId.Some? <==> Truthy(uploadId)
    ensures p.multipartUploadId.Some? ==> p.multipartUploadId == uploadId
    ensures p.items.Some? <==> items != []
    ensures p.items.Some? ==> p.items.value == items
  {
    FinishUploadPayload(
      if Truthy(uploadId) then uploadId else None,
      if items != [] then Some(items) else None)
  }

  // ---------------------------------------------------------------------
  // Bearer token cache (CplusApiRequest.api_token)
  // ---------------------------------------------------------------------

  /** The cached token and its expiry time (seconds on the injected clock). */
  datatype TokenCache = TokenCache(apiToken: Option<string>, tokenExp: int)

  /** The stored Trends.Earth login; an empty field counts as missing. */
  datatype AuthConfig = AuthConfig(username: string, password: string)

  datatype AuthError =
    | LoginRejected(status: int, detail: string)
    | MissingAccessToken
    | LoginNetworkError(reason: string)

  /** What reading `api_token` yields: a token, Python `None`, or a raised error. */
  datatype TokenOutcome = TokenReturned(token: string) | NoTokenReturned | TokenFailed(error: AuthError)

  /** The outcome, the cache afterwards, and whether a login request was posted. */
  datatype TokenStep = TokenStep(outcome: TokenOutcome, cache: TokenCache, posted: bool)

  /** `_is_valid_token`: a token is cached and expires more than one hour from now. */
  predicate IsValidToken(cache: TokenCache, now: int)
  {
    cache.apiToken.Some? && cache.tokenExp > now + ONE_HOUR
  }

  predicate HasCredentials(config: Option<AuthConfig>)
  {
    config.Some? && config.value.username != "" && config.value.password != ""
  }

  /** The `api_token` property.  `login` is the reply the identity endpoint
      would give; it is consumed only when the login request is posted. */
  function ApiToken(cache: TokenCache, now: int, config: Option<AuthConfig>, login: Reply): (s: TokenStep)
    ensures !s.posted <==> IsValidToken(cache, now) || !HasCredentials(config)
    ensures IsValidToken(cache, now) ==> s.outcome == TokenReturned(cache.apiToken.value)
    ensures !IsValidToken(cache, now) && !HasCredentials(config) ==> s.outcome == NoTokenReturned
    ensures !s.outcome.TokenReturned? ==> s.cache == cache
    ensures s.cache != cache ==>
      s.posted && login.Response? && login.status == 200 && "access_token" in login.body
      && s.cache == TokenCache(Some(login.body["access_token"]), now + ONE_DAY)
      && s.outcome == TokenReturned(login.body["access_token"])
    ensures s.posted && login.Response? && login.status != 200 ==>
      s.outcome == TokenFailed(LoginRejected(login.status, Get(login.body, "description", "Unknwon Error!")))
    ensures s.posted && login.Response? && login.status == 200 ==>
      if "access_token" in login.body
      then s.outcome == TokenReturned(login.body["access_token"]) && s.cache.tokenExp == now + ONE_DAY
      else s.outcome == TokenFailed(MissingAccessToken)
    ensures s.posted && login.NetworkError? ==> s.outcome == TokenFailed(LoginNetworkError(login.reason))
  {
    if IsValidToken(cache, now) then TokenStep(TokenReturned(cache.apiToken.value), cache, false)
    else if !HasCredentials(config) then TokenStep(NoTokenReturned, cache, false)
    else match login
      case NetworkError(reason) => TokenStep(TokenFailed(LoginNetworkError(reason)), cache, true)
      case Response(body, status) =>
        if status != 200 then
          TokenStep(TokenFailed(LoginRejected(status, Get(body, "description", "Unknwon Error!"))), cache, true)
        else if "access_token" !in body then
          TokenStep(TokenFailed(MissingAccessToken), cache, true)
        else
          var token := body["access_token"];
          TokenStep(TokenReturned(token), TokenCache(Some(token), now + ONE_DAY), true)
  }

  /** A token obtained by logging in at `t` is reused without any request for
      23 hours, and the first read at or after `t + 23h` logs in again. */
  lemma {:induction false} FreshTokenWindow(cache: TokenCache, t: int, later: int, config: Option<AuthConfig>,
                                            login: Reply, relogin: Reply)
    requires HasCredentials(config)
    requires t <= later
    requires ApiToken(cache, t, config, login).outcome.TokenReturned?
    requires !IsValidToken(cache, t)
    ensures var first := ApiToken(cache, t, config, login);
      var second := ApiToken(first.cache, later, config, relogin);
      (later < t + ONE_DAY - ONE_HOUR ==> !second.posted && second.outcome == first.outcome)
      && (later >= t + ONE_DAY - ONE_HOUR ==> second.posted)
  {
    var first := ApiToken(cache, t, config, login);
    assert first.posted;
    assert first.cache == TokenCache(Some(login.body["access_token"]), t + ONE_DAY);
  }

  /** The transport decodes a reply body with `json.load` applied to a `str`,
      which always raises; the handler swallows the error, so every decoded
      body is the empty dictionary whatever the server sent. */
  function ReadJsonResponseAsWritten(raw: string): (body: Body)
    ensures body == map[]
  {
    map[]
  }

  /** The evidently intended decoding: parse the text (`json.loads`), and fall
      back to the empty dictionary only when the text is not JSON. */
  function ReadJsonResponse(raw: string, parse: string -> Option<Body>): (body: Body)
    ensures parse(raw).Some? ==> body == parse(raw).value
    ensures parse(raw).None? ==> body == map[]
  {
    match parse(raw)
    case Some(b) => b
    case None => map[]
  }

  /** With the transport as written no login can succeed: a 200 reply always
      decodes to `{}` and is reported as a missing access token. */
  lemma LoginNeverSucceedsAsWritten(cache: TokenCache, now: int, config: Option<AuthConfig>, raw: string)
    requires HasCredentials(config) && !IsValidToken(cache, now)
    ensures ApiToken(cache, now, config, Response(ReadJsonResponseAsWritten(raw), 200)).outcome
         == TokenFailed(MissingAccessToken)
  {
  }

  /** With the intended decoding, a 200 reply whose text carries a token logs in. */
  lemma LoginSucceedsWithDecodedToken(cache: TokenCache, now: int, config: Option<AuthConfig>,
                                      raw: string, parse: string -> Option<Body>)
    requires HasCredentials(config) && !IsValidToken(cache, now)
    requires parse(raw).Some? && "access_token" in parse(raw).value
    ensures var s := ApiToken(cache, now, config, Response(ReadJsonResponse(raw, parse), 200));
      s.outcome == TokenReturned(parse(raw).value["access_token"])
      && s.cache.apiToken == Some(parse(raw).value["access_token"])
  {
  }

  // ---------------------------------------------------------------------
  // Request headers (BaseApiClient._set_headers)
  // ---------------------------------------------------------------------

  /** A header dictionary as its (key, value) items in insertion order. */
  type Headers = seq<(string, string)>

  /** `_default_headers` of the job client; `token` is the text the bearer
      token formats to ("None" when `api_token` returned nothing). */
  function DefaultHeaders(token: string): Headers
  {
    [("Authorization", "Bearer " + token), ("Content-Type", "application/json")]
  }

  /** The explicit headers of the login request. */
  const LoginHeaders: Headers := [("Content-Type", "application/json")]

  /** The `ValueError` of unpacking a key string that is not two characters long. */
  datatype HeaderError = UnpackError(key: string)

  /** `_set_headers` as written: `for key, value in headers` walks the
      dictionary's keys and unpacks each key string into two one-character
      strings, so it raises at the first key whose length is not 2; the raw
      headers are then the characters of the keys. */
  function SetHeadersAsWritten(headers: Headers): (r: Result<map<string, string>, HeaderError>)
    ensures r.Ok? <==> forall i :: 0 <= i < |headers| ==> |headers[i].0| == 2
    ensures r.Ok? ==> forall k :: k in r.value ==> |k| == 1 && |r.value[k]| == 1
    ensures r.Err? ==> exists i :: 0 <= i < |headers| && |headers[i].0| != 2 && r.error == UnpackError(headers[i].0)
    decreases |headers|
  {
    if headers == [] then Ok(map[])
    else
      var n := |headers| - 1;
      var key := headers[n].0;
      assert forall i :: 0 <= i < n ==> headers[..n][i] == headers[i];
      match SetHeadersAsWritten(headers[..n])
      case Err(e) => Err(e)
      case Ok(raw) => if |key| != 2 then Err(UnpackError(key)) else Ok(raw[[key[0]] := [key[1]]])
  }

  /** The evident intent: iterate the items, so that every header is set
      to its value; a later item for the same name replaces an earlier one. */
  function SetHeaders(headers: Headers): (raw: map<string, string>)
    ensures forall i :: 0 <= i < |headers| ==> headers[i].0 in raw
    ensures forall k :: k in raw ==> exists i :: 0 <= i < |headers| && headers[i].0 == k
    decreases |headers|
  {
    if headers == [] then map[]
    else
      var n := |headers| - 1;
      assert forall i :: 0 <= i < n ==> headers[..n][i] == headers[i];
      SetHeaders(headers[..n])[headers[n].0 := headers[n].1]
  }

  /** As written no header dictionary the client builds can be applied:
      every call fails on "Authorization" and the login on "Content-Type",
      before any request is sent. */
  lemma HeadersNeverSetAsWritten(token: string)
    ensures SetHeadersAsWritten(DefaultHeaders(token)) == Err(UnpackError("Authorization"))
    ensures SetHeadersAsWritten(LoginHeaders) == Err(UnpackError("Content-Type"))
  {
    assert DefaultHeaders(token)[..1] == [("Authorization", "Bearer " + token)];
    assert DefaultHeaders(token)[..1][..0] == [];
    assert LoginHeaders[..0] == [];
  }

  /** With the items iterated, a call carries its bearer token and JSON content type. */
  lemma IntendedHeadersCarryToken(token: string)
    ensures SetHeaders(DefaultHeaders(token)) == map["Authorization" := "Bearer " + token, "Content-Type" := "application/json"]
    ensures SetHeaders(LoginHeaders) == map["Content-Type" := "application/json"]
  {
    assert DefaultHeaders(token)[..1] == [("Authorization", "Bearer " + token)];
    assert DefaultHeaders(token)[..1][..0] == [];
    assert LoginHeaders[..0] == [];
  }

  // ---------------------------------------------------------------------
  // Status poller (CplusApiPooling.results)
  // ---------------------------------------------------------------------

  const DEFAULT_LIMIT: int := 3600
  const DEFAULT_INTERVAL: int := 1

  /** Membership in `FINAL_STATUS_LIST`. */
  predicate IsFinalStatus(status: string)
  {
    status == JOB_COMPLETED_STATUS || status == JOB_CANCELLED_STATUS || status == JOB_STOPPED_STATUS
  }

  /** A body whose `status` field names a terminal job state. */
  predicate IsTerminal(body: Body)
  {
    "status" in body && IsFinalStatus(body["status"])
  }

  /** The synthetic reply returned once the poller has been cancelled. */
  const CancelledBody: Body := map["status" := JOB_CANCELLED_STATUS]

  /** The poller's state.  The `cancelled` flag is set by another party and is
      never cleared; `cancelAfter` says after how many status requests it reads
      true (`None`: it is never set, `Some(0)`: set before the first call). */
  datatype Pooling = Pooling(limit: int, interval: int, currentRepeat: int, cancelAfter: Option<nat>)

  /** The constructor: a falsy `max_limit` or `interval` takes the default. */
  function NewPooling(maxLimit: Option<int>, interval: Option<int>, cancelAfter: Option<nat>): Pooling
  {
    Pooling(
      if maxLimit.None? || maxLimit.value == 0 then DEFAULT_LIMIT else maxLimit.value,
      if interval.None? || interval.value == 0 then DEFAULT_INTERVAL else interval.value,
      0, cancelAfter)
  }

  /** Whether the flag reads true after `made` status requests. */
  predicate Cancelled(p: Pooling, made: nat)
  {
    p.cancelAfter.Some? && made >= p.cancelAfter.value
  }

  function Max0(x: int): nat
  {
    if x > 0 then x else 0
  }

  /** The bodies handed to `on_response_fetched`: those of the 200 replies, in order. */
  function Ok200Bodies(replies: seq<Reply>): seq<Body>
  {
    if replies == [] then []
    else (if replies[0].Response? && replies[0].status == 200 then [replies[0].body] else [])
         + Ok200Bodies(replies[1..])
  }

  lemma {:induction false} Ok200BodiesAppend(a: seq<Reply>, b: seq<Reply>)
    ensures Ok200Bodies(a + b) == Ok200Bodies(a) + Ok200Bodies(b)
    decreases |a|
  {
    if a == [] {
      assert a + b == b;
    } else {
      var head := if a[0].Response? && a[0].status == 200 then [a[0].body] else [];
      assert (a + b)[0] == a[0];
      assert (a + b)[1..] == a[1..] + b;
      Ok200BodiesAppend(a[1..], b);
      assert Ok200Bodies(a + b) == head + Ok200Bodies(a[1..] + b);
      assert Ok200Bodies(a) == head + Ok200Bodies(a[1..]);
    }
  }

  datatype PollOutcome = PollReturned(body: Body) | PollTimedOut | PollOracleExhausted

  /** One call of `results()`: its outcome (a returned body, the raised timeout,
      or the oracle running dry), the counter afterwards, the unconsumed
      replies, the bodies passed to the callback and the sleeps taken. */
  datatype PollRun = PollRun(outcome: PollOutcome, repeat: int, rest: seq<Reply>, observed: seq<Body>, delays: seq<int>)

  /** A reply that makes the `try` block raise: a transport failure (the GET
      raises), a non-200 status, or a 200 body without a `status` key. */
  predicate RaisesInTry(reply: Reply)
  {
    reply.NetworkError? || reply.status != 200 || "status" !in reply.body
  }

  /** The bookkeeping every call of `results()` keeps: it consumes a prefix of
      the replies, never lowers the counter, raises the timeout only once the
      counter has reached a limit other than -1, and makes at most
      `limit - 1 - current_repeat` status requests when the limit is not -1. */
  predicate Frame(p: Pooling, replies: seq<Reply>, r: PollRun)
  {
    && |r.rest| <= |replies| && r.rest == replies[|replies| - |r.rest|..]
    && r.repeat >= p.currentRepeat
    && (r.outcome.PollTimedOut? ==> p.limit != -1 && r.repeat >= p.limit)
    && (p.limit != -1 ==> |replies| - |r.rest| <= Max0(p.limit - 1 - p.currentRepeat))
  }

  /** `results()` as written.  Each unfolding is one Python frame: the
      cancellation check, the counter increment with the timeout check, then one
      status request (`Attempt`). */
  function Results(p: Pooling, made: nat, replies: seq<Reply>): (r: PollRun)
    ensures |r.rest| <= |replies|
    ensures Cancelled(p, made) ==> r == PollRun(PollReturned(CancelledBody), p.currentRepeat, replies, [], [])
    decreases |replies|, 2
  {
    if Cancelled(p, made) then PollRun(PollReturned(CancelledBody), p.currentRepeat, replies, [], [])
    else if p.limit != -1 && p.currentRepeat + 1 >= p.limit then
      PollRun(PollTimedOut, p.currentRepeat + 1, replies, [], [])
    else if replies == [] then PollRun(PollOracleExhausted, p.currentRepeat + 1, [], [], [])
    else Attempt(p, made, replies[0], replies[1..])
  }

  /** The `try` block of one frame, after the counter check passed. */
  function Attempt(p: Pooling, made: nat, reply: Reply, rest: seq<Reply>): (r: PollRun)
    requires !(p.limit != -1 && p.currentRepeat + 1 >= p.limit)
    ensures |r.rest| <= |rest| + 1
    decreases |rest| + 1, 1
  {
    var p1 := p.(currentRepeat := p.currentRepeat + 1);
    if RaisesInTry(reply) then
      // the exception is handled at line 294: sleep, then call again from the handler
      var next := Results(p1, made + 1, rest);
      PollRun(next.outcome, next.repeat, next.rest, Ok200Bodies([reply]) + next.observed, [p.interval] + next.delays)
    else if IsFinalStatus(reply.body["status"]) then
      PollRun(PollReturned(reply.body), p1.currentRepeat, rest, [reply.body], [])
    else
      Continued(p1, made + 1, reply.body, rest, Results(p1, made + 1, rest))
  }

  /** A non-terminal accepted reply: sleep, then recurse from inside the `try`.
      A timeout raised by that call is caught here, so this frame sleeps once
      more and calls `results()` again from its handler. */
  function Continued(p1: Pooling, made: nat, body: Body, rest: seq<Reply>, sub: PollRun): (r: PollRun)
    requires |sub.rest| <= |rest|
    ensures |r.rest| <= |rest|
    decreases |rest| + 1, 0
  {
    var observed := [body] + sub.observed;
    var delays := [p1.interval] + sub.delays;
    if sub.outcome.PollTimedOut? then
      var again := Results(p1.(currentRepeat := sub.repeat), made + (|rest| - |sub.rest|), sub.rest);
      PollRun(again.outcome, again.repeat, again.rest, observed + again.observed, delays + [p1.interval] + again.delays)
    else
      PollRun(sub.outcome, sub.repeat, sub.rest, observed, delays)
  }

  /** Every call of `results()` keeps the bookkeeping of `Frame`. */
  lemma {:induction false} ResultsFrame(p: Pooling, made: nat, replies: seq<Reply>)
    ensures Frame(p, replies, Results(p, made, replies))
    decreases |replies|, 2
  {
    if !Cancelled(p, made) && !(p.limit != -1 && p.currentRepeat + 1 >= p.limit) && replies != [] {
      assert replies == [replies[0]] + replies[1..];
      AttemptFrame(p, made, replies[0], replies[1..]);
    }
  }

  lemma {:induction false} AttemptFrame(p: Pooling, made: nat, reply: Reply, rest: seq<Reply>)
    requires !(p.limit != -1 && p.currentRepeat + 1 >= p.limit)
    ensures Frame(p, [reply] + rest, Attempt(p, made, reply, rest))
    decreases |rest| + 1, 1
  {
    var p1 := p.(currentRepeat := p.currentRepeat + 1);
    var sub := Results(p1, made + 1, rest);
    var r := Attempt(p, made, reply, rest);
    ResultsFrame(p1, made + 1, rest);
    if RaisesInTry(reply) {
      FrameStep(p, reply, rest, sub, r);
    } else if IsFinalStatus(reply.body["status"]) {
      FrameStep(p, reply, rest, PollRun(PollReturned(reply.body), p1.currentRepeat, rest, [], []), r);
    } else {
      ContinuedFrame(p1, made + 1, reply.body, rest, sub);
      FrameStep(p, reply, rest, Continued(p1, made + 1, reply.body, rest, sub), r);
    }
  }

  /** A frame that made one request inherits the bookkeeping of what followed it. */
  lemma FrameStep(p: Pooling, reply: Reply, rest: seq<Reply>, next: PollRun, r: PollRun)
    requires !(p.limit != -1 && p.currentRepeat + 1 >= p.limit)
    requires Frame(p.(currentRepeat := p.currentRepeat + 1), rest, next)
    requires r.outcome == next.outcome && r.repeat == next.repeat && r.rest == next.rest
    ensures Frame(p, [reply] + rest, r)
  {
    SuffixCons(reply, rest, r.rest);
  }

  /** `Continued` keeps the bookkeeping, and after a caught timeout the call
      made from its handler consumes nothing. */
  lemma {:induction false} ContinuedFrame(p1: Pooling, made: nat, body: Body, rest: seq<Reply>, sub: PollRun)
    requires Frame(p1, rest, sub)
    requires p1.limit != -1 ==> p1.currentRepeat < p1.limit
    ensures Frame(p1, rest, Continued(p1, made, body, rest, sub))
    ensures sub.outcome.PollTimedOut? ==> Continued(p1, made, body, rest, sub).rest == sub.rest
    decreases |rest| + 1, 0
  {
    if sub.outcome.PollTimedOut? {
      var p2, m := p1.(currentRepeat := sub.repeat), made + (|rest| - |sub.rest|);
      var again := Results(p2, m, sub.rest);
      ResultsFrame(p2, m, sub.rest);
      assert Max0(p2.limit - 1 - p2.currentRepeat) == 0;
      assert again.rest == sub.rest;
      var c := Continued(p1, made, body, rest, sub);
      assert c.outcome == again.outcome && c.repeat == again.repeat && c.rest == sub.rest;
    }
  }

  /** A suffix of `xs` is a suffix of `[x] + xs`. */
  lemma SuffixCons<T>(x: T, xs: seq<T>, ys: seq<T>)
    requires |ys| <= |xs| && ys == xs[|xs| - |ys|..]
    ensures ys == ([x] + xs)[|[x] + xs| - |ys|..]
  {
    assert ([x] + xs)[|[x] + xs| - |ys|..] == xs[|xs| - |ys|..];
  }

  /** The replies `results()` consumed. */
  function Consumed(replies: seq<Reply>, r: PollRun): seq<Reply>
    requires |r.rest| <= |replies|
  {
    replies[..|replies| - |r.rest|]
  }

  /** Every sleep in `delays` lasts `interval`. */
  predicate SleepsOf(delays: seq<int>, interval: int)
  {
    forall i :: 0 <= i < |delays| ==> delays[i] == interval
  }

  /** Every sleep the poller takes lasts `interval`. */
  lemma {:induction false} ResultsSleepsInterval(p: Pooling, made: nat, replies: seq<Reply>)
    ensures SleepsOf(Results(p, made, replies).delays, p.interval)
    decreases |replies|, 2
  {
    if !Cancelled(p, made) && !(p.limit != -1 && p.currentRepeat + 1 >= p.limit) && replies != [] {
      AttemptSleepsInterval(p, made, replies[0], replies[1..]);
    }
  }

  lemma {:induction false} AttemptSleepsInterval(p: Pooling, made: nat, reply: Reply, rest: seq<Reply>)
    requires !(p.limit != -1 && p.currentRepeat + 1 >= p.limit)
    ensures SleepsOf(Attempt(p, made, reply, rest).delays, p.interval)
    decreases |rest| + 1, 1
  {
    var p1 := p.(currentRepeat := p.currentRepeat + 1);
    ResultsSleepsInterval(p1, made + 1, rest);
    if !RaisesInTry(reply) && !IsFinalStatus(reply.body["status"]) {
      ResultsFrame(p1, made + 1, rest);
      ContinuedSleepsInterval(p1, made + 1, reply.body, rest, Results(p1, made + 1, rest));
    }
  }

  lemma {:induction false} ContinuedSleepsInterval(p1: Pooling, made: nat, body: Body, rest: seq<Reply>, sub: PollRun)
    requires Frame(p1, rest, sub)
    requires p1.limit != -1 ==> p1.currentRepeat < p1.limit
    requires SleepsOf(sub.delays, p1.interval)
    ensures SleepsOf(Continued(p1, made, body, rest, sub).delays, p1.interval)
    decreases |rest| + 1, 0
  {
    if sub.outcome.PollTimedOut? {
      ResultsSleepsInterval(p1.(currentRepeat := sub.repeat), made + (|rest| - |sub.rest|), sub.rest);
    }
  }

  /** Every 200 reply the poller consumes is passed to `on_response_fetched`,
      in order, and nothing else is. */
  lemma {:induction false} ResultsObservesEvery200(p: Pooling, made: nat, replies: seq<Reply>)
    ensures var r := Results(p, made, replies);
      r.observed == Ok200Bodies(Consumed(replies, r))
    decreases |replies|, 3
  {
    if !Cancelled(p, made) && !(p.limit != -1 && p.currentRepeat + 1 >= p.limit) && replies != [] {
      assert replies == [replies[0]] + replies[1..];
      AttemptObservesEvery200(p, made, replies[0], replies[1..]);
    }
  }

  lemma {:induction false} AttemptObservesEvery200(p: Pooling, made: nat, reply: Reply, rest: seq<Reply>)
    requires !(p.limit != -1 && p.currentRepeat + 1 >= p.limit)
    ensures var r := Attempt(p, made, reply, rest);
      r.observed == Ok200Bodies(Consumed([reply] + rest, r))
    decreases |rest| + 1, 2
  {
    if RaisesInTry(reply) {
      RaisingObservesEvery200(p, made, reply, rest);
    } else if IsFinalStatus(reply.body["status"]) {
      var r := Attempt(p, made, reply, rest);
      assert r.rest == rest && r.observed == [reply.body];
      ConsumedCons(reply, rest, |rest|);
      assert Consumed([reply] + rest, r) == [reply] + rest[..0];
      assert rest[..0] == [];
      assert Ok200Bodies([reply]) == [reply.body];
    } else {
      AcceptedObservesEvery200(p, made, reply, rest);
    }
  }

  /** A reply that raised: its body is observed if it was a 200, then the retry's. */
  lemma {:induction false} RaisingObservesEvery200(p: Pooling, made: nat, reply: Reply, rest: seq<Reply>)
    requires !(p.limit != -1 && p.currentRepeat + 1 >= p.limit)
    requires RaisesInTry(reply)
    ensures var r := Attempt(p, made, reply, rest);
      r.observed == Ok200Bodies(Consumed([reply] + rest, r))
    decreases |rest| + 1, 1
  {
    var r := Attempt(p, made, reply, rest);
    var p1 := p.(currentRepeat := p.currentRepeat + 1);
    var sub := Results(p1, made + 1, rest);
    ResultsObservesEvery200(p1, made + 1, rest);
    assert r.rest == sub.rest && r.observed == Ok200Bodies([reply]) + sub.observed;
    ConsumedCons(reply, rest, |sub.rest|);
    assert Consumed([reply] + rest, r) == [reply] + Consumed(rest, sub);
    Ok200BodiesAppend([reply], Consumed(rest, sub));
  }

  /** A non-terminal 200 reply: its body is observed, then the nested calls'. */
  lemma {:induction false} AcceptedObservesEvery200(p: Pooling, made: nat, reply: Reply, rest: seq<Reply>)
    requires !(p.limit != -1 && p.currentRepeat + 1 >= p.limit)
    requires NonTerminalAccepted(reply)
    ensures var r := Attempt(p, made, reply, rest);
      r.observed == Ok200Bodies(Consumed([reply] + rest, r))
    decreases |rest| + 1, 1
  {
    var r := Attempt(p, made, reply, rest);
    var p1 := p.(currentRepeat := p.currentRepeat + 1);
    var sub := Results(p1, made + 1, rest);
    ResultsObservesEvery200(p1, made + 1, rest);
    ResultsFrame(p1, made + 1, rest);
    ContinuedObservesEvery200(p1, made + 1, reply.body, rest, sub);
    var c := Continued(p1, made + 1, reply.body, rest, sub);
    assert r == c;
    ConsumedCons(reply, rest, |c.rest|);
    assert Consumed([reply] + rest, r) == [reply] + Consumed(rest, c);
    Ok200BodiesAppend([reply], Consumed(rest, c));
    assert Ok200Bodies([reply]) == [reply.body];
  }

  /** Consuming one more element in front of a prefix. */
  lemma ConsumedCons<T>(x: T, xs: seq<T>, k: nat)
    requires k <= |xs|
    ensures ([x] + xs)[..|[x] + xs| - k] == [x] + xs[..|xs| - k]
  {
    assert ([x] + xs)[..|[x] + xs| - k] == [x] + xs[..|xs| - k];
  }

  lemma {:induction false} ContinuedObservesEvery200(p1: Pooling, made: nat, body: Body, rest: seq<Reply>, sub: PollRun)
    requires Frame(p1, rest, sub)
    requires p1.limit != -1 ==> p1.currentRepeat < p1.limit
    requires sub.observed == Ok200Bodies(Consumed(rest, sub))
    ensures var c := Continued(p1, made, body, rest, sub);
      c.observed == [body] + Ok200Bodies(Consumed(rest, c))
    decreases |rest| + 1, 0
  {
    var c := Continued(p1, made, body, rest, sub);
    if sub.outcome.PollTimedOut? {
      var p2 := p1.(currentRepeat := sub.repeat);
      var again := Results(p2, made + (|rest| - |sub.rest|), sub.rest);
      ResultsObservesEvery200(p2, made + (|rest| - |sub.rest|), sub.rest);
      assert |Consumed(sub.rest, again)| == 0;
      assert again.observed == [];
      assert c.rest == sub.rest;
    }
  }

  /** Only a terminal body is ever returned, and unless it is the synthetic
      cancellation reply it is the last body the callback was given. */
  predicate ReturnsTerminal(r: PollRun)
  {
    && (r.outcome.PollReturned? ==> IsTerminal(r.outcome.body))
    && (r.outcome.PollReturned? && r.outcome.body != CancelledBody ==>
          |r.observed| > 0 && r.observed[|r.observed| - 1] == r.outcome.body)
    && (r.outcome.PollOracleExhausted? ==> r.rest == [])
  }

  lemma {:induction false} ResultsReturnsTerminal(p: Pooling, made: nat, replies: seq<Reply>)
    ensures ReturnsTerminal(Results(p, made, replies))
    decreases |replies|, 2
  {
    if !Cancelled(p, made) && !(p.limit != -1 && p.currentRepeat + 1 >= p.limit) && replies != [] {
      AttemptReturnsTerminal(p, made, replies[0], replies[1..]);
    }
  }

  lemma {:induction false} AttemptReturnsTerminal(p: Pooling, made: nat, reply: Reply, rest: seq<Reply>)
    requires !(p.limit != -1 && p.currentRepeat + 1 >= p.limit)
    ensures ReturnsTerminal(Attempt(p, made, reply, rest))
    decreases |rest| + 1, 1
  {
    var p1 := p.(currentRepeat := p.currentRepeat + 1);
    var next := Results(p1, made + 1, rest);
    var r := Attempt(p, made, reply, rest);
    ResultsReturnsTerminal(p1, made + 1, rest);
    if RaisesInTry(reply) {
      assert r.outcome == next.outcome && r.rest == next.rest;
      assert r.observed == Ok200Bodies([reply]) + next.observed;
      if next.outcome.PollReturned? && next.outcome.body != CancelledBody {
        LastOfAppend(Ok200Bodies([reply]), next.observed);
      }
    } else if IsFinalStatus(reply.body["status"]) {
      assert r.outcome == PollReturned(reply.body) && r.observed == [reply.body];
    } else {
      assert r == Continued(p1, made + 1, reply.body, rest, next);
      ResultsFrame(p1, made + 1, rest);
      ContinuedReturnsTerminal(p1, made + 1, reply.body, rest, next);
    }
  }

  /** Appending in front keeps a non-empty sequence's last element. */
  lemma LastOfAppend<T>(a: seq<T>, b: seq<T>)
    requires |b| > 0
    ensures (a + b)[|a + b| - 1] == b[|b| - 1]
  {
  }

  lemma {:induction false} ContinuedReturnsTerminal(p1: Pooling, made: nat, body: Body, rest: seq<Reply>, sub: PollRun)
    requires Frame(p1, rest, sub)
    requires p1.limit != -1 ==> p1.currentRepeat < p1.limit
    requires ReturnsTerminal(sub)
    ensures ReturnsTerminal(Continued(p1, made, body, rest, sub))
    decreases |rest| + 1, 0
  {
    if sub.outcome.PollTimedOut? {
      var p2 := p1.(currentRepeat := sub.repeat);
      var again := Results(p2, made + (|rest| - |sub.rest|), sub.rest);
      ResultsReturnsTerminal(p2, made + (|rest| - |sub.rest|), sub.rest);
      ResultsObservesEvery200(p2, made + (|rest| - |sub.rest|), sub.rest);
      assert |Consumed(sub.rest, again)| == 0;
      assert again.observed == [];
    }
  }

  /** A 200 reply with a `status` key that is not terminal ("Pending", "Running"...). */
  predicate NonTerminalAccepted(reply: Reply)
  {
    !RaisesInTry(reply) && !IsFinalStatus(reply.body["status"])
  }

  /** A job that never finishes: every reply is a non-terminal 200. */
  predicate AllPending(replies: seq<Reply>)
  {
    replies != [] ==> NonTerminalAccepted(replies[0]) && AllPending(replies[1..])
  }

  /** The recursive reading agrees with the reply-by-reply one. */
  lemma {:induction false} AllPendingEach(replies: seq<Reply>)
    ensures AllPending(replies) <==> forall i :: 0 <= i < |replies| ==> NonTerminalAccepted(replies[i])
  {
    if replies != [] {
      AllPendingEach(replies[1..]);
      assert forall i :: 0 < i < |replies| ==> replies[i] == replies[1..][i - 1];
    }
  }

  /** Against a job that never finishes, the timeout surfaces after
      `limit - 1 - current_repeat` requests, but every frame that recursed from
      inside its `try` catches the timeout, sleeps once more and bumps the
      counter again: the poller waits twice as long as it polls, and the
      counter overshoots the limit by the number of requests. */
  lemma {:induction false} TimeoutDoublesWait(p: Pooling, made: nat, replies: seq<Reply>)
    requires p.cancelAfter.None?
    requires p.limit > 0 && 0 <= p.currentRepeat < p.limit
    requires |replies| >= p.limit - 1 - p.currentRepeat
    requires AllPending(replies)
    ensures var r := Results(p, made, replies);
      var k := p.limit - 1 - p.currentRepeat;
      && r.outcome == PollTimedOut
      && |Consumed(replies, r)| == k
      && |r.delays| == 2 * k
      && r.repeat == p.limit + k
    decreases p.limit - p.currentRepeat
  {
    var k := p.limit - 1 - p.currentRepeat;
    if k > 0 {
      var reply, rest := replies[0], replies[1..];
      var p1 := p.(currentRepeat := p.currentRepeat + 1);
      var sub := Results(p1, made + 1, rest);
      TimeoutDoublesWait(p1, made + 1, rest);
      AttemptAccepted(p, made, reply, rest);
      ResultsFrame(p1, made + 1, rest);
      ContinuedAfterTimeout(p1, made + 1, reply.body, rest, sub);
    }
  }

  /** A poller already at its limit raises the timeout without a request. */
  lemma AtLimitTimesOut(p: Pooling, made: nat, replies: seq<Reply>)
    requires p.cancelAfter.None? && p.limit != -1 && p.currentRepeat + 1 >= p.limit
    ensures Results(p, made, replies) == PollRun(PollTimedOut, p.currentRepeat + 1, replies, [], [])
  {
    assert !Cancelled(p, made);
  }

  /** A non-terminal 200 reply leads into `Continued` with the nested call's run. */
  lemma AttemptAccepted(p: Pooling, made: nat, reply: Reply, rest: seq<Reply>)
    requires !(p.limit != -1 && p.currentRepeat + 1 >= p.limit)
    requires NonTerminalAccepted(reply)
    ensures var p1 := p.(currentRepeat := p.currentRepeat + 1);
      Attempt(p, made, reply, rest) == Continued(p1, made + 1, reply.body, rest, Results(p1, made + 1, rest))
  {
  }

  /** A frame whose nested call timed out sleeps again and times out once more. */
  lemma ContinuedAfterTimeout(p1: Pooling, made: nat, body: Body, rest: seq<Reply>, sub: PollRun)
    requires Frame(p1, rest, sub)
    requires p1.limit != -1 ==> p1.currentRepeat < p1.limit
    requires p1.cancelAfter.None? && sub.outcome.PollTimedOut?
    ensures var c := Continued(p1, made, body, rest, sub);
      && c.outcome == PollTimedOut && c.repeat == sub.repeat + 1 && c.rest == sub.rest
      && c.delays == [p1.interval] + sub.delays + [p1.interval]
  {
    var p2, m := p1.(currentRepeat := sub.repeat), made + (|rest| - |sub.rest|);
    AtLimitTimesOut(p2, m, sub.rest);
    var again := Results(p2, m, sub.rest);
    var d := [p1.interval] + sub.delays + [p1.interval];
    assert Continued(p1, made, body, rest, sub).delays == d + again.delays;
    assert d + [] == d;
  }

  /** The evidently intended poller: identical, except that a timeout raised by
      a nested call propagates instead of being caught by the frame that made
      it, so each request is followed by exactly one sleep. */
  function ResultsIntended(p: Pooling, made: nat, replies: seq<Reply>): (r: PollRun)
    ensures |r.rest| <= |replies|
    ensures Cancelled(p, made) ==> r == PollRun(PollReturned(CancelledBody), p.currentRepeat, replies, [], [])
    decreases |replies|
  {
    if Cancelled(p, made) then PollRun(PollReturned(CancelledBody), p.currentRepeat, replies, [], [])
    else if p.limit != -1 && p.currentRepeat + 1 >= p.limit then
      PollRun(PollTimedOut, p.currentRepeat + 1, replies, [], [])
    else if replies == [] then PollRun(PollOracleExhausted, p.currentRepeat + 1, [], [], [])
    else
      var reply, rest := replies[0], replies[1..];
      var p1 := p.(currentRepeat := p.currentRepeat + 1);
      if !RaisesInTry(reply) && IsFinalStatus(reply.body["status"]) then
        PollRun(PollReturned(reply.body), p1.currentRepeat, rest, [reply.body], [])
      else
        var next := ResultsIntended(p1, made + 1, rest);
        PollRun(next.outcome, next.repeat, next.rest, Ok200Bodies([reply]) + next.observed, [p.interval] + next.delays)
  }

  /** The intended poller keeps the same bookkeeping. */
  lemma {:induction false} ResultsIntendedFrame(p: Pooling, made: nat, replies: seq<Reply>)
    ensures Frame(p, replies, ResultsIntended(p, made, replies))
    decreases |replies|
  {
    if !Cancelled(p, made) && !(p.limit != -1 && p.currentRepeat + 1 >= p.limit) && replies != [] {
      var reply, rest := replies[0], replies[1..];
      var p1 := p.(currentRepeat := p.currentRepeat + 1);
      var r := ResultsIntended(p, made, replies);
      assert replies == [reply] + rest;
      IntendedStepFields(p, made, replies);
      if RaisesInTry(reply) || !IsFinalStatus(reply.body["status"]) {
        ResultsIntendedFrame(p1, made + 1, rest);
        FrameStep(p, reply, rest, ResultsIntended(p1, made + 1, rest), r);
      } else {
        FrameStep(p, reply, rest, PollRun(PollReturned(reply.body), p1.currentRepeat, rest, [], []), r);
      }
    }
  }

  /** One frame of the intended poller: it ends with the first reply when
      that is final, and otherwise reports what the next frame reports. */
  lemma IntendedStepFields(p: Pooling, made: nat, replies: seq<Reply>)
    requires !Cancelled(p, made) && !(p.limit != -1 && p.currentRepeat + 1 >= p.limit) && replies != []
    ensures var p1 := p.(currentRepeat := p.currentRepeat + 1);
      var r := ResultsIntended(p, made, replies);
      if RaisesInTry(replies[0]) || !IsFinalStatus(replies[0].body["status"]) then
        var next := ResultsIntended(p1, made + 1, replies[1..]);
        r.outcome == next.outcome && r.repeat == next.repeat && r.rest == next.rest
      else
        r.outcome == PollReturned(replies[0].body) && r.repeat == p1.currentRepeat && r.rest == replies[1..]
  {
  }

  /** With the intended poller a job that never finishes times out after
      `limit - 1 - current_repeat` requests and as many sleeps, with the
      counter exactly at the limit. */
  lemma {:induction false} IntendedTimeoutSleepsOncePerRequest(p: Pooling, made: nat, replies: seq<Reply>)
    requires p.cancelAfter.None?
    requires p.limit > 0 && 0 <= p.currentRepeat < p.limit
    requires |replies| >= p.limit - 1 - p.currentRepeat
    requires AllPending(replies)
    ensures var r := ResultsIntended(p, made, replies);
      var k := p.limit - 1 - p.currentRepeat;
      && r.outcome == PollTimedOut
      && |Consumed(replies, r)| == k
      && |r.delays| == k
      && r.repeat == p.limit
    decreases p.limit - p.currentRepeat
  {
    var k := p.limit - 1 - p.currentRepeat;
    if k > 0 {
      var p1 := p.(currentRepeat := p.currentRepeat + 1);
      var next := ResultsIntended(p1, made + 1, replies[1..]);
      IntendedTimeoutSleepsOncePerRequest(p1, made + 1, replies[1..]);
      var r := ResultsIntended(p, made, replies);
      assert r.outcome == next.outcome && r.repeat == next.repeat && r.rest == next.rest;
      assert r.delays == [p.interval] + next.delays;
    }
  }

  /** A status stub answering "Pending" three times and then "Completed": the
      completed body is returned after four requests, the callback sees all
      four bodies in order, and the poller slept three intervals. */
  lemma PollCompletesOnFourthRequest()
    ensures var pending := map["status" := "Pending"];
      var done := map["status" := JOB_COMPLETED_STATUS];
      var replies := [Response(pending, 200), Response(pending, 200), Response(pending, 200), Response(done, 200)];
      var r := Results(NewPooling(None, None, None), 0, replies);
      && r.outcome == PollReturned(done)
      && r.rest == []
      && r.observed == [pending, pending, pending, done]
      && r.delays == [DEFAULT_INTERVAL, DEFAULT_INTERVAL, DEFAULT_INTERVAL]
  {
    var pending := map["status" := "Pending"];
    var done := map["status" := JOB_COMPLETED_STATUS];
    var a, b := Response(pending, 200), Response(done, 200);
    var p0 := NewPooling(None, None, None);
    assert !IsFinalStatus("Pending");
    assert p0.limit == DEFAULT_LIMIT && p0.interval == DEFAULT_INTERVAL && p0.cancelAfter.None?;
    assert !RaisesInTry(a) && !RaisesInTry(b) && IsFinalStatus(done["status"]);
    var r3 := Results(p0.(currentRepeat := 3), 3, [b]);
    assert [b][1..] == [];
    assert r3 == Attempt(p0.(currentRepeat := 3), 3, b, []);
    assert r3 == PollRun(PollReturned(done), 4, [], [done], []);
    var r2 := Results(p0.(currentRepeat := 2), 2, [a, b]);
    assert [a, b][1..] == [b];
    assert r2 == Attempt(p0.(currentRepeat := 2), 2, a, [b]);
    assert r2 == Continued(p0.(currentRepeat := 3), 3, pending, [b], r3);
    var r1 := Results(p0.(currentRepeat := 1), 1, [a, a, b]);
    assert [a, a, b][1..] == [a, b];
    assert r1 == Attempt(p0.(currentRepeat := 1), 1, a, [a, b]);
    assert r1 == Continued(p0.(currentRepeat := 2), 2, pending, [a, b], r2);
    assert [a, a, a, b][1..] == [a, a, b];
    assert Results(p0, 0, [a, a, a, b]) == Continued(p0.(currentRepeat := 1), 1, pending, [a, a, b], r1);
  }

  /** With `max_limit=5` and a job that never finishes, the timeout is raised
      on the fifth attempt after four requests; as written the poller has slept
      eight intervals by then, where the intended poller sleeps four. */
  lemma PollLimitFiveTimesOutOnFifthAttempt(replies: seq<Reply>)
    requires |replies| >= 4
    requires AllPending(replies)
    ensures var p := NewPooling(Some(5), None, None);
      var r := Results(p, 0, replies);
      var q := ResultsIntended(p, 0, replies);
      && r.outcome == PollTimedOut && |Consumed(replies, r)| == 4 && |r.delays| == 8
      && q.outcome == PollTimedOut && |Consumed(replies, q)| == 4 && |q.delays| == 4
  {
    TimeoutDoublesWait(NewPooling(Some(5), None, None), 0, replies);
    IntendedTimeoutSleepsOncePerRequest(NewPooling(Some(5), None, None), 0, replies);
  }

  // ---------------------------------------------------------------------
  // Part upload with exponential back-off (upload_file_part)
  // ---------------------------------------------------------------------

  /** What one PUT of a chunk does: the storage answers with an ETag, or fails. */
  datatype PutOutcome = PutSucceeded(etag: string) | PutFailed(reason: string)

  /** How the retry loop ends: it returns (a part, or nothing), re-raises the
      last failure, or runs through every PUT the environment supplied. */
  datatype UploadOutcome = UploadReturned(part: Option<PartResponse>) | UploadRaised(reason: string) | UploadOracleExhausted

  /** The loop's outcome, how many PUTs it made and the back-off sleeps in order. */
  datatype UploadRun = UploadRun(outcome: UploadOutcome, used: nat, delays: seq<int>)

  function Pow2(k: nat): (r: nat)
    ensures r >= 1
  {
    if k == 0 then 1 else 2 * Pow2(k - 1)
  }

  /** The sleeps `2**(lo+1), ..., 2**hi` taken after failures `lo+1 .. hi`. */
  function Backoff(lo: nat, hi: nat): (d: seq<int>)
    requires lo <= hi
    ensures |d| == hi - lo
    ensures forall i :: 0 <= i < |d| ==> d[i] == Pow2(lo + 1 + i)
    decreases hi - lo
  {
    if lo == hi then [] else [Pow2(lo + 1)] + Backoff(lo + 1, hi)
  }

  /** Number of failed PUTs in a run of attempts. */
  function Failures(attempts: seq<PutOutcome>): (n: nat)
    ensures n <= |attempts|
  {
    if attempts == [] then 0
    else (if attempts[0].PutFailed? then 1 else 0) + Failures(attempts[1..])
  }

  /** A run of PUTs that all failed counts every one of them. */
  lemma {:induction false} AllFailedCount(attempts: seq<PutOutcome>)
    requires forall i :: 0 <= i < |attempts| ==> attempts[i].PutFailed?
    ensures Failures(attempts) == |attempts|
  {
    if attempts != [] {
      AllFailedCount(attempts[1..]);
    }
  }

  /** A run of PUTs that all succeeded counts no failure. */
  lemma {:induction false} AllSucceededCount(attempts: seq<PutOutcome>)
    requires forall i :: 0 <= i < |attempts| ==> attempts[i].PutSucceeded?
    ensures Failures(attempts) == 0
  {
    if attempts != [] {
      AllSucceededCount(attempts[1..]);
    }
  }

  /** `attempts[..used]` unfolds to its head and the tail's prefix. */
  lemma {:induction false} PrefixHead(attempts: seq<PutOutcome>, used: nat)
    requires 0 < used <= |attempts|
    ensures Failures(attempts[..used]) == (if attempts[0].PutFailed? then 1 else 0) + Failures(attempts[1..][..used - 1])
  {
    assert attempts[..used][1..] == attempts[1..][..used - 1];
  }

  /** The loop as written, with `retries` failures counted so far.  A
      successful PUT neither leaves the loop nor counts, so the loop keeps
      re-sending the chunk; the part response is never returned, and the only
      way to return is a `max_retries` that is not positive. */
  function UploadLoop(maxRetries: int, retries: nat, attempts: seq<PutOutcome>): (r: UploadRun)
    requires retries == 0 || retries < maxRetries
    ensures r.used <= |attempts|
    ensures r.outcome.UploadReturned? <==> maxRetries <= retries
    ensures r.outcome.UploadReturned? ==> r.outcome.part.None? && r.used == 0 && r.delays == []
    decreases |attempts|
  {
    if retries >= maxRetries then UploadRun(UploadReturned(None), 0, [])
    else if attempts == [] then UploadRun(UploadOracleExhausted, 0, [])
    else match attempts[0]
      case PutSucceeded(_) =>
        var next := UploadLoop(maxRetries, retries, attempts[1..]);
        UploadRun(next.outcome, next.used + 1, next.delays)
      case PutFailed(reason) =>
        if retries + 1 < maxRetries then
          var next := UploadLoop(maxRetries, retries + 1, attempts[1..]);
          UploadRun(next.outcome, next.used + 1, [Pow2(retries + 1)] + next.delays)
        else
          UploadRun(UploadRaised(reason), 1, [])
  }

  /** As written, the loop re-raises a failure exactly when `max_retries`
      PUTs have failed, the last PUT made being that failure, after one
      back-off sleep per earlier failure. */
  lemma {:induction false} UploadLoopRaises(maxRetries: int, retries: nat, attempts: seq<PutOutcome>)
    requires retries == 0 || retries < maxRetries
    ensures var r := UploadLoop(maxRetries, retries, attempts);
      r.outcome.UploadRaised? ==>
        && 0 < r.used
        && attempts[r.used - 1] == PutFailed(r.outcome.reason)
        && Failures(attempts[..r.used]) == maxRetries - retries
        && r.delays == Backoff(retries, maxRetries - 1)
    decreases |attempts|
  {
    if retries < maxRetries && attempts != [] {
      var r := UploadLoop(maxRetries, retries, attempts);
      if attempts[0].PutSucceeded? || retries + 1 < maxRetries {
        var k := if attempts[0].PutSucceeded? then retries else retries + 1;
        var next := UploadLoop(maxRetries, k, attempts[1..]);
        UploadLoopRaises(maxRetries, k, attempts[1..]);
        assert r.outcome == next.outcome && r.used == next.used + 1;
        if r.outcome.UploadRaised? {
          PrefixHead(attempts, r.used);
          assert attempts[r.used - 1] == attempts[1..][next.used - 1];
        }
      } else {
        assert attempts[..1] == [attempts[0]];
      }
    }
  }

  /** As written, running out of PUTs means fewer than `max_retries`
      failures happened, every PUT was made, and each failure was followed
      by its back-off sleep. */
  lemma {:induction false} UploadLoopExhausts(maxRetries: int, retries: nat, attempts: seq<PutOutcome>)
    requires retries == 0 || retries < maxRetries
    ensures var r := UploadLoop(maxRetries, retries, attempts);
      r.outcome.UploadOracleExhausted? ==>
        && r.used == |attempts|
        && retries + Failures(attempts) < maxRetries
        && r.delays == Backoff(retries, retries + Failures(attempts))
    decreases |attempts|
  {
    if retries < maxRetries && attempts != [] {
      if attempts[0].PutSucceeded? || retries + 1 < maxRetries {
        var k := if attempts[0].PutSucceeded? then retries else retries + 1;
        UploadLoopExhausts(maxRetries, k, attempts[1..]);
      }
    }
  }

  /** `upload_file_part(url, chunk, n, max_retries)` as written. */
  function UploadFilePart(maxRetries: int, attempts: seq<PutOutcome>): (r: UploadRun)
    ensures r.outcome.UploadReturned? <==> maxRetries <= 0
    ensures !(r.outcome.UploadReturned? && r.outcome.part.Some?)
  {
    UploadLoop(maxRetries, 0, attempts)
  }

  /** The loop as evidently intended: the first successful PUT ends it and its
      part number and ETag are returned. */
  function UploadLoopIntended(partNumber: int, maxRetries: int, retries: nat, attempts: seq<PutOutcome>): (r: UploadRun)
    requires retries == 0 || retries < maxRetries
    ensures r.used <= |attempts|
    ensures r.outcome.UploadReturned? && r.outcome.part.None? <==> maxRetries <= retries
    ensures r.outcome.UploadReturned? && r.outcome.part.Some? ==>
      0 < r.used && r.outcome.part.value.partNumber == partNumber
    decreases |attempts|
  {
    if retries >= maxRetries then UploadRun(UploadReturned(None), 0, [])
    else if attempts == [] then UploadRun(UploadOracleExhausted, 0, [])
    else match attempts[0]
      case PutSucceeded(etag) => UploadRun(UploadReturned(Some(PartResponse(partNumber, etag))), 1, [])
      case PutFailed(reason) =>
        if retries + 1 < maxRetries then
          var next := UploadLoopIntended(partNumber, maxRetries, retries + 1, attempts[1..]);
          UploadRun(next.outcome, next.used + 1, [Pow2(retries + 1)] + next.delays)
        else
          UploadRun(UploadRaised(reason), 1, [])
  }

  /** The intended loop: every PUT before the last one made failed, and a
      returned part carries the ETag of the PUT that succeeded, after one
      back-off sleep per failure. */
  lemma {:induction false} UploadLoopIntendedReturns(partNumber: int, maxRetries: int, retries: nat, attempts: seq<PutOutcome>)
    requires retries == 0 || retries < maxRetries
    ensures var r := UploadLoopIntended(partNumber, maxRetries, retries, attempts);
      && (forall i :: 0 <= i < r.used - 1 ==> attempts[i].PutFailed?)
      && (r.outcome.UploadReturned? && r.outcome.part.Some? ==>
            && attempts[r.used - 1] == PutSucceeded(r.outcome.part.value.etag)
            && r.delays == Backoff(retries, retries + r.used - 1))
    decreases |attempts|
  {
    if retries < maxRetries && attempts != [] && attempts[0].PutFailed? && retries + 1 < maxRetries {
      var r := UploadLoopIntended(partNumber, maxRetries, retries, attempts);
      var next := UploadLoopIntended(partNumber, maxRetries, retries + 1, attempts[1..]);
      UploadLoopIntendedReturns(partNumber, maxRetries, retries + 1, attempts[1..]);
      assert r.outcome == next.outcome && r.used == next.used + 1 && r.delays == [Pow2(retries + 1)] + next.delays;
      forall i | 0 < i < r.used - 1 ensures attempts[i].PutFailed? {
        assert attempts[i] == attempts[1..][i - 1];
      }
    }
  }

  /** The intended loop re-raises the `max_retries`-th failure, after one
      back-off sleep per earlier failure. */
  lemma {:induction false} UploadLoopIntendedRaises(partNumber: int, maxRetries: int, retries: nat, attempts: seq<PutOutcome>)
    requires retries == 0 || retries < maxRetries
    ensures var r := UploadLoopIntended(partNumber, maxRetries, retries, attempts);
      r.outcome.UploadRaised? ==>
        && r.used == maxRetries - retries
        && attempts[r.used - 1] == PutFailed(r.outcome.reason)
        && r.delays == Backoff(retries, maxRetries - 1)
    decreases |attempts|
  {
    if retries < maxRetries && attempts != [] && attempts[0].PutFailed? && retries + 1 < maxRetries {
      UploadLoopIntendedRaises(partNumber, maxRetries, retries + 1, attempts[1..]);
    }
  }

  /** The intended loop runs out of PUTs only when every PUT failed and
      fewer than `max_retries` were made, each followed by its sleep. */
  lemma {:induction false} UploadLoopIntendedExhausts(partNumber: int, maxRetries: int, retries: nat, attempts: seq<PutOutcome>)
    requires retries == 0 || retries < maxRetries
    ensures var r := UploadLoopIntended(partNumber, maxRetries, retries, attempts);
      r.outcome.UploadOracleExhausted? ==>
        && r.used == |attempts|
        && retries + |attempts| < maxRetries
        && (forall i :: 0 <= i < |attempts| ==> attempts[i].PutFailed?)
        && r.delays == Backoff(retries, retries + |attempts|)
    decreases |attempts|
  {
    if retries < maxRetries && attempts != [] && attempts[0].PutFailed? && retries + 1 < maxRetries {
      UploadLoopIntendedExhausts(partNumber, maxRetries, retries + 1, attempts[1..]);
      assert forall i :: 0 < i < |attempts| ==> attempts[i] == attempts[1..][i - 1];
    }
  }

  function Sum(xs: seq<int>): int
  {
    if xs == [] then 0 else xs[0] + Sum(xs[1..])
  }

  /** With the default of five retries, four failed PUTs followed by a
      successful one: the intended loop returns that part after five PUTs,
      having slept 2, 4, 8 and 16 seconds (30 in total). */
  lemma IntendedUploadRecoversOnFifthPut(partNumber: int, etag: string, reasons: seq<string>)
    requires |reasons| == 4
    ensures var attempts := [PutFailed(reasons[0]), PutFailed(reasons[1]), PutFailed(reasons[2]), PutFailed(reasons[3]), PutSucceeded(etag)];
      var r := UploadLoopIntended(partNumber, 5, 0, attempts);
      && r.outcome == UploadReturned(Some(PartResponse(partNumber, etag)))
      && r.used == 5
      && r.delays == [2, 4, 8, 16]
      && Sum(r.delays) == 30
  {
    var attempts := [PutFailed(reasons[0]), PutFailed(reasons[1]), PutFailed(reasons[2]), PutFailed(reasons[3]), PutSucceeded(etag)];
    var r := UploadLoopIntended(partNumber, 5, 0, attempts);
    UploadLoopIntendedReturns(partNumber, 5, 0, attempts);
    UploadLoopIntendedRaises(partNumber, 5, 0, attempts);
    UploadLoopIntendedExhausts(partNumber, 5, 0, attempts);
    assert attempts[4].PutSucceeded?;
    assert r.outcome.UploadReturned? && r.outcome.part.Some?;
    assert r.used == 5;
    assert Pow2(1) == 2 && Pow2(2) == 4 && Pow2(3) == 8 && Pow2(4) == 16;
    assert r.delays == [2, 4, 8, 16];
    assert [2, 4, 8, 16][1..] == [4, 8, 16] && [4, 8, 16][1..] == [8, 16] && [8, 16][1..] == [16];
  }

  /** Five failed PUTs in a row: both loops re-raise the fifth failure after
      five PUTs and four sleeps of 2, 4, 8 and 16 seconds. */
  lemma UploadGivesUpAfterFiveFailures(reasons: seq<string>)
    requires |reasons| == 5
    ensures var attempts := seq(5, i requires 0 <= i < 5 => PutFailed(reasons[i]));
      var r := UploadFilePart(5, attempts);
      var q := UploadLoopIntended(0, 5, 0, attempts);
      && r == q
      && r.outcome == UploadRaised(reasons[4])
      && r.used == 5
      && r.delays == [2, 4, 8, 16]
  {
    var attempts := seq(5, i requires 0 <= i < 5 => PutFailed(reasons[i]));
    assert attempts[..5] == attempts;
    var r := UploadFilePart(5, attempts);
    var q := UploadLoopIntended(0, 5, 0, attempts);
    UploadLoopRaises(5, 0, attempts);
    UploadLoopExhausts(5, 0, attempts);
    UploadLoopIntendedReturns(0, 5, 0, attempts);
    UploadLoopIntendedRaises(0, 5, 0, attempts);
    UploadLoopIntendedExhausts(0, 5, 0, attempts);
    assert Pow2(1) == 2 && Pow2(2) == 4 && Pow2(3) == 8 && Pow2(4) == 16;
    assert q.outcome.UploadRaised?;
    AllFailedCount(attempts);
    assert r.outcome.UploadRaised?;
    assert r.delays == [2, 4, 8, 16];
  }

  /** As written, a successful PUT does not end the loop: three successes in
      a row are all consumed and the loop is still waiting for a fourth, where
      the intended loop returns the first part. */
  lemma UploadAsWrittenResendsAfterSuccess(etag: string)
    ensures var attempts := [PutSucceeded(etag), PutSucceeded(etag), PutSucceeded(etag)];
      && UploadFilePart(5, attempts) == UploadRun(UploadOracleExhausted, 3, [])
      && UploadLoopIntended(1, 5, 0, attempts) == UploadRun(UploadReturned(Some(PartResponse(1, etag))), 1, [])
  {
    var attempts := [PutSucceeded(etag), PutSucceeded(etag), PutSucceeded(etag)];
    UploadLoopRaises(5, 0, attempts);
    UploadLoopExhausts(5, 0, attempts);
    AllSucceededCount(attempts);
    AllSucceededCount(attempts[..UploadFilePart(5, attempts).used]);
  }

  // ---------------------------------------------------------------------
  // Facade calls and the status each accepts (CplusApiRequest)
  // ---------------------------------------------------------------------

  /** The single-request calls of the job client. */
  datatype Operation =
    | GetLayerDetail | CheckLayer | StartUploadLayer | FinishUploadLayer | AbortUploadLayer
    | SubmitScenarioDetail | ExecuteScenario | CancelScenario | FetchScenarioOutputList | FetchScenarioDetail

  /** The status code a call insists on, or `None` when it returns the body
      whatever the status. */
  function AcceptedStatus(op: Operation): Option<int>
  {
    match op
    case GetLayerDetail => None
    case CheckLayer => None
    case FinishUploadLayer => None
    case StartUploadLayer => Some(201)
    case AbortUploadLayer => Some(204)
    case SubmitScenarioDetail => Some(201)
    case ExecuteScenario => Some(201)
    case CancelScenario => Some(200)
    case FetchScenarioOutputList => Some(200)
    case FetchScenarioDetail => Some(200)
  }

  /** The errors a facade call raises. */
  datatype ApiError =
    | RequestNetworkError(reason: string)    // raised by `_handle_response`
    | RequestRejected(detail: string)        // CplusApiRequestError(result.get("detail", ""))
    | MissingUuid                            // KeyError on result["uuid"]
    | AuthFailed(cause: AuthError)           // raised while reading `api_token` for the headers

  /** What a successful call returns: the response body, `True`, or the new scenario's uuid. */
  datatype CallValue = BodyValue(body: Body) | Done | ScenarioUuid(uuid: string)

  /** The value a call returns once its status check has passed. */
  function Returned(op: Operation, body: Body): Option<CallValue>
  {
    match op
    case AbortUploadLayer => Some(Done)
    case ExecuteScenario => Some(Done)
    case CancelScenario => Some(Done)
    case SubmitScenarioDetail => if "uuid" in body then Some(ScenarioUuid(body["uuid"])) else None
    case _ => Some(BodyValue(body))
  }

  /** One facade call against the transport's reply. */
  function Call(op: Operation, reply: Reply): (r: Result<CallValue, ApiError>)
    ensures reply.NetworkError? ==> r == Err(RequestNetworkError(reply.reason))
    ensures reply.Response? && AcceptedStatus(op).Some? && reply.status != AcceptedStatus(op).value ==>
      r == Err(RequestRejected(Get(reply.body, "detail", "")))
    ensures r.Ok? <==>
      && reply.Response?
      && (AcceptedStatus(op).None? || reply.status == AcceptedStatus(op).value)
      && (op == SubmitScenarioDetail ==> "uuid" in reply.body)
    ensures r.Ok? && r.value.BodyValue? ==> r.value.body == reply.body
    ensures r.Ok? && op == SubmitScenarioDetail ==> r.value == ScenarioUuid(reply.body["uuid"])
  {
    match reply
    case NetworkError(reason) => Err(RequestNetworkError(reason))
    case Response(body, status) =>
      if AcceptedStatus(op).Some? && status != AcceptedStatus(op).value then
        Err(RequestRejected(Get(body, "detail", "")))
      else
        match Returned(op, body)
        case Some(v) => Ok(v)
        case None => Err(MissingUuid)
  }

  /** A facade call with its headers, the reply of the login it may need,
      the token cache afterwards and whether the call's own request was sent. */
  datatype CallStep = CallStep(result: Result<CallValue, ApiError>, cache: TokenCache, sent: bool)

  /** A facade call as the client makes it: building the default headers
      reads `api_token` first, which may log in; an error raised there ends
      the call before its request is sent.  Without a token the header
      carries "Bearer None" and the call is sent all the same. */
  function AuthorizedCall(op: Operation, cache: TokenCache, now: int, config: Option<AuthConfig>,
                          login: Reply, reply: Reply): (s: CallStep)
    ensures var t := ApiToken(cache, now, config, login);
      && s.cache == t.cache
      && (s.sent <==> !t.outcome.TokenFailed?)
      && (!s.sent ==> s.result == Err(AuthFailed(t.outcome.error)))
      && (s.sent ==> s.result == Call(op, reply))
  {
    var t := ApiToken(cache, now, config, login);
    match t.outcome
    case TokenFailed(e) => CallStep(Err(AuthFailed(e)), t.cache, false)
    case _ => CallStep(Call(op, reply), t.cache, true)
  }

  /** A call succeeds exactly when the token read does not raise and the
      call's own reply is accepted. */
  lemma AuthorizedCallSucceedsIff(op: Operation, cache: TokenCache, now: int, config: Option<AuthConfig>,
                                  login: Reply, reply: Reply)
    ensures AuthorizedCall(op, cache, now, config, login, reply).result.Ok? <==>
      && !ApiToken(cache, now, config, login).outcome.TokenFailed?
      && reply.Response?
      && (AcceptedStatus(op).None? || reply.status == AcceptedStatus(op).value)
      && (op == SubmitScenarioDetail ==> "uuid" in reply.body)
  {
  }

  /** While the cached token is valid a call needs no login: whatever the
      login reply and configuration, it is the plain call and the cache stays. */
  lemma ValidTokenCallNeedsNoLogin(op: Operation, cache: TokenCache, now: int, config: Option<AuthConfig>,
                                   login: Reply, reply: Reply)
    requires IsValidToken(cache, now)
    ensures AuthorizedCall(op, cache, now, config, login, reply) == CallStep(Call(op, reply), cache, true)
  {
  }

  /** An expired token with stored credentials and a refused login: the call
      raises the authentication error and its own request is never sent. */
  lemma RejectedLoginNeverSends(op: Operation, cache: TokenCache, now: int, config: Option<AuthConfig>,
                                body: Body, status: int, reply: Reply)
    requires !IsValidToken(cache, now) && HasCredentials(config) && status != 200
    ensures var s := AuthorizedCall(op, cache, now, config, Response(body, status), reply);
      && !s.sent && s.cache == cache
      && s.result == Err(AuthFailed(LoginRejected(status, Get(body, "description", "Unknwon Error!"))))
  {
  }

  /** A call that logged in leaves a token that the next call, within 23
      hours, uses without logging in again. */
  lemma {:induction false} LoginServesLaterCall(op1: Operation, op2: Operation, cache: TokenCache, t: int, later: int,
                                                config: Option<AuthConfig>, login: Reply, relogin: Reply,
                                                reply1: Reply, reply2: Reply)
    requires !IsValidToken(cache, t) && t <= later < t + ONE_DAY - ONE_HOUR
    requires ApiToken(cache, t, config, login).outcome.TokenReturned?
    ensures var first := AuthorizedCall(op1, cache, t, config, login, reply1);
      && first.sent
      && AuthorizedCall(op2, first.cache, later, config, relogin, reply2) == CallStep(Call(op2, reply2), first.cache, true)
  {
    var step := ApiToken(cache, t, config, login);
    assert step.posted;
    assert step.cache == TokenCache(Some(login.body["access_token"]), t + ONE_DAY);
    assert IsValidToken(step.cache, later);
  }
}
