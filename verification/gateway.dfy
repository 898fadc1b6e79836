/** The ingress gateway (backend/app.py): configuration, the static route table,
    pre-dispatch validation of /stack/push, the retry-with-backoff loop and the
    shaping of the caller-facing reply.

    The network is replaced by a script: one `Attempt` per upstream call the
    loop may make, saying whether that call produced a response or raised.
    Sleeping is replaced by a trace of the delays the loop asks for, in
    integer time units. */
module Gateway {
  import opened Wrappers
  import opened Text
  import opened JsonValue

  // =====================================================================
  // Configuration
  // =====================================================================

  datatype EnvLookup = Exit(code: int) | Url(value: string)

  /** `_must_env`: a missing or empty variable ends the process with status 1;
      otherwise the value loses every trailing '/'. */
  function MustEnv(v: Option<string>): (r: EnvLookup)
    ensures r.Exit? <==> (v.None? || v.value == "")
    ensures r.Exit? ==> r.code == 1
    ensures r.Url? ==> |r.value| <= |v.value| && r.value == v.value[..|r.value|]
    ensures r.Url? ==> |r.value| == 0 || r.value[|r.value| - 1] != '/'
    ensures r.Url? ==> forall i :: |r.value| <= i < |v.value| ==> v.value[i] == '/'
  {
    if v.None? || v.value == "" then Exit(1) else Url(TrimEnd(v.value, Slash))
  }

  function Getenv(env: map<string, string>, name: string): Option<string>
  {
    if name in env then Some(env[name]) else None
  }

  /** The process configuration. `baseDelay` is UPSTREAM_RETRY_BASE_SLEEP in
      integer time units; the per-attempt timeout is not represented because
      the script says which attempts time out. */
  datatype Config = Config(stackUrl: string, listUrl: string, graphUrl: string, attempts: int, baseDelay: nat)

  datatype Startup = Exited(code: int) | Started(config: Config)

  predicate UsableUrl(env: map<string, string>, name: string)
  {
    name in env && env[name] != ""
  }

  predicate UrlsSet(env: map<string, string>)
  {
    UsableUrl(env, "STACK_URL") && UsableUrl(env, "LINKEDLIST_URL") && UsableUrl(env, "GRAPH_URL")
  }

  /** Start-up: the three upstream URLs are required; UPSTREAM_RETRY_ATTEMPTS
      defaults to "3" and goes through Python's int(). `floatsParse` says
      whether float() accepts UPSTREAM_TIMEOUT_SECONDS and
      UPSTREAM_RETRY_BASE_SLEEP (or their defaults "10" and "0.2"). None of
      these conversions' ValueErrors is caught: each ends the process with
      status 1. */
  function LoadConfig(env: map<string, string>, floatsParse: bool, baseDelay: nat): (r: Startup)
    ensures r.Exited? ==> r.code == 1
    ensures r.Started? ==> UrlsSet(env) && floatsParse
    ensures UrlsSet(env) && floatsParse && "UPSTREAM_RETRY_ATTEMPTS" !in env ==> r.Started? && r.config.attempts == 3
    ensures UrlsSet(env) && floatsParse && "UPSTREAM_RETRY_ATTEMPTS" in env
            ==> (r.Started? <==> ParsePyInt(env["UPSTREAM_RETRY_ATTEMPTS"]).Some?)
    ensures r.Started? && "UPSTREAM_RETRY_ATTEMPTS" in env ==> r.config.attempts == ParsePyInt(env["UPSTREAM_RETRY_ATTEMPTS"]).value
    ensures r.Started? ==> SlashesCut(r.config.stackUrl, env["STACK_URL"])
    ensures r.Started? ==> SlashesCut(r.config.listUrl, env["LINKEDLIST_URL"])
    ensures r.Started? ==> SlashesCut(r.config.graphUrl, env["GRAPH_URL"])
    ensures r.Started? ==> r.config.baseDelay == baseDelay
  {
    var stack := MustEnv(Getenv(env, "STACK_URL"));
    var list := MustEnv(Getenv(env, "LINKEDLIST_URL"));
    var graph := MustEnv(Getenv(env, "GRAPH_URL"));
    if stack.Exit? || list.Exit? || graph.Exit? || !floatsParse then Exited(1)
    else
      var attemptsText := if "UPSTREAM_RETRY_ATTEMPTS" in env then env["UPSTREAM_RETRY_ATTEMPTS"] else DefaultAttemptsText;
      DefaultAttemptsParse();
      match ParsePyInt(attemptsText)
      case Some(n) => Started(Config(stack.value, list.value, graph.value, n, baseDelay))
      case None => Exited(1)
  }

  /** Start-up reads back its environment: URLs without a trailing '/' are
      kept as they are, and the attempt count is the one written out. */
  lemma LoadConfigReadsBack(env: map<string, string>, attempts: int, baseDelay: nat)
    requires UrlsSet(env)
    requires NoTrailingSlash(env["STACK_URL"]) && NoTrailingSlash(env["LINKEDLIST_URL"]) && NoTrailingSlash(env["GRAPH_URL"])
    requires "UPSTREAM_RETRY_ATTEMPTS" in env && env["UPSTREAM_RETRY_ATTEMPTS"] == IntToString(attempts)
    ensures LoadConfig(env, true, baseDelay)
            == Started(Config(env["STACK_URL"], env["LINKEDLIST_URL"], env["GRAPH_URL"], attempts, baseDelay))
  {
    ParsePyIntOfIntToString(attempts);
    var r := LoadConfig(env, true, baseDelay);
    SlashesCutKeeps(r.config.stackUrl, env["STACK_URL"]);
    SlashesCutKeeps(r.config.listUrl, env["LINKEDLIST_URL"]);
    SlashesCutKeeps(r.config.graphUrl, env["GRAPH_URL"]);
  }

  /** Cutting trailing slashes from a value that has none leaves it whole. */
  lemma SlashesCutKeeps(u: string, v: string)
    requires SlashesCut(u, v) && NoTrailingSlash(v) && v != ""
    ensures u == v
  {
    assert v[|v| - 1] != '/';
  }

  const DefaultAttemptsText := "3"

  lemma DefaultAttemptsParse()
    ensures ParsePyInt(DefaultAttemptsText) == Some(3)
  {
    assert IntToString(3) == DefaultAttemptsText;
    ParsePyIntOfIntToString(3);
  }

  predicate NoTrailingSlash(s: string) { |s| == 0 || s[|s| - 1] != '/' }

  /** u is v with its trailing '/' characters cut, and nothing else. */
  predicate SlashesCut(u: string, v: string)
  {
    && |u| <= |v| && u == v[..|u|] && NoTrailingSlash(u)
    && forall i :: |u| <= i < |v| ==> v[i] == '/'
  }

  // =====================================================================
  // Python's int() on the values the gateway converts
  // =====================================================================

  /** Decimal digits with single underscores between digits, as int() accepts. */
  predicate UnderscoredDigits(d: string)
  {
    && |d| > 0 && IsDigit(d[0]) && IsDigit(d[|d| - 1])
    && (forall i :: 0 <= i < |d| ==> IsDigit(d[i]) || d[i] == '_')
    && (forall i :: 0 <= i < |d| - 1 && d[i] == '_' ==> d[i + 1] != '_')
  }

  function DropUnderscores(d: string): (r: string)
    ensures (forall i :: 0 <= i < |d| ==> IsDigit(d[i]) || d[i] == '_') ==> AllDigits(r)
    ensures AllDigits(d) ==> r == d
  {
    if |d| == 0 then ""
    else if d[0] == '_' then DropUnderscores(d[1..])
    else [d[0]] + DropUnderscores(d[1..])
  }

  /** int(s) for a str: surrounding whitespace, an optional sign, then digits.
      Only ASCII digits are recognised. */
  function ParsePyInt(s: string): Option<int>
  {
    var t := Trim(s, PyWhitespace);
    if |t| > 0 && (t[0] == '-' || t[0] == '+') then
      var d := t[1..];
      if UnderscoredDigits(d) then
        var n: int := DigitsValue(DropUnderscores(d));
        Some(if t[0] == '-' then -n else n)
      else None
    else if UnderscoredDigits(t) then Some(DigitsValue(DropUnderscores(t)))
    else None
  }

  /** int() reads back what str() writes for every integer. */
  lemma ParsePyIntOfIntToString(v: int)
    ensures ParsePyInt(IntToString(v)) == Some(v)
  {
    var s := IntToString(v);
    assert !PyIsSpace(s[0]) && !PyIsSpace(s[|s| - 1]);
    TrimUntouched(s, PyWhitespace);
    if v < 0 {
      assert s[1..] == NatToString(-v);
    }
  }

  /** How a call of int() ends: with a value, with the TypeError or
      ValueError the push handler catches, or with an OverflowError it does not. */
  datatype IntCall = IntValue(value: int) | TypeOrValueError | OverflowError

  /** int(x) on a decoded JSON value: ints and bools convert, strings parse,
      a finite float is truncated toward zero, an infinity overflows, NaN
      raises ValueError and anything else raises TypeError. */
  function PyInt(j: Json): (r: IntCall)
    ensures r.OverflowError? <==> j.JFloat? && j.f.Infinite?
    ensures j.JFloat? && j.f.Finite? ==> r == IntValue(j.f.whole)
    ensures (j.JNull? || j.JArr? || j.JObj?) ==> r == TypeOrValueError
    ensures j.JStr? ==> (r.IntValue? <==> ParsePyInt(j.s).Some?)
  {
    match j
    case JInt(i) => IntValue(i)
    case JBool(b) => IntValue(if b then 1 else 0)
    case JFloat(Finite(w, _)) => IntValue(w)
    case JFloat(Infinite(_)) => OverflowError
    case JFloat(NaN) => TypeOrValueError
    case JStr(s) => (match ParsePyInt(s) case Some(n) => IntValue(n) case None => TypeOrValueError)
    case _ => TypeOrValueError
  }

  // =====================================================================
  // Responses
  // =====================================================================

  /** What the caller receives: a JSON reply built by the gateway, or a page
      produced by the web framework itself (its 404 for an unknown route,
      its 500 for an exception the handler does not catch). */
  datatype Reply = JsonReply(status: int, body: Json) | FrameworkPage(status: int)

  /** `_json_error`: {"error": message} updated with the extra keys. */
  function JsonError(message: string, status: int, extra: map<string, Json>): (r: Reply)
    ensures r.JsonReply? && r.status == status && r.body.JObj?
    ensures r.body.fields.Keys == extra.Keys + {"error"}
    ensures "error" !in extra ==> r.body.fields["error"] == JStr(message)
    ensures forall k :: k in extra ==> r.body.fields[k] == extra[k]
  {
    JsonReply(status, JObj(map["error" := JStr(message)] + extra))
  }

  /** `_get_json_silent`: the decoded body, or {} when it is absent, invalid or falsy. */
  function GetJsonSilent(parsed: Option<Json>): (data: Json)
    ensures Truthy(data) || data == EmptyObject()
    ensures parsed.Some? && Truthy(parsed.value) ==> data == parsed.value
    ensures !(parsed.Some? && Truthy(parsed.value)) ==> data == EmptyObject()
  {
    if parsed.Some? && Truthy(parsed.value) then parsed.value else EmptyObject()
  }

  /** An upstream response: its status, its raw text, and what resp.json()
      decodes (None when it raises ValueError). */
  datatype Response = Response(status: int, text: string, json: Option<Json>)

  /** `_upstream_json_or_text`: the decoded body, or {"upstream_raw": text}. */
  function UpstreamJsonOrText(resp: Response): (r: (Json, bool))
    ensures r.1 <==> resp.json.Some?
    ensures resp.json.Some? ==> r.0 == resp.json.value
    ensures resp.json.None? ==> r.0.JObj? && r.0.fields.Keys == {"upstream_raw"} && r.0.fields["upstream_raw"] == JStr(resp.text)
  {
    match resp.json
    case Some(j) => (j, true)
    case None => (Field("upstream_raw", JStr(resp.text)), false)
  }

  /** `_proxy_upstream_error_if_any`: statuses from 400 up are handed back at once. */
  function ProxyUpstreamErrorIfAny(resp: Response): (r: Option<Reply>)
    ensures r.Some? <==> resp.status >= 400
  {
    if resp.status >= 400 then Some(JsonReply(resp.status, UpstreamJsonOrText(resp).0)) else None
  }

  // =====================================================================
  // Retry with exponential backoff
  // =====================================================================

  /** The two exception families the handlers tell apart. */
  datatype Failure = TimedOut(message: string) | Unavailable(message: string)

  /** What one upstream call did. */
  datatype Attempt = Answered(resp: Response) | Raised(error: Failure)

  /** How `_with_retry` ends: it returns a response, re-raises the last
      exception, or trips `assert last_exc is not None` when no call was made. */
  datatype RetryOutcome = Received(resp: Response) | Exhausted(last: Failure) | NoAttempt

  /** The outcome, the number of upstream calls made and the sleeps requested, in order. */
  datatype RetryRun = RetryRun(outcome: RetryOutcome, calls: nat, sleeps: seq<nat>)

  function Pow2(k: nat): (r: nat)
    ensures r >= 1
  {
    if k == 0 then 1 else 2 * Pow2(k - 1)
  }

  /** The sleep after failed attempt number `attempt` (numbered from 1). */
  function Backoff(base: nat, attempt: nat): nat
    requires attempt >= 1
  {
    base * Pow2(attempt - 1)
  }

  /** The loop body from attempt number `attempt` on; `script` holds the
      attempts still allowed and `last` the exception caught so far. */
  function RetryLoop(script: seq<Attempt>, base: nat, attempt: nat, last: Option<Failure>): (run: RetryRun)
    requires attempt >= 1
    ensures run.calls <= |script|
    ensures run.outcome.Received? <==> exists i :: 0 <= i < |script| && script[i].Answered?
    ensures run.outcome.Received? ==>
              run.calls >= 1 && script[run.calls - 1] == Answered(run.outcome.resp)
              && forall i :: 0 <= i < run.calls - 1 ==> script[i].Raised?
    ensures !run.outcome.Received? ==> run.calls == |script| && forall i :: 0 <= i < |script| ==> script[i].Raised?
    ensures run.outcome.Exhausted? ==>
              (|script| > 0 && script[|script| - 1] == Raised(run.outcome.last))
              || (|script| == 0 && last == Some(run.outcome.last))
    ensures run.outcome.NoAttempt? ==> |script| == 0 && last.None?
    ensures |run.sleeps| == if run.outcome.Received? then run.calls - 1 else run.calls
    ensures forall k :: 0 <= k < |run.sleeps| ==> run.sleeps[k] == Backoff(base, attempt + k)
    decreases |script|
  {
    if |script| == 0 then
      RetryRun(if last.None? then NoAttempt else Exhausted(last.value), 0, [])
    else
      match script[0]
      case Answered(resp) => RetryRun(Received(resp), 1, [])
      case Raised(e) =>
        var rest := RetryLoop(script[1..], base, attempt + 1, Some(e));
        RetryRun(rest.outcome, rest.calls + 1, [Backoff(base, attempt)] + rest.sleeps)
  }

  /** `_with_retry` with UPSTREAM_RETRY_ATTEMPTS = attempts: at most that many
      calls, the first response (whatever its status) returned at once, a
      sleep of base * 2^(k-1) after every failed attempt k including the
      last, and the last exception re-raised when every attempt fails. */
  function WithRetry(attempts: int, base: nat, script: seq<Attempt>): (run: RetryRun)
    requires attempts <= |script|
    ensures attempts <= 0 ==> run == RetryRun(NoAttempt, 0, [])
    ensures attempts > 0 ==> !run.outcome.NoAttempt? && run.calls <= attempts
    ensures run.outcome.Received? <==> exists i :: 0 <= i < attempts && script[i].Answered?
    ensures run.outcome.Received? ==> 1 <= run.calls <= attempts
    ensures run.outcome.Received? ==>
              script[run.calls - 1] == Answered(run.outcome.resp)
              && forall i :: 0 <= i < run.calls - 1 ==> script[i].Raised?
    ensures run.outcome.Exhausted? ==>
              run.calls == attempts && script[attempts - 1] == Raised(run.outcome.last)
              && forall i :: 0 <= i < attempts ==> script[i].Raised?
    ensures |run.sleeps| == if run.outcome.Received? then run.calls - 1 else run.calls
    ensures forall k :: 0 <= k < |run.sleeps| ==> run.sleeps[k] == Backoff(base, k + 1)
  {
    var n := if attempts <= 0 then 0 else attempts;
    var run := RetryLoop(script[..n], base, 1, None);
    assert forall i :: 0 <= i < n ==> script[..n][i] == script[i];
    run
  }

  function Sum(s: seq<nat>): nat
  {
    if |s| == 0 then 0 else Sum(s[..|s| - 1]) + s[|s| - 1]
  }

  lemma MulSplit(b: int, p: int)
    ensures b * (p - 1) + b * p == b * (2 * p - 1)
  {
  }

  /** A trace that doubles from `base` adds up to base * (2^n - 1). */
  lemma {:induction false} DoublingSum(s: seq<nat>, base: nat)
    requires forall k :: 0 <= k < |s| ==> s[k] == Backoff(base, k + 1)
    ensures Sum(s) == base * (Pow2(|s|) - 1)
    decreases |s|
  {
    if |s| > 0 {
      var n := |s| - 1;
      var init := s[..n];
      assert forall k :: 0 <= k < |init| ==> init[k] == s[k];
      DoublingSum(init, base);
      var p := Pow2(n);
      assert Sum(init) == base * (p - 1);
      assert Pow2(|s|) == 2 * p;
      assert s[n] == Backoff(base, n + 1) == base * p;
      assert Sum(s) == Sum(init) + s[n];
      MulSplit(base, p);
    }
  }

  /** When all N attempts fail the loop makes N calls, sleeps N times (after
      the final attempt too) for base * (2^N - 1) in total, and re-raises the
      exception of attempt N. */
  lemma AllFailuresSleepTotal(attempts: int, base: nat, script: seq<Attempt>)
    requires 0 < attempts <= |script|
    requires forall i :: 0 <= i < attempts ==> script[i].Raised?
    ensures var run := WithRetry(attempts, base, script);
            && run.outcome == Exhausted(script[attempts - 1].error)
            && run.calls == attempts
            && |run.sleeps| == attempts
            && Sum(run.sleeps) == base * (Pow2(attempts) - 1)
  {
    AllFailuresExhaust(attempts, base, script);
    RetrySleepTotal(attempts, base, script);
  }

  lemma RetrySleepTotal(attempts: int, base: nat, script: seq<Attempt>)
    requires attempts <= |script|
    ensures var sleeps := WithRetry(attempts, base, script).sleeps;
            Sum(sleeps) == base * (Pow2(|sleeps|) - 1)
  {
    DoublingSum(WithRetry(attempts, base, script).sleeps, base);
  }

  lemma AllFailuresExhaust(attempts: int, base: nat, script: seq<Attempt>)
    requires 0 < attempts <= |script|
    requires forall i :: 0 <= i < attempts ==> script[i].Raised?
    ensures var run := WithRetry(attempts, base, script);
            && run.outcome == Exhausted(script[attempts - 1].error)
            && run.calls == attempts
            && |run.sleeps| == attempts
  {
    var run := WithRetry(attempts, base, script);
    assert !run.outcome.Received?;
  }

  /** Failing on every attempt but the last and answering on the last: every
      allowed call is made and the response is returned. */
  lemma RetryThenSucceed(attempts: int, base: nat, script: seq<Attempt>)
    requires 0 < attempts <= |script|
    requires forall i :: 0 <= i < attempts - 1 ==> script[i].Raised?
    requires script[attempts - 1].Answered?
    ensures WithRetry(attempts, base, script).outcome == Received(script[attempts - 1].resp)
    ensures WithRetry(attempts, base, script).calls == attempts
    ensures |WithRetry(attempts, base, script).sleeps| == attempts - 1
  {
    var run := WithRetry(attempts, base, script);
    assert script[attempts - 1].Answered?;
  }

  // =====================================================================
  // Classification of the final outcome
  // =====================================================================

  datatype Service = StackService | ListService | GraphService

  function ServiceName(s: Service): string
  {
    match s
    case StackService => "Stack"
    case ListService => "LinkedList"
    case GraphService => "Graph"
  }

  /** The handler's tail: a response is shaped and passed through with its
      status, a final timeout becomes 504, any other transport failure 503
      with the exception text under "details", and the AssertionError of a
      loop that made no call escapes to the framework as a 500. */
  function Respond(svc: Service, outcome: RetryOutcome): (r: Reply)
    ensures outcome.Received? ==> r == JsonReply(outcome.resp.status, UpstreamJsonOrText(outcome.resp).0)
    ensures outcome.Exhausted? && outcome.last.TimedOut? ==>
              r.JsonReply? && r.status == 504 && r.body.JObj?
              && r.body.fields == map["error" := JStr(ServiceName(svc) + " service timeout")]
    ensures outcome.Exhausted? && outcome.last.Unavailable? ==>
              r.JsonReply? && r.status == 503 && r.body.JObj?
              && r.body.fields.Keys == {"error", "details"}
              && r.body.fields["error"] == JStr(ServiceName(svc) + " service unavailable")
              && r.body.fields["details"] == JStr(outcome.last.message)
    ensures outcome.NoAttempt? ==> r == FrameworkPage(500)
  {
    match outcome
    case Received(resp) =>
      (match ProxyUpstreamErrorIfAny(resp)
       case Some(err) => err
       case None => JsonReply(resp.status, UpstreamJsonOrText(resp).0))
    case Exhausted(TimedOut(_)) => JsonError(ServiceName(svc) + " service timeout", 504, map[])
    case Exhausted(Unavailable(msg)) =>
      JsonError(ServiceName(svc) + " service unavailable", 503, map["details" := JStr(msg)])
    case NoAttempt => FrameworkPage(500)
  }

  // =====================================================================
  // Routing
  // =====================================================================

  datatype Method = Get | Post

  /** What a proxying handler sends upstream: nothing, the silent JSON body,
      or the validated {"value": int} of /stack/push. */
  datatype BodyRule = NoBody | ForwardJson | PushInteger

  datatype Upstream = Upstream(service: Service, verb: Method, path: string, body: BodyRule)

  datatype Endpoint = Health | Proxy(upstream: Upstream)

  /** The thirteen routes the handlers register. */
  function Route(m: Method, path: string): Option<Endpoint>
  {
    match m
    case Get =>
      if path == "/health" then Some(Health)
      else if path == "/stack/data" then Some(Proxy(Upstream(StackService, Get, "/stack", NoBody)))
      else if path == "/list/data" then Some(Proxy(Upstream(ListService, Get, "/list", NoBody)))
      else if path == "/graph/data" then Some(Proxy(Upstream(GraphService, Get, "/data", NoBody)))
      else None
    case Post =>
      if path == "/stack/push" then Some(Proxy(Upstream(StackService, Post, "/push", PushInteger)))
      else if path == "/stack/pop" then Some(Proxy(Upstream(StackService, Post, "/pop", NoBody)))
      else if path == "/list/add" then Some(Proxy(Upstream(ListService, Post, "/add", ForwardJson)))
      else if path == "/list/delete" then Some(Proxy(Upstream(ListService, Post, "/delete", ForwardJson)))
      else if path == "/list/remove-head" then Some(Proxy(Upstream(ListService, Post, "/remove-head", NoBody)))
      else if path == "/graph/add-node" then Some(Proxy(Upstream(GraphService, Post, "/add-node", ForwardJson)))
      else if path == "/graph/add-edge" then Some(Proxy(Upstream(GraphService, Post, "/add-edge", ForwardJson)))
      else if path == "/graph/delete-node" then Some(Proxy(Upstream(GraphService, Post, "/delete-node", ForwardJson)))
      else if path == "/graph/delete-edge" then Some(Proxy(Upstream(GraphService, Post, "/delete-edge", ForwardJson)))
      else None
  }

  /** The documented interface: external method and path, then the upstream
      service and path it reaches (none for /health, which is answered locally). */
  datatype TableRow = TableRow(verb: Method, path: string, target: Option<(Service, string)>)

  const InterfaceTable: seq<TableRow> := [
    TableRow(Get, "/health", None),
    TableRow(Get, "/stack/data", Some((StackService, "/stack"))),
    TableRow(Post, "/stack/push", Some((StackService, "/push"))),
    TableRow(Post, "/stack/pop", Some((StackService, "/pop"))),
    TableRow(Get, "/list/data", Some((ListService, "/list"))),
    TableRow(Post, "/list/add", Some((ListService, "/add"))),
    TableRow(Post, "/list/delete", Some((ListService, "/delete"))),
    TableRow(Post, "/list/remove-head", Some((ListService, "/remove-head"))),
    TableRow(Get, "/graph/data", Some((GraphService, "/data"))),
    TableRow(Post, "/graph/add-node", Some((GraphService, "/add-node"))),
    TableRow(Post, "/graph/add-edge", Some((GraphService, "/add-edge"))),
    TableRow(Post, "/graph/delete-node", Some((GraphService, "/delete-node"))),
    TableRow(Post, "/graph/delete-edge", Some((GraphService, "/delete-edge")))
  ]

  /** What a route resolves to, in the table's terms. */
  function Resolved(e: Endpoint): Option<(Service, string)>
  {
    match e
    case Health => None
    case Proxy(u) => Some((u.service, u.path))
  }

  /** Routing is exactly the documented table: every row resolves as listed,
      every resolving pair is a row, and the upstream keeps the method. */
  lemma RouteIsInterfaceTable(m: Method, path: string)
    ensures Route(m, path).Some? <==> exists i :: 0 <= i < |InterfaceTable| && InterfaceTable[i].verb == m && InterfaceTable[i].path == path
    ensures forall i :: 0 <= i < |InterfaceTable| && InterfaceTable[i].verb == m && InterfaceTable[i].path == path ==>
              Route(m, path).Some? && Resolved(Route(m, path).value) == InterfaceTable[i].target
    ensures Route(m, path).Some? && Route(m, path).value.Proxy? ==> Route(m, path).value.upstream.verb == m
  {
    RowOfFinds(m, path);
    RouteFollowsRow(m, path);
    var k := RowOf(m, path);
    if k >= 0 {
      assert InterfaceTable[k].verb == m && InterfaceTable[k].path == path;
    }
  }

  /** The index of the table row for (m, path), or -1. */
  ghost function RowOf(m: Method, path: string): int
  {
    match m
    case Get =>
      if path == "/health" then 0
      else if path == "/stack/data" then 1
      else if path == "/list/data" then 4
      else if path == "/graph/data" then 8
      else -1
    case Post =>
      if path == "/stack/push" then 2
      else if path == "/stack/pop" then 3
      else if path == "/list/add" then 5
      else if path == "/list/delete" then 6
      else if path == "/list/remove-head" then 7
      else if path == "/graph/add-node" then 9
      else if path == "/graph/add-edge" then 10
      else if path == "/graph/delete-node" then 11
      else if path == "/graph/delete-edge" then 12
      else -1
  }

  lemma RowOfFinds(m: Method, path: string)
    ensures -1 <= RowOf(m, path) < |InterfaceTable|
    ensures RowOf(m, path) >= 0 ==>
              InterfaceTable[RowOf(m, path)].verb == m && InterfaceTable[RowOf(m, path)].path == path
    ensures forall i :: 0 <= i < |InterfaceTable| && InterfaceTable[i].verb == m && InterfaceTable[i].path == path ==>
              i == RowOf(m, path)
  {
  }

  lemma RouteFollowsRow(m: Method, path: string)
    ensures Route(m, path).Some? <==> RowOf(m, path) >= 0
    ensures 0 <= RowOf(m, path) < |InterfaceTable| ==>
              (Route(m, path).Some? && Resolved(Route(m, path).value) == InterfaceTable[RowOf(m, path)].target)
    ensures Route(m, path).Some? && Route(m, path).value.Proxy? ==> Route(m, path).value.upstream.verb == m
  {
  }

  /** The table has thirteen rows and no (method, path) pair twice. */
  lemma InterfaceTableIsAFunction()
    ensures |InterfaceTable| == 13
    ensures forall i, j :: 0 <= i < j < |InterfaceTable| ==>
              (InterfaceTable[i].verb, InterfaceTable[i].path) != (InterfaceTable[j].verb, InterfaceTable[j].path)
  {
  }

  function ExternalPrefix(s: Service): string
  {
    match s
    case StackService => "/stack/"
    case ListService => "/list/"
    case GraphService => "/graph/"
  }

  /** The first path segment picks the upstream service. */
  lemma RouteServiceFollowsPrefix(m: Method, path: string)
    requires Route(m, path).Some? && Route(m, path).value.Proxy?
    ensures IsPrefixOf(ExternalPrefix(Route(m, path).value.upstream.service), path)
  {
  }

  function BaseUrl(cfg: Config, s: Service): string
  {
    match s
    case StackService => cfg.stackUrl
    case ListService => cfg.listUrl
    case GraphService => cfg.graphUrl
  }

  // =====================================================================
  // Pre-dispatch validation of /stack/push
  // =====================================================================

  datatype PushCheck = MissingValue | NotInteger | PushValue(value: int) | Crash

  /** `"value" in data` then `int(data["value"])`. The membership test runs
      outside the handler's try: on a truthy bool or number it raises a
      TypeError the handler does not catch. Indexing a list or a string
      with "value" raises a TypeError that is caught as "not an integer".
      The OverflowError of int() on an infinity is not caught either. */
  function CheckPush(data: Json): PushCheck
  {
    match data
    case JObj(fields) =>
      if "value" !in fields then MissingValue
      else
        (match PyInt(fields["value"])
         case IntValue(v) => PushValue(v)
         case TypeOrValueError => NotInteger
         case OverflowError => Crash)
    case JArr(items) => if JStr("value") in items then NotInteger else MissingValue
    case JStr(s) => if Contains(s, "value") then NotInteger else MissingValue
    case _ => Crash
  }

  const MissingValueMessage := "Invalid request: provide JSON body with integer field 'value'"
  const NotIntegerMessage := "Invalid request: 'value' must be an integer"

  /** The body sent upstream, or the reply given without any upstream call. */
  datatype Outgoing = Send(body: Option<Json>) | Refuse(reply: Reply)

  function OutgoingBody(rule: BodyRule, parsed: Option<Json>): Outgoing
  {
    match rule
    case NoBody => Send(None)
    case ForwardJson => Send(Some(GetJsonSilent(parsed)))
    case PushInteger =>
      match CheckPush(GetJsonSilent(parsed))
      case MissingValue => Refuse(JsonError(MissingValueMessage, 400, map[]))
      case NotInteger => Refuse(JsonError(NotIntegerMessage, 400, map[]))
      case Crash => Refuse(FrameworkPage(500))
      case PushValue(v) => Send(Some(Field("value", JInt(v))))
  }

  // =====================================================================
  // Whole requests
  // =====================================================================

  /** A path some handler is registered for, with either method. */
  predicate KnownPath(path: string)
  {
    Route(Get, path).Some? || Route(Post, path).Some?
  }

  /** An inbound request: method, path and what get_json(silent=True) decodes. */
  datatype Request = Request(verb: Method, path: string, json: Option<Json>)

  datatype UpstreamCall = UpstreamCall(verb: Method, url: string, body: Option<Json>)

  /** The reply, the upstream request (repeated by every attempt) if any, and the retry run. */
  datatype Exchange = Exchange(reply: Reply, call: Option<UpstreamCall>, run: RetryRun)

  const NoRun := RetryRun(NoAttempt, 0, [])

  function Handle(cfg: Config, req: Request, script: seq<Attempt>): (x: Exchange)
    requires cfg.attempts <= |script|
    ensures x.call.None? ==> x.run.calls == 0
    ensures x.run.calls <= if cfg.attempts <= 0 then 0 else cfg.attempts
  {
    match Route(req.verb, req.path)
    case None => Exchange(FrameworkPage(if KnownPath(req.path) then 405 else 404), None, NoRun)
    case Some(Health) => Exchange(JsonReply(200, Field("status", JStr("ok"))), None, NoRun)
    case Some(Proxy(up)) =>
      match OutgoingBody(up.body, req.json)
      case Refuse(reply) => Exchange(reply, None, NoRun)
      case Send(body) =>
        var run := WithRetry(cfg.attempts, cfg.baseDelay, script);
        Exchange(Respond(up.service, run.outcome), Some(UpstreamCall(up.verb, BaseUrl(cfg, up.service) + up.path, body)), run)
  }

  /** /health answers 200 {"status": "ok"} with no upstream call, whatever the upstreams do. */
  lemma HealthIsLocal(cfg: Config, json: Option<Json>, script: seq<Attempt>)
    requires cfg.attempts <= |script|
    ensures Handle(cfg, Request(Get, "/health", json), script) == Exchange(JsonReply(200, Field("status", JStr("ok"))), None, NoRun)
  {
  }

  /** A pair outside the table gets no upstream call and a framework page:
      405 when the path is in the table under the other method, 404 when it
      is not in the table at all. */
  lemma RoutingMissIsLocal(cfg: Config, req: Request, script: seq<Attempt>)
    requires cfg.attempts <= |script|
    requires forall i :: 0 <= i < |InterfaceTable| ==> !(InterfaceTable[i].verb == req.verb && InterfaceTable[i].path == req.path)
    ensures Handle(cfg, req, script).call.None? && Handle(cfg, req, script).run == NoRun
    ensures (exists i :: 0 <= i < |InterfaceTable| && InterfaceTable[i].path == req.path)
            ==> Handle(cfg, req, script).reply == FrameworkPage(405)
    ensures (forall i :: 0 <= i < |InterfaceTable| ==> InterfaceTable[i].path != req.path)
            ==> Handle(cfg, req, script).reply == FrameworkPage(404)
  {
    RouteIsInterfaceTable(Get, req.path);
    RouteIsInterfaceTable(Post, req.path);
  }

  /** /stack/push without a usable integer never reaches the upstream: a
      missing value or one int() rejects gives 400 with an error field. */
  lemma PushValidationIsLocal(cfg: Config, json: Option<Json>, script: seq<Attempt>)
    requires cfg.attempts <= |script|
    requires CheckPush(GetJsonSilent(json)).MissingValue? || CheckPush(GetJsonSilent(json)).NotInteger?
    ensures Handle(cfg, Request(Post, "/stack/push", json), script).call.None?
    ensures Handle(cfg, Request(Post, "/stack/push", json), script).run.calls == 0
    ensures Handle(cfg, Request(Post, "/stack/push", json), script).reply.JsonReply?
    ensures Handle(cfg, Request(Post, "/stack/push", json), script).reply.status == 400
    ensures "error" in Handle(cfg, Request(Post, "/stack/push", json), script).reply.body.fields
  {
  }

  /** A value of plus or minus infinity passes the membership test, but int()
      raises an OverflowError the handler does not catch: the framework
      answers 500 and nothing is sent upstream. */
  lemma PushOfInfinityIsFrameworkError(cfg: Config, fields: map<string, Json>, negative: bool, script: seq<Attempt>)
    requires cfg.attempts <= |script|
    requires "value" in fields && fields["value"] == JFloat(Infinite(negative))
    ensures Handle(cfg, Request(Post, "/stack/push", Some(JObj(fields))), script) == Exchange(FrameworkPage(500), None, NoRun)
  {
    assert Truthy(JObj(fields)) by { assert "value" in fields.Keys; }
    PushRoute();
  }

  /** A finite float is truncated toward zero and the whole part is sent. */
  lemma PushOfFloatTruncates(cfg: Config, fields: map<string, Json>, whole: int, fractional: bool, script: seq<Attempt>)
    requires cfg.attempts <= |script|
    requires "value" in fields && fields["value"] == JFloat(Finite(whole, fractional))
    ensures Handle(cfg, Request(Post, "/stack/push", Some(JObj(fields))), script).call
            == Some(UpstreamCall(Post, cfg.stackUrl + "/push", Some(Field("value", JInt(whole)))))
  {
    PushForwardsExactValue(cfg, fields, script);
  }

  /** An absent, invalid or empty body, or one without "value", is a 400. */
  lemma PushWithoutValueIs400(cfg: Config, json: Option<Json>, script: seq<Attempt>)
    requires cfg.attempts <= |script|
    requires json.None? || json == Some(EmptyObject()) || (json.Some? && json.value.JObj? && "value" !in json.value.fields)
    ensures Handle(cfg, Request(Post, "/stack/push", json), script) == Exchange(JsonError(MissingValueMessage, 400, map[]), None, NoRun)
  {
    assert OutgoingBody(PushInteger, json) == Refuse(JsonError(MissingValueMessage, 400, map[])) by {
      assert CheckPush(GetJsonSilent(json)) == MissingValue;
    }
    PushRoute();
  }

  lemma PushRoute()
    ensures Route(Post, "/stack/push") == Some(Proxy(Upstream(StackService, Post, "/push", PushInteger)))
  {
  }

  /** A push whose value int() accepts sends exactly {"value": int(value)} to STACK_URL/push. */
  lemma PushForwardsExactValue(cfg: Config, fields: map<string, Json>, script: seq<Attempt>)
    requires cfg.attempts <= |script|
    requires "value" in fields && PyInt(fields["value"]).IntValue?
    ensures Handle(cfg, Request(Post, "/stack/push", Some(JObj(fields))), script).call
            == Some(UpstreamCall(Post, cfg.stackUrl + "/push", Some(Field("value", JInt(PyInt(fields["value"]).value)))))
  {
    assert Truthy(JObj(fields)) by { assert "value" in fields.Keys; }
  }

  /** Every proxy route passes the first upstream response through, with its
      status unchanged whether below 400 or not, and its decoded body or the
      {"upstream_raw": text} wrapper. */
  lemma PassThrough(cfg: Config, req: Request, script: seq<Attempt>, k: nat)
    requires cfg.attempts <= |script|
    requires Route(req.verb, req.path).Some? && Route(req.verb, req.path).value.Proxy?
    requires OutgoingBody(Route(req.verb, req.path).value.upstream.body, req.json).Send?
    requires k < cfg.attempts && script[k].Answered?
    requires forall i :: 0 <= i < k ==> script[i].Raised?
    ensures Handle(cfg, req, script).run.calls == k + 1
    ensures Handle(cfg, req, script).reply == JsonReply(script[k].resp.status, UpstreamJsonOrText(script[k].resp).0)
  {
    var run := WithRetry(cfg.attempts, cfg.baseDelay, script);
    assert run.outcome.Received?;
    if run.calls - 1 < k {
      assert false;
    } else if run.calls - 1 > k {
      assert false;
    }
  }

  /** When every attempt fails, the last exception alone decides the reply:
      504 naming the service if it was a timeout, otherwise 503 with details. */
  lemma FailureClassification(cfg: Config, req: Request, script: seq<Attempt>)
    requires 0 < cfg.attempts <= |script|
    requires Route(req.verb, req.path).Some? && Route(req.verb, req.path).value.Proxy?
    requires OutgoingBody(Route(req.verb, req.path).value.upstream.body, req.json).Send?
    requires forall i :: 0 <= i < cfg.attempts ==> script[i].Raised?
    ensures Handle(cfg, req, script).run.calls == cfg.attempts
    ensures script[cfg.attempts - 1].error.TimedOut? ==> Handle(cfg, req, script).reply.status == 504
    ensures script[cfg.attempts - 1].error.Unavailable? ==>
              Handle(cfg, req, script).reply.status == 503
              && Handle(cfg, req, script).reply.body.fields["details"] == JStr(script[cfg.attempts - 1].error.message)
  {
    var run := WithRetry(cfg.attempts, cfg.baseDelay, script);
    assert !run.outcome.Received?;
  }

  /** With UPSTREAM_RETRY_ATTEMPTS <= 0 a proxy route makes no call and the
      loop's assertion escapes as a framework 500. */
  lemma NoAttemptsIsAssertionFailure(cfg: Config, req: Request, script: seq<Attempt>)
    requires cfg.attempts <= 0 && cfg.attempts <= |script|
    requires Route(req.verb, req.path).Some? && Route(req.verb, req.path).value.Proxy?
    requires OutgoingBody(Route(req.verb, req.path).value.upstream.body, req.json).Send?
    ensures Handle(cfg, req, script).run.calls == 0
    ensures Handle(cfg, req, script).reply == FrameworkPage(500)
  {
  }
}
