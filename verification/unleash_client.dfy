/** The toggle-sync client (src/index.ts): construction, the conditional
    request, classification of the response, and reads of the snapshot. */
module UnleashClient {
  import opened Wrappers
  import opened Types
  import Seqs
  import Objects
  import ContextQuery

  /** The errors the client throws. */
  datatype ClientError =
    | UrlRequired
    | ClientKeyRequired
    | AppNameRequired
    | InvalidUrl            // the URL string does not parse
    | FetchFailed           // neither a success nor 304
    | TogglesNotDownloaded  // getToggles before any fresh fetch
    | TogglesNotLoaded      // isEnabled before any fresh fetch

  /** A client instance: immutable configuration, the validator of the last
      fresh response (`""` for none) and the toggle snapshot (absent until
      the first fresh response). */
  datatype Client = Client(
    url: Url,
    clientKey: string,
    context: Context,
    etag: string,
    toggles: Option<seq<Toggle>>)

  /** The response of the toggle endpoint, already parsed: the `ok` flag,
      the status, the `ETag` header (`None` when absent) and the body's
      `toggles`. */
  datatype Response = Response(
    ok: bool,
    status: int,
    etag: Option<string>,
    toggles: seq<Toggle>)

  /** The GET request the client sends. */
  datatype Request = Request(url: Url, headers: Headers)

  /** The outcome of a fetch and the client state after it. */
  datatype Fetched = Fetched(result: Result<FetchStatus, ClientError>, next: Client)

  // ---------------------------------------------------------------------
  // Construction

  /** JavaScript falsiness of an optional string. */
  predicate Falsy(s: Option<string>) {
    s.None? || s.value == ""
  }

  /** JavaScript falsiness of the `url` option; a URL object is truthy. */
  predicate UrlFalsy(u: Option<UrlArg>) {
    u.None? || (u.value.Text? && u.value.text == "")
  }

  /** The configured URL as a URL object; `parse` stands for `new URL(…)`. */
  function ParseUrl(u: UrlArg, parse: string -> Option<Url>): Option<Url> {
    match u
    case Text(s) => parse(s)
    case Parsed(url) => Some(url)
  }

  /** `{ appName, ...context }`, in insertion order: `appName` is inserted
      first, so it heads the insertion order even when the caller sets it. */
  function MergeContext(appName: string, context: Option<Context>): (r: Context)
    ensures |r| >= 1 && r[0].Key() == "appName"
  {
    Objects.Spread([Scalar("appName", Some(appName))], context.GetOr([]))
  }

  /** The constructor: `url`, `clientKey` and `appName` are checked in that
      order, then the URL is parsed. A new client has no validator and no
      snapshot. */
  function Create(cfg: Config, parse: string -> Option<Url>): (r: Result<Client, ClientError>)
    ensures UrlFalsy(cfg.url) ==> r == Failure(UrlRequired)
    ensures !UrlFalsy(cfg.url) && Falsy(cfg.clientKey) ==> r == Failure(ClientKeyRequired)
    ensures !UrlFalsy(cfg.url) && !Falsy(cfg.clientKey) && Falsy(cfg.appName) ==> r == Failure(AppNameRequired)
    ensures r.Success? <==>
      !UrlFalsy(cfg.url) && !Falsy(cfg.clientKey) && !Falsy(cfg.appName) && ParseUrl(cfg.url.value, parse).Some?
    ensures r.Success? ==>
      && r.value.url == ParseUrl(cfg.url.value, parse).value
      && r.value.clientKey == cfg.clientKey.value
      && r.value.context == MergeContext(cfg.appName.value, cfg.context)
      && r.value.etag == ""
      && r.value.toggles == None
  {
    if UrlFalsy(cfg.url) then Failure(UrlRequired)
    else if Falsy(cfg.clientKey) then Failure(ClientKeyRequired)
    else if Falsy(cfg.appName) then Failure(AppNameRequired)
    else
      match ParseUrl(cfg.url.value, parse)
      case None => Failure(InvalidUrl)
      case Some(url) =>
        Success(Client(url, cfg.clientKey.value, MergeContext(cfg.appName.value, cfg.context), "", None))
  }

  // ---------------------------------------------------------------------
  // Request

  /** The request headers: the credential, JSON content negotiation, and
      the stored validator as `If-None-Match` when there is one. */
  function GetHeaders(c: Client): (h: Headers)
    ensures h.authorization == c.clientKey
    ensures h.accept == "application/json" && h.contentType == "application/json"
    ensures h.ifNoneMatch.Some? <==> c.etag != ""
    ensures h.ifNoneMatch.Some? ==> h.ifNoneMatch.value == c.etag
  {
    Headers(c.clientKey, "application/json", "application/json",
            if c.etag != "" then Some(c.etag) else None)
  }

  /** The GET request of the next fetch; the serializer walks the context
      in its enumeration order. The request goes to the configured URL, its
      query keeps the URL's own parameters first, and the parameters after
      them are exactly those the stored context carries. */
  function BuildRequest(c: Client): (r: Request)
    ensures r.url.base == c.url.base
    ensures |c.url.query| <= |r.url.query| && r.url.query[..|c.url.query|] == c.url.query
    ensures forall p :: p in r.url.query[|c.url.query|..] <==>
      exists i :: 0 <= i < |c.context| && ContextQuery.FieldEmits(c.context[i], p)
  {
    var url := ContextQuery.WithContextAsQuery(c.url, Objects.OwnKeys(c.context));
    RequestParams(c);
    assert url.query[|c.url.query|..] == ContextQuery.ContextParams(Objects.OwnKeys(c.context));
    Request(url, GetHeaders(c))
  }

  /** The enumeration of the stored context yields the parameters its
      entries carry, whatever the order. */
  lemma RequestParams(c: Client)
    ensures forall p :: p in ContextQuery.ContextParams(Objects.OwnKeys(c.context)) <==>
      exists i :: 0 <= i < |c.context| && ContextQuery.FieldEmits(c.context[i], p)
  {
    Objects.OwnKeysOrder(c.context);
    forall p
      ensures p in ContextQuery.ContextParams(Objects.OwnKeys(c.context)) <==>
        exists i :: 0 <= i < |c.context| && ContextQuery.FieldEmits(c.context[i], p)
    {
      ContextQuery.ContextParamsPermutation(c.context, Objects.OwnKeys(c.context), p);
      ContextQuery.ContextParamsMembership(c.context, p);
    }
  }

  // ---------------------------------------------------------------------
  // Fetch

  /** `headers.get('ETag') || ''`. */
  function ValidatorOf(etag: Option<string>): string {
    etag.GetOr("")
  }

  /** A fresh response: successful and not 304. */
  predicate Fresh(resp: Response) {
    resp.ok && resp.status != 304
  }

  /** One fetch as a transition on the client state. A fresh response
      replaces the snapshot and the validator together; 304 (whatever `ok`
      says) and a failure leave the state as it was. */
  function FetchToggles(c: Client, resp: Response): (r: Fetched)
    ensures r.result == Success(Updated) <==> Fresh(resp)
    ensures r.result == Success(Unchanged) <==> resp.status == 304
    ensures r.result == Failure(FetchFailed) <==> !resp.ok && resp.status != 304
    ensures r.result != Success(Updated) ==> r.next == c
    ensures r.result == Success(Updated) ==>
      && r.next.toggles == Some(resp.toggles)
      && (r.next.etag == "" <==> resp.etag.None? || resp.etag == Some(""))
      && (resp.etag.Some? ==> r.next.etag == resp.etag.value)
    ensures r.next.url == c.url && r.next.clientKey == c.clientKey && r.next.context == c.context
  {
    if !resp.ok && resp.status != 304 then
      Fetched(Failure(FetchFailed), c)
    else if Fresh(resp) then
      Fetched(Success(Updated), c.(etag := ValidatorOf(resp.etag), toggles := Some(resp.toggles)))
    else
      Fetched(Success(Unchanged), c)
  }

  // ---------------------------------------------------------------------
  // Reads

  /** The snapshot, or an error before the first fresh response. An empty
      snapshot is a snapshot: an empty array is truthy. */
  function GetToggles(c: Client): (r: Result<seq<Toggle>, ClientError>)
    ensures r.Failure? <==> c.toggles.None?
    ensures r.Failure? ==> r.error == TogglesNotDownloaded
    ensures r.Success? ==> r.value == c.toggles.value
  {
    match c.toggles
    case None => Failure(TogglesNotDownloaded)
    case Some(ts) => Success(ts)
  }

  /** The `enabled` flag of the first toggle named exactly `name`, `false`
      when none is, or an error before the first fresh response. */
  function IsEnabled(c: Client, name: string): (r: Result<bool, ClientError>)
    ensures r.Failure? <==> c.toggles.None?
    ensures r.Failure? ==> r.error == TogglesNotLoaded
    ensures c.toggles.Some? ==>
      forall i :: 0 <= i < |c.toggles.value| && c.toggles.value[i].name == name
        && (forall j :: 0 <= j < i ==> c.toggles.value[j].name != name)
        ==> r == Success(c.toggles.value[i].enabled)
    ensures c.toggles.Some? && (forall i :: 0 <= i < |c.toggles.value| ==> c.toggles.value[i].name != name)
      ==> r == Success(false)
  {
    match c.toggles
    case None => Failure(TogglesNotLoaded)
    case Some(ts) =>
      match Seqs.FirstIndex(ts, (t: Toggle) => t.name == name)
      case None => Success(false)
      case Some(i) => Success(ts[i].enabled)
  }

  /** `isEnabled` as the source writes it: a loop that returns at the first
      toggle with the name. */
  method IsEnabledScan(c: Client, name: string) returns (r: Result<bool, ClientError>)
    ensures r == IsEnabled(c, name)
  {
    if c.toggles.None? {
      return Failure(TogglesNotLoaded);
    }
    var ts := c.toggles.value;
    var i := 0;
    while i < |ts|
      invariant 0 <= i <= |ts|
      invariant forall j :: 0 <= j < i ==> ts[j].name != name
    {
      if ts[i].name == name {
        return Success(ts[i].enabled);
      }
      i := i + 1;
    }
    return Success(false);
  }

  // ---------------------------------------------------------------------
  // Construction properties

  /** For a caller context of the declared type (distinct keys, no
      `appName`), the stored context, in insertion order, is `appName`
      followed by the caller's entries in their order. */
  lemma MergeTypedContext(appName: string, context: Context)
    requires Objects.KeysUnique(context)
    requires forall i :: 0 <= i < |context| ==> context[i].Key() != "appName"
    ensures MergeContext(appName, Some(context)) == [Scalar("appName", Some(appName))] + context
  {
    var all := [Scalar("appName", Some(appName))] + context;
    forall i, j | 0 <= i < j < |all|
      ensures all[i].Key() != all[j].Key()
    {
      assert all[j] == context[j - 1];
      if i > 0 {
        assert all[i] == context[i - 1];
      }
    }
    Objects.SpreadDisjoint([Scalar("appName", Some(appName))], context);
  }

  /** A caller context that carries `appName` overrides the configured
      one: the stored `appName` entry is the caller's last one. */
  lemma CallerAppNameWins(appName: string, context: Context, j: nat)
    requires j < |context| && context[j].Key() == "appName" && Objects.LastWithKey(context, j)
    ensures MergeContext(appName, Some(context))[0] == context[j]
  {
    var app := Scalar("appName", Some(appName));
    var r := MergeContext(appName, Some(context));
    Objects.SpreadKeysUnique([app], context);
    var m :| 0 <= m < |r| && r[m] == context[j];
    assert r[m].Key() == r[0].Key();
  }

  /** The order in which the serializer sees the stored context: the
      caller's array-index entries in ascending numeric order, then
      `appName`, then the caller's other entries in their order. */
  lemma MergedEnumeration(appName: string, context: Context)
    requires Objects.KeysUnique(context)
    requires forall i :: 0 <= i < |context| ==> context[i].Key() != "appName"
    ensures Objects.OwnKeys(MergeContext(appName, Some(context))) ==
      Objects.IndexEntries(context) + [Scalar("appName", Some(appName))] + Objects.NamedEntries(context)
  {
    var app := Scalar("appName", Some(appName));
    MergeTypedContext(appName, context);
    Objects.NotArrayIndex(app.Key());
    Objects.OwnKeysPrepend(app, context);
  }

  /** When no key of the caller's context is an array index, the serializer
      sees `appName` first and then the caller's entries in their order. */
  lemma MergedEnumerationNamed(appName: string, context: Context)
    requires Objects.KeysUnique(context)
    requires forall i :: 0 <= i < |context| ==> context[i].Key() != "appName"
    requires forall i :: 0 <= i < |context| ==> Objects.IsNamedEntry(context[i])
    ensures Objects.OwnKeys(MergeContext(appName, Some(context))) ==
      [Scalar("appName", Some(appName))] + context
  {
    var app := Scalar("appName", Some(appName));
    MergeTypedContext(appName, context);
    Objects.NotArrayIndex(app.Key());
    Objects.OwnKeysPrependNamed(app, context);
  }

  /** The `environment` option is not read by the constructor: it never
      reaches the stored context or anything else. */
  lemma EnvironmentIgnored(cfg: Config, environment: Option<string>, parse: string -> Option<Url>)
    ensures Create(cfg.(environment := environment), parse) == Create(cfg, parse)
  {
  }

  /** A new client cannot be read before its first fresh fetch, and its
      first request carries no `If-None-Match`. */
  lemma NewClientHasNothing(cfg: Config, parse: string -> Option<Url>, name: string)
    requires Create(cfg, parse).Success?
    ensures GetToggles(Create(cfg, parse).value) == Failure(TogglesNotDownloaded)
    ensures IsEnabled(Create(cfg, parse).value, name) == Failure(TogglesNotLoaded)
    ensures BuildRequest(Create(cfg, parse).value).headers.ifNoneMatch == None
  {
  }

  // ---------------------------------------------------------------------
  // Fetch properties

  /** Validator round trip: after a fresh response carrying ETag `e`, the
      next request asks `If-None-Match: e`; without an ETag it asks
      unconditionally. */
  lemma ValidatorRoundTrip(c: Client, resp: Response)
    requires Fresh(resp)
    ensures FetchToggles(c, resp).result == Success(Updated)
    ensures BuildRequest(FetchToggles(c, resp).next).headers.ifNoneMatch ==
      (if resp.etag.None? || resp.etag == Some("") then None else resp.etag)
  {
  }

  /** After 304 or a failure the next request is the very request just sent. */
  lemma NotFreshRepeatsRequest(c: Client, resp: Response)
    requires !Fresh(resp)
    ensures BuildRequest(FetchToggles(c, resp).next) == BuildRequest(c)
  {
  }

  /** Reads after a fetch see the fresh body, or exactly what they saw before. */
  lemma ReadsAfterFetch(c: Client, resp: Response, name: string)
    ensures GetToggles(FetchToggles(c, resp).next) ==
      (if Fresh(resp) then Success(resp.toggles) else GetToggles(c))
    ensures !Fresh(resp) ==> IsEnabled(FetchToggles(c, resp).next, name) == IsEnabled(c, name)
  {
  }

  /** A caller that awaits each fetch before the next: the client state after
      the responses `resps`, in order, errors included. */
  function Poll(c: Client, resps: seq<Response>): Client
    decreases |resps|
  {
    if resps == [] then c
    else FetchToggles(Poll(c, resps[..|resps| - 1]), resps[|resps| - 1]).next
  }

  /** A polling run never changes the configuration. */
  lemma {:induction false} PollKeepsConfiguration(c: Client, resps: seq<Response>)
    ensures Poll(c, resps).url == c.url
    ensures Poll(c, resps).clientKey == c.clientKey
    ensures Poll(c, resps).context == c.context
    decreases |resps|
  {
    if resps != [] {
      PollKeepsConfiguration(c, resps[..|resps| - 1]);
    }
  }

  /** A run in which no response is fresh leaves the client as it was. */
  lemma {:induction false} PollWithoutFresh(c: Client, resps: seq<Response>)
    requires forall i :: 0 <= i < |resps| ==> !Fresh(resps[i])
    ensures Poll(c, resps) == c
    decreases |resps|
  {
    if resps != [] {
      var n := |resps| - 1;
      assert !Fresh(resps[n]);
      assert forall i :: 0 <= i < n ==> resps[..n][i] == resps[i];
      PollWithoutFresh(c, resps[..n]);
    }
  }

  /** The last good snapshot stays authoritative: after a run of responses
      whose last fresh one is `resps[i]`, the validator and the snapshot are
      those of `resps[i]`, taken together, and nothing else has changed. */
  lemma {:induction false} PollServesLastFresh(c: Client, resps: seq<Response>, i: nat)
    requires i < |resps| && Fresh(resps[i])
    requires forall j :: i < j < |resps| ==> !Fresh(resps[j])
    ensures Poll(c, resps) == c.(etag := ValidatorOf(resps[i].etag), toggles := Some(resps[i].toggles))
    decreases |resps|
  {
    var n := |resps| - 1;
    var prefix := resps[..n];
    if i == n {
      PollKeepsConfiguration(c, prefix);
    } else {
      assert !Fresh(resps[n]);
      assert prefix[i] == resps[i];
      assert forall j :: i < j < n ==> prefix[j] == resps[j];
      PollServesLastFresh(c, prefix, i);
    }
  }

  /** Every request of a polling run goes to the same URL with the same
      credential, and asks `If-None-Match` with the ETag of the last fresh
      response when that ETag is non-empty. */
  lemma PollRequest(c: Client, resps: seq<Response>, i: nat)
    requires i < |resps| && Fresh(resps[i])
    requires forall j :: i < j < |resps| ==> !Fresh(resps[j])
    requires resps[i].etag.Some? && resps[i].etag.value != ""
    ensures BuildRequest(Poll(c, resps)).url == BuildRequest(c).url
    ensures BuildRequest(Poll(c, resps)).headers.authorization == c.clientKey
    ensures BuildRequest(Poll(c, resps)).headers.ifNoneMatch == resps[i].etag
  {
    PollServesLastFresh(c, resps, i);
  }
}
