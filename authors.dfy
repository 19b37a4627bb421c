/** The `/authors` proxy of backend/authors/index.js: an exact host allow-list
    and the mapping from the upstream outcome to the reply. URL parsing (the
    WHATWG URL Standard, section 4.4) and the outbound GET are parameters. */
module Authors {
  import opened Wrappers
  import opened Json

  /** The hosts the proxy may contact. */
  const Whitelist: seq<string> := ["dummyjson.com", "jsonplaceholder.typicode.com"]

  /** `isWhitelisted`: `hostname(url)` is the hostname `new URL(url)` yields,
      `None` when the constructor throws. */
  predicate IsWhitelisted(url: string, hostname: string -> Option<string>) {
    hostname(url).Some? && hostname(url).value in Whitelist
  }

  /** How `axios.get` ended. */
  datatype Upstream =
    | Fetched(data: JsValue)        // a response axios accepts
    | ErrorResponse(status: int)    // `err.response`: the server answered with an error status
    | NoResponse                    // `err.request` only: nothing came back
    | SetupError                    // anything else

  datatype AuthorsReply =
    | MissingDatasource    // 400
    | ForbiddenDatasource  // 403
    | Relayed(data: JsValue)   // 200 `{ success: true, data }`
    | UpstreamStatus(status: int)  // the upstream's own status
    | GatewayTimeout       // 504
    | ProxyFailed          // 500
  {
    function Status(): int {
      match this
      case MissingDatasource => 400
      case ForbiddenDatasource => 403
      case Relayed(_) => 200
      case UpstreamStatus(s) => s
      case GatewayTimeout => 504
      case ProxyFailed => 500
    }
  }

  /** The reply, and the URL requested upstream if any. */
  datatype Proxied = Proxied(reply: AuthorsReply, requested: Option<string>)

  /** `GET /authors?datasource=..`; `fetch(url)` is how a GET of `url` ends. */
  function AuthorsHandler(datasource: Option<string>, hostname: string -> Option<string>,
                          fetch: string -> Upstream): (r: Proxied)
    ensures r.requested.Some? <==> TruthyText(datasource) && IsWhitelisted(datasource.value, hostname)
    ensures r.requested.Some? ==> r.requested.value == datasource.value
  {
    if !TruthyText(datasource) then Proxied(MissingDatasource, None)
    else if !IsWhitelisted(datasource.value, hostname) then Proxied(ForbiddenDatasource, None)
    else
      var reply :=
        match fetch(datasource.value)
        case Fetched(data) => Relayed(data)
        case ErrorResponse(status) => UpstreamStatus(status)
        case NoResponse => GatewayTimeout
        case SetupError => ProxyFailed;
      Proxied(reply, Some(datasource.value))
  }

  // ------------------------------------------------------------ properties

  /** A string the URL parser rejects is never whitelisted. */
  lemma UnparsableNotWhitelisted(url: string, hostname: string -> Option<string>)
    requires hostname(url).None?
    ensures !IsWhitelisted(url, hostname)
  {
  }

  /** Only the two hosts themselves pass: a whitelisted host preceded by
      anything (`www.dummyjson.com`, `evildummyjson.com`) is rejected. */
  lemma LongerHostRejected(url: string, hostname: string -> Option<string>, prefix: string, host: string)
    requires prefix != [] && host in Whitelist
    requires hostname(url) == Some(prefix + host)
    ensures !IsWhitelisted(url, hostname)
  {
    var h := prefix + host;
    assert h[|prefix|..] == host;
  }

  /** A missing or empty `datasource` is answered 400 and nothing is requested. */
  lemma MissingDatasourceRejected(datasource: Option<string>, hostname: string -> Option<string>,
                                  fetch: string -> Upstream)
    requires !TruthyText(datasource)
    ensures AuthorsHandler(datasource, hostname, fetch) == Proxied(MissingDatasource, None)
  {
  }

  /** A datasource outside the allow-list is answered 403 and nothing is requested. */
  lemma ForbiddenDatasourceRejected(datasource: string, hostname: string -> Option<string>,
                                    fetch: string -> Upstream)
    requires datasource != "" && !IsWhitelisted(datasource, hostname)
    ensures AuthorsHandler(Some(datasource), hostname, fetch) == Proxied(ForbiddenDatasource, None)
  {
  }

  /** For a whitelisted datasource: a fetched body is relayed with 200; an
      upstream error status is answered with that same status; no response
      is 504 and any other failure 500. */
  lemma UpstreamOutcomeMapped(datasource: string, hostname: string -> Option<string>,
                              fetch: string -> Upstream)
    requires datasource != "" && IsWhitelisted(datasource, hostname)
    ensures var r := AuthorsHandler(Some(datasource), hostname, fetch).reply;
            && (fetch(datasource).Fetched? ==> r == Relayed(fetch(datasource).data) && r.Status() == 200)
            && (fetch(datasource).ErrorResponse? ==> r.Status() == fetch(datasource).status)
            && (fetch(datasource).NoResponse? ==> r.Status() == 504)
            && (fetch(datasource).SetupError? ==> r.Status() == 500)
  {
  }
}
