/**
 * The worker's `fetch` entry point for its two API routes: `/check`, which
 * probes a proxy, and `/resolve`, which resolves a domain. Both compute the
 * request's tokens first; other paths (the IP information route, redirects
 * and pages) are answered by code outside this model.
 */
module Handler {
  import opened Wrappers
  import opened Strings
  import opened Endpoint
  import opened Probe
  import opened Token
  import opened Dns

  /** The query parameters the two routes read; `None` when absent. */
  datatype Params = Params(proxyip: Option<string>, token: Option<string>, domain: Option<string>)

  /** The parts of an incoming request the routes depend on. */
  datatype Request = Request(hostname: string, path: string, userAgent: Option<string>, nowMs: int, params: Params)

  /** The responses of the two routes, by kind. */
  datatype Reply =
    | PlainText(status: nat, text: string)
    | TokenRejected(message: string)
    | ProbeReport(status: nat, result: ProbeResult)
    | Resolved(domain: string, ips: seq<string>)
    | ResolveError(message: string)
    | OtherRoute

  const MissingProxyIp: string := "Missing proxyip parameter"
  const InvalidProxyIp: string := "Invalid proxyip parameter"
  const MissingDomain: string := "Missing domain parameter"
  const CheckDenied: string := "ProxyIP Check Failed: Invalid TOKEN"
  const ResolveDenied: string := "Domain Resolve Failed: Invalid TOKEN"

  /** The HTTP status a reply is sent with. */
  function Status(r: Reply): nat {
    match r
    case PlainText(status, _) => status
    case TokenRejected(_) => 403
    case ProbeReport(status, _) => status
    case Resolved(_, _) => 200
    case ResolveError(_) => 500
    case OtherRoute => 200
  }

  /**
   * The replies of `/check`: a missing or empty `proxyip` is refused before
   * the token is looked at; with a configured secret the token must equal
   * it; otherwise the report of probing the lower-cased target is sent, with
   * 200 on success and 502 otherwise.
   */
  predicate CheckReplies(p: Params, envToken: Option<string>, tokens: Tokens, connect: Endpoint -> Transport, r: Reply) {
    && (p.proxyip.None? ==> r == PlainText(400, MissingProxyIp))
    && (p.proxyip == Some("") ==> r == PlainText(400, InvalidProxyIp))
    && (p.proxyip.Some? && p.proxyip.value != "" && !CheckAuthorized(envToken, tokens, p.token) ==>
         r == TokenRejected(CheckDenied))
    && (r.ProbeReport? <==> p.proxyip.Some? && p.proxyip.value != "" && CheckAuthorized(envToken, tokens, p.token))
    && (r.ProbeReport? ==>
         && ReportsProbe(Lower(p.proxyip.value), connect, r.result)
         && (Status(r) == 200 <==> r.result.success)
         && (Status(r) == 200 || Status(r) == 502))
  }

  /** `/check`, answered as `CheckReplies` describes. */
  method HandleCheck(p: Params, envToken: Option<string>, tokens: Tokens, connect: Endpoint -> Transport)
    returns (r: Reply)
    ensures CheckReplies(p, envToken, tokens, connect, r)
  {
    if p.proxyip.None? {
      return PlainText(400, MissingProxyIp);
    }
    if p.proxyip.value == "" {
      return PlainText(400, InvalidProxyIp);
    }
    if Configured(envToken) {
      if p.token.None? || p.token.value != tokens.permanent {
        return TokenRejected(CheckDenied);
      }
    }
    var result := CheckProxyIP(Lower(p.proxyip.value), connect);
    r := Report(result);
  }

  /** The probe result sent with 200 on success and 502 otherwise. */
  function Report(result: ProbeResult): (r: Reply)
    ensures r.ProbeReport? && r.result == result
    ensures Status(r) == 200 <==> result.success
    ensures Status(r) == 200 || Status(r) == 502
  {
    ProbeReport(if result.success then 200 else 502, result)
  }

  /**
   * `/resolve`: the token is checked first and must be one of the two; then
   * a missing `domain` is refused; then the domain is resolved, the
   * addresses sent with 200 or the resolver's message with 500.
   */
  function HandleResolve(p: Params, tokens: Tokens, lookup: (string, int) -> Lookup): (r: Reply)
    ensures !ResolveAuthorized(tokens, p.token) ==> r == TokenRejected(ResolveDenied)
    ensures ResolveAuthorized(tokens, p.token) && p.domain.None? ==> r == PlainText(400, MissingDomain)
    ensures r.Resolved? || r.ResolveError? ==> ResolveAuthorized(tokens, p.token) && p.domain.Some?
    ensures r.Resolved? ==>
      && r.domain == p.domain.value && |r.ips| > 0
      && ResolveDomain(p.domain.value, lookup) == Ok(r.ips)
    ensures r.ResolveError? ==>
      && FailurePrefix <= r.message
      && ResolveDomain(p.domain.value, lookup) == Err(r.message)
    ensures ResolveAuthorized(tokens, p.token) && p.domain.Some? ==> r.Resolved? || r.ResolveError?
  {
    if !ResolveAuthorized(tokens, p.token) then TokenRejected(ResolveDenied)
    else if p.domain.None? then PlainText(400, MissingDomain)
    else
      match ResolveDomain(p.domain.value, lookup)
      case Ok(ips) => Resolved(p.domain.value, ips)
      case Err(message) => ResolveError(message)
  }

  /**
   * `fetch`: derive the tokens of this request, then dispatch on the
   * lower-cased path.
   */
  method HandleRequest(req: Request, envToken: Option<string>, digestHex: string -> string,
                       connect: Endpoint -> Transport, lookup: (string, int) -> Lookup)
    returns (r: Reply)
    ensures var tokens := DeriveTokens(digestHex, req.hostname, req.nowMs, UserAgent(req.userAgent), envToken);
      Lower(req.path) == "/resolve" ==> r == HandleResolve(req.params, tokens, lookup)
    ensures Lower(req.path) != "/check" && Lower(req.path) != "/resolve" ==> r == OtherRoute
    ensures var tokens := DeriveTokens(digestHex, req.hostname, req.nowMs, UserAgent(req.userAgent), envToken);
      Lower(req.path) == "/check" ==> CheckReplies(req.params, envToken, tokens, connect, r)
    ensures Lower(req.path) == "/check" ==>
      (r.ProbeReport? <==>
        && req.params.proxyip.Some? && req.params.proxyip.value != ""
        && (!Configured(envToken) || req.params.token == Some(envToken.value)))
    ensures Lower(req.path) == "/resolve" && (r.Resolved? || r.ResolveError?) ==>
      || req.params.token == Some(DoubleHash(digestHex, Seed(req.hostname, req.nowMs, UserAgent(req.userAgent))))
      || (Configured(envToken) && req.params.token == Some(envToken.value))
  {
    var tokens := DeriveTokens(digestHex, req.hostname, req.nowMs, UserAgent(req.userAgent), envToken);
    var route := Lower(req.path);
    if route == "/check" {
      CheckAcceptance(digestHex, req.hostname, req.nowMs, UserAgent(req.userAgent), envToken, req.params.token);
      r := HandleCheck(req.params, envToken, tokens, connect);
    } else if route == "/resolve" {
      ResolveAcceptance(digestHex, req.hostname, req.nowMs, UserAgent(req.userAgent), envToken, req.params.token);
      r := HandleResolve(req.params, tokens, lookup);
    } else {
      r := OtherRoute;
    }
  }
}
