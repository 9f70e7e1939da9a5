/**
  The worker's entry point: the exact-match route table from URL path to
  handler, and the 404 answer for every other path.
*/
module Router {
  import opened JsBuiltins
  import opened Ip
  import opened Api
  import opened Html

  /** The routed endpoints, one per `case` of the switch. */
  datatype Endpoint =
    | Home | IpEndpoint | Ipv4Endpoint | Ipv6Endpoint | CountryEndpoint | CityEndpoint
    | RegionEndpoint | TimezoneEndpoint | CoordinatesEndpoint | ContinentEndpoint
    | AsnEndpoint | OrgEndpoint | ColoEndpoint | TlsEndpoint | ProtocolEndpoint
    | JsonEndpoint | HeadersEndpoint

  /** The path each endpoint answers on. */
  function PathOf(e: Endpoint): string {
    match e
    case Home => "/"
    case IpEndpoint => "/ip"
    case Ipv4Endpoint => "/ipv4"
    case Ipv6Endpoint => "/ipv6"
    case CountryEndpoint => "/country"
    case CityEndpoint => "/city"
    case RegionEndpoint => "/region"
    case TimezoneEndpoint => "/timezone"
    case CoordinatesEndpoint => "/coordinates"
    case ContinentEndpoint => "/continent"
    case AsnEndpoint => "/asn"
    case OrgEndpoint => "/org"
    case ColoEndpoint => "/colo"
    case TlsEndpoint => "/tls"
    case ProtocolEndpoint => "/protocol"
    case JsonEndpoint => "/json"
    case HeadersEndpoint => "/headers"
  }

  /** `switch (path)`: an exact, case-sensitive comparison; `None` is the
      `default` branch. */
  function Route(path: string): Option<Endpoint> {
    if path == "/" then Some(Home)
    else if path == "/ip" then Some(IpEndpoint)
    else if path == "/ipv4" then Some(Ipv4Endpoint)
    else if path == "/ipv6" then Some(Ipv6Endpoint)
    else if path == "/country" then Some(CountryEndpoint)
    else if path == "/city" then Some(CityEndpoint)
    else if path == "/region" then Some(RegionEndpoint)
    else if path == "/timezone" then Some(TimezoneEndpoint)
    else if path == "/coordinates" then Some(CoordinatesEndpoint)
    else if path == "/continent" then Some(ContinentEndpoint)
    else if path == "/asn" then Some(AsnEndpoint)
    else if path == "/org" then Some(OrgEndpoint)
    else if path == "/colo" then Some(ColoEndpoint)
    else if path == "/tls" then Some(TlsEndpoint)
    else if path == "/protocol" then Some(ProtocolEndpoint)
    else if path == "/json" then Some(JsonEndpoint)
    else if path == "/headers" then Some(HeadersEndpoint)
    else None
  }

  /** Every endpoint is reached by its own path. */
  lemma RouteOfPath(e: Endpoint)
    ensures Route(PathOf(e)) == Some(e)
  {
  }

  /** A routed path is exactly the path of the endpoint it reaches: no
      other spelling (case, trailing slash) is routed. */
  lemma PathOfRoute(path: string)
    requires Route(path).Some?
    ensures PathOf(Route(path).value) == path
  {
  }

  /** The default branch is taken exactly for the paths no endpoint has. */
  lemma UnlistedPathsFallThrough(path: string)
    ensures Route(path).None? <==> forall e: Endpoint :: PathOf(e) != path
  {
    if Route(path).Some? {
      PathOfRoute(path);
    } else {
      forall e: Endpoint
        ensures PathOf(e) != path
      {
        RouteOfPath(e);
      }
    }
  }

  /** No two endpoints share a path. */
  lemma PathsDistinct(d: Endpoint, e: Endpoint)
    requires PathOf(d) == PathOf(e)
    ensures d == e
  {
    RouteOfPath(d);
    RouteOfPath(e);
  }

  /** Every path the page documents is routed, and to an API endpoint. */
  lemma DocumentedPathsAreRouted()
    ensures forall i | 0 <= i < |DocumentedPaths| ::
      Route(DocumentedPaths[i]).Some? && Route(DocumentedPaths[i]) != Some(Home)
  {
  }

  /** Every API endpoint is documented on the page. */
  lemma ApiEndpointsAreDocumented(e: Endpoint)
    requires e != Home
    ensures PathOf(e) in DocumentedPaths
  {
    var i := match e
      case IpEndpoint => 0
      case Ipv4Endpoint => 1
      case Ipv6Endpoint => 2
      case JsonEndpoint => 3
      case CountryEndpoint => 4
      case CityEndpoint => 5
      case RegionEndpoint => 6
      case TimezoneEndpoint => 7
      case CoordinatesEndpoint => 8
      case ContinentEndpoint => 9
      case AsnEndpoint => 10
      case OrgEndpoint => 11
      case ColoEndpoint => 12
      case TlsEndpoint => 13
      case ProtocolEndpoint => 14
      case HeadersEndpoint => 15;
    assert DocumentedPaths[i] == PathOf(e);
  }

  /** The page's address decodes to the /ip body, and its badges and
      cards appear exactly when the matching endpoints answer 200. */
  lemma PageAgreesWithApi(req: Request, hostname: string)
    ensures var page := GeneratePage(req, hostname);
      && Unescape(page.mainIp) == HandleIP(req).body.text
      && page.versionBadge == GetAllClientInfo(req).ipVersion
      && (page.countryBadge.Some? <==> HandleCountry(req).status == 200)
      && (page.coordinates.Some? <==> HandleCoordinates(req).status == 200)
      && (page.asnCard == NotAvailable <==> HandleASN(req).status == 404)
  {
    MainIpIsEndpointBody(req);
    VersionBadgeIsLabel(GetClientIP(req.headers));
    CountryBadgeAgreesWithEndpoint(req);
    CoordinatesAgreeWithEndpoint(req);
    AsnCardAgreesWithEndpoint(req);
  }

  /** The page's table holds no markup, and every command it lists names a
      routed path. */
  lemma PageTableAndCommands(req: Request, hostname: string)
    ensures var page := GeneratePage(req, hostname);
      && CellsHaveNoMarkup(page.rows)
      && forall i | 0 <= i < |page.endpoints| :: Route(page.endpoints[i].path).Some?
  {
    DetailCellsHaveNoMarkup(GetAllClientInfo(req));
    DocumentedPathsAreRouted();
  }

  /** The page at "/" tells the same story as the API: its address decodes
      to the /ip body, its badges and cards appear exactly when the
      matching endpoints answer 200, its table holds no markup, and every
      command it lists names a routed path. */
  lemma PageMatchesEndpoints(req: Request, hostname: string)
    ensures var page := GeneratePage(req, hostname);
      && Unescape(page.mainIp) == HandleIP(req).body.text
      && page.versionBadge == GetAllClientInfo(req).ipVersion
      && (page.countryBadge.Some? <==> HandleCountry(req).status == 200)
      && (page.coordinates.Some? <==> HandleCoordinates(req).status == 200)
      && (page.asnCard == NotAvailable <==> HandleASN(req).status == 404)
      && CellsHaveNoMarkup(page.rows)
      && forall i | 0 <= i < |page.endpoints| :: Route(page.endpoints[i].path).Some?
  {
    PageAgreesWithApi(req, hostname);
    PageTableAndCommands(req, hostname);
  }

  /** What the worker sends back: the HTML page (always 200) or an API
      response. */
  datatype Reply = PageReply(page: PageView) | ApiReply(response: Response)

  function Status(r: Reply): int {
    if r.PageReply? then 200 else r.response.status
  }

  const NotFound := Response(404, Text("Not Found"))

  /** The reply of each endpoint; for /headers the object `HandleHeaders`
      is proved to build. */
  function Respond(e: Endpoint, req: Request, hostname: string): Reply {
    match e
    case Home => PageReply(GeneratePage(req, hostname))
    case IpEndpoint => ApiReply(HandleIP(req))
    case Ipv4Endpoint => ApiReply(HandleIPv4(req))
    case Ipv6Endpoint => ApiReply(HandleIPv6(req))
    case CountryEndpoint => ApiReply(HandleCountry(req))
    case CityEndpoint => ApiReply(HandleCity(req))
    case RegionEndpoint => ApiReply(HandleRegion(req))
    case TimezoneEndpoint => ApiReply(HandleTimezone(req))
    case CoordinatesEndpoint => ApiReply(HandleCoordinates(req))
    case ContinentEndpoint => ApiReply(HandleContinent(req))
    case AsnEndpoint => ApiReply(HandleASN(req))
    case OrgEndpoint => ApiReply(HandleOrg(req))
    case ColoEndpoint => ApiReply(HandleColo(req))
    case TlsEndpoint => ApiReply(HandleTLS(req))
    case ProtocolEndpoint => ApiReply(HandleProtocol(req))
    case JsonEndpoint => ApiReply(HandleJSON(req))
    case HeadersEndpoint => ApiReply(Response(200, HeaderObject(HeadersObject(req.headers))))
  }

  /** `fetch`: routes the request's path; unknown paths get 404 "Not Found". */
  method Fetch(path: string, hostname: string, req: Request) returns (reply: Reply)
    ensures Route(path).None? ==> reply == ApiReply(NotFound)
    ensures Route(path).Some? ==> reply == Respond(Route(path).value, req, hostname)
  {
    var e := Route(path);
    if e.None? {
      return ApiReply(NotFound);
    }
    if e.value == HeadersEndpoint {
      var resp := HandleHeaders(req);
      return ApiReply(resp);
    }
    return Respond(e.value, req, hostname);
  }

  /** Only the three status codes occur; 400 only on the two family
      endpoints; the page, /ip, /json and /headers always answer 200. */
  lemma RespondStatus(e: Endpoint, req: Request, hostname: string)
    ensures Status(Respond(e, req, hostname)) in {200, 400, 404}
    ensures Status(Respond(e, req, hostname)) == 400 ==> e == Ipv4Endpoint || e == Ipv6Endpoint
    ensures e in {Home, IpEndpoint, JsonEndpoint, HeadersEndpoint} ==> Status(Respond(e, req, hostname)) == 200
  {
    match e
    case Home =>
    case IpEndpoint =>
    case Ipv4Endpoint =>
    case Ipv6Endpoint =>
    case CountryEndpoint =>
    case CityEndpoint =>
    case RegionEndpoint =>
    case TimezoneEndpoint =>
    case CoordinatesEndpoint =>
    case ContinentEndpoint =>
    case AsnEndpoint =>
    case OrgEndpoint =>
    case ColoEndpoint =>
    case TlsEndpoint =>
    case ProtocolEndpoint =>
    case JsonEndpoint =>
    case HeadersEndpoint =>
  }

  /** The paths the tests request are routed, and near misses are not. */
  lemma RouteExamples()
    ensures Route("/ip") == Some(IpEndpoint) && Route("/headers") == Some(HeadersEndpoint)
    ensures Route("/IP") == None && Route("/ip/") == None && Route("") == None && Route("/unknown-path") == None
  {
  }
}
