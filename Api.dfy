/**
  The API endpoints of the worker: the client-information record assembled
  from the request headers and the edge metadata (`getAllClientInfo`), its
  JSON object, and the decision each `/x` handler makes between a 200
  answer, a 400 for the wrong address family and a 404 for missing data.
*/
module Api {
  import opened JsBuiltins
  import opened Ip

  // ===========================================================================
  // The request

  /** The edge metadata record `request.cf`, every field optional. */
  datatype CfProperties = CfProperties(
    asn: Option<int>,
    asOrganization: Option<string>,
    colo: Option<string>,
    country: Option<string>,
    isEUCountry: Option<string>,
    city: Option<string>,
    continent: Option<string>,
    latitude: Option<string>,
    longitude: Option<string>,
    postalCode: Option<string>,
    region: Option<string>,
    regionCode: Option<string>,
    timezone: Option<string>,
    httpProtocol: Option<string>,
    tlsVersion: Option<string>,
    tlsCipher: Option<string>,
    clientAcceptEncoding: Option<string>,
    requestPriority: Option<string>)

  /** `{}`: the record used when the platform supplies none. */
  const EmptyCf := CfProperties(None, None, None, None, None, None, None, None, None,
                                None, None, None, None, None, None, None, None, None)

  /** What the handlers read from a request: its header entries and, when the
      platform supplies it, the edge metadata. */
  datatype Request = Request(headers: seq<Header>, cf: Option<CfProperties>)

  /** `(request.cf || {})`. */
  function Metadata(req: Request): (cf: CfProperties)
    ensures req.cf.None? ==> cf == EmptyCf
    ensures req.cf.Some? ==> cf == req.cf.value
  {
    if req.cf.Some? then req.cf.value else EmptyCf
  }

  // ===========================================================================
  // getAllClientInfo

  /** The record `getAllClientInfo` returns; `None` is JSON `null`. */
  datatype ClientInfo = ClientInfo(
    ip: string,
    ipVersion: string,
    country: Option<string>,
    countryIsEU: bool,
    city: Option<string>,
    continent: Option<string>,
    latitude: Option<string>,
    longitude: Option<string>,
    postalCode: Option<string>,
    region: Option<string>,
    regionCode: Option<string>,
    timezone: Option<string>,
    asn: Option<int>,
    organization: Option<string>,
    colo: Option<string>,
    httpProtocol: Option<string>,
    tlsVersion: Option<string>,
    tlsCipher: Option<string>)

  /** The address family label: "IPv4", "IPv6" or "unknown". */
  function IpVersionLabel(ip: string): (family: string)
    ensures family == "IPv4" <==> IsIPv4(ip)
    ensures family == "IPv6" <==> IsIPv6(ip)
    ensures family == "unknown" <==> !IsIPv4(ip) && !IsIPv6(ip)
  {
    if IsIPv4(ip) then "IPv4" else if IsIPv6(ip) then "IPv6" else "unknown"
  }

  /** `getAllClientInfo`: the resolved address, its family, and each metadata
      field passed through `x || null`. */
  function GetAllClientInfo(req: Request): ClientInfo {
    var ip := GetClientIP(req.headers);
    var cf := Metadata(req);
    ClientInfo(
      ip,
      IpVersionLabel(ip),
      OrNull(cf.country),
      cf.isEUCountry == Some("1"),
      OrNull(cf.city),
      OrNull(cf.continent),
      OrNull(cf.latitude),
      OrNull(cf.longitude),
      OrNull(cf.postalCode),
      OrNull(cf.region),
      OrNull(cf.regionCode),
      OrNull(cf.timezone),
      OrNullNumber(cf.asn),
      OrNull(cf.asOrganization),
      OrNull(cf.colo),
      OrNull(cf.httpProtocol),
      OrNull(cf.tlsVersion),
      OrNull(cf.tlsCipher))
  }

  /** `x || null` keeps a truthy value and turns anything else into null. */
  predicate Normalised(out: Option<string>, upstream: Option<string>) {
    (out.Some? <==> Truthy(upstream)) && (out.Some? ==> out == upstream)
  }

  /** Every field of the record is the normalised upstream value; the
      organization comes from `asOrganization`; the address and its label
      come from the headers alone. */
  lemma ClientInfoFields(req: Request)
    ensures var info, cf := GetAllClientInfo(req), Metadata(req);
      && info.ip == GetClientIP(req.headers)
      && info.ipVersion == IpVersionLabel(info.ip)
      && (info.countryIsEU <==> cf.isEUCountry == Some("1"))
      && Normalised(info.country, cf.country)
      && Normalised(info.city, cf.city)
      && Normalised(info.continent, cf.continent)
      && Normalised(info.latitude, cf.latitude)
      && Normalised(info.longitude, cf.longitude)
      && Normalised(info.postalCode, cf.postalCode)
      && Normalised(info.region, cf.region)
      && Normalised(info.regionCode, cf.regionCode)
      && Normalised(info.timezone, cf.timezone)
      && Normalised(info.organization, cf.asOrganization)
      && Normalised(info.colo, cf.colo)
      && Normalised(info.httpProtocol, cf.httpProtocol)
      && Normalised(info.tlsVersion, cf.tlsVersion)
      && Normalised(info.tlsCipher, cf.tlsCipher)
      && (info.asn.Some? <==> TruthyNumber(cf.asn))
      && (info.asn.Some? ==> info.asn == cf.asn)
  {
  }

  /** Only the exact string "1" marks an EU country. */
  lemma CountryIsEUExactlyOne(req: Request, flag: string)
    requires Metadata(req).isEUCountry == Some(flag)
    ensures GetAllClientInfo(req).countryIsEU <==> flag == "1"
  {
  }

  /** Without edge metadata every optional field is null and the country is
      not in the EU. */
  lemma ClientInfoWithoutMetadata(req: Request)
    requires req.cf.None?
    ensures var info := GetAllClientInfo(req);
      && !info.countryIsEU
      && info.country == info.city == info.continent == info.latitude == info.longitude == None
      && info.postalCode == info.region == info.regionCode == info.timezone == None
      && info.organization == info.colo == info.httpProtocol == info.tlsVersion == info.tlsCipher == None
      && info.asn == None
  {
  }

  /** An empty string and an ASN of 0 become null. */
  lemma FalsyBecomesNull(req: Request)
    requires Metadata(req).city == Some("") && Metadata(req).asn == Some(0)
    ensures GetAllClientInfo(req).city == None && GetAllClientInfo(req).asn == None
  {
  }

  // ===========================================================================
  // The JSON object of /json

  datatype JsonValue = JString(s: string) | JNumber(n: int) | JBool(b: bool) | JNull

  /** The members of the record's JSON object. */
  datatype InfoKey =
    | IpKey | IpVersionKey | CountryKey | CountryIsEUKey | CityKey | ContinentKey
    | LatitudeKey | LongitudeKey | PostalCodeKey | RegionKey | RegionCodeKey
    | TimezoneKey | AsnKey | OrganizationKey | ColoKey | HttpProtocolKey
    | TlsVersionKey | TlsCipherKey

  const AllKeys: set<InfoKey> := {
    IpKey, IpVersionKey, CountryKey, CountryIsEUKey, CityKey, ContinentKey,
    LatitudeKey, LongitudeKey, PostalCodeKey, RegionKey, RegionCodeKey,
    TimezoneKey, AsnKey, OrganizationKey, ColoKey, HttpProtocolKey,
    TlsVersionKey, TlsCipherKey}

  /** The member name as it appears in the JSON text. */
  function KeyName(k: InfoKey): string {
    match k
    case IpKey => "ip"
    case IpVersionKey => "ipVersion"
    case CountryKey => "country"
    case CountryIsEUKey => "countryIsEU"
    case CityKey => "city"
    case ContinentKey => "continent"
    case LatitudeKey => "latitude"
    case LongitudeKey => "longitude"
    case PostalCodeKey => "postalCode"
    case RegionKey => "region"
    case RegionCodeKey => "regionCode"
    case TimezoneKey => "timezone"
    case AsnKey => "asn"
    case OrganizationKey => "organization"
    case ColoKey => "colo"
    case HttpProtocolKey => "httpProtocol"
    case TlsVersionKey => "tlsVersion"
    case TlsCipherKey => "tlsCipher"
  }

  function Nullable(x: Option<string>): JsonValue {
    if x.Some? then JString(x.value) else JNull
  }

  function NullableNumber(x: Option<int>): JsonValue {
    if x.Some? then JNumber(x.value) else JNull
  }

  /** The value `JSON.stringify` writes for one member of the record. */
  function Member(info: ClientInfo, k: InfoKey): JsonValue {
    match k
    case IpKey => JString(info.ip)
    case IpVersionKey => JString(info.ipVersion)
    case CountryKey => Nullable(info.country)
    case CountryIsEUKey => JBool(info.countryIsEU)
    case CityKey => Nullable(info.city)
    case ContinentKey => Nullable(info.continent)
    case LatitudeKey => Nullable(info.latitude)
    case LongitudeKey => Nullable(info.longitude)
    case PostalCodeKey => Nullable(info.postalCode)
    case RegionKey => Nullable(info.region)
    case RegionCodeKey => Nullable(info.regionCode)
    case TimezoneKey => Nullable(info.timezone)
    case AsnKey => NullableNumber(info.asn)
    case OrganizationKey => Nullable(info.organization)
    case ColoKey => Nullable(info.colo)
    case HttpProtocolKey => Nullable(info.httpProtocol)
    case TlsVersionKey => Nullable(info.tlsVersion)
    case TlsCipherKey => Nullable(info.tlsCipher)
  }

  /** The object written for a client-information record. */
  function ToJson(info: ClientInfo): (obj: map<InfoKey, JsonValue>)
    ensures obj.Keys == AllKeys
  {
    map k | k in AllKeys :: Member(info, k)
  }

  /** A string member, or nothing when it is missing or of another type. */
  function StringMember(m: map<InfoKey, JsonValue>, k: InfoKey): Option<string> {
    if k in m && m[k].JString? then Some(m[k].s) else None
  }

  /** A string-or-null member: `Some(None)` for `null`. */
  function NullableMember(m: map<InfoKey, JsonValue>, k: InfoKey): Option<Option<string>> {
    if k !in m then None
    else if m[k].JString? then Some(Some(m[k].s))
    else if m[k].JNull? then Some(None)
    else None
  }

  function NullableNumberMember(m: map<InfoKey, JsonValue>, k: InfoKey): Option<Option<int>> {
    if k !in m then None
    else if m[k].JNumber? then Some(Some(m[k].n))
    else if m[k].JNull? then Some(None)
    else None
  }

  function BoolMember(m: map<InfoKey, JsonValue>, k: InfoKey): Option<bool> {
    if k in m && m[k].JBool? then Some(m[k].b) else None
  }

  /** Reads a client-information record back from its JSON object. */
  function FromJson(m: map<InfoKey, JsonValue>): Option<ClientInfo> {
    var ip, ver, eu := StringMember(m, IpKey), StringMember(m, IpVersionKey), BoolMember(m, CountryIsEUKey);
    var country, city, continent := NullableMember(m, CountryKey), NullableMember(m, CityKey), NullableMember(m, ContinentKey);
    var lat, lon, postal := NullableMember(m, LatitudeKey), NullableMember(m, LongitudeKey), NullableMember(m, PostalCodeKey);
    var region, code, tz := NullableMember(m, RegionKey), NullableMember(m, RegionCodeKey), NullableMember(m, TimezoneKey);
    var asn, org, colo := NullableNumberMember(m, AsnKey), NullableMember(m, OrganizationKey), NullableMember(m, ColoKey);
    var proto, tls, cipher := NullableMember(m, HttpProtocolKey), NullableMember(m, TlsVersionKey), NullableMember(m, TlsCipherKey);
    if && ip.Some? && ver.Some? && eu.Some? && country.Some? && city.Some? && continent.Some?
       && lat.Some? && lon.Some? && postal.Some? && region.Some? && code.Some? && tz.Some?
       && asn.Some? && org.Some? && colo.Some? && proto.Some? && tls.Some? && cipher.Some?
    then
      Some(ClientInfo(ip.value, ver.value, country.value, eu.value, city.value, continent.value,
                      lat.value, lon.value, postal.value, region.value, code.value, tz.value,
                      asn.value, org.value, colo.value, proto.value, tls.value, cipher.value))
    else None
  }

  /** No two members share a name in the JSON text. */
  lemma KeyNamesDistinct(j: InfoKey, k: InfoKey)
    requires j != k
    ensures KeyName(j) != KeyName(k)
  {
  }

  /** A member is `null` exactly when the record's field is null. */
  lemma JsonNulls(info: ClientInfo)
    ensures ToJson(info)[CountryKey] == JNull <==> info.country.None?
    ensures ToJson(info)[AsnKey] == JNull <==> info.asn.None?
    ensures ToJson(info)[OrganizationKey] == JNull <==> info.organization.None?
    ensures ToJson(info)[IpKey] != JNull && ToJson(info)[CountryIsEUKey] != JNull
  {
  }

  /** Every member holds the value written for it. */
  lemma JsonMember(info: ClientInfo, k: InfoKey)
    ensures k in ToJson(info) && ToJson(info)[k] == Member(info, k)
  {
  }

  lemma NullableReadsBack(m: map<InfoKey, JsonValue>, k: InfoKey, x: Option<string>)
    requires k in m && m[k] == Nullable(x)
    ensures NullableMember(m, k) == Some(x)
  {
  }

  /** The location members of an object holding the members written for `info`. */
  lemma LocationMembersRead(m: map<InfoKey, JsonValue>, info: ClientInfo)
    requires forall k :: k in m && m[k] == Member(info, k)
    ensures NullableMember(m, CountryKey) == Some(info.country)
    ensures NullableMember(m, CityKey) == Some(info.city)
    ensures NullableMember(m, ContinentKey) == Some(info.continent)
    ensures NullableMember(m, LatitudeKey) == Some(info.latitude)
    ensures NullableMember(m, LongitudeKey) == Some(info.longitude)
    ensures NullableMember(m, PostalCodeKey) == Some(info.postalCode)
  {
    NullableReadsBack(m, CountryKey, info.country);
    NullableReadsBack(m, CityKey, info.city);
    NullableReadsBack(m, ContinentKey, info.continent);
    NullableReadsBack(m, LatitudeKey, info.latitude);
    NullableReadsBack(m, LongitudeKey, info.longitude);
    NullableReadsBack(m, PostalCodeKey, info.postalCode);
  }

  /** The region and timezone members. */
  lemma RegionMembersRead(m: map<InfoKey, JsonValue>, info: ClientInfo)
    requires forall k :: k in m && m[k] == Member(info, k)
    ensures NullableMember(m, RegionKey) == Some(info.region)
    ensures NullableMember(m, RegionCodeKey) == Some(info.regionCode)
    ensures NullableMember(m, TimezoneKey) == Some(info.timezone)
    ensures NullableMember(m, OrganizationKey) == Some(info.organization)
  {
    NullableReadsBack(m, RegionKey, info.region);
    NullableReadsBack(m, RegionCodeKey, info.regionCode);
    NullableReadsBack(m, TimezoneKey, info.timezone);
    NullableReadsBack(m, OrganizationKey, info.organization);
  }

  /** The connection members. */
  lemma ConnectionMembersRead(m: map<InfoKey, JsonValue>, info: ClientInfo)
    requires forall k :: k in m && m[k] == Member(info, k)
    ensures NullableMember(m, ColoKey) == Some(info.colo)
    ensures NullableMember(m, HttpProtocolKey) == Some(info.httpProtocol)
    ensures NullableMember(m, TlsVersionKey) == Some(info.tlsVersion)
    ensures NullableMember(m, TlsCipherKey) == Some(info.tlsCipher)
  {
    NullableReadsBack(m, ColoKey, info.colo);
    NullableReadsBack(m, HttpProtocolKey, info.httpProtocol);
    NullableReadsBack(m, TlsVersionKey, info.tlsVersion);
    NullableReadsBack(m, TlsCipherKey, info.tlsCipher);
  }

  /** Any object holding the members written for `info` reads back as `info`. */
  lemma FromMembers(m: map<InfoKey, JsonValue>, info: ClientInfo)
    requires forall k :: k in m && m[k] == Member(info, k)
    ensures FromJson(m) == Some(info)
  {
    LocationMembersRead(m, info);
    RegionMembersRead(m, info);
    ConnectionMembersRead(m, info);
    assert NullableNumberMember(m, AsnKey) == Some(info.asn);
    assert StringMember(m, IpKey) == Some(info.ip);
    assert StringMember(m, IpVersionKey) == Some(info.ipVersion);
    assert BoolMember(m, CountryIsEUKey) == Some(info.countryIsEU);
  }

  /** Nothing is lost in the JSON object: the record reads back from it. */
  lemma JsonRoundTrip(info: ClientInfo)
    ensures FromJson(ToJson(info)) == Some(info)
  {
    forall k | true
      ensures k in ToJson(info) && ToJson(info)[k] == Member(info, k)
    {
      JsonMember(info, k);
    }
    FromMembers(ToJson(info), info);
  }

  // ===========================================================================
  // Responses and handlers

  /** The body of a response: plain text, the JSON object of the client
      record, or the JSON object of the request headers. */
  datatype Body = Text(text: string) | InfoObject(info: map<InfoKey, JsonValue>) | HeaderObject(members: map<string, string>)

  datatype Response = Response(status: int, body: Body)

  const Ipv4Unavailable := "IPv4 address not available. You are using IPv6."
  const Ipv6Unavailable := "IPv6 address not available. You are using IPv4."

  /** `handleIP`: the resolved address, whatever it is. */
  function HandleIP(req: Request): (resp: Response)
    ensures resp.status == 200 && resp.body == Text(GetClientIP(req.headers))
  {
    Response(200, Text(GetClientIP(req.headers)))
  }

  /** `handleIPv4`: 200 with the address exactly when it is an IPv4 address,
      otherwise 400 with the fixed message (also for "unknown"). */
  function HandleIPv4(req: Request): (resp: Response)
    ensures resp.status == 200 <==> IsIPv4(GetClientIP(req.headers))
    ensures resp.status == 200 ==> resp.body == Text(GetClientIP(req.headers))
    ensures resp.status != 200 ==> resp == Response(400, Text(Ipv4Unavailable))
  {
    var ip := GetClientIP(req.headers);
    if !IsIPv4(ip) then Response(400, Text(Ipv4Unavailable)) else Response(200, Text(ip))
  }

  /** `handleIPv6`: 200 with the address exactly when it is an IPv6 address,
      otherwise 400 with the fixed message. */
  function HandleIPv6(req: Request): (resp: Response)
    ensures resp.status == 200 <==> IsIPv6(GetClientIP(req.headers))
    ensures resp.status == 200 ==> resp.body == Text(GetClientIP(req.headers))
    ensures resp.status != 200 ==> resp == Response(400, Text(Ipv6Unavailable))
  {
    var ip := GetClientIP(req.headers);
    if !IsIPv6(ip) then Response(400, Text(Ipv6Unavailable)) else Response(200, Text(ip))
  }

  /** No request gets 200 from both the IPv4 and the IPv6 endpoint. */
  lemma FamilyEndpointsExclusive(req: Request)
    ensures !(HandleIPv4(req).status == 200 && HandleIPv6(req).status == 200)
    ensures HandleIPv4(req).status in {200, 400} && HandleIPv6(req).status in {200, 400}
  {
    Exclusive(GetClientIP(req.headers));
  }

  /** The shape of every single-field endpoint: the value with 200 when it is
      truthy, otherwise 404 with the endpoint's message. */
  function FieldResponse(v: Option<string>, missing: string): (resp: Response)
    ensures resp.status == 200 <==> Truthy(v)
    ensures Truthy(v) ==> resp.body == Text(v.value)
    ensures !Truthy(v) ==> resp == Response(404, Text(missing))
  {
    if !Truthy(v) then Response(404, Text(missing)) else Response(200, Text(v.value))
  }

  function HandleCountry(req: Request): (resp: Response)
    ensures resp == FieldResponse(Metadata(req).country, "Country information not available")
  {
    FieldResponse(Metadata(req).country, "Country information not available")
  }

  function HandleCity(req: Request): (resp: Response)
    ensures resp == FieldResponse(Metadata(req).city, "City information not available")
  {
    FieldResponse(Metadata(req).city, "City information not available")
  }

  function HandleRegion(req: Request): (resp: Response)
    ensures resp == FieldResponse(Metadata(req).region, "Region information not available")
  {
    FieldResponse(Metadata(req).region, "Region information not available")
  }

  function HandleTimezone(req: Request): (resp: Response)
    ensures resp == FieldResponse(Metadata(req).timezone, "Timezone information not available")
  {
    FieldResponse(Metadata(req).timezone, "Timezone information not available")
  }

  function HandleContinent(req: Request): (resp: Response)
    ensures resp == FieldResponse(Metadata(req).continent, "Continent information not available")
  {
    FieldResponse(Metadata(req).continent, "Continent information not available")
  }

  function HandleOrg(req: Request): (resp: Response)
    ensures resp == FieldResponse(Metadata(req).asOrganization, "Organization information not available")
  {
    FieldResponse(Metadata(req).asOrganization, "Organization information not available")
  }

  function HandleColo(req: Request): (resp: Response)
    ensures resp == FieldResponse(Metadata(req).colo, "Data center information not available")
  {
    FieldResponse(Metadata(req).colo, "Data center information not available")
  }

  function HandleTLS(req: Request): (resp: Response)
    ensures resp == FieldResponse(Metadata(req).tlsVersion, "TLS information not available")
  {
    FieldResponse(Metadata(req).tlsVersion, "TLS information not available")
  }

  function HandleProtocol(req: Request): (resp: Response)
    ensures resp == FieldResponse(Metadata(req).httpProtocol, "Protocol information not available")
  {
    FieldResponse(Metadata(req).httpProtocol, "Protocol information not available")
  }

  /** `handleCoordinates`: "latitude,longitude" when both are truthy,
      otherwise 404. */
  function HandleCoordinates(req: Request): (resp: Response)
    ensures var cf := Metadata(req);
      && (resp.status == 200 <==> Truthy(cf.latitude) && Truthy(cf.longitude))
      && (resp.status == 200 ==> resp.body == Text(cf.latitude.value + "," + cf.longitude.value))
      && (resp.status != 200 ==> resp == Response(404, Text("Coordinate information not available")))
  {
    var cf := Metadata(req);
    if !Truthy(cf.latitude) || !Truthy(cf.longitude) then
      Response(404, Text("Coordinate information not available"))
    else
      Response(200, Text(cf.latitude.value + "," + cf.longitude.value))
  }

  /** The two coordinates can be split apart again when neither holds a comma. */
  lemma CoordinatesSplit(lat: string, lon: string)
    requires ',' !in lat && ',' !in lon
    ensures Split(lat + "," + lon, ',') == [lat, lon]
  {
    var s := lat + "," + lon;
    assert forall m | 0 <= m < |lat| :: s[m] == lat[m];
    NextIndexAt(s, ',', 0, |lat|);
    assert forall m | |lat| + 1 <= m < |s| :: s[m] == lon[m - |lat| - 1];
    SplitFromSingle(s, ',', |lat| + 1);
    assert s[..|lat|] == lat && s[|lat| + 1..] == lon;
  }

  /** `handleASN`: the decimal rendering of a non-zero ASN, otherwise 404. */
  function HandleASN(req: Request): (resp: Response)
    ensures resp.status == 200 <==> TruthyNumber(Metadata(req).asn)
    ensures resp.status != 200 ==> resp == Response(404, Text("ASN information not available"))
    ensures resp.status == 200 ==> resp.body.Text? && ParseInt(resp.body.text) == Metadata(req).asn
    ensures resp.status == 200 ==> CanonicalInteger(resp.body.text)
  {
    var asn := Metadata(req).asn;
    if !TruthyNumber(asn) then
      Response(404, Text("ASN information not available"))
    else
      NumberToStringRoundTrip(asn.value);
      Response(200, Text(NumberToString(asn.value)))
  }

  /** `handleJSON`: the record as its JSON object. */
  function HandleJSON(req: Request): (resp: Response)
    ensures resp.status == 200 && resp.body.InfoObject?
    ensures FromJson(resp.body.info) == Some(GetAllClientInfo(req))
  {
    JsonRoundTrip(GetAllClientInfo(req));
    Response(200, InfoObject(ToJson(GetAllClientInfo(req))))
  }

  // ===========================================================================
  // handleHeaders

  /** The one name a plain object does not take as a member: assigning a
      string to `obj["__proto__"]` runs the inherited prototype setter,
      which ignores anything that is not an object, so nothing is stored. */
  const ProtoKey := "__proto__"

  /** The object `handleHeaders` builds: one member per header entry, a later
      entry replacing an earlier one of the same name, and no member for an
      entry named `__proto__`. */
  function HeadersObject(h: seq<Header>): map<string, string>
    decreases |h|
  {
    if |h| == 0 then map[]
    else if h[|h| - 1].name == ProtoKey then HeadersObject(h[..|h| - 1])
    else HeadersObject(h[..|h| - 1])[h[|h| - 1].name := h[|h| - 1].value]
  }

  /** `handleHeaders`: assigns every entry into a fresh object, in order. */
  method HandleHeaders(req: Request) returns (resp: Response)
    ensures resp == Response(200, HeaderObject(HeadersObject(req.headers)))
  {
    var h := req.headers;
    var headers: map<string, string> := map[];
    var i := 0;
    while i < |h|
      invariant 0 <= i <= |h|
      invariant headers == HeadersObject(h[..i])
    {
      if h[i].name != ProtoKey {
        headers := headers[h[i].name := h[i].value];
      }
      i := i + 1;
      assert h[..i][..i - 1] == h[..i - 1];
    }
    assert h[..|h|] == h;
    resp := Response(200, HeaderObject(headers));
  }

  /** The object's member names are exactly the header names other than
      `__proto__`. */
  lemma {:induction false} HeadersObjectKeys(h: seq<Header>)
    ensures HeadersObject(h).Keys == (set i | 0 <= i < |h| :: h[i].name) - {ProtoKey}
    decreases |h|
  {
    if |h| > 0 {
      var p := h[..|h| - 1];
      HeadersObjectKeys(p);
      assert forall i | 0 <= i < |p| :: p[i] == h[i];
      assert (set i | 0 <= i < |h| :: h[i].name) == (set i | 0 <= i < |p| :: p[i].name) + {h[|h| - 1].name};
    }
  }

  /** The platform never lists a header name twice. */
  predicate DistinctNames(h: seq<Header>) {
    forall i, j | 0 <= i < j < |h| :: h[i].name != h[j].name
  }

  /** With distinct names every entry's value, except under `__proto__`, is
      in the object under its name. */
  lemma {:induction false} HeadersObjectValues(h: seq<Header>)
    requires DistinctNames(h)
    ensures forall i | 0 <= i < |h| && h[i].name != ProtoKey ::
      h[i].name in HeadersObject(h) && HeadersObject(h)[h[i].name] == h[i].value
    decreases |h|
  {
    if |h| > 0 {
      var p := h[..|h| - 1];
      assert forall i | 0 <= i < |p| :: p[i] == h[i];
      HeadersObjectValues(p);
    }
  }

  /** Reading the object under a lower-cased name gives what `headers.get`
      gives, for names the platform has lower-cased and listed once, except
      `__proto__`, which the object never holds. */
  lemma HeadersObjectAgreesWithGet(h: seq<Header>, name: string)
    requires DistinctNames(h)
    ensures ToLower(name) == ProtoKey ==> ToLower(name) !in HeadersObject(h)
    ensures ToLower(name) != ProtoKey ==> (ToLower(name) in HeadersObject(h) <==> GetHeader(h, name).Some?)
    ensures GetHeader(h, name).Some? && ToLower(name) != ProtoKey ==>
      HeadersObject(h)[ToLower(name)] == GetHeader(h, name).value
  {
    HeadersObjectKeys(h);
    HeadersObjectValues(h);
  }

  /** A request carrying a user agent is echoed with that member. */
  lemma HeadersExample()
    ensures var h := [Header("cf-connecting-ip", "203.0.113.1"), Header("user-agent", "test-agent")];
      HeadersObject(h)["user-agent"] == "test-agent" && |HeadersObject(h)| == 2
  {
    var h := [Header("cf-connecting-ip", "203.0.113.1"), Header("user-agent", "test-agent")];
    assert h[..1] == [h[0]] && h[..1][..0] == [];
    assert "cf-connecting-ip" != "user-agent";
  }

  /** A header named `__proto__` is read by `headers.get` but left out of the
      echoed object. */
  lemma ProtoHeaderDropped(v: string)
    ensures var h := [Header(ProtoKey, v)];
      GetHeader(h, ProtoKey) == Some(v) && HeadersObject(h) == map[]
  {
    var h := [Header(ProtoKey, v)];
    assert h[..0] == [];
  }
}
