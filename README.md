# worker-your-ip, modelled in Dafny

worker-your-ip is a Cloudflare Worker that tells callers their own network
identity. This identity is the client IP address and its family (IPv4, IPv6 or unknown). It also
includes the metadata the Cloudflare edge attaches to each request: geolocation,
ASN and organization, data center, and TLS and HTTP protocol. The worker answers on a fixed
table of paths. "/" gives an HTML page. Each of sixteen API paths gives plain
text, or JSON for /json and /headers.

The model covers the decision logic of the worker.

- **Address classification and resolution** (module `Ip`, file `Ip.dfy`).
  - `isIPv4` and `isIPv6` are written as explicit grammars. There is one predicate per alternative of each anchored regular expression, with counted repetition as an explicit count.
  - `getClientIP` is the ordered fallback over CF-Connecting-IP, the first X-Forwarded-For entry (trimmed), X-Real-IP and the literal "unknown".
- **JavaScript built-ins the core relies on** (module `JsBuiltins`, file `JsBuiltins.dfy`).
  - Truthiness and `x || null`.
  - Case-insensitive `Headers.get`.
  - `String.prototype.trim`, `split` and `join`.
  - `String(n)` for integers and its inverse.
- **Client-info assembly and the API handlers** (module `Api`, file `Api.dfy`).
  - `getAllClientInfo` as a record of 18 fields.
  - The JSON object it serialises to, with a decoder and the round trip.
  - Every `handleX` as a function from request to `(status, body)`.
  - `handleHeaders` as a method whose loop fills the headers object entry by entry.
- **HTML value formatting** (module `Html`, file `Html.dfy`).
  - `escapeHtml` as the literal chain of five global replacements.
  - A per-character reference for `escapeHtml`, and an unescaping inverse.
  - The location line.
  - The `N/A` fallbacks, the `AS` prefix, the ` (EU)` and region-code suffixes, and the coordinates condition.
  - The curl commands of the endpoint list.
  - The value-dependent parts of the page, gathered in `PageView`.
- **The route table** (module `Router`, file `Router.dfy`).
  - The `switch (path)` of `fetch` as a function into an `Endpoint` datatype, with a `None` default.
  - `Fetch` dispatches to the handlers and answers 404 "Not Found" for every other path.

The request is an input:
- its headers, as a sequence of `(name, value)` entries whose names the platform has already lower-cased;
- its edge metadata, an optional record in which every field is optional.

The URL path and hostname are passed as strings. Responses are abstract: a
status and a body, which is text, the client-info JSON object, or the headers
object.

In these places the model follows the code as written:
- The /ipv4 endpoint answers any address that is not IPv4 with "IPv4 address not available. You are using IPv6.". This includes "unknown". /ipv6 mirrors this (src/handlers/api.ts:72-73, 85-86).
- The family label for an unclassified address is the lower-case "unknown" (src/handlers/api.ts:38).
- A non-empty X-Forwarded-For header whose first entry is blank makes `getClientIP` return "". Resolution does not go on to X-Real-IP in that case (src/utils/ip.ts:37-40). `Ip.ClientIPExampleBlankForwarded` shows this.
- `handleHeaders` copies the entries into a plain object literal (src/handlers/api.ts:259-263). Assigning a string under the name `__proto__` runs the inherited prototype setter, which ignores a non-object value. So a header of that name is read by `headers.get` but never appears in the echoed object. `Api.HeadersObject` and the `HandleHeaders` loop skip that name, and `Api.ProtoHeaderDropped` shows it.

## Model

| member | source | states |
|---|---|---|
| Ip.IsIPv4 | src/utils/ip.ts:4-10 | definition: non-empty and `(X\.){3}X` with the IPv4 octet X; its properties are Ip.IPv4Fields, Ip.IPv4Chars, Ip.IPv4Accepted and Ip.Exclusive |
| Ip.IsIPv6 | src/utils/ip.ts:15-25 | definition: non-empty, not IPv4, and matching the IPv6 expression; its properties are Ip.Ipv6GuardRedundant, Ip.PatternIsIPv6 and Ip.IPv6HasColon |
| Ip.Ipv6Pattern | src/utils/ip.ts:22-23 | definition: the twelve alternatives of the IPv6 expression, in source order; its properties are Ip.Ipv6PatternChars and the `...Accepted` lemmas |
| Ip.FullForm | src/utils/ip.ts:23 | definition: `(H:){7}H`; instances in Ip.FullFormAccepted |
| Ip.TrailingCompressed | src/utils/ip.ts:23 | definition: `(H:){1,7}:`; instances in Ip.TrailingCompressedAccepted |
| Ip.InnerCompressed | src/utils/ip.ts:23 | definition: `(H:){1,k}(:H){1,m}` for the six (k, m) pairs of the source; instances in Ip.InnerCompressedAccepted |
| Ip.LeadingCompressed | src/utils/ip.ts:23 | definition: `:((:H){1,7}\|:)`; instances in Ip.LeadingCompressedAccepted |
| Ip.LinkLocalZoned | src/utils/ip.ts:23 | definition: `fe80:(:G){0,4}%Z` with groups of 0-4 hex digits and an alphanumeric zone; instances in Ip.LinkLocalZonedAccepted |
| Ip.MappedEmbedded | src/utils/ip.ts:23 | definition: `::(ffff(:0{1,4})?:)?` then a dotted quad; instances in Ip.MappedEmbeddedAccepted |
| Ip.CompressedEmbedded | src/utils/ip.ts:23 | definition: `(H:){1,4}:` then a dotted quad; instances in Ip.CompressedEmbeddedAccepted |
| Ip.IPv4Fields | src/utils/ip.ts:7-9 | a string is IPv4 exactly when splitting at '.' gives four fields, each 1-3 decimal digits with value at most 255 (leading zeros allowed) |
| Ip.IPv4Chars | src/utils/ip.ts:8 | an IPv4 literal consists of decimal digits and dots only |
| Ip.Ipv6PatternChars | src/utils/ip.ts:22-23 | every string the IPv6 expression accepts is made of address characters and contains a ':' |
| Ip.Ipv6GuardRedundant | src/utils/ip.ts:19-24 | the IPv6 expression never accepts an IPv4 literal, so `isIPv6` is exactly the IPv6 expression |
| Ip.Exclusive | src/utils/ip.ts:19 | no string is both IPv4 and IPv6 |
| Ip.StrayCharRejected | src/utils/ip.ts:7-24 | a string holding any character outside the address alphabet is neither IPv4 nor IPv6 |
| Ip.AnchoredRejection | src/utils/ip.ts:7-24 | adding a non-address character (such as a space) before or after any string makes it neither IPv4 nor IPv6 |
| Ip.IPv6HasColon | src/utils/ip.ts:23 | every IPv6 literal contains a ':' |
| Ip.PatternIsIPv6 | src/utils/ip.ts:19-24 | whatever the IPv6 expression matches is classified IPv6 |
| Ip.IPv4Accepted | src/utils/ip.ts:7-9 | any four octets of `isIPv4` joined with '.' are IPv4 |
| Ip.FullFormAccepted | src/utils/ip.ts:23 | any eight hex groups of 1-4 digits joined with ':' are IPv6 |
| Ip.TrailingCompressedAccepted | src/utils/ip.ts:23 | one to seven groups followed by "::" are IPv6 |
| Ip.InnerCompressedAccepted | src/utils/ip.ts:23 | g groups, "::", then h groups with g, h >= 1 and g + h <= 7 are IPv6 |
| Ip.InnerCompressedIsIPv6 | src/utils/ip.ts:23 | each of the six inner-compression alternatives implies IPv6 |
| Ip.LeadingCompressedAccepted | src/utils/ip.ts:23 | "::" followed by one to seven groups is IPv6 |
| Ip.LinkLocalZonedAccepted | src/utils/ip.ts:23 | "fe80:", up to four groups of 0-4 hex digits each after a ':', then '%' and a non-empty alphanumeric zone index is IPv6 |
| Ip.MappedEmbeddedAccepted | src/utils/ip.ts:23 | "::", then nothing, "ffff:" or "ffff:" with one to four zeros and ':', then four embedded octets joined with '.', is IPv6 |
| Ip.CompressedEmbeddedAccepted | src/utils/ip.ts:23 | one to four groups each followed by ':', one more ':', then four embedded octets joined with '.', is IPv6 |
| Ip.DottedFromChars | src/utils/ip.ts:8 | a dotted run of octets consists of digits and dots only |
| Ip.IPv4ExamplePrivateC | test/ip.test.ts:7 | "192.168.1.1" is IPv4 and not IPv6 |
| Ip.IPv4ExamplePrivateA | test/ip.test.ts:8 | "10.0.0.1" is IPv4 and not IPv6 |
| Ip.IPv4ExamplePrivateB | test/ip.test.ts:9 | "172.16.0.1" is IPv4 and not IPv6 |
| Ip.IPv4ExamplePublic | test/ip.test.ts:10 | "8.8.8.8" is IPv4 and not IPv6 |
| Ip.IPv4ExampleBroadcast | test/ip.test.ts:11 | "255.255.255.255" is IPv4 and not IPv6 |
| Ip.IPv4ExampleZero | test/ip.test.ts:12 | "0.0.0.0" is IPv4 and not IPv6 |
| Ip.IPv4ExampleOutOfRange | test/ip.test.ts:23 | "256.256.256.256" is not IPv4 |
| Ip.ExampleNotAnAddress | test/ip.test.ts:22-44 | "not-an-ip" is neither IPv4 nor IPv6 |
| Ip.ExampleEmpty | src/utils/ip.ts:5-16 | the empty string is neither IPv4 nor IPv6 |
| Ip.ExampleTrailingSpace | src/utils/ip.ts:7-24 | "192.168.1.1 " is neither IPv4 nor IPv6 |
| Ip.IPv6ExampleDocumentation | test/ip.test.ts:33 | "2001:db8::1" is IPv6 and not IPv4 |
| Ip.IPv6ExampleLinkLocal | test/ip.test.ts:32 | "fe80::1" is IPv6 and not IPv4 |
| Ip.IPv6ExampleLoopback | test/ip.test.ts:31 | "::1" is IPv6 and not IPv4 |
| Ip.IPv6ExampleUnspecified | test/ip.test.ts:34 | "::" is IPv6 and not IPv4 |
| Ip.IPv6ExampleZone | src/utils/ip.ts:23 | "fe80::1%eth0" is IPv6 and not IPv4 |
| Ip.IPv6ExampleMapped | src/utils/ip.ts:23 | "::ffff:1.2.3.4" is IPv6 and not IPv4 |
| Ip.IPv6ExampleEmbedded | src/utils/ip.ts:23 | "2001:db8::1.2.3.4" is IPv6 and not IPv4 |
| Ip.GetClientIP | src/utils/ip.ts:30-47 | definition: the ordered fallback of the source; its properties are Ip.ClientIPPrefersConnectingIp, Ip.ClientIPFromForwarded, Ip.ClientIPFallback and Ip.ClientIPFromHeaderText |
| Ip.HeaderNamesLowered | src/utils/ip.ts:32-43 | the three header names read as the platform's lower-cased names |
| Ip.FirstForwardedSpec | src/utils/ip.ts:39 | the first X-Forwarded-For entry is the trimmed text before the first comma; it holds no comma and no surrounding whitespace |
| Ip.FirstForwardedIsSubstring | src/utils/ip.ts:39 | the first entry is a substring of the header value |
| Ip.ClientIPPrefersConnectingIp | src/utils/ip.ts:32-33 | a non-empty CF-Connecting-IP is returned verbatim whatever the other headers hold |
| Ip.ClientIPFromForwarded | src/utils/ip.ts:36-40 | without CF-Connecting-IP, a non-empty X-Forwarded-For gives its trimmed first entry, and X-Real-IP is not consulted |
| Ip.ClientIPFallback | src/utils/ip.ts:43-46 | without the first two, a non-empty X-Real-IP is returned verbatim and otherwise "unknown" |
| Ip.UnknownIsNoAddress | src/utils/ip.ts:46 | "unknown" is neither IPv4 nor IPv6 |
| Ip.ClientIPFromHeaderText | src/utils/ip.ts:30-47 | the result is "unknown" or a substring of some header value: nothing is invented |
| Ip.FirstForwardedExample | src/utils/ip.ts:39 | "198.51.100.9, 10.0.0.1" gives "198.51.100.9" |
| Ip.ClientIPExampleForwarded | src/utils/ip.ts:36-40 | a request with only that X-Forwarded-For header resolves to "198.51.100.9" |
| Ip.ClientIPExampleBlankForwarded | src/utils/ip.ts:37-40 | X-Forwarded-For " , 10.0.0.1" resolves to "" although X-Real-IP is set |
| Ip.ClientIPExampleConnectingIp | src/utils/ip.ts:32-33 | CF-Connecting-IP wins over X-Real-IP |
| JsBuiltins.OrNull | src/handlers/api.ts:39 | `x \|\| null` is present exactly when x is truthy, and then equals x |
| JsBuiltins.OrNullNumber | src/handlers/api.ts:49 | `asn \|\| null` is present exactly when asn is non-zero, and then equals asn |
| JsBuiltins.ToLower | src/utils/ip.ts:32 | lower-casing keeps the length and maps each character separately |
| JsBuiltins.ToLowerIdempotent | src/utils/ip.ts:32 | lower-casing twice is lower-casing once |
| JsBuiltins.Lookup | src/utils/ip.ts:32 | the lookup finds nothing exactly when no entry has the name, and otherwise finds an entry's value |
| JsBuiltins.GetHeaderIgnoresCase | src/utils/ip.ts:32-43 | `headers.get` gives the same answer for a name and its lower-case form |
| JsBuiltins.GetHeader | src/utils/ip.ts:32 | definition: the first entry under the lower-cased name; its properties are JsBuiltins.GetHeaderIgnoresCase and Api.HeadersObjectAgreesWithGet |
| JsBuiltins.Trim | src/utils/ip.ts:39 | definition: cut the whitespace at both ends; its properties are JsBuiltins.TrimIsSlice, JsBuiltins.TrimUnchanged and JsBuiltins.TrimIdempotent |
| JsBuiltins.TrimIsSlice | src/utils/ip.ts:39 | `trim` returns a slice with only whitespace cut away on either side and no whitespace at its ends |
| JsBuiltins.TrimUnchanged | src/utils/ip.ts:39 | a string without whitespace at its ends is its own trim |
| JsBuiltins.TrimIdempotent | src/utils/ip.ts:39 | trimming twice is trimming once |
| JsBuiltins.Split | src/utils/ip.ts:39 | a split always has at least one field; its other properties are JsBuiltins.SplitFirst, JsBuiltins.SplitFromFields and JsBuiltins.JoinSplit |
| JsBuiltins.Join | src/handlers/html.ts:39 | definition: the fields with the separator between neighbours; its properties are JsBuiltins.JoinSplit and Html.LocationPrimaryJoins |
| JsBuiltins.SplitFirst | src/utils/ip.ts:39 | `split(",")[0]` is the text before the first comma, or the whole string when it has none |
| JsBuiltins.SplitFromFields | src/utils/ip.ts:39 | no field of a split contains the separator |
| JsBuiltins.JoinSplit | src/utils/ip.ts:39 | joining the fields of a split with the separator gives back the string |
| JsBuiltins.NumberToString | src/handlers/api.ts:188 | `String(n)` is canonical: digits without a leading zero (except "0"), signed with '-' exactly when n is negative |
| JsBuiltins.ParseInt | src/handlers/api.ts:188 | definition: reads an optional '-' and decimal digits; its properties are JsBuiltins.NumberToStringRoundTrip and JsBuiltins.ParseIntRoundTrip |
| JsBuiltins.ParseIntRoundTrip | src/handlers/api.ts:188 | every canonical integer text is exactly what `String` writes for the value read from it |
| JsBuiltins.CanonicalDigitsRoundTrip | src/handlers/api.ts:188 | canonical digits are rendered back exactly as read |
| JsBuiltins.NumberToStringRoundTrip | src/handlers/api.ts:188 | the decimal rendering of an integer parses back to that integer |
| JsBuiltins.NumberToStringInjective | src/handlers/api.ts:188 | different integers render differently |
| Api.Metadata | src/handlers/api.ts:34 | `request.cf \|\| {}` is the record with every field absent when there is none |
| Api.IpVersionLabel | src/handlers/api.ts:38 | the label is "IPv4" iff the address is IPv4, "IPv6" iff it is IPv6, "unknown" iff neither |
| Api.GetAllClientInfo | src/handlers/api.ts:32-56 | definition: the 18-field record; its properties are Api.ClientInfoFields, Api.CountryIsEUExactlyOne, Api.ClientInfoWithoutMetadata and Api.FalsyBecomesNull |
| Api.ClientInfoFields | src/handlers/api.ts:32-56 | the record's address comes only from the headers and its label only from the address; countryIsEU holds iff the flag is "1"; each other field is its upstream field when truthy and null otherwise; organization comes from asOrganization |
| Api.CountryIsEUExactlyOne | src/handlers/api.ts:40 | with an EU flag present, countryIsEU holds iff the flag is exactly "1" |
| Api.ClientInfoWithoutMetadata | src/handlers/api.ts:34-54 | without metadata every optional field is null and countryIsEU is false |
| Api.FalsyBecomesNull | src/handlers/api.ts:41-49 | an empty city and an ASN of 0 both become null |
| Api.ToJson | src/handlers/api.ts:36-55 | the JSON object has exactly the 18 keys ip ... tlsCipher |
| Api.KeyNamesDistinct | src/handlers/api.ts:36-55 | the 18 member names are pairwise distinct |
| Api.JsonNulls | src/handlers/api.ts:39-54 | country, asn and organization are JSON null exactly when absent from the record; ip and countryIsEU are never null |
| Api.JsonRoundTrip | src/handlers/api.ts:36-55 | decoding the JSON object gives back the record |
| Api.HandleIP | src/handlers/api.ts:61-64 | /ip always answers 200 with the resolved address |
| Api.HandleIPv4 | src/handlers/api.ts:69-77 | 200 with the address iff it is IPv4, otherwise 400 with the fixed IPv4 message |
| Api.HandleIPv6 | src/handlers/api.ts:82-90 | 200 with the address iff it is IPv6, otherwise 400 with the fixed IPv6 message |
| Api.FamilyEndpointsExclusive | src/handlers/api.ts:69-90 | /ipv4 and /ipv6 never both answer 200 for one request |
| Api.FieldResponse | src/handlers/api.ts:99-103 | a single-field answer is 200 with the value unchanged iff the value is truthy, otherwise 404 with the field's message |
| Api.HandleCountry | src/handlers/api.ts:95-104 | /country is the single-field answer for country, with its message |
| Api.HandleCity | src/handlers/api.ts:109-118 | /city is the single-field answer for city |
| Api.HandleRegion | src/handlers/api.ts:123-132 | /region is the single-field answer for region |
| Api.HandleTimezone | src/handlers/api.ts:137-146 | /timezone is the single-field answer for timezone |
| Api.HandleContinent | src/handlers/api.ts:166-175 | /continent is the single-field answer for continent |
| Api.HandleOrg | src/handlers/api.ts:194-203 | /org is the single-field answer for asOrganization |
| Api.HandleColo | src/handlers/api.ts:208-217 | /colo is the single-field answer for colo |
| Api.HandleTLS | src/handlers/api.ts:222-231 | /tls is the single-field answer for tlsVersion |
| Api.HandleProtocol | src/handlers/api.ts:236-245 | /protocol is the single-field answer for httpProtocol |
| Api.HandleCoordinates | src/handlers/api.ts:151-161 | 200 with "lat,lon" iff both are truthy, otherwise 404 with the coordinates message |
| Api.CoordinatesSplit | src/handlers/api.ts:160 | a comma-free latitude and longitude can be split apart from the body again |
| Api.HandleASN | src/handlers/api.ts:180-189 | 200 iff the ASN is non-zero, with a canonical decimal body (no leading zero) that parses back to the ASN; otherwise 404 |
| Api.HandleJSON | src/handlers/api.ts:250-253 | /json answers 200 with an object that decodes to the client-info record |
| Api.HeadersObject | src/handlers/api.ts:259-263 | definition: the object the assignments build, each name holding its last value and `__proto__` never stored; its properties are the three lemmas below |
| Api.HandleHeaders | src/handlers/api.ts:258-266 | the loop builds, entry by entry, exactly that object, and answers 200 with it |
| Api.HeadersObjectKeys | src/handlers/api.ts:261-263 | the object's names are exactly the header names other than `__proto__` |
| Api.HeadersObjectValues | src/handlers/api.ts:261-263 | with distinct names, every header's value, except under `__proto__`, is in the object under its name |
| Api.HeadersObjectAgreesWithGet | src/handlers/api.ts:261-263 | the object read under a lower-cased name agrees with `headers.get`, except that `__proto__` is never in the object |
| Api.ProtoHeaderDropped | src/handlers/api.ts:262 | a `__proto__` header is found by `headers.get` but the echoed object is empty |
| Api.HeadersExample | test/api.test.ts:94-103 | a user-agent of "test-agent" is echoed under "user-agent" beside the address header |
| Html.ReplaceAll | src/handlers/html.ts:27 | definition: a global replace of one character; its properties are Html.ReplaceAllAbsent and Html.EscapeChainIsPerCharacter |
| Html.EscapeChain | src/handlers/html.ts:26-31 | definition: the five replacements in source order; its properties are Html.EscapeChainIsPerCharacter, Html.EscapedHasNoMarkup and Html.EscapeRoundTrip |
| Html.EscapeHtml | src/handlers/html.ts:24-25 | the result is empty iff the input is null, undefined or "" |
| Html.Entity | src/handlers/html.ts:27-31 | every character's replacement is non-empty |
| Html.EscapeChainChar | src/handlers/html.ts:26-31 | the chain of five replacements maps each single character to its entity (or to itself) |
| Html.EscapeChainIsPerCharacter | src/handlers/html.ts:26-31 | the replacement chain equals the per-character substitution |
| Html.EscapeEachLength | src/handlers/html.ts:26-31 | escaping never shortens a string |
| Html.EscapedHasNoMarkup | src/handlers/html.ts:26-31 | the escaped text contains no <, >, " or ' |
| Html.EscapedAmpersandsBeginEntities | src/handlers/html.ts:27-31 | every & in the escaped text begins one of &amp; &lt; &gt; &quot; &#039; |
| Html.PlainTextUnchanged | src/handlers/html.ts:26-31 | a string without any of the five characters is returned unchanged |
| Html.ReplaceAllAbsent | src/handlers/html.ts:27 | a global replace of a character that does not occur changes nothing |
| Html.EscapeRoundTrip | src/handlers/html.ts:26-31 | unescaping the escaped text gives back the original: nothing is double-escaped or lost |
| Html.Fallback | src/handlers/html.ts:196-224 | `escapeHtml(x) \|\| fallback` shows the escaped value when x is truthy and the fallback otherwise |
| Html.FallbackReadsBack | src/handlers/html.ts:210 | a shown value decodes to the field |
| Html.FallbackOnlyWhenMissing | src/handlers/html.ts:210 | the fallback is shown for a present value only when that value is the fallback text itself, once decoded |
| Html.Display | src/handlers/html.ts:270-282 | a table cell is the escaped field when truthy, otherwise "N/A" |
| Html.AsnDisplay | src/handlers/html.ts:277 | a non-zero ASN shows as "AS" followed by canonical decimal text that parses back to it, otherwise "N/A" |
| Html.AsnDisplayHasNoMarkup | src/handlers/html.ts:209 | the ASN card, which is not escaped, contains no <, >, " or ' |
| Html.CountryCell | src/handlers/html.ts:269 | with countryIsEU the cell is the displayed country followed by " (EU)", otherwise the displayed country alone |
| Html.RegionCell | src/handlers/html.ts:271 | with a truthy region code the cell is the displayed region, " (", the escaped code and ")"; otherwise the displayed region alone |
| Html.Present | src/handlers/html.ts:39 | `filter(Boolean)` keeps only non-empty strings |
| Html.PresentOfThree | src/handlers/html.ts:39 | filtering city, region and country keeps exactly the truthy ones, in that order |
| Html.LocationPrimary | src/handlers/html.ts:38-39 | definition: the present members joined with ", " or "N/A"; its properties are the four lemmas below |
| Html.LocationPrimaryMissing | src/handlers/html.ts:38-39 | with none of the three present, the location is "N/A" |
| Html.LocationPrimaryJoins | src/handlers/html.ts:38-39 | otherwise it is the present members, in order, joined with ", " |
| Html.LocationPrimaryAll | src/handlers/html.ts:38-39 | with all three present it is city, region and country joined with ", " |
| Html.LocationPrimarySkipsMissing | src/handlers/html.ts:38-39 | a missing region leaves no empty slot between city and country |
| Html.CoordinatesCard | src/handlers/html.ts:237-238 | coordinates are shown, escaped, exactly when both latitude and longitude are truthy |
| Html.DetailRows | src/handlers/html.ts:266-283 | the table has sixteen rows, labelled "IP Address" through "TLS Cipher" in the page's order |
| Html.DetailCellsHaveNoMarkup | src/handlers/html.ts:266-283 | no table cell contains <, >, " or ' |
| Html.CurlCommand | src/handlers/html.ts:377 | the command is exactly "curl https://" then the hostname then the path |
| Html.EndpointDocs | src/handlers/html.ts:307-322 | sixteen entries, with the paths in the page's order |
| Html.EndpointCommandsReadBack | src/handlers/html.ts:377-389 | each listed command decodes to the curl command of its own path |
| Html.CountryBadge | src/handlers/html.ts:155-159 | the country badge appears exactly when the country is truthy |
| Html.ColoBadge | src/handlers/html.ts:160-164 | the data center badge appears exactly when colo is truthy |
| Html.ContinentLine | src/handlers/html.ts:196 | the continent or "Continent N/A", then " • " and the escaped postal code when one is present |
| Html.VersionBadge | src/handlers/html.ts:153 | definition: the escaped label or "Unknown"; its property is Html.VersionBadgeIsLabel |
| Html.MapsQuery | src/handlers/html.ts:240 | definition: latitude, ',' and longitude, unescaped; its property is Html.CoordinatesAgreeWithEndpoint |
| Html.GeneratePage | src/handlers/html.ts:34-369 | definition: the value-dependent text of the page; its properties are Router.PageMatchesEndpoints and the badge and card lemmas |
| Html.VersionBadgeIsLabel | src/handlers/html.ts:153 | the version badge always shows the family label; its "Unknown" fallback is never reached |
| Html.LabelIsAlphanumeric | src/handlers/html.ts:153 | each family label is non-empty and alphanumeric |
| Html.CoordinatesAgreeWithEndpoint | src/handlers/html.ts:237-240 | the coordinates card and the maps link appear exactly when /coordinates answers 200, and the link query is that body |
| Html.AsnCardAgreesWithEndpoint | src/handlers/html.ts:209 | the ASN card is "N/A" exactly when /asn answers 404, and otherwise "AS" followed by its body |
| Html.CountryBadgeAgreesWithEndpoint | src/handlers/html.ts:155-159 | the country badge appears exactly when /country answers 200, and decodes to its body followed by " (EU)" for an EU country |
| Html.MainIpIsEndpointBody | src/handlers/html.ts:149 | the main address on the page decodes to the /ip body |
| Router.Route | src/index.ts:36-73 | definition: the exact-match switch with `None` as the default; its properties are Router.RouteOfPath, Router.PathOfRoute and Router.UnlistedPathsFallThrough |
| Router.Respond | src/index.ts:37-70 | definition: the handler of each case; its properties are Router.RespondStatus and Router.Fetch |
| Router.RouteOfPath | src/index.ts:36-70 | every endpoint's path routes to that endpoint |
| Router.PathOfRoute | src/index.ts:36-70 | a routed path is exactly its endpoint's path: matching is exact and case-sensitive |
| Router.PathsDistinct | src/index.ts:36-70 | the seventeen paths are pairwise distinct |
| Router.UnlistedPathsFallThrough | src/index.ts:36-73 | the default branch is taken exactly for paths no endpoint has |
| Router.DocumentedPathsAreRouted | src/handlers/html.ts:307-322 | every path the page documents is routed to an API endpoint |
| Router.ApiEndpointsAreDocumented | src/handlers/html.ts:307-322 | every API endpoint is documented on the page |
| Router.PageAgreesWithApi | src/index.ts:37-38 | the page's address decodes to the /ip body, its version badge is the /json version, and its country badge, coordinates and ASN card appear exactly when /country, /coordinates and /asn answer 200 |
| Router.PageTableAndCommands | src/handlers/html.ts:307-322 | the page's table holds no markup and every command it lists names a routed path |
| Router.PageMatchesEndpoints | src/index.ts:37-38 | the page at "/" agrees with /ip, /country, /coordinates and /asn; its table holds no markup; every command it lists names a routed path |
| Router.Fetch | src/index.ts:32-73 | an unlisted path answers 404 "Not Found"; a listed one answers with its endpoint's response, "/" with the page |
| Router.RespondStatus | src/index.ts:36-72 | only 200, 400 and 404 occur; 400 only on /ipv4 and /ipv6; "/", /ip, /json and /headers always answer 200 |
| Router.RouteExamples | test/api.test.ts:213-217 | "/ip" and "/headers" are routed; "/IP", "/ip/", "" and "/unknown-path" are not |

## Left out

- src/utils/response.ts is not part of this model. Responses are a status plus an abstract body. The Content-Type header, the other fixed headers and the text that `JSON.stringify` writes are left out. Only the members and their nullness are modelled.
- The markup, styles and scripts of the page (src/handlers/html.ts:41-369) and the browser-side copy script are not modelled. `PageView` holds the value-dependent text only.
- URL parsing is not modelled: the path (src/index.ts:32-33) and the hostname (src/handlers/html.ts:36) are inputs.
- The platform fills `request.cf`. It is an input record whose fields may all be absent. The platform's types are not modelled. A number stored in a string field, or the reverse, is outside the model.
- `clientAcceptEncoding` and `requestPriority` are declared in the metadata record but never read. They are not modelled.
- The environment and execution-context parameters of `fetch` and the asynchronous `Request`/`Response` plumbing are not modelled.
- Header entries are a sequence with lower-cased names. A lookup returns the first matching entry. The way the platform combines repeated names into one comma-joined value is not modelled. `Api.HeadersObjectValues` therefore assumes each name occurs once.
- `JsBuiltins.ToLower` lower-cases ASCII letters only. Header names are ASCII tokens.
- `String.prototype.trim` uses the fixed ECMAScript whitespace and line-terminator set, with the Unicode space separators listed as a fixed range. Other Unicode version differences are not modelled.
- Html.AsnDisplay: the metadata ASN is modelled as an integer, so `String(asn)` is integer rendering only. Fractions, NaN and exponent forms of a JavaScript number are not modelled.
- Html.MapsQuery: the maps link writes latitude and longitude without escaping. The model keeps it raw and proves only that it agrees with the /coordinates body, not that it is markup-free.
- Ip.FullFormAccepted is proved for every eight-group literal. The specific test literal "2001:0db8:85a3:0000:0000:8a2e:0370:7334" is covered only through this general lemma and has no example lemma of its own.
- The regular expressions are modelled as the languages they denote. JavaScript's regex engine and backtracking behaviour are not modelled. The two octet forms differ:
  - `isIPv4` accepts a three-digit octet that starts with 0, such as "005";
  - the embedded IPv4 octet of the IPv6 expression does not accept one.
  Each is modelled as written.
- The test harness (`SELF.fetch`, execution contexts) is not modelled. Test assertions are used only as example lemmas.
