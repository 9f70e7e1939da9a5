/**
  The value-dependent parts of the HTML page: `escapeHtml`, the fallbacks
  each field is shown with, the location line, the ASN and coordinates
  cards, the details table and the curl commands of the endpoint list.
  The surrounding markup is fixed text and is not modelled.
*/
module Html {
  import opened JsBuiltins
  import opened Ip
  import opened Api

  // ===========================================================================
  // escapeHtml

  /** `s.replace(/c/g, rep)` for a single character `c`. */
  function ReplaceAll(s: string, c: char, rep: string): string
    decreases |s|
  {
    if |s| == 0 then "" else (if s[0] == c then rep else [s[0]]) + ReplaceAll(s[1..], c, rep)
  }

  lemma {:induction false} ReplaceAllAppend(a: string, b: string, c: char, rep: string)
    ensures ReplaceAll(a + b, c, rep) == ReplaceAll(a, c, rep) + ReplaceAll(b, c, rep)
    decreases |a|
  {
    if |a| == 0 {
      assert a + b == b;
    } else {
      assert (a + b)[0] == a[0];
      assert (a + b)[1..] == a[1..] + b;
      ReplaceAllAppend(a[1..], b, c, rep);
    }
  }

  /** Replacing a character that does not occur changes nothing. */
  lemma {:induction false} ReplaceAllAbsent(s: string, c: char, rep: string)
    requires c !in s
    ensures ReplaceAll(s, c, rep) == s
    decreases |s|
  {
    if |s| > 0 {
      assert s[0] != c;
      assert c !in s[1..] by {
        assert forall k | 0 <= k < |s[1..]| :: s[1..][k] == s[k + 1];
      }
      ReplaceAllAbsent(s[1..], c, rep);
    }
  }

  /** The five replacements of `escapeHtml`, `&` first. */
  function EscapeChain(s: string): string {
    var amp := ReplaceAll(s, '&', "&amp;");
    var lt := ReplaceAll(amp, '<', "&lt;");
    var gt := ReplaceAll(lt, '>', "&gt;");
    var quot := ReplaceAll(gt, '"', "&quot;");
    ReplaceAll(quot, '\'', "&#039;")
  }

  /** `escapeHtml`: the empty string for null, undefined and "". */
  function EscapeHtml(text: Option<string>): (r: string)
    ensures r == "" <==> !Truthy(text)
  {
    if !Truthy(text) then "" else
      EscapeChainIsPerCharacter(text.value);
      EscapeEachLength(text.value);
      EscapeChain(text.value)
  }

  /** The characters `escapeHtml` rewrites. */
  predicate Special(c: char) {
    c == '&' || c == '<' || c == '>' || c == '"' || c == '\''
  }

  /** The entity each character is written as; other characters stand for
      themselves. A reference definition of the replace chain. */
  function Entity(c: char): (e: string)
    ensures |e| >= 1
  {
    if c == '&' then "&amp;"
    else if c == '<' then "&lt;"
    else if c == '>' then "&gt;"
    else if c == '"' then "&quot;"
    else if c == '\'' then "&#039;"
    else [c]
  }

  /** Every character replaced by its entity, in one pass. */
  function EscapeEach(s: string): string
    decreases |s|
  {
    if |s| == 0 then "" else Entity(s[0]) + EscapeEach(s[1..])
  }

  lemma EscapeChainAppend(a: string, b: string)
    ensures EscapeChain(a + b) == EscapeChain(a) + EscapeChain(b)
  {
    ReplaceAllAppend(a, b, '&', "&amp;");
    var a1, b1 := ReplaceAll(a, '&', "&amp;"), ReplaceAll(b, '&', "&amp;");
    ReplaceAllAppend(a1, b1, '<', "&lt;");
    var a2, b2 := ReplaceAll(a1, '<', "&lt;"), ReplaceAll(b1, '<', "&lt;");
    ReplaceAllAppend(a2, b2, '>', "&gt;");
    var a3, b3 := ReplaceAll(a2, '>', "&gt;"), ReplaceAll(b2, '>', "&gt;");
    ReplaceAllAppend(a3, b3, '"', "&quot;");
    var a4, b4 := ReplaceAll(a3, '"', "&quot;"), ReplaceAll(b3, '"', "&quot;");
    ReplaceAllAppend(a4, b4, '\'', "&#039;");
  }

  lemma ReplaceAllOne(c: char, d: char, rep: string)
    ensures ReplaceAll([c], d, rep) == if c == d then rep else [c]
  {
    assert [c][1..] == [];
  }

  /** None of the four later targets occurs in an entity, so a later
      replacement never rewrites an entity written by an earlier one. */
  lemma LaterStepsKeep(e: string)
    requires '<' !in e && '>' !in e && '"' !in e && '\'' !in e
    ensures ReplaceAll(ReplaceAll(ReplaceAll(ReplaceAll(e, '<', "&lt;"), '>', "&gt;"), '"', "&quot;"), '\'', "&#039;") == e
  {
    ReplaceAllAbsent(e, '<', "&lt;");
    ReplaceAllAbsent(e, '>', "&gt;");
    ReplaceAllAbsent(e, '"', "&quot;");
    ReplaceAllAbsent(e, '\'', "&#039;");
  }

  lemma TailStepsKeep(e: string)
    requires '>' !in e && '"' !in e && '\'' !in e
    ensures ReplaceAll(ReplaceAll(ReplaceAll(e, '>', "&gt;"), '"', "&quot;"), '\'', "&#039;") == e
  {
    ReplaceAllAbsent(e, '>', "&gt;");
    ReplaceAllAbsent(e, '"', "&quot;");
    ReplaceAllAbsent(e, '\'', "&#039;");
  }

  lemma LastStepsKeep(e: string)
    requires '"' !in e && '\'' !in e
    ensures ReplaceAll(ReplaceAll(e, '"', "&quot;"), '\'', "&#039;") == e
  {
    ReplaceAllAbsent(e, '"', "&quot;");
    ReplaceAllAbsent(e, '\'', "&#039;");
  }

  /** On one character the chain yields that character's entity. */
  lemma EscapeChainChar(c: char)
    ensures EscapeChain([c]) == Entity(c)
  {
    ReplaceAllOne(c, '&', "&amp;");
    if c == '&' {
      LaterStepsKeep("&amp;");
      return;
    }
    ReplaceAllOne(c, '<', "&lt;");
    if c == '<' {
      TailStepsKeep("&lt;");
      return;
    }
    ReplaceAllOne(c, '>', "&gt;");
    if c == '>' {
      LastStepsKeep("&gt;");
      return;
    }
    ReplaceAllOne(c, '"', "&quot;");
    if c == '"' {
      ReplaceAllAbsent("&quot;", '\'', "&#039;");
      return;
    }
    ReplaceAllOne(c, '\'', "&#039;");
  }

  /** The replace chain is the one-pass entity substitution. */
  lemma {:induction false} EscapeChainIsPerCharacter(s: string)
    ensures EscapeChain(s) == EscapeEach(s)
    decreases |s|
  {
    if |s| == 0 {
      assert ReplaceAll(s, '&', "&amp;") == "";
    } else {
      assert s == [s[0]] + s[1..];
      EscapeChainAppend([s[0]], s[1..]);
      EscapeChainChar(s[0]);
      EscapeChainIsPerCharacter(s[1..]);
    }
  }

  lemma {:induction false} EscapeEachLength(s: string)
    ensures |EscapeEach(s)| >= |s|
    decreases |s|
  {
    if |s| > 0 {
      EscapeEachLength(s[1..]);
    }
  }

  /** No character of the output can open a tag or close an attribute. */
  predicate NoMarkup(r: string) {
    forall i | 0 <= i < |r| :: r[i] != '<' && r[i] != '>' && r[i] != '"' && r[i] != '\''
  }

  lemma NoMarkupAppend(a: string, b: string)
    requires NoMarkup(a) && NoMarkup(b)
    ensures NoMarkup(a + b)
  {
    assert forall i | 0 <= i < |a + b| :: (a + b)[i] == if i < |a| then a[i] else b[i - |a|];
  }

  lemma {:induction false} EscapeEachNoMarkup(s: string)
    ensures NoMarkup(EscapeEach(s))
    decreases |s|
  {
    if |s| > 0 {
      EscapeEachNoMarkup(s[1..]);
      NoMarkupAppend(Entity(s[0]), EscapeEach(s[1..]));
    }
  }

  /** The escaped text contains no `<`, `>`, `"` or `'`. */
  lemma EscapedHasNoMarkup(s: string)
    ensures NoMarkup(EscapeChain(s))
  {
    EscapeChainIsPerCharacter(s);
    EscapeEachNoMarkup(s);
  }

  /** One of the five entities starts at position `i`. */
  predicate EntityAt(r: string, i: nat)
    requires i <= |r|
  {
    var t := r[i..];
    "&amp;" <= t || "&lt;" <= t || "&gt;" <= t || "&quot;" <= t || "&#039;" <= t
  }

  lemma EntityAtShift(a: string, b: string, i: nat)
    requires i <= |b| && EntityAt(b, i)
    ensures EntityAt(a + b, |a| + i)
  {
    assert (a + b)[|a| + i..] == b[i..];
  }

  lemma EntityAtHead(c: char, b: string)
    requires Special(c)
    ensures EntityAt(Entity(c) + b, 0)
  {
    assert (Entity(c) + b)[0..] == Entity(c) + b;
  }

  /** Every `&` of `r` begins an entity. */
  predicate AmpersandsBeginEntities(r: string) {
    forall i | 0 <= i < |r| && r[i] == '&' :: EntityAt(r, i)
  }

  lemma {:induction false} EscapeEachAmpersands(s: string)
    ensures AmpersandsBeginEntities(EscapeEach(s))
    decreases |s|
  {
    if |s| > 0 {
      var e, rest := Entity(s[0]), EscapeEach(s[1..]);
      EscapeEachAmpersands(s[1..]);
      var r := e + rest;
      forall i | 0 <= i < |r| && r[i] == '&'
        ensures EntityAt(r, i)
      {
        if i < |e| {
          assert e[i] == '&';
          assert Special(s[0]) && i == 0;
          EntityAtHead(s[0], rest);
        } else {
          var k := i - |e|;
          assert rest[k] == '&';
          assert EntityAt(rest, k);
          EntityAtShift(e, rest, k);
        }
      }
    }
  }

  /** Every `&` in the output begins one of the five entities, so an entity
      introduced by one replacement is never escaped a second time. */
  lemma EscapedAmpersandsBeginEntities(s: string)
    ensures AmpersandsBeginEntities(EscapeChain(s))
  {
    EscapeChainIsPerCharacter(s);
    EscapeEachAmpersands(s);
  }

  /** A text without any of the five characters is shown as it is. */
  lemma {:induction false} PlainTextUnchanged(s: string)
    requires forall i | 0 <= i < |s| :: !Special(s[i])
    ensures EscapeChain(s) == s
    decreases |s|
  {
    EscapeChainIsPerCharacter(s);
    if |s| > 0 {
      PlainTextUnchanged(s[1..]);
      EscapeChainIsPerCharacter(s[1..]);
    }
  }

  /** Decodes the five entities; every other character stands for itself. */
  function Unescape(r: string): string
    decreases |r|
  {
    if |r| == 0 then ""
    else if "&amp;" <= r then "&" + Unescape(r[5..])
    else if "&lt;" <= r then "<" + Unescape(r[4..])
    else if "&gt;" <= r then ">" + Unescape(r[4..])
    else if "&quot;" <= r then "\"" + Unescape(r[6..])
    else if "&#039;" <= r then "'" + Unescape(r[6..])
    else [r[0]] + Unescape(r[1..])
  }

  lemma UnescapeEntity(c: char, rest: string)
    ensures Unescape(Entity(c) + rest) == [c] + Unescape(rest)
  {
    var e := Entity(c);
    var r := e + rest;
    assert r[..|e|] == e;
    assert r[|e|..] == rest;
    if !Special(c) {
      assert r[0] == c && r[1..] == rest;
      assert !("&amp;" <= r) && !("&lt;" <= r) && !("&gt;" <= r) && !("&quot;" <= r) && !("&#039;" <= r);
    } else if c == '&' {
      assert "&amp;" <= r;
    } else if c == '<' {
      assert r[0] == '&' && r[1] == 'l';
      assert !("&amp;" <= r) && "&lt;" <= r;
    } else if c == '>' {
      assert r[0] == '&' && r[1] == 'g';
      assert !("&amp;" <= r) && !("&lt;" <= r) && "&gt;" <= r;
    } else if c == '"' {
      assert r[0] == '&' && r[1] == 'q';
      assert !("&amp;" <= r) && !("&lt;" <= r) && !("&gt;" <= r) && "&quot;" <= r;
    } else {
      assert r[0] == '&' && r[1] == '#';
      assert !("&amp;" <= r) && !("&lt;" <= r) && !("&gt;" <= r) && !("&quot;" <= r) && "&#039;" <= r;
    }
  }

  lemma {:induction false} UnescapeEscapeEach(s: string)
    ensures Unescape(EscapeEach(s)) == s
    decreases |s|
  {
    if |s| > 0 {
      UnescapeEntity(s[0], EscapeEach(s[1..]));
      UnescapeEscapeEach(s[1..]);
      assert s == [s[0]] + s[1..];
    }
  }

  /** Escaping loses nothing: the shown text decodes to the original value. */
  lemma EscapeRoundTrip(s: string)
    ensures Unescape(EscapeChain(s)) == s
  {
    EscapeChainIsPerCharacter(s);
    UnescapeEscapeEach(s);
  }

  // ===========================================================================
  // Field display rules

  const NotAvailable := "N/A"

  /** `escapeHtml(x) || fallback`. */
  function Fallback(x: Option<string>, fallback: string): (shown: string)
    ensures Truthy(x) ==> shown == EscapeChain(x.value)
    ensures !Truthy(x) ==> shown == fallback
  {
    var e := EscapeHtml(x);
    if e != "" then e else fallback
  }

  /** A shown value decodes to the field itself. */
  lemma FallbackReadsBack(x: Option<string>, fallback: string)
    requires Truthy(x)
    ensures Unescape(Fallback(x, fallback)) == x.value
  {
    EscapeRoundTrip(x.value);
  }

  /** `escapeHtml(x) || "N/A"`, the rule of most table cells. */
  function Display(x: Option<string>): (shown: string)
    ensures Truthy(x) ==> shown == EscapeChain(x.value)
    ensures !Truthy(x) ==> shown == NotAvailable
  {
    Fallback(x, NotAvailable)
  }

  /** The fallback only appears for a present value that escapes to the
      fallback text itself. */
  lemma FallbackOnlyWhenMissing(x: Option<string>, fallback: string)
    requires Fallback(x, fallback) == fallback && Truthy(x)
    ensures x.value == Unescape(fallback)
  {
    EscapeRoundTrip(x.value);
  }

  /** The ASN card and cell: "AS" and the number when it is truthy. */
  function AsnDisplay(asn: Option<int>): (shown: string)
    ensures TruthyNumber(asn) ==> |shown| > 2 && shown[..2] == "AS" && ParseInt(shown[2..]) == asn
    ensures TruthyNumber(asn) ==> CanonicalInteger(shown[2..])
    ensures !TruthyNumber(asn) ==> shown == NotAvailable
  {
    if TruthyNumber(asn) then
      var d := NumberToString(asn.value);
      NumberToStringRoundTrip(asn.value);
      assert ("AS" + d)[2..] == d;
      "AS" + d
    else NotAvailable
  }

  lemma NumberHasNoMarkup(n: int)
    ensures NoMarkup(NumberToString(n))
  {
    var d := NatString(if n < 0 then -n else n);
    assert NoMarkup(d) by {
      assert forall i | 0 <= i < |d| :: IsDigit(d[i]);
    }
    if n < 0 {
      NoMarkupAppend("-", d);
    }
  }

  lemma AsnDisplayHasNoMarkup(asn: Option<int>)
    ensures NoMarkup(AsnDisplay(asn))
  {
    if TruthyNumber(asn) {
      NumberHasNoMarkup(asn.value);
      NoMarkupAppend("AS", NumberToString(asn.value));
    }
  }

  /** What follows the country of an EU member state. */
  const EuMarker := " (EU)"

  /** The Country cell: the country or "N/A", then " (EU)" for EU members. */
  function CountryCell(info: ClientInfo): (shown: string)
    ensures info.countryIsEU ==> |shown| >= 5 && shown[|shown| - 5..] == EuMarker
    ensures info.countryIsEU ==> shown[..|shown| - 5] == Display(info.country)
    ensures !info.countryIsEU ==> shown == Display(info.country)
  {
    var base := Display(info.country);
    if info.countryIsEU then
      assert (base + EuMarker)[..|base|] == base;
      base + EuMarker
    else base
  }

  /** The Region cell: the region or "N/A", then the escaped code in
      parentheses when there is one. */
  function RegionCell(info: ClientInfo): (shown: string)
    ensures Truthy(info.regionCode) ==> shown == Display(info.region) + " (" + EscapeChain(info.regionCode.value) + ")"
    ensures !Truthy(info.regionCode) ==> shown == Display(info.region)
  {
    var base := Display(info.region);
    if Truthy(info.regionCode) then base + " (" + EscapeHtml(info.regionCode) + ")" else base
  }

  /** A value as the list `filter(Boolean)` keeps of it. */
  function Kept(x: Option<string>): seq<string> {
    if Truthy(x) then [x.value] else []
  }

  /** `filter(Boolean)`: the truthy values, in order. */
  function Present(xs: seq<Option<string>>): (r: seq<string>)
    ensures forall i | 0 <= i < |r| :: r[i] != ""
    decreases |xs|
  {
    if |xs| == 0 then [] else Kept(xs[0]) + Present(xs[1..])
  }

  /** The filter keeps exactly the truthy values. */
  lemma {:induction false} PresentMembers(xs: seq<Option<string>>)
    ensures forall s | s in Present(xs) :: Some(s) in xs
    ensures forall x | x in xs && Truthy(x) :: x.value in Present(xs)
    decreases |xs|
  {
    if |xs| > 0 {
      PresentMembers(xs[1..]);
      assert forall x | x in xs[1..] :: x in xs;
      assert forall x | x in xs :: x == xs[0] || x in xs[1..];
    }
  }

  lemma PresentOfThree(a: Option<string>, b: Option<string>, c: Option<string>)
    ensures Present([a, b, c]) == Kept(a) + Kept(b) + Kept(c)
  {
    var xs := [a, b, c];
    assert xs[1..] == [b, c];
    assert xs[1..][1..] == [c];
    assert xs[1..][1..][1..] == [];
    assert Present(xs[1..][1..]) == Kept(c) + [];
    assert Present(xs[1..]) == Kept(b) + Kept(c);
    assert Kept(a) + (Kept(b) + Kept(c)) == Kept(a) + Kept(b) + Kept(c);
  }

  lemma {:induction false} JoinNonEmpty(xs: seq<string>, sep: string)
    requires |xs| >= 1 && xs[0] != ""
    ensures Join(xs, sep) != ""
  {
    if |xs| >= 2 {
      assert |xs[0] + sep + Join(xs[1..], sep)| >= |xs[0]|;
    }
  }

  /** The location line: the truthy ones of city, region and country, in
      that order, joined with ", ", or "N/A" when none is present. */
  function LocationPrimary(info: ClientInfo): string {
    var j := Join(Present([info.city, info.region, info.country]), ", ");
    if j == "" then NotAvailable else j
  }

  /** "N/A" when none of the three is present. */
  lemma LocationPrimaryMissing(info: ClientInfo)
    requires !Truthy(info.city) && !Truthy(info.region) && !Truthy(info.country)
    ensures LocationPrimary(info) == NotAvailable
  {
    PresentOfThree(info.city, info.region, info.country);
  }

  /** Otherwise the joined list itself: the fallback never replaces data. */
  lemma LocationPrimaryJoins(info: ClientInfo)
    requires Truthy(info.city) || Truthy(info.region) || Truthy(info.country)
    ensures LocationPrimary(info) == Join(Present([info.city, info.region, info.country]), ", ")
  {
    PresentOfThree(info.city, info.region, info.country);
    JoinNonEmpty(Present([info.city, info.region, info.country]), ", ");
  }

  /** All three present: city first, then region, then country. */
  lemma LocationPrimaryAll(info: ClientInfo)
    requires Truthy(info.city) && Truthy(info.region) && Truthy(info.country)
    ensures LocationPrimary(info) == info.city.value + ", " + info.region.value + ", " + info.country.value
  {
    PresentOfThree(info.city, info.region, info.country);
    var p := [info.city.value, info.region.value, info.country.value];
    assert Present([info.city, info.region, info.country]) == p;
    assert p[1..] == [info.region.value, info.country.value];
    assert p[1..][1..] == [info.country.value];
    assert Join(p[1..], ", ") == info.region.value + ", " + info.country.value;
    JoinNonEmpty(p, ", ");
  }

  /** A missing region leaves no empty slot between city and country. */
  lemma LocationPrimarySkipsMissing(info: ClientInfo)
    requires Truthy(info.city) && !Truthy(info.region) && Truthy(info.country)
    ensures LocationPrimary(info) == info.city.value + ", " + info.country.value
  {
    PresentOfThree(info.city, info.region, info.country);
    var p := [info.city.value, info.country.value];
    assert Present([info.city, info.region, info.country]) == p;
    assert p[1..] == [info.country.value];
    JoinNonEmpty(p, ", ");
  }

  /** The coordinates card shows values only when both are truthy. */
  function CoordinatesCard(info: ClientInfo): (shown: Option<string>)
    ensures shown.Some? <==> Truthy(info.latitude) && Truthy(info.longitude)
    ensures shown.Some? ==> shown.value == EscapeChain(info.latitude.value) + ", " + EscapeChain(info.longitude.value)
  {
    if Truthy(info.latitude) && Truthy(info.longitude) then
      Some(EscapeHtml(info.latitude) + ", " + EscapeHtml(info.longitude))
    else None
  }

  /** The query of the maps link, written without escaping. */
  function MapsQuery(info: ClientInfo): Option<string> {
    if Truthy(info.latitude) && Truthy(info.longitude) then
      Some(info.latitude.value + "," + info.longitude.value)
    else None
  }

  // ===========================================================================
  // The details table and the page

  datatype Row = Row(name: string, cell: string)

  /** The labels of the rows, in order. */
  function Labels(rows: seq<Row>): (names: seq<string>)
    ensures |names| == |rows| && forall i | 0 <= i < |rows| :: names[i] == rows[i].name
  {
    seq(|rows|, i requires 0 <= i < |rows| => rows[i].name)
  }

  lemma LabelsAppend(a: seq<Row>, b: seq<Row>)
    ensures Labels(a + b) == Labels(a) + Labels(b)
  {
  }

  const AddressLabels: seq<string> := ["IP Address", "IP Version", "Country", "City"]
  const PlaceLabels: seq<string> := ["Region", "Postal Code", "Continent", "Latitude"]
  const PositionLabels: seq<string> := ["Longitude", "Timezone", "ASN", "Organization"]
  const NetworkLabels: seq<string> := ["Data Center", "HTTP Protocol", "TLS Version", "TLS Cipher"]

  /** The labels of the details table, top to bottom. */
  const DetailLabels: seq<string> := AddressLabels + PlaceLabels + PositionLabels + NetworkLabels

  /** The rows of the details table, in the order the page lists them. */
  function DetailRows(info: ClientInfo): (rows: seq<Row>)
    ensures |rows| == 16
    ensures Labels(rows) == DetailLabels
  {
    var a, p, q, n := AddressRows(info), PlaceRows(info), PositionRows(info), NetworkRows(info);
    LabelsAppend(a, p);
    LabelsAppend(a + p, q);
    LabelsAppend(a + p + q, n);
    a + p + q + n
  }

  function AddressRows(info: ClientInfo): (rows: seq<Row>)
    ensures Labels(rows) == AddressLabels
  {
    [ Row("IP Address", EscapeHtml(Some(info.ip))),
      Row("IP Version", EscapeHtml(Some(info.ipVersion))),
      Row("Country", CountryCell(info)),
      Row("City", Display(info.city)) ]
  }

  function PlaceRows(info: ClientInfo): (rows: seq<Row>)
    ensures Labels(rows) == PlaceLabels
  {
    [ Row("Region", RegionCell(info)),
      Row("Postal Code", Display(info.postalCode)),
      Row("Continent", Display(info.continent)),
      Row("Latitude", Display(info.latitude)) ]
  }

  function PositionRows(info: ClientInfo): (rows: seq<Row>)
    ensures Labels(rows) == PositionLabels
  {
    [ Row("Longitude", Display(info.longitude)),
      Row("Timezone", Display(info.timezone)),
      Row("ASN", AsnDisplay(info.asn)),
      Row("Organization", Display(info.organization)) ]
  }

  function NetworkRows(info: ClientInfo): (rows: seq<Row>)
    ensures Labels(rows) == NetworkLabels
  {
    [ Row("Data Center", Display(info.colo)),
      Row("HTTP Protocol", Display(info.httpProtocol)),
      Row("TLS Version", Display(info.tlsVersion)),
      Row("TLS Cipher", Display(info.tlsCipher)) ]
  }

  /** Every cell of `rows` is free of markup characters. */
  predicate CellsHaveNoMarkup(rows: seq<Row>) {
    forall r | r in rows :: NoMarkup(r.cell)
  }

  lemma EscapeHtmlHasNoMarkup(x: Option<string>)
    ensures NoMarkup(EscapeHtml(x))
  {
    if Truthy(x) {
      EscapedHasNoMarkup(x.value);
    }
  }

  lemma CountryCellHasNoMarkup(info: ClientInfo)
    ensures NoMarkup(CountryCell(info))
  {
    EscapeHtmlHasNoMarkup(info.country);
    NoMarkupAppend(Display(info.country), EuMarker);
  }

  lemma RegionCellHasNoMarkup(info: ClientInfo)
    ensures NoMarkup(RegionCell(info))
  {
    var base, code := Display(info.region), EscapeHtml(info.regionCode);
    EscapeHtmlHasNoMarkup(info.region);
    EscapeHtmlHasNoMarkup(info.regionCode);
    NoMarkupAppend(base, " (");
    NoMarkupAppend(base + " (", code);
    NoMarkupAppend(base + " (" + code, ")");
  }

  /** A cell that shows a field or "N/A". */
  lemma DisplayHasNoMarkup(x: Option<string>)
    ensures NoMarkup(Display(x))
  {
    EscapeHtmlHasNoMarkup(x);
  }

  lemma AddressRowsHaveNoMarkup(info: ClientInfo)
    ensures CellsHaveNoMarkup(AddressRows(info))
  {
    EscapeHtmlHasNoMarkup(Some(info.ip));
    EscapeHtmlHasNoMarkup(Some(info.ipVersion));
    CountryCellHasNoMarkup(info);
    DisplayHasNoMarkup(info.city);
  }

  lemma PlaceRowsHaveNoMarkup(info: ClientInfo)
    ensures CellsHaveNoMarkup(PlaceRows(info))
  {
    RegionCellHasNoMarkup(info);
    DisplayHasNoMarkup(info.postalCode);
    DisplayHasNoMarkup(info.continent);
    DisplayHasNoMarkup(info.latitude);
  }

  lemma PositionRowsHaveNoMarkup(info: ClientInfo)
    ensures CellsHaveNoMarkup(PositionRows(info))
  {
    DisplayHasNoMarkup(info.longitude);
    DisplayHasNoMarkup(info.timezone);
    AsnDisplayHasNoMarkup(info.asn);
    DisplayHasNoMarkup(info.organization);
  }

  lemma NetworkRowsHaveNoMarkup(info: ClientInfo)
    ensures CellsHaveNoMarkup(NetworkRows(info))
  {
    DisplayHasNoMarkup(info.colo);
    DisplayHasNoMarkup(info.httpProtocol);
    DisplayHasNoMarkup(info.tlsVersion);
    DisplayHasNoMarkup(info.tlsCipher);
  }

  /** No table cell, whatever the request carried, holds a character that
      could open a tag or end an attribute. */
  lemma DetailCellsHaveNoMarkup(info: ClientInfo)
    ensures CellsHaveNoMarkup(DetailRows(info))
  {
    AddressRowsHaveNoMarkup(info);
    PlaceRowsHaveNoMarkup(info);
    PositionRowsHaveNoMarkup(info);
    NetworkRowsHaveNoMarkup(info);
  }

  /** The curl command listed for an endpoint. */
  function CurlCommand(hostname: string, path: string): (cmd: string)
    ensures |cmd| == 13 + |hostname| + |path|
    ensures cmd[..13] == "curl https://" && cmd[13..13 + |hostname|] == hostname && cmd[13 + |hostname|..] == path
  {
    var cmd := "curl https://" + hostname + path;
    assert cmd[..13] == "curl https://";
    assert cmd[13..13 + |hostname|] == hostname;
    assert cmd[13 + |hostname|..] == path;
    cmd
  }

  /** The paths of the endpoint list, in the order the page lists them. */
  const DocumentedPaths := ["/ip", "/ipv4", "/ipv6", "/json", "/country", "/city", "/region",
                            "/timezone", "/coordinates", "/continent", "/asn", "/org", "/colo",
                            "/tls", "/protocol", "/headers"]

  /** One entry of the endpoint list. */
  datatype EndpointDoc = EndpointDoc(path: string, command: string)

  function EndpointDocs(hostname: string): (docs: seq<EndpointDoc>)
    ensures |docs| == |DocumentedPaths|
    ensures forall i | 0 <= i < |docs| :: docs[i].path == DocumentedPaths[i]
  {
    seq(|DocumentedPaths|, i requires 0 <= i < |DocumentedPaths| =>
      EndpointDoc(DocumentedPaths[i], EscapeHtml(Some(CurlCommand(hostname, DocumentedPaths[i])))))
  }

  /** Each listed command, as shown, decodes to exactly
      "curl https://" + hostname + path for its path. */
  lemma EndpointCommandsReadBack(hostname: string)
    ensures var docs := EndpointDocs(hostname);
      forall i | 0 <= i < |docs| :: Unescape(docs[i].command) == CurlCommand(hostname, docs[i].path)
  {
    var docs := EndpointDocs(hostname);
    forall i | 0 <= i < |docs|
      ensures Unescape(docs[i].command) == CurlCommand(hostname, docs[i].path)
    {
      EscapeRoundTrip(CurlCommand(hostname, docs[i].path));
    }
  }

  /** The address family badge: `escapeHtml(ipVersion) || "Unknown"`. */
  function VersionBadge(ipVersion: string): string {
    var version := EscapeHtml(Some(ipVersion));
    if version == "" then "Unknown" else version
  }

  /** The country badge, shown only when there is a country. */
  function CountryBadge(info: ClientInfo): (badge: Option<string>)
    ensures badge.Some? <==> Truthy(info.country)
  {
    if Truthy(info.country) then Some(EscapeHtml(info.country) + (if info.countryIsEU then EuMarker else "")) else None
  }

  /** The data center badge, shown only when there is one. */
  function ColoBadge(info: ClientInfo): (badge: Option<string>)
    ensures badge.Some? <==> Truthy(info.colo)
  {
    if Truthy(info.colo) then Some(EscapeHtml(info.colo)) else None
  }

  /** The continent line of the location card, with the postal code after
      a bullet when there is one. */
  function ContinentLine(info: ClientInfo): (line: string)
    ensures !Truthy(info.postalCode) ==> line == Fallback(info.continent, "Continent N/A")
    ensures Truthy(info.postalCode) ==> line == Fallback(info.continent, "Continent N/A") + " • " + EscapeChain(info.postalCode.value)
  {
    Fallback(info.continent, "Continent N/A") + (if Truthy(info.postalCode) then " • " + EscapeHtml(info.postalCode) else "")
  }

  /** The value-dependent text of the page `generateHTML` writes. */
  datatype PageView = PageView(
    title: string,
    mainIp: string,
    versionBadge: string,
    countryBadge: Option<string>,
    coloBadge: Option<string>,
    location: string,
    continentLine: string,
    asnCard: string,
    organizationLine: string,
    tlsCard: string,
    protocolLine: string,
    coordinates: Option<string>,
    mapsQuery: Option<string>,
    requestHost: string,
    rows: seq<Row>,
    endpoints: seq<EndpointDoc>)

  /** `generateHTML` for a request on `hostname`. */
  function GeneratePage(req: Request, hostname: string): PageView {
    var info := GetAllClientInfo(req);
    PageView(
      "Your IP - " + EscapeHtml(Some(info.ip)),
      EscapeHtml(Some(info.ip)),
      VersionBadge(info.ipVersion),
      CountryBadge(info),
      ColoBadge(info),
      EscapeHtml(Some(LocationPrimary(info))),
      ContinentLine(info),
      AsnDisplay(info.asn),
      Fallback(info.organization, "Organization N/A"),
      Fallback(info.tlsVersion, NotAvailable),
      Fallback(info.httpProtocol, "Protocol N/A"),
      CoordinatesCard(info),
      MapsQuery(info),
      EscapeHtml(Some(hostname)),
      DetailRows(info),
      EndpointDocs(hostname))
  }

  /** The family badge always shows the family label: the "Unknown" fallback
      is never reached, because no label is empty. */
  lemma VersionBadgeIsLabel(ip: string)
    ensures VersionBadge(IpVersionLabel(ip)) == IpVersionLabel(ip)
  {
    var family := IpVersionLabel(ip);
    assert family == "IPv4" || family == "IPv6" || family == "unknown";
    LabelIsAlphanumeric(family);
    PlainTextUnchanged(family);
  }

  lemma LabelIsAlphanumeric(family: string)
    requires family == "IPv4" || family == "IPv6" || family == "unknown"
    ensures family != "" && forall i | 0 <= i < |family| :: IsAlnum(family[i])
  {
  }

  /** The coordinates card and the maps link show data exactly when the
      /coordinates endpoint answers 200, and the link uses that body. */
  lemma CoordinatesAgreeWithEndpoint(req: Request)
    ensures var info := GetAllClientInfo(req);
      && (CoordinatesCard(info).Some? <==> HandleCoordinates(req).status == 200)
      && (MapsQuery(info).Some? <==> HandleCoordinates(req).status == 200)
      && (MapsQuery(info).Some? ==> HandleCoordinates(req).body == Text(MapsQuery(info).value))
  {
    ClientInfoFields(req);
  }

  /** The ASN card reads "N/A" exactly when /asn answers 404, and otherwise
      shows the /asn body after "AS". */
  lemma AsnCardAgreesWithEndpoint(req: Request)
    ensures var card := AsnDisplay(GetAllClientInfo(req).asn);
      && (card == NotAvailable <==> HandleASN(req).status == 404)
      && (HandleASN(req).status == 200 ==> card == "AS" + HandleASN(req).body.text)
  {
    ClientInfoFields(req);
  }

  /** The EU marker is plain text. */
  lemma EuMarkerIsPlain()
    ensures EscapeChain(EuMarker) == EuMarker
  {
    PlainTextUnchanged(EuMarker);
  }

  /** The country badge appears exactly when /country answers 200, and
      shows that body escaped, followed by " (EU)" for a member state. */
  lemma CountryBadgeAgreesWithEndpoint(req: Request)
    ensures var info := GetAllClientInfo(req);
      && (CountryBadge(info).Some? <==> HandleCountry(req).status == 200)
      && (CountryBadge(info).Some? ==>
            Unescape(CountryBadge(info).value) ==
              HandleCountry(req).body.text + (if info.countryIsEU then EuMarker else ""))
  {
    var info, cf := GetAllClientInfo(req), Metadata(req);
    assert info.country == OrNull(cf.country);
    if Truthy(info.country) {
      var c := info.country.value;
      var m := if info.countryIsEU then EuMarker else "";
      assert CountryBadge(info).value == EscapeChain(c) + m;
      if info.countryIsEU {
        EuMarkerIsPlain();
      }
      assert EscapeChain(m) == m;
      EscapeChainAppend(c, m);
      EscapeRoundTrip(c + m);
    }
  }

  /** The page's main address is the /ip body, shown escaped. */
  lemma MainIpIsEndpointBody(req: Request)
    ensures Unescape(EscapeHtml(Some(GetAllClientInfo(req).ip))) == HandleIP(req).body.text
  {
    var ip := GetClientIP(req.headers);
    if ip != "" {
      EscapeRoundTrip(ip);
    }
  }
}
