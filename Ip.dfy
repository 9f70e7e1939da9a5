/**
  Address classification and client-address resolution (src/utils/ip.ts).

  Both classifiers are anchored regular expressions in the source. Here each
  regular expression is written as an explicit grammar: one predicate per
  alternative, concatenation as a choice of split point (`exists i`), and
  counted repetition `(...){k}` as a predicate with the count as a parameter.
*/
module Ip {
  import opened JsBuiltins

  // ===========================================================================
  // Octets and dotted quads

  /** The octet of `isIPv4`: `25[0-5]|2[0-4][0-9]|[01]?[0-9][0-9]?`, one
      disjunct per way the regular expression can match. */
  predicate PlainOctet(t: string) {
    || (|t| == 3 && t[0] == '2' && t[1] == '5' && '0' <= t[2] <= '5')
    || (|t| == 3 && t[0] == '2' && '0' <= t[1] <= '4' && IsDigit(t[2]))
    || (|t| == 1 && IsDigit(t[0]))
    || (|t| == 2 && (t[0] == '0' || t[0] == '1') && IsDigit(t[1]))
    || (|t| == 2 && IsDigit(t[0]) && IsDigit(t[1]))
    || (|t| == 3 && (t[0] == '0' || t[0] == '1') && IsDigit(t[1]) && IsDigit(t[2]))
  }

  /** The octet of the IPv4 tail inside the IPv6 pattern:
      `25[0-5]|(2[0-4]|1?[0-9])?[0-9]`. */
  predicate EmbeddedOctet(t: string) {
    || (|t| == 3 && t[0] == '2' && t[1] == '5' && '0' <= t[2] <= '5')
    || (|t| == 1 && IsDigit(t[0]))
    || (|t| == 3 && t[0] == '2' && '0' <= t[1] <= '4' && IsDigit(t[2]))
    || (|t| == 2 && IsDigit(t[0]) && IsDigit(t[1]))
    || (|t| == 3 && t[0] == '1' && IsDigit(t[1]) && IsDigit(t[2]))
  }

  /** `s[i..]` matches `(X\.){k}X`, where the octet language X is given as a
      predicate. No octet contains a '.', so the `\.` closing each repetition
      can only be the first '.' still ahead: the grammar cuts there. */
  predicate DottedFrom(s: string, i: nat, k: nat, octet: string -> bool)
    requires i <= |s|
    decreases k
  {
    if k == 0 then octet(s[i..])
    else
      var j := NextIndex(s, '.', i);
      j < |s| && octet(s[i..j]) && DottedFrom(s, j + 1, k - 1, octet)
  }

  /** `isIPv4`: a non-empty string matching `^(?:X\.){3}X$`. */
  predicate IsIPv4(s: string) {
    s != "" && DottedFrom(s, 0, 3, PlainOctet)
  }

  /** One to three decimal digits whose value is at most 255. */
  predicate IsByteDecimal(s: string) {
    1 <= |s| <= 3 && AllDigits(s) && DecimalValue(s) <= 255
  }

  lemma DecimalValue3(s: string)
    requires |s| == 3 && AllDigits(s)
    ensures DecimalValue(s) == 100 * DigitValue(s[0]) + 10 * DigitValue(s[1]) + DigitValue(s[2])
  {
    var p, q := s[..2], s[..1];
    assert p[..1] == q && q[..0] == [] && p[1] == s[1] && q[0] == s[0];
    assert DecimalValue(q) == DigitValue(s[0]);
    assert DecimalValue(p) == 10 * DigitValue(s[0]) + DigitValue(s[1]);
  }

  lemma DecimalValue2(s: string)
    requires |s| == 2 && AllDigits(s)
    ensures DecimalValue(s) == 10 * DigitValue(s[0]) + DigitValue(s[1])
  {
    var q := s[..1];
    assert q[..0] == [] && q[0] == s[0];
    assert DecimalValue(q) == DigitValue(s[0]);
  }

  lemma DecimalValue1(s: string)
    requires |s| == 1 && AllDigits(s)
    ensures DecimalValue(s) == DigitValue(s[0])
  {
    assert s[..0] == [];
  }

  /** The octet of `isIPv4` is exactly a byte value written with one to three
      digits, leading zeros allowed ("001" is an octet, "256" is not). */
  lemma PlainOctetIsByte(t: string)
    ensures PlainOctet(t) <==> IsByteDecimal(t)
  {
    if |t| == 3 && AllDigits(t) {
      DecimalValue3(t);
    } else if |t| == 2 && AllDigits(t) {
      DecimalValue2(t);
    } else if |t| == 1 && AllDigits(t) {
      DecimalValue1(t);
    }
  }

  /** The embedded octet is a byte value without a leading zero in its
      three-digit form ("005" is not an embedded octet). */
  lemma EmbeddedOctetIsByte(t: string)
    ensures EmbeddedOctet(t) <==> IsByteDecimal(t) && !(|t| == 3 && t[0] == '0')
  {
    if |t| == 3 && AllDigits(t) {
      DecimalValue3(t);
    } else if |t| == 2 && AllDigits(t) {
      DecimalValue2(t);
    } else if |t| == 1 && AllDigits(t) {
      DecimalValue1(t);
    }
  }

  /** So every embedded octet is a plain one, but not conversely. */
  lemma EmbeddedOctetIsPlain(t: string)
    ensures EmbeddedOctet(t) ==> PlainOctet(t)
    ensures PlainOctet("005") && !EmbeddedOctet("005")
  {
  }

  /** An octet language whose words are decimal digits only. */
  ghost predicate DigitsOnly(octet: string -> bool) {
    forall t :: octet(t) ==> AllDigits(t)
  }

  lemma OctetsAreDigits()
    ensures DigitsOnly(PlainOctet) && DigitsOnly(EmbeddedOctet)
  {
    forall t | PlainOctet(t) ensures AllDigits(t) {
    }
    forall t | EmbeddedOctet(t) ensures AllDigits(t) {
    }
  }

  /** A word of such a language occupying `s[i..j]` is made of digits only. */
  lemma SliceDigits(octet: string -> bool, s: string, i: nat, j: nat)
    requires DigitsOnly(octet) && i <= j <= |s| && octet(s[i..j])
    ensures forall m | i <= m < j :: IsDigit(s[m])
  {
    forall m | i <= m < j ensures IsDigit(s[m]) {
      assert s[m] == s[i..j][m - i];
    }
  }

  predicate AllOctets(octet: string -> bool, f: seq<string>) {
    forall i | 0 <= i < |f| :: octet(f[i])
  }

  lemma AllOctetsCons(octet: string -> bool, x: string, r: seq<string>)
    requires octet(x) && AllOctets(octet, r)
    ensures AllOctets(octet, [x] + r)
  {
  }

  lemma {:induction false} DottedFromToFields(s: string, i: nat, k: nat, octet: string -> bool)
    requires DigitsOnly(octet) && i <= |s| && DottedFrom(s, i, k, octet)
    ensures |SplitFrom(s, '.', i)| == k + 1 && AllOctets(octet, SplitFrom(s, '.', i))
    decreases k
  {
    if k == 0 {
      assert s[i..] == s[i..|s|];
      SliceDigits(octet, s, i, |s|);
      SplitFromSingle(s, '.', i);
    } else {
      var j := NextIndex(s, '.', i);
      DottedFromToFields(s, j + 1, k - 1, octet);
      AllOctetsCons(octet, s[i..j], SplitFrom(s, '.', j + 1));
    }
  }

  lemma {:induction false} FieldsToDottedFrom(s: string, i: nat, k: nat, octet: string -> bool)
    requires i <= |s| && |SplitFrom(s, '.', i)| == k + 1 && AllOctets(octet, SplitFrom(s, '.', i))
    ensures DottedFrom(s, i, k, octet)
    decreases k
  {
    var j := NextIndex(s, '.', i);
    var f := SplitFrom(s, '.', i);
    if k == 0 {
      assert f[0] == s[i..];
    } else {
      assert f[0] == s[i..j];
      var rest := SplitFrom(s, '.', j + 1);
      assert forall m | 0 <= m < |rest| :: rest[m] == f[m + 1];
      FieldsToDottedFrom(s, j + 1, k - 1, octet);
    }
  }

  /** `(X\.){k}X` holds exactly when splitting on '.' gives k + 1 fields that
      are all octets. */
  lemma DottedFromFields(s: string, k: nat, octet: string -> bool)
    requires DigitsOnly(octet)
    ensures DottedFrom(s, 0, k, octet) <==> |Split(s, '.')| == k + 1 && AllOctets(octet, Split(s, '.'))
  {
    if DottedFrom(s, 0, k, octet) {
      DottedFromToFields(s, 0, k, octet);
    }
    if |Split(s, '.')| == k + 1 && AllOctets(octet, Split(s, '.')) {
      FieldsToDottedFrom(s, 0, k, octet);
    }
  }

  /** `isIPv4` holds exactly for four dot-separated fields of one to three
      digits, each of value at most 255. */
  lemma IPv4Fields(s: string)
    ensures IsIPv4(s) <==>
      (var f := Split(s, '.'); |f| == 4 && forall i | 0 <= i < 4 :: IsByteDecimal(f[i]))
  {
    OctetsAreDigits();
    DottedFromFields(s, 3, PlainOctet);
    var f := Split(s, '.');
    forall i | 0 <= i < |f| {
      PlainOctetIsByte(f[i]);
    }
    if s == "" {
      NextIndexAt(s, '.', 0, 0);
      assert f == [""];
    }
  }

  predicate IsDecimalOrDot(c: char) {
    IsDigit(c) || c == '.'
  }

  lemma {:induction false} DottedFromChars(s: string, i: nat, k: nat, octet: string -> bool)
    requires DigitsOnly(octet) && i <= |s| && DottedFrom(s, i, k, octet)
    ensures forall m | i <= m < |s| :: IsDecimalOrDot(s[m])
    decreases k
  {
    if k == 0 {
      assert s[i..] == s[i..|s|];
      SliceDigits(octet, s, i, |s|);
    } else {
      var j := NextIndex(s, '.', i);
      SliceDigits(octet, s, i, j);
      DottedFromChars(s, j + 1, k - 1, octet);
    }
  }

  // ===========================================================================
  // The IPv6 pattern

  /** `s[i..e]` is a run of `lo` to `hi` hexadecimal digits. */
  predicate HexRun(s: string, i: nat, e: nat, lo: nat, hi: nat)
    requires i <= e <= |s|
  {
    lo <= e - i <= hi && forall m | i <= m < e :: IsHexDigit(s[m])
  }

  /** `s[i..e]` matches `(H:){k}` with H = `[0-9a-fA-F]{1,4}`. A group holds
      no ':', so each group ends at the next ':'. */
  predicate GroupsColon(s: string, i: nat, e: nat, k: nat)
    requires i <= e <= |s|
    decreases k
  {
    if k == 0 then i == e
    else
      var j := NextIndex(s, ':', i);
      j < e && HexRun(s, i, j, 1, 4) && GroupsColon(s, j + 1, e, k - 1)
  }

  /** `s[i..e]` matches `(:G){k}`, where G is `lo` to 4 hexadecimal digits.
      Each group runs to the next ':' or to `e`. */
  predicate ColonGroups(s: string, i: nat, e: nat, k: nat, lo: nat)
    requires i <= e <= |s|
    decreases k
  {
    if k == 0 then i == e
    else
      i < e && s[i] == ':' &&
      var j := if NextIndex(s, ':', i + 1) < e then NextIndex(s, ':', i + 1) else e;
      HexRun(s, i + 1, j, lo, 4) && ColonGroups(s, j, e, k - 1, lo)
  }

  /** One more `H:` in front of `(H:){k}`. */
  lemma GroupStep(s: string, i: nat, j: nat, e: nat, k: nat)
    requires 1 <= k && i < j < e <= |s| && s[j] == ':' && HexRun(s, i, j, 1, 4) && GroupsColon(s, j + 1, e, k - 1)
    ensures GroupsColon(s, i, e, k)
  {
    NextIndexAt(s, ':', i, j);
  }

  /** One more `:G` in front of `(:G){k}`; the group ends at `e` or at a ':'. */
  lemma ColonGroupStep(s: string, i: nat, j: nat, e: nat, k: nat, lo: nat)
    requires i < j <= e <= |s| && s[i] == ':' && HexRun(s, i + 1, j, lo, 4)
    requires 1 <= k && (j < e ==> s[j] == ':') && ColonGroups(s, j, e, k - 1, lo)
    ensures ColonGroups(s, i, e, k, lo)
  {
    if j < e {
      NextIndexAt(s, ':', i + 1, j);
    } else {
      NextIndexPast(s, ':', i + 1, j);
    }
  }

  /** `(H:){lo,hi}` on `s[i..e]`. */
  predicate GroupsColonBetween(s: string, i: nat, e: nat, lo: nat, hi: nat)
    requires i <= e <= |s|
  {
    exists k | lo <= k <= hi :: GroupsColon(s, i, e, k)
  }

  /** `(:G){lo,hi}` on `s[i..e]`, G being `glo` to 4 hexadecimal digits. */
  predicate ColonGroupsBetween(s: string, i: nat, e: nat, lo: nat, hi: nat, glo: nat)
    requires i <= e <= |s|
  {
    exists k | lo <= k <= hi :: ColonGroups(s, i, e, k, glo)
  }

  lemma GroupsColonBetweenIntro(s: string, i: nat, e: nat, lo: nat, hi: nat, k: nat)
    requires i <= e <= |s| && lo <= k <= hi && GroupsColon(s, i, e, k)
    ensures GroupsColonBetween(s, i, e, lo, hi)
  {
  }

  lemma ColonGroupsBetweenIntro(s: string, i: nat, e: nat, lo: nat, hi: nat, glo: nat, k: nat)
    requires i <= e <= |s| && lo <= k <= hi && ColonGroups(s, i, e, k, glo)
    ensures ColonGroupsBetween(s, i, e, lo, hi, glo)
  {
  }

  /** `(H:){7}H`: all eight groups. */
  predicate FullForm(s: string) {
    exists p | 0 <= p <= |s| :: GroupsColon(s, 0, p, 7) && HexRun(s, p, |s|, 1, 4)
  }

  /** `(H:){1,7}:`: trailing `::`. */
  predicate TrailingCompressed(s: string) {
    |s| >= 1 && s[|s| - 1] == ':' && GroupsColonBetween(s, 0, |s| - 1, 1, 7)
  }

  /** `(H:){1,khi}(:H){1,mhi}`: `::` between groups. The source lists it for
      (khi, mhi) = (6, 1), (5, 2), (4, 3), (3, 4), (2, 5) and (1, 6). */
  predicate InnerCompressed(s: string, khi: nat, mhi: nat) {
    exists p | 0 <= p <= |s| :: GroupsColonBetween(s, 0, p, 1, khi) && ColonGroupsBetween(s, p, |s|, 1, mhi, 1)
  }

  /** `:((:H){1,7}|:)`: leading `::`, including `::` itself. */
  predicate LeadingCompressed(s: string) {
    |s| >= 1 && s[0] == ':' && (ColonGroupsBetween(s, 1, |s|, 1, 7, 1) || (|s| == 2 && s[1] == ':'))
  }

  /** `[0-9a-zA-Z]+` on `s[i..]`. */
  predicate ZoneId(s: string, i: nat) {
    i < |s| && forall m | i <= m < |s| :: IsAlnum(s[m])
  }

  /** `fe80:(:[0-9a-fA-F]{0,4}){0,4}%[0-9a-zA-Z]+`: link-local with a zone
      index (section 11 of RFC 4007). "fe80" is matched case-sensitively. */
  predicate LinkLocalZoned(s: string) {
    && |s| >= 5 && s[0] == 'f' && s[1] == 'e' && s[2] == '8' && s[3] == '0' && s[4] == ':'
    && exists p | 5 <= p < |s| :: ColonGroupsBetween(s, 5, p, 0, 4, 0) && s[p] == '%' && ZoneId(s, p + 1)
  }

  /** `s[i..]` is the dotted quad `(V\.){3}V` closing an IPv6 address, with
      V the embedded octet. */
  predicate Ipv4Tail(s: string, i: nat)
    requires i <= |s|
  {
    DottedFrom(s, i, 3, EmbeddedOctet)
  }

  /** `(ffff(:0{1,4})?:)?` on `s[i..p]`. */
  predicate MappedPrefix(s: string, i: nat, p: nat)
    requires i <= p <= |s|
  {
    || p == i
    || (&& p - i >= 5 && s[i] == 'f' && s[i + 1] == 'f' && s[i + 2] == 'f' && s[i + 3] == 'f' && s[i + 4] == ':'
        && (p - i == 5 || (7 <= p - i <= 10 && s[p - 1] == ':' && forall m | i + 5 <= m < p - 1 :: s[m] == '0')))
  }

  /** `::(ffff(:0{1,4})?:)?V4`: IPv4-mapped and IPv4-compatible forms. */
  predicate MappedEmbedded(s: string) {
    && |s| >= 2 && s[0] == ':' && s[1] == ':'
    && exists p | 2 <= p <= |s| :: MappedPrefix(s, 2, p) && Ipv4Tail(s, p)
  }

  /** `(H:){1,4}:V4`: groups, `::`, then a dotted quad. */
  predicate CompressedEmbedded(s: string) {
    exists p | 0 <= p < |s| :: GroupsColonBetween(s, 0, p, 1, 4) && s[p] == ':' && Ipv4Tail(s, p + 1)
  }

  /** The anchored IPv6 regular expression: the alternatives in source order. */
  predicate Ipv6Pattern(s: string) {
    || FullForm(s)
    || TrailingCompressed(s)
    || InnerCompressed(s, 6, 1)
    || InnerCompressed(s, 5, 2)
    || InnerCompressed(s, 4, 3)
    || InnerCompressed(s, 3, 4)
    || InnerCompressed(s, 2, 5)
    || InnerCompressed(s, 1, 6)
    || LeadingCompressed(s)
    || LinkLocalZoned(s)
    || MappedEmbedded(s)
    || CompressedEmbedded(s)
  }

  /** `isIPv6`: non-empty, not IPv4, and matching the IPv6 pattern. */
  predicate IsIPv6(s: string) {
    s != "" && !IsIPv4(s) && Ipv6Pattern(s)
  }

  // ===========================================================================
  // What the two patterns admit

  /** The characters either pattern can match: letters, digits, ':', '.', '%'. */
  predicate IsAddressChar(c: char) {
    IsAlnum(c) || c == ':' || c == '.' || c == '%'
  }

  predicate AddressChars(s: string) {
    forall m | 0 <= m < |s| :: IsAddressChar(s[m])
  }

  lemma {:induction false} GroupsColonChars(s: string, i: nat, e: nat, k: nat)
    requires i <= e <= |s| && GroupsColon(s, i, e, k)
    ensures forall m | i <= m < e :: IsHexDigit(s[m]) || s[m] == ':'
    decreases k
  {
    if k > 0 {
      GroupsColonChars(s, NextIndex(s, ':', i) + 1, e, k - 1);
    }
  }

  lemma {:induction false} ColonGroupsChars(s: string, i: nat, e: nat, k: nat, lo: nat)
    requires i <= e <= |s| && ColonGroups(s, i, e, k, lo)
    ensures forall m | i <= m < e :: IsHexDigit(s[m]) || s[m] == ':'
    decreases k
  {
    if k > 0 {
      var j := if NextIndex(s, ':', i + 1) < e then NextIndex(s, ':', i + 1) else e;
      ColonGroupsChars(s, j, e, k - 1, lo);
    }
  }

  lemma GroupsColonBetweenChars(s: string, i: nat, e: nat, lo: nat, hi: nat)
    requires i <= e <= |s| && GroupsColonBetween(s, i, e, lo, hi)
    ensures forall m | i <= m < e :: IsHexDigit(s[m]) || s[m] == ':'
  {
    var k :| lo <= k <= hi && GroupsColon(s, i, e, k);
    GroupsColonChars(s, i, e, k);
  }

  lemma ColonGroupsBetweenChars(s: string, i: nat, e: nat, lo: nat, hi: nat, glo: nat)
    requires i <= e <= |s| && ColonGroupsBetween(s, i, e, lo, hi, glo)
    ensures forall m | i <= m < e :: IsHexDigit(s[m]) || s[m] == ':'
  {
    var k :| lo <= k <= hi && ColonGroups(s, i, e, k, glo);
    ColonGroupsChars(s, i, e, k, glo);
  }

  lemma EmbeddedChars(s: string, i: nat)
    requires i <= |s| && Ipv4Tail(s, i)
    ensures forall m | i <= m < |s| :: IsDecimalOrDot(s[m])
  {
    OctetsAreDigits();
    DottedFromChars(s, i, 3, EmbeddedOctet);
  }

  /** `(H:){k}` with k >= 1 holds a ':' right after its first group. */
  lemma GroupsColonBetweenColon(s: string, i: nat, e: nat, lo: nat, hi: nat)
    requires i <= e <= |s| && 1 <= lo && GroupsColonBetween(s, i, e, lo, hi)
    ensures NextIndex(s, ':', i) < |s| && s[NextIndex(s, ':', i)] == ':'
  {
  }

  lemma FullFormChars(s: string)
    requires FullForm(s)
    ensures AddressChars(s) && ':' in s
  {
    var p :| 0 <= p <= |s| && GroupsColon(s, 0, p, 7) && HexRun(s, p, |s|, 1, 4);
    GroupsColonChars(s, 0, p, 7);
  }

  lemma TrailingCompressedChars(s: string)
    requires TrailingCompressed(s)
    ensures AddressChars(s) && ':' in s
  {
    GroupsColonBetweenChars(s, 0, |s| - 1, 1, 7);
  }

  lemma InnerCompressedChars(s: string, khi: nat, mhi: nat)
    requires InnerCompressed(s, khi, mhi)
    ensures AddressChars(s) && ':' in s
  {
    var p :| 0 <= p <= |s| && GroupsColonBetween(s, 0, p, 1, khi) && ColonGroupsBetween(s, p, |s|, 1, mhi, 1);
    GroupsColonBetweenChars(s, 0, p, 1, khi);
    ColonGroupsBetweenChars(s, p, |s|, 1, mhi, 1);
  }

  lemma LeadingCompressedChars(s: string)
    requires LeadingCompressed(s)
    ensures AddressChars(s) && ':' in s
  {
    if ColonGroupsBetween(s, 1, |s|, 1, 7, 1) {
      ColonGroupsBetweenChars(s, 1, |s|, 1, 7, 1);
    }
  }

  lemma LinkLocalZonedChars(s: string)
    requires LinkLocalZoned(s)
    ensures AddressChars(s) && ':' in s
  {
    var p :| 5 <= p < |s| && ColonGroupsBetween(s, 5, p, 0, 4, 0) && s[p] == '%' && ZoneId(s, p + 1);
    ColonGroupsBetweenChars(s, 5, p, 0, 4, 0);
  }

  lemma MappedPrefixChars(s: string, i: nat, p: nat)
    requires i <= p <= |s| && MappedPrefix(s, i, p)
    ensures forall m | i <= m < p :: IsHexDigit(s[m]) || s[m] == ':'
  {
  }

  /** Hexadecimal digits and colons up to `p`, a ':' at `p`, then a dotted
      quad. */
  lemma ColonsThenDotted(s: string, p: nat)
    requires p < |s| && s[p] == ':'
    requires forall m | 0 <= m < p :: IsHexDigit(s[m]) || s[m] == ':'
    requires forall m | p + 1 <= m < |s| :: IsDecimalOrDot(s[m])
    ensures AddressChars(s) && ':' in s
  {
  }

  /** "::", hexadecimal digits and colons up to `p`, then a dotted quad. */
  lemma DoubleColonThenDotted(s: string, p: nat)
    requires 2 <= p <= |s| && s[0] == ':' && s[1] == ':'
    requires forall m | 2 <= m < p :: IsHexDigit(s[m]) || s[m] == ':'
    requires forall m | p <= m < |s| :: IsDecimalOrDot(s[m])
    ensures AddressChars(s)
  {
  }

  lemma MappedEmbeddedChars(s: string)
    requires MappedEmbedded(s)
    ensures AddressChars(s) && ':' in s
  {
    var p :| 2 <= p <= |s| && MappedPrefix(s, 2, p) && Ipv4Tail(s, p);
    EmbeddedChars(s, p);
    MappedPrefixChars(s, 2, p);
    DoubleColonThenDotted(s, p);
  }

  lemma CompressedEmbeddedAt(s: string, p: nat)
    requires p < |s| && GroupsColonBetween(s, 0, p, 1, 4) && s[p] == ':' && Ipv4Tail(s, p + 1)
    ensures AddressChars(s) && ':' in s
  {
    GroupsColonBetweenChars(s, 0, p, 1, 4);
    EmbeddedChars(s, p + 1);
    ColonsThenDotted(s, p);
  }

  lemma CompressedEmbeddedChars(s: string)
    requires CompressedEmbedded(s)
    ensures AddressChars(s) && ':' in s
  {
    var p :| 0 <= p < |s| && GroupsColonBetween(s, 0, p, 1, 4) && s[p] == ':' && Ipv4Tail(s, p + 1);
    CompressedEmbeddedAt(s, p);
  }


  /** Everything the IPv6 pattern accepts is spelled with letters, digits,
      ':', '.' and '%', and holds at least one ':'. */
  lemma Ipv6PatternChars(s: string)
    ensures Ipv6Pattern(s) ==> AddressChars(s) && ':' in s
  {
    if FullForm(s) {
      FullFormChars(s);
    } else if TrailingCompressed(s) {
      TrailingCompressedChars(s);
    } else if InnerCompressed(s, 6, 1) {
      InnerCompressedChars(s, 6, 1);
    } else if InnerCompressed(s, 5, 2) {
      InnerCompressedChars(s, 5, 2);
    } else if InnerCompressed(s, 4, 3) {
      InnerCompressedChars(s, 4, 3);
    } else if InnerCompressed(s, 3, 4) {
      InnerCompressedChars(s, 3, 4);
    } else if InnerCompressed(s, 2, 5) {
      InnerCompressedChars(s, 2, 5);
    } else if InnerCompressed(s, 1, 6) {
      InnerCompressedChars(s, 1, 6);
    } else if LeadingCompressed(s) {
      LeadingCompressedChars(s);
    } else if LinkLocalZoned(s) {
      LinkLocalZonedChars(s);
    } else if MappedEmbedded(s) {
      MappedEmbeddedChars(s);
    } else if CompressedEmbedded(s) {
      CompressedEmbeddedChars(s);
    }
  }

  /** Everything `isIPv4` accepts is spelled with digits and '.'. */
  lemma IPv4Chars(s: string)
    ensures IsIPv4(s) ==> forall m | 0 <= m < |s| :: IsDecimalOrDot(s[m])
  {
    if IsIPv4(s) {
      OctetsAreDigits();
      DottedFromChars(s, 0, 3, PlainOctet);
    }
  }

  /** The IPv6 pattern never matches what `isIPv4` accepts, so the explicit
      `isIPv4` guard of `isIPv6` excludes nothing the pattern would admit,
      and neither does the emptiness guard. */
  lemma Ipv6GuardRedundant(s: string)
    ensures IsIPv4(s) ==> !Ipv6Pattern(s)
    ensures IsIPv6(s) <==> Ipv6Pattern(s)
  {
    IPv4Chars(s);
    Ipv6PatternChars(s);
    forall m | 0 <= m < |s| && s[m] == ':'
      ensures !IsIPv4(s)
    {
      assert !IsDecimalOrDot(s[m]);
    }
  }

  /** No string is both an IPv4 and an IPv6 address. */
  lemma Exclusive(s: string)
    ensures !(IsIPv4(s) && IsIPv6(s))
    ensures !(IsIPv4(s) && Ipv6Pattern(s))
  {
    Ipv6GuardRedundant(s);
  }

  /** A character that no address can contain, anywhere in a string, makes
      it neither IPv4 nor IPv6. */
  lemma StrayCharRejected(s: string, m: nat)
    requires m < |s| && !IsAddressChar(s[m])
    ensures !IsIPv4(s) && !IsIPv6(s)
  {
    IPv4Chars(s);
    Ipv6PatternChars(s);
  }

  /** Anchoring: such a character placed before or after any string makes
      it neither IPv4 nor IPv6, so neither pattern matches a mere part of
      its input. */
  lemma AnchoredRejection(s: string, c: char)
    requires !IsAddressChar(c)
    ensures !IsIPv4(s + [c]) && !IsIPv6(s + [c])
    ensures !IsIPv4([c] + s) && !IsIPv6([c] + s)
  {
    StrayCharRejected(s + [c], |s|);
    StrayCharRejected([c] + s, 0);
  }

  // ===========================================================================
  // Addresses the pattern accepts

  /** A group: one to four hexadecimal digits. */
  predicate IsGroup(x: string) {
    1 <= |x| <= 4 && AllHex(x)
  }

  /** The groups, each followed by a ':'. */
  function GroupsText(g: seq<string>): string
    decreases |g|
  {
    if |g| == 0 then "" else g[0] + ":" + GroupsText(g[1..])
  }

  /** The groups, each preceded by a ':'. */
  function ColonText(h: seq<string>): string
    decreases |h|
  {
    if |h| == 0 then "" else ":" + h[0] + ColonText(h[1..])
  }

  lemma {:induction false} GroupsColonShift(a: string, b: string, i: nat, e: nat, k: nat)
    requires i <= e <= |b| && GroupsColon(b, i, e, k)
    ensures GroupsColon(a + b, |a| + i, |a| + e, k)
    decreases k
  {
    if k > 0 {
      var j := NextIndex(b, ':', i);
      assert HexRun(b, i, j, 1, 4) && GroupsColon(b, j + 1, e, k - 1);
      GroupsColonShift(a, b, j + 1, e, k - 1);
      assert forall m | |a| + i <= m <= |a| + j :: (a + b)[m] == b[m - |a|];
      GroupStep(a + b, |a| + i, |a| + j, |a| + e, k);
    }
  }

  lemma {:induction false} ColonGroupsShift(a: string, b: string, i: nat, e: nat, k: nat, lo: nat)
    requires i <= e <= |b| && ColonGroups(b, i, e, k, lo)
    ensures ColonGroups(a + b, |a| + i, |a| + e, k, lo)
    decreases k
  {
    if k > 0 {
      var j := if NextIndex(b, ':', i + 1) < e then NextIndex(b, ':', i + 1) else e;
      assert HexRun(b, i + 1, j, lo, 4) && ColonGroups(b, j, e, k - 1, lo);
      ColonGroupsShift(a, b, j, e, k - 1, lo);
      assert forall m | |a| + i <= m < |a| + j :: (a + b)[m] == b[m - |a|];
      assert j < e ==> (a + b)[|a| + j] == ':';
      ColonGroupStep(a + b, |a| + i, |a| + j, |a| + e, k, lo);
    }
  }

  lemma {:induction false} GroupsColonExtend(a: string, b: string, i: nat, e: nat, k: nat)
    requires i <= e <= |a| && GroupsColon(a, i, e, k)
    ensures GroupsColon(a + b, i, e, k)
    decreases k
  {
    if k > 0 {
      var j := NextIndex(a, ':', i);
      NextIndexExtend(a, b, ':', i);
      assert forall m | i <= m < j :: (a + b)[m] == a[m];
      GroupsColonExtend(a, b, j + 1, e, k - 1);
    }
  }

  /** `(H:){k}` matches the text of any `k` groups. */
  lemma {:induction false} GroupsTextMatches(g: seq<string>)
    requires forall n | 0 <= n < |g| :: IsGroup(g[n])
    ensures GroupsColon(GroupsText(g), 0, |GroupsText(g)|, |g|)
    decreases |g|
  {
    if |g| > 0 {
      var a, b := g[0] + ":", GroupsText(g[1..]);
      assert forall n | 0 <= n < |g| - 1 :: g[1..][n] == g[n + 1];
      GroupsTextMatches(g[1..]);
      GroupsColonShift(a, b, 0, |b|, |g| - 1);
      assert GroupsText(g) == a + b;
      assert forall m | 0 <= m < |g[0]| :: (a + b)[m] == g[0][m];
      GroupStep(a + b, 0, |g[0]|, |a + b|, |g|);
    }
  }

  /** `(:G){k}` matches the text of any `k` groups of `lo` to 4
      hexadecimal digits. */
  lemma {:induction false} ColonTextMatches(h: seq<string>, lo: nat)
    requires forall n | 0 <= n < |h| :: lo <= |h[n]| <= 4 && AllHex(h[n])
    ensures ColonGroups(ColonText(h), 0, |ColonText(h)|, |h|, lo)
    decreases |h|
  {
    if |h| > 0 {
      var a, b := ":" + h[0], ColonText(h[1..]);
      assert forall n | 0 <= n < |h| - 1 :: h[1..][n] == h[n + 1];
      ColonTextMatches(h[1..], lo);
      ColonGroupsShift(a, b, 0, |b|, |h| - 1, lo);
      assert ColonText(h) == a + b;
      assert forall m | 1 <= m < |a| :: (a + b)[m] == h[0][m - 1];
      assert |b| > 0 ==> (a + b)[|a|] == ':';
      ColonGroupStep(a + b, 0, |a|, |a + b|, |h|, lo);
    }
  }

  /** Matching the pattern is all an IPv6 address needs. */
  lemma PatternIsIPv6(s: string)
    requires Ipv6Pattern(s)
    ensures IsIPv6(s)
  {
    Ipv6GuardRedundant(s);
  }

  /** The inner-compression alternative with `m` groups after the "::". */
  lemma InnerCompressedIsIPv6(s: string, m: nat)
    requires 1 <= m <= 6 && InnerCompressed(s, 7 - m, m)
    ensures IsIPv6(s)
  {
    if m == 1 {
      assert InnerCompressed(s, 6, 1);
    } else if m == 2 {
      assert InnerCompressed(s, 5, 2);
    } else if m == 3 {
      assert InnerCompressed(s, 4, 3);
    } else if m == 4 {
      assert InnerCompressed(s, 3, 4);
    } else if m == 5 {
      assert InnerCompressed(s, 2, 5);
    } else {
      assert InnerCompressed(s, 1, 6);
    }
    PatternIsIPv6(s);
  }

  /** `t` matches `(H:){7}` and `x` is a group. */
  lemma FullFormParts(t: string, x: string)
    requires GroupsColon(t, 0, |t|, 7) && IsGroup(x)
    ensures IsIPv6(t + x)
  {
    var s := t + x;
    GroupsColonExtend(t, x, 0, |t|, 7);
    assert forall m | |t| <= m < |s| :: s[m] == x[m - |t|];
    assert HexRun(s, |t|, |s|, 1, 4);
    assert FullForm(s);
    PatternIsIPv6(s);
  }

  /** Every full-form address, seven groups each followed by ':', then an
      eighth group, is an IPv6 address. */
  lemma FullFormAccepted(g: seq<string>, x: string)
    requires |g| == 7 && (forall n | 0 <= n < 7 :: IsGroup(g[n])) && IsGroup(x)
    ensures IsIPv6(GroupsText(g) + x)
  {
    GroupsTextMatches(g);
    FullFormParts(GroupsText(g), x);
  }

  /** `t` matches `(H:){k}`, then one more ':'. */
  lemma TrailingCompressedParts(t: string, k: nat)
    requires 1 <= k <= 7 && GroupsColon(t, 0, |t|, k)
    ensures IsIPv6(t + ":")
  {
    var s := t + ":";
    GroupsColonExtend(t, ":", 0, |t|, k);
    assert |s| - 1 == |t|;
    GroupsColonBetweenIntro(s, 0, |t|, 1, 7, k);
    assert TrailingCompressed(s);
    PatternIsIPv6(s);
  }

  /** One to seven groups followed by "::" form an IPv6 address. */
  lemma TrailingCompressedAccepted(g: seq<string>)
    requires 1 <= |g| <= 7 && forall n | 0 <= n < |g| :: IsGroup(g[n])
    ensures IsIPv6(GroupsText(g) + ":")
  {
    GroupsTextMatches(g);
    TrailingCompressedParts(GroupsText(g), |g|);
  }

  lemma ColonGroupsAppend(t: string, u: string, m: nat)
    requires ColonGroups(u, 0, |u|, m, 1)
    ensures ColonGroups(t + u, |t|, |t + u|, m, 1)
  {
    ColonGroupsShift(t, u, 0, |u|, m, 1);
  }

  lemma InnerCompressedAt(s: string, p: nat, k: nat, m: nat)
    requires p <= |s| && 1 <= k && 1 <= m && k + m <= 7
    requires GroupsColon(s, 0, p, k) && ColonGroups(s, p, |s|, m, 1)
    ensures IsIPv6(s)
  {
    GroupsColonBetweenIntro(s, 0, p, 1, 7 - m, k);
    ColonGroupsBetweenIntro(s, p, |s|, 1, m, 1, m);
    InnerCompressedIsIPv6(s, m);
  }

  /** `t` matches `(H:){k}` and `u` matches `(:H){m}`. */
  lemma InnerCompressedParts(t: string, u: string, k: nat, m: nat)
    requires 1 <= k && 1 <= m && k + m <= 7
    requires GroupsColon(t, 0, |t|, k) && ColonGroups(u, 0, |u|, m, 1)
    ensures IsIPv6(t + u)
  {
    GroupsColonExtend(t, u, 0, |t|, k);
    ColonGroupsAppend(t, u, m);
    InnerCompressedAt(t + u, |t|, k, m);
  }

  /** Groups, "::", then more groups, at most seven groups in all, form an
      IPv6 address. */
  lemma InnerCompressedAccepted(g: seq<string>, h: seq<string>)
    requires 1 <= |g| && 1 <= |h| && |g| + |h| <= 7
    requires forall n | 0 <= n < |g| :: IsGroup(g[n])
    requires forall n | 0 <= n < |h| :: IsGroup(h[n])
    ensures IsIPv6(GroupsText(g) + ColonText(h))
  {
    GroupsTextMatches(g);
    ColonTextMatches(h, 1);
    InnerCompressedParts(GroupsText(g), ColonText(h), |g|, |h|);
  }

  /** `u` matches `(:H){k}`, after one more ':'. */
  lemma LeadingCompressedParts(u: string, k: nat)
    requires 1 <= k <= 7 && ColonGroups(u, 0, |u|, k, 1)
    ensures IsIPv6(":" + u)
  {
    var s := ":" + u;
    ColonGroupsAppend(":", u, k);
    ColonGroupsBetweenIntro(s, 1, |s|, 1, 7, 1, k);
    assert LeadingCompressed(s);
    PatternIsIPv6(s);
  }

  /** "::" followed by one to seven groups forms an IPv6 address. */
  lemma LeadingCompressedAccepted(h: seq<string>)
    requires 1 <= |h| <= 7 && forall n | 0 <= n < |h| :: IsGroup(h[n])
    ensures IsIPv6(":" + ColonText(h))
  {
    ColonTextMatches(h, 1);
    LeadingCompressedParts(ColonText(h), |h|);
  }

  lemma {:induction false} ColonGroupsExtend(a: string, b: string, i: nat, e: nat, k: nat, lo: nat)
    requires i <= e <= |a| && ColonGroups(a, i, e, k, lo)
    ensures ColonGroups(a + b, i, e, k, lo)
    decreases k
  {
    if k > 0 {
      var j := if NextIndex(a, ':', i + 1) < e then NextIndex(a, ':', i + 1) else e;
      NextIndexExtend(a, b, ':', i + 1);
      assert forall m | i <= m < j :: (a + b)[m] == a[m];
      ColonGroupsExtend(a, b, j, e, k - 1, lo);
    }
  }

  lemma LinkLocalZonedAt(s: string, p: nat, k: nat)
    requires 5 <= p < |s| && s[..5] == "fe80:" && k <= 4
    requires ColonGroups(s, 5, p, k, 0) && s[p] == '%' && ZoneId(s, p + 1)
    ensures IsIPv6(s)
  {
    ColonGroupsBetweenIntro(s, 5, p, 0, 4, 0, k);
    assert s[0] == s[..5][0] && s[1] == s[..5][1] && s[2] == s[..5][2] && s[3] == s[..5][3] && s[4] == s[..5][4];
    assert LinkLocalZoned(s);
    PatternIsIPv6(s);
  }

  /** `(:G){k}` keeps matching `u` with text on either side. */
  lemma ColonGroupsInside(a: string, u: string, b: string, k: nat, lo: nat)
    requires ColonGroups(u, 0, |u|, k, lo)
    ensures ColonGroups(a + u + b, |a|, |a| + |u|, k, lo)
  {
    ColonGroupsShift(a, u, 0, |u|, k, lo);
    ColonGroupsExtend(a + u, b, |a|, |a| + |u|, k, lo);
  }

  /** `u` matches `(:G){k}` with groups of zero to four digits. */
  lemma LinkLocalZonedParts(u: string, k: nat, zone: string)
    requires k <= 4 && ColonGroups(u, 0, |u|, k, 0)
    requires zone != [] && forall m | 0 <= m < |zone| :: IsAlnum(zone[m])
    ensures IsIPv6("fe80:" + u + "%" + zone)
  {
    var s := "fe80:" + u + ("%" + zone);
    assert s == "fe80:" + u + "%" + zone;
    ColonGroupsInside("fe80:", u, "%" + zone, k, 0);
    var p := 5 + |u|;
    assert forall m | p + 1 <= m < |s| :: s[m] == zone[m - p - 1];
    assert s[..5] == "fe80:";
    LinkLocalZonedAt(s, p, k);
  }

  /** "fe80:", up to four groups of up to four hexadecimal digits each
      preceded by ':', then '%' and an alphanumeric zone index, form an IPv6
      address. */
  lemma LinkLocalZonedAccepted(h: seq<string>, zone: string)
    requires |h| <= 4 && forall n | 0 <= n < |h| :: |h[n]| <= 4 && AllHex(h[n])
    requires zone != [] && forall m | 0 <= m < |zone| :: IsAlnum(zone[m])
    ensures IsIPv6("fe80:" + ColonText(h) + "%" + zone)
  {
    ColonTextMatches(h, 0);
    LinkLocalZonedParts(ColonText(h), |h|, zone);
  }

  /** Octets joined with '.'. */
  function DottedText(o: seq<string>): string
    requires |o| >= 1
    decreases |o|
  {
    if |o| == 1 then o[0] else o[0] + "." + DottedText(o[1..])
  }

  /** `(X\.){k}X` matches the text of any `k + 1` octets, wherever that
      text starts. */
  lemma {:induction false} DottedTextMatches(s: string, i: nat, o: seq<string>, octet: string -> bool)
    requires i <= |s| && |o| >= 1 && s[i..] == DottedText(o)
    requires DigitsOnly(octet) && AllOctets(octet, o)
    ensures DottedFrom(s, i, |o| - 1, octet)
    decreases |o|
  {
    var x := o[0];
    if |o| > 1 {
      var r, j := o[1..], i + |x|;
      assert forall n | 0 <= n < |r| :: r[n] == o[n + 1];
      SliceAroundDot(s, i, x, DottedText(r));
      DottedTextMatches(s, j + 1, r, octet);
      DottedStep(s, i, j, |o| - 1, octet);
    } else {
      assert s[i..] == x && octet(x);
    }
  }

  /** Where `s[i..]` is `x`, '.', then `d`, the three parts can be sliced
      back out. */
  lemma SliceAroundDot(s: string, i: nat, x: string, d: string)
    requires i <= |s| && s[i..] == x + "." + d
    ensures i + |x| < |s| && s[i..i + |x|] == x && s[i + |x|] == '.' && s[i + |x| + 1..] == d
  {
    var t := s[i..];
    assert s[i..i + |x|] == t[..|x|];
    assert s[i + |x| + 1..] == t[|x| + 1..];
  }

  /** One more `X\.` in front of `(X\.){k-1}X`. */
  lemma DottedStep(s: string, i: nat, j: nat, k: nat, octet: string -> bool)
    requires i <= j < |s| && s[j] == '.' && 1 <= k && DigitsOnly(octet)
    requires octet(s[i..j]) && DottedFrom(s, j + 1, k - 1, octet)
    ensures DottedFrom(s, i, k, octet)
  {
    SliceDigits(octet, s, i, j);
    NextIndexAt(s, '.', i, j);
  }

  /** Four octets of `isIPv4` joined by dots form an IPv4 address. */
  lemma IPv4Accepted(o: seq<string>)
    requires |o| == 4 && forall n | 0 <= n < 4 :: PlainOctet(o[n])
    ensures IsIPv4(DottedText(o))
  {
    var s := DottedText(o);
    assert s[0..] == s;
    OctetsAreDigits();
    DottedTextMatches(s, 0, o, PlainOctet);
    assert |s| >= |o[0]| >= 1;
  }

  /** Four embedded octets make the dotted-quad tail. */
  lemma QuadTail(a: string, o: seq<string>)
    requires |o| == 4 && forall n | 0 <= n < 4 :: EmbeddedOctet(o[n])
    ensures Ipv4Tail(a + DottedText(o), |a|)
  {
    var s := a + DottedText(o);
    assert s[|a|..] == DottedText(o);
    OctetsAreDigits();
    DottedTextMatches(s, |a|, o, EmbeddedOctet);
  }

  lemma MappedEmbeddedAt(s: string, p: nat)
    requires 2 <= p <= |s| && s[0] == ':' && s[1] == ':' && MappedPrefix(s, 2, p) && Ipv4Tail(s, p)
    ensures IsIPv6(s)
  {
    assert MappedEmbedded(s);
    PatternIsIPv6(s);
  }

  /** The optional `ffff(:0{1,4})?:` part, spelled out. */
  predicate IsMappedPrefix(prefix: string) {
    prefix in {"", "ffff:", "ffff:0:", "ffff:00:", "ffff:000:", "ffff:0000:"}
  }

  lemma MappedPrefixOf(prefix: string, t: string)
    requires IsMappedPrefix(prefix)
    ensures MappedPrefix("::" + prefix + t, 2, 2 + |prefix|)
  {
    var s := "::" + prefix + t;
    assert forall m | 2 <= m < 2 + |prefix| :: s[m] == prefix[m - 2];
  }

  /** "::", an optional "ffff:" or "ffff:" with one to four zeros and ':',
      then four embedded octets form an IPv6 address: the IPv4-compatible
      and IPv4-mapped forms. */
  lemma MappedEmbeddedAccepted(prefix: string, o: seq<string>)
    requires IsMappedPrefix(prefix)
    requires |o| == 4 && forall n | 0 <= n < 4 :: EmbeddedOctet(o[n])
    ensures IsIPv6("::" + prefix + DottedText(o))
  {
    var s := "::" + prefix + DottedText(o);
    QuadTail("::" + prefix, o);
    MappedPrefixOf(prefix, DottedText(o));
    assert s[0] == ':' && s[1] == ':';
    MappedEmbeddedAt(s, 2 + |prefix|);
  }

  lemma CompressedEmbeddedAtGroups(s: string, p: nat)
    requires p < |s| && GroupsColonBetween(s, 0, p, 1, 4) && s[p] == ':' && Ipv4Tail(s, p + 1)
    ensures IsIPv6(s)
  {
    assert CompressedEmbedded(s);
    PatternIsIPv6(s);
  }

  /** `t` matches `(H:){k}`, then ':' and four embedded octets. */
  /** `t` matches `(H:){k}`, then ':' and a dotted quad `d`. */
  lemma CompressedEmbeddedParts(t: string, k: nat, d: string)
    requires 1 <= k <= 4 && GroupsColon(t, 0, |t|, k) && Ipv4Tail(t + ":" + d, |t| + 1)
    ensures IsIPv6(t + ":" + d)
  {
    GroupsThenColon(t, k, d);
    CompressedEmbeddedAtGroups(t + ":" + d, |t|);
  }

  lemma GroupsThenColon(t: string, k: nat, d: string)
    requires 1 <= k <= 4 && GroupsColon(t, 0, |t|, k)
    ensures GroupsColonBetween(t + ":" + d, 0, |t|, 1, 4)
  {
    GroupsColonExtend(t, ":", 0, |t|, k);
    GroupsColonExtend(t + ":", d, 0, |t|, k);
  }

  /** One to four groups, "::", then four embedded octets form an IPv6
      address. */
  lemma CompressedEmbeddedAccepted(g: seq<string>, o: seq<string>)
    requires 1 <= |g| <= 4 && forall n | 0 <= n < |g| :: IsGroup(g[n])
    requires |o| == 4 && forall n | 0 <= n < 4 :: EmbeddedOctet(o[n])
    ensures IsIPv6(GroupsText(g) + ":" + DottedText(o))
  {
    var t := GroupsText(g);
    GroupsTextMatches(g);
    QuadTail(t + ":", o);
    assert |t + ":"| == |t| + 1;
    CompressedEmbeddedParts(t, |g|, DottedText(o));
  }

  // ===========================================================================
  // The examples of the test suite

  /** The dotted quads of the test suite are IPv4 addresses, and therefore
      not IPv6 addresses. */
  lemma IPv4ExamplePrivateC()
    ensures IsIPv4("192.168.1.1") && !IsIPv6("192.168.1.1")
  {
  }

  lemma IPv4ExamplePrivateA()
    ensures IsIPv4("10.0.0.1") && !IsIPv6("10.0.0.1")
  {
  }

  lemma IPv4ExamplePrivateB()
    ensures IsIPv4("172.16.0.1") && !IsIPv6("172.16.0.1")
  {
  }

  lemma IPv4ExamplePublic()
    ensures IsIPv4("8.8.8.8") && !IsIPv6("8.8.8.8")
  {
  }

  lemma IPv4ExampleBroadcast()
    ensures IsIPv4("255.255.255.255") && !IsIPv6("255.255.255.255")
  {
    IPv4Accepted(["255", "255", "255", "255"]);
    BroadcastText();
  }

  lemma BroadcastText()
    ensures DottedText(["255", "255", "255", "255"]) == "255.255.255.255"
  {
  }

  lemma IPv4ExampleZero()
    ensures IsIPv4("0.0.0.0") && !IsIPv6("0.0.0.0")
  {
  }

  /** Octets above 255 are rejected. */
  lemma IPv4ExampleOutOfRange()
    ensures !IsIPv4("256.256.256.256")
  {
  }

  /** A word is neither kind of address; '-' is not an address character. */
  lemma ExampleNotAnAddress()
    ensures !IsIPv4("not-an-ip") && !IsIPv6("not-an-ip")
  {
    StrayCharRejected("not-an-ip", 3);
  }

  lemma ExampleEmpty()
    ensures !IsIPv4("") && !IsIPv6("")
  {
  }

  /** A trailing space is not ignored: the patterns are anchored. */
  lemma ExampleTrailingSpace()
    ensures !IsIPv4("192.168.1.1 ") && !IsIPv6("192.168.1.1 ")
  {
    AnchoredRejection("192.168.1.1", ' ');
    assert "192.168.1.1" + [' '] == "192.168.1.1 ";
  }

  /** The compressed forms of the test suite are IPv6 addresses. The
      full-form example "2001:0db8:85a3:0000:0000:8a2e:0370:7334" is an
      instance of `FullFormAccepted`. */
  lemma IPv6ExampleDocumentation()
    ensures IsIPv6("2001:db8::1") && !IsIPv4("2001:db8::1")
  {
    var t := GroupsText(["2001", "db8"]);
    assert t == "2001:db8:";
    var u := ColonText(["1"]);
    assert u == ":1";
    InnerCompressedAccepted(["2001", "db8"], ["1"]);
    assert t + u == "2001:db8::1";
  }

  lemma IPv6ExampleLinkLocal()
    ensures IsIPv6("fe80::1") && !IsIPv4("fe80::1")
  {
    InnerCompressedAccepted(["fe80"], ["1"]);
    assert GroupsText(["fe80"]) + ColonText(["1"]) == "fe80::1";
  }

  lemma IPv6ExampleLoopback()
    ensures IsIPv6("::1") && !IsIPv4("::1")
  {
    LeadingCompressedAccepted(["1"]);
    assert ":" + ColonText(["1"]) == "::1";
  }

  /** A zone index, an IPv4-mapped address and groups before an embedded
      dotted quad. */
  lemma IPv6ExampleZone()
    ensures IsIPv6("fe80::1%eth0") && !IsIPv4("fe80::1%eth0")
  {
    LinkLocalZonedAccepted(["1"], "eth0");
    ZoneExampleText();
  }

  lemma ZoneExampleText()
    ensures "fe80:" + ColonText(["1"]) + "%" + "eth0" == "fe80::1%eth0"
  {
    assert ColonText(["1"]) == ":1";
  }

  lemma IPv6ExampleMapped()
    ensures IsIPv6("::ffff:1.2.3.4") && !IsIPv4("::ffff:1.2.3.4")
  {
    MappedEmbeddedAccepted("ffff:", ["1", "2", "3", "4"]);
    MappedExampleText();
  }

  lemma MappedExampleText()
    ensures "::" + "ffff:" + DottedText(["1", "2", "3", "4"]) == "::ffff:1.2.3.4"
  {
    assert DottedText(["1", "2", "3", "4"]) == "1.2.3.4";
  }

  lemma EmbeddedExampleText()
    ensures GroupsText(["2001", "db8"]) + ":" + DottedText(["1", "2", "3", "4"]) == "2001:db8::1.2.3.4"
  {
    assert GroupsText(["2001", "db8"]) == "2001:db8:";
    assert DottedText(["1", "2", "3", "4"]) == "1.2.3.4";
  }

  lemma IPv6ExampleEmbedded()
    ensures IsIPv6("2001:db8::1.2.3.4") && !IsIPv4("2001:db8::1.2.3.4")
  {
    CompressedEmbeddedAccepted(["2001", "db8"], ["1", "2", "3", "4"]);
    EmbeddedExampleText();
  }

  lemma IPv6ExampleUnspecified()
    ensures IsIPv6("::") && !IsIPv4("::")
  {
    assert LeadingCompressed("::");
    PatternIsIPv6("::");
  }

  // ===========================================================================
  // getClientIP: the client address from the request headers

  const ConnectingIpHeader := "CF-Connecting-IP"
  const ForwardedForHeader := "X-Forwarded-For"
  const RealIpHeader := "X-Real-IP"
  const UnknownAddress := "unknown"

  /** The first entry of an X-Forwarded-For list, without surrounding
      whitespace. */
  function FirstForwarded(x: string): string {
    Trim(Split(x, ',')[0])
  }

  /** `getClientIP`: CF-Connecting-IP, else the first X-Forwarded-For entry,
      else X-Real-IP, else "unknown"; a header counts only when non-empty. */
  function GetClientIP(h: seq<Header>): string {
    var cf := GetHeader(h, ConnectingIpHeader);
    if Truthy(cf) then cf.value
    else
      var xff := GetHeader(h, ForwardedForHeader);
      if Truthy(xff) then FirstForwarded(xff.value)
      else
        var realIp := GetHeader(h, RealIpHeader);
        if Truthy(realIp) then realIp.value else UnknownAddress
  }

  /** The names as the platform stores them. */
  lemma ConnectingIpLowered()
    ensures ToLower(ConnectingIpHeader) == "cf-connecting-ip"
  {
  }

  lemma ForwardedForLowered()
    ensures ToLower(ForwardedForHeader) == "x-forwarded-for"
  {
  }

  lemma RealIpLowered()
    ensures ToLower(RealIpHeader) == "x-real-ip"
  {
  }

  lemma HeaderNamesLowered()
    ensures ToLower(ConnectingIpHeader) == "cf-connecting-ip"
    ensures ToLower(ForwardedForHeader) == "x-forwarded-for"
    ensures ToLower(RealIpHeader) == "x-real-ip"
  {
    ConnectingIpLowered();
    ForwardedForLowered();
    RealIpLowered();
  }

  /** The first X-Forwarded-For entry is the trimmed text before the first
      comma; it holds no comma and starts and ends with no whitespace. */
  lemma FirstForwardedSpec(x: string)
    ensures FirstForwarded(x) == Trim(x[..NextIndex(x, ',', 0)])
    ensures ',' !in FirstForwarded(x)
    ensures FirstForwarded(x) != "" ==>
      !IsJsWhitespace(FirstForwarded(x)[0]) && !IsJsWhitespace(FirstForwarded(x)[|FirstForwarded(x)| - 1])
  {
    var f := x[..NextIndex(x, ',', 0)];
    SplitFirst(x, ',');
    NextIndexSkips(x, ',', 0);
    var lo, hi := TrimIsSlice(f);
    assert ',' !in Trim(f) by {
      forall m | 0 <= m < |Trim(f)| ensures Trim(f)[m] != ',' {
        assert Trim(f)[m] == x[lo + m];
      }
    }
  }

  /** The first entry is a piece of the header value. */
  lemma FirstForwardedIsSubstring(x: string)
    ensures IsSubstring(FirstForwarded(x), x)
  {
    var j := NextIndex(x, ',', 0);
    SplitFirst(x, ',');
    var lo, hi := TrimIsSlice(x[..j]);
    assert x[..j][lo..hi] == x[lo..hi];
  }

  /** A non-empty CF-Connecting-IP is returned as it is, whatever the other
      headers say. */
  lemma ClientIPPrefersConnectingIp(h: seq<Header>)
    requires Truthy(Lookup(h, "cf-connecting-ip"))
    ensures GetClientIP(h) == Lookup(h, "cf-connecting-ip").value
  {
    HeaderNamesLowered();
  }

  /** Without a non-empty CF-Connecting-IP, a non-empty X-Forwarded-For gives
      its first entry, trimmed; X-Real-IP is not consulted. */
  lemma ClientIPFromForwarded(h: seq<Header>)
    requires !Truthy(Lookup(h, "cf-connecting-ip")) && Truthy(Lookup(h, "x-forwarded-for"))
    ensures var x := Lookup(h, "x-forwarded-for").value;
      GetClientIP(h) == Trim(x[..NextIndex(x, ',', 0)]) && ',' !in GetClientIP(h)
  {
    HeaderNamesLowered();
    FirstForwardedSpec(Lookup(h, "x-forwarded-for").value);
  }

  /** With neither of the first two headers non-empty: X-Real-IP when it is
      non-empty, else "unknown". */
  lemma ClientIPFallback(h: seq<Header>)
    requires !Truthy(Lookup(h, "cf-connecting-ip")) && !Truthy(Lookup(h, "x-forwarded-for"))
    ensures Truthy(Lookup(h, "x-real-ip")) ==> GetClientIP(h) == Lookup(h, "x-real-ip").value
    ensures !Truthy(Lookup(h, "x-real-ip")) ==> GetClientIP(h) == "unknown"
  {
    HeaderNamesLowered();
  }

  /** An IPv6 address always contains a ':'. */
  lemma IPv6HasColon(s: string)
    ensures IsIPv6(s) ==> ':' in s
  {
    Ipv6PatternChars(s);
  }

  /** The fallback "unknown" is neither kind of address. */
  lemma UnknownIsNoAddress()
    ensures !IsIPv4(UnknownAddress) && !IsIPv6(UnknownAddress)
  {
    IPv4Chars(UnknownAddress);
    assert !IsDecimalOrDot(UnknownAddress[0]);
    IPv6HasColon(UnknownAddress);
  }

  /** No validation takes place: the result is "unknown" or text taken from
      one of the header values. */
  lemma ClientIPFromHeaderText(h: seq<Header>)
    ensures GetClientIP(h) == UnknownAddress ||
      exists i | 0 <= i < |h| :: IsSubstring(GetClientIP(h), h[i].value)
  {
    var cf := GetHeader(h, ConnectingIpHeader);
    var xff := GetHeader(h, ForwardedForHeader);
    var realIp := GetHeader(h, RealIpHeader);
    if Truthy(cf) {
      var i :| 0 <= i < |h| && h[i].value == cf.value;
      WholeIsSubstring(h[i].value);
    } else if Truthy(xff) {
      var i :| 0 <= i < |h| && h[i].value == xff.value;
      FirstForwardedIsSubstring(h[i].value);
    } else if Truthy(realIp) {
      var i :| 0 <= i < |h| && h[i].value == realIp.value;
      WholeIsSubstring(h[i].value);
    }
  }

  /** The first entry of a two-entry X-Forwarded-For list. */
  lemma FirstForwardedExample()
    ensures FirstForwarded("198.51.100.9, 10.0.0.1") == "198.51.100.9"
  {
    var x, f := "198.51.100.9, 10.0.0.1", "198.51.100.9";
    NextIndexAt(x, ',', 0, 12);
    assert x[..12] == f;
    TrimUnchanged(f);
    FirstForwardedSpec(x);
  }

  lemma ClientIPExampleForwarded()
    ensures GetClientIP([Header("x-forwarded-for", "198.51.100.9, 10.0.0.1")]) == "198.51.100.9"
  {
    HeaderNamesLowered();
    FirstForwardedExample();
  }

  /** A blank first entry gives the empty string: there is no fall-through
      to X-Real-IP or "unknown" once X-Forwarded-For is non-empty. */
  lemma ClientIPExampleBlankForwarded()
    ensures GetClientIP([Header("x-forwarded-for", " , 10.0.0.1"), Header("x-real-ip", "10.0.0.2")]) == ""
  {
    HeaderNamesLowered();
    NextIndexAt(" , 10.0.0.1", ',', 0, 1);
    FirstForwardedSpec(" , 10.0.0.1");
  }

  /** CF-Connecting-IP wins over X-Real-IP. */
  lemma ClientIPExampleConnectingIp()
    ensures GetClientIP([Header("cf-connecting-ip", "203.0.113.1"), Header("x-real-ip", "10.0.0.1")]) == "203.0.113.1"
  {
    HeaderNamesLowered();
  }
}
