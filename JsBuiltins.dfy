/**
  The JavaScript facilities the worker relies on, stated on Dafny values:
  `null`/`undefined` as `Option`, truthiness of strings and numbers, the
  character classes used by its regular expressions, `String.prototype.trim`,
  `String.prototype.split` on one character, `Array.prototype.join`,
  ASCII lower-casing of header names, and `String(n)` for integral numbers.
*/
module JsBuiltins {

  /** A value that may be `null` or `undefined` (both are `None`). */
  datatype Option<+T> = None | Some(value: T)

  /** `if (x)` on a `string | null | undefined`: only a non-empty string is truthy. */
  predicate Truthy(x: Option<string>) {
    x.Some? && x.value != ""
  }

  /** `if (x)` on a `number | undefined` holding an integer: only a non-zero number is truthy. */
  predicate TruthyNumber(x: Option<int>) {
    x.Some? && x.value != 0
  }

  /** `x || null` on a string field. */
  function OrNull(x: Option<string>): (r: Option<string>)
    ensures r.Some? <==> Truthy(x)
    ensures r.Some? ==> r == x
  {
    if Truthy(x) then x else None
  }

  /** `x || null` on a numeric field. */
  function OrNullNumber(x: Option<int>): (r: Option<int>)
    ensures r.Some? <==> TruthyNumber(x)
    ensures r.Some? ==> r == x
  {
    if TruthyNumber(x) then x else None
  }

  // ---------------------------------------------------------------------------
  // Character classes of the regular expressions: [0-9], [0-9a-fA-F], [0-9a-zA-Z]

  predicate IsDigit(c: char) {
    '0' <= c <= '9'
  }

  predicate IsHexDigit(c: char) {
    IsDigit(c) || 'a' <= c <= 'f' || 'A' <= c <= 'F'
  }

  predicate IsAlnum(c: char) {
    IsDigit(c) || 'a' <= c <= 'z' || 'A' <= c <= 'Z'
  }

  predicate AllDigits(s: string) {
    forall i | 0 <= i < |s| :: IsDigit(s[i])
  }

  predicate AllHex(s: string) {
    forall i | 0 <= i < |s| :: IsHexDigit(s[i])
  }

  // ---------------------------------------------------------------------------
  // Lower-casing (header names are compared after ASCII lower-casing)

  function LowerChar(c: char): char {
    if 'A' <= c <= 'Z' then (c as int + 32) as char else c
  }

  /** ASCII lower-casing, character by character. */
  function ToLower(s: string): (r: string)
    ensures |r| == |s| && forall i | 0 <= i < |s| :: r[i] == LowerChar(s[i])
  {
    seq(|s|, i requires 0 <= i < |s| => LowerChar(s[i]))
  }

  /** Lower-casing twice is lower-casing once: a lower-cased name is a fixed point. */
  lemma ToLowerIdempotent(s: string)
    ensures ToLower(ToLower(s)) == ToLower(s)
  {
  }

  // ---------------------------------------------------------------------------
  // The Fetch API's Headers: entries with lower-case names, read by `get`

  /** One entry of a request's headers: its name, lower-cased by the
      platform, and its value. */
  datatype Header = Header(name: string, value: string)

  /** The value of the first entry named `key`. */
  function Lookup(h: seq<Header>, key: string): (r: Option<string>)
    ensures r.None? <==> forall i | 0 <= i < |h| :: h[i].name != key
    ensures r.Some? ==> exists i | 0 <= i < |h| :: h[i].name == key && h[i].value == r.value
  {
    if |h| == 0 then None
    else if h[0].name == key then Some(h[0].value)
    else Lookup(h[1..], key)
  }

  /** `headers.get(name)`: the name is matched without regard to case. */
  function GetHeader(h: seq<Header>, name: string): Option<string> {
    Lookup(h, ToLower(name))
  }

  /** `get` does not distinguish names that differ only in case. */
  lemma GetHeaderIgnoresCase(h: seq<Header>, name: string)
    ensures GetHeader(h, ToLower(name)) == GetHeader(h, name)
  {
    ToLowerIdempotent(name);
  }

  // ---------------------------------------------------------------------------
  // String.prototype.trim: the WhiteSpace and LineTerminator code points of
  // ECMAScript (section 12.2 and 12.3 of ECMA-262), Zs listed as of Unicode 15.

  predicate IsJsWhitespace(c: char) {
    || c == '\t' || c == '\n' || c == '\U{B}' || c == '\U{C}' || c == '\r' || c == ' '
    || c == '\U{A0}' || c == '\U{1680}' || ('\U{2000}' <= c <= '\U{200A}')
    || c == '\U{2028}' || c == '\U{2029}' || c == '\U{202F}' || c == '\U{205F}'
    || c == '\U{3000}' || c == '\U{FEFF}'
  }

  /** First index at or after `i` that does not hold whitespace (or `|s|`). */
  function TrimStartIndex(s: string, i: nat): (lo: nat)
    requires i <= |s|
    ensures i <= lo <= |s|
    decreases |s| - i
  {
    if i < |s| && IsJsWhitespace(s[i]) then TrimStartIndex(s, i + 1) else i
  }

  /** End of `s[lo..j]` once its trailing whitespace is dropped. */
  function TrimEndIndex(s: string, lo: nat, j: nat): (hi: nat)
    requires lo <= j <= |s|
    ensures lo <= hi <= j
    decreases j
  {
    if lo < j && IsJsWhitespace(s[j - 1]) then TrimEndIndex(s, lo, j - 1) else j
  }

  /** `String.prototype.trim`. */
  function Trim(s: string): string {
    var lo := TrimStartIndex(s, 0);
    s[lo..TrimEndIndex(s, lo, |s|)]
  }

  lemma {:induction false} TrimStartIndexSpec(s: string, i: nat)
    requires i <= |s|
    ensures forall m | i <= m < TrimStartIndex(s, i) :: IsJsWhitespace(s[m])
    ensures TrimStartIndex(s, i) < |s| ==> !IsJsWhitespace(s[TrimStartIndex(s, i)])
    decreases |s| - i
  {
    if i < |s| && IsJsWhitespace(s[i]) {
      TrimStartIndexSpec(s, i + 1);
    }
  }

  lemma {:induction false} TrimEndIndexSpec(s: string, lo: nat, j: nat)
    requires lo <= j <= |s|
    ensures forall m | TrimEndIndex(s, lo, j) <= m < j :: IsJsWhitespace(s[m])
    ensures lo < TrimEndIndex(s, lo, j) ==> !IsJsWhitespace(s[TrimEndIndex(s, lo, j) - 1])
    decreases j
  {
    if lo < j && IsJsWhitespace(s[j - 1]) {
      TrimEndIndexSpec(s, lo, j - 1);
    }
  }

  /** `trim` returns the slice of `s` between its leading and trailing
      whitespace: everything cut is whitespace, and the result neither starts
      nor ends with whitespace. */
  lemma TrimIsSlice(s: string) returns (lo: nat, hi: nat)
    ensures lo <= hi <= |s| && Trim(s) == s[lo..hi]
    ensures forall i | 0 <= i < lo :: IsJsWhitespace(s[i])
    ensures forall i | hi <= i < |s| :: IsJsWhitespace(s[i])
    ensures lo < hi ==> !IsJsWhitespace(s[lo]) && !IsJsWhitespace(s[hi - 1])
  {
    lo := TrimStartIndex(s, 0);
    hi := TrimEndIndex(s, lo, |s|);
    TrimStartIndexSpec(s, 0);
    TrimEndIndexSpec(s, lo, |s|);
  }

  /** A string that neither starts nor ends with whitespace is returned unchanged. */
  lemma TrimUnchanged(s: string)
    requires s != [] ==> !IsJsWhitespace(s[0]) && !IsJsWhitespace(s[|s| - 1])
    ensures Trim(s) == s
  {
    assert TrimStartIndex(s, 0) == 0;
    assert TrimEndIndex(s, 0, |s|) == |s|;
  }

  /** `trim` is idempotent. */
  lemma TrimIdempotent(s: string)
    ensures Trim(Trim(s)) == Trim(s)
  {
    var lo, hi := TrimIsSlice(s);
    var t := Trim(s);
    if t != [] {
      assert t[0] == s[lo] && t[|t| - 1] == s[hi - 1];
    }
    TrimUnchanged(t);
  }

  // ---------------------------------------------------------------------------
  // String.prototype.split(sep) for a one-character separator, and join

  /** Position of the first `c` at or after `i`, or `|s|` when there is none. */
  function NextIndex(s: string, c: char, i: nat): (j: nat)
    requires i <= |s|
    ensures i <= j <= |s| && (j < |s| ==> s[j] == c)
    decreases |s| - i
  {
    if i == |s| || s[i] == c then i else NextIndex(s, c, i + 1)
  }

  lemma {:induction false} NextIndexSkips(s: string, c: char, i: nat)
    requires i <= |s|
    ensures forall m | i <= m < NextIndex(s, c, i) :: s[m] != c
    decreases |s| - i
  {
    if i < |s| && s[i] != c {
      NextIndexSkips(s, c, i + 1);
    }
  }

  /** `NextIndex` finds the first separator: one at `j` with none before it. */
  lemma {:induction false} NextIndexAt(s: string, c: char, i: nat, j: nat)
    requires i <= j <= |s| && (j < |s| ==> s[j] == c)
    requires forall m | i <= m < j :: s[m] != c
    ensures NextIndex(s, c, i) == j
    decreases j - i
  {
    if i < j {
      NextIndexAt(s, c, i + 1, j);
    }
  }

  /** Without a `c` in `s[i..j]`, the next `c` is at `j` or later. */
  lemma {:induction false} NextIndexPast(s: string, c: char, i: nat, j: nat)
    requires i <= j <= |s| && forall m | i <= m < j :: s[m] != c
    ensures j <= NextIndex(s, c, i)
    decreases j - i
  {
    if i < j {
      NextIndexPast(s, c, i + 1, j);
    }
  }

  /** Appending text does not move a `c` found in the left part, and never
      brings the next `c` closer. */
  lemma NextIndexExtend(a: string, b: string, c: char, i: nat)
    requires i <= |a|
    ensures NextIndex(a, c, i) < |a| ==> NextIndex(a + b, c, i) == NextIndex(a, c, i)
    ensures NextIndex(a, c, i) <= NextIndex(a + b, c, i)
  {
    var j := NextIndex(a, c, i);
    NextIndexSkips(a, c, i);
    assert forall m | i <= m < j :: (a + b)[m] == a[m];
    if j < |a| {
      NextIndexAt(a + b, c, i, j);
    } else {
      NextIndexPast(a + b, c, i, j);
    }
  }

  /** The fields of `s[i..]` between occurrences of `sep`, in order; never empty. */
  function SplitFrom(s: string, sep: char, i: nat): (r: seq<string>)
    requires i <= |s|
    ensures |r| >= 1
    decreases |s| - i
  {
    var j := NextIndex(s, sep, i);
    if j == |s| then [s[i..]] else [s[i..j]] + SplitFrom(s, sep, j + 1)
  }

  /** Without a separator ahead, `s[i..]` is a single field. */
  lemma SplitFromSingle(s: string, sep: char, i: nat)
    requires i <= |s| && forall m | i <= m < |s| :: s[m] != sep
    ensures SplitFrom(s, sep, i) == [s[i..]]
  {
    NextIndexAt(s, sep, i, |s|);
  }

  /** `r` occurs in `v` as a contiguous piece. */
  predicate IsSubstring(r: string, v: string) {
    exists lo, hi | 0 <= lo <= hi <= |v| :: v[lo..hi] == r
  }

  lemma WholeIsSubstring(v: string)
    ensures IsSubstring(v, v)
  {
    assert v[0..|v|] == v;
  }

  /** `s.split(sep)` for a one-character `sep`. */
  function Split(s: string, sep: char): (r: seq<string>)
    ensures |r| >= 1
  {
    SplitFrom(s, sep, 0)
  }

  /** `xs.join(sep)`. */
  function Join(xs: seq<string>, sep: string): string
    decreases |xs|
  {
    if |xs| == 0 then ""
    else if |xs| == 1 then xs[0]
    else xs[0] + sep + Join(xs[1..], sep)
  }

  /** No field contains the separator. */
  lemma {:induction false} SplitFromFields(s: string, sep: char, i: nat)
    requires i <= |s|
    ensures forall f | f in SplitFrom(s, sep, i) :: sep !in f
    decreases |s| - i
  {
    var j := NextIndex(s, sep, i);
    NextIndexSkips(s, sep, i);
    assert sep !in s[i..j] by {
      forall m | 0 <= m < j - i ensures s[i..j][m] != sep {
        assert s[i..j][m] == s[i + m];
      }
    }
    if j < |s| {
      SplitFromFields(s, sep, j + 1);
    }
  }

  lemma JoinCons(x: string, rest: seq<string>, sep: string)
    requires |rest| >= 1
    ensures Join([x] + rest, sep) == x + sep + Join(rest, sep)
  {
    assert ([x] + rest)[1..] == rest;
  }

  lemma SliceAround(s: string, i: nat, j: nat)
    requires i <= j < |s|
    ensures s[i..] == s[i..j] + [s[j]] + s[j + 1..]
  {
  }

  /** Joining the fields with the separator gives back the string. */
  lemma {:induction false} JoinSplitFrom(s: string, sep: char, i: nat)
    requires i <= |s|
    ensures Join(SplitFrom(s, sep, i), [sep]) == s[i..]
    decreases |s| - i
  {
    var j := NextIndex(s, sep, i);
    if j < |s| {
      var rest := SplitFrom(s, sep, j + 1);
      assert SplitFrom(s, sep, i) == [s[i..j]] + rest;
      JoinSplitFrom(s, sep, j + 1);
      JoinCons(s[i..j], rest, [sep]);
      SliceAround(s, i, j);
    } else {
      assert SplitFrom(s, sep, i) == [s[i..]];
    }
  }

  lemma JoinSplit(s: string, sep: char)
    ensures Join(Split(s, sep), [sep]) == s
  {
    JoinSplitFrom(s, sep, 0);
  }

  /** The first field is the text before the first separator, or all of `s`. */
  lemma SplitFirst(s: string, sep: char)
    ensures Split(s, sep)[0] == s[..NextIndex(s, sep, 0)]
    ensures sep !in s ==> Split(s, sep)[0] == s
  {
    if sep !in s {
      NextIndexAt(s, sep, 0, |s|);
    }
  }

  // ---------------------------------------------------------------------------
  // String(n) for an integral number, and its inverse on canonical decimals

  function DigitChar(d: nat): (c: char)
    requires d < 10
    ensures IsDigit(c)
  {
    ('0' as int + d) as char
  }

  function DigitValue(c: char): (d: nat)
    requires IsDigit(c)
    ensures d < 10
  {
    c as int - '0' as int
  }

  /** Value of a string of decimal digits, most significant first. */
  function DecimalValue(s: string): nat
    requires AllDigits(s)
  {
    if s == [] then 0 else DecimalValue(s[..|s| - 1]) * 10 + DigitValue(s[|s| - 1])
  }

  /** Decimal digits without a leading zero, except "0" itself. */
  predicate CanonicalDigits(r: string) {
    r != [] && AllDigits(r) && (r[0] == '0' ==> r == "0")
  }

  /** How `String` writes an integer: canonical digits, or '-' and canonical
      digits other than "0". */
  predicate CanonicalInteger(r: string) {
    || CanonicalDigits(r)
    || (|r| >= 2 && r[0] == '-' && CanonicalDigits(r[1..]) && r[1] != '0')
  }

  /** Decimal digits of `n` with no leading zero. */
  function NatString(n: nat): (r: string)
    ensures CanonicalDigits(r)
    ensures r[0] == '0' <==> n == 0
    ensures n < 10 <==> |r| == 1
  {
    if n < 10 then [DigitChar(n)] else NatString(n / 10) + [DigitChar(n % 10)]
  }

  /** `String(n)` for an integer `n`: canonical, signed exactly when `n` is
      negative. */
  function NumberToString(n: int): (r: string)
    ensures CanonicalInteger(r)
    ensures r[0] == '-' <==> n < 0
  {
    if n < 0 then
      var d := NatString(-n);
      assert ("-" + d)[1..] == d;
      "-" + d
    else NatString(n)
  }

  /** Reads a canonical or non-canonical decimal integer, with optional '-' sign. */
  function ParseInt(s: string): Option<int> {
    if |s| >= 2 && s[0] == '-' && AllDigits(s[1..]) then Some(-(DecimalValue(s[1..]) as int))
    else if s != [] && AllDigits(s) then Some(DecimalValue(s))
    else None
  }

  lemma {:induction false} NatStringValue(n: nat)
    ensures DecimalValue(NatString(n)) == n
  {
    if n >= 10 {
      NatStringValue(n / 10);
      var s := NatString(n);
      assert s[..|s| - 1] == NatString(n / 10);
    }
  }

  lemma ParseIntDigits(r: string)
    requires r != [] && AllDigits(r)
    ensures ParseInt(r) == Some(DecimalValue(r) as int)
  {
  }

  lemma ParseIntNegated(r: string)
    requires r != [] && AllDigits(r)
    ensures ParseInt("-" + r) == Some(-(DecimalValue(r) as int))
  {
    var s := "-" + r;
    assert s[1..] == r;
    assert !IsDigit(s[0]);
  }

  /** `String(n)` can be read back: the rendering loses nothing. */
  lemma NumberToStringRoundTrip(n: int)
    ensures ParseInt(NumberToString(n)) == Some(n)
  {
    if n < 0 {
      NatStringValue(-n);
      ParseIntNegated(NatString(-n));
    } else {
      NatStringValue(n);
      ParseIntDigits(NatString(n));
    }
  }

  /** A canonical digit string with a non-zero first digit has a positive
      value. */
  lemma {:induction false} LeadingDigitPositive(r: string)
    requires r != [] && AllDigits(r) && r[0] != '0'
    ensures DecimalValue(r) >= 1
    decreases |r|
  {
    if |r| > 1 {
      var p := r[..|r| - 1];
      assert p[0] == r[0];
      LeadingDigitPositive(p);
    }
  }

  /** Canonical digits are written back exactly as read. */
  lemma {:induction false} CanonicalDigitsRoundTrip(r: string)
    requires CanonicalDigits(r)
    ensures NatString(DecimalValue(r)) == r
    decreases |r|
  {
    if |r| > 1 {
      var p := r[..|r| - 1];
      assert p[0] == r[0];
      LeadingDigitPositive(p);
      CanonicalDigitsRoundTrip(p);
      var v := DecimalValue(r);
      assert v / 10 == DecimalValue(p) && v % 10 == DigitValue(r[|r| - 1]);
      assert r == p + [r[|r| - 1]];
    }
  }

  /** The other direction of the round trip: every canonical integer text is
      what `String` writes for the value `ParseInt` reads from it. */
  lemma ParseIntRoundTrip(r: string)
    requires CanonicalInteger(r)
    ensures ParseInt(r).Some? && NumberToString(ParseInt(r).value) == r
  {
    if CanonicalDigits(r) {
      CanonicalDigitsRoundTrip(r);
    } else {
      var d := r[1..];
      CanonicalDigitsRoundTrip(d);
      LeadingDigitPositive(d);
      assert r == "-" + d;
    }
  }

  /** `String` is injective on integers. */
  lemma NumberToStringInjective(m: int, n: int)
    requires NumberToString(m) == NumberToString(n)
    ensures m == n
  {
    NumberToStringRoundTrip(m);
    NumberToStringRoundTrip(n);
  }
}
