/** The pieces of JavaScript's string behaviour that the app relies on:
    `String.prototype.trim`, the decimal rendering of an integer inside
    a template literal, and the `replace(/:/g, '.')` masking of end times. */
module JsText {
  import opened Wrappers

  /** WhiteSpace and LineTerminator code points as ECMAScript defines them
      (section 12.2 and 12.3 of ECMA-262): these are what `trim` removes. */
  predicate IsJsSpace(c: char): (r: bool)
    ensures r ==> c != '-' && !IsDigit(c)
    ensures c == ' ' || c == '\t' || c == '\n' || c == '\r' ==> r
  {
    || c == '\t' || c == '\n' || c == '\U{000B}' || c == '\U{000C}' || c == '\r'
    || c == ' ' || c == '\U{00A0}' || c == '\U{1680}'
    || ('\U{2000}' <= c <= '\U{200A}')
    || c == '\U{2028}' || c == '\U{2029}' || c == '\U{202F}' || c == '\U{205F}'
    || c == '\U{3000}' || c == '\U{FEFF}'
  }

  predicate AllSpace(s: string) {
    forall i :: 0 <= i < |s| ==> IsJsSpace(s[i])
  }

  /** Drops the longest all-space prefix. */
  function TrimStart(s: string): (r: string)
    ensures |r| <= |s| && r == s[|s| - |r|..]
    ensures r == [] || !IsJsSpace(r[0])
    ensures AllSpace(s[..|s| - |r|])
    decreases |s|
  {
    if |s| > 0 && IsJsSpace(s[0]) then TrimStart(s[1..]) else s
  }

  /** Drops the longest all-space suffix. */
  function TrimEnd(s: string): (r: string)
    ensures |r| <= |s| && r == s[..|r|]
    ensures r == [] || !IsJsSpace(r[|r| - 1])
    ensures AllSpace(s[|r|..])
    decreases |s|
  {
    if |s| > 0 && IsJsSpace(s[|s| - 1]) then TrimEnd(s[..|s| - 1]) else s
  }

  /** How many leading characters `trim` drops. */
  function LeadingSpaces(s: string): (n: nat)
    ensures n <= |s| && AllSpace(s[..n])
    ensures n == |s| || !IsJsSpace(s[n])
  {
    |s| - |TrimStart(s)|
  }

  /** `s.trim()`: `s` with its leading and its trailing space removed, the
      rest kept as it is. */
  function Trim(s: string): (r: string)
    ensures LeadingSpaces(s) + |r| <= |s|
    ensures r == s[LeadingSpaces(s)..LeadingSpaces(s) + |r|]
    ensures AllSpace(s[LeadingSpaces(s) + |r|..])
    ensures r == [] || (!IsJsSpace(r[0]) && !IsJsSpace(r[|r| - 1]))
  {
    var t := TrimStart(s);
    var r := TrimEnd(t);
    assert t == s[LeadingSpaces(s)..];
    r
  }

  /** The guard of `addTodo`: `inputValue.trim() === ''`, which holds
      exactly for text made of whitespace only. */
  predicate IsBlank(s: string): (r: bool)
    ensures r <==> AllSpace(s)
  {
    BlankIffAllSpace(s);
    Trim(s) == ""
  }

  /** Trimming yields the empty string exactly when every character is space. */
  lemma BlankIffAllSpace(s: string)
    ensures Trim(s) == "" <==> AllSpace(s)
  {
    var n := LeadingSpaces(s);
    if AllSpace(s) {
      assert n == |s|;
    } else {
      var i :| 0 <= i < |s| && !IsJsSpace(s[i]);
      assert s[n..][i - n] == s[i];
    }
  }

  predicate IsDigit(c: char) {
    '0' <= c <= '9'
  }

  function DigitChar(d: nat): (c: char)
    requires d < 10
    ensures IsDigit(c) && (c as int) - ('0' as int) == d
  {
    "0123456789"[d]
  }

  function DigitValue(c: char): (d: nat)
    requires IsDigit(c)
    ensures d < 10 && DigitChar(d) == c
  {
    (c as int) - ('0' as int)
  }

  /** Decimal digits of a natural number, most significant first, no leading zeros. */
  function NatToString(n: nat): (r: string)
    ensures |r| >= 1 && forall i :: 0 <= i < |r| ==> IsDigit(r[i])
    ensures |r| > 1 ==> r[0] != '0'
    decreases n
  {
    if n < 10 then [DigitChar(n)] else NatToString(n / 10) + [DigitChar(n % 10)]
  }

  /** How a template literal renders an integral JavaScript number (`${n}`). */
  function IntToString(n: int): (r: string)
    ensures |r| >= 1
    ensures (r[0] == '-') <==> n < 0
    ensures forall i :: 0 <= i < |r| ==> r[i] == '-' || IsDigit(r[i])
  {
    if n < 0 then "-" + NatToString(-n) else NatToString(n)
  }

  function ParseNat(s: string): nat
    requires forall i :: 0 <= i < |s| ==> IsDigit(s[i])
    decreases |s|
  {
    if s == [] then 0 else ParseNat(s[..|s| - 1]) * 10 + DigitValue(s[|s| - 1])
  }

  function ParseInt(s: string): int
    requires |s| >= 1
    requires s[0] == '-' || IsDigit(s[0])
    requires forall i :: 1 <= i < |s| ==> IsDigit(s[i])
  {
    if s[0] == '-' then 0 - ParseNat(s[1..]) else ParseNat(s)
  }

  lemma {:induction false} NatRoundTrip(n: nat)
    ensures ParseNat(NatToString(n)) == n
    decreases n
  {
    if n >= 10 {
      var s := NatToString(n);
      assert s[..|s| - 1] == NatToString(n / 10);
      NatRoundTrip(n / 10);
    }
  }

  /** The rendering loses nothing: reading the digits back gives the number. */
  lemma IntRoundTrip(n: int)
    ensures ParseInt(IntToString(n)) == n
  {
    if n < 0 {
      NatRoundTrip(-n);
      assert IntToString(n)[1..] == NatToString(-n);
    } else {
      NatRoundTrip(n);
    }
  }

  /** `formatted.replace(/:/g, '.')`: every colon becomes a dot. */
  function MaskColons(s: string): (r: string)
    ensures |r| == |s| && ':' !in r
    ensures forall i :: 0 <= i < |s| && s[i] != ':' ==> r[i] == s[i]
    ensures forall i :: 0 <= i < |s| && s[i] == ':' ==> r[i] == '.'
    decreases |s|
  {
    if s == [] then []
    else [if s[0] == ':' then '.' else s[0]] + MaskColons(s[1..])
  }

  /** `formatDateTime(date, isEnd)`, given as `localized` the text that
      `toLocaleString('ko-KR', ...)` and the date-part rewrite produce for a
      present date: absent dates give the empty string, and end times have
      their colons masked. */
  function FormatDateTime(localized: Option<string>, isEnd: bool): (r: string)
    ensures localized.None? ==> r == ""
    ensures localized.Some? && !isEnd ==> r == localized.value
    ensures localized.Some? && isEnd ==> |r| == |localized.value| && ':' !in r
    ensures localized.Some? && isEnd ==> forall i :: 0 <= i < |r| ==>
      r[i] == (if localized.value[i] == ':' then '.' else localized.value[i])
  {
    match localized
    case None => ""
    case Some(text) => if isEnd then MaskColons(text) else text
  }
}
