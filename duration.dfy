/** `formatDuration(start, end)`: the time between a todo's creation and its
    completion, either as days and minutes or as minutes and seconds. */
module Duration {
  import opened Wrappers
  import opened JsText

  /** The two shapes the formatter can produce, plus the empty string. */
  datatype Shown = Blank | DaysMinutes(days: int, minutes: int) | MinutesSeconds(minutes: int, seconds: int)

  const MsPerSecond := 1000
  const MsPerDay := 86_400_000
  const SecondsPerDay := 86_400

  /** `Math.floor(a / b)` for a positive divisor. */
  function FloorDiv(a: int, b: int): (q: int)
    requires b > 0
    ensures b * q <= a < b * q + b
  {
    a / b
  }

  /** The quotient rounded toward zero, `Math.trunc(a / b)`. */
  function TruncDiv(a: int, b: int): (q: int)
    requires b > 0
    ensures a >= 0 ==> b * q <= a < b * q + b
    ensures a < 0 ==> b * q - b < a <= b * q
  {
    if a >= 0 then FloorDiv(a, b) else -FloorDiv(-a, b)
  }

  /** JavaScript's `a % b` for a positive divisor: `a - b * trunc(a / b)`, so
      the remainder takes the sign of `a`, unlike Dafny's `%`. */
  function JsRem(a: int, b: int): (r: int)
    requires b > 0
    ensures a == b * TruncDiv(a, b) + r
    ensures a >= 0 ==> 0 <= r < b
    ensures a < 0 ==> -b < r <= 0
  {
    a - b * TruncDiv(a, b)
  }

  /** Whole seconds elapsed from `start` to `end` (milliseconds): `diffSec`. */
  function ElapsedSeconds(start: int, end: int): (r: int)
    ensures MsPerSecond * r <= end - start < MsPerSecond * r + MsPerSecond
  {
    FloorDiv(end - start, MsPerSecond)
  }

  function FormatDuration(start: Option<int>, end: Option<int>): (r: Shown)
    ensures (start.None? || end.None?) <==> r.Blank?
    ensures start.Some? && end.Some? ==>
      (r.DaysMinutes? <==> ElapsedSeconds(start.value, end.value) >= SecondsPerDay)
  {
    if start.None? || end.None? then Blank
    else
      var diffMs := end.value - start.value;
      var diffSec := FloorDiv(diffMs, 1000);
      var diffMin := FloorDiv(diffSec, 60);
      var diffHour := FloorDiv(diffMin, 60);
      var diffDay := FloorDiv(diffHour, 24);
      if diffDay >= 1 then DaysMinutes(diffDay, JsRem(diffMin, 60))
      else MinutesSeconds(diffMin, JsRem(diffSec, 60))
  }

  /** The template literals `${diffDay}일 ${remainingMin}분` and
      `${diffMin}분 ${remainingSec}초`. */
  function Render(d: Shown): (r: string)
    ensures r == [] <==> d.Blank?
    ensures d.DaysMinutes? ==> r[|r| - 1] == '분'
    ensures d.MinutesSeconds? ==> r[|r| - 1] == '초'
  {
    match d
    case Blank => ""
    case DaysMinutes(days, minutes) => IntToString(days) + "일 " + IntToString(minutes) + "분"
    case MinutesSeconds(minutes, seconds) => IntToString(minutes) + "분 " + IntToString(seconds) + "초"
  }

  /** Different results never render to the same text: the text shows both
      fields, and both can be read back from it. */
  lemma RenderInjective(d1: Shown, d2: Shown)
    requires Render(d1) == Render(d2)
    ensures d1 == d2
  {
    match d1
    case Blank =>
    case DaysMinutes(x1, y1) =>
      if d2.DaysMinutes? {
        FieldsFromText(x1, y1, d2.days, d2.minutes, '일', '분');
      }
    case MinutesSeconds(x1, y1) =>
      if d2.MinutesSeconds? {
        FieldsFromText(x1, y1, d2.minutes, d2.seconds, '분', '초');
      }
  }

  /** `${x}<sep> ${y}<unit>` determines x and y when neither marker is a
      character an integer renders with. */
  lemma FieldsFromText(x1: int, y1: int, x2: int, y2: int, sep: char, unit: char)
    requires sep != '-' && !IsDigit(sep) && unit != '-' && !IsDigit(unit)
    requires IntToString(x1) + [sep, ' '] + IntToString(y1) + [unit]
          == IntToString(x2) + [sep, ' '] + IntToString(y2) + [unit]
    ensures x1 == x2 && y1 == y2
  {
    MarkerNotInInt(x1, sep);
    MarkerNotInInt(x2, sep);
    TextFields(IntToString(x1), IntToString(y1), IntToString(x2), IntToString(y2), sep, unit);
    IntToStringInjective(x1, x2);
    IntToStringInjective(y1, y2);
  }

  lemma MarkerNotInInt(x: int, c: char)
    requires c != '-' && !IsDigit(c)
    ensures c !in IntToString(x)
  {
  }

  lemma IntToStringInjective(x: int, y: int)
    requires IntToString(x) == IntToString(y)
    ensures x == y
  {
    IntRoundTrip(x);
    IntRoundTrip(y);
  }

  /** The two fields of `a<sep> b<unit>` can be read back when `a` holds no `sep`. */
  lemma TextFields(a1: string, b1: string, a2: string, b2: string, sep: char, unit: char)
    requires sep !in a1 && sep !in a2
    requires a1 + [sep, ' '] + b1 + [unit] == a2 + [sep, ' '] + b2 + [unit]
    ensures a1 == a2 && b1 == b2
  {
    var t := a1 + [sep, ' '] + b1 + [unit];
    var u := a2 + [sep, ' '] + b2 + [unit];
    assert t == a1 + [sep] + ([' '] + b1 + [unit]);
    assert u == a2 + [sep] + ([' '] + b2 + [unit]);
    SplitAtMarker(a1, a2, [' '] + b1 + [unit], [' '] + b2 + [unit], sep);
    assert b1 == ([' '] + b1 + [unit])[1..|b1| + 1];
    assert b2 == ([' '] + b2 + [unit])[1..|b2| + 1];
  }

  /** Splitting a text at the first occurrence of a marker is unambiguous. */
  lemma SplitAtMarker(a1: string, a2: string, r1: string, r2: string, sep: char)
    requires sep !in a1 && sep !in a2
    requires a1 + [sep] + r1 == a2 + [sep] + r2
    ensures a1 == a2 && r1 == r2
  {
    var t := a1 + [sep] + r1;
    PrefixBeforeMarker(a1, r1, sep);
    PrefixBeforeMarker(a2, r2, sep);
    assert r1 == t[|a1| + 1..] == r2;
  }

  /** The text before the first `sep`, the whole text when there is none. */
  function PrefixBefore(s: string, sep: char): string
    decreases |s|
  {
    if s == [] || s[0] == sep then [] else [s[0]] + PrefixBefore(s[1..], sep)
  }

  lemma {:induction false} PrefixBeforeMarker(a: string, r: string, sep: char)
    requires sep !in a
    ensures PrefixBefore(a + [sep] + r, sep) == a
    decreases |a|
  {
    var t := a + [sep] + r;
    if a == [] {
      assert t[0] == sep;
    } else {
      assert t[0] == a[0] && t[1..] == a[1..] + [sep] + r;
      PrefixBeforeMarker(a[1..], r, sep);
    }
  }

  /** `Math.floor(Math.floor(a / b) / c) == Math.floor(a / (b * c))`. */
  lemma FloorDivFloorDiv(a: int, b: int, c: int)
    requires b > 0 && c > 0
    ensures FloorDiv(FloorDiv(a, b), c) == FloorDiv(a, b * c)
  {
    var q := FloorDiv(a, b);
    var p := FloorDiv(q, c);
    // b*q <= a < b*q + b and c*p <= q < c*p + c
    assert b * (c * p) <= b * q by { MulLe(b, c * p, q); }
    assert b * q + b <= b * (c * p + c) by { MulLe(b, q + 1, c * p + c); }
    assert b * (c * p) == (b * c) * p;
    assert b * (c * p + c) == (b * c) * p + b * c;
    UniqueFloor(a, b * c, p);
  }

  lemma MulLe(k: nat, x: int, y: int)
    requires x <= y
    ensures k * x <= k * y
  {
  }

  lemma UniqueFloor(a: int, d: int, p: int)
    requires d > 0 && d * p <= a < d * p + d
    ensures p == FloorDiv(a, d)
  {
    var q := FloorDiv(a, d);
    if p < q {
      MulLe(d, p + 1, q);
    } else if q < p {
      MulLe(d, q + 1, p);
    }
  }

  /** The whole-unit chain in `formatDuration`: the day count is the whole
      number of elapsed days, and the minute and hour counts are whole minutes
      and whole hours. */
  lemma Chain(diffMs: int)
    ensures FloorDiv(FloorDiv(diffMs, 1000), 60) == FloorDiv(diffMs, 60_000)
    ensures FloorDiv(FloorDiv(FloorDiv(diffMs, 1000), 60), 60) == FloorDiv(diffMs, 3_600_000)
    ensures FloorDiv(FloorDiv(FloorDiv(FloorDiv(diffMs, 1000), 60), 60), 24) == FloorDiv(diffMs, MsPerDay)
  {
    FloorDivFloorDiv(diffMs, 1000, 60);
    FloorDivFloorDiv(diffMs, 60_000, 60);
    FloorDivFloorDiv(diffMs, 3_600_000, 24);
  }

  /** The day form: at least one whole day; the day field is the number of
      whole elapsed days and the minute field the minutes past the last whole
      hour. The whole hours in between are not shown. */
  lemma DayForm(start: int, end: int)
    requires end - start >= MsPerDay
    ensures var minutes := FloorDiv(end - start, 60_000);
      && FormatDuration(Some(start), Some(end))
         == DaysMinutes(FloorDiv(end - start, MsPerDay), minutes % 60)
      && 0 <= minutes % 60 < 60
      && minutes == 1440 * FloorDiv(end - start, MsPerDay) + 60 * ((minutes / 60) % 24) + minutes % 60
  {
    Chain(end - start);
  }

  /** The sub-day form for a completion at or after creation: whole minutes
      below one day and the seconds past the last whole minute, which together
      give back the elapsed whole seconds. */
  lemma SubDayForm(start: int, end: int)
    requires 0 <= end - start < MsPerDay
    ensures match FormatDuration(Some(start), Some(end))
      case MinutesSeconds(m, s) =>
        0 <= m < 1440 && 0 <= s < 60 && 60 * m + s == ElapsedSeconds(start, end)
      case _ => false
  {
    Chain(end - start);
  }

  /** A completion stamped before creation (a clock set back) gives a
      negative minute count and, as JavaScript's `%` does, a seconds field in
      (-60, 0] that differs from the elapsed whole seconds by a multiple of 60. */
  lemma NegativeForm(start: int, end: int)
    requires end < start
    ensures match FormatDuration(Some(start), Some(end))
      case MinutesSeconds(m, s) =>
        m < 0 && -60 < s <= 0 && (ElapsedSeconds(start, end) - s) % 60 == 0
      case _ => false
  {
    var diffSec := ElapsedSeconds(start, end);
    var q := TruncDiv(diffSec, 60);
    assert diffSec - JsRem(diffSec, 60) == 60 * q;
  }

  /** 45 seconds reads "0분 45초". */
  lemma FortyFiveSeconds(t: int)
    ensures FormatDuration(Some(t), Some(t + 45_000)) == MinutesSeconds(0, 45)
    ensures Render(MinutesSeconds(0, 45)) == "0분 45초"
  {
    var diffMs := (t + 45_000) - t;
    assert diffMs == 45_000;
    assert FloorDiv(45_000, 1000) == 45 && FloorDiv(45, 60) == 0;
    assert FloorDiv(0, 60) == 0 && FloorDiv(0, 24) == 0;
    assert JsRem(45, 60) == 45;
    RenderFortyFive();
  }

  lemma RenderFortyFive()
    ensures Render(MinutesSeconds(0, 45)) == "0분 45초"
  {
    assert IntToString(0) == "0";
    assert NatToString(45) == NatToString(4) + [DigitChar(5)] == "45";
  }

  /** 25 hours reads "1일 0분": the hour is dropped. */
  lemma TwentyFiveHours(t: int)
    ensures FormatDuration(Some(t), Some(t + 90_000_000)) == DaysMinutes(1, 0)
    ensures Render(DaysMinutes(1, 0)) == "1일 0분"
  {
    DayForm(t, t + 90_000_000);
    assert IntToString(1) == "1" && IntToString(0) == "0";
  }
}
