/** The part of Joda-Time the log entry uses: the formatter
    `ISODateTimeFormat.basicDateTimeNoMillis()`, the ISO 8601 basic format
    `yyyyMMdd'T'HHmmssZ` without fractional seconds, and parsing with it. */
module JodaTime {
  import opened Wrappers

  /** A date-time in the ISO chronology, to the millisecond as Joda's clock
      reads it, with its offset from UTC in minutes. */
  datatype DateTime = DateTime(
    year: int, month: int, day: int,
    hour: int, minute: int, second: int, millis: int,
    offsetMinutes: int)

  /** The same instant with its milliseconds dropped: all that the format
      without milliseconds keeps of it. */
  function WholeSeconds(t: DateTime): DateTime {
    t.(millis := 0)
  }

  predicate IsLeapYear(year: int) {
    year % 4 == 0 && (year % 100 != 0 || year % 400 == 0)
  }

  function DaysInMonth(year: int, month: int): int
    requires 1 <= month <= 12
  {
    if month == 2 then (if IsLeapYear(year) then 29 else 28)
    else if month == 4 || month == 6 || month == 9 || month == 11 then 30
    else 31
  }

  /** Field values Joda accepts, with the year limited to the four digits the
      basic format has room for. */
  predicate Valid(t: DateTime) {
    && 0 <= t.year <= 9999
    && 1 <= t.month <= 12
    && 1 <= t.day <= DaysInMonth(t.year, t.month)
    && 0 <= t.hour < 24
    && 0 <= t.minute < 60
    && 0 <= t.second < 60
    && 0 <= t.millis < 1000
    && -24 * 60 < t.offsetMinutes < 24 * 60
  }

  predicate IsDigit(c: char) {
    '0' <= c <= '9'
  }

  predicate AllDigits(s: string) {
    forall k :: 0 <= k < |s| ==> IsDigit(s[k])
  }

  function Pow10(n: nat): nat {
    if n == 0 then 1 else 10 * Pow10(n - 1)
  }

  /** `n` in exactly `width` decimal digits, zero-padded on the left, as Joda
      prints its fixed-width numeric fields. */
  function Pad(n: nat, width: nat): (r: string)
    ensures |r| == width
    ensures AllDigits(r)
  {
    if width == 0 then "" else Pad(n / 10, width - 1) + [('0' as int + n % 10) as char]
  }

  /** The number a string of decimal digits denotes. */
  function DigitsValue(s: string): (v: nat)
    requires AllDigits(s)
    ensures v < Pow10(|s|)
  {
    if s == [] then 0 else DigitsValue(s[..|s| - 1]) * 10 + (s[|s| - 1] as int - '0' as int)
  }

  /** Reading the digits `Pad` prints gives back the number. */
  lemma {:induction false} PadRoundTrip(n: nat, width: nat)
    requires n < Pow10(width)
    ensures DigitsValue(Pad(n, width)) == n
  {
    if width > 0 {
      var p := Pad(n, width);
      assert p[..|p| - 1] == Pad(n / 10, width - 1);
      PadRoundTrip(n / 10, width - 1);
    }
  }

  /** The zone part of the format: "Z" at UTC, otherwise the sign followed by
      hours and minutes without a colon. */
  function FormatOffset(offsetMinutes: int): string
    requires -24 * 60 < offsetMinutes < 24 * 60
  {
    if offsetMinutes == 0 then "Z"
    else
      var size := if offsetMinutes < 0 then -offsetMinutes else offsetMinutes;
      (if offsetMinutes < 0 then "-" else "+") + Pad(size / 60, 2) + Pad(size % 60, 2)
  }

  /** `t.toString(ISODateTimeFormat.basicDateTimeNoMillis())`. */
  function FormatBasicNoMillis(t: DateTime): (r: string)
    requires Valid(t)
    ensures |r| == if t.offsetMinutes == 0 then 16 else 20
    ensures r[8] == 'T' && (r[15] == 'Z' || r[15] == '+' || r[15] == '-')
  {
    Pad(t.year, 4) + Pad(t.month, 2) + Pad(t.day, 2) + "T"
      + Pad(t.hour, 2) + Pad(t.minute, 2) + Pad(t.second, 2)
      + FormatOffset(t.offsetMinutes)
  }

  /** The basic format is 16 characters at UTC and 20 otherwise, and holds
      only digits, 'T', 'Z' and a sign: never a space. */
  lemma FormatShape(t: DateTime)
    requires Valid(t)
    ensures |FormatBasicNoMillis(t)| == if t.offsetMinutes == 0 then 16 else 20
    ensures ' ' !in FormatBasicNoMillis(t)
  {
    var r := FormatBasicNoMillis(t);
    forall k | 0 <= k < |r| ensures r[k] != ' ' {
      var o := FormatOffset(t.offsetMinutes);
      assert forall j :: 0 <= j < |o| ==> IsDigit(o[j]) || o[j] in "Z+-";
    }
  }

  /** The number in `s[from..from + width]`, or `None` if a character there
      is not a digit. */
  function ReadNumber(s: string, from: nat, width: nat): Option<nat>
    requires from + width <= |s|
  {
    var field := s[from..from + width];
    if AllDigits(field) then Some(DigitsValue(field)) else None
  }

  /** The zone part: "Z", or a sign with two-digit hours below 24 and
      two-digit minutes below 60. */
  function ParseOffset(zone: string): Option<int> {
    if zone == "Z" then Some(0)
    else if |zone| == 5 && (zone[0] == '+' || zone[0] == '-') then
      var hours :- ReadNumber(zone, 1, 2);
      var minutes :- ReadNumber(zone, 3, 2);
      if hours < 24 && minutes < 60 then
        Some(if zone[0] == '-' then -(hours * 60 + minutes) else hours * 60 + minutes)
      else
        None
    else
      None
  }

  /** `DateTime.parse(text, ISODateTimeFormat.basicDateTimeNoMillis())`;
      `None` where Joda throws `IllegalArgumentException` (text not in the
      format, or a field value out of range). */
  function ParseBasicNoMillis(text: string): (r: Option<DateTime>)
    ensures r.Some? ==> Valid(r.value) && r.value.millis == 0
    ensures r.Some? ==> |text| == 16 || |text| == 20
  {
    if |text| < 16 || text[8] != 'T' then None
    else
      var year :- ReadNumber(text, 0, 4);
      var month :- ReadNumber(text, 4, 2);
      var day :- ReadNumber(text, 6, 2);
      var hour :- ReadNumber(text, 9, 2);
      var minute :- ReadNumber(text, 11, 2);
      var second :- ReadNumber(text, 13, 2);
      var offset :- ParseOffset(text[15..]);
      var t := DateTime(year, month, day, hour, minute, second, 0, offset);
      if Valid(t) then Some(t) else None
  }

  lemma ReadPadded(s: string, from: nat, n: nat, width: nat)
    requires from + width <= |s| && s[from..from + width] == Pad(n, width)
    requires n < Pow10(width)
    ensures ReadNumber(s, from, width) == Some(n)
  {
    PadRoundTrip(n, width);
  }

  lemma OffsetRoundTrip(offsetMinutes: int)
    requires -24 * 60 < offsetMinutes < 24 * 60
    ensures ParseOffset(FormatOffset(offsetMinutes)) == Some(offsetMinutes)
  {
    if offsetMinutes != 0 {
      var size := if offsetMinutes < 0 then -offsetMinutes else offsetMinutes;
      var z := FormatOffset(offsetMinutes);
      assert Pow10(2) == 100;
      ReadPadded(z, 1, size / 60, 2);
      ReadPadded(z, 3, size % 60, 2);
    }
  }

  /** The field `b` appended to `a` sits right after it, and whatever is
      appended to `a + b` later leaves both where they are. */
  lemma FieldAt(s: string, a: string, b: string)
    requires |a + b| <= |s| && s[..|a + b|] == a + b
    ensures s[..|a|] == a && s[|a|..|a| + |b|] == b
  {
    assert s[..|a|] == s[..|a + b|][..|a|];
    assert s[|a|..|a| + |b|] == s[..|a + b|][|a|..];
  }

  /** Where each field sits in the printed text. */
  lemma FormatLayout(t: DateTime)
    requires Valid(t)
    ensures var s := FormatBasicNoMillis(t);
      && |s| >= 16 && s[8] == 'T'
      && s[0..4] == Pad(t.year, 4) && s[4..6] == Pad(t.month, 2) && s[6..8] == Pad(t.day, 2)
      && s[9..11] == Pad(t.hour, 2) && s[11..13] == Pad(t.minute, 2) && s[13..15] == Pad(t.second, 2)
      && s[15..] == FormatOffset(t.offsetMinutes)
  {
    var s := FormatBasicNoMillis(t);
    var p1 := Pad(t.year, 4);
    var p2 := p1 + Pad(t.month, 2);
    var p3 := p2 + Pad(t.day, 2);
    var p4 := p3 + "T";
    var p5 := p4 + Pad(t.hour, 2);
    var p6 := p5 + Pad(t.minute, 2);
    var p7 := p6 + Pad(t.second, 2);
    assert s == p7 + FormatOffset(t.offsetMinutes);
    FieldAt(s, p6, Pad(t.second, 2));
    FieldAt(s, p5, Pad(t.minute, 2));
    FieldAt(s, p4, Pad(t.hour, 2));
    FieldAt(s, p3, "T");
    FieldAt(s, p2, Pad(t.day, 2));
    FieldAt(s, p1, Pad(t.month, 2));
    assert s[0..4] == s[..4];
  }

  /** Parsing what the formatter printed gives back the same date-time with
      its milliseconds dropped. */
  lemma FormatParseRoundTrip(t: DateTime)
    requires Valid(t)
    ensures ParseBasicNoMillis(FormatBasicNoMillis(t)) == Some(WholeSeconds(t))
  {
    var s := FormatBasicNoMillis(t);
    assert Pow10(2) == 100 && Pow10(4) == 10000;
    FormatLayout(t);
    ReadPadded(s, 0, t.year, 4);
    ReadPadded(s, 4, t.month, 2);
    ReadPadded(s, 6, t.day, 2);
    ReadPadded(s, 9, t.hour, 2);
    ReadPadded(s, 11, t.minute, 2);
    ReadPadded(s, 13, t.second, 2);
    OffsetRoundTrip(t.offsetMinutes);
  }

  /** The printed text loses the milliseconds: it parses back to exactly the
      date-time it was printed from only when those are zero. */
  lemma RoundTripExactIffWholeSecond(t: DateTime)
    requires Valid(t)
    ensures ParseBasicNoMillis(FormatBasicNoMillis(t)) == Some(t) <==> t.millis == 0
  {
    FormatParseRoundTrip(t);
  }
}
