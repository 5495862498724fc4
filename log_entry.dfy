/** `LogEntry`: one reading and the text line it is written as,
    `time === temp === humidity`, with the parser that reads such a line back. */
module LogEntries {
  import opened Wrappers
  import opened JavaString
  import opened JavaDouble
  import JodaTime

  /** `LogEntry.DELIMITER`, the literal text between the fields of a line. */
  const DELIMITER: string := " === "

  /** The first four characters of the delimiter: a field that ends with them
      makes the delimiter after it match one character early. */
  const DELIMITER_HEAD: string := " ==="

  /** Why `new LogEntry(String)` throws: reading `strings[index]` past the end
      of the split (`ArrayIndexOutOfBoundsException`), or `Double.parseDouble`
      refusing `text` (`NumberFormatException`). */
  datatype ParseError = IndexOutOfBounds(index: nat) | NumberFormat(text: string)

  /** One reading: `temp` in Fahrenheit, `humidity` in percent and `time`, the
      text of the instant, meant to be in `TIME_FORMAT`. The constructor
      `LogEntry(temp, humidity, time)` is the three-argument Java constructor,
      which stores its arguments unchanged; the destructors are `getTemp`,
      `getHumidity` and `getTime`. */
  datatype LogEntry = LogEntry(temp: Double, humidity: Double, time: string) {

    /** `toString()`: the three fields joined with the delimiter. */
    function ToString(): (line: string)
      ensures |line| > |time| && line[..|time|] == time && OccursAt(line, DELIMITER, |time|)
      ensures EndsWith(line, DELIMITER + FormatDouble(humidity))
    {
      time + DELIMITER + FormatDouble(temp) + DELIMITER + FormatDouble(humidity)
    }

    /** `getTimeAsDateTime()`: the time text parsed with `TIME_FORMAT`;
        `None` where Joda throws. */
    function GetTimeAsDateTime(): (r: Option<JodaTime.DateTime>)
      ensures r.Some? ==> JodaTime.Valid(r.value) && (|time| == 16 || |time| == 20)
    {
      JodaTime.ParseBasicNoMillis(time)
    }
  }

  /** `new LogEntry(temp, humidity)`: the time is the clock's reading `now`,
      passed in here, printed with `TIME_FORMAT`; the format has no
      milliseconds, so `getTimeAsDateTime` gives back `now` truncated to the
      second, and `now` itself only when its milliseconds are zero. */
  function AtInstant(temp: Double, humidity: Double, now: JodaTime.DateTime): (e: LogEntry)
    requires JodaTime.Valid(now)
    ensures e.temp == temp && e.humidity == humidity
    ensures e.GetTimeAsDateTime() == Some(JodaTime.WholeSeconds(now))
    ensures e.GetTimeAsDateTime() == Some(now) <==> now.millis == 0
    ensures ' ' !in e.time
  {
    JodaTime.FormatParseRoundTrip(now);
    JodaTime.RoundTripExactIffWholeSecond(now);
    JodaTime.FormatShape(now);
    LogEntry(temp, humidity, JodaTime.FormatBasicNoMillis(now))
  }

  /** The reading of the split array in `new LogEntry(line)`: field 0 is the
      time, fields 1 and 2 are parsed as numbers, in that order, so the first
      missing index or unreadable number is the error reported. */
  function ReadFields(fields: seq<string>): (r: Result<LogEntry, ParseError>)
    ensures r.Success? ==> 3 <= |fields| && r.value.time == fields[0]
    ensures r.Success? ==> ParseDouble(fields[1]) == Some(r.value.temp)
    ensures r.Success? ==> ParseDouble(fields[2]) == Some(r.value.humidity)
    ensures r.Failure? && r.error.IndexOutOfBounds? ==> r.error.index == |fields| < 3
    ensures r.Failure? && r.error.NumberFormat? ==>
      ParseDouble(r.error.text) == None && 2 <= |fields| && r.error.text in fields[1..]
  {
    if |fields| == 0 then Failure(IndexOutOfBounds(0))
    else if |fields| == 1 then Failure(IndexOutOfBounds(1))
    else
      match ParseDouble(fields[1])
      case None => Failure(NumberFormat(fields[1]))
      case Some(temp) =>
        if |fields| == 2 then Failure(IndexOutOfBounds(2))
        else
          match ParseDouble(fields[2])
          case None => Failure(NumberFormat(fields[2]))
          case Some(humidity) => Success(LogEntry(temp, humidity, fields[0]))
  }

  /** Only the first three fields are read. */
  lemma ReadFieldsLeading(f1: seq<string>, f2: seq<string>)
    requires |f1| >= 3 && |f2| >= 3 && f1[..3] == f2[..3]
    ensures ReadFields(f1) == ReadFields(f2)
  {
    assert f1[0] == f1[..3][0] == f2[0];
    assert f1[1] == f1[..3][1] == f2[1];
    assert f1[2] == f1[..3][2] == f2[2];
  }

  /** `new LogEntry(line)`: split the line on the delimiter and read the
      fields; the time read back is the text before the first delimiter. */
  function Parse(line: string): (r: Result<LogEntry, ParseError>)
    ensures r.Success? ==>
      IndexOf(line, DELIMITER, 0) == |r.value.time| && line[..|r.value.time|] == r.value.time
    ensures r.Failure? && r.error.IndexOutOfBounds? ==>
      r.error.index == |Split(line, DELIMITER)| < 3
    ensures r.Failure? && r.error.NumberFormat? ==>
      var fields := Split(line, DELIMITER);
      ParseDouble(r.error.text) == None && 2 <= |fields| && r.error.text in fields[1..]
  {
    var r := ReadFields(Split(line, DELIMITER));
    if r.Success? then
      FirstField(line, DELIMITER);
      r
    else
      r
  }

  /** Text the delimiter can follow without the split finding a match that
      starts inside the text. */
  predicate Separable(text: string) {
    !Contains(text + DELIMITER_HEAD, DELIMITER)
  }

  /** A text that neither contains the delimiter nor ends with its first
      four characters is separable: a match in `text + DELIMITER_HEAD` would
      lie within the text, start at its last four characters, or start later
      on a space where the delimiter has "=". */
  lemma CleanSeparable(text: string)
    requires !Contains(text, DELIMITER) && !EndsWith(text, DELIMITER_HEAD)
    ensures Separable(text)
  {
    var t := text + DELIMITER_HEAD;
    assert t[..|text|] == text;
    forall j: nat | j <= |t| ensures !OccursAt(t, DELIMITER, j) {
      if j + 5 <= |text| {
        SliceOfPrefix(t, text, j, j + 5);
        assert !OccursAt(text, DELIMITER, j);
      } else if j + 5 <= |t| {
        if j == |text| - 4 {
          SliceOfPrefix(t, text, j, |text|);
          assert t[j..j + 5][..4] == t[j..|text|] == text[|text| - 4..];
          assert text[|text| - 4..] != DELIMITER[..4];
        } else {
          assert t[j..j + 5][|text| - j] == t[|text|] == ' ';
        }
      }
    }
  }

  /** A text is separable exactly when it neither contains the delimiter nor
      ends with the delimiter's first four characters. */
  lemma SeparableIff(text: string)
    ensures Separable(text) <==> !Contains(text, DELIMITER) && !EndsWith(text, DELIMITER_HEAD)
  {
    var t := text + DELIMITER_HEAD;
    if Contains(text, DELIMITER) {
      var i: nat :| i <= |text| && OccursAt(text, DELIMITER, i);
      assert t[..|text|] == text;
      SliceOfPrefix(t, text, i, i + 5);
      assert OccursAt(t, DELIMITER, i);
    } else if EndsWith(text, DELIMITER_HEAD) {
      var i := |text| - 4;
      assert t[i..i + 5] == DELIMITER;
      assert OccursAt(t, DELIMITER, i);
    } else {
      CleanSeparable(text);
    }
  }

  /** Text without a space is separable, since the delimiter starts with one. */
  lemma NoSpaceSeparable(text: string)
    requires ' ' !in text
    ensures Separable(text) && !Contains(text, DELIMITER)
  {
    MissingFirstCharNoMatch(text, DELIMITER);
    SeparableIff(text);
  }

  /** A separable field followed by the delimiter is the first field. */
  lemma ConsField(a: string, b: string)
    requires Separable(a)
    ensures Fields(a + DELIMITER + b, DELIMITER) == [a] + Fields(b, DELIMITER)
  {
    assert DELIMITER[..|DELIMITER| - 1] == DELIMITER_HEAD;
    FieldsCons(a, b, DELIMITER);
  }

  /** Re-bracketing `x + DELIMITER + y + DELIMITER + z` around its first
      delimiter. */
  lemma Rebracket(x: string, y: string, z: string)
    ensures x + DELIMITER + y + DELIMITER + z == x + DELIMITER + (y + DELIMITER + z)
  {
  }

  /** Prepending two fields to a list of fields. */
  lemma ConsTwo(x: string, y: string, rest: seq<string>)
    ensures [x] + ([y] + rest) == [x, y] + rest
  {
  }

  /** The fields of `a + DELIMITER + b + DELIMITER + c` are `a`, `b` and `c`
      when `a` and `b` are separable and `c` has no delimiter. */
  lemma ThreeFields(a: string, b: string, c: string)
    requires Separable(a) && Separable(b) && !Contains(c, DELIMITER)
    ensures Fields(a + DELIMITER + b + DELIMITER + c, DELIMITER) == [a, b, c]
  {
    var bc := b + DELIMITER + c;
    Rebracket(a, b, c);
    ConsField(a, bc);
    ConsField(b, c);
    NoMatchOneField(c, DELIMITER);
    ConsTwo(a, b, [c]);
  }

  /** The line `toString` prints splits back into the time and the two
      numbers' texts. */
  lemma ToStringSplits(e: LogEntry)
    requires !Contains(e.time, DELIMITER) && !EndsWith(e.time, DELIMITER_HEAD)
    requires WellBehaved(e.temp) && WellBehaved(e.humidity)
    ensures Split(e.ToString(), DELIMITER) == [e.time, FormatDouble(e.temp), FormatDouble(e.humidity)]
  {
    var t, h := FormatDouble(e.temp), FormatDouble(e.humidity);
    SeparableIff(e.time);
    WellBehavedText(e.temp);
    WellBehavedText(e.humidity);
    NoSpaceSeparable(t);
    NoSpaceSeparable(h);
    ThreeFields(e.time, t, h);
    var line := e.ToString();
    assert OccursAt(line, DELIMITER, |e.time|) by {
      assert line[|e.time|..|e.time| + 5] == DELIMITER;
    }
  }

  /** Round trip: parsing what `toString` printed gives back the entry, for
      any time text that neither contains the delimiter nor ends with its
      first four characters, and numbers whose text Java reads back. */
  lemma RoundTrip(e: LogEntry)
    requires !Contains(e.time, DELIMITER) && !EndsWith(e.time, DELIMITER_HEAD)
    requires WellBehaved(e.temp) && WellBehaved(e.humidity)
    ensures Parse(e.ToString()) == Success(e)
  {
    ToStringSplits(e);
  }

  /** An entry made by the two-argument constructor survives the round trip,
      and its time still parses back to the instant it was made at, truncated
      to the second. */
  lemma AtInstantRoundTrip(temp: Double, humidity: Double, now: JodaTime.DateTime)
    requires JodaTime.Valid(now) && WellBehaved(temp) && WellBehaved(humidity)
    ensures Parse(AtInstant(temp, humidity, now).ToString()) == Success(AtInstant(temp, humidity, now))
    ensures Parse(AtInstant(temp, humidity, now).ToString()).value.GetTimeAsDateTime()
      == Some(JodaTime.WholeSeconds(now))
  {
    var e := AtInstant(temp, humidity, now);
    NoSpaceSeparable(e.time);
    SeparableIff(e.time);
    RoundTrip(e);
  }

  /** Not containing the delimiter is not enough for the round trip: a time
      ending with " ===" lets the delimiter after it match one character
      early, and the entry read back differs. */
  lemma HeadSuffixBreaksRoundTrip(e: LogEntry)
    requires EndsWith(e.time, DELIMITER_HEAD)
    ensures Parse(e.ToString()) != Success(e)
  {
    var line := e.ToString();
    var i := |e.time| - 4;
    assert line[i..i + 5] == DELIMITER;
    assert OccursAt(line, DELIMITER, i);
  }

  /** The parser stores field 0 as it is: a time text that `TIME_FORMAT`
      rejects is read without complaint, and only `getTimeAsDateTime` fails. */
  lemma TimeNotValidated(e: LogEntry)
    requires !Contains(e.time, DELIMITER) && !EndsWith(e.time, DELIMITER_HEAD)
    requires WellBehaved(e.temp) && WellBehaved(e.humidity)
    requires JodaTime.ParseBasicNoMillis(e.time) == None
    ensures Parse(e.ToString()).Success?
    ensures Parse(e.ToString()).value.time == e.time
    ensures Parse(e.ToString()).value.GetTimeAsDateTime() == None
  {
    RoundTrip(e);
  }

  /** Two separable fields, one more delimiter, then any text. */
  lemma TwoThenRest(b: string, c: string, rest: string)
    requires Separable(b) && Separable(c)
    ensures Fields(b + DELIMITER + (c + DELIMITER + rest), DELIMITER) == [b, c] + Fields(rest, DELIMITER)
  {
    ConsField(c, rest);
    ConsField(b, c + DELIMITER + rest);
    ConsTwo(b, c, Fields(rest, DELIMITER));
  }

  /** Three separable fields, one more delimiter, then any text: the fields
      are the three followed by the fields of that text. */
  lemma ThreeThenRest(a: string, b: string, c: string, rest: string)
    requires Separable(a) && Separable(b) && Separable(c)
    ensures Fields(a + DELIMITER + (b + DELIMITER + (c + DELIMITER + rest)), DELIMITER)
      == [a, b, c] + Fields(rest, DELIMITER)
  {
    var tail := Fields(rest, DELIMITER);
    TwoThenRest(b, c, rest);
    ConsField(a, b + DELIMITER + (c + DELIMITER + rest));
    assert [a] + ([b, c] + tail) == [a, b, c] + tail;
  }

  /** Re-bracketing a printed line followed by one more delimiter and text. */
  lemma RebracketFour(a: string, b: string, c: string, rest: string)
    ensures a + DELIMITER + b + DELIMITER + c + DELIMITER + rest
         == a + DELIMITER + (b + DELIMITER + (c + DELIMITER + rest))
  {
  }

  /** The fields of a printed line with more text appended after one more
      delimiter. */
  lemma AppendedFields(e: LogEntry, rest: string)
    requires !Contains(e.time, DELIMITER) && !EndsWith(e.time, DELIMITER_HEAD)
    requires WellBehaved(e.temp) && WellBehaved(e.humidity)
    ensures Fields(e.ToString() + DELIMITER + rest, DELIMITER)
      == [e.time, FormatDouble(e.temp), FormatDouble(e.humidity)] + Fields(rest, DELIMITER)
  {
    var t, h := FormatDouble(e.temp), FormatDouble(e.humidity);
    SeparableIff(e.time);
    WellBehavedText(e.temp);
    WellBehavedText(e.humidity);
    NoSpaceSeparable(t);
    NoSpaceSeparable(h);
    assert e.ToString() == e.time + DELIMITER + t + DELIMITER + h;
    RebracketFour(e.time, t, h, rest);
    ThreeThenRest(e.time, t, h, rest);
  }

  /** Fields after the third are ignored: text appended after one more
      delimiter does not change what the line parses to. */
  lemma ExtraFieldsIgnored(e: LogEntry, rest: string)
    requires !Contains(e.time, DELIMITER) && !EndsWith(e.time, DELIMITER_HEAD)
    requires WellBehaved(e.temp) && WellBehaved(e.humidity)
    ensures Parse(e.ToString() + DELIMITER + rest) == Parse(e.ToString())
  {
    var t, h := FormatDouble(e.temp), FormatDouble(e.humidity);
    var line := e.ToString() + DELIMITER + rest;
    AppendedFields(e, rest);
    assert OccursAt(line, DELIMITER, |e.time|) by {
      assert line[|e.time|..|e.time| + 5] == DELIMITER;
    }
    WellBehavedText(e.humidity);
    DropTrailingEmptyAppend([e.time, t, h], Fields(rest, DELIMITER));
    ToStringSplits(e);
    ReadFieldsLeading(Split(line, DELIMITER), Split(e.ToString(), DELIMITER));
  }

  /** A line without the delimiter splits into one field, so reading field 1
      fails. */
  lemma NoDelimiterFails(line: string)
    requires !Contains(line, DELIMITER)
    ensures Parse(line) == Failure(IndexOutOfBounds(1))
  {
  }

  /** A line that is just the delimiter splits into two empty fields, both
      dropped as trailing, so even field 0 is missing. */
  lemma DelimiterOnlyFails()
    ensures Parse(DELIMITER) == Failure(IndexOutOfBounds(0))
  {
    assert DELIMITER == "" + DELIMITER + "";
    ConsField("", "");
    assert OccursAt(DELIMITER, DELIMITER, 0);
  }

  /** An empty humidity field is dropped by the split, so a line that has
      three fields on its face fails at index 2 once the temperature reads. */
  lemma EmptyHumidityFails(time: string, tempText: string)
    requires Separable(time) && Separable(tempText) && tempText != ""
    requires ParseDouble(tempText).Some?
    ensures Parse(time + DELIMITER + tempText + DELIMITER) == Failure(IndexOutOfBounds(2))
  {
    var line := time + DELIMITER + tempText + DELIMITER;
    assert line == time + DELIMITER + tempText + DELIMITER + "";
    ThreeFields(time, tempText, "");
    assert OccursAt(line, DELIMITER, |time|) by {
      assert line[|time|..|time| + 5] == DELIMITER;
    }
    assert IndexOf(line, DELIMITER, 0) >= 0;
    assert [time, tempText, ""] == [time, tempText] + [""];
    DropTrailingEmptyAppend([time, tempText], [""]);
    assert DropTrailingEmpty([""]) == DropTrailingEmpty([]) == [];
    assert Split(line, DELIMITER) == [time, tempText];
  }

  /** The first two fields of `a + DELIMITER + b + DELIMITER + rest` are `a`
      and `b` when both are separable and `b` is not empty. */
  lemma TwoLeadingFields(a: string, b: string, rest: string)
    requires Separable(a) && Separable(b) && b != ""
    ensures |Split(a + DELIMITER + b + DELIMITER + rest, DELIMITER)| >= 2
    ensures Split(a + DELIMITER + b + DELIMITER + rest, DELIMITER)[..2] == [a, b]
  {
    var line := a + DELIMITER + b + DELIMITER + rest;
    var tail := Fields(rest, DELIMITER);
    assert line == a + DELIMITER + (b + DELIMITER + rest);
    ConsField(a, b + DELIMITER + rest);
    ConsField(b, rest);
    assert Fields(line, DELIMITER) == [a, b] + tail;
    assert OccursAt(line, DELIMITER, |a|) by {
      assert line[|a|..|a| + 5] == DELIMITER;
    }
    DropTrailingEmptyAppend([a, b], tail);
    assert Split(line, DELIMITER) == [a, b] + DropTrailingEmpty(tail);
  }

  /** A temperature field `Double.parseDouble` refuses makes the parser fail
      with that field's text, whatever follows it. */
  lemma NonNumericTempFails(time: string, tempText: string, rest: string)
    requires Separable(time) && Separable(tempText) && tempText != ""
    requires ParseDouble(tempText) == None
    ensures Parse(time + DELIMITER + tempText + DELIMITER + rest) == Failure(NumberFormat(tempText))
  {
    var line := time + DELIMITER + tempText + DELIMITER + rest;
    TwoLeadingFields(time, tempText, rest);
    var fields := Split(line, DELIMITER);
    assert fields[1] == fields[..2][1] == tempText;
  }

  /** A humidity field `Double.parseDouble` refuses makes the parser fail
      with that field's text once the temperature reads. */
  lemma NonNumericHumidityFails(time: string, tempText: string, humidityText: string)
    requires Separable(time) && Separable(tempText)
    requires !Contains(humidityText, DELIMITER) && humidityText != ""
    requires ParseDouble(tempText).Some? && ParseDouble(humidityText) == None
    ensures Parse(time + DELIMITER + tempText + DELIMITER + humidityText)
      == Failure(NumberFormat(humidityText))
  {
    var line := time + DELIMITER + tempText + DELIMITER + humidityText;
    ThreeFields(time, tempText, humidityText);
    assert OccursAt(line, DELIMITER, |time|) by {
      assert line[|time|..|time| + 5] == DELIMITER;
    }
  }

  /** `toString` ends with the humidity's text: no delimiter and no line
      break follow it. */
  lemma ToStringEnding(e: LogEntry)
    requires WellBehaved(e.humidity)
    ensures !EndsWith(e.ToString(), DELIMITER) && !EndsWith(e.ToString(), "\n")
  {
    var line, h := e.ToString(), FormatDouble(e.humidity);
    WellBehavedText(e.humidity);
    var last := line[|line| - 1];
    assert last == h[|h| - 1] && last in h;
    assert line[|line| - 5..][4] == last != DELIMITER[4];
    assert line[|line| - 1..][0] == last != '\n';
  }
}
