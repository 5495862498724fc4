# SolarTemperatureServer: sensor logs and their entry format, in Dafny

SolarTemperatureServer records the temperature and humidity of a few sensors, with one append-only log file per sensor. This project models its core and proves properties of it:

- **`LogEntry`** (`log_entry.dfy`): one reading as a text line, `time === temp === humidity`. `toString` prints the line and `new LogEntry(String)` reads one back. The parser splits on the literal delimiter `" === "`, keeps field 0 as the time, and parses fields 1 and 2 as doubles. It throws on a missing field (`ArrayIndexOutOfBoundsException`) and on an unreadable number (`NumberFormatException`). Both are modelled as a `Result` with the field index or the refused text. The parser is proved against the text printed by `toString` (round trip), and against the shapes that make it fail.
- **`TempHumidity`** (`temp_humidity.dfy`): the immutable reading handed to `log`, with its `toString`.
- **`TemperatureLog`** (`temperature_log.dfy`): the registry and the per-sensor logs.
  - At start-up the static initialiser normalises the configured root directory. It then builds one log per configured sensor name, putting each into a map under its name.
  - Each log derives its file path from the root and its name (spaces become underscores, then `.log`). It creates an empty file only when none exists.
  - `log` appends one line `now|temp|humidity` and swallows I/O errors.
  - The registry and the logs are classes. The file system is a class holding a map from path to lines (`file_system.dfy`). The initialiser's loop is a `while` loop proved against a pure description of the map it builds (`PutAll`) and of the files it creates (`CreateAllMissing`).

Supporting modules model the library behaviour the core relies on:

- `java_string.dfy`: Java's `String.split` with a literal delimiter, `indexOf`, `contains`, `endsWith` and `replace(char, char)`.
  - `split` matches from the left without overlaps and keeps a leading empty field. It drops trailing empty fields, and a line with no match is one field.
- `java_double.dfy`: `double` is an abstract type. `Double.toString` and `Double.parseDouble` are uninterpreted functions.
  - `WellBehaved(x)` says that `x` prints as text of digits, sign, point, exponent, `NaN` or `Infinity`, and that this text parses back to `x`. Lemmas take it as a precondition on the values they are about; nothing is assumed globally.
- `joda_time.dfy`: Joda-Time's `basicDateTimeNoMillis` format (ISO 8601 basic format without fractional seconds, `yyyyMMdd'T'HHmmss` followed by `Z` or `±HHmm`) and a parser for it. Years are limited to 0 to 9999.

The clock (`new DateTime()`) is a parameter: a `DateTime` value, read to the millisecond, for `new LogEntry(temp, humidity)`, and the clock's text `now` for `log`. `TIME_FORMAT` has no milliseconds, so `getTimeAsDateTime()` of such an entry gives back the clock's reading truncated to the second (`AtInstant`, `RoundTripExactIffWholeSecond`). The configuration (root and sensor names) is a constructor input, and `DEFAULT_CONFIG` is the fallback used when the properties file cannot be read.

Observations about the source that the proofs make precise:

- **The round trip needs more than "no delimiter in the time".** The source documents the round trip only for times in `TIME_FORMAT` (LogEntry.java:41, 49-51), and those contain no space (`AtInstantRoundTrip`). For an arbitrary time text, however, not containing `" === "` is not enough.
  - A time ending in `" ==="` makes the delimiter after it match one character early, so the line no longer parses back to the entry (`HeadSuffixBreaksRoundTrip`).
  - The exact condition is "no delimiter and no `" ==="` suffix" (`SeparableIff`, `RoundTrip`).
- **`log` does not write `LogEntry` lines.** It writes `now|temp|humidity` (TemperatureLog.java:106), while `LogEntry` parses on `" === "` (LogEntry.java:19, 54). Cutting such a line at its two bars gives back its three parts (`LogLineSplits`). A reader would have to cut at the literal bar: Java's `split("|")` treats `"|"` as a regular expression (an alternation of two empty patterns) and returns every character as its own field, so it would need `split("\\|")` or `Pattern.quote`. Read as a `LogEntry`, the line fails at field 1 (`LogLineIsNotALogEntry`). The model records this and does not reconcile the two formats.
- **Two names can share one file.** Two names get the same file exactly when they are equal once every space is turned into an underscore (`SameFileIff`), e.g. `"indoor 1"` and `"indoor_1"` (`SpaceAndUnderscoreShareFile`). All logs share one `FileSystem`, so the model captures that sharing.
- **`log` does not recreate a missing file.** `Files.write` with `APPEND` and without `CREATE` fails on a missing file (TemperatureLog.java:108). The exception is caught and only logged (TemperatureLog.java:109-111), so the file stays missing.
- **A root that cannot be used does not stop start-up.** A failure to create a log file is caught and only logged (TemperatureLog.java:89-95).

## Model

| member | source | states |
|---|---|---|
| JavaString.IndexOf | src/main/java/edu/wvu/solar/solartemperatureserver/LogEntry.java:54 | the result is -1 or an index at or after `from` where the delimiter occurs, and no earlier index at or after `from` has an occurrence (the leftmost match `split` cuts at) |
| JavaString.FieldsSpec | src/main/java/edu/wvu/solar/solartemperatureserver/LogEntry.java:54 | the pieces between leftmost non-overlapping matches join back (with the delimiter) to the line, none contains the delimiter, and there is more than one exactly when the line contains it |
| JavaString.SplitSpec | src/main/java/edu/wvu/solar/solartemperatureserver/LogEntry.java:54 | `split` without a match is the whole line; with one it is the fields up to the last non-empty one, every dropped field is empty, and no piece contains the delimiter |
| JavaString.FieldsCons | src/main/java/edu/wvu/solar/solartemperatureserver/LogEntry.java:54 | when no match can start inside `a` (or straddle its end), the fields of `a + d + b` are `a` followed by the fields of `b` |
| JavaString.NoMatchOneField | src/main/java/edu/wvu/solar/solartemperatureserver/LogEntry.java:54 | a line without the delimiter has `indexOf` -1 and is its own single field |
| JavaString.DropTrailingEmptyAppend | src/main/java/edu/wvu/solar/solartemperatureserver/LogEntry.java:54 | dropping trailing empty fields never reaches back past a non-empty field |
| JavaString.Split | src/main/java/edu/wvu/solar/solartemperatureserver/LogEntry.java:54 | `split` is either the whole line or a prefix of the fields between matches that does not end with an empty field; `SplitSpec` gives the full characterisation |
| JavaString.Replace | src/main/java/edu/wvu/solar/solartemperatureserver/TemperatureLog.java:86 | `replace(from, to)` keeps the length, leaves no `from` behind when `to` differs from it, and changes nothing in a text without `from` |
| JavaString.ReplaceSpec | src/main/java/edu/wvu/solar/solartemperatureserver/TemperatureLog.java:86 | `replace(' ', '_')` keeps the length and changes exactly the spaces |
| JavaDouble.WellBehavedText | src/main/java/edu/wvu/solar/solartemperatureserver/LogEntry.java:85 | the printed text of a well-behaved double contains no space, comma, bar or line break |
| JodaTime.FormatBasicNoMillis | src/main/java/edu/wvu/solar/solartemperatureserver/LogEntry.java:18 | the printed date-time is 16 characters at UTC and 20 otherwise, with `T` at index 8 and the zone (`Z` or a sign) at index 15; `FormatParseRoundTrip` ties it to the parser |
| JodaTime.FormatShape | src/main/java/edu/wvu/solar/solartemperatureserver/LogEntry.java:18 | the `basicDateTimeNoMillis` text is 16 characters at UTC and 20 otherwise, and holds no space |
| JodaTime.FormatLayout | src/main/java/edu/wvu/solar/solartemperatureserver/LogEntry.java:18 | each field of the date-time sits at its fixed position in the printed text, with `T` at index 8 and the zone from index 15 |
| JodaTime.ParseBasicNoMillis | src/main/java/edu/wvu/solar/solartemperatureserver/LogEntry.java:75-77 | a text that parses is 16 or 20 characters long and denotes a valid date-time |
| JodaTime.FormatParseRoundTrip | src/main/java/edu/wvu/solar/solartemperatureserver/LogEntry.java:18 | parsing the printed text of a valid date-time gives back the same date-time with its milliseconds dropped |
| JodaTime.RoundTripExactIffWholeSecond | src/main/java/edu/wvu/solar/solartemperatureserver/LogEntry.java:18 | the printed text parses back to exactly the date-time it came from if and only if that date-time has no milliseconds |
| LogEntries.LogEntry.ToString | src/main/java/edu/wvu/solar/solartemperatureserver/LogEntry.java:84-86 | the printed line starts with the time followed by a match of the delimiter, and ends with the delimiter and the humidity's text; `RoundTrip` shows the parser reads it back |
| LogEntries.LogEntry.GetTimeAsDateTime | src/main/java/edu/wvu/solar/solartemperatureserver/LogEntry.java:74-77 | a time text that parses is 16 or 20 characters long and gives a valid date-time |
| LogEntries.AtInstant | src/main/java/edu/wvu/solar/solartemperatureserver/LogEntry.java:30-35 | the two-argument constructor keeps temp and humidity; its time text contains no space and parses back (`getTimeAsDateTime`) to the clock's instant truncated to the second, which is the instant itself exactly when its milliseconds are zero |
| LogEntries.ReadFields | src/main/java/edu/wvu/solar/solartemperatureserver/LogEntry.java:55-57 | success needs three fields and takes field 0 as the time and the parses of fields 1 and 2; a missing index is reported as exactly the array length (below 3); a number error names a field after the first that does not parse |
| LogEntries.ReadFieldsLeading | src/main/java/edu/wvu/solar/solartemperatureserver/LogEntry.java:55-57 | only the first three fields are read: arrays agreeing on them read alike |
| LogEntries.Parse | src/main/java/edu/wvu/solar/solartemperatureserver/LogEntry.java:53-58 | a parsed time is exactly the text before the first delimiter; an index error reports the length of the split (below 3); a number error reports a field of the split after the first that `parseDouble` refuses |
| LogEntries.SeparableIff | src/main/java/edu/wvu/solar/solartemperatureserver/LogEntry.java:19 | the delimiter after a field is the first match exactly when the field neither contains `" === "` nor ends with `" ==="` |
| LogEntries.CleanSeparable | src/main/java/edu/wvu/solar/solartemperatureserver/LogEntry.java:19 | a field without the delimiter and without a `" ==="` suffix keeps the following delimiter as the first match |
| LogEntries.NoSpaceSeparable | src/main/java/edu/wvu/solar/solartemperatureserver/LogEntry.java:19 | a field without spaces is separable and free of the delimiter |
| LogEntries.ConsField | src/main/java/edu/wvu/solar/solartemperatureserver/LogEntry.java:54 | a separable field followed by the delimiter is the first field of the split |
| LogEntries.ThreeFields | src/main/java/edu/wvu/solar/solartemperatureserver/LogEntry.java:54 | `a === b === c` has exactly the fields `a`, `b`, `c` when `a`, `b` are separable and `c` holds no delimiter |
| LogEntries.TwoThenRest | src/main/java/edu/wvu/solar/solartemperatureserver/LogEntry.java:54 | two separable fields and a delimiter are the first two fields, followed by the fields of the rest |
| LogEntries.ThreeThenRest | src/main/java/edu/wvu/solar/solartemperatureserver/LogEntry.java:54 | three separable fields and a delimiter are the first three fields, followed by the fields of the rest |
| LogEntries.ToStringSplits | src/main/java/edu/wvu/solar/solartemperatureserver/LogEntry.java:84-86 | the printed line splits into exactly the time and the two numbers' texts |
| LogEntries.RoundTrip | src/main/java/edu/wvu/solar/solartemperatureserver/LogEntry.java:49-58 | parsing `toString()` gives back the same entry, for a time without the delimiter and without a `" ==="` suffix |
| LogEntries.AtInstantRoundTrip | src/main/java/edu/wvu/solar/solartemperatureserver/LogEntry.java:30-35 | an entry made from the clock survives the round trip, and its time still parses to the clock's instant truncated to the second |
| LogEntries.HeadSuffixBreaksRoundTrip | src/main/java/edu/wvu/solar/solartemperatureserver/LogEntry.java:54 | a time ending in `" ==="` does not survive the round trip, even though it holds no delimiter |
| LogEntries.TimeNotValidated | src/main/java/edu/wvu/solar/solartemperatureserver/LogEntry.java:55 | a time text that `TIME_FORMAT` rejects is read back as it is, and only `getTimeAsDateTime` fails on it |
| LogEntries.AppendedFields | src/main/java/edu/wvu/solar/solartemperatureserver/LogEntry.java:54 | a printed line followed by a delimiter and more text has its three fields first, then the fields of the extra text |
| LogEntries.ExtraFieldsIgnored | src/main/java/edu/wvu/solar/solartemperatureserver/LogEntry.java:54-57 | text after a fourth delimiter does not change what the line parses to |
| LogEntries.NoDelimiterFails | src/main/java/edu/wvu/solar/solartemperatureserver/LogEntry.java:54-56 | a line without the delimiter fails at index 1 |
| LogEntries.DelimiterOnlyFails | src/main/java/edu/wvu/solar/solartemperatureserver/LogEntry.java:54-55 | the line `" === "` splits into nothing (both empty fields dropped) and fails at index 0 |
| LogEntries.EmptyHumidityFails | src/main/java/edu/wvu/solar/solartemperatureserver/LogEntry.java:54-57 | a line whose humidity field is empty loses it to the split and fails at index 2 once the temperature reads |
| LogEntries.TwoLeadingFields | src/main/java/edu/wvu/solar/solartemperatureserver/LogEntry.java:54 | the first two fields of `a === b === rest` are `a` and `b` for separable `a` and non-empty separable `b` |
| LogEntries.NonNumericTempFails | src/main/java/edu/wvu/solar/solartemperatureserver/LogEntry.java:56 | an unreadable temperature field fails with that field's text, whatever follows |
| LogEntries.NonNumericHumidityFails | src/main/java/edu/wvu/solar/solartemperatureserver/LogEntry.java:57 | an unreadable humidity field fails with that field's text once the temperature reads |
| LogEntries.ToStringEnding | src/main/java/edu/wvu/solar/solartemperatureserver/LogEntry.java:84-86 | the printed line ends with the humidity's text, with neither a delimiter nor a line break after it |
| TempHumidities.TempHumidity.ToString | src/main/java/edu/wvu/solar/solartemperatureserver/TempHumidity.java:28-31 | the printed reading starts with `"Temp: "` and ends with the label `", Humid: "` followed by the humidity's text; `ToStringInjective` shows it determines the reading |
| TempHumidities.LabelSeparates | src/main/java/edu/wvu/solar/solartemperatureserver/TempHumidity.java:28-31 | with a comma-free temperature text, the humidity label marks where the temperature ends |
| TempHumidities.ToStringInjective | src/main/java/edu/wvu/solar/solartemperatureserver/TempHumidity.java:28-31 | two readings that print alike are equal (the printed form determines temperature and humidity) |
| TemperatureLogs.NormalizeRoot | src/main/java/edu/wvu/solar/solartemperatureserver/TemperatureLog.java:45-47 | the root is empty or ends in `/`; it is either unchanged or has one `/` appended, and it changes exactly when it is non-empty and lacks the trailing `/` |
| TemperatureLogs.NormalizeRootIdempotent | src/main/java/edu/wvu/solar/solartemperatureserver/TemperatureLog.java:45-47 | normalising twice is normalising once |
| TemperatureLogs.LogFilePathShape | src/main/java/edu/wvu/solar/solartemperatureserver/TemperatureLog.java:86-87 | the path is the root, then the name character by character with spaces turned into `_`, then `.log`; its length is root + name + 4 and its name part holds no space |
| TemperatureLogs.LogFilePath | src/main/java/edu/wvu/solar/solartemperatureserver/TemperatureLog.java:86-87 | the path starts with the root, ends with `.log`, and is as long as root, name and `.log` together; `LogFilePathShape` and `SameFileIff` state what lies between and when two names share it |
| TemperatureLogs.SameFileIff | src/main/java/edu/wvu/solar/solartemperatureserver/TemperatureLog.java:86-87 | two names get the same path under a root exactly when they are equal once every space is turned into `_` |
| TemperatureLogs.SpaceAndUnderscoreShareFile | src/main/java/edu/wvu/solar/solartemperatureserver/TemperatureLog.java:86-87 | `"indoor 1"` and `"indoor_1"` get the same file |
| TemperatureLogs.LogFilePathsPointwise | src/main/java/edu/wvu/solar/solartemperatureserver/TemperatureLog.java:50-51 | the paths the initialiser creates are, in order, the paths of the configured names |
| TemperatureLogs.LogLine | src/main/java/edu/wvu/solar/solartemperatureserver/TemperatureLog.java:106 | the logged line starts with the clock text and a `\|`, and ends with a `\|` and the humidity's text; `LogLineSplits` shows it cuts back into its parts |
| TemperatureLogs.LogLineSplits | src/main/java/edu/wvu/solar/solartemperatureserver/TemperatureLog.java:106 | cutting a logged line at its literal bars gives back the clock text and the two numbers' texts, which parse back to the reading |
| TemperatureLogs.LogLineIsNotALogEntry | src/main/java/edu/wvu/solar/solartemperatureserver/TemperatureLog.java:106 | a logged line (clock text without spaces) read as a `LogEntry` fails at field 1 |
| TemperatureLogs.CreateAllMissingEffect | src/main/java/edu/wvu/solar/solartemperatureserver/TemperatureLog.java:89-95 | after the logs are built a file exists exactly where one existed or a configured path could be created; existing files keep their lines and created ones are empty |
| TemperatureLogs.PutAllLast | src/main/java/edu/wvu/solar/solartemperatureserver/TemperatureLog.java:49-52 | after the puts the keys are exactly the configured names, and each holds the value put with the name's last occurrence |
| TemperatureLogs.TemperatureLog.constructor | src/main/java/edu/wvu/solar/solartemperatureserver/TemperatureLog.java:84-96 | the log keeps its name and derived path; the files change only by an empty file at that path, where none existed and creation is allowed |
| TemperatureLogs.TemperatureLog.Log | src/main/java/edu/wvu/solar/solartemperatureserver/TemperatureLog.java:104-112 | when the file exists and is writable, exactly the line `now\|temp\|humidity` is added at its end and nothing else changes; otherwise nothing changes |
| TemperatureLogs.BuildLogs | src/main/java/edu/wvu/solar/solartemperatureserver/TemperatureLog.java:49-52 | step k builds a fresh log for the k-th name, no log is built twice, and the map is the result of putting the k-th log under the k-th name in order; so every log in the map is fresh and belongs to its key; the files are those the constructors create one after another |
| TemperatureLogs.Registry.constructor | src/main/java/edu/wvu/solar/solartemperatureserver/TemperatureLog.java:45-52 | the root is normalised; one distinct fresh log is built per configured name, in order, and the map holds, for each name, the one put last (by `PutAllLast`, the log built for its last occurrence); the files are created as the logs are built |
| TemperatureLogs.Registry.GetLog | src/main/java/edu/wvu/solar/solartemperatureserver/TemperatureLog.java:63-65 | null exactly for a name that was not configured; otherwise the log with that name, its derived path and the shared file system |
| TemperatureLogs.KeySetToArray | src/main/java/edu/wvu/solar/solartemperatureserver/TemperatureLog.java:73 | `keySet().toArray(...)` holds every key exactly once and nothing else, as many entries as keys |
| TemperatureLogs.Registry.GetSensorNames | src/main/java/edu/wvu/solar/solartemperatureserver/TemperatureLog.java:72-74 | every configured name exactly once, and as many names as the map has entries |
| Files.FileSystem.CreateNewFile | src/main/java/edu/wvu/solar/solartemperatureserver/TemperatureLog.java:91 | an existing file is left alone (`false`), a failing path raises, otherwise an empty file appears |
| Files.FileSystem.AppendLine | src/main/java/edu/wvu/solar/solartemperatureserver/TemperatureLog.java:108 | the write succeeds exactly when the file exists and is not failing, and then only adds the line at the end of that file |

The value classes need no operations of their own:

- `LogEntry` (three-argument constructor and getters, LogEntry.java:43-47, 63-81) and `TempHumidity` (constructor and getters, TempHumidity.java:14-26) are datatypes. Their constructors store the arguments and their destructors return them.
- A datatype value cannot change, which is the model of "no setters".

## Left out

- Reading `config.properties` through the class loader, including splitting `sensornames` on commas and the `NullPointerException` when the file or a key is missing (TemperatureLog.java:32-43). The configuration is an input, and `DEFAULT_CONFIG` is the fallback it names.
- The wall clock (`new DateTime()`, LogEntry.java:34 and TemperatureLog.java:105): the instant, or its text, is a parameter.
- Joda's conversion of a parsed date-time to the default time zone in `getTimeAsDateTime`, its lenient parsing modes, and years outside 0 to 9999: the model parses exactly the fixed-width basic format.
- IEEE arithmetic and the exact text of `Double.toString`/`Double.parseDouble`: `double` is abstract, and lemmas that need the print/parse round trip take `WellBehaved` as a precondition.
- LogEntries.RoundTrip: holds only for numbers that are `WellBehaved`, because the model does not know Java's number formatting.
- The bytes written: the `"\n"` terminator and the platform encoding of `getBytes()`. A file is modelled as its sequence of lines, and `log` adds one line.
- Absolute paths (`getAbsolutePath`), directories and logging through log4j. Which paths fail is a fixed set chosen by the environment.
- `synchronized` on `log` and all concurrency: appends happen one after another.
- TemperatureLogs.Registry.GetSensorNames: returns the names in an order it leaves open, where Java returns the `HashMap`'s iteration order.
- TemperatureLogs.Registry.constructor: starts from a configuration value rather than the class loader, and says nothing about the `HashMap`'s internal layout.
- `ScheduledTask` and `ServerController` (sensor polling over the network, the REST surface, and a `getData` query that the log class does not define), and the `main` demo (TemperatureLog.java:120-125).
