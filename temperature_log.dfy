/** `TemperatureLog`: one append-only log file per configured sensor, and the
    static registry that builds one log per sensor name at start-up. */
module TemperatureLogs {
  import opened Wrappers
  import opened JavaString
  import opened JavaDouble
  import opened Files
  import opened TempHumidities
  import LogEntries

  /** The root directory of the log files, with "/" appended when it is
      non-empty and does not already end with one. */
  function NormalizeRoot(root: string): (r: string)
    ensures r == "" || EndsWith(r, "/")
    ensures r == root || r == root + "/"
    ensures r != root <==> root != "" && !EndsWith(root, "/")
  {
    if !EndsWith(root, "/") && |root| > 0 then root + "/" else root
  }

  /** Normalising an already normalised root changes nothing. */
  lemma NormalizeRootIdempotent(root: string)
    ensures NormalizeRoot(NormalizeRoot(root)) == NormalizeRoot(root)
  {
  }

  /** The path of a sensor's log file: the root, the name with every space
      turned into an underscore, then ".log". */
  function LogFilePath(root: string, sensorName: string): (path: string)
    ensures |path| == |root| + |sensorName| + 4
    ensures path[..|root|] == root && EndsWith(path, ".log")
  {
    root + Replace(sensorName, ' ', '_') + ".log"
  }

  /** The path is the root, then the name character by character with each
      space turned into an underscore, then ".log"; the part taken from the
      name holds no space. */
  lemma LogFilePathShape(root: string, sensorName: string)
    ensures var path := LogFilePath(root, sensorName);
      && |path| == |root| + |sensorName| + 4
      && path[..|root|] == root
      && EndsWith(path, ".log")
      && (forall k :: 0 <= k < |sensorName| ==>
            path[|root| + k] == if sensorName[k] == ' ' then '_' else sensorName[k])
      && ' ' !in path[|root|..|root| + |sensorName|]
  {
    var path := LogFilePath(root, sensorName);
    ReplaceSpec(sensorName, ' ', '_');
    assert path[|path| - 4..] == ".log";
    assert path[|root|..|root| + |sensorName|] == Replace(sensorName, ' ', '_');
  }

  /** Two sensor names that differ only in spaces against underscores share
      one log file. */
  lemma SpaceAndUnderscoreShareFile(root: string)
    ensures LogFilePath(root, "indoor 1") == LogFilePath(root, "indoor_1")
  {
    assert Replace("indoor 1", ' ', '_') == Replace("indoor_1", ' ', '_');
  }

  /** Two sensor names share a log file exactly when they are equal once
      every space is turned into an underscore. */
  lemma SameFileIff(root: string, a: string, b: string)
    ensures LogFilePath(root, a) == LogFilePath(root, b) <==> Replace(a, ' ', '_') == Replace(b, ' ', '_')
  {
    var x, y := Replace(a, ' ', '_'), Replace(b, ' ', '_');
    if LogFilePath(root, a) == LogFilePath(root, b) {
      var p := LogFilePath(root, a);
      assert p == root + x + ".log" && p == root + y + ".log";
      assert x == p[|root|..|p| - 4];
      assert y == p[|root|..|p| - 4];
    }
  }

  /** The line `log` appends: the clock's text, the temperature and the
      humidity, separated by "|". */
  function LogLine(now: string, reading: TempHumidity): (line: string)
    ensures |line| > |now| && line[..|now|] == now && line[|now|] == '|'
    ensures EndsWith(line, "|" + FormatDouble(reading.humidity))
  {
    now + "|" + FormatDouble(reading.temp) + "|" + FormatDouble(reading.humidity)
  }

  /** Cutting a logged line at its bars gives back the clock's text and the
      two numbers, when the clock's text has no bar of its own. (Java's
      `split("|")` would not do this: "|" is a regular-expression
      alternation of two empty patterns, so a reader would need
      `split("\\|")`.) */
  lemma LogLineSplits(now: string, reading: TempHumidity)
    requires '|' !in now && WellBehaved(reading.temp) && WellBehaved(reading.humidity)
    ensures Fields(LogLine(now, reading), "|") == [now, FormatDouble(reading.temp), FormatDouble(reading.humidity)]
    ensures ParseDouble(Fields(LogLine(now, reading), "|")[1]) == Some(reading.temp)
    ensures ParseDouble(Fields(LogLine(now, reading), "|")[2]) == Some(reading.humidity)
  {
    var t, h := FormatDouble(reading.temp), FormatDouble(reading.humidity);
    WellBehavedText(reading.temp);
    WellBehavedText(reading.humidity);
    MissingFirstCharNoMatch(now, "|");
    MissingFirstCharNoMatch(t, "|");
    MissingFirstCharNoMatch(h, "|");
    NoMatchOneField(h, "|");
    assert "|"[..0] == "";
    assert now + "" == now && t + "" == t;
    assert LogLine(now, reading) == now + "|" + (t + "|" + h);
    FieldsCons(now, t + "|" + h, "|");
    FieldsCons(t, h, "|");
    assert [now] + ([t] + [h]) == [now, t, h];
  }

  /** The line `log` writes is not in the `LogEntry` format: for a clock text
      without spaces it holds no " === ", so reading it as a `LogEntry` fails
      at field 1. */
  lemma LogLineIsNotALogEntry(now: string, reading: TempHumidity)
    requires ' ' !in now && WellBehaved(reading.temp) && WellBehaved(reading.humidity)
    ensures LogEntries.Parse(LogLine(now, reading)) == Failure(LogEntries.IndexOutOfBounds(1))
  {
    WellBehavedText(reading.temp);
    WellBehavedText(reading.humidity);
    var line := LogLine(now, reading);
    assert ' ' !in line;
    MissingFirstCharNoMatch(line, LogEntries.DELIMITER);
    LogEntries.NoDelimiterFails(line);
  }

  /** The files after the log for `path` is constructed: an empty file is
      created only where there was none and the environment allows it. */
  function CreateIfMissing(files: map<string, seq<string>>, failing: set<string>, path: string)
    : map<string, seq<string>>
  {
    if path in files || path in failing then files else files[path := []]
  }

  /** The files after logs for `paths` are constructed one after another. */
  function CreateAllMissing(files: map<string, seq<string>>, failing: set<string>, paths: seq<string>)
    : map<string, seq<string>>
  {
    if paths == [] then files
    else CreateIfMissing(CreateAllMissing(files, failing, paths[..|paths| - 1]), failing, paths[|paths| - 1])
  }

  /** Constructing the logs creates an empty file at each configured path
      that had none and is not failing, and leaves every existing file's
      lines and every other path alone. */
  lemma {:induction false} CreateAllMissingEffect(
    files: map<string, seq<string>>, failing: set<string>, paths: seq<string>, p: string)
    ensures p in CreateAllMissing(files, failing, paths) <==>
      p in files || (p in paths && p !in failing)
    ensures p in files ==> CreateAllMissing(files, failing, paths)[p] == files[p]
    ensures p !in files && p in paths && p !in failing ==> CreateAllMissing(files, failing, paths)[p] == []
  {
    if paths != [] {
      var init := paths[..|paths| - 1];
      assert paths == init + [paths[|paths| - 1]];
      CreateAllMissingEffect(files, failing, init, p);
    }
  }

  /** The paths of the log files for `names`, in order. */
  function LogFilePaths(root: string, names: seq<string>): seq<string> {
    if names == [] then [] else LogFilePaths(root, names[..|names| - 1]) + [LogFilePath(root, names[|names| - 1])]
  }

  /** The k-th path is the path of the k-th name. */
  lemma {:induction false} LogFilePathsPointwise(root: string, names: seq<string>)
    ensures |LogFilePaths(root, names)| == |names|
    ensures forall k :: 0 <= k < |names| ==> LogFilePaths(root, names)[k] == LogFilePath(root, names[k])
  {
    if names != [] {
      LogFilePathsPointwise(root, names[..|names| - 1]);
    }
  }

  /** The index of the last occurrence of `name` in `names`. */
  function LastIndex(names: seq<string>, name: string): (k: nat)
    requires name in names
    ensures k < |names| && names[k] == name
    ensures forall j :: k < j < |names| ==> names[j] != name
  {
    if names[|names| - 1] == name then |names| - 1 else LastIndex(names[..|names| - 1], name)
  }

  /** The map that putting `values[k]` under `keys[k]` for each `k` in
      order builds, as `HashMap.put` does. */
  function PutAll<V>(keys: seq<string>, values: seq<V>): map<string, V>
    requires |keys| == |values|
  {
    if keys == [] then map[]
    else PutAll(keys[..|keys| - 1], values[..|keys| - 1])[keys[|keys| - 1] := values[|keys| - 1]]
  }

  /** After the puts, the keys are the names put and each holds the value put
      with its last occurrence. */
  lemma {:induction false} PutAllLast<V>(keys: seq<string>, values: seq<V>)
    requires |keys| == |values|
    ensures PutAll(keys, values).Keys == set n | n in keys
    ensures forall n :: n in keys ==> PutAll(keys, values)[n] == values[LastIndex(keys, n)]
  {
    if keys != [] {
      var init, last := keys[..|keys| - 1], keys[|keys| - 1];
      PutAllLast(init, values[..|keys| - 1]);
      assert keys == init + [last];
      NameSetSnoc(init, last);
      forall n | n in keys ensures PutAll(keys, values)[n] == values[LastIndex(keys, n)] {
        if n != last {
          assert n in init;
          assert LastIndex(keys, n) == LastIndex(init, n);
        }
      }
    }
  }

  /** What adding one more name to the end does to the derived paths. */
  lemma PathsSnoc(root: string, names: seq<string>, name: string)
    ensures LogFilePaths(root, names + [name]) == LogFilePaths(root, names) + [LogFilePath(root, name)]
  {
    assert (names + [name])[..|names|] == names;
  }

  /** Constructing one more log after the others. */
  lemma CreateAllMissingSnoc(
    files: map<string, seq<string>>, failing: set<string>, paths: seq<string>, path: string)
    ensures CreateAllMissing(files, failing, paths + [path])
         == CreateIfMissing(CreateAllMissing(files, failing, paths), failing, path)
  {
    assert (paths + [path])[..|paths|] == paths;
  }

  /** What adding one more name to the end does to the set of names. */
  lemma NameSetSnoc(names: seq<string>, name: string)
    ensures (set n | n in names + [name]) == (set n | n in names) + {name}
  {
    assert forall n :: n in names + [name] <==> n in names || n == name;
  }

  /** One sensor's log: its name, the path of its file, and the file system
      the file lives on. */
  class TemperatureLog {
    /** `getSensorName()` */
    const sensorName: string
    const logFilePath: string
    const fs: FileSystem

    /** The private constructor, with the static root passed in: derive the
        path and create the file if it does not exist; a failure to create
        it is logged and swallowed. */
    constructor (root: string, sensorName: string, fs: FileSystem)
      modifies fs`files
      ensures this.sensorName == sensorName && this.fs == fs
      ensures logFilePath == LogFilePath(root, sensorName)
      ensures fs.files == CreateIfMissing(old(fs.files), fs.failing, logFilePath)
    {
      this.sensorName := sensorName;
      this.logFilePath := LogFilePath(root, sensorName);
      this.fs := fs;
      new;
      if !fs.Exists(logFilePath) {
        var _ := fs.CreateNewFile(logFilePath);
      }
    }

    /** `log(temp)`, with the clock's text `now` passed in: one line is
        appended to this log's file and nothing else changes; when the write
        fails (no file, or the environment refuses) the files are left as they
        were and nothing is raised. */
    method Log(reading: TempHumidity, now: string)
      modifies fs`files
      ensures logFilePath in old(fs.files) && logFilePath !in fs.failing ==>
        fs.files == old(fs.files)[logFilePath := old(fs.files)[logFilePath] + [LogLine(now, reading)]]
      ensures logFilePath !in old(fs.files) || logFilePath in fs.failing ==>
        fs.files == old(fs.files)
    {
      var _ := fs.AppendLine(logFilePath, LogLine(now, reading));
    }
  }

  /** No object occurs twice in `s`. */
  ghost predicate Distinct<T>(s: seq<T>) {
    forall j, k :: 0 <= j < k < |s| ==> s[j] != s[k]
  }

  /** Appending an object that is not yet in `s` keeps it free of repeats. */
  lemma DistinctSnoc<T>(s: seq<T>, x: T)
    requires Distinct(s) && x !in s
    ensures Distinct(s + [x])
  {
    forall j, k | 0 <= j < k < |s| + 1 ensures (s + [x])[j] != (s + [x])[k] {
      if k == |s| {
        assert s[j] in s;
      }
    }
  }

  /** `log` is the log built for `name` under `root`, writing to `fs`. */
  ghost predicate IsLogFor(log: TemperatureLog, root: string, name: string, fs: FileSystem) {
    && log.sensorName == name
    && log.logFilePath == LogFilePath(root, name)
    && log.fs == fs
  }

  /** The k-th log was built for the k-th name, for every k. */
  ghost predicate BuiltFor(made: seq<TemperatureLog>, root: string, names: seq<string>, fs: FileSystem) {
    |made| == |names| && forall k :: 0 <= k < |made| ==> IsLogFor(made[k], root, names[k], fs)
  }

  /** Building one more log for one more name. */
  lemma BuiltForSnoc(made: seq<TemperatureLog>, root: string, names: seq<string>, fs: FileSystem,
                     log: TemperatureLog, name: string)
    requires BuiltFor(made, root, names, fs) && IsLogFor(log, root, name, fs)
    ensures BuiltFor(made + [log], root, names + [name], fs)
  {
  }

  /** Putting one more value under one more key. */
  lemma PutAllSnoc<V>(keys: seq<string>, values: seq<V>, key: string, value: V)
    requires |keys| == |values|
    ensures PutAll(keys + [key], values + [value]) == PutAll(keys, values)[key := value]
  {
    assert (keys + [key])[..|keys|] == keys && (values + [value])[..|keys|] == values;
  }

  /** When the k-th log was built for the k-th name, the map the puts build
      holds, under each name, one of those logs, built for that name. */
  lemma LogsForNames(root: string, names: seq<string>, made: seq<TemperatureLog>, fs: FileSystem)
    requires |made| == |names|
    requires forall k :: 0 <= k < |made| ==> IsLogFor(made[k], root, names[k], fs)
    ensures PutAll(names, made).Keys == set n | n in names
    ensures forall n :: n in PutAll(names, made) ==>
      PutAll(names, made)[n] in made && IsLogFor(PutAll(names, made)[n], root, n, fs)
  {
    PutAllLast(names, made);
    forall n | n in PutAll(names, made)
      ensures PutAll(names, made)[n] in made && IsLogFor(PutAll(names, made)[n], root, n, fs)
    {
      var k := LastIndex(names, n);
      assert PutAll(names, made)[n] == made[k];
    }
  }

  /** The loop of the static initialiser: a new log for each name in order,
      put into the map under its name (a repeated name replaces the log put
      there before); each log creates its file when it is missing. */
  method BuildLogs(root: string, names: seq<string>, fs: FileSystem)
      returns (logs: map<string, TemperatureLog>, ghost made: seq<TemperatureLog>)
    modifies fs`files
    ensures logs.Keys == set n | n in names
    ensures |made| == |names| && logs == PutAll(names, made)
    ensures forall k :: 0 <= k < |made| ==> fresh(made[k]) && IsLogFor(made[k], root, names[k], fs)
    ensures Distinct(made)
    ensures forall n :: n in logs ==> fresh(logs[n]) && IsLogFor(logs[n], root, n, fs)
    ensures fs.files == CreateAllMissing(old(fs.files), fs.failing, LogFilePaths(root, names))
  {
    logs, made := map[], [];
    ghost var files0, failing := fs.files, fs.failing;
    ghost var paths: seq<string> := [];
    var i := 0;
    while i < |names|
      invariant 0 <= i <= |names| && |made| == i
      invariant logs == PutAll(names[..i], made)
      invariant BuiltFor(made, root, names[..i], fs)
      invariant forall k :: 0 <= k < i ==> fresh(made[k])
      invariant Distinct(made)
      invariant paths == LogFilePaths(root, names[..i])
      invariant fs.files == CreateAllMissing(files0, failing, paths)
    {
      var name := names[i];
      var path := LogFilePath(root, name);
      var log := new TemperatureLog(root, name, fs);
      ghost var done := names[..i];
      assert names[..i + 1] == done + [name];
      PathsSnoc(root, done, name);
      CreateAllMissingSnoc(files0, failing, paths, path);
      BuiltForSnoc(made, root, done, fs, log, name);
      PutAllSnoc(done, made, name, log);
      DistinctSnoc(made, log);
      logs := logs[name := log];
      made := made + [log];
      paths := paths + [path];
      i := i + 1;
    }
    assert names[..i] == names;
    LogsForNames(root, names, made, fs);
    forall n | n in logs ensures fresh(logs[n]) {
      var k :| 0 <= k < |made| && made[k] == logs[n];
    }
  }

  /** `keySet().toArray(...)`: every key exactly once, in an order left
      open, as a `HashMap` leaves it. */
  method KeySetToArray(keys: set<string>) returns (names: seq<string>)
    ensures |names| == |keys|
    ensures forall i, j :: 0 <= i < j < |names| ==> names[i] != names[j]
    ensures forall n :: n in names <==> n in keys
  {
    names := [];
    var rest := keys;
    while rest != {}
      invariant rest <= keys
      invariant forall n :: n in names <==> n in keys - rest
      invariant forall i, j :: 0 <= i < j < |names| ==> names[i] != names[j]
      invariant |names| + |rest| == |keys|
      decreases rest
    {
      var n :| n in rest;
      assert n !in names;
      names := names + [n];
      rest := rest - {n};
    }
  }

  /** The configuration the static initialiser reads: `logfileroot` and the
      list `sensornames`. */
  datatype Config = Config(logFileRoot: string, sensorNames: seq<string>)

  /** What the static initialiser uses when the properties file cannot be read. */
  const DEFAULT_CONFIG: Config := Config("", ["sensor1", "sensor2", "sensor3"])

  /** The static part of `TemperatureLog`: the root, the configured names and
      the map from each name to its one log. */
  class Registry {
    const logFileRoot: string
    const sensorNames: seq<string>
    const fs: FileSystem
    var instances: map<string, TemperatureLog>
    /** The logs in the order the initialiser built them, one per entry of
        `sensorNames`. */
    ghost var built: seq<TemperatureLog>

    /** One log per configured name, named after its key and writing to the
        file derived from the root and that name. */
    ghost predicate Valid()
      reads this
    {
      && instances.Keys == set n | n in sensorNames
      && forall n :: n in instances ==>
           && instances[n].sensorName == n
           && instances[n].logFilePath == LogFilePath(logFileRoot, n)
           && instances[n].fs == fs
    }

    /** The static initialiser, given the configuration: normalise the root,
        then build a log for each name in order, a repeated name replacing
        the log built for it before. */
    constructor (config: Config, fs: FileSystem)
      modifies fs`files
      ensures logFileRoot == NormalizeRoot(config.logFileRoot)
      ensures sensorNames == config.sensorNames && this.fs == fs
      ensures Valid()
      ensures forall n :: n in instances ==> fresh(instances[n])
      ensures |built| == |sensorNames|
      ensures instances == PutAll(sensorNames, built)
      ensures forall k :: 0 <= k < |built| ==>
        fresh(built[k]) && IsLogFor(built[k], logFileRoot, sensorNames[k], fs)
      ensures Distinct(built)
      ensures fs.files == CreateAllMissing(old(fs.files), fs.failing, LogFilePaths(logFileRoot, sensorNames))
    {
      var root := NormalizeRoot(config.logFileRoot);
      logFileRoot, sensorNames, this.fs := root, config.sensorNames, fs;
      var logs, made := BuildLogs(root, config.sensorNames, fs);
      instances, built := logs, made;
    }

    /** `getLog(name)`: the log for a configured name, and null (the
        `HashMap` miss) for any other. */
    function GetLog(name: string): (log: TemperatureLog?)
      reads this
      requires Valid()
      ensures log == null <==> name !in sensorNames
      ensures log != null ==>
        log.sensorName == name && log.logFilePath == LogFilePath(logFileRoot, name) && log.fs == fs
    {
      if name in instances then instances[name] else null
    }

    /** `getSensorNames()`: the keys of the map, each exactly once, in an
        order the model leaves open as `HashMap` does. */
    method GetSensorNames() returns (names: seq<string>)
      requires Valid()
      ensures |names| == |instances|
      ensures forall i, j :: 0 <= i < j < |names| ==> names[i] != names[j]
      ensures forall n :: n in names <==> n in sensorNames
    {
      names := KeySetToArray(instances.Keys);
    }
  }
}
