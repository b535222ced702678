/**
 * `FetchDataService.fetchAndProcess`: download the holiday CSV to a temporary file,
 * parse it, write one JSON file per year and the year index, and delete the temporary
 * file on every way out.
 *
 * The world outside the service is an `Environment`: whether each I/O call succeeds,
 * what the download delivers (already tokenised into rows) and what Jackson makes of a
 * value.  The files the service touches live in a `Workspace` whose fields the stages
 * update.
 */
module Pipeline {
  import opened Base
  import opened Holidays
  import opened CsvMapping
  import opened Grouping
  import opened YearIndex
  import opened LineEndings
  import opened OutputFiles

  /** What `new URI(dataUrl)` and `FileUtils.copyURLToFile` do. */
  datatype Fetch = BadUri | TransferFails | Delivers(rows: seq<Row>)

  /** The two values the service serialises: one year's records and the year index. */
  datatype Payload = Records(holidays: seq<Holiday>) | Years(years: seq<string>)

  datatype Environment = Environment(
    tempCreatable: bool,              // Files.createTempFile succeeds
    fetch: Fetch,
    readFails: bool,                  // reading the temporary file back throws IOException
    dirReady: bool,                   // Files.createDirectories succeeds
    failingWrites: set<string>,       // output files whose writing throws IOException
    deleteFails: bool,                // Files.deleteIfExists throws IOException
    json: Payload -> string)          // ObjectMapper.writeValueAsString

  /** An exception a stage throws. */
  datatype Failure = IoFailure | UriFailure | Unchecked(error: CsvError)

  datatype Stage = Download | Parse | WriteYearly | WriteIndex

  /**
   * How `fetchAndProcess` ends: normally, after logging a caught `IOException` (with the
   * stage that threw it) or `URISyntaxException`, or with the unchecked exception of a
   * missing column propagating to its caller.
   */
  datatype Outcome = Completed | IoErrorLogged(stage: Stage) | UriErrorLogged | Escaped(error: CsvError)

  /** The stages in the order the method runs them. */
  const StageOrder: seq<Stage> := [Download, Parse, WriteYearly, WriteIndex]

  // ---------------------------------------------------------------------------------
  // The yearly files

  /** The text each group's file is to hold: Jackson's text of its records, with LF line endings. */
  function Texts(env: Environment, groups: map<string, seq<Holiday>>): (texts: map<string, string>)
    ensures texts.Keys == groups.Keys
  {
    map y | y in groups :: WrittenText(env.json(Records(groups[y])))
  }

  /**
   * The directory after the yearly stage failed: what it held before plus the files of
   * some of the groups, those written before the failing write; nothing is rolled back.
   */
  ghost predicate PartlyWritten(before: map<string, string>, after: map<string, string>,
                                env: Environment, groups: map<string, seq<Holiday>>) {
    exists written :: written <= groups.Keys && after == before + FilesFor(Texts(env, groups), written)
  }

  /** The yearly files the groups call for: one per key, named after it, and no other. */
  function YearlyFiles(env: Environment, groups: map<string, seq<Holiday>>): (files: map<string, string>)
    ensures forall y :: y in groups ==> FileName(y) in files && files[FileName(y)] == WrittenText(env.json(Records(groups[y])))
    ensures forall n :: n in files ==> exists y :: y in groups && n == FileName(y)
  {
    FilesForAll(Texts(env, groups));
    FilesFor(Texts(env, groups), groups.Keys)
  }

  // ---------------------------------------------------------------------------------
  // The run as a whole

  /**
   * The output directory after a completed run: the files that were there, each group's
   * yearly file, then the index written last.
   */
  function Outputs(before: map<string, string>, env: Environment, groups: map<string, seq<Holiday>>, index: seq<string>): map<string, string>
  {
    (before + YearlyFiles(env, groups))[YearsFile := WrittenText(env.json(Years(index)))]
  }

  /** The records parse into: all have a year, so grouping never meets a null key. */
  lemma ParsedRecordsHaveYears(rows: seq<Row>)
    requires MapRows(rows).Ok?
    ensures AllHaveYear(MapRows(rows).value)
  {
    MapRowsSpec(rows);
    var hs := MapRows(rows).value;
    forall i | 0 <= i < |hs| ensures hs[i].year.Some? {
      assert hs[i] == MapToHoliday(rows[i]).value;
    }
  }

  /** The year index of the groups: their keys, each once, from the largest down. */
  predicate IsYearIndex(index: seq<string>, groups: map<string, seq<Holiday>>) {
    StrictlyDescending(index) && (forall x :: x in index ==> x in groups) && (forall x :: x in groups ==> x in index)
  }

  /** Whether every yearly file can be written. */
  predicate YearlyWritesSucceed(env: Environment, groups: map<string, seq<Holiday>>) {
    env.dirReady && forall y :: y in groups ==> FileName(y) !in env.failingWrites
  }

  /** How the stages after the download end, given the downloaded rows. */
  function ProcessOutcome(env: Environment, rows: seq<Row>): Outcome {
    if env.readFails then IoErrorLogged(Parse)
    else
      match MapRows(rows)
      case Err(e) => Escaped(e)
      case Ok(hs) =>
        ParsedRecordsHaveYears(rows);
        WriteOutcome(env, GroupByYear(hs))
  }

  /** How the two write stages end for the given groups. */
  function WriteOutcome(env: Environment, groups: map<string, seq<Holiday>>): Outcome {
    if !YearlyWritesSucceed(env, groups) then IoErrorLogged(WriteYearly)
    else if YearsFile in env.failingWrites then IoErrorLogged(WriteIndex)
    else Completed
  }

  /** The write stages that start: the index is written only after every yearly file. */
  function WriteStages(env: Environment, groups: map<string, seq<Holiday>>): seq<Stage> {
    if YearlyWritesSucceed(env, groups) then [WriteYearly, WriteIndex] else [WriteYearly]
  }

  /** How `fetchAndProcess` ends. */
  function RunOutcome(env: Environment): Outcome {
    if !env.tempCreatable then IoErrorLogged(Download)
    else
      match env.fetch
      case BadUri => UriErrorLogged
      case TransferFails => IoErrorLogged(Download)
      case Delivers(rows) => ProcessOutcome(env, rows)
  }

  /** Whether the download stage hands a temporary file to the rest of the run. */
  predicate Downloaded(env: Environment) {
    env.tempCreatable && env.fetch.Delivers?
  }

  /** Whether the parse stage succeeds. */
  predicate Parsed(env: Environment) {
    Downloaded(env) && !env.readFails && MapRows(env.fetch.rows).Ok?
  }

  /** The groups of the records that rows parse into. */
  function GroupsOfRows(rows: seq<Row>): map<string, seq<Holiday>>
    requires MapRows(rows).Ok?
  {
    ParsedRecordsHaveYears(rows);
    GroupByYear(MapRows(rows).value)
  }

  /** The groups of a run whose parse succeeded. */
  function GroupsOf(env: Environment): map<string, seq<Holiday>>
    requires Parsed(env)
  {
    GroupsOfRows(env.fetch.rows)
  }

  /** How many stages start: each stage starts only when the one before it succeeded. */
  function StagesStarted(env: Environment): nat {
    if !Downloaded(env) then 1
    else if !Parsed(env) then 2
    else if !YearlyWritesSucceed(env, GroupsOf(env)) then 3
    else 4
  }

  function StagesRun(env: Environment): seq<Stage> {
    StageOrder[..StagesStarted(env)]
  }

  /**
   * The stages run in order, and a failure stops every later stage: a completed run ran
   * all four stages, and otherwise the last stage that ran is the one whose failure is
   * reported.
   */
  lemma FailureStopsLaterStages(env: Environment)
    ensures 1 <= |StagesRun(env)| <= 4 && StagesRun(env) == StageOrder[..|StagesRun(env)|]
    ensures RunOutcome(env) == Completed ==> StagesRun(env) == StageOrder
    ensures RunOutcome(env).IoErrorLogged? ==> StagesRun(env)[|StagesRun(env)| - 1] == RunOutcome(env).stage
    ensures RunOutcome(env) == UriErrorLogged ==> StagesRun(env) == [Download]
    ensures RunOutcome(env).Escaped? ==> StagesRun(env) == [Download, Parse]
  {
    if Parsed(env) {
      ParsedRecordsHaveYears(env.fetch.rows);
    }
  }

  /**
   * The temporary file the run leaves behind as written: it is created before the
   * transfer but handed to the cleanup only after the transfer succeeds.
   */
  predicate TempLeftAsWritten(env: Environment) {
    env.tempCreatable && (!env.fetch.Delivers? || env.deleteFails)
  }

  /** With the path handed to the cleanup as soon as the file exists. */
  predicate TempLeftCorrected(env: Environment) {
    env.tempCreatable && env.deleteFails
  }

  /** A malformed URL leaves the temporary file behind even when deleting would succeed. */
  lemma TempLeaksOnBadUri()
    ensures var env := Environment(true, BadUri, false, true, {}, false, (p: Payload) => "");
      TempLeftAsWritten(env) && RunOutcome(env) == UriErrorLogged
  {
  }

  // ---------------------------------------------------------------------------------
  // The service's state and its stages

  class Workspace {
    /** The temporary files that exist, by number. */
    var temps: set<nat>
    /** The number the next temporary file gets. */
    var nextTemp: nat
    /** The output directory's files, by name. */
    var files: map<string, string>
    /** The stages started so far. */
    ghost var trace: seq<Stage>

    predicate Valid()
      reads this
    {
      forall t :: t in temps ==> t < nextTemp
    }

    constructor(existing: map<string, string>)
      ensures Valid()
      ensures temps == {} && nextTemp == 0 && files == existing && trace == []
    {
      temps := {};
      nextTemp := 0;
      files := existing;
      trace := [];
    }

    /** `Files.createTempFile`: a fresh temporary file, or `None` when that throws. */
    method CreateTempFile(env: Environment) returns (t: Option<nat>)
      requires Valid()
      modifies this
      ensures Valid()
      ensures t.Some? <==> env.tempCreatable
      ensures t.Some? ==> t.value == old(nextTemp) && t.value !in old(temps)
      ensures temps == old(temps) + (if env.tempCreatable then {old(nextTemp)} else {})
      ensures nextTemp == old(nextTemp) + (if env.tempCreatable then 1 else 0)
      ensures files == old(files) && trace == old(trace)
    {
      if !env.tempCreatable {
        return None;
      }
      t := Some(nextTemp);
      temps := temps + {nextTemp};
      nextTemp := nextTemp + 1;
    }

    /** `new URI(dataUrl)` and `FileUtils.copyURLToFile` into the temporary file. */
    method Transfer(env: Environment) returns (r: Result<seq<Row>, Failure>)
      ensures env.fetch == BadUri ==> r == Err(UriFailure)
      ensures env.fetch == TransferFails ==> r == Err(IoFailure)
      ensures env.fetch.Delivers? ==> r == Ok(env.fetch.rows)
    {
      match env.fetch
      case BadUri => r := Err(UriFailure);
      case TransferFails => r := Err(IoFailure);
      case Delivers(rows) => r := Ok(rows);
    }

    /**
     * `downloadToTempFile`: creates the temporary file, then fills it; the path is
     * returned only when both succeed.
     */
    method DownloadToTempFile(env: Environment) returns (r: Result<(nat, seq<Row>), Failure>)
      requires Valid()
      modifies this
      ensures Valid()
      ensures r.Ok? <==> Downloaded(env)
      ensures r.Ok? ==> r.value == (old(nextTemp), env.fetch.rows)
      ensures r == Err(UriFailure) <==> env.tempCreatable && env.fetch == BadUri
      ensures r.Err? ==> r.error == UriFailure || r.error == IoFailure
      ensures temps == old(temps) + (if env.tempCreatable then {old(nextTemp)} else {})
      ensures nextTemp == old(nextTemp) + (if env.tempCreatable then 1 else 0)
      ensures files == old(files) && trace == old(trace) + [Download]
    {
      trace := trace + [Download];
      var t := CreateTempFile(env);
      if t.None? {
        return Err(IoFailure);
      }
      var fetched := Transfer(env);
      if fetched.Err? {
        return Err(fetched.error);
      }
      r := Ok((t.value, fetched.value));
    }

    /**
     * `parseCsvFile`: reads the temporary file back and maps its rows in order; an
     * unreadable file is an `IOException`, a missing column an unchecked exception.
     */
    method ParseCsvFile(env: Environment, rows: seq<Row>) returns (r: Result<seq<Holiday>, Failure>)
      modifies this
      ensures env.readFails ==> r == Err(IoFailure)
      ensures !env.readFails && MapRows(rows).Ok? ==> r == Ok(MapRows(rows).value)
      ensures !env.readFails && MapRows(rows).Err? ==> r == Err(Unchecked(MapRows(rows).error))
      ensures temps == old(temps) && nextTemp == old(nextTemp) && files == old(files)
      ensures trace == old(trace) + [Parse]
    {
      trace := trace + [Parse];
      if env.readFails {
        return Err(IoFailure);
      }
      var parsed := ParseRecords(rows);
      match parsed
      case Ok(hs) => r := Ok(hs);
      case Err(e) => r := Err(Unchecked(e));
    }

    /**
     * `writeJsonWithLf`: the file holds Jackson's text with every line ending made "\n"
     * and a final "\n"; a write that throws leaves the files as they were.
     */
    method WriteJsonWithLf(env: Environment, name: string, data: Payload) returns (ok: bool)
      modifies this
      ensures ok <==> name !in env.failingWrites
      ensures ok ==> files == old(files)[name := WrittenText(env.json(data))]
      ensures !ok ==> files == old(files)
      ensures temps == old(temps) && nextTemp == old(nextTemp) && trace == old(trace)
    {
      if name in env.failingWrites {
        return false;
      }
      files := files[name := WrittenText(env.json(data))];
      ok := true;
    }

    /** One pass of the loop in `writeYearlyJsonFiles`: the file of the group `year`. */
    method WriteGroupFile(env: Environment, groups: map<string, seq<Holiday>>, year: string,
                          ghost before: map<string, string>, ghost written: set<string>) returns (ok: bool)
      requires year in groups && written <= groups.Keys
      requires files == before + FilesFor(Texts(env, groups), written)
      modifies this
      ensures ok <==> FileName(year) !in env.failingWrites
      ensures ok ==> files == before + FilesFor(Texts(env, groups), written + {year})
      ensures !ok ==> files == old(files)
      ensures temps == old(temps) && nextTemp == old(nextTemp) && trace == old(trace)
    {
      ok := WriteJsonWithLf(env, FileName(year), Records(groups[year]));
      if ok {
        FilesForAdd(before, Texts(env, groups), written, year);
      }
    }

    /**
     * `writeYearlyJsonFiles`: creates the output directory, then writes the file of each
     * group.  The directory then holds what it held before plus the files of the groups
     * `written`: all of them on success, some of them after a failure.
     */
    method WriteYearlyJsonFiles(env: Environment, groups: map<string, seq<Holiday>>) returns (ok: bool, ghost written: set<string>)
      modifies this
      ensures ok <==> YearlyWritesSucceed(env, groups)
      ensures written <= groups.Keys && (ok ==> written == groups.Keys)
      ensures files == old(files) + FilesFor(Texts(env, groups), written)
      ensures temps == old(temps) && nextTemp == old(nextTemp) && trace == old(trace) + [WriteYearly]
    {
      trace := trace + [WriteYearly];
      if !env.dirReady {
        FilesForNone(old(files), Texts(env, groups));
        return false, {};
      }
      ok, written := WriteGroupFiles(env, groups);
    }

    /**
     * The loop of `writeYearlyJsonFiles`: the file of each group, in the hash map's
     * order, stopping at the first write that throws.
     */
    method WriteGroupFiles(env: Environment, groups: map<string, seq<Holiday>>) returns (ok: bool, ghost written: set<string>)
      modifies this
      ensures ok <==> forall y :: y in groups ==> FileName(y) !in env.failingWrites
      ensures written <= groups.Keys && (ok ==> written == groups.Keys)
      ensures files == old(files) + FilesFor(Texts(env, groups), written)
      ensures temps == old(temps) && nextTemp == old(nextTemp) && trace == old(trace)
    {
      written := {};
      FilesForNone(old(files), Texts(env, groups));
      var remaining := groups.Keys;
      while remaining != {}
        invariant remaining <= groups.Keys && written == groups.Keys - remaining
        invariant forall y :: y in written ==> FileName(y) !in env.failingWrites
        invariant files == old(files) + FilesFor(Texts(env, groups), written)
        invariant temps == old(temps) && nextTemp == old(nextTemp) && trace == old(trace)
        decreases remaining
      {
        var year :| year in remaining;
        ok := WriteGroupFile(env, groups, year, old(files), written);
        if !ok {
          return false, written;
        }
        written := written + {year};
        remaining := remaining - {year};
      }
      assert written == groups.Keys;
      ok := true;
    }

    /**
     * `writeYearsIndex`: lists the keys in the hash map's order, sorts them from the
     * largest down and writes the list to `years.json`.
     */
    method WriteYearsIndex(env: Environment, groups: map<string, seq<Holiday>>) returns (ok: bool, index: seq<string>)
      modifies this
      ensures IsYearIndex(index, groups) && |index| == |groups|
      ensures ok <==> YearsFile !in env.failingWrites
      ensures ok ==> files == old(files)[YearsFile := WrittenText(env.json(Years(index)))]
      ensures !ok ==> files == old(files)
      ensures temps == old(temps) && nextTemp == old(nextTemp) && trace == old(trace) + [WriteIndex]
    {
      trace := trace + [WriteIndex];
      KeysCanBeListed(groups.Keys);
      var keys :| Lists(keys, groups.Keys);
      index := SortDescending(keys);
      SortedIndexListsKeysOnce(keys);
      ListingHasSetSize(keys, groups.Keys);
      ok := WriteJsonWithLf(env, YearsFile, Years(index));
    }

    /** `cleanupTempFile`: nothing for a null path; a delete that throws is only logged. */
    method CleanupTempFile(env: Environment, tempFile: Option<nat>)
      modifies this
      ensures tempFile.None? || env.deleteFails ==> temps == old(temps)
      ensures tempFile.Some? && !env.deleteFails ==> temps == old(temps) - {tempFile.value}
      ensures nextTemp == old(nextTemp) && files == old(files) && trace == old(trace)
    {
      if tempFile.None? || env.deleteFails {
        return;
      }
      temps := temps - {tempFile.value};
    }

    /** The two write stages: the yearly files, then the index if those all succeeded. */
    method WriteOutputs(env: Environment, groups: map<string, seq<Holiday>>) returns (outcome: Outcome, ghost index: seq<string>)
      modifies this
      ensures outcome == WriteOutcome(env, groups)
      ensures temps == old(temps) && nextTemp == old(nextTemp)
      ensures trace == old(trace) + WriteStages(env, groups)
      ensures outcome == Completed ==> (IsYearIndex(index, groups)
        && files == Outputs(old(files), env, groups, index))
      ensures outcome == IoErrorLogged(WriteIndex) ==> files == old(files) + YearlyFiles(env, groups)
      ensures outcome == IoErrorLogged(WriteYearly) ==> PartlyWritten(old(files), files, env, groups)
    {
      index := [];
      var written;
      ghost var names;
      written, names := WriteYearlyJsonFiles(env, groups);
      if !written {
        return IoErrorLogged(WriteYearly), index;
      }
      var indexed;
      indexed, index := WriteYearsIndex(env, groups);
      outcome := if indexed then Completed else IoErrorLogged(WriteIndex);
    }

    /** The stages after the download: parse, group, write the yearly files and the index. */
    method ProcessDownloaded(env: Environment, rows: seq<Row>) returns (outcome: Outcome, ghost index: seq<string>)
      modifies this
      ensures outcome == ProcessOutcome(env, rows)
      ensures temps == old(temps) && nextTemp == old(nextTemp)
      ensures trace == old(trace) + StageOrder[1..StagesAfterDownload(env, rows)]
      ensures outcome == Completed ==>
        MapRows(rows).Ok? && IsYearIndex(index, GroupsOfRows(rows))
        && files == Outputs(old(files), env, GroupsOfRows(rows), index)
      ensures outcome.Escaped? || outcome == IoErrorLogged(Parse) ==> files == old(files)
      ensures outcome == IoErrorLogged(WriteIndex) ==>
        MapRows(rows).Ok? && files == old(files) + YearlyFiles(env, GroupsOfRows(rows))
      ensures outcome == IoErrorLogged(WriteYearly) ==>
        MapRows(rows).Ok? && PartlyWritten(old(files), files, env, GroupsOfRows(rows))
    {
      index := [];
      var parsed := ParseCsvFile(env, rows);
      if parsed.Err? {
        outcome := if parsed.error.Unchecked? then Escaped(parsed.error.error) else IoErrorLogged(Parse);
        UnparsedStagesMatch(env, rows);
        return;
      }
      assert MapRows(rows).Ok?;
      var groups := GroupsOfRows(rows);
      ParsedOutcomeMatch(env, rows);
      ParsedStagesMatch(env, rows);
      outcome, index := WriteOutputs(env, groups);
      assert old(trace) + [Parse] + WriteStages(env, groups) == old(trace) + ([Parse] + WriteStages(env, groups));
    }

    /**
     * `fetchAndProcess` as written: the temporary path reaches the `finally` block only
     * when the whole download succeeded.
     */
    method FetchAndProcess(env: Environment) returns (outcome: Outcome)
      requires Valid()
      modifies this
      ensures Valid()
      ensures outcome == RunOutcome(env)
      ensures trace == old(trace) + StagesRun(env)
      ensures temps == old(temps) + (if TempLeftAsWritten(env) then {old(nextTemp)} else {})
      ensures outcome == Completed ==> exists index :: (IsYearIndex(index, GroupsOf(env))
        && files == Outputs(old(files), env, GroupsOf(env), index))
      ensures !Parsed(env) ==> files == old(files)
      ensures outcome == IoErrorLogged(WriteIndex) ==> Parsed(env) && files == old(files) + YearlyFiles(env, GroupsOf(env))
      ensures outcome == IoErrorLogged(WriteYearly) ==> Parsed(env) && PartlyWritten(old(files), files, env, GroupsOf(env))
    {
      var tempFile: Option<nat> := None;
      var downloaded := DownloadToTempFile(env);
      if downloaded.Err? {
        outcome := if downloaded.error == UriFailure then UriErrorLogged else IoErrorLogged(Download);
      } else {
        tempFile := Some(downloaded.value.0);
        ghost var index;
        outcome, index := ProcessDownloaded(env, downloaded.value.1);
        StagesAfterDownloadMatch(env);
      }
      CleanupTempFile(env, tempFile);
    }

    /**
     * `fetchAndProcess` with the temporary path kept as soon as the file exists, so that
     * the `finally` block deletes it on every way out.
     */
    method FetchAndProcessCorrected(env: Environment) returns (outcome: Outcome)
      requires Valid()
      modifies this
      ensures Valid()
      ensures outcome == RunOutcome(env)
      ensures trace == old(trace) + StagesRun(env)
      ensures temps == old(temps) + (if TempLeftCorrected(env) then {old(nextTemp)} else {})
      ensures !env.deleteFails ==> temps == old(temps)
      ensures outcome == Completed ==> exists index :: (IsYearIndex(index, GroupsOf(env))
        && files == Outputs(old(files), env, GroupsOf(env), index))
      ensures !Parsed(env) ==> files == old(files)
      ensures outcome == IoErrorLogged(WriteIndex) ==> Parsed(env) && files == old(files) + YearlyFiles(env, GroupsOf(env))
      ensures outcome == IoErrorLogged(WriteYearly) ==> Parsed(env) && PartlyWritten(old(files), files, env, GroupsOf(env))
    {
      trace := trace + [Download];
      var tempFile := CreateTempFile(env);
      if tempFile.None? {
        outcome := IoErrorLogged(Download);
      } else {
        var fetched := Transfer(env);
        if fetched.Err? {
          outcome := if fetched.error == UriFailure then UriErrorLogged else IoErrorLogged(Download);
        } else {
          ghost var index;
          outcome, index := ProcessDownloaded(env, fetched.value);
          StagesAfterDownloadMatch(env);
        }
      }
      CleanupTempFile(env, tempFile);
    }
  }

  /** How many stages start when the download delivered `rows`. */
  function StagesAfterDownload(env: Environment, rows: seq<Row>): nat {
    if env.readFails || MapRows(rows).Err? then 2
    else if (ParsedRecordsHaveYears(rows); !YearlyWritesSucceed(env, GroupByYear(MapRows(rows).value))) then 3
    else 4
  }

  lemma StagesAfterDownloadMatch(env: Environment)
    requires Downloaded(env)
    ensures StagesRun(env) == [Download] + StageOrder[1..StagesAfterDownload(env, env.fetch.rows)]
    ensures StagesStarted(env) == StagesAfterDownload(env, env.fetch.rows)
  {
  }

  /** After a failed parse only the parse stage has run after the download. */
  lemma UnparsedStagesMatch(env: Environment, rows: seq<Row>)
    requires env.readFails || MapRows(rows).Err?
    ensures StageOrder[1..StagesAfterDownload(env, rows)] == [Parse]
  {
  }

  /** After a successful parse, the run ends as the write stages do. */
  lemma ParsedOutcomeMatch(env: Environment, rows: seq<Row>)
    requires !env.readFails && MapRows(rows).Ok?
    ensures ProcessOutcome(env, rows) == WriteOutcome(env, GroupsOfRows(rows))
  {
  }

  /** After a successful parse, the stages after the download are the parse and the write stages. */
  lemma ParsedStagesMatch(env: Environment, rows: seq<Row>)
    requires !env.readFails && MapRows(rows).Ok?
    ensures StageOrder[1..StagesAfterDownload(env, rows)] == [Parse] + WriteStages(env, GroupsOfRows(rows))
  {
    if YearlyWritesSucceed(env, GroupsOfRows(rows)) {
      assert StagesAfterDownload(env, rows) == 4;
    } else {
      assert StagesAfterDownload(env, rows) == 3;
    }
  }
}
