/** The CSV order-history log: `LogBase` turns a record into a row in header
    order and writes a header line when it starts a new file; `History`
    keeps one such file per day and names it after the exchange, the bot
    and the date. The file system is a pair of parameters (does a path
    exist, what does it hold) and a file is the text written when it was
    opened plus the rows written since. CSV quoting is left out. */
module LogFile {
  import opened Wrappers
  import Text

  /** An open writer: the text the file started with and the rows written. */
  datatype Writer = Writer(initial: string, rows: seq<seq<string>>)

  /** A `LogBase`: its constructor arguments, the keys of its `columns`
      dict, its `default_values`, and the writer `open` creates. */
  datatype Log = Log(
    fullPath: string,
    asNew: bool,
    withHeader: bool,
    delimiter: string,
    lineTerminator: string,
    headers: seq<string>,
    defaults: map<string, string>,
    writer: Option<Writer>)

  /** The constructor defaults (`as_new=False`, `with_header=True`, `,` and
      `\n`), with no columns and no writer yet. */
  function NewLog(fullPath: string): (l: Log)
    ensures !l.asNew && l.withHeader && l.delimiter == "," && l.lineTerminator == "\n"
    ensures l.headers == [] && l.defaults == map[] && l.writer == None
  {
    Log(fullPath, false, true, ",", "\n", [], map[], None)
  }

  /** A cell of `write_row_by_dict`: the value when the key is present and
      not `None`, the empty string otherwise. */
  function Cell(rowDict: map<string, Option<string>>, header: string): string
  {
    if header in rowDict && rowDict[header].Some? then rowDict[header].value else ""
  }

  /** The row `write_row_by_dict` builds: one cell per header, in order. */
  function RowOf(headers: seq<string>, rowDict: map<string, Option<string>>): (row: seq<string>)
    ensures |row| == |headers|
    ensures forall i :: 0 <= i < |headers| ==> row[i] == Cell(rowDict, headers[i])
  {
    seq(|headers|, i requires 0 <= i < |headers| => Cell(rowDict, headers[i]))
  }

  /** Keys that are not headers do not reach the row, and a `None` value
      writes the same as a missing key. */
  lemma RowIgnoresOtherKeys(headers: seq<string>, rowDict: map<string, Option<string>>)
    ensures RowOf(headers, rowDict)
            == RowOf(headers, map k | k in rowDict && k in headers && rowDict[k].Some? :: rowDict[k])
  {
    var kept := map k | k in rowDict && k in headers && rowDict[k].Some? :: rowDict[k];
    forall i | 0 <= i < |headers| ensures Cell(rowDict, headers[i]) == Cell(kept, headers[i]) {
      assert headers[i] in headers;
    }
  }

  /** `write_row`: raises when the file was never opened. */
  function WriteRow(log: Log, row: seq<string>): (r: Result<Log>)
    ensures r.Raised? <==> log.writer.None?
    ensures r.Ok? ==> r.value.writer == Some(log.writer.value.(rows := log.writer.value.rows + [row]))
    ensures r.Ok? ==> r.value.(writer := log.writer) == log
  {
    match log.writer
    case None => Raised("writer is not initialized.")
    case Some(w) => Ok(log.(writer := Some(w.(rows := w.rows + [row]))))
  }

  /** `write_row_by_dict`: raises when the file was never opened, otherwise
      appends the header-ordered row. */
  function WriteRowByDict(log: Log, rowDict: map<string, Option<string>>): (r: Result<Log>)
    ensures r.Raised? <==> log.writer.None?
    ensures r.Ok? ==> r.value.writer.Some? && |r.value.writer.value.rows| == |log.writer.value.rows| + 1
    ensures r.Ok? ==> var row := r.value.writer.value.rows[|log.writer.value.rows|];
                      && |row| == |log.headers|
                      && forall i :: 0 <= i < |row| ==>
                           row[i] == (if log.headers[i] in rowDict && rowDict[log.headers[i]].Some?
                                      then rowDict[log.headers[i]].value else "")
  {
    if log.writer.None? then Raised("Writer is not initialized.")
    else WriteRow(log, RowOf(log.headers, rowDict))
  }

  /** `get_new_record`: one entry per header, its default or `None`. */
  function NewRecord(log: Log): (record: map<string, Option<string>>)
    ensures record.Keys == set h | h in log.headers
    ensures forall h :: h in record ==> record[h] == (if h in log.defaults then Some(log.defaults[h]) else None)
  {
    map h | h in log.headers :: if h in log.defaults then Some(log.defaults[h]) else None
  }

  /** Writing a fresh record writes each header's default, or an empty
      cell where there is none. */
  lemma NewRecordRow(log: Log)
    ensures forall i :: 0 <= i < |log.headers| ==>
              RowOf(log.headers, NewRecord(log))[i]
              == (if log.headers[i] in log.defaults then log.defaults[log.headers[i]] else "")
  {
    forall i | 0 <= i < |log.headers|
      ensures RowOf(log.headers, NewRecord(log))[i]
              == (if log.headers[i] in log.defaults then log.defaults[log.headers[i]] else "")
    {
      assert log.headers[i] in log.headers;
    }
  }

  /** The header line: the headers joined by the delimiter, then the line
      terminator. */
  function HeaderLine(log: Log): string
  {
    Text.Join(log.delimiter, log.headers) + log.lineTerminator
  }

  /** `open`: a new file (asked for, or missing on disk) starts with the
      header line when `with_header` is set and empty otherwise; an existing
      file is opened for append and keeps its text. */
  function Open(log: Log, isFile: string -> bool, contents: string -> string): (r: Log)
    ensures r.(writer := log.writer) == log
    ensures r.writer.Some? && r.writer.value.rows == []
    ensures (log.asNew || !isFile(log.fullPath)) && log.withHeader ==>
              r.writer.value.initial == HeaderLine(log)
    ensures (log.asNew || !isFile(log.fullPath)) && !log.withHeader ==> r.writer.value.initial == ""
    ensures !log.asNew && isFile(log.fullPath) ==> r.writer.value.initial == contents(log.fullPath)
  {
    var initial :=
      if log.asNew || !isFile(log.fullPath) then (if log.withHeader then HeaderLine(log) else "")
      else contents(log.fullPath);
    log.(writer := Some(Writer(initial, [])))
  }

  /** With a one-character delimiter that no header contains, the header
      line splits back into the headers. */
  lemma HeaderLineRoundTrip(log: Log, c: char)
    requires log.delimiter == [c] && |log.headers| > 0
    requires forall i :: 0 <= i < |log.headers| ==> c !in log.headers[i]
    ensures var line := HeaderLine(log);
            && line[..|line| - |log.lineTerminator|] == Text.Join([c], log.headers)
            && Text.Split(line[..|line| - |log.lineTerminator|], c) == log.headers
  {
    Text.SplitJoin(log.headers, c);
  }

  // ------------------------------------------------------------- History

  /** The settings `History` reads from its config, with the defaults for
      missing keys. */
  datatype HistorySettings = HistorySettings(exchangeName: string, botName: string, dir: string)

  function ReadHistorySettings(config: map<string, string>): HistorySettings
  {
    HistorySettings(
      if "exchange_name" in config then config["exchange_name"] else "Exchange",
      if "bot_name" in config then config["bot_name"] else "Bot",
      if "log_dir" in config then config["log_dir"] else "log")
  }

  /** A `History`: its settings, columns, and the files opened so far, keyed
      by the `%y%m%d` date they were opened for. */
  datatype History = History(settings: HistorySettings, headers: seq<string>, files: map<string, Log>)

  /** The daily path: `{dir}/{exchange}_{bot}_order_history_{yymmdd}.csv`. */
  function DailyPath(s: HistorySettings, day: string): string
  {
    s.dir + "/" + s.exchangeName + "_" + s.botName + "_order_history" + "_" + day + ".csv"
  }

  /** With an empty config the files are `log/Exchange_Bot_order_history_{yymmdd}.csv`;
      a configured name replaces only its own default. */
  lemma DefaultHistoryPath(day: string, bot: string)
    ensures DailyPath(ReadHistorySettings(map[]), day) == "log/Exchange_Bot_order_history_" + day + ".csv"
    ensures DailyPath(ReadHistorySettings(map["bot_name" := bot]), day)
            == "log/Exchange_" + bot + "_order_history_" + day + ".csv"
  {
    DefaultBotPath(day);
    ConfiguredBotPath(day, bot);
  }

  lemma DefaultBotPath(day: string)
    ensures DailyPath(ReadHistorySettings(map[]), day) == "log/Exchange_Bot_order_history_" + day + ".csv"
  {
    assert ReadHistorySettings(map[]) == HistorySettings("Exchange", "Bot", "log");
    assert "log" + "/" == "log/";
    assert "log/" + "Exchange" == "log/Exchange";
    assert "log/Exchange" + "_" == "log/Exchange_";
    assert "log/Exchange_" + "Bot" == "log/Exchange_Bot";
    assert "log/Exchange_Bot" + "_order_history" == "log/Exchange_Bot_order_history";
    assert "log/Exchange_Bot_order_history" + "_" == "log/Exchange_Bot_order_history_";
  }

  lemma ConfiguredBotPath(day: string, bot: string)
    ensures DailyPath(ReadHistorySettings(map["bot_name" := bot]), day)
            == "log/Exchange_" + bot + "_order_history_" + day + ".csv"
  {
    assert ReadHistorySettings(map["bot_name" := bot]) == HistorySettings("Exchange", bot, "log");
    assert "log" + "/" == "log/";
    assert "log/" + "Exchange" == "log/Exchange";
    assert "log/Exchange" + "_" == "log/Exchange_";
    assert "_order_history" + "_" == "_order_history_";
  }

  /** Two different days of the same length are kept in different files. */
  lemma DailyPathsDiffer(s: HistorySettings, day1: string, day2: string)
    requires |day1| == |day2| && day1 != day2
    ensures DailyPath(s, day1) != DailyPath(s, day2)
  {
    var prefix := s.dir + "/" + s.exchangeName + "_" + s.botName + "_order_history" + "_";
    assert DailyPath(s, day1) == prefix + day1 + ".csv";
    assert DailyPath(s, day2) == prefix + day2 + ".csv";
    var k :| 0 <= k < |day1| && day1[k] != day2[k];
    assert DailyPath(s, day1)[|prefix| + k] == day1[k];
    assert DailyPath(s, day2)[|prefix| + k] == day2[k];
  }

  /** An `OrderHistory` file: a `LogBase` at the daily path with the
      history's columns, opened. */
  function OrderHistoryFile(h: History, day: string, isFile: string -> bool, contents: string -> string): Log
  {
    Open(NewLog(DailyPath(h.settings, day)).(headers := h.headers), isFile, contents)
  }

  /** `get_or_create_order_history_file`: the day's file if one is cached,
      otherwise a newly opened one, which is cached. */
  function GetOrCreate(h: History, day: string, isFile: string -> bool, contents: string -> string)
    : (r: (History, Log))
    ensures day in r.0.files && r.0.files[day] == r.1
    ensures day in h.files ==> r == (h, h.files[day])
    ensures day !in h.files ==> r.0.files == h.files[day := r.1] && r.1.fullPath == DailyPath(h.settings, day)
    ensures r.0.settings == h.settings && r.0.headers == h.headers
    ensures day !in h.files ==> r.1.writer.Some?
  {
    if day in h.files then (h, h.files[day])
    else
      var f := OrderHistoryFile(h, day, isFile, contents);
      (h.(files := h.files[day := f]), f)
  }

  /** A second call on the same day opens nothing: it returns the same file
      and leaves the history as the first call left it. */
  lemma GetOrCreateIdempotent(h: History, day: string, isFile: string -> bool, contents: string -> string,
                              isFile2: string -> bool, contents2: string -> string)
    ensures var (h1, f1) := GetOrCreate(h, day, isFile, contents);
            GetOrCreate(h1, day, isFile2, contents2) == (h1, f1)
  {
  }

  /** Every cached file sits at the daily path of the day it is kept under,
      and `GetOrCreate` keeps that so. */
  ghost predicate FilesAtDailyPaths(h: History)
  {
    forall day :: day in h.files ==> h.files[day].fullPath == DailyPath(h.settings, day)
  }

  lemma GetOrCreateKeepsPaths(h: History, day: string, isFile: string -> bool, contents: string -> string)
    requires FilesAtDailyPaths(h)
    ensures FilesAtDailyPaths(GetOrCreate(h, day, isFile, contents).0)
  {
  }
}
