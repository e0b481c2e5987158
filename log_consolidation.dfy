/**
 * `NetworkMonitor.consolidate_logs`: the files of `logs/` whose names look
 * like daily probe logs are listed in descending name order (`get_all_log_files`),
 * read from the last listed to the first, and merged into one table with a
 * single header row.
 */
module LogConsolidation {

  import opened Base
  import opened Text

  /** One CSV row, and one file as the list of its rows (header first). */
  type Row = seq<string>
  type LogFile = seq<Row>

  /** The data rows of one file: everything after its header row. */
  function Body(rows: LogFile): seq<Row>
  {
    if rows == [] then [] else rows[1..]
  }

  /** The header the merged table starts with: the first row of the oldest non-empty file. */
  function Header(newestFirst: seq<LogFile>): Option<Row>
  {
    if newestFirst == [] then None
    else match Header(newestFirst[1..])
      case Some(h) => Some(h)
      case None => if newestFirst[0] != [] then Some(newestFirst[0][0]) else None
  }

  /** Every data row of every file, oldest file first, each file's rows in order. */
  function DataRows(newestFirst: seq<LogFile>): seq<Row>
  {
    if newestFirst == [] then [] else DataRows(newestFirst[1..]) + Body(newestFirst[0])
  }

  /** The merged table: one header, then all data rows from oldest to newest. */
  function Consolidated(newestFirst: seq<LogFile>): seq<Row>
  {
    match Header(newestFirst)
    case Some(h) => [h] + DataRows(newestFirst)
    case None => DataRows(newestFirst)
  }

  /** Without a non-empty file there is neither a header nor a data row. */
  lemma {:induction false} NoHeaderNoData(newestFirst: seq<LogFile>)
    requires Header(newestFirst).None?
    ensures DataRows(newestFirst) == []
  {
    if newestFirst != [] {
      NoHeaderNoData(newestFirst[1..]);
    }
  }

  /** One more, older-processed step: how the merge of a list relates to the merge of its older part. */
  lemma ConsolidatedStep(newestFirst: seq<LogFile>)
    requires newestFirst != []
    ensures var rows := newestFirst[0];
      var older := newestFirst[1..];
      Consolidated(newestFirst) ==
        if rows == [] then Consolidated(older)
        else if Header(older).Some? then Consolidated(older) + rows[1..]
        else [rows[0]] + rows[1..]
  {
    var older := newestFirst[1..];
    if Header(older).None? {
      NoHeaderNoData(older);
    }
  }

  lemma {:induction false} HeaderOfAppend(newer: seq<LogFile>, older: seq<LogFile>)
    requires Header(older).Some?
    ensures Header(newer + older) == Header(older)
  {
    if newer == [] {
      assert newer + older == older;
    } else {
      assert (newer + older)[1..] == newer[1..] + older;
      HeaderOfAppend(newer[1..], older);
    }
  }

  lemma {:induction false} DataRowsOfAppend(newer: seq<LogFile>, older: seq<LogFile>)
    ensures DataRows(newer + older) == DataRows(older) + DataRows(newer)
  {
    if newer == [] {
      assert newer + older == older;
    } else {
      assert (newer + older)[1..] == newer[1..] + older;
      DataRowsOfAppend(newer[1..], older);
    }
  }

  /**
   * Merging is incremental: with newer files added in front of a list that
   * already has a header, the result is the old merge followed by the new data rows.
   */
  lemma ConsolidatedExtends(newer: seq<LogFile>, older: seq<LogFile>)
    requires Header(older).Some?
    ensures Consolidated(newer + older) == Consolidated(older) + DataRows(newer)
  {
    HeaderOfAppend(newer, older);
    DataRowsOfAppend(newer, older);
  }

  /** The loop of `consolidate_logs`: walk the newest-first list backwards and collect rows. */
  method MergeRows(newestFirst: seq<LogFile>) returns (allRows: seq<Row>)
    ensures allRows == Consolidated(newestFirst)
  {
    allRows := [];
    var headerWritten := false;
    var i := |newestFirst|;
    while i > 0
      invariant 0 <= i <= |newestFirst|
      invariant headerWritten == Header(newestFirst[i..]).Some?
      invariant allRows == Consolidated(newestFirst[i..])
    {
      i := i - 1;
      var rows := newestFirst[i];
      assert newestFirst[i..][1..] == newestFirst[i + 1..];
      ConsolidatedStep(newestFirst[i..]);
      if rows != [] {
        if !headerWritten {
          allRows := allRows + [rows[0]];
          headerWritten := true;
        }
        allRows := allRows + rows[1..];
      }
    }
    assert newestFirst[0..] == newestFirst;
  }

  /** How many data rows the files hold together. */
  function DataCount(newestFirst: seq<LogFile>): nat
  {
    if newestFirst == [] then 0 else DataCount(newestFirst[1..]) + |Body(newestFirst[0])|
  }

  lemma {:induction false} DataRowsCount(newestFirst: seq<LogFile>)
    ensures |DataRows(newestFirst)| == DataCount(newestFirst)
  {
    if newestFirst != [] {
      DataRowsCount(newestFirst[1..]);
    }
  }

  /** A file of `logs/`: its name and its rows. */
  datatype Entry = Entry(name: string, rows: LogFile)

  const LogPrefix: string := "network_log_"
  const CsvExtension: string := ".csv"
  /** The file `consolidate_logs` writes, by default, into the same directory. */
  const OutputName: string := "network_log_CONSOLIDATED.csv"

  /** The filter of `get_all_log_files`. */
  predicate IsLogFileName(name: string)
  {
    StartsWith(name, LogPrefix) && EndsWith(name, CsvExtension)
  }

  /** Python's `a < b` on strings: lexicographic order on the characters. */
  predicate Below(a: string, b: string)
    decreases |a|
  {
    if a == [] then b != []
    else b != [] && (a[0] < b[0] || (a[0] == b[0] && Below(a[1..], b[1..])))
  }

  /** The order `sorted(..., reverse=True)` produces: every name after the names listed later. */
  predicate NewestFirst(dir: seq<Entry>)
  {
    forall i, j :: 0 <= i < j < |dir| ==> Below(dir[j].name, dir[i].name)
  }

  /**
   * `get_all_log_files` as written, over the directory in descending name
   * order: every file passing the name filter, the consolidated output included.
   */
  function ListedAsWritten(dir: seq<Entry>): (r: seq<Entry>)
    ensures forall e :: e in r <==> e in dir && IsLogFileName(e.name)
  {
    if dir == [] then []
    else (if IsLogFileName(dir[0].name) then [dir[0]] else []) + ListedAsWritten(dir[1..])
  }

  /** The listing `consolidate_logs` evidently intends: the daily logs, without its own output. */
  function Listed(dir: seq<Entry>): (r: seq<Entry>)
    ensures forall e :: e in r <==> e in dir && IsLogFileName(e.name) && e.name != OutputName
  {
    if dir == [] then []
    else (if IsLogFileName(dir[0].name) && dir[0].name != OutputName then [dir[0]] else []) + Listed(dir[1..])
  }

  /** The rows of the listed files, in listing order. */
  function Contents(entries: seq<Entry>): (r: seq<LogFile>)
    ensures |r| == |entries|
    ensures forall i :: 0 <= i < |entries| ==> r[i] == entries[i].rows
  {
    if entries == [] then [] else [entries[0].rows] + Contents(entries[1..])
  }

  /** A directory of daily logs only is listed whole, in both readings. */
  lemma {:induction false} DailyLogsListed(logs: seq<Entry>)
    requires forall e :: e in logs ==> IsLogFileName(e.name) && e.name != OutputName
    ensures ListedAsWritten(logs) == logs && Listed(logs) == logs
  {
    if logs != [] {
      assert forall e :: e in logs[1..] ==> e in logs;
      DailyLogsListed(logs[1..]);
    }
  }

  lemma {:induction false} BelowAfterCommonPrefix(p: string, a: string, b: string)
    requires Below(a, b)
    ensures Below(p + a, p + b)
  {
    if p == [] {
      assert p + a == a && p + b == b;
    } else {
      BelowAfterCommonPrefix(p[1..], a, b);
      assert (p + a)[0] == p[0] == (p + b)[0];
      assert (p + a)[1..] == p[1..] + a;
      assert (p + b)[1..] == p[1..] + b;
    }
  }

  /** A daily log `network_log_<date>.csv` sorts below the consolidated output, since digits precede `C`. */
  lemma DatedNameBelowOutput(name: string)
    requires StartsWith(name, LogPrefix) && |name| > |LogPrefix| && '0' <= name[|LogPrefix|] <= '9'
    ensures Below(name, OutputName)
  {
    var rest := name[|LogPrefix|..];
    assert name == LogPrefix + rest;
    assert OutputName == LogPrefix + "CONSOLIDATED.csv";
    assert Below(rest, "CONSOLIDATED.csv");
    BelowAfterCommonPrefix(LogPrefix, rest, "CONSOLIDATED.csv");
  }

  /** A daily log name: the prefix, a date starting with a digit, the extension. */
  predicate IsDatedLogName(name: string)
  {
    IsLogFileName(name) && |name| > |LogPrefix| && '0' <= name[|LogPrefix|] <= '9'
  }

  lemma OutputIsListedAsWritten()
    ensures IsLogFileName(OutputName)
  {
    assert OutputName[..|LogPrefix|] == LogPrefix;
    assert OutputName[|OutputName| - |CsvExtension|..] == CsvExtension;
  }

  lemma DatedNameIsDailyLog(name: string)
    requires IsDatedLogName(name)
    ensures IsLogFileName(name) && name != OutputName
  {
    assert name[|LogPrefix|] != OutputName[|LogPrefix|];
  }

  /** With the output in front of the daily logs, the listing as written keeps it; the corrected one drops it. */
  lemma ListingWithOutput(logs: seq<Entry>, rows: LogFile)
    requires forall e :: e in logs ==> IsDatedLogName(e.name)
    ensures ListedAsWritten([Entry(OutputName, rows)] + logs) == [Entry(OutputName, rows)] + logs
    ensures Listed([Entry(OutputName, rows)] + logs) == logs
  {
    forall e | e in logs
      ensures IsLogFileName(e.name) && e.name != OutputName
    {
      DatedNameIsDailyLog(e.name);
    }
    DailyLogsListed(logs);
    OutputIsListedAsWritten();
    var dir := [Entry(OutputName, rows)] + logs;
    assert dir[1..] == logs;
  }

  /** The output, named after every daily log, comes first in descending order. */
  lemma OutputSortsFirst(logs: seq<Entry>, rows: LogFile)
    requires NewestFirst(logs)
    requires forall e :: e in logs ==> IsDatedLogName(e.name)
    ensures NewestFirst([Entry(OutputName, rows)] + logs)
  {
    var dir := [Entry(OutputName, rows)] + logs;
    forall i, j | 0 <= i < j < |dir|
      ensures Below(dir[j].name, dir[i].name)
    {
      if i == 0 {
        assert dir[j] in logs;
        DatedNameBelowOutput(dir[j].name);
      } else {
        assert dir[i] == logs[i - 1] && dir[j] == logs[j - 1];
      }
    }
  }

  /** Merging an earlier merge, read last, after its own files repeats their data rows. */
  lemma MergeAfterOwnOutput(files: seq<LogFile>)
    requires Header(files).Some?
    ensures Consolidated([Consolidated(files)] + files) == Consolidated(files) + DataRows(files)
  {
    var table := Consolidated(files);
    ConsolidatedExtends([table], files);
    assert table == [Header(files).value] + DataRows(files);
    assert Body(table) == DataRows(files);
    assert [table][1..] == [];
    assert DataRows([table]) == Body(table);
  }

  /**
   * Consolidating a second time, as written: the earlier output sorts ahead of
   * every daily log, is listed first and so merged last, and its data rows,
   * which are every daily log's data rows, are appended once more. Without the
   * output in the listing the merge is the same as the first time.
   */
  lemma ReconsolidationRepeatsRows(logs: seq<Entry>)
    requires NewestFirst(logs)
    requires forall e :: e in logs ==> IsDatedLogName(e.name)
    requires Header(Contents(logs)).Some?
    ensures var dir := [Entry(OutputName, Consolidated(Contents(logs)))] + logs;
      NewestFirst(dir) &&
      Consolidated(Contents(ListedAsWritten(dir))) == Consolidated(Contents(logs)) + DataRows(Contents(logs)) &&
      Consolidated(Contents(Listed(dir))) == Consolidated(Contents(logs))
  {
    var files := Contents(logs);
    var out := Entry(OutputName, Consolidated(files));
    OutputSortsFirst(logs, out.rows);
    ListingWithOutput(logs, out.rows);
    assert Contents([out] + logs) == [out.rows] + files;
    MergeAfterOwnOutput(files);
  }

  /** The name `log_to_file` gives the log of 1 January 2024. */
  const SampleDayName: string := "network_log_2024-01-01.csv"

  lemma SampleDayNameIsDated()
    ensures IsDatedLogName(SampleDayName)
  {
    assert SampleDayName[..|LogPrefix|] == LogPrefix;
    assert SampleDayName[|SampleDayName| - |CsvExtension|..] == CsvExtension;
  }

  /** A daily log holding a header and one probe is listed, and merges to itself. */
  lemma SampleDayMerged(day: Entry, header: Row, probe: Row)
    requires IsDatedLogName(day.name) && day.rows == [header, probe]
    ensures ListedAsWritten([day]) == [day] && Listed([day]) == [day]
    ensures Header(Contents([day])) == Some(header) && DataRows(Contents([day])) == [probe]
    ensures Consolidated(Contents([day])) == [header, probe]
  {
    DatedNameIsDailyLog(day.name);
    DailyLogsListed([day]);
    var files := Contents([day]);
    assert files == [[header, probe]];
    assert files[1..] == [];
  }

  /**
   * A daily log, such as `SampleDayName`, holding a header and one probe,
   * consolidated twice as written: the first table is `[header, probe]`
   * (`SampleDayMerged`), and the second, which also reads that first table,
   * holds the probe twice.
   */
  lemma SecondConsolidationDoubles(day: Entry, header: Row, probe: Row)
    requires IsDatedLogName(day.name) && day.rows == [header, probe]
    ensures Consolidated(Contents(ListedAsWritten([Entry(OutputName, [header, probe])] + [day]))) == [header, probe, probe]
    ensures Consolidated(Contents(Listed([Entry(OutputName, [header, probe])] + [day]))) == [header, probe]
  {
    SampleDayMerged(day, header, probe);
    ReconsolidationRepeatsRows([day]);
    assert [header, probe] + [probe] == [header, probe, probe];
  }

  /**
   * The whole operation without the file I/O, over the corrected listing: with
   * no log file it fails; otherwise it succeeds and reports `len(all_rows) - 1`
   * records, which is the number of data rows, or -1 when every file is empty.
   */
  method ConsolidateLogs(dir: seq<Entry>) returns (ok: bool, allRows: seq<Row>, reported: int)
    ensures var files := Contents(Listed(dir));
      (ok <==> files != []) &&
      (ok ==> allRows == Consolidated(files)) &&
      (!ok ==> allRows == []) &&
      (ok && Header(files).Some? ==> reported == DataCount(files)) &&
      (ok && Header(files).None? ==> reported == -1)
  {
    var newestFirst := Contents(Listed(dir));
    if newestFirst == [] {
      return false, [], 0;
    }
    allRows := MergeRows(newestFirst);
    DataRowsCount(newestFirst);
    if Header(newestFirst).None? {
      NoHeaderNoData(newestFirst);
    }
    ok, reported := true, |allRows| - 1;
  }
}
