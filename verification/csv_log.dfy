/**
 The append-only CSV log, seen as the sequence of its lines. A file that
 does not exist is `None`; each row append opens the file in append mode
 and writes the header line first only when the file did not exist.
 */
module CsvLog {
  import opened Wrappers

  /** One data row: benchmark, valid, warmup, elapsed_ms, socket, dram_j, cpu_j, package_j. */
  datatype CsvRow = CsvRow(benchmark: string, valid: bool, warmup: bool, elapsedMs: int,
                           socket: nat, dramJ: real, cpuJ: real, packageJ: real)

  /** A line of the log: the column header, or a data row. */
  datatype CsvLine = Header | Data(row: CsvRow)

  /** The log file: `None` while it does not exist. */
  type CsvFile = Option<seq<CsvLine>>

  /** The lines of the file; a missing file reads as no lines. */
  function Lines(f: CsvFile): seq<CsvLine> {
    f.GetOr([])
  }

  /** Exactly one header, on the first line, and data rows after it. */
  predicate HeaderOnce(lines: seq<CsvLine>) {
    && |lines| >= 1
    && lines[0].Header?
    && forall i :: 1 <= i < |lines| ==> lines[i].Data?
  }

  /** The shape every log written only by this reporter has. */
  predicate WellFormedCsv(f: CsvFile) {
    f.None? || HeaderOnce(f.value)
  }

  /** The data lines for `rows`, in order. */
  function DataLines(rows: seq<CsvRow>): (lines: seq<CsvLine>)
    ensures |lines| == |rows|
    ensures forall i :: 0 <= i < |rows| ==> lines[i] == Data(rows[i])
  {
    seq(|rows|, i requires 0 <= i < |rows| => Data(rows[i]))
  }

  /** The data lines of two row lists, one after the other. */
  lemma DataLinesConcat(a: seq<CsvRow>, b: seq<CsvRow>)
    ensures DataLines(a + b) == DataLines(a) + DataLines(b)
  {
  }

  /**
   Appends one data row. When the file cannot be opened the row is
   dropped and the file is left as it was.
   */
  function AppendCsvRow(f: CsvFile, row: CsvRow, opens: bool): (f': CsvFile)
    ensures !opens ==> f' == f
    // existing lines are never altered, and the row is the new last line
    ensures opens ==> f'.Some? && Lines(f) < f'.value && f'.value[|f'.value| - 1] == Data(row)
    // a header is written exactly when the file is created
    ensures opens ==> |f'.value| == |Lines(f)| + (if f.None? then 2 else 1)
    ensures opens && f.None? ==> f'.value[0] == Header
    ensures WellFormedCsv(f) ==> WellFormedCsv(f')
  {
    if !opens then f
    else if f.None? then Some([Header, Data(row)])
    else Some(f.value + [Data(row)])
  }

  /**
   Appends the rows one after another, as the report's per-socket loop
   does. The file is opened afresh for every row; `opens` says whether
   those opens succeed.
   */
  function AppendRows(f: CsvFile, rows: seq<CsvRow>, opens: bool): (f': CsvFile)
    ensures !opens || rows == [] ==> f' == f
    ensures opens && rows != [] ==>
              f' == Some((if f.None? then [Header] else f.value) + DataLines(rows))
    ensures WellFormedCsv(f) ==> WellFormedCsv(f')
    decreases |rows|
  {
    if rows == [] then f
    else
      var prefix, last := rows[..|rows| - 1], rows[|rows| - 1];
      var base := if f.None? then [Header] else f.value;
      var prev := AppendRows(f, prefix, opens);
      var result := AppendCsvRow(prev, last, opens);
      assert opens ==> result == Some(base + DataLines(rows)) by {
        if opens {
          assert DataLines(rows) == DataLines(prefix) + [Data(last)];
          if prefix == [] {
            assert DataLines(rows) == [Data(last)];
            assert prev == f;
            if f.None? {
              assert result == Some([Header, Data(last)]);
              assert base + DataLines(rows) == [Header, Data(last)];
            } else {
              assert result == Some(f.value + [Data(last)]);
              assert base + DataLines(rows) == f.value + [Data(last)];
            }
          } else {
            assert prev.value + [Data(last)] == base + DataLines(rows);
            assert result == Some(prev.value + [Data(last)]);
          }
        }
      }
      result
  }

  /** Appending a list of rows and then one more row is appending the longer list. */
  lemma AppendRowsSnoc(f: CsvFile, rows: seq<CsvRow>, row: CsvRow, opens: bool)
    ensures AppendRows(f, rows + [row], opens) == AppendCsvRow(AppendRows(f, rows, opens), row, opens)
  {
    assert (rows + [row])[..|rows|] == rows;
  }

  /**
   Header-once: starting from a missing file, appending k > 0 rows leaves
   one header followed by exactly those k rows.
   */
  lemma HeaderOnceFromAbsent(rows: seq<CsvRow>)
    requires rows != []
    ensures var f := AppendRows(None, rows, true);
            && f.Some?
            && HeaderOnce(f.value)
            && |f.value| == 1 + |rows|
            && f.value[1..] == DataLines(rows)
  {
  }

  /** Appending to an existing file never writes a header, whatever the file holds. */
  lemma NoHeaderForExistingFile(lines: seq<CsvLine>, rows: seq<CsvRow>)
    ensures AppendRows(Some(lines), rows, true) == Some(lines + DataLines(rows))
  {
    if rows == [] {
      assert lines + DataLines(rows) == lines;
    }
  }
}
