/**
 The energy callback's per-iteration cycle: a snapshot before the
 iteration (start), a snapshot after it and the choice of the YAML file
 suffix (stop), and the report (complete), which writes one YAML document
 and appends one CSV row per socket.
 */
module EnergyCallback {
  import opened Wrappers
  import opened Decimal
  import opened Sockets
  import opened CsvLog

  /**
   The callback's state between lifecycle events: the two snapshots
   (`None` when the reading failed), the warmup counter and the YAML file
   suffix chosen at the last stop.
   */
  datatype Callback = Callback(energyBefore: Option<Snapshot>, energyAfter: Option<Snapshot>,
                               iteration: nat, ymlSuffix: string)

  /** The counter's starting value; no operation of the callback changes it. */
  const INITIAL_ITERATION: nat := 0

  /** The state of a freshly loaded callback class. */
  function Initial(): Callback {
    Callback(None, None, INITIAL_ITERATION, "")
  }

  /**
   What the callback reads from its surroundings: the YAML path property,
   whether the YAML and CSV files can be opened, and the energy reader's
   socket-count hint and counter range.
   */
  datatype Env = Env(ymlProperty: Option<string>, ymlOpens: bool, csvOpens: bool,
                     socketHint: int, wraparound: real)

  /** What the harness knows about the iteration when it completes. */
  datatype Context = Context(benchmark: string, valid: bool, warmup: bool, elapsedMs: int)

  /** Both snapshots of the iteration were captured. */
  predicate Available(cb: Callback) {
    cb.energyBefore.Some? && cb.energyAfter.Some?
  }

  /** Start of an iteration: record the `before` snapshot. */
  function Start(cb: Callback, reading: Option<Snapshot>): (cb': Callback)
    ensures cb'.energyBefore == reading
    ensures cb'.energyAfter == cb.energyAfter
    ensures cb'.iteration == cb.iteration && cb'.ymlSuffix == cb.ymlSuffix
  {
    cb.(energyBefore := reading)
  }

  /** The YAML file suffix: `"." + iteration` for a warmup iteration, nothing for the timing iteration. */
  function YmlSuffix(warmup: bool, iteration: nat): (suffix: string)
    ensures suffix != [] <==> warmup
    ensures warmup ==> suffix[0] == '.' && IsDigits(suffix[1..]) && DecimalValue(suffix[1..]) == iteration
    // the shortest numeral: at least one digit and no leading zero
    ensures warmup ==> |suffix| >= 2
    ensures warmup && |suffix| > 2 ==> suffix[1] != '0'
  {
    if warmup then
      DecimalRoundTrip(iteration);
      assert ("." + NatToDecimal(iteration))[1..] == NatToDecimal(iteration);
      "." + NatToDecimal(iteration)
    else ""
  }

  /** End of an iteration: record the `after` snapshot and choose the YAML suffix. */
  function Stop(cb: Callback, reading: Option<Snapshot>, warmup: bool): (cb': Callback)
    ensures cb'.energyAfter == reading
    ensures cb'.energyBefore == cb.energyBefore
    // the counter is read, never incremented
    ensures cb'.iteration == cb.iteration
    ensures cb'.ymlSuffix == YmlSuffix(warmup, cb.iteration)
    ensures cb'.ymlSuffix != [] <==> warmup
  {
    cb.(energyAfter := reading, ymlSuffix := YmlSuffix(warmup, cb.iteration))
  }

  /** Where the YAML document goes; a `File` has been created or truncated. */
  datatype YmlSink = NotOpened | Console | File(path: string)

  /**
   Without a path property the document goes to the console; otherwise to
   the path plus suffix, falling back to the console when it cannot be opened.
   */
  function ResolveYmlSink(property: Option<string>, suffix: string, opens: bool): (sink: YmlSink)
    ensures sink != NotOpened
    ensures sink.File? <==> property.Some? && opens
    ensures sink.File? ==> sink.path == property.value + suffix
  {
    match property
    case None => Console
    case Some(p) => if opens then File(p + suffix) else Console
  }

  /** The content of the YAML report, without its text layout. */
  datatype YamlDoc = YamlDoc(benchmark: string, valid: bool, warmup: bool, elapsedMs: int,
                             sockets: nat, energy: seq<SocketDelta>)

  /** Why a report was skipped. */
  datatype SkipReason = MeasurementsUnavailable | InconsistentSizes

  /**
   What one report leaves behind: the YAML sink that was opened, the
   document written to it (`None`: nothing was written), the CSV log and
   the reason for skipping, if any.
   */
  datatype ReportOutcome = ReportOutcome(sink: YmlSink, doc: Option<YamlDoc>, csv: CsvFile,
                                         skipped: Option<SkipReason>)

  /** The CSV row for one socket of the iteration. */
  function CsvRowFor(ctx: Context, d: SocketDelta): CsvRow {
    CsvRow(ctx.benchmark, ctx.valid, ctx.warmup, ctx.elapsedMs, d.socket, d.dram, d.cpu, d.package)
  }

  /** The CSV rows for all sockets, in socket order. */
  function CsvRowsFor(ctx: Context, ds: seq<SocketDelta>): (rows: seq<CsvRow>)
    ensures |rows| == |ds|
    ensures forall i :: 0 <= i < |ds| ==> rows[i] == CsvRowFor(ctx, ds[i])
  {
    seq(|ds|, i requires 0 <= i < |ds| => CsvRowFor(ctx, ds[i]))
  }

  /**
   The number of socket entries a report produced: the number of CSV rows
   it appends when the log can be opened.
   */
  function RowsReported(out: ReportOutcome): nat {
    if out.doc.Some? then |out.doc.value.energy| else 0
  }

  /** One more socket adds its row to the deltas and appends its CSV row to the log. */
  lemma EmitStep(before: Snapshot, after: Snapshot, s: nat, wrap: real,
                 ctx: Context, csv: CsvFile, opens: bool)
    requires CHANNELS * (s + 1) <= |before| && CHANNELS * (s + 1) <= |after|
    ensures var d := SocketDeltaAt(before, after, s, wrap);
            var energy := SocketDeltas(before, after, s, wrap);
            && SocketDeltas(before, after, s + 1, wrap) == energy + [d]
            && AppendRows(csv, CsvRowsFor(ctx, energy + [d]), opens)
               == AppendCsvRow(AppendRows(csv, CsvRowsFor(ctx, energy), opens), CsvRowFor(ctx, d), opens)
  {
    var d := SocketDeltaAt(before, after, s, wrap);
    var energy := SocketDeltas(before, after, s, wrap);
    assert CsvRowsFor(ctx, energy + [d]) == CsvRowsFor(ctx, energy) + [CsvRowFor(ctx, d)];
    AppendRowsSnoc(csv, CsvRowsFor(ctx, energy), CsvRowFor(ctx, d), opens);
  }

  /**
   The per-socket loop of the report as the source runs it: socket by
   socket, compute the three deltas and append that socket's CSV row at
   once, opening the log afresh for each row.
   */
  method EmitSockets(before: Snapshot, after: Snapshot, n: nat, wrap: real,
                     ctx: Context, csv: CsvFile, opens: bool)
    returns (energy: seq<SocketDelta>, csv': CsvFile)
    requires CHANNELS * n <= |before| && CHANNELS * n <= |after|
    ensures energy == SocketDeltas(before, after, n, wrap)
    ensures csv' == AppendRows(csv, CsvRowsFor(ctx, energy), opens)
  {
    energy, csv' := [], csv;
    var s := 0;
    while s < n
      invariant 0 <= s <= n
      invariant energy == SocketDeltas(before, after, s, wrap)
      invariant csv' == AppendRows(csv, CsvRowsFor(ctx, energy), opens)
    {
      var d := SocketDeltaAt(before, after, s, wrap);
      EmitStep(before, after, s, wrap, ctx, csv, opens);
      energy := energy + [d];
      csv' := AppendCsvRow(csv', CsvRowFor(ctx, d), opens);
      s := s + 1;
    }
  }

  /** The report of one completed iteration. */
  function Report(cb: Callback, ctx: Context, env: Env, csv: CsvFile): (out: ReportOutcome)
    // a missing snapshot: diagnostic only, nothing opened, nothing written
    ensures out.skipped == Some(MeasurementsUnavailable) <==> !Available(cb)
    ensures !Available(cb) ==> out.sink == NotOpened
    // the YAML destination is opened before the sizes are checked
    ensures Available(cb) ==> out.sink == ResolveYmlSink(env.ymlProperty, cb.ymlSuffix, env.ymlOpens)
    // size check: a non-positive count, or a snapshot too short for it
    ensures out.skipped == Some(InconsistentSizes) <==>
              && Available(cb)
              && var n := ResolveSocketCount(env.socketHint, |cb.energyBefore.value|);
                 n <= 0 || |cb.energyBefore.value| < CHANNELS * n || |cb.energyAfter.value| < CHANNELS * n
    // no partial output
    ensures out.skipped.Some? <==> out.doc.None?
    ensures out.skipped.Some? ==> out.csv == csv
    // the document: one entry per socket, in socket order, from that socket's three readings
    ensures out.doc.Some? ==>
              var d := out.doc.value;
              var before, after := cb.energyBefore.value, cb.energyAfter.value;
              && d.benchmark == ctx.benchmark && d.valid == ctx.valid
              && d.warmup == ctx.warmup && d.elapsedMs == ctx.elapsedMs
              && d.sockets == ResolveSocketCount(env.socketHint, |before|) > 0
              && |d.energy| == d.sockets
              && CHANNELS * d.sockets <= |before| && CHANNELS * d.sockets <= |after|
              && forall s :: 0 <= s < d.sockets ==>
                   d.energy[s] == SocketDeltaAt(before, after, s, env.wraparound)
    // the CSV log: the same entries as rows, after any existing lines
    ensures out.doc.Some? && env.csvOpens ==>
              out.csv == Some((if csv.None? then [Header] else csv.value)
                              + DataLines(CsvRowsFor(ctx, out.doc.value.energy)))
    ensures !env.csvOpens ==> out.csv == csv
    ensures env.csvOpens ==>
              && |Lines(out.csv)| == |Lines(csv)| + RowsReported(out)
                                     + (if csv.None? && RowsReported(out) > 0 then 1 else 0)
              && (out.csv.None? <==> csv.None? && RowsReported(out) == 0)
    ensures Lines(csv) <= Lines(out.csv)
    ensures WellFormedCsv(csv) ==> WellFormedCsv(out.csv)
  {
    if !Available(cb) then
      ReportOutcome(NotOpened, None, csv, Some(MeasurementsUnavailable))
    else
      var before, after := cb.energyBefore.value, cb.energyAfter.value;
      var sink := ResolveYmlSink(env.ymlProperty, cb.ymlSuffix, env.ymlOpens);
      match CheckSizes(env.socketHint, before, after)
      case None =>
        ReportOutcome(sink, None, csv, Some(InconsistentSizes))
      case Some(n) =>
        var energy := SocketDeltas(before, after, n, env.wraparound);
        var doc := YamlDoc(ctx.benchmark, ctx.valid, ctx.warmup, ctx.elapsedMs, n, energy);
        ReportOutcome(sink, Some(doc), AppendRows(csv, CsvRowsFor(ctx, energy), env.csvOpens), None)
  }

  /** One benchmark iteration as the harness drives it: the two readings and what it knows on completion. */
  datatype Iteration = Iteration(before: Option<Snapshot>, after: Option<Snapshot>, ctx: Context)

  /**
   Start, stop and complete for one iteration: the report sees this
   iteration's two readings, whatever earlier iterations left behind.
   */
  function RunIteration(cb: Callback, env: Env, csv: CsvFile, it: Iteration): (r: (Callback, ReportOutcome))
    ensures r.0.energyBefore == it.before && r.0.energyAfter == it.after
    ensures r.0.iteration == cb.iteration
    ensures r.0.ymlSuffix == YmlSuffix(it.ctx.warmup, cb.iteration)
    ensures r.1 == Report(r.0, it.ctx, env, csv)
  {
    var cb' := Stop(Start(cb, it.before), it.after, it.ctx.warmup);
    (cb', Report(cb', it.ctx, env, csv))
  }

  /** The callback's state, the CSV log and every report after a run of iterations. */
  datatype Trace = Trace(cb: Callback, csv: CsvFile, outcomes: seq<ReportOutcome>)

  /** The total number of socket entries the reports produced. */
  function TotalRows(outs: seq<ReportOutcome>): nat
    decreases |outs|
  {
    if outs == [] then 0 else TotalRows(outs[..|outs| - 1]) + RowsReported(outs[|outs| - 1])
  }

  /** The CSV rows a report produced for its iteration, in socket order; none when it was skipped. */
  function ReportedRows(ctx: Context, out: ReportOutcome): (rows: seq<CsvRow>)
    ensures |rows| == RowsReported(out)
  {
    if out.doc.Some? then CsvRowsFor(ctx, out.doc.value.energy) else []
  }

  /** The CSV rows of all reports of a run, report by report. */
  function RunRows(its: seq<Iteration>, outs: seq<ReportOutcome>): (rows: seq<CsvRow>)
    requires |its| == |outs|
    ensures |rows| == TotalRows(outs)
    decreases |outs|
  {
    if outs == [] then []
    else RunRows(its[..|its| - 1], outs[..|outs| - 1]) + ReportedRows(its[|its| - 1].ctx, outs[|outs| - 1])
  }

  /** Runs the iterations one after another, threading the callback state and the CSV log. */
  function RunAll(cb: Callback, env: Env, csv: CsvFile, its: seq<Iteration>): (t: Trace)
    ensures |t.outcomes| == |its|
    // the warmup counter is never incremented
    ensures t.cb.iteration == cb.iteration
    decreases |its|
  {
    if its == [] then Trace(cb, csv, [])
    else
      var prev := RunAll(cb, env, csv, its[..|its| - 1]);
      var (cb', out) := RunIteration(prev.cb, env, prev.csv, its[|its| - 1]);
      Trace(cb', out.csv, prev.outcomes + [out])
  }

  /** Each report of a run goes to the configured path plus that iteration's suffix. */
  lemma {:induction false} RunAllYmlPaths(cb: Callback, env: Env, csv: CsvFile, its: seq<Iteration>)
    ensures var t := RunAll(cb, env, csv, its);
            forall i :: 0 <= i < |its| && t.outcomes[i].sink.File? ==>
              && env.ymlProperty.Some?
              && t.outcomes[i].sink.path == env.ymlProperty.value + YmlSuffix(its[i].ctx.warmup, cb.iteration)
    decreases |its|
  {
    if its != [] {
      var prefix := its[..|its| - 1];
      RunAllYmlPaths(cb, env, csv, prefix);
      var prev := RunAll(cb, env, csv, prefix);
      var t := RunAll(cb, env, csv, its);
      forall i | 0 <= i < |its| - 1
        ensures t.outcomes[i] == prev.outcomes[i] && its[i] == prefix[i]
      {
      }
    }
  }

  /**
   Across a run the CSV log only grows and keeps its header-once shape.
   When the log can be opened, it gains one line per reported row, plus one
   header if the run created it, and it is missing at the end exactly when it
   was missing at the start and no row was reported. The lines themselves are
   given by `RunAllCsvContent`.
   */
  lemma {:induction false} RunAllCsvLog(cb: Callback, env: Env, csv: CsvFile, its: seq<Iteration>)
    ensures var t := RunAll(cb, env, csv, its);
            && (WellFormedCsv(csv) ==> WellFormedCsv(t.csv))
            && Lines(csv) <= Lines(t.csv)
            && (env.csvOpens ==>
                  && |Lines(t.csv)| == |Lines(csv)| + TotalRows(t.outcomes)
                                       + (if csv.None? && TotalRows(t.outcomes) > 0 then 1 else 0)
                  && (t.csv.None? <==> csv.None? && TotalRows(t.outcomes) == 0)
)
    decreases |its|
  {
    if its != [] {
      var prefix := its[..|its| - 1];
      RunAllCsvLog(cb, env, csv, prefix);
      var t := RunAll(cb, env, csv, its);
      assert t.outcomes[..|its| - 1] == RunAll(cb, env, csv, prefix).outcomes;
    }
  }

  /** What one report appends to an openable log: a header if the log is new, then its rows in socket order. */
  lemma ReportAppendsItsRows(cb: Callback, ctx: Context, env: Env, csv: CsvFile)
    requires env.csvOpens
    ensures var out := Report(cb, ctx, env, csv);
            Lines(out.csv) == Lines(csv) + (if csv.None? && RowsReported(out) > 0 then [Header] else [])
                              + DataLines(ReportedRows(ctx, out))
  {
    var out := Report(cb, ctx, env, csv);
    var rows := ReportedRows(ctx, out);
    if out.doc.None? {
      assert out.csv == csv && rows == [];
      assert Lines(csv) + [] + DataLines([]) == Lines(csv);
    } else {
      assert rows == CsvRowsFor(ctx, out.doc.value.energy) && |rows| > 0;
      if csv.None? {
        assert Lines(out.csv) == [Header] + DataLines(rows);
      } else {
        assert Lines(out.csv) == csv.value + DataLines(rows);
        assert Lines(out.csv) == Lines(csv) + [] + DataLines(rows);
      }
    }
  }

  /**
   When the log can be opened, a run leaves the old lines followed by one
   header if the run created the log, then exactly the rows the reports
   produced, report by report and in socket order within each report.
   */
  lemma {:induction false} RunAllCsvContent(cb: Callback, env: Env, csv: CsvFile, its: seq<Iteration>)
    requires env.csvOpens
    ensures var t := RunAll(cb, env, csv, its);
            Lines(t.csv) == Lines(csv) + (if csv.None? && TotalRows(t.outcomes) > 0 then [Header] else [])
                            + DataLines(RunRows(its, t.outcomes))
    decreases |its|
  {
    var t := RunAll(cb, env, csv, its);
    if its == [] {
      assert Lines(csv) + [] + DataLines([]) == Lines(csv);
    } else {
      var prefix := its[..|its| - 1];
      var prev := RunAll(cb, env, csv, prefix);
      RunAllCsvContent(cb, env, csv, prefix);
      RunAllCsvLog(cb, env, csv, prefix);
      var it := its[|its| - 1];
      var cb' := RunIteration(prev.cb, env, prev.csv, it).0;
      var out := t.outcomes[|its| - 1];
      assert t.outcomes[..|its| - 1] == prev.outcomes;
      assert out == Report(cb', it.ctx, env, prev.csv) && t.csv == out.csv;
      ReportAppendsItsRows(cb', it.ctx, env, prev.csv);
      var oldRows, newRows := RunRows(prefix, prev.outcomes), ReportedRows(it.ctx, out);
      assert RunRows(its, t.outcomes) == oldRows + newRows;
      assert TotalRows(t.outcomes) == TotalRows(prev.outcomes) + RowsReported(out);
      DataLinesConcat(oldRows, newRows);
      var oldLines, newLines := DataLines(oldRows), DataLines(newRows);
      var h1 := if csv.None? && TotalRows(prev.outcomes) > 0 then [Header] else [];
      var h2 := if prev.csv.None? && RowsReported(out) > 0 then [Header] else [];
      var h := if csv.None? && TotalRows(t.outcomes) > 0 then [Header] else [];
      assert h == h1 + h2;
      assert h2 == [] || oldRows == [];
      SpliceLines(Lines(csv), h1, oldLines, Lines(prev.csv), h2, newLines, Lines(t.csv));
    }
  }

  /** Sequence bookkeeping for one step of a run: the new header can only follow an empty log. */
  lemma SpliceLines(before: seq<CsvLine>, h1: seq<CsvLine>, rows1: seq<CsvLine>, mid: seq<CsvLine>,
                    h2: seq<CsvLine>, rows2: seq<CsvLine>, last: seq<CsvLine>)
    requires mid == before + h1 + rows1
    requires last == mid + h2 + rows2
    requires h2 == [] || rows1 == []
    ensures last == before + (h1 + h2) + (rows1 + rows2)
  {
  }

  /**
   Since the counter stays at its initial value, every warmup report of a
   run goes to the configured path plus ".0", and the timing report to the
   configured path itself.
   */
  lemma WarmupSuffixIsAlwaysZero(env: Env, csv: CsvFile, its: seq<Iteration>, i: nat)
    requires i < |its|
    requires RunAll(Initial(), env, csv, its).outcomes[i].sink.File?
    ensures var path := RunAll(Initial(), env, csv, its).outcomes[i].sink.path;
            env.ymlProperty.Some? && path == env.ymlProperty.value + (if its[i].ctx.warmup then ".0" else "")
  {
    RunAllYmlPaths(Initial(), env, csv, its);
    assert NatToDecimal(INITIAL_ITERATION) == "0";
  }

  /** Consequently all warmup iterations of a run write, and overwrite, the same YAML file. */
  lemma WarmupReportsShareOnePath(env: Env, csv: CsvFile, its: seq<Iteration>, i: nat, j: nat)
    requires i < |its| && j < |its|
    requires its[i].ctx.warmup && its[j].ctx.warmup
    requires RunAll(Initial(), env, csv, its).outcomes[i].sink.File?
    requires RunAll(Initial(), env, csv, its).outcomes[j].sink.File?
    ensures RunAll(Initial(), env, csv, its).outcomes[i].sink.path
            == RunAll(Initial(), env, csv, its).outcomes[j].sink.path
  {
    WarmupSuffixIsAlwaysZero(env, csv, its, i);
    WarmupSuffixIsAlwaysZero(env, csv, its, j);
  }

  /**
   Header-once over a run: starting without a log file, the log ends up
   either still missing (no rows were reported) or with one header followed
   by exactly the rows the reports produced, in order.
   */
  lemma FreshLogHasOneHeader(cb: Callback, env: Env, its: seq<Iteration>)
    requires env.csvOpens
    ensures var t := RunAll(cb, env, None, its);
            && (t.csv.None? <==> TotalRows(t.outcomes) == 0)
            && (t.csv.Some? ==> HeaderOnce(t.csv.value) && |t.csv.value| == 1 + TotalRows(t.outcomes))
            && (t.csv.Some? ==> t.csv.value == [Header] + DataLines(RunRows(its, t.outcomes)))
  {
    RunAllCsvLog(cb, env, None, its);
    RunAllCsvContent(cb, env, None, its);
  }

  /**
   An example with one socket: readings (10, 5, 20) before and (15, 9, 30)
   after give deltas 5, 4 and 10, and a fresh log gets the header and one row.
   */
  lemma DemoIteration()
    ensures var cb := Callback(Some([10.0, 5.0, 20.0]), Some([15.0, 9.0, 30.0]), 0, "");
            var ctx := Context("demo", true, false, 120);
            var env := Env(None, false, true, 1, 262.0);
            var out := Report(cb, ctx, env, None);
            && out.sink == Console
            && out.doc == Some(YamlDoc("demo", true, false, 120, 1, [SocketDelta(0, 5.0, 4.0, 10.0)]))
            && out.csv == Some([Header, Data(CsvRow("demo", true, false, 120, 0, 5.0, 4.0, 10.0))])
  {
    var before, after := [10.0, 5.0, 20.0], [15.0, 9.0, 30.0];
    var cb := Callback(Some(before), Some(after), 0, "");
    var ctx := Context("demo", true, false, 120);
    var env := Env(None, false, true, 1, 262.0);
    var row := SocketDelta(0, 5.0, 4.0, 10.0);
    var csvRow := CsvRow("demo", true, false, 120, 0, 5.0, 4.0, 10.0);
    assert CheckSizes(1, before, after) == Some(1);
    assert SocketDeltaAt(before, after, 0, 262.0) == row;
    assert SocketDeltas(before, after, 1, 262.0) == [row];
    assert CsvRowsFor(ctx, [row]) == [csvRow];
    assert DataLines([csvRow]) == [Data(csvRow)];
    assert AppendRows(None, [csvRow], true) == Some([Header, Data(csvRow)]);
    assert Report(cb, ctx, env, None)
           == ReportOutcome(Console, Some(YamlDoc("demo", true, false, 120, 1, [row])),
                            AppendRows(None, [csvRow], true), None);
  }
}
