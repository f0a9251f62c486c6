# Energy callback model

A Dafny model of `EnergyCallback`, the DaCapo benchmark callback that measures
the energy used by each benchmark iteration through the jRAPL energy counters.
The callback reads the counters when an iteration starts and when it stops. It
then computes per-socket energy deltas for the DRAM, CPU and Package channels,
correcting for a counter that rolled over between the two reads. The results go
to a YAML-style report and to an append-only CSV log with one row per socket.

The model is functional:

- `CounterDelta` holds the wraparound-corrected delta of one channel. It is
  partnered with `Advance`, the counter that actually rolls over.
- `Sockets` resolves the socket count, checks the snapshot sizes and builds the
  per-socket rows in socket order. It also models the size check exactly as the
  Java code computes it, with 32-bit `int` arithmetic (module `JavaInt`).
- `CsvLog` represents the CSV file as an optional sequence of lines. `None`
  means the file does not exist. The header is written only when an append
  creates the file.
- `EnergyCallback` holds the callback state and the `start`/`stop`/`complete`
  lifecycle. The report's outcome is the YAML sink that was opened, the
  document written to it, the CSV log and the reason for a skip. `RunAll` runs
  a sequence of iterations.
- `Decimal` renders the warmup counter as a decimal numeral.

The readings, the socket-count hint and the counter range are inputs. They come
from the native jRAPL reader. The benchmark name, validity, warmup flag and
elapsed time are inputs too; they come from the harness. Whether the YAML and
CSV files can be opened is an input flag.

The warmup suffix is `"." + iteration`, but the static `iteration` is declared
at `benchmarks/harness/src/EnergyCallback.java:55` and never incremented. Every
warmup suffix is therefore `.0`, as the comment at line 52 says. No operation of
the model changes `Callback.iteration`, so every warmup report of a run goes to
the same `<path>.0` file (`WarmupSuffixIsAlwaysZero`,
`WarmupReportsShareOnePath`).

The YAML file is opened (created or truncated) before the size check. When the
sizes are inconsistent and the path property is set and the file opens, the
outcome therefore has a `File` sink with no document: the file exists and is
empty. Otherwise the sink is `Console` and no document is printed to it. When a snapshot is missing, the outcome
has the sink `NotOpened`.

## Model

| member | source | states |
|---|---|---|
| `CounterDelta.DeltaWithWraparound` | benchmarks/harness/src/EnergyCallback.java:229-236 | With no rollover the delta is exactly `after - before`. With a rollover, `before + delta == after + wrap`, and the delta is non-negative whenever `wrap >= before - after`. For readings inside the counter's range, the delta lies in `[0, wrap)` and advancing `before` by it gives `after`. |
| `CounterDelta.DeltaUndoesAdvance` | benchmarks/harness/src/EnergyCallback.java:229-236 | Advance a counter by any amount below its range, then take the delta: the result is that amount again. |
| `CounterDelta.WraparoundExample` | benchmarks/harness/src/EnergyCallback.java:230-234 | 250 J before, 5 J after and a range of 262 J give a delta of 17 J. |
| `Sockets.ResolveSocketCount` | benchmarks/harness/src/EnergyCallback.java:135-139 | A positive hint is used unchanged. Otherwise the count `n` is the number of whole triples in `before`: `3n <= len < 3n + 3`. |
| `Sockets.CheckSizes` | benchmarks/harness/src/EnergyCallback.java:141-144 | The report proceeds exactly when the resolved count is positive and every channel index `3s + c` (s < n, c < 3) is in bounds of both snapshots. It then yields that count. |
| `Sockets.InferredCountFitsBefore` | benchmarks/harness/src/EnergyCallback.java:135-144 | With a non-positive hint, the report is skipped exactly when `before` has fewer than 3 readings or `after` is shorter than the whole triples of `before`. |
| `Sockets.TwoSocketsNeedSixReadings` | benchmarks/harness/src/EnergyCallback.java:141-144 | With 2 declared sockets and a snapshot shorter than 6 readings, the report is skipped. |
| `JavaInt.Mul` | benchmarks/harness/src/EnergyCallback.java:141 | Java `int` multiplication: the result is a 32-bit value congruent to the true product modulo 2^32 (its low 32 bits, read as signed), so it equals the true product when that product fits. |
| `Sockets.CheckSizesAsWritten` | benchmarks/harness/src/EnergyCallback.java:141-144 | The size check as written, with `3 * socketNum` wrapping as a Java `int`. When it accepts, it yields the resolved count, which is positive. |
| `Sockets.AsWrittenAgreesWithoutOverflow` | benchmarks/harness/src/EnergyCallback.java:141 | For a non-positive hint, or when `3 * hint` fits in an `int`, the as-written check and the intended check agree on every input. |
| `Sockets.AsWrittenAcceptsOversizedHint` | benchmarks/harness/src/EnergyCallback.java:141-167 | A hint of 715827883 with 3-reading snapshots passes the as-written check. The loop would then read indices out of bounds. The intended check skips this input. |
| `Sockets.AsWrittenWrapDecides` | benchmarks/harness/src/EnergyCallback.java:141-163 | A hint of 1431655766 wraps `3 * hint` to 2, so 2-reading snapshots pass the as-written check although they hold no whole triple and the loop's first Package read is out of bounds. A hint of 2147483647 wraps to 2147483645, and 3-reading snapshots are skipped. |
| `Sockets.SocketDeltas` | benchmarks/harness/src/EnergyCallback.java:158-171 | Exactly `n` rows in socket order `0..n-1`. Row `s` holds the wraparound deltas of the readings at `3s`, `3s+1` and `3s+2` (DRAM, CPU, Package). |
| `Sockets.SocketDeltasIgnoreTail` | benchmarks/harness/src/EnergyCallback.java:158-167 | Readings past the first `3n` of either snapshot do not affect the rows. |
| `Sockets.NoRolloverIsPlainDifference` | benchmarks/harness/src/EnergyCallback.java:158-171 | When no reading decreased, every channel of every row is the plain difference `after - before`. |
| `CsvLog.AppendCsvRow` | benchmarks/harness/src/EnergyCallback.java:198-214 | A failed open leaves the file unchanged. Otherwise the existing lines remain a prefix and the row becomes the last line. The file gains a header line exactly when the append creates it. The header-once shape is preserved. |
| `CsvLog.AppendRows` | benchmarks/harness/src/EnergyCallback.java:178-179 | Appending rows one by one gives the old lines (or a single header, for a new file) followed by exactly those rows in order. A failed open or no rows leaves the file as it was. |
| `CsvLog.HeaderOnceFromAbsent` | benchmarks/harness/src/EnergyCallback.java:198-212 | Starting from a missing file, k > 0 appends leave one header followed by exactly the k rows. |
| `CsvLog.NoHeaderForExistingFile` | benchmarks/harness/src/EnergyCallback.java:200-208 | Appending to a file that already exists never writes a header, whatever the file holds. |
| `Decimal.NatToDecimal` | benchmarks/harness/src/EnergyCallback.java:101 | The rendering of the counter is a non-empty string of digits with no leading zero. |
| `Decimal.DecimalRoundTrip` | benchmarks/harness/src/EnergyCallback.java:101 | Reading the rendered numeral back gives the counter's value. |
| `EnergyCallback.YmlSuffix` | benchmarks/harness/src/EnergyCallback.java:101 | The suffix is non-empty exactly for a warmup iteration. It is then `'.'` followed by the decimal numeral of the counter: at least one digit, no leading zero, reading back as the counter. |
| `EnergyCallback.Start` | benchmarks/harness/src/EnergyCallback.java:67-81 | Start records the new reading (or its failure) as the `before` snapshot. It leaves the `after` snapshot, the counter and the suffix as they were. |
| `EnergyCallback.Stop` | benchmarks/harness/src/EnergyCallback.java:85-102 | Stop records the new reading (or its failure) as the `after` snapshot and keeps the `before` snapshot. It reads the counter without changing it, and sets the suffix to `YmlSuffix(warmup, counter)`, which is non-empty exactly for warmup. |
| `EnergyCallback.ResolveYmlSink` | benchmarks/harness/src/EnergyCallback.java:120-133 | The document goes to a file exactly when the path property is set and the file opens. The file's path is the property followed by the suffix. Every other case falls back to the console. |
| `EnergyCallback.EmitSockets` | benchmarks/harness/src/EnergyCallback.java:158-180 | The socket loop appends each socket's CSV row as soon as its deltas are computed. It ends with the rows of `SocketDeltas` and the CSV file that appending them in socket order gives. |
| `EnergyCallback.Report` | benchmarks/harness/src/EnergyCallback.java:114-189 | A missing snapshot opens and writes nothing. Otherwise the YAML sink is opened before the size check. Inconsistent sizes skip the report with no document and no CSV rows. On the valid path the document has one entry per socket, in order, from that socket's readings. The CSV gets the same entries as rows, after the existing lines and a header if the file is new. |
| `EnergyCallback.RunIteration` | benchmarks/harness/src/EnergyCallback.java:67-108 | One start/stop/complete cycle: the report sees exactly this iteration's two readings, the counter is unchanged, and the suffix is `YmlSuffix` of this iteration's warmup flag. |
| `EnergyCallback.RunAll` | benchmarks/harness/src/EnergyCallback.java:55-108 | Over a run of iterations there is one report per iteration, and the counter keeps its starting value. The run-level guarantees are in `RunAllYmlPaths`, `RunAllCsvLog` and `RunAllCsvContent`. |
| `EnergyCallback.RunAllYmlPaths` | benchmarks/harness/src/EnergyCallback.java:101-128 | Every report of a run that goes to a file goes to the path property followed by that iteration's suffix, computed from the unchanged counter. |
| `EnergyCallback.RunAllCsvLog` | benchmarks/harness/src/EnergyCallback.java:178-212 | Across a run the CSV log only grows and keeps its header-once shape. When every CSV open of the run succeeds, it grows by the rows reported plus one header if the run created the file, and it stays missing only when no rows were reported. |
| `EnergyCallback.ReportAppendsItsRows` | benchmarks/harness/src/EnergyCallback.java:158-212 | When the log can be opened, one report appends a header if the log is new and then its own rows in socket order. A skipped report appends nothing. |
| `EnergyCallback.RunAllCsvContent` | benchmarks/harness/src/EnergyCallback.java:178-212 | When every CSV open of the run succeeds, a run leaves the old lines, then one header if the run created the log, then exactly the rows the reports produced, report by report and in socket order. |
| `EnergyCallback.WarmupSuffixIsAlwaysZero` | benchmarks/harness/src/EnergyCallback.java:50-56 | From a fresh callback, every warmup report's file is `<path>.0` and the timing report's file is `<path>`. |
| `EnergyCallback.WarmupReportsShareOnePath` | benchmarks/harness/src/EnergyCallback.java:122-128 | Any two warmup reports of a run that go to files go to the same file. |
| `EnergyCallback.FreshLogHasOneHeader` | benchmarks/harness/src/EnergyCallback.java:195-212 | When every CSV open of the run succeeds, a run that starts without a log leaves no file if no rows were reported. Otherwise it leaves one header followed by exactly the reported rows, in order. |
| `EnergyCallback.DemoIteration` | benchmarks/harness/src/EnergyCallback.java:114-180 | One socket with readings (10, 5, 20) before and (15, 9, 30) after gives deltas 5, 4 and 10. A fresh log then holds the header and the row `CsvRow("demo", true, false, 120, 0, 5.0, 4.0, 10.0)`. |

## Left out

- Reading the energy counters (`EnergyCheckUtils.getEnergyStats`, `socketNum`, `wraparoundValue`) is native code and is not part of this model. The readings are `Option` inputs, where `None` stands for a failed read. The hint and the counter range are `Env` inputs.
- The exception handling around each read (`UnsatisfiedLinkError`, `Throwable`) is reduced to its outcome, a `None` snapshot. The messages on the error stream are not modelled.
- Console and error-stream messages are not modelled: the notice that the YAML property is unset, the open-failure messages and the skip diagnostics. Only the skip reason is kept.
- Text layout is not modelled: the YAML comment header, Java's `Double.toString` for the deltas, and the `%.9f` CSV formatting. The YAML document and CSV rows are kept as structured values.
- File-system details are not modelled: `System.getProperty`, the default name `energy.csv`, closing streams, and errors `PrintStream` swallows while writing. Whether the YAML file and the CSV file can be opened is an input flag; for the CSV, one flag covers the whole report.
- EnergyCallback.RunAll: one `Env` serves every iteration, so each open flag, the hint and the range are the same for the whole run. The source tries every open anew: the warmup and timing YAML files are different files, and the CSV is reopened for each row. The CSV clauses of `RunAllCsvLog`, `RunAllCsvContent` and `FreshLogHasOneHeader` therefore cover only runs in which every CSV open succeeds, or every one fails.
- The harness superclass (`Callback.start/stop/complete`, `isWarmup()`, `elapsed`) is not part of this model. Its values are the `Context` inputs and the `warmup` argument of `Stop`.
- CounterDelta.DeltaWithWraparound: uses exact real arithmetic, not IEEE doubles, so rounding in `after - before` and in adding `wraparoundValue` is not modelled.
- EnergyCallback.Report: uses the corrected size check `CheckSizes`, so a hint whose `3 * hint` overflows a Java `int` is always skipped. The source differs when the wrapped product is no larger than both snapshot lengths (715827883 wraps to -2147483647, 1431655766 wraps to 2): it passes its check, writes the YAML header and every socket whose three readings fit, then throws `ArrayIndexOutOfBoundsException`. When the wrapped product exceeds a snapshot length (2147483647 wraps to 2147483645), the source skips as the model does; see ## Findings.
- EnergyCallback.Report: the `warmup` in the document and the CSV rows is the harness's flag at completion. The model assumes it is the same flag `Stop` used to choose the suffix.
- EnergyCallback.Callback: the counter is a `nat`; the source's `int` never leaves 0, so negative values cannot arise.

## Findings

| source | as written | input that shows it | evidently intended | confidence | as-written member | corrected member |
|---|---|---|---|---|---|---|
| benchmarks/harness/src/EnergyCallback.java:141 | `3 * socketNum` is a 32-bit `int` product and wraps for hints above 715827882 | hint 715827883 with 3-reading snapshots: `3 * 715827883` wraps to -2147483647, the check passes, and the loop reads index 3 after writing socket 0's YAML lines and CSV row | skip the report when the snapshots cannot hold `3 * socketNum` readings (no partial output) | low; not executed; needs an implausibly large socket count from the native reader | `Sockets.AsWrittenAcceptsOversizedHint` | `Sockets.CheckSizes` |
