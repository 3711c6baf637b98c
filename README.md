# STRIKE sensor recording scripts, modelled in Dafny

STRIKE records gesture data from a wearable IMU. A device streams one CSV
line per sample over a serial port, and a few Python scripts turn that stream
into CSV files. This project models the decision logic of four of them. The
serial port, the clock and the drawing are left out.

- `Recording_data/2seconds_datalogger.py` (module `TimedCapture`) runs a
  session of trials. Each trial has a 3-2-1 countdown and a record phase,
  then a rest phase unless it is the last trial. Each line recorded goes
  through the 20-field filter, and the file is the header followed by the
  accepted rows. Time is abstracted away. The lines read during the record
  phase of trial `i` are a given batch, and the phases are written as a trace
  of `Countdown`/`Record`/`Rest` events.
- `Recording_data/data_logger_main.py` (module `StreamLogger`) logs until it
  is interrupted. It writes the header, then classifies each line read:
  blank lines are ignored, 20-field lines are written and echoed, and any
  other line gets a "skipped" warning. The console is modelled as a sequence
  of `Echo`/`Skipped` messages.
- `first_data/data_logger_1.py` (module `Passthrough`) is the raw recorder.
  It appends a `START` divider to an existing file, then writes the plain
  comma split of every line that is not blank.
- `first_data/plot_sensors.py` (module `SensorPlot`) covers only the
  bookkeeping behind the plot:
  - `load_sensor_data` turns rows into a channel map;
  - each file's time baseline;
  - the sorted union of channels over all files;
  - rebasing, the component series, and their labels.

Shared modules:

- `Text` models Python's `str.strip()` (whitespace as `str.isspace()`),
  `str.split(',')`, `','.join` and `str(int)`.
- `Records` holds the 20-name header and the per-line filter `Accept`. Both
  serial loggers use the same filter.
- `Ordering` models Python's order on strings and `sorted` of a set.
- `Wrappers` holds `Option` and the generic "keep what each item produces"
  fold, `FilterMap`.

Each script that loops is a `method` with a loop. Its `ensures` ties the
file, the console and the trace to specification functions of the input
lines. The lemmas prove the properties of those functions.

## Model

| member | source | states |
|---|---|---|
| Text.Strip | Recording_data/2seconds_datalogger.py:52-55 | `str.strip()` leaves a string with no whitespace at either end, and never a longer one |
| Text.Split | first_data/data_logger_1.py:38 | `s.split(',')` has one piece more than `s` has commas, and no piece holds a comma |
| Text.Decimal | Recording_data/data_logger_main.py:10 | `str(n)` is the decimal digits of `n` for `n >= 0`, and a minus sign followed by the digits of `-n` for `n < 0`; the digits never start with `0` unless the number is 0 |
| Text.StripEmptyIff | Recording_data/2seconds_datalogger.py:52-54 | `strip()` gives the empty string exactly when the line is all whitespace, so `if not raw` skips exactly the blank lines |
| Text.StripDecompose | Recording_data/2seconds_datalogger.py:52 | what `strip()` removes is a whitespace prefix and a whitespace suffix: the line is prefix + stripped text + suffix |
| Text.JoinSplit | first_data/data_logger_1.py:38 | joining the pieces of `s.split(sep)` with `sep` gives back `s` |
| Text.SplitJoin | first_data/data_logger_1.py:38 | splitting a join of separator-free pieces gives back exactly those pieces |
| Text.DecimalRoundTrip | Recording_data/data_logger_main.py:10 | `str(n)` of an int reads back as `n`, so different numbers never print alike |
| Records.Header | Recording_data/2seconds_datalogger.py:28-36 | the header row (the same in Recording_data/data_logger_main.py:23-31) starts with `timestamp` and has 20 stripped, comma-free names, the shape of a written row |
| Records.Accept | Recording_data/2seconds_datalogger.py:52-57 | a line is written exactly when it is not blank after `strip()` and splits into 20 fields, which is exactly when it holds 19 commas; a written row has 20 stripped, comma-free fields |
| Records.AcceptReadsRawFields | Recording_data/data_logger_main.py:37-42 | in a written row, field k is the stripped k-th comma piece of the unstripped line; stripping the whole line first makes no difference |
| Records.JoinedRowAccepted | Recording_data/2seconds_datalogger.py:55-57 | any row of 20 stripped, comma-free fields, joined with commas, is accepted as that very row |
| Records.AcceptIdempotent | Recording_data/2seconds_datalogger.py:55-57 | a written row joined back into a line passes the filter again unchanged |
| Records.HeaderIsRecordShaped | Recording_data/2seconds_datalogger.py:28-36 | the header has the record width of 20 names, and as a line it is accepted as itself |
| Records.AcceptedRowsWellFormed | Recording_data/data_logger_main.py:44-46 | every row written after the header has 20 stripped, comma-free fields, and there are no more rows than lines read |
| Records.AcceptedRowsConcat | Recording_data/2seconds_datalogger.py:51-57 | the rows of later lines follow the rows of earlier lines: filtering distributes over concatenation |
| Records.RejectedLineIgnored | Recording_data/2seconds_datalogger.py:53-56 | a blank or wrong-width line, wherever it arrives, leaves the written rows unchanged |
| Records.AcceptedRowsMembers | Recording_data/data_logger_main.py:45-46 | a row is in the file exactly when some line read is accepted as that row |
| TimedCapture.Gesture | Recording_data/2seconds_datalogger.py:15 | the gesture is the stripped answer, or "none" when the answer is blank; it is never empty and has no surrounding whitespace |
| TimedCapture.FileName | Recording_data/2seconds_datalogger.py:18 | the file name starts with `trial_`, the gesture and `_`, and ends in `.csv` |
| TimedCapture.ConfiguredFileName | Recording_data/2seconds_datalogger.py:9-18 | with 10 iterations at 25 Hz the file is `trial_<gesture>_10x_25hz.csv` |
| TimedCapture.FileNameDeterminesSettings | Recording_data/2seconds_datalogger.py:18 | for one gesture, equal file names mean equal iteration counts and rates |
| TimedCapture.TrialEvents | Recording_data/2seconds_datalogger.py:42-63 | one trial is the ticks 3, 2, 1 in order, then its record phase, then a rest exactly when it is not the last: 5 events, or 4 for the last |
| TimedCapture.Schedule | Recording_data/2seconds_datalogger.py:41-63 | after k of n trials the trace has 5 events per trial, one fewer once the last trial is done, and ends with trial k's rest, or with its record phase when it is the last |
| TimedCapture.ScheduleShape | Recording_data/2seconds_datalogger.py:41-63 | after k of n trials the trace has k record phases and k rests, one rest fewer once the last trial is done |
| TimedCapture.PhaseCounts | Recording_data/2seconds_datalogger.py:41-63 | N iterations give exactly N record phases and N - 1 rest phases |
| TimedCapture.TrialLayout | Recording_data/2seconds_datalogger.py:44-63 | trial i starts at position 5(i-1) of the trace with countdown 3, 2, 1 then its record phase, followed by a rest exactly when i < N |
| TimedCapture.CapturedInArrivalOrder | Recording_data/2seconds_datalogger.py:41-58 | filtering trial by trial is filtering the whole stream of lines read, in arrival order |
| TimedCapture.SessionRowsWellFormed | Recording_data/2seconds_datalogger.py:41-57 | every data row of the file, over all trials, has the header's shape: 20 stripped, comma-free fields |
| TimedCapture.CountDown | Recording_data/2seconds_datalogger.py:44-46 | the countdown appends ticks 3, 2, 1 in that order |
| TimedCapture.RecordPhase | Recording_data/2seconds_datalogger.py:50-57 | a record phase appends exactly the accepted rows of its batch, in order, after what was already written |
| TimedCapture.Trial | Recording_data/2seconds_datalogger.py:42-63 | one trial appends its accepted rows and its events: countdown, record, and a rest unless it is the last |
| TimedCapture.Trials | Recording_data/2seconds_datalogger.py:41-63 | the trial loop leaves the accepted rows of all batches in trial order, and the full schedule as its trace |
| TimedCapture.Session | Recording_data/2seconds_datalogger.py:25-63 | the file is the header followed by the accepted rows of all batches in trial order; the trace is the schedule of N trials |
| StreamLogger.FileName | Recording_data/data_logger_main.py:10 | the file name starts with `trial` and the trial number, and ends in `.csv` |
| StreamLogger.ConfiguredFileName | Recording_data/data_logger_main.py:5-10 | with the script's configuration the file is `trial1_none_20iterations_25hz.csv` |
| StreamLogger.FileNameDeterminesSettings | Recording_data/data_logger_main.py:10 | for one gesture, equal file names mean equal trial numbers, iteration counts and rates |
| StreamLogger.Classify | Recording_data/data_logger_main.py:37-51 | each line is exactly one of blank (all whitespace), written (accepted by the filter) or warned (non-blank without 19 commas); a warning carries the stripped, non-empty line |
| StreamLogger.Report | Recording_data/data_logger_main.py:37-51 | a line leads to a console message exactly when it is not blank; the message carries the stripped line and is an echo exactly when the line is written |
| StreamLogger.Step | Recording_data/data_logger_main.py:37-51 | one turn of the loop appends the line's accepted row, if any, to the file and its message, if any, to the console |
| StreamLogger.LogLines | Recording_data/data_logger_main.py:36-51 | the loop leaves the accepted rows of the lines in order, and their console messages |
| StreamLogger.Log | Recording_data/data_logger_main.py:21-51 | the file is the header followed by the accepted subsequence of the lines read, in order |
| StreamLogger.ConsoleCoversNonBlank | Recording_data/data_logger_main.py:37-51 | there is exactly one console message (echo or warning) per non-blank line, and none for blank lines |
| StreamLogger.ConsoleMessagesSound | Recording_data/data_logger_main.py:45-51 | every message carries stripped, non-empty text, and it is an echo exactly when the filter accepts that text |
| StreamLogger.ConsoleReplaysRows | Recording_data/data_logger_main.py:45-51 | filtering the console's texts again gives exactly the rows written after the header |
| Passthrough.Step | first_data/data_logger_1.py:28-39 | one read echoes a non-blank line's stripped text and appends its comma split; a blank line changes nothing |
| Passthrough.Run | first_data/data_logger_1.py:18-39 | the existing file is kept, then the `START` divider, then one raw row per non-blank line in arrival order; the console shows `START` and each such line |
| Passthrough.RawRow | first_data/data_logger_1.py:38 | a written row joined with commas is the stripped line exactly; a line with k commas is written as k + 1 comma-free fields, with no width check |
| Passthrough.RawRowsCount | first_data/data_logger_1.py:29-38 | exactly one row per non-blank line |
| Passthrough.RowsMatchEchoes | first_data/data_logger_1.py:37-38 | the rows and the echoed lines correspond one to one, each row joining to its echo |
| Passthrough.BlankLinesIgnored | first_data/data_logger_1.py:29-35 | a blank line, wherever it arrives, writes nothing |
| Ordering.BelowTotal | first_data/plot_sensors.py:63 | Python's string order relates any two different strings |
| Ordering.BelowTransitive | first_data/plot_sensors.py:63 | Python's string order is transitive |
| Ordering.SortedSet | first_data/plot_sensors.py:63 | `sorted` of a set lists each element once, nothing else, in strictly ascending order |
| SensorPlot.ParseAll | first_data/plot_sensors.py:46 | the list comprehension of `float` fails exactly when some field fails, and otherwise gives one value per field, in order |
| SensorPlot.ParseRow | first_data/plot_sensors.py:41-48 | a row is used exactly when it has at least 3 fields and its time and every value parse; it then gives `(row[0], row[2:])` under channel `row[1]` |
| SensorPlot.LoadSensorData | first_data/plot_sensors.py:29-50 | a missing file gives an empty map; otherwise each channel maps to the entries of its usable rows, in file order |
| SensorPlot.GroupedSnoc | first_data/plot_sensors.py:49 | one more reading is one `append` of its entry under its channel, which creates the key when it is absent |
| SensorPlot.SkippedRowIgnored | first_data/plot_sensors.py:41-48 | a short or unparsable row, wherever it stands, leaves no entry, not even a partial one |
| SensorPlot.SelectMembers | first_data/plot_sensors.py:49 | an entry is listed under a channel exactly when some usable row of that channel gives it |
| SensorPlot.EntryTotal | first_data/plot_sensors.py:49 | summed over distinct channels that cover those seen, the entries number exactly the usable rows |
| SensorPlot.Baseline | first_data/plot_sensors.py:57-60 | the baseline is a timestamp of the file no greater than any other, or 0 when the file has none |
| SensorPlot.Rebased | first_data/plot_sensors.py:85 | one rebased time per entry, in entry order: the entry's time minus the baseline |
| SensorPlot.RebasedNonNegative | first_data/plot_sensors.py:85 | rebased against its file's baseline no time is negative, and in a file with entries some time becomes 0 |
| SensorPlot.ChannelUnion | first_data/plot_sensors.py:63 | the channel list holds exactly the channels of any file, in strictly ascending order, each once |
| SensorPlot.NoChannels | first_data/plot_sensors.py:63-66 | the channel list is empty exactly when every file's map is empty |
| SensorPlot.ChannelRowsDistinct | first_data/plot_sensors.py:63 | no channel appears twice among the rows of the grid |
| SensorPlot.Cell | first_data/plot_sensors.py:82 | `data.get(ch, [])`: the channel's entries when the file has the channel, else nothing |
| SensorPlot.CellIsSelect | first_data/plot_sensors.py:82 | `data.get(ch, [])` on a loaded file gives that channel's entries in file order, or nothing for a channel the file lacks |
| SensorPlot.Width | first_data/plot_sensors.py:86 | `zip(*...)` gives as many series as the shortest value list |
| SensorPlot.Components | first_data/plot_sensors.py:86 | series c holds the c-th value of every entry, in entry order |
| SensorPlot.Labels | first_data/plot_sensors.py:87 | one label per component: `X, Y, Z` for 3, `w, x, y, z` for 4, otherwise `c` followed by `str(i)` for component i |
| SensorPlot.LabelsDistinct | first_data/plot_sensors.py:87 | no two components of a cell share a label |

## Left out

- The serial port is left out: opening it, `readline`, its timeouts, and closing it. The input is the sequence of lines already read.
- Decoding is left out: `decode("ascii"/"utf-8", errors="ignore")`. Lines are given as decoded strings. An empty read (`if not raw` on the bytes in `first_data/data_logger_1.py`) decodes to an empty line, which the model skips as blank.
- Wall-clock time is left out: `time.time`, `time.monotonic`, `time.sleep`, the record and rest durations, and the recording window. In `TimedCapture`, the lines read in each record phase are a given batch, and an absent batch is one during which nothing was read. In `Passthrough`, `lines` are the lines read within the window.
- Serial buffering between record phases is left out. Nothing is read during a countdown or a rest, and the input buffer is never cleared. So the first lines of a record phase can be lines that arrived during the preceding countdown or rest, possibly starting with a partial line. A batch is whatever the record phase reads, with no claim about when those lines arrived.
- `KeyboardInterrupt` is left out. The lines given to `StreamLogger.Log` are those read before the interrupt.
- Interactive `input()` is left out. `TimedCapture.Gesture` takes the answer as a parameter.
- Console output is modelled only where it is logic: the write-or-warn message of `data_logger_main.py` and the echo of `data_logger_1.py`. The banners, countdown prints and completion prints are not text in the model. A countdown tick is a trace event.
- CSV encoding is left out: `csv.writer` quoting, line endings and `flush`. A file is a sequence of rows of fields.
- In `plot_sensors.py`, `csv.reader` is left out; a recording is given as its rows.
- `os.makedirs` is left out. So is `os.path.exists`, which becomes an `Option`: `None` stands for a missing file.
- `float()` is the parameter `parse`, which returns `None` where Python raises `ValueError`. Times and values are exact reals, so floating-point rounding in `t - base` is not modelled. Non-finite floats are not modelled either. `float()` also accepts `"nan"`, `"inf"` and `"-inf"`, and no real stands for these. With a NaN or `-inf` timestamp the properties of `SensorPlot.Baseline` and `SensorPlot.RebasedNonNegative` do not hold in Python.
- The map's key insertion order is not modelled. A `defaultdict` remembers the order keys were inserted, but a Dafny `map` does not. Nothing modelled depends on that order: entry order within a channel is kept, and the channel list is sorted.
- Drawing with matplotlib is left out: the figure, the axes, the legend and `plt.show()`. What is modelled is what decides the grid of each cell: the channel rows, the cell lookup, the rebased times, the component series and the labels.
- `Recording_data/BLE_logdata.py` is not part of this model. It is asynchronous BLE plumbing through a foreign library.
- Records.Accept: fields may be empty. The code checks only `len(parts) == 20`, so a line of 19 commas is written as 20 empty fields.
- Records.HeaderIsRecordShaped: "the header is written once" is stated as "the header is the first row" (`TimedCapture.Session`, `StreamLogger.Log`). A device line that spells out the 20 header names is accepted as a data row, so a copy of the header can appear later in the file.
- Ordering.SortedSet, SensorPlot.Baseline and SensorPlot.ChannelUnion are ghost functions. They choose the least element of a set, and the minimum over a map's keys, without a fixed iteration order.
