/**
  Recording_data/2seconds_datalogger.py: a capture session of `iterations`
  trials. Each trial counts down 3, 2, 1, records the serial lines read during
  its record phase, and then rests unless it was the last trial. Every
  recorded line goes through the 20-field filter of `Records`; the CSV file
  holds the header followed by the accepted rows of all trials in order.

  Time is abstracted away: the lines read during the record phase of trial i
  are given as the batch `batches[i - 1]`, and the phases are recorded as an
  event trace.
 */
module TimedCapture {
  import opened Text
  import opened Records

  /** The script's configuration: iteration count and (for the file name only) the sample rate. */
  const Iterations: nat := 10
  const Hz: nat := 25

  /** The gesture label: the prompt's answer stripped, or "none" when that is blank. */
  function Gesture(input: string): (g: string)
    ensures g != [] && IsStripped(g)
    ensures AllSpace(input) ==> g == "none"
    ensures !AllSpace(input) ==> g == Strip(input)
  {
    StripEmptyIff(input);
    var answer := Strip(input);
    if answer == [] then "none" else answer
  }

  /**
    `f"trial_{gesture}_{iterations}x_{hz}hz.csv"`: a CSV file named after the
    gesture, the settings following it.
   */
  function FileName(gesture: string, iterations: nat, hz: nat): (r: string)
    ensures |r| > |gesture| + 7 && r[..|gesture| + 7] == "trial_" + gesture + "_"
    ensures r[|r| - 4..] == ".csv"
  {
    var p := "trial_" + gesture + "_";
    var r := p + Settings(iterations, hz);
    assert r[..|p|] == p;
    r
  }

  /** The part of the file name after the gesture: `f"{iterations}x_{hz}hz.csv"`. */
  function Settings(iterations: nat, hz: nat): (r: string)
    ensures |r| >= 4 && r[|r| - 4..] == ".csv"
  {
    Decimal(iterations) + "x_" + Decimal(hz) + "hz.csv"
  }

  /** With the script's configuration the session goes to `trial_<gesture>_10x_25hz.csv`. */
  lemma ConfiguredFileName(gesture: string)
    ensures FileName(gesture, Iterations, Hz) == "trial_" + gesture + "_10x_25hz.csv"
  {
    assert Decimal(Iterations) == "10" by {
      assert Digits(10) == Digits(1) + "0";
    }
    assert Decimal(Hz) == "25" by {
      assert Digits(25) == Digits(2) + "5";
    }
  }

  /**
    For one gesture, the file name tells the iteration count and the rate apart:
    two sessions with different settings never write to the same file.
   */
  lemma FileNameDeterminesSettings(gesture: string, n1: nat, hz1: nat, n2: nat, hz2: nat)
    requires FileName(gesture, n1, hz1) == FileName(gesture, n2, hz2)
    ensures n1 == n2 && hz1 == hz2
  {
    CancelPrefix("trial_" + gesture + "_", Settings(n1, hz1), Settings(n2, hz2));
    SettingsDetermine(n1, hz1, n2, hz2);
  }

  lemma SettingsDetermine(n1: nat, hz1: nat, n2: nat, hz2: nat)
    requires Settings(n1, hz1) == Settings(n2, hz2)
    ensures n1 == n2 && hz1 == hz2
  {
    var u1, u2 := Digits(hz1) + "hz.csv", Digits(hz2) + "hz.csv";
    SettingsSplit(n1, hz1);
    SettingsSplit(n2, hz2);
    SuffixStartsWith("x_", u1);
    SuffixStartsWith("x_", u2);
    NumberPrefixDetermine(n1, "x_" + u1, n2, "x_" + u2);
    CancelPrefix("x_", u1, u2);
    NumberPrefixDetermine(hz1, "hz.csv", hz2, "hz.csv");
  }

  lemma SettingsSplit(n: nat, hz: nat)
    ensures Settings(n, hz) == Digits(n) + ("x_" + (Digits(hz) + "hz.csv"))
  {
  }

  lemma SuffixStartsWith(a: string, b: string)
    requires a != []
    ensures (a + b)[0] == a[0]
  {
  }

  /** What the session does, in order: countdown ticks, record phases and rest phases. */
  datatype Event = Countdown(tick: nat) | Record(trial: nat) | Rest(trial: nat)

  /** The countdown of `for cnt in (3, 2, 1)`. */
  const Ticks: seq<nat> := [3, 2, 1]

  /** Trial i of n: the countdown ticks in order, the record phase, and a rest phase only when i < n. */
  function TrialEvents(i: nat, n: nat): (r: seq<Event>)
    ensures |r| == if i < n then 5 else 4
    ensures forall k | 0 <= k < |Ticks| :: r[k] == Countdown(Ticks[k])
    ensures r[|Ticks|] == Record(i)
    ensures i < n ==> r[4] == Rest(i)
  {
    [Countdown(3), Countdown(2), Countdown(1), Record(i)] + (if i < n then [Rest(i)] else [])
  }

  /**
    The events of trials 1..k of a session of n trials: five per trial, four
    for the last one, and the trace so far ends with the rest of trial k, or
    with its record phase when no rest follows it.
   */
  function Schedule(k: nat, n: nat): (r: seq<Event>)
    ensures k <= n ==> |r| == if k == n && k > 0 then 5 * k - 1 else 5 * k
    ensures k > 0 ==> |r| > 0 && r[|r| - 1] == if k < n then Rest(k) else Record(k)
  {
    if k == 0 then [] else Schedule(k - 1, n) + TrialEvents(k, n)
  }

  function RecordCount(t: seq<Event>): nat {
    if t == [] then 0 else RecordCount(t[..|t| - 1]) + (if t[|t| - 1].Record? then 1 else 0)
  }

  function RestCount(t: seq<Event>): nat {
    if t == [] then 0 else RestCount(t[..|t| - 1]) + (if t[|t| - 1].Rest? then 1 else 0)
  }

  lemma {:induction false} CountsConcat(a: seq<Event>, b: seq<Event>)
    ensures RecordCount(a + b) == RecordCount(a) + RecordCount(b)
    ensures RestCount(a + b) == RestCount(a) + RestCount(b)
  {
    if b == [] {
      assert a + b == a;
    } else {
      assert (a + b)[..|a + b| - 1] == a + b[..|b| - 1];
      assert (a + b)[|a + b| - 1] == b[|b| - 1];
      CountsConcat(a, b[..|b| - 1]);
    }
  }

  lemma SingleCounts(e: Event)
    ensures RecordCount([e]) == (if e.Record? then 1 else 0)
    ensures RestCount([e]) == (if e.Rest? then 1 else 0)
  {
    assert [e][..0] == [];
  }

  lemma TrialEventCounts(i: nat, n: nat)
    ensures RecordCount(TrialEvents(i, n)) == 1
    ensures RestCount(TrialEvents(i, n)) == if i < n then 1 else 0
  {
    var tail: seq<Event> := if i < n then [Rest(i)] else [];
    SingleCounts(Countdown(3));
    SingleCounts(Countdown(2));
    SingleCounts(Countdown(1));
    SingleCounts(Record(i));
    SingleCounts(Rest(i));
    assert RecordCount(tail) == 0 && RestCount(tail) == (if i < n then 1 else 0);
    CountsConcat([Countdown(3)], [Countdown(2)]);
    CountsConcat([Countdown(3), Countdown(2)], [Countdown(1)]);
    CountsConcat([Countdown(3), Countdown(2), Countdown(1)], [Record(i)]);
    CountsConcat([Countdown(3), Countdown(2), Countdown(1), Record(i)], tail);
    assert [Countdown(3)] + [Countdown(2)] == [Countdown(3), Countdown(2)];
    assert [Countdown(3), Countdown(2)] + [Countdown(1)] == [Countdown(3), Countdown(2), Countdown(1)];
    assert [Countdown(3), Countdown(2), Countdown(1)] + [Record(i)] == [Countdown(3), Countdown(2), Countdown(1), Record(i)];
  }

  /** Trials 1..k of n: 5 events per trial, one fewer when the last trial is among them. */
  lemma {:induction false} ScheduleShape(k: nat, n: nat)
    requires k <= n
    ensures |Schedule(k, n)| == if k == n && k > 0 then 5 * k - 1 else 5 * k
    ensures RecordCount(Schedule(k, n)) == k
    ensures RestCount(Schedule(k, n)) == if k == n && k > 0 then k - 1 else k
  {
    if k > 0 {
      ScheduleShape(k - 1, n);
      CountsConcat(Schedule(k - 1, n), TrialEvents(k, n));
      TrialEventCounts(k, n);
    }
  }

  /** N iterations give exactly N record phases and N - 1 rest phases. */
  lemma PhaseCounts(n: nat)
    requires n >= 1
    ensures RecordCount(Schedule(n, n)) == n
    ensures RestCount(Schedule(n, n)) == n - 1
  {
    ScheduleShape(n, n);
  }

  lemma {:induction false} SchedulePrefix(k: nat, m: nat, n: nat)
    requires k <= m
    ensures |Schedule(k, n)| <= |Schedule(m, n)|
    ensures Schedule(k, n) == Schedule(m, n)[..|Schedule(k, n)|]
    decreases m
  {
    if k < m {
      SchedulePrefix(k, m - 1, n);
      assert Schedule(m, n) == Schedule(m - 1, n) + TrialEvents(m, n);
    }
  }

  /**
    Where trial i sits in the trace: at position 5(i - 1) its countdown 3, 2, 1,
    then its record phase, then its rest phase exactly when i < n (the last
    trial ends the trace).
   */
  lemma TrialLayout(i: nat, n: nat)
    requires 1 <= i <= n
    ensures var s, p := Schedule(n, n), 5 * (i - 1);
      p + 4 <= |s|
      && s[p..p + 4] == [Countdown(3), Countdown(2), Countdown(1), Record(i)]
      && (i < n <==> p + 4 < |s| && s[p + 4] == Rest(i))
  {
    var s, p := Schedule(n, n), 5 * (i - 1);
    var si, t := Schedule(i, n), TrialEvents(i, n);
    SchedulePrefix(i, n, n);
    ScheduleStep(i, n);
    assert |Schedule(i - 1, n)| == p;
    forall m | 0 <= m < |t| ensures s[p + m] == t[m] {
      assert s[..|si|][p + m] == si[p + m];
    }
    assert s[p..p + 4] == t[..4];
    assert t[..4] == [Countdown(3), Countdown(2), Countdown(1), Record(i)];
  }

  /** The lines read during the record phase of trial i (none when the port stays silent). */
  function Batch(batches: seq<seq<string>>, i: nat): seq<string> {
    if 1 <= i <= |batches| then batches[i - 1] else []
  }

  /** The rows accepted during trials 1..k, trial by trial. */
  function Captured(batches: seq<seq<string>>, k: nat): seq<seq<string>> {
    if k == 0 then [] else Captured(batches, k - 1) + AcceptedRows(Batch(batches, k))
  }

  /** Every line read during trials 1..k, in arrival order. */
  function LinesRead(batches: seq<seq<string>>, k: nat): seq<string> {
    if k == 0 then [] else LinesRead(batches, k - 1) + Batch(batches, k)
  }

  /**
    Trial boundaries leave no trace in the data: filtering trial by trial is
    filtering the whole stream of lines read, in arrival order.
   */
  lemma {:induction false} CapturedInArrivalOrder(batches: seq<seq<string>>, k: nat)
    ensures Captured(batches, k) == AcceptedRows(LinesRead(batches, k))
  {
    if k > 0 {
      CapturedInArrivalOrder(batches, k - 1);
      AcceptedRowsConcat(LinesRead(batches, k - 1), Batch(batches, k));
    }
  }

  /** Every data row of the file has the header's shape (`Header`): 20 stripped, comma-free fields. */
  lemma SessionRowsWellFormed(batches: seq<seq<string>>, k: nat)
    ensures forall j | 0 <= j < |Captured(batches, k)| :: WellFormed(Captured(batches, k)[j])
  {
    CapturedInArrivalOrder(batches, k);
    AcceptedRowsWellFormed(LinesRead(batches, k));
  }

  /** The countdown before a record phase: ticks 3, 2, 1, in that order. */
  method CountDown(trace: seq<Event>) returns (trace': seq<Event>)
    ensures trace' == trace + [Countdown(3), Countdown(2), Countdown(1)]
  {
    trace' := trace;
    for j := 0 to |Ticks|
      invariant trace' == trace + seq(j, m requires 0 <= m < j => Countdown(Ticks[m]))
    {
      trace' := trace' + [Countdown(Ticks[j])];
    }
    assert seq(3, m requires 0 <= m < 3 => Countdown(Ticks[m])) == [Countdown(3), Countdown(2), Countdown(1)];
  }

  /** One record phase: every line of the batch goes through the filter; accepted ones are appended. */
  method RecordPhase(rows: seq<seq<string>>, batch: seq<string>) returns (rows': seq<seq<string>>)
    ensures rows' == rows + AcceptedRows(batch)
  {
    rows' := rows;
    for j := 0 to |batch|
      invariant rows' == rows + AcceptedRows(batch[..j])
    {
      assert batch[..j + 1][..j] == batch[..j];
      match Accept(batch[j]) {
        case Some(row) => rows' := rows' + [row];
        case None =>
      }
    }
    assert batch[..|batch|] == batch;
  }

  /** One trial: countdown, record phase over its batch, and a rest unless it is the last. */
  method Trial(i: nat, n: nat, batch: seq<string>, rows: seq<seq<string>>, trace: seq<Event>)
    returns (rows': seq<seq<string>>, trace': seq<Event>)
    ensures rows' == rows + AcceptedRows(batch)
    ensures trace' == trace + TrialEvents(i, n)
  {
    trace' := CountDown(trace);
    trace' := trace' + [Record(i)];
    rows' := RecordPhase(rows, batch);
    if i < n {
      trace' := trace' + [Rest(i)];
    }
  }

  lemma ScheduleStep(i: nat, n: nat)
    requires i >= 1
    ensures Schedule(i, n) == Schedule(i - 1, n) + TrialEvents(i, n)
  {
  }

  /** The trials 1..n in order, appending the rows each record phase accepts after what is already written. */
  method Trials(n: nat, batches: seq<seq<string>>, written: seq<seq<string>>) returns (rows: seq<seq<string>>, trace: seq<Event>)
    ensures rows == written + Captured(batches, n)
    ensures trace == Schedule(n, n)
  {
    rows := written;
    trace := [];
    for k := 0 to n
      invariant rows == written + Captured(batches, k)
      invariant trace == Schedule(k, n)
    {
      ScheduleStep(k + 1, n);
      rows, trace := Trial(k + 1, n, Batch(batches, k + 1), rows, trace);
    }
  }

  /**
    The whole session: the header, then for each trial its countdown, its
    record phase (filtering the lines of its batch into the file) and, except
    after the last trial, a rest.
   */
  method Session(iterations: nat, batches: seq<seq<string>>) returns (rows: seq<seq<string>>, trace: seq<Event>)
    ensures rows == [Header()] + Captured(batches, iterations)
    ensures trace == Schedule(iterations, iterations)
  {
    rows := [Header()];
    rows, trace := Trials(iterations, batches, rows);
  }
}
