/**
  Recording_data/data_logger_main.py: an open-ended logger. It writes the
  header, then reads serial lines until interrupted. A blank line (after
  `strip()`) is ignored; a line of 20 comma-separated fields is written as a
  row and echoed to the console; any other line is reported on the console as
  skipped.

  The lines read before the interrupt are the input `lines`; the console is
  recorded as a sequence of messages.
 */
module StreamLogger {
  import opened Wrappers
  import opened Text
  import opened Records

  /** The script's configuration, used only in the file name. */
  const LogTrial: nat := 1
  const GestureName: string := "none"
  const Hz: nat := 25
  const Iterations: nat := 20

  /**
    `"trial" + str(logtrial) + "_" + gesturename + "_" + str(iterations) + "iterations_" + str(hz) + "hz" + ".csv"`:
    a CSV file whose name starts with the trial number.
   */
  function FileName(logtrial: nat, gesture: string, iterations: nat, hz: nat): (r: string)
    ensures |r| > 5 + |Decimal(logtrial)| && r[..5 + |Decimal(logtrial)|] == "trial" + Decimal(logtrial)
    ensures r[|r| - 4..] == ".csv"
  {
    var p := "trial" + Decimal(logtrial);
    var r := p + ("_" + gesture + "_" + Settings(iterations, hz));
    assert r[..|p|] == p;
    r
  }

  /** The part of the file name after the gesture. */
  function Settings(iterations: nat, hz: nat): (r: string)
    ensures |r| >= 4 && r[|r| - 4..] == ".csv"
  {
    Decimal(iterations) + "iterations_" + Decimal(hz) + "hz" + ".csv"
  }

  /** With the script's configuration the log goes to `trial1_none_20iterations_25hz.csv`. */
  lemma ConfiguredFileName()
    ensures FileName(LogTrial, GestureName, Iterations, Hz) == "trial1_none_20iterations_25hz.csv"
  {
    ConfiguredSettings();
    ConfiguredNumbers();
    FileNameSplit(LogTrial, GestureName, Iterations, Hz);
  }

  lemma ConfiguredSettings()
    ensures Settings(Iterations, Hz) == "20iterations_25hz.csv"
  {
    ConfiguredNumbers();
  }

  lemma ConfiguredNumbers()
    ensures Decimal(LogTrial) == "1" && Decimal(Iterations) == "20" && Decimal(Hz) == "25"
  {
    assert Digits(20) == Digits(2) + "0";
    assert Digits(25) == Digits(2) + "5";
  }

  /**
    For one gesture, the file name determines the trial number, the
    iteration count and the rate: different settings never share a file.
   */
  lemma FileNameDeterminesSettings(gesture: string, l1: nat, n1: nat, hz1: nat, l2: nat, n2: nat, hz2: nat)
    requires FileName(l1, gesture, n1, hz1) == FileName(l2, gesture, n2, hz2)
    ensures l1 == l2 && n1 == n2 && hz1 == hz2
  {
    var r1 := "_" + gesture + "_" + Settings(n1, hz1);
    var r2 := "_" + gesture + "_" + Settings(n2, hz2);
    FileNameSplit(l1, gesture, n1, hz1);
    FileNameSplit(l2, gesture, n2, hz2);
    CancelPrefix("trial", Digits(l1) + r1, Digits(l2) + r2);
    NumberPrefixDetermine(l1, r1, l2, r2);
    CancelPrefix("_" + gesture + "_", Settings(n1, hz1), Settings(n2, hz2));
    SettingsDetermine(n1, hz1, n2, hz2);
  }

  lemma FileNameSplit(l: nat, gesture: string, n: nat, hz: nat)
    ensures FileName(l, gesture, n, hz) == "trial" + (Digits(l) + ("_" + gesture + "_" + Settings(n, hz)))
    ensures ("_" + gesture + "_" + Settings(n, hz))[0] == '_'
  {
  }

  lemma SettingsDetermine(n1: nat, hz1: nat, n2: nat, hz2: nat)
    requires Settings(n1, hz1) == Settings(n2, hz2)
    ensures n1 == n2 && hz1 == hz2
  {
    var u1, u2 := Digits(hz1) + "hz.csv", Digits(hz2) + "hz.csv";
    SettingsSplit(n1, hz1);
    SettingsSplit(n2, hz2);
    NumberPrefixDetermine(n1, "iterations_" + u1, n2, "iterations_" + u2);
    CancelPrefix("iterations_", u1, u2);
    NumberPrefixDetermine(hz1, "hz.csv", hz2, "hz.csv");
  }

  lemma SettingsSplit(n: nat, hz: nat)
    ensures Settings(n, hz) == Digits(n) + ("iterations_" + (Digits(hz) + "hz.csv"))
    ensures ("iterations_" + (Digits(hz) + "hz.csv"))[0] == 'i'
  {
  }

  /** What the logger does with one line. */
  datatype Verdict =
    | Blank                   // nothing left after `strip()`: skipped silently
    | Write(row: seq<string>) // written to the CSV file
    | Warn(raw: string)       // reported as skipped for its field count

  /**
    The three outcomes for a line are exclusive and exhaustive: blank lines
    are exactly the all-whitespace ones, written lines exactly those the
    20-field filter accepts, and the rest are reported with their stripped text.
   */
  function Classify(line: string): (v: Verdict)
    ensures v.Blank? <==> AllSpace(line)
    ensures v.Write? <==> Accept(line).Some?
    ensures v.Write? ==> Accept(line) == Some(v.row)
    ensures v.Warn? <==> !AllSpace(line) && Occurrences(line, ',') != FieldCount - 1
    ensures v.Warn? ==> v.raw == Strip(line) && v.raw != [] && IsStripped(v.raw)
  {
    StripEmptyIff(line);
    var raw := Strip(line);
    if raw == [] then Blank
    else
      match Accept(line)
      case Some(row) => Write(row)
      case None => Warn(raw)
  }

  /** A console line: the echo of a written line, or the warning for a skipped one. */
  datatype Message = Echo(text: string) | Skipped(text: string)

  /**
    The console line a line of input leads to: none for a blank line, else its
    stripped text, echoed when it is written and reported as skipped otherwise.
   */
  function Report(line: string): (r: Option<Message>)
    ensures r.None? <==> AllSpace(line)
    ensures r.Some? ==> r.value.text == Strip(line) && (r.value.Echo? <==> Accept(line).Some?)
  {
    match Classify(line)
    case Blank => None
    case Write(_) => Some(Echo(Strip(line)))
    case Warn(raw) => Some(Skipped(raw))
  }

  /** The console output for the lines read, in order. */
  function Console(lines: seq<string>): seq<Message> {
    FilterMap(lines, Report)
  }

  /** One turn of the loop: read a line, then write it, report it, or skip it. */
  method Step(line: string, rows: seq<seq<string>>, console: seq<Message>)
    returns (rows': seq<seq<string>>, console': seq<Message>)
    ensures rows' == rows + AcceptedRows([line])
    ensures console' == console + Console([line])
  {
    FilterMapSingle(line, Accept);
    FilterMapSingle(line, Report);
    rows', console' := rows, console;
    var raw := Strip(line);
    StripEmptyIff(line);
    if raw != [] {
      var parts := StripEach(Split(raw, ','));
      if |parts| == FieldCount {
        rows' := rows' + [parts];
        console' := console' + [Echo(raw)];
      } else {
        console' := console' + [Skipped(raw)];
      }
    }
  }

  /** The loop after the header: one step per line read, appending to what is already written. */
  method LogLines(lines: seq<string>, written: seq<seq<string>>) returns (rows: seq<seq<string>>, console: seq<Message>)
    ensures rows == written + AcceptedRows(lines)
    ensures console == Console(lines)
  {
    rows := written;
    console := [];
    for j := 0 to |lines|
      invariant rows == written + AcceptedRows(lines[..j])
      invariant console == Console(lines[..j])
    {
      assert lines[..j + 1] == lines[..j] + [lines[j]];
      AcceptedRowsConcat(lines[..j], [lines[j]]);
      FilterMapConcat(lines[..j], [lines[j]], Report);
      rows, console := Step(lines[j], rows, console);
    }
    assert lines[..|lines|] == lines;
  }

  /**
    The logger: the header first, then the loop. The file holds the header
    and the accepted rows in arrival order; the console holds one message per
    non-blank line.
   */
  method Log(lines: seq<string>) returns (rows: seq<seq<string>>, console: seq<Message>)
    ensures rows == [Header()] + AcceptedRows(lines)
    ensures console == Console(lines)
  {
    rows := [Header()];
    rows, console := LogLines(lines, rows);
  }

  /** Every non-blank line leaves exactly one console message; blank lines leave none. */
  lemma {:induction false} ConsoleCoversNonBlank(lines: seq<string>)
    ensures |Console(lines)| == NonBlankCount(lines)
  {
    if lines != [] {
      ConsoleCoversNonBlank(lines[..|lines| - 1]);
    }
  }

  /** Filtering a line that is already stripped decides it the same way. */
  lemma AcceptStripped(line: string)
    ensures Accept(Strip(line)) == Accept(line)
  {
    StripStripped(Strip(line));
  }

  /** Reports carry the stripped, non-empty text of their line; echoed texts are the accepted ones. */
  lemma ReportSound(line: string)
    ensures Report(line).Some? ==>
      var m := Report(line).value;
      m.text == Strip(line) && m.text != [] && IsStripped(m.text) && (m.Echo? <==> Accept(m.text).Some?)
  {
    AcceptStripped(line);
    StripEmptyIff(line);
  }

  /**
    Every message carries the stripped, non-empty text of a line, and the
    echoed texts are exactly the ones the filter would accept.
   */
  lemma ConsoleMessagesSound(lines: seq<string>)
    ensures forall k | 0 <= k < |Console(lines)| ::
      var m := Console(lines)[k];
      m.text != [] && IsStripped(m.text) && (m.Echo? <==> Accept(m.text).Some?)
  {
    FilterMapSources(lines, Report);
    forall k | 0 <= k < |Console(lines)|
      ensures var m := Console(lines)[k]; m.text != [] && IsStripped(m.text) && (m.Echo? <==> Accept(m.text).Some?)
    {
      var j :| 0 <= j < |lines| && Report(lines[j]) == Some(Console(lines)[k]);
      ReportSound(lines[j]);
    }
  }

  function Texts(console: seq<Message>): (r: seq<string>)
    ensures |r| == |console| && forall k | 0 <= k < |r| :: r[k] == console[k].text
  {
    seq(|console|, k requires 0 <= k < |console| => console[k].text)
  }

  /**
    The console is a faithful replay of the file: running the console's texts
    through the filter again gives exactly the rows written after the header.
   */
  lemma {:induction false} ConsoleReplaysRows(lines: seq<string>)
    ensures AcceptedRows(Texts(Console(lines))) == AcceptedRows(lines)
  {
    if lines != [] {
      var init, line := lines[..|lines| - 1], lines[|lines| - 1];
      ConsoleReplaysRows(init);
      assert lines == init + [line];
      FilterMapConcat(init, [line], Report);
      AcceptedRowsConcat(init, [line]);
      TextsConcat(Console(init), Console([line]));
      AcceptedRowsConcat(Texts(Console(init)), Texts(Console([line])));
      ReplayLine(line);
    }
  }

  lemma TextsConcat(a: seq<Message>, b: seq<Message>)
    ensures Texts(a + b) == Texts(a) + Texts(b)
  {
  }

  /** For one line: the echo, if any, is accepted as the row written, and a warning is rejected again. */
  lemma ReplayLine(line: string)
    ensures AcceptedRows(Texts(Console([line]))) == AcceptedRows([line])
  {
    FilterMapSingle(line, Report);
    FilterMapSingle(line, Accept);
    ReportSound(line);
    AcceptStripped(line);
    var t := Texts(Console([line]));
    if Report(line).Some? {
      assert t == [Strip(line)];
      FilterMapSingle(Strip(line), Accept);
    } else {
      assert t == [];
    }
  }
}
