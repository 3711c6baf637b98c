/**
  first_data/data_logger_1.py: a raw recorder. It opens its CSV file for
  appending, writes a `["START"]` divider row, and then for every line read
  during the recording window that is not blank after `strip()`, echoes the
  stripped text and writes its comma split as a row: no field count check
  and no per-field strip.

  The file before the run is `existing`; the lines read during the window
  are `lines`.
 */
module Passthrough {
  import opened Wrappers
  import opened Text
  import opened Records

  /** The row that marks the start of each run in the file. */
  const Divider: seq<string> := ["START"]

  /**
    The row written for a line: its stripped text split on commas. Joined with
    commas it gives back the stripped line; a line with k commas gives k + 1
    comma-free fields, with no width check.
   */
  function RawRow(line: string): (r: seq<string>)
    ensures Join(r, ',') == Strip(line)
    ensures |r| == Occurrences(line, ',') + 1
    ensures forall k | 0 <= k < |r| :: ',' !in r[k]
  {
    JoinSplit(Strip(line), ',');
    StripKeepsOccurrences(line, ',');
    Split(Strip(line), ',')
  }

  /** What one line leaves in the file: nothing when it is blank after `strip()`, else its raw row. */
  function Written(line: string): Option<seq<string>> {
    if AllSpace(line) then None else Some(RawRow(line))
  }

  /** What one line leaves on the console: its stripped text, unless that is empty. */
  function Echo(line: string): Option<string> {
    if AllSpace(line) then None else Some(Strip(line))
  }

  /** The rows written for the lines read, in arrival order. */
  function RawRows(lines: seq<string>): seq<seq<string>> {
    FilterMap(lines, Written)
  }

  /** The console echo of the lines read, in arrival order. */
  function Echoes(lines: seq<string>): seq<string> {
    FilterMap(lines, Echo)
  }

  /** One line read: when it is not blank, echo its stripped text and append its comma split. */
  method Step(line: string, file: seq<seq<string>>, console: seq<string>)
    returns (file': seq<seq<string>>, console': seq<string>)
    ensures file' == file + RawRows([line])
    ensures console' == console + Echoes([line])
  {
    FilterMapSingle(line, Written);
    FilterMapSingle(line, Echo);
    file', console' := file, console;
    var text := Strip(line);
    StripEmptyIff(line);
    if text != [] {
      console' := console' + [text];
      file' := file' + [Split(text, ',')];
    }
  }

  /**
    One run: the existing file is kept, the divider is appended, then one row
    per non-blank line; the console shows each such line.
   */
  method Run(existing: seq<seq<string>>, lines: seq<string>) returns (file: seq<seq<string>>, console: seq<string>)
    ensures file == existing + [Divider] + RawRows(lines)
    ensures console == ["START"] + Echoes(lines)
  {
    file := existing + [Divider];
    console := ["START"];
    for j := 0 to |lines|
      invariant file == existing + [Divider] + RawRows(lines[..j])
      invariant console == ["START"] + Echoes(lines[..j])
    {
      assert lines[..j + 1] == lines[..j] + [lines[j]];
      FilterMapConcat(lines[..j], [lines[j]], Written);
      FilterMapConcat(lines[..j], [lines[j]], Echo);
      file, console := Step(lines[j], file, console);
    }
    assert lines[..|lines|] == lines;
  }

  /** One row per non-blank line, no more and no fewer. */
  lemma {:induction false} RawRowsCount(lines: seq<string>)
    ensures |RawRows(lines)| == NonBlankCount(lines)
  {
    if lines != [] {
      RawRowsCount(lines[..|lines| - 1]);
    }
  }

  /** The file after the divider and the console agree line by line: each row joins to its echo. */
  lemma {:induction false} RowsMatchEchoes(lines: seq<string>)
    ensures |RawRows(lines)| == |Echoes(lines)|
    ensures forall k | 0 <= k < |RawRows(lines)| :: Join(RawRows(lines)[k], ',') == Echoes(lines)[k]
  {
    if lines != [] {
      RowsMatchEchoes(lines[..|lines| - 1]);
    }
  }

  /** Blank lines, wherever they arrive, write nothing. */
  lemma BlankLinesIgnored(a: seq<string>, line: string, b: seq<string>)
    requires AllSpace(line)
    ensures RawRows(a + [line] + b) == RawRows(a + b)
  {
    FilterMapSkip(a, line, b, Written);
  }
}
