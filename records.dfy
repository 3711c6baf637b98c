/**
  The CSV record format both serial loggers write: a fixed 20-name header
  and the per-line filter that turns a decoded serial line into a row.
  The filter is the same in Recording_data/2seconds_datalogger.py and
  Recording_data/data_logger_main.py: strip the line, skip it when empty,
  split on commas, strip every field, keep the row only when it has exactly
  20 fields.
 */
module Records {
  import opened Wrappers
  import opened Text

  /** The width of a sensor record: timestamp, 3 x accel, gyro, mag, linacc, grav, 4 x gamerot. */
  const FieldCount: nat := 20

  /**
    The header row both loggers write first. Its names are made of lower-case
    letters and underscores, so it has the shape of a written row.
   */
  function Header(): (h: seq<string>)
    ensures WellFormed(h)
    ensures h[0] == "timestamp"
  {
    var h := [
      "timestamp",
      "accel_x", "accel_y", "accel_z",
      "gyro_x", "gyro_y", "gyro_z",
      "mag_x", "mag_y", "mag_z",
      "linacc_x", "linacc_y", "linacc_z",
      "grav_x", "grav_y", "grav_z",
      "gamerot_w", "gamerot_x", "gamerot_y", "gamerot_z"
    ];
    assert forall k | 0 <= k < |h| :: IsStripped(h[k]) && ',' !in h[k] by {
      forall k | 0 <= k < |h| ensures IsStripped(h[k]) && ',' !in h[k] {
        NameIsField(h[k]);
      }
    }
    h
  }

  /** A row the loggers would write: 20 comma-free fields without surrounding whitespace. */
  predicate WellFormed(row: seq<string>) {
    |row| == FieldCount && forall k | 0 <= k < |row| :: IsStripped(row[k]) && ',' !in row[k]
  }

  /**
    The filter applied to one decoded serial line: `Some(row)` when the line is
    written, `None` when it is skipped (blank, or not 20 fields). Since `strip()`
    only removes whitespace, a line is kept exactly when it holds 19 commas.
   */
  function Accept(line: string): (r: Option<seq<string>>)
    ensures r.Some? <==> Strip(line) != [] && |Split(Strip(line), ',')| == FieldCount
    ensures r.Some? <==> Occurrences(line, ',') == FieldCount - 1
    ensures r.Some? ==> WellFormed(r.value)
  {
    var raw := Strip(line);
    StripKeepsOccurrences(line, ',');
    StripEmptyIff(line);
    if raw == [] then None
    else
      var pieces := Split(raw, ',');
      var parts := StripEach(pieces);
      if |parts| == FieldCount then
        assert forall k | 0 <= k < |parts| :: ',' !in parts[k] by {
          forall k | 0 <= k < |parts| ensures ',' !in parts[k] {
            StripKeepsOccurrences(pieces[k], ',');
          }
        }
        Some(parts)
      else None
  }

  /**
    Each written field is the stripped comma-separated piece of the raw line in
    the same position: stripping the whole line first changes nothing, because
    the whitespace it removes would have been stripped with the first and last field.
   */
  lemma AcceptReadsRawFields(line: string)
    requires Accept(line).Some?
    ensures |Split(line, ',')| == FieldCount
    ensures forall k | 0 <= k < FieldCount :: Accept(line).value[k] == Strip(Split(line, ',')[k])
  {
    var pre, post := StripDecompose(line);
    PaddedFields(pre, Strip(line), post);
  }

  /**
    Whitespace around a line of at least two fields only pads its first and
    last pieces, so the stripped pieces are the same with or without it.
   */
  lemma PaddedFields(pre: string, raw: string, post: string)
    requires AllSpace(pre) && AllSpace(post) && |Split(raw, ',')| >= 2
    ensures |Split(pre + raw + post, ',')| == |Split(raw, ',')|
    ensures forall k | 0 <= k < |Split(raw, ',')| :: Strip(Split(pre + raw + post, ',')[k]) == Strip(Split(raw, ',')[k])
  {
    var line := pre + raw + post;
    assert line == pre + (raw + post);
    SpaceHasNoComma(pre);
    SpaceHasNoComma(post);
    var s := Split(raw, ',');
    SplitSuffix(raw, post, ',');
    SplitPrefix(pre, raw + post, ',');
    var u := Split(line, ',');
    PaddedPieces(pre, s, post);
    forall k | 0 <= k < |s| ensures Strip(u[k]) == Strip(s[k]) {
      if k == 0 {
        StripSpacePrefix(pre, s[0]);
      } else if k == |s| - 1 {
        StripSpaceSuffix(s[k], post);
      }
    }
  }

  lemma SpaceHasNoComma(s: string)
    requires AllSpace(s)
    ensures ',' !in s
  {
  }

  /** Where padding around a line ends up among its pieces. */
  lemma PaddedPieces(pre: string, s: seq<string>, post: string)
    requires |s| >= 2
    ensures var t := s[..|s| - 1] + [s[|s| - 1] + post];
      var u := [pre + t[0]] + t[1..];
      |u| == |s| && u[0] == pre + s[0] && u[|s| - 1] == s[|s| - 1] + post
      && forall k | 0 < k < |s| - 1 :: u[k] == s[k]
  {
  }

  /** A written row, joined back with commas, passes the filter again unchanged. */
  lemma AcceptIdempotent(line: string)
    requires Accept(line).Some?
    ensures Accept(Join(Accept(line).value, ',')) == Accept(line)
  {
    var row := Accept(line).value;
    JoinedRowAccepted(row);
  }

  /** Any well-formed row, joined with commas, is a line the filter writes as that very row. */
  lemma JoinedRowAccepted(row: seq<string>)
    requires WellFormed(row)
    ensures Accept(Join(row, ',')) == Some(row)
  {
    var line := Join(row, ',');
    SplitJoin(row, ',');
    assert Occurrences(line, ',') == FieldCount - 1;
    AcceptReadsRawFields(line);
    var r := Accept(line).value;
    forall k | 0 <= k < FieldCount ensures r[k] == row[k] {
      StripStripped(row[k]);
    }
    assert r == row;
  }

  /** The header has the record width, and read back as a line it is accepted as itself. */
  lemma HeaderIsRecordShaped()
    ensures |Header()| == FieldCount
    ensures Accept(Join(Header(), ',')) == Some(Header())
  {
    JoinedRowAccepted(Header());
  }

  predicate IsNameChar(c: char) {
    ('a' <= c && c <= 'z') || c == '_'
  }

  lemma NameIsField(f: string)
    requires forall k | 0 <= k < |f| :: IsNameChar(f[k])
    ensures IsStripped(f) && ',' !in f
  {
  }

  /**
    The accepted rows of a sequence of lines, in arrival order: what a logger
    appends after its header when it reads `lines`.
   */
  function AcceptedRows(lines: seq<string>): seq<seq<string>> {
    FilterMap(lines, Accept)
  }

  /** Every row written after the header is well formed, and there are no more rows than lines. */
  lemma AcceptedRowsWellFormed(lines: seq<string>)
    ensures |AcceptedRows(lines)| <= |lines|
    ensures forall k | 0 <= k < |AcceptedRows(lines)| :: WellFormed(AcceptedRows(lines)[k])
  {
    FilterMapSources(lines, Accept);
    forall k | 0 <= k < |AcceptedRows(lines)| ensures WellFormed(AcceptedRows(lines)[k]) {
      var j :| 0 <= j < |lines| && Accept(lines[j]) == Some(AcceptedRows(lines)[k]);
    }
  }

  /** Filtering distributes over concatenation: rows of later lines come after rows of earlier ones. */
  lemma AcceptedRowsConcat(a: seq<string>, b: seq<string>)
    ensures AcceptedRows(a + b) == AcceptedRows(a) + AcceptedRows(b)
  {
    FilterMapConcat(a, b, Accept);
  }

  /** A line the filter rejects, wherever it arrives, leaves the written rows unchanged. */
  lemma RejectedLineIgnored(a: seq<string>, line: string, b: seq<string>)
    requires Accept(line).None?
    ensures AcceptedRows(a + [line] + b) == AcceptedRows(a + b)
  {
    FilterMapSkip(a, line, b, Accept);
  }

  /** A row is written exactly when some line read is accepted as that row. */
  lemma AcceptedRowsMembers(lines: seq<string>, row: seq<string>)
    ensures row in AcceptedRows(lines) <==> exists k | 0 <= k < |lines| :: Accept(lines[k]) == Some(row)
  {
    FilterMapMembers(lines, Accept, row);
  }

  /** How many lines are not blank after `strip()`. */
  function NonBlankCount(lines: seq<string>): nat {
    if lines == [] then 0
    else NonBlankCount(lines[..|lines| - 1]) + (if AllSpace(lines[|lines| - 1]) then 0 else 1)
  }
}
