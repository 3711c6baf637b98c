/**
  first_data/plot_sensors.py, without the drawing: loading a recording into
  a channel map, each file's time baseline, the sorted union of channels over
  all files, and the labels given to the components of a channel.

  A recording is given as its CSV rows (`None` when the file does not exist);
  `float()` is the parameter `parse`, which yields `None` where Python raises
  `ValueError`.
 */
module SensorPlot {
  import opened Wrappers
  import opened Text
  import opened Ordering

  /** One sample of a channel: `(t, vals)`. */
  datatype Entry = Entry(time: real, values: seq<real>)

  /** What a usable row contributes: its entry, under its channel name. */
  datatype Reading = Reading(channel: string, entry: Entry)

  /** `[float(x) for x in fields]`, or `None` when any field does not parse. */
  function ParseAll(fields: seq<string>, parse: string -> Option<real>): (r: Option<seq<real>>)
    ensures r.None? <==> exists k | 0 <= k < |fields| :: parse(fields[k]).None?
    ensures r.Some? ==> |r.value| == |fields| && forall k | 0 <= k < |fields| :: Some(r.value[k]) == parse(fields[k])
  {
    if fields == [] then Some([])
    else
      match (parse(fields[0]), ParseAll(fields[1..], parse))
      case (Some(v), Some(vs)) => Some([v] + vs)
      case (None, _) => None
      case (_, None) =>
        assert forall k | 0 < k < |fields| :: fields[1..][k - 1] == fields[k];
        None
  }

  /**
    One CSV row: skipped when shorter than 3 fields or when its time or any of
    its values fails to parse; otherwise `(row[0], row[2:])` under `row[1]`.
   */
  function ParseRow(row: seq<string>, parse: string -> Option<real>): (r: Option<Reading>)
    ensures r.Some? <==> |row| >= 3 && parse(row[0]).Some? && forall k | 2 <= k < |row| :: parse(row[k]).Some?
    ensures r.Some? ==>
      (r.value.channel == row[1] && Some(r.value.entry.time) == parse(row[0])
       && |r.value.entry.values| == |row| - 2
       && forall k | 2 <= k < |row| :: Some(r.value.entry.values[k - 2]) == parse(row[k]))
  {
    if |row| < 3 then None
    else
      assert forall k | 2 <= k < |row| :: row[2..][k - 2] == row[k];
      match (parse(row[0]), ParseAll(row[2..], parse))
      case (Some(t), Some(vs)) => Some(Reading(row[1], Entry(t, vs)))
      case (None, _) => None
      case (_, None) => None
  }

  /** The readings of a file's rows, in file order. */
  function Readings(rows: seq<seq<string>>, parse: string -> Option<real>): seq<Reading> {
    FilterMap(rows, row => ParseRow(row, parse))
  }

  /** The entries of one channel, in file order. */
  function Select(readings: seq<Reading>, ch: string): seq<Entry> {
    if readings == [] then []
    else
      var last := readings[|readings| - 1];
      Select(readings[..|readings| - 1], ch) + (if last.channel == ch then [last.entry] else [])
  }

  function ChannelsOf(readings: seq<Reading>): set<string> {
    set k | 0 <= k < |readings| :: readings[k].channel
  }

  /** The `defaultdict(list)` after the loop: a key per channel seen, its entries in order. */
  function Grouped(readings: seq<Reading>): map<string, seq<Entry>> {
    map ch | ch in ChannelsOf(readings) :: Select(readings, ch)
  }

  lemma {:induction false} SelectAbsent(readings: seq<Reading>, ch: string)
    requires ch !in ChannelsOf(readings)
    ensures Select(readings, ch) == []
  {
    if readings != [] {
      var init := readings[..|readings| - 1];
      assert ChannelsOf(init) <= ChannelsOf(readings) by {
        forall c | c in ChannelsOf(init) ensures c in ChannelsOf(readings) {
          var k :| 0 <= k < |init| && init[k].channel == c;
          assert readings[k].channel == c;
        }
      }
      SelectAbsent(init, ch);
      assert readings[|readings| - 1].channel in ChannelsOf(readings);
    }
  }

  /** Appending a reading is `data[ch].append(entry)` on the grouped map. */
  lemma GroupedSnoc(readings: seq<Reading>, r: Reading)
    ensures var g := Grouped(readings);
      Grouped(readings + [r]) == g[r.channel := (if r.channel in g then g[r.channel] else []) + [r.entry]]
  {
    var rs := readings + [r];
    assert rs[..|rs| - 1] == readings;
    assert ChannelsOf(rs) == ChannelsOf(readings) + {r.channel} by {
      forall c | c in ChannelsOf(rs) ensures c in ChannelsOf(readings) + {r.channel} {
        var k :| 0 <= k < |rs| && rs[k].channel == c;
        if k < |readings| {
          assert readings[k].channel == c;
        }
      }
      forall c | c in ChannelsOf(readings) ensures c in ChannelsOf(rs) {
        var k :| 0 <= k < |readings| && readings[k].channel == c;
        assert rs[k].channel == c;
      }
      assert rs[|rs| - 1].channel == r.channel;
    }
    if r.channel !in ChannelsOf(readings) {
      SelectAbsent(readings, r.channel);
    }
    var g := Grouped(readings);
    var g' := g[r.channel := (if r.channel in g then g[r.channel] else []) + [r.entry]];
    assert Grouped(rs).Keys == g'.Keys;
    forall c | c in g'.Keys ensures Grouped(rs)[c] == g'[c] {
      assert Grouped(rs)[c] == Select(readings, c) + (if r.channel == c then [r.entry] else []);
    }
  }

  /**
    `load_sensor_data`: an empty map for a missing file, otherwise each usable
    row appended, in file order, under its channel.
   */
  method LoadSensorData(file: Option<seq<seq<string>>>, parse: string -> Option<real>)
    returns (data: map<string, seq<Entry>>)
    ensures file.None? ==> data == map[]
    ensures file.Some? ==> data == Grouped(Readings(file.value, parse))
  {
    data := map[];
    if file.None? {
      return;
    }
    var rows := file.value;
    for j := 0 to |rows|
      invariant data == Grouped(Readings(rows[..j], parse))
    {
      var row := rows[j];
      assert rows[..j + 1] == rows[..j] + [row];
      ReadingsConcat(rows[..j], [row], parse);
      RowRead(row, parse);
      if |row| >= 3 {
        var t := parse(row[0]);
        var vals := ParseAll(row[2..], parse);
        if t.Some? && vals.Some? {
          var ch := row[1];
          var entry := Entry(t.value, vals.value);
          assert ParseRow(row, parse) == Some(Reading(ch, entry));
          GroupedSnoc(Readings(rows[..j], parse), Reading(ch, entry));
          var entries := if ch in data then data[ch] else [];
          data := data[ch := entries + [entry]];
        } else {
          assert ParseRow(row, parse).None?;
          assert Readings(rows[..j + 1], parse) == Readings(rows[..j], parse);
        }
      } else {
        assert ParseRow(row, parse).None?;
        assert Readings(rows[..j + 1], parse) == Readings(rows[..j], parse);
      }
    }
    assert rows[..|rows|] == rows;
  }

  lemma ReadingsConcat(a: seq<seq<string>>, b: seq<seq<string>>, parse: string -> Option<real>)
    ensures Readings(a + b, parse) == Readings(a, parse) + Readings(b, parse)
  {
    FilterMapConcat(a, b, row => ParseRow(row, parse));
  }

  /** A skipped row, wherever it stands, leaves no trace: there is no partial entry. */
  lemma SkippedRowIgnored(a: seq<seq<string>>, row: seq<string>, b: seq<seq<string>>, parse: string -> Option<real>)
    requires ParseRow(row, parse).None?
    ensures Readings(a + [row] + b, parse) == Readings(a + b, parse)
  {
    FilterMapSkip(a, row, b, r => ParseRow(r, parse));
  }

  /** Each row contributes its one reading when usable, and nothing otherwise. */
  lemma RowRead(row: seq<string>, parse: string -> Option<real>)
    ensures ParseRow(row, parse).Some? ==> Readings([row], parse) == [ParseRow(row, parse).value]
    ensures ParseRow(row, parse).None? ==> Readings([row], parse) == []
  {
    FilterMapSingle(row, r => ParseRow(r, parse));
  }

  /** An entry is listed under `ch` exactly when some reading of that channel carries it. */
  lemma {:induction false} SelectMembers(readings: seq<Reading>, ch: string, e: Entry)
    ensures e in Select(readings, ch) <==> exists k | 0 <= k < |readings| :: readings[k] == Reading(ch, e)
  {
    if readings != [] {
      var init := readings[..|readings| - 1];
      SelectMembers(init, ch, e);
      if k :| 0 <= k < |readings| && readings[k] == Reading(ch, e) {
        if k < |init| {
          assert init[k] == readings[k];
        }
      }
      if e in Select(readings, ch) && e !in Select(init, ch) {
        assert readings[|readings| - 1] == Reading(ch, e);
      }
    }
  }

  /** How many of `chs` are `c`. */
  function Hits(chs: seq<string>, c: string): nat {
    if chs == [] then 0 else Hits(chs[..|chs| - 1], c) + (if chs[|chs| - 1] == c then 1 else 0)
  }

  /** The entries listed under the channels `chs`, summed. */
  function Total(readings: seq<Reading>, chs: seq<string>): nat {
    if chs == [] then 0 else Total(readings, chs[..|chs| - 1]) + |Select(readings, chs[|chs| - 1])|
  }

  lemma {:induction false} TotalSnoc(readings: seq<Reading>, r: Reading, chs: seq<string>)
    ensures Total(readings + [r], chs) == Total(readings, chs) + Hits(chs, r.channel)
  {
    var rs := readings + [r];
    assert rs[..|rs| - 1] == readings;
    if chs != [] {
      TotalSnoc(readings, r, chs[..|chs| - 1]);
    }
  }

  lemma {:induction false} HitsDistinct(chs: seq<string>, c: string)
    requires forall i, j | 0 <= i < j < |chs| :: chs[i] != chs[j]
    ensures Hits(chs, c) == if c in chs then 1 else 0
  {
    if chs != [] {
      var init := chs[..|chs| - 1];
      HitsDistinct(init, c);
      assert c in chs <==> c in init || chs[|chs| - 1] == c;
      if c in init {
        var i :| 0 <= i < |init| && init[i] == c;
        assert chs[i] == c;
      }
    }
  }

  /**
    Every usable row yields exactly one entry: over any list of distinct
    channel names that covers the channels seen, the entries add up to the
    number of readings.
   */
  lemma {:induction false} EntryTotal(readings: seq<Reading>, chs: seq<string>)
    requires forall i, j | 0 <= i < j < |chs| :: chs[i] != chs[j]
    requires forall c | c in ChannelsOf(readings) :: c in chs
    ensures Total(readings, chs) == |readings|
  {
    if readings == [] {
      TotalEmpty(chs);
    } else {
      var init, r := readings[..|readings| - 1], readings[|readings| - 1];
      assert readings == init + [r];
      forall c | c in ChannelsOf(init) ensures c in chs {
        var k :| 0 <= k < |init| && init[k].channel == c;
        assert readings[k].channel == c;
      }
      EntryTotal(init, chs);
      TotalSnoc(init, r, chs);
      assert r.channel in ChannelsOf(readings);
      HitsDistinct(chs, r.channel);
    }
  }

  lemma {:induction false} TotalEmpty(chs: seq<string>)
    ensures Total([], chs) == 0
  {
    if chs != [] {
      TotalEmpty(chs[..|chs| - 1]);
    }
  }

  /** Every timestamp of a loaded file. */
  function Times(data: map<string, seq<Entry>>): set<real> {
    set ch, k | ch in data && 0 <= k < |data[ch]| :: data[ch][k].time
  }

  /** The timestamps of one channel's entries. */
  function TimesOf(entries: seq<Entry>): set<real> {
    set k | 0 <= k < |entries| :: entries[k].time
  }

  /** The smaller of two optional minima, `None` standing for "no value yet". */
  function Lower(a: Option<real>, b: Option<real>): (r: Option<real>)
    ensures r.None? <==> a.None? && b.None?
    ensures r.Some? ==> (r == a || r == b)
    ensures r.Some? && a.Some? ==> r.value <= a.value
    ensures r.Some? && b.Some? ==> r.value <= b.value
  {
    match (a, b)
    case (None, _) => b
    case (_, None) => a
    case (Some(x), Some(y)) => if x <= y then a else b
  }

  /** The earliest time among some entries, `None` when there are none. */
  function EarliestOf(entries: seq<Entry>): (r: Option<real>)
    ensures r.None? <==> entries == []
    ensures r.Some? ==> r.value in TimesOf(entries) && forall t | t in TimesOf(entries) :: r.value <= t
  {
    if entries == [] then None
    else
      var init := entries[..|entries| - 1];
      assert TimesOf(entries) == TimesOf(init) + {entries[|entries| - 1].time} by {
        forall t | t in TimesOf(entries) ensures t in TimesOf(init) + {entries[|entries| - 1].time} {
          var k :| 0 <= k < |entries| && entries[k].time == t;
          if k < |init| {
            assert init[k].time == t;
          }
        }
        forall t | t in TimesOf(init) ensures t in TimesOf(entries) {
          var k :| 0 <= k < |init| && init[k].time == t;
          assert entries[k].time == t;
        }
      }
      Lower(EarliestOf(init), Some(entries[|entries| - 1].time))
  }

  /** `min(all_times) if all_times else None`: the earliest time over all channels. */
  ghost function Earliest(data: map<string, seq<Entry>>): (r: Option<real>)
    ensures r.None? <==> Times(data) == {}
    ensures r.Some? ==> r.value in Times(data) && forall t | t in Times(data) :: r.value <= t
    decreases |data|
  {
    if data == map[] then None
    else
      var ch :| ch in data;
      var rest := data - {ch};
      TimesSplit(data, ch);
      Lower(EarliestOf(data[ch]), Earliest(rest))
  }

  lemma TimesSplit(data: map<string, seq<Entry>>, ch: string)
    requires ch in data
    ensures Times(data) == TimesOf(data[ch]) + Times(data - {ch})
  {
    var rest := data - {ch};
    forall t | t in Times(data) ensures t in TimesOf(data[ch]) + Times(rest) {
      var c, k :| c in data && 0 <= k < |data[c]| && data[c][k].time == t;
      if c != ch {
        assert rest[c][k].time == t;
      }
    }
    forall t | t in Times(rest) ensures t in Times(data) {
      var c, k :| c in rest && 0 <= k < |rest[c]| && rest[c][k].time == t;
      assert data[c][k].time == t;
    }
    forall t | t in TimesOf(data[ch]) ensures t in Times(data) {
      var k :| 0 <= k < |data[ch]| && data[ch][k].time == t;
    }
  }

  /** A file's baseline: its smallest timestamp, or 0 when it has none. */
  ghost function Baseline(data: map<string, seq<Entry>>): (b: real)
    ensures Times(data) == {} ==> b == 0.0
    ensures Times(data) != {} ==> b in Times(data) && forall t | t in Times(data) :: b <= t
  {
    match Earliest(data)
    case Some(t) => t
    case None => 0.0
  }

  /** `[t - base for t, _ in entries]`. */
  function Rebased(entries: seq<Entry>, base: real): (r: seq<real>)
    ensures |r| == |entries| && forall k | 0 <= k < |r| :: r[k] == entries[k].time - base
  {
    seq(|entries|, k requires 0 <= k < |entries| => entries[k].time - base)
  }

  /**
    Rebased against its own file's baseline, no time is negative, and in a
    file with any entry some channel starts at 0.
   */
  lemma RebasedNonNegative(data: map<string, seq<Entry>>, ch: string)
    requires ch in data
    ensures forall k | 0 <= k < |data[ch]| :: Rebased(data[ch], Baseline(data))[k] >= 0.0
    ensures Times(data) != {} ==> exists c, k | c in data && 0 <= k < |data[c]| :: Rebased(data[c], Baseline(data))[k] == 0.0
  {
    var b := Baseline(data);
    forall k | 0 <= k < |data[ch]| ensures Rebased(data[ch], b)[k] >= 0.0 {
      assert data[ch][k].time in Times(data);
    }
    if Times(data) != {} {
      var c, k :| c in data && 0 <= k < |data[c]| && data[c][k].time == b;
      assert Rebased(data[c], b)[k] == 0.0;
    }
  }

  /** Every channel that appears in any of the files. */
  function AllChannels(files: seq<map<string, seq<Entry>>>): set<string> {
    set i, ch | 0 <= i < |files| && ch in files[i] :: ch
  }

  /** `sorted({ch for data in all_data for ch in data.keys()})`. */
  ghost function ChannelUnion(files: seq<map<string, seq<Entry>>>): (r: seq<string>)
    ensures forall ch :: ch in r <==> exists i | 0 <= i < |files| :: ch in files[i]
    ensures Ascending(r)
    ensures |r| == |AllChannels(files)|
  {
    SortedSet(AllChannels(files))
  }

  /** The grid is empty, and nothing is plotted, exactly when no file holds any channel. */
  lemma NoChannels(files: seq<map<string, seq<Entry>>>)
    ensures ChannelUnion(files) == [] <==> forall i | 0 <= i < |files| :: files[i] == map[]
  {
    if ChannelUnion(files) == [] {
      forall i | 0 <= i < |files| ensures files[i] == map[] {
        assert forall ch | ch in files[i] :: ch in ChannelUnion(files);
      }
    } else {
      var ch := ChannelUnion(files)[0];
      var i :| 0 <= i < |files| && ch in files[i];
      assert ch in files[i].Keys;
    }
  }

  /** Every channel of the grid has its own row: the sorted union holds no name twice. */
  lemma ChannelRowsDistinct(files: seq<map<string, seq<Entry>>>)
    ensures forall i, j | 0 <= i < j < |ChannelUnion(files)| :: ChannelUnion(files)[i] != ChannelUnion(files)[j]
  {
    SortedDistinct(ChannelUnion(files));
  }

  /** The entries drawn in one cell of the grid: `data.get(ch, [])`. */
  function Cell(data: map<string, seq<Entry>>, ch: string): (r: seq<Entry>)
    ensures ch in data ==> r == data[ch]
    ensures ch !in data ==> r == []
  {
    if ch in data then data[ch] else []
  }

  /**
    Looking a channel up in a loaded file gives its entries in file order,
    and nothing for a channel the file never mentions.
   */
  lemma CellIsSelect(readings: seq<Reading>, ch: string)
    ensures Cell(Grouped(readings), ch) == Select(readings, ch)
  {
    if ch !in ChannelsOf(readings) {
      SelectAbsent(readings, ch);
    }
  }

  /** How many series `zip(*[vals for _, vals in entries])` yields: the shortest value list. */
  function Width(entries: seq<Entry>): (w: nat)
    ensures entries != [] ==> (exists k | 0 <= k < |entries| :: w == |entries[k].values|)
    ensures forall k | 0 <= k < |entries| :: w <= |entries[k].values|
  {
    if entries == [] then 0
    else if |entries| == 1 then |entries[0].values|
    else
      var w := Width(entries[..|entries| - 1]);
      var last := |entries[|entries| - 1].values|;
      assert forall k | 0 <= k < |entries| - 1 :: entries[..|entries| - 1][k] == entries[k];
      if last < w then last else w
  }

  /** The series of a cell: series c holds the c-th value of every entry, in order. */
  function Components(entries: seq<Entry>): (r: seq<seq<real>>)
    ensures |r| == Width(entries)
    ensures forall c | 0 <= c < |r| :: |r[c]| == |entries| && forall k | 0 <= k < |entries| :: r[c][k] == entries[k].values[c]
  {
    var w := Width(entries);
    seq(w, c requires 0 <= c < w => seq(|entries|, k requires 0 <= k < |entries| => entries[k].values[c]))
  }

  /** `COMP_LABELS.get(n, [f"c{i}" for i in range(n)])`. */
  function Labels(n: nat): (r: seq<string>)
    ensures |r| == n
    ensures n == 3 ==> r == ["X", "Y", "Z"]
    ensures n == 4 ==> r == ["w", "x", "y", "z"]
    ensures n != 3 && n != 4 ==> forall i | 0 <= i < n :: r[i] == "c" + Decimal(i)
  {
    if n == 3 then ["X", "Y", "Z"]
    else if n == 4 then ["w", "x", "y", "z"]
    else seq(n, i requires 0 <= i < n => "c" + Decimal(i))
  }

  /** Every series of a cell gets a label, and no two series of a cell share one. */
  lemma LabelsDistinct(n: nat)
    ensures forall i, j | 0 <= i < j < n :: Labels(n)[i] != Labels(n)[j]
  {
    if n != 3 && n != 4 {
      forall i, j | 0 <= i < j < n ensures Labels(n)[i] != Labels(n)[j] {
        if Labels(n)[i] == Labels(n)[j] {
          CancelPrefix("c", Decimal(i), Decimal(j));
          DecimalInjective(i, j);
        }
      }
    }
  }
}
