/**
 * The shaping of the transcriber's segments into table rows in `process_input`:
 * a frame with the columns start, end and text; the start and end columns
 * rewritten as `%H:%M:%S` timestamps; the columns renamed; one record per row.
 */
module Transcript {
  import opened Wrappers
  import Clock

  /**
   * One segment as the transcriber emits it. Offsets are whole nanoseconds;
   * `extra` stands for the segment's other fields (id, seek, tokens, ...).
   */
  datatype Segment = Segment(start: nat, end: nat, text: string, extra: map<string, string>)

  /** A cell of the frame: a numeric offset before the timestamp rewrite, text after it. */
  datatype Cell = Offset(ns: nat) | Text(s: string)

  /** A record: its (column, cell) pairs in the record's key order. */
  type Record = seq<(string, Cell)>

  const DisplayColumns: seq<string> := ["Segment Start", "Segment End", "Transcription"]

  /** The renaming applied to the frame's columns. */
  const ColumnNames: map<string, string> := map["start" := "Segment Start", "end" := "Segment End", "text" := "Transcription"]

  function Keys(r: Record): seq<string> {
    seq(|r|, j requires 0 <= j < |r| => r[j].0)
  }

  /** The cell under `key`, first match in key order. */
  function Lookup(r: Record, key: string): Option<Cell> {
    if r == [] then None
    else if r[0].0 == key then Some(r[0].1)
    else Lookup(r[1..], key)
  }

  /** The frame row of a segment: only start, end and text are kept. */
  function Select(seg: Segment): (r: Record)
    ensures Keys(r) == ["start", "end", "text"]
    ensures r[0].1 == Offset(seg.start) && r[1].1 == Offset(seg.end) && r[2].1 == Text(seg.text)
  {
    [("start", Offset(seg.start)), ("end", Offset(seg.end)), ("text", Text(seg.text))]
  }

  /** Rewrites the offset in column `key` of one record as `HH:MM:SS` text. */
  function ClockRecord(r: Record, key: string): (r': Record)
    requires forall j :: 0 <= j < |r| && r[j].0 == key ==> r[j].1.Offset?
    ensures |r'| == |r| && Keys(r') == Keys(r)
    ensures forall j :: 0 <= j < |r| && r[j].0 != key ==> r'[j] == r[j]
    ensures forall j :: 0 <= j < |r| && r[j].0 == key ==> r'[j].1 == Text(Clock.FormatHms(r[j].1.ns))
  {
    seq(|r|, j requires 0 <= j < |r| =>
      if r[j].0 == key then (key, Text(Clock.FormatHms(r[j].1.ns))) else r[j])
  }

  predicate OffsetColumn(df: seq<Record>, key: string) {
    forall i, j :: 0 <= i < |df| && 0 <= j < |df[i]| && df[i][j].0 == key ==> df[i][j].1.Offset?
  }

  /** The whole-column rewrite: every row, in order, gets its `key` cell printed. */
  function ToClockColumn(df: seq<Record>, key: string): (df': seq<Record>)
    requires OffsetColumn(df, key)
    ensures |df'| == |df|
    ensures forall i :: 0 <= i < |df| ==> df'[i] == ClockRecord(df[i], key)
  {
    seq(|df|, i requires 0 <= i < |df| => ClockRecord(df[i], key))
  }

  /** The name a column gets: its new name if `names` has one, otherwise its own. */
  function RenamedKey(key: string, names: map<string, string>): string {
    if key in names then names[key] else key
  }

  /** Renames the columns of one record found in `names`; the others keep their name. */
  function RenameRecord(r: Record, names: map<string, string>): (r': Record)
    ensures |r'| == |r|
    ensures forall j :: 0 <= j < |r| ==> r'[j].0 == RenamedKey(r[j].0, names) && r'[j].1 == r[j].1
  {
    seq(|r|, j requires 0 <= j < |r| => (RenamedKey(r[j].0, names), r[j].1))
  }

  /** The frame rename: every row, in order, gets its columns renamed. */
  function Rename(df: seq<Record>, names: map<string, string>): (df': seq<Record>)
    ensures |df'| == |df|
    ensures forall i :: 0 <= i < |df| ==> df'[i] == RenameRecord(df[i], names)
  {
    seq(|df|, i requires 0 <= i < |df| => RenameRecord(df[i], names))
  }

  /** Reference definition: the table row a segment is displayed as. */
  function DisplayRow(seg: Segment): Record {
    [ ("Segment Start", Text(Clock.FormatHms(seg.start))),
      ("Segment End", Text(Clock.FormatHms(seg.end))),
      ("Transcription", Text(seg.text)) ]
  }

  /** The records of the formatted frame: row i is the display row of segment i. */
  function FormatSegments(segs: seq<Segment>): (rows: seq<Record>)
    ensures |rows| == |segs|
    ensures forall i :: 0 <= i < |segs| ==> rows[i] == DisplayRow(segs[i])
  {
    var df := seq(|segs|, i requires 0 <= i < |segs| => Select(segs[i]));
    var df1 := ToClockColumn(df, "start");
    assert forall i :: 0 <= i < |df1| ==> Keys(df1[i]) == ["start", "end", "text"];
    var df2 := ToClockColumn(df1, "end");
    var rows := Rename(df2, ColumnNames);
    assert forall i :: 0 <= i < |segs| ==> rows[i] == DisplayRow(segs[i]) by {
      forall i | 0 <= i < |segs| ensures rows[i] == DisplayRow(segs[i]) {
        RowSteps(segs[i]);
      }
    }
    rows
  }

  /** The steps above, on the row of one segment, give its display row. */
  lemma RowSteps(seg: Segment)
    ensures RenameRecord(ClockRecord(ClockRecord(Select(seg), "start"), "end"), ColumnNames) == DisplayRow(seg)
  {
    var r1 := ClockRecord(Select(seg), "start");
    assert r1 == [("start", Text(Clock.FormatHms(seg.start))), ("end", Offset(seg.end)), ("text", Text(seg.text))];
    var r2 := ClockRecord(r1, "end");
    assert r2 == [("start", Text(Clock.FormatHms(seg.start))), ("end", Text(Clock.FormatHms(seg.end))), ("text", Text(seg.text))];
  }

  /** A display row has exactly the three display columns, in order, holding the two
      printed offsets and the unchanged text; its timestamps parse back to the offsets'
      whole seconds modulo a day. */
  lemma DisplayRowFields(seg: Segment)
    ensures Keys(DisplayRow(seg)) == DisplayColumns
    ensures Lookup(DisplayRow(seg), "Segment Start") == Some(Text(Clock.FormatHms(seg.start)))
    ensures Lookup(DisplayRow(seg), "Segment End") == Some(Text(Clock.FormatHms(seg.end)))
    ensures Lookup(DisplayRow(seg), "Transcription") == Some(Text(seg.text))
    ensures Clock.ParseHms(Clock.FormatHms(seg.start)) == Some((seg.start / Clock.NanosPerSecond) % Clock.SecondsPerDay)
    ensures Clock.ParseHms(Clock.FormatHms(seg.end)) == Some((seg.end / Clock.NanosPerSecond) % Clock.SecondsPerDay)
  {
    var r := DisplayRow(seg);
    assert r[0].0 != "Transcription" && r[1].0 != "Transcription";
    assert Lookup(r, "Transcription") == Lookup(r[1..], "Transcription") == Lookup(r[1..][1..], "Transcription");
    assert r[1..][1..] == [("Transcription", Text(seg.text))];
    Clock.ParseFormatted(seg.start);
    Clock.ParseFormatted(seg.end);
  }

  /** Formatting works segment by segment: formatting a concatenation is concatenating
      the formatted parts, so no row is dropped, added or moved. */
  lemma FormatAppend(a: seq<Segment>, b: seq<Segment>)
    ensures FormatSegments(a + b) == FormatSegments(a) + FormatSegments(b)
  {
    var l, r := FormatSegments(a + b), FormatSegments(a) + FormatSegments(b);
    assert forall i :: 0 <= i < |l| ==> l[i] == r[i] by {
      forall i | 0 <= i < |l| ensures l[i] == r[i] {
        if i < |a| {
          assert (a + b)[i] == a[i];
        } else {
          assert (a + b)[i] == b[i - |a|];
        }
      }
    }
  }

  /** Any other fields of a segment are dropped: they do not affect the rows. */
  lemma ExtraFieldsDropped(a: seq<Segment>, b: seq<Segment>)
    requires |a| == |b|
    requires forall i :: 0 <= i < |a| ==> a[i].start == b[i].start && a[i].end == b[i].end && a[i].text == b[i].text
    ensures FormatSegments(a) == FormatSegments(b)
  {
    var l, r := FormatSegments(a), FormatSegments(b);
    assert forall i :: 0 <= i < |l| ==> l[i] == r[i];
  }

  /** A segment that starts no later than it ends, and ends within the first day, has a
      start column that sorts no later than its end column. */
  lemma StartSortsBeforeEnd(seg: Segment)
    requires seg.start <= seg.end < Clock.SecondsPerDay * Clock.NanosPerSecond
    ensures Clock.LexLeq(Clock.FormatHms(seg.start), Clock.FormatHms(seg.end))
  {
    Clock.FormatMonotoneWithinDay(seg.start, seg.end);
  }

  lemma HelloWorldRows()
    ensures DisplayRow(Segment(0, 5_000_000_000, "hello", map[]))
      == [("Segment Start", Text("00:00:00")), ("Segment End", Text("00:00:05")), ("Transcription", Text("hello"))]
    ensures DisplayRow(Segment(5_000_000_000, 10_000_000_000, "world", map[]))
      == [("Segment Start", Text("00:00:05")), ("Segment End", Text("00:00:10")), ("Transcription", Text("world"))]
  {
    Clock.FormatAt(0, 0, 0, 0);
    Clock.FormatAt(5_000_000_000, 0, 0, 5);
    Clock.FormatAt(10_000_000_000, 0, 0, 10);
    assert Clock.Pad2(0) == "00" && Clock.Pad2(5) == "05" && Clock.Pad2(10) == "10";
    assert Clock.FormatHms(0) == "00:00:00";
    assert Clock.FormatHms(5_000_000_000) == "00:00:05";
    assert Clock.FormatHms(10_000_000_000) == "00:00:10";
  }

  /** Two segments of five seconds each, "hello" and "world". */
  lemma HelloWorldExample()
    ensures FormatSegments([Segment(0, 5_000_000_000, "hello", map[]), Segment(5_000_000_000, 10_000_000_000, "world", map[])])
      == [ [("Segment Start", Text("00:00:00")), ("Segment End", Text("00:00:05")), ("Transcription", Text("hello"))],
           [("Segment Start", Text("00:00:05")), ("Segment End", Text("00:00:10")), ("Transcription", Text("world"))] ]
  {
    var segs := [Segment(0, 5_000_000_000, "hello", map[]), Segment(5_000_000_000, 10_000_000_000, "world", map[])];
    var rows := FormatSegments(segs);
    HelloWorldRows();
    assert rows[0] == DisplayRow(segs[0]);
    assert rows[1] == DisplayRow(segs[1]);
    assert rows == [rows[0], rows[1]];
  }
}
