# YouTube Transcriber — a Dafny model of its callbacks

The app takes a YouTube URL, downloads the audio, transcribes it with Whisper
and shows the segments in a table with the columns `Segment Start`,
`Segment End` and `Transcription`; a button downloads the table as a CSV file
named after the video. Everything in `app.py` that is not a call into pytube,
Whisper, pandas' CSV writer or Dash is modelled here:

- `clock.dfy` (module `Clock`): the timestamp rewrite of a segment offset.
  The offset is read as a time after the 1970-01-01 epoch and printed as its
  time of day with `%H:%M:%S`. Offsets are whole nanoseconds, the resolution
  of pandas timestamps, so dropping the fraction of a second is integer
  division. Also a parser for `HH:MM:SS` and Python's string order, both used
  to state properties.
- `transcript.dfy` (module `Transcript`): the frame built from the segments
  with the columns start, end and text, the two column rewrites, the rename
  and the conversion to records. A record is the ordered list of its
  (column, cell) pairs. `DisplayRow` is an independent definition of the row
  of one segment, and `FormatSegments` is proved to produce it row by row.
- `callbacks.dfy` (module `Callbacks`): `process_input`, `download_csv` and
  `enable_download_button`, with Python truthiness written out for `None`,
  empty strings, empty lists and a zero click count. Fetch plus transcription
  and the title lookup are function parameters.
- `wrappers.dfy` (module `Wrappers`): `Option`, standing for Python's `None`.

Some behaviours of `app.py` differ from what one might expect; the model
follows the code:

- For a missing or empty URL, `process_input` returns `None`. One might
  expect the previous table to be kept. Whether Dash keeps or clears the
  table on a `None` result is framework behaviour, so only the `None` result
  is modelled.
- One might expect a start time never to sort after its end time as a
  string. That holds only within the first 24 hours. `Clock.OrderLostAtMidnight`
  shows `23:59:59` sorting after the `00:00:00` one second later, and
  `Transcript.StartSortsBeforeEnd` needs the end offset to lie within the
  first day.
- The CSV does not have exactly three header fields: pandas' `to_csv`
  writes an extra unnamed index column, and it uses the platform's line
  terminator. The CSV bytes are not modelled; the download
  carries the frame it encodes.
- There are no error kinds of the app's own: exceptions from pytube and
  Whisper propagate out of the callback.

## Model

| member | source | states |
|---|---|---|
| `Clock.Pad2` | app.py:87-88 | a field below 100 is written with exactly two digits, and reading them back gives the number |
| `Clock.SecondOfDay` | app.py:87-88 | the time of day of an offset is below 86400 seconds, and equals the whole seconds of the offset within the first day |
| `Clock.FormatHms` | app.py:87-88 | every printed timestamp is `HH:MM:SS`: 8 characters, colons at 2 and 5, two-digit fields, HH < 24, MM < 60, SS < 60 |
| `Clock.ParseHms` | app.py:87-88 | parsing succeeds exactly on well-formed `HH:MM:SS` strings and yields a second of the day |
| `Clock.ParseFormatted` | app.py:87-88 | round trip: parsing the printed time gives floor(offset in seconds) mod 86400 |
| `Clock.FormatParsed` | app.py:87-88 | reverse round trip: every well-formed `HH:MM:SS` is printed for the second it denotes, so the formatter reaches every clock string |
| `Clock.TruncatesFraction` | app.py:87-88 | fractions of a second are dropped, not rounded: any offset within a second prints like the whole second |
| `Clock.WrapsDaily` | app.py:87-88 | offsets of 24 hours or more wrap: adding whole days does not change the printed time |
| `Clock.FormatMonotoneWithinDay` | app.py:87-88 | within the first day, a smaller offset never prints a string that sorts after a larger offset's string |
| `Clock.OrderLostAtMidnight` | app.py:87-88 | across midnight the string order is lost: 86399 s prints `23:59:59`, which sorts after the `00:00:00` printed for 86400 s |
| `Clock.ExampleMidnight` | app.py:87-88 | offset 0 prints `00:00:00` |
| `Clock.ExampleTruncation` | app.py:87-88 | 3661.9 s prints `01:01:01` and 0.99 s prints `00:00:00` |
| `Clock.ExampleWrap` | app.py:87-88 | 86399 s prints `23:59:59` and 86400 s prints `00:00:00` |
| `Transcript.Select` | app.py:86 | the frame row of a segment has exactly the columns start, end, text, in that order, holding the start offset, the end offset and the text; every other field of the segment is dropped |
| `Transcript.ClockRecord` | app.py:87-88 | on one record, the rewrite keeps the length and the keys, prints the offset in the named column as `HH:MM:SS`, and leaves every other cell unchanged |
| `Transcript.ToClockColumn` | app.py:87-88 | the whole-column rewrite keeps the number and order of the rows and rewrites each of them as `ClockRecord` states |
| `Transcript.RenameRecord` | app.py:89 | on one record, renaming keeps the length; each column found in the renaming map gets its new name, the others keep theirs, and every cell is unchanged |
| `Transcript.Rename` | app.py:89 | the frame rename keeps the number and order of the rows and renames each of them as `RenameRecord` states |
| `Transcript.RowSteps` | app.py:86-89 | selecting, rewriting start, rewriting end and renaming the row of one segment gives its display row |
| `Transcript.FormatSegments` | app.py:86-90 | one record per segment, in input order, none filtered out; record i is the display row of segment i |
| `Transcript.DisplayRowFields` | app.py:86-90 | a row has exactly the keys `Segment Start`, `Segment End`, `Transcription` in that order, holding the printed offsets and the text unchanged; its timestamps parse back to the offsets' whole seconds mod 86400 |
| `Transcript.FormatAppend` | app.py:86-90 | formatting a concatenation is the concatenation of the formatted parts: a pure, order-preserving map |
| `Transcript.ExtraFieldsDropped` | app.py:86 | any field of a segment other than start, end and text has no effect on the rows |
| `Transcript.StartSortsBeforeEnd` | app.py:87-88 | a segment with start <= end that ends within the first day has a start column sorting no later than its end column |
| `Transcript.HelloWorldExample` | app.py:86-90 | segments (0 s, 5 s, "hello") and (5 s, 10 s, "world") give the rows 00:00:00/00:00:05/hello and 00:00:05/00:00:10/world |
| `Callbacks.ProcessInput` | app.py:79-91 | there are rows exactly when the URL is neither `None` nor empty; then one row per transcribed segment, row i being the display row of segment i |
| `Callbacks.NoFetchWithoutUrl` | app.py:79-83 | for a missing or empty URL, the result is `None` whatever the fetcher and transcriber would do |
| `Callbacks.CsvFilename` | app.py:117 | the file name is the title followed by `.csv`, with no character of the title changed |
| `Callbacks.FilenameRoundTrip` | app.py:117 | stripping the four-character extension from the file name gives back the title |
| `Callbacks.DownloadCsv` | app.py:113-118 | a download exists exactly when the click count is truthy and the data is a non-empty list; it then carries the data unchanged and the title's `.csv` file name |
| `Callbacks.NoDownloadWithoutClick` | app.py:113 | with a click count of `None` or 0 there is no download, whatever the data |
| `Callbacks.DownloadDisabled` | app.py:131 | the button is disabled exactly when the data is `None` or an empty list |
| `Callbacks.DownloadIffEnabled` | app.py:113 | after a click, a download is produced exactly when the button is enabled |
| `Callbacks.DisabledAfterProcessing` | app.py:131 | after `process_input`, the button is enabled exactly when a URL was given and at least one segment came back, even if every segment's text is empty |
| `Callbacks.DownloadAfterProcessing` | app.py:113-117 | transcribing a URL with at least one segment and then clicking yields the formatted rows, in order, under the file name `title + ".csv"` |
| `Callbacks.MyVideoExample` | app.py:117 | the title "My Video" gives the file name `My Video.csv` |

## Left out

- Video retrieval with pytube (app.py:81) and the title lookup (app.py:114) are network I/O. The audio, including the fixed temporary file `yt_audio.mp4`, is not modelled. The title is the value of a function parameter.
- Loading and running the Whisper model (app.py:82-83) is ML inference. Its segments are the value of a function parameter.
- Exceptions raised by pytube or Whisper propagate out of the callbacks in the source. The model has no error path for them.
- Floating-point offsets: pandas turns float seconds into integer nanoseconds. The model takes whole non-negative nanoseconds, so float rounding in that conversion is not captured.
- Clock.FormatHms: it is total on all non-negative offsets. pandas raises for timestamps beyond its 64-bit nanosecond range, about 292 years, and that is not modelled.
- Negative offsets are not modelled. The transcriber does not produce them.
- The CSV bytes written by `df.to_csv` and `dcc.send_data_frame` (app.py:115-117) are library code. The download carries the frame and the file name only.
- Dash layout, styling, callback wiring and the server start (app.py:9-65, 93-99, 120-124, 135-136) are UI plumbing.
