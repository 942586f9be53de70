/**
 * The three callbacks of the app: transcribing a URL into table rows, building
 * the CSV download, and the download button's `disabled` flag. The video
 * download, the speech model and the title lookup are opaque: they come in as
 * function parameters.
 */
module Callbacks {
  import opened Wrappers
  import opened Transcript
  import Clock

  /** Python truthiness of the URL field's value: neither `None` nor empty. */
  predicate UrlGiven(url: Option<string>) {
    url.Some? && url.value != ""
  }

  /** Python truthiness of the table data: neither `None` nor an empty list. */
  predicate HasRows(data: Option<seq<Record>>) {
    data.Some? && data.value != []
  }

  /** Python truthiness of the button's click count: neither `None` nor zero. */
  predicate Clicked(nClicks: Option<int>) {
    nClicks.Some? && nClicks.value != 0
  }

  /**
   * `process_input`: for a given URL, the segments `transcribe` yields for it
   * become table rows; for a missing or empty URL nothing is fetched and the
   * result is `None`.
   */
  function ProcessInput(url: Option<string>, transcribe: string -> seq<Segment>): (data: Option<seq<Record>>)
    ensures data.Some? <==> UrlGiven(url)
    ensures data.Some? ==> |data.value| == |transcribe(url.value)|
    ensures data.Some? ==> forall i :: 0 <= i < |data.value| ==> data.value[i] == DisplayRow(transcribe(url.value)[i])
  {
    if UrlGiven(url) then Some(FormatSegments(transcribe(url.value))) else None
  }

  /** What `download_csv` hands to the browser: a file name and the frame it encodes. */
  datatype Download = Download(filename: string, frame: seq<Record>)

  /** The download's file name: the title with `.csv` appended, no character changed. */
  function CsvFilename(title: string): (name: string)
    ensures |name| == |title| + 4
    ensures name[..|title|] == title && name[|title|..] == ".csv"
  {
    title + ".csv"
  }

  /**
   * `download_csv`: a download only when the button was clicked and there are
   * rows; the title is looked up only then.
   */
  function DownloadCsv(nClicks: Option<int>, data: Option<seq<Record>>, url: Option<string>,
                       titleOf: Option<string> -> string): (d: Option<Download>)
    ensures d.Some? <==> Clicked(nClicks) && HasRows(data)
    ensures d.Some? ==> d.value.frame == data.value && d.value.filename == CsvFilename(titleOf(url))
  {
    if Clicked(nClicks) && HasRows(data) then Some(Download(CsvFilename(titleOf(url)), data.value)) else None
  }

  /** `enable_download_button`: the button is disabled exactly when there are no rows. */
  function DownloadDisabled(data: Option<seq<Record>>): (disabled: bool)
    ensures disabled <==> data.None? || data.value == []
  {
    !HasRows(data)
  }

  /** A missing or empty URL never reaches the fetcher or the transcriber. */
  lemma NoFetchWithoutUrl(url: Option<string>, t1: string -> seq<Segment>, t2: string -> seq<Segment>)
    requires !UrlGiven(url)
    ensures ProcessInput(url, t1) == None && ProcessInput(url, t2) == None
  {
  }

  /**
   * The button after a transcription: enabled exactly when a URL was given and
   * the transcriber found at least one segment, even if every segment's text is
   * empty.
   */
  lemma DisabledAfterProcessing(url: Option<string>, transcribe: string -> seq<Segment>)
    ensures DownloadDisabled(ProcessInput(url, transcribe)) <==> !UrlGiven(url) || transcribe(url.value) == []
  {
  }

  /** A click yields a download exactly when the button is enabled. */
  lemma DownloadIffEnabled(nClicks: Option<int>, data: Option<seq<Record>>, url: Option<string>,
                           titleOf: Option<string> -> string)
    requires Clicked(nClicks)
    ensures DownloadCsv(nClicks, data, url, titleOf).Some? <==> !DownloadDisabled(data)
  {
  }

  /** No download without a click, whatever the data. */
  lemma NoDownloadWithoutClick(nClicks: Option<int>, data: Option<seq<Record>>, url: Option<string>,
                               titleOf: Option<string> -> string)
    requires !Clicked(nClicks)
    ensures DownloadCsv(nClicks, data, url, titleOf) == None
  {
  }

  /** The file name is not sanitised: it ends in `.csv` and stripping that gives back the title. */
  lemma FilenameRoundTrip(title: string)
    ensures var name := CsvFilename(title); name[..|name| - 4] == title
  {
  }

  /** Transcribing a URL and clicking Download gives back the transcribed rows, in order. */
  lemma DownloadAfterProcessing(url: Option<string>, transcribe: string -> seq<Segment>, nClicks: Option<int>,
                                titleOf: Option<string> -> string)
    requires UrlGiven(url) && Clicked(nClicks) && transcribe(url.value) != []
    ensures var d := DownloadCsv(nClicks, ProcessInput(url, transcribe), url, titleOf);
      && d.Some?
      && d.value.frame == FormatSegments(transcribe(url.value))
      && d.value.filename == titleOf(url) + ".csv"
  {
  }

  /** "My Video" is downloaded as "My Video.csv". */
  lemma MyVideoExample(data: seq<Record>)
    requires data != []
    ensures DownloadCsv(Some(1), Some(data), Some("https://youtu.be/x"), _ => "My Video")
      == Some(Download("My Video.csv", data))
  {
    assert CsvFilename("My Video") == "My Video.csv";
  }
}
