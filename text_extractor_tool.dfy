/**
 * The text extraction page: which selected file is taken and whether it is
 * accepted, how progress reports are shown, what handleExtract leaves
 * behind, and the name of the downloaded text file.
 */
module TextExtractorTool {
  import opened PdfModel
  import opened TextExtractor

  const BadTypeMessage: string := "Please upload an image (JPG, PNG) or PDF file."
  const ExtractFailedMessage: string := "Failed to extract text. Please try again with a clearer image."
  const RecognizingDetail: string := "Recognizing text..."
  const DownloadSuffix: string := "_extracted.txt"

  /** A file as this page sees it: name, type, and what recognition makes of its content. */
  datatype SourceFile = SourceFile(name: string, mimeType: string, pdfPages: Option<seq<OcrResult>>, imageOcr: OcrResult)

  /** What handleFileSelect receives: one file (None for a falsy value) or an array of files. */
  datatype Selection = Single(file: Option<SourceFile>) | Many(files: seq<SourceFile>)

  datatype ExtractorState = ExtractorState(
    file: Option<SourceFile>,
    preview: Option<SourceFile>,     // the object URL of an image file, identified by the file
    isProcessing: bool,
    progress: int,
    progressDetail: string,
    extractedText: string,
    error: Option<string>)

  // ---------------------------------------------------------------------------
  // handleFileSelect

  /** `Array.isArray(selectedFile) ? selectedFile[0] : selectedFile`, with a falsy result as None. */
  // Its ensures only expose the definition to callers; HandleFileSelect states what it means.
  function SelectedFile(sel: Selection): (f: Option<SourceFile>)
    ensures sel.Many? && |sel.files| > 0 ==> f == Some(sel.files[0])
    ensures sel.Many? && sel.files == [] ==> f.None?
    ensures sel.Single? ==> f == sel.file
  {
    match sel
    case Single(file) => file
    case Many(files) => if files == [] then None else Some(files[0])
  }

  predicate IsAccepted(mimeType: string) {
    StartsWith(mimeType, "image/") || mimeType == "application/pdf"
  }

  /**
   * handleFileSelect: no file changes nothing; a file of another type only
   * sets the error; an accepted file replaces the current one and clears the
   * error, the text and the progress, with a preview for images only.
   */
  function HandleFileSelect(s: ExtractorState, sel: Selection): (s': ExtractorState)
    ensures SelectedFile(sel).None? ==> s' == s
    ensures SelectedFile(sel).Some? && !IsAccepted(SelectedFile(sel).value.mimeType) ==>
      s' == s.(error := Some(BadTypeMessage))
    ensures SelectedFile(sel).Some? && IsAccepted(SelectedFile(sel).value.mimeType) ==>
      var f := SelectedFile(sel).value;
      && s'.file == Some(f) && s'.error.None?
      && s'.extractedText == "" && s'.progress == 0 && s'.progressDetail == ""
      && s'.preview == (if StartsWith(f.mimeType, "image/") then Some(f) else None)
      && s'.isProcessing == s.isProcessing
  {
    var chosen := SelectedFile(sel);
    if chosen.None? then s
    else
      var f := chosen.value;
      if !StartsWith(f.mimeType, "image/") && f.mimeType != "application/pdf" then
        s.(error := Some(BadTypeMessage))
      else
        s.(file := Some(f), error := None, extractedText := "", progress := 0, progressDetail := "",
           preview := if StartsWith(f.mimeType, "image/") then Some(f) else None)
  }

  // ---------------------------------------------------------------------------
  // Progress

  /** `Math.round(((page - 1) / totalPages + pageProgress / 100 / totalPages) * 100)`. */
  function OverallProgress(page: int, totalPages: int, pageProgress: int): int
    requires totalPages > 0
  {
    var t := totalPages as real;
    Round(((page - 1) as real / t + pageProgress as real / 100.0 / t) * 100.0)
  }

  /** The unrounded value is the share of all pages' work done: (100·(page − 1) + pageProgress) / totalPages. */
  lemma OverallProgressValue(page: int, totalPages: int, pageProgress: int)
    requires totalPages > 0
    ensures OverallProgress(page, totalPages, pageProgress)
         == Round((100 * (page - 1) + pageProgress) as real / totalPages as real)
  {
    var t := totalPages as real;
    var a, b := (page - 1) as real, pageProgress as real;
    assert (a / t + b / 100.0 / t) * 100.0 == (100.0 * a + b) / t;
  }

  /** The overall percentage stays within [0, 100] for a page of the document and a page percentage in [0, 100]. */
  lemma OverallProgressBounds(page: int, totalPages: int, pageProgress: int)
    requires 1 <= page <= totalPages && 0 <= pageProgress <= 100
    ensures 0 <= OverallProgress(page, totalPages, pageProgress) <= 100
  {
    OverallProgressValue(page, totalPages, pageProgress);
    var t := totalPages as real;
    var n := (100 * (page - 1) + pageProgress) as real;
    assert 0.0 <= n <= 100.0 * t;
    QuotientBounds(n, t);
    RoundMonotone(0.0, n / t);
    RoundMonotone(n / t, 100.0);
  }

  lemma QuotientBounds(n: real, t: real)
    requires t > 0.0 && 0.0 <= n <= 100.0 * t
    ensures 0.0 <= n / t <= 100.0
  {
    assert n / t <= (100.0 * t) / t;
  }

  /** Progress starts at 0 on the first page and reaches 100 at the end of the last one. */
  lemma OverallProgressEndpoints(totalPages: int)
    requires totalPages > 0
    ensures OverallProgress(1, totalPages, 0) == 0
    ensures OverallProgress(totalPages, totalPages, 100) == 100
  {
    OverallProgressValue(1, totalPages, 0);
    OverallProgressValue(totalPages, totalPages, 100);
    var t := totalPages as real;
    assert (100 * (totalPages - 1) + 100) as real == 100.0 * t;
    assert (100.0 * t) / t == 100.0;
  }

  /** Within a page, more progress never shows a smaller overall percentage. */
  lemma OverallProgressMonotone(page: int, totalPages: int, p: int, p': int)
    requires totalPages > 0 && p <= p'
    ensures OverallProgress(page, totalPages, p) <= OverallProgress(page, totalPages, p')
  {
    OverallProgressValue(page, totalPages, p);
    OverallProgressValue(page, totalPages, p');
    var t := totalPages as real;
    var n, n' := (100 * (page - 1) + p) as real, (100 * (page - 1) + p') as real;
    QuotientMonotone(n, n', t);
    RoundMonotone(n / t, n' / t);
  }

  lemma QuotientMonotone(n: real, n': real, t: real)
    requires t > 0.0 && n <= n'
    ensures n / t <= n' / t
  {
    assert n' / t - n / t == (n' - n) / t;
  }

  /** The end of one page and the start of the next show the same percentage. */
  lemma OverallProgressContinuous(page: int, totalPages: int)
    requires totalPages > 0
    ensures OverallProgress(page, totalPages, 100) == OverallProgress(page + 1, totalPages, 0)
  {
    OverallProgressValue(page, totalPages, 100);
    OverallProgressValue(page + 1, totalPages, 0);
  }

  /** A report is well formed when a page report names a non-empty document. */
  predicate Displayable(r: ProgressReport) {
    r.PageProgress? ==> r.totalPages > 0
  }

  /** The percentage the page shows for a report: a number as it is, a page report through the overall formula. */
  function ShownProgress(r: ProgressReport): int
    requires Displayable(r)
  {
    match r
    case Percent(value) => value
    case PageProgress(page, totalPages, progress) => OverallProgress(page, totalPages, progress)
  }

  function ShownDetail(r: ProgressReport): string {
    match r
    case Percent(_) => RecognizingDetail
    case PageProgress(page, totalPages, _) =>
      "Processing page " + NatToString(page) + " of " + NatToString(totalPages) + "..."
  }

  /** The onProgress callback of handleExtract. */
  function OnProgress(s: ExtractorState, r: ProgressReport): ExtractorState
    requires Displayable(r)
  {
    s.(progress := ShownProgress(r), progressDetail := ShownDetail(r))
  }

  /** The state after a run of reports, applied in order. */
  function ApplyReports(s: ExtractorState, rs: seq<ProgressReport>): (t: ExtractorState)
    requires forall k :: 0 <= k < |rs| ==> Displayable(rs[k])
    ensures rs == [] ==> t == s
    ensures rs != [] ==>
      t == s.(progress := ShownProgress(rs[|rs| - 1]), progressDetail := ShownDetail(rs[|rs| - 1]))
  {
    if rs == [] then s else OnProgress(ApplyReports(s, rs[..|rs| - 1]), rs[|rs| - 1])
  }

  /**
   * Every percentage shown while a PDF is processed lies in [0, 100], given
   * recogniser progress in [0, 1].
   */
  lemma PdfProgressShownInRange(pages: seq<OcrResult>)
    requires forall i, j :: 0 <= i < |pages| && 0 <= j < |pages[i].log| ==> 0.0 <= pages[i].log[j].progress <= 1.0
    ensures var rs := PdfReports(pages, |pages|);
            forall k :: 0 <= k < |rs| ==> Displayable(rs[k]) && 0 <= ShownProgress(rs[k]) <= 100
  {
    var rs := PdfReports(pages, |pages|);
    PdfReportsInPageOrder(pages, |pages|);
    PdfReportsProgressInRange(pages, |pages|);
    forall k | 0 <= k < |rs|
      ensures Displayable(rs[k]) && 0 <= ShownProgress(rs[k]) <= 100
    {
      OverallProgressBounds(rs[k].page, rs[k].totalPages, rs[k].progress);
    }
  }

  /**
   * For an image every report is a plain number shown as it is: the
   * percentage lies in [0, 100] and the detail line reads
   * "Recognizing text...", given recogniser progress in [0, 1].
   */
  lemma ImageProgressShownInRange(log: seq<LoggerMessage>)
    requires forall i :: 0 <= i < |log| ==> 0.0 <= log[i].progress <= 1.0
    ensures var rs := AsPercent(ImageReports(log));
            forall k :: 0 <= k < |rs| ==>
              && Displayable(rs[k]) && 0 <= ShownProgress(rs[k]) <= 100
              && ShownDetail(rs[k]) == RecognizingDetail
  {
    ImageReportsInRange(log);
  }

  // ---------------------------------------------------------------------------
  // handleExtract

  /**
   * handleExtract: nothing happens without a file; otherwise the reports of
   * extractText are shown as they come, then its text or the generic error
   * is recorded, and in every outcome processing ends with progress at 100.
   */
  method HandleExtract(s: ExtractorState) returns (s': ExtractorState)
    ensures s.file.None? ==> s' == s
    ensures s.file.Some? ==>
      var f := s.file.value;
      && s'.file == s.file && s'.preview == s.preview
      && !s'.isProcessing && s'.progress == 100
      && (f.mimeType == "application/pdf" && f.pdfPages.Some? ==>
            s'.extractedText == Trim(FullText(f.pdfPages.value)) && s'.error.None?)
      && (f.mimeType != "application/pdf" && StartsWith(f.mimeType, "image/") ==>
            s'.extractedText == f.imageOcr.text && s'.error.None?)
      && ((f.mimeType == "application/pdf" && f.pdfPages.None?) || !IsAccepted(f.mimeType) ==>
            s'.extractedText == "" && s'.error == Some(ExtractFailedMessage))
    // The detail line is never reset here: a run without reports leaves the
    // previous run's detail, otherwise the last report's detail stays.
    ensures s.file.Some? ==>
      var f := s.file.value;
      var rs := if f.mimeType == "application/pdf" then
                  (if f.pdfPages.Some? then PdfReports(f.pdfPages.value, |f.pdfPages.value|) else [])
                else if StartsWith(f.mimeType, "image/") then AsPercent(ImageReports(f.imageOcr.log))
                else [];
      s'.progressDetail == (if rs == [] then s.progressDetail else ShownDetail(rs[|rs| - 1]))
  {
    if s.file.None? {
      return s;
    }
    var file := s.file.value;
    s' := s.(error := None, isProcessing := true, progress := 0, extractedText := "");
    var result, reports := ExtractText(file.mimeType, file.pdfPages, file.imageOcr);
    if file.mimeType == "application/pdf" && file.pdfPages.Some? {
      PdfReportsInPageOrder(file.pdfPages.value, |file.pdfPages.value|);
    }
    s' := ApplyReports(s', reports);
    if result.Success? {
      s' := s'.(extractedText := result.value.text);
    } else {
      s' := s'.(error := Some(ExtractFailedMessage));
    }
    s' := s'.(isProcessing := false, progress := 100);
  }

  // ---------------------------------------------------------------------------
  // Download name: `name.replace(/\.[^/.]+$/, '') + '_extracted.txt'`

  /** The pattern matches at `i`: a dot, then one or more characters to the end, none of them '/' or '.'. */
  predicate MatchesAt(s: string, i: int) {
    0 <= i < |s| - 1 && s[i] == '.' && forall j :: i < j < |s| ==> s[j] != '/' && s[j] != '.'
  }

  /** The pattern matches in at most one place, so which match is replaced is never in doubt. */
  lemma MatchIsUnique(s: string, i: int, j: int)
    requires MatchesAt(s, i) && MatchesAt(s, j)
    ensures i == j
  {
  }

  /** Scan back from `k` over characters that are neither '/' nor '.'. */
  function ScanBack(s: string, k: int): (r: Option<nat>)
    requires -1 <= k < |s|
    requires forall j :: k < j < |s| ==> s[j] != '/' && s[j] != '.'
    ensures r.Some? ==> MatchesAt(s, r.value)
    ensures r.None? ==> forall i :: 0 <= i <= k ==> !MatchesAt(s, i)
    decreases k + 1
  {
    if k < 0 then None
    else if s[k] == '.' then (if k < |s| - 1 then Some(k) else None)
    else if s[k] == '/' then None
    else ScanBack(s, k - 1)
  }

  /** Where the pattern matches, if it does. */
  function ExtensionStart(s: string): (r: Option<nat>)
    ensures r.Some? ==> MatchesAt(s, r.value)
    ensures r.None? ==> forall i :: 0 <= i < |s| ==> !MatchesAt(s, i)
  {
    ScanBack(s, |s| - 1)
  }

  /** The name with the matched extension removed: everything before the match, or the whole name. */
  function StripExtension(name: string): (r: string)
    ensures (exists i :: MatchesAt(name, i)) ==> exists i :: MatchesAt(name, i) && r == name[..i]
    ensures (forall i :: !MatchesAt(name, i)) ==> r == name
  {
    var e := ExtensionStart(name);
    if e.Some? then name[..e.value] else name
  }

  function DownloadName(name: string): string {
    StripExtension(name) + DownloadSuffix
  }

  /** Only the last extension goes: "a.tar.gz" downloads as "a.tar_extracted.txt". */
  lemma StripsOnlyLastExtension()
    ensures StripExtension("a.tar.gz") == "a.tar"
  {
    var n := "a.tar.gz";
    assert ScanBack(n, 7) == ScanBack(n, 6) == ScanBack(n, 5) == Some(5);
    assert n[..5] == "a.tar";
  }

  /** A name without a dot, ending in a dot, or with its last dot in a directory part keeps its whole base. */
  lemma KeepsBaseWithoutExtension()
    ensures StripExtension("scan") == "scan"
    ensures StripExtension("scan.") == "scan."
    ensures StripExtension("v1.2/scan") == "v1.2/scan"
  {
    var nested := "v1.2/scan";
    assert ScanBack(nested, 8) == ScanBack(nested, 7) == ScanBack(nested, 6) == ScanBack(nested, 5) == ScanBack(nested, 4) == None;
  }

  /** A name that is all extension loses all of it. */
  lemma DotNameLosesEverything()
    ensures StripExtension(".png") == ""
  {
    var n := ".png";
    assert ScanBack(n, 3) == ScanBack(n, 2) == ScanBack(n, 1) == ScanBack(n, 0) == Some(0);
  }
}
