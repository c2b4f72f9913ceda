/**
 * Text extraction (extractText, extractTextFromPdf, extractTextFromImage):
 * dispatch on the MIME type, and for a PDF assemble the per-page OCR texts
 * under "--- Page n ---" headers in page order.  Rendering and recognition
 * are outside the model: what the recogniser returns for each page, and the
 * progress messages it logs, are inputs.
 */
module TextExtractor {
  import opened PdfModel

  /** A message the recogniser passes to its logger. */
  datatype LoggerMessage = LoggerMessage(status: string, progress: real)

  /** What the recogniser returns for one image, with the messages it logged on the way. */
  datatype OcrResult = OcrResult(text: string, confidence: real, log: seq<LoggerMessage>)

  /** One call of the caller's onProgress callback. */
  datatype ProgressReport =
    | Percent(value: int)                                      // image: a number
    | PageProgress(page: nat, totalPages: nat, progress: int)  // PDF: {page, totalPages, progress}

  datatype PageText = PageText(pageNumber: nat, text: string, confidence: real)

  datatype Extraction =
    | PdfExtraction(text: string, pages: seq<PageText>)      // type 'pdf'
    | ImageExtraction(text: string, confidence: real)        // type 'image'

  const RecognizingText: string := "recognizing text"

  // ---------------------------------------------------------------------------
  // String helpers: String.prototype.trim and decimal rendering

  /** ECMAScript WhiteSpace and LineTerminator code points, the characters `trim` removes. */
  predicate IsJsWhitespace(c: char) {
    || c == '\U{0009}' || c == '\U{000A}' || c == '\U{000B}' || c == '\U{000C}' || c == '\U{000D}'
    || c == '\U{0020}' || c == '\U{00A0}' || c == '\U{1680}' || ('\U{2000}' <= c <= '\U{200A}')
    || c == '\U{2028}' || c == '\U{2029}' || c == '\U{202F}' || c == '\U{205F}'
    || c == '\U{3000}' || c == '\U{FEFF}'
  }

  /** `s` without its leading whitespace. */
  function TrimStart(s: string): (r: string)
    ensures |r| <= |s| && r == s[|s| - |r|..]
    ensures forall i :: 0 <= i < |s| - |r| ==> IsJsWhitespace(s[i])
    ensures r == [] || !IsJsWhitespace(r[0])
  {
    if |s| > 0 && IsJsWhitespace(s[0]) then TrimStart(s[1..]) else s
  }

  /** `s` without its trailing whitespace. */
  function TrimEnd(s: string): (r: string)
    ensures |r| <= |s| && r == s[..|r|]
    ensures forall i :: |r| <= i < |s| ==> IsJsWhitespace(s[i])
    ensures r == [] || !IsJsWhitespace(r[|r| - 1])
  {
    if |s| > 0 && IsJsWhitespace(s[|s| - 1]) then TrimEnd(s[..|s| - 1]) else s
  }

  function Trim(s: string): string {
    TrimEnd(TrimStart(s))
  }

  function DigitChar(d: nat): char
    requires d < 10
  {
    ('0' as int + d) as char
  }

  function DigitValue(c: char): int {
    c as int - '0' as int
  }

  /** The number a string of decimal digits stands for, most significant digit first. */
  function DecimalValue(s: string): int {
    if s == [] then 0 else DecimalValue(s[..|s| - 1]) * 10 + DigitValue(s[|s| - 1])
  }

  /**
   * Decimal rendering of a natural number, as template literals print it:
   * digits only, without leading zeros, and reading back as `n`.
   */
  function NatToString(n: nat): (s: string)
    ensures |s| > 0
    ensures forall i :: 0 <= i < |s| ==> '0' <= s[i] <= '9'
    ensures DecimalValue(s) == n
    ensures n > 0 ==> s[0] != '0'
    ensures |s| > 1 ==> s[0] != '0'
  {
    if n < 10 then
      var s := [DigitChar(n)];
      assert s[..0] == [];
      s
    else
      var t := NatToString(n / 10);
      var s := t + [DigitChar(n % 10)];
      assert s[..|s| - 1] == t;
      s
  }

  // ---------------------------------------------------------------------------
  // Text assembly

  function PageHeader(pageNum: nat): string {
    "--- Page " + NatToString(pageNum) + " ---"
  }

  /** What one page adds to fullText. */
  function PageBlock(pageNum: nat, text: string): string {
    PageHeader(pageNum) + "\n" + text + "\n\n"
  }

  /** fullText after pages 1..|ocr|: their blocks, in page order. */
  function FullText(ocr: seq<OcrResult>): string {
    if ocr == [] then "" else FullText(ocr[..|ocr| - 1]) + PageBlock(|ocr|, ocr[|ocr| - 1].text)
  }

  /** The text the pages array spells out: each entry's block, in array order. */
  function BlocksOf(pages: seq<PageText>): string {
    if pages == [] then ""
    else BlocksOf(pages[..|pages| - 1]) + PageBlock(pages[|pages| - 1].pageNumber, pages[|pages| - 1].text)
  }

  /** The pages array after pages 1..|ocr|. */
  // Its ensures only expose the definition to callers; the lemmas below state what it means.
  function PageTexts(ocr: seq<OcrResult>): (pages: seq<PageText>)
    ensures |pages| == |ocr|
    ensures forall i :: 0 <= i < |ocr| ==> pages[i] == PageText(i + 1, ocr[i].text, ocr[i].confidence)
  {
    seq(|ocr|, i requires 0 <= i < |ocr| => PageText(i + 1, ocr[i].text, ocr[i].confidence))
  }

  // ---------------------------------------------------------------------------
  // Progress

  /** The logger of extractTextFromImage: reports only while recognising, and only a truthy progress. */
  // Its ensures only expose the definition to callers; the lemmas below state what it means.
  function ImageProgress(m: LoggerMessage): (r: Option<int>)
    ensures r.Some? <==> m.status == RecognizingText && m.progress != 0.0
    ensures r.Some? ==> r.value == Round(m.progress * 100.0)
  {
    if m.status == RecognizingText && m.progress != 0.0 then Some(Round(m.progress * 100.0)) else None
  }

  /** The percentages an image's recognition reports, in order. */
  function ImageReports(log: seq<LoggerMessage>): seq<int> {
    if log == [] then []
    else
      var last := ImageProgress(log[|log| - 1]);
      ImageReports(log[..|log| - 1]) + (if last.Some? then [last.value] else [])
  }

  // Its ensures only expose the definition to callers; the lemmas below state what it means.
  function AsPageProgress(page: nat, totalPages: nat, reports: seq<int>): (r: seq<ProgressReport>)
    ensures |r| == |reports|
    ensures forall k :: 0 <= k < |r| ==> r[k] == PageProgress(page, totalPages, reports[k])
  {
    seq(|reports|, k requires 0 <= k < |reports| => PageProgress(page, totalPages, reports[k]))
  }

  /** The image path hands each percentage to onProgress as a plain number. */
  // Its ensures only expose the definition to callers; the lemmas below state what it means.
  function AsPercent(reports: seq<int>): (r: seq<ProgressReport>)
    ensures |r| == |reports|
    ensures forall k :: 0 <= k < |r| ==> r[k] == Percent(reports[k])
  {
    seq(|reports|, k requires 0 <= k < |reports| => Percent(reports[k]))
  }

  /** What the PDF path reports for pages 1..|done|, out of `totalPages`. */
  function PdfReports(done: seq<OcrResult>, totalPages: nat): seq<ProgressReport> {
    if done == [] then []
    else PdfReports(done[..|done| - 1], totalPages)
         + AsPageProgress(|done|, totalPages, ImageReports(done[|done| - 1].log))
  }

  // ---------------------------------------------------------------------------
  // The operations

  /**
   * extractTextFromPdf: for pageNum = 1..totalPages, recognise the page,
   * record it in `pages` and append its block to fullText; return fullText trimmed.
   */
  method ExtractTextFromPdf(pageOcr: seq<OcrResult>) returns (text: string, pages: seq<PageText>, reports: seq<ProgressReport>)
    ensures text == Trim(FullText(pageOcr))
    ensures pages == PageTexts(pageOcr)
    ensures text == Trim(BlocksOf(pages))
    ensures reports == PdfReports(pageOcr, |pageOcr|)
  {
    var totalPages := |pageOcr|;
    pages := [];
    reports := [];
    var fullText := "";
    var pageNum := 1;
    while pageNum <= totalPages
      invariant 1 <= pageNum <= totalPages + 1
      invariant fullText == FullText(pageOcr[..pageNum - 1])
      invariant pages == PageTexts(pageOcr[..pageNum - 1])
      invariant reports == PdfReports(pageOcr[..pageNum - 1], totalPages)
    {
      var pageResult := pageOcr[pageNum - 1];
      reports := reports + AsPageProgress(pageNum, totalPages, ImageReports(pageResult.log));
      pages := pages + [PageText(pageNum, pageResult.text, pageResult.confidence)];
      fullText := fullText + ("--- Page " + NatToString(pageNum) + " ---\n" + pageResult.text + "\n\n");
      assert pageOcr[..pageNum][..pageNum - 1] == pageOcr[..pageNum - 1];
      pageNum := pageNum + 1;
    }
    assert pageOcr[..pageNum - 1] == pageOcr;
    FullTextFromPages(pageOcr);
    text := Trim(fullText);
  }

  /**
   * extractText: a PDF goes through the page loop, any other `image/` type
   * straight to the recogniser, anything else is rejected.  `pdfPages` is
   * what the recogniser returns for each rendered page, None when pdf.js
   * cannot open the bytes.
   */
  method ExtractText(mimeType: string, pdfPages: Option<seq<OcrResult>>, imageOcr: OcrResult)
    returns (r: Result<Extraction, Error>, reports: seq<ProgressReport>)
    ensures mimeType == "application/pdf" && pdfPages.None? ==> r == Failure(LoadFailed) && reports == []
    ensures mimeType == "application/pdf" && pdfPages.Some? ==>
      && r == Success(PdfExtraction(Trim(FullText(pdfPages.value)), PageTexts(pdfPages.value)))
      && reports == PdfReports(pdfPages.value, |pdfPages.value|)
    ensures mimeType != "application/pdf" && StartsWith(mimeType, "image/") ==>
      && r == Success(ImageExtraction(imageOcr.text, imageOcr.confidence))
      && reports == AsPercent(ImageReports(imageOcr.log))
    ensures mimeType != "application/pdf" && !StartsWith(mimeType, "image/") ==>
      r == Failure(UnsupportedFileType(mimeType)) && reports == []
  {
    if mimeType == "application/pdf" {
      if pdfPages.None? {
        return Failure(LoadFailed), [];
      }
      var text, pages;
      text, pages, reports := ExtractTextFromPdf(pdfPages.value);
      r := Success(PdfExtraction(text, pages));
    } else if StartsWith(mimeType, "image/") {
      reports := AsPercent(ImageReports(imageOcr.log));
      r := Success(ImageExtraction(imageOcr.text, imageOcr.confidence));
    } else {
      reports := [];
      r := Failure(UnsupportedFileType(mimeType));
    }
  }

  // ---------------------------------------------------------------------------
  // Properties

  /** Every page report names a page in 1..totalPages and the fixed total, and page numbers never go back. */
  lemma {:induction false} PdfReportsInPageOrder(done: seq<OcrResult>, totalPages: nat)
    ensures forall k :: 0 <= k < |PdfReports(done, totalPages)| ==>
              && PdfReports(done, totalPages)[k].PageProgress?
              && PdfReports(done, totalPages)[k].totalPages == totalPages
              && 1 <= PdfReports(done, totalPages)[k].page <= |done|
    ensures forall k, l :: 0 <= k < l < |PdfReports(done, totalPages)| ==>
              PdfReports(done, totalPages)[k].page <= PdfReports(done, totalPages)[l].page
  {
    if done != [] {
      var init := done[..|done| - 1];
      PdfReportsInPageOrder(init, totalPages);
      var front := PdfReports(init, totalPages);
      var back := AsPageProgress(|done|, totalPages, ImageReports(done[|done| - 1].log));
      var rs := PdfReports(done, totalPages);
      assert rs == front + back;
      assert forall k :: 0 <= k < |front| ==>
        front[k].PageProgress? && front[k].totalPages == totalPages && 1 <= front[k].page <= |init|;
      assert forall k, l :: 0 <= k < l < |front| ==> front[k].page <= front[l].page;
      assert forall k :: 0 <= k < |back| ==> back[k].PageProgress? && back[k].page == |done| && back[k].totalPages == totalPages;
      forall k | 0 <= k < |rs|
        ensures rs[k].PageProgress? && rs[k].totalPages == totalPages && 1 <= rs[k].page <= |done|
      {
        if k < |front| { assert rs[k] == front[k]; } else { assert rs[k] == back[k - |front|]; }
      }
      forall k, l | 0 <= k < l < |rs|
        ensures rs[k].page <= rs[l].page
      {
        if l < |front| {
          assert rs[k] == front[k] && rs[l] == front[l];
        } else if k < |front| {
          assert rs[k] == front[k] && rs[l] == back[l - |front|];
        } else {
          assert rs[k] == back[k - |front|] && rs[l] == back[l - |front|];
        }
      }
    }
  }

  /**
   * The text and the pages array agree: the assembled text is exactly the
   * pages' blocks, each under its own page number, in array order.
   */
  lemma {:induction false} FullTextFromPages(ocr: seq<OcrResult>)
    ensures FullText(ocr) == BlocksOf(PageTexts(ocr))
  {
    if ocr != [] {
      var n := |ocr| - 1;
      FullTextFromPages(ocr[..n]);
      assert PageTexts(ocr)[..n] == PageTexts(ocr[..n]);
    }
  }

  /** A logger message the image path passes on. */
  predicate Reported(m: LoggerMessage) {
    m.status == RecognizingText && m.progress != 0.0
  }

  /**
   * The reports are recognition progress only: every percentage reported is
   * Math.round(100 · progress) of a message that is recognising text with a
   * non-zero progress.
   */
  lemma {:induction false} ReportsComeFromRecognition(log: seq<LoggerMessage>)
    ensures forall k :: 0 <= k < |ImageReports(log)| ==>
      exists i :: 0 <= i < |log| && Reported(log[i]) && ImageReports(log)[k] == Round(log[i].progress * 100.0)
  {
    if log == [] {
      assert ImageReports(log) == [];
    } else {
      var n := |log| - 1;
      var init := log[..n];
      ReportsComeFromRecognition(init);
      var r, r' := ImageReports(log), ImageReports(init);
      assert r == r' + (if Reported(log[n]) then [Round(log[n].progress * 100.0)] else []);
      forall k | 0 <= k < |r|
        ensures exists i :: 0 <= i < |log| && Reported(log[i]) && r[k] == Round(log[i].progress * 100.0)
      {
        if k < |r'| {
          var i :| 0 <= i < |init| && Reported(init[i]) && r'[k] == Round(init[i].progress * 100.0);
          assert log[i] == init[i];
        } else {
          assert Reported(log[n]) && r[k] == Round(log[n].progress * 100.0);
        }
      }
    }
  }

  /** How many messages of `log` are passed on. */
  function CountReported(log: seq<LoggerMessage>): nat {
    if log == [] then 0 else CountReported(log[..|log| - 1]) + (if Reported(log[|log| - 1]) then 1 else 0)
  }

  /**
   * Every message recognising text with a non-zero progress is reported, as
   * the report numbered by how many such messages came before it; so there
   * is one report per such message.
   */
  lemma {:induction false} RecognitionIsReported(log: seq<LoggerMessage>)
    ensures |ImageReports(log)| == CountReported(log)
    ensures forall i :: 0 <= i < |log| && Reported(log[i]) ==>
      && CountReported(log[..i]) < |ImageReports(log)|
      && ImageReports(log)[CountReported(log[..i])] == Round(log[i].progress * 100.0)
  {
    if log != [] {
      var n := |log| - 1;
      var init := log[..n];
      RecognitionIsReported(init);
      var r, r' := ImageReports(log), ImageReports(init);
      assert r == r' + (if Reported(log[n]) then [Round(log[n].progress * 100.0)] else []);
      forall i | 0 <= i < |log| && Reported(log[i])
        ensures CountReported(log[..i]) < |r| && r[CountReported(log[..i])] == Round(log[i].progress * 100.0)
      {
        if i < n {
          assert init[i] == log[i];
          assert init[..i] == log[..i];
        } else {
          assert log[..i] == init;
        }
      }
    }
  }

  /** Reports keep the order of the log: the messages of an earlier stretch are reported first. */
  lemma {:induction false} ImageReportsOfConcat(a: seq<LoggerMessage>, b: seq<LoggerMessage>)
    ensures ImageReports(a + b) == ImageReports(a) + ImageReports(b)
  {
    if b == [] {
      assert a + b == a;
    } else {
      var n := |b| - 1;
      assert (a + b)[..|a + b| - 1] == a + b[..n];
      ImageReportsOfConcat(a, b[..n]);
    }
  }

  /** Every percentage an image reports, for recogniser progress in [0, 1], is in [0, 100]. */
  lemma {:induction false} ImageReportsInRange(log: seq<LoggerMessage>)
    requires forall i :: 0 <= i < |log| ==> 0.0 <= log[i].progress <= 1.0
    ensures forall k :: 0 <= k < |ImageReports(log)| ==> 0 <= ImageReports(log)[k] <= 100
  {
    if log != [] {
      var m := log[|log| - 1];
      ImageReportsInRange(log[..|log| - 1]);
      RoundMonotone(0.0, m.progress * 100.0);
      RoundMonotone(m.progress * 100.0, 100.0);
    }
  }

  /** With recogniser progress in [0, 1], every page report of the PDF path carries a percentage in [0, 100]. */
  lemma {:induction false} PdfReportsProgressInRange(done: seq<OcrResult>, totalPages: nat)
    requires forall i, j :: 0 <= i < |done| && 0 <= j < |done[i].log| ==> 0.0 <= done[i].log[j].progress <= 1.0
    ensures forall k :: 0 <= k < |PdfReports(done, totalPages)| ==>
              PdfReports(done, totalPages)[k].PageProgress? && 0 <= PdfReports(done, totalPages)[k].progress <= 100
  {
    if done != [] {
      var init := done[..|done| - 1];
      var last := done[|done| - 1];
      PdfReportsProgressInRange(init, totalPages);
      ImageReportsInRange(last.log);
      var front := PdfReports(init, totalPages);
      var back := AsPageProgress(|done|, totalPages, ImageReports(last.log));
      var rs := PdfReports(done, totalPages);
      assert rs == front + back;
      forall k | 0 <= k < |rs|
        ensures rs[k].PageProgress? && 0 <= rs[k].progress <= 100
      {
        if k < |front| { assert rs[k] == front[k]; } else { assert rs[k] == back[k - |front|]; }
      }
    }
  }

  /** The assembled text opens with the first page's block. */
  lemma {:induction false} FullTextStartsWithFirstBlock(ocr: seq<OcrResult>)
    requires |ocr| > 0
    ensures StartsWith(FullText(ocr), PageBlock(1, ocr[0].text))
  {
    if |ocr| > 1 {
      var init := ocr[..|ocr| - 1];
      FullTextStartsWithFirstBlock(init);
      assert init[0] == ocr[0];
      var b := PageBlock(1, ocr[0].text);
      assert FullText(ocr) == FullText(init) + PageBlock(|ocr|, ocr[|ocr| - 1].text);
      assert FullText(ocr)[..|b|] == FullText(init)[..|b|];
    } else {
      assert ocr[..0] == [];
    }
  }

  /** Trailing whitespace never eats into a prefix that ends in a visible character. */
  lemma KeepsVisiblePrefix(h: string, s: string)
    requires |h| > 0 && !IsJsWhitespace(h[|h| - 1]) && StartsWith(s, h)
    ensures StartsWith(TrimEnd(s), h)
  {
    assert s[|h| - 1] == h[|h| - 1];
  }

  lemma PrefixOfPrefix(s: string, b: string, a: string)
    requires StartsWith(s, b) && StartsWith(b, a)
    ensures StartsWith(s, a)
  {
    assert s[..|a|] == s[..|b|][..|a|];
  }

  lemma BlockStartsWithHeader(pageNum: nat, text: string)
    ensures StartsWith(PageBlock(pageNum, text), PageHeader(pageNum))
  {
    var h := PageHeader(pageNum);
    assert PageBlock(pageNum, text) == h + ("\n" + text + "\n\n");
  }

  lemma FirstHeader()
    ensures PageHeader(1) == "--- Page 1 ---"
  {
    assert NatToString(1) == "1";
  }

  lemma TrimStartKeeps(s: string)
    requires |s| > 0 && s[0] == '-'
    ensures TrimStart(s) == s
  {
    assert !IsJsWhitespace('-');
  }

  /**
   * For a non-empty document the returned text starts with the header of
   * page 1: trimming removes nothing at the front (the text begins with '-')
   * and at the back only whitespace.
   */
  lemma TrimmedTextStartsWithFirstHeader(ocr: seq<OcrResult>)
    requires |ocr| > 0
    ensures Trim(FullText(ocr)) == TrimEnd(FullText(ocr))
    ensures StartsWith(Trim(FullText(ocr)), PageHeader(1))
  {
    var full := FullText(ocr);
    FullTextStartsWithFirstBlock(ocr);
    var h := PageHeader(1);
    FirstHeader();
    BlockStartsWithHeader(1, ocr[0].text);
    PrefixOfPrefix(full, PageBlock(1, ocr[0].text), h);
    assert full[0] == h[0];
    TrimStartKeeps(full);
    KeepsVisiblePrefix(h, full);
  }
}
