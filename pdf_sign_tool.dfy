/**
 * The PDF signing page: the preview's pagination state, the translation of
 * the dragged signature's preview position into the options of signPdf,
 * the handleSign flow around the call, and the canvas of a typed signature.
 */
module PdfSignTool {
  import opened PdfModel
  import opened PdfSigner

  const NoSignatureMessage: string := "Please create or upload a signature first."
  const SignFailedMessage: string := "Failed to sign PDF. Please try again."

  // ---------------------------------------------------------------------------
  // Pagination of the preview

  /** `numPages` (null until a document has loaded) and `pageNumber` (starts at 1). */
  datatype Pagination = Pagination(numPages: Option<nat>, pageNumber: int)

  const InitialPagination: Pagination := Pagination(None, 1)

  /** The Previous/Next controls are rendered only for a document of more than one page. */
  predicate ControlsShown(p: Pagination) {
    p.numPages.Some? && p.numPages.value > 1
  }

  predicate PreviousEnabled(p: Pagination) {
    ControlsShown(p) && !(p.pageNumber <= 1)
  }

  predicate NextEnabled(p: Pagination) {
    ControlsShown(p) && !(p.pageNumber >= p.numPages.value)
  }

  /** A click on Previous: `setPageNumber(prev => prev - 1)`; a disabled or hidden button does nothing. */
  function Previous(p: Pagination): Pagination {
    if PreviousEnabled(p) then p.(pageNumber := p.pageNumber - 1) else p
  }

  /** A click on Next: `setPageNumber(prev => prev + 1)`; a disabled or hidden button does nothing. */
  function Next(p: Pagination): Pagination {
    if NextEnabled(p) then p.(pageNumber := p.pageNumber + 1) else p
  }

  /** onDocumentLoadSuccess records the page count and leaves pageNumber as it was. */
  function OnDocumentLoadSuccess(p: Pagination, numPages: nat): Pagination {
    p.(numPages := Some(numPages))
  }

  /** handleReset clears the file and the signature but touches neither numPages nor pageNumber. */
  function HandleReset(p: Pagination): Pagination {
    p
  }

  /** The page shown is one the loaded document has. */
  predicate InRange(p: Pagination) {
    1 <= p.pageNumber && (p.numPages.Some? ==> p.pageNumber <= p.numPages.value)
  }

  /** The Previous and Next buttons never take pageNumber outside 1..numPages. */
  lemma NavigationKeepsInRange(p: Pagination)
    requires InRange(p)
    ensures InRange(Previous(p)) && InRange(Next(p))
    ensures Previous(p).numPages == p.numPages && Next(p).numPages == p.numPages
    ensures PreviousEnabled(p) ==> Previous(p).pageNumber == p.pageNumber - 1
    ensures NextEnabled(p) ==> Next(p).pageNumber == p.pageNumber + 1
  {
  }

  /**
   * Loading a document keeps the page shown only if the document is long
   * enough: the page reached in an earlier document survives the load.
   */
  lemma LoadKeepsInRangeIff(p: Pagination, numPages: nat)
    ensures InRange(OnDocumentLoadSuccess(p, numPages)) <==> 1 <= p.pageNumber <= numPages
    ensures OnDocumentLoadSuccess(p, numPages).pageNumber == p.pageNumber
  {
  }

  /**
   * Page 3 of a three-page document, then Reset and a two-page document:
   * the preview still asks for page 3, and the index handleSign sends (2)
   * is outside the new document, so signPdf falls back to its last page.
   */
  lemma StalePageAfterReset()
    ensures var p := OnDocumentLoadSuccess(HandleReset(Next(Next(OnDocumentLoadSuccess(InitialPagination, 3)))), 2);
            && p.pageNumber == 3
            && !InRange(p)
            && ResolvePageIndex(Some(p.pageNumber - 1), 2) == 1
  {
    var p1 := OnDocumentLoadSuccess(InitialPagination, 3);
    assert Next(p1).pageNumber == 2;
    assert Next(Next(p1)).pageNumber == 3;
  }

  // ---------------------------------------------------------------------------
  // From the preview to signPdf's options

  /** offsetWidth and offsetHeight of the rendered preview page. */
  datatype RenderedBox = RenderedBox(width: real, height: real)

  /** The dragged signature's top-left corner, in preview pixels from the preview's top-left corner. */
  datatype Position = Position(x: real, y: real)

  predicate PositiveBox(b: RenderedBox) {
    b.width > 0.0 && b.height > 0.0
  }

  /**
   * The options handleSign passes to signPdf: the zero-based index of the
   * page shown and the position as fractions of the preview's size.
   */
  function SignRequest(pageNumber: int, pos: Position, box: RenderedBox): (o: SignOptions)
    requires PositiveBox(box)
    ensures WellFormedOptions(o)
    ensures o.pageIndex == Some(pageNumber - 1)
    ensures o.normX.Some? && o.normX.value * box.width == pos.x
    ensures o.normY.Some? && o.normY.value * box.height == pos.y
    ensures o.renderedWidth == Some(box.width) && o.renderedHeight == Some(box.height)
    ensures o.x.None? && o.y.None? && o.scale.None?
  {
    SignOptions(Some(pageNumber - 1), Some(pos.x / box.width), Some(pos.y / box.height),
                Some(box.width), Some(box.height), None, None, None)
  }

  /** A position inside the preview gives fractions in [0, 1]. */
  lemma NormalizedInUnitSquare(pageNumber: int, pos: Position, box: RenderedBox)
    requires PositiveBox(box)
    requires 0.0 <= pos.x <= box.width && 0.0 <= pos.y <= box.height
    ensures var o := SignRequest(pageNumber, pos, box);
            0.0 <= o.normX.value <= 1.0 && 0.0 <= o.normY.value <= 1.0
  {
    var o := SignRequest(pageNumber, pos, box);
    UnitFraction(pos.x, box.width, o.normX.value);
    UnitFraction(pos.y, box.height, o.normY.value);
  }

  lemma UnitFraction(a: real, b: real, f: real)
    requires b > 0.0 && 0.0 <= a <= b && f * b == a
    ensures 0.0 <= f <= 1.0
  {
  }

  /**
   * Composed with signPdf: on the page, the signature's left edge is the
   * preview x scaled by page width over preview width, and its top edge is
   * the preview y scaled by page height over preview height, measured down
   * from the top of the page.
   */
  lemma SignedPositionMatchesPreview(page: PageSize, image: ImageSize, pageNumber: int, pos: Position, box: RenderedBox)
    requires PositiveImage(image) && PositiveBox(box) && PositiveSize(page)
    ensures var r := SignatureRect(page, image, SignRequest(pageNumber, pos, box));
            && r.x == pos.x * (page.width / box.width)
            && r.Top() == page.height - pos.y * (page.height / box.height)
  {
    var o := SignRequest(pageNumber, pos, box);
    var r := SignatureRect(page, image, o);
    PositionedTopEdge(page, image, o);
    ScaledFraction(pos.x, box.width, page.width);
    ScaledFraction(pos.y, box.height, page.height);
    assert r.Top() == page.height * (1.0 - pos.y / box.height);
  }

  lemma ScaledFraction(a: real, b: real, c: real)
    requires b > 0.0
    ensures (a / b) * c == a * (c / b)
  {
  }

  /**
   * While the preview shows a page of the loaded document, the index sent
   * is that page's and signPdf's fallback to the last page is not taken.
   */
  lemma ShownPageIsSigned(p: Pagination, pageCount: nat, pos: Position, box: RenderedBox)
    requires PositiveBox(box) && InRange(p) && p.numPages == Some(pageCount)
    ensures ResolvePageIndex(SignRequest(p.pageNumber, pos, box).pageIndex, pageCount) == p.pageNumber - 1
  {
  }

  // ---------------------------------------------------------------------------
  // handleSign

  /** The part of the page's state handleSign writes. */
  datatype SignView = SignView(error: Option<string>, isProcessing: bool, processedPdf: Option<seq<Page>>)

  /**
   * handleSign: without a preview signature only the error is set; without
   * a file or a rendered preview layer the attempt ends with the generic
   * error before signPdf is called; otherwise signPdf receives the shown
   * page and the normalised position, and its outcome is recorded.
   * `request` is the options object signPdf was called with, if it was.
   */
  method HandleSign(v: SignView, previewSignature: Option<SignatureData>, file: Option<Loaded>,
                    layer: Option<RenderedBox>, position: Position, pageNumber: int)
    returns (v': SignView, request: Option<SignOptions>)
    requires previewSignature.Some? ==> WellFormedSignature(previewSignature.value)
    requires file.Some? && file.value.Parsed? ==> |file.value.pages| > 0
    requires layer.Some? ==> PositiveBox(layer.value)
    ensures previewSignature.None? ==> v' == v.(error := Some(NoSignatureMessage)) && request.None?
    ensures previewSignature.Some? && (file.None? || layer.None?) ==>
      v' == v.(error := Some(SignFailedMessage), isProcessing := false) && request.None?
    ensures previewSignature.Some? && file.Some? && layer.Some? ==>
      && request == Some(SignRequest(pageNumber, position, layer.value))
      && !v'.isProcessing
      && ((file.value.Unparseable? || previewSignature.value.image.None?) ==>
            v'.error == Some(SignFailedMessage) && v'.processedPdf == v.processedPdf)
      && (file.value.Parsed? && previewSignature.value.image.Some? ==>
            var pages := file.value.pages;
            var i := ResolvePageIndex(Some(pageNumber - 1), |pages|);
            && v'.error.None? && v'.processedPdf.Some?
            && |v'.processedPdf.value| == |pages|
            && (forall j :: 0 <= j < |pages| && j != i ==> v'.processedPdf.value[j] == pages[j])
            && v'.processedPdf.value[i].size == pages[i].size
            && v'.processedPdf.value[i].ops == pages[i].ops
                 + [DrawImage(Signature, SignatureRect(pages[i].size, previewSignature.value.image.value, request.value))])
  {
    if previewSignature.None? {
      return v.(error := Some(NoSignatureMessage)), None;
    }
    v' := v.(error := None, isProcessing := true);
    request := None;
    if file.None? || layer.None? {
      // file.arrayBuffer() or the missing preview layer throws; the catch sets the generic error
      v' := v'.(error := Some(SignFailedMessage), isProcessing := false);
      return;
    }
    var renderedWidth := layer.value.width;
    var renderedHeight := layer.value.height;
    var normX := position.x / renderedWidth;
    var normY := position.y / renderedHeight;
    var options := SignOptions(Some(pageNumber - 1), Some(normX), Some(normY),
                               Some(renderedWidth), Some(renderedHeight), None, None, None);
    request := Some(options);
    var r := SignPdf(file.value, previewSignature.value, options);
    if r.Success? {
      v' := v'.(processedPdf := Some(r.value));
    } else {
      v' := v'.(error := Some(SignFailedMessage));
    }
    v' := v'.(isProcessing := false);
  }

  // ---------------------------------------------------------------------------
  // Typed signature

  /** The canvas a typed signature is drawn on, with the anchor of its text. */
  datatype Canvas = Canvas(width: int, height: int, textX: real, textY: real)

  /**
   * The canvas updatePreview draws in 'type' mode: no canvas for empty text;
   * otherwise the measured text width plus 40 wide (the canvas keeps only the
   * integral part of the width it is given), 100 high, with the text drawn
   * from (20, 50) on a middle baseline.
   */
  function TypedSignatureCanvas(typedText: string, measuredWidth: real): (c: Option<Canvas>)
    requires measuredWidth >= 0.0
    ensures c.None? <==> typedText == ""
    ensures c.Some? ==>
      && c.value.height == 100
      && c.value.width as real <= measuredWidth + 40.0 < c.value.width as real + 1.0
      && c.value.textX == 20.0 && c.value.textY == 50.0
  {
    if typedText == "" then None
    else Some(Canvas((measuredWidth + 40.0).Floor, 100, 20.0, 50.0))
  }

  /** The preview signature a typed canvas becomes: a PNG the size of the canvas. */
  function CanvasSignature(c: Canvas): SignatureData {
    SignatureData(Some(ImageSize(c.width as real, c.height as real)))
  }

  /**
   * The typed text fits on its canvas with at least 19 pixels to spare on
   * the right, its baseline is at mid-height, and the resulting PNG is a
   * signature signPdf can embed.
   */
  lemma TypedSignatureFits(typedText: string, measuredWidth: real)
    requires measuredWidth >= 0.0 && typedText != ""
    ensures var c := TypedSignatureCanvas(typedText, measuredWidth).value;
            && c.textX + measuredWidth + 19.0 < c.width as real
            && c.textY * 2.0 == c.height as real
            && WellFormedSignature(CanvasSignature(c))
  {
  }
}
