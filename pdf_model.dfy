/**
 * The abstraction of the PDF and image libraries shared by every tool:
 * a document is the sequence of its pages, a page is its size plus the
 * ordered log of drawing operations issued on it, and a loaded file either
 * parsed into pages or did not.  Geometry is exact: `real` in PDF page
 * space (origin bottom-left, y growing upward).
 */
module PdfModel {

  /** The A4 page size of pdf-lib's PageSizes.A4, in points. */
  const A4Width: real := 595.28
  const A4Height: real := 841.89

  datatype Option<+T> = None | Some(value: T)

  datatype Result<+T, +E> = Success(value: T) | Failure(error: E)

  /** The exceptions the core raises or lets through. */
  datatype Error =
    | LoadFailed                       // the PDF library could not parse the bytes
    | NoPages                          // "PDF has no pages"
    | ImageDecodeFailed                // an image could not be embedded
    | UnsupportedFileType(mimeType: string)

  /** An axis-aligned rectangle: lower-left corner, width and height. */
  datatype Rect = Rect(x: real, y: real, width: real, height: real) {
    function Top(): real { y + height }
    function Right(): real { x + width }

    /** The rectangle's vertical extent, taken half-open: [y, y + height). */
    predicate SpansY(v: real) { y <= v < y + height }

    /** The rectangle lies on a page of size `p`. */
    predicate Inside(p: PageSize) { 0.0 <= x && x + width <= p.width && 0.0 <= y && y + height <= p.height }
  }

  datatype Color = White

  /** Which picture an image operation draws. */
  datatype ImageSource = Signature | InputImage(index: nat)

  /** One drawing call on a page, in the order the page received it. */
  datatype DrawOp =
    | DrawEmbeddedPage(embedded: Page, rect: Rect)       // page.drawPage(embeddedPage, …)
    | DrawRectangle(rect: Rect, color: Color)            // page.drawRectangle({…, color})
    | DrawImage(image: ImageSource, rect: Rect)          // page.drawImage(image, …)

  datatype PageSize = PageSize(width: real, height: real)

  datatype Page = Page(size: PageSize, ops: seq<DrawOp>) {
    predicate IsA4() { size == PageSize(A4Width, A4Height) }
  }

  predicate PositiveSize(s: PageSize) { s.width > 0.0 && s.height > 0.0 }

  /** The outcome of asking the PDF library to load a file's bytes. */
  datatype Loaded = Parsed(pages: seq<Page>) | Unparseable

  /** Decoded intrinsic size of a raster image. */
  datatype ImageSize = ImageSize(width: real, height: real)

  predicate PositiveImage(i: ImageSize) { i.width > 0.0 && i.height > 0.0 }

  /**
   * A file handed over by the browser: its name and MIME type, what the PDF
   * library makes of its bytes, and what the image decoder makes of them.
   */
  datatype File = File(name: string, mimeType: string, asPdf: Loaded, asImage: Option<ImageSize>)

  predicate StartsWith(s: string, prefix: string) {
    |prefix| <= |s| && s[..|prefix|] == prefix
  }

  /** JavaScript's `Math.round` on a finite value: round half up. */
  function Round(x: real): (r: int)
    ensures r as real - 0.5 <= x < r as real + 0.5
  {
    (x + 0.5).Floor
  }

  lemma RoundMonotone(x: real, y: real)
    requires x <= y
    ensures Round(x) <= Round(y)
  {
  }

  /**
   * Painter's model of a page: the index of the LAST operation whose vertical
   * extent contains height `v` (every operation here spans the page's full
   * width), i.e. the one whose paint is visible at that height.
   */
  function TopmostAt(ops: seq<DrawOp>, v: real): (r: Option<nat>)
    ensures r.Some? ==> r.value < |ops| && ops[r.value].rect.SpansY(v)
    ensures r.Some? ==> forall j :: r.value < j < |ops| ==> !ops[j].rect.SpansY(v)
    ensures r.None? ==> forall j :: 0 <= j < |ops| ==> !ops[j].rect.SpansY(v)
  {
    if ops == [] then None
    else if ops[|ops| - 1].rect.SpansY(v) then Some(|ops| - 1)
    else TopmostAt(ops[..|ops| - 1], v)
  }

  /** The operation visible at height `v`, if any. */
  function VisibleAt(ops: seq<DrawOp>, v: real): Option<DrawOp> {
    match TopmostAt(ops, v)
    case None => None
    case Some(i) => Some(ops[i])
  }
}
