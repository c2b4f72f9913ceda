/**
 * Image to PDF conversion (convertImagesToPdf): one A4 page per JPEG or PNG
 * input, in input order, with the image fitted inside a 20-point margin and
 * centred; inputs of any other type are skipped.
 */
module ImageToPdf {
  import opened PdfModel

  const Margin: real := 20.0

  /** One element of `images`: its MIME type, and its decoded size (None when the embedder rejects the bytes). */
  datatype ImageInput = ImageInput(mimeType: string, decoded: Option<ImageSize>)

  predicate WellFormedInput(img: ImageInput) {
    img.decoded.Some? ==> PositiveImage(img.decoded.value)
  }

  predicate IsSupported(mimeType: string) {
    mimeType == "image/jpeg" || mimeType == "image/jpg" || mimeType == "image/png"
  }

  /**
   * `image.scaleToFit(w, h)`: the image scaled uniformly by the larger factor
   * that still fits both bounds.
   */
  function ScaleToFit(image: ImageSize, maxWidth: real, maxHeight: real): (fit: ImageSize)
    requires PositiveImage(image) && maxWidth > 0.0 && maxHeight > 0.0
    ensures 0.0 < fit.width <= maxWidth && 0.0 < fit.height <= maxHeight
    ensures fit.width * image.height == fit.height * image.width
  {
    var sw := maxWidth / image.width;
    var sh := maxHeight / image.height;
    var s := if sw <= sh then sw else sh;
    FitFactor(image.width, maxWidth, s);
    FitFactor(image.height, maxHeight, s);
    assert image.width * s * image.height == image.height * s * image.width;
    ImageSize(image.width * s, image.height * s)
  }

  lemma FitFactor(d: real, bound: real, s: real)
    requires d > 0.0 && bound > 0.0 && 0.0 < s <= bound / d
    ensures 0.0 < d * s <= bound
  {
    assert d * s <= d * (bound / d);
  }

  /** The rectangle the image is drawn in on its A4 page: fitted inside the margins, then centred. */
  function PlacedRect(image: ImageSize): Rect
    requires PositiveImage(image)
  {
    var fit := ScaleToFit(image, A4Width - 2.0 * Margin, A4Height - 2.0 * Margin);
    Rect((A4Width - fit.width) / 2.0, (A4Height - fit.height) / 2.0, fit.width, fit.height)
  }

  /** The page produced for the supported input at position `index`. */
  function ImagePage(image: ImageSize, index: nat): Page
    requires PositiveImage(image)
  {
    Page(PageSize(A4Width, A4Height), [DrawImage(InputImage(index), PlacedRect(image))])
  }

  /** Positions of the supported inputs, in increasing order. */
  function SupportedIndices(images: seq<ImageInput>): (ix: seq<nat>)
    ensures forall k :: 0 <= k < |ix| ==> ix[k] < |images| && IsSupported(images[ix[k]].mimeType)
    ensures forall k, l :: 0 <= k < l < |ix| ==> ix[k] < ix[l]
    ensures forall j :: 0 <= j < |images| && IsSupported(images[j].mimeType) ==> j in ix
  {
    if images == [] then []
    else
      var n := |images| - 1;
      SupportedIndices(images[..n]) + (if IsSupported(images[n].mimeType) then [n] else [])
  }

  /** Some supported input cannot be embedded, so the call throws. */
  predicate SomeSupportedUndecodable(images: seq<ImageInput>) {
    exists j :: 0 <= j < |images| && IsSupported(images[j].mimeType) && images[j].decoded.None?
  }

  /** The document convertImagesToPdf produces, one page per supported input. */
  function ImagePages(images: seq<ImageInput>): (pages: seq<Page>)
    requires forall j :: 0 <= j < |images| ==> WellFormedInput(images[j])
    requires !SomeSupportedUndecodable(images)
  {
    var ix := SupportedIndices(images);
    seq(|ix|, k requires 0 <= k < |ix| => PageOfInput(images, ix[k]))
  }

  function PageOfInput(images: seq<ImageInput>, j: nat): Page
    requires j < |images| && WellFormedInput(images[j]) && images[j].decoded.Some?
  {
    ImagePage(images[j].decoded.value, j)
  }

  lemma SupportedIndicesPrefix(images: seq<ImageInput>, i: nat)
    requires i < |images|
    ensures SupportedIndices(images[..i + 1])
         == SupportedIndices(images[..i]) + (if IsSupported(images[i].mimeType) then [i] else [])
  {
    assert images[..i + 1][..i] == images[..i];
  }

  /** One more input adds its page when it is supported and nothing otherwise. */
  lemma ImagePagesStep(images: seq<ImageInput>, i: nat)
    requires i < |images|
    requires forall j :: 0 <= j < |images| ==> WellFormedInput(images[j])
    requires !SomeSupportedUndecodable(images[..i + 1])
    ensures !SomeSupportedUndecodable(images[..i])
    ensures IsSupported(images[i].mimeType) ==> images[i].decoded.Some?
    ensures ImagePages(images[..i + 1])
         == ImagePages(images[..i]) + (if IsSupported(images[i].mimeType) then [PageOfInput(images, i)] else [])
  {
    var pre, cur := images[..i], images[..i + 1];
    assert cur[..i] == pre;
    assert forall j :: 0 <= j < i ==> cur[j] == pre[j];
    assert cur[i] == images[i];
    SupportedIndicesPrefix(images, i);
    var ix, ix' := SupportedIndices(pre), SupportedIndices(cur);
    assert forall k :: 0 <= k < |ix| ==> ix'[k] == ix[k];
  }

  /**
   * convertImagesToPdf: the loop over the inputs, skipping unsupported types
   * and adding one page per supported image; an image the embedder rejects
   * makes the whole call fail.
   */
  method ConvertImagesToPdf(images: seq<ImageInput>) returns (r: Result<seq<Page>, Error>)
    requires forall j :: 0 <= j < |images| ==> WellFormedInput(images[j])
    ensures SomeSupportedUndecodable(images) <==> r.Failure?
    ensures r.Failure? ==> r.error == ImageDecodeFailed
    ensures r.Success? ==> r.value == ImagePages(images)
  {
    var pdfDoc: seq<Page> := [];
    var i := 0;
    while i < |images|
      invariant 0 <= i <= |images|
      invariant !SomeSupportedUndecodable(images[..i])
      invariant pdfDoc == ImagePages(images[..i])
    {
      var imgData := images[i];
      SupportedIndicesPrefix(images, i);
      if !IsSupported(imgData.mimeType) {
        ImagePagesStep(images, i);
        i := i + 1;
        continue;
      }
      if imgData.decoded.None? {
        assert images[i] == imgData;
        return Failure(ImageDecodeFailed);
      }
      var image := imgData.decoded.value;
      var width, height := A4Width, A4Height;
      var margin := Margin;
      var availableWidth := width - margin * 2.0;
      var availableHeight := height - margin * 2.0;
      var imgDims := ScaleToFit(image, availableWidth, availableHeight);
      var x := (width - imgDims.width) / 2.0;
      var y := (height - imgDims.height) / 2.0;
      var page := Page(PageSize(width, height), [DrawImage(InputImage(i), Rect(x, y, imgDims.width, imgDims.height))]);
      assert page == PageOfInput(images, i);
      ImagePagesStep(images, i);
      pdfDoc := pdfDoc + [page];
      i := i + 1;
    }
    assert images[..i] == images;
    r := Success(pdfDoc);
  }

  // ---------------------------------------------------------------------------
  // Properties of the conversion

  /**
   * The page count is the number of supported inputs; page k is an A4 page
   * showing exactly one image, of the k-th supported input, so pages follow
   * input order and inputs of other types contribute nothing.
   */
  lemma PagesFollowSupportedInputs(images: seq<ImageInput>, k: nat)
    requires forall j :: 0 <= j < |images| ==> WellFormedInput(images[j])
    requires !SomeSupportedUndecodable(images)
    requires k < |ImagePages(images)|
    ensures |ImagePages(images)| == |SupportedIndices(images)|
    ensures var p := ImagePages(images)[k];
            && p.IsA4() && |p.ops| == 1 && p.ops[0].DrawImage?
            && p.ops[0].image == InputImage(SupportedIndices(images)[k])
            && IsSupported(images[SupportedIndices(images)[k]].mimeType)
  {
  }

  /** No supported input: the conversion still succeeds, with a document of no pages. */
  lemma AllUnsupportedGivesEmptyDocument(images: seq<ImageInput>)
    requires forall j :: 0 <= j < |images| ==> WellFormedInput(images[j])
    requires forall j :: 0 <= j < |images| ==> !IsSupported(images[j].mimeType)
    ensures !SomeSupportedUndecodable(images)
    ensures ImagePages(images) == []
  {
    NoSupportedNoIndices(images);
  }

  lemma {:induction false} NoSupportedNoIndices(images: seq<ImageInput>)
    requires forall j :: 0 <= j < |images| ==> !IsSupported(images[j].mimeType)
    ensures SupportedIndices(images) == []
  {
    if images != [] {
      var n := |images| - 1;
      NoSupportedNoIndices(images[..n]);
    }
  }

  /** Every placed image is centred and stays inside the 20-point margin on all four sides. */
  lemma PlacedWithinMargins(image: ImageSize)
    requires PositiveImage(image)
    ensures var r := PlacedRect(image);
            && Margin <= r.x && r.Right() <= A4Width - Margin
            && Margin <= r.y && r.Top() <= A4Height - Margin
            && r.x == A4Width - r.Right()
            && r.y == A4Height - r.Top()
  {
  }
}
