/**
 * Signature placement (signPdf): choose the page, compute the rectangle of
 * the signature in page space, and draw the image there once.
 */
module PdfSigner {
  import opened PdfModel

  /** Height, in preview pixels, at which the preview shows the signature. */
  const UiSignatureHeight: real := 64.0
  /** Distance of the default (bottom-right) placement from the page edges. */
  const Padding: real := 50.0
  /** Factor applied to the image's own size when no scale is given. */
  const DefaultScale: real := 0.5

  /** The `options` object; an absent field is `None` (undefined in the source). */
  datatype SignOptions = SignOptions(
    pageIndex: Option<int>,
    normX: Option<real>,
    normY: Option<real>,
    renderedWidth: Option<real>,
    renderedHeight: Option<real>,
    x: Option<real>,
    y: Option<real>,
    scale: Option<real>)

  /** The positioned mode needs the fields it reads, and a non-degenerate preview width. */
  predicate WellFormedOptions(o: SignOptions) {
    o.normX.Some? ==> o.normY.Some? && o.renderedWidth.Some? && o.renderedWidth.value > 0.0
  }

  /** The page signed: the requested index when it is a valid one, otherwise the last page. */
  function ResolvePageIndex(pageIndex: Option<int>, pageCount: nat): (i: int)
    ensures pageCount > 0 ==> 0 <= i < pageCount
    ensures pageIndex.Some? && 0 <= pageIndex.value < pageCount ==> i == pageIndex.value
    ensures pageIndex.None? || pageIndex.value < 0 || pageIndex.value >= pageCount ==> i == pageCount - 1
  {
    if pageIndex.None? || pageIndex.value < 0 || pageIndex.value >= pageCount then pageCount - 1
    else pageIndex.value
  }

  /** `options.scale || 0.5`: an absent or zero scale falls back to the default. */
  // Its ensures only expose the definition to callers; the lemmas below state what it means.
  function EffectiveScale(scale: Option<real>): (s: real)
    ensures scale.Some? && scale.value != 0.0 ==> s == scale.value
    ensures scale.None? || scale.value == 0.0 ==> s == DefaultScale
  {
    if scale.None? || scale.value == 0.0 then DefaultScale else scale.value
  }

  /** The rectangle the signature is drawn in, on a page of size `page`. */
  function SignatureRect(page: PageSize, image: ImageSize, o: SignOptions): Rect
    requires PositiveImage(image) && WellFormedOptions(o)
  {
    if o.normX.Some? then PositionedRect(page, image, o.normX.value, o.normY.value, o.renderedWidth.value)
    else FallbackRect(page, image, o.x, o.y, o.scale)
  }

  /** Positioned mode: the preview's signature height and position carried over to the page. */
  function PositionedRect(page: PageSize, image: ImageSize, normX: real, normY: real, renderedWidth: real): Rect
    requires PositiveImage(image) && renderedWidth > 0.0
  {
    var scaleRatio := page.width / renderedWidth;
    var sigW := UiSignatureHeight * (image.width / image.height) * scaleRatio;
    var sigH := UiSignatureHeight * scaleRatio;
    Rect(normX * page.width, page.height - normY * page.height - sigH, sigW, sigH)
  }

  /** Default mode: the scaled image, at the given coordinates or bottom-right inside the padding. */
  function FallbackRect(page: PageSize, image: ImageSize, x: Option<real>, y: Option<real>, scale: Option<real>): Rect {
    var s := EffectiveScale(scale);
    var sigW := image.width * s;
    var sigH := image.height * s;
    Rect(if x.Some? then x.value else page.width - sigW - Padding,
         if y.Some? then y.value else Padding,
         sigW, sigH)
  }

  /** The signature as embedded: `image` is its decoded size, None when it is not a PNG the library accepts. */
  datatype SignatureData = SignatureData(image: Option<ImageSize>)

  predicate WellFormedSignature(sig: SignatureData) {
    sig.image.Some? ==> PositiveImage(sig.image.value)
  }

  /**
   * signPdf: load the document, resolve the page, embed the signature, and
   * draw it once on that page; every other page is left as it was.  The
   * source does not guard an empty document, so a loaded one must have pages.
   */
  method SignPdf(doc: Loaded, signature: SignatureData, options: SignOptions) returns (r: Result<seq<Page>, Error>)
    requires doc.Parsed? ==> |doc.pages| > 0
    requires WellFormedSignature(signature) && WellFormedOptions(options)
    ensures doc.Unparseable? ==> r == Failure(LoadFailed)
    ensures doc.Parsed? && signature.image.None? ==> r == Failure(ImageDecodeFailed)
    ensures doc.Parsed? && signature.image.Some? ==>
      && r.Success?
      && var i := ResolvePageIndex(options.pageIndex, |doc.pages|);
         && |r.value| == |doc.pages|
         && (forall j :: 0 <= j < |doc.pages| && j != i ==> r.value[j] == doc.pages[j])
         && r.value[i].size == doc.pages[i].size
         && r.value[i].ops == doc.pages[i].ops
              + [DrawImage(Signature, SignatureRect(doc.pages[i].size, signature.image.value, options))]
  {
    if doc.Unparseable? {
      return Failure(LoadFailed);
    }
    var pages := doc.pages;
    var pageIndex := if options.pageIndex.Some? then options.pageIndex.value else -1;
    if options.pageIndex.None? || pageIndex < 0 || pageIndex >= |pages| {
      pageIndex := |pages| - 1;
    }
    var page := pages[pageIndex];
    var width, height := page.size.width, page.size.height;
    if signature.image.None? {
      return Failure(ImageDecodeFailed);
    }
    var signatureImage := signature.image.value;
    var x, y, sigW, sigH;
    if options.normX.Some? {
      var normX, normY, renderedWidth := options.normX.value, options.normY.value, options.renderedWidth.value;
      var scaleRatio := width / renderedWidth;
      var uiSigHeight := UiSignatureHeight;
      var aspectRatio := signatureImage.width / signatureImage.height;
      var uiSigWidth := uiSigHeight * aspectRatio;
      sigW := uiSigWidth * scaleRatio;
      sigH := uiSigHeight * scaleRatio;
      x := normX * width;
      y := height - (normY * height) - sigH;
      ghost var expected := PositionedRect(page.size, signatureImage, normX, normY, renderedWidth);
      assert sigW == expected.width && sigH == expected.height;
      assert x == expected.x && y == expected.y;
    } else {
      var factor := if options.scale.None? || options.scale.value == 0.0 then DefaultScale else options.scale.value;
      sigW := signatureImage.width * factor;
      sigH := signatureImage.height * factor;
      var padding := Padding;
      x := if options.x.Some? then options.x.value else width - sigW - padding;
      y := if options.y.Some? then options.y.value else padding;
      assert factor == EffectiveScale(options.scale);
      assert Rect(x, y, sigW, sigH) == FallbackRect(page.size, signatureImage, options.x, options.y, options.scale);
    }
    assert pageIndex == ResolvePageIndex(options.pageIndex, |pages|);
    assert Rect(x, y, sigW, sigH) == SignatureRect(page.size, signatureImage, options);
    var signed := Page(page.size, page.ops + [DrawImage(Signature, Rect(x, y, sigW, sigH))]);
    r := Success(pages[pageIndex := signed]);
  }

  // ---------------------------------------------------------------------------
  // Properties of the placement

  /** The positioned mode is taken exactly when normX is given, and then ignores renderedHeight, x, y and scale. */
  lemma PositionedModeReadsOnlyItsFields(page: PageSize, image: ImageSize, o: SignOptions, o': SignOptions)
    requires PositiveImage(image) && WellFormedOptions(o) && WellFormedOptions(o')
    requires o.normX.Some? && o'.normX == o.normX && o'.normY == o.normY && o'.renderedWidth == o.renderedWidth
    ensures SignatureRect(page, image, o) == SignatureRect(page, image, o')
  {
  }

  /** In the positioned mode the drawn signature keeps the image's aspect ratio. */
  lemma PositionedKeepsAspect(page: PageSize, image: ImageSize, o: SignOptions)
    requires PositiveImage(image) && WellFormedOptions(o) && o.normX.Some?
    requires page.width > 0.0
    ensures var r := SignatureRect(page, image, o);
            r.height > 0.0 && r.width / r.height == image.width / image.height
  {
    var ratio := page.width / o.renderedWidth.value;
    var aspect := image.width / image.height;
    assert ratio > 0.0;
    var h := UiSignatureHeight * ratio;
    var w := UiSignatureHeight * aspect * ratio;
    assert w == aspect * h;
    QuotientOfMultiple(aspect, h);
  }

  lemma QuotientOfMultiple(a: real, h: real)
    requires h > 0.0
    ensures (a * h) / h == a
  {
  }

  /** Horizontally the preview position carries over directly: normX in [0, 1] lands on the page. */
  lemma PositionedXOnPage(page: PageSize, image: ImageSize, o: SignOptions)
    requires PositiveImage(image) && WellFormedOptions(o) && o.normX.Some?
    requires page.width > 0.0 && 0.0 <= o.normX.value <= 1.0
    ensures 0.0 <= SignatureRect(page, image, o).x <= page.width
  {
    var nx := o.normX.value;
    assert nx * page.width <= 1.0 * page.width;
  }

  /**
   * Vertically the preview's top-origin position is flipped: the signature's
   * top edge sits at height·(1 − normY), which is within the page for
   * normY ≥ 0, and strictly lower on the page the further down the preview it was.
   */
  lemma PositionedTopEdge(page: PageSize, image: ImageSize, o: SignOptions)
    requires PositiveImage(image) && WellFormedOptions(o) && o.normX.Some?
    requires PositiveSize(page)
    ensures var r := SignatureRect(page, image, o);
            && r.Top() == page.height * (1.0 - o.normY.value)
            && (o.normY.value >= 0.0 ==> r.y < r.Top() <= page.height)
  {
    var ratio := page.width / o.renderedWidth.value;
    assert ratio > 0.0;
    var ny := o.normY.value;
    if ny >= 0.0 {
      assert ny * page.height >= 0.0;
    }
  }

  lemma PositionedTopEdgeDecreasing(page: PageSize, image: ImageSize, o: SignOptions, o': SignOptions)
    requires PositiveImage(image) && WellFormedOptions(o) && WellFormedOptions(o')
    requires o.normX.Some? && o'.normX.Some? && PositiveSize(page)
    requires o.normY.value < o'.normY.value
    ensures SignatureRect(page, image, o').Top() < SignatureRect(page, image, o).Top()
  {
    PositionedTopEdge(page, image, o);
    PositionedTopEdge(page, image, o');
    var d := o'.normY.value - o.normY.value;
    assert d * page.height > 0.0;
    assert page.height * (1.0 - o.normY.value) - page.height * (1.0 - o'.normY.value) == d * page.height;
  }

  /**
   * Without normX the signature is the image at scale `scale || 0.5`,
   * 50 points in from the right and from the bottom unless x or y is given.
   */
  lemma DefaultPlacement(page: PageSize, image: ImageSize, o: SignOptions)
    requires PositiveImage(image) && WellFormedOptions(o) && o.normX.None?
    ensures var r := SignatureRect(page, image, o);
            && r.width == image.width * EffectiveScale(o.scale)
            && r.height == image.height * EffectiveScale(o.scale)
            && r.x == (if o.x.Some? then o.x.value else page.width - Padding - r.width)
            && r.y == (if o.y.Some? then o.y.value else Padding)
            && (o.x.None? ==> r.Right() + Padding == page.width)
  {
  }

  /**
   * The default-mode signature never collapses: `scale || 0.5` turns an
   * absent or zero scale into 0.5, so for any non-negative scale the drawn
   * signature has positive width and height.
   */
  lemma FallbackScaleIsPositive(page: PageSize, image: ImageSize, o: SignOptions)
    requires PositiveImage(image) && WellFormedOptions(o) && o.normX.None?
    requires o.scale.None? || o.scale.value >= 0.0
    ensures SignatureRect(page, image, o).width > 0.0 && SignatureRect(page, image, o).height > 0.0
  {
    var s := EffectiveScale(o.scale);
    assert s > 0.0;
    PositiveScaled(image.width, s);
    PositiveScaled(image.height, s);
  }

  lemma PositiveScaled(a: real, s: real)
    requires a > 0.0 && s > 0.0
    ensures a * s > 0.0
  {
  }

  /**
   * With neither x nor y given, the default signature lies on the page
   * exactly when the scaled image plus the 50-point padding fits the page
   * both across and up.
   */
  lemma DefaultSignatureInsidePage(page: PageSize, image: ImageSize, o: SignOptions)
    requires PositiveImage(image) && WellFormedOptions(o) && o.normX.None? && o.x.None? && o.y.None?
    requires o.scale.None? || o.scale.value >= 0.0
    ensures var s := EffectiveScale(o.scale);
            SignatureRect(page, image, o).Inside(page) <==>
              image.width * s + Padding <= page.width && image.height * s + Padding <= page.height
  {
    FallbackScaleIsPositive(page, image, o);
  }
}
