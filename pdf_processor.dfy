/**
 * Invoice duplication (duplicateInvoice): the first page of the source is
 * scaled to the width of an A4 page, drawn twice stacked from the top of one
 * new A4 page, and each copy is followed by a white rectangle that masks all
 * of it below the kept top `splitPercentage` percent.
 */
module PdfProcessor {
  import opened PdfModel

  /** The value of `splitPercentage` when the caller leaves it undefined. */
  const DefaultSplitPercentage: real := 50.0

  // Its ensures only expose the definition to callers; the lemmas below state what it means.
  function EffectiveSplit(splitPercentage: Option<real>): (split: real)
    ensures splitPercentage.None? ==> split == 50.0
    ensures splitPercentage.Some? ==> split == splitPercentage.value
  {
    if splitPercentage.Some? then splitPercentage.value else DefaultSplitPercentage
  }

  /** Scale that maps the source width onto the A4 width. */
  function ScaleFactor(src: PageSize): real
    requires src.width > 0.0
  {
    A4Width / src.width
  }

  /** Height of the whole source page once scaled. */
  function ScaledFullHeight(src: PageSize): real
    requires src.width > 0.0
  {
    src.height * ScaleFactor(src)
  }

  /** Height of the kept top segment of one scaled copy. */
  function KeepHeight(src: PageSize, split: real): real
    requires src.width > 0.0
  {
    ScaledFullHeight(src) * (split / 100.0)
  }

  /** The whole scaled source page, placed with its top edge at `yTop`. */
  function CopyImage(src: Page, yTop: real): DrawOp
    requires src.size.width > 0.0
  {
    var full := ScaledFullHeight(src.size);
    DrawEmbeddedPage(src, Rect(0.0, yTop - full, A4Width, full))
  }

  /** The white mask from the bottom of the copy with top `yTop` up to its cut line. */
  function CopyMask(src: Page, split: real, yTop: real): DrawOp
    requires src.size.width > 0.0
  {
    var full := ScaledFullHeight(src.size);
    DrawRectangle(Rect(0.0, yTop - full, A4Width, full - KeepHeight(src.size, split)), White)
  }

  /** What `drawAndMask(yTop)` appends to the new page. */
  function CopyOps(src: Page, split: real, yTop: real): seq<DrawOp>
    requires src.size.width > 0.0
  {
    if ScaledFullHeight(src.size) - KeepHeight(src.size, split) > 0.0
    then [CopyImage(src, yTop), CopyMask(src, split, yTop)]
    else [CopyImage(src, yTop)]
  }

  /** The whole drawing log of the output page: copy 1 at the A4 top, copy 2 at copy 1's cut line. */
  function DuplicateOps(src: Page, split: real): seq<DrawOp>
    requires src.size.width > 0.0
  {
    CopyOps(src, split, A4Height) + CopyOps(src, split, A4Height - KeepHeight(src.size, split))
  }

  /** The `drawAndMask` helper: draw the full copy, then the mask if it has positive height. */
  method DrawAndMask(ops: seq<DrawOp>, src: Page, split: real, yTop: real) returns (ops': seq<DrawOp>)
    requires src.size.width > 0.0
    ensures ops' == ops + CopyOps(src, split, yTop)
  {
    var scaleFactor := A4Width / src.size.width;
    var scaledFullHeight := src.size.height * scaleFactor;
    var keepHeight := scaledFullHeight * (split / 100.0);
    assert scaledFullHeight == ScaledFullHeight(src.size);
    assert keepHeight == KeepHeight(src.size, split);
    var imageBottomY := yTop - scaledFullHeight;
    ops' := ops + [DrawEmbeddedPage(src, Rect(0.0, imageBottomY, A4Width, scaledFullHeight))];
    var maskHeight := scaledFullHeight - keepHeight;
    if maskHeight > 0.0 {
      ops' := ops' + [DrawRectangle(Rect(0.0, imageBottomY, A4Width, maskHeight), White)];
      assert ops' == ops + [CopyImage(src, yTop), CopyMask(src, split, yTop)];
    }
  }

  /**
   * duplicateInvoice: fails when the bytes do not load or the document has no
   * pages; otherwise the result is a one-page A4 document drawn from the first
   * source page alone.
   */
  method DuplicateInvoice(source: Loaded, splitPercentage: Option<real>) returns (r: Result<seq<Page>, Error>)
    requires source.Parsed? && |source.pages| > 0 ==> source.pages[0].size.width > 0.0
    ensures source.Unparseable? ==> r == Failure(LoadFailed)
    ensures source.Parsed? && |source.pages| == 0 ==> r == Failure(NoPages)
    ensures source.Parsed? && |source.pages| > 0 ==>
      r == Success([Page(PageSize(A4Width, A4Height), DuplicateOps(source.pages[0], EffectiveSplit(splitPercentage)))])
  {
    if source.Unparseable? {
      return Failure(LoadFailed);
    }
    var sourcePages := source.pages;
    if |sourcePages| == 0 {
      return Failure(NoPages);
    }
    var split := if splitPercentage.Some? then splitPercentage.value else DefaultSplitPercentage;
    var firstPage := sourcePages[0];
    var a4Width, a4Height := A4Width, A4Height;
    var ops: seq<DrawOp> := [];
    var keepHeight := firstPage.size.height * (a4Width / firstPage.size.width) * (split / 100.0);
    assert keepHeight == KeepHeight(firstPage.size, split);
    ops := DrawAndMask(ops, firstPage, split, a4Height);
    ops := DrawAndMask(ops, firstPage, split, a4Height - keepHeight);
    assert [] + CopyOps(firstPage, split, a4Height) == CopyOps(firstPage, split, a4Height);
    assert ops == DuplicateOps(firstPage, split);
    r := Success([Page(PageSize(a4Width, a4Height), ops)]);
  }

  // ---------------------------------------------------------------------------
  // Properties of the layout

  /** The kept height lies between nothing and the whole copy, and equals it exactly at 100 percent. */
  lemma KeepBounds(src: PageSize, split: real)
    requires PositiveSize(src) && 0.0 <= split <= 100.0
    ensures ScaledFullHeight(src) > 0.0
    ensures 0.0 <= KeepHeight(src, split) <= ScaledFullHeight(src)
    ensures KeepHeight(src, split) < ScaledFullHeight(src) <==> split < 100.0
  {
    var s := A4Width / src.width;
    PositiveQuotient(A4Width, src.width);
    var full := src.height * s;
    PositiveProduct(src.height, s);
    var f := split / 100.0;
    FractionOf(full, f);
    assert ScaleFactor(src) == s;
    assert ScaledFullHeight(src) == full;
    assert KeepHeight(src, split) == full * f;
  }

  lemma PositiveQuotient(a: real, b: real)
    requires a > 0.0 && b > 0.0
    ensures a / b > 0.0
  {
  }

  lemma PositiveProduct(a: real, b: real)
    requires a > 0.0 && b > 0.0
    ensures a * b > 0.0
  {
  }

  /** A fraction f in [0, 1] of a positive a lies in [0, a], strictly below a iff f < 1. */
  lemma FractionOf(a: real, f: real)
    requires a > 0.0 && 0.0 <= f <= 1.0
    ensures 0.0 <= a * f <= a
    ensures a * f < a <==> f < 1.0
  {
    assert a - a * f == a * (1.0 - f);
    assert a * (1.0 - f) >= 0.0;
    if f < 1.0 {
      PositiveProduct(a, 1.0 - f);
    }
  }

  /**
   * The drawing order of the output page: copy 1 with its top at the A4 top,
   * its mask reaching exactly up to the cut line A4 top − keep, copy 2 with its
   * top at that cut line, and its mask reaching up to copy 2's own cut line.
   * A mask of zero height is not drawn, so at 100 percent only the copies remain.
   */
  lemma DuplicateDrawOrder(src: Page, split: real)
    requires PositiveSize(src.size) && 0.0 <= split <= 100.0
    ensures var ops := DuplicateOps(src, split);
            var k := KeepHeight(src.size, split);
            var full := ScaledFullHeight(src.size);
            && (split < 100.0 ==> |ops| == 4)
            && (split == 100.0 ==> |ops| == 2)
            && ops[0] == CopyImage(src, A4Height)
            && ops[0].rect.Top() == A4Height
            && ops[0].rect.x == 0.0 && ops[0].rect.width == A4Width
            && (split < 100.0 ==>
                  && ops[1] == CopyMask(src, split, A4Height)
                  && ops[1].rect.y == ops[0].rect.y
                  && ops[1].rect.Top() == A4Height - k
                  && ops[2] == CopyImage(src, A4Height - k)
                  && ops[2].rect.Top() == A4Height - k
                  && ops[3] == CopyMask(src, split, A4Height - k)
                  && ops[3].rect.y == ops[2].rect.y
                  && ops[3].rect.Top() == A4Height - 2.0 * k)
            && (split == 100.0 ==> ops[1] == CopyImage(src, A4Height - full))
  {
    KeepBounds(src.size, split);
  }

  /**
   * What the output page shows at each height (painter's order, full-width
   * operations): the top `keep` band shows copy 1, the band right below it
   * shows copy 2 (it paints over mask 1), then mask 2 shows white down to the
   * bottom of copy 2, and nothing is drawn anywhere else.  So the two kept
   * bands are contiguous, neither overlaps the other, and every later draw
   * stays at or below copy 1's cut line.
   */
  lemma VisibleLayout(src: Page, split: real, v: real)
    requires PositiveSize(src.size) && 0.0 <= split <= 100.0
    ensures var ops := DuplicateOps(src, split);
            var k := KeepHeight(src.size, split);
            var full := ScaledFullHeight(src.size);
            && (A4Height - k <= v < A4Height ==> VisibleAt(ops, v) == Some(CopyImage(src, A4Height)))
            && (A4Height - 2.0 * k <= v < A4Height - k ==> VisibleAt(ops, v) == Some(CopyImage(src, A4Height - k)))
            && (A4Height - k - full <= v < A4Height - 2.0 * k ==>
                  VisibleAt(ops, v) == Some(CopyMask(src, split, A4Height - k)))
            && (v < A4Height - k - full || A4Height <= v ==> VisibleAt(ops, v) == None)
  {
    var ops := DuplicateOps(src, split);
    var k := KeepHeight(src.size, split);
    var full := ScaledFullHeight(src.size);
    KeepBounds(src.size, split);
    DuplicateDrawOrder(src, split);
    var t := TopmostAt(ops, v);
    if split < 100.0 {
      assert ops[0].rect == Rect(0.0, A4Height - full, A4Width, full);
      assert ops[1].rect == Rect(0.0, A4Height - full, A4Width, full - k);
      assert ops[2].rect == Rect(0.0, A4Height - k - full, A4Width, full);
      assert ops[3].rect == Rect(0.0, A4Height - k - full, A4Width, full - k);
      if A4Height - k <= v < A4Height {
        assert ops[0].rect.SpansY(v) && !ops[1].rect.SpansY(v) && !ops[2].rect.SpansY(v) && !ops[3].rect.SpansY(v);
        assert t == Some(0);
      } else if A4Height - 2.0 * k <= v < A4Height - k {
        assert ops[2].rect.SpansY(v) && !ops[3].rect.SpansY(v);
        assert t == Some(2);
      } else if A4Height - k - full <= v < A4Height - 2.0 * k {
        assert ops[3].rect.SpansY(v);
        assert t == Some(3);
      } else {
        assert forall j :: 0 <= j < 4 ==> !ops[j].rect.SpansY(v);
        assert t == None;
      }
    } else {
      assert ops[0].rect == Rect(0.0, A4Height - full, A4Width, full);
      assert ops[1].rect == Rect(0.0, A4Height - 2.0 * full, A4Width, full);
      if A4Height - k <= v < A4Height {
        assert ops[0].rect.SpansY(v) && !ops[1].rect.SpansY(v);
        assert t == Some(0);
      } else if A4Height - 2.0 * k <= v < A4Height - k {
        assert ops[1].rect.SpansY(v);
        assert t == Some(1);
      } else {
        assert forall j :: 0 <= j < 2 ==> !ops[j].rect.SpansY(v);
        assert t == None;
      }
    }
  }

  /**
   * Wherever a copy is visible, the point shown lies in the top `split`
   * percent of the source page: its distance below the source's top edge,
   * in source units, is in (0, srcHeight · split / 100].
   */
  lemma VisibleContentIsKeptBand(src: Page, split: real, v: real)
    requires PositiveSize(src.size) && 0.0 <= split <= 100.0
    requires VisibleAt(DuplicateOps(src, split), v).Some?
    requires VisibleAt(DuplicateOps(src, split), v).value.DrawEmbeddedPage?
    ensures var op := VisibleAt(DuplicateOps(src, split), v).value;
            var depth := (op.rect.Top() - v) / ScaleFactor(src.size);
            && op.embedded == src
            && 0.0 < depth <= src.size.height * split / 100.0
  {
    var ops := DuplicateOps(src, split);
    var k := KeepHeight(src.size, split);
    var full := ScaledFullHeight(src.size);
    var s := ScaleFactor(src.size);
    KeepBounds(src.size, split);
    VisibleLayout(src, split, v);
    var op := VisibleAt(ops, v).value;
    // Only the two copies can be visible, each within its own kept band.
    assert 0.0 < op.rect.Top() - v <= k;
    assert k == src.size.height * s * (split / 100.0);
    assert s > 0.0;
    DivideBound(op.rect.Top() - v, k, s);
    assert k / s == src.size.height * split / 100.0;
  }

  lemma DivideBound(a: real, b: real, s: real)
    requires s > 0.0 && 0.0 < a <= b
    ensures 0.0 < a / s <= b / s
  {
  }

  /**
   * At the default split each copy keeps exactly half of the scaled page, so
   * the two kept bands together are one scaled page tall: copy 2's cut line
   * is where the bottom of a single full-height copy would be.
   */
  lemma DefaultSplitHalves(src: PageSize)
    requires src.width > 0.0
    ensures 2.0 * KeepHeight(src, EffectiveSplit(None)) == ScaledFullHeight(src)
    ensures CopyImage(Page(src, []), A4Height).rect.y == A4Height - 2.0 * KeepHeight(src, EffectiveSplit(None))
  {
  }

  /**
   * The 500 × 500 source at a split of 50: each copy keeps 297.64 points,
   * so the second copy's top sits that far below the A4 top.
   */
  lemma SquareSourceAtDefaultSplit()
    ensures KeepHeight(PageSize(500.0, 500.0), EffectiveSplit(Some(50.0))) == 297.64
    ensures A4Height - KeepHeight(PageSize(500.0, 500.0), EffectiveSplit(Some(50.0))) == 544.25
    ensures EffectiveSplit(Some(50.0)) == EffectiveSplit(None)
  {
  }
}
