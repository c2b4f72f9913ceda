/**
 * PDF merge (mergePdfs): every page of every input, inputs in the given
 * order and each input's pages in their own order, copied into one new
 * document.
 */
module PdfMerger {
  import opened PdfModel

  predicate AllParsed(docs: seq<Loaded>) {
    forall j :: 0 <= j < |docs| ==> docs[j].Parsed?
  }

  /** Pages of all inputs, concatenated in input order. */
  function ConcatPages(docs: seq<Loaded>): seq<Page>
    requires AllParsed(docs)
  {
    if docs == [] then [] else ConcatPages(docs[..|docs| - 1]) + docs[|docs| - 1].pages
  }

  /** Sum of the inputs' page counts. */
  function TotalPages(docs: seq<Loaded>): nat
    requires AllParsed(docs)
  {
    if docs == [] then 0 else TotalPages(docs[..|docs| - 1]) + |docs[|docs| - 1].pages|
  }

  /**
   * mergePdfs: load each buffer in turn (a buffer that does not load makes
   * the whole call fail) and append a copy of each of its pages, by index.
   */
  method MergePdfs(filesBuffers: seq<Loaded>) returns (r: Result<seq<Page>, Error>)
    ensures AllParsed(filesBuffers) <==> r.Success?
    ensures r.Failure? ==> r.error == LoadFailed
    ensures r.Success? ==> r.value == ConcatPages(filesBuffers)
  {
    var mergedPdf: seq<Page> := [];
    var b := 0;
    while b < |filesBuffers|
      invariant 0 <= b <= |filesBuffers|
      invariant AllParsed(filesBuffers[..b])
      invariant mergedPdf == ConcatPages(filesBuffers[..b])
    {
      var pdf := filesBuffers[b];
      if pdf.Unparseable? {
        return Failure(LoadFailed);
      }
      var copiedPages := pdf.pages;
      var before := mergedPdf;
      var p := 0;
      while p < |copiedPages|
        invariant 0 <= p <= |copiedPages|
        invariant mergedPdf == before + copiedPages[..p]
      {
        mergedPdf := mergedPdf + [copiedPages[p]];
        p := p + 1;
      }
      assert copiedPages[..p] == copiedPages;
      assert filesBuffers[..b + 1][..b] == filesBuffers[..b];
      b := b + 1;
    }
    assert filesBuffers[..b] == filesBuffers;
    r := Success(mergedPdf);
  }

  // ---------------------------------------------------------------------------
  // Properties of the merge

  /** The merged page count is the sum of the input page counts (zero for no inputs). */
  lemma {:induction false} MergedPageCount(docs: seq<Loaded>)
    requires AllParsed(docs)
    ensures |ConcatPages(docs)| == TotalPages(docs)
  {
    if docs != [] {
      MergedPageCount(docs[..|docs| - 1]);
    }
  }

  /**
   * Page p of input j sits in the merged document right after all pages of
   * the inputs before j, so inputs keep their order and so do the pages
   * within each input.
   */
  lemma {:induction false} MergedPageAt(docs: seq<Loaded>, j: nat, p: nat)
    requires AllParsed(docs)
    requires j < |docs| && p < |docs[j].pages|
    ensures TotalPages(docs[..j]) + p < |ConcatPages(docs)|
    ensures ConcatPages(docs)[TotalPages(docs[..j]) + p] == docs[j].pages[p]
  {
    var n := |docs| - 1;
    var init := docs[..n];
    MergedPageCount(init);
    if j == n {
      assert docs[..j] == init;
    } else {
      assert init[..j] == docs[..j];
      MergedPageAt(init, j, p);
    }
  }

  /** Merging a concatenation of input lists merges each part and concatenates the results. */
  lemma {:induction false} ConcatPagesOfConcat(a: seq<Loaded>, b: seq<Loaded>)
    requires AllParsed(a) && AllParsed(b)
    ensures AllParsed(a + b)
    ensures ConcatPages(a + b) == ConcatPages(a) + ConcatPages(b)
  {
    if b == [] {
      assert a + b == a;
    } else {
      var n := |b| - 1;
      assert (a + b)[..|a + b| - 1] == a + b[..n];
      ConcatPagesOfConcat(a, b[..n]);
    }
  }

  lemma ConcatPagesOfOne(d: Loaded)
    requires d.Parsed?
    ensures AllParsed([d]) && ConcatPages([d]) == d.pages
  {
    assert [d][..0] == [];
  }
}
