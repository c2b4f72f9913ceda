/**
 * The PDF merge page: one list of selected files, with the handlers that
 * add, remove, reorder and merge them.
 */
module PdfMergeTool {
  import opened PdfModel
  import opened FileList
  import PdfMerger

  const TooFewMessage: string := "Please select at least 2 PDF files to merge."
  const MergeFailedMessage: string := "Failed to merge PDFs. Please try again."

  function ContentOf(f: File): Loaded {
    f.asPdf
  }

  class PdfMergeView {
    var files: seq<File>
    var isProcessing: bool
    var processedPdf: Option<seq<Page>>
    var error: Option<string>

    constructor()
      ensures files == [] && !isProcessing && processedPdf.None? && error.None?
    {
      files := [];
      isProcessing := false;
      processedPdf := None;
      error := None;
    }

    /** handleFileSelect: the selection is appended after the files already chosen, in its own order. */
    method HandleFileSelect(selectedFiles: seq<File>)
      modifies this
      ensures files == old(files) + selectedFiles
      ensures error == old(error) && isProcessing == old(isProcessing) && processedPdf == old(processedPdf)
    {
      files := files + selectedFiles;
    }

    /** removeFile: exactly the entry at `index` leaves the list. */
    method RemoveFile(index: int)
      modifies this
      ensures files == RemoveAt(old(files), index)
      ensures error == old(error) && isProcessing == old(isProcessing) && processedPdf == old(processedPdf)
    {
      files := RemoveAt(files, index);
    }

    /** moveFile: swap in a copy of the list, which then replaces it. */
    method MoveFile(index: nat, direction: string)
      requires index < |files|
      modifies this
      ensures files == Move(old(files), index, direction)
      ensures error == old(error) && isProcessing == old(isProcessing) && processedPdf == old(processedPdf)
    {
      var newFiles := MoveCopy(files, index, direction);
      files := newFiles;
    }

    /**
     * handleMerge: fewer than two files only sets the error and the merger is
     * not called; otherwise the files' contents go to mergePdfs in list order.
     */
    method HandleMerge()
      modifies this
      ensures files == old(files)
      ensures |old(files)| < 2 ==>
        error == Some(TooFewMessage) && isProcessing == old(isProcessing) && processedPdf == old(processedPdf)
      ensures |old(files)| >= 2 ==>
        var buffers := MapSeq(ContentOf, files);
        && !isProcessing
        && (PdfMerger.AllParsed(buffers) ==> error.None? && processedPdf == Some(PdfMerger.ConcatPages(buffers)))
        && (!PdfMerger.AllParsed(buffers) ==> error == Some(MergeFailedMessage) && processedPdf == old(processedPdf))
    {
      if |files| < 2 {
        error := Some(TooFewMessage);
        return;
      }
      error := None;
      isProcessing := true;
      var buffers := MapSeq(ContentOf, files);
      var r := PdfMerger.MergePdfs(buffers);
      if r.Success? {
        processedPdf := Some(r.value);
      } else {
        error := Some(MergeFailedMessage);
      }
      isProcessing := false;
    }
  }

  /**
   * Merging the list after moving entry `index` up: the two entries' runs of
   * pages trade places and every other page stays where it was.  Together
   * with MoveMap this is the effect of moveFile on the merged document.
   */
  lemma MergeAfterMoveUp(docs: seq<Loaded>, index: nat)
    requires 0 < index < |docs| && PdfMerger.AllParsed(docs)
    ensures PdfMerger.AllParsed(Move(docs, index, "up"))
    ensures PdfMerger.ConcatPages(Move(docs, index, "up"))
         == PdfMerger.ConcatPages(docs[..index - 1])
            + docs[index].pages + docs[index - 1].pages
            + PdfMerger.ConcatPages(docs[index + 1..])
  {
    var pre, post := docs[..index - 1], docs[index + 1..];
    var x, y := docs[index], docs[index - 1];
    var moved := Move(docs, index, "up");
    assert moved == pre + [x] + [y] + post;
    PdfMerger.ConcatPagesOfOne(x);
    PdfMerger.ConcatPagesOfOne(y);
    PdfMerger.ConcatPagesOfConcat(pre, [x]);
    PdfMerger.ConcatPagesOfConcat(pre + [x], [y]);
    PdfMerger.ConcatPagesOfConcat(pre + [x] + [y], post);
  }
}
