/**
 * The Image to PDF page: the selected images and their preview URLs, kept
 * as two parallel lists, with the handlers that add, remove, reorder and
 * convert them.
 */
module ImageToPdfTool {
  import opened PdfModel
  import opened FileList
  import ImageToPdf

  const NoImagesMessage: string := "Please select image files (JPG, PNG)."
  const EmptyListMessage: string := "Please select at least 1 image."
  const ConvertFailedMessage: string := "Failed to convert images to PDF. Please try again."

  /** `URL.createObjectURL(file)`: a preview URL, identified by the file it shows. */
  datatype PreviewUrl = ObjectUrl(file: File)

  predicate IsImageFile(f: File) {
    StartsWith(f.mimeType, "image/")
  }

  /** `selectedFiles.filter(f => f.type.startsWith('image/'))`. */
  function ImageFiles(selected: seq<File>): (r: seq<File>)
    ensures |r| <= |selected|
    ensures forall f :: f in r <==> f in selected && IsImageFile(f)
  {
    if selected == [] then []
    else
      var n := |selected| - 1;
      assert selected == selected[..n] + [selected[n]];
      ImageFiles(selected[..n]) + (if IsImageFile(selected[n]) then [selected[n]] else [])
  }

  /** The filter keeps order: filtering a concatenation concatenates the filtered parts. */
  lemma {:induction false} ImageFilesOfConcat(a: seq<File>, b: seq<File>)
    ensures ImageFiles(a + b) == ImageFiles(a) + ImageFiles(b)
  {
    if b != [] {
      var n := |b| - 1;
      assert (a + b)[..|a + b| - 1] == a + b[..n];
      ImageFilesOfConcat(a, b[..n]);
    } else {
      assert a + b == a;
    }
  }

  function PreviewOf(f: File): PreviewUrl {
    ObjectUrl(f)
  }

  /** What the embedder receives for a file: its type and its decoded image. */
  function AsImageInput(f: File): ImageToPdf.ImageInput {
    ImageToPdf.ImageInput(f.mimeType, f.asImage)
  }

  predicate WellFormedFiles(files: seq<File>) {
    forall j :: 0 <= j < |files| ==> ImageToPdf.WellFormedInput(AsImageInput(files[j]))
  }

  class ImageToPdfView {
    var files: seq<File>
    var previews: seq<PreviewUrl>
    var isProcessing: bool
    var processedPdf: Option<seq<Page>>
    var error: Option<string>

    /** The two lists stay in lockstep: position i of `previews` is the preview of position i of `files`. */
    predicate Valid()
      reads this
    {
      previews == MapSeq(PreviewOf, files)
    }

    constructor()
      ensures Valid()
      ensures files == [] && previews == [] && !isProcessing && processedPdf.None? && error.None?
    {
      files := [];
      previews := [];
      isProcessing := false;
      processedPdf := None;
      error := None;
    }

    /**
     * handleFileSelect: a non-empty selection with no image in it only sets
     * the error; otherwise its images are appended, in order, to both lists
     * and the error is cleared.
     */
    method HandleFileSelect(selectedFiles: seq<File>)
      requires Valid()
      modifies this
      ensures Valid()
      ensures ImageFiles(selectedFiles) == [] && |selectedFiles| > 0 ==>
        files == old(files) && error == Some(NoImagesMessage)
      ensures !(ImageFiles(selectedFiles) == [] && |selectedFiles| > 0) ==>
        files == old(files) + ImageFiles(selectedFiles) && error.None?
      ensures isProcessing == old(isProcessing) && processedPdf == old(processedPdf)
    {
      var imageFiles := ImageFiles(selectedFiles);
      if |imageFiles| == 0 && |selectedFiles| > 0 {
        error := Some(NoImagesMessage);
        return;
      }
      files := files + imageFiles;
      var newPreviews := MapSeq(PreviewOf, imageFiles);
      previews := previews + newPreviews;
      error := None;
    }

    /** removeFile: the entry at `index` leaves both lists; an index outside them removes nothing. */
    method RemoveFile(index: int)
      requires Valid()
      modifies this
      ensures Valid()
      ensures files == RemoveAt(old(files), index)
      ensures error == old(error) && isProcessing == old(isProcessing) && processedPdf == old(processedPdf)
    {
      RemoveAtMap(PreviewOf, files, index);
      files := RemoveAt(files, index);
      previews := RemoveAt(previews, index);
    }

    /** moveFile: the same swap on copies of both lists, which then replace them. */
    method MoveFile(index: nat, direction: string)
      requires Valid() && index < |files|
      modifies this
      ensures Valid()
      ensures files == Move(old(files), index, direction)
      ensures error == old(error) && isProcessing == old(isProcessing) && processedPdf == old(processedPdf)
    {
      var newFiles := MoveCopy(files, index, direction);
      var newPreviews := MoveCopy(previews, index, direction);
      MoveMap(PreviewOf, files, index, direction);
      files := newFiles;
      previews := newPreviews;
    }

    /**
     * handleConvert: with no files only the error is set; otherwise the
     * files go to convertImagesToPdf in list order and the outcome is either
     * the document or the conversion error.
     */
    method HandleConvert()
      requires Valid() && WellFormedFiles(files)
      modifies this
      ensures Valid() && files == old(files)
      ensures old(files) == [] ==>
        error == Some(EmptyListMessage) && isProcessing == old(isProcessing) && processedPdf == old(processedPdf)
      ensures old(files) != [] ==>
        var images := MapSeq(AsImageInput, files);
        && !isProcessing
        && (ImageToPdf.SomeSupportedUndecodable(images) ==>
              error == Some(ConvertFailedMessage) && processedPdf == old(processedPdf))
        && (!ImageToPdf.SomeSupportedUndecodable(images) ==>
              error.None? && processedPdf == Some(ImageToPdf.ImagePages(images)))
    {
      if |files| == 0 {
        error := Some(EmptyListMessage);
        return;
      }
      error := None;
      isProcessing := true;
      var images := MapSeq(AsImageInput, files);
      var r := ImageToPdf.ConvertImagesToPdf(images);
      if r.Success? {
        processedPdf := Some(r.value);
      } else {
        error := Some(ConvertFailedMessage);
      }
      isProcessing := false;
    }
  }
}
