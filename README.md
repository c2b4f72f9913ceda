# printing-tools, modelled in Dafny

printing-tools is a browser application of small document utilities. Each
tool is a React page over a helper module that builds a PDF with pdf-lib
or reads one with pdf.js and Tesseract:

- **Invoice duplicator** (`duplicateInvoice`) puts the top part of an
  invoice's first page twice, one copy under the other, on one A4 sheet.
- **PDF signer** (`signPdf`, the PdfSign page) draws a signature image on one
  page. Either the position the user dragged it to in the preview is used,
  or a default bottom-right placement.
- **Image to PDF** (`convertImagesToPdf`, the ImageToPdf page) makes one
  centred A4 page per JPEG or PNG image.
- **PDF merger** (`mergePdfs`, the PdfMerge page) concatenates the pages of
  several PDFs.
- **Text extractor** (`extractText`, the TextExtractor page) runs OCR on an
  image, or on every page of a PDF. It joins the page texts under
  `--- Page n ---` headers and reports progress as it goes.

The model works on values, not bytes:

- A document is the sequence of its pages. A page is its size plus the
  ordered log of drawing operations issued on it (`PdfModel.DrawOp`).
- A file either parses into such pages or does not (`PdfModel.Loaded`).
- Geometry uses exact `real` arithmetic in PDF page space: the origin is at
  the bottom left and y grows upward. A4 is 595.28 × 841.89 points, as in
  pdf-lib's `PageSizes.A4`.
- What a drawing finally shows is read off the log in painter's order: the
  last operation covering a height is the one visible there
  (`PdfModel.TopmostAt`).
- Each helper is a `method` proved against a specification function of its
  inputs: `DuplicateOps` for duplicateInvoice, `SignatureRect` for signPdf,
  `ImagePages` for convertImagesToPdf, `ConcatPages` for mergePdfs, and
  `FullText`/`PageTexts`/`PdfReports` for extractTextFromPdf. The last three
  of these methods run loops, with the invariants that tie them to those
  functions.
- Each page component is modelled as follows:
  - ImageToPdf and PdfMerge keep a mutable list of files, so each becomes a
    `class` whose methods are the handlers.
  - PdfSign and TextExtractor mostly compute from their state, so their
    handlers are functions and methods on state values.

Modules:

| module | file | models |
|---|---|---|
| PdfModel | pdf_model.dfy | pages, drawing operations, loaded files, `Math.round`, painter's visibility |
| PdfProcessor | pdf_processor.dfy | `src/utils/pdfProcessor.js` |
| PdfSigner | pdf_signer.dfy | `src/utils/pdfSigner.js` |
| ImageToPdf | image_to_pdf.dfy | `src/utils/imageToPdf.js` |
| PdfMerger | pdf_merger.dfy | `src/utils/pdfMerger.js` |
| TextExtractor | text_extractor.dfy | `src/utils/textExtractor.js` |
| FileList | file_list.dfy | the remove/move list editing of the ImageToPdf and PdfMerge pages |
| ImageToPdfTool | image_to_pdf_tool.dfy | `src/tools/ImageToPdf/ImageToPdf.jsx` |
| PdfMergeTool | pdf_merge_tool.dfy | `src/tools/PdfMerge/PdfMerge.jsx` |
| PdfSignTool | pdf_sign_tool.dfy | `src/tools/PdfSign/PdfSign.jsx` |
| TextExtractorTool | text_extractor_tool.dfy | `src/tools/TextExtractor/TextExtractor.jsx` |

Two behaviours of the code are modelled as written. The model proves them
as consequences; it does not correct them.

- **Stale page after reset.** In the signing page, `handleReset` leaves
  `pageNumber` alone, and `onDocumentLoadSuccess` does not clamp it. After
  reaching page 3 of one document and loading a two-page one, the preview
  still asks for page 3. `handleSign` then sends index 2, and `signPdf`'s
  fallback signs the last page (`PdfSignTool.StalePageAfterReset`).
- **Extensions.** The download name of the text extractor removes the
  name's last dot and what follows it, and only when that dot is in the last
  path segment and not at the end (`TextExtractorTool.StripsOnlyLastExtension`,
  `KeepsBaseWithoutExtension`, `DotNameLosesEverything`).

The helpers check fewer of their parameters than a caller might expect,
and the model keeps that:

- `splitPercentage` is a percentage, not a fraction, and nothing checks its
  range.
- `normX`/`normY` are not range-checked by `signPdf`.
- No out-of-range-parameter error exists. An invalid page index silently
  falls back to the last page.

## Model

| member | source | states |
|---|---|---|
| PdfModel.Round | src/utils/textExtractor.js:14 | `Math.round` of a finite value lies within half a unit of it (round half up) |
| PdfModel.RoundMonotone | src/tools/TextExtractor/TextExtractor.jsx:60 | rounding preserves order, so a rounded percentage never runs backwards |
| PdfModel.TopmostAt | src/utils/pdfProcessor.js:32-59 | the index returned is an operation covering the height, and no later operation covers it; None iff no operation covers it (painter's order of successive draws) |
| PdfProcessor.DefaultSplitHalves | src/utils/pdfProcessor.js:3-29 | with `splitPercentage` omitted each copy keeps exactly half of the scaled page, so the two kept bands together are one scaled page tall and copy 2's cut line is where a single full copy would end |
| PdfProcessor.DrawAndMask | src/utils/pdfProcessor.js:32-59 | appends the full scaled copy with its top at yTop, then the white mask from its bottom up to the cut line, only when the mask height is positive |
| PdfProcessor.DuplicateInvoice | src/utils/pdfProcessor.js:3-74 | unloadable bytes fail with the load error and an empty document with "PDF has no pages"; otherwise the result is exactly one A4 page drawn from the first source page alone, copy 1 at the A4 top and copy 2 at copy 1's cut line |
| PdfProcessor.KeepBounds | src/utils/pdfProcessor.js:25-29 | for a split in [0, 100] the kept height is between 0 and the scaled page height, and strictly below it iff the split is below 100 |
| PdfProcessor.DuplicateDrawOrder | src/utils/pdfProcessor.js:61-65 | the output log is copy 1, mask 1, copy 2, mask 2; each copy spans the A4 width; mask 1 reaches exactly up to A4 top − keep, where copy 2's top is; at 100 % no mask is drawn and only the two copies remain |
| PdfProcessor.VisibleLayout | src/utils/pdfProcessor.js:36-65 | at every height the page shows copy 1 in the top keep band, copy 2 in the band right below, then mask 2's white down to copy 2's bottom, and nothing elsewhere, so the two kept bands abut without overlap |
| PdfProcessor.VisibleContentIsKeptBand | src/utils/pdfProcessor.js:28-29 | wherever a copy is visible it shows a point of the source page lying in its top `split` percent |
| PdfProcessor.SquareSourceAtDefaultSplit | src/utils/pdfProcessor.test.js:9-17 | for the test's input, a 500 × 500 page at a split of 50 (the same as the default), each copy keeps 297.64 points, so the second copy starts 544.25 points up the A4 page; the test itself checks only that one A4 page comes out, and these figures are the model's own |
| PdfSigner.ResolvePageIndex | src/utils/pdfSigner.js:18-22 | a valid requested index is kept; an absent, negative or too large one becomes the last page; for a non-empty document the result is always a valid index |
| PdfSigner.FallbackScaleIsPositive | src/utils/pdfSigner.js:72-74 | because `options.scale \|\| 0.5` replaces an absent or zero scale, the default-mode signature always has positive width and height for a non-negative scale |
| PdfSigner.SignPdf | src/utils/pdfSigner.js:13-95 | unloadable bytes or an unembeddable signature fail; otherwise every page but the resolved one is unchanged, and that one keeps its size and gets exactly one more operation, the signature in SignatureRect |
| PdfSigner.PositionedModeReadsOnlyItsFields | src/utils/pdfSigner.js:40-69 | with normX given, the rectangle depends only on normX, normY and renderedWidth (renderedHeight, x, y and scale are ignored) |
| PdfSigner.PositionedKeepsAspect | src/utils/pdfSigner.js:48-55 | in the positioned mode the signature has positive height and the image's aspect ratio |
| PdfSigner.PositionedXOnPage | src/utils/pdfSigner.js:58 | a normX in [0, 1] puts the left edge on the page |
| PdfSigner.PositionedTopEdge | src/utils/pdfSigner.js:60-68 | the top edge is at height·(1 − normY), the top-origin preview position flipped into page space; for normY ≥ 0 the signature lies below the page top |
| PdfSigner.PositionedTopEdgeDecreasing | src/utils/pdfSigner.js:68 | a larger normY (further down the preview) gives a strictly lower top edge on the page |
| PdfSigner.DefaultSignatureInsidePage | src/utils/pdfSigner.js:70-79 | with neither normX, x nor y given, the signature lies on the page exactly when the scaled image plus the 50-point padding fits the page both across and up |
| ImageToPdf.ScaleToFit | src/utils/imageToPdf.js:34 | the fitted image is positive, within both bounds, and keeps the image's aspect ratio |
| ImageToPdf.SupportedIndices | src/utils/imageToPdf.js:12-23 | the positions of the JPEG/JPG/PNG inputs: all of them, only them, in increasing order |
| ImageToPdf.ConvertImagesToPdf | src/utils/imageToPdf.js:8-54 | fails iff some supported input cannot be embedded; otherwise the document is ImagePages, one page per supported input in input order |
| ImageToPdf.PagesFollowSupportedInputs | src/utils/imageToPdf.js:12-45 | the page count is the number of supported inputs, and page k is an A4 page drawing exactly one image, that of the k-th supported input |
| ImageToPdf.AllUnsupportedGivesEmptyDocument | src/utils/imageToPdf.test.js:5-19 | if no input has a supported type the conversion does not fail and the document has no pages |
| ImageToPdf.PlacedWithinMargins | src/utils/imageToPdf.js:30-45 | every placed image lies inside the 20-point margin on all four sides and is centred both ways |
| PdfMerger.MergePdfs | src/utils/pdfMerger.js:3-19 | succeeds iff every buffer loads, failing with the load error otherwise; the result is the inputs' pages concatenated in input order |
| PdfMerger.MergedPageCount | src/utils/pdfMerger.js:7-11 | the merged page count is the sum of the inputs' page counts |
| PdfMerger.MergedPageAt | src/utils/pdfMerger.js:9-10 | page p of input j is at position (pages of inputs before j) + p, so inputs and the pages within each keep their order |
| PdfMerger.ConcatPagesOfConcat | src/utils/pdfMerger.js:7-11 | merging a concatenation of input lists concatenates the merges of the parts |
| TextExtractor.TrimStart | src/utils/textExtractor.js:86 | the result is a suffix of the input, everything removed is ECMAScript whitespace, and it does not start with whitespace |
| TextExtractor.TrimEnd | src/utils/textExtractor.js:86 | the result is a prefix of the input, everything removed is ECMAScript whitespace, and it does not end with whitespace |
| TextExtractor.NatToString | src/utils/textExtractor.js:82 | the page number in the header is a non-empty string of decimal digits without a leading zero whose decimal value is the page number |
| TextExtractor.FullTextFromPages | src/utils/textExtractor.js:76-82 | the assembled text and the pages array agree: the text is exactly the blocks of the array's entries, each under its own page number, in array order |
| TextExtractor.ReportsComeFromRecognition | src/utils/textExtractor.js:12-16 | every percentage an image reports is Math.round(100 · progress) of a logged message that is recognising text with a truthy (non-zero) progress |
| TextExtractor.RecognitionIsReported | src/utils/textExtractor.js:12-16 | conversely every such message is reported, one report each, as the report numbered by how many such messages came before it |
| TextExtractor.ImageReportsOfConcat | src/utils/textExtractor.js:12-16 | reports keep the order of the log: an earlier stretch of messages is reported before a later one |
| TextExtractor.ExtractTextFromPdf | src/utils/textExtractor.js:33-89 | the text is the trimmed concatenation of the page blocks in page order, and equally the trimmed blocks of the returned pages array; the pages array is PageTexts, and the reports are those of each page in turn |
| TextExtractor.ExtractText | src/utils/textExtractor.js:98-118 | a PDF goes through the page loop (an unreadable one fails to load), any other `image/` type goes straight to OCR, and any other type fails as unsupported with no report |
| TextExtractor.PdfReportsInPageOrder | src/utils/textExtractor.js:45-74 | every PDF progress report names a page in 1..pages done and the fixed total, and page numbers never decrease |
| TextExtractor.ImageReportsInRange | src/utils/textExtractor.js:12-16 | for recogniser progress in [0, 1] every reported percentage is in [0, 100] |
| TextExtractor.PdfReportsProgressInRange | src/utils/textExtractor.js:64-74 | for recogniser progress in [0, 1] every PDF page report carries a percentage in [0, 100] |
| TextExtractor.FullTextStartsWithFirstBlock | src/utils/textExtractor.js:82 | the assembled text of a non-empty document opens with page 1's block |
| TextExtractor.TrimmedTextStartsWithFirstHeader | src/utils/textExtractor.js:86 | the returned text of a non-empty document starts with "--- Page 1 ---": trimming removes nothing at the front and only whitespace at the back |
| FileList.RemoveAt | src/tools/ImageToPdf/ImageToPdf.jsx:36-37 | an index inside the list removes exactly that entry; any other index removes nothing |
| FileList.Move | src/tools/ImageToPdf/ImageToPdf.jsx:40-54 | "up" swaps the entry with its predecessor, "down" with its successor, and other directions or moves past an end change nothing; the result is always a permutation of the list |
| FileList.MoveInPlace | src/tools/ImageToPdf/ImageToPdf.jsx:44-50 | the destructuring swap on the copied array leaves it equal to Move of its old contents |
| FileList.MoveCopy | src/tools/PdfMerge/PdfMerge.jsx:23-31 | swapping in a fresh copy of the list yields Move of the list |
| FileList.RemoveAtMultiset | src/tools/PdfMerge/PdfMerge.jsx:19-21 | removal shortens the list by one and loses exactly the removed entry |
| FileList.RemoveAtPositions | src/tools/PdfMerge/PdfMerge.jsx:19-21 | entries before the removed one keep their positions, and entries after it move up by one |
| FileList.MoveUpThenDown | src/tools/PdfMerge/PdfMerge.jsx:25-29 | moving an entry up and then back down restores the list, and conversely |
| FileList.RemoveAtMap | src/tools/ImageToPdf/ImageToPdf.jsx:32-38 | removing the same index from a file list and from its mapped preview list keeps the two in lockstep |
| FileList.MoveMap | src/tools/ImageToPdf/ImageToPdf.jsx:40-54 | the same move on a file list and on its mapped preview list keeps the two in lockstep |
| ImageToPdfTool.ImageFiles | src/tools/ImageToPdf/ImageToPdf.jsx:17 | the filtered selection holds exactly the selected files whose type starts with `image/` |
| ImageToPdfTool.ImageFilesOfConcat | src/tools/ImageToPdf/ImageToPdf.jsx:17 | the filter keeps order: filtering a concatenation concatenates the filtered parts |
| ImageToPdfTool.ImageToPdfView.constructor | src/tools/ImageToPdf/ImageToPdf.jsx:9-13 | the page starts with no files, no previews, no document, no error, not processing |
| ImageToPdfTool.ImageToPdfView.HandleFileSelect | src/tools/ImageToPdf/ImageToPdf.jsx:15-30 | a non-empty selection with no image only sets "Please select image files (JPG, PNG)."; otherwise its images are appended in order, previews stay in lockstep, and the error clears |
| ImageToPdfTool.ImageToPdfView.RemoveFile | src/tools/ImageToPdf/ImageToPdf.jsx:32-38 | the entry leaves both lists at once, which stay in lockstep |
| ImageToPdfTool.ImageToPdfView.MoveFile | src/tools/ImageToPdf/ImageToPdf.jsx:40-54 | files become Move of the old files, the previews move the same way, and nothing else changes |
| ImageToPdfTool.ImageToPdfView.HandleConvert | src/tools/ImageToPdf/ImageToPdf.jsx:56-82 | no files only sets "Please select at least 1 image."; otherwise the files go to the converter in list order, and the page ends not processing with the document or "Failed to convert images to PDF. Please try again." |
| PdfMergeTool.PdfMergeView.constructor | src/tools/PdfMerge/PdfMerge.jsx:9-12 | the page starts with no files, no document, no error, not processing |
| PdfMergeTool.PdfMergeView.HandleFileSelect | src/tools/PdfMerge/PdfMerge.jsx:14-17 | the selection is appended after the current files, in its own order |
| PdfMergeTool.PdfMergeView.RemoveFile | src/tools/PdfMerge/PdfMerge.jsx:19-21 | the files become RemoveAt of the old files, and nothing else changes |
| PdfMergeTool.PdfMergeView.MoveFile | src/tools/PdfMerge/PdfMerge.jsx:23-31 | the files become Move of the old files, and nothing else changes |
| PdfMergeTool.PdfMergeView.HandleMerge | src/tools/PdfMerge/PdfMerge.jsx:33-56 | fewer than two files only sets "Please select at least 2 PDF files to merge."; otherwise the merged document is the files' pages in list order, or the merge error when some file does not load |
| PdfMergeTool.MergeAfterMoveUp | src/tools/PdfMerge/PdfMerge.jsx:25-26 | after moving a file up, the merge has that file's pages and its predecessor's trading places, and every other page unmoved |
| PdfSignTool.NavigationKeepsInRange | src/tools/PdfSign/PdfSign.jsx:343-361 | Previous and Next step the page by one only when enabled, never leave 1..numPages, and do not touch numPages |
| PdfSignTool.LoadKeepsInRangeIff | src/tools/PdfSign/PdfSign.jsx:44-46 | loading a document keeps pageNumber, which is then in range iff it is between 1 and the new page count |
| PdfSignTool.StalePageAfterReset | src/tools/PdfSign/PdfSign.jsx:149-159 | after page 3 of a three-page file, Reset and a two-page file, the preview asks for page 3, out of range, and the sign request falls back to the last page |
| PdfSignTool.NormalizedInUnitSquare | src/tools/PdfSign/PdfSign.jsx:124-126 | a position inside the preview gives fractions in [0, 1] |
| PdfSignTool.SignedPositionMatchesPreview | src/tools/PdfSign/PdfSign.jsx:125-136 | composed with signPdf, the signature's left edge is the preview x scaled by page width over preview width, and its top edge is the preview y scaled by page height over preview height, measured down from the page top |
| PdfSignTool.ShownPageIsSigned | src/tools/PdfSign/PdfSign.jsx:131 | while the preview shows a page of the loaded document, that page is the one signed (the last-page fallback is not taken) |
| PdfSignTool.HandleSign | src/tools/PdfSign/PdfSign.jsx:102-147 | no signature only sets "Please create or upload a signature first."; a missing file or preview layer ends in "Failed to sign PDF. Please try again." before signPdf; otherwise signPdf gets SignRequest and its document or failure is recorded, processing ended |
| PdfSignTool.TypedSignatureFits | src/tools/PdfSign/PdfSign.jsx:89-95 | the typed text fits on its canvas with more than 19 pixels to spare, its middle baseline is at mid-height, and the PNG is a signature signPdf can embed |
| TextExtractorTool.HandleFileSelect | src/tools/TextExtractor/TextExtractor.jsx:18-42 | no file changes nothing; a type other than `image/*` or PDF only sets the error; an accepted file replaces the current one, clears error, text and progress, and gets a preview iff it is an image |
| TextExtractorTool.OverallProgressValue | src/tools/TextExtractor/TextExtractor.jsx:60 | the overall percentage is the rounded share of all pages' work done, (100·(page − 1) + pageProgress) / totalPages |
| TextExtractorTool.OverallProgressBounds | src/tools/TextExtractor/TextExtractor.jsx:60 | for a page of the document and a page percentage in [0, 100] the overall percentage is in [0, 100] |
| TextExtractorTool.OverallProgressEndpoints | src/tools/TextExtractor/TextExtractor.jsx:60 | it is 0 at the start of page 1 and 100 at the end of the last page |
| TextExtractorTool.OverallProgressMonotone | src/tools/TextExtractor/TextExtractor.jsx:60 | within a page more page progress never shows less overall progress |
| TextExtractorTool.OverallProgressContinuous | src/tools/TextExtractor/TextExtractor.jsx:60 | the end of one page and the start of the next show the same percentage |
| TextExtractorTool.ApplyReports | src/tools/TextExtractor/TextExtractor.jsx:53-64 | after a run of reports only the last one shows: its percentage and its detail line; no report leaves the state as it was |
| TextExtractorTool.PdfProgressShownInRange | src/tools/TextExtractor/TextExtractor.jsx:59-62 | every percentage shown while a PDF is processed is in [0, 100], given recogniser progress in [0, 1] |
| TextExtractorTool.ImageProgressShownInRange | src/tools/TextExtractor/TextExtractor.jsx:54-56 | for an image each report is a plain number shown as it is, in [0, 100], with the detail "Recognizing text...", given recogniser progress in [0, 1] |
| TextExtractorTool.HandleExtract | src/tools/TextExtractor/TextExtractor.jsx:44-74 | no file does nothing; otherwise processing ends with progress 100 and either the extracted text or "Failed to extract text. Please try again with a clearer image.", and the detail line, which is never reset, is the last report's detail or, when no report comes, the previous run's |
| TextExtractorTool.ScanBack | src/tools/TextExtractor/TextExtractor.jsx:91 | finds the place where `/\.[^/.]+$/` matches, or proves there is none at or before the start point |
| TextExtractorTool.StripExtension | src/tools/TextExtractor/TextExtractor.jsx:91 | where the pattern matches, the name is cut at the match; where it nowhere matches, the name is kept whole |
| TextExtractorTool.StripsOnlyLastExtension | src/tools/TextExtractor/TextExtractor.jsx:91 | "a.tar.gz" loses only ".gz" |
| TextExtractorTool.KeepsBaseWithoutExtension | src/tools/TextExtractor/TextExtractor.jsx:91 | "scan", "scan." and "v1.2/scan" are kept whole |
| TextExtractorTool.DotNameLosesEverything | src/tools/TextExtractor/TextExtractor.jsx:91 | ".png" becomes the empty name |

## Left out

- The internals of pdf-lib, pdf.js and Tesseract are not part of this model:
  - PDF parsing and serialisation (`PDFDocument.load`, `save`, byte output);
  - page embedding and copying (each is represented by an operation or a
    page value);
  - PNG/JPEG decoding (the decoded size is an input, absent when decoding
    fails);
  - page rendering to a canvas;
  - character recognition (each page's OCR result and logged progress are
    inputs).
- ImageToPdf.ScaleToFit: pdf-lib's `scaleToFit` is not part of this model. It
  is taken as the uniform scale by the smaller of the two bound ratios, and
  the contract states only the fit and aspect properties.
- Numbers are exact reals and unbounded integers. IEEE doubles, NaN and
  Infinity, and floating-point rounding in comparisons such as
  `maskHeight > 0` are not modelled.
- PdfProcessor.DuplicateInvoice: requires the first page's width to be
  positive. A zero width would give an infinite scale in the source. A zero
  height is modelled: both copies and the mask have zero height, so no mask
  is drawn. The layout lemmas (KeepBounds, DuplicateDrawOrder, VisibleLayout,
  VisibleContentIsKeptBand) assume a positive height as well.
- PdfSigner.SignPdf: requires a loaded document to have pages, since the
  source indexes `pages[-1]` for an empty one, and an undefined page then
  throws. It also requires, through WellFormedOptions, that normX comes with
  normY and a positive renderedWidth (otherwise the source computes NaN or
  Infinity).
- PdfSignTool.HandleSign: requires the rendered preview to have positive
  size. The ImageToPdf and PdfMerge MoveFile methods require an index inside
  the list, as their buttons only ever pass one.
- TextExtractorTool.DownloadName: has no contract of its own. Its behaviour
  is stated on StripExtension, and the suffix is a constant appended.
- Object URLs: `URL.createObjectURL`/`revokeObjectURL` are modelled only as a
  preview identified by its file. The memory the revocation frees, and the
  URL of the produced PDF, are not modelled (the document itself is kept).
- The `await`/`async` interleaving and React's batched state updates are not
  modelled. Each handler runs to completion on the state it was called with,
  and `setTimeout` delays and the "UI flush" pause are dropped.
- OCR failing part-way through a PDF is not modelled. Recognition of each
  page is an input that always yields a result, and only an unreadable PDF
  or an unsupported type fails.
- Handlers not modelled, because they only reset state, talk to the browser
  or draw:
  - the `handleReset` of ImageToPdf and PdfMerge;
  - TextExtractor `handleCopy` (clipboard) and `handleDownload` (beyond the
    file name);
  - PdfSign `handleUploadSignature` (FileReader), `clearCanvas`, the
    `handleFileSelect` that stores the file, and the draw mode of
    `updatePreview` (signature pad).
  - PdfSign's `handleReset` is modelled only for its effect on pagination, as
    the identity.
- DropZone, page layout and styling, routing, SEO and the documentation pages
  are presentation only and are not modelled.
- The invoice duplicator page's own slider (25 to 75) and its glue code are
  outside the modelled core. duplicateInvoice itself accepts any split.
