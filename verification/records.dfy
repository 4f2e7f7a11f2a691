/** The page records the ingestion scripts produce: a `content` string and
    a `metadata` dictionary, plus the fixed records that stand in for a page
    or a whole document that failed. Also the parts the scripts share when
    assembling a page: the OCR fallback threshold and the optional image
    section appended to the page text. */
module Records {
  import opened Wrappers
  import opened Text

  /** The `has_images` and `image_count` metadata entries. */
  datatype ImageStats = ImageStats(hasImages: bool, imageCount: nat)

  /** The `metadata` dictionary. Error records and the records of
      pdf_extractor.py carry no image entries (`images == None`). */
  datatype Metadata = Metadata(source: string, page: nat, heading: string, images: Option<ImageStats>)

  /** One `{"content": ..., "metadata": ...}` entry. */
  datatype Record = Record(content: string, metadata: Metadata)

  /** What the library calls yield for one page: the plain text, the HTML
      rendering, what `ocr_page` would return for it, and, per image of
      the page, the text the image step produced (a LLaVA reply or the OCR
      text of the image), or `None` when that step raised. */
  datatype PageSource = PageSource(text: string, html: string, ocrText: string, images: seq<Option<string>>)

  /** A page either yields its sources or raises with a message. */
  datatype PageOutcome = Processed(source: PageSource) | Failed(error: string)

  /** A document run: the outcome of each page, in order, and the message
      of an exception that ended the run (opening the file, or iterating
      its pages), if one did. */
  datatype DocumentRun = DocumentRun(pages: seq<PageOutcome>, failure: Option<string>)

  const ErrorPageHeading: string := "ERROR_PAGE"
  const ErrorDocumentHeading: string := "ERROR_DOCUMENT"

  /** What the error records' content opens with; the message follows,
      then `]`. */
  const ErrorPageLead: string := "[PDF PROCESSING ERROR: "
  const ErrorDocumentLead: string := "[FAILED TO PROCESS PDF: "

  /** Pages whose stripped text is shorter than this are sent to OCR. */
  const OcrThreshold: nat := 50

  /** `len(text.strip()) < 50`. */
  predicate NeedsOcr(text: string) {
    |Strip(text)| < OcrThreshold
  }

  /** The record of a page that was processed: page numbers start at 1,
      `has_images` holds exactly when `image_count` is positive. */
  function PageRecord(source: string, index: nat, content: string, heading: string, imageCount: nat): (r: Record)
    ensures r.content == content
    ensures r.metadata.source == source && r.metadata.page == index + 1 && r.metadata.heading == heading
    ensures r.metadata.images.Some? && r.metadata.images.value.imageCount == imageCount
    ensures r.metadata.images.value.hasImages <==> imageCount > 0
  {
    Record(content, Metadata(source, index + 1, heading, Some(ImageStats(imageCount > 0, imageCount))))
  }

  /** The record of a page that raised: its own page number, heading
      `ERROR_PAGE`, and the message in the content. */
  function ErrorPageRecord(source: string, index: nat, error: string): (r: Record)
    ensures r.metadata == Metadata(source, index + 1, ErrorPageHeading, None)
    ensures StartsWith(r.content, ErrorPageLead) && EndsWith(r.content, "]")
    ensures OccursAt(r.content, |ErrorPageLead|, error)
    ensures |r.content| == |ErrorPageLead| + |error| + 1
  {
    ThreeParts(ErrorPageLead, error, "]");
    Record(ErrorPageLead + error + "]", Metadata(source, index + 1, ErrorPageHeading, None))
  }

  /** The record of a document that raised: page 0, heading
      `ERROR_DOCUMENT`, and the message in the content. */
  function ErrorDocumentRecord(source: string, error: string): (r: Record)
    ensures r.metadata == Metadata(source, 0, ErrorDocumentHeading, None)
    ensures StartsWith(r.content, ErrorDocumentLead) && EndsWith(r.content, "]")
    ensures OccursAt(r.content, |ErrorDocumentLead|, error)
    ensures |r.content| == |ErrorDocumentLead| + |error| + 1
  {
    ThreeParts(ErrorDocumentLead, error, "]");
    Record(ErrorDocumentLead + error + "]", Metadata(source, 0, ErrorDocumentHeading, None))
  }

  /** The message can be read back from an error record's content: the
      text between the lead and the closing `]`. So different messages
      give different records. */
  lemma ErrorRecordsKeepMessage(source: string, index: nat, error: string)
    ensures var c := ErrorPageRecord(source, index, error).content;
            c[|ErrorPageLead|..|c| - 1] == error
    ensures var c := ErrorDocumentRecord(source, error).content;
            c[|ErrorDocumentLead|..|c| - 1] == error
  {
    var p := ErrorPageRecord(source, index, error).content;
    assert OccursAt(p, |ErrorPageLead|, error);
    var d := ErrorDocumentRecord(source, error).content;
    assert OccursAt(d, |ErrorDocumentLead|, error);
  }

  /** The page loop from page `index` on: each processed page is assembled,
      each failed page becomes its error record; the loop goes on after a
      failed page. */
  function RunPages(source: string, pages: seq<PageOutcome>, index: nat, assemble: (nat, PageSource) -> Record): (r: seq<Record>)
    ensures |r| == |pages|
    ensures forall i :: 0 <= i < |pages| && pages[i].Processed? ==> r[i] == assemble(index + i, pages[i].source)
    ensures forall i :: 0 <= i < |pages| && pages[i].Failed? ==> r[i] == ErrorPageRecord(source, index + i, pages[i].error)
    decreases |pages|
  {
    if pages == [] then []
    else
      var first := match pages[0]
        case Processed(p) => assemble(index, p)
        case Failed(e) => ErrorPageRecord(source, index, e);
      [first] + RunPages(source, pages[1..], index + 1, assemble)
  }

  /** The document loop: the page records, then, when the run was cut
      short by an exception, the document error record after them. */
  function RunDocument(source: string, run: DocumentRun, assemble: (nat, PageSource) -> Record): (r: seq<Record>)
  {
    RunPages(source, run.pages, 0, assemble)
      + (match run.failure
         case None => []
         case Some(e) => [ErrorDocumentRecord(source, e)])
  }

  /** What every script's document loop guarantees: one record per page,
      in page order and numbered from 1, an `ERROR_PAGE` record exactly for
      each failed page, image entries present exactly on processed pages
      and consistent with each other, and the `ERROR_DOCUMENT` record with
      page 0 last exactly when the run was cut short. */
  predicate WellFormedOutput(source: string, run: DocumentRun, r: seq<Record>) {
    && |r| == |run.pages| + (if run.failure.Some? then 1 else 0)
    && (forall i :: 0 <= i < |run.pages| ==>
          && r[i].metadata.page == i + 1
          && r[i].metadata.source == source
          && (run.pages[i].Failed? ==> r[i] == ErrorPageRecord(source, i, run.pages[i].error))
          && (r[i].metadata.images.Some? <==> run.pages[i].Processed?)
          && (r[i].metadata.images.Some? ==>
                (r[i].metadata.images.value.hasImages <==> r[i].metadata.images.value.imageCount > 0)))
    && (run.failure.Some? ==> r[|r| - 1] == ErrorDocumentRecord(source, run.failure.value))
  }

  /** A page assembler that numbers from 1, names the source and fills
      consistent image entries makes the whole document well formed. */
  lemma RunDocumentWellFormed(source: string, run: DocumentRun, assemble: (nat, PageSource) -> Record)
    requires forall i: nat, p: PageSource ::
               && assemble(i, p).metadata.page == i + 1
               && assemble(i, p).metadata.source == source
               && assemble(i, p).metadata.images.Some?
               && (assemble(i, p).metadata.images.value.hasImages <==> assemble(i, p).metadata.images.value.imageCount > 0)
    ensures WellFormedOutput(source, run, RunDocument(source, run, assemble))
  {
    var r := RunDocument(source, run, assemble);
    var pages := RunPages(source, run.pages, 0, assemble);
    assert r[..|run.pages|] == pages;
    forall i | 0 <= i < |run.pages|
      ensures r[i].metadata.page == i + 1 && r[i].metadata.source == source
      ensures r[i].metadata.images.Some? <==> run.pages[i].Processed?
    {
      assert r[i] == pages[i];
    }
  }

  /** A document that cannot be opened yields exactly one record: page 0,
      heading `ERROR_DOCUMENT`. */
  lemma UnopenableDocument(source: string, error: string, assemble: (nat, PageSource) -> Record)
    ensures RunDocument(source, DocumentRun([], Some(error)), assemble) == [ErrorDocumentRecord(source, error)]
  {
  }

  /** `text + title + sep.join(entries)` when there are entries, the text
      alone otherwise: the image section a page gets only when it has
      image descriptions. */
  function WithSection(text: string, title: string, sep: string, entries: seq<string>): (r: string)
    requires title != []
    ensures StartsWith(r, text)
    ensures r == text <==> entries == []
    ensures entries != [] ==> r[|text|..] == title + Join(sep, entries)
  {
    if entries == [] then text
    else
      var r := text + title + Join(sep, entries);
      assert r[..|text|] == text;
      r
  }
}
