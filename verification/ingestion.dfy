/** The per-page assembly of the four PDF ingestion scripts. They share the
    page loop, the record layout and the error records, and differ in
    whether short pages are replaced by OCR text, how images are turned
    into description lines, which section title and separator those lines
    get, and whether the heading is detected from the page's HTML. */
module Ingestion {
  import opened Wrappers
  import opened Text
  import opened Records
  import opened ImageDescriptions
  import HtmlHeadings

  /** The four scripts:
      `BackendLlava`  backend/document_processor.py `extract_text_with_llava`
      `Layout`        document_processor.py `extract_text_with_layout`
      `Llava`         document_processor_llava.py `extract_text_with_llava`
      `Enhanced`      enhanced_pdf_extractor.py `extract_text_with_layout` */
  datatype Variant = BackendLlava | Layout | Llava | Enhanced

  /** The `OCR_ENABLED` and `EXTRACT_IMAGES` settings the scripts import
      (enhanced_pdf_extractor.py consults neither). */
  datatype Config = Config(ocrEnabled: bool, extractImages: bool)

  /** Both settings are on in config.py and backend/config.py. */
  const DefaultConfig: Config := Config(true, true)

  /** Does the script describe images with LLaVA (rather than OCR)? */
  predicate UsesLlava(v: Variant) {
    v == BackendLlava || v == Llava
  }

  /** Does the script replace a short page's text by its OCR text? */
  predicate OcrReplaces(v: Variant, cfg: Config) {
    match v
    case BackendLlava => cfg.ocrEnabled
    case Layout => cfg.ocrEnabled
    case Llava => false
    case Enhanced => true
  }

  /** Does the script look at the page's images at all? */
  predicate DescribesImages(v: Variant, cfg: Config) {
    match v
    case BackendLlava => cfg.extractImages
    case Layout => cfg.extractImages && cfg.ocrEnabled
    case Llava => cfg.extractImages
    case Enhanced => true
  }

  /** The text that opens the page's content. */
  function PageText(v: Variant, cfg: Config, p: PageSource): string {
    if OcrReplaces(v, cfg) && NeedsOcr(p.text) then p.ocrText else p.text
  }

  /** The description lines of a page: LLaVA replies or non-blank OCR
      texts, numbered from 1 by image position. */
  function Descriptions(v: Variant, cfg: Config, index: nat, p: PageSource): seq<string> {
    if !DescribesImages(v, cfg) then []
    else if UsesLlava(v) then LlavaEntries(index + 1, p.images, 0)
    else OcrEntries(index + 1, p.images, 0)
  }

  /** How many images a page reports, counted independently of the lines:
      every image that produced a reply for the LLaVA scripts, every
      image with non-blank OCR text for the OCR scripts. */
  function ImageCount(v: Variant, cfg: Config, p: PageSource): nat {
    if !DescribesImages(v, cfg) then 0
    else if UsesLlava(v) then CountSome(p.images)
    else CountKept(p.images)
  }

  function SectionTitle(v: Variant): string {
    if UsesLlava(v) then LlavaSectionTitle else OcrSectionTitle
  }

  function SectionSeparator(v: Variant): string {
    if UsesLlava(v) then LlavaSeparator else OcrSeparator
  }

  /** document_processor_llava.py leaves the heading empty. */
  function Heading(v: Variant, html: string): string {
    if v == Llava then "" else HtmlHeadings.PageHeading(html)
  }

  /** The record of the page with 0-based position `index`. */
  function AssemblePage(v: Variant, cfg: Config, source: string, index: nat, p: PageSource): (r: Record)
    ensures r.metadata.source == source && r.metadata.page == index + 1
    ensures r.metadata.heading == Heading(v, p.html)
    ensures r.metadata.images == Some(ImageStats(ImageCount(v, cfg, p) > 0, ImageCount(v, cfg, p)))
    ensures StartsWith(r.content, PageText(v, cfg, p))
    ensures r.content == PageText(v, cfg, p) <==> ImageCount(v, cfg, p) == 0
    ensures ImageCount(v, cfg, p) > 0 ==>
              r.content[|PageText(v, cfg, p)|..]
                == SectionTitle(v) + Join(SectionSeparator(v), Descriptions(v, cfg, index, p))
  {
    var entries := Descriptions(v, cfg, index, p);
    assert |entries| == ImageCount(v, cfg, p);
    PageRecord(source, index,
               WithSection(PageText(v, cfg, p), SectionTitle(v), SectionSeparator(v), entries),
               Heading(v, p.html), |entries|)
  }

  /** The whole document: the shared page loop over `AssemblePage`. */
  function ExtractDocument(v: Variant, cfg: Config, source: string, run: DocumentRun): (r: seq<Record>)
    ensures WellFormedOutput(source, run, r)
    ensures forall i :: 0 <= i < |run.pages| && run.pages[i].Processed? ==>
              r[i] == AssemblePage(v, cfg, source, i, run.pages[i].source)
  {
    var assemble := (i: nat, p: PageSource) => AssemblePage(v, cfg, source, i, p);
    RunDocumentWellFormed(source, run, assemble);
    RunDocument(source, run, assemble)
  }

  /** A page with at least 50 non-blank-padded characters keeps its own
      text, in every script and under every setting. */
  lemma LongPageKeepsText(v: Variant, cfg: Config, source: string, index: nat, p: PageSource)
    requires !NeedsOcr(p.text)
    ensures StartsWith(AssemblePage(v, cfg, source, index, p).content, p.text)
  {
  }

  /** The OCR text replaces the page text only when OCR is on for that
      script and the page is short. */
  lemma OcrOnlyWhenEnabled(v: Variant, cfg: Config, p: PageSource)
    ensures PageText(v, cfg, p) != p.text ==> OcrReplaces(v, cfg) && NeedsOcr(p.text) && PageText(v, cfg, p) == p.ocrText
    ensures v == Llava ==> PageText(v, cfg, p) == p.text
  {
  }

  /** document_processor_llava.py never fills in a heading and never uses
      the OCR text, whatever the page looks like. */
  lemma LlavaPageHasNoHeading(cfg: Config, source: string, index: nat, p: PageSource)
    ensures AssemblePage(Llava, cfg, source, index, p).metadata.heading == ""
    ensures StartsWith(AssemblePage(Llava, cfg, source, index, p).content, p.text)
  {
  }

  /** With image extraction off, the LLaVA and layout scripts report no
      images and their content is the page text alone. */
  lemma NoImagesWhenDisabled(v: Variant, cfg: Config, source: string, index: nat, p: PageSource)
    requires v != Enhanced && !cfg.extractImages
    ensures AssemblePage(v, cfg, source, index, p).content == PageText(v, cfg, p)
    ensures AssemblePage(v, cfg, source, index, p).metadata.images == Some(ImageStats(false, 0))
  {
  }

  /** The gates in front of the image loop. The LLaVA scripts check
      `EXTRACT_IMAGES`. document_processor.py checks `EXTRACT_IMAGES` and
      then `OCR_ENABLED` per image. enhanced_pdf_extractor.py checks only its
      own constant `EXTRACT_IMAGES = True`. A page reports images exactly
      when its gate is open and some image produced a description: a LLaVA
      reply, or OCR text that is not blank. */
  lemma ImageGates(v: Variant, cfg: Config, index: nat, p: PageSource)
    ensures DescribesImages(v, cfg) <==>
              v == Enhanced || (cfg.extractImages && (v == Layout ==> cfg.ocrEnabled))
    ensures ImageCount(v, cfg, p) > 0 <==>
              && DescribesImages(v, cfg)
              && exists k :: 0 <= k < |p.images| && (if UsesLlava(v) then p.images[k].Some? else Kept(p.images[k]))
  {
    if DescribesImages(v, cfg) {
      var r := Descriptions(v, cfg, index, p);
      assert |r| == ImageCount(v, cfg, p);
      if |r| > 0 {
        assert r[0] in r;
      }
      if k :| 0 <= k < |p.images| && (if UsesLlava(v) then p.images[k].Some? else Kept(p.images[k])) {
        if UsesLlava(v) {
          assert LlavaEntry(index + 1, k + 1, p.images[k].value) in r;
        } else {
          assert OcrEntry(index + 1, k + 1, p.images[k].value) in r;
        }
      }
    }
  }

  /** An image whose extraction or description raised is skipped but still
      takes up its number: appending a failed image to a page changes
      nothing, and the next image is numbered after it. */
  lemma FailedImageKeepsNumbering(page: nat, xs: seq<Option<string>>, reply: string)
    ensures LlavaEntries(page, xs + [None] + [Some(reply)], 0)
            == LlavaEntries(page, xs, 0) + [LlavaEntry(page, |xs| + 2, reply)]
  {
    LlavaEntriesAppend(page, xs + [None], [Some(reply)], 0);
    LlavaEntriesAppend(page, xs, [None], 0);
  }
}
