# SMC documentation assistant — a Dafny model of its text pipeline

The assistant answers questions about SMC device manuals. It turns PDF pages
into records (`content` plus `metadata`), stores them in a vector database,
and answers questions from the records it retrieves. This project models the
deterministic text and record logic of that pipeline and proves properties
about it:

- **Heading detection** (`HtmlHeadings`). Three regular-expression passes over
  a page's HTML collect candidate headings: large font, bold, and keyword
  segments. The function is identical in three scripts, so it is defined once.
  The regular expressions become explicit scanners with the leftmost-match,
  resume-after-match behaviour of `re.finditer`.
- **Image context** (`ImageContext`). The text blocks near an image are those
  that strictly overlap its rectangle widened by 20 on every side. They are
  joined with spaces and cut to a budget with `"..."`.
- **Page records** (`Records`, `ImageDescriptions`, `Ingestion`). There are
  four variants of the page loop:
  - backend/document_processor.py and document_processor_llava.py describe
    images with LLaVA;
  - document_processor.py and enhanced_pdf_extractor.py describe images with
    OCR.

  The variants differ in five ways: whether short pages are replaced by OCR
  text, which settings gate the image loop (`EXTRACT_IMAGES`, and for
  document_processor.py also `OCR_ENABLED`), the description format, the
  section title and separator, and whether a heading is detected. All four share the record layout and the
  `ERROR_PAGE` and `ERROR_DOCUMENT` records.
- **Plain-text extraction** (`PdfExtractor`). It produces one record per page
  that has text. The heading is the first line that names a section keyword.
  The directory walk keeps only `.pdf` names.
- **Answering** (`QaSystem`). It covers:
  - reshaping a query result into context entries;
  - the retrieval-only answer;
  - the prompt sent to the local model;
  - mapping the model call's outcome to an answer, with the context always
    handed back.

Library outputs are plain inputs to the model: page text, page HTML, text
blocks with coordinates, what `ocr_page` returns, per-image LLaVA replies or
OCR texts, and query results. Coordinates are exact `real`s. The settings
`OCR_ENABLED`, `EXTRACT_IMAGES` and the context budget are parameters;
`Ingestion.DefaultConfig` records that both settings are on in config.py and
backend/config.py.

## Model

| member | source | states |
|---|---|---|
| HtmlHeadings.TailFrom | backend/document_processor.py:118-119 | a match of `[^>]*>([^<]+)<` captures non-empty text without `<` and ends past the capture and its two delimiters |
| HtmlHeadings.TailFromIff | backend/document_processor.py:118-119 | `[^>]*>([^<]+)<` matches at a position, with capture `t` and end `n`, exactly when the text there is a run without `>`, then `>`, then `t` (non-empty, no `<`), then `<`; `n` is just past that `<` |
| HtmlHeadings.MatchFontSize | backend/document_processor.py:118 | a font-size match consumes part of the input and captures non-empty text without `<` |
| HtmlHeadings.MatchFontSizeIff | backend/document_processor.py:118 | the font-size pattern matches at the start of a text, with size `v`, capture `t` and length `n`, exactly when the text is `font-size:`, then a non-empty digit run whose value is `v`, then `px`, a run without `>`, `>`, `t` (non-empty, no `<`) and `<`; `n` spans exactly these pieces |
| HtmlHeadings.MatchBold | backend/document_processor.py:119 | a bold match captures non-empty text without `<` and carries no size |
| HtmlHeadings.MatchBoldIff | backend/document_processor.py:119 | the bold pattern matches at the start of a text, with capture `t` and length `n`, exactly when the text is `font-weight:bold`, then a run without `>`, `>`, `t` (non-empty, no `<`) and `<`; the hit has size 0 and `n` spans exactly these pieces |
| HtmlHeadings.MatchKeyword | backend/document_processor.py:137-138 | a keyword match opens at `>`, closes at the next `<`, and captures the whole segment in between, which holds a keyword case-insensitively |
| HtmlHeadings.MatchKeywordSegment | backend/document_processor.py:137-138 | at `>`, a segment without `<`, and `<`, the keyword pattern matches exactly when the segment holds a keyword ignoring case, and then it captures the whole segment, since the leading `[^<]*` is greedy |
| HtmlHeadings.MatchKeywordIff | backend/document_processor.py:137-138 | the keyword pattern matches at the start of a text, with capture `t` and length `n`, exactly when the text is `>`, then `t` (no `<`, holding a keyword ignoring case), then `<`; `n` is the length of `t` plus 2 |
| HtmlHeadings.Fold | backend/document_processor.py:138 | `re.IGNORECASE` compares each character after folding; ASCII capitals fold to their lower-case letters |
| HtmlHeadings.MatchAt | backend/document_processor.py:118-138 | whatever pattern matches, the capture is non-empty and has no `<`; only font-size hits carry a size; keyword hits hold a keyword |
| HtmlHeadings.Scan | backend/document_processor.py:122 | every match reported by `finditer` has non-empty text without `<`, and keyword matches hold a keyword |
| HtmlHeadings.ScanEmptyIff | backend/document_processor.py:122 | `finditer` reports nothing exactly when no position of the input starts a match |
| HtmlHeadings.ScanSkip | backend/document_processor.py:131 | a position where the pattern does not match contributes nothing |
| HtmlHeadings.ScanTake | backend/document_processor.py:131 | a match at the current position is reported, and the scan resumes after its end |
| HtmlHeadings.ScanLeftmost | backend/document_processor.py:137-138 | the first reported match is the leftmost one, and scanning resumes right after it, so matches never overlap |
| HtmlHeadings.TextsStripped | backend/document_processor.py:132 | every captured text is stored stripped |
| HtmlHeadings.Texts | backend/document_processor.py:124 | one stripped text per match, in match order |
| HtmlHeadings.FontSizePass | backend/document_processor.py:122-128 | pass 1 adds at most one text per match; FontSizePassSpec states which |
| HtmlHeadings.FontSizePassSpec | backend/document_processor.py:122-128 | a text enters pass 1 exactly when some font-size match above 14px strips to it and it is non-empty and shorter than 100; every entry is a valid heading |
| HtmlHeadings.FontSizePassSnoc | backend/document_processor.py:122-128 | pass 1 handles one match at a time, in order, and may repeat a text |
| HtmlHeadings.AddNew | backend/document_processor.py:131-134 | a later pass keeps the list built so far as a prefix; a text is present afterwards exactly when it was before or is an acceptable candidate |
| HtmlHeadings.AddNewNoRepeats | backend/document_processor.py:133-134 | each entry a later pass adds is acceptable, is one of its candidates, and was not already in the list |
| HtmlHeadings.AddNewSnoc | backend/document_processor.py:131-134 | a later pass processes its candidates one at a time, appending a candidate only when it is acceptable and new |
| HtmlHeadings.CollectLayout | backend/document_processor.py:122-143 | the list is the font-size block, then a block of new bold texts, then a block of new keyword texts; keyword entries are never bold texts |
| HtmlHeadings.KeywordsNotBold | backend/document_processor.py:131-143 | a text the keyword pass adds was never an acceptable bold candidate, since every such candidate is already in the list |
| HtmlHeadings.FreshFromJoin | enhanced_pdf_extractor.py:171-182 | freshness of two adjacent segments joins: if each segment of the heading list repeats nothing before it, neither does their concatenation |
| HtmlHeadings.ExtractHeadingsSpec | backend/document_processor.py:112-143 | every heading is stripped, non-empty and shorter than 100. The order is font-size, then bold, then keyword. Only the font-size block may repeat. A text is listed exactly when one of the three passes offers it |
| HtmlHeadings.PageHeadingSpec | backend/document_processor.py:243-244 | the page heading is `""` exactly when no pass offers a heading; otherwise it is a valid heading, and it is the first font-size heading whenever there is one |
| HtmlHeadings.FontSizeLoop | enhanced_pdf_extractor.py:163-169 | the loop of pass 1 computes the pass |
| HtmlHeadings.AddNewLoop | enhanced_pdf_extractor.py:177-182 | the loop of a later pass, with its `not in headings` check, computes the pass |
| HtmlHeadings.CollectHeadings | document_processor.py:177-207 | the three loops together build the same list as the passes |
| ImageContext.Expand | backend/document_processor.py:93-96 | the image box is widened by 20 on all four sides |
| ImageContext.NearbyBlocks | backend/document_processor.py:90-101 | at most one entry per text block; NearbyBlocksSpec states which |
| ImageContext.NearbyBlocksSpec | backend/document_processor.py:90-101 | a block is kept exactly when it is on the page and strictly overlaps the widened image box |
| ImageContext.NearbyBlocksAppend | document_processor_llava.py:91-102 | kept blocks stay in page order |
| ImageContext.BlockTexts | backend/document_processor.py:101 | the kept text of each block is its text element |
| ImageContext.Truncate | backend/document_processor.py:107-108 | text within the budget is unchanged; longer text becomes its first `context_size` characters plus `"..."`; the result is never longer than the budget plus 3 |
| ImageContext.TextAroundImageSpec | document_processor_llava.py:104-111 | the joined context is unchanged when it fits and truncated with `"..."` otherwise; it is empty when no block is near |
| ImageContext.CollectNearby | backend/document_processor.py:90-101 | the block loop keeps exactly the texts of the nearby blocks, in page order |
| ImageContext.CollectTextAroundImage | backend/document_processor.py:83-110 | the block loop followed by the join and the trim computes the nearby text and stays within the length bound |
| Records.PageRecord | backend/document_processor.py:247-256 | a page record carries the page's index plus 1, the source and the heading; `has_images` holds exactly when `image_count` is positive |
| Records.ErrorPageRecord | backend/document_processor.py:264-271 | a failed page gives a record for its own page number with heading `ERROR_PAGE`, no image fields, and the content is exactly `[PDF PROCESSING ERROR: `, the message and `]` |
| Records.ErrorDocumentRecord | backend/document_processor.py:273-283 | a failed document gives a page-0 record with heading `ERROR_DOCUMENT` and content that is exactly `[FAILED TO PROCESS PDF: `, the message and `]` |
| Records.ErrorRecordsKeepMessage | backend/document_processor.py:264-283 | the message can be read back from either error record's content, between the lead and the closing `]` |
| Records.RunPages | document_processor.py:61-133 | the page loop yields one record per page, in order: the assembled record for a processed page, the error record for a failed one, and it carries on after a failure |
| Records.RunDocumentWellFormed | document_processor_llava.py:113-223 | given a page assembler that numbers from 1: one record per page, in order; `ERROR_PAGE` records exactly for failed pages; image fields exactly on processed pages and consistent; the `ERROR_DOCUMENT` record last exactly when the run broke off |
| Records.UnopenableDocument | enhanced_pdf_extractor.py:115-124 | a document that cannot be opened yields exactly one record, the page-0 `ERROR_DOCUMENT` record |
| Records.WithSection | document_processor.py:98-102 | the content starts with the page text, and it equals the page text exactly when there are no descriptions; otherwise the section title and the joined descriptions follow it |
| ImageDescriptions.Label | backend/document_processor.py:229 | an image label is exactly `[Image `, the decimal page number, `.`, the decimal image number and `]` |
| ImageDescriptions.LabelInjective | backend/document_processor.py:229 | the page and image numbers can be read back from a label, so different images get different labels |
| ImageDescriptions.LlavaEntry | backend/document_processor.py:229 | a LLaVA line is exactly the `[Image p.k]` label, `: ` and the reply, nothing else |
| ImageDescriptions.OcrLabel | document_processor.py:92 | an OCR label is exactly `[Image `, the decimal page number, `.`, the decimal image number and `: ` |
| ImageDescriptions.OcrLabelInjective | document_processor.py:92 | the page and image numbers can be read back from an OCR label |
| ImageDescriptions.OcrEntry | document_processor.py:92 | an OCR line is the `[Image p.k: ` label of its page and image number, then exactly the first 50 characters of the OCR text, then `...]`, and nothing else |
| ImageDescriptions.LlavaEntries | backend/document_processor.py:202-233 | one line per image whose processing did not raise, numbered by its position among all the page's images; the number of lines is the number of such images |
| ImageDescriptions.OcrEntries | document_processor.py:81-95 | one line per image whose OCR text is not blank after strip, numbered by its position among the extracted images |
| ImageDescriptions.LlavaEntriesAppend | document_processor_llava.py:141-172 | lines follow image order, and a later group of images is numbered after the earlier ones |
| ImageDescriptions.OcrEntriesAppend | enhanced_pdf_extractor.py:65-77 | OCR lines follow image order with continued numbering |
| ImageDescriptions.CollectLlavaEntries | backend/document_processor.py:198-233 | the image loop with its per-image `try` computes the LLaVA lines |
| ImageDescriptions.CollectOcrEntries | document_processor.py:77-95 | the image loop with its blank-text check computes the OCR lines |
| Ingestion.AssemblePage | backend/document_processor.py:186-256 | in every variant, a page record has page index+1 and the source. `image_count` is the number of described images, and `has_images` holds exactly when it is positive. The content starts with the page text, or with the OCR text where that applies. The content equals that text exactly when no image is described; otherwise the variant's title and separator follow |
| Ingestion.ExtractDocument | document_processor.py:52-147 | every variant's document output is well formed, and each processed page's record is that page's assembled record |
| Ingestion.LongPageKeepsText | enhanced_pdf_extractor.py:53-55 | a page whose stripped text has at least 50 characters keeps its own text, in every variant |
| Ingestion.OcrOnlyWhenEnabled | document_processor.py:68-71 | the page text is replaced only when that variant's OCR gate is on and the page is short, and only by the OCR text |
| Ingestion.LlavaPageHasNoHeading | document_processor_llava.py:128-132 | the LLaVA-only script never sets a heading and never replaces the page text |
| Ingestion.NoImagesWhenDisabled | document_processor_llava.py:137-179 | with image extraction off, a variant other than the enhanced one reports no images and its content is the page text alone |
| Ingestion.ImageGates | document_processor.py:77-95 | the LLaVA scripts reach the image loop only with `EXTRACT_IMAGES` on; document_processor.py needs `EXTRACT_IMAGES` and `OCR_ENABLED`; enhanced_pdf_extractor.py always reaches it. A page reports images exactly when its gate is open and some image produced a LLaVA reply or non-blank OCR text |
| Ingestion.FailedImageKeepsNumbering | backend/document_processor.py:202-233 | an image whose processing raised is skipped but still takes up its number |
| PdfExtractor.FirstSectionLineSpec | pdf_extractor.py:16-18 | the heading is `""` exactly when no line holds one of the five keywords (case-sensitive); otherwise it is the first line that does |
| PdfExtractor.FirstSectionLineSkip | pdf_extractor.py:16-17 | a line without a keyword is passed over by the search |
| PdfExtractor.ExtractTextWithMetadata | pdf_extractor.py:12-14 | there are never more records than pages |
| PdfExtractor.ExtractedRecordsArePages | pdf_extractor.py:20-27 | each record is a page with text: its content is that page's text, unchanged; its number is the page index plus 1; its source is the file name; its heading is that page's keyword line |
| PdfExtractor.ExtractedRecordsOrdered | pdf_extractor.py:12-27 | records come in strictly increasing page order |
| PdfExtractor.ExtractedRecordsComplete | pdf_extractor.py:12-14 | a page has a record exactly when its text is non-empty |
| PdfExtractor.ProcessDirectoryFails | pdf_extractor.py:31-42 | the walk raises, returning nothing, exactly when one of the listed `.pdf` files cannot be read by `PdfReader`; other names are never opened |
| PdfExtractor.CombineAssoc | pdf_extractor.py:40 | extending the record list is associative, and an exception that escaped stays escaped |
| PdfExtractor.ProcessDirectoryMembers | pdf_extractor.py:35-40 | when the walk completes, a record is produced exactly when one listed `.pdf` file produces it |
| PdfExtractor.ProcessDirectoryPdfOnly | pdf_extractor.py:36 | only names ending in `.pdf` (case-sensitive) produce records |
| PdfExtractor.ProcessDirectoryAppend | pdf_extractor.py:35-42 | records are concatenated in listing order, and the walk fails when either part of the listing fails |
| QaSystem.ReshapeResults | qa_system.py:21-27 | the context has min(#documents, #metadatas) entries, in result order, each copying the content and the metadata's source and page |
| QaSystem.AnswerLabel | qa_system.py:62-63 | an entry's label is exactly `Source: `, the entry's source, `, Page `, its decimal page number, a line break and `Excerpt: ` |
| QaSystem.AnswerEntry | qa_system.py:62-63 | each context entry is its label, then exactly the first 300 characters of the content, then `...` and a blank line, even for short content; nothing else |
| QaSystem.AnswerBody | qa_system.py:61-63 | the entries' text is empty exactly when the context is; AnswerBodyShowsEntry states where each entry sits |
| QaSystem.AnswerHeader | qa_system.py:59 | the header is exactly the fixed greeting, the query, `':` and a blank line |
| QaSystem.SimpleAnswer | qa_system.py:56-65 | the answer starts with the fixed greeting followed by the query, and is the header alone exactly when the context is empty; the context is returned unchanged |
| QaSystem.SimpleAnswerSnoc | qa_system.py:61-63 | one more context entry appends exactly its two lines |
| QaSystem.AnswerBodyShowsEntry | qa_system.py:61-63 | each entry's lines appear in the body of the answer, right after those of the entries before it |
| QaSystem.SimpleAnswerShowsEntry | qa_system.py:61-63 | each context entry's lines appear in the answer, right after those of the entries before it |
| QaSystem.BuildSimpleAnswer | qa_system.py:59-65 | the `answer +=` loop computes the answer and hands back the context |
| QaSystem.BlockLabel | qa_system.py:72 | a block's label is exactly `Document: `, the entry's source, `, Page: `, its decimal page number and a line break |
| QaSystem.ContextBlock | qa_system.py:72 | each block is its label followed by the whole content, nothing else |
| QaSystem.ContextText | qa_system.py:72-73 | the context text is `""` exactly when the context is empty, and otherwise starts with the first block |
| QaSystem.ContextTextSnoc | qa_system.py:72-73 | one more context entry appends `\n\n` and its block, or is its block alone after an empty context |
| QaSystem.TemplateParts | qa_system.py:75-85 | where each part of the filled template sits |
| QaSystem.Prompt | qa_system.py:75-85 | the prompt opens with the fixed instructions and ends with `Answer:`. The context text sits right after the instructions, and the question line with the query follows it. Its length is the sum of these parts, so nothing else is inserted |
| QaSystem.PromptDeterminesQuery | qa_system.py:83 | the query can be read back from the prompt, so different queries give different prompts |
| QaSystem.StatusErrorMessage | qa_system.py:108 | the non-200 answer is exactly the fixed error text, the decimal status code, and `)` |
| QaSystem.StatusErrorMessageInjective | qa_system.py:108 | the non-200 answer identifies the status code |
| QaSystem.AnswerWithLocalLlm | qa_system.py:87-110 | the prompt goes to the model. A 200 reply with a `response` field gives that text. A 200 reply without one gives the connect error naming `'response'`. Any other status gives the status error. An exception gives the connect error with its message. Every path returns the context unchanged |
| Text.StripSpec | backend/document_processor.py:124 | `strip` keeps a contiguous middle piece that neither starts nor ends with white space, and removes only white space around it |
| Text.StripIdempotent | backend/document_processor.py:132 | stripping a stripped text changes nothing |
| Text.StripEmptyIff | backend/document_processor.py:127 | a stripped text is empty exactly when the original is all white space |
| Text.Strip | backend/document_processor.py:124 | stripping never lengthens a text; StripSpec states what it removes |
| Text.Prefix | qa_system.py:63 | `s[:n]` has length min(len(s), n) and is a prefix of `s` |
| Text.Find | backend/document_processor.py:118 | the first occurrence of a character, or none exactly when it does not occur |
| Text.SkipTo | backend/document_processor.py:118 | a scan for a character from a position stops at its first occurrence there or after, or at the end when there is none |
| Text.DigitsFrom | backend/document_processor.py:118 | `\d+` takes the longest run of digits from a position |
| Text.ThreeParts | qa_system.py:63 | in a three-part f-string the first part opens the text, the last closes it, and the middle part sits right after the first |
| Text.FiveParts | qa_system.py:62 | in a five-part f-string each part sits right after the ones before it, and the length is the sum of the parts |
| Text.NumberPairInjective | backend/document_processor.py:229 | two numbers printed as `p.k` between fixed text can be read back: the first is the run of digits before the dot, the second the rest |
| Text.NatToString | backend/document_processor.py:229 | a printed number is a non-empty run of decimal digits without a leading zero |
| Text.NatToStringRoundTrip | backend/document_processor.py:123 | reading back a printed number with `int()` gives the number |
| Text.NatToStringInjective | backend/document_processor.py:229 | different page or image numbers print differently |
| Text.JoinSnoc | backend/document_processor.py:240 | joining one more part appends the separator and the part |
| Text.Join | backend/document_processor.py:240 | joining no parts gives `""`; otherwise the result starts with the first part |
| Text.LinesNoBreak | pdf_extractor.py:16-17 | no line of the split holds a line break |
| Text.Lines | pdf_extractor.py:16-17 | splitting at line breaks gives at least one line, possibly empty |
| Text.LinesJoin | pdf_extractor.py:16-17 | joining the lines with line breaks gives back the text |

## Left out

- The PDF, OCR and image libraries (`fitz`, `pytesseract`, `pdf2image`, `PIL`). Their outputs are inputs, including the `[OCR ERROR: ...]` and `[OCR is disabled]` texts `ocr_page` may return.
- `extract_images_from_page` in document_processor.py and enhanced_pdf_extractor.py. Its returned list is an input. This leaves out its reuse of a stale `bbox` when an image has no rectangle.
- `process_with_llava` and every HTTP call. A LLaVA reply is an input, and the Ollama call is a `LlmOutcome` value.
- Coordinates are exact reals, not floating point.
- HtmlHeadings.MatchFontSize: digits are ASCII only. Python's `\d` and `int()` also accept other Unicode decimal digits.
- HtmlHeadings.HasKeyword: case folding covers ASCII letters, the dotted and dotless I, and the long s. No other non-ASCII letter folds onto a keyword letter.
- QaSystem.ReshapeResults: a metadata entry without `source` or `page` raises `KeyError` in the source. Here every `Metadata` has both fields. The `n_results` limit belongs to the database query.
- `verbose` logging, `print`, pickle output and the `image_texts` list, which is built but never read.
- Chunking, tables, Flask apps, setup scripts, embedding and vector-store code.
- The `process_directory` functions of the other scripts.
- The unreachable code in qa_system.py after `get_relevant_context` returns.
- Relevance reranking and the response cache. backend/config.py only names them.
