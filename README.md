# PDF text extraction pipeline, modelled in Dafny

This project models the decision logic of two PDF-to-text web services.

`enhanced_pdf_service.py` extracts a document with three strategies, tried in order:
PyPDF2 for native PDFs, OCR for scanned ones, then Docling. Each strategy builds a
result in the same way:

- it accumulates page texts under `--- Page k ---` markers;
- it sanitises the text for database storage;
- it picks a title from the first lines;
- it attaches fixed method tags, confidences and metadata.

An optional preview image is computed first and attached to whichever result wins.

`simple_pdf_service.py` extracts a document with two back ends: PyMuPDF, then PyPDF2
when PyMuPDF gives nothing. Each back end runs a sequence of early-return guards around
a page loop. Two handlers sit on top:

- `/extract` routes the requested path: download it, refuse a `file://` path, or read it
  from disk.
- `/upload` validates the uploaded file part.

Both handlers derive word and character counts, a title and a summary. They also remove
their temporary file.

The libraries, the network and the file system are inputs to the model:

- Page texts are `seq<Option<string>>`, where `None` means extracting that page raised.
- Library capabilities are booleans.
- "File exists", "is encrypted" and "has N pages" are booleans or naturals.
- The disk is a map from path to size.

Over those inputs the services are deterministic, and the model states and proves what
they compute.

Files:

- `wrappers.dfy`: `Option`.
- `text.dfy` (module `Text`): the Python string operations the services use. These are
  `isspace`, `strip`, `split()`, `split(sep)`, `replace`, `in`, `startswith`,
  `endswith`, `lower`, integer formatting, and the concatenation of pieces.
- `sanitizer.dfy`: `clean_text_for_database`. Module `Sanitizer` has one function per
  rewrite; module `SanitizerProperties` has the proofs.
- `enhanced.dfy` (module `Enhanced`): the enhanced service.
- `simple.dfy` (module `Simple`): the simple service.

Where the code loops or mutates, the model is a `method` with loop invariants, proved
equal to a specification function. The specification function's properties are then
proved as lemmas. This applies to:

- the page loops;
- the title scans;
- the strategy chain;
- the handlers, which change a `Disk` object;
- the PyMuPDF document, whose `finally` closes it.

The code is followed where the prose description of the system differs from it:

- The sanitiser is not idempotent (`SanitizerProperties.CleanNotIdempotent`).
  `". . ."` becomes `".."`, and that becomes `"."`.
- Native and OCR titles never come from the text (`Enhanced.PagedTitleIsFilename`).
  Sanitising turns every newline into a space, so the first-ten-lines scan sees one
  line, and that line contains a page marker.
- `raw_text` is the same stripped text as `content`, not the pre-trim text.

## Model

| member | source | states |
|---|---|---|
| Sanitizer.Clean | enhanced_pdf_service.py:76-93 | empty input gives `""`; the output is never longer than the input |
| SanitizerProperties.RemoveShape | enhanced_pdf_service.py:82-86 | a deletion pass keeps only characters of its input that it does not delete |
| SanitizerProperties.DeletionsShape | enhanced_pdf_service.py:82-86 | after the five deletions no NUL, control character, U+FFFD, private-use or specials character remains, and every character comes from the input |
| SanitizerProperties.DeletionsNone | enhanced_pdf_service.py:82-86 | the deletions leave text without such characters unchanged |
| Sanitizer.CollapseWhitespace | enhanced_pdf_service.py:89 | each white-space run becomes one space; the first character maps accordingly; the result is never longer |
| SanitizerProperties.CollapseWhitespaceShape | enhanced_pdf_service.py:89 | the output has no two adjacent spaces, and its only white space is `' '` |
| Sanitizer.CollapseRepeatedPunct | enhanced_pdf_service.py:90 | the result keeps the first character and is never longer |
| SanitizerProperties.CollapseRepeatedPunctShape | enhanced_pdf_service.py:90 | the punctuation rewrite adds no character and keeps "no adjacent spaces" |
| SanitizerProperties.CollapseRepeatedPunctNoPairs | enhanced_pdf_service.py:90 | after the punctuation rewrite no two `[.!?]` stand side by side |
| SanitizerProperties.CollapseRepeatedPunctMatch | enhanced_pdf_service.py:90 | a match of `[.!?]\s*[.!?]+` (punctuation, white space, a maximal punctuation run) becomes its first character, and scanning resumes after it |
| SanitizerProperties.CollapseRepeatedPunctNoMatch | enhanced_pdf_service.py:90 | text in which the pattern matches at no position is left unchanged |
| Sanitizer.DropSpaceBeforePunct | enhanced_pdf_service.py:91 | the result is non-empty for non-empty input and never longer |
| SanitizerProperties.DropSpaceBeforePunctShape | enhanced_pdf_service.py:91 | no white space is left before `. ! ? , : ;`; no character is added; "no adjacent spaces" is kept |
| SanitizerProperties.RewriteShape | enhanced_pdf_service.py:82-91 | after all rewrites: no forbidden character, only `' '` as white space, no adjacent spaces, no space before punctuation |
| SanitizerProperties.CleanOutputShape | enhanced_pdf_service.py:76-93 | the sanitised text has no forbidden character, newline or tab; no leading, trailing or doubled white space; no space before punctuation |
| SanitizerProperties.CleanNotIdempotent | enhanced_pdf_service.py:90-91 | `". . ."` sanitises to `".."`, which sanitises to `"."`: sanitising twice differs from once |
| SanitizerProperties.SpacedDotsRewrite | enhanced_pdf_service.py:89-91 | the three rewrites take `". . ."` to `".."` |
| SanitizerProperties.TwoDotsRewrite | enhanced_pdf_service.py:89-91 | the three rewrites take `".."` to `"."` |
| SanitizerProperties.RewriteAround | enhanced_pdf_service.py:82-91 | a plain character (not white space, punctuation or forbidden) splits the rewrites: the text on each side is rewritten independently |
| SanitizerProperties.CleanKeepsPlainInfix | enhanced_pdf_service.py:76-93 | a run of plain characters in the input survives sanitising |
| Text.Strip | enhanced_pdf_service.py:154 | `strip()` removes white space at both ends only; the result is empty exactly when the input is all white space |
| Text.StripIdempotent | simple_pdf_service.py:79 | stripping twice is stripping once |
| Text.WordsEmptyIff | simple_pdf_service.py:191 | `split()` gives no words exactly when the text is all white space |
| Text.WordCountOfNormalized | enhanced_pdf_service.py:175 | a non-empty text with single spaces and no outer spaces has one more word than spaces |
| Text.WordCountBound | simple_pdf_service.py:191-192 | there are never more words than characters |
| Text.SplitOnShape | enhanced_pdf_service.py:165 | `split('\n')` pieces contain no separator; one piece is the whole text; the last piece is a suffix |
| Text.SplitWithoutSeparator | enhanced_pdf_service.py:165 | text without the separator splits into itself alone |
| Text.SplitKeepsCharacters | enhanced_pdf_service.py:295 | some line contains a character other than the separator exactly when the text does |
| Text.LastSegment | simple_pdf_service.py:331 | `split('/')[-1]` holds no `/` and is a suffix of the path |
| Text.ReplaceAllShape | enhanced_pdf_service.py:166 | `replace` leaves text without the pattern unchanged; it never lengthens when the replacement is not longer; deleting a one-character pattern removes it entirely |
| Text.ReplaceAllKeepsOut | simple_pdf_service.py:331 | `replace` introduces no character that neither the text nor the replacement has |
| Text.LowerEndsWithPdf | simple_pdf_service.py:171 | `lower().endswith('.pdf')` holds exactly when the name ends in `.` followed by p, d, f in either case |
| Text.NatToString | enhanced_pdf_service.py:155 | a formatted number is all digits |
| Text.NatToStringRoundTrip | enhanced_pdf_service.py:155 | reading the digits back gives the number |
| Text.NatToStringInjective | simple_pdf_service.py:204 | different numbers format differently |
| Text.ConcatSplitAt | enhanced_pdf_service.py:152-156 | the concatenation is the pieces before a piece, that piece, then the pieces after it |
| Text.ConcatEmpty | enhanced_pdf_service.py:158 | empty pieces concatenate to the empty text |
| Text.ConcatNonEmpty | simple_pdf_service.py:72-73 | one non-empty piece makes the concatenation non-empty |
| Enhanced.AccumulateMarkedPages | enhanced_pdf_service.py:150-156 | the page loop gives `None` when a page raises; otherwise it gives the entries of the non-blank pages, marked with their physical 1-based number |
| Enhanced.AssembleStep | enhanced_pdf_service.py:152-156 | one more page appends exactly that page's entry, numbered by its position |
| Enhanced.AssembleEntryInPlace | enhanced_pdf_service.py:152-156 | page `i`'s entry sits between the assembly of the earlier pages and the entries of the later ones |
| Enhanced.PageEntryHasPage | enhanced_pdf_service.py:154-156 | a non-blank page's entry contains `Page` |
| Enhanced.AssembleHasPage | enhanced_pdf_service.py:152-156 | text with a non-blank page contains a page marker |
| Enhanced.AssembleAllBlank | enhanced_pdf_service.py:154 | pages that are all blank contribute nothing |
| Enhanced.AssembleBlankIff | enhanced_pdf_service.py:158-159 | the "no text" check fails exactly when every page is blank |
| Enhanced.PagedSucceedsIff | enhanced_pdf_service.py:149-159 | PyPDF2 or OCR succeeds exactly when the document opens, every page extracts and some page is not blank |
| Enhanced.PagedResult | enhanced_pdf_service.py:161-193 | method tag, confidence, extraction method, `content == raw_text` equal to the sanitised text, word count of that text, page count of all pages, no tables or images, the file name, and the title (the sanitised file name without `.pdf`) |
| Enhanced.CleanIsOneLine | enhanced_pdf_service.py:162-165 | sanitised text splits into exactly one line, already stripped |
| Enhanced.LineTitleOfPageLine | enhanced_pdf_service.py:167-172 | a scan over one line containing `Page` keeps the fallback title |
| Enhanced.PagedTitleIsFilename | enhanced_pdf_service.py:162-172 | for text containing a page marker, the native/OCR title scan always gives the fallback |
| Enhanced.FirstTrueIsFirst | enhanced_pdf_service.py:167-172 | the scan's stopping index is the first qualifying line; with none, no line qualifies |
| Enhanced.PickTitleFirst | enhanced_pdf_service.py:167-172 | the first qualifying line of the window gives the title |
| Enhanced.PickTitleNone | enhanced_pdf_service.py:167-172 | with no qualifying line in the window, the title is the fallback |
| Enhanced.CheckLine | enhanced_pdf_service.py:168-170 | one line's candidate is its stripped text; it qualifies when 10 < length < 100, it is not all digits, and it has no `Page` |
| Enhanced.ScanLineTitle | enhanced_pdf_service.py:165-172 | the scan loop with `break` computes the title specification over the first ten lines |
| Enhanced.CheckMarkdownLine | enhanced_pdf_service.py:275-276 | one line's candidate is stripped, has every `#` removed, and is stripped again; it qualifies when 5 < length < 100 |
| Enhanced.ScanMarkdownTitle | enhanced_pdf_service.py:272-278 | the Docling scan loop computes the title specification over the first five lines |
| Enhanced.ExtractPaged | enhanced_pdf_service.py:144-197 | the PyPDF2/OCR strategy computes the paged outcome |
| Enhanced.ExtractDocling | enhanced_pdf_service.py:260-303 | the Docling strategy computes the Docling outcome |
| Enhanced.DoclingResult | enhanced_pdf_service.py:265-299 | tags, confidence 0.90, `content == raw_text`, word count; `has_tables` iff some `\|`; `has_images` iff `![`; page count 1 when there is no `pages`; the title |
| Enhanced.DoclingTitle | enhanced_pdf_service.py:271-278 | the Docling title is the sanitised text without `#`, stripped, when 5 < length < 100, else the file name |
| Enhanced.PreviewIff | enhanced_pdf_service.py:95-142 | a preview exists exactly when PyMuPDF and PIL are present, the document has a page and rendering succeeds; it is a PNG data URI |
| Enhanced.Attempts | enhanced_pdf_service.py:369-400 | one attempt per strategy; a strategy gives a result only when its libraries are available |
| Enhanced.AttemptsInOrder | enhanced_pdf_service.py:369-400 | PyPDF2 is gated by its flag, OCR by both OCR flags, Docling by its flag |
| Enhanced.RunStrategies | enhanced_pdf_service.py:369-406 | the try/return chain computes the chain specification |
| Enhanced.SelectFirstSuccess | enhanced_pdf_service.py:369-406 | success exactly when some strategy succeeds, and then the result is the first success's; otherwise 500 with the fixed "All extraction methods failed" message |
| Enhanced.SelectStopsAtFirstSuccess | enhanced_pdf_service.py:369-398 | strategies after the first success do not affect the response |
| Enhanced.SelectIgnoresPreview | enhanced_pdf_service.py:373-398 | the preview changes neither success nor the result; it is attached exactly when present |
| Enhanced.ExtractPdf | enhanced_pdf_service.py:316-413 | the handler computes the request specification |
| Enhanced.ExtractStatus | enhanced_pdf_service.py:319-413 | 400 exactly when `pdf_url` is missing; 200 exactly on success; 404 only for a local path; the status is one of 200/400/404/500 |
| Enhanced.PreviewRequestIrrelevant | enhanced_pdf_service.py:330-367 | requesting a preview or not leaves success and status unchanged |
| Simple.Stat | simple_pdf_service.py:39-45 | `exists` and `getsize` report the disk's entry |
| Simple.Disk.Write | simple_pdf_service.py:175-176 | saving a file sets that path's size and nothing else |
| Simple.Disk.Unlink | simple_pdf_service.py:210-215 | unlinking removes that path and nothing else |
| Simple.FitzDocument.Open | simple_pdf_service.py:108-113 | an opened document reports the library's view and its initial closed flag |
| Simple.FitzDocument.Close | simple_pdf_service.py:150-156 | closing leaves the document closed |
| Simple.FitzDocument.PageCount | simple_pdf_service.py:152 | `if doc` reads `len(doc)`: the page count of an open document, and a raise once it is closed |
| Simple.PageText | simple_pdf_service.py:70-76 | a page adds nothing exactly when its extraction raised or gave empty text |
| Simple.AccumulatePageText | simple_pdf_service.py:66-76 | the loop's text is the page texts joined, each followed by a newline, skipping failed and empty pages |
| Simple.JoinPagesSnoc | simple_pdf_service.py:69-76 | one more page appends exactly what that page adds |
| Simple.JoinPagesAt | simple_pdf_service.py:69-76 | each page's text sits in place, after the earlier pages' text and before the later pages' text |
| Simple.JoinPagesEmptyIff | simple_pdf_service.py:69-79 | the loop gives no text exactly when every page is skipped |
| Simple.ExtractWithPyPdf2 | simple_pdf_service.py:35-92 | the guarded PyPDF2 back end computes its outcome specification |
| Simple.PyPdf2Iff | simple_pdf_service.py:39-82 | a result exactly when the file exists, is not empty, parses, is not encrypted and has a page; the stripped text, the count of all pages and method `PyPDF2` |
| Simple.ExtractWithPyMuPdf | simple_pdf_service.py:94-156 | as written: the PyMuPDF outcome; a document is opened exactly when the file exists, is not empty and `fitz.open` succeeds; the `finally` raises exactly when the document was closed on opening; it leaves the document closed exactly when it was closed on opening or has pages, so a document without pages stays open |
| Simple.ReadDocument | simple_pdf_service.py:110-139 | the `try` body after opening computes the document outcome |
| Simple.PyMuPdfIff | simple_pdf_service.py:99-139 | a result exactly when the file exists, is not empty, opens, is not closed at once, has a page and its metadata can be read; the metadata defaults to `{}` |
| Simple.ZeroPageDocumentStaysOpen | simple_pdf_service.py:115-156 | a non-empty file that opens as a document without pages gives no result and leaves the document open |
| Simple.ClosedDocumentRaises | simple_pdf_service.py:111-156 | a non-empty file that opens as a document already closed makes the back end raise from its `finally` instead of returning nothing |
| Simple.ExtractWithPyMuPdfClosing | simple_pdf_service.py:94-156 | the same outcome, with every opened document closed on exit and no raise |
| Simple.ExtractWithFallback | simple_pdf_service.py:179-184 | the fallback computes its specification: PyMuPDF, then PyPDF2 |
| Simple.ExtractWithFallbackAsWritten | simple_pdf_service.py:179-184 | over the back end as written: it raises, and PyPDF2 is never tried, exactly when the document was closed on opening; otherwise the intended fallback outcome |
| Simple.FallbackOrder | simple_pdf_service.py:179-187 | PyPDF2 plays no part when PyMuPDF succeeds; otherwise its outcome is used; there is no result exactly when both give none |
| Simple.SummaryDeterminesCounts | simple_pdf_service.py:204 | the summary text determines both the word count and the page count |
| Simple.RespondMetrics | simple_pdf_service.py:186-205 | no result gives 500 "Failed to extract text from PDF". Otherwise 200 with the text as content; the word count is the number of words, 0 exactly when the text is blank, and never above the character count; `char_count` is the length; the page count; the summary of both counts |
| Simple.PathTitleShape | simple_pdf_service.py:331 | a path without `/` gives "PDF Document"; otherwise the title has no `/`, is no longer than the path, and is the last segment when that has no `.pdf` |
| Simple.UploadTitleShape | simple_pdf_service.py:197 | the upload title is the file name with `.pdf` removed: no longer, and unchanged without `.pdf` |
| Simple.RequestedPath | simple_pdf_service.py:231-233 | `file_path or pdf_url`: no path exactly when neither is a non-empty string |
| Simple.LocalFileResponse | simple_pdf_service.py:272-305 | a `file://` answer is a 400 refusal; Docling is reported available, with `<url>/upload`, exactly when the probe said so |
| Simple.ExtractAndRespond | simple_pdf_service.py:313-339 | running the back ends and building the response computes the response specification |
| Simple.ExtractFromTempFile | simple_pdf_service.py:175-215 | extraction from a freshly written temporary file leaves the disk as it was |
| Simple.ExtractDownloaded | simple_pdf_service.py:239-269 | the download branch computes its specification and leaves the disk as it was |
| Simple.ExtractPdf | simple_pdf_service.py:224-357 | the `/extract` handler computes the request specification and leaves the disk as it was |
| Simple.ExtractRouting | simple_pdf_service.py:228-233 | no usable path gives 400 "file_path or pdf_url is required"; otherwise the path decides |
| Simple.LocalFileAlwaysRefused | simple_pdf_service.py:272-305 | a `file://` path always gives 400, never extracts, and the answer depends on neither the back ends nor the disk |
| Simple.LocalPathRoute | simple_pdf_service.py:306-321 | a missing local path gives 404 "File not found"; otherwise 200 exactly when a back end gives a result, else the 500 error |
| Simple.DownloadRoute | simple_pdf_service.py:239-264 | a failed download gives 400 with its message; an empty one gives 400; a non-empty one is extracted; the disk plays no part |
| Simple.UploadAndExtract | simple_pdf_service.py:158-222 | the `/upload` handler computes the upload specification and leaves the disk as it was |
| Simple.UploadValidation | simple_pdf_service.py:163-187 | a missing part, an empty name, and a name not ending in `.pdf` in any case each give 400; an empty accepted file gives 500 |

## Left out

- Flask, CORS and JSON serialisation are not modelled. Neither are the health and root
  endpoints or start-up from environment variables. The extra JSON keys `success` and
  `extraction_method` always repeat fixed values and are left out too.
- Library import probing at start-up is not modelled. The capability flags are inputs.
- The internals of PyPDF2, PyMuPDF, pytesseract, pdf2image, Docling and PIL are not
  modelled. Their results are inputs: page texts or `None`, page counts, flags, the
  markdown export, the encoded preview.
- Preview rendering (zoom, thumbnail size, PNG/base64 encoding) is not modelled; only
  whether a preview exists and its data-URI prefix are.
- HTTP downloads and the Docling health probe are not modelled. Only their outcomes are:
  a failure message or a body size, and available / unavailable / raised.
- Logging and the warning-only checks (content type, `%PDF` magic) are not modelled.
  Neither is the exception-message classification in the back ends' `except` clauses;
  none of these changes control flow.
- Confidences are exact `real` constants, not floating-point values.
- Python's `isdigit` is modelled as ASCII digits. `lower()` is modelled as ASCII case
  folding, which is exact for the `.pdf` test.
- Python's white space (`\s`, `isspace`, `split()`, `strip()`) is one fixed character
  predicate.
- Temporary file names are parameters. The handlers require a name not on disk, as
  `NamedTemporaryFile` guarantees.
- Exceptions outside the modelled ones are left out. These are the outer `except`
  answers with status 500: a failing `file.save`, a non-object JSON body, a raising
  `get_json`, and a raising page count in PyMuPDF. The one modelled case is a JSON
  `null` body in the simple `/extract`.
- Simple.ExtractWithFallback: it uses the corrected PyMuPDF back end, so it does not
  show the unclosed zero-page document of the code as written. Nor does it show the
  raise from a document closed on opening. `Simple.ExtractWithFallbackAsWritten` shows
  that raise; the 500 answer the handlers' outer `except` would give for it is not
  modelled.

## Findings

| source | as written | input that shows it | evidently intended | confidence | as-written member | corrected member |
|---|---|---|---|---|---|---|
| simple_pdf_service.py:150-156 | `finally` closes the document only when `doc` is truthy; a PyMuPDF document's truth value is its page count, as `len(doc)` at enhanced_pdf_service.py:107 relies on | a non-empty file that opens as a document with no pages | every opened document is closed on exit | medium (depends on PyMuPDF's `__len__`), not executed | Simple.ZeroPageDocumentStaysOpen | Simple.ExtractWithPyMuPdfClosing |
| simple_pdf_service.py:111-156 | a document closed right after `fitz.open` returns `None` at line 113, but the `finally` then evaluates `len(doc)`, which reads the page count of a closed document and raises | a non-empty file for which `fitz.open` returns a closed document | the back end returns `None` and the PyPDF2 fallback runs | low (depends on PyMuPDF's `page_count` raising once closed, and on `fitz.open` ever returning a closed document), not executed | Simple.ClosedDocumentRaises | Simple.ExtractWithPyMuPdfClosing |
