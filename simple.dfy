/**
 * The simple extraction service: two PDF back ends tried in turn (PyMuPDF, then
 * PyPDF2), each guarded by a sequence of early returns around a page loop, and the
 * `/extract` and `/upload` handlers that route the request, run the back ends on a
 * local or temporary file, derive counts, title and summary, and remove the
 * temporary file again.
 *
 * The PDF libraries, the network and the file system are inputs: a back end sees
 * what its library would report (per page, the extracted text or `None` when that
 * call raised); the file system is a map from path to size in bytes.
 */
module Simple {
  import opened Wrappers
  import opened Text

  // ---------------------------------------------------------------------------
  // The file system

  /** What `os.path.exists` and `os.path.getsize` report for one path. */
  datatype FileInfo = FileInfo(present: bool, size: nat)

  function Stat(files: map<string, nat>, path: string): (f: FileInfo)
    ensures f.present <==> path in files
    ensures f.present ==> f.size == files[path]
  {
    if path in files then FileInfo(true, files[path]) else FileInfo(false, 0)
  }

  /** The files on the server's disk, by path, with their sizes. */
  class Disk {
    var files: map<string, nat>

    constructor(files: map<string, nat>)
      ensures this.files == files
    {
      this.files := files;
    }

    /** Create or overwrite a file. */
    method Write(path: string, size: nat)
      modifies this
      ensures files == old(files)[path := size]
    {
      files := files[path := size];
    }

    /** `os.unlink`. */
    method Unlink(path: string)
      modifies this
      ensures files == old(files) - {path}
    {
      files := files - {path};
    }
  }

  // ---------------------------------------------------------------------------
  // What the libraries report

  /**
   * What PyPDF2 makes of a file: opening or reading it raises some error
   * (`Raises`), its structure cannot be parsed (`PdfReadError`), or a reader with its
   * encryption flag and its pages.
   */
  datatype PyPdf2View =
    | Raises
    | Unreadable
    | Reader(encrypted: bool, pages: seq<Option<string>>)

  /**
   * What `fitz.open` returns: whether the document is already closed, its pages,
   * whether reading its metadata raises, and its metadata (`None` when the library has
   * none). As in PyMuPDF, a document's truth value is its page count, and reading the
   * page count of a closed document raises.
   */
  datatype FitzView = FitzView(
    closedOnOpen: bool, metadataRaises: bool, pages: seq<Option<string>>,
    metadata: Option<map<string, string>>)

  /** An open PyMuPDF document: the only library object whose state the service changes. */
  class FitzDocument {
    const view: FitzView
    var isClosed: bool

    /** `fitz.open` succeeding. */
    constructor Open(v: FitzView)
      ensures view == v && isClosed == v.closedOnOpen
    {
      view := v;
      isClosed := v.closedOnOpen;
    }

    method Close()
      modifies this
      ensures isClosed
    {
      isClosed := true;
    }

    /** `len(doc)`, which `if doc` evaluates: the number of pages, raising once closed. */
    method PageCount() returns (n: nat, raised: bool)
      ensures raised <==> isClosed
      ensures !raised ==> n == |view.pages|
    {
      if isClosed {
        return 0, true;
      }
      return |view.pages|, false;
    }
  }

  /** A back end's dictionary: text, page count, metadata (PyMuPDF only) and method name. */
  datatype BackendResult = BackendResult(
    text: string, pageCount: nat, metadata: Option<map<string, string>>, methodName: string)

  // ---------------------------------------------------------------------------
  // The page loop shared by both back ends

  /** A page whose extraction raises, or gives empty text, is skipped. */
  predicate Skipped(page: Option<string>) {
    page.None? || page.value == []
  }

  /** What one page adds: its text and a newline when the text is non-empty, otherwise nothing. */
  function PageText(page: Option<string>): (t: string)
    ensures t == [] <==> Skipped(page)
  {
    if page.Some? && page.value != [] then page.value + "\n" else []
  }

  /** What each page adds, page by page. */
  function PageTexts(pages: seq<Option<string>>): (ts: seq<string>)
    ensures |ts| == |pages|
  {
    seq(|pages|, i requires 0 <= i < |pages| => PageText(pages[i]))
  }

  /** The loop's text after all pages, before the final strip. */
  function JoinPages(pages: seq<Option<string>>): string {
    Concat(PageTexts(pages))
  }

  lemma PageTextsSlices(pages: seq<Option<string>>, i: nat)
    requires i <= |pages|
    ensures PageTexts(pages)[..i] == PageTexts(pages[..i])
    ensures PageTexts(pages)[i..] == PageTexts(pages[i..])
  {
  }

  /** One more page appends what that page adds. */
  lemma JoinPagesSnoc(pages: seq<Option<string>>, i: nat)
    requires i < |pages|
    ensures JoinPages(pages[..i + 1]) == JoinPages(pages[..i]) + PageText(pages[i])
  {
    var ts := PageTexts(pages[..i + 1]);
    assert ts == PageTexts(pages[..i]) + [PageText(pages[i])];
    ConcatSnoc(PageTexts(pages[..i]), PageText(pages[i]));
  }

  method AccumulatePageText(pages: seq<Option<string>>) returns (text: string)
    ensures text == JoinPages(pages)
  {
    text := "";
    var i := 0;
    while i < |pages|
      invariant 0 <= i <= |pages|
      invariant text == JoinPages(pages[..i])
    {
      JoinPagesSnoc(pages, i);
      var page := pages[i];
      if page.Some? && page.value != [] {
        text := text + (page.value + "\n");
      }
      i := i + 1;
    }
    assert pages[..i] == pages;
  }

  /**
   * Page `i` contributes in place: its text comes after the text of the pages before
   * it and before the text of the pages after it.
   */
  lemma JoinPagesAt(pages: seq<Option<string>>, i: nat)
    requires i < |pages|
    ensures JoinPages(pages) == JoinPages(pages[..i]) + PageText(pages[i]) + JoinPages(pages[i + 1..])
  {
    ConcatSplitAt(PageTexts(pages), i);
    PageTextsSlices(pages, i);
    PageTextsSlices(pages, i + 1);
  }

  /** The loop produces no text exactly when every page is skipped. */
  lemma JoinPagesEmptyIff(pages: seq<Option<string>>)
    ensures JoinPages(pages) == [] <==> forall i :: 0 <= i < |pages| ==> Skipped(pages[i])
  {
    var ts := PageTexts(pages);
    if forall i :: 0 <= i < |pages| ==> Skipped(pages[i]) {
      ConcatEmpty(ts);
    } else {
      var i :| 0 <= i < |pages| && !Skipped(pages[i]);
      ConcatNonEmpty(ts, i);
    }
  }

  // ---------------------------------------------------------------------------
  // The two back ends

  /** `extract_with_pypdf2`. */
  function PyPdf2Outcome(file: FileInfo, view: PyPdf2View): Option<BackendResult> {
    if !file.present || file.size == 0 then None
    else
      match view
      case Raises => None
      case Unreadable => None
      case Reader(encrypted, pages) =>
        if encrypted || |pages| == 0 then None
        else Some(BackendResult(Strip(JoinPages(pages)), |pages|, None, "PyPDF2"))
  }

  method ExtractWithPyPdf2(file: FileInfo, view: PyPdf2View) returns (r: Option<BackendResult>)
    ensures r == PyPdf2Outcome(file, view)
  {
    if !file.present {
      return None;
    }
    if file.size == 0 {
      return None;
    }
    if view.Raises? || view.Unreadable? {
      return None;
    }
    if view.encrypted {
      return None;
    }
    if |view.pages| == 0 {
      return None;
    }
    var text := AccumulatePageText(view.pages);
    return Some(BackendResult(Strip(text), |view.pages|, None, "PyPDF2"));
  }

  /**
   * PyPDF2 gives a result exactly when the file exists, is not empty, parses, is not
   * encrypted and has a page; the result counts every page, blank or failed ones
   * included, and holds the stripped text of the pages that were not skipped, which
   * may be empty.
   */
  lemma PyPdf2Iff(file: FileInfo, view: PyPdf2View)
    ensures PyPdf2Outcome(file, view).Some? <==>
      file.present && file.size > 0 && view.Reader? && !view.encrypted && |view.pages| > 0
    ensures PyPdf2Outcome(file, view).Some? ==>
      var r := PyPdf2Outcome(file, view).value;
      && r.text == Strip(JoinPages(view.pages))
      && r.pageCount == |view.pages|
      && r.metadata.None?
      && r.methodName == "PyPDF2"
  {
  }

  /**
   * The `try` body once `fitz.open` has returned (`doc.metadata or {}`: missing metadata
   * becomes the empty map).
   */
  function DocumentOutcome(v: FitzView): Option<BackendResult> {
    if v.closedOnOpen || |v.pages| == 0 || v.metadataRaises then None
    else Some(BackendResult(Strip(JoinPages(v.pages)), |v.pages|, Some(v.metadata.GetOr(map[])), "PyMuPDF"))
  }

  /** `extract_with_pymupdf`; `fitz` is what `fitz.open` returns (`None`: it raised). */
  function PyMuPdfOutcome(file: FileInfo, fitz: Option<FitzView>): Option<BackendResult> {
    if !file.present || file.size == 0 || fitz.None? then None
    else DocumentOutcome(fitz.value)
  }

  /**
   * The back end proper, as written. The document it opened, if any, is returned so
   * that its final state can be stated. The `finally` clause tests `if doc`, that is
   * `len(doc)`: a document with no pages is left open, and a document closed right
   * after opening makes the test raise, so the exception (`raised`) replaces the
   * `None` the back end was returning.
   */
  method ExtractWithPyMuPdf(file: FileInfo, fitz: Option<FitzView>)
    returns (r: Option<BackendResult>, doc: Option<FitzDocument>, raised: bool)
    ensures r == PyMuPdfOutcome(file, fitz)
    ensures doc.Some? <==> file.present && file.size > 0 && fitz.Some?
    ensures raised <==> doc.Some? && fitz.value.closedOnOpen
    ensures doc.Some? ==> fresh(doc.value) && doc.value.view == fitz.value
    ensures doc.Some? ==> (doc.value.isClosed <==> fitz.value.closedOnOpen || |fitz.value.pages| > 0)
  {
    raised := false;
    if !file.present {
      return None, None, false;
    }
    if file.size == 0 {
      return None, None, false;
    }
    if fitz.None? {
      return None, None, false;
    }
    var d := new FitzDocument.Open(fitz.value);
    doc := Some(d);
    r := ReadDocument(d);
    // finally: `if doc and not doc.is_closed`
    var n, lenRaised := d.PageCount();
    if lenRaised {
      raised := true;
    } else if n > 0 && !d.isClosed {
      d.Close();
    }
  }

  /**
   * A non-empty file that opens as a document without pages: the back end gives
   * nothing and, as written, leaves the document open.
   */
  method ZeroPageDocumentStaysOpen() returns (r: Option<BackendResult>, closed: bool)
    ensures r.None? && !closed
  {
    var doc, raised;
    r, doc, raised := ExtractWithPyMuPdf(FileInfo(true, 1), Some(FitzView(false, false, [], None)));
    closed := doc.value.isClosed;
  }

  /**
   * A non-empty file that opens as a document already closed: as written, the back end
   * raises from its `finally` clause instead of returning nothing.
   */
  method ClosedDocumentRaises() returns (raised: bool)
    ensures raised
  {
    var r, doc;
    r, doc, raised := ExtractWithPyMuPdf(FileInfo(true, 1), Some(FitzView(true, false, [Some("x")], None)));
  }

  /** The back end with the evidently intended `finally`: every opened document ends closed. */
  method ExtractWithPyMuPdfClosing(file: FileInfo, fitz: Option<FitzView>)
    returns (r: Option<BackendResult>, doc: Option<FitzDocument>)
    ensures r == PyMuPdfOutcome(file, fitz)
    ensures doc.Some? <==> file.present && file.size > 0 && fitz.Some?
    ensures doc.Some? ==> fresh(doc.value) && doc.value.view == fitz.value && doc.value.isClosed
  {
    if !file.present {
      return None, None;
    }
    if file.size == 0 {
      return None, None;
    }
    if fitz.None? {
      return None, None;
    }
    var d := new FitzDocument.Open(fitz.value);
    doc := Some(d);
    r := ReadDocument(d);
    if !d.isClosed {
      d.Close();
    }
  }

  method ReadDocument(d: FitzDocument) returns (r: Option<BackendResult>)
    requires d.isClosed == d.view.closedOnOpen
    ensures r == DocumentOutcome(d.view)
  {
    if d.isClosed {
      return None;
    }
    var pages := d.view.pages;
    if |pages| == 0 {
      return None;
    }
    if d.view.metadataRaises {
      return None;
    }
    var metadata := d.view.metadata.GetOr(map[]);
    var text := AccumulatePageText(pages);
    return Some(BackendResult(Strip(text), |pages|, Some(metadata), "PyMuPDF"));
  }

  /**
   * PyMuPDF gives a result exactly when the file exists, is not empty, opens, is not
   * closed at once, has a page and its metadata can be read; the result counts every
   * page and holds the stripped text of the pages not skipped; its metadata defaults to
   * the empty map.
   */
  lemma PyMuPdfIff(file: FileInfo, fitz: Option<FitzView>)
    ensures PyMuPdfOutcome(file, fitz).Some? <==>
      file.present && file.size > 0 && fitz.Some? &&
      !fitz.value.closedOnOpen && |fitz.value.pages| > 0 && !fitz.value.metadataRaises
    ensures PyMuPdfOutcome(file, fitz).Some? ==>
      var r := PyMuPdfOutcome(file, fitz).value;
      && r.text == Strip(JoinPages(fitz.value.pages))
      && r.pageCount == |fitz.value.pages|
      && r.metadata == Some(if fitz.value.metadata.Some? then fitz.value.metadata.value else map[])
      && r.methodName == "PyMuPDF"
  {
  }

  // ---------------------------------------------------------------------------
  // Fallback

  /** What each back end would see. */
  datatype Libraries = Libraries(fitz: Option<FitzView>, reader: PyPdf2View)

  /** PyMuPDF first; PyPDF2 only when PyMuPDF gave nothing. */
  function ExtractionOutcome(file: FileInfo, libs: Libraries): Option<BackendResult> {
    var first := PyMuPdfOutcome(file, libs.fitz);
    if first.Some? then first else PyPdf2Outcome(file, libs.reader)
  }

  method ExtractWithFallback(file: FileInfo, libs: Libraries) returns (r: Option<BackendResult>)
    ensures r == ExtractionOutcome(file, libs)
  {
    var doc;
    r, doc := ExtractWithPyMuPdfClosing(file, libs.fitz);
    if r.None? {
      r := ExtractWithPyPdf2(file, libs.reader);
    }
  }

  /**
   * The fallback over the back end as written: a document closed right after opening
   * makes PyMuPDF raise, the exception leaves the fallback and PyPDF2 is never tried;
   * otherwise the outcome is the intended one.
   */
  method ExtractWithFallbackAsWritten(file: FileInfo, libs: Libraries)
    returns (r: Option<BackendResult>, raised: bool)
    ensures raised <==> file.present && file.size > 0 && libs.fitz.Some? && libs.fitz.value.closedOnOpen
    ensures raised ==> r.None?
    ensures !raised ==> r == ExtractionOutcome(file, libs)
  {
    var doc;
    r, doc, raised := ExtractWithPyMuPdf(file, libs.fitz);
    if raised {
      return None, true;
    }
    if r.None? {
      r := ExtractWithPyPdf2(file, libs.reader);
    }
  }

  /**
   * When PyMuPDF succeeds its result is used and PyPDF2 plays no part; otherwise the
   * outcome is PyPDF2's; there is a result exactly when one of them gives one.
   */
  lemma FallbackOrder(file: FileInfo, libs: Libraries, other: PyPdf2View)
    ensures PyMuPdfOutcome(file, libs.fitz).Some? ==>
      ExtractionOutcome(file, libs) == PyMuPdfOutcome(file, libs.fitz) &&
      ExtractionOutcome(file, libs) == ExtractionOutcome(file, libs.(reader := other))
    ensures PyMuPdfOutcome(file, libs.fitz).None? ==>
      ExtractionOutcome(file, libs) == PyPdf2Outcome(file, libs.reader)
    ensures ExtractionOutcome(file, libs).None? <==>
      PyMuPdfOutcome(file, libs.fitz).None? && PyPdf2Outcome(file, libs.reader).None?
  {
  }

  // ---------------------------------------------------------------------------
  // Responses

  datatype Body =
    | Extracted(
        content: string, title: string, methodName: string, wordCount: nat, charCount: nat,
        pageCount: nat, metadata: map<string, string>, summary: string)
    | Failed(error: string)
    | LocalFileRefused(
        error: string, code: string, suggestion: Option<string>, doclingAvailable: bool,
        uploadEndpoint: Option<string>)
    | Crashed(error: string)

  datatype Response = Response(status: nat, body: Body)

  const ExtractionFailed := "Failed to extract text from PDF"

  /** `f"Extracted {word_count} words from {page_count} pages"`. */
  function Summary(words: nat, pages: nat): string {
    "Extracted " + (NatToString(words) + (" words from " + (NatToString(pages) + " pages")))
  }

  /** The summary can be read back: different counts never give the same summary. */
  lemma SummaryDeterminesCounts(w1: nat, p1: nat, w2: nat, p2: nat)
    requires Summary(w1, p1) == Summary(w2, p2)
    ensures w1 == w2 && p1 == p2
  {
    var a1, a2 := NatToString(w1), NatToString(w2);
    var b1, b2 := NatToString(p1), NatToString(p2);
    var r1, r2 := " words from " + (b1 + " pages"), " words from " + (b2 + " pages");
    var s1, s2 := Summary(w1, p1), Summary(w2, p2);
    assert a1 + r1 == s1[10..] && a2 + r2 == s2[10..];
    DigitsThenSpace(a1, r1, a2, r2);
    NatToStringInjective(w1, w2);
    assert b1 + " pages" == r1[12..] && b2 + " pages" == r2[12..];
    assert b1 == (b1 + " pages")[..|b1|];
    assert b2 == (b2 + " pages")[..|b2|];
    NatToStringInjective(p1, p2);
  }

  /** The response once the back ends have run. */
  function Respond(result: Option<BackendResult>, title: string): Response {
    match result
    case None => Response(500, Failed(ExtractionFailed))
    case Some(r) =>
      var words := if r.text != [] then |Words(r.text)| else 0;
      Response(200, Extracted(r.text, title, r.methodName, words, |r.text|, r.pageCount,
                              r.metadata.GetOr(map[]), Summary(words, r.pageCount)))
  }

  /**
   * With no result the response is the fixed 500 error. With one, the content is the
   * back end's text, the word count is the number of white-space separated words (zero
   * exactly when the content is blank, never more than the character count), the
   * character count is the content's length, and the summary states both counts.
   */
  lemma RespondMetrics(result: Option<BackendResult>, title: string)
    ensures result.None? <==> Respond(result, title) == Response(500, Failed(ExtractionFailed))
    ensures result.Some? ==>
      var resp := Respond(result, title);
      && resp.status == 200 && resp.body.Extracted?
      && resp.body.content == result.value.text
      && resp.body.title == title
      && resp.body.wordCount == |Words(resp.body.content)|
      && (resp.body.wordCount == 0 <==> AllSpace(resp.body.content))
      && resp.body.wordCount <= resp.body.charCount == |resp.body.content|
      && resp.body.pageCount == result.value.pageCount
      && resp.body.summary == Summary(resp.body.wordCount, resp.body.pageCount)
  {
    if result.Some? {
      var t := result.value.text;
      WordsEmptyIff(t);
      WordCountBound(t);
    }
  }

  // ---------------------------------------------------------------------------
  // Titles

  const DefaultTitle := "PDF Document"

  /** `/extract`: the last `/`-segment without `.pdf`, or a fixed title when there is no `/`. */
  function PathTitle(path: string): string {
    if '/' in path then ReplaceAll(LastSegment(path, '/'), ".pdf", "") else DefaultTitle
  }

  /**
   * A path with a `/` gives a title with none, no longer than the path, and equal to
   * the last segment when that holds no `.pdf`.
   */
  lemma PathTitleShape(path: string)
    ensures '/' !in path ==> PathTitle(path) == DefaultTitle
    ensures '/' in path ==> '/' !in PathTitle(path) && |PathTitle(path)| <= |path|
    ensures '/' in path && !Contains(LastSegment(path, '/'), ".pdf") ==>
      PathTitle(path) == LastSegment(path, '/')
  {
    if '/' in path {
      var last := LastSegment(path, '/');
      ReplaceAllKeepsOut(last, ".pdf", "", '/');
      ReplaceAllShape(last, ".pdf", "");
    }
  }

  /** `/upload`: the file name without `.pdf`, or a fixed title when it is empty. */
  function UploadTitle(filename: string): string {
    if filename != [] then ReplaceAll(filename, ".pdf", "") else DefaultTitle
  }

  lemma UploadTitleShape(filename: string)
    ensures filename == [] ==> UploadTitle(filename) == DefaultTitle
    ensures filename != [] ==> |UploadTitle(filename)| <= |filename|
    ensures filename != [] && !Contains(filename, ".pdf") ==> UploadTitle(filename) == filename
  {
    if filename != [] {
      ReplaceAllShape(filename, ".pdf", "");
    }
  }

  // ---------------------------------------------------------------------------
  // /extract

  /** The JSON body's two keys (`None`: absent). */
  datatype ExtractBody = ExtractBody(filePath: Option<string>, pdfUrl: Option<string>)

  /** `data.get('file_path') or data.get('pdf_url')`, `None` when neither is a non-empty string. */
  function RequestedPath(body: ExtractBody): (p: Option<string>)
    ensures p.Some? ==> p.value != []
    ensures p.None? <==>
      (body.filePath.None? || body.filePath.value == []) && (body.pdfUrl.None? || body.pdfUrl.value == [])
  {
    if body.filePath.Some? && body.filePath.value != [] then body.filePath
    else if body.pdfUrl.Some? && body.pdfUrl.value != [] then body.pdfUrl
    else None
  }

  /** The download: `requests` raised (with its message) or gave a body of some size. */
  datatype Download = DownloadFailed(message: string) | Downloaded(size: nat)

  /** The Docling health probe: says Docling is available, says otherwise, or raised. */
  datatype DoclingProbe = ProbeAvailable | ProbeUnavailable | ProbeFailed

  /** Everything outside the handler that its answer depends on. */
  datatype Environment = Environment(
    download: Download, probe: DoclingProbe, doclingUrlSetting: Option<string>, libs: Libraries)

  const DefaultDoclingUrl := "https://blii-pdf-extraction-production.up.railway.app"

  const NoJsonBody := "PDF processing failed: 'NoneType' object has no attribute 'get'"

  predicate IsWebUrl(path: string) {
    StartsWith(path, "http://") || StartsWith(path, "https://")
  }

  const UploadRequiredError :=
    "Local file paths require direct upload. Please use the upload endpoint or select the file again."
  const UploadSuggestion := "Use the /upload endpoint with multipart/form-data to upload the file directly."
  const AccessDeniedError := "Local file paths are not accessible from the server. Please upload the file directly."

  /**
   * The answer to a `file://` path: always a 400 refusal; Docling is reported available,
   * with its upload address, only when the probe said so (a probe that raised counts as
   * unavailable).
   */
  function LocalFileResponse(probe: DoclingProbe, doclingUrl: string): (r: Response)
    ensures r.status == 400 && r.body.LocalFileRefused?
    ensures r.body.doclingAvailable <==> probe == ProbeAvailable
    ensures r.body.uploadEndpoint.Some? <==> r.body.doclingAvailable
    ensures r.body.uploadEndpoint.Some? ==> r.body.uploadEndpoint.value == doclingUrl + "/upload"
  {
    if probe == ProbeAvailable then
      Response(400, LocalFileRefused(
        UploadRequiredError, "LOCAL_FILE_UPLOAD_REQUIRED", Some(UploadSuggestion),
        true, Some(doclingUrl + "/upload")))
    else
      Response(400, LocalFileRefused(AccessDeniedError, "LOCAL_FILE_ACCESS_DENIED", None, false, None))
  }

  /** `extract_pdf`, given the JSON body (`None`: the body is JSON `null`) and the files on disk. */
  function ExtractSpec(request: Option<ExtractBody>, env: Environment, files: map<string, nat>): Response {
    if request.None? then Response(500, Crashed(NoJsonBody))
    else
      match RequestedPath(request.value)
      case None => Response(400, Failed("file_path or pdf_url is required"))
      case Some(path) => RouteSpec(path, env, files)
  }

  /** The answer for a requested path: downloaded, refused as `file://`, or read from disk. */
  function RouteSpec(path: string, env: Environment, files: map<string, nat>): Response {
    if IsWebUrl(path) then DownloadSpec(path, env.download, env.libs)
    else if StartsWith(path, "file://") then
      LocalFileResponse(env.probe, env.doclingUrlSetting.GetOr(DefaultDoclingUrl))
    else if path !in files then Response(404, Failed("File not found: " + path))
    else Respond(ExtractionOutcome(FileInfo(true, files[path]), env.libs), PathTitle(path))
  }

  /** The answer for an `http://` or `https://` path. */
  function DownloadSpec(url: string, download: Download, libs: Libraries): Response {
    match download
    case DownloadFailed(message) => Response(400, Failed("Failed to download PDF: " + message))
    case Downloaded(size) =>
      if size == 0 then Response(400, Failed("Downloaded file is empty"))
      else Respond(ExtractionOutcome(FileInfo(true, size), libs), PathTitle(url))
  }

  /** Run the back ends on a file and answer with the given title. */
  method ExtractAndRespond(file: FileInfo, libs: Libraries, title: string) returns (resp: Response)
    ensures resp == Respond(ExtractionOutcome(file, libs), title)
  {
    var result := ExtractWithFallback(file, libs);
    if result.None? {
      return Response(500, Failed(ExtractionFailed));
    }
    var text := result.value.text;
    var words := if text != [] then |Words(text)| else 0;
    var chars := |text|;
    var pages := result.value.pageCount;
    return Response(200, Extracted(text, title, result.value.methodName, words, chars, pages,
                                   result.value.metadata.GetOr(map[]), Summary(words, pages)));
  }

  /**
   * Save `size` bytes to the temporary file `tempName` (a name not in use, as
   * `NamedTemporaryFile` guarantees), extract from it, and remove it again.
   */
  method ExtractFromTempFile(size: nat, libs: Libraries, title: string, disk: Disk, tempName: string)
    returns (resp: Response)
    requires tempName !in disk.files
    modifies disk
    ensures resp == Respond(ExtractionOutcome(FileInfo(true, size), libs), title)
    ensures disk.files == old(disk.files)
  {
    disk.Write(tempName, size);
    resp := ExtractAndRespond(Stat(disk.files, tempName), libs, title);
    // finally: remove the temporary file if it is still there
    if tempName in disk.files {
      disk.Unlink(tempName);
    }
    assert disk.files == old(disk.files);
  }

  /** The `http://` / `https://` branch of the handler. */
  method ExtractDownloaded(url: string, download: Download, libs: Libraries, disk: Disk, tempName: string)
    returns (resp: Response)
    requires tempName !in disk.files
    modifies disk
    ensures resp == DownloadSpec(url, download, libs)
    ensures disk.files == old(disk.files)
  {
    if download.DownloadFailed? {
      return Response(400, Failed("Failed to download PDF: " + download.message));
    }
    if download.size == 0 {
      return Response(400, Failed("Downloaded file is empty"));
    }
    resp := ExtractFromTempFile(download.size, libs, PathTitle(url), disk, tempName);
  }

  /**
   * The handler. Whatever it answers, the disk ends as it started: a downloaded file
   * lives only in the temporary file, which is removed before the handler returns.
   */
  method ExtractPdf(request: Option<ExtractBody>, env: Environment, disk: Disk, tempName: string)
    returns (resp: Response)
    requires tempName !in disk.files
    modifies disk
    ensures resp == ExtractSpec(request, env, old(disk.files))
    ensures disk.files == old(disk.files)
  {
    if request.None? {
      return Response(500, Crashed(NoJsonBody));
    }
    var requested := RequestedPath(request.value);
    if requested.None? {
      return Response(400, Failed("file_path or pdf_url is required"));
    }
    var path := requested.value;
    if IsWebUrl(path) {
      resp := ExtractDownloaded(path, env.download, env.libs, disk, tempName);
    } else if StartsWith(path, "file://") {
      resp := LocalFileResponse(env.probe, env.doclingUrlSetting.GetOr(DefaultDoclingUrl));
    } else if path !in disk.files {
      resp := Response(404, Failed("File not found: " + path));
    } else {
      resp := ExtractAndRespond(Stat(disk.files, path), env.libs, PathTitle(path));
    }
  }

  /** A `file://` path is not a web address, so it never reaches the download branch. */
  lemma FileUrlIsNotWeb(path: string)
    requires StartsWith(path, "file://")
    ensures !IsWebUrl(path)
  {
    assert path[..4] == "file";
  }

  /**
   * A `file://` path is always refused with 400, whether or not Docling is up; the
   * answer depends on neither the back ends nor the disk.
   */
  lemma LocalFileAlwaysRefused(path: string, env: Environment, files: map<string, nat>,
                               libs: Libraries, otherFiles: map<string, nat>)
    requires StartsWith(path, "file://")
    ensures RouteSpec(path, env, files).status == 400
    ensures RouteSpec(path, env, files).body.LocalFileRefused?
    ensures RouteSpec(path, env, files).body.doclingAvailable <==> env.probe == ProbeAvailable
    ensures RouteSpec(path, env, files) == RouteSpec(path, env.(libs := libs), otherFiles)
  {
    FileUrlIsNotWeb(path);
    var doclingUrl := env.doclingUrlSetting.GetOr(DefaultDoclingUrl);
    assert RouteSpec(path, env, files) == LocalFileResponse(env.probe, doclingUrl);
    assert RouteSpec(path, env.(libs := libs), otherFiles) == LocalFileResponse(env.probe, doclingUrl);
  }

  /**
   * Routing: no usable path gives 400; an unknown local path gives 404; a download that
   * fails or is empty gives 400; otherwise the back ends decide.
   */
  lemma ExtractRouting(request: ExtractBody, env: Environment, files: map<string, nat>)
    ensures RequestedPath(request).None? ==>
      ExtractSpec(Some(request), env, files) == Response(400, Failed("file_path or pdf_url is required"))
    ensures RequestedPath(request).Some? ==>
      ExtractSpec(Some(request), env, files) == RouteSpec(RequestedPath(request).value, env, files)
  {
  }

  /**
   * A local path (neither a web address nor `file://`) is looked up on disk: a missing
   * one gives 404; otherwise the answer is 200 exactly when a back end gives a result,
   * with the title taken from the path, and the fixed 500 error when none does.
   */
  lemma LocalPathRoute(path: string, env: Environment, files: map<string, nat>)
    requires !IsWebUrl(path) && !StartsWith(path, "file://")
    ensures path !in files ==> RouteSpec(path, env, files) == Response(404, Failed("File not found: " + path))
    ensures path in files ==>
      var resp := RouteSpec(path, env, files);
      && (resp.status == 200 <==> ExtractionOutcome(FileInfo(true, files[path]), env.libs).Some?)
      && (resp.status == 200 ==> resp.body.Extracted? && resp.body.title == PathTitle(path))
      && (resp.status != 200 ==> resp == Response(500, Failed(ExtractionFailed)))
  {
    if path in files {
      RespondMetrics(ExtractionOutcome(FileInfo(true, files[path]), env.libs), PathTitle(path));
    }
  }

  /**
   * A download that fails gives 400 with the error's message, an empty one gives 400,
   * and a non-empty one is extracted like a file of that size.
   */
  lemma DownloadRoute(url: string, env: Environment, files: map<string, nat>)
    requires IsWebUrl(url)
    ensures env.download.DownloadFailed? ==>
      RouteSpec(url, env, files) == Response(400, Failed("Failed to download PDF: " + env.download.message))
    ensures env.download.Downloaded? && env.download.size == 0 ==>
      RouteSpec(url, env, files) == Response(400, Failed("Downloaded file is empty"))
    ensures env.download.Downloaded? && env.download.size > 0 ==>
      RouteSpec(url, env, files) ==
      Respond(ExtractionOutcome(FileInfo(true, env.download.size), env.libs), PathTitle(url))
    ensures RouteSpec(url, env, files) == RouteSpec(url, env, map[])
  {
  }

  // ---------------------------------------------------------------------------
  // /upload

  /** The uploaded file part: its name and its size once saved. */
  datatype Upload = Upload(filename: string, size: nat)

  /** `filename.lower().endswith('.pdf')`. */
  predicate IsPdfName(filename: string) {
    EndsWith(Lower(filename), ".pdf")
  }

  /** `upload_and_extract`, given the `file` part (`None`: missing). */
  function UploadSpec(upload: Option<Upload>, libs: Libraries): Response {
    if upload.None? then Response(400, Failed("No file uploaded"))
    else if upload.value.filename == [] then Response(400, Failed("No file selected"))
    else if !IsPdfName(upload.value.filename) then Response(400, Failed("Only PDF files are supported"))
    else Respond(ExtractionOutcome(FileInfo(true, upload.value.size), libs), UploadTitle(upload.value.filename))
  }

  /** The handler: the upload lives only in the temporary file, so the disk ends as it started. */
  method UploadAndExtract(upload: Option<Upload>, libs: Libraries, disk: Disk, tempName: string)
    returns (resp: Response)
    requires tempName !in disk.files
    modifies disk
    ensures resp == UploadSpec(upload, libs)
    ensures disk.files == old(disk.files)
  {
    if upload.None? {
      return Response(400, Failed("No file uploaded"));
    }
    var file := upload.value;
    if file.filename == [] {
      return Response(400, Failed("No file selected"));
    }
    if !EndsWith(Lower(file.filename), ".pdf") {
      return Response(400, Failed("Only PDF files are supported"));
    }
    resp := ExtractFromTempFile(file.size, libs, UploadTitle(file.filename), disk, tempName);
  }

  /**
   * Upload checks, in order: a missing part, an empty name, and a name not ending in
   * `.pdf` in any mix of cases are refused with 400; an accepted file that neither
   * back end can read gives the 500 error.
   */
  lemma UploadValidation(upload: Option<Upload>, libs: Libraries)
    ensures upload.None? ==> UploadSpec(upload, libs) == Response(400, Failed("No file uploaded"))
    ensures upload.Some? && upload.value.filename == [] ==>
      UploadSpec(upload, libs) == Response(400, Failed("No file selected"))
    ensures upload.Some? && upload.value.filename != [] ==>
      var name := upload.value.filename;
      var n := |name|;
      (UploadSpec(upload, libs) == Response(400, Failed("Only PDF files are supported")) <==>
       !(n >= 4 && name[n - 4] == '.' && name[n - 3] in "pP" && name[n - 2] in "dD" && name[n - 1] in "fF"))
    ensures upload.Some? && IsPdfName(upload.value.filename) && upload.value.size == 0 ==>
      UploadSpec(upload, libs) == Response(500, Failed(ExtractionFailed))
  {
    if upload.Some? && upload.value.filename != [] {
      LowerEndsWithPdf(upload.value.filename);
      RespondMetrics(ExtractionOutcome(FileInfo(true, upload.value.size), libs), UploadTitle(upload.value.filename));
    }
  }
}
