/**
 * The enhanced extraction service (enhanced_pdf_service.py): three extraction
 * strategies (PyPDF2 for native PDFs, pytesseract OCR for scanned ones, Docling as a
 * fallback), each building a result from page texts with page markers, a title
 * heuristic and metadata; the chain that tries them in order; the optional preview
 * image; and the `/extract` request handler around them.
 *
 * The PDF libraries are not modelled. What they would return is an input: the text
 * of each page (`None` where the library call raises), Docling's markdown export and
 * page count, and whether a preview could be rendered.
 */
module Enhanced {
  import opened Wrappers
  import opened Text
  import opened Sanitizer
  import opened SanitizerProperties

  // ---------------------------------------------------------------------------
  // Strategies and their fixed tags

  datatype Strategy = PyPdf2 | Ocr | Docling

  /** The `method` field of a result. */
  function MethodTag(s: Strategy): string {
    match s
    case PyPdf2 => "pypdf2"
    case Ocr => "ocr_pytesseract"
    case Docling => "docling"
  }

  /** The `metadata.extraction_method` field of a result. */
  function ExtractionTag(s: Strategy): string {
    match s
    case PyPdf2 => "pypdf2_native"
    case Ocr => "ocr_pytesseract"
    case Docling => "docling"
  }

  /** The `extraction_confidence` field of a result, as an exact decimal. */
  function Confidence(s: Strategy): real {
    match s
    case PyPdf2 => 0.95
    case Ocr => 0.85
    case Docling => 0.90
  }

  /** Which libraries imported successfully at start-up. */
  datatype Capabilities = Capabilities(
    pypdf2: bool, pytesseract: bool, pdf2image: bool, docling: bool, fitz: bool, pil: bool)

  /** A strategy runs only when its libraries are present (OCR needs both of its two). */
  predicate Available(s: Strategy, caps: Capabilities) {
    match s
    case PyPdf2 => caps.pypdf2
    case Ocr => caps.pytesseract && caps.pdf2image
    case Docling => caps.docling
  }

  datatype Metadata = Metadata(
    wordCount: nat, pageCount: nat, extractionMethod: string, filename: string,
    hasTables: bool, hasImages: bool)

  /** A successful strategy's dictionary (its `success` key is always `True`). */
  datatype Extraction = Extraction(
    methodName: string, title: string, content: string, rawText: string,
    metadata: Metadata, confidence: real)

  // ---------------------------------------------------------------------------
  // Page assembly (PyPDF2 and OCR)

  /** The marker written before page `k` (1-based). */
  function PageMarker(k: nat): string {
    "\n--- Page " + NatToString(k) + " ---\n"
  }

  /**
   * What page `k` adds to the text: nothing when its text is blank, otherwise the
   * marker, the text (stripped first by the OCR strategy) and a newline.
   */
  function PageEntry(k: nat, text: string, stripBody: bool): string {
    if Strip(text) == [] then []
    else PageMarker(k) + (if stripBody then Strip(text) else text) + "\n"
  }

  /** What each page adds: page `i` (0-based) comes under the marker numbered `i + 1`. */
  function Entries(texts: seq<string>, stripBody: bool): (es: seq<string>)
    ensures |es| == |texts|
  {
    seq(|texts|, i requires 0 <= i < |texts| => PageEntry(i + 1, texts[i], stripBody))
  }

  /** The text accumulated over all pages, each page numbered by its position. */
  function Assemble(texts: seq<string>, stripBody: bool): string {
    Concat(Entries(texts, stripBody))
  }

  predicate AllExtracted(pages: seq<Option<string>>) {
    forall i :: 0 <= i < |pages| ==> pages[i].Some?
  }

  function Texts(pages: seq<Option<string>>): (ts: seq<string>)
    requires AllExtracted(pages)
    ensures |ts| == |pages|
    ensures forall i :: 0 <= i < |pages| ==> pages[i] == Some(ts[i])
  {
    seq(|pages|, i requires 0 <= i < |pages| => pages[i].value)
  }

  predicate AllBlank(texts: seq<string>) {
    forall i :: 0 <= i < |texts| ==> Strip(texts[i]) == []
  }

  /**
   * The page loop: `None` when extracting some page raises (the exception leaves the
   * strategy), otherwise the assembled text.
   */
  function MarkedPages(pages: seq<Option<string>>, stripBody: bool): Option<string> {
    if AllExtracted(pages) then Some(Assemble(Texts(pages), stripBody)) else None
  }

  lemma TextsSnoc(pages: seq<Option<string>>, i: nat)
    requires i < |pages| && AllExtracted(pages[..i + 1])
    ensures AllExtracted(pages[..i])
    ensures Texts(pages[..i + 1]) == Texts(pages[..i]) + [pages[i].value]
  {
    var a := Texts(pages[..i + 1]);
    var b := Texts(pages[..i]) + [pages[i].value];
    assert |a| == |b|;
    forall k | 0 <= k < |a| ensures a[k] == b[k] {
      assert pages[..i + 1][k] == pages[k];
      if k < i { assert pages[..i][k] == pages[k]; }
    }
  }

  lemma EntriesSnoc(texts: seq<string>, t: string, b: bool)
    ensures Entries(texts + [t], b) == Entries(texts, b) + [PageEntry(|texts| + 1, t, b)]
  {
    var l := Entries(texts + [t], b);
    var r := Entries(texts, b) + [PageEntry(|texts| + 1, t, b)];
    forall k | 0 <= k < |l| ensures l[k] == r[k] {
      if k < |texts| { assert (texts + [t])[k] == texts[k]; }
    }
  }

  /** One more extracted page adds its entry, numbered by its position, at the end. */
  lemma AssembleStep(pages: seq<Option<string>>, i: nat, b: bool)
    requires i < |pages| && AllExtracted(pages[..i]) && pages[i].Some?
    ensures AllExtracted(pages[..i + 1])
    ensures Assemble(Texts(pages[..i + 1]), b) == Assemble(Texts(pages[..i]), b) + PageEntry(i + 1, pages[i].value, b)
  {
    var p := pages[..i + 1];
    assert AllExtracted(p) by {
      forall k | 0 <= k < |p| ensures p[k].Some? {
        if k < i { assert p[k] == pages[..i][k]; }
      }
    }
    TextsSnoc(pages, i);
    AssembleSnoc(Texts(pages[..i]), pages[i].value, b);
  }

  /** Assembling one more page appends that page's entry. */
  lemma AssembleSnoc(texts: seq<string>, t: string, b: bool)
    ensures Assemble(texts + [t], b) == Assemble(texts, b) + PageEntry(|texts| + 1, t, b)
  {
    EntriesSnoc(texts, t, b);
    ConcatSnoc(Entries(texts, b), PageEntry(|texts| + 1, t, b));
  }

  method AccumulateMarkedPages(pages: seq<Option<string>>, stripBody: bool) returns (r: Option<string>)
    ensures r == MarkedPages(pages, stripBody)
  {
    var text := "";
    var i := 0;
    while i < |pages|
      invariant 0 <= i <= |pages|
      invariant AllExtracted(pages[..i])
      invariant text == Assemble(Texts(pages[..i]), stripBody)
    {
      if pages[i].None? {
        assert !AllExtracted(pages) by { assert pages[i].None?; }
        return None;
      }
      var pageText := pages[i].value;
      AssembleStep(pages, i, stripBody);
      // a blank page adds nothing; otherwise its marker, its text and a newline
      text := text + PageEntry(i + 1, pageText, stripBody);
      i := i + 1;
    }
    assert pages[..i] == pages;
    return Some(text);
  }

  // ---------------------------------------------------------------------------
  // Title heuristic

  /** Native/OCR: first 10 lines, stripped. Docling: first 5 lines, stripped, `#` removed, stripped. */
  datatype TitleRule = LineRule | MarkdownRule

  function LineLimit(rule: TitleRule): nat {
    match rule
    case LineRule => 10
    case MarkdownRule => 5
  }

  function Candidate(rule: TitleRule, line: string): string {
    match rule
    case LineRule => Strip(line)
    case MarkdownRule => Strip(ReplaceAll(Strip(line), "#", ""))
  }

  predicate Qualifies(rule: TitleRule, c: string) {
    match rule
    case LineRule => 10 < |c| < 100 && !IsDigits(c) && !Contains(c, "Page")
    case MarkdownRule => 5 < |c| < 100
  }

  /** For each line, whether its candidate qualifies as a title. */
  function Flags(lines: seq<string>, rule: TitleRule): (f: seq<bool>)
    ensures |f| == |lines|
  {
    seq(|lines|, j requires 0 <= j < |lines| => TitleLine(rule, lines[j]))
  }

  /** Index of the first `true`. */
  function FirstTrue(flags: seq<bool>): (r: Option<nat>)
    ensures r.Some? ==> r.value < |flags|
    decreases |flags|
  {
    if flags == [] then None
    else if flags[0] then Some(0)
    else
      match FirstTrue(flags[1..])
      case None => None
      case Some(i) => Some(i + 1)
  }

  /** The lines the scan looks at: the first `LineLimit(rule)`. */
  function Window(lines: seq<string>, rule: TitleRule): seq<string> {
    if |lines| <= LineLimit(rule) then lines else lines[..LineLimit(rule)]
  }

  /** The title: the first qualifying candidate in the window, else `fallback`. */
  function PickTitle(lines: seq<string>, rule: TitleRule, fallback: string): string {
    var w := Window(lines, rule);
    match FirstTrue(Flags(w, rule))
    case Some(i) => Candidate(rule, w[i])
    case None => fallback
  }

  /** The search finds the first `true`, and finds nothing exactly when there is none. */
  lemma {:induction false} FirstTrueIsFirst(flags: seq<bool>)
    ensures match FirstTrue(flags)
      case Some(i) => flags[i] && forall j :: 0 <= j < i ==> !flags[j]
      case None => forall j :: 0 <= j < |flags| ==> !flags[j]
    decreases |flags|
  {
    if flags != [] && !flags[0] {
      var rest := flags[1..];
      FirstTrueIsFirst(rest);
      match FirstTrue(rest)
      case Some(i) =>
        assert flags[i + 1] == rest[i];
        forall j | 0 <= j < i + 1 ensures !flags[j] {
          if j > 0 { assert flags[j] == rest[j - 1]; }
        }
      case None =>
        forall j | 0 <= j < |flags| ensures !flags[j] {
          if j > 0 { assert flags[j] == rest[j - 1]; }
        }
    }
  }

  /** A line whose candidate qualifies as a title. */
  predicate TitleLine(rule: TitleRule, line: string) {
    Qualifies(rule, Candidate(rule, line))
  }

  /** When no line of the window qualifies, the title is the fallback. */
  lemma PickTitleNone(lines: seq<string>, rule: TitleRule, fallback: string)
    requires forall j :: 0 <= j < |Window(lines, rule)| ==> !TitleLine(rule, Window(lines, rule)[j])
    ensures PickTitle(lines, rule, fallback) == fallback
  {
    var w := Window(lines, rule);
    var f := Flags(w, rule);
    assert forall j :: 0 <= j < |f| ==> !f[j];
    FirstTrueIsFirst(f);
  }

  /** Otherwise it is the candidate of the first line of the window that qualifies. */
  lemma PickTitleFirst(lines: seq<string>, rule: TitleRule, fallback: string, i: nat)
    requires i < |Window(lines, rule)| && TitleLine(rule, Window(lines, rule)[i])
    requires forall j :: 0 <= j < i ==> !TitleLine(rule, Window(lines, rule)[j])
    ensures PickTitle(lines, rule, fallback) == Candidate(rule, Window(lines, rule)[i])
  {
    FlagsFirst(Window(lines, rule), rule, i);
  }

  lemma FlagsFirst(w: seq<string>, rule: TitleRule, i: nat)
    requires i < |w| && TitleLine(rule, w[i])
    requires forall j :: 0 <= j < i ==> !TitleLine(rule, w[j])
    ensures FirstTrue(Flags(w, rule)) == Some(i)
  {
    var f := Flags(w, rule);
    forall j | 0 <= j < i ensures !f[j] {
      assert f[j] == TitleLine(rule, w[j]);
    }
    FirstTrueAt(f, i);
  }

  /** The search finds a `true` that has no `true` before it. */
  lemma {:induction false} FirstTrueAt(flags: seq<bool>, i: nat)
    requires i < |flags| && flags[i]
    requires forall j :: 0 <= j < i ==> !flags[j]
    ensures FirstTrue(flags) == Some(i)
    decreases i
  {
    if i > 0 {
      var rest := flags[1..];
      assert rest[i - 1] == flags[i];
      assert forall j :: 0 <= j < i - 1 ==> !rest[j] by {
        forall j | 0 <= j < i - 1 ensures !rest[j] { assert rest[j] == flags[j + 1]; }
      }
      FirstTrueAt(rest, i - 1);
    }
  }

  function Shifted(o: Option<nat>, d: nat): Option<nat> {
    match o
    case None => None
    case Some(k) => Some(k + d)
  }

  /**
   * One step of the search from position `i`: a `true` there is the answer, and a
   * `false` moves the search on to `i + 1`.
   */
  lemma FirstTrueStep(flags: seq<bool>, i: nat, found: bool)
    requires i < |flags| && flags[i] == found
    requires FirstTrue(flags) == Shifted(FirstTrue(flags[i..]), i)
    ensures found ==> FirstTrue(flags) == Some(i)
    ensures !found ==> FirstTrue(flags) == Shifted(FirstTrue(flags[i + 1..]), i + 1)
  {
    assert flags[i..][0] == flags[i];
    assert flags[i..][1..] == flags[i + 1..];
  }

  /** The title loop of the native and OCR strategies: `for line in lines[:10]`. */
  method ScanLineTitle(lines: seq<string>, fallback: string) returns (title: string)
    ensures title == PickTitle(lines, LineRule, fallback)
  {
    var w := Window(lines, LineRule);
    ghost var flags := Flags(w, LineRule);
    title := fallback;
    var i := 0;
    assert flags[0..] == flags;
    while i < |w|
      invariant 0 <= i <= |w|
      invariant title == fallback
      invariant FirstTrue(flags) == Shifted(FirstTrue(flags[i..]), i)
    {
      var cleanLine, found := CheckLine(w[i]);
      FirstTrueStep(flags, i, found);
      if found {
        title := cleanLine;
        break;
      }
      i := i + 1;
    }
  }

  /** One step of the native/OCR title loop: strip the line and test it. */
  method CheckLine(line: string) returns (cleanLine: string, found: bool)
    ensures cleanLine == Candidate(LineRule, line) && found == TitleLine(LineRule, line)
  {
    cleanLine := Strip(line);
    found := 10 < |cleanLine| < 100 && !IsDigits(cleanLine) && !Contains(cleanLine, "Page");
  }

  /** One step of the Docling title loop: drop the '#' marks, strip, test the length. */
  method CheckMarkdownLine(line: string) returns (cleanLine: string, found: bool)
    ensures cleanLine == Candidate(MarkdownRule, line) && found == TitleLine(MarkdownRule, line)
  {
    cleanLine := Strip(ReplaceAll(Strip(line), "#", ""));
    found := 5 < |cleanLine| < 100;
  }

  /** The title loop of the Docling strategy: `for line in lines[:5]`. */
  method ScanMarkdownTitle(lines: seq<string>, fallback: string) returns (title: string)
    ensures title == PickTitle(lines, MarkdownRule, fallback)
  {
    var w := Window(lines, MarkdownRule);
    ghost var flags := Flags(w, MarkdownRule);
    title := fallback;
    var i := 0;
    assert flags[0..] == flags;
    while i < |w|
      invariant 0 <= i <= |w|
      invariant title == fallback
      invariant FirstTrue(flags) == Shifted(FirstTrue(flags[i..]), i)
    {
      var cleanLine, found := CheckMarkdownLine(w[i]);
      FirstTrueStep(flags, i, found);
      if found {
        title := cleanLine;
        break;
      }
      i := i + 1;
    }
  }

  // ---------------------------------------------------------------------------
  // Strategy results

  /** `filename.replace('.pdf', '')`, the title used when no line qualifies. */
  function FilenameTitle(filename: string): string {
    ReplaceAll(filename, ".pdf", "")
  }

  function Build(s: Strategy, filename: string, content: string, title: string,
                 pageCount: nat, hasTables: bool, hasImages: bool): Extraction
  {
    Extraction(
      MethodTag(s), Clean(title), Strip(content), Strip(content),
      Metadata(|Words(content)|, pageCount, ExtractionTag(s), filename, hasTables, hasImages),
      Confidence(s))
  }

  /**
   * `extract_with_pypdf2` / `extract_with_ocr`: `None` when opening the document
   * raises (`input == None`), when a page raises, or when every page is blank;
   * otherwise the cleaned text, its title and metadata. `page_count` counts all
   * pages, blank or not.
   */
  function PagedOutcome(s: Strategy, input: Option<seq<Option<string>>>, filename: string): Option<Extraction>
    requires s != Docling
  {
    match input
    case None => None
    case Some(pages) =>
      match MarkedPages(pages, s == Ocr)
      case None => None
      case Some(raw) =>
        if Strip(raw) == [] then None
        else
          var content := Clean(raw);
          var title := PickTitle(SplitOn(content, '\n'), LineRule, FilenameTitle(filename));
          Some(Build(s, filename, content, title, |pages|, false, false))
  }

  method ExtractPaged(s: Strategy, input: Option<seq<Option<string>>>, filename: string)
    returns (r: Option<Extraction>)
    requires s != Docling
    ensures r == PagedOutcome(s, input, filename)
  {
    if input.None? {
      return None;
    }
    var pages := input.value;
    var raw := AccumulateMarkedPages(pages, s == Ocr);
    if raw.None? || Strip(raw.value) == [] {
      return None;
    }
    var content := Clean(raw.value);
    var lines := SplitOn(content, '\n');
    var title := ScanLineTitle(lines, FilenameTitle(filename));
    return Some(Build(s, filename, content, title, |pages|, false, false));
  }

  /** What Docling returns: the markdown export and, when the document has them, its pages. */
  datatype DoclingDoc = DoclingDoc(markdown: string, pages: Option<nat>)

  /**
   * `extract_with_docling`: `None` when conversion raises; otherwise a result even
   * for empty content. `page_count` defaults to 1, `has_tables` asks whether some line
   * holds `|`, `has_images` whether the content holds `![`.
   */
  function DoclingOutcome(input: Option<DoclingDoc>, filename: string): Option<Extraction> {
    match input
    case None => None
    case Some(doc) =>
      var content := Clean(doc.markdown);
      var lines := SplitOn(content, '\n');
      var title := PickTitle(lines, MarkdownRule, FilenameTitle(filename));
      Some(Build(Docling, filename, content, title, doc.pages.GetOr(1),
                 AnyLineHas(lines, '|'), Contains(content, "![")))
  }

  method ExtractDocling(input: Option<DoclingDoc>, filename: string) returns (r: Option<Extraction>)
    ensures r == DoclingOutcome(input, filename)
  {
    if input.None? {
      return None;
    }
    var doc := input.value;
    var content := Clean(doc.markdown);
    var lines := SplitOn(content, '\n');
    var title := ScanMarkdownTitle(lines, FilenameTitle(filename));
    var pageCount := doc.pages.GetOr(1);
    return Some(Build(Docling, filename, content, title, pageCount,
                      AnyLineHas(lines, '|'), Contains(content, "![")));
  }

  // ---------------------------------------------------------------------------
  // Properties of page assembly

  /** `w` occurs in `s`. */
  ghost predicate HasInfix(s: string, w: string) {
    exists x, y :: s == x + w + y
  }

  lemma InfixExtends(s: string, t: string, w: string)
    ensures HasInfix(s, w) ==> HasInfix(s + t, w)
    ensures HasInfix(t, w) ==> HasInfix(s + t, w)
  {
    if HasInfix(s, w) {
      var x, y :| s == x + w + y;
      assert s + t == x + w + (y + t);
    }
    if HasInfix(t, w) {
      var x, y :| t == x + w + y;
      assert s + t == (s + x) + w + y;
    }
  }

  /** Every page marker holds the word `Page`. */
  lemma MarkerHasPage(k: nat)
    ensures HasInfix(PageMarker(k), "Page")
  {
    var n := NatToString(k);
    var x, y := "\n--- ", " " + n + " ---\n";
    assert PageMarker(k) == x + "Page" + y;
  }

  /** The entry of a page that is not blank holds its marker's `Page`. */
  lemma PageEntryHasPage(k: nat, text: string, b: bool)
    requires Strip(text) != []
    ensures HasInfix(PageEntry(k, text, b), "Page")
  {
    var body := if b then Strip(text) else text;
    MarkerHasPage(k);
    InfixExtends(PageMarker(k), body + "\n", "Page");
    assert PageEntry(k, text, b) == PageMarker(k) + (body + "\n");
  }

  /** A word inside one of the pieces is inside the whole. */
  lemma {:induction false} ConcatHasInfix(parts: seq<string>, k: nat, w: string)
    requires k < |parts| && HasInfix(parts[k], w)
    ensures HasInfix(Concat(parts), w)
    decreases |parts|
  {
    var n := |parts|;
    var init := parts[..n - 1];
    InfixExtends(Concat(init), parts[n - 1], w);
    if k < n - 1 {
      assert init[k] == parts[k];
      ConcatHasInfix(init, k, w);
    }
  }

  /** The text holds the word `Page` as soon as one page is not blank. */
  lemma AssembleHasPage(texts: seq<string>, b: bool)
    requires !AllBlank(texts)
    ensures HasInfix(Assemble(texts, b), "Page")
  {
    var k :| 0 <= k < |texts| && Strip(texts[k]) != [];
    EntryHasPage(texts, k, b);
    ConcatHasInfix(Entries(texts, b), k, "Page");
  }

  lemma EntryHasPage(texts: seq<string>, k: nat, b: bool)
    requires k < |texts| && Strip(texts[k]) != []
    ensures HasInfix(Entries(texts, b)[k], "Page")
  {
    assert Entries(texts, b)[k] == PageEntry(k + 1, texts[k], b);
    PageEntryHasPage(k + 1, texts[k], b);
  }

  /** Blank pages contribute nothing: all-blank input assembles to the empty text. */
  lemma AssembleAllBlank(texts: seq<string>, b: bool)
    requires AllBlank(texts)
    ensures Assemble(texts, b) == []
  {
    var es := Entries(texts, b);
    forall k | 0 <= k < |es| ensures es[k] == [] {
      assert es[k] == PageEntry(k + 1, texts[k], b);
      assert Strip(texts[k]) == [];
    }
    ConcatEmpty(es);
  }

  /** The strategy's "no text" check fails exactly when every page is blank. */
  lemma AssembleBlankIff(texts: seq<string>, b: bool)
    ensures Strip(Assemble(texts, b)) == [] <==> AllBlank(texts)
  {
    if AllBlank(texts) {
      AssembleAllBlank(texts, b);
    } else {
      AssembleHasPage(texts, b);
      var x, y :| Assemble(texts, b) == x + "Page" + y;
      var s := Assemble(texts, b);
      assert s[|x|] == 'P';
      assert !AllSpace(s);
    }
  }

  /**
   * Page `i` (0-based) appears, under the marker with its 1-based number `i + 1`,
   * right after everything the earlier pages produced and before what the later
   * pages produce: pages come out in order, numbered by physical position.
   */
  lemma AssembleEntryInPlace(texts: seq<string>, i: nat, b: bool)
    requires i < |texts|
    ensures Assemble(texts, b) ==
      Assemble(texts[..i], b) + PageEntry(i + 1, texts[i], b) + Concat(Entries(texts, b)[i + 1..])
  {
    var es := Entries(texts, b);
    calc {
      Assemble(texts, b);
      Concat(es);
      { ConcatSplitAt(es, i); }
      Concat(es[..i]) + es[i] + Concat(es[i + 1..]);
      { EntriesPrefix(texts, i, b); }
      Assemble(texts[..i], b) + PageEntry(i + 1, texts[i], b) + Concat(es[i + 1..]);
    }
  }

  lemma EntriesPrefix(texts: seq<string>, j: nat, b: bool)
    requires j <= |texts|
    ensures Entries(texts[..j], b) == Entries(texts, b)[..j]
  {
    var l := Entries(texts[..j], b);
    forall k | 0 <= k < j ensures l[k] == Entries(texts, b)[k] {
      assert texts[..j][k] == texts[k];
    }
  }

  // ---------------------------------------------------------------------------
  // Properties of the strategy results

  /** A native or OCR strategy succeeds exactly when every page extracts and some page is not blank. */
  lemma PagedSucceedsIff(s: Strategy, input: Option<seq<Option<string>>>, filename: string)
    requires s != Docling
    ensures PagedOutcome(s, input, filename).Some? <==>
      input.Some? && AllExtracted(input.value) && !AllBlank(Texts(input.value))
  {
    if input.Some? {
      var pages := input.value;
      if AllExtracted(pages) {
        var raw := Assemble(Texts(pages), s == Ocr);
        assert MarkedPages(pages, s == Ocr) == Some(raw);
        AssembleBlankIff(Texts(pages), s == Ocr);
      } else {
        assert MarkedPages(pages, s == Ocr) == None;
      }
    }
  }

  /** Sanitised text has no newline left, so splitting it into lines gives the one line. */
  lemma CleanIsOneLine(raw: string)
    ensures SplitOn(Clean(raw), '\n') == [Clean(raw)]
    ensures Strip(Clean(raw)) == Clean(raw)
  {
    CleanOutputShape(raw);
    SplitWithoutSeparator(Clean(raw), '\n');
    StripUnchanged(Clean(raw));
  }

  /** The title scan over one line that contains `Page` finds nothing. */
  lemma LineTitleOfPageLine(c: string, fallback: string)
    requires Strip(c) == c && Contains(c, "Page")
    ensures PickTitle([c], LineRule, fallback) == fallback
  {
    assert Window([c], LineRule) == [c];
    PickTitleNone([c], LineRule, fallback);
  }

  /**
   * Native and OCR titles never come from the text: the sanitised content is one
   * line, and it holds a page marker's `Page`, so the scan always falls back.
   */
  lemma PagedTitleIsFilename(raw: string, fallback: string)
    requires HasInfix(raw, "Page")
    ensures PickTitle(SplitOn(Clean(raw), '\n'), LineRule, fallback) == fallback
  {
    var x, y :| raw == x + "Page" + y;
    assert AllPlain("Page");
    CleanKeepsPlainInfix(x, "Page", y);
    CleanIsOneLine(raw);
    LineTitleOfPageLine(Clean(raw), fallback);
  }

  /**
   * A native or OCR result: method, extraction method and confidence are the
   * strategy's fixed tags; the content is the sanitised page text; the word count is
   * that of the content; the page count includes blank pages; there are no tables
   * or images; and the title is the sanitised filename without `.pdf`.
   */
  lemma PagedResult(s: Strategy, pages: seq<Option<string>>, filename: string)
    requires s != Docling
    requires PagedOutcome(s, Some(pages), filename).Some?
    ensures var e := PagedOutcome(s, Some(pages), filename).value;
      var content := Clean(Assemble(Texts(pages), s == Ocr));
      && e.methodName == MethodTag(s)
      && e.confidence == Confidence(s)
      && e.metadata.extractionMethod == ExtractionTag(s)
      && e.content == content && e.rawText == content
      && e.metadata.wordCount == |Words(content)|
      && e.metadata.pageCount == |pages|
      && !e.metadata.hasTables && !e.metadata.hasImages
      && e.metadata.filename == filename
      && e.title == Clean(FilenameTitle(filename))
  {
    var texts := Texts(pages);
    var raw := Assemble(texts, s == Ocr);
    assert !AllBlank(texts) by { AssembleBlankIff(texts, s == Ocr); }
    AssembleHasPage(texts, s == Ocr);
    PagedTitleIsFilename(raw, FilenameTitle(filename));
    CleanIsOneLine(raw);
  }

  /**
   * A Docling result: its fixed tags; content is the sanitised markdown; a table is
   * reported exactly when the content holds `|` and an image exactly when it holds
   * `![`; the page count defaults to 1. Since the sanitised content is one line, the
   * title is that line without `#` when it has 6 to 99 characters, else the filename.
   */
  lemma DoclingResult(doc: DoclingDoc, filename: string)
    ensures var e := DoclingOutcome(Some(doc), filename).value;
      var content := Clean(doc.markdown);
      var cand := Strip(ReplaceAll(content, "#", ""));
      && e.methodName == MethodTag(Docling) && e.confidence == Confidence(Docling)
      && e.metadata.extractionMethod == ExtractionTag(Docling)
      && e.content == content && e.rawText == content
      && e.metadata.wordCount == |Words(content)|
      && (e.metadata.hasTables <==> '|' in content)
      && (e.metadata.hasImages <==> Contains(content, "!["))
      && (doc.pages.None? ==> e.metadata.pageCount == 1)
      && (doc.pages.Some? ==> e.metadata.pageCount == doc.pages.value)
      && e.title == Clean(if 5 < |cand| < 100 then cand else FilenameTitle(filename))
  {
    var content := Clean(doc.markdown);
    var lines := SplitOn(content, '\n');
    var fallback := FilenameTitle(filename);
    var title := PickTitle(lines, MarkdownRule, fallback);
    var cand := Strip(ReplaceAll(content, "#", ""));
    assert title == if 5 < |cand| < 100 then cand else fallback by {
      DoclingTitle(doc.markdown, fallback);
    }
    assert AnyLineHas(lines, '|') <==> '|' in content by {
      SplitKeepsCharacters(content, '\n', '|');
    }
    assert Strip(content) == content by {
      CleanIsOneLine(doc.markdown);
    }
    assert DoclingOutcome(Some(doc), filename) ==
      Some(Build(Docling, filename, content, title, doc.pages.GetOr(1), AnyLineHas(lines, '|'), Contains(content, "![")));
  }

  /** The Docling title scan sees the single sanitised line, without `#` and stripped. */
  lemma DoclingTitle(markdown: string, fallback: string)
    ensures var content := Clean(markdown);
      var cand := Strip(ReplaceAll(content, "#", ""));
      PickTitle(SplitOn(content, '\n'), MarkdownRule, fallback) == if 5 < |cand| < 100 then cand else fallback
  {
    var content := Clean(markdown);
    CleanIsOneLine(markdown);
    assert Window([content], MarkdownRule) == [content];
    if TitleLine(MarkdownRule, content) {
      PickTitleFirst([content], MarkdownRule, fallback, 0);
    } else {
      PickTitleNone([content], MarkdownRule, fallback);
    }
  }

  // ---------------------------------------------------------------------------
  // Preview

  /** What preview rendering needs from the libraries: the page count when the file opens, and the encoded image. */
  datatype PreviewInput = PreviewInput(pageCount: Option<nat>, encoded: Option<string>)

  /**
   * `generate_pdf_preview_image`: `None` without PyMuPDF and PIL, when opening
   * raises, when there are no pages, or when rendering raises; otherwise a PNG data URI.
   */
  function Preview(caps: Capabilities, p: PreviewInput): Option<string> {
    if !caps.fitz || !caps.pil then None
    else match p.pageCount
      case None => None
      case Some(n) =>
        if n == 0 then None
        else match p.encoded
          case None => None
          case Some(payload) => Some("data:image/png;base64," + payload)
  }

  const PngPrefix: string := "data:image/png;base64,"

  lemma PreviewIff(caps: Capabilities, p: PreviewInput)
    ensures Preview(caps, p).Some? <==>
      caps.fitz && caps.pil && p.pageCount.Some? && p.pageCount.value > 0 && p.encoded.Some?
    ensures Preview(caps, p).Some? ==>
      StartsWith(Preview(caps, p).value, PngPrefix) && Preview(caps, p).value != []
  {
    if Preview(caps, p).Some? {
      assert Preview(caps, p).value == PngPrefix + p.encoded.value;
      assert Preview(caps, p).value[..|PngPrefix|] == PngPrefix;
    }
  }

  // ---------------------------------------------------------------------------
  // The strategy chain

  datatype Body = Extracted(result: Extraction, preview: Option<string>) | Failed(error: string)
  datatype Response = Response(status: nat, body: Body)

  /** The JSON `success` flag. */
  predicate Success(r: Response) {
    r.body.Extracted?
  }

  /** Everything the libraries would report about the one PDF being processed. */
  datatype PdfInput = PdfInput(
    reader: Option<seq<Option<string>>>,
    ocrPages: Option<seq<Option<string>>>,
    docling: Option<DoclingDoc>,
    preview: PreviewInput)

  const AllFailed: string := "All extraction methods failed. PDF may be corrupted or unsupported format."

  /** A strategy's result, or `None` when it is unavailable or raises. */
  function Attempt(s: Strategy, caps: Capabilities, pdf: PdfInput, filename: string): Option<Extraction> {
    if !Available(s, caps) then None
    else match s
      case PyPdf2 => PagedOutcome(PyPdf2, pdf.reader, filename)
      case Ocr => PagedOutcome(Ocr, pdf.ocrPages, filename)
      case Docling => DoclingOutcome(pdf.docling, filename)
  }

  /** A success response; the preview is attached only when it is a non-empty string. */
  function Succeed(e: Extraction, preview: Option<string>): Response {
    Response(200, Extracted(e, if preview.Some? && preview.value != [] then preview else None))
  }

  /** The order in which the handler tries the strategies. */
  const Order: seq<Strategy> := [PyPdf2, Ocr, Docling]

  /** What each strategy, in chain order, would return. */
  function Attempts(caps: Capabilities, pdf: PdfInput, filename: string): (r: seq<Option<Extraction>>)
    ensures |r| == |Order|
    ensures forall i :: 0 <= i < |Order| && r[i].Some? ==> Available(Order[i], caps)
  {
    [Attempt(PyPdf2, caps, pdf, filename), Attempt(Ocr, caps, pdf, filename), Attempt(Docling, caps, pdf, filename)]
  }

  /** Returning the first result there is, or 500 when every attempt failed. */
  function Select(attempts: seq<Option<Extraction>>, preview: Option<string>): Response
    decreases |attempts|
  {
    if attempts == [] then Response(500, Failed(AllFailed))
    else if attempts[0].Some? then Succeed(attempts[0].value, preview)
    else Select(attempts[1..], preview)
  }

  /** The chain: PyPDF2, then OCR, then Docling. */
  function Chain(caps: Capabilities, pdf: PdfInput, filename: string, preview: Option<string>): Response {
    Select(Attempts(caps, pdf, filename), preview)
  }

  method RunStrategies(caps: Capabilities, pdf: PdfInput, filename: string, preview: Option<string>)
    returns (resp: Response)
    ensures resp == Chain(caps, pdf, filename, preview)
  {
    ghost var attempts := Attempts(caps, pdf, filename);
    AttemptsInOrder(caps, pdf, filename);
    if caps.pypdf2 {
      var r := ExtractPaged(PyPdf2, pdf.reader, filename);
      if r.Some? {
        SelectStopsAtFirstSuccess(attempts, attempts, 0, preview);
        return Succeed(r.value, preview);
      }
    }
    assert attempts[0].None?;
    if caps.pytesseract && caps.pdf2image {
      var r := ExtractPaged(Ocr, pdf.ocrPages, filename);
      if r.Some? {
        forall j | 0 <= j < 1 ensures attempts[j].None? {
          assert j == 0;
        }
        SelectStopsAtFirstSuccess(attempts, attempts, 1, preview);
        return Succeed(r.value, preview);
      }
    }
    assert attempts[1].None?;
    if caps.docling {
      var r := ExtractDocling(pdf.docling, filename);
      if r.Some? {
        forall j | 0 <= j < 2 ensures attempts[j].None? {
          assert j == 0 || j == 1;
        }
        SelectStopsAtFirstSuccess(attempts, attempts, 2, preview);
        return Succeed(r.value, preview);
      }
    }
    assert attempts[2].None?;
    SelectFirstSuccess(attempts, preview);
    return Response(500, Failed(AllFailed));
  }

  /** The three attempts, spelled out with the libraries each needs. */
  lemma AttemptsInOrder(caps: Capabilities, pdf: PdfInput, filename: string)
    ensures var a := Attempts(caps, pdf, filename);
      && a[0] == (if caps.pypdf2 then PagedOutcome(PyPdf2, pdf.reader, filename) else None)
      && a[1] == (if caps.pytesseract && caps.pdf2image then PagedOutcome(Ocr, pdf.ocrPages, filename) else None)
      && a[2] == (if caps.docling then DoclingOutcome(pdf.docling, filename) else None)
  {
  }

  /** Attempt `i` is the first one that returned a result. */
  predicate IsFirstSuccess(attempts: seq<Option<Extraction>>, i: int) {
    0 <= i < |attempts| && attempts[i].Some? && forall j :: 0 <= j < i ==> attempts[j].None?
  }

  /**
   * Selection succeeds exactly when some attempt returned a result, and then returns
   * the first such result with status 200; otherwise it is the fixed 500 response.
   */
  lemma {:induction false} SelectFirstSuccess(attempts: seq<Option<Extraction>>, preview: Option<string>)
    ensures var r := Select(attempts, preview);
      && (Success(r) <==> exists i :: 0 <= i < |attempts| && attempts[i].Some?)
      && (Success(r) ==>
            r.status == 200 &&
            exists i :: IsFirstSuccess(attempts, i) && r.body.result == attempts[i].value)
      && (!Success(r) ==> r == Response(500, Failed(AllFailed)))
    decreases |attempts|
  {
    if attempts != [] && attempts[0].None? {
      var rest := attempts[1..];
      SelectFirstSuccess(rest, preview);
      if exists i :: 0 <= i < |rest| && rest[i].Some? {
        var i :| IsFirstSuccess(rest, i) && Select(rest, preview).body.result == rest[i].value;
        assert attempts[i + 1] == rest[i];
        assert IsFirstSuccess(attempts, i + 1) by {
          forall j | 0 <= j < i + 1 ensures attempts[j].None? {
            if j > 0 { assert attempts[j] == rest[j - 1]; }
          }
        }
      } else {
        forall i | 0 <= i < |attempts| ensures attempts[i].None? {
          if i > 0 { assert attempts[i] == rest[i - 1]; }
        }
      }
    } else if attempts != [] {
      assert IsFirstSuccess(attempts, 0);
    }
  }

  /**
   * Attempts after the first success are never looked at: two lists that agree up to
   * and including it select the same response.
   */
  lemma {:induction false} SelectStopsAtFirstSuccess(a: seq<Option<Extraction>>, b: seq<Option<Extraction>>,
                                                     i: nat, preview: Option<string>)
    requires IsFirstSuccess(a, i) && i < |b| && b[..i + 1] == a[..i + 1]
    ensures Select(b, preview) == Select(a, preview) == Succeed(a[i].value, preview)
    decreases i
  {
    assert a[0] == a[..i + 1][0] && b[0] == b[..i + 1][0];
    if i > 0 {
      assert IsFirstSuccess(a[1..], i - 1) by {
        forall j | 0 <= j < i - 1 ensures a[1..][j].None? {
          assert a[1..][j] == a[j + 1];
        }
      }
      assert b[1..][..i] == a[1..][..i] by {
        forall j | 0 <= j < i ensures b[1..][j] == a[1..][j] {
          assert b[..i + 1][j + 1] == a[..i + 1][j + 1];
        }
      }
      SelectStopsAtFirstSuccess(a[1..], b[1..], i - 1, preview);
    }
  }

  /** The preview never decides success or the result; it is attached exactly when non-empty. */
  lemma {:induction false} SelectIgnoresPreview(attempts: seq<Option<Extraction>>, p: Option<string>, q: Option<string>)
    ensures Success(Select(attempts, p)) == Success(Select(attempts, q))
    ensures Select(attempts, p).status == Select(attempts, q).status
    ensures Success(Select(attempts, p)) ==>
      Select(attempts, p).body.result == Select(attempts, q).body.result &&
      (Select(attempts, p).body.preview.Some? <==> p.Some? && p.value != [])
    decreases |attempts|
  {
    if attempts != [] && attempts[0].None? {
      SelectIgnoresPreview(attempts[1..], p, q);
    }
  }

  // ---------------------------------------------------------------------------
  // The /extract handler

  /** The JSON body of the request; `None` when there is none. Absent keys are `None`. */
  datatype ExtractRequest = ExtractRequest(
    pdfUrl: Option<string>, filename: Option<string>, generatePreview: Option<bool>)

  /** How the download of an `http...` URL went: an exception message, or a saved file. */
  datatype Download = DownloadRaised(message: string) | Downloaded

  /** Where the handler takes the PDF from, or the response that ends it first. */
  datatype Source = Resolved | Stop(resp: Response)

  /**
   * Locating the PDF: a URL starting with `http` is downloaded, its failure answered
   * with 500 and the exception text; otherwise every `file://` is removed from the
   * URL (when it starts with one) and a missing path is answered with 404.
   */
  function Locate(pdfUrl: string, download: Download, existing: set<string>): Source {
    if StartsWith(pdfUrl, "http") then
      match download
      case DownloadRaised(msg) => Stop(Response(500, Failed(msg)))
      case Downloaded => Resolved
    else
      var path := if StartsWith(pdfUrl, "file://") then ReplaceAll(pdfUrl, "file://", "") else pdfUrl;
      if path !in existing then Stop(Response(404, Failed("PDF file not found: " + path)))
      else Resolved
  }

  /** `extract_pdf` as a whole. */
  function ExtractSpec(req: Option<ExtractRequest>, caps: Capabilities, download: Download,
                       existing: set<string>, pdf: PdfInput): Response
  {
    if req.None? || req.value.pdfUrl.None? then Response(400, Failed("Missing pdf_url in request"))
    else
      var r := req.value;
      match Locate(r.pdfUrl.value, download, existing)
      case Stop(resp) => resp
      case Resolved =>
        var preview := if r.generatePreview.GetOr(true) then Preview(caps, pdf.preview) else None;
        Chain(caps, pdf, r.filename.GetOr("document.pdf"), preview)
  }

  method ExtractPdf(req: Option<ExtractRequest>, caps: Capabilities, download: Download,
                    existing: set<string>, pdf: PdfInput) returns (resp: Response)
    ensures resp == ExtractSpec(req, caps, download, existing, pdf)
  {
    if req.None? || req.value.pdfUrl.None? {
      return Response(400, Failed("Missing pdf_url in request"));
    }
    var pdfUrl := req.value.pdfUrl.value;
    var filename := req.value.filename.GetOr("document.pdf");
    var generatePreview := req.value.generatePreview.GetOr(true);
    if StartsWith(pdfUrl, "http") {
      if download.DownloadRaised? {
        return Response(500, Failed(download.message));
      }
    } else {
      var pdfPath := pdfUrl;
      if StartsWith(pdfUrl, "file://") {
        pdfPath := ReplaceAll(pdfUrl, "file://", "");
      }
      if pdfPath !in existing {
        return Response(404, Failed("PDF file not found: " + pdfPath));
      }
    }
    var previewImage: Option<string> := None;
    if generatePreview {
      previewImage := Preview(caps, pdf.preview);
    }
    resp := RunStrategies(caps, pdf, filename, previewImage);
  }

  /**
   * Status codes of the handler: 400 only for a missing request or `pdf_url`, 404
   * only for a missing local file, 200 exactly for a success, and 500 otherwise.
   */
  lemma ExtractStatus(req: Option<ExtractRequest>, caps: Capabilities, download: Download,
                      existing: set<string>, pdf: PdfInput)
    ensures var r := ExtractSpec(req, caps, download, existing, pdf);
      && (r.status == 400 <==> req.None? || req.value.pdfUrl.None?)
      && (r.status == 200 <==> Success(r))
      && r.status in {200, 400, 404, 500}
      && (r.status == 404 ==> !StartsWith(req.value.pdfUrl.value, "http"))
  {
    if req.Some? && req.value.pdfUrl.Some? && Locate(req.value.pdfUrl.value, download, existing).Resolved? {
      var preview := if req.value.generatePreview.GetOr(true) then Preview(caps, pdf.preview) else None;
      SelectFirstSuccess(Attempts(caps, pdf, req.value.filename.GetOr("document.pdf")), preview);
    }
  }

  /** A request without preview produces no preview, and asking for one never changes success. */
  lemma PreviewRequestIrrelevant(r: ExtractRequest, caps: Capabilities, download: Download,
                                 existing: set<string>, pdf: PdfInput)
    requires r.pdfUrl.Some?
    ensures var withP := ExtractSpec(Some(r.(generatePreview := Some(true))), caps, download, existing, pdf);
      var without := ExtractSpec(Some(r.(generatePreview := Some(false))), caps, download, existing, pdf);
      && Success(withP) == Success(without)
      && withP.status == without.status
      && (Success(without) ==> without.body.preview.None?)
  {
    var filename := r.filename.GetOr("document.pdf");
    SelectIgnoresPreview(Attempts(caps, pdf, filename), Preview(caps, pdf.preview), None);
    SelectIgnoresPreview(Attempts(caps, pdf, filename), None, Preview(caps, pdf.preview));
  }
}
