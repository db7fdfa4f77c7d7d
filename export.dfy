/** `export_pages_to_images` and `export_pages_to_markdown`: open the PDF, parse the page range
    against its page count, give up when that fails or selects nothing, create the output
    directory, then write one `page_NNNN` file per selected page, in page order. Rendering and
    markdown extraction are left to the document: it says on which pages they raise. */
module Export {
  import opened Wrappers
  import opened PageRange
  import opened PageFiles
  import opened Disk

  /** An opened PDF: its page count, and the pages on which rendering (`get_pixmap`) or
      markdown extraction (`to_markdown`) raises. */
  datatype Document = Document(pageCount: nat, rasterFails: set<nat>, markdownFails: set<nat>)

  /** The PDF an export is given: the stem of its path, and the document, `None` when
      `pymupdf.open` raises. */
  datatype Pdf = Pdf(stem: string, document: Option<Document>)

  /** Which of the two exporters runs. */
  datatype Kind = Markdown | Raster(dpi: int)

  /** What a run reports, and what it did. */
  datatype Run = Run(ok: bool, effects: seq<Effect>)

  function Extension(kind: Kind): string {
    if kind.Markdown? then ".md" else ".png"
  }

  function PageContent(kind: Kind, page: nat): Artifact {
    match kind
    case Markdown => PageMarkdown(page)
    case Raster(dpi) => PageRaster(page, dpi)
  }

  function Fails(doc: Document, kind: Kind): set<nat> {
    if kind.Markdown? then doc.markdownFails else doc.rasterFails
  }

  /** Writing one page's file. */
  function PageWrite(dir: Path, kind: Kind, page: nat): Effect {
    WriteFile(dir, PageFileName(page, Extension(kind)), PageContent(kind, page))
  }

  function PageWrites(dir: Path, kind: Kind, pages: seq<nat>): seq<Effect> {
    seq(|pages|, i requires 0 <= i < |pages| => PageWrite(dir, kind, pages[i]))
  }

  /** The file names of some pages. */
  function PageNames(pages: seq<nat>, ext: string): set<string> {
    set p | p in pages :: PageFileName(p, ext)
  }

  /** How many items a loop gets through before the first one in `fails`, where it raises. */
  function CleanRun<T(==)>(items: seq<T>, fails: set<T>): (n: nat)
    ensures n <= |items|
    ensures forall i :: 0 <= i < n ==> items[i] !in fails
    ensures n < |items| ==> items[n] in fails
  {
    if |items| == 0 then 0
    else if items[0] in fails then 0
    else 1 + CleanRun(items[1..], fails)
  }

  /** The directory the files go to: the one given, else the PDF's stem. */
  function OutputDir(pdf: Pdf, outputDir: Option<Path>): Path {
    if outputDir.Some? then outputDir.value else pdf.stem
  }

  /** The pages an export goes on to write: the parsed range, once the document is open and
      the range parses to a non-empty selection. */
  function Selection(pdf: Pdf, pageRange: string): Option<seq<nat>> {
    match pdf.document
    case None => None
    case Some(doc) =>
      match Parse(pageRange, doc.pageCount)
      case Err(_) => None
      case Ok(pages) => if |pages| == 0 then None else Some(pages)
  }

  /** What an export does before its first page: the image exporter keeps the document open
      for rendering, the markdown exporter closes it, since extraction reopens the file. */
  function Prologue(dir: Path, kind: Kind): seq<Effect> {
    if kind.Markdown? then [OpenDocument, MakeDir(dir), CloseDocument] else [OpenDocument, MakeDir(dir)]
  }

  /** What an export does after its last page: the image exporter closes the document there,
      when its loop got through every page. */
  function Epilogue(kind: Kind, done: bool): seq<Effect> {
    if kind.Raster? && done then [CloseDocument] else []
  }

  /** The reference meaning of both exporters. They stop at the first page that raises,
      keeping the files already written; the image exporter then leaves the document open. */
  function ExportOutcome(pdf: Pdf, pageRange: string, outputDir: Option<Path>, kind: Kind): Run {
    if pdf.document.None? then Run(false, [])
    else if Selection(pdf, pageRange).None? then Run(false, [OpenDocument, CloseDocument])
    else
      var pages := Selection(pdf, pageRange).value;
      var n := CleanRun(pages, Fails(pdf.document.value, kind));
      var dir := OutputDir(pdf, outputDir);
      Run(n == |pages|, Prologue(dir, kind) + PageWrites(dir, kind, pages[..n]) + Epilogue(kind, n == |pages|))
  }

  /** An export succeeds exactly when the document opens, the range selects at least one page,
      and no selected page raises. */
  predicate Exportable(pdf: Pdf, pageRange: string, kind: Kind) {
    Selection(pdf, pageRange).Some?
    && forall p :: p in Selection(pdf, pageRange).value ==> p !in Fails(pdf.document.value, kind)
  }

  // ---------------------------------------------------------------------------------------
  // The two exporters.

  lemma PageWritesSnoc(dir: Path, kind: Kind, pages: seq<nat>, i: nat)
    requires i < |pages|
    ensures PageWrites(dir, kind, pages[..i + 1]) == PageWrites(dir, kind, pages[..i]) + [PageWrite(dir, kind, pages[i])]
  {
  }

  /** How `Selection` follows from the parse result. */
  lemma SelectionOfParse(pdf: Pdf, pageRange: string, parsed: Result<seq<nat>, ParseError>)
    requires pdf.document.Some? && parsed == Parse(pageRange, pdf.document.value.pageCount)
    ensures Selection(pdf, pageRange) == if parsed.Err? || |parsed.value| == 0 then None else Some(parsed.value)
  {
  }

  /** The outcome of an export that reached its pages and raised at page `pages[i]`, or, for
      `i == |pages|`, got through all of them. */
  lemma OutcomeAfter(pdf: Pdf, pageRange: string, outputDir: Option<Path>, kind: Kind, i: nat)
    requires Selection(pdf, pageRange).Some?
    requires var pages := Selection(pdf, pageRange).value;
      i <= |pages| && (forall j :: 0 <= j < i ==> pages[j] !in Fails(pdf.document.value, kind))
      && (i < |pages| ==> pages[i] in Fails(pdf.document.value, kind))
    ensures var pages := Selection(pdf, pageRange).value;
      var dir := OutputDir(pdf, outputDir);
      ExportOutcome(pdf, pageRange, outputDir, kind)
      == Run(i == |pages|, Prologue(dir, kind) + PageWrites(dir, kind, pages[..i]) + Epilogue(kind, i == |pages|))
  {
  }

  /** The loop both exporters share: write each page's file in turn, stopping at the first page
      that raises; `effects` holds what was done before it. */
  method WritePages(pages: seq<nat>, fails: set<nat>, dir: Path, kind: Kind, prologue: seq<Effect>)
    returns (ok: bool, effects: seq<Effect>)
    ensures ok == (CleanRun(pages, fails) == |pages|)
    ensures effects == prologue + PageWrites(dir, kind, pages[..CleanRun(pages, fails)])
  {
    effects := prologue;
    for i := 0 to |pages|
      invariant forall j :: 0 <= j < i ==> pages[j] !in fails
      invariant effects == prologue + PageWrites(dir, kind, pages[..i])
    {
      var page := pages[i];
      if page in fails {
        // The exception leaves the loop for the outer handler.
        return false, effects;
      }
      PageWritesSnoc(dir, kind, pages, i);
      effects := effects + [PageWrite(dir, kind, page)];
    }
    assert pages[..|pages|] == pages;
    ok := true;
  }

  /** `export_pages_to_images(pdf_path, page_range, output_dir, dpi)`. */
  method ExportPagesToImages(pdf: Pdf, pageRange: string, outputDir: Option<Path>, dpi: int)
    returns (ok: bool, effects: seq<Effect>)
    ensures Run(ok, effects) == ExportOutcome(pdf, pageRange, outputDir, Raster(dpi))
  {
    if pdf.document.None? {
      return false, [];
    }
    var doc := pdf.document.value;
    var parsed := ParsePageRange(pageRange, doc.pageCount);
    SelectionOfParse(pdf, pageRange, parsed);
    if parsed.Err? || |parsed.value| == 0 {
      return false, [OpenDocument, CloseDocument];
    }
    var dir := if outputDir.Some? then outputDir.value else pdf.stem;
    ok, effects := WritePages(parsed.value, doc.rasterFails, dir, Raster(dpi), [OpenDocument, MakeDir(dir)]);
    // Only a loop that gets through every page reaches `doc.close()`.
    effects := effects + Epilogue(Raster(dpi), ok);
    OutcomeAfter(pdf, pageRange, outputDir, Raster(dpi), CleanRun(parsed.value, doc.rasterFails));
  }

  /** `export_pages_to_markdown(pdf_path, page_range, output_dir)`. */
  method ExportPagesToMarkdown(pdf: Pdf, pageRange: string, outputDir: Option<Path>)
    returns (ok: bool, effects: seq<Effect>)
    ensures Run(ok, effects) == ExportOutcome(pdf, pageRange, outputDir, Markdown)
  {
    if pdf.document.None? {
      return false, [];
    }
    var doc := pdf.document.value;
    var parsed := ParsePageRange(pageRange, doc.pageCount);
    SelectionOfParse(pdf, pageRange, parsed);
    if parsed.Err? || |parsed.value| == 0 {
      return false, [OpenDocument, CloseDocument];
    }
    var dir := if outputDir.Some? then outputDir.value else pdf.stem;
    ok, effects := WritePages(parsed.value, doc.markdownFails, dir, Markdown, [OpenDocument, MakeDir(dir), CloseDocument]);
    assert effects + Epilogue(Markdown, ok) == effects;
    OutcomeAfter(pdf, pageRange, outputDir, Markdown, CleanRun(parsed.value, doc.markdownFails));
  }

  // ---------------------------------------------------------------------------------------
  // What the exporters promise.

  /** An export returns `True` exactly when the document opens, the range parses to a non-empty
      selection, and no selected page raises. */
  lemma ExportSucceedsIff(pdf: Pdf, pageRange: string, outputDir: Option<Path>, kind: Kind)
    ensures ExportOutcome(pdf, pageRange, outputDir, kind).ok <==> Exportable(pdf, pageRange, kind)
  {
    if Selection(pdf, pageRange).Some? {
      var pages := Selection(pdf, pageRange).value;
      var fails := Fails(pdf.document.value, kind);
      var n := CleanRun(pages, fails);
      if n < |pages| {
        assert pages[n] in pages;
      } else {
        forall p | p in pages ensures p !in fails {
          var j :| 0 <= j < |pages| && pages[j] == p;
        }
      }
    }
  }

  /** When the document does not open, the range does not parse, or it selects nothing, the
      export returns `False` and leaves the disk exactly as it was: no directory, no file. */
  lemma EarlyFailureWritesNothing(fs: FileSystem, pdf: Pdf, pageRange: string, outputDir: Option<Path>, kind: Kind)
    requires Selection(pdf, pageRange).None?
    ensures var r := ExportOutcome(pdf, pageRange, outputDir, kind);
      !r.ok && Apply(fs, r.effects) == fs && Touched(r.effects) == {}
  {
    var r := ExportOutcome(pdf, pageRange, outputDir, kind);
    assert r.effects == [] || r.effects == [OpenDocument, CloseDocument];
    InertEffects(fs, r.effects, "", "");
  }

  lemma PageFrame(dir: Path, kind: Kind, pages: seq<nat>)
    requires |pages| > 0
    ensures var k := |pages| - 1; var w := PageWrites(dir, kind, pages);
      w[..|w| - 1] == PageWrites(dir, kind, pages[..k]) && w[|w| - 1] == PageWrite(dir, kind, pages[k])
  {
  }

  lemma {:induction false} PageWritesTouched(dir: Path, kind: Kind, pages: seq<nat>)
    ensures Touched(PageWrites(dir, kind, pages)) == if |pages| == 0 then {} else {dir}
    decreases |pages|
  {
    if |pages| > 0 {
      var w := PageWrites(dir, kind, pages);
      var init := pages[..|pages| - 1];
      PageFrame(dir, kind, pages);
      PageWritesTouched(dir, kind, init);
      assert Touched(w) == Touched(PageWrites(dir, kind, init)) + {dir};
    }
  }

  lemma PageNamesSnoc(pages: seq<nat>, ext: string)
    requires |pages| > 0
    ensures var k := |pages| - 1;
      PageNames(pages, ext) == PageNames(pages[..k], ext) + {PageFileName(pages[k], ext)}
  {
    var k := |pages| - 1;
    assert forall p :: p in pages <==> p in pages[..k] || p == pages[k] by {
      assert pages == pages[..k] + [pages[k]];
    }
  }

  lemma {:induction false} PageWritesWritten(dir: Path, kind: Kind, pages: seq<nat>, d: Path)
    ensures Written(PageWrites(dir, kind, pages), d) == if d == dir then PageNames(pages, Extension(kind)) else {}
    decreases |pages|
  {
    if |pages| > 0 {
      PageFrame(dir, kind, pages);
      PageWritesWritten(dir, kind, pages[..|pages| - 1], d);
      PageNamesSnoc(pages, Extension(kind));
    } else {
      assert PageNames(pages, Extension(kind)) == {};
    }
  }

  /** Each page's file ends up holding that page's content: no later page overwrites it. */
  lemma {:induction false} PageWritesLast(dir: Path, kind: Kind, pages: seq<nat>, p: nat)
    requires p in pages
    ensures LastWrite(PageWrites(dir, kind, pages), dir, PageFileName(p, Extension(kind))) == Some(PageContent(kind, p))
    decreases |pages|
  {
    var k := |pages| - 1;
    var w := PageWrites(dir, kind, pages);
    var name := PageFileName(p, Extension(kind));
    PageFrame(dir, kind, pages);
    PageFileNameInjective(p, pages[k], Extension(kind));
    if p != pages[k] {
      assert p in pages[..k] by {
        assert pages == pages[..k] + [pages[k]];
      }
      PageWritesLast(dir, kind, pages[..k], p);
      assert LastWrite(w, dir, name) == LastWrite(PageWrites(dir, kind, pages[..k]), dir, name);
    }
  }

  lemma PageNameFresh(init: seq<nat>, q: nat, ext: string)
    requires forall j :: 0 <= j < |init| ==> init[j] < q
    ensures PageFileName(q, ext) !in PageNames(init, ext)
  {
    forall p | p in init ensures PageFileName(p, ext) != PageFileName(q, ext) {
      PageFileNameInjective(p, q, ext);
    }
  }

  /** Distinct pages give as many distinct files. */
  lemma {:induction false} PageNamesCount(pages: seq<nat>, ext: string)
    requires Ascending(pages)
    ensures |PageNames(pages, ext)| == |pages|
    decreases |pages|
  {
    if |pages| == 0 {
      assert PageNames(pages, ext) == {};
    } else {
      var k := |pages| - 1;
      var init := pages[..k];
      assert Ascending(init);
      PageNamesCount(init, ext);
      PageNamesSnoc(pages, ext);
      PageNameFresh(init, pages[k], ext);
    }
  }

  lemma PrologueEffects(dir: Path, kind: Kind, d: Path, name: string)
    ensures Touched(Prologue(dir, kind)) == Lineage(dir)
    ensures Written(Prologue(dir, kind), d) == {}
    ensures LastWrite(Prologue(dir, kind), d, name) == None
  {
    var open, make := [OpenDocument], [MakeDir(dir)];
    SingleEffect(OpenDocument, d, name);
    SingleEffect(MakeDir(dir), d, name);
    TouchedAppend(open, make);
    WrittenAppend(open, make, d);
    LastWriteAppend(open, make, d, name);
    if kind.Markdown? {
      var close := [CloseDocument];
      assert Prologue(dir, kind) == open + make + close;
      SingleEffect(CloseDocument, d, name);
      TouchedAppend(open + make, close);
      WrittenAppend(open + make, close, d);
      LastWriteAppend(open + make, close, d, name);
    } else {
      assert Prologue(dir, kind) == open + make;
    }
  }

  /** The directories and names of a run that reached its pages and wrote those of `pages`. */
  lemma StartedWrites(dir: Path, kind: Kind, pages: seq<nat>, done: bool, d: Path)
    ensures var e := Prologue(dir, kind) + PageWrites(dir, kind, pages) + Epilogue(kind, done);
      Touched(e) == Lineage(dir) && Written(e, d) == if d == dir then PageNames(pages, Extension(kind)) else {}
  {
    var pro, w, epi := Prologue(dir, kind), PageWrites(dir, kind, pages), Epilogue(kind, done);
    PrologueEffects(dir, kind, d, "");
    InertEffects(map[], epi, d, "");
    PageWritesTouched(dir, kind, pages);
    StartedTouched(pro, w, epi, dir, pages != []);
    PageWritesWritten(dir, kind, pages, d);
    WrittenAppend(pro, w, d);
    WrittenAppend(pro + w, epi, d);
  }

  lemma StartedTouched(pro: seq<Effect>, w: seq<Effect>, epi: seq<Effect>, dir: Path, some: bool)
    requires Touched(pro) == Lineage(dir) && Touched(w) == (if some then {dir} else {}) && Touched(epi) == {}
    ensures Touched(pro + w + epi) == Lineage(dir)
  {
    TouchedAppend(pro, w);
    TouchedAppend(pro + w, epi);
  }

  /** ... and what each page's file holds at the end of it. */
  lemma StartedLast(dir: Path, kind: Kind, pages: seq<nat>, done: bool, p: nat)
    requires p in pages
    ensures var e := Prologue(dir, kind) + PageWrites(dir, kind, pages) + Epilogue(kind, done);
      LastWrite(e, dir, PageFileName(p, Extension(kind))) == Some(PageContent(kind, p))
  {
    var name := PageFileName(p, Extension(kind));
    var pro, w, epi := Prologue(dir, kind), PageWrites(dir, kind, pages), Epilogue(kind, done);
    PrologueEffects(dir, kind, dir, name);
    InertEffects(map[], epi, dir, name);
    PageWritesLast(dir, kind, pages, p);
    LastWriteAppend(pro, w, dir, name);
    LastWriteAppend(pro + w, epi, dir, name);
  }

  /** An export that gets to its pages creates its output directory, with the missing ones
      above it, and touches no other; it
      writes the files of the pages before the first one that raises, all of them when it
      succeeds, one distinct file per page. */
  lemma ExportWrites(pdf: Pdf, pageRange: string, outputDir: Option<Path>, kind: Kind, d: Path)
    requires Selection(pdf, pageRange).Some?
    ensures var r := ExportOutcome(pdf, pageRange, outputDir, kind);
      var pages := Selection(pdf, pageRange).value;
      var n := CleanRun(pages, Fails(pdf.document.value, kind));
      var dir := OutputDir(pdf, outputDir);
      && Touched(r.effects) == Lineage(dir)
      && Written(r.effects, d) == (if d == dir then PageNames(pages[..n], Extension(kind)) else {})
      && |PageNames(pages[..n], Extension(kind))| == n
      && (r.ok <==> n == |pages|)
  {
    var pages := Selection(pdf, pageRange).value;
    var n := CleanRun(pages, Fails(pdf.document.value, kind));
    StartedWrites(OutputDir(pdf, outputDir), kind, pages[..n], n == |pages|, d);
    assert Ascending(pages[..n]);
    PageNamesCount(pages[..n], Extension(kind));
  }

  /** After a successful export, the output directory holds every selected page's file with that
      page's content: `page_NNNN.md` the page's markdown, `page_NNNN.png` its rendering. */
  lemma ExportedFiles(fs: FileSystem, pdf: Pdf, pageRange: string, outputDir: Option<Path>, kind: Kind, p: nat)
    requires ExportOutcome(pdf, pageRange, outputDir, kind).ok
    requires p in Selection(pdf, pageRange).value
    ensures var r := ExportOutcome(pdf, pageRange, outputDir, kind);
      var files := Listing(Apply(fs, r.effects), OutputDir(pdf, outputDir));
      PageFileName(p, Extension(kind)) in files && files[PageFileName(p, Extension(kind))] == PageContent(kind, p)
  {
    var effects := ExportOutcome(pdf, pageRange, outputDir, kind).effects;
    var pages := Selection(pdf, pageRange).value;
    var dir := OutputDir(pdf, outputDir);
    var name := PageFileName(p, Extension(kind));
    assert pages[..|pages|] == pages;
    assert effects == Prologue(dir, kind) + PageWrites(dir, kind, pages) + Epilogue(kind, true);
    StartedLast(dir, kind, pages, true, p);
    LastWriteWritten(effects, dir, name);
    ApplyListing(fs, effects, dir);
    ApplyContent(fs, effects, dir, name);
  }

  lemma {:induction false} PageWritesNoDocument(dir: Path, kind: Kind, pages: seq<nat>)
    ensures OpenDocument !in PageWrites(dir, kind, pages) && CloseDocument !in PageWrites(dir, kind, pages)
  {
  }

  /** The markdown exporter always closes the document it opened; the image exporter leaves it
      open exactly when it reached its pages and one of them raised. */
  lemma DocumentLeftOpen(pdf: Pdf, pageRange: string, outputDir: Option<Path>, kind: Kind)
    ensures var effects := ExportOutcome(pdf, pageRange, outputDir, kind).effects;
      (OpenDocument in effects && CloseDocument !in effects)
      <==> kind.Raster? && Selection(pdf, pageRange).Some? && !Exportable(pdf, pageRange, kind)
  {
    ExportSucceedsIff(pdf, pageRange, outputDir, kind);
    if Selection(pdf, pageRange).Some? {
      var pages := Selection(pdf, pageRange).value;
      var n := CleanRun(pages, Fails(pdf.document.value, kind));
      PageWritesNoDocument(OutputDir(pdf, outputDir), kind, pages[..n]);
    }
  }
}
