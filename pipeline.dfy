/** `export_pages_combined`: the markdown export into `<stem>/md`, the image export into
    `<stem>/png`, then the grayscale step on `<stem>/png`, which always runs, whatever the
    exports returned; the run succeeds when all three do. */
module Pipeline {
  import opened Wrappers
  import opened Text
  import opened PageRange
  import opened PageFiles
  import opened Disk
  import opened Export
  import opened Grayscale
  import opened Compare

  function MarkdownDir(pdf: Pdf): Path {
    pdf.stem + "/md"
  }

  function PngDir(pdf: Pdf): Path {
    pdf.stem + "/png"
  }

  /** The reference meaning of `export_pages_combined(pdf_path, page_range, dpi)`, which runs
      the grayscale step with its default contrast on the disk the two exports left. */
  function CombinedOutcome(fs: FileSystem, pdf: Pdf, pageRange: string, dpi: int): Run {
    var md := ExportOutcome(pdf, pageRange, Some(MarkdownDir(pdf)), Markdown);
    var png := ExportOutcome(pdf, pageRange, Some(PngDir(pdf)), Raster(dpi));
    var bw := BwOutcome(Apply(fs, md.effects + png.effects), PngDir(pdf), DefaultContrast);
    Run(md.ok && png.ok && bw.ok, md.effects + png.effects + bw.effects)
  }

  /** `export_pages_combined(pdf_path, page_range, dpi)`. */
  method ExportPagesCombined(fs: FileSystem, pdf: Pdf, pageRange: string, dpi: int)
    returns (ok: bool, effects: seq<Effect>)
    ensures Run(ok, effects) == CombinedOutcome(fs, pdf, pageRange, dpi)
  {
    var baseDir := pdf.stem;
    var mdDir := baseDir + "/md";
    var mdSuccess, mdEffects := ExportPagesToMarkdown(pdf, pageRange, Some(mdDir));
    var pngDir := baseDir + "/png";
    var pngSuccess, pngEffects := ExportPagesToImages(pdf, pageRange, Some(pngDir), dpi);
    var bwSuccess, bwCount, bwEffects := ProcessImagesToBw(Apply(fs, mdEffects + pngEffects), pngDir, DefaultContrast);
    ok := mdSuccess && pngSuccess && bwSuccess;
    effects := mdEffects + pngEffects + bwEffects;
  }

  // ---------------------------------------------------------------------------------------
  // What the combined run promises.

  /** The three trees are different directories. */
  lemma SeparateTrees(stem: string)
    ensures stem + "/md" != stem + "/png" && stem + "/md" != stem + "/png_bw" && stem + "/png" != stem + "/png_bw"
  {
    var md, png, bw := stem + "/md", stem + "/png", stem + "/png_bw";
    assert md[|md| - 1] == 'd' && png[|png| - 1] == 'g' && bw[|bw| - 1] == 'w';
  }

  lemma PngName(p: nat)
    ensures EndsWith(PageFileName(p, ".png"), ".png")
  {
    var s := PageFileName(p, ".png");
    assert s[|s| - 4..] == ".png";
  }

  /** What the image export leaves in its directory: the files that were there, and one
      rendering per selected page; a file of another name keeps its content. */
  lemma PngDirAfterExport(fs: FileSystem, pdf: Pdf, pageRange: string, dpi: int, n: string)
    requires ExportOutcome(pdf, pageRange, Some(PngDir(pdf)), Raster(dpi)).ok
    ensures var written := PageNames(Selection(pdf, pageRange).value, ".png");
      var files := Listing(Apply(fs, ExportOutcome(pdf, pageRange, Some(PngDir(pdf)), Raster(dpi)).effects), PngDir(pdf));
      && PngDir(pdf) in Apply(fs, ExportOutcome(pdf, pageRange, Some(PngDir(pdf)), Raster(dpi)).effects)
      && (n in files <==> n in Listing(fs, PngDir(pdf)) || n in written)
      && (n in files && n !in written ==> files[n] == Listing(fs, PngDir(pdf))[n])
      && (n in written ==> n in files && IsImage(files[n]))
  {
    var r := ExportOutcome(pdf, pageRange, Some(PngDir(pdf)), Raster(dpi));
    var pages := Selection(pdf, pageRange).value;
    var dir := PngDir(pdf);
    ExportSucceedsIff(pdf, pageRange, Some(dir), Raster(dpi));
    ExportWrites(pdf, pageRange, Some(dir), Raster(dpi), dir);
    assert pages[..|pages|] == pages;
    ApplyDirectories(fs, r.effects, dir);
    ApplyListing(fs, r.effects, dir);
    if n in PageNames(pages, ".png") {
      var p :| p in pages && n == PageFileName(p, ".png");
      ExportedFiles(fs, pdf, pageRange, Some(dir), Raster(dpi), p);
    } else if n in Listing(Apply(fs, r.effects), dir) {
      LastWriteWritten(r.effects, dir, n);
      ApplyContent(fs, r.effects, dir, n);
    }
  }

  /** The markdown export leaves the image directory alone. */
  lemma MarkdownSparesPng(fs: FileSystem, pdf: Pdf, pageRange: string)
    ensures Listing(Apply(fs, ExportOutcome(pdf, pageRange, Some(MarkdownDir(pdf)), Markdown).effects), PngDir(pdf))
      == Listing(fs, PngDir(pdf))
  {
    var r := ExportOutcome(pdf, pageRange, Some(MarkdownDir(pdf)), Markdown);
    SeparateTrees(pdf.stem);
    if Selection(pdf, pageRange).Some? {
      ExportWrites(pdf, pageRange, Some(MarkdownDir(pdf)), Markdown, PngDir(pdf));
    } else {
      EarlyFailureWritesNothing(fs, pdf, pageRange, Some(MarkdownDir(pdf)), Markdown);
      InertEffects(fs, r.effects, PngDir(pdf), "");
    }
    UnwrittenListing(fs, r.effects, PngDir(pdf));
  }

  /** The PNG files already in `<stem>/png` that this run does not overwrite are all images. */
  predicate StaleImagesReadable(fs: FileSystem, dir: Path, written: set<string>) {
    forall n :: n in PngNames(Listing(fs, dir)) && n !in written ==> IsImage(Listing(fs, dir)[n])
  }

  /** The combined export succeeds exactly when both exports succeed, that is the document opens,
      the range selects pages and none of them raises in either, and every PNG file left in
      `<stem>/png` by an earlier run that this one does not overwrite is an image. */
  lemma CombinedSucceedsIff(fs: FileSystem, pdf: Pdf, pageRange: string, dpi: int)
    ensures CombinedOutcome(fs, pdf, pageRange, dpi).ok <==>
      && Exportable(pdf, pageRange, Markdown) && Exportable(pdf, pageRange, Raster(dpi))
      && StaleImagesReadable(fs, PngDir(pdf), PageNames(Selection(pdf, pageRange).value, ".png"))
  {
    var md := ExportOutcome(pdf, pageRange, Some(MarkdownDir(pdf)), Markdown);
    var png := ExportOutcome(pdf, pageRange, Some(PngDir(pdf)), Raster(dpi));
    ExportSucceedsIff(pdf, pageRange, Some(MarkdownDir(pdf)), Markdown);
    ExportSucceedsIff(pdf, pageRange, Some(PngDir(pdf)), Raster(dpi));
    if md.ok && png.ok {
      var dir := PngDir(pdf);
      var fs0 := Apply(fs, md.effects);
      var fs1 := Apply(fs, md.effects + png.effects);
      ApplyAppend(fs, md.effects, png.effects);
      MarkdownSparesPng(fs, pdf, pageRange);
      var pages := Selection(pdf, pageRange).value;
      var written := PageNames(pages, ".png");
      var before, after := Listing(fs, dir), Listing(fs1, dir);
      BwSucceedsIff(fs1, dir, DefaultContrast);
      PngDirAfterExport(fs0, pdf, pageRange, dpi, "");
      var first := PageFileName(pages[0], ".png");
      PngDirAfterExport(fs0, pdf, pageRange, dpi, first);
      PngName(pages[0]);
      assert first in PngNames(after);
      if StaleImagesReadable(fs, dir, written) {
        forall n | n in PngNames(after) ensures IsImage(after[n]) {
          PngDirAfterExport(fs0, pdf, pageRange, dpi, n);
        }
      }
      if CombinedOutcome(fs, pdf, pageRange, dpi).ok {
        forall n | n in PngNames(before) && n !in written ensures IsImage(before[n]) {
          PngDirAfterExport(fs0, pdf, pageRange, dpi, n);
          assert n in PngNames(after);
        }
      }
    }
  }

  /** After a successful combined run the layout its docstring draws is on disk: for each
      selected page, `<stem>/md/page_NNNN.md` holds its markdown, `<stem>/png/page_NNNN.png` its
      rendering, and `<stem>/png_bw/page_NNNN.png` the enhanced copy of that rendering. */
  lemma CombinedLayout(fs: FileSystem, pdf: Pdf, pageRange: string, dpi: int, p: nat)
    requires CombinedOutcome(fs, pdf, pageRange, dpi).ok && '/' !in pdf.stem
    requires p in Selection(pdf, pageRange).value
    ensures var final := Apply(fs, CombinedOutcome(fs, pdf, pageRange, dpi).effects);
      var md, png, bw := Listing(final, pdf.stem + "/md"), Listing(final, pdf.stem + "/png"), Listing(final, pdf.stem + "/png_bw");
      var mdName, pngName := PageFileName(p, ".md"), PageFileName(p, ".png");
      && mdName in md && md[mdName] == PageMarkdown(p)
      && pngName in png && png[pngName] == PageRaster(p, dpi)
      && pngName in bw && bw[pngName] == Enhanced(PageRaster(p, dpi), DefaultContrast)
  {
    var mdDir, pngDir, bwDir := MarkdownDir(pdf), PngDir(pdf), pdf.stem + "/png_bw";
    var md := ExportOutcome(pdf, pageRange, Some(mdDir), Markdown);
    var png := ExportOutcome(pdf, pageRange, Some(pngDir), Raster(dpi));
    var fs0 := Apply(fs, md.effects);
    var fs1 := Apply(fs0, png.effects);
    var bw := BwOutcome(fs1, pngDir, DefaultContrast);
    var final := Apply(fs1, bw.effects);
    ApplyAppend(fs, md.effects, png.effects);
    ApplyAppend(fs, md.effects + png.effects, bw.effects);
    SeparateTrees(pdf.stem);
    GrayscaleDirectory(pdf.stem);
    // The markdown file, untouched by the two later steps.
    ExportedFiles(fs, pdf, pageRange, Some(mdDir), Markdown, p);
    ExportWrites(pdf, pageRange, Some(pngDir), Raster(dpi), mdDir);
    UnwrittenListing(fs0, png.effects, mdDir);
    BwWrites(fs1, pngDir, DefaultContrast, mdDir);
    UnwrittenListing(fs1, bw.effects, mdDir);
    // The rendering, untouched by the grayscale step.
    ExportedFiles(fs0, pdf, pageRange, Some(pngDir), Raster(dpi), p);
    BwWrites(fs1, pngDir, DefaultContrast, pngDir);
    UnwrittenListing(fs1, bw.effects, pngDir);
    // The grayscale copy of the rendering.
    PngName(p);
    BwCopies(fs1, pngDir, DefaultContrast, PageFileName(p, ".png"));
  }

  /** Once the selection is made, the combined run creates `<stem>` itself, as the parent of
      `<stem>/md`. */
  lemma CombinedMakesFolder(fs: FileSystem, pdf: Pdf, pageRange: string, dpi: int)
    requires Selection(pdf, pageRange).Some? && |pdf.stem| > 0
    ensures pdf.stem in Apply(fs, CombinedOutcome(fs, pdf, pageRange, dpi).effects)
  {
    StemTouched(pdf, pageRange);
    MarkdownDirectoriesKept(fs, pdf, pageRange, dpi, pdf.stem);
  }

  /** A directory the markdown export creates is still there at the end of the run. */
  lemma MarkdownDirectoriesKept(fs: FileSystem, pdf: Pdf, pageRange: string, dpi: int, dir: Path)
    requires dir in Touched(ExportOutcome(pdf, pageRange, Some(MarkdownDir(pdf)), Markdown).effects)
    ensures dir in Apply(fs, CombinedOutcome(fs, pdf, pageRange, dpi).effects)
  {
    var md := ExportOutcome(pdf, pageRange, Some(MarkdownDir(pdf)), Markdown);
    var png := ExportOutcome(pdf, pageRange, Some(PngDir(pdf)), Raster(dpi));
    var bw := BwOutcome(Apply(fs, md.effects + png.effects), PngDir(pdf), DefaultContrast);
    TouchedAppend(md.effects, png.effects);
    ApplyDirectories(fs, md.effects + png.effects, dir);
    DirectoryKept(fs, md.effects + png.effects, bw.effects, dir);
  }

  lemma StemTouched(pdf: Pdf, pageRange: string)
    requires Selection(pdf, pageRange).Some? && |pdf.stem| > 0
    ensures pdf.stem in Touched(ExportOutcome(pdf, pageRange, Some(MarkdownDir(pdf)), Markdown).effects)
  {
    ExportWrites(pdf, pageRange, Some(MarkdownDir(pdf)), Markdown, "");
    assert PathJoin(pdf.stem, "md") == MarkdownDir(pdf);
    ParentInLineage(pdf.stem, "md");
  }

  /** So the comparison dashboard pointed at `<stem>` after such a run finds its folder. */
  lemma DashboardFindsExport(fs: FileSystem, pdf: Pdf, pageRange: string, dpi: int, index: Option<int>, event: UiEvent)
    requires Selection(pdf, pageRange).Some? && |pdf.stem| > 0
    ensures var final := Apply(fs, CombinedOutcome(fs, pdf, pageRange, dpi).effects);
      Offered(final, pdf.stem, event) ==> !Script(final, pdf.stem, index, event).screen.FolderNotFound?
  {
    var final := Apply(fs, CombinedOutcome(fs, pdf, pageRange, dpi).effects);
    CombinedMakesFolder(fs, pdf, pageRange, dpi);
    if Offered(final, pdf.stem, event) {
      ScriptStops(final, pdf.stem, index, event);
    }
  }

  /** When the selection fails, both exports fail without touching the disk, yet the grayscale
      step still runs, over whatever an earlier run left in `<stem>/png`: the combined run
      returns `False` and does exactly what that step alone does. */
  lemma GrayscaleRunsAfterFailedSelection(fs: FileSystem, pdf: Pdf, pageRange: string, dpi: int)
    requires Selection(pdf, pageRange).None?
    ensures var r := CombinedOutcome(fs, pdf, pageRange, dpi);
      !r.ok && Apply(fs, r.effects) == Apply(fs, BwOutcome(fs, PngDir(pdf), DefaultContrast).effects)
  {
    var md := ExportOutcome(pdf, pageRange, Some(MarkdownDir(pdf)), Markdown);
    var png := ExportOutcome(pdf, pageRange, Some(PngDir(pdf)), Raster(dpi));
    EarlyFailureWritesNothing(fs, pdf, pageRange, Some(MarkdownDir(pdf)), Markdown);
    EarlyFailureWritesNothing(fs, pdf, pageRange, Some(PngDir(pdf)), Raster(dpi));
    ApplyAppend(fs, md.effects, png.effects);
    var bw := BwOutcome(fs, PngDir(pdf), DefaultContrast);
    ApplyAppend(fs, md.effects + png.effects, bw.effects);
  }
}
