/** `process_images_to_bw`: for a directory of PNG images, write a grayscale, contrast-enhanced
    copy of each under the same name into the directory whose path has `/png` replaced by
    `/png_bw`. The image arithmetic is left to the artifact: the copy is `Enhanced(source, c)`. */
module Grayscale {
  import opened Wrappers
  import opened Text
  import opened StringOrder
  import opened PageFiles
  import opened Disk
  import opened Export

  /** The contrast factor the combined export uses. */
  const DefaultContrast: real := 1.25

  /** What the step reports, `(success, processed_count)`, and what it did. */
  datatype BwRun = BwRun(ok: bool, count: nat, effects: seq<Effect>)

  /** The names `glob("*.png")` matches among a directory's files. */
  function PngNames(files: map<string, Artifact>): set<string> {
    set n | n in files && EndsWith(n, ".png")
  }

  /** `sorted(input_path.glob("*.png"))`, as names: the PNG files of the directory, each once,
      in ascending order. */
  function PngFiles(files: map<string, Artifact>): (r: seq<string>)
    ensures StrictlyAscending(r)
    ensures forall i :: 0 <= i < |r| ==> r[i] in files && EndsWith(r[i], ".png")
    ensures forall n :: n in PngNames(files) <==> n in r
  {
    var r := Sorted(PngNames(files));
    assert forall i :: 0 <= i < |r| ==> r[i] in PngNames(files) by {
      forall i | 0 <= i < |r| ensures r[i] in PngNames(files) { assert r[i] in r; }
    }
    r
  }

  /** The files `Image.open` cannot read. */
  function Unreadable(files: map<string, Artifact>): set<string> {
    set n | n in files && !IsImage(files[n])
  }

  /** `str(input_path).replace('/png', '/png_bw')`. */
  function GrayscaleDir(inputDir: Path): Path {
    ReplaceAll(inputDir, "/png", "/png_bw")
  }

  function EnhancedWrites(outDir: Path, files: map<string, Artifact>, names: seq<string>, contrast: real): seq<Effect>
    requires forall i :: 0 <= i < |names| ==> names[i] in files
  {
    seq(|names|, i requires 0 <= i < |names| => WriteFile(outDir, names[i], Enhanced(files[names[i]], contrast)))
  }

  /** The reference meaning of `process_images_to_bw(input_dir, contrast_factor)`: a missing
      directory fails before doing anything; otherwise the output directory is created, and the
      step fails when there is no PNG file or at the first one that is not an image, keeping the
      copies already written. Processing reports the count only when every file went through. */
  function BwOutcome(fs: FileSystem, inputDir: Path, contrast: real): BwRun {
    if inputDir !in fs then BwRun(false, 0, [])
    else
      var out := GrayscaleDir(inputDir);
      var files := fs[inputDir];
      var names := PngFiles(files);
      if |names| == 0 then BwRun(false, 0, [MakeDir(out)])
      else
        var n := CleanRun(names, Unreadable(files));
        var effects := [MakeDir(out)] + EnhancedWrites(out, files, names[..n], contrast);
        if n == |names| then BwRun(true, n, effects) else BwRun(false, 0, effects)
  }

  lemma EnhancedWritesSnoc(outDir: Path, files: map<string, Artifact>, names: seq<string>, contrast: real, i: nat)
    requires forall j :: 0 <= j < |names| ==> names[j] in files
    requires i < |names|
    ensures EnhancedWrites(outDir, files, names[..i + 1], contrast)
      == EnhancedWrites(outDir, files, names[..i], contrast) + [WriteFile(outDir, names[i], Enhanced(files[names[i]], contrast))]
  {
  }

  /** The copies write exactly the names processed, into the output directory, and each holds
      the enhanced form of the file of that name. */
  lemma {:induction false} EnhancedWritesEffects(outDir: Path, files: map<string, Artifact>, names: seq<string>, contrast: real, d: Path, x: string)
    requires forall j :: 0 <= j < |names| ==> names[j] in files
    ensures var w := EnhancedWrites(outDir, files, names, contrast);
      && Touched(w) == (if |names| == 0 then {} else {outDir})
      && Written(w, d) == (if d == outDir then set n | n in names else {})
      && LastWrite(w, d, x) == if d == outDir && x in names then Some(Enhanced(files[x], contrast)) else None
    decreases |names|
  {
    var w := EnhancedWrites(outDir, files, names, contrast);
    if |names| > 0 {
      var k := |names| - 1;
      assert w[..|w| - 1] == EnhancedWrites(outDir, files, names[..k], contrast);
      EnhancedWritesEffects(outDir, files, names[..k], contrast, d, x);
      assert forall n :: n in names <==> n in names[..k] || n == names[k] by {
        assert names == names[..k] + [names[k]];
      }
    } else {
      assert (set n | n in names) == {};
    }
  }

  /** Reading the next file back from the disk gives what it held before the step: the copies
      written so far all have other names, even when the output directory is the input one. */
  lemma ReadBack(fs: FileSystem, inputDir: Path, names: seq<string>, contrast: real, i: nat)
    requires inputDir in fs && Distinct(names) && i < |names|
    requires forall j :: 0 <= j < |names| ==> names[j] in fs[inputDir]
    ensures var effects := [MakeDir(GrayscaleDir(inputDir))] + EnhancedWrites(GrayscaleDir(inputDir), fs[inputDir], names[..i], contrast);
      var disk := Apply(fs, effects);
      inputDir in disk && names[i] in disk[inputDir] && disk[inputDir][names[i]] == fs[inputDir][names[i]]
  {
    var out, files := GrayscaleDir(inputDir), fs[inputDir];
    var w := EnhancedWrites(out, files, names[..i], contrast);
    var effects := [MakeDir(out)] + w;
    var x := names[i];
    assert x !in names[..i] by {
      forall j | 0 <= j < i ensures names[j] != x { }
    }
    EnhancedWritesEffects(out, files, names[..i], contrast, inputDir, x);
    SingleEffect(MakeDir(out), inputDir, x);
    LastWriteAppend([MakeDir(out)], w, inputDir, x);
    ApplyDirectories(fs, effects, inputDir);
    ApplyListing(fs, effects, inputDir);
    ApplyContent(fs, effects, inputDir, x);
  }

  /** The outcome of a step that found PNG files and stopped at `names[i]`, or, for
      `i == |names|`, got through all of them. */
  lemma BwOutcomeAfter(fs: FileSystem, inputDir: Path, contrast: real, i: nat)
    requires inputDir in fs
    requires var names := PngFiles(fs[inputDir]);
      0 < |names| && i <= |names| && (forall j :: 0 <= j < i ==> names[j] !in Unreadable(fs[inputDir]))
      && (i < |names| ==> names[i] in Unreadable(fs[inputDir]))
    ensures var names := PngFiles(fs[inputDir]);
      var effects := [MakeDir(GrayscaleDir(inputDir))] + EnhancedWrites(GrayscaleDir(inputDir), fs[inputDir], names[..i], contrast);
      BwOutcome(fs, inputDir, contrast) == if i == |names| then BwRun(true, i, effects) else BwRun(false, 0, effects)
  {
  }

  /** Names that occur once each. */
  predicate Distinct(names: seq<string>) {
    forall j, k :: 0 <= j < k < |names| ==> names[j] != names[k]
  }

  /** One more file through the loop. */
  lemma EnhanceStep(fs: FileSystem, inputDir: Path, names: seq<string>, contrast: real, i: nat, effects: seq<Effect>)
    requires inputDir in fs && i < |names|
    requires forall j :: 0 <= j < |names| ==> names[j] in fs[inputDir]
    requires effects == [MakeDir(GrayscaleDir(inputDir))] + EnhancedWrites(GrayscaleDir(inputDir), fs[inputDir], names[..i], contrast)
    ensures var write := WriteFile(GrayscaleDir(inputDir), names[i], Enhanced(fs[inputDir][names[i]], contrast));
      && effects + [write] == [MakeDir(GrayscaleDir(inputDir))] + EnhancedWrites(GrayscaleDir(inputDir), fs[inputDir], names[..i + 1], contrast)
      && Apply(fs, effects + [write]) == Step(Apply(fs, effects), write)
      && (names[i] in Unreadable(fs[inputDir]) <==> !IsImage(fs[inputDir][names[i]]))
  {
    var write := WriteFile(GrayscaleDir(inputDir), names[i], Enhanced(fs[inputDir][names[i]], contrast));
    ApplySnoc(fs, effects, write);
    EnhancedWritesSnoc(GrayscaleDir(inputDir), fs[inputDir], names, contrast, i);
  }

  /** The loop of the step: open each PNG file in turn, from the disk as it stands, and write
      its enhanced copy, stopping at the first file that is not an image. */
  method EnhanceEach(fs: FileSystem, inputDir: Path, disk: FileSystem, names: seq<string>, contrast: real)
    returns (processed: nat, effects: seq<Effect>)
    requires inputDir in fs && Distinct(names)
    requires forall j :: 0 <= j < |names| ==> names[j] in fs[inputDir]
    requires disk == Apply(fs, [MakeDir(GrayscaleDir(inputDir))])
    ensures processed == CleanRun(names, Unreadable(fs[inputDir]))
    ensures effects == [MakeDir(GrayscaleDir(inputDir))]
      + EnhancedWrites(GrayscaleDir(inputDir), fs[inputDir], names[..processed], contrast)
  {
    var outputDir := GrayscaleDir(inputDir);
    effects := [MakeDir(outputDir)];
    var current := disk;
    processed := 0;
    while processed < |names|
      invariant processed <= |names|
      invariant forall j :: 0 <= j < processed ==> names[j] !in Unreadable(fs[inputDir])
      invariant effects == [MakeDir(outputDir)] + EnhancedWrites(outputDir, fs[inputDir], names[..processed], contrast)
      invariant current == Apply(fs, effects)
    {
      var name := names[processed];
      ReadBack(fs, inputDir, names, contrast, processed);
      var image := current[inputDir][name];
      EnhanceStep(fs, inputDir, names, contrast, processed, effects);
      if !IsImage(image) {
        return;
      }
      var write := WriteFile(outputDir, name, Enhanced(image, contrast));
      effects := effects + [write];
      current := Step(current, write);
      processed := processed + 1;
    }
  }

  /** `process_images_to_bw(input_dir, contrast_factor)`. */
  method ProcessImagesToBw(fs: FileSystem, inputDir: Path, contrast: real)
    returns (ok: bool, processedCount: nat, effects: seq<Effect>)
    ensures BwRun(ok, processedCount, effects) == BwOutcome(fs, inputDir, contrast)
  {
    if inputDir !in fs {
      return false, 0, [];
    }
    var outputDir := ReplaceAll(inputDir, "/png", "/png_bw");
    var disk := Step(fs, MakeDir(outputDir));
    assert disk == Apply(fs, [MakeDir(outputDir)]) by { assert [MakeDir(outputDir)][..0] == []; }
    assert disk[inputDir] == fs[inputDir];
    var pngFiles := PngFiles(disk[inputDir]);
    if |pngFiles| == 0 {
      return false, 0, [MakeDir(outputDir)];
    }
    assert Distinct(pngFiles) by {
      forall j, k | 0 <= j < k < |pngFiles| ensures pngFiles[j] != pngFiles[k] { AscendingDistinct(pngFiles, j, k); }
    }
    processedCount, effects := EnhanceEach(fs, inputDir, disk, pngFiles, contrast);
    BwOutcomeAfter(fs, inputDir, contrast, processedCount);
    if processedCount < |pngFiles| {
      // The exception leaves the loop for the handler, which reports no count.
      return false, 0, effects;
    }
    ok := true;
  }

  // ---------------------------------------------------------------------------------------
  // What the step promises.

  /** The step succeeds exactly when the input directory exists, holds at least one PNG file,
      and every PNG file in it is an image. */
  lemma BwSucceedsIff(fs: FileSystem, inputDir: Path, contrast: real)
    ensures BwOutcome(fs, inputDir, contrast).ok <==>
      inputDir in fs && PngNames(fs[inputDir]) != {}
      && forall n :: n in PngNames(fs[inputDir]) ==> IsImage(fs[inputDir][n])
  {
    if inputDir in fs {
      var files := fs[inputDir];
      var names := PngFiles(files);
      if |names| == 0 {
        assert PngNames(files) == {};
      } else {
        assert names[0] in PngNames(files);
        var k := CleanRun(names, Unreadable(files));
        if k < |names| {
          assert names[k] in PngNames(files) && !IsImage(files[names[k]]);
        } else {
          forall n | n in PngNames(files) ensures IsImage(files[n]) {
            var j :| 0 <= j < |names| && names[j] == n;
          }
        }
      }
    }
  }

  /** The count reported is the number of PNG files in the directory, stale ones included, when
      the step succeeds, and 0 otherwise. */
  lemma BwCount(fs: FileSystem, inputDir: Path, contrast: real)
    ensures var r := BwOutcome(fs, inputDir, contrast);
      r.count == if r.ok then |PngNames(fs[inputDir])| else 0
  {
  }

  /** The step creates no directory but the grayscale one and the missing ones above it. */
  lemma BwTouched(fs: FileSystem, inputDir: Path, contrast: real)
    requires inputDir in fs
    ensures Touched(BwOutcome(fs, inputDir, contrast).effects) == Lineage(GrayscaleDir(inputDir))
  {
    var out, files := GrayscaleDir(inputDir), fs[inputDir];
    var names := PngFiles(files);
    SingleEffect(MakeDir(out), out, "");
    if |names| > 0 {
      var n := CleanRun(names, Unreadable(files));
      var w := EnhancedWrites(out, files, names[..n], contrast);
      EnhancedWritesEffects(out, files, names[..n], contrast, out, "");
      TouchedAppend([MakeDir(out)], w);
    }
  }

  /** A successful step writes, under the same names, a copy of every PNG file of the input
      directory into the grayscale directory, and nothing anywhere else. */
  lemma BwWrites(fs: FileSystem, inputDir: Path, contrast: real, d: Path)
    requires BwOutcome(fs, inputDir, contrast).ok
    ensures Written(BwOutcome(fs, inputDir, contrast).effects, d)
      == if d == GrayscaleDir(inputDir) then PngNames(fs[inputDir]) else {}
  {
    var out, files := GrayscaleDir(inputDir), fs[inputDir];
    var names := PngFiles(files);
    var w := EnhancedWrites(out, files, names, contrast);
    assert names[..|names|] == names;
    assert BwOutcome(fs, inputDir, contrast).effects == [MakeDir(out)] + w;
    SingleEffect(MakeDir(out), d, "");
    EnhancedWritesEffects(out, files, names, contrast, d, "");
    WrittenAppend([MakeDir(out)], w, d);
    PngFilesSet(files);
  }

  lemma PngFilesSet(files: map<string, Artifact>)
    ensures (set x | x in PngFiles(files)) == PngNames(files)
  {
  }

  /** After a successful step, each PNG file's grayscale copy holds the enhanced form of what
      the file held. */
  lemma BwCopies(fs: FileSystem, inputDir: Path, contrast: real, x: string)
    requires BwOutcome(fs, inputDir, contrast).ok
    requires x in PngNames(fs[inputDir])
    ensures var files := Listing(Apply(fs, BwOutcome(fs, inputDir, contrast).effects), GrayscaleDir(inputDir));
      x in files && files[x] == Enhanced(fs[inputDir][x], contrast)
  {
    var out, files := GrayscaleDir(inputDir), fs[inputDir];
    var names := PngFiles(files);
    var effects := BwOutcome(fs, inputDir, contrast).effects;
    var w := EnhancedWrites(out, files, names, contrast);
    assert names[..|names|] == names;
    assert effects == [MakeDir(out)] + w;
    EnhancedWritesEffects(out, files, names, contrast, out, x);
    SingleEffect(MakeDir(out), out, x);
    LastWriteAppend([MakeDir(out)], w, out, x);
    LastWriteWritten(effects, out, x);
    ApplyListing(fs, effects, out);
    ApplyContent(fs, effects, out, x);
  }
}
