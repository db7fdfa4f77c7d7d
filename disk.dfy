/** The part of the outside world the exporters touch, as values: a filesystem of directories
    holding named files, and the log of effects a run performs on it. A run is modelled as a
    method that returns its effect log; the filesystem after the run is `Apply(fs, effects)`. */
module Disk {
  import opened Wrappers

  type Path = string

  /** What a file holds, as far as the pipeline can tell. */
  datatype Artifact =
    | PageMarkdown(page: nat)                    // `pymupdf4llm.to_markdown` of one page
    | PageRaster(page: nat, dpi: int)            // a page rendered by `get_pixmap` and saved as PNG
    | Enhanced(source: Artifact, contrast: real) // grayscale, contrast-enhanced copy of an image
    | Foreign(image: bool)                       // anything else found on disk, an image or not

  /** Whether `Image.open` can read the file as an image. */
  predicate IsImage(a: Artifact) {
    match a
    case PageMarkdown(_) => false
    case PageRaster(_, _) => true
    case Enhanced(source, _) => IsImage(source)
    case Foreign(image) => image
  }

  /** Directories present on disk, each with the files directly inside it. */
  type FileSystem = map<Path, map<string, Artifact>>

  datatype Effect =
    | OpenDocument
    | CloseDocument
    | MakeDir(dir: Path)                              // `mkdir(parents=True, exist_ok=True)`
    | WriteFile(dir: Path, name: string, content: Artifact)

  /** `dir / name`. */
  function PathJoin(dir: Path, name: string): Path {
    dir + "/" + name
  }

  /** The files directly inside `dir`, none when it does not exist. */
  function Listing(fs: FileSystem, dir: Path): map<string, Artifact> {
    if dir in fs then fs[dir] else map[]
  }

  /** `dir` and the directories above it: every prefix of `dir` that ends just before a `/`
      (the empty prefix of an absolute path, the root, is not one). */
  function Lineage(dir: Path): set<Path> {
    {dir} + set i | 0 < i < |dir| && dir[i] == '/' :: dir[..i]
  }

  /** The parent of a directory is in its lineage. */
  lemma ParentInLineage(parent: Path, name: string)
    requires |parent| > 0
    ensures parent in Lineage(PathJoin(parent, name))
  {
    var dir := PathJoin(parent, name);
    assert dir[|parent|] == '/' && dir[..|parent|] == parent;
  }

  /** `mkdir(parents=True, exist_ok=True)`: `dir` and every missing directory above it come
      into existence, empty; no listing changes. */
  function MakeDirs(fs: FileSystem, dir: Path): (r: FileSystem)
    ensures r.Keys == fs.Keys + Lineage(dir)
    ensures forall d :: Listing(r, d) == Listing(fs, d)
  {
    map d | d in fs.Keys + Lineage(dir) :: Listing(fs, d)
  }

  function Step(fs: FileSystem, e: Effect): FileSystem {
    match e
    case MakeDir(dir) => MakeDirs(fs, dir)
    case WriteFile(dir, name, content) => fs[dir := Listing(fs, dir)[name := content]]
    case _ => fs
  }

  /** The filesystem after performing `effects` in order. */
  function Apply(fs: FileSystem, effects: seq<Effect>): FileSystem {
    if |effects| == 0 then fs else Step(Apply(fs, effects[..|effects| - 1]), effects[|effects| - 1])
  }

  /** The directories the effects create, with their parents, or write into. */
  function Touched(effects: seq<Effect>): set<Path> {
    if |effects| == 0 then {}
    else
      var e := effects[|effects| - 1];
      Touched(effects[..|effects| - 1]) + (if e.MakeDir? then Lineage(e.dir) else if e.WriteFile? then {e.dir} else {})
  }

  /** The names the effects write under `dir`. */
  function Written(effects: seq<Effect>, dir: Path): set<string> {
    if |effects| == 0 then {}
    else
      var e := effects[|effects| - 1];
      Written(effects[..|effects| - 1], dir) + (if e.WriteFile? && e.dir == dir then {e.name} else {})
  }

  /** What the last write of `dir / name` among the effects stored, if any wrote it. */
  function LastWrite(effects: seq<Effect>, dir: Path, name: string): Option<Artifact> {
    if |effects| == 0 then None
    else
      var e := effects[|effects| - 1];
      if e.WriteFile? && e.dir == dir && e.name == name then Some(e.content)
      else LastWrite(effects[..|effects| - 1], dir, name)
  }

  /** Performing one more effect is one more step. */
  lemma ApplySnoc(fs: FileSystem, effects: seq<Effect>, e: Effect)
    ensures Apply(fs, effects + [e]) == Step(Apply(fs, effects), e)
  {
    assert (effects + [e])[..|effects|] == effects;
  }

  /** Performing two logs one after the other is performing their concatenation. */
  lemma {:induction false} ApplyAppend(fs: FileSystem, a: seq<Effect>, b: seq<Effect>)
    ensures Apply(fs, a + b) == Apply(Apply(fs, a), b)
    decreases |b|
  {
    if |b| == 0 {
      assert a + b == a;
    } else {
      var b' := b[..|b| - 1];
      assert (a + b)[..|a + b| - 1] == a + b';
      ApplyAppend(fs, a, b');
    }
  }

  /** A directory exists afterwards exactly when it existed before, or the effects made it or a
      directory below it, or wrote into it: nothing is ever removed. */
  lemma {:induction false} ApplyDirectories(fs: FileSystem, effects: seq<Effect>, dir: Path)
    ensures dir in Apply(fs, effects) <==> dir in fs || dir in Touched(effects)
  {
    if |effects| > 0 {
      ApplyDirectories(fs, effects[..|effects| - 1], dir);
    }
  }

  /** A directory, once there, stays. */
  lemma DirectoryKept(fs: FileSystem, a: seq<Effect>, b: seq<Effect>, dir: Path)
    requires dir in Apply(fs, a)
    ensures dir in Apply(fs, a + b)
  {
    ApplyAppend(fs, a, b);
    ApplyDirectories(Apply(fs, a), b, dir);
  }

  /** A directory's listing afterwards is its listing before plus the names written into it. */
  lemma {:induction false} ApplyListing(fs: FileSystem, effects: seq<Effect>, dir: Path)
    ensures Listing(Apply(fs, effects), dir).Keys == Listing(fs, dir).Keys + Written(effects, dir)
  {
    if |effects| > 0 {
      ApplyListing(fs, effects[..|effects| - 1], dir);
    }
  }

  /** A file holds what its last write stored, or what it held before when nothing wrote it. */
  lemma {:induction false} ApplyContent(fs: FileSystem, effects: seq<Effect>, dir: Path, name: string)
    requires name in Listing(Apply(fs, effects), dir)
    ensures match LastWrite(effects, dir, name)
      case Some(c) => Listing(Apply(fs, effects), dir)[name] == c
      case None => name in Listing(fs, dir) && Listing(Apply(fs, effects), dir)[name] == Listing(fs, dir)[name]
  {
    if |effects| > 0 {
      var init := effects[..|effects| - 1];
      var e := effects[|effects| - 1];
      if !(e.WriteFile? && e.dir == dir && e.name == name) {
        assert name in Listing(Apply(fs, init), dir);
        ApplyContent(fs, init, dir, name);
      }
    }
  }

  /** A file that is written at all was written by some effect. */
  lemma {:induction false} LastWriteWritten(effects: seq<Effect>, dir: Path, name: string)
    ensures LastWrite(effects, dir, name).Some? <==> name in Written(effects, dir)
  {
    if |effects| > 0 {
      LastWriteWritten(effects[..|effects| - 1], dir, name);
    }
  }

  /** Effects that write nothing leave every file as it was. */
  lemma {:induction false} ApplyWithoutWrites(fs: FileSystem, effects: seq<Effect>, dir: Path)
    requires forall i :: 0 <= i < |effects| ==> !effects[i].WriteFile?
    ensures Listing(Apply(fs, effects), dir) == Listing(fs, dir)
  {
    if |effects| > 0 {
      ApplyWithoutWrites(fs, effects[..|effects| - 1], dir);
    }
  }

  lemma {:induction false} TouchedAppend(a: seq<Effect>, b: seq<Effect>)
    ensures Touched(a + b) == Touched(a) + Touched(b)
    decreases |b|
  {
    if |b| == 0 {
      assert a + b == a;
    } else {
      assert (a + b)[..|a + b| - 1] == a + b[..|b| - 1];
      TouchedAppend(a, b[..|b| - 1]);
    }
  }

  lemma {:induction false} WrittenAppend(a: seq<Effect>, b: seq<Effect>, dir: Path)
    ensures Written(a + b, dir) == Written(a, dir) + Written(b, dir)
    decreases |b|
  {
    if |b| == 0 {
      assert a + b == a;
    } else {
      assert (a + b)[..|a + b| - 1] == a + b[..|b| - 1];
      WrittenAppend(a, b[..|b| - 1], dir);
    }
  }

  /** The last write of a file in two logs is the second log's, unless that one never wrote it. */
  lemma {:induction false} LastWriteAppend(a: seq<Effect>, b: seq<Effect>, dir: Path, name: string)
    ensures LastWrite(a + b, dir, name) ==
      if LastWrite(b, dir, name).Some? then LastWrite(b, dir, name) else LastWrite(a, dir, name)
    decreases |b|
  {
    if |b| == 0 {
      assert a + b == a;
    } else {
      assert (a + b)[..|a + b| - 1] == a + b[..|b| - 1];
      LastWriteAppend(a, b[..|b| - 1], dir, name);
    }
  }

  /** An effect that neither creates a directory nor writes a file. */
  predicate Inert(e: Effect) {
    e.OpenDocument? || e.CloseDocument?
  }

  /** Opening and closing the document leave the disk as it was. */
  lemma {:induction false} InertEffects(fs: FileSystem, effects: seq<Effect>, dir: Path, name: string)
    requires forall i :: 0 <= i < |effects| ==> Inert(effects[i])
    ensures Apply(fs, effects) == fs
    ensures Touched(effects) == {} && Written(effects, dir) == {} && LastWrite(effects, dir, name) == None
  {
    if |effects| > 0 {
      InertEffects(fs, effects[..|effects| - 1], dir, name);
    }
  }

  /** What a single effect creates and writes. */
  lemma SingleEffect(e: Effect, dir: Path, name: string)
    ensures Touched([e]) == if e.MakeDir? then Lineage(e.dir) else if e.WriteFile? then {e.dir} else {}
    ensures Written([e], dir) == if e.WriteFile? && e.dir == dir then {e.name} else {}
    ensures LastWrite([e], dir, name) == if e.WriteFile? && e.dir == dir && e.name == name then Some(e.content) else None
  {
    assert [e][..0] == [];
  }

  /** A directory nothing writes into keeps its listing. */
  lemma {:induction false} UnwrittenListing(fs: FileSystem, effects: seq<Effect>, dir: Path)
    requires Written(effects, dir) == {}
    ensures Listing(Apply(fs, effects), dir) == Listing(fs, dir)
  {
    if |effects| > 0 {
      UnwrittenListing(fs, effects[..|effects| - 1], dir);
    }
  }
}
