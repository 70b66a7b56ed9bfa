/**
 The command-line front end: which files a path names, where the JSON for each goes, and
 the batch loop that stops once `--limit` files have been saved.
 */
module Cli {
  import opened Wrappers
  import Text
  import opened Dicts
  import opened Records
  import opened PosixPath
  import opened FilePasses
  import Extractor
  import OsintLocation
  import OsintScans
  import Enhancer

  /** The extensions `find_images` accepts, compared in lower case. */
  const ImageExtensions: set<string> :=
    {".jpg", ".jpeg", ".png", ".tiff", ".tif", ".webp", ".bmp", ".cr2", ".nef", ".arw", ".orf", ".rw2", ".dng"}

  predicate IsImageName(f: string) {
    ExtensionOf(f) in ImageExtensions
  }

  /**
   What the file system answers: `os.path.isfile`, `os.path.exists`, `os.listdir` (which
   raises for a directory that cannot be read or a path that is not a directory) and
   `os.walk` (each directory with the names of the files in it; it skips what it cannot read).
   */
  datatype FileSystem = FileSystem(
    isFile: string -> bool,
    present: string -> bool,
    listdir: string -> Attempt<seq<string>>,
    walk: string -> seq<(string, seq<string>)>)

  /** The names among `names` that `keep` accepts, each passed through `full`, in order. */
  function Select(names: seq<string>, keep: string -> bool, full: string -> string): (r: seq<string>)
    ensures |r| <= |names|
    decreases |names|
  {
    if names == [] then []
    else
      var rest := Select(names[1..], keep, full);
      if keep(names[0]) then [full(names[0])] + rest else rest
  }

  /** `Select` yields exactly the accepted names, passed through `full`. */
  lemma {:induction false} SelectExactly(names: seq<string>, keep: string -> bool, full: string -> string, p: string)
    ensures p in Select(names, keep, full) <==> exists j :: 0 <= j < |names| && keep(names[j]) && p == full(names[j])
    decreases |names|
  {
    if names != [] {
      SelectExactly(names[1..], keep, full, p);
      if exists j :: 0 <= j < |names| && keep(names[j]) && p == full(names[j]) {
        var j :| 0 <= j < |names| && keep(names[j]) && p == full(names[j]);
        if j > 0 {
          assert names[1..][j - 1] == names[j];
        }
      }
      if exists j :: 0 <= j < |names[1..]| && keep(names[1..][j]) && p == full(names[1..][j]) {
        var j :| 0 <= j < |names[1..]| && keep(names[1..][j]) && p == full(names[1..][j]);
        assert names[j + 1] == names[1..][j];
      }
    }
  }

  /** The non-recursive listing: entries of `root` that are files with an image extension. */
  function ListImages(fs: FileSystem, root: string, names: seq<string>): seq<string> {
    Select(names, f => fs.isFile(Join(root, f)) && IsImageName(f), f => Join(root, f))
  }

  /** The recursive listing: the image files of every directory of the walk in turn. */
  function WalkImages(walk: seq<(string, seq<string>)>): seq<string>
    decreases |walk|
  {
    if walk == [] then []
    else Select(walk[0].1, IsImageName, f => Join(walk[0].0, f)) + WalkImages(walk[1..])
  }

  /** The recursive listing yields a path exactly when it is an image file of some directory of the walk. */
  lemma {:induction false} WalkImagesExactly(walk: seq<(string, seq<string>)>, p: string)
    ensures p in WalkImages(walk) <==>
      exists i, j :: 0 <= i < |walk| && 0 <= j < |walk[i].1| && IsImageName(walk[i].1[j]) && p == Join(walk[i].0, walk[i].1[j])
    decreases |walk|
  {
    if walk != [] {
      var full := f => Join(walk[0].0, f);
      SelectExactly(walk[0].1, IsImageName, full, p);
      WalkImagesExactly(walk[1..], p);
      if exists i, j :: 0 <= i < |walk| && 0 <= j < |walk[i].1| && IsImageName(walk[i].1[j]) && p == Join(walk[i].0, walk[i].1[j]) {
        var i, j :| 0 <= i < |walk| && 0 <= j < |walk[i].1| && IsImageName(walk[i].1[j]) && p == Join(walk[i].0, walk[i].1[j]);
        if i == 0 {
          assert p == full(walk[0].1[j]);
        } else {
          assert walk[1..][i - 1] == walk[i];
        }
      }
      if exists i, j :: (0 <= i < |walk[1..]| && 0 <= j < |walk[1..][i].1| && IsImageName(walk[1..][i].1[j])
        && p == Join(walk[1..][i].0, walk[1..][i].1[j])) {
        var i, j :| 0 <= i < |walk[1..]| && 0 <= j < |walk[1..][i].1| && IsImageName(walk[1..][i].1[j])
          && p == Join(walk[1..][i].0, walk[1..][i].1[j]);
        assert walk[i + 1] == walk[1..][i];
      }
    }
  }

  /**
   `find_images(root, recursive)`, consumed in full. The generator raises exactly when the
   non-recursive listing does; `os.listdir` returns the whole listing at once, so nothing is
   yielded before the exception.
   */
  function FindImages(fs: FileSystem, root: string, recursive: bool): (r: Attempt<seq<string>>)
    ensures fs.isFile(root) ==> r == Done([root])
    ensures !fs.isFile(root) && !fs.present(root) ==> r == Done([])
    ensures r.Raised? <==> !fs.isFile(root) && fs.present(root) && !recursive && fs.listdir(root).Raised?
  {
    if fs.isFile(root) then Done([root])
    else if !fs.present(root) then Done([])
    else if recursive then Done(WalkImages(fs.walk(root)))
    else match fs.listdir(root)
      case Done(names) => Done(ListImages(fs, root, names))
      case Raised(msg) => Raised(msg)
  }

  /** A directory listed without recursion yields exactly its entries that are image files. */
  lemma FindImagesListing(fs: FileSystem, root: string, p: string)
    requires !fs.isFile(root) && fs.present(root) && fs.listdir(root).Done?
    ensures FindImages(fs, root, false).Done?
    ensures p in FindImages(fs, root, false).value <==>
      exists j :: 0 <= j < |fs.listdir(root).value| && fs.isFile(Join(root, fs.listdir(root).value[j]))
        && IsImageName(fs.listdir(root).value[j]) && p == Join(root, fs.listdir(root).value[j])
  {
    SelectExactly(fs.listdir(root).value, f => fs.isFile(Join(root, f)) && IsImageName(f), f => Join(root, f), p);
  }

  /** A directory walked recursively yields exactly the image files of the walk. */
  lemma FindImagesWalk(fs: FileSystem, root: string, p: string)
    requires !fs.isFile(root) && fs.present(root)
    ensures FindImages(fs, root, true).Done?
    ensures p in FindImages(fs, root, true).value <==>
      exists i, j :: 0 <= i < |fs.walk(root)| && 0 <= j < |fs.walk(root)[i].1| && IsImageName(fs.walk(root)[i].1[j])
        && p == Join(fs.walk(root)[i].0, fs.walk(root)[i].1[j])
  {
    WalkImagesExactly(fs.walk(root), p);
  }

  /** Whether a file is taken depends on its extension alone, compared without regard to letter case. */
  lemma ImageNameByExtension(stem: string, ext: string)
    requires stem != [] && stem[|stem| - 1] != '.' && stem[|stem| - 1] != '/'
    requires '.' !in ext && '/' !in ext
    ensures IsImageName(stem + "." + ext) <==> "." + Text.Lower(ext) in ImageExtensions
  {
    ExtensionOfName(stem, ext);
  }

  /** "IMG_1.JPG" is taken exactly when "IMG_1.jpg" is: the letter case of the extension does not matter. */
  lemma CaseInsensitive(stem: string, ext: string)
    requires stem != [] && stem[|stem| - 1] != '.' && stem[|stem| - 1] != '/'
    requires '.' !in ext && '/' !in ext
    ensures IsImageName(stem + "." + ext) <==> IsImageName(stem + "." + Text.Lower(ext))
  {
    var low := Text.Lower(ext);
    Text.LowerKeepsNonLetter(ext, '.');
    Text.LowerKeepsNonLetter(ext, '/');
    ImageNameByExtension(stem, ext);
    ImageNameByExtension(stem, low);
    assert Text.Lower(low) == low;
  }

  /** `f"{name}{suffix}.json"` for the stem of the source's file name. */
  function OutputName(src: string, suffix: string): (r: string)
    ensures '/' !in suffix ==> '/' !in r
  {
    SplitExt(Basename(src)).0 + suffix + ".json"
  }

  /** A file "stem.ext" in any directory is written to "stem" + suffix + ".json". */
  lemma OutputNameOfImage(dir: string, stem: string, ext: string, suffix: string)
    requires stem != [] && stem[|stem| - 1] != '.' && '/' !in stem
    requires '.' !in ext && '/' !in ext
    ensures OutputName(Join(dir, stem + "." + ext), suffix) == stem + suffix + ".json"
  {
    JoinBasename(dir, stem + "." + ext);
    SplitExtOfName(stem, ext);
  }

  /** `out_dir` when it is given and not empty, else the directory of the source. */
  function OutputDir(src: string, outDir: Option<string>): string {
    if outDir.Some? && outDir.value != [] then outDir.value else Dirname(src)
  }

  /** The path `write_json` writes to and returns. */
  function OutputPath(src: string, outDir: Option<string>, suffix: string): string {
    Join(OutputDir(src, outDir), OutputName(src, suffix))
  }

  /** Wherever it goes, the document's file name is the output name of its source. */
  lemma OutputPathName(src: string, outDir: Option<string>, suffix: string)
    requires '/' !in suffix
    ensures Basename(OutputPath(src, outDir, suffix)) == OutputName(src, suffix)
  {
    JoinBasename(OutputDir(src, outDir), OutputName(src, suffix));
  }

  /** Without an output directory the document lands in the directory of its source, under the output name. */
  lemma OutputBesideSource(src: string, outDir: Option<string>, suffix: string)
    requires '/' !in suffix
    requires outDir.None? || outDir.value == []
    ensures Dirname(OutputPath(src, outDir, suffix)) == Dirname(src)
    ensures Basename(OutputPath(src, outDir, suffix)) == OutputName(src, suffix)
  {
    DirnameDirLike(src);
    DirnameOfJoin(Dirname(src), OutputName(src, suffix));
    OutputPathName(src, outDir, suffix);
  }

  /** So the document for "dir/stem.ext" is "dir/stem" + suffix + ".json", for any directory `dirname` can give. */
  lemma OutputBesideImage(dir: string, stem: string, ext: string, outDir: Option<string>, suffix: string)
    requires DirLike(dir)
    requires stem != [] && stem[|stem| - 1] != '.' && '/' !in stem
    requires '.' !in ext && '/' !in ext
    requires outDir.None? || outDir.value == []
    ensures OutputPath(Join(dir, stem + "." + ext), outDir, suffix) == Join(dir, stem + suffix + ".json")
  {
    var src := Join(dir, stem + "." + ext);
    OutputNameOfImage(dir, stem, ext, suffix);
    DirnameOfJoin(dir, stem + "." + ext);
    assert OutputDir(src, outDir) == dir;
  }

  /** The document `write_json` saves. */
  datatype Payload = Payload(sourceFile: string, extractedAt: string, metadata: Record)

  /**
   `write_json(metadata, src_path, out_dir)`: where the document goes and what it holds.
   The absolute path and the clock reading are given; creating the directory and writing
   the file are not modelled.
   */
  function WriteJson(md: Record, src: string, outDir: Option<string>, absSrc: string, now: string): (r: (string, Payload))
    ensures Basename(r.0) == OutputName(src, "_metadata")
    ensures outDir.Some? && outDir.value != [] ==> r.0 == Join(outDir.value, OutputName(src, "_metadata"))
    ensures outDir.None? || outDir.value == [] ==> Dirname(r.0) == Dirname(src)
    ensures r.1.metadata == md && r.1.sourceFile == absSrc && r.1.extractedAt == now
  {
    OutputPathName(src, outDir, "_metadata");
    var path := OutputPath(src, outDir, "_metadata");
    assert outDir.None? || outDir.value == [] ==> Dirname(path) == Dirname(src) by {
      if outDir.None? || outDir.value == [] {
        OutputBesideSource(src, outDir, "_metadata");
      }
    }
    (path, Payload(absSrc, now, md))
  }

  /** What one run of `main` needs beyond the list of images. */
  datatype Job = Job(
    noOsint: bool,
    host: Host,
    sources: string -> Extractor.Sources,
    services: OsintLocation.Services,
    evidence: string -> OsintScans.FileEvidence)

  /** The record saved for `img`: `extract_metadata` with `--no-osint`, `extract_osint_metadata` without. */
  function Data(job: Job, img: string): (r: Record)
    ensures DistinctKeys(r)
    ensures forall k :: !StartsWith(k, Osint) ==> Get(r, k) == Get(Extractor.ExtractMetadata(job.host, job.sources(img)), k)
  {
    var s := job.sources(img);
    if job.noOsint then Extractor.ExtractMetadata(job.host, s)
    else Enhancer.ExtractOsint(job.host, s, job.services, job.evidence(img))
  }

  /** The number of images among `imgs` whose document was saved. */
  function Saved(imgs: seq<string>, saves: string -> bool): (n: nat)
    ensures n <= |imgs|
    decreases |imgs|
  {
    if imgs == [] then 0
    else Saved(imgs[..|imgs| - 1], saves) + (if saves(imgs[|imgs| - 1]) then 1 else 0)
  }

  /** The output paths of the saved images, in order. */
  function Outputs(imgs: seq<string>, saves: string -> bool, dest: string -> string): (r: seq<string>)
    ensures |r| == Saved(imgs, saves)
    decreases |imgs|
  {
    if imgs == [] then []
    else
      var last := imgs[|imgs| - 1];
      Outputs(imgs[..|imgs| - 1], saves, dest) + (if saves(last) then [dest(last)] else [])
  }

  /**
   The loop of `main` over the found images. `saves(img)` says whether extracting and
   writing the document for `img` finished without an exception, and `dest(img)` is the
   path written; a failure is reported and not counted. A non-zero `limit` stops the loop
   before the next image once `count` has reached it, so a negative limit processes nothing.
   */
  method RunBatch(imgs: seq<string>, limit: int, saves: string -> bool, dest: string -> string)
    returns (count: nat, processed: seq<string>, written: seq<string>)
    ensures processed <= imgs
    ensures count == Saved(processed, saves) && written == Outputs(processed, saves, dest)
    ensures limit == 0 ==> processed == imgs
    ensures limit < 0 ==> processed == [] && count == 0
    ensures limit > 0 ==> count <= limit
    ensures limit > 0 && processed != [] ==> Saved(processed[..|processed| - 1], saves) < limit
    ensures limit > 0 && processed != imgs ==>
      count == limit && processed != [] && Saved(processed[..|processed| - 1], saves) < limit
  {
    count, processed, written := 0, [], [];
    var i := 0;
    while i < |imgs|
      invariant 0 <= i <= |imgs| && processed == imgs[..i]
      invariant count == Saved(processed, saves) && written == Outputs(processed, saves, dest)
      invariant limit > 0 ==> count <= limit
      invariant limit > 0 && i > 0 ==> Saved(processed[..i - 1], saves) < limit
      invariant limit < 0 ==> i == 0
    {
      if limit != 0 && count >= limit {
        break;
      }
      var img := imgs[i];
      var before := processed;
      processed := processed + [img];
      assert processed[..|processed| - 1] == before;
      if saves(img) {
        written := written + [dest(img)];
        count := count + 1;
      }
      i := i + 1;
      assert processed == imgs[..i];
    }
  }

  /** Every output path belongs to a saved image. */
  lemma {:induction false} OutputsFrom(imgs: seq<string>, saves: string -> bool, dest: string -> string, k: nat)
    requires k < |Outputs(imgs, saves, dest)|
    ensures exists j :: 0 <= j < |imgs| && saves(imgs[j]) && Outputs(imgs, saves, dest)[k] == dest(imgs[j])
    decreases |imgs|
  {
    var init := imgs[..|imgs| - 1];
    var head := Outputs(init, saves, dest);
    if k < |head| {
      OutputsFrom(init, saves, dest, k);
      var j :| 0 <= j < |init| && saves(init[j]) && head[k] == dest(init[j]);
      assert init[j] == imgs[j];
    } else {
      assert Outputs(imgs, saves, dest)[k] == dest(imgs[|imgs| - 1]);
    }
  }

  /**
   The body of `main` after argument parsing: the images found under `root` run through the
   batch loop, each document written where `write_json` puts it. A listing that raises ends
   the run with the exception (`aborted`) before any image is processed, since the loop of
   `main` is outside every handler.
   */
  method Process(fs: FileSystem, root: string, recursive: bool, limit: int, outDir: Option<string>, saves: string -> bool)
    returns (count: nat, written: seq<string>, aborted: bool)
    ensures aborted <==> FindImages(fs, root, recursive).Raised?
    ensures aborted ==> count == 0 && written == []
    ensures limit > 0 ==> count <= limit
    ensures !aborted ==> count <= |FindImages(fs, root, recursive).value|
    ensures |written| == count
    ensures !aborted ==> forall k :: 0 <= k < |written| ==>
      exists j :: (0 <= j < |FindImages(fs, root, recursive).value|
        && written[k] == OutputPath(FindImages(fs, root, recursive).value[j], outDir, "_metadata"))
  {
    if FindImages(fs, root, recursive).Raised? {
      return 0, [], true;
    }
    aborted := false;
    var found := FindImages(fs, root, recursive).value;
    var dest := img => OutputPath(img, outDir, "_metadata");
    var processed;
    count, processed, written := RunBatch(found, limit, saves, dest);
    SavedBound(found, saves, |processed|);
    assert found[..|processed|] == processed;
    forall k | 0 <= k < |written|
      ensures exists j :: 0 <= j < |found| && written[k] == OutputPath(found[j], outDir, "_metadata")
    {
      OutputsFrom(processed, saves, dest, k);
      var j :| 0 <= j < |processed| && saves(processed[j]) && written[k] == dest(processed[j]);
      assert processed[j] == found[j];
    }
  }

  /** The count the loop reports is the number of saved images it visited, never more than were found. */
  lemma {:induction false} SavedBound(imgs: seq<string>, saves: string -> bool, k: nat)
    requires k <= |imgs|
    ensures Saved(imgs[..k], saves) <= Saved(imgs, saves)
    decreases |imgs|
  {
    if k < |imgs| {
      SavedBound(imgs[..|imgs| - 1], saves, k);
      assert imgs[..|imgs| - 1][..k] == imgs[..k];
    } else {
      assert imgs[..k] == imgs;
    }
  }

  /** When every image is saved the count is the number visited. */
  lemma {:induction false} SavedAll(imgs: seq<string>, saves: string -> bool)
    requires forall i :: 0 <= i < |imgs| ==> saves(imgs[i])
    ensures Saved(imgs, saves) == |imgs|
    decreases |imgs|
  {
    if imgs != [] {
      SavedAll(imgs[..|imgs| - 1], saves);
    }
  }
}
