/**
 `UltraMetadataExtractor.extract_metadata`: the ten passes run in a fixed order and their
 records are merged with `dict.update`, so a later pass overwrites an earlier one on a shared
 key. Each pass names its fields with its own initial letter (only the two Pillow-based
 passes share one), which makes most fields owned by a single pass.
 */
module Extractor {
  import opened Wrappers
  import opened Text
  import opened Dicts
  import opened Records
  import opened ExifValue
  import opened Readers
  import opened FilePasses
  import opened ExifPasses
  import opened GpsPass

  /**
   What the readers give the passes for one image path. Each pass opens the file itself, so
   each has its own reading: exifread is run three times, strictly for the detailed pass
   (`exifreadTags`), leniently for the GPS pass (`gpsTags`) and for the maker notes
   (`makerTags`). `failure` is an exception escaping the passes into `extract_metadata`'s
   own handler.
   */
  datatype Sources = Sources(
    path: string,
    absPath: string,
    stat: Option<FileStat>,
    exifreadTags: Option<Dict<RawValue>>,
    gpsTags: Option<Dict<TagReading>>,
    makerTags: Option<Dict<RawValue>>,
    image: Option<PilImage>,
    pilNames: int -> Option<string>,
    piexif: Option<Dict<seq<(int, RawValue)>>>,
    piexifNames: (string, int) -> Option<string>,
    bytes: Option<seq<byte>>,
    failure: Option<string>)

  /** What each pass returned, one record per pass. */
  datatype Run = Run(
    file: Record,
    deep: Record,
    pil: Record,
    piexif: Record,
    gps: Record,
    maker: Record,
    technical: Record,
    color: Record,
    xmpIptc: Record,
    raw: Record)

  /** The passes run on one file's readings. */
  function RunPasses(host: Host, s: Sources): Run {
    Run(
      FileInfo(host, s.path, s.absPath, s.stat),
      DeepExifread(host, s.exifreadTags),
      ExtendedPil(host, s.image, s.pilNames),
      LowLevelPiexif(host, s.piexif, s.piexifNames),
      DetailedGps(host, s.gpsTags),
      MakerNotes(host, s.makerTags),
      TechnicalSpecs(host, s.image),
      ColorAnalysis(s.image),
      XmpIptc(host, s.bytes),
      RawSpecific(s.path))
  }

  /** The passes' records in the order `extract_metadata` merges them. */
  function Order(run: Run): (ps: seq<Record>)
    ensures |ps| == 10 && ps[0] == run.file && ps[4] == run.gps && ps[9] == run.raw
  {
    [run.file, run.deep, run.pil, run.piexif, run.gps, run.maker, run.technical, run.color, run.xmpIptc, run.raw]
  }

  /**
   `extract_metadata(path)`: the merge of the passes, or a lone "Error" field when an
   exception escapes them. "RAW_File" always ends up saying whether the extension is a
   RAW one, since nothing after the last pass can overwrite it.
   */
  function ExtractMetadata(host: Host, s: Sources): (r: Record)
    ensures s.failure.Some? ==> r == [Item("Error", Str("Extraction failed: " + s.failure.value))]
    ensures DistinctKeys(r)
    ensures s.failure.None? ==>
      Get(r, "RAW_File") == Some(Str(if ExtensionOf(s.path) in RawExtensions then "YES" else "NO"))
  {
    match s.failure
    case Some(m) => [Item("Error", Str("Extraction failed: " + m))]
    case None =>
      var ps := Order(RunPasses(host, s));
      MergeDistinct(ps);
      RawFileLast(host, s);
      Merge(ps)
  }

  lemma RawFileLast(host: Host, s: Sources)
    ensures Get(Merge(Order(RunPasses(host, s))), "RAW_File") == Some(Str(if ExtensionOf(s.path) in RawExtensions then "YES" else "NO"))
  {
    var raw := RawSpecific(s.path);
    assert KeysOf(raw)[|raw| - 1] == "RAW_File";
    MergeLast(Order(RunPasses(host, s)), "RAW_File");
    GetItem(raw, |raw| - 1);
  }

  // ------------------------------------------------------------------ which pass owns a key

  /** Every key of `r` is non-empty and begins with one of `cs`. */
  ghost predicate KeyInitials(r: Record, cs: set<char>) {
    forall i :: 0 <= i < |r| ==> |r[i].key| > 0 && r[i].key[0] in cs
  }

  /** The initials of each pass's keys, in pass order. */
  const PassInitials: seq<set<char>> := [{'F'}, {'E'}, {'P'}, {'P'}, {'G'}, {'M'}, {'T'}, {'C'}, {'X', 'I'}, {'R'}]

  lemma InitialsExclude(r: Record, cs: set<char>, k: string)
    requires KeyInitials(r, cs) && |k| > 0 && k[0] !in cs
    ensures k !in KeysOf(r)
  {
    forall i | 0 <= i < |r|
      ensures KeysOf(r)[i] != k
    {
      assert r[i].key[0] in cs;
    }
  }

  lemma PrefixedInitials(r: Record, prefix: string)
    requires AllPrefixed(r, prefix) && |prefix| > 0
    ensures KeyInitials(r, {prefix[0]})
  {
    forall i | 0 <= i < |r|
      ensures |r[i].key| > 0 && r[i].key[0] == prefix[0]
    {
      assert StartsWith(r[i].key, prefix);
      assert r[i].key[..|prefix|][0] == prefix[0];
    }
  }

  lemma FileInfoInitials(host: Host, path: string, absPath: string, stat: Option<FileStat>)
    ensures KeyInitials(FileInfo(host, path, absPath, stat), {'F'})
  {
  }

  lemma ExtendedPilPrefixed(host: Host, image: Option<PilImage>, names: int -> Option<string>)
    ensures AllPrefixed(ExtendedPil(host, image, names), "PIL")
  {
    if image.Some? && image.value.exif.Done? {
      var img := image.value;
      var basics := PilBasics(img);
      assert AllPrefixed(basics, "PIL");
      var exifStep := e => PilField(host, names, e);
      forall i | 0 <= i < |img.exif.value| && exifStep(img.exif.value[i]).Some?
        ensures StartsWith(exifStep(img.exif.value[i]).value.key, "PIL")
      {
        PrefixStarts("PIL", "EXIF_" + TagName(names, img.exif.value[i].0));
      }
      EmitPrefixed(basics, img.exif.value, exifStep, "PIL");
      forall i | 0 <= i < |img.info| && InfoField(img.info[i]).Some?
        ensures StartsWith(InfoField(img.info[i]).value.key, "PIL")
      {
        PrefixStarts("PIL", "INFO_" + img.info[i].key);
      }
      EmitPrefixed(Emit(basics, img.exif.value, exifStep), img.info, InfoField, "PIL");
    } else if image.Some? {
      assert AllPrefixed(PilBasics(image.value), "PIL");
    }
  }

  lemma MakerNotesPrefixed(host: Host, tags: Option<Dict<RawValue>>)
    ensures AllPrefixed(MakerNotes(host, tags), "M")
  {
    if tags.Some? {
      var ts := tags.value;
      var makers := Emit([], ts, Keeping(IsMakerItem));
      if makers != [] {
        var step := t => MakerField(host, t);
        var acc := [Item("MakerNotes_Present", Str("YES"))];
        assert AllPrefixed(acc, "M");
        forall i | 0 <= i < |makers| && step(makers[i]).Some?
          ensures StartsWith(step(makers[i]).value.key, "M")
        {
          PrefixStarts("M", "AKER_" + makers[i].key);
        }
        EmitPrefixed(acc, makers, step, "M");
        SetPrefixed(Emit(acc, makers, step), "M", "MakerNotes_Count", Int(|makers|));
      }
    }
  }

  lemma DeepInitials(host: Host, tags: Option<Dict<RawValue>>)
    ensures KeyInitials(DeepExifread(host, tags), {'E'})
  {
    PrefixedInitials(DeepExifread(host, tags), "EXIFDEEP_");
  }

  lemma PilInitials(host: Host, image: Option<PilImage>, names: int -> Option<string>)
    ensures KeyInitials(ExtendedPil(host, image, names), {'P'})
  {
    ExtendedPilPrefixed(host, image, names);
    PrefixedInitials(ExtendedPil(host, image, names), "PIL");
  }

  lemma PiexifInitials(host: Host, exif: Option<Dict<seq<(int, RawValue)>>>, names: (string, int) -> Option<string>)
    ensures KeyInitials(LowLevelPiexif(host, exif, names), {'P'})
  {
    PrefixedInitials(LowLevelPiexif(host, exif, names), "PIEXIF_");
  }

  lemma GpsInitials(host: Host, tags: Option<Dict<TagReading>>)
    ensures KeyInitials(DetailedGps(host, tags), {'G'})
  {
    PrefixedInitials(DetailedGps(host, tags), "GPS_");
  }

  lemma MakerInitials(host: Host, tags: Option<Dict<RawValue>>)
    ensures KeyInitials(MakerNotes(host, tags), {'M'})
  {
    MakerNotesPrefixed(host, tags);
    PrefixedInitials(MakerNotes(host, tags), "M");
  }

  lemma TechnicalInitials(host: Host, image: Option<PilImage>)
    ensures KeyInitials(TechnicalSpecs(host, image), {'T'})
  {
  }

  /** The profile fields are the listed names, with "Color_ICC_Error" possibly last. */
  lemma IccFieldsKeys(names: seq<string>, readings: seq<Attempt<string>>, i: nat)
    requires |names| == |readings| && i < |IccFields(names, readings)|
    ensures IccFields(names, readings)[i].key == names[i] || IccFields(names, readings)[i].key == "Color_ICC_Error"
  {
  }

  lemma IccNameInitial(a: nat)
    requires a < |IccFieldNames|
    ensures |IccFieldNames[a]| > 0 && IccFieldNames[a][0] == 'C'
  {
  }

  lemma IccFieldsInitials(p: IccProfile)
    ensures KeyInitials(IccFields(IccFieldNames, IccReadings(p)), {'C'})
  {
    var fields := IccFields(IccFieldNames, IccReadings(p));
    forall i | 0 <= i < |fields|
      ensures |fields[i].key| > 0 && fields[i].key[0] == 'C'
    {
      IccFieldsKeys(IccFieldNames, IccReadings(p), i);
      if fields[i].key != "Color_ICC_Error" {
        IccNameInitial(i);
      }
    }
  }

  lemma ColorInitials(image: Option<PilImage>)
    ensures KeyInitials(ColorAnalysis(image), {'C'})
  {
    if image.Some? && image.value.icc.Some? {
      var p := image.value.icc.value;
      ColorWithProfile(image);
      IccFieldsInitials(p);
      assert KeyInitials(ColorHeads(p), {'C'});
    }
  }

  lemma XmpInitials(host: Host, raw: seq<byte>)
    ensures KeyInitials(XmpFields(host, raw), {'X', 'I'})
  {
    if |XmpFields(host, raw)| == 2 {
      assert XmpFields(host, raw)[0].key == "XMP_Raw";
    }
  }

  lemma IptcInitials(host: Host, raw: seq<byte>)
    ensures KeyInitials(IptcFields(host, raw), {'X', 'I'})
  {
    if |IptcFields(host, raw)| == 2 {
      assert IptcFields(host, raw)[1].key == "IPTC_Sample";
    }
  }

  lemma XmpIptcInitials(host: Host, raw: Option<seq<byte>>)
    ensures KeyInitials(XmpIptc(host, raw), {'X', 'I'})
  {
    if raw.Some? {
      var x := XmpFields(host, raw.value);
      var p := IptcFields(host, raw.value);
      assert XmpIptc(host, raw) == x + p;
      XmpInitials(host, raw.value);
      IptcInitials(host, raw.value);
    }
  }

  lemma RawInitials(path: string)
    ensures KeyInitials(RawSpecific(path), {'R'})
  {
  }

  /** The profile field names differ from each other and from the colour pass's other keys. */
  lemma IccNamesDistinct(a: nat, b: nat)
    requires a < b < |IccFieldNames|
    ensures IccFieldNames[a] != IccFieldNames[b]
  {
  }

  lemma IccNameNotOther(a: nat)
    requires a < |IccFieldNames|
    ensures IccFieldNames[a] !in {"Color_ICC_Present", "Color_ICC_Size_Bytes", "Color_ICC_Error"}
  {
  }

  lemma IccFieldsPair(p: IccProfile, i: nat, j: nat)
    requires i < j < |IccFields(IccFieldNames, IccReadings(p))|
    ensures IccFields(IccFieldNames, IccReadings(p))[i].key != IccFields(IccFieldNames, IccReadings(p))[j].key
  {
    var fields := IccFields(IccFieldNames, IccReadings(p));
    IccFieldsKeys(IccFieldNames, IccReadings(p), j);
    assert fields[i].key == IccFieldNames[i];
    IccNameNotOther(i);
    if fields[j].key == IccFieldNames[j] {
      IccNamesDistinct(i, j);
    }
  }

  lemma IccFieldNotHead(p: IccProfile, j: nat)
    requires j < |IccFields(IccFieldNames, IccReadings(p))|
    ensures IccFields(IccFieldNames, IccReadings(p))[j].key !in {"Color_ICC_Present", "Color_ICC_Size_Bytes"}
  {
    IccFieldsKeys(IccFieldNames, IccReadings(p), j);
    IccNameNotOther(j);
  }

  /** The record of an image with a profile: its two head fields, then the readings. */
  function ColorHeads(p: IccProfile): Record {
    [Item("Color_ICC_Present", Str("YES")), Item("Color_ICC_Size_Bytes", Int(p.size))]
  }

  lemma ColorWithProfile(image: Option<PilImage>)
    requires image.Some? && image.value.icc.Some?
    ensures ColorAnalysis(image) == ColorHeads(image.value.icc.value) + IccFields(IccFieldNames, IccReadings(image.value.icc.value))
  {
  }

  lemma ColorHeadsFieldsDistinct(p: IccProfile)
    ensures DistinctKeys(ColorHeads(p) + IccFields(IccFieldNames, IccReadings(p)))
  {
    var r := ColorHeads(p) + IccFields(IccFieldNames, IccReadings(p));
    forall i, j | 0 <= i < j < |r|
      ensures r[i].key != r[j].key
    {
      if i >= 2 {
        IccFieldsPair(p, i - 2, j - 2);
      } else if j >= 2 {
        IccFieldNotHead(p, j - 2);
      }
    }
  }

  /** The colour pass never repeats a key. */
  lemma ColorDistinct(image: Option<PilImage>)
    ensures DistinctKeys(ColorAnalysis(image))
  {
    if image.Some? && image.value.icc.Some? {
      ColorWithProfile(image);
      ColorHeadsFieldsDistinct(image.value.icc.value);
    }
  }

  /** The maker-notes pass never repeats a key. */
  lemma MakerNotesDistinct(host: Host, tags: Option<Dict<RawValue>>)
    ensures DistinctKeys(MakerNotes(host, tags))
  {
    if tags.Some? {
      var makers := Emit([], tags.value, Keeping(IsMakerItem));
      if makers != [] {
        var step := t => MakerField(host, t);
        var acc := [Item("MakerNotes_Present", Str("YES"))];
        EmitDistinct(acc, makers, step);
        SetDistinct(Emit(acc, makers, step), "MakerNotes_Count", Int(|makers|));
      }
    }
  }

  /** The records of a run: keys with each pass's initials, none repeated. */
  ghost predicate Shaped(run: Run) {
    && KeyInitials(run.file, {'F'}) && KeyInitials(run.deep, {'E'}) && KeyInitials(run.pil, {'P'})
    && KeyInitials(run.piexif, {'P'}) && KeyInitials(run.gps, {'G'}) && KeyInitials(run.maker, {'M'})
    && KeyInitials(run.technical, {'T'}) && KeyInitials(run.color, {'C'})
    && KeyInitials(run.xmpIptc, {'X', 'I'}) && KeyInitials(run.raw, {'R'})
    && DistinctKeys(run.file) && DistinctKeys(run.deep) && DistinctKeys(run.pil)
    && DistinctKeys(run.piexif) && DistinctKeys(run.gps) && DistinctKeys(run.maker)
    && DistinctKeys(run.technical) && DistinctKeys(run.color)
    && DistinctKeys(run.xmpIptc) && DistinctKeys(run.raw)
  }

  /** Every run of the passes is shaped so. */
  lemma RunShaped(host: Host, s: Sources)
    ensures Shaped(RunPasses(host, s))
  {
    FileInfoInitials(host, s.path, s.absPath, s.stat);
    DeepInitials(host, s.exifreadTags);
    PilInitials(host, s.image, s.pilNames);
    PiexifInitials(host, s.piexif, s.piexifNames);
    GpsInitials(host, s.gpsTags);
    MakerInitials(host, s.makerTags);
    MakerNotesDistinct(host, s.makerTags);
    TechnicalInitials(host, s.image);
    ColorInitials(s.image);
    ColorDistinct(s.image);
    XmpIptcInitials(host, s.bytes);
    RawInitials(s.path);
  }

  lemma ShapedInitials(run: Run, j: nat)
    requires Shaped(run) && j < 10
    ensures KeyInitials(Order(run)[j], PassInitials[j]) && DistinctKeys(Order(run)[j])
  {
  }

  /** A key whose initial no other part uses reads in the merge as in its owner. */
  lemma OwnedKey(run: Run, j: nat, k: string)
    requires Shaped(run) && j < 10 && |k| > 0
    requires forall i :: 0 <= i < 10 && i != j ==> k[0] !in PassInitials[i]
    ensures Get(Merge(Order(run)), k) == Get(Order(run)[j], k)
  {
    var ps := Order(run);
    forall i | 0 <= i < |ps| && i != j
      ensures k !in KeysOf(ps[i])
    {
      ShapedInitials(run, i);
      InitialsExclude(ps[i], PassInitials[i], k);
    }
    ShapedInitials(run, j);
    MergeOwned(ps, j, k);
  }

  /**
   A key whose initial only pass `j` uses reads in the merged record exactly as in that
   pass, whatever the other passes found.
   */
  lemma PassOwnsKey(host: Host, s: Sources, j: nat, k: string)
    requires s.failure.None? && j < 10 && |k| > 0
    requires forall i :: 0 <= i < 10 && i != j ==> k[0] !in PassInitials[i]
    ensures Get(ExtractMetadata(host, s), k) == Get(Order(RunPasses(host, s))[j], k)
  {
    RunShaped(host, s);
    OwnedKey(RunPasses(host, s), j, k);
  }

  /** In any run, keys beginning "File_" or "GPS_" have a single owner. */
  lemma PrefixOwned(run: Run, j: nat, prefix: string, k: string)
    requires Shaped(run) && StartsWith(k, prefix)
    requires (j == 0 && prefix == "File_") || (j == 4 && prefix == "GPS_")
    ensures Get(Merge(Order(run)), k) == Get(Order(run)[j], k)
  {
    assert k[0] == prefix[0];
    OwnedKey(run, j, k);
  }

  /** The file-information fields survive the merge unchanged. */
  lemma FileFieldsKept(host: Host, s: Sources, k: string)
    requires s.failure.None? && StartsWith(k, "File_")
    ensures Get(ExtractMetadata(host, s), k) == Get(FileInfo(host, s.path, s.absPath, s.stat), k)
  {
    RunShaped(host, s);
    PrefixOwned(RunPasses(host, s), 0, "File_", k);
  }

  /** The GPS pass's fields survive the merge unchanged. */
  lemma GpsFieldsKept(host: Host, s: Sources, k: string)
    requires s.failure.None? && StartsWith(k, "GPS_")
    ensures Get(ExtractMetadata(host, s), k) == Get(DetailedGps(host, s.gpsTags), k)
  {
    RunShaped(host, s);
    PrefixOwned(RunPasses(host, s), 4, "GPS_", k);
  }
}
