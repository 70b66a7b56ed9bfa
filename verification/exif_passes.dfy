/**
 The extractor passes that walk EXIF tag listings: exifread's detailed listing
 (`_deep_exifread`), Pillow's EXIF and `info` (`_extended_pil_exif`), piexif's IFDs
 (`_low_level_piexif`) and the maker notes (`_extract_makernotes`). Each listing is the
 reader's dictionary, in its iteration order.
 */
module ExifPasses {
  import opened Wrappers
  import opened Text
  import opened Dicts
  import opened Records
  import opened ExifValue
  import opened Readers

  // ------------------------------------------------------------------ exifread, detailed

  predicate IsThumbnail(tag: string) {
    tag == "JPEGThumbnail" || tag == "TIFFThumbnail"
  }

  /** What one exifread tag contributes: its normalised value under "EXIFDEEP_", unless it is a thumbnail or blank. */
  function DeepField(host: Host, t: Item<RawValue>): Option<Item<Value>> {
    if IsThumbnail(t.key) then None
    else match Process(host, t.value)
      case Some(pv) => if Strip(pv) != [] then Some(Item("EXIFDEEP_" + t.key, Str(pv))) else None
      case None => None
  }

  /** `_deep_exifread(path)` given exifread's tags, or `None` when the file cannot be read. */
  function DeepExifread(host: Host, tags: Option<Dict<RawValue>>): (r: Record)
    ensures tags.None? ==> r == []
    ensures AllPrefixed(r, "EXIFDEEP_")
    ensures forall i :: 0 <= i < |r| ==> r[i].value.Str? && Strip(r[i].value.s) != []
    ensures DistinctKeys(r)
  {
    match tags
    case None => []
    case Some(ts) =>
      var step := t => DeepField(host, t);
      var r := Emit([], ts, step);
      forall i | 0 <= i < |ts| && step(ts[i]).Some?
        ensures StartsWith(step(ts[i]).value.key, "EXIFDEEP_")
      {
        PrefixStarts("EXIFDEEP_", ts[i].key);
      }
      EmitPrefixed([], ts, step, "EXIFDEEP_");
      EmitAll([], ts, step, (it: Item<Value>) => it.value.Str? && Strip(it.value.s) != []);
      EmitDistinct([], ts, step);
      r
  }

  /** No other tag assigns the field of a tag in a listing with distinct names. */
  lemma DeepFieldOwnKey(host: Host, ts: Dict<RawValue>, i: nat)
    requires DistinctKeys(ts) && i < |ts|
    ensures forall j :: 0 <= j < |ts| && j != i && DeepField(host, ts[j]).Some? ==>
      DeepField(host, ts[j]).value.key != "EXIFDEEP_" + ts[i].key
  {
    forall j | 0 <= j < |ts| && j != i && DeepField(host, ts[j]).Some?
      ensures DeepField(host, ts[j]).value.key != "EXIFDEEP_" + ts[i].key
    {
      if DeepField(host, ts[j]).value.key == "EXIFDEEP_" + ts[i].key {
        PrefixInjective("EXIFDEEP_", ts[j].key, ts[i].key);
      }
    }
  }

  /** A tag that is not a thumbnail and normalises to non-blank text is reported under "EXIFDEEP_" with that text. */
  lemma DeepExifreadKeeps(host: Host, ts: Dict<RawValue>, i: nat, pv: string)
    requires DistinctKeys(ts) && i < |ts|
    requires !IsThumbnail(ts[i].key) && Process(host, ts[i].value) == Some(pv) && Strip(pv) != []
    ensures Get(DeepExifread(host, Some(ts)), "EXIFDEEP_" + ts[i].key) == Some(Str(pv))
  {
    var step := t => DeepField(host, t);
    DeepFieldOwnKey(host, ts, i);
    LastAssignedOnly(ts, step, i, "EXIFDEEP_" + ts[i].key, Str(pv));
    EmitGet([], ts, step, "EXIFDEEP_" + ts[i].key);
  }

  /** A thumbnail, or a tag whose value normalises to nothing or to blank text, is not reported. */
  lemma DeepExifreadDrops(host: Host, ts: Dict<RawValue>, i: nat)
    requires DistinctKeys(ts) && i < |ts|
    requires IsThumbnail(ts[i].key) || Process(host, ts[i].value).None? || Strip(Process(host, ts[i].value).value) == []
    ensures "EXIFDEEP_" + ts[i].key !in KeysOf(DeepExifread(host, Some(ts)))
  {
    var step := t => DeepField(host, t);
    DeepFieldOwnKey(host, ts, i);
    EmitUnassigned([], ts, step, "EXIFDEEP_" + ts[i].key);
  }

  // ------------------------------------------------------------------ Pillow

  /** `ExifTags.TAGS.get(tag_id, tag_id)` in a key: the tag's name, or its number when Pillow has none. */
  function TagName(names: int -> Option<string>, id: int): (r: string)
    ensures names(id).Some? ==> r == names(id).value
    ensures names(id).None? ==> r == IntToString(id)
  {
    names(id).GetOr(IntToString(id))
  }

  /** `value in [None, "", b'', 0]`. */
  predicate PilSkips(v: RawValue) {
    || v == NoneValue
    || v == Scalar(Text(""))
    || v == Bytes([])
    || v == Scalar(Integer(0))
    || (v.Scalar? && v.atom.Opaque? && v.atom.isZero)
  }

  /** What one EXIF entry contributes under "PILEXIF_". */
  function PilField(host: Host, names: int -> Option<string>, e: (int, RawValue)): Option<Item<Value>> {
    if PilSkips(e.1) then None
    else match Process(host, e.1)
      case Some(pv) => if pv != [] then Some(Item("PILEXIF_" + TagName(names, e.0), Str(pv))) else None
      case None => None
  }

  /** What one `info` entry contributes under "PILINFO_": all but "exif" and "icc_profile". */
  function InfoField(it: Item<string>): Option<Item<Value>> {
    if it.key == "exif" || it.key == "icc_profile" then None else Some(Item("PILINFO_" + it.key, Str(it.value)))
  }

  /** The six fields `_extended_pil_exif` sets before reading EXIF. */
  function PilBasics(img: PilImage): (r: Record)
    ensures |r| == 6 && DistinctKeys(r)
  {
    [ Item("PIL_Format", Str(if img.format.Some? then img.format.value else "None")),
      Item("PIL_Mode", Str(img.mode)),
      Item("PIL_Size", Str(NatToString(img.width) + "x" + NatToString(img.height))),
      Item("PIL_Width", Int(img.width)),
      Item("PIL_Height", Int(img.height)),
      Item("PIL_Bands", Str(TupleRepr(img.bands))) ]
  }

  /**
   `_extended_pil_exif(path)` given the opened image (or `None`) and Pillow's tag-name
   table. The basic fields come first; a `_getexif()` that raises ends the pass right
   after them, before the `info` entries.
   */
  function ExtendedPil(host: Host, image: Option<PilImage>, names: int -> Option<string>): (r: Record)
    ensures image.None? ==> r == []
    ensures image.Some? ==> |r| >= 6 && KeysOf(r)[..6] == KeysOf(PilBasics(image.value))
    ensures image.Some? && image.value.exif.Raised? ==> r == PilBasics(image.value)
    ensures DistinctKeys(r)
  {
    match image
    case None => []
    case Some(img) =>
      var basics := PilBasics(img);
      match img.exif
      case Raised(_) => basics
      case Done(entries) =>
        var exifStep := e => PilField(host, names, e);
        var withExif := Emit(basics, entries, exifStep);
        var r := Emit(withExif, img.info, InfoField);
        forall i | 0 <= i < 6
          ensures i < |r| && KeysOf(r)[i] == KeysOf(basics)[i]
        {
          EmitKeepsPosition(basics, entries, exifStep, i);
          EmitKeepsPosition(withExif, img.info, InfoField, i);
        }
        EmitDistinct(basics, entries, exifStep);
        EmitDistinct(withExif, img.info, InfoField);
        r
  }

  /** The image's own EXIF and ICC blobs never appear among the `info` fields. */
  lemma ExtendedPilSkipsBlobs(host: Host, img: PilImage, names: int -> Option<string>, blob: string)
    requires blob == "exif" || blob == "icc_profile"
    ensures "PILINFO_" + blob !in KeysOf(ExtendedPil(host, Some(img), names))
  {
    var k := "PILINFO_" + blob;
    var basics := PilBasics(img);
    assert k !in KeysOf(basics) by {
      assert forall i :: 0 <= i < 6 ==> KeysOf(basics)[i][3] != k[3] || KeysOf(basics)[i][4] != k[4];
    }
    if img.exif.Done? {
      var exifStep := e => PilField(host, names, e);
      forall i | 0 <= i < |img.exif.value| && exifStep(img.exif.value[i]).Some?
        ensures exifStep(img.exif.value[i]).value.key != k
      {
        assert exifStep(img.exif.value[i]).value.key[3] == 'E';
      }
      EmitUnassigned(basics, img.exif.value, exifStep, k);
      var withExif := Emit(basics, img.exif.value, exifStep);
      forall i | 0 <= i < |img.info| && InfoField(img.info[i]).Some?
        ensures InfoField(img.info[i]).value.key != k
      {
        if InfoField(img.info[i]).value.key == k {
          PrefixInjective("PILINFO_", img.info[i].key, blob);
        }
      }
      EmitUnassigned(withExif, img.info, InfoField, k);
    }
  }

  /**
   An EXIF entry that is not skipped and normalises to non-empty text is reported under
   "PILEXIF_" and its tag name with that text, unless a later entry of the same name
   overwrites it; the `info` fields never do.
   */
  lemma ExtendedPilExifKept(host: Host, img: PilImage, names: int -> Option<string>, i: nat, pv: string)
    requires img.exif.Done? && i < |img.exif.value|
    requires !PilSkips(img.exif.value[i].1) && Process(host, img.exif.value[i].1) == Some(pv) && pv != []
    requires forall j :: i < j < |img.exif.value| && PilField(host, names, img.exif.value[j]).Some? ==>
      TagName(names, img.exif.value[j].0) != TagName(names, img.exif.value[i].0)
    ensures Get(ExtendedPil(host, Some(img), names), "PILEXIF_" + TagName(names, img.exif.value[i].0)) == Some(Str(pv))
  {
    var entries := img.exif.value;
    var step := e => PilField(host, names, e);
    var k := "PILEXIF_" + TagName(names, entries[i].0);
    forall j | i < j < |entries| && step(entries[j]).Some?
      ensures step(entries[j]).value.key != k
    {
      if step(entries[j]).value.key == k {
        PrefixInjective("PILEXIF_", TagName(names, entries[j].0), TagName(names, entries[i].0));
      }
    }
    LastAssignedAt(entries, step, i, k, Str(pv));
    EmitGet(PilBasics(img), entries, step, k);
    forall j | 0 <= j < |img.info| && InfoField(img.info[j]).Some?
      ensures InfoField(img.info[j]).value.key != k
    {
      InfoKeyNotExif(img.info[j].key, TagName(names, entries[i].0));
    }
    EmitUnassigned(Emit(PilBasics(img), entries, step), img.info, InfoField, k);
  }

  lemma InfoKeyNotExif(key: string, name: string)
    ensures "PILINFO_" + key != "PILEXIF_" + name
  {
    assert ("PILINFO_" + key)[3] == 'I' && ("PILEXIF_" + name)[3] == 'E';
  }

  /** Once EXIF has been read, every `info` entry but the two blobs is reported under "PILINFO_" with its text. */
  lemma ExtendedPilInfoKept(host: Host, img: PilImage, names: int -> Option<string>, i: nat)
    requires img.exif.Done? && DistinctKeys(img.info) && i < |img.info|
    requires img.info[i].key != "exif" && img.info[i].key != "icc_profile"
    ensures Get(ExtendedPil(host, Some(img), names), "PILINFO_" + img.info[i].key) == Some(Str(img.info[i].value))
  {
    var k := "PILINFO_" + img.info[i].key;
    forall j | 0 <= j < |img.info| && j != i && InfoField(img.info[j]).Some?
      ensures InfoField(img.info[j]).value.key != k
    {
      if InfoField(img.info[j]).value.key == k {
        PrefixInjective("PILINFO_", img.info[j].key, img.info[i].key);
      }
    }
    LastAssignedOnly(img.info, InfoField, i, k, Str(img.info[i].value));
    var step := e => PilField(host, names, e);
    EmitGet(Emit(PilBasics(img), img.exif.value, step), img.info, InfoField, k);
  }

  /** A zero value is skipped, although it would normalise to "0". */
  lemma PilSkipsZero(host: Host, names: int -> Option<string>, id: int)
    ensures PilField(host, names, (id, Scalar(Integer(0)))).None?
    ensures Process(host, Scalar(Integer(0))) == Some("0")
  {
  }

  // ------------------------------------------------------------------ piexif

  /** The IFDs `_low_level_piexif` walks, in this order. */
  const IfdOrder: seq<string> := ["0th", "Exif", "GPS", "1st", "Interop"]

  /** One piexif tag: the IFD it was found in, its number and its value. */
  datatype PiexifEntry = PiexifEntry(ifd: string, tag: int, value: RawValue)

  /** The place of an IFD in the walking order. */
  function IfdRank(ifd: string): nat {
    if ifd == "0th" then 0 else if ifd == "Exif" then 1 else if ifd == "GPS" then 2
    else if ifd == "1st" then 3 else if ifd == "Interop" then 4 else 5
  }

  /** The tags of the IFDs from the `k`-th of the walking order on that are present, IFD by IFD. */
  function PiexifEntries(exif: Dict<seq<(int, RawValue)>>, k: nat): (es: seq<PiexifEntry>)
    requires k <= |IfdOrder|
    ensures forall i :: 0 <= i < |es| ==> k <= IfdRank(es[i].ifd) < |IfdOrder| && Get(exif, es[i].ifd).Some?
    decreases |IfdOrder| - k
  {
    if k == |IfdOrder| then [] else IfdBlock(exif, k) + PiexifEntries(exif, k + 1)
  }

  /** The tags of the `k`-th IFD of the walking order, or nothing when it is absent. */
  function IfdBlock(exif: Dict<seq<(int, RawValue)>>, k: nat): (es: seq<PiexifEntry>)
    requires k < |IfdOrder|
    ensures forall i :: 0 <= i < |es| ==> es[i].ifd == IfdOrder[k] && IfdRank(es[i].ifd) == k
    ensures Get(exif, IfdOrder[k]).Some? ==> (|es| == |Get(exif, IfdOrder[k]).value|
      && forall t :: 0 <= t < |es| ==> es[t] == PiexifEntry(IfdOrder[k], Get(exif, IfdOrder[k]).value[t].0, Get(exif, IfdOrder[k]).value[t].1))
    ensures es != [] ==> Get(exif, IfdOrder[k]).Some?
  {
    var ifd := IfdOrder[k];
    assert IfdRank(ifd) == k;
    match Get(exif, ifd)
    case Some(tags) => seq(|tags|, i requires 0 <= i < |tags| => PiexifEntry(ifd, tags[i].0, tags[i].1))
    case None => []
  }

  /** The tags of an earlier IFD all come before those of a later one. */
  lemma {:induction false} PiexifEntriesOrdered(exif: Dict<seq<(int, RawValue)>>, k: nat)
    requires k <= |IfdOrder|
    ensures forall i, j :: 0 <= i < j < |PiexifEntries(exif, k)| ==>
      IfdRank(PiexifEntries(exif, k)[i].ifd) <= IfdRank(PiexifEntries(exif, k)[j].ifd)
    decreases |IfdOrder| - k
  {
    if k < |IfdOrder| {
      PiexifEntriesOrdered(exif, k + 1);
      var es := PiexifEntries(exif, k);
      var rest := PiexifEntries(exif, k + 1);
      var block := IfdBlock(exif, k);
      assert es == block + rest;
      forall i, j | 0 <= i < j < |es|
        ensures IfdRank(es[i].ifd) <= IfdRank(es[j].ifd)
      {
        if j < |block| {
          assert es[i] == block[i] && es[j] == block[j];
        } else if i < |block| {
          assert es[i] == block[i] && es[j] == rest[j - |block|];
        } else {
          assert es[i] == rest[i - |block|] && es[j] == rest[j - |block|];
        }
      }
    }
  }

  /** Each tag of a present IFD appears, with its IFD, number and value. */
  lemma {:induction false} PiexifEntriesComplete(exif: Dict<seq<(int, RawValue)>>, k: nat, rank: nat, t: nat)
    requires k <= rank < |IfdOrder|
    requires Get(exif, IfdOrder[rank]).Some? && t < |Get(exif, IfdOrder[rank]).value|
    ensures PiexifEntry(IfdOrder[rank], Get(exif, IfdOrder[rank]).value[t].0, Get(exif, IfdOrder[rank]).value[t].1)
      in PiexifEntries(exif, k)
    decreases |IfdOrder| - k
  {
    var e := PiexifEntry(IfdOrder[rank], Get(exif, IfdOrder[rank]).value[t].0, Get(exif, IfdOrder[rank]).value[t].1);
    if rank > k {
      PiexifEntriesComplete(exif, k + 1, rank, t);
    } else {
      assert IfdBlock(exif, k)[t] == e;
    }
    InConcat(IfdBlock(exif, k), PiexifEntries(exif, k + 1), e);
  }

  lemma InConcat<T>(a: seq<T>, b: seq<T>, e: T)
    requires e in a || e in b
    ensures e in a + b
  {
    if e !in a {
      var j :| 0 <= j < |b| && b[j] == e;
      assert (a + b)[|a| + j] == e;
    }
  }

  /** `value in [None, "", b'', 0, []]`. */
  predicate PiexifSkips(v: RawValue) {
    PilSkips(v) || v == Sequence([])
  }

  /** The key of a tag whose name piexif's table lacks. */
  function PiexifErrorKey(e: PiexifEntry): string {
    "PIEXIF_" + ("ERROR_" + e.ifd + "_" + IntToString(e.tag))
  }

  /** The key of a tag piexif can name. */
  function PiexifKey(e: PiexifEntry, name: string): string {
    "PIEXIF_" + (e.ifd + "_" + name)
  }

  /**
   What one piexif tag contributes: a "PIEXIF_ERROR_" field when its name cannot be looked
   up (whatever its value), otherwise its normalised value under "PIEXIF_{ifd}_{name}".
   */
  function PiexifField(host: Host, names: (string, int) -> Option<string>, e: PiexifEntry): Option<Item<Value>> {
    match names(e.ifd, e.tag)
    case None => Some(Item(PiexifErrorKey(e), Str("Tag error: " + IntToString(e.tag))))
    case Some(name) =>
      if PiexifSkips(e.value) then None
      else match Process(host, e.value)
        case Some(pv) => if pv != [] then Some(Item(PiexifKey(e, name), Str(pv))) else None
        case None => None
  }

  /** `_low_level_piexif(path)` given `piexif.load`'s IFD dictionary (or `None` when it raises) and piexif's name table. */
  function LowLevelPiexif(host: Host, exif: Option<Dict<seq<(int, RawValue)>>>, names: (string, int) -> Option<string>): (r: Record)
    ensures exif.None? ==> r == []
    ensures AllPrefixed(r, "PIEXIF_")
    ensures DistinctKeys(r)
  {
    match exif
    case None => []
    case Some(d) =>
      var step := e => PiexifField(host, names, e);
      var es := PiexifEntries(d, 0);
      forall i | 0 <= i < |es| && step(es[i]).Some?
        ensures StartsWith(step(es[i]).value.key, "PIEXIF_")
      {
        PiexifFieldPrefixed(host, names, es[i]);
      }
      EmitPrefixed([], es, step, "PIEXIF_");
      EmitDistinct([], es, step);
      Emit([], es, step)
  }

  lemma PiexifFieldPrefixed(host: Host, names: (string, int) -> Option<string>, e: PiexifEntry)
    requires PiexifField(host, names, e).Some?
    ensures StartsWith(PiexifField(host, names, e).value.key, "PIEXIF_")
  {
    if names(e.ifd, e.tag).None? {
      PrefixStarts("PIEXIF_", "ERROR_" + e.ifd + "_" + IntToString(e.tag));
    } else {
      PrefixStarts("PIEXIF_", e.ifd + "_" + names(e.ifd, e.tag).value);
    }
  }

  /** A tag whose name cannot be looked up is always recorded, even when its value is empty. */
  lemma PiexifRecordsLookupFailure(host: Host, d: Dict<seq<(int, RawValue)>>, names: (string, int) -> Option<string>, i: nat)
    requires i < |PiexifEntries(d, 0)|
    requires names(PiexifEntries(d, 0)[i].ifd, PiexifEntries(d, 0)[i].tag).None?
    ensures PiexifErrorKey(PiexifEntries(d, 0)[i]) in KeysOf(LowLevelPiexif(host, Some(d), names))
  {
    var step := e => PiexifField(host, names, e);
    EmitAssignedPresent([], PiexifEntries(d, 0), step, i, PiexifErrorKey(PiexifEntries(d, 0)[i]));
  }

  /**
   A tag piexif can name, whose value is not skipped and normalises to non-empty text, is
   reported under "PIEXIF_{ifd}_{name}" with that text, unless a later tag assigns the same key.
   */
  lemma PiexifNamedKept(host: Host, d: Dict<seq<(int, RawValue)>>, names: (string, int) -> Option<string>, i: nat, name: string, pv: string)
    requires i < |PiexifEntries(d, 0)|
    requires names(PiexifEntries(d, 0)[i].ifd, PiexifEntries(d, 0)[i].tag) == Some(name)
    requires !PiexifSkips(PiexifEntries(d, 0)[i].value)
    requires Process(host, PiexifEntries(d, 0)[i].value) == Some(pv) && pv != []
    requires forall j :: i < j < |PiexifEntries(d, 0)| && PiexifField(host, names, PiexifEntries(d, 0)[j]).Some? ==>
      PiexifField(host, names, PiexifEntries(d, 0)[j]).value.key != PiexifKey(PiexifEntries(d, 0)[i], name)
    ensures Get(LowLevelPiexif(host, Some(d), names), PiexifKey(PiexifEntries(d, 0)[i], name)) == Some(Str(pv))
  {
    var es := PiexifEntries(d, 0);
    var step := e => PiexifField(host, names, e);
    LastAssignedAt(es, step, i, PiexifKey(es[i], name), Str(pv));
    EmitGet([], es, step, PiexifKey(es[i], name));
  }

  // ------------------------------------------------------------------ maker notes

  /** `'MakerNote' in tag or 'makernote' in tag.lower()`. */
  predicate IsMakerTag(tag: string) {
    Contains(tag, "MakerNote") || Mentions(tag, "makernote")
  }

  function IsMakerItem(t: Item<RawValue>): bool {
    IsMakerTag(t.key)
  }

  /** The case-sensitive test is subsumed by the case-insensitive one. */
  lemma MakerTagTest(tag: string)
    ensures IsMakerTag(tag) <==> Mentions(tag, "makernote")
  {
    if Contains(tag, "MakerNote") {
      var i :| 0 <= i <= |tag| && MatchAt(tag, "MakerNote", i);
      MakerNoteLowered(tag, i);
    }
  }

  lemma MakerNoteLowered(tag: string, i: int)
    requires MatchAt(tag, "MakerNote", i)
    ensures MatchAt(Lower(tag), "makernote", i)
  {
    forall j | 0 <= j < 9
      ensures Lower(tag)[i + j] == "makernote"[j]
    {
      assert tag[i + j] == tag[i..i + 9][j] == "MakerNote"[j];
    }
    assert Lower(tag)[i..i + 9] == "makernote";
  }

  /** What one maker-note tag contributes under "MAKER_". */
  function MakerField(host: Host, t: Item<RawValue>): Option<Item<Value>> {
    match Process(host, t.value)
    case Some(pv) => if pv != [] then Some(Item("MAKER_" + t.key, Str(pv))) else None
    case None => None
  }

  /**
   `_extract_makernotes(path)` given exifread's detailed tags (or `None`): "MakerNotes_Present"
   says whether any tag is a maker note; when one is, the notes follow and then their count.
   */
  function MakerNotes(host: Host, tags: Option<Dict<RawValue>>): (r: Record)
    ensures tags.None? ==> r == []
    ensures tags.Some? ==> |r| >= 1
    ensures tags.Some? && (forall i :: 0 <= i < |tags.value| ==> !IsMakerTag(tags.value[i].key)) ==>
      r == [Item("MakerNotes_Present", Str("NO"))]
    ensures tags.Some? && (exists i :: 0 <= i < |tags.value| && IsMakerTag(tags.value[i].key)) ==>
      r[0] == Item("MakerNotes_Present", Str("YES"))
      && Get(r, "MakerNotes_Count") == Some(Int(|Emit([], tags.value, Keeping(IsMakerItem))|))
  {
    match tags
    case None => []
    case Some(ts) =>
      var makers := Emit([], ts, Keeping(IsMakerItem));
      if makers == [] then
        assert forall i :: 0 <= i < |ts| ==> !IsMakerTag(ts[i].key) by {
          forall i | 0 <= i < |ts|
            ensures !IsMakerTag(ts[i].key)
          {
            if IsMakerTag(ts[i].key) {
              KeepingStep(IsMakerItem, ts[i]);
              EmitAssignedPresent([], ts, Keeping(IsMakerItem), i, ts[i].key);
            }
          }
        }
        [Item("MakerNotes_Present", Str("NO"))]
      else
        assert !forall i :: 0 <= i < |ts| ==> !IsMakerTag(ts[i].key) by {
          if forall i :: 0 <= i < |ts| ==> !IsMakerTag(ts[i].key) {
            EmitNothing([], ts, Keeping(IsMakerItem));
          }
        }
        var step := t => MakerField(host, t);
        var notes := Emit([Item("MakerNotes_Present", Str("YES"))], makers, step);
        EmitKeepsPosition([Item("MakerNotes_Present", Str("YES"))], makers, step, 0);
        assert notes[0].key == "MakerNotes_Present";
        MakerNotesPresentKept(host, makers);
        var r := Set(notes, "MakerNotes_Count", Int(|makers|));
        SetKeepsPosition(notes, "MakerNotes_Count", Int(|makers|), 0);
        r
  }

  /** The notes never overwrite "MakerNotes_Present". */
  lemma MakerNotesPresentKept(host: Host, makers: Dict<RawValue>)
    ensures |Emit([Item("MakerNotes_Present", Str("YES"))], makers, t => MakerField(host, t))| >= 1
    ensures Emit([Item("MakerNotes_Present", Str("YES"))], makers, t => MakerField(host, t))[0]
      == Item("MakerNotes_Present", Str("YES"))
  {
    var step := t => MakerField(host, t);
    var acc := [Item("MakerNotes_Present", Str("YES"))];
    forall i | 0 <= i < |makers| && step(makers[i]).Some?
      ensures step(makers[i]).value.key != "MakerNotes_Present"
    {
      assert step(makers[i]).value.key[1] == 'A';
    }
    EmitUnassigned(acc, makers, step, "MakerNotes_Present");
    EmitKeepsPosition(acc, makers, step, 0);
    var r := Emit(acc, makers, step);
    IndexOfFirst(r, "MakerNotes_Present", 0);
  }

  /** In a listing with distinct tag names, the count is the number of maker-note tags. */
  lemma MakerNotesCount(host: Host, ts: Dict<RawValue>)
    requires DistinctKeys(ts)
    requires exists i :: 0 <= i < |ts| && IsMakerTag(ts[i].key)
    ensures Get(MakerNotes(host, Some(ts)), "MakerNotes_Count") == Some(Int(|Select(ts, IsMakerItem)|))
  {
    EmitSelect(ts, IsMakerItem);
  }

  /** No other maker note assigns the field of a note in a listing with distinct names. */
  lemma MakerFieldOwnKey(host: Host, makers: Dict<RawValue>, m: nat)
    requires DistinctKeys(makers) && m < |makers|
    ensures forall j :: 0 <= j < |makers| && j != m && MakerField(host, makers[j]).Some? ==>
      MakerField(host, makers[j]).value.key != "MAKER_" + makers[m].key
  {
    forall j | 0 <= j < |makers| && j != m && MakerField(host, makers[j]).Some?
      ensures MakerField(host, makers[j]).value.key != "MAKER_" + makers[m].key
    {
      if MakerField(host, makers[j]).value.key == "MAKER_" + makers[m].key {
        PrefixInjective("MAKER_", makers[j].key, makers[m].key);
      }
    }
  }

  /** Among maker notes with distinct names, one whose value normalises to non-empty text is reported under "MAKER_". */
  lemma MakerFieldKept(host: Host, makers: Dict<RawValue>, m: nat, pv: string)
    requires DistinctKeys(makers) && m < |makers|
    requires Process(host, makers[m].value) == Some(pv) && pv != []
    ensures Get(Emit([Item("MakerNotes_Present", Str("YES"))], makers, t => MakerField(host, t)), "MAKER_" + makers[m].key)
      == Some(Str(pv))
  {
    var step := t => MakerField(host, t);
    MakerFieldOwnKey(host, makers, m);
    LastAssignedOnly(makers, step, m, "MAKER_" + makers[m].key, Str(pv));
    EmitGet([Item("MakerNotes_Present", Str("YES"))], makers, step, "MAKER_" + makers[m].key);
  }

  /** A maker-note tag of a listing with distinct names is found, unchanged, among the notes the pass selects. */
  lemma MakerSelected(ts: Dict<RawValue>, i: nat) returns (m: nat)
    requires DistinctKeys(ts) && i < |ts| && IsMakerTag(ts[i].key)
    ensures DistinctKeys(Emit([], ts, Keeping(IsMakerItem)))
    ensures m < |Emit([], ts, Keeping(IsMakerItem))| && Emit([], ts, Keeping(IsMakerItem))[m] == ts[i]
  {
    EmitSelect(ts, IsMakerItem);
    EmitDistinct([], ts, Keeping(IsMakerItem));
    var makers := Select(ts, IsMakerItem);
    assert ts[i] in makers;
    m :| 0 <= m < |makers| && makers[m] == ts[i];
  }

  /** With maker notes present, every field but the count reads as the notes loop left it. */
  lemma MakerNotesBeforeCount(host: Host, ts: Dict<RawValue>, i: nat, k: string)
    requires i < |ts| && IsMakerTag(ts[i].key) && k != "MakerNotes_Count"
    ensures Get(MakerNotes(host, Some(ts)), k)
      == Get(Emit([Item("MakerNotes_Present", Str("YES"))], Emit([], ts, Keeping(IsMakerItem)), t => MakerField(host, t)), k)
  {
    KeepingStep(IsMakerItem, ts[i]);
    EmitAssignedPresent([], ts, Keeping(IsMakerItem), i, ts[i].key);
  }

  /** A maker-note tag whose value normalises to non-empty text is reported under "MAKER_" with that text. */
  lemma MakerNotesKept(host: Host, ts: Dict<RawValue>, i: nat, pv: string)
    requires DistinctKeys(ts) && i < |ts| && IsMakerTag(ts[i].key)
    requires Process(host, ts[i].value) == Some(pv) && pv != []
    ensures Get(MakerNotes(host, Some(ts)), "MAKER_" + ts[i].key) == Some(Str(pv))
  {
    var makers := Emit([], ts, Keeping(IsMakerItem));
    var notes := Emit([Item("MakerNotes_Present", Str("YES"))], makers, t => MakerField(host, t));
    var k := "MAKER_" + ts[i].key;
    assert Get(notes, k) == Some(Str(pv)) by {
      var m := MakerSelected(ts, i);
      assert k == "MAKER_" + makers[m].key;
      MakerFieldKept(host, makers, m, pv);
    }
    MakerKeyNotCount(ts[i].key);
    MakerNotesBeforeCount(host, ts, i, k);
  }

  lemma MakerKeyNotCount(tag: string)
    ensures "MAKER_" + tag != "MakerNotes_Count"
  {
    assert ("MAKER_" + tag)[1] == 'A';
  }

  /** The maker-note fields never take the count's key. */
  lemma MakerNotesLackCount(host: Host, makers: Dict<RawValue>)
    ensures "MakerNotes_Count" !in KeysOf(Emit([Item("MakerNotes_Present", Str("YES"))], makers, t => MakerField(host, t)))
  {
    var step := t => MakerField(host, t);
    forall j | 0 <= j < |makers| && step(makers[j]).Some?
      ensures step(makers[j]).value.key != "MakerNotes_Count"
    {
      MakerKeyNotCount(makers[j].key);
    }
    EmitUnassigned([Item("MakerNotes_Present", Str("YES"))], makers, step, "MakerNotes_Count");
  }

  /** When there are maker notes, their count is the last field of the pass. */
  lemma MakerNotesCountLast(host: Host, ts: Dict<RawValue>, i: nat)
    requires i < |ts| && IsMakerTag(ts[i].key)
    ensures |MakerNotes(host, Some(ts))| >= 2
    ensures MakerNotes(host, Some(ts))[|MakerNotes(host, Some(ts))| - 1]
      == Item("MakerNotes_Count", Int(|Emit([], ts, Keeping(IsMakerItem))|))
  {
    var makers := Emit([], ts, Keeping(IsMakerItem));
    KeepingStep(IsMakerItem, ts[i]);
    EmitAssignedPresent([], ts, Keeping(IsMakerItem), i, ts[i].key);
    var notes := Emit([Item("MakerNotes_Present", Str("YES"))], makers, t => MakerField(host, t));
    MakerNotesLackCount(host, makers);
    SetAppends(notes, "MakerNotes_Count", Int(|makers|));
    assert MakerNotes(host, Some(ts)) == notes + [Item("MakerNotes_Count", Int(|makers|))];
  }
}
