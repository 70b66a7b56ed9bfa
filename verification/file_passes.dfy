/**
 The extractor passes that look at the file as a whole: file information, Pillow's
 technical description of the image, the colour profile, the XMP/IPTC byte search and the
 RAW-format table.
 */
module FilePasses {
  import opened Wrappers
  import opened Text
  import opened Dicts
  import opened Records
  import opened PosixPath
  import opened Readers

  function Min(a: int, b: int): int {
    if a <= b then a else b
  }

  // ------------------------------------------------------------------ file information

  /** An extension as `os.path.splitext(p)[1].lower()` gives it: empty, or one dot and no upper-case letter. */
  predicate LowerExtension(e: string) {
    (e == [] || (e[0] == '.' && '.' !in e[1..] && '/' !in e))
    && forall i :: 0 <= i < |e| ==> !('A' <= e[i] <= 'Z')
  }

  /** `os.path.splitext(p)[1].lower()`. */
  function ExtensionOf(p: string): (e: string)
    ensures LowerExtension(e)
  {
    var ext := SplitExt(p).1;
    LowerExtensionOf(ext);
    Lower(ext)
  }

  lemma LowerExtensionOf(ext: string)
    requires ext == [] || (ext[0] == '.' && '.' !in ext[1..] && '/' !in ext)
    ensures LowerExtension(Lower(ext))
  {
    var e := Lower(ext);
    if e != [] {
      assert e[1..] == Lower(ext[1..]);
      LowerKeepsNonLetter(ext[1..], '.');
      LowerKeepsNonLetter(ext, '/');
    }
  }

  /** The extension of "stem.EXT" is ".ext" in lower case. */
  lemma ExtensionOfName(stem: string, ext: string)
    requires stem != [] && stem[|stem| - 1] != '.' && stem[|stem| - 1] != '/'
    requires '.' !in ext && '/' !in ext
    ensures ExtensionOf(stem + "." + ext) == "." + Lower(ext)
  {
    SplitExtOfName(stem, ext);
    assert Lower("." + ext) == "." + Lower(ext);
  }

  /**
   `_get_file_info(path)`, given `os.path.abspath(path)` and the outcome of `os.stat`. A
   failed stat gives nothing; a timestamp that cannot be rendered ends the pass with the
   fields set so far.
   */
  function FileInfo(host: Host, path: string, absPath: string, stat: Option<FileStat>): (r: Record)
    ensures stat.None? ==> r == []
    ensures stat.Some? ==> (4 <= |r| <= 7
      && r[0] == Item("File_Path", Str(absPath))
      && r[1] == Item("File_Name", Str(Basename(path)))
      && r[2] == Item("File_Size_Bytes", Int(stat.value.size)))
    ensures |r| == 7 <==> stat.Some? && stat.value.created.Done? && stat.value.modified.Done?
    ensures |r| == 7 ==> r[6] == Item("File_Extension", Str(ExtensionOf(path))) && LowerExtension(r[6].value.s)
    ensures DistinctKeys(r)
  {
    match stat
    case None => []
    case Some(st) =>
      var sized := [
        Item("File_Path", Str(absPath)),
        Item("File_Name", Str(Basename(path))),
        Item("File_Size_Bytes", Int(st.size)),
        Item("File_Size_MB", Str(host.fixed(2, st.size as real / 1048576.0)))];
      match st.created
      case Raised(_) => sized
      case Done(created) =>
        var dated := sized + [Item("File_Created", Str(created))];
        match st.modified
        case Raised(_) => dated
        case Done(modified) =>
          dated + [Item("File_Modified", Str(modified)), Item("File_Extension", Str(ExtensionOf(path)))]
  }

  // ------------------------------------------------------------------ technical specification

  /** The bit depth `_image_technical_specs` reports for a Pillow mode, if any. */
  function BitDepth(mode: string): (r: Option<string>)
    ensures r.Some? <==> mode in {"L", "P", "I", "F", "RGB", "RGBA"}
  {
    if mode == "L" || mode == "P" then Some("8")
    else if mode == "I" || mode == "F" then Some("32")
    else if mode == "RGB" then Some("24")
    else if mode == "RGBA" then Some("32")
    else None
  }

  /**
   `_image_technical_specs(path)`. A zero height makes the aspect ratio divide by zero and
   ends the pass after the five size fields; otherwise the ratio, the bands, the channel
   count and, for the modes of the table, the bit depth follow.
   */
  function TechnicalSpecs(host: Host, image: Option<PilImage>): (r: Record)
    ensures image.None? ==> r == []
    ensures image.Some? ==> (|r| >= 5
      && r[0] == Item("Technical_Format", if image.value.format.Some? then Str(image.value.format.value) else Null)
      && r[4] == Item("Technical_Height", Int(image.value.height)))
    ensures image.Some? && image.value.height == 0 ==> |r| == 5
    ensures image.Some? && image.value.height != 0 ==> (
      |r| == (if BitDepth(image.value.mode).Some? then 9 else 8)
      && r[7] == Item("Technical_Channels", Int(|image.value.bands|))
      && (|r| == 9 ==> r[8] == Item("Technical_Bit_Depth", Str(BitDepth(image.value.mode).value))))
    ensures DistinctKeys(r)
  {
    match image
    case None => []
    case Some(img) =>
      var sized := [
        Item("Technical_Format", if img.format.Some? then Str(img.format.value) else Null),
        Item("Technical_Mode", Str(img.mode)),
        Item("Technical_Size", Str(NatToString(img.width) + "x" + NatToString(img.height))),
        Item("Technical_Width", Int(img.width)),
        Item("Technical_Height", Int(img.height))];
      if img.height == 0 then sized
      else
        var described := sized + [
          Item("Technical_Aspect_Ratio", Str(host.fixed(4, img.width as real / img.height as real))),
          Item("Technical_Color_Bands", Str(TupleRepr(img.bands))),
          Item("Technical_Channels", Int(|img.bands|))];
        match BitDepth(img.mode)
        case None => described
        case Some(depth) => described + [Item("Technical_Bit_Depth", Str(depth))]
  }

  // ------------------------------------------------------------------ colour profile

  const IccFieldNames: seq<string> :=
    ["Color_ICC_Description", "Color_ICC_Manufacturer", "Color_ICC_Model", "Color_ICC_Copyright"]

  function IccReadings(p: IccProfile): seq<Attempt<string>> {
    [p.description, p.manufacturer, p.model, p.copyright]
  }

  /**
   The profile readings stored under their names in order; the first reading that raises
   is replaced by "Color_ICC_Error" and ends the list.
   */
  function IccFields(names: seq<string>, readings: seq<Attempt<string>>): (r: Record)
    requires |names| == |readings|
    ensures |r| == |readings| || (0 < |r| < |readings| && readings[|r| - 1].Raised?)
    ensures forall i :: 0 <= i < |r| - 1 ==> readings[i].Done? && r[i] == Item(names[i], Str(readings[i].value))
    ensures |r| > 0 ==> (
      || (readings[|r| - 1].Done? && r[|r| - 1] == Item(names[|r| - 1], Str(readings[|r| - 1].value)))
      || (readings[|r| - 1].Raised? && r[|r| - 1] == Item("Color_ICC_Error", Str("Profile parsing: " + readings[|r| - 1].msg))))
    decreases |readings|
  {
    if |readings| == 0 then []
    else match readings[0]
      case Raised(m) => [Item("Color_ICC_Error", Str("Profile parsing: " + m))]
      case Done(v) =>
        var rest := IccFields(names[1..], readings[1..]);
        [Item(names[0], Str(v))] + rest
  }

  /**
   `_color_analysis(path)`: whether the image has an ICC profile, and if so its size and
   readings.
   */
  function ColorAnalysis(image: Option<PilImage>): (r: Record)
    ensures image.None? ==> r == []
    ensures image.Some? && image.value.icc.None? ==> r == [Item("Color_ICC_Present", Str("NO"))]
    ensures image.Some? && image.value.icc.Some? ==>
      |r| >= 3 && r[..2] == [Item("Color_ICC_Present", Str("YES")), Item("Color_ICC_Size_Bytes", Int(image.value.icc.value.size))]
  {
    match image
    case None => []
    case Some(img) =>
      match img.icc
      case None => [Item("Color_ICC_Present", Str("NO"))]
      case Some(p) =>
        var readings := IccReadings(p);
        var fields := IccFields(IccFieldNames, readings);
        [Item("Color_ICC_Present", Str("YES")), Item("Color_ICC_Size_Bytes", Int(p.size))] + fields
  }

  // ------------------------------------------------------------------ XMP and IPTC

  const XmpOpen: seq<byte> := AsciiBytes("<x:xmpmeta")
  const XpacketOpen: seq<byte> := AsciiBytes("<xpacket")
  const XmpClose: seq<byte> := AsciiBytes("</x:xmpmeta>")
  const XpacketClose: seq<byte> := AsciiBytes("</xpacket>")
  const XmpWindow := 20000
  const IptcSampleSize := 4000

  /** Where the XMP packet starts: the first "<x:xmpmeta", else the first "<xpacket", else -1. */
  function XmpStart(raw: seq<byte>): (s: int)
    ensures s == -1 <==> !Contains(raw, XmpOpen) && !Contains(raw, XpacketOpen)
    ensures s >= 0 && Contains(raw, XmpOpen) ==>
      MatchAt(raw, XmpOpen, s) && forall j :: 0 <= j < s ==> !MatchAt(raw, XmpOpen, j)
    ensures s >= 0 && !Contains(raw, XmpOpen) ==>
      MatchAt(raw, XpacketOpen, s) && forall j :: 0 <= j < s ==> !MatchAt(raw, XpacketOpen, j)
  {
    FindAgreesWithContains(raw, XmpOpen);
    FindAgreesWithContains(raw, XpacketOpen);
    var first := FindFrom(raw, XmpOpen, 0);
    if first == -1 then FindFrom(raw, XpacketOpen, 0) else first
  }

  /**
   Where the XMP packet ends: 12 bytes past the first "</x:xmpmeta>" after the start, or
   failing that past the first "</xpacket>", or 20000 bytes after the start when there is no
   closing marker, clipped to the data. After "</x:xmpmeta>" the packet ends exactly with
   the marker; after the 10-byte "</xpacket>" it takes up to two bytes more.
   */
  function XmpEnd(raw: seq<byte>, start: nat): (e: nat)
    requires start <= |raw|
    ensures start <= e <= |raw|
    ensures (exists j :: start <= j && MatchAt(raw, XmpClose, j)) ==>
      start + 12 <= e && raw[e - 12..e] == XmpClose && forall j :: start <= j < e - 12 ==> !MatchAt(raw, XmpClose, j)
    ensures (forall j :: start <= j ==> !MatchAt(raw, XmpClose, j)) && (exists j :: start <= j && MatchAt(raw, XpacketClose, j)) ==>
      exists c :: start <= c && MatchAt(raw, XpacketClose, c)
        && (forall j :: start <= j < c ==> !MatchAt(raw, XpacketClose, j))
        && e == Min(|raw|, c + 12)
    ensures (forall j :: start <= j ==> !MatchAt(raw, XmpClose, j) && !MatchAt(raw, XpacketClose, j)) ==>
      e == Min(|raw|, start + XmpWindow)
  {
    var close := FindFrom(raw, XmpClose, start);
    if close != -1 then close + 12
    else
      var packetClose := FindFrom(raw, XpacketClose, start);
      if packetClose != -1 then Min(|raw|, packetClose + 12) else Min(|raw|, start + XmpWindow)
  }

  /** The XMP fields: the decoded packet and "XMP_Present", or "XMP_Present" = "NO" alone. */
  function XmpFields(host: Host, raw: seq<byte>): (r: Record)
    ensures |r| == 2 <==> Contains(raw, XmpOpen) || Contains(raw, XpacketOpen)
    ensures |r| == 2 ==> r == [
      Item("XMP_Raw", Str(host.decode(raw[XmpStart(raw)..XmpEnd(raw, XmpStart(raw))]))),
      Item("XMP_Present", Str("YES"))]
    ensures |r| != 2 ==> r == [Item("XMP_Present", Str("NO"))]
  {
    var start := XmpStart(raw);
    if start == -1 then [Item("XMP_Present", Str("NO"))]
    else [Item("XMP_Raw", Str(host.decode(raw[start..XmpEnd(raw, start)]))), Item("XMP_Present", Str("YES"))]
  }

  /** The IPTC fields: "IPTC_Present" and, when a marker occurs, a decoded sample of the first 4000 bytes. */
  function IptcFields(host: Host, raw: seq<byte>): (r: Record)
    ensures |r| == 2 <==> IptcMarked(raw)
    ensures |r| == 2 ==> r == [
      Item("IPTC_Present", Str("YES")),
      Item("IPTC_Sample", Str(host.decode(raw[..Min(IptcSampleSize, |raw|)])))]
    ensures |r| != 2 ==> r == [Item("IPTC_Present", Str("NO"))]
  {
    if IptcMarked(raw)
    then [Item("IPTC_Present", Str("YES")), Item("IPTC_Sample", Str(host.decode(raw[..Min(IptcSampleSize, |raw|)])))]
    else [Item("IPTC_Present", Str("NO"))]
  }

  /** `_xmp_iptc_data(path)` given the file's bytes, or `None` when they cannot be read. */
  function XmpIptc(host: Host, raw: Option<seq<byte>>): (r: Record)
    ensures raw.None? ==> r == []
    ensures raw.Some? ==> |r| >= 2 && (r[|r| - 1].key == "IPTC_Present" || r[|r| - 1].key == "IPTC_Sample")
    ensures DistinctKeys(r)
  {
    match raw
    case None => []
    case Some(b) => XmpFields(host, b) + IptcFields(host, b)
  }

  /** The data holds one of the IPTC markers "Photoshop 3.0", "IPTC" or "8BIM". */
  predicate IptcMarked(raw: seq<byte>) {
    Contains(raw, AsciiBytes("Photoshop 3.0")) || Contains(raw, AsciiBytes("IPTC")) || Contains(raw, AsciiBytes("8BIM"))
  }

  // ------------------------------------------------------------------ RAW formats

  const RawExtensions: set<string> := {".cr2", ".nef", ".arw", ".dng", ".orf", ".rw2"}

  /** The camera-RAW family named by a lower-case extension. */
  function RawFormatName(ext: string): (r: Option<string>)
    ensures r.Some? <==> ext in RawExtensions
  {
    if ext == ".cr2" then Some("Canon RAW")
    else if ext == ".nef" then Some("Nikon RAW")
    else if ext == ".arw" then Some("Sony RAW")
    else if ext == ".dng" then Some("Digital Negative")
    else if ext == ".orf" then Some("Olympus RAW")
    else if ext == ".rw2" then Some("Panasonic RAW")
    else None
  }

  /** `_raw_specific_data(path)`: "RAW_File" says whether the extension is a RAW one, after the format name when it is. */
  function RawSpecific(path: string): (r: Record)
    ensures 1 <= |r| <= 2 && r[|r| - 1].key == "RAW_File"
    ensures r[|r| - 1].value == Str("YES") <==> ExtensionOf(path) in RawExtensions
    ensures r[|r| - 1].value == Str("NO") <==> ExtensionOf(path) !in RawExtensions
    ensures |r| == 2 <==> ExtensionOf(path) in RawExtensions
    ensures |r| == 2 ==> r[0] == Item("RAW_Format", Str(RawFormatName(ExtensionOf(path)).value))
    ensures DistinctKeys(r)
  {
    match RawFormatName(ExtensionOf(path))
    case Some(name) => [Item("RAW_Format", Str(name)), Item("RAW_File", Str("YES"))]
    case None => [Item("RAW_File", Str("NO"))]
  }

  /** A file whose extension is a RAW one in any letter case is reported as a RAW file of that family. */
  lemma RawDetected(stem: string, ext: string)
    requires stem != [] && stem[|stem| - 1] != '.' && stem[|stem| - 1] != '/'
    requires '.' !in ext && '/' !in ext
    requires "." + Lower(ext) in RawExtensions
    ensures RawSpecific(stem + "." + ext)
      == [Item("RAW_Format", Str(RawFormatName("." + Lower(ext)).value)), Item("RAW_File", Str("YES"))]
  {
    ExtensionOfName(stem, ext);
  }
}
