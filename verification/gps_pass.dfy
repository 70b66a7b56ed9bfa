/**
 The extractor's GPS pass (`_detailed_gps`): every exifread tag whose name mentions "GPS"
 is echoed under "GPS_RAW_"; when there is at least one, the pass adds "GPS_Presence", the
 coordinates in several renderings when both latitude and longitude are tagged, and the
 friendly names of seven further GPS tags.
 */
module GpsPass {
  import opened Wrappers
  import opened Text
  import opened Dicts
  import opened Records
  import opened Readers
  import opened Gps

  predicate IsGpsTag(tag: string) {
    Contains(tag, "GPS")
  }

  function IsGpsItem(t: Item<TagReading>): bool {
    IsGpsTag(t.key)
  }

  /** `metadata[f"GPS_RAW_{tag}"] = str(value)` for a GPS tag. */
  function RawField(t: Item<TagReading>): Option<Item<Value>> {
    if IsGpsTag(t.key) then Some(Item("GPS_RAW_" + t.key, Str(t.value.shown))) else None
  }

  /** The `gps_data` dictionary: the GPS tags in the listing's order. */
  function GpsData(ts: Dict<TagReading>): Dict<TagReading> {
    Emit([], ts, Keeping(IsGpsItem))
  }

  /** A GPS tag reads the same in `gps_data` as in the whole listing. */
  lemma GpsDataGet(ts: Dict<TagReading>, k: string)
    requires DistinctKeys(ts) && IsGpsTag(k)
    ensures Get(GpsData(ts), k) == Get(ts, k)
  {
    var step := Keeping(IsGpsItem);
    var i := IndexOf(ts, k);
    if i >= 0 {
      KeepingStep(IsGpsItem, ts[i]);
      forall j | 0 <= j < |ts| && j != i && step(ts[j]).Some?
        ensures step(ts[j]).value.key != k
      {
        KeepingStep(IsGpsItem, ts[j]);
      }
      LastAssignedOnly(ts, step, i, k, ts[i].value);
      EmitGet([], ts, step, k);
    } else {
      forall j | 0 <= j < |ts| && step(ts[j]).Some?
        ensures step(ts[j]).value.key != k
      {
        KeepingStep(IsGpsItem, ts[j]);
        assert KeysOf(ts)[j] == ts[j].key;
      }
      EmitUnassigned([], ts, step, k);
    }
  }

  /** Some tag's name mentions "GPS". */
  predicate HasGpsTag(ts: Dict<TagReading>) {
    exists i :: 0 <= i < |ts| && IsGpsTag(ts[i].key)
  }

  /** `gps_data` is empty exactly when no tag mentions "GPS". */
  lemma GpsDataEmpty(ts: Dict<TagReading>)
    ensures GpsData(ts) == [] <==> !HasGpsTag(ts)
  {
    var step := Keeping(IsGpsItem);
    if !HasGpsTag(ts) {
      forall i | 0 <= i < |ts|
        ensures step(ts[i]).None?
      {
        KeepingStep(IsGpsItem, ts[i]);
      }
      EmitNothing([], ts, step);
    } else {
      var i :| 0 <= i < |ts| && IsGpsTag(ts[i].key);
      KeepingStep(IsGpsItem, ts[i]);
      EmitAssignedPresent([], ts, step, i, ts[i].key);
    }
  }

  // ------------------------------------------------------------------ coordinates

  /**
   A coordinate from its angle tag and optional reference tag: the converted angle,
   negated when the upper-cased reference is the given hemisphere letter.
   */
  function Angle(angle: TagReading, ref: Option<TagReading>, negative: string): (r: real)
    ensures ref.Some? && Upper(ref.value.shown) == negative ==> r == -ConvertGpsCoord(angle.numbers)
    ensures (ref.None? || Upper(ref.value.shown) != negative) ==> r == ConvertGpsCoord(angle.numbers)
  {
    var a := ConvertGpsCoord(angle.numbers);
    match ref
    case Some(t) => if Upper(t.shown) == negative then -a else a
    case None => a
  }

  /** The readings of the coordinate block, before rendering. */
  datatype Fix = Fix(lat: real, lon: real, latRef: Option<string>, lonRef: Option<string>)

  /** `str(tag).upper()` of a reference tag, when it is present. */
  function Reference(gps: Dict<TagReading>, tag: string): Option<string> {
    match Get(gps, tag)
    case Some(t) => Some(Upper(t.shown))
    case None => None
  }

  /** The coordinate block's readings; `None` unless both latitude and longitude are tagged. */
  function ReadFix(gps: Dict<TagReading>): (r: Option<Fix>)
    ensures r.Some? <==> "GPS GPSLatitude" in KeysOf(gps) && "GPS GPSLongitude" in KeysOf(gps)
  {
    match Get(gps, "GPS GPSLatitude")
    case None => None
    case Some(la) =>
      match Get(gps, "GPS GPSLongitude")
      case None => None
      case Some(lo) =>
        Some(Fix(Angle(la, Get(gps, "GPS GPSLatitudeRef"), "S"), Angle(lo, Get(gps, "GPS GPSLongitudeRef"), "W"),
          Reference(gps, "GPS GPSLatitudeRef"), Reference(gps, "GPS GPSLongitudeRef")))
  }

  // ------------------------------------------------------------------ the fields after the echo

  /**
   The fields the pass assigns once `gps_data` is non-empty, in the order it assigns them:
   the presence flag, the coordinate block, then `gps_mapping`'s friendly names (each
   `"GPS_" + friendly_name`).
   */
  const FieldNames: seq<string> := [
    "GPS_Presence", "GPS_Lat_Ref", "GPS_Lon_Ref", "GPS_Latitude_Decimal", "GPS_Longitude_Decimal",
    "GPS_Coordinates", "GPS_Google_Maps", "GPS_OpenStreetMap", "GPS_Latitude_DMS", "GPS_Longitude_DMS",
    "GPS_Altitude", "GPS_TimeStamp", "GPS_Date", "GPS_ProcessingMethod", "GPS_Speed", "GPS_Track",
    "GPS_ImageDirection"]

  /** The tags of `gps_mapping`, in its order; the field of `FriendlyTags[i]` is `FieldNames[10 + i]`. */
  const FriendlyTags: seq<string> := [
    "GPS GPSAltitude", "GPS GPSTimeStamp", "GPS GPSDate", "GPS GPSProcessingMethod", "GPS GPSSpeed",
    "GPS GPSTrack", "GPS GPSImgDirection"]

  lemma FieldNamesDistinct(i: nat, j: nat)
    requires i < j < |FieldNames|
    ensures FieldNames[i] != FieldNames[j]
  {
  }

  /** Every field is under "GPS_" and none is an echo under "GPS_RAW_". */
  lemma FieldNamesShape(i: nat)
    requires i < |FieldNames|
    ensures StartsWith(FieldNames[i], "GPS_") && FieldNames[i][4] != 'R'
  {
  }

  /** Every tag the friendly names read mentions "GPS". */
  lemma FriendlyTagsAreGps(i: nat)
    requires i < |FriendlyTags|
    ensures IsGpsTag(FriendlyTags[i])
  {
    assert MatchAt(FriendlyTags[i], "GPS", 0);
  }

  /** The value the pass gives field `n`, or `None` when it does not assign it. */
  function FieldValue(host: Host, gps: Dict<TagReading>, n: nat): Option<string>
    requires n < |FieldNames|
  {
    if n == 0 then Some("YES")
    else if n < 10 then
      match ReadFix(gps)
      case None => None
      case Some(f) => CoordinateValue(host, f, n)
    else
      match Get(gps, FriendlyTags[n - 10])
      case Some(t) => Some(t.shown)
      case None => None
  }

  /** The coordinate block's field `n` (1 to 9) for a fix. */
  function CoordinateValue(host: Host, f: Fix, n: nat): Option<string>
    requires 1 <= n < 10
  {
    if n == 1 then f.latRef
    else if n == 2 then f.lonRef
    else if n == 3 then Some(host.fixed(8, f.lat))
    else if n == 4 then Some(host.fixed(8, f.lon))
    else if n == 5 then Some(host.fixed(6, f.lat) + ", " + host.fixed(6, f.lon))
    else if n == 6 then Some("https://maps.google.com/?q=" + host.repr(f.lat) + "," + host.repr(f.lon))
    else if n == 7 then Some("https://www.openstreetmap.org/?mlat=" + host.repr(f.lat) + "&mlon=" + host.repr(f.lon))
    else if n == 8 then Some(DmsText(host, DecimalToDms(f.lat, true)))
    else Some(DmsText(host, DecimalToDms(f.lon, false)))
  }

  function FieldValues(host: Host, gps: Dict<TagReading>): nat -> Option<string> {
    (n: nat) => if n < |FieldNames| then FieldValue(host, gps, n) else None
  }

  /** The echo of the GPS tags, followed by the fields once there is a GPS tag. */
  function GpsRecord(host: Host, ts: Dict<TagReading>): Record {
    var raw := Emit([], ts, RawField);
    var gps := GpsData(ts);
    if gps == [] then raw else Emit(raw, Range(|FieldNames|), Assigning(FieldNames, FieldValues(host, gps)))
  }

  /**
   `_detailed_gps(path)` given exifread's tags, or `None` when the file cannot be read.
   Without a GPS tag the pass reports nothing.
   */
  function DetailedGps(host: Host, tags: Option<Dict<TagReading>>): (r: Record)
    ensures tags.None? ==> r == []
    ensures tags.Some? && (forall i :: 0 <= i < |tags.value| ==> !IsGpsTag(tags.value[i].key)) ==> r == []
    ensures AllPrefixed(r, "GPS_")
    ensures DistinctKeys(r)
  {
    match tags
    case None => []
    case Some(ts) =>
      GpsRecordShape(host, ts);
      GpsRecord(host, ts)
  }

  lemma GpsRecordShape(host: Host, ts: Dict<TagReading>)
    ensures !HasGpsTag(ts) ==> GpsRecord(host, ts) == []
    ensures AllPrefixed(GpsRecord(host, ts), "GPS_") && DistinctKeys(GpsRecord(host, ts))
  {
    var raw := Emit([], ts, RawField);
    forall i | 0 <= i < |ts| && RawField(ts[i]).Some?
      ensures StartsWith(RawField(ts[i]).value.key, "GPS_")
    {
      PrefixStarts("GPS_", "RAW_" + ts[i].key);
    }
    EmitPrefixed([], ts, RawField, "GPS_");
    EmitDistinct([], ts, RawField);
    GpsDataEmpty(ts);
    if !HasGpsTag(ts) {
      EmitNothing([], ts, RawField);
    }
    forall i | 0 <= i < |FieldNames|
      ensures StartsWith(FieldNames[i], "GPS_")
    {
      FieldNamesShape(i);
    }
    AssigningShape(raw, FieldNames, FieldValues(host, GpsData(ts)), "GPS_");
  }

  // ------------------------------------------------------------------ what the pass reports

  /** No raw echo is one of the later fields. */
  lemma RawNotField(ts: Dict<TagReading>, n: nat)
    requires n < |FieldNames|
    ensures FieldNames[n] !in KeysOf(Emit([], ts, RawField))
  {
    FieldNamesShape(n);
    forall i | 0 <= i < |ts| && RawField(ts[i]).Some?
      ensures RawField(ts[i]).value.key != FieldNames[n]
    {
      assert RawField(ts[i]).value.key[4] == 'R';
    }
    EmitUnassigned([], ts, RawField, FieldNames[n]);
  }

  /**
   Field `n` reads as the pass assigns it when some tag mentions "GPS", and is absent
   otherwise.
   */
  lemma FieldGet(host: Host, ts: Dict<TagReading>, n: nat)
    requires n < |FieldNames|
    ensures Get(DetailedGps(host, Some(ts)), FieldNames[n]) ==
      if HasGpsTag(ts) && FieldValue(host, GpsData(ts), n).Some?
      then Some(Str(FieldValue(host, GpsData(ts), n).value))
      else None
  {
    var raw := Emit([], ts, RawField);
    RawNotField(ts, n);
    GpsDataEmpty(ts);
    forall i | 0 <= i < |FieldNames| && i != n
      ensures FieldNames[i] != FieldNames[n]
    {
      if i < n { FieldNamesDistinct(i, n); } else { FieldNamesDistinct(n, i); }
    }
    AssigningGet(raw, FieldNames, FieldValues(host, GpsData(ts)), n);
  }

  /** "GPS_Presence" is "YES" exactly when some tag mentions "GPS", and absent otherwise. */
  lemma GpsPresence(host: Host, ts: Dict<TagReading>)
    ensures Get(DetailedGps(host, Some(ts)), "GPS_Presence") ==
      if HasGpsTag(ts) then Some(Str("YES")) else None
  {
    PresenceGet(host, ts);
  }

  /** The echo of the GPS tags holds each one's text, and nothing for another tag. */
  lemma RawEchoGet(ts: Dict<TagReading>, i: nat)
    requires DistinctKeys(ts) && i < |ts|
    ensures Get(Emit([], ts, RawField), "GPS_RAW_" + ts[i].key) ==
      if IsGpsTag(ts[i].key) then Some(Str(ts[i].value.shown)) else None
  {
    var k := "GPS_RAW_" + ts[i].key;
    forall j | 0 <= j < |ts| && j != i && RawField(ts[j]).Some?
      ensures RawField(ts[j]).value.key != k
    {
      if RawField(ts[j]).value.key == k {
        PrefixInjective("GPS_RAW_", ts[j].key, ts[i].key);
      }
    }
    if IsGpsTag(ts[i].key) {
      LastAssignedOnly(ts, RawField, i, k, Str(ts[i].value.shown));
    } else {
      LastAssignedSome(ts, RawField, k);
    }
    EmitGet([], ts, RawField, k);
  }

  /** No field is under "GPS_RAW_". */
  lemma RawKeyNotField(k: string)
    requires StartsWith(k, "GPS_RAW_")
    ensures k !in FieldNames
  {
    forall n | 0 <= n < |FieldNames|
      ensures FieldNames[n] != k
    {
      FieldNamesShape(n);
      assert k[4] == 'R';
    }
  }

  /** The fields after the echo never touch a key under "GPS_RAW_". */
  lemma RawKeyKept(host: Host, ts: Dict<TagReading>, k: string)
    requires StartsWith(k, "GPS_RAW_")
    ensures Get(DetailedGps(host, Some(ts)), k) == Get(Emit([], ts, RawField), k)
  {
    GpsDataEmpty(ts);
    if HasGpsTag(ts) {
      RawKeyNotField(k);
      AssigningUnassigned(Emit([], ts, RawField), FieldNames, FieldValues(host, GpsData(ts)), k);
    }
  }

  /** Every tag is echoed under "GPS_RAW_" with its text exactly when it mentions "GPS". */
  lemma GpsRawEcho(host: Host, ts: Dict<TagReading>, i: nat)
    requires DistinctKeys(ts) && i < |ts|
    ensures Get(DetailedGps(host, Some(ts)), "GPS_RAW_" + ts[i].key) ==
      if IsGpsTag(ts[i].key) then Some(Str(ts[i].value.shown)) else None
  {
    PrefixStarts("GPS_RAW_", ts[i].key);
    RawKeyKept(host, ts, "GPS_RAW_" + ts[i].key);
    RawEchoGet(ts, i);
  }

  /**
   The reference reading of a coordinate from the whole listing: the angle tag read with
   its reference tag.
   */
  function Coordinate(ts: Dict<TagReading>, tag: string, refTag: string, negative: string): real
    requires tag in KeysOf(ts)
  {
    Angle(Get(ts, tag).value, Get(ts, refTag), negative)
  }

  /** The fix `gps_data` yields agrees with the reference reading of the whole listing. */
  lemma ReadFixAgrees(ts: Dict<TagReading>)
    requires DistinctKeys(ts)
    requires "GPS GPSLatitude" in KeysOf(ts) && "GPS GPSLongitude" in KeysOf(ts)
    ensures ReadFix(GpsData(ts)).Some?
    ensures ReadFix(GpsData(ts)).value.lat == Coordinate(ts, "GPS GPSLatitude", "GPS GPSLatitudeRef", "S")
    ensures ReadFix(GpsData(ts)).value.lon == Coordinate(ts, "GPS GPSLongitude", "GPS GPSLongitudeRef", "W")
    ensures ReadFix(GpsData(ts)).value.latRef == Reference(ts, "GPS GPSLatitudeRef")
  {
    GpsTagsAreGps();
    GpsDataGet(ts, "GPS GPSLatitude");
    GpsDataGet(ts, "GPS GPSLongitude");
    GpsDataGet(ts, "GPS GPSLatitudeRef");
    GpsDataGet(ts, "GPS GPSLongitudeRef");
  }

  lemma GpsTagsAreGps()
    ensures IsGpsTag("GPS GPSLatitude") && IsGpsTag("GPS GPSLongitude")
    ensures IsGpsTag("GPS GPSLatitudeRef") && IsGpsTag("GPS GPSLongitudeRef")
  {
    assert MatchAt("GPS GPSLatitude", "GPS", 0);
    assert MatchAt("GPS GPSLongitude", "GPS", 0);
    assert MatchAt("GPS GPSLatitudeRef", "GPS", 0);
    assert MatchAt("GPS GPSLongitudeRef", "GPS", 0);
  }

  /**
   "GPS_Coordinates" is reported exactly when both latitude and longitude are tagged, as
   the two signed coordinates to six places.
   */
  lemma GpsCoordinates(host: Host, ts: Dict<TagReading>)
    requires DistinctKeys(ts)
    ensures "GPS_Coordinates" in KeysOf(DetailedGps(host, Some(ts))) <==>
      "GPS GPSLatitude" in KeysOf(ts) && "GPS GPSLongitude" in KeysOf(ts)
    ensures "GPS GPSLatitude" in KeysOf(ts) && "GPS GPSLongitude" in KeysOf(ts) ==>
      Get(DetailedGps(host, Some(ts)), "GPS_Coordinates") == Some(Str(
        host.fixed(6, Coordinate(ts, "GPS GPSLatitude", "GPS GPSLatitudeRef", "S")) + ", " +
        host.fixed(6, Coordinate(ts, "GPS GPSLongitude", "GPS GPSLongitudeRef", "W"))))
  {
    var gps := GpsData(ts);
    var got := Get(DetailedGps(host, Some(ts)), "GPS_Coordinates");
    CoordinatesGet(host, ts);
    CoordinatesValue(host, gps);
    FixPresence(ts);
    if "GPS GPSLatitude" in KeysOf(ts) && "GPS GPSLongitude" in KeysOf(ts) {
      ReadFixAgrees(ts);
      var f := ReadFix(gps).value;
      assert got == Some(Str(host.fixed(6, f.lat) + ", " + host.fixed(6, f.lon)));
    } else {
      assert got == None;
    }
  }

  lemma PresenceGet(host: Host, ts: Dict<TagReading>)
    ensures Get(DetailedGps(host, Some(ts)), "GPS_Presence") ==
      if HasGpsTag(ts) && FieldValue(host, GpsData(ts), 0).Some? then Some(Str(FieldValue(host, GpsData(ts), 0).value)) else None
  {
    FieldGet(host, ts, 0);
    assert FieldNames[0] == "GPS_Presence";
  }

  lemma CoordinatesGet(host: Host, ts: Dict<TagReading>)
    ensures Get(DetailedGps(host, Some(ts)), "GPS_Coordinates") ==
      if HasGpsTag(ts) && FieldValue(host, GpsData(ts), 5).Some? then Some(Str(FieldValue(host, GpsData(ts), 5).value)) else None
  {
    FieldGet(host, ts, 5);
    assert FieldNames[5] == "GPS_Coordinates";
  }

  lemma LatitudeDmsGet(host: Host, ts: Dict<TagReading>)
    ensures Get(DetailedGps(host, Some(ts)), "GPS_Latitude_DMS") ==
      if HasGpsTag(ts) && FieldValue(host, GpsData(ts), 8).Some? then Some(Str(FieldValue(host, GpsData(ts), 8).value)) else None
  {
    FieldGet(host, ts, 8);
    assert FieldNames[8] == "GPS_Latitude_DMS";
  }

  lemma CoordinatesValue(host: Host, gps: Dict<TagReading>)
    ensures FieldValue(host, gps, 5) ==
      match ReadFix(gps)
      case Some(f) => Some(host.fixed(6, f.lat) + ", " + host.fixed(6, f.lon))
      case None => None
  {
  }

  lemma LatitudeDmsValue(host: Host, gps: Dict<TagReading>)
    ensures FieldValue(host, gps, 8) ==
      match ReadFix(gps)
      case Some(f) => Some(DmsText(host, DecimalToDms(f.lat, true)))
      case None => None
  {
  }

  /** The coordinate block runs exactly when both angles are tagged, and then there is a GPS tag. */
  lemma FixPresence(ts: Dict<TagReading>)
    requires DistinctKeys(ts)
    ensures ReadFix(GpsData(ts)).Some? <==> "GPS GPSLatitude" in KeysOf(ts) && "GPS GPSLongitude" in KeysOf(ts)
    ensures "GPS GPSLatitude" in KeysOf(ts) ==> HasGpsTag(ts)
  {
    GpsTagsAreGps();
    GpsDataGet(ts, "GPS GPSLatitude");
    GpsDataGet(ts, "GPS GPSLongitude");
    if "GPS GPSLatitude" in KeysOf(ts) {
      var i := IndexOf(ts, "GPS GPSLatitude");
      assert IsGpsTag(ts[i].key);
    }
  }

  /**
   On a positive latitude angle, the DMS rendering ends in 'S' exactly when the latitude
   reference reads "S" once upper-cased, and in 'N' otherwise.
   */
  lemma SouthernLatitude(host: Host, ts: Dict<TagReading>)
    requires DistinctKeys(ts)
    requires "GPS GPSLatitude" in KeysOf(ts) && "GPS GPSLongitude" in KeysOf(ts)
    requires ConvertGpsCoord(Get(ts, "GPS GPSLatitude").value.numbers) > 0.0
    ensures Get(DetailedGps(host, Some(ts)), "GPS_Latitude_DMS").Some?
    ensures var t := Get(DetailedGps(host, Some(ts)), "GPS_Latitude_DMS").value;
      t.Str? && |t.s| > 0 &&
      (t.s[|t.s| - 1] == 'S' <==> Reference(ts, "GPS GPSLatitudeRef") == Some("S"))
  {
    var gps := GpsData(ts);
    LatitudeDmsGet(host, ts);
    LatitudeDmsValue(host, gps);
    FixPresence(ts);
    ReadFixAgrees(ts);
    var f := ReadFix(gps).value;
    LatitudeDmsEnds(host, f.lat);
  }

  /** A latitude's DMS rendering ends in 'S' exactly when the latitude is negative. */
  lemma LatitudeDmsEnds(host: Host, lat: real)
    ensures var t := DmsText(host, DecimalToDms(lat, true)); |t| > 0 && (t[|t| - 1] == 'S' <==> lat < 0.0)
  {
  }

  /** Each friendly field copies its tag's text exactly when the tag is present. */
  lemma GpsFriendly(host: Host, ts: Dict<TagReading>, j: nat)
    requires DistinctKeys(ts) && j < |FriendlyTags|
    ensures Get(DetailedGps(host, Some(ts)), FieldNames[10 + j]) ==
      match Get(ts, FriendlyTags[j])
      case Some(t) => Some(Str(t.shown))
      case None => None
  {
    var tag := FriendlyTags[j];
    FieldGet(host, ts, 10 + j);
    FriendlyTagsAreGps(j);
    GpsDataGet(ts, tag);
    if tag in KeysOf(ts) {
      var i := IndexOf(ts, tag);
      assert IsGpsTag(ts[i].key);
    }
  }
}
