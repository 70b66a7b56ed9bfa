/**
 The location side of `OSINTEnhancer`: `_gps_osint_analysis`, `_analyze_location_type`,
 `_coord_to_3words` and `_create_osm_map`. The geocoders and the map writer are services
 given to the model as functions of the coordinates.
 */
module OsintLocation {
  import opened Wrappers
  import opened Text
  import opened Dicts
  import opened Records
  import PosixPath
  import opened Coordinates

  /** A Nominatim answer: the `address` mapping of its raw reply (empty when absent) and `location.address`. */
  datatype Location = Location(address: Dict<string>, fullAddress: string)

  /**
   What the enhancer reaches outside the record: Nominatim's `reverse` as
   `_gps_osint_analysis` calls it (with `language='en'`) and as `_analyze_location_type`
   calls it, `reverse_geocoder.search`, the temporary directory, and whether folium manages
   to write the map file.
   */
  datatype Services = Services(
    reverse: (real, real) -> Attempt<Option<Location>>,
    reverseForType: (real, real) -> Attempt<Option<Location>>,
    search: (real, real) -> Attempt<seq<Dict<string>>>,
    tempDir: string,
    mapWritten: bool)

  /** `d.get(k, default)`. */
  function Lookup(d: Dict<string>, k: string, default: string): string {
    Get(d, k).GetOr(default)
  }

  /** `s[:n]`. */
  function Prefix(s: string, n: nat): (r: string)
    ensures |r| == if |s| < n then |s| else n
    ensures r <= s
  {
    if |s| <= n then s else s[..n]
  }

  // ------------------------------------------------------------------ reverse geocoding

  /** `address.get('city', address.get('town', 'Unknown'))`: a city, else a town. */
  function City(address: Dict<string>): (r: string)
    ensures "city" in KeysOf(address) ==> r == Get(address, "city").value
    ensures "city" !in KeysOf(address) && "town" in KeysOf(address) ==> r == Get(address, "town").value
    ensures "city" !in KeysOf(address) && "town" !in KeysOf(address) ==> r == "Unknown"
  {
    Lookup(address, "city", Lookup(address, "town", "Unknown"))
  }

  /** The address fields of a Nominatim answer; none when it found nothing. */
  function AddressFields(found: Option<Location>): (r: Record)
    ensures found.None? <==> r == []
    ensures AllPrefixed(r, Osint)
  {
    match found
    case None => []
    case Some(loc) =>
      var a := loc.address;
      Namespaced(Osint, [
        ("Country", Str(Lookup(a, "country", "Unknown"))),
        ("Country_Code", Str(Lookup(a, "country_code", "Unknown"))),
        ("State", Str(Lookup(a, "state", "Unknown"))),
        ("City", Str(City(a))),
        ("Postcode", Str(Lookup(a, "postcode", "Unknown"))),
        ("Road", Str(Lookup(a, "road", "Unknown"))),
        ("Full_Address", Str(loc.fullAddress))])
  }

  /** The fields of the offline gazetteer's first result; none when it raised or found nothing. */
  function PlaceFields(found: Attempt<seq<Dict<string>>>): (r: Record)
    ensures (found.Raised? || found == Done([])) <==> r == []
    ensures AllPrefixed(r, Osint)
  {
    match found
    case Raised(_) => []
    case Done(results) =>
      if results == [] then []
      else
        var p := results[0];
        Namespaced(Osint, [
          ("RG_Country", Str(Lookup(p, "cc", "Unknown"))),
          ("RG_City", Str(Lookup(p, "name", "Unknown"))),
          ("RG_Admin1", Str(Lookup(p, "admin1", "Unknown"))),
          ("RG_Admin2", Str(Lookup(p, "admin2", "Unknown")))])
  }

  // ------------------------------------------------------------------ links

  /** The MD5 hex digest of `f"{lat}{lon}"`. */
  function CoordinateDigest(host: Host, lat: real, lon: real): string {
    host.md5(host.encode(host.repr(lat) + host.repr(lon)))
  }

  /** `_coord_to_3words(lat, lon)`: a placeholder built from the first 8 digest characters. */
  function Words(host: Host, lat: real, lon: real): (r: string)
    ensures 11 <= |r| <= 19 && r[..11] == "demo.words."
  {
    "demo.words." + Prefix(CoordinateDigest(host, lat, lon), 8)
  }

  /** The five map links, all at zoom 17; Yandex takes the longitude first. */
  function MapLinks(host: Host, lat: real, lon: real): (r: Record)
    ensures |r| == 5 && AllPrefixed(r, Osint)
  {
    var la := host.repr(lat);
    var lo := host.repr(lon);
    Namespaced(Osint, [
      ("Google_Maps", Str("https://maps.google.com/?q=" + la + "," + lo + "&z=17")),
      ("OpenStreetMap", Str("https://www.openstreetmap.org/?mlat=" + la + "&mlon=" + lo + "&zoom=17")),
      ("Bing_Maps", Str("https://bing.com/maps/default.aspx?cp=" + la + "~" + lo + "&lvl=17")),
      ("Yandex_Maps", Str("https://yandex.ru/maps/?pt=" + lo + "," + la + "&z=17")),
      ("What3Words", Str("https://what3words.com///" + Words(host, lat, lon)))])
  }

  /**
   `text in str(metadata)` for text without quotes, backslashes or separators: such text
   occurs in the rendering of the record exactly when it occurs in a key or in a value's text.
   */
  predicate ShowsText(metadata: Record, text: string) {
    exists i | 0 <= i < |metadata| :: Contains(metadata[i].key, text) || Contains(Show(metadata[i].value), text)
  }

  // ------------------------------------------------------------------ kind of place

  /** The address markers `_analyze_location_type` tests, in order, with the kind each names. */
  const PlaceKinds: seq<(string, string)> := [
    ("aeroway", "Airport/Transport"),
    ("tourism", "Tourist location"),
    ("historic", "Historic site"),
    ("leisure", "Leisure area"),
    ("waterway", "Water area")]

  /** `address.get(marker)` is truthy. */
  predicate Marked(address: Dict<string>, marker: string) {
    Get(address, marker).Some? && Get(address, marker).value != ""
  }

  /** The kind of the first marker of `kinds` present, from position `from` of the table on. */
  function KindFrom(address: Dict<string>, kinds: seq<(string, string)>, from: nat): (r: string)
    requires from <= |kinds|
    decreases |kinds| - from
  {
    if from == |kinds| then "Urban/Residential"
    else if Marked(address, kinds[from].0) then kinds[from].1
    else KindFrom(address, kinds, from + 1)
  }

  /** The kind is that of the first marker in the table the address carries. */
  lemma {:induction false} KindFirstMarker(address: Dict<string>, kinds: seq<(string, string)>, from: nat, i: nat)
    requires from <= i < |kinds| && Marked(address, kinds[i].0)
    requires forall j :: from <= j < i ==> !Marked(address, kinds[j].0)
    ensures KindFrom(address, kinds, from) == kinds[i].1
    decreases i - from
  {
    if from < i {
      KindFirstMarker(address, kinds, from + 1, i);
    }
  }

  /** An address that carries none of the markers is "Urban/Residential". */
  lemma {:induction false} KindUnmarked(address: Dict<string>, kinds: seq<(string, string)>, from: nat)
    requires from <= |kinds|
    requires forall j :: from <= j < |kinds| ==> !Marked(address, kinds[j].0)
    ensures KindFrom(address, kinds, from) == "Urban/Residential"
    decreases |kinds| - from
  {
    if from < |kinds| {
      KindUnmarked(address, kinds, from + 1);
    }
  }

  /**
   `_analyze_location_type(lat, lon)`: "Unknown" when the geocoder raises, `None` when it
   finds nothing (the function then falls off its end), otherwise the kind of place.
   */
  function LocationType(answer: Attempt<Option<Location>>): (v: Value)
    ensures answer.Raised? ==> v == Str("Unknown")
    ensures answer == Done(None) ==> v == Null
    ensures answer.Done? && answer.value.Some? ==> v == Str(KindFrom(answer.value.value.address, PlaceKinds, 0))
  {
    match answer
    case Raised(_) => Str("Unknown")
    case Done(None) => Null
    case Done(Some(loc)) => Str(KindFrom(loc.address, PlaceKinds, 0))
  }

  /** An answered lookup names the kind of the first marker the address carries. */
  lemma LocationTypeMarked(loc: Location, i: nat)
    requires i < |PlaceKinds| && Marked(loc.address, PlaceKinds[i].0)
    requires forall j :: 0 <= j < i ==> !Marked(loc.address, PlaceKinds[j].0)
    ensures LocationType(Done(Some(loc))) == Str(PlaceKinds[i].1)
  {
    KindFirstMarker(loc.address, PlaceKinds, 0, i);
  }

  /** An answered lookup whose address carries no marker is residential. */
  lemma LocationTypeResidential(loc: Location)
    requires forall j :: 0 <= j < |PlaceKinds| ==> !Marked(loc.address, PlaceKinds[j].0)
    ensures LocationType(Done(Some(loc))) == Str("Urban/Residential")
  {
    KindUnmarked(loc.address, PlaceKinds, 0);
  }

  // ------------------------------------------------------------------ the analysis

  /** "OSINT_Coordinates": both components with six decimals. */
  function CoordinatesField(host: Host, lat: real, lon: real): Record {
    Namespaced(Osint, [("Coordinates", Str(host.fixed(6, lat) + ", " + host.fixed(6, lon)))])
  }

  /** "OSINT_Location_Type": the kind of place, from the second reverse lookup. */
  function KindField(sv: Services, lat: real, lon: real): Record {
    Namespaced(Osint, [("Location_Type", LocationType(sv.reverseForType(lat, lon)))])
  }

  /** "OSINT_Altitude_Analysis" when the record mentions a GPS altitude. */
  function AltitudeField(metadata: Record): (r: Record)
    ensures r != [] <==> ShowsText(metadata, "GPS GPSAltitude")
    ensures AllPrefixed(r, Osint)
  {
    if ShowsText(metadata, "GPS GPSAltitude")
    then Namespaced(Osint, [("Altitude_Analysis", Str("Altitude data available"))])
    else []
  }

  /** What follows the coordinates once the first reverse lookup has answered. */
  function Findings(host: Host, sv: Services, metadata: Record, lat: real, lon: real, found: Option<Location>): (r: Record)
    ensures AllPrefixed(r, Osint)
    ensures |r| >= 6 && r[|r| - 1..] == KindField(sv, lat, lon)
  {
    var a := AddressFields(found);
    var p := PlaceFields(sv.search(lat, lon));
    var m := MapLinks(host, lat, lon);
    var h := AltitudeField(metadata);
    var k := KindField(sv, lat, lon);
    PrefixedConcat(a, p, Osint);
    PrefixedConcat(a + p, m, Osint);
    PrefixedConcat(a + p + m, h, Osint);
    PrefixedConcat(a + p + m + h, k, Osint);
    a + p + m + h + k
  }

  /**
   `_gps_osint_analysis(metadata)`: nothing without coordinates; otherwise the coordinates
   and, unless the first reverse lookup raises (which abandons the rest and records the
   error), the address, gazetteer, link, altitude and place-kind fields.
   */
  function GpsOsint(host: Host, sv: Services, metadata: Record): (r: Record)
    ensures ExtractCoordinates(host, metadata).None? <==> r == []
    ensures AllPrefixed(r, Osint)
  {
    match ExtractCoordinates(host, metadata)
    case None => []
    case Some((lat, lon)) =>
      var head := CoordinatesField(host, lat, lon);
      var rest := match sv.reverse(lat, lon)
        case Raised(m) => Namespaced(Osint, [("GPS_Error", Str(m))])
        case Done(found) => Findings(host, sv, metadata, lat, lon, found);
      PrefixedConcat(head, rest, Osint);
      head + rest
  }

  /** A reverse lookup that raises leaves the coordinates and the error, nothing else. */
  lemma GeocoderFailure(host: Host, sv: Services, metadata: Record, lat: real, lon: real, m: string)
    requires ExtractCoordinates(host, metadata) == Some((lat, lon))
    requires sv.reverse(lat, lon) == Raised(m)
    ensures GpsOsint(host, sv, metadata) == CoordinatesField(host, lat, lon) + Namespaced(Osint, [("GPS_Error", Str(m))])
  {
  }

  /**
   With an answer from the reverse lookup, the record opens with the coordinates, holds
   the five map links, and closes with the kind of place.
   */
  lemma GeocoderAnswer(host: Host, sv: Services, metadata: Record, lat: real, lon: real)
    requires ExtractCoordinates(host, metadata) == Some((lat, lon))
    requires sv.reverse(lat, lon).Done?
    ensures var r := GpsOsint(host, sv, metadata);
      && |r| >= 7
      && r[..1] == CoordinatesField(host, lat, lon)
      && r[|r| - 1..] == KindField(sv, lat, lon)
  {
  }

  /** `_create_osm_map(metadata)`: the map file's path when there are coordinates and folium writes it. */
  function OsmMap(host: Host, sv: Services, metadata: Record): (r: Option<string>)
    ensures r.Some? <==> ExtractCoordinates(host, metadata).Some? && sv.mapWritten
  {
    match ExtractCoordinates(host, metadata)
    case None => None
    case Some((lat, lon)) =>
      if sv.mapWritten
      then Some(PosixPath.Join(sv.tempDir, "metadate_map_" + CoordinateDigest(host, lat, lon) + ".html"))
      else None
  }
}
