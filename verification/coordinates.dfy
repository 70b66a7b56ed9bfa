/**
 `OSINTEnhancer._extract_coordinates`: finding a latitude and a longitude among the fields
 of a metadata record. A first scan reads keys naming GPS decimal degrees; when that leaves
 a component missing, a second scan reads "lat, lon" text under keys naming coordinates.
 Both scans let a later field overwrite an earlier one.
 */
module Coordinates {
  import opened Wrappers
  import opened Text
  import opened Dicts
  import opened Records

  /** The two components as the scans leave them; `None` is Python's `None`. */
  datatype Coords = Coords(lat: Option<real>, lon: Option<real>)

  /** `float(value)` on a field value; `float(None)` raises, which the scans swallow. */
  function ToFloat(host: Host, v: Value): Option<real> {
    match v
    case Str(s) => host.parseFloat(s)
    case Int(i) => Some(i as real)
    case Null => None
  }

  /** A reading overrides the current component when there is one. */
  function Override(current: Option<real>, reading: Option<real>): Option<real> {
    if reading.Some? then reading else current
  }

  /** A left fold of a scan step over the record's fields, in order. */
  function Scan(c: Coords, items: Record, step: (Coords, Item<Value>) -> Coords): Coords
    decreases |items|
  {
    if |items| == 0 then c else step(Scan(c, items[..|items| - 1], step), items[|items| - 1])
  }

  // ------------------------------------------------------------------ the two scans

  /** One field of the first scan: a GPS decimal key naming latitude, else longitude. */
  function DecimalStep(host: Host, c: Coords, it: Item<Value>): Coords {
    if Mentions(it.key, "gps") && Mentions(it.key, "decimal") then
      if Mentions(it.key, "latitude") then
        match ToFloat(host, it.value)
        case Some(x) => c.(lat := Some(x))
        case None => c
      else if Mentions(it.key, "longitude") then
        match ToFloat(host, it.value)
        case Some(x) => c.(lon := Some(x))
        case None => c
      else c
    else c
  }

  /**
   One field of the second scan: text that splits on ',' into exactly two parts sets the
   latitude from the first; the longitude follows only if the second part parses too.
   */
  function FallbackStep(host: Host, c: Coords, it: Item<Value>): Coords {
    if Mentions(it.key, "coordinates") then
      var parts := Split(Show(it.value), ',');
      if |parts| == 2 then
        match host.parseFloat(Strip(parts[0]))
        case None => c
        case Some(a) =>
          match host.parseFloat(Strip(parts[1]))
          case None => Coords(Some(a), c.lon)
          case Some(b) => Coords(Some(a), Some(b))
      else c
    else c
  }

  function DecimalScan(host: Host, items: Record): Coords {
    Scan(Coords(None, None), items, (c, it) => DecimalStep(host, c, it))
  }

  function FallbackScan(host: Host, c: Coords, items: Record): Coords {
    Scan(c, items, (d, it) => FallbackStep(host, d, it))
  }

  /** `_extract_coordinates(metadata)`: a pair only when both components were found. */
  function ExtractCoordinates(host: Host, metadata: Record): (r: Option<(real, real)>)
  {
    var d := DecimalScan(host, metadata);
    var f := if d.lat.None? || d.lon.None? then FallbackScan(host, d, metadata) else d;
    if f.lat.Some? && f.lon.Some? then Some((f.lat.value, f.lon.value)) else None
  }

  // ------------------------------------------------------------------ what each field contributes

  /** The latitude a field gives the first scan. */
  function DecimalLatitude(host: Host, it: Item<Value>): Option<real> {
    if Mentions(it.key, "gps") && Mentions(it.key, "decimal") && Mentions(it.key, "latitude")
    then ToFloat(host, it.value) else None
  }

  /** The longitude a field gives the first scan: a key naming latitude as well gives none. */
  function DecimalLongitude(host: Host, it: Item<Value>): Option<real> {
    if Mentions(it.key, "gps") && Mentions(it.key, "decimal") && !Mentions(it.key, "latitude") && Mentions(it.key, "longitude")
    then ToFloat(host, it.value) else None
  }

  /** The two parts of a field's text, when the second scan looks at it. */
  function PairParts(it: Item<Value>): Option<(string, string)> {
    if Mentions(it.key, "coordinates") then
      var parts := Split(Show(it.value), ',');
      if |parts| == 2 then Some((Strip(parts[0]), Strip(parts[1]))) else None
    else None
  }

  /** The latitude a field gives the second scan. */
  function FallbackLatitude(host: Host, it: Item<Value>): Option<real> {
    match PairParts(it)
    case None => None
    case Some(p) => host.parseFloat(p.0)
  }

  /** The longitude a field gives the second scan: only when the latitude part parsed as well. */
  function FallbackLongitude(host: Host, it: Item<Value>): Option<real> {
    match PairParts(it)
    case None => None
    case Some(p) => if host.parseFloat(p.0).Some? then host.parseFloat(p.1) else None
  }

  lemma DecimalStepOverrides(host: Host, c: Coords, it: Item<Value>)
    ensures DecimalStep(host, c, it).lat == Override(c.lat, DecimalLatitude(host, it))
    ensures DecimalStep(host, c, it).lon == Override(c.lon, DecimalLongitude(host, it))
  {
  }

  lemma FallbackStepOverrides(host: Host, c: Coords, it: Item<Value>)
    ensures FallbackStep(host, c, it).lat == Override(c.lat, FallbackLatitude(host, it))
    ensures FallbackStep(host, c, it).lon == Override(c.lon, FallbackLongitude(host, it))
  {
  }

  // ------------------------------------------------------------------ last reading wins

  /** Field `i` is the last one giving `read` a value. */
  ghost predicate LastAt(items: Record, read: Item<Value> -> Option<real>, i: nat) {
    && i < |items| && read(items[i]).Some?
    && forall j :: i < j < |items| ==> read(items[j]).None?
  }

  /** No field gives `read` a value. */
  ghost predicate NoneAt(items: Record, read: Item<Value> -> Option<real>) {
    forall j :: 0 <= j < |items| ==> read(items[j]).None?
  }

  /** A step that overrides the component `proj` picks with what `read` gives the field. */
  ghost predicate Overrides(step: (Coords, Item<Value>) -> Coords, proj: Coords -> Option<real>, read: Item<Value> -> Option<real>) {
    forall d: Coords, it: Item<Value> {:trigger step(d, it)} :: proj(step(d, it)) == Override(proj(d), read(it))
  }

  /** After a scan of overriding steps, the component holds the last reading. */
  lemma {:induction false} ScanLast(c: Coords, items: Record, step: (Coords, Item<Value>) -> Coords,
                                    proj: Coords -> Option<real>, read: Item<Value> -> Option<real>, i: nat)
    requires Overrides(step, proj, read) && LastAt(items, read, i)
    ensures proj(Scan(c, items, step)) == read(items[i])
    decreases |items|
  {
    var n := |items| - 1;
    var init := items[..n];
    var d := Scan(c, init, step);
    assert proj(step(d, items[n])) == Override(proj(d), read(items[n]));
    if i < n {
      assert LastAt(init, read, i) by {
        forall j | i < j < |init|
          ensures read(init[j]).None?
        {
          assert init[j] == items[j];
        }
      }
      ScanLast(c, init, step, proj, read, i);
    }
  }

  /** Without any reading, a scan of overriding steps leaves the component as it was. */
  lemma {:induction false} ScanNone(c: Coords, items: Record, step: (Coords, Item<Value>) -> Coords,
                                    proj: Coords -> Option<real>, read: Item<Value> -> Option<real>)
    requires Overrides(step, proj, read) && NoneAt(items, read)
    ensures proj(Scan(c, items, step)) == proj(c)
    decreases |items|
  {
    if |items| > 0 {
      var n := |items| - 1;
      var init := items[..n];
      assert NoneAt(init, read) by {
        forall j | 0 <= j < |init|
          ensures read(init[j]).None?
        {
          assert init[j] == items[j];
        }
      }
      ScanNone(c, init, step, proj, read);
      var d := Scan(c, init, step);
      assert proj(step(d, items[n])) == Override(proj(d), read(items[n]));
    }
  }

  lemma DecimalOverrides(host: Host)
    ensures Overrides((c, it) => DecimalStep(host, c, it), (c: Coords) => c.lat, it => DecimalLatitude(host, it))
    ensures Overrides((c, it) => DecimalStep(host, c, it), (c: Coords) => c.lon, it => DecimalLongitude(host, it))
  {
    forall d: Coords, it: Item<Value> {
      DecimalStepOverrides(host, d, it);
    }
  }

  lemma FallbackOverrides(host: Host)
    ensures Overrides((c, it) => FallbackStep(host, c, it), (c: Coords) => c.lat, it => FallbackLatitude(host, it))
    ensures Overrides((c, it) => FallbackStep(host, c, it), (c: Coords) => c.lon, it => FallbackLongitude(host, it))
  {
    forall d: Coords, it: Item<Value> {
      FallbackStepOverrides(host, d, it);
    }
  }

  // ------------------------------------------------------------------ the result

  /**
   When the first scan finds both components, the second scan does not run: the result is
   the last decimal latitude and the last decimal longitude, wherever they occur.
   */
  lemma CoordinatesFromDecimal(host: Host, metadata: Record, i: nat, j: nat)
    requires LastAt(metadata, it => DecimalLatitude(host, it), i)
    requires LastAt(metadata, it => DecimalLongitude(host, it), j)
    ensures ExtractCoordinates(host, metadata)
      == Some((DecimalLatitude(host, metadata[i]).value, DecimalLongitude(host, metadata[j]).value))
  {
    DecimalOverrides(host);
    ScanLast(Coords(None, None), metadata, (c, it) => DecimalStep(host, c, it), (c: Coords) => c.lat, it => DecimalLatitude(host, it), i);
    ScanLast(Coords(None, None), metadata, (c, it) => DecimalStep(host, c, it), (c: Coords) => c.lon, it => DecimalLongitude(host, it), j);
  }

  /**
   When the first scan misses a component, the second scan decides both: the latitude is
   the first part of the last two-part text whose first part parses, even when its second
   part does not, and the longitude comes from the last text whose two parts both parse.
   */
  lemma CoordinatesFromFallback(host: Host, metadata: Record, i: nat, j: nat)
    requires NoneAt(metadata, it => DecimalLatitude(host, it)) || NoneAt(metadata, it => DecimalLongitude(host, it))
    requires LastAt(metadata, it => FallbackLatitude(host, it), i)
    requires LastAt(metadata, it => FallbackLongitude(host, it), j)
    ensures ExtractCoordinates(host, metadata)
      == Some((FallbackLatitude(host, metadata[i]).value, FallbackLongitude(host, metadata[j]).value))
  {
    DecimalOverrides(host);
    FallbackOverrides(host);
    var d := DecimalScan(host, metadata);
    if NoneAt(metadata, it => DecimalLatitude(host, it)) {
      ScanNone(Coords(None, None), metadata, (c, it) => DecimalStep(host, c, it), (c: Coords) => c.lat, it => DecimalLatitude(host, it));
    } else {
      ScanNone(Coords(None, None), metadata, (c, it) => DecimalStep(host, c, it), (c: Coords) => c.lon, it => DecimalLongitude(host, it));
    }
    ScanLast(d, metadata, (c, it) => FallbackStep(host, c, it), (c: Coords) => c.lat, it => FallbackLatitude(host, it), i);
    ScanLast(d, metadata, (c, it) => FallbackStep(host, c, it), (c: Coords) => c.lon, it => FallbackLongitude(host, it), j);
  }

  /** A component that neither scan can read leaves the record without coordinates. */
  lemma CoordinatesMissing(host: Host, metadata: Record)
    requires
      || (NoneAt(metadata, it => DecimalLatitude(host, it)) && NoneAt(metadata, it => FallbackLatitude(host, it)))
      || (NoneAt(metadata, it => DecimalLongitude(host, it)) && NoneAt(metadata, it => FallbackLongitude(host, it)))
    ensures ExtractCoordinates(host, metadata) == None
  {
    DecimalOverrides(host);
    FallbackOverrides(host);
    var d := DecimalScan(host, metadata);
    if NoneAt(metadata, it => DecimalLatitude(host, it)) && NoneAt(metadata, it => FallbackLatitude(host, it)) {
      ScanNone(Coords(None, None), metadata, (c, it) => DecimalStep(host, c, it), (c: Coords) => c.lat, it => DecimalLatitude(host, it));
      ScanNone(d, metadata, (c, it) => FallbackStep(host, c, it), (c: Coords) => c.lat, it => FallbackLatitude(host, it));
    } else {
      ScanNone(Coords(None, None), metadata, (c, it) => DecimalStep(host, c, it), (c: Coords) => c.lon, it => DecimalLongitude(host, it));
      ScanNone(d, metadata, (c, it) => FallbackStep(host, c, it), (c: Coords) => c.lon, it => FallbackLongitude(host, it));
    }
  }

  /** A decimal key naming both latitude and longitude only ever sets the latitude. */
  lemma LatitudeNameWins(host: Host, c: Coords, it: Item<Value>)
    requires Mentions(it.key, "latitude") && Mentions(it.key, "longitude")
    ensures DecimalStep(host, c, it).lon == c.lon
    ensures DecimalStep(host, c, it).lat == Override(c.lat, DecimalLatitude(host, it))
  {
  }

  // ------------------------------------------------------------------ mixed sources

  /** The reading of the last field that gives `read` one, or `None` when no field does. */
  function LastReading(items: Record, read: Item<Value> -> Option<real>): (r: Option<real>)
    ensures r.Some? ==> exists i: nat :: LastAt(items, read, i) && r == read(items[i])
    ensures r.None? ==> NoneAt(items, read)
    decreases |items|
  {
    if |items| == 0 then None
    else
      var n := |items| - 1;
      var init := items[..n];
      var earlier := LastReading(init, read);
      assert forall j :: 0 <= j < n ==> init[j] == items[j];
      if read(items[n]).Some? then
        assert LastAt(items, read, n);
        read(items[n])
      else
        assert earlier.Some? ==> exists i: nat :: LastAt(items, read, i) && earlier == read(items[i]) by {
          if earlier.Some? {
            var i: nat :| LastAt(init, read, i) && earlier == read(init[i]);
            assert LastAt(items, read, i);
          }
        }
        earlier
  }

  /** A scan of overriding steps leaves the last reading in the component, or the component as it was. */
  lemma {:induction false} ScanOverride(c: Coords, items: Record, step: (Coords, Item<Value>) -> Coords,
                                        proj: Coords -> Option<real>, read: Item<Value> -> Option<real>)
    requires Overrides(step, proj, read)
    ensures proj(Scan(c, items, step)) == Override(proj(c), LastReading(items, read))
    decreases |items|
  {
    if |items| > 0 {
      var n := |items| - 1;
      ScanOverride(c, items[..n], step, proj, read);
      var d := Scan(c, items[..n], step);
      assert proj(step(d, items[n])) == Override(proj(d), read(items[n]));
    }
  }

  /**
   When the first scan misses a component, each component is decided on its own: the last
   fallback reading for it when there is one, otherwise the last decimal reading. So a
   decimal longitude survives a fallback text whose longitude part does not parse, while
   that text's latitude replaces any decimal latitude.
   */
  lemma CoordinatesMixed(host: Host, metadata: Record)
    requires LastReading(metadata, it => DecimalLatitude(host, it)).None?
      || LastReading(metadata, it => DecimalLongitude(host, it)).None?
    ensures ExtractCoordinates(host, metadata) ==
      var lat := Override(LastReading(metadata, it => DecimalLatitude(host, it)), LastReading(metadata, it => FallbackLatitude(host, it)));
      var lon := Override(LastReading(metadata, it => DecimalLongitude(host, it)), LastReading(metadata, it => FallbackLongitude(host, it)));
      if lat.Some? && lon.Some? then Some((lat.value, lon.value)) else None
  {
    DecimalOverrides(host);
    FallbackOverrides(host);
    var d := DecimalScan(host, metadata);
    ScanOverride(Coords(None, None), metadata, (c, it) => DecimalStep(host, c, it), (c: Coords) => c.lat, it => DecimalLatitude(host, it));
    ScanOverride(Coords(None, None), metadata, (c, it) => DecimalStep(host, c, it), (c: Coords) => c.lon, it => DecimalLongitude(host, it));
    ScanOverride(d, metadata, (c, it) => FallbackStep(host, c, it), (c: Coords) => c.lat, it => FallbackLatitude(host, it));
    ScanOverride(d, metadata, (c, it) => FallbackStep(host, c, it), (c: Coords) => c.lon, it => FallbackLongitude(host, it));
  }
}
