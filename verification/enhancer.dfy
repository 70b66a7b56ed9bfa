/**
 `OSINTEnhancer.enhance_metadata` and `extract_osint_metadata`: the extracted record,
 updated in turn with the five analyses and, when one was written, the map file.
 */
module Enhancer {
  import opened Wrappers
  import opened Dicts
  import opened Records
  import Extractor
  import opened OsintLocation
  import opened OsintScans

  /** `base.update(p0); base.update(p1); ...` */
  function Absorb(base: Record, parts: seq<Record>): Record
    decreases |parts|
  {
    if |parts| == 0 then base else Update(Absorb(base, parts[..|parts| - 1]), parts[|parts| - 1])
  }

  /** Updates with namespaced parts leave every key outside the namespace as it was. */
  lemma {:induction false} AbsorbKeepsOutside(base: Record, parts: seq<Record>, prefix: string, k: string)
    requires forall j :: 0 <= j < |parts| ==> AllPrefixed(parts[j], prefix)
    requires !StartsWith(k, prefix)
    ensures Get(Absorb(base, parts), k) == Get(base, k)
    decreases |parts|
  {
    if |parts| > 0 {
      var init := parts[..|parts| - 1];
      assert forall j :: 0 <= j < |init| ==> init[j] == parts[j];
      AbsorbKeepsOutside(base, init, prefix, k);
      UpdateKeepsUnprefixed(Absorb(base, init), parts[|parts| - 1], prefix, k);
    }
  }

  /** Updates keep every key of the base at its position. */
  lemma {:induction false} AbsorbKeepsPosition(base: Record, parts: seq<Record>, i: nat)
    requires i < |base|
    ensures i < |Absorb(base, parts)| && Absorb(base, parts)[i].key == base[i].key
    decreases |parts|
  {
    if |parts| > 0 {
      AbsorbKeepsPosition(base, parts[..|parts| - 1], i);
      UpdateKeepsPosition(Absorb(base, parts[..|parts| - 1]), parts[|parts| - 1], i);
    }
  }

  lemma {:induction false} AbsorbDistinct(base: Record, parts: seq<Record>)
    requires DistinctKeys(base)
    ensures DistinctKeys(Absorb(base, parts))
    decreases |parts|
  {
    if |parts| > 0 {
      AbsorbDistinct(base, parts[..|parts| - 1]);
      UpdateDistinct(Absorb(base, parts[..|parts| - 1]), parts[|parts| - 1]);
    }
  }

  /** What each of the five analyses adds, read from the record as extracted. */
  datatype Report = Report(gps: Record, camera: Record, time: Record, forensic: Record, network: Record)

  function Analyze(host: Host, sv: Services, path: string, ev: FileEvidence, md: Record): (rep: Report)
    ensures Namespaced(rep)
    ensures rep.gps == GpsOsint(host, sv, md) && rep.camera == CameraOsint(host, md) && rep.time == TimeOsint(md)
    ensures rep.forensic == ForensicOsint(host, path, ev) && rep.network == NetworkOsint(md)
  {
    Report(GpsOsint(host, sv, md), CameraOsint(host, md), TimeOsint(md), ForensicOsint(host, path, ev), NetworkOsint(md))
  }

  /** Every analysis keeps to the `OSINT_` namespace. */
  predicate Namespaced(rep: Report) {
    && AllPrefixed(rep.gps, Osint) && AllPrefixed(rep.camera, Osint) && AllPrefixed(rep.time, Osint)
    && AllPrefixed(rep.forensic, Osint) && AllPrefixed(rep.network, Osint)
  }

  /** The analyses in the order the enhancer applies them. */
  function Parts(rep: Report): (ps: seq<Record>)
    ensures |ps| == 5 && ps[4] == rep.network
    ensures Namespaced(rep) ==> forall j :: 0 <= j < 5 ==> AllPrefixed(ps[j], Osint)
  {
    [rep.gps, rep.camera, rep.time, rep.forensic, rep.network]
  }

  /**
   Item `i` of part `j` is the last assignment of its key: no later item of that part and
   no later part sets the same key.
   */
  ghost predicate LastOfKey(ps: seq<Record>, j: nat, i: nat)
    requires j < |ps| && i < |ps[j]|
  {
    && (forall m :: i < m < |ps[j]| ==> ps[j][m].key != ps[j][i].key)
    && (forall l :: j < l < |ps| ==> ps[j][i].key !in KeysOf(ps[l]))
  }

  /** After the updates, a key reads as its last assignment. */
  lemma {:induction false} AbsorbLast(base: Record, ps: seq<Record>, j: nat, i: nat)
    requires j < |ps| && i < |ps[j]| && LastOfKey(ps, j, i)
    ensures Get(Absorb(base, ps), ps[j][i].key) == Some(ps[j][i].value)
    decreases |ps|
  {
    var n := |ps| - 1;
    var init := ps[..n];
    var k := ps[j][i].key;
    assert Absorb(base, ps) == Update(Absorb(base, init), ps[n]);
    if j == n {
      UpdateLast(Absorb(base, init), ps[n], i);
    } else {
      assert k !in KeysOf(ps[n]);
      assert LastOfKey(init, j, i) by {
        assert init[j] == ps[j];
        forall l | j < l < |init|
          ensures k !in KeysOf(init[l])
        {
          assert init[l] == ps[l];
        }
      }
      AbsorbLast(base, init, j, i);
      assert init[j][i] == ps[j][i];
      UpdateGetAbsent(Absorb(base, init), ps[n], k);
    }
  }

  function MapKey(): string {
    Osint + "Map_File"
  }

  /** `enhance_metadata(metadata, image_path)`. */
  function Enhance(host: Host, sv: Services, path: string, ev: FileEvidence, md: Record): (r: Record)
    ensures Get(r, MapKey()) == if OsmMap(host, sv, md).Some? then Some(Str(OsmMap(host, sv, md).value))
      else Get(Absorb(md, Parts(Analyze(host, sv, path, ev, md))), MapKey())
    ensures var ps := Parts(Analyze(host, sv, path, ev, md));
      forall j, i :: 0 <= j < 5 && 0 <= i < |ps[j]| && LastOfKey(ps, j, i) && ps[j][i].key != MapKey() ==>
        Get(r, ps[j][i].key) == Some(ps[j][i].value)
  {
    var ps := Parts(Analyze(host, sv, path, ev, md));
    assert forall j, i :: 0 <= j < 5 && 0 <= i < |ps[j]| && LastOfKey(ps, j, i) ==>
      Get(Absorb(md, ps), ps[j][i].key) == Some(ps[j][i].value) by {
      forall j, i | 0 <= j < 5 && 0 <= i < |ps[j]| && LastOfKey(ps, j, i) {
        AbsorbLast(md, ps, j, i);
      }
    }
    var e := Absorb(md, ps);
    match OsmMap(host, sv, md)
    case None => e
    case Some(p) => Set(e, MapKey(), Str(p))
  }

  /** The enhancer only adds: every key outside the `OSINT_` namespace reads as in the extracted record. */
  lemma EnhanceKeepsExtracted(host: Host, sv: Services, path: string, ev: FileEvidence, md: Record, k: string)
    requires !StartsWith(k, Osint)
    ensures Get(Enhance(host, sv, path, ev, md), k) == Get(md, k)
  {
    AbsorbKeepsOutside(md, Parts(Analyze(host, sv, path, ev, md)), Osint, k);
    PrefixStarts(Osint, "Map_File");
  }

  lemma EnhanceKeepsAll(host: Host, sv: Services, path: string, ev: FileEvidence, md: Record)
    ensures forall k :: !StartsWith(k, Osint) ==> Get(Enhance(host, sv, path, ev, md), k) == Get(md, k)
  {
    forall k | !StartsWith(k, Osint)
      ensures Get(Enhance(host, sv, path, ev, md), k) == Get(md, k)
    {
      EnhanceKeepsExtracted(host, sv, path, ev, md, k);
    }
  }

  /** The extracted fields keep their order at the head of the enhanced record. */
  lemma EnhanceKeepsOrder(host: Host, sv: Services, path: string, ev: FileEvidence, md: Record, i: nat)
    requires i < |md|
    ensures i < |Enhance(host, sv, path, ev, md)| && Enhance(host, sv, path, ev, md)[i].key == md[i].key
  {
    var ps := Parts(Analyze(host, sv, path, ev, md));
    AbsorbKeepsPosition(md, ps, i);
    if OsmMap(host, sv, md).Some? {
      SetKeepsPosition(Absorb(md, ps), MapKey(), Str(OsmMap(host, sv, md).value), i);
    }
  }

  /** Enhancing a dictionary yields a dictionary: no key is repeated. */
  lemma EnhanceDistinct(host: Host, sv: Services, path: string, ev: FileEvidence, md: Record)
    requires DistinctKeys(md)
    ensures DistinctKeys(Enhance(host, sv, path, ev, md))
  {
    var ps := Parts(Analyze(host, sv, path, ev, md));
    AbsorbDistinct(md, ps);
    if OsmMap(host, sv, md).Some? {
      SetDistinct(Absorb(md, ps), MapKey(), Str(OsmMap(host, sv, md).value));
    }
  }

  /** A field holding a link is reported by the network scan, and nothing after it overwrites the report. */
  lemma EnhanceReportsLinks(host: Host, sv: Services, path: string, ev: FileEvidence, md: Record, i: nat)
    requires DistinctKeys(md) && i < |md| && LinkLike(Show(md[i].value))
    ensures Get(Enhance(host, sv, path, ev, md), UrlKey(md[i].key)) == Some(Str(Show(md[i].value)))
  {
    var ps := Parts(Analyze(host, sv, path, ev, md));
    var k := UrlKey(md[i].key);
    NetworkUrl(md, i);
    EmitDistinct([], Probes(md), ProbeField);
    assert Absorb(md, ps) == Update(Absorb(md, ps[..4]), ps[4]);
    UpdateGet(Absorb(md, ps[..4]), ps[4], k);
    assert MapKey()[6] == 'M' && k[6] == 'U';
  }

  /**
   `extract_osint_metadata(image_path)`: the extracted record, enhanced. The path the
   forensic analysis hashes is the one the extractor read.
   */
  function ExtractOsint(host: Host, s: Extractor.Sources, sv: Services, ev: FileEvidence): (r: Record)
    ensures DistinctKeys(r)
    ensures forall k :: !StartsWith(k, Osint) ==> Get(r, k) == Get(Extractor.ExtractMetadata(host, s), k)
  {
    var md := Extractor.ExtractMetadata(host, s);
    EnhanceDistinct(host, sv, s.path, ev, md);
    EnhanceKeepsAll(host, sv, s.path, ev, md);
    Enhance(host, sv, s.path, ev, md)
  }
}
