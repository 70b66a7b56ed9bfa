/**
 The record-scanning side of `OSINTEnhancer`: `_camera_osint_analysis` with
 `_extract_lens_info`, `_time_analysis`, `_forensic_analysis` and `_network_analysis`.
 Each reads the record the extractor produced (in its iteration order) and returns the
 fields it adds, all in the `OSINT_` namespace.
 */
module OsintScans {
  import opened Wrappers
  import opened Text
  import opened Dicts
  import opened Records
  import opened Readers
  import PosixPath

  // ------------------------------------------------------------------ camera

  /** The make, model and serial number the camera scan has settled on so far. */
  datatype Device = Device(make: Option<string>, model: Option<string>, serial: Option<string>)

  /** Python truthiness of an optional text: absent and empty both read as unset. */
  function Known(o: Option<string>): (r: Option<string>)
    ensures r.Some? <==> o.Some? && o.value != ""
    ensures r.Some? ==> r == o
  {
    if o.Some? && o.value != "" then o else None
  }

  /**
   One iteration of the scan: a key that mentions "make" fills an unset make; otherwise one
   that mentions "model" fills an unset model; otherwise one that mentions "serial" fills an
   unset serial. The branches form an `elif` chain, so a key mentioning "make" once the make
   is known can still fill the model.
   */
  function DeviceStep(d: Device, it: Item<Value>): Device {
    var s := Show(it.value);
    if Mentions(it.key, "make") && Known(d.make).None? then d.(make := Some(s))
    else if Mentions(it.key, "model") && Known(d.model).None? then d.(model := Some(s))
    else if Mentions(it.key, "serial") && Known(d.serial).None? then d.(serial := Some(s))
    else d
  }

  function DeviceFrom(d: Device, md: Record): Device
    decreases |md|
  {
    if |md| == 0 then d else DeviceFrom(DeviceStep(d, md[0]), md[1..])
  }

  /** The device the whole record describes, starting from nothing known. */
  function Identify(md: Record): Device {
    DeviceFrom(Device(None, None, None), md)
  }

  predicate GivesMake(it: Item<Value>) {
    Mentions(it.key, "make") && Show(it.value) != ""
  }

  predicate GivesModel(it: Item<Value>) {
    Mentions(it.key, "model") && Show(it.value) != ""
  }

  predicate GivesSerial(it: Item<Value>) {
    Mentions(it.key, "serial") && Show(it.value) != ""
  }

  /** The text of the first field satisfying `p`, if any does. */
  function FirstText(md: Record, p: Item<Value> -> bool): (r: Option<string>)
    ensures r.None? <==> forall j :: 0 <= j < |md| ==> !p(md[j])
  {
    var i := FirstWhere(md, p);
    if i < |md| then Some(Show(md[i].value)) else None
  }

  lemma FirstTextStep(md: Record, p: Item<Value> -> bool)
    requires |md| > 0
    ensures FirstText(md, p) == if p(md[0]) then Some(Show(md[0].value)) else FirstText(md[1..], p)
  {
    if !p(md[0]) {
      var i := FirstWhere(md[1..], p);
      assert FirstWhere(md, p) == 1 + i;
      if i < |md[1..]| {
        assert md[1 + i] == md[1..][i];
      }
    }
  }

  /** Once known, the make is never replaced; until then, the first field naming a make with non-empty text sets it. */
  lemma {:induction false} MakeFrom(d: Device, md: Record)
    ensures Known(DeviceFrom(d, md).make) == if Known(d.make).Some? then Known(d.make) else FirstText(md, GivesMake)
    decreases |md|
  {
    if |md| > 0 {
      MakeFrom(DeviceStep(d, md[0]), md[1..]);
      FirstTextStep(md, GivesMake);
    }
  }

  /** Before field `j` the make is known: it was known at the start, or an earlier field gave one. */
  predicate MakeKnownBefore(d: Device, md: Record, j: nat) {
    Known(d.make).Some? || FirstWhere(md, GivesMake) < j
  }

  /**
   Field `j` sets the model to a non-empty text, unless the model is already known: it names
   a model, and if it also names a make (as "MakerNote ModelID" does) the make was known before it.
   */
  predicate FeedsModel(d: Device, md: Record, j: nat)
    requires j < |md|
  {
    GivesModel(md[j]) && (!Mentions(md[j].key, "make") || MakeKnownBefore(d, md, j))
  }

  /** Before field `j` the model is known: it was known at the start, or an earlier field fed it. */
  predicate ModelKnownBefore(d: Device, md: Record, j: nat)
    requires j <= |md|
  {
    Known(d.model).Some? || exists i :: 0 <= i < j && FeedsModel(d, md, i)
  }

  /**
   Field `j` sets the serial to a non-empty text, unless the serial is already known: it names
   a serial, the make branch does not take it, and the model branch does not take it.
   */
  predicate FeedsSerial(d: Device, md: Record, j: nat)
    requires j < |md|
  {
    && GivesSerial(md[j])
    && (!Mentions(md[j].key, "make") || MakeKnownBefore(d, md, j))
    && (!Mentions(md[j].key, "model") || ModelKnownBefore(d, md, j))
  }

  /** A step never replaces a known make, model or serial. */
  lemma StepKeepsKnown(d: Device, it: Item<Value>)
    ensures Known(d.make).Some? ==> DeviceStep(d, it).make == d.make
    ensures Known(d.model).Some? ==> DeviceStep(d, it).model == d.model
    ensures Known(d.serial).Some? ==> DeviceStep(d, it).serial == d.serial
  {
  }

  /** After one step the make is known exactly when it was, or the first field gave one; field `i + 1` becomes field `i`. */
  lemma MakeShift(d: Device, md: Record, i: nat)
    requires |md| > 0
    ensures Known(DeviceStep(d, md[0]).make).Some? <==> Known(d.make).Some? || GivesMake(md[0])
    ensures MakeKnownBefore(DeviceStep(d, md[0]), md[1..], i) <==> MakeKnownBefore(d, md, i + 1)
  {
    assert FirstWhere(md, GivesMake) == if GivesMake(md[0]) then 0 else 1 + FirstWhere(md[1..], GivesMake);
  }

  lemma FeedsModelShift(d: Device, md: Record, i: nat)
    requires i + 1 < |md|
    ensures FeedsModel(DeviceStep(d, md[0]), md[1..], i) <==> FeedsModel(d, md, i + 1)
  {
    MakeShift(d, md, i);
    assert md[1..][i] == md[i + 1];
  }

  /** After one step the model is known exactly when it was, or the first field fed it. */
  lemma ModelStep(d: Device, md: Record)
    requires |md| > 0
    ensures Known(DeviceStep(d, md[0]).model).Some? <==> Known(d.model).Some? || FeedsModel(d, md, 0)
  {
    MakeShift(d, md, 0);
  }

  lemma ModelShift(d: Device, md: Record, i: nat)
    requires i < |md|
    ensures ModelKnownBefore(DeviceStep(d, md[0]), md[1..], i) <==> ModelKnownBefore(d, md, i + 1)
  {
    var d' := DeviceStep(d, md[0]);
    ModelStep(d, md);
    StepKeepsKnown(d, md[0]);
    if ModelKnownBefore(d', md[1..], i) && Known(d'.model).None? {
      var k :| 0 <= k < i && FeedsModel(d', md[1..], k);
      FeedsModelShift(d, md, k);
    }
    if ModelKnownBefore(d, md, i + 1) && Known(d.model).None? {
      var k :| 0 <= k < i + 1 && FeedsModel(d, md, k);
      if k > 0 {
        FeedsModelShift(d, md, k - 1);
      }
    }
  }

  lemma FeedsSerialShift(d: Device, md: Record, i: nat)
    requires i + 1 < |md|
    ensures FeedsSerial(DeviceStep(d, md[0]), md[1..], i) <==> FeedsSerial(d, md, i + 1)
  {
    MakeShift(d, md, i);
    ModelShift(d, md, i);
    assert md[1..][i] == md[i + 1];
  }

  /** Before field `j` the serial is known: it was known at the start, or an earlier field fed it. */
  predicate SerialKnownBefore(d: Device, md: Record, j: nat)
    requires j <= |md|
  {
    Known(d.serial).Some? || exists i :: 0 <= i < j && FeedsSerial(d, md, i)
  }

  /** After one step the serial is known exactly when it was, or the first field fed it. */
  lemma SerialStep(d: Device, md: Record)
    requires |md| > 0
    ensures Known(DeviceStep(d, md[0]).serial).Some? <==> Known(d.serial).Some? || FeedsSerial(d, md, 0)
  {
    MakeShift(d, md, 0);
    ModelStep(d, md);
  }

  lemma SerialShift(d: Device, md: Record, i: nat)
    requires i < |md|
    ensures SerialKnownBefore(DeviceStep(d, md[0]), md[1..], i) <==> SerialKnownBefore(d, md, i + 1)
  {
    var d' := DeviceStep(d, md[0]);
    SerialStep(d, md);
    StepKeepsKnown(d, md[0]);
    if SerialKnownBefore(d', md[1..], i) && Known(d'.serial).None? {
      var k :| 0 <= k < i && FeedsSerial(d', md[1..], k);
      FeedsSerialShift(d, md, k);
    }
    if SerialKnownBefore(d, md, i + 1) && Known(d.serial).None? {
      var k :| 0 <= k < i + 1 && FeedsSerial(d, md, k);
      if k > 0 {
        FeedsSerialShift(d, md, k - 1);
      }
    }
  }

  lemma {:induction false} DeviceKeepsKnown(d: Device, md: Record)
    ensures Known(d.model).Some? ==> DeviceFrom(d, md).model == d.model
    ensures Known(d.serial).Some? ==> DeviceFrom(d, md).serial == d.serial
    decreases |md|
  {
    if |md| > 0 {
      StepKeepsKnown(d, md[0]);
      DeviceKeepsKnown(DeviceStep(d, md[0]), md[1..]);
    }
  }

  lemma {:induction false} ModelKnown(d: Device, md: Record)
    ensures Known(DeviceFrom(d, md).model).Some? <==> ModelKnownBefore(d, md, |md|)
    decreases |md|
  {
    if |md| > 0 {
      ModelKnown(DeviceStep(d, md[0]), md[1..]);
      ModelShift(d, md, |md| - 1);
    }
  }

  lemma {:induction false} ModelFirst(d: Device, md: Record, j: nat)
    requires j < |md| && FeedsModel(d, md, j) && !ModelKnownBefore(d, md, j)
    ensures DeviceFrom(d, md).model == Some(Show(md[j].value))
    decreases j
  {
    var d' := DeviceStep(d, md[0]);
    if j == 0 {
      ModelStep(d, md);
      DeviceKeepsKnown(d', md[1..]);
    } else {
      ModelShift(d, md, j - 1);
      FeedsModelShift(d, md, j - 1);
      ModelFirst(d', md[1..], j - 1);
    }
  }

  lemma {:induction false} SerialKnown(d: Device, md: Record)
    ensures Known(DeviceFrom(d, md).serial).Some? <==> SerialKnownBefore(d, md, |md|)
    decreases |md|
  {
    if |md| > 0 {
      SerialKnown(DeviceStep(d, md[0]), md[1..]);
      SerialShift(d, md, |md| - 1);
    }
  }

  lemma {:induction false} SerialFirst(d: Device, md: Record, j: nat)
    requires j < |md| && FeedsSerial(d, md, j) && !SerialKnownBefore(d, md, j)
    ensures DeviceFrom(d, md).serial == Some(Show(md[j].value))
    decreases j
  {
    var d' := DeviceStep(d, md[0]);
    if j == 0 {
      SerialStep(d, md);
      DeviceKeepsKnown(d', md[1..]);
    } else {
      SerialShift(d, md, j - 1);
      FeedsSerialShift(d, md, j - 1);
      SerialFirst(d', md[1..], j - 1);
    }
  }

  /**
   Once known, the model is never replaced. Until then, the first field that feeds it sets
   it; a field naming both a make and a model feeds it only once the make is known.
   */
  lemma ModelFrom(d: Device, md: Record)
    ensures Known(d.model).Some? ==> DeviceFrom(d, md).model == d.model
    ensures Known(DeviceFrom(d, md).model).Some? <==> ModelKnownBefore(d, md, |md|)
    ensures forall j :: 0 <= j < |md| && FeedsModel(d, md, j) && !ModelKnownBefore(d, md, j) ==>
      DeviceFrom(d, md).model == Some(Show(md[j].value))
  {
    DeviceKeepsKnown(d, md);
    ModelKnown(d, md);
    forall j | 0 <= j < |md| && FeedsModel(d, md, j) && !ModelKnownBefore(d, md, j) {
      ModelFirst(d, md, j);
    }
  }

  /**
   Once known, the serial is never replaced. Until then, the first field that feeds it sets
   it; a field also naming a make or a model feeds it only once that is known.
   */
  lemma SerialFrom(d: Device, md: Record)
    ensures Known(d.serial).Some? ==> DeviceFrom(d, md).serial == d.serial
    ensures Known(DeviceFrom(d, md).serial).Some? <==> SerialKnownBefore(d, md, |md|)
    ensures forall j :: 0 <= j < |md| && FeedsSerial(d, md, j) && !SerialKnownBefore(d, md, j) ==>
      DeviceFrom(d, md).serial == Some(Show(md[j].value))
  {
    DeviceKeepsKnown(d, md);
    SerialKnown(d, md);
    forall j | 0 <= j < |md| && FeedsSerial(d, md, j) && !SerialKnownBefore(d, md, j) {
      SerialFirst(d, md, j);
    }
  }

  /**
   A key such as "MAKER_MakerNote ModelID" names both a make and a model. After a field that
   gave the make, it gives the model.
   */
  lemma MakerKeyGivesModel(a: Item<Value>, c: Item<Value>)
    requires GivesMake(a) && GivesModel(c) && Mentions(c.key, "make")
    ensures Identify([a, c]).model == Some(Show(c.value))
  {
    var md := [a, c];
    var d := Device(None, None, None);
    assert FirstWhere(md, GivesMake) == 0;
    assert !FeedsModel(d, md, 0);
    ModelFirst(d, md, 1);
  }

  /** The make the camera scan reports is the text of the first field naming a make with non-empty text. */
  lemma IdentifyMake(md: Record)
    ensures Known(Identify(md).make) == FirstText(md, GivesMake)
  {
    MakeFrom(Device(None, None, None), md);
  }

  /** One part of the lens summary: the whole field for a lens key, else a focal length, else an aperture. */
  function LensPart(it: Item<Value>): Option<string> {
    if Mentions(it.key, "lens") then Some(it.key + ": " + Show(it.value))
    else if Mentions(it.key, "focal") && Mentions(it.key, "length") then Some("Focal: " + Show(it.value))
    else if Mentions(it.key, "aperture") then Some("Aperture: " + Show(it.value))
    else None
  }

  function LensParts(md: Record): (ps: seq<string>)
    ensures |ps| <= |md|
    ensures ps == [] <==> forall i :: 0 <= i < |md| ==> LensPart(md[i]).None?
    decreases |md|
  {
    if |md| == 0 then []
    else
      var rest := LensParts(md[1..]);
      assert forall i :: 1 <= i < |md| ==> md[i] == md[1..][i - 1];
      match LensPart(md[0])
      case Some(p) => [p] + rest
      case None => rest
  }

  /** The parts keep the record's order: the summary of two records is the summaries one after the other. */
  lemma {:induction false} LensPartsConcat(a: Record, b: Record)
    ensures LensParts(a + b) == LensParts(a) + LensParts(b)
    decreases |a|
  {
    if |a| > 0 {
      assert (a + b)[1..] == a[1..] + b;
      LensPartsConcat(a[1..], b);
    } else {
      assert a + b == b;
    }
  }

  /** `_extract_lens_info(metadata)`: the parts joined by " | ", or nothing when there are none. */
  function LensInfo(md: Record): (r: Option<string>)
    ensures r.None? <==> forall i :: 0 <= i < |md| ==> LensPart(md[i]).None?
  {
    var ps := LensParts(md);
    if ps == [] then None else Some(Join(" | ", ps))
  }

  function HashPair(host: Host, serial: string): seq<(string, Value)> {
    [ ("Serial_Hash_MD5", Str(host.md5(host.encode(serial)))),
      ("Serial_Hash_SHA1", Str(host.sha1(host.encode(serial)))) ]
  }

  /** The make, model and serial fields of a device; a serial brings its two hashes. */
  function IdentityFields(host: Host, dev: Device): (r: Record)
    ensures AllPrefixed(r, Osint)
    ensures r == [] <==> Known(dev.make).None? && Known(dev.model).None? && Known(dev.serial).None?
    ensures Known(dev.make).Some? ==> r[0] == Item(Osint + "Camera_Make", Str(dev.make.value))
  {
    var make := if Known(dev.make).Some? then [("Camera_Make", Str(dev.make.value))] else [];
    var model := if Known(dev.model).Some? then [("Camera_Model", Str(dev.model.value))] else [];
    var serial := if Known(dev.serial).Some? then [("Camera_Serial", Str(dev.serial.value))] + HashPair(host, dev.serial.value) else [];
    Namespaced(Osint, make + model + serial)
  }

  /** A known make and model together give a fingerprint and a search link. */
  function FingerprintFields(dev: Device): (r: Record)
    ensures AllPrefixed(r, Osint)
    ensures r != [] <==> Known(dev.make).Some? && Known(dev.model).Some?
    ensures r != [] ==> |r| == 2 && r[0].value == Str(dev.make.value + " " + dev.model.value)
  {
    if Known(dev.make).Some? && Known(dev.model).Some? then
      var make := dev.make.value;
      var model := dev.model.value;
      Namespaced(Osint, [
        ("Device_Fingerprint", Str(make + " " + model)),
        ("Device_Search", Str("https://www.google.com/search?q=" + make + "+" + model + "+camera"))])
    else []
  }

  function LensField(md: Record): (r: Record)
    ensures AllPrefixed(r, Osint)
    ensures r == [] <==> LensInfo(md).None?
  {
    match LensInfo(md)
    case None => []
    case Some(s) => Namespaced(Osint, [("Lens_Info", Str(s))])
  }

  /**
   `_camera_osint_analysis(metadata)`: the device fields, the fingerprint, then the lens
   summary. Nothing is added for a record that names no device and no lens.
   */
  function CameraOsint(host: Host, md: Record): (r: Record)
    ensures AllPrefixed(r, Osint)
    ensures r == [] <==>
      && FirstText(md, GivesMake).None? && Known(Identify(md).model).None? && Known(Identify(md).serial).None?
      && forall i :: 0 <= i < |md| ==> LensPart(md[i]).None?
    ensures FirstText(md, GivesMake).Some? ==> r[0] == Item(Osint + "Camera_Make", Str(FirstText(md, GivesMake).value))
  {
    var dev := Identify(md);
    IdentifyMake(md);
    var a := IdentityFields(host, dev);
    var b := FingerprintFields(dev);
    var c := LensField(md);
    PrefixedConcat(a, b, Osint);
    PrefixedConcat(a + b, c, Osint);
    a + b + c
  }

  // ------------------------------------------------------------------ time

  /** A field that looks like a timestamp: its key mentions a date or a time and its text a year 201x or 202x. */
  predicate Stamped(it: Item<Value>) {
    && (Mentions(it.key, "date") || Mentions(it.key, "time"))
    && (Contains(Show(it.value), "202") || Contains(Show(it.value), "201"))
  }

  /** The timestamp fields of the record, in its order. */
  function Stamps(md: Record): (ts: Record)
    ensures |ts| <= |md|
    ensures forall k :: 0 <= k < |ts| ==> Stamped(ts[k]) && ts[k] in md
    ensures ts == [] <==> forall i :: 0 <= i < |md| ==> !Stamped(md[i])
    decreases |md|
  {
    if |md| == 0 then []
    else
      var rest := Stamps(md[1..]);
      assert forall i :: 1 <= i < |md| ==> md[i] == md[1..][i - 1];
      if Stamped(md[0]) then [md[0]] + rest else rest
  }

  /** A field the record holds is among the stamps exactly when it looks like a timestamp. */
  lemma {:induction false} StampsComplete(md: Record, i: nat)
    requires i < |md|
    ensures md[i] in Stamps(md) <==> Stamped(md[i])
    decreases |md|
  {
    if i > 0 {
      assert md[i] == md[1..][i - 1];
      StampsComplete(md[1..], i - 1);
      if Stamped(md[i]) {
        assert md[i] in Stamps(md[1..]);
      }
    }
  }

  function TimeName(k: nat): string {
    "Time_" + NatToString(k + 1)
  }

  /**
   The count of timestamps, the first five as "key: value" in `OSINT_Time_1` to
   `OSINT_Time_5`, and a timeline note when there are several.
   */
  function StampFields(ts: Record): (r: Record)
    ensures AllPrefixed(r, Osint)
    ensures ts == [] <==> r == []
    ensures |r| == if ts == [] then 0 else 1 + (if |ts| < 5 then |ts| else 5) + (if |ts| > 1 then 1 else 0)
    ensures ts != [] ==> r[0] == Item(Osint + "Timestamps_Found", Int(|ts|))
    ensures forall k :: 0 <= k < |ts| && k < 5 ==>
      r[k + 1] == Item(Osint + TimeName(k), Str(ts[k].key + ": " + Show(ts[k].value)))
    ensures |ts| > 1 ==> r[|r| - 1] == Item(Osint + "Time_Analysis", Str("Multiple timestamps - timeline available"))
  {
    if ts == [] then []
    else
      var shown := if |ts| < 5 then ts else ts[..5];
      var listed := seq(|shown|, k requires 0 <= k < |shown| => (TimeName(k), Str(shown[k].key + ": " + Show(shown[k].value))));
      var note := if |ts| > 1 then [("Time_Analysis", Str("Multiple timestamps - timeline available"))] else [];
      Namespaced(Osint, [("Timestamps_Found", Int(|ts|))] + listed + note)
  }

  predicate NamesTimezone(it: Item<Value>) {
    Mentions(it.key, "timezone")
  }

  /** The value, unconverted, of the first field whose key mentions a time zone. */
  function ZoneField(md: Record): (r: Record)
    ensures AllPrefixed(r, Osint)
    ensures r == [] <==> forall i :: 0 <= i < |md| ==> !NamesTimezone(md[i])
    ensures r != [] ==> |r| == 1 && r[0].value == md[FirstWhere(md, NamesTimezone)].value
  {
    var i := FirstWhere(md, NamesTimezone);
    if i < |md| then Namespaced(Osint, [("Timezone", md[i].value)]) else []
  }

  /** `_time_analysis(metadata)`. */
  function TimeOsint(md: Record): (r: Record)
    ensures AllPrefixed(r, Osint)
    ensures r == [] <==> forall i :: 0 <= i < |md| ==> !Stamped(md[i]) && !NamesTimezone(md[i])
  {
    var a := StampFields(Stamps(md));
    var b := ZoneField(md);
    PrefixedConcat(a, b, Osint);
    a + b
  }

  // ------------------------------------------------------------------ forensic

  /** What the file system gives `_forensic_analysis`: the file's bytes and `os.stat`, each of which can raise. */
  datatype FileEvidence = FileEvidence(data: Attempt<seq<byte>>, stat: Attempt<FileStat>)

  /** A file name in the style of camera firmware. */
  predicate CameraNamed(name: string) {
    var n := Lower(name);
    Contains(n, "img") || Contains(n, "dsc") || Contains(n, "photo") || Contains(n, "pic")
  }

  function NameFields(path: string): (r: Record)
    ensures AllPrefixed(r, Osint)
    ensures |r| == if CameraNamed(PosixPath.Basename(path)) then 2 else 1
    ensures r[0] == Item(Osint + "Filename_Analysis", Str(PosixPath.Basename(path)))
  {
    var name := PosixPath.Basename(path);
    Namespaced(Osint, [("Filename_Analysis", Str(name))]
      + (if CameraNamed(name) then [("Filename_Pattern", Str("Common camera naming pattern"))] else []))
  }

  function HashFields(host: Host, data: seq<byte>): (r: Record)
    ensures AllPrefixed(r, Osint) && |r| == 3
  {
    Namespaced(Osint, [
      ("MD5_Hash", Str(host.md5(data))),
      ("SHA1_Hash", Str(host.sha1(data))),
      ("SHA256_Hash", Str(host.sha256(data)))])
  }

  /** The message of the first step of the analysis that raises: reading, `stat`, or rendering a timestamp. */
  function FirstFailure(ev: FileEvidence): Option<string> {
    if ev.data.Raised? then Some(ev.data.msg)
    else if ev.stat.Raised? then Some(ev.stat.msg)
    else if ev.stat.value.created.Raised? then Some(ev.stat.value.created.msg)
    else if ev.stat.value.modified.Raised? then Some(ev.stat.value.modified.msg)
    else None
  }

  /** What `os.stat` yields before a timestamp fails to render, and the name fields once both have. */
  function StatFields(path: string, st: FileStat): (r: Record)
    ensures AllPrefixed(r, Osint)
    ensures |r| >= 1 && r[0] == Item(Osint + "File_Size_Bytes", Int(st.size))
    ensures st.created.Done? && st.modified.Done? ==> |r| == 3 + |NameFields(path)| && r[3..] == NameFields(path)
  {
    match (st.created, st.modified)
    case (Raised(_), _) => Namespaced(Osint, [("File_Size_Bytes", Int(st.size))])
    case (Done(c), Raised(_)) => Namespaced(Osint, [("File_Size_Bytes", Int(st.size)), ("File_Created", Str(c))])
    case (Done(c), Done(m)) =>
      var times := Namespaced(Osint, [("File_Size_Bytes", Int(st.size)), ("File_Created", Str(c)), ("File_Modified", Str(m))]);
      PrefixedConcat(times, NameFields(path), Osint);
      times + NameFields(path)
  }

  /**
   The fields recorded before the analysis stops: the three hashes once the file is read,
   then the size, creation and modification times, then the name fields.
   */
  function Evidence(host: Host, path: string, ev: FileEvidence): (r: Record)
    ensures AllPrefixed(r, Osint)
    ensures ev.data.Raised? ==> r == []
    ensures ev.data.Done? ==> |r| >= 3 && r[..3] == HashFields(host, ev.data.value)
    ensures FirstFailure(ev).None? ==> |r| == 6 + |NameFields(path)| && r[6..] == NameFields(path)
  {
    match ev.data
    case Raised(_) => []
    case Done(data) =>
      var hashes := HashFields(host, data);
      var rest := if ev.stat.Raised? then [] else StatFields(path, ev.stat.value);
      PrefixedConcat(hashes, rest, Osint);
      hashes + rest
  }

  /** `_forensic_analysis(image_path)`: the evidence gathered, closed by the error when a step raised. */
  function ForensicOsint(host: Host, path: string, ev: FileEvidence): (r: Record)
    ensures AllPrefixed(r, Osint)
    ensures FirstFailure(ev).Some? ==> |r| > 0 && r[|r| - 1] == Item(Osint + "Forensic_Error", Str(FirstFailure(ev).value))
    ensures FirstFailure(ev).None? ==> |r| == 6 + |NameFields(path)| && r[..3] == HashFields(host, ev.data.value) && r[6..] == NameFields(path)
  {
    var found := Evidence(host, path, ev);
    match FirstFailure(ev)
    case None => found
    case Some(m) =>
      var error := Namespaced(Osint, [("Forensic_Error", Str(m))]);
      PrefixedConcat(found, error, Osint);
      found + error
  }

  // ------------------------------------------------------------------ network

  predicate LinkLike(s: string) {
    Contains(Lower(s), "http")
  }

  predicate MailLike(s: string) {
    '@' in s && '.' in s
  }

  function UrlKey(k: string): string {
    Osint + ("URL_In_" + k)
  }

  function EmailKey(k: string): string {
    Osint + ("Email_Like_In_" + k)
  }

  /** The two tests the network scan makes of each field, in the order it makes them. */
  datatype Probe = UrlProbe(it: Item<Value>) | EmailProbe(it: Item<Value>)

  function Probes(md: Record): (ps: seq<Probe>)
    ensures |ps| == 2 * |md|
    ensures forall i :: 0 <= i < |md| ==> ps[2 * i] == UrlProbe(md[i]) && ps[2 * i + 1] == EmailProbe(md[i])
  {
    seq(2 * |md|, n requires 0 <= n < 2 * |md| => if n % 2 == 0 then UrlProbe(md[n / 2]) else EmailProbe(md[n / 2]))
  }

  function ProbeField(p: Probe): Option<Item<Value>> {
    var s := Show(p.it.value);
    match p
    case UrlProbe(it) => if LinkLike(s) then Some(Item(UrlKey(it.key), Str(s))) else None
    case EmailProbe(it) => if MailLike(s) then Some(Item(EmailKey(it.key), Str(s))) else None
  }

  lemma ProbeFieldPrefixed(p: Probe)
    requires ProbeField(p).Some?
    ensures StartsWith(ProbeField(p).value.key, Osint)
  {
    PrefixStarts(Osint, "URL_In_" + p.it.key);
    PrefixStarts(Osint, "Email_Like_In_" + p.it.key);
  }

  /** `_network_analysis(metadata)`: every field whose text holds a link or an address, under a key naming the field. */
  function NetworkOsint(md: Record): (r: Record)
    ensures AllPrefixed(r, Osint)
  {
    forall i | 0 <= i < |Probes(md)| && ProbeField(Probes(md)[i]).Some?
      ensures StartsWith(ProbeField(Probes(md)[i]).value.key, Osint)
    {
      ProbeFieldPrefixed(Probes(md)[i]);
    }
    EmitPrefixed([], Probes(md), ProbeField, Osint);
    Emit([], Probes(md), ProbeField)
  }

  lemma UrlKeyInjective(a: string, b: string)
    requires UrlKey(a) == UrlKey(b)
    ensures a == b
  {
    PrefixInjective(Osint, "URL_In_" + a, "URL_In_" + b);
    PrefixInjective("URL_In_", a, b);
  }

  lemma EmailKeyInjective(a: string, b: string)
    requires EmailKey(a) == EmailKey(b)
    ensures a == b
  {
    PrefixInjective(Osint, "Email_Like_In_" + a, "Email_Like_In_" + b);
    PrefixInjective("Email_Like_In_", a, b);
  }

  lemma UrlNotEmail(a: string, b: string)
    ensures UrlKey(a) != EmailKey(b)
  {
    assert UrlKey(a)[6] == 'U';
    assert EmailKey(b)[6] == 'E';
  }

  /** In a record with distinct keys, the probe of field `i` is the only one that can assign its keys. */
  lemma ProbeOwnsKey(md: Record, i: nat, n: nat)
    requires DistinctKeys(md) && i < |md| && n < 2 * |md|
    requires ProbeField(Probes(md)[n]).Some?
    ensures n != 2 * i ==> ProbeField(Probes(md)[n]).value.key != UrlKey(md[i].key)
    ensures n != 2 * i + 1 ==> ProbeField(Probes(md)[n]).value.key != EmailKey(md[i].key)
  {
    var j := n / 2;
    assert n == 2 * j || n == 2 * j + 1;
    var key := ProbeField(Probes(md)[n]).value.key;
    if n == 2 * j {
      assert key == UrlKey(md[j].key);
      UrlNotEmail(md[j].key, md[i].key);
      if key == UrlKey(md[i].key) {
        UrlKeyInjective(md[j].key, md[i].key);
      }
    } else {
      assert key == EmailKey(md[j].key);
      UrlNotEmail(md[i].key, md[j].key);
      if key == EmailKey(md[i].key) {
        EmailKeyInjective(md[j].key, md[i].key);
      }
    }
  }

  /**
   The network scan's reading of key `k` when the probe at `n` is the only one that can
   assign it: that probe's field if it fires, otherwise nothing.
   */
  lemma NetworkOwnedKey(md: Record, n: nat, k: string, s: string, fires: bool)
    requires n < |Probes(md)|
    requires ProbeField(Probes(md)[n]) == if fires then Some(Item(k, Str(s))) else None
    requires forall m :: 0 <= m < |Probes(md)| && m != n && ProbeField(Probes(md)[m]).Some? ==> ProbeField(Probes(md)[m]).value.key != k
    ensures Get(NetworkOsint(md), k) == if fires then Some(Str(s)) else None
  {
    var ps := Probes(md);
    EmitGet([], ps, ProbeField, k);
    if fires {
      LastAssignedOnly(ps, ProbeField, n, k, Str(s));
    } else {
      LastAssignedSome(ps, ProbeField, k);
    }
  }

  /** Only the URL probe of field `i` can assign its URL key. */
  lemma UrlProbeOnly(md: Record, i: nat)
    requires DistinctKeys(md) && i < |md|
    ensures forall n :: 0 <= n < |Probes(md)| && n != 2 * i && ProbeField(Probes(md)[n]).Some? ==>
      ProbeField(Probes(md)[n]).value.key != UrlKey(md[i].key)
  {
    forall n | 0 <= n < |Probes(md)| && n != 2 * i && ProbeField(Probes(md)[n]).Some?
      ensures ProbeField(Probes(md)[n]).value.key != UrlKey(md[i].key)
    {
      ProbeOwnsKey(md, i, n);
    }
  }

  /** Only the address probe of field `i` can assign its address key. */
  lemma EmailProbeOnly(md: Record, i: nat)
    requires DistinctKeys(md) && i < |md|
    ensures forall n :: 0 <= n < |Probes(md)| && n != 2 * i + 1 && ProbeField(Probes(md)[n]).Some? ==>
      ProbeField(Probes(md)[n]).value.key != EmailKey(md[i].key)
  {
    forall n | 0 <= n < |Probes(md)| && n != 2 * i + 1 && ProbeField(Probes(md)[n]).Some?
      ensures ProbeField(Probes(md)[n]).value.key != EmailKey(md[i].key)
    {
      ProbeOwnsKey(md, i, n);
    }
  }

  /** Every field of a record with distinct keys whose text holds "http" is reported under its own key, and no other is. */
  lemma NetworkUrl(md: Record, i: nat)
    requires DistinctKeys(md) && i < |md|
    ensures Get(NetworkOsint(md), UrlKey(md[i].key)) ==
      if LinkLike(Show(md[i].value)) then Some(Str(Show(md[i].value))) else None
  {
    UrlProbeOnly(md, i);
    assert Probes(md)[2 * i] == UrlProbe(md[i]);
    NetworkOwnedKey(md, 2 * i, UrlKey(md[i].key), Show(md[i].value), LinkLike(Show(md[i].value)));
  }

  /** Every field of a record with distinct keys whose text holds '@' and '.' is reported under its own key, and no other is. */
  lemma NetworkEmail(md: Record, i: nat)
    requires DistinctKeys(md) && i < |md|
    ensures Get(NetworkOsint(md), EmailKey(md[i].key)) ==
      if MailLike(Show(md[i].value)) then Some(Str(Show(md[i].value))) else None
  {
    EmailProbeOnly(md, i);
    assert Probes(md)[2 * i + 1] == EmailProbe(md[i]);
    NetworkOwnedKey(md, 2 * i + 1, EmailKey(md[i].key), Show(md[i].value), MailLike(Show(md[i].value)));
  }
}
