/**
 The decision rules of the desktop window: how `MetadataTree.show_metadata` groups a
 record into categories, which map `MainWindow._open_map` opens, and the counters of the
 status line `_on_extraction_finished` shows. Widgets, colours and fonts are not modelled.
 */
module Gui {
  import opened Wrappers
  import opened Text
  import opened Dicts
  import opened Records
  import PosixPath

  // ------------------------------------------------------------------ categories

  datatype Category =
    | FileInformation | CameraLens | CaptureSettings | GpsLocation | DateTime | ImageProperties
    | ColorProfiles | ExifData | RawInformation | OsintIntelligence | OtherMetadata

  function Label(c: Category): string {
    match c
    case FileInformation => "File Information"
    case CameraLens => "Camera & Lens"
    case CaptureSettings => "Capture Settings"
    case GpsLocation => "GPS & Location"
    case DateTime => "Date & Time"
    case ImageProperties => "Image Properties"
    case ColorProfiles => "Color & Profiles"
    case ExifData => "EXIF Data"
    case RawInformation => "RAW Information"
    case OsintIntelligence => "OSINT Intelligence"
    case OtherMetadata => "Other Metadata"
  }

  /** The categories in the order the tree declares, and therefore shows, them. */
  const Declared: seq<Category> := [
    FileInformation, CameraLens, CaptureSettings, GpsLocation, DateTime, ImageProperties,
    ColorProfiles, ExifData, RawInformation, OsintIntelligence, OtherMetadata]

  /** A branch of the grouping: a key whose lower-cased text contains any marker goes to the category. */
  datatype Rule = Rule(markers: seq<string>, category: Category)

  /** The branches in the order they are tested; a key no branch takes is "Other Metadata". */
  const Rules: seq<Rule> := [
    Rule(["file_", "name", "size", "path", "extension"], FileInformation),
    Rule(["make", "model", "lens", "serial", "camera", "manufacturer"], CameraLens),
    Rule(["exposure", "aperture", "iso", "focal", "shutter", "white", "flash", "metering"], CaptureSettings),
    Rule(["gps"], GpsLocation),
    Rule(["date", "time"], DateTime),
    Rule(["width", "height", "mode", "format", "size", "technical", "image_"], ImageProperties),
    Rule(["color", "icc", "profile"], ColorProfiles),
    Rule(["raw"], RawInformation),
    Rule(["osint"], OsintIntelligence),
    Rule(["exif"], ExifData)]

  predicate Fires(r: Rule, key: string) {
    exists j :: 0 <= j < |r.markers| && Mentions(key, r.markers[j])
  }

  function ClassifyFrom(key: string, rules: seq<Rule>, from: nat): Category
    requires from <= |rules|
    decreases |rules| - from
  {
    if from == |rules| then OtherMetadata
    else if Fires(rules[from], key) then rules[from].category
    else ClassifyFrom(key, rules, from + 1)
  }

  /** The category `show_metadata` files a key under. */
  function Classify(key: string): Category {
    ClassifyFrom(key, Rules, 0)
  }

  lemma {:induction false} FirstRuleFrom(key: string, rules: seq<Rule>, from: nat, i: nat)
    requires from <= i < |rules| && Fires(rules[i], key)
    requires forall j :: from <= j < i ==> !Fires(rules[j], key)
    ensures ClassifyFrom(key, rules, from) == rules[i].category
    decreases i - from
  {
    if from < i {
      FirstRuleFrom(key, rules, from + 1, i);
    }
  }

  lemma {:induction false} NoRuleFrom(key: string, rules: seq<Rule>, from: nat)
    requires from <= |rules|
    requires forall j :: from <= j < |rules| ==> !Fires(rules[j], key)
    ensures ClassifyFrom(key, rules, from) == OtherMetadata
    decreases |rules| - from
  {
    if from < |rules| {
      NoRuleFrom(key, rules, from + 1);
    }
  }

  /** A key goes to the category of the first branch one of whose markers it contains. */
  lemma ClassifyFirst(key: string, i: nat)
    requires i < |Rules| && Fires(Rules[i], key)
    requires forall j :: 0 <= j < i ==> !Fires(Rules[j], key)
    ensures Classify(key) == Rules[i].category
  {
    FirstRuleFrom(key, Rules, 0, i);
  }

  /** A key that contains no marker at all is "Other Metadata". */
  lemma ClassifyOther(key: string)
    requires forall j :: 0 <= j < |Rules| ==> !Fires(Rules[j], key)
    ensures Classify(key) == OtherMetadata
  {
    NoRuleFrom(key, Rules, 0);
  }

  /** The file markers are tested first: "size" sends a key to File Information, so the Image Properties "size" marker never decides anything. */
  lemma SizeIsFileInformation(key: string)
    requires Mentions(key, "size")
    ensures Classify(key) == FileInformation
    ensures Classify(key) != ImageProperties
  {
    assert Rules[0].markers[2] == "size";
    ClassifyFirst(key, 0);
  }

  /** Camera markers come before "gps" and "osint": a camera key in either namespace is Camera & Lens. */
  lemma CameraBeforeGpsAndOsint(key: string)
    requires !Fires(Rules[0], key) && Fires(Rules[1], key)
    ensures Classify(key) == CameraLens
  {
    ClassifyFirst(key, 1);
  }

  /** "osint" is tested before "exif": a key with both, and no earlier marker, is OSINT Intelligence. */
  lemma OsintBeforeExif(key: string)
    requires forall j :: 0 <= j < 8 ==> !Fires(Rules[j], key)
    requires Mentions(key, "osint")
    ensures Classify(key) == OsintIntelligence
  {
    assert Rules[8].markers[0] == "osint";
    ClassifyFirst(key, 8);
  }

  // ------------------------------------------------------------------ the tree

  /** The fields of the record that `file` puts under `c`, in the record's order. */
  function Group(md: Record, c: Category, file: string -> Category): (g: Record)
    ensures |g| <= |md|
    ensures forall k :: 0 <= k < |g| ==> file(g[k].key) == c
    decreases |md|
  {
    if |md| == 0 then []
    else if file(md[0].key) == c then [md[0]] + Group(md[1..], c, file)
    else Group(md[1..], c, file)
  }

  /** `sub` is `s` read at the increasing positions `idx`. */
  ghost predicate Picks<T>(sub: seq<T>, s: seq<T>, idx: seq<nat>) {
    && |idx| == |sub|
    && (forall k :: 0 <= k < |idx| ==> idx[k] < |s| && sub[k] == s[idx[k]])
    && (forall k, l :: 0 <= k < l < |idx| ==> idx[k] < idx[l])
  }

  /** Every position moved one place on. */
  function Shift(idx: seq<nat>): (r: seq<nat>)
    ensures |r| == |idx| && forall k :: 0 <= k < |idx| ==> r[k] == idx[k] + 1
  {
    seq(|idx|, k requires 0 <= k < |idx| => idx[k] + 1)
  }

  lemma ShiftIn(idx: seq<nat>, i: int)
    ensures i in Shift(idx) <==> i >= 1 && i - 1 in idx
  {
    if i >= 1 && i - 1 in idx {
      var k :| 0 <= k < |idx| && idx[k] == i - 1;
      assert Shift(idx)[k] == i;
    }
  }

  /** Picking from the tail of `s` is picking from `s` one place on. */
  lemma PicksSkip<T>(sub: seq<T>, s: seq<T>, rec: seq<nat>)
    requires |s| > 0 && Picks(sub, s[1..], rec)
    ensures Picks(sub, s, Shift(rec))
  {
  }

  /** ... and picking the head as well adds position 0 in front. */
  lemma PicksCons<T>(sub: seq<T>, s: seq<T>, rec: seq<nat>)
    requires |s| > 0 && Picks(sub, s[1..], rec)
    ensures Picks([s[0]] + sub, s, [0] + Shift(rec))
  {
    var idx := [0] + Shift(rec);
    forall k | 0 < k < |idx|
      ensures idx[k] < |s| && ([s[0]] + sub)[k] == s[idx[k]]
    {
      assert idx[k] == rec[k - 1] + 1;
    }
  }

  /** A group is exactly the record's fields filed under its category, in the record's order. */
  lemma {:induction false} GroupExactly(md: Record, c: Category, file: string -> Category) returns (idx: seq<nat>)
    ensures Picks(Group(md, c, file), md, idx)
    ensures forall i :: 0 <= i < |md| ==> (i in idx <==> file(md[i].key) == c)
    decreases |md|
  {
    if |md| == 0 {
      idx := [];
    } else {
      var rec := GroupExactly(md[1..], c, file);
      var sh := Shift(rec);
      if file(md[0].key) == c {
        PicksCons(Group(md[1..], c, file), md, rec);
        idx := [0] + sh;
      } else {
        PicksSkip(Group(md[1..], c, file), md, rec);
        idx := sh;
      }
      forall i | 0 <= i < |md|
        ensures i in idx <==> file(md[i].key) == c
      {
        ShiftIn(rec, i);
        if i > 0 {
          assert md[i] == md[1..][i - 1];
        }
      }
    }
  }

  /** The total size of the groups of `cats`. */
  function GroupSizes(md: Record, cats: seq<Category>, file: string -> Category): nat
    decreases |cats|
  {
    if |cats| == 0 then 0 else GroupSizes(md, cats[..|cats| - 1], file) + |Group(md, cats[|cats| - 1], file)|
  }

  /** Filing one more field adds one to its category for each time the category is listed. */
  lemma {:induction false} GroupSizesStep(md: Record, cats: seq<Category>, file: string -> Category)
    requires |md| > 0
    ensures GroupSizes(md, cats, file) == GroupSizes(md[1..], cats, file) + multiset(cats)[file(md[0].key)]
    decreases |cats|
  {
    if |cats| > 0 {
      var init := cats[..|cats| - 1];
      var c := cats[|cats| - 1];
      GroupSizesStep(md, init, file);
      assert cats == init + [c];
      assert multiset(cats) == multiset(init) + multiset{c};
    }
  }

  lemma {:induction false} EmptyGroups(cats: seq<Category>, file: string -> Category)
    ensures GroupSizes([], cats, file) == 0
    decreases |cats|
  {
    if |cats| > 0 {
      EmptyGroups(cats[..|cats| - 1], file);
    }
  }

  /** When every category is listed once, every field lands in exactly one group: the sizes add up to the record's. */
  lemma {:induction false} GroupsPartitionBy(md: Record, cats: seq<Category>, file: string -> Category)
    requires forall c: Category :: multiset(cats)[c] == 1
    ensures GroupSizes(md, cats, file) == |md|
    decreases |md|
  {
    if |md| == 0 {
      EmptyGroups(cats, file);
    } else {
      GroupSizesStep(md, cats, file);
      GroupsPartitionBy(md[1..], cats, file);
    }
  }

  /** Every category is declared exactly once. */
  lemma DeclaredOnce(c: Category)
    ensures multiset(Declared)[c] == 1
  {
    assert multiset(Declared) == multiset{
      FileInformation, CameraLens, CaptureSettings, GpsLocation, DateTime, ImageProperties,
      ColorProfiles, ExifData, RawInformation, OsintIntelligence, OtherMetadata};
  }

  lemma DeclaredAll(c: Category)
    ensures c in Declared
  {
    DeclaredOnce(c);
    assert c in multiset(Declared);
  }

  /** The groups of the tree's categories partition the record. */
  lemma GroupsPartition(md: Record)
    ensures GroupSizes(md, Declared, Classify) == |md|
  {
    forall c: Category
      ensures multiset(Declared)[c] == 1
    {
      DeclaredOnce(c);
    }
    GroupsPartitionBy(md, Declared, Classify);
  }

  /** A row of the tree: a label, the text beside it, and the rows under it. */
  datatype Node = Node(title: string, detail: string, children: seq<(string, string)>)

  function CategoryNode(md: Record, c: Category, file: string -> Category): (n: Node)
    ensures |n.children| == |Group(md, c, file)|
    ensures forall i :: 0 <= i < |n.children| ==>
      n.children[i] == (Group(md, c, file)[i].key, Show(Group(md, c, file)[i].value))
    ensures n.title == Label(c) && n.detail == NatToString(|n.children|)
  {
    var g := Group(md, c, file);
    Node(Label(c), NatToString(|g|), seq(|g|, i requires 0 <= i < |g| => (g[i].key, Show(g[i].value))))
  }

  function ChildRows(nodes: seq<Node>): nat
    decreases |nodes|
  {
    if |nodes| == 0 then 0 else ChildRows(nodes[..|nodes| - 1]) + |nodes[|nodes| - 1].children|
  }

  /** The categories among `cats` whose group is not empty, in their order. */
  function Shown(md: Record, cats: seq<Category>, file: string -> Category): seq<Category>
    decreases |cats|
  {
    if |cats| == 0 then []
    else
      var c := cats[|cats| - 1];
      Shown(md, cats[..|cats| - 1], file) + (if Group(md, c, file) != [] then [c] else [])
  }

  /** Picking from a prefix of `s` is picking from `s`, and the next element may be picked after. */
  lemma PicksExtend<T>(sub: seq<T>, s: seq<T>, rec: seq<nat>)
    requires |s| > 0 && Picks(sub, s[..|s| - 1], rec)
    ensures Picks(sub, s, rec)
    ensures Picks(sub + [s[|s| - 1]], s, rec + [|s| - 1])
  {
  }

  /** The categories shown are exactly those of `cats` with a non-empty group, in the order of `cats`. */
  lemma {:induction false} ShownExactly(md: Record, cats: seq<Category>, file: string -> Category) returns (idx: seq<nat>)
    ensures Picks(Shown(md, cats, file), cats, idx)
    ensures forall a :: 0 <= a < |cats| ==> (a in idx <==> Group(md, cats[a], file) != [])
    decreases |cats|
  {
    if |cats| == 0 {
      idx := [];
    } else {
      var n := |cats| - 1;
      var init := cats[..n];
      var rec := ShownExactly(md, init, file);
      PicksExtend(Shown(md, init, file), cats, rec);
      if Group(md, cats[n], file) != [] {
        idx := rec + [n];
      } else {
        idx := rec;
      }
      forall a | 0 <= a < |cats|
        ensures a in idx <==> Group(md, cats[a], file) != []
      {
        if a < n {
          assert init[a] == cats[a];
        } else {
          assert a !in rec;
        }
      }
    }
  }

  /** The nodes of the non-empty categories among `cats`, in their order. */
  function CategoryNodes(md: Record, cats: seq<Category>, file: string -> Category): (ns: seq<Node>)
    ensures ChildRows(ns) == GroupSizes(md, cats, file)
    ensures |ns| == |Shown(md, cats, file)|
    ensures forall k :: 0 <= k < |ns| ==> ns[k] == CategoryNode(md, Shown(md, cats, file)[k], file)
    ensures forall k :: 0 <= k < |ns| ==> |ns[k].children| > 0 && ns[k].detail == NatToString(|ns[k].children|)
    decreases |cats|
  {
    if |cats| == 0 then []
    else
      var init := CategoryNodes(md, cats[..|cats| - 1], file);
      var c := cats[|cats| - 1];
      if Group(md, c, file) == [] then init
      else
        var ns := init + [CategoryNode(md, c, file)];
        assert ns[..|ns| - 1] == init;
        ns
  }

  /**
   `show_metadata(metadata)`: a single "No metadata" row for an empty record; otherwise one
   row per non-empty category, in declaration order, labelled with its count, holding one
   row per field, so that every field appears exactly once.
   */
  function Tree(md: Record): (t: seq<Node>)
    ensures md == [] ==> t == [Node("No metadata", "Image contains no metadata", [])]
    ensures md != [] ==> ChildRows(t) == |md|
    ensures md != [] ==> forall k :: 0 <= k < |t| ==> |t[k].children| > 0 && t[k].detail == NatToString(|t[k].children|)
    ensures md != [] ==> |t| == |Shown(md, Declared, Classify)|
    ensures md != [] ==> forall k :: 0 <= k < |t| ==> t[k] == CategoryNode(md, Shown(md, Declared, Classify)[k], Classify)
  {
    if md == [] then [Node("No metadata", "Image contains no metadata", [])]
    else
      GroupsPartition(md);
      CategoryNodes(md, Declared, Classify)
  }

  /** A field is a row of its category's node. */
  lemma NodeHasField(md: Record, file: string -> Category, i: nat)
    requires i < |md|
    ensures Group(md, file(md[i].key), file) != []
    ensures (md[i].key, Show(md[i].value)) in CategoryNode(md, file(md[i].key), file).children
  {
    var c := file(md[i].key);
    var gi := GroupExactly(md, c, file);
    var j :| 0 <= j < |gi| && gi[j] == i;
    assert CategoryNode(md, c, file).children[j] == (md[i].key, Show(md[i].value));
  }

  /** A listed category with a non-empty group has its node among the nodes. */
  lemma NodeOfCategory(md: Record, cats: seq<Category>, file: string -> Category, c: Category)
    requires c in cats && Group(md, c, file) != []
    ensures exists k :: 0 <= k < |CategoryNodes(md, cats, file)| && CategoryNodes(md, cats, file)[k] == CategoryNode(md, c, file)
  {
    var a :| 0 <= a < |cats| && cats[a] == c;
    var si := ShownExactly(md, cats, file);
    var k :| 0 <= k < |si| && si[k] == a;
    assert CategoryNodes(md, cats, file)[k] == CategoryNode(md, c, file);
  }

  /** A field filed under one of `cats` is a row under that category's node. */
  lemma NodesPlaceField(md: Record, cats: seq<Category>, file: string -> Category, i: nat)
    requires i < |md| && file(md[i].key) in cats
    ensures exists k :: (0 <= k < |CategoryNodes(md, cats, file)| && CategoryNodes(md, cats, file)[k].title == Label(file(md[i].key))
      && (md[i].key, Show(md[i].value)) in CategoryNodes(md, cats, file)[k].children)
  {
    NodeHasField(md, file, i);
    NodeOfCategory(md, cats, file, file(md[i].key));
  }

  /** Every field of a non-empty record is a row under the node of its category. */
  lemma TreePlacesField(md: Record, i: nat)
    requires i < |md|
    ensures exists k :: (0 <= k < |Tree(md)| && Tree(md)[k].title == Label(Classify(md[i].key))
      && (md[i].key, Show(md[i].value)) in Tree(md)[k].children)
  {
    DeclaredAll(Classify(md[i].key));
    NodesPlaceField(md, Declared, Classify, i);
    assert Tree(md) == CategoryNodes(md, Declared, Classify);
  }

  // ------------------------------------------------------------------ the map button

  /** What the map button does. */
  datatype MapAction =
    | Ignore                 // no record loaded: return at once
    | OpenUrl(url: Value)    // open the link in the browser
    | OpenFile(fileUrl: string)  // open the saved map file
    | NoMap                  // tell the user there is no map

  predicate IsMapFileKey(key: string) {
    Contains(key, "OSINT_Map_File")
  }

  /** A link key, as the `elif` chain sees it: only when it is not also a map-file key. */
  predicate IsMapUrlKey(key: string) {
    !IsMapFileKey(key) && (Contains(key, "OSINT_Google_Maps") || Contains(key, "GPS_Google_Maps"))
  }

  predicate MapUrlItem(it: Item<Value>) {
    IsMapUrlKey(it.key)
  }

  /** The scan of `_open_map`: the link it stops at, and the last map file seen before then. */
  function MapScan(md: Record, file: Option<Value>): (Option<Value>, Option<Value>)
    decreases |md|
  {
    if |md| == 0 then (None, file)
    else if IsMapFileKey(md[0].key) then MapScan(md[1..], Some(md[0].value))
    else if IsMapUrlKey(md[0].key) then (Some(md[0].value), file)
    else MapScan(md[1..], file)
  }

  /** The scan stops at the first link key, and reports its value. */
  lemma {:induction false} MapScanUrl(md: Record, file: Option<Value>)
    ensures var u := FirstWhere(md, MapUrlItem);
      MapScan(md, file).0 == if u < |md| then Some(md[u].value) else None
    decreases |md|
  {
    if |md| > 0 {
      if !IsMapFileKey(md[0].key) && IsMapUrlKey(md[0].key) {
      } else {
        MapScanUrl(md[1..], if IsMapFileKey(md[0].key) then Some(md[0].value) else file);
        var u := FirstWhere(md[1..], MapUrlItem);
        assert FirstWhere(md, MapUrlItem) == 1 + u;
        if u < |md[1..]| {
          assert md[1..][u] == md[1 + u];
        }
      }
    }
  }

  /** With no map-file key before the first link, the file is what the scan started with. */
  lemma {:induction false} MapScanNoFile(md: Record, file: Option<Value>)
    requires forall j :: 0 <= j < FirstWhere(md, MapUrlItem) ==> !IsMapFileKey(md[j].key)
    ensures MapScan(md, file).1 == file
    decreases |md|
  {
    if |md| > 0 && !IsMapUrlKey(md[0].key) {
      assert FirstWhere(md, MapUrlItem) == 1 + FirstWhere(md[1..], MapUrlItem);
      assert forall j :: 0 <= j < FirstWhere(md[1..], MapUrlItem) ==> md[1..][j] == md[j + 1];
      MapScanNoFile(md[1..], file);
    }
  }

  /** The file the scan reports is the value of the last map-file key before the first link. */
  lemma {:induction false} MapScanLastFile(md: Record, file: Option<Value>, l: nat)
    requires l < FirstWhere(md, MapUrlItem) && IsMapFileKey(md[l].key)
    requires forall j :: l < j < FirstWhere(md, MapUrlItem) ==> !IsMapFileKey(md[j].key)
    ensures MapScan(md, file).1 == Some(md[l].value)
    decreases |md|
  {
    assert FirstWhere(md, MapUrlItem) == 1 + FirstWhere(md[1..], MapUrlItem);
    assert forall j :: 0 <= j < FirstWhere(md[1..], MapUrlItem) ==> md[1..][j] == md[j + 1];
    if l == 0 {
      MapScanNoFile(md[1..], Some(md[0].value));
    } else {
      MapScanLastFile(md[1..], if IsMapFileKey(md[0].key) then Some(md[0].value) else file, l - 1);
    }
  }

  /**
   `_open_map()`: a non-empty link wins; otherwise a non-empty map file that exists on disk
   (`onDisk` is `os.path.exists`) is opened as a `file://` URL.
   */
  function OpenMap(md: Record, onDisk: Value -> bool): (a: MapAction)
    ensures md == [] <==> a == Ignore
    ensures a.OpenUrl? <==> md != [] && FirstWhere(md, MapUrlItem) < |md| && Truthy(md[FirstWhere(md, MapUrlItem)].value)
    ensures a.OpenUrl? ==> a.url == md[FirstWhere(md, MapUrlItem)].value
  {
    if md == [] then Ignore
    else
      MapScanUrl(md, None);
      var (url, file) := MapScan(md, None);
      if url.Some? && Truthy(url.value) then OpenUrl(url.value)
      else if file.Some? && Truthy(file.value) && onDisk(file.value) then OpenFile("file://" + Show(file.value))
      else NoMap
  }

  /**
   Without a usable link, the button opens the last map file listed before the first link
   key, provided it names something on disk.
   */
  lemma OpenMapFile(md: Record, onDisk: Value -> bool, l: nat)
    requires l < FirstWhere(md, MapUrlItem) && IsMapFileKey(md[l].key)
    requires forall j :: l < j < FirstWhere(md, MapUrlItem) ==> !IsMapFileKey(md[j].key)
    requires FirstWhere(md, MapUrlItem) < |md| ==> !Truthy(md[FirstWhere(md, MapUrlItem)].value)
    requires Truthy(md[l].value) && onDisk(md[l].value)
    ensures OpenMap(md, onDisk) == OpenFile("file://" + Show(md[l].value))
  {
    MapScanUrl(md, None);
    MapScanLastFile(md, None, l);
  }

  // ------------------------------------------------------------------ the status line

  /** What the status line reports, or that updating the window failed. */
  datatype Status = Loaded(name: string, total: nat, osint: nat, located: bool) | UpdateFailed

  predicate OsintKey(key: string) {
    Contains(key, "OSINT_")
  }

  /** The number of keys containing "OSINT_" (case-sensitive). */
  function OsintCount(md: Record): (n: nat)
    ensures n <= |md|
    ensures n == 0 <==> forall i :: 0 <= i < |md| ==> !OsintKey(md[i].key)
    ensures n == |md| <==> forall i :: 0 <= i < |md| ==> OsintKey(md[i].key)
    decreases |md|
  {
    if |md| == 0 then 0
    else
      assert forall i :: 1 <= i < |md| ==> md[i] == md[1..][i - 1];
      (if OsintKey(md[0].key) then 1 else 0) + OsintCount(md[1..])
  }

  /** The file's name for the status line; `basename` of a non-text path raises. */
  function FileLabel(path: Option<Value>): Option<string> {
    match path
    case Some(Str(s)) => if s != "" then Some(PosixPath.Basename(s)) else Some("Unknown")
    case Some(Int(i)) => if i != 0 then None else Some("Unknown")
    case _ => Some("Unknown")
  }

  /**
   `_on_extraction_finished(metadata)`: the file's name, the number of fields, the number
   of OSINT fields, and whether a key names GPS coordinates.
   */
  function StatusOf(md: Record): (s: Status)
    ensures s.Loaded? ==> s.total == |md| && s.osint == OsintCount(md)
    ensures s.Loaded? ==> (s.located <==> exists i :: 0 <= i < |md| && Contains(md[i].key, "GPS") && Contains(md[i].key, "Coordinates"))
    ensures s.UpdateFailed? <==> FileLabel(Get(md, "File_Path")).None?
  {
    match FileLabel(Get(md, "File_Path"))
    case None => UpdateFailed
    case Some(name) =>
      Loaded(name, |md|, OsintCount(md),
        exists i :: 0 <= i < |md| && Contains(md[i].key, "GPS") && Contains(md[i].key, "Coordinates"))
  }

  /** The text of the status line. */
  function StatusMessage(s: Status): string {
    match s
    case UpdateFailed => "Error updating UI"
    case Loaded(name, total, osint, located) =>
      "Loaded: " + name + " | Total: " + NatToString(total) + " | OSINT: " + NatToString(osint)
        + (if located then " | GPS Located" else "")
  }
}
