/**
 The parts of Python's `posixpath` the extractor and the command line use: `basename`,
 `dirname`, `splitext` and `join`, for '/'-separated paths.
 */
module PosixPath {

  /** `s.rfind(c)`: the index of the last `c` in `s`, or -1. */
  function RFind(s: string, c: char): (i: int)
    ensures -1 <= i < |s|
    ensures i >= 0 ==> s[i] == c
    ensures forall j :: i < j < |s| ==> s[j] != c
  {
    if |s| == 0 then -1
    else if s[|s| - 1] == c then |s| - 1
    else RFind(s[..|s| - 1], c)
  }

  /** `os.path.basename(p)`: what follows the last '/'. */
  function Basename(p: string): (r: string)
    ensures '/' !in r
    ensures |r| <= |p| && p[|p| - |r|..] == r
    ensures '/' !in p ==> r == p
  {
    p[RFind(p, '/') + 1..]
  }

  /** `s.rstrip('/')`. */
  function RStripSlashes(s: string): (r: string)
    ensures |r| <= |s| && s[..|r|] == r
    ensures r == [] || r[|r| - 1] != '/'
  {
    if |s| > 0 && s[|s| - 1] == '/' then RStripSlashes(s[..|s| - 1]) else s
  }

  /**
   `os.path.dirname(p)`: everything up to the last '/', without trailing slashes unless it
   consists of slashes only (the root keeps its '/').
   */
  function Dirname(p: string): string {
    var head := p[..RFind(p, '/') + 1];
    if head != [] && exists i :: 0 <= i < |head| && head[i] != '/' then RStripSlashes(head) else head
  }

  /**
   `os.path.splitext(p)`: the extension is the text from the last '.' of the last path
   component, provided that component has a character other than '.' before that dot
   (so ".bashrc" has no extension); otherwise the extension is empty.
   */
  function SplitExt(p: string): (r: (string, string))
    ensures r.0 + r.1 == p
    ensures r.1 == [] || (r.1[0] == '.' && '.' !in r.1[1..] && '/' !in r.1)
  {
    var sep := RFind(p, '/');
    var dot := RFind(p, '.');
    if dot > sep && exists k :: sep < k < dot && p[k] != '.' then
      assert p[..dot] + p[dot..] == p;
      (p[..dot], p[dot..])
    else (p, [])
  }

  /** `os.path.join(a, b)`: an absolute `b` replaces `a`; otherwise a '/' joins them unless `a` is empty or ends in one. */
  function Join(a: string, b: string): (r: string)
    ensures |b| > 0 && b[0] == '/' ==> r == b
    ensures !(|b| > 0 && b[0] == '/') ==> r == a + b || r == a + "/" + b
  {
    if |b| > 0 && b[0] == '/' then b
    else if a == [] || a[|a| - 1] == '/' then a + b
    else a + "/" + b
  }

  /** Joining a plain file name to a directory gives a path whose last component is that name. */
  lemma JoinBasename(dir: string, name: string)
    requires name != [] && '/' !in name
    ensures Basename(Join(dir, name)) == name
  {
    var r := Join(dir, name);
    if dir == [] {
    } else if dir[|dir| - 1] == '/' {
      RFindAfter(dir, name);
    } else {
      RFindAfter(dir + "/", name);
      assert dir + "/" + name == (dir + "/") + name;
    }
  }

  /** The last '/' of `head + tail` is the last of `head` when `head` ends in one and `tail` has none. */
  lemma RFindAfter(head: string, tail: string)
    requires head != [] && head[|head| - 1] == '/' && '/' !in tail
    ensures RFind(head + tail, '/') == |head| - 1
  {
    var s := head + tail;
    var i := RFind(s, '/');
    assert s[|head| - 1] == '/';
    assert forall j :: |head| <= j < |s| ==> s[j] == tail[j - |head|];
  }

  /** A name "stem.ext" whose stem does not end in '.' or '/' splits into "stem" and ".ext". */
  lemma SplitExtOfName(stem: string, ext: string)
    requires stem != [] && stem[|stem| - 1] != '.' && stem[|stem| - 1] != '/'
    requires '.' !in ext && '/' !in ext
    ensures SplitExt(stem + "." + ext) == (stem, "." + ext)
  {
    var p := stem + "." + ext;
    var dot := RFind(p, '.');
    var sep := RFind(p, '/');
    assert p[|stem|] == '.';
    assert forall j :: |stem| < j < |p| ==> p[j] == ext[j - |stem| - 1];
    assert dot == |stem|;
    assert p[|stem| - 1] == stem[|stem| - 1];
    assert sep < |stem| - 1;
    assert p[..dot] == stem;
    assert p[dot..] == "." + ext;
  }

  /** What `dirname` can return: nothing, the root's slashes, or a path not ending in '/'. */
  predicate DirLike(d: string) {
    d == [] || d[|d| - 1] != '/' || forall i :: 0 <= i < |d| ==> d[i] == '/'
  }

  lemma DirnameDirLike(p: string)
    ensures DirLike(Dirname(p))
  {
  }

  /** The directory of `join(dir, name)` is `dir` again, for every directory `dirname` can give. */
  lemma DirnameOfJoin(dir: string, name: string)
    requires DirLike(dir) && name != [] && '/' !in name
    ensures Dirname(Join(dir, name)) == dir
  {
    if dir == [] {
      assert Join(dir, name) == name;
    } else if dir[|dir| - 1] == '/' {
      var p := dir + name;
      RFindAfter(dir, name);
      assert p[..|dir|] == dir;
    } else {
      var head := dir + "/";
      var p := head + name;
      assert Join(dir, name) == p;
      RFindAfter(head, name);
      assert p[..RFind(p, '/') + 1] == head;
      assert head[|dir| - 1] != '/';
      assert head[..|head| - 1] == dir;
      assert RStripSlashes(head) == RStripSlashes(dir) == dir;
    }
  }
}
