/**
 Metadata records: dictionaries from field name to a field value, and the host
 primitives (decoding, hashing, float parsing and formatting) that the model takes as
 parameters instead of computing.
 */
module Records {
  import opened Wrappers
  import opened Text
  import opened Dicts

  /** A field value: text, an integer, or Python's `None`. */
  datatype Value = Str(s: string) | Int(i: int) | Null

  type Record = Dict<Value>

  /** `str(v)`. */
  function Show(v: Value): string {
    match v
    case Str(s) => s
    case Int(i) => IntToString(i)
    case Null => "None"
  }

  /** Python truthiness of a field value. */
  predicate Truthy(v: Value) {
    match v
    case Str(s) => s != ""
    case Int(i) => i != 0
    case Null => false
  }

  predicate StartsWith(s: string, prefix: string) {
    |prefix| <= |s| && s[..|prefix|] == prefix
  }

  /** Every key of `r` carries `prefix`. */
  predicate AllPrefixed(r: Record, prefix: string) {
    forall i :: 0 <= i < |r| ==> StartsWith(r[i].key, prefix)
  }

  /** Prefixing is injective: two namespaced keys agree only when their tails do. */
  lemma PrefixInjective(prefix: string, a: string, b: string)
    requires prefix + a == prefix + b
    ensures a == b
  {
    assert a == (prefix + a)[|prefix|..];
    assert b == (prefix + b)[|prefix|..];
  }

  lemma PrefixStarts(prefix: string, a: string)
    ensures StartsWith(prefix + a, prefix)
  {
    assert (prefix + a)[..|prefix|] == prefix;
  }

  /** The position of the first field satisfying `p`, or `|r|` when none does. */
  function FirstWhere(r: Record, p: Item<Value> -> bool): (i: nat)
    ensures i <= |r| && (i < |r| ==> p(r[i]))
    ensures forall j :: 0 <= j < i ==> !p(r[j])
    decreases |r|
  {
    if |r| == 0 then 0 else if p(r[0]) then 0 else 1 + FirstWhere(r[1..], p)
  }

  /** Joining two namespaced records keeps every key in the namespace. */
  lemma PrefixedConcat(a: Record, b: Record, prefix: string)
    requires AllPrefixed(a, prefix) && AllPrefixed(b, prefix)
    ensures AllPrefixed(a + b, prefix)
  {
    forall i | 0 <= i < |a + b|
      ensures StartsWith((a + b)[i].key, prefix)
    {
      if i >= |a| {
        assert (a + b)[i] == b[i - |a|];
      }
    }
  }

  /** The namespace of every field the OSINT enhancer adds. */
  const Osint := "OSINT_"

  /** The fields `prefix + name` for each named value, in order. */
  function Namespaced(prefix: string, pairs: seq<(string, Value)>): (r: Record)
    ensures |r| == |pairs| && AllPrefixed(r, prefix)
    ensures forall i :: 0 <= i < |r| ==> r[i] == Item(prefix + pairs[i].0, pairs[i].1)
  {
    var r := seq(|pairs|, i requires 0 <= i < |pairs| => Item(prefix + pairs[i].0, pairs[i].1));
    forall i | 0 <= i < |r|
      ensures StartsWith(r[i].key, prefix)
    {
      PrefixStarts(prefix, pairs[i].0);
    }
    r
  }

  /** Assigning a key that carries the prefix keeps every key prefixed. */
  lemma SetPrefixed(r: Record, prefix: string, k: string, v: Value)
    requires AllPrefixed(r, prefix) && StartsWith(k, prefix)
    ensures AllPrefixed(Set(r, k, v), prefix)
  {
    var r' := Set(r, k, v);
    SetKeys(r, k, v);
    forall i | 0 <= i < |r'|
      ensures StartsWith(r'[i].key, prefix)
    {
      assert r'[i].key == KeysOf(r')[i];
      if i < |r| {
        assert KeysOf(r')[i] == KeysOf(r)[i];
      }
    }
  }

  /** `a.update(b)` leaves alone every key of `a` that `b` does not carry. */
  lemma UpdateKeepsUnprefixed(a: Record, b: Record, prefix: string, k: string)
    requires AllPrefixed(b, prefix) && !StartsWith(k, prefix)
    ensures Get(Update(a, b), k) == Get(a, k)
  {
    assert k !in KeysOf(b) by {
      forall i | 0 <= i < |b|
        ensures KeysOf(b)[i] != k
      {
        assert StartsWith(b[i].key, prefix);
      }
    }
    UpdateGetAbsent(a, b, k);
  }

  /** A loop that only assigns keys carrying `prefix` keeps every key prefixed. */
  lemma {:induction false} EmitPrefixed<T>(acc: Record, xs: seq<T>, step: T -> Option<Item<Value>>, prefix: string)
    requires AllPrefixed(acc, prefix)
    requires forall i :: 0 <= i < |xs| && step(xs[i]).Some? ==> StartsWith(step(xs[i]).value.key, prefix)
    ensures AllPrefixed(Emit(acc, xs, step), prefix)
    decreases |xs|
  {
    if |xs| > 0 {
      var init := xs[..|xs| - 1];
      assert forall i :: 0 <= i < |init| ==> init[i] == xs[i];
      EmitPrefixed(acc, init, step, prefix);
      match step(xs[|xs| - 1])
      case None =>
      case Some(it) => SetPrefixed(Emit(acc, init, step), prefix, it.key, it.value);
    }
  }

  /** The indices `0 .. m - 1` in order. */
  function Range(m: nat): (r: seq<nat>)
    ensures |r| == m && forall i :: 0 <= i < m ==> r[i] == i
  {
    seq(m, i requires 0 <= i < m => i)
  }

  /**
   The step of a run of assignments `d[names[0]] = ...; d[names[1]] = ...` where `vals(n)`
   is the text assigned to `names[n]`, or `None` when that assignment is skipped.
   */
  function Assigning(names: seq<string>, vals: nat -> Option<string>): nat -> Option<Item<Value>> {
    (n: nat) => if n < |names| && vals(n).Some? then Some(Item(names[n], Str(vals(n).value))) else None
  }

  /** After such a run, a field reads as assigned, or as before when its assignment was skipped. */
  lemma AssigningGet(acc: Record, names: seq<string>, vals: nat -> Option<string>, n: nat)
    requires n < |names|
    requires forall i :: 0 <= i < |names| && i != n ==> names[i] != names[n]
    ensures Get(Emit(acc, Range(|names|), Assigning(names, vals)), names[n]) ==
      if vals(n).Some? then Some(Str(vals(n).value)) else Get(acc, names[n])
  {
    var xs := Range(|names|);
    var step := Assigning(names, vals);
    EmitGet(acc, xs, step, names[n]);
    if vals(n).Some? {
      LastAssignedOnly(xs, step, n, names[n], Str(vals(n).value));
    } else {
      LastAssignedSome(xs, step, names[n]);
    }
  }

  /** A key none of the names is reads after the run as before it. */
  lemma AssigningUnassigned(acc: Record, names: seq<string>, vals: nat -> Option<string>, k: string)
    requires k !in names
    ensures Get(Emit(acc, Range(|names|), Assigning(names, vals)), k) == Get(acc, k)
  {
    var xs := Range(|names|);
    var step := Assigning(names, vals);
    assert forall i :: 0 <= i < |xs| && step(xs[i]).Some? ==> step(xs[i]).value.key == names[i];
    EmitUnassigned(acc, xs, step, k);
  }

  /** A run whose names all carry `prefix` keeps every key prefixed, and never duplicates a key. */
  lemma AssigningShape(acc: Record, names: seq<string>, vals: nat -> Option<string>, prefix: string)
    requires AllPrefixed(acc, prefix) && DistinctKeys(acc)
    requires forall i :: 0 <= i < |names| ==> StartsWith(names[i], prefix)
    ensures AllPrefixed(Emit(acc, Range(|names|), Assigning(names, vals)), prefix)
    ensures DistinctKeys(Emit(acc, Range(|names|), Assigning(names, vals)))
  {
    var xs := Range(|names|);
    var step := Assigning(names, vals);
    assert forall i :: 0 <= i < |xs| && step(xs[i]).Some? ==> step(xs[i]).value.key == names[i];
    EmitPrefixed(acc, xs, step, prefix);
    EmitDistinct(acc, xs, step);
  }

  /**
   The host functions the extractor calls but whose internals are not modelled:
   `bytes.decode('utf-8', errors='ignore')`, `str.encode()`, the hex digests of `hashlib`,
   `float(s)`, and the float renderings `f"{x:.Nf}"` and `f"{x}"`.
   */
  datatype Host = Host(
    decode: seq<byte> -> string,
    encode: string -> seq<byte>,
    md5: seq<byte> -> string,
    sha1: seq<byte> -> string,
    sha256: seq<byte> -> string,
    parseFloat: string -> Option<real>,
    fixed: (nat, real) -> string,
    repr: real -> string)

  /** The decoder maps ASCII bytes to the same characters, as UTF-8 decoding does. */
  ghost predicate DecodesAscii(host: Host) {
    forall b: seq<byte> {:trigger host.decode(b)} ::
      (forall i :: 0 <= i < |b| ==> b[i] < 128) ==> host.decode(b) == AsciiText(b)
  }
}
