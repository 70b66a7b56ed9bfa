/**
 Python dictionaries as ordered association lists. Assignment `d[k] = v` keeps the
 position of an existing key and appends a new one; `a.update(b)` assigns the items of
 `b` in order. Assignment never introduces a second copy of a key, so every record the
 extractor builds has distinct keys (`DistinctKeys`); several analyses depend on the
 iteration order.
 */
module Dicts {
  import opened Wrappers

  datatype Item<+V> = Item(key: string, value: V)

  /** A dictionary in iteration order. */
  type Dict<V> = seq<Item<V>>

  /** The keys in iteration order. */
  function KeysOf<V>(s: Dict<V>): (ks: seq<string>)
    ensures |ks| == |s|
    ensures forall i :: 0 <= i < |s| ==> ks[i] == s[i].key
  {
    seq(|s|, i requires 0 <= i < |s| => s[i].key)
  }

  /** No key occurs twice, as in every Python dictionary. */
  ghost predicate DistinctKeys<V>(s: Dict<V>) {
    forall i, j | 0 <= i < j < |s| :: s[i].key != s[j].key
  }

  /** The position of `k` in `d`, or -1. */
  function IndexOf<V>(d: Dict<V>, k: string): (i: int)
    ensures -1 <= i < |d|
    ensures i >= 0 ==> d[i].key == k && forall j :: 0 <= j < i ==> d[j].key != k
    ensures i == -1 <==> k !in KeysOf(d)
  {
    if |d| == 0 then -1
    else if d[0].key == k then 0
    else
      assert KeysOf(d) == [d[0].key] + KeysOf(d[1..]);
      var j := IndexOf(d[1..], k);
      if j < 0 then -1 else j + 1
  }

  /** `IndexOf` is the first position holding the key. */
  lemma IndexOfFirst<V>(d: Dict<V>, k: string, i: nat)
    requires i < |d| && d[i].key == k
    requires forall j :: 0 <= j < i ==> d[j].key != k
    ensures IndexOf(d, k) == i
  {
    assert k in KeysOf(d) by { assert KeysOf(d)[i] == k; }
  }

  /** `d.get(k)`. */
  function Get<V>(d: Dict<V>, k: string): (r: Option<V>)
    ensures r.Some? <==> k in KeysOf(d)
  {
    var i := IndexOf(d, k);
    if i < 0 then None else Some(d[i].value)
  }

  /** In a dictionary, an item is what `Get` reports for its key. */
  lemma GetItem<V>(d: Dict<V>, i: nat)
    requires DistinctKeys(d) && i < |d|
    ensures Get(d, d[i].key) == Some(d[i].value)
  {
    IndexOfFirst(d, d[i].key, i);
  }

  /** Looking a key up past the first item. */
  lemma GetTail<V>(d: Dict<V>, k: string)
    requires |d| > 0
    ensures Get(d, k) == if d[0].key == k then Some(d[0].value) else Get(d[1..], k)
  {
  }

  /** Looking a key up in two dictionaries laid end to end finds the first one's item first. */
  lemma GetConcat<V>(a: Dict<V>, b: Dict<V>, k: string)
    ensures Get(a + b, k) == if k in KeysOf(a) then Get(a, k) else Get(b, k)
  {
    if IndexOf(a, k) >= 0 {
      GetConcatFirst(a, b, k);
    } else if IndexOf(b, k) >= 0 {
      GetConcatSecond(a, b, k);
    } else {
      GetConcatNeither(a, b, k);
    }
  }

  lemma GetConcatFirst<V>(a: Dict<V>, b: Dict<V>, k: string)
    requires IndexOf(a, k) >= 0
    ensures IndexOf(a + b, k) == IndexOf(a, k)
  {
    var i := IndexOf(a, k);
    assert forall t :: 0 <= t <= i ==> (a + b)[t] == a[t];
    IndexOfFirst(a + b, k, i);
  }

  lemma GetConcatSecond<V>(a: Dict<V>, b: Dict<V>, k: string)
    requires IndexOf(a, k) < 0 && IndexOf(b, k) >= 0
    ensures IndexOf(a + b, k) == |a| + IndexOf(b, k)
  {
    var j := IndexOf(b, k);
    assert forall t :: 0 <= t < |a| ==> (a + b)[t].key == KeysOf(a)[t];
    assert forall t :: |a| <= t <= |a| + j ==> (a + b)[t] == b[t - |a|];
    IndexOfFirst(a + b, k, |a| + j);
  }

  lemma GetConcatNeither<V>(a: Dict<V>, b: Dict<V>, k: string)
    requires IndexOf(a, k) < 0 && IndexOf(b, k) < 0
    ensures IndexOf(a + b, k) < 0
  {
    assert forall t :: 0 <= t < |a| ==> (a + b)[t].key == KeysOf(a)[t];
    assert forall t :: |a| <= t < |a| + |b| ==> (a + b)[t].key == KeysOf(b)[t - |a|];
    assert forall t :: 0 <= t < |a + b| ==> KeysOf(a + b)[t] != k;
  }

  /** Two sequences with the same keys place every key alike. */
  lemma IndexOfSameKeys<V>(d: Dict<V>, r: Dict<V>, k: string)
    requires |r| == |d| && forall j :: 0 <= j < |d| ==> r[j].key == d[j].key
    ensures IndexOf(r, k) == IndexOf(d, k)
  {
    if IndexOf(d, k) >= 0 {
      IndexOfFirst(r, k, IndexOf(d, k));
    } else {
      assert forall j :: 0 <= j < |d| ==> KeysOf(d)[j] != k;
      assert forall j :: 0 <= j < |r| ==> KeysOf(r)[j] != k;
    }
  }

  /** `d[k] = v`. */
  function Set<V>(d: Dict<V>, k: string, v: V): (r: Dict<V>)
    ensures Get(r, k) == Some(v)
    ensures forall k' :: k' != k ==> Get(r, k') == Get(d, k')
    ensures |d| <= |r| <= |d| + 1
  {
    var i := IndexOf(d, k);
    if i < 0 then
      var r := d + [Item(k, v)];
      IndexOfFirst(r, k, |d|);
      assert forall k' :: k' != k ==> Get(r, k') == Get(d, k') by {
        forall k' | k' != k
          ensures Get(r, k') == Get(d, k')
        {
          AppendGet(d, k, v, k');
        }
      }
      r
    else
      var r := d[i := Item(k, v)];
      IndexOfFirst(r, k, i);
      assert forall k' :: k' != k ==> Get(r, k') == Get(d, k') by {
        forall k' | k' != k
          ensures Get(r, k') == Get(d, k')
        {
          IndexOfSameKeys(d, r, k');
        }
      }
      r
  }

  lemma AppendGet<V>(d: Dict<V>, k: string, v: V, k': string)
    requires k' != k
    ensures Get(d + [Item(k, v)], k') == Get(d, k')
  {
    var r := d + [Item(k, v)];
    if IndexOf(d, k') >= 0 {
      IndexOfFirst(r, k', IndexOf(d, k'));
    } else {
      assert forall j :: 0 <= j < |d| ==> KeysOf(d)[j] != k';
      assert forall j :: 0 <= j < |r| ==> KeysOf(r)[j] != k';
    }
  }

  /** Assignment keeps an existing key in place and appends a new one. */
  lemma SetKeys<V>(d: Dict<V>, k: string, v: V)
    ensures KeysOf(Set(d, k, v)) == if k in KeysOf(d) then KeysOf(d) else KeysOf(d) + [k]
  {
    var i := IndexOf(d, k);
    if i < 0 {
      assert KeysOf(d + [Item(k, v)]) == KeysOf(d) + [k];
    } else {
      assert KeysOf(d[i := Item(k, v)]) == KeysOf(d);
    }
  }

  /** Assigning a key the dictionary lacks appends it as the last item. */
  lemma SetAppends<V>(d: Dict<V>, k: string, v: V)
    requires k !in KeysOf(d)
    ensures Set(d, k, v) == d + [Item(k, v)]
  {
  }

  /** Assignment keeps every existing key at its position. */
  lemma SetKeepsPosition<V>(d: Dict<V>, k: string, v: V, i: nat)
    requires i < |d|
    ensures i < |Set(d, k, v)| && Set(d, k, v)[i].key == d[i].key
  {
  }

  /** Assignment never duplicates a key. */
  lemma SetDistinct<V>(d: Dict<V>, k: string, v: V)
    requires DistinctKeys(d)
    ensures DistinctKeys(Set(d, k, v))
  {
    var i := IndexOf(d, k);
    if i < 0 {
      assert forall j :: 0 <= j < |d| ==> KeysOf(d)[j] != k;
    }
  }

  /** `a.update(b)`: the items of `b` assigned in order. */
  function Update<V>(a: Dict<V>, b: Dict<V>): Dict<V>
    decreases |b|
  {
    if |b| == 0 then a else Update(Set(a, b[0].key, b[0].value), b[1..])
  }

  /** After `a.update(b)` a key reads as in `b` when `b` has it, otherwise as in `a`. */
  lemma {:induction false} UpdateGet<V>(a: Dict<V>, b: Dict<V>, k: string)
    requires DistinctKeys(b)
    ensures Get(Update(a, b), k) == if k in KeysOf(b) then Get(b, k) else Get(a, k)
    decreases |b|
  {
    if |b| > 0 {
      var t := b[1..];
      var a' := Set(a, b[0].key, b[0].value);
      assert DistinctKeys(t);
      UpdateGet(a', t, k);
      TailKeys(b, k);
      if k == b[0].key {
        UpdateGetFirst(a', b, k, Get(Update(a', t), k));
      } else {
        UpdateGetLater(a, b, k, Get(Update(a', t), k));
      }
    }
  }

  /** A key `b` does not carry reads after `a.update(b)` as it did in `a`. */
  lemma {:induction false} UpdateGetAbsent<V>(a: Dict<V>, b: Dict<V>, k: string)
    requires k !in KeysOf(b)
    ensures Get(Update(a, b), k) == Get(a, k)
    decreases |b|
  {
    if |b| > 0 {
      assert KeysOf(b) == [b[0].key] + KeysOf(b[1..]);
      UpdateGetAbsent(Set(a, b[0].key, b[0].value), b[1..], k);
    }
  }

  /** After `a.update(b)` a key reads as its last item in `b`, whether or not `b` repeats it. */
  lemma {:induction false} UpdateLast<V>(a: Dict<V>, b: Dict<V>, i: nat)
    requires i < |b| && forall m :: i < m < |b| ==> b[m].key != b[i].key
    ensures Get(Update(a, b), b[i].key) == Some(b[i].value)
    decreases |b|
  {
    var a' := Set(a, b[0].key, b[0].value);
    if i == 0 {
      var tail := KeysOf(b[1..]);
      forall m | 0 <= m < |tail|
        ensures tail[m] != b[0].key
      {
        assert tail[m] == b[m + 1].key;
      }
      UpdateGetAbsent(a', b[1..], b[0].key);
    } else {
      assert b[1..][i - 1] == b[i];
      UpdateLast(a', b[1..], i - 1);
    }
  }

  /** The keys past the first item, and whether the first key recurs. */
  lemma TailKeys<V>(b: Dict<V>, k: string)
    requires |b| > 0 && DistinctKeys(b)
    ensures (k in KeysOf(b)) == (k == b[0].key || k in KeysOf(b[1..]))
    ensures b[0].key !in KeysOf(b[1..])
  {
    var tail := KeysOf(b[1..]);
    assert KeysOf(b) == [b[0].key] + tail;
    forall j | 0 <= j < |tail|
      ensures tail[j] != b[0].key
    {
      assert tail[j] == b[j + 1].key;
    }
  }

  lemma UpdateGetFirst<V>(a': Dict<V>, b: Dict<V>, k: string, got: Option<V>)
    requires |b| > 0 && k == b[0].key && k !in KeysOf(b[1..])
    requires Get(a', k) == Some(b[0].value)
    requires got == if k in KeysOf(b[1..]) then Get(b[1..], k) else Get(a', k)
    ensures got == Get(b, k)
  {
    GetTail(b, k);
  }

  lemma UpdateGetLater<V>(a: Dict<V>, b: Dict<V>, k: string, got: Option<V>)
    requires |b| > 0 && k != b[0].key
    requires (k in KeysOf(b)) == (k in KeysOf(b[1..]))
    requires got == if k in KeysOf(b[1..]) then Get(b[1..], k) else Get(Set(a, b[0].key, b[0].value), k)
    ensures got == if k in KeysOf(b) then Get(b, k) else Get(a, k)
  {
    GetTail(b, k);
  }

  /** `a.update(b)` keeps every key of `a` at its position; new keys come after them. */
  lemma {:induction false} UpdateKeepsPosition<V>(a: Dict<V>, b: Dict<V>, i: nat)
    requires i < |a|
    ensures i < |Update(a, b)| && Update(a, b)[i].key == a[i].key
    decreases |b|
  {
    if |b| > 0 {
      SetKeepsPosition(a, b[0].key, b[0].value, i);
      UpdateKeepsPosition(Set(a, b[0].key, b[0].value), b[1..], i);
    }
  }

  /** `a.update(b)` never duplicates a key. */
  lemma {:induction false} UpdateDistinct<V>(a: Dict<V>, b: Dict<V>)
    requires DistinctKeys(a)
    ensures DistinctKeys(Update(a, b))
    decreases |b|
  {
    if |b| > 0 {
      SetDistinct(a, b[0].key, b[0].value);
      UpdateDistinct(Set(a, b[0].key, b[0].value), b[1..]);
    }
  }

  /** Successive `update`s into an empty dictionary: `m = {}; m.update(p0); m.update(p1); ...`. */
  function Merge<V>(parts: seq<Dict<V>>): Dict<V>
    decreases |parts|
  {
    if |parts| == 0 then [] else Update(Merge(parts[..|parts| - 1]), parts[|parts| - 1])
  }

  /** The reference reading of a merge: the value of `k` in the last part that has it. */
  function LastHolder<V>(parts: seq<Dict<V>>, k: string): Option<V>
    decreases |parts|
  {
    if |parts| == 0 then None
    else if k in KeysOf(parts[|parts| - 1]) then Get(parts[|parts| - 1], k)
    else LastHolder(parts[..|parts| - 1], k)
  }

  /** A later part overwrites an earlier one on a shared key. */
  lemma {:induction false} MergeGet<V>(parts: seq<Dict<V>>, k: string)
    requires forall i :: 0 <= i < |parts| ==> DistinctKeys(parts[i])
    ensures Get(Merge(parts), k) == LastHolder(parts, k)
    decreases |parts|
  {
    if |parts| > 0 {
      MergeGet(parts[..|parts| - 1], k);
      UpdateGet(Merge(parts[..|parts| - 1]), parts[|parts| - 1], k);
    }
  }

  /** A key no part carries is absent from the merge. */
  lemma {:induction false} MergeAbsent<V>(parts: seq<Dict<V>>, k: string)
    requires forall i :: 0 <= i < |parts| ==> k !in KeysOf(parts[i])
    ensures Get(Merge(parts), k) == None
    decreases |parts|
  {
    if |parts| > 0 {
      var init := parts[..|parts| - 1];
      assert forall i :: 0 <= i < |init| ==> init[i] == parts[i];
      MergeAbsent(init, k);
      UpdateGetAbsent(Merge(init), parts[|parts| - 1], k);
    }
  }

  /** A key only one part carries reads in the merge as in that part, wherever the part stands. */
  lemma {:induction false} MergeOwned<V>(parts: seq<Dict<V>>, j: nat, k: string)
    requires j < |parts| && DistinctKeys(parts[j])
    requires forall i :: 0 <= i < |parts| && i != j ==> k !in KeysOf(parts[i])
    ensures Get(Merge(parts), k) == Get(parts[j], k)
    decreases |parts|
  {
    var n := |parts| - 1;
    var init := parts[..n];
    assert Merge(parts) == Update(Merge(init), parts[n]);
    if j < n {
      assert init[j] == parts[j];
      assert forall i :: 0 <= i < |init| && i != j ==> k !in KeysOf(init[i]) by {
        forall i | 0 <= i < |init| && i != j
          ensures k !in KeysOf(init[i])
        {
          assert init[i] == parts[i];
        }
      }
      MergeOwned(init, j, k);
      UpdateGetAbsent(Merge(init), parts[n], k);
    } else {
      assert forall i :: 0 <= i < |init| ==> k !in KeysOf(init[i]) by {
        forall i | 0 <= i < |init|
          ensures k !in KeysOf(init[i])
        {
          assert init[i] == parts[i];
        }
      }
      MergeAbsent(init, k);
      UpdateGet(Merge(init), parts[n], k);
    }
  }

  /** A merge never duplicates a key. */
  lemma {:induction false} MergeDistinct<V>(parts: seq<Dict<V>>)
    ensures DistinctKeys(Merge(parts))
    decreases |parts|
  {
    if |parts| > 0 {
      MergeDistinct(parts[..|parts| - 1]);
      UpdateDistinct(Merge(parts[..|parts| - 1]), parts[|parts| - 1]);
    }
  }

  /** Nothing after the last part can overwrite it: its keys read as it says. */
  lemma MergeLast<V>(parts: seq<Dict<V>>, k: string)
    requires |parts| > 0 && DistinctKeys(parts[|parts| - 1]) && k in KeysOf(parts[|parts| - 1])
    ensures Get(Merge(parts), k) == Get(parts[|parts| - 1], k)
  {
    UpdateGet(Merge(parts[..|parts| - 1]), parts[|parts| - 1], k);
  }

  // ------------------------------------------------------------ loops that assign

  /**
   A loop `for x in xs: if ...: d[key(x)] = value(x)` starting from `acc`:
   `step` says which assignment, if any, an element makes.
   */
  function Emit<T, V>(acc: Dict<V>, xs: seq<T>, step: T -> Option<Item<V>>): (r: Dict<V>)
    ensures |acc| <= |r| <= |acc| + |xs|
    decreases |xs|
  {
    if |xs| == 0 then acc
    else
      var d := Emit(acc, xs[..|xs| - 1], step);
      match step(xs[|xs| - 1])
      case None => d
      case Some(it) => Set(d, it.key, it.value)
  }

  /** The reference reading of such a loop: the value the last element assigning `k` gives it. */
  function LastAssigned<T, V>(xs: seq<T>, step: T -> Option<Item<V>>, k: string): Option<V>
    decreases |xs|
  {
    if |xs| == 0 then None
    else match step(xs[|xs| - 1])
      case Some(it) => if it.key == k then Some(it.value) else LastAssigned(xs[..|xs| - 1], step, k)
      case None => LastAssigned(xs[..|xs| - 1], step, k)
  }

  /** After the loop a key holds its last assigned value, or its value before the loop. */
  lemma {:induction false} EmitGet<T, V>(acc: Dict<V>, xs: seq<T>, step: T -> Option<Item<V>>, k: string)
    ensures Get(Emit(acc, xs, step), k) == match LastAssigned(xs, step, k)
      case Some(v) => Some(v)
      case None => Get(acc, k)
    decreases |xs|
  {
    if |xs| > 0 {
      EmitGet(acc, xs[..|xs| - 1], step, k);
    }
  }

  /** Such a loop never duplicates a key. */
  lemma {:induction false} EmitDistinct<T, V>(acc: Dict<V>, xs: seq<T>, step: T -> Option<Item<V>>)
    requires DistinctKeys(acc)
    ensures DistinctKeys(Emit(acc, xs, step))
    decreases |xs|
  {
    if |xs| > 0 {
      EmitDistinct(acc, xs[..|xs| - 1], step);
      var d := Emit(acc, xs[..|xs| - 1], step);
      match step(xs[|xs| - 1])
      case None =>
      case Some(it) => SetDistinct(d, it.key, it.value);
    }
  }

  /** Such a loop keeps every key it started with at its position. */
  lemma {:induction false} EmitKeepsPosition<T, V>(acc: Dict<V>, xs: seq<T>, step: T -> Option<Item<V>>, i: nat)
    requires i < |acc|
    ensures i < |Emit(acc, xs, step)| && Emit(acc, xs, step)[i].key == acc[i].key
    decreases |xs|
  {
    if |xs| > 0 {
      EmitKeepsPosition(acc, xs[..|xs| - 1], step, i);
      var d := Emit(acc, xs[..|xs| - 1], step);
      match step(xs[|xs| - 1])
      case None =>
      case Some(it) => SetKeepsPosition(d, it.key, it.value, i);
    }
  }

  /** Some element assigns `k` exactly when the reference reading has a value for it. */
  lemma {:induction false} LastAssignedSome<T, V>(xs: seq<T>, step: T -> Option<Item<V>>, k: string)
    ensures LastAssigned(xs, step, k).Some? <==>
      exists i :: 0 <= i < |xs| && step(xs[i]).Some? && step(xs[i]).value.key == k
    decreases |xs|
  {
    if |xs| > 0 {
      var init := xs[..|xs| - 1];
      LastAssignedSome(init, step, k);
      assert forall i :: 0 <= i < |init| ==> init[i] == xs[i];
    }
  }

  /** When a single element assigns `k`, the reference reading is its value. */
  lemma {:induction false} LastAssignedOnly<T, V>(xs: seq<T>, step: T -> Option<Item<V>>, i: nat, k: string, v: V)
    requires i < |xs| && step(xs[i]) == Some(Item(k, v))
    requires forall j :: 0 <= j < |xs| && j != i && step(xs[j]).Some? ==> step(xs[j]).value.key != k
    ensures LastAssigned(xs, step, k) == Some(v)
    decreases |xs|
  {
    var init := xs[..|xs| - 1];
    assert forall j :: 0 <= j < |init| ==> init[j] == xs[j];
    if i < |xs| - 1 {
      LastAssignedOnly(init, step, i, k, v);
    }
  }

  /** A key some element assigns is in the result of the loop. */
  /** When no later element assigns `k`, the reference reading is the value this one gives it. */
  lemma {:induction false} LastAssignedAt<T, V>(xs: seq<T>, step: T -> Option<Item<V>>, i: nat, k: string, v: V)
    requires i < |xs| && step(xs[i]) == Some(Item(k, v))
    requires forall j :: i < j < |xs| && step(xs[j]).Some? ==> step(xs[j]).value.key != k
    ensures LastAssigned(xs, step, k) == Some(v)
    decreases |xs|
  {
    var init := xs[..|xs| - 1];
    if i < |xs| - 1 {
      assert forall j :: i < j < |init| ==> init[j] == xs[j];
      assert init[i] == xs[i];
      LastAssignedAt(init, step, i, k, v);
    }
  }

  lemma EmitAssignedPresent<T, V>(acc: Dict<V>, xs: seq<T>, step: T -> Option<Item<V>>, i: nat, k: string)
    requires i < |xs| && step(xs[i]).Some? && step(xs[i]).value.key == k
    ensures k in KeysOf(Emit(acc, xs, step))
  {
    EmitGet(acc, xs, step, k);
    LastAssignedSome(xs, step, k);
  }

  /** A key no element assigns reads after the loop as before it. */
  lemma EmitUnassigned<T, V>(acc: Dict<V>, xs: seq<T>, step: T -> Option<Item<V>>, k: string)
    requires forall i :: 0 <= i < |xs| && step(xs[i]).Some? ==> step(xs[i]).value.key != k
    ensures Get(Emit(acc, xs, step), k) == Get(acc, k)
  {
    EmitGet(acc, xs, step, k);
    LastAssignedSome(xs, step, k);
  }

  /** The items of `d` that `keep` accepts, in order. */
  function Select<V>(d: Dict<V>, keep: Item<V> -> bool): (r: Dict<V>)
    ensures |r| <= |d|
    ensures forall i :: 0 <= i < |r| ==> keep(r[i]) && r[i] in d
    ensures forall i :: 0 <= i < |d| && keep(d[i]) ==> d[i] in r
    decreases |d|
  {
    if |d| == 0 then []
    else
      var r := Select(d[..|d| - 1], keep);
      assert forall i :: 0 <= i < |d| - 1 ==> d[i] == d[..|d| - 1][i];
      if keep(d[|d| - 1]) then r + [d[|d| - 1]] else r
  }

  /** The step of a loop `for k, v in d.items(): if keep: out[k] = v`. */
  function Keeping<V>(keep: Item<V> -> bool): Item<V> -> Option<Item<V>> {
    it => if keep(it) then Some(it) else None
  }

  /** An accepted item is copied as it is, a refused one skipped. */
  lemma KeepingStep<V>(keep: Item<V> -> bool, it: Item<V>)
    ensures Keeping(keep)(it) == (if keep(it) then Some(it) else None)
  {
  }

  /** Copying the accepted items of a dictionary into an empty one keeps them in order. */
  lemma {:induction false} EmitSelect<V>(d: Dict<V>, keep: Item<V> -> bool)
    requires DistinctKeys(d)
    ensures Emit([], d, Keeping(keep)) == Select(d, keep)
    decreases |d|
  {
    if |d| > 0 {
      var init := d[..|d| - 1];
      var last := d[|d| - 1];
      EmitSelect(init, keep);
      var r := Select(init, keep);
      if keep(last) {
        assert last.key !in KeysOf(r) by {
          forall i | 0 <= i < |r|
            ensures KeysOf(r)[i] != last.key
          {
            assert r[i] in init;
            var j :| 0 <= j < |init| && init[j] == r[i];
            assert d[j] == init[j];
          }
        }
      }
    }
  }

  /** Assignment keeps a property every item has, when the new item has it too. */
  lemma SetAll<V>(d: Dict<V>, k: string, v: V, P: Item<V> -> bool)
    requires forall i :: 0 <= i < |d| ==> P(d[i])
    requires P(Item(k, v))
    ensures forall i :: 0 <= i < |Set(d, k, v)| ==> P(Set(d, k, v)[i])
  {
  }

  /** A loop that only assigns items with a property keeps every item with it. */
  lemma {:induction false} EmitAll<T, V>(acc: Dict<V>, xs: seq<T>, step: T -> Option<Item<V>>, P: Item<V> -> bool)
    requires forall i :: 0 <= i < |acc| ==> P(acc[i])
    requires forall i :: 0 <= i < |xs| && step(xs[i]).Some? ==> P(step(xs[i]).value)
    ensures forall i :: 0 <= i < |Emit(acc, xs, step)| ==> P(Emit(acc, xs, step)[i])
    decreases |xs|
  {
    if |xs| > 0 {
      var init := xs[..|xs| - 1];
      assert forall i :: 0 <= i < |init| ==> init[i] == xs[i];
      EmitAll(acc, init, step, P);
      match step(xs[|xs| - 1])
      case None =>
      case Some(it) => SetAll(Emit(acc, init, step), it.key, it.value, P);
    }
  }

  /** A loop that assigns nothing leaves the dictionary as it was. */
  lemma {:induction false} EmitNothing<T, V>(acc: Dict<V>, xs: seq<T>, step: T -> Option<Item<V>>)
    requires forall i :: 0 <= i < |xs| ==> step(xs[i]).None?
    ensures Emit(acc, xs, step) == acc
    decreases |xs|
  {
    if |xs| > 0 {
      EmitNothing(acc, xs[..|xs| - 1], step);
    }
  }
}
