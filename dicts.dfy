/** Python dictionaries with string keys, kept as the list of their entries in
    insertion order (the order Python iterates them in). */
module Dicts {
  import opened Wrappers

  type Dict<V> = seq<(string, V)>

  /** No key occurs twice, as in every dictionary Python builds. */
  ghost predicate Distinct<V>(d: Dict<V>) {
    forall i, j :: 0 <= i < j < |d| ==> d[i].0 != d[j].0
  }

  /** The first position at or after `i` holding key `k`. */
  function FindFrom<V>(d: Dict<V>, k: string, i: nat): (r: Option<nat>)
    requires i <= |d|
    ensures r.Some? ==> i <= r.value < |d| && d[r.value].0 == k
    ensures r.Some? ==> forall j :: i <= j < r.value ==> d[j].0 != k
    ensures r.None? ==> forall j :: i <= j < |d| ==> d[j].0 != k
    decreases |d| - i
  {
    if i == |d| then None
    else if d[i].0 == k then Some(i)
    else FindFrom(d, k, i + 1)
  }

  /** The position of the entry for `k`, if there is one. */
  function Find<V>(d: Dict<V>, k: string): (r: Option<nat>)
    ensures r.Some? ==> r.value < |d| && d[r.value].0 == k
    ensures r.Some? ==> forall i :: 0 <= i < r.value ==> d[i].0 != k
    ensures r.None? ==> forall i :: 0 <= i < |d| ==> d[i].0 != k
  {
    FindFrom(d, k, 0)
  }

  predicate Has<V>(d: Dict<V>, k: string) {
    Find(d, k).Some?
  }

  /** The value stored under `k`. */
  function Get<V>(d: Dict<V>, k: string): V
    requires Has(d, k)
  {
    d[Find(d, k).value].1
  }

  /** Store `v` under `k`: overwrite the entry in place, or append a new entry at the end
      (a Python dictionary keeps insertion order). */
  function Put<V>(d: Dict<V>, k: string, v: V): (r: Dict<V>)
    ensures Has(d, k) ==> |r| == |d|
    ensures !Has(d, k) ==> r == d + [(k, v)]
    ensures forall i :: 0 <= i < |d| ==> r[i].0 == d[i].0
    ensures forall i :: 0 <= i < |r| ==> r[i] == (k, v) || (i < |d| && r[i] == d[i])
  {
    match Find(d, k)
    case Some(i) => d[i := (k, v)]
    case None => d + [(k, v)]
  }

  /** Find is determined by the keys: the first position holding `k`. */
  lemma FindAt<V>(d: Dict<V>, k: string, i: nat)
    requires i < |d| && d[i].0 == k
    requires forall j :: 0 <= j < i ==> d[j].0 != k
    ensures Find(d, k) == Some(i)
  {
  }

  /** In a dictionary without repeated keys, every entry is found where it is. */
  lemma FindDistinct<V>(d: Dict<V>, i: nat)
    requires Distinct(d) && i < |d|
    ensures Find(d, d[i].0) == Some(i)
    ensures Has(d, d[i].0) && Get(d, d[i].0) == d[i].1
  {
    FindAt(d, d[i].0, i);
  }

  /** Two dictionaries with the same keys in the same order find keys alike. */
  lemma FindSameKeys<V, W>(d: Dict<V>, e: Dict<W>, k: string)
    requires |d| == |e| && forall i :: 0 <= i < |d| ==> d[i].0 == e[i].0
    ensures Find(d, k) == Find(e, k)
  {
    match Find(d, k)
    case Some(i) => FindAt(e, k, i);
    case None =>
  }

  /** Reading back after `d[k] = v`. */
  lemma PutGet<V>(d: Dict<V>, k: string, v: V, x: string)
    ensures Has(Put(d, k, v), x) == (x == k || Has(d, x))
    ensures Has(Put(d, k, v), x) ==> Get(Put(d, k, v), x) == if x == k then v else Get(d, x)
  {
    var r := Put(d, k, v);
    match Find(d, x)
    case Some(i) =>
      if x == k {
        FindAt(r, x, i);
      } else {
        assert r[i] == d[i];
        FindAt(r, x, i);
      }
    case None =>
      if x == k {
        FindAt(r, x, |d|);
      } else {
        assert forall j :: 0 <= j < |r| ==> r[j].0 != x;
      }
  }

  /** `d[k] = v` keeps the keys distinct. */
  lemma PutDistinct<V>(d: Dict<V>, k: string, v: V)
    requires Distinct(d)
    ensures Distinct(Put(d, k, v))
  {
  }

  /** Writing a key twice leaves the second value. */
  lemma PutPut<V>(d: Dict<V>, k: string, v1: V, v2: V)
    ensures Put(Put(d, k, v1), k, v2) == Put(d, k, v2)
  {
    match Find(d, k)
    case Some(i) =>
      FindAt(d[i := (k, v1)], k, i);
    case None =>
      FindAt(d + [(k, v1)], k, |d|);
      assert (d + [(k, v1)])[|d| := (k, v2)] == d + [(k, v2)];
  }

  /** Appending a new key leaves every other key where it was. */
  lemma FindAppend<V>(d: Dict<V>, k: string, v: V, x: string)
    requires Find(d, k).None?
    ensures Find(d + [(k, v)], x) == if x == k then Some(|d|) else Find(d, x)
  {
    if x == k {
      FindAt(d + [(k, v)], x, |d|);
    } else {
      match Find(d, x)
      case Some(i) => FindAt(d + [(k, v)], x, i);
      case None =>
    }
  }
}
