/**
 * A Python dictionary: key/value entries in insertion order. Assigning to a
 * key that is present replaces its value where it stands; assigning to a new
 * key appends an entry at the end.
 */
module PyDict {
  import opened Wrappers

  datatype Entry<V> = Entry(key: string, val: V)

  type Dict<V> = seq<Entry<V>>

  /** The keys of `d`, in insertion order. */
  function Keys<V>(d: Dict<V>): (ks: seq<string>)
    ensures |ks| == |d| && forall i :: 0 <= i < |d| ==> ks[i] == d[i].key
  {
    if d == [] then [] else [d[0].key] + Keys(d[1..])
  }

  /** No key occurs twice. */
  predicate Valid<V>(d: Dict<V>) {
    forall i, j :: 0 <= i < j < |d| ==> d[i].key != d[j].key
  }

  /** `d.get(k)`: the value stored under `k`, if any. */
  function Get<V>(d: Dict<V>, k: string): (r: Option<V>)
    ensures r.Some? <==> k in Keys(d)
    ensures Valid(d) ==> forall i :: 0 <= i < |d| && d[i].key == k ==> r == Some(d[i].val)
  {
    if d == [] then None
    else if d[0].key == k then Some(d[0].val)
    else Get(d[1..], k)
  }

  /** In a dictionary with distinct keys, an entry's key does not occur among the earlier entries. */
  lemma ValidFreshKey<V>(d: Dict<V>, i: nat)
    requires Valid(d) && i < |d|
    ensures d[i].key !in Keys(d[..i])
  {
    var ks := Keys(d[..i]);
    forall j | 0 <= j < |ks| ensures ks[j] != d[i].key {
      assert ks[j] == d[..i][j].key == d[j].key;
    }
  }

  /** A dictionary with distinct keys is its earlier entries, still distinct, followed by an entry with a fresh key. */
  lemma ValidSplitLast<V>(d: Dict<V>)
    requires Valid(d) && d != []
    ensures Valid(d[..|d| - 1]) && d == d[..|d| - 1] + [d[|d| - 1]]
    ensures d[|d| - 1].key !in Keys(d[..|d| - 1])
  {
    var n := |d| - 1;
    assert forall j :: 0 <= j < n ==> d[..n][j] == d[j];
    ValidFreshKey(d, n);
  }

  /** `d[k] = v`. */
  function Put<V>(d: Dict<V>, k: string, v: V): (r: Dict<V>)
    ensures Keys(r) == if k in Keys(d) then Keys(d) else Keys(d) + [k]
  {
    if d == [] then [Entry(k, v)]
    else if d[0].key == k then [Entry(k, v)] + d[1..]
    else [d[0]] + Put(d[1..], k, v)
  }

  /** After `d[k] = v`, `k` holds `v` and every other key holds what it held. */
  lemma {:induction false} PutGet<V>(d: Dict<V>, k: string, v: V, k': string)
    ensures Get(Put(d, k, v), k') == if k' == k then Some(v) else Get(d, k')
  {
    if d != [] && d[0].key != k {
      var r := Put(d, k, v);
      assert r[1..] == Put(d[1..], k, v);
      PutGet(d[1..], k, v, k');
    } else if d != [] {
      assert Put(d, k, v)[1..] == d[1..];
    }
  }

  /** `PutGet` for every key at once. */
  lemma PutGetAll<V>(d: Dict<V>, k: string, v: V)
    ensures forall k' :: Get(Put(d, k, v), k') == if k' == k then Some(v) else Get(d, k')
  {
    forall k' ensures Get(Put(d, k, v), k') == if k' == k then Some(v) else Get(d, k') {
      PutGet(d, k, v, k');
    }
  }

  /** `d[k] = v` never makes a key occur twice. */
  lemma PutValid<V>(d: Dict<V>, k: string, v: V)
    requires Valid(d)
    ensures Valid(Put(d, k, v))
  {
    var r := Put(d, k, v);
    assert forall i :: 0 <= i < |r| ==> r[i].key == Keys(r)[i];
  }

  /** `d.update(e)`: the entries of `e` assigned into `d`, one after another. */
  function Update<V>(d: Dict<V>, e: Dict<V>): (r: Dict<V>)
    ensures |Keys(r)| >= |Keys(d)| && Keys(r)[..|Keys(d)|] == Keys(d)
    ensures forall k :: k in Keys(r) <==> k in Keys(d) || k in Keys(e)
    decreases |e|
  {
    if e == [] then d
    else
      var d' := Put(d, e[0].key, e[0].val);
      var r := Update(d', e[1..]);
      assert Keys(r)[..|Keys(d)|] == Keys(d) by {
        assert Keys(r)[..|Keys(d')|] == Keys(d');
        assert Keys(d')[..|Keys(d)|] == Keys(d);
      }
      r
  }

  /** `d.update(e)` never makes a key occur twice. */
  lemma {:induction false} UpdateValid<V>(d: Dict<V>, e: Dict<V>)
    requires Valid(d)
    ensures Valid(Update(d, e))
    decreases |e|
  {
    if e != [] {
      PutValid(d, e[0].key, e[0].val);
      UpdateValid(Put(d, e[0].key, e[0].val), e[1..]);
    }
  }

  /** After `d.update(e)` a key has its value in `e` if it has one there, and its value in `d` otherwise. */
  lemma {:induction false} UpdateGet<V>(d: Dict<V>, e: Dict<V>, k: string)
    requires Valid(e)
    ensures Get(Update(d, e), k) == if k in Keys(e) then Get(e, k) else Get(d, k)
    decreases |e|
  {
    if e != [] {
      var e0, rest := e[0], e[1..];
      var d' := Put(d, e0.key, e0.val);
      assert Valid(rest);
      assert Update(d, e) == Update(d', rest);
      assert Keys(e) == [e0.key] + Keys(rest);
      UpdateGet(d', rest, k);
      PutGet(d, e0.key, e0.val, k);
      if k == e0.key {
        assert k !in Keys(rest);
      } else {
        assert Get(e, k) == Get(rest, k);
      }
    }
  }

  /** Looking a key up in a dictionary extended at the end finds the earlier entry first. */
  lemma {:induction false} GetAppend<V>(d: Dict<V>, e: Entry<V>, k: string)
    ensures Get(d + [e], k) == if k in Keys(d) then Get(d, k) else if e.key == k then Some(e.val) else None
  {
    if d != [] {
      assert (d + [e])[1..] == d[1..] + [e];
      if d[0].key != k {
        GetAppend(d[1..], e, k);
      }
    }
  }
}
