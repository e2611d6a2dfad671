/** A Python `dict` as the programs use it: keys in insertion order, and
    `d[k] = v` on a key already present replaces the value where the key
    already stands instead of moving it to the end. */
module PyDict {
  import opened Wrappers

  type Dict<K, V> = seq<(K, V)>

  function Keys<K, V>(d: Dict<K, V>): (ks: seq<K>)
    ensures |ks| == |d| && forall i :: 0 <= i < |d| ==> ks[i] == d[i].0
  {
    seq(|d|, i requires 0 <= i < |d| => d[i].0)
  }

  /** No key occurs twice: the shape every dict has. */
  ghost predicate UniqueKeys<K, V>(d: Dict<K, V>)
  {
    forall i, j :: 0 <= i < j < |d| ==> d[i].0 != d[j].0
  }

  /** The position of `k` among the keys. */
  function IndexOf<K(==), V>(d: Dict<K, V>, k: K): (r: Option<nat>)
    ensures r.Some? ==> r.value < |d| && d[r.value].0 == k
    ensures r.None? ==> forall i :: 0 <= i < |d| ==> d[i].0 != k
  {
    if d == [] then None
    else if d[0].0 == k then Some(0)
    else
      var r := IndexOf(d[1..], k);
      if r.Some? then Some(r.value + 1) else None
  }

  /** `d.get(k)` */
  function Get<K(==), V>(d: Dict<K, V>, k: K): Option<V>
  {
    match IndexOf(d, k)
    case None => None
    case Some(i) => Some(d[i].1)
  }

  /** `d[k] = v` */
  function Put<K(==), V>(d: Dict<K, V>, k: K, v: V): (r: Dict<K, V>)
    ensures UniqueKeys(d) ==> UniqueKeys(r)
    ensures IndexOf(d, k).None? ==> r == d + [(k, v)]
    ensures IndexOf(d, k).Some? ==> Keys(r) == Keys(d)
    ensures forall i :: 0 <= i < |d| && d[i].0 != k ==> r[i] == d[i]
  {
    match IndexOf(d, k)
    case None => d + [(k, v)]
    case Some(i) => d[i := (k, v)]
  }

  /** In a dict with unique keys, `Get` finds the value stored at a key's position. */
  lemma GetAt<K, V>(d: Dict<K, V>, i: nat)
    requires UniqueKeys(d) && i < |d|
    ensures Get(d, d[i].0) == Some(d[i].1)
  {
    var r := IndexOf(d, d[i].0);
    assert r.Some?;
    assert r.value == i;
  }

  /** After `d[k] = v`, looking `k` up gives `v` and every other key keeps its value. */
  lemma GetPut<K, V>(d: Dict<K, V>, k: K, v: V, k': K)
    requires UniqueKeys(d)
    ensures Get(Put(d, k, v), k') == if k' == k then Some(v) else Get(d, k')
  {
    var r := Put(d, k, v);
    assert UniqueKeys(r);
    match IndexOf(d, k)
    case None =>
      if k' == k {
        GetAt(r, |d|);
      } else if IndexOf(d, k').Some? {
        GetAt(r, IndexOf(d, k').value);
      } else {
        assert forall i :: 0 <= i < |r| ==> r[i].0 != k';
      }
    case Some(i) =>
      if k' == k {
        GetAt(r, i);
      } else if IndexOf(d, k').Some? {
        GetAt(r, IndexOf(d, k').value);
      } else {
        assert forall j :: 0 <= j < |r| ==> r[j].0 != k';
      }
  }

  lemma KeysPut<K, V>(d: Dict<K, V>, k: K, v: V)
    ensures Keys(Put(d, k, v)) == if k in Keys(d) then Keys(d) else Keys(d) + [k]
  {
    if IndexOf(d, k).None? {
      assert k !in Keys(d);
      assert Keys(d + [(k, v)]) == Keys(d) + [k];
    } else {
      assert d[IndexOf(d, k).value].0 == k;
      assert k in Keys(d);
    }
  }

  /** The dict that `d[k] = v` for each entry in turn builds from `{}`. */
  function FromEntries<K(==), V>(entries: seq<(K, V)>): Dict<K, V>
  {
    if entries == [] then []
    else
      var last := entries[|entries| - 1];
      Put(FromEntries(entries[..|entries| - 1]), last.0, last.1)
  }

  /** The keys of a list, each kept where it first appears. */
  function FirstAppearance<K(==)>(ks: seq<K>): seq<K>
  {
    if ks == [] then []
    else
      var p := FirstAppearance(ks[..|ks| - 1]);
      if ks[|ks| - 1] in p then p else p + [ks[|ks| - 1]]
  }

  /** The value of the LAST entry with key `k`, if any entry has it. */
  function LastValue<K(==), V>(entries: seq<(K, V)>, k: K): Option<V>
  {
    if entries == [] then None
    else if entries[|entries| - 1].0 == k then Some(entries[|entries| - 1].1)
    else LastValue(entries[..|entries| - 1], k)
  }

  /** Building a dict from entries keeps each key once, in order of first
      appearance, with the value of the last entry that has it. */
  lemma {:induction false} FromEntriesContents<K, V>(entries: seq<(K, V)>)
    ensures UniqueKeys(FromEntries(entries))
    ensures Keys(FromEntries(entries)) == FirstAppearance(Keys(entries))
    ensures forall k :: Get(FromEntries(entries), k) == LastValue(entries, k)
  {
    if entries != [] {
      var p := entries[..|entries| - 1];
      var e := entries[|entries| - 1];
      FromEntriesContents(p);
      var d := FromEntries(p);
      assert Keys(entries)[..|entries| - 1] == Keys(p);
      KeysPut(d, e.0, e.1);
      forall k ensures Get(FromEntries(entries), k) == LastValue(entries, k) {
        GetPut(d, e.0, e.1, k);
      }
    }
  }

  /** A dict rebuilt from its own items, in order, is the same dict. */
  lemma {:induction false} FromEntriesOfDict<K, V>(d: Dict<K, V>)
    requires UniqueKeys(d)
    ensures FromEntries(d) == d
  {
    if d != [] {
      var p := d[..|d| - 1];
      var e := d[|d| - 1];
      assert UniqueKeys(p);
      FromEntriesOfDict(p);
      assert forall i :: 0 <= i < |p| ==> p[i].0 != e.0;
      assert IndexOf(p, e.0).None?;
      assert p + [e] == d;
    }
  }

  lemma {:induction false} FirstAppearanceMembers<K>(ks: seq<K>, k: K)
    ensures k in FirstAppearance(ks) <==> k in ks
  {
    if ks != [] {
      var p := ks[..|ks| - 1];
      FirstAppearanceMembers(p, k);
      assert ks == p + [ks[|ks| - 1]];
    }
  }
}
