/** Insertion-ordered dictionaries, as Python's `dict` and
    `collections.OrderedDict` keep them: a list of (key, value) entries,
    oldest first, each key once. Look-up, assignment, `move_to_end` and
    `popitem(last=False)` as the server's two least-recently-used caches and
    the configuration code use them. */
module OrderedDicts {
  import opened Wrappers

  /** No key occurs twice. */
  ghost predicate DistinctKeys<K, V>(entries: seq<(K, V)>) {
    forall i, j :: 0 <= i < j < |entries| ==> entries[i].0 != entries[j].0
  }

  /** The position of `key`, if it is there. */
  function IndexOf<K(==), V>(entries: seq<(K, V)>, key: K): (r: Option<nat>)
    ensures r.Some? ==> r.value < |entries| && entries[r.value].0 == key
    ensures r.Some? ==> forall k :: 0 <= k < r.value ==> entries[k].0 != key
    ensures r.None? ==> forall k :: 0 <= k < |entries| ==> entries[k].0 != key
  {
    if entries == [] then None
    else if entries[0].0 == key then Some(0)
    else
      var rest := IndexOf(entries[1..], key);
      if rest.Some? then Some(rest.value + 1) else None
  }

  /** `key in d` */
  predicate HasKey<K(==), V>(entries: seq<(K, V)>, key: K) {
    IndexOf(entries, key).Some?
  }

  /** `d.get(key)` */
  function Get<K(==), V>(entries: seq<(K, V)>, key: K): (r: Option<V>)
    ensures r.Some? <==> HasKey(entries, key)
  {
    var k := IndexOf(entries, key);
    if k.Some? then Some(entries[k.value].1) else None
  }

  /** The first position holding a key is where `IndexOf` finds it. */
  lemma {:induction false} IndexUnique<K, V>(entries: seq<(K, V)>, key: K, j: nat)
    requires j < |entries| && entries[j].0 == key
    requires forall k :: 0 <= k < j ==> entries[k].0 != key
    ensures IndexOf(entries, key) == Some(j)
  {
    if j > 0 {
      IndexUnique(entries[1..], key, j - 1);
    }
  }

  lemma {:induction false} IndexAbsent<K, V>(entries: seq<(K, V)>, key: K)
    requires forall k :: 0 <= k < |entries| ==> entries[k].0 != key
    ensures IndexOf(entries, key).None?
  {
    if entries != [] {
      IndexAbsent(entries[1..], key);
    }
  }

  /** With each key once, every entry is what a look-up of its key finds. */
  lemma GetAt<K, V>(entries: seq<(K, V)>, i: nat)
    requires DistinctKeys(entries) && i < |entries|
    ensures Get(entries, entries[i].0) == Some(entries[i].1)
  {
    IndexUnique(entries, entries[i].0, i);
  }

  /** `d[key] = value`: an existing key keeps its place, a new key goes
      last. */
  function Put<K(==), V>(entries: seq<(K, V)>, key: K, value: V): (r: seq<(K, V)>)
    ensures HasKey(entries, key) ==> |r| == |entries|
    ensures !HasKey(entries, key) ==> r == entries + [(key, value)]
  {
    var k := IndexOf(entries, key);
    if k.Some? then entries[k.value := (key, value)] else entries + [(key, value)]
  }

  /** After `d[key] = value`, `d[key]` is `value` and every other key reads
      as before. */
  lemma PutGet<K, V>(entries: seq<(K, V)>, key: K, value: V, other: K)
    ensures Get(Put(entries, key, value), key) == Some(value)
    ensures other != key ==> Get(Put(entries, key, value), other) == Get(entries, other)
  {
    var r := Put(entries, key, value);
    var k := IndexOf(entries, key);
    if k.Some? {
      IndexUnique(r, key, k.value);
    } else {
      IndexUnique(r, key, |entries|);
    }
    if other != key {
      var o := IndexOf(entries, other);
      assert forall j :: 0 <= j < |entries| ==> r[j].0 == entries[j].0 || entries[j].0 == key;
      if o.Some? {
        IndexUnique(r, other, o.value);
      } else {
        IndexAbsent(r, other);
      }
    }
  }

  /** Assignment keeps each key once. */
  lemma PutDistinct<K, V>(entries: seq<(K, V)>, key: K, value: V)
    requires DistinctKeys(entries)
    ensures DistinctKeys(Put(entries, key, value))
  {
    var r := Put(entries, key, value);
    assert forall j :: 0 <= j < |entries| ==> r[j].0 == entries[j].0;
  }

  /** `a.update(b)`: each entry of `b`, in order, assigned into `a`. */
  function Update<K(==), V>(a: seq<(K, V)>, b: seq<(K, V)>): (r: seq<(K, V)>)
    decreases |b|
  {
    if b == [] then a else Update(Put(a, b[0].0, b[0].1), b[1..])
  }

  /** After `a.update(b)` a key of `b` reads as in `b`, any other key as in
      `a`; and keys stay distinct. */
  lemma {:induction false} UpdateGet<K, V>(a: seq<(K, V)>, b: seq<(K, V)>, k: K)
    requires DistinctKeys(b)
    ensures Get(Update(a, b), k) == if HasKey(b, k) then Get(b, k) else Get(a, k)
    decreases |b|
  {
    if b != [] {
      UpdateGet(Put(a, b[0].0, b[0].1), b[1..], k);
      PutGet(a, b[0].0, b[0].1, k);
      if b[0].0 == k {
        IndexAbsent(b[1..], k);
      }
    }
  }

  lemma {:induction false} UpdateDistinct<K, V>(a: seq<(K, V)>, b: seq<(K, V)>)
    requires DistinctKeys(a)
    ensures DistinctKeys(Update(a, b))
    decreases |b|
  {
    if b != [] {
      PutDistinct(a, b[0].0, b[0].1);
      UpdateDistinct(Put(a, b[0].0, b[0].1), b[1..]);
    }
  }

  // ------------------------------------------------------------ LRU use

  /** `d.move_to_end(key)`: the entry becomes the most recent; the others
      keep their order. */
  function MoveToEnd<K(==), V>(entries: seq<(K, V)>, key: K): (r: seq<(K, V)>)
    requires HasKey(entries, key)
  {
    var i := IndexOf(entries, key).value;
    entries[..i] + entries[i + 1..] + [entries[i]]
  }

  /** Moving an entry to the end keeps the keys distinct and every key's
      value, and the moved key is the most recent. */
  lemma MoveToEndKeeps<K, V>(entries: seq<(K, V)>, key: K)
    requires DistinctKeys(entries) && HasKey(entries, key)
    ensures DistinctKeys(MoveToEnd(entries, key))
    ensures |MoveToEnd(entries, key)| == |entries|
    ensures MoveToEnd(entries, key)[|entries| - 1].0 == key
    ensures forall x :: Get(MoveToEnd(entries, key), x) == Get(entries, x)
  {
    var i := IndexOf(entries, key).value;
    var r := MoveToEnd(entries, key);
    var n := |entries|;
    assert forall j :: 0 <= j < i ==> r[j] == entries[j];
    assert forall j :: i <= j < n - 1 ==> r[j] == entries[j + 1];
    assert r[n - 1] == entries[i];
    forall x ensures Get(r, x) == Get(entries, x) {
      var o := IndexOf(entries, x);
      if o.Some? {
        var j := o.value;
        var p := if j < i then j else if j == i then n - 1 else j - 1;
        assert r[p] == entries[j];
        GetAt(entries, j);
        GetAt(r, p);
      } else {
        IndexAbsent(r, x);
      }
    }
  }

  /** `d.popitem(last=False)`: the oldest entry goes. */
  function PopOldest<K, V>(entries: seq<(K, V)>): (r: seq<(K, V)>)
    requires entries != []
  {
    entries[1..]
  }

  /** The entries a least-recently-used cache of size `size` keeps: the
      `size` most recent ones. */
  function Newest<K, V>(entries: seq<(K, V)>, size: nat): (r: seq<(K, V)>)
  {
    if |entries| <= size then entries else entries[|entries| - size..]
  }

  /** The kept entries number at most `size`, keep each key once, hold the
      values they held before, and always include the most recent entry
      when the size is at least one. */
  lemma NewestKeeps<K, V>(entries: seq<(K, V)>, size: nat)
    requires DistinctKeys(entries)
    ensures |Newest(entries, size)| <= size
    ensures |entries| <= size ==> Newest(entries, size) == entries
    ensures DistinctKeys(Newest(entries, size))
    ensures forall x :: HasKey(Newest(entries, size), x) ==> Get(Newest(entries, size), x) == Get(entries, x)
    ensures size >= 1 && entries != [] ==> Newest(entries, size)[|Newest(entries, size)| - 1] == entries[|entries| - 1]
  {
    if |entries| > size {
      SuffixKeeps(entries, |entries| - size);
    }
  }

  /** A suffix of the entries keeps each key once, and every key it holds
      reads as it did in the whole. */
  lemma SuffixKeeps<K, V>(entries: seq<(K, V)>, d: nat)
    requires DistinctKeys(entries) && d <= |entries|
    ensures DistinctKeys(entries[d..])
    ensures forall x :: HasKey(entries[d..], x) ==> Get(entries[d..], x) == Get(entries, x)
  {
    var r := entries[d..];
    assert forall j :: 0 <= j < |r| ==> r[j] == entries[d + j];
    forall x | HasKey(r, x) ensures Get(r, x) == Get(entries, x) {
      var j := IndexOf(r, x).value;
      GetAt(r, j);
      GetAt(entries, d + j);
    }
  }

  /** `d[key] = value` followed by evicting the oldest entries down to
      `size`: how both caches store a fresh result. */
  function Store<K(==), V>(entries: seq<(K, V)>, key: K, value: V, size: nat): (r: seq<(K, V)>)
  {
    Newest(Put(entries, key, value), size)
  }

  /** Storing keeps each key once and the size bound; a key that was new,
      or any key when nothing is evicted, reads back as stored; every other
      key that survives keeps its value. */
  lemma StoreKeeps<K, V>(entries: seq<(K, V)>, key: K, value: V, size: nat)
    requires DistinctKeys(entries) && size >= 1
    ensures DistinctKeys(Store(entries, key, value, size)) && |Store(entries, key, value, size)| <= size
    ensures !HasKey(entries, key) || |entries| <= size ==> Get(Store(entries, key, value, size), key) == Some(value)
    ensures forall x :: x != key && HasKey(Store(entries, key, value, size), x) ==>
      Get(Store(entries, key, value, size), x) == Get(entries, x)
  {
    var put := Put(entries, key, value);
    var r := Store(entries, key, value, size);
    PutDistinct(entries, key, value);
    NewestKeeps(put, size);
    PutGet(entries, key, value, key);
    if !HasKey(entries, key) {
      IndexUnique(put, key, |entries|);
      IndexUnique(r, key, |r| - 1);
    }
    forall x | x != key && HasKey(r, x) ensures Get(r, x) == Get(entries, x) {
      PutGet(entries, key, value, x);
    }
  }
}
