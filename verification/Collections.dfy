/** Indexing a list by a key. */
module Collections {
  import opened Wrappers

  /** The last item with the given key, by a scan. */
  function LastWith<T, K(==)>(items: seq<T>, key: T -> K, k: K): Option<T> {
    if items == [] then None
    else
      var n := |items| - 1;
      if key(items[n]) == k then Some(items[n]) else LastWith(items[..n], key, k)
  }

  /** The items with the given key, in order, by a scan. */
  function Bucket<T, K(==)>(items: seq<T>, key: T -> K, k: K): seq<T> {
    if items == [] then []
    else
      var n := |items| - 1;
      Bucket(items[..n], key, k) + (if key(items[n]) == k then [items[n]] else [])
  }

  function Get<K, V>(m: map<K, V>, k: K): Option<V> {
    if k in m then Some(m[k]) else None
  }

  /** Indexes the items by key: under each key the last item that has it. */
  method KeyBy<T, K(==)>(items: seq<T>, key: T -> K) returns (acc: map<K, T>)
    ensures forall k :: Get(acc, k) == LastWith(items, key, k)
  {
    acc := map[];
    for i := 0 to |items|
      invariant forall k :: Get(acc, k) == LastWith(items[..i], key, k)
    {
      assert items[..i + 1][..i] == items[..i];
      acc := acc[key(items[i]) := items[i]];
    }
    assert items[..|items|] == items;
  }

  /** Groups the items by key: under each key the items that have it, in order. */
  method GroupBy<T, K(==)>(items: seq<T>, key: T -> K) returns (acc: map<K, seq<T>>)
    ensures forall k :: Bucket(items, key, k) == if k in acc then acc[k] else []
    ensures forall k :: k in acc ==> acc[k] != []
  {
    acc := map[];
    for i := 0 to |items|
      invariant forall k :: Bucket(items[..i], key, k) == if k in acc then acc[k] else []
      invariant forall k :: k in acc ==> acc[k] != []
    {
      assert items[..i + 1][..i] == items[..i];
      var k := key(items[i]);
      acc := acc[k := (if k in acc then acc[k] else []) + [items[i]]];
    }
    assert items[..|items|] == items;
  }

  /** A bucket has the items of its key, each as often as the list has it. */
  lemma {:induction false} BucketsPartition<T, K>(items: seq<T>, key: T -> K, k: K, item: T)
    ensures multiset(Bucket(items, key, k))[item] == if key(item) == k then multiset(items)[item] else 0
  {
    if items != [] {
      var n := |items| - 1;
      BucketsPartition(items[..n], key, k, item);
      assert items == items[..n] + [items[n]];
    }
  }

  /** Items that share a bucket keep their order: the bucket of a list is that of
      its front followed by that of its back, wherever it is cut. */
  lemma {:induction false} BucketsKeepOrder<T, K>(front: seq<T>, back: seq<T>, key: T -> K, k: K)
    ensures Bucket(front + back, key, k) == Bucket(front, key, k) + Bucket(back, key, k)
    decreases |back|
  {
    if back == [] {
      assert front + back == front;
    } else {
      var n := |back| - 1;
      BucketsKeepOrder(front, back[..n], key, k);
      assert (front + back)[..|front + back| - 1] == front + back[..n];
    }
  }

  /** The scan finds the last of the items with the key. */
  lemma {:induction false} LastWithAt<T, K>(items: seq<T>, key: T -> K, k: K) returns (i: int)
    requires LastWith(items, key, k).Some?
    ensures 0 <= i < |items| && LastWith(items, key, k) == Some(items[i]) && key(items[i]) == k
    ensures forall j :: i < j < |items| ==> key(items[j]) != k
    decreases |items|
  {
    var n := |items| - 1;
    if key(items[n]) == k {
      i := n;
    } else {
      i := LastWithAt(items[..n], key, k);
      assert forall j :: 0 <= j < n ==> items[..n][j] == items[j];
    }
  }

  lemma {:induction false} LastWithExists<T, K>(items: seq<T>, key: T -> K, k: K)
    ensures LastWith(items, key, k).Some? <==> exists item :: item in items && key(item) == k
    ensures LastWith(items, key, k).Some? ==>
              LastWith(items, key, k).value in items && key(LastWith(items, key, k).value) == k
    ensures Bucket(items, key, k) != [] <==> exists item :: item in items && key(item) == k
  {
    if items != [] {
      var n := |items| - 1;
      LastWithExists(items[..n], key, k);
      assert forall item :: item in items <==> item in items[..n] || item == items[n];
    }
  }
}
