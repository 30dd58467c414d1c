/** Python's insertion-ordered `dict`: assigning to a present key replaces
    its value in place, assigning to a new key appends it, and `values()` /
    `items()` yield entries in insertion order. */
module OrderedMaps {
  import opened Wrappers

  datatype Entry<K, V> = Entry(key: K, value: V)

  type Dict<K, V> = seq<Entry<K, V>>

  function Keys<K, V>(d: Dict<K, V>): (r: seq<K>)
    ensures |r| == |d|
    ensures forall i :: 0 <= i < |d| ==> r[i] == d[i].key
  {
    if d == [] then [] else [d[0].key] + Keys(d[1..])
  }

  function Values<K, V>(d: Dict<K, V>): (r: seq<V>)
    ensures |r| == |d|
    ensures forall i :: 0 <= i < |d| ==> r[i] == d[i].value
  {
    if d == [] then [] else [d[0].value] + Values(d[1..])
  }

  /** No key occurs twice. */
  predicate Unique<K(==), V>(d: Dict<K, V>)
  {
    forall i, j :: 0 <= i < j < |d| ==> d[i].key != d[j].key
  }

  /** `d.get(k)`. */
  function Get<K(==), V>(d: Dict<K, V>, k: K): (r: Option<V>)
  {
    if d == [] then None
    else if d[0].key == k then Some(d[0].value)
    else Get(d[1..], k)
  }

  predicate Has<K(==), V>(d: Dict<K, V>, k: K)
  {
    Get(d, k).Some?
  }

  /** `d[k] = v`. */
  function Put<K(==), V>(d: Dict<K, V>, k: K, v: V): Dict<K, V>
  {
    if d == [] then [Entry(k, v)]
    else if d[0].key == k then [Entry(k, v)] + d[1..]
    else [d[0]] + Put(d[1..], k, v)
  }

  /** Assignment changes the looked-up value of `k` alone. */
  lemma {:induction false} PutGet<K, V>(d: Dict<K, V>, k: K, v: V, k': K)
    ensures Get(Put(d, k, v), k') == if k' == k then Some(v) else Get(d, k')
    decreases |d|
  {
    if d != [] && d[0].key != k {
      PutGet(d[1..], k, v, k');
      assert Put(d, k, v)[1..] == Put(d[1..], k, v);
    }
  }

  /** Existing keys keep their positions; a new key is appended at the end. */
  lemma {:induction false} PutShape<K, V>(d: Dict<K, V>, k: K, v: V)
    ensures Has(d, k) ==> |Put(d, k, v)| == |d|
    ensures !Has(d, k) ==> Put(d, k, v) == d + [Entry(k, v)]
    ensures forall i :: 0 <= i < |d| ==> Put(d, k, v)[i].key == d[i].key
    decreases |d|
  {
    if d != [] && d[0].key != k {
      PutShape(d[1..], k, v);
      assert Has(d, k) <==> Has(d[1..], k);
      if !Has(d, k) {
        assert d == [d[0]] + d[1..];
      }
    }
  }

  /** Assignment keeps keys unique. */
  lemma PutUnique<K, V>(d: Dict<K, V>, k: K, v: V)
    requires Unique(d)
    ensures Unique(Put(d, k, v))
  {
    PutShape(d, k, v);
    var r := Put(d, k, v);
    if !Has(d, k) {
      forall i, j | 0 <= i < j < |r|
        ensures r[i].key != r[j].key
      {
        if j == |d| {
          assert r[i] == d[i];
        }
      }
    }
  }

  /** In a dictionary with unique keys, each entry is what lookup finds. */
  lemma {:induction false} GetEntry<K, V>(d: Dict<K, V>, i: nat)
    requires Unique(d) && i < |d|
    ensures Get(d, d[i].key) == Some(d[i].value)
    decreases i
  {
    if i > 0 {
      assert d[0].key != d[i].key;
      assert d[1..][i - 1] == d[i];
      GetEntry(d[1..], i - 1);
    }
  }

  /** A key is present exactly when some entry carries it. */
  lemma {:induction false} HasIndex<K, V>(d: Dict<K, V>, k: K)
    ensures Has(d, k) <==> exists i :: 0 <= i < |d| && d[i].key == k
    decreases |d|
  {
    if d != [] && d[0].key != k {
      HasIndex(d[1..], k);
      if Has(d, k) {
        var i :| 0 <= i < |d[1..]| && d[1..][i].key == k;
        assert d[i + 1].key == k;
      } else {
        forall i | 0 <= i < |d|
          ensures d[i].key != k
        {
          if i > 0 {
            assert d[1..][i - 1] == d[i];
          }
        }
      }
    }
  }

  /** A present key owns exactly one entry. */
  lemma GetSome<K, V>(d: Dict<K, V>, k: K)
    requires Unique(d) && Has(d, k)
    ensures exists i :: 0 <= i < |d| && d[i] == Entry(k, Get(d, k).value)
  {
    HasIndex(d, k);
    var i :| 0 <= i < |d| && d[i].key == k;
    GetEntry(d, i);
  }
}
