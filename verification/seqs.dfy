/** Sequence helpers with Python semantics: `"".join`, clamped slicing and the
    stable `sorted(key=...)` both services rely on. */
module Seqs {

  function Min(a: int, b: int): int { if a <= b then a else b }

  function Max(a: int, b: int): int { if a >= b then a else b }

  /** `"".join(xs)`: the pieces laid end to end. */
  function Concat<T>(xs: seq<seq<T>>): seq<T>
  {
    if xs == [] then [] else Concat(xs[..|xs| - 1]) + xs[|xs| - 1]
  }

  lemma ConcatAppend<T>(xs: seq<seq<T>>, x: seq<T>)
    ensures Concat(xs + [x]) == Concat(xs) + x
  {
    assert (xs + [x])[..|xs|] == xs;
  }

  lemma {:induction false} ConcatJoin<T>(xs: seq<seq<T>>, ys: seq<seq<T>>)
    ensures Concat(xs + ys) == Concat(xs) + Concat(ys)
    decreases |ys|
  {
    if ys == [] {
      assert xs + ys == xs;
    } else {
      var ys' := ys[..|ys| - 1];
      var y := ys[|ys| - 1];
      assert xs + ys == (xs + ys') + [y];
      assert ys == ys' + [y];
      ConcatAppend(xs + ys', y);
      ConcatJoin(xs, ys');
      ConcatAppend(ys', y);
    }
  }

  /** The length of a concatenation is the sum of the piece lengths; a piece
      starts at the summed length of the pieces before it. */
  lemma ConcatPrefixLength<T>(xs: seq<seq<T>>, k: nat)
    requires k < |xs|
    ensures |Concat(xs[..k + 1])| == |Concat(xs[..k])| + |xs[k]|
    ensures Concat(xs[..k + 1])[|Concat(xs[..k])|..] == xs[k]
  {
    assert xs[..k + 1] == xs[..k] + [xs[k]];
    ConcatAppend(xs[..k], xs[k]);
  }

  lemma ConcatPrefixIsPrefix<T>(xs: seq<seq<T>>, k: nat)
    requires k <= |xs|
    ensures Concat(xs[..k]) <= Concat(xs)
  {
    assert xs == xs[..k] + xs[k..];
    ConcatJoin(xs[..k], xs[k..]);
  }

  /** Python `s[a:b]` for non-negative bounds: both ends clamp to `|s|`, and an
      empty range gives the empty sequence. */
  function Slice<T>(s: seq<T>, a: nat, b: nat): (r: seq<T>)
    ensures |r| <= |s|
    ensures a <= b <= |s| ==> r == s[a..b]
    ensures a < b && a < |s| ==> |r| == Min(b, |s|) - a
    ensures a < |s| < b ==> r == s[a..]
    ensures (b <= a || |s| <= a) ==> r == []
  {
    if |s| <= a || b <= a then [] else s[a..Min(b, |s|)]
  }

  predicate SortedBy<T>(xs: seq<T>, key: T -> int)
  {
    forall i, j :: 0 <= i < j < |xs| ==> key(xs[i]) <= key(xs[j])
  }

  /** Inserts `x` after every element whose key does not exceed its own. */
  function Insert<T>(x: T, xs: seq<T>, key: T -> int): (r: seq<T>)
  {
    if xs == [] then [x]
    else if key(x) < key(xs[0]) then [x] + xs
    else [xs[0]] + Insert(x, xs[1..], key)
  }

  /** Python's stable `sorted(xs, key=key)`: elements with equal keys keep
      their relative order. `sorted(..., reverse=True)` is the same stable
      sort on the negated key. */
  function SortBy<T>(xs: seq<T>, key: T -> int): (r: seq<T>)
  {
    if xs == [] then [] else Insert(xs[|xs| - 1], SortBy(xs[..|xs| - 1], key), key)
  }

  lemma {:induction false} InsertPermutes<T>(x: T, xs: seq<T>, key: T -> int)
    ensures multiset(Insert(x, xs, key)) == multiset(xs) + multiset{x}
    ensures |Insert(x, xs, key)| == |xs| + 1
    decreases |xs|
  {
    if xs != [] && key(xs[0]) <= key(x) {
      InsertPermutes(x, xs[1..], key);
      assert xs == [xs[0]] + xs[1..];
    }
  }

  lemma {:induction false} InsertSorted<T>(x: T, xs: seq<T>, key: T -> int)
    requires SortedBy(xs, key)
    ensures SortedBy(Insert(x, xs, key), key)
    decreases |xs|
  {
    if xs != [] && key(xs[0]) <= key(x) {
      var rest := xs[1..];
      InsertSorted(x, rest, key);
      InsertPermutes(x, rest, key);
      var r := Insert(x, rest, key);
      forall i | 0 <= i < |r|
        ensures key(xs[0]) <= key(r[i])
      {
        assert r[i] in multiset(r);
        if r[i] != x {
          assert r[i] in multiset(rest);
          assert r[i] in rest;
        }
      }
    }
  }

  lemma {:induction false} InsertAtEnd<T>(x: T, xs: seq<T>, key: T -> int)
    requires forall i :: 0 <= i < |xs| ==> key(xs[i]) <= key(x)
    ensures Insert(x, xs, key) == xs + [x]
    decreases |xs|
  {
    if xs != [] {
      InsertAtEnd(x, xs[1..], key);
      assert xs == [xs[0]] + xs[1..];
    }
  }

  /** `SortBy` returns a sorted permutation of its input, and leaves an
      already sorted input as it is. */
  lemma {:induction false} SortByProperties<T>(xs: seq<T>, key: T -> int)
    ensures SortedBy(SortBy(xs, key), key)
    ensures multiset(SortBy(xs, key)) == multiset(xs)
    ensures |SortBy(xs, key)| == |xs|
    ensures SortedBy(xs, key) ==> SortBy(xs, key) == xs
    decreases |xs|
  {
    if xs != [] {
      var init := xs[..|xs| - 1];
      var last := xs[|xs| - 1];
      assert SortBy(xs, key) == Insert(last, SortBy(init, key), key);
      hide SortBy, Insert;
      SortByProperties(init, key);
      InsertSorted(last, SortBy(init, key), key);
      InsertPermutes(last, SortBy(init, key), key);
      assert xs == init + [last];
      if SortedBy(xs, key) {
        InsertAtEnd(last, init, key);
      }
    }
  }

  /** The elements of `xs` whose key is `k`, in their order in `xs`. */
  function Keyed<T>(xs: seq<T>, key: T -> int, k: int): seq<T>
  {
    if xs == [] then [] else (if key(xs[0]) == k then [xs[0]] else []) + Keyed(xs[1..], key, k)
  }

  lemma {:induction false} KeyedAppend<T>(a: seq<T>, b: seq<T>, key: T -> int, k: int)
    ensures Keyed(a + b, key, k) == Keyed(a, key, k) + Keyed(b, key, k)
    decreases |a|
  {
    if a != [] {
      assert (a + b)[0] == a[0] && (a + b)[1..] == a[1..] + b;
      KeyedAppend(a[1..], b, key, k);
    } else {
      assert a + b == b;
    }
  }

  lemma {:induction false} KeyedNone<T>(xs: seq<T>, key: T -> int, k: int)
    requires forall i :: 0 <= i < |xs| ==> key(xs[i]) != k
    ensures Keyed(xs, key, k) == []
    decreases |xs|
  {
    if xs != [] {
      KeyedNone(xs[1..], key, k);
    }
  }

  lemma KeyedCons<T>(a: T, xs: seq<T>, key: T -> int, k: int)
    ensures Keyed([a] + xs, key, k) == (if key(a) == k then [a] else []) + Keyed(xs, key, k)
  {
    assert ([a] + xs)[0] == a && ([a] + xs)[1..] == xs;
  }

  /** Inserting into a sorted sequence puts `x` after every element with
      the same key, and leaves the order among the others as it was. */
  lemma {:induction false} InsertKeyed<T>(x: T, xs: seq<T>, key: T -> int, k: int)
    requires SortedBy(xs, key)
    ensures Keyed(Insert(x, xs, key), key, k) == Keyed(xs, key, k) + (if key(x) == k then [x] else [])
    decreases |xs|
  {
    hide Keyed;
    if xs == [] {
      assert Insert(x, xs, key) == [x] + [];
      KeyedCons(x, [], key, k);
      KeyedNone([], key, k);
    } else if key(x) < key(xs[0]) {
      assert Insert(x, xs, key) == [x] + xs;
      KeyedCons(x, xs, key, k);
      if key(x) == k {
        assert forall i :: 0 <= i < |xs| ==> key(xs[0]) <= key(xs[i]);
        KeyedNone(xs, key, k);
      }
    } else {
      var rest := xs[1..];
      assert SortedBy(rest, key);
      InsertKeyed(x, rest, key, k);
      assert Insert(x, xs, key) == [xs[0]] + Insert(x, rest, key);
      KeyedCons(xs[0], Insert(x, rest, key), key, k);
      assert xs == [xs[0]] + rest;
      KeyedCons(xs[0], rest, key, k);
    }
  }

  /** The sort is stable: for every key, the elements with that key come
      out in the order they went in. */
  lemma {:induction false} SortByStable<T>(xs: seq<T>, key: T -> int, k: int)
    ensures Keyed(SortBy(xs, key), key, k) == Keyed(xs, key, k)
    decreases |xs|
  {
    hide Keyed;
    if xs != [] {
      var init := xs[..|xs| - 1];
      var last := xs[|xs| - 1];
      assert SortBy(xs, key) == Insert(last, SortBy(init, key), key);
      SortByProperties(init, key);
      SortByStable(init, key, k);
      InsertKeyed(last, SortBy(init, key), key, k);
      assert xs == init + [last];
      KeyedAppend(init, [last], key, k);
      KeyedCons(last, [], key, k);
      KeyedNone([], key, k);
      assert [last] + [] == [last];
    }
  }

  /** Every element of the sorted sequence comes from the input. */
  lemma SortByMembers<T>(xs: seq<T>, key: T -> int, i: nat)
    requires i < |SortBy(xs, key)|
    ensures SortBy(xs, key)[i] in xs
  {
    SortByProperties(xs, key);
    var r := SortBy(xs, key);
    assert r[i] in multiset(r);
  }

  /** Indexing three sequences laid end to end. */
  lemma IndexConcat3<T>(a: seq<T>, b: seq<T>, c: seq<T>, j: nat)
    requires j < |a| + |b| + |c|
    ensures (a + b + c)[j] == if j < |a| then a[j] else if j < |a| + |b| then b[j - |a|] else c[j - |a| - |b|]
  {
  }

  /** One position of a splice: `text` from `prev` up to `start`, then
      `seg` in place of `text[start..end]`, then `rest`. */
  lemma PiecesAt<T>(text: seq<T>, prev: nat, start: nat, end: nat, seg: seq<T>, rest: seq<T>, i: nat)
    requires prev <= start <= end <= |text| && |seg| == end - start && |rest| == |text| - end
    requires prev <= i < |text|
    ensures |text[prev..start] + seg + rest| == |text| - prev
    ensures (text[prev..start] + seg + rest)[i - prev]
         == if i < start then text[i] else if i < end then seg[i - start] else rest[i - end]
  {
    IndexConcat3(text[prev..start], seg, rest, i - prev);
  }

  /** A suffix cut in three. */
  lemma SliceSplit<T>(s: seq<T>, a: nat, b: nat, c: nat)
    requires a <= b <= c <= |s|
    ensures s[a..] == s[a..b] + s[b..c] + s[c..]
  {
  }

  /** A slice of the first half of `a + b`, read in `a`. */
  lemma SliceOfFirst<T>(a: seq<T>, b: seq<T>, i: nat, j: nat)
    requires i <= j <= |a|
    ensures (a + b)[i..j] == a[i..j]
  {
  }

  /** A slice of the second half of `a + b`, read in `b`. */
  lemma SliceOfSecond<T>(a: seq<T>, b: seq<T>, i: nat, j: nat)
    requires i <= j <= |b|
    ensures (a + b)[|a| + i..|a| + j] == b[i..j]
  {
  }
}
