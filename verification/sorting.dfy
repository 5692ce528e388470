/** `ORDER BY <text column> [DESC]` as a stable insertion sort on a key.
    SQL leaves the relative order of rows with equal keys unspecified, so every
    client of this module relies only on the two facts the sort guarantees:
    the result is ordered by the key and it is a permutation of the input. */
module Sorting {
  import opened Collation

  /** A row keyed `a` may come before a row keyed `b` in the requested direction. */
  predicate Precedes(a: string, b: string, desc: bool) {
    if desc then TextLe(b, a) else TextLe(a, b)
  }

  ghost predicate SortedBy<T>(xs: seq<T>, key: T -> string, desc: bool) {
    forall i, j | 0 <= i < j < |xs| :: Precedes(key(xs[i]), key(xs[j]), desc)
  }

  lemma PrecedesTransitive(a: string, b: string, c: string, desc: bool)
    requires Precedes(a, b, desc) && Precedes(b, c, desc)
    ensures Precedes(a, c, desc)
  {
    if desc {
      TextLeTransitive(c, b, a);
    } else {
      TextLeTransitive(a, b, c);
    }
  }

  lemma PrecedesTotal(a: string, b: string, desc: bool)
    ensures Precedes(a, b, desc) || Precedes(b, a, desc)
  {
    TextLeTotal(a, b);
  }

  lemma PrecedesReflexive(a: string, desc: bool)
    ensures Precedes(a, a, desc)
  {
    TextLeReflexive(a);
  }

  lemma PrecedesAntisymmetric(a: string, b: string, desc: bool)
    requires Precedes(a, b, desc) && Precedes(b, a, desc)
    ensures a == b
  {
    TextLeAntisymmetric(a, b);
  }

  /** Putting in front a row that precedes every row of a sorted sequence keeps it sorted. */
  lemma ConsSorted<T>(y: T, xs: seq<T>, key: T -> string, desc: bool)
    requires SortedBy(xs, key, desc)
    requires forall k | 0 <= k < |xs| :: Precedes(key(y), key(xs[k]), desc)
    ensures SortedBy([y] + xs, key, desc)
  {
    var r := [y] + xs;
    forall i, j | 0 <= i < j < |r|
      ensures Precedes(key(r[i]), key(r[j]), desc)
    {
      if i == 0 {
        assert r[j] == xs[j - 1];
      } else {
        assert r[i] == xs[i - 1] && r[j] == xs[j - 1];
      }
    }
  }

  /** The first row of a sorted sequence precedes every row of it, and so does any row preceding the first. */
  lemma FrontPrecedesAll<T>(x: T, xs: seq<T>, key: T -> string, desc: bool)
    requires SortedBy(xs, key, desc) && |xs| > 0
    requires Precedes(key(x), key(xs[0]), desc)
    ensures forall k | 0 <= k < |xs| :: Precedes(key(x), key(xs[k]), desc)
  {
    forall k | 0 < k < |xs|
      ensures Precedes(key(x), key(xs[k]), desc)
    {
      PrecedesTransitive(key(x), key(xs[0]), key(xs[k]), desc);
    }
  }

  /** A row preceding `x` and every row of `tail` precedes every row of a permutation of `tail + [x]`. */
  lemma PrecedesPermutation<T>(h: T, tail: seq<T>, x: T, rest: seq<T>, key: T -> string, desc: bool)
    requires forall k | 0 <= k < |tail| :: Precedes(key(h), key(tail[k]), desc)
    requires Precedes(key(h), key(x), desc)
    requires multiset(rest) == multiset(tail) + multiset{x}
    ensures forall k | 0 <= k < |rest| :: Precedes(key(h), key(rest[k]), desc)
  {
    forall k | 0 <= k < |rest|
      ensures Precedes(key(h), key(rest[k]), desc)
    {
      assert rest[k] in multiset(rest);
      if rest[k] != x {
        assert rest[k] in multiset(tail);
        var j :| 0 <= j < |tail| && tail[j] == rest[k];
      }
    }
  }

  /** Dropping the first row of a sorted sequence leaves it sorted, and that row precedes the rest. */
  lemma TailSorted<T>(xs: seq<T>, key: T -> string, desc: bool)
    requires SortedBy(xs, key, desc) && |xs| > 0
    ensures SortedBy(xs[1..], key, desc)
    ensures forall k | 0 <= k < |xs[1..]| :: Precedes(key(xs[0]), key(xs[1..][k]), desc)
  {
    forall i, j | 0 <= i < j < |xs[1..]|
      ensures Precedes(key(xs[1..][i]), key(xs[1..][j]), desc)
    {
      assert xs[1..][i] == xs[i + 1] && xs[1..][j] == xs[j + 1];
    }
    forall k | 0 <= k < |xs[1..]|
      ensures Precedes(key(xs[0]), key(xs[1..][k]), desc)
    {
      assert xs[1..][k] == xs[k + 1];
    }
  }

  /** Inserts `x` before the first row it precedes. */
  function InsertSorted<T>(x: T, xs: seq<T>, key: T -> string, desc: bool): (r: seq<T>)
    requires SortedBy(xs, key, desc)
    ensures SortedBy(r, key, desc)
    ensures multiset(r) == multiset(xs) + multiset{x}
  {
    if |xs| == 0 then
      [x]
    else if Precedes(key(x), key(xs[0]), desc) then
      FrontPrecedesAll(x, xs, key, desc);
      ConsSorted(x, xs, key, desc);
      [x] + xs
    else
      TailSorted(xs, key, desc);
      var rest := InsertSorted(x, xs[1..], key, desc);
      assert xs == [xs[0]] + xs[1..];
      PrecedesTotal(key(x), key(xs[0]), desc);
      PrecedesPermutation(xs[0], xs[1..], x, rest, key, desc);
      ConsSorted(xs[0], rest, key, desc);
      [xs[0]] + rest
  }

  function SortBy<T>(xs: seq<T>, key: T -> string, desc: bool): (r: seq<T>)
    ensures SortedBy(r, key, desc)
    ensures multiset(r) == multiset(xs)
  {
    if |xs| == 0 then
      []
    else
      assert xs == [xs[0]] + xs[1..];
      InsertSorted(xs[0], SortBy(xs[1..], key, desc), key, desc)
  }

  /** A sequence whose neighbours are in order is sorted. */
  lemma {:induction false} ChainSorted<T>(xs: seq<T>, key: T -> string, desc: bool)
    requires forall i | 0 <= i < |xs| - 1 :: Precedes(key(xs[i]), key(xs[i + 1]), desc)
    ensures SortedBy(xs, key, desc)
    decreases |xs|
  {
    if |xs| > 1 {
      var tail := xs[1..];
      assert forall i | 0 <= i < |tail| :: tail[i] == xs[i + 1];
      ChainSorted(tail, key, desc);
      forall k | 0 <= k < |tail|
        ensures Precedes(key(xs[1]), key(tail[k]), desc)
      {
        if k == 0 { PrecedesReflexive(key(xs[1]), desc); }
        assert tail[0] == xs[1];
      }
      FrontPrecedesAll(xs[0], tail, key, desc);
      ConsSorted(xs[0], tail, key, desc);
      assert xs == [xs[0]] + tail;
    }
  }

  /** Two sorted permutations of rows with distinct keys start with the same row. */
  lemma SortedHeadsEqual<T>(a: seq<T>, b: seq<T>, key: T -> string, desc: bool)
    requires SortedBy(a, key, desc) && SortedBy(b, key, desc)
    requires multiset(a) == multiset(b) && |a| > 0
    requires forall i, j | 0 <= i < j < |a| :: key(a[i]) != key(a[j])
    ensures |b| == |a| && a[0] == b[0]
  {
    assert |a| == |multiset(a)| == |multiset(b)| == |b|;
    assert a[0] in multiset(b) && b[0] in multiset(a);
    var i :| 0 <= i < |a| && a[i] == b[0];
    var j :| 0 <= j < |b| && b[j] == a[0];
    if i == 0 { PrecedesReflexive(key(a[0]), desc); }
    if j == 0 { PrecedesReflexive(key(b[0]), desc); }
    assert Precedes(key(a[0]), key(a[i]), desc);
    assert Precedes(key(b[0]), key(b[j]), desc);
    PrecedesAntisymmetric(key(a[0]), key(b[0]), desc);
  }

  lemma TailsPermutation<T>(a: seq<T>, b: seq<T>)
    requires multiset(a) == multiset(b) && |a| > 0 && |b| > 0 && a[0] == b[0]
    ensures multiset(a[1..]) == multiset(b[1..])
  {
    assert a == [a[0]] + a[1..] && b == [b[0]] + b[1..];
    assert multiset(a[1..]) == multiset(a) - multiset{a[0]};
    assert multiset(b[1..]) == multiset(b) - multiset{a[0]};
  }

  lemma TailDistinct<T>(a: seq<T>, key: T -> string)
    requires forall i, j | 0 <= i < j < |a| :: key(a[i]) != key(a[j])
    requires |a| > 0
    ensures forall i, j | 0 <= i < j < |a[1..]| :: key(a[1..][i]) != key(a[1..][j])
  {
    assert forall i | 0 <= i < |a[1..]| :: a[1..][i] == a[i + 1];
  }

  /** When no two rows share a key, the order is fully determined: two sorted
      permutations of the same rows are equal. */
  lemma {:induction false} SortedDistinctUnique<T>(a: seq<T>, b: seq<T>, key: T -> string, desc: bool)
    requires SortedBy(a, key, desc) && SortedBy(b, key, desc)
    requires multiset(a) == multiset(b)
    requires forall i, j | 0 <= i < j < |a| :: key(a[i]) != key(a[j])
    ensures a == b
    decreases |a|
  {
    if |a| == 0 {
      assert |b| == |multiset(b)| == 0;
    } else {
      SortedHeadsEqual(a, b, key, desc);
      TailsPermutation(a, b);
      TailSorted(a, key, desc);
      TailSorted(b, key, desc);
      TailDistinct(a, key);
      SortedDistinctUnique(a[1..], b[1..], key, desc);
      assert a == [a[0]] + a[1..] && b == [b[0]] + b[1..];
    }
  }
}
