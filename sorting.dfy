/**
 * Python's stable sort (`list.sort`, `sorted`, with or without `reverse=True`) over a key.
 *
 * The reference definition is a stable insertion sort: `Insert` places an element in front of
 * the first element whose key it strictly precedes, so it lands after every element whose key it
 * ties with. A descending sort is the same sort under the flipped key order; like Python's
 * `reverse=True` it keeps equal keys in their original order.
 */
module Sorting {

  /** `lt` is a strict total order on keys. */
  ghost predicate StrictTotalOrder<K(!new)>(lt: (K, K) -> bool) {
    && (forall a :: !lt(a, a))
    && (forall a, b, c :: lt(a, b) && lt(b, c) ==> lt(a, c))
    && (forall a, b :: a != b ==> lt(a, b) || lt(b, a))
  }

  /** No element's key strictly precedes the key of an element before it. */
  ghost predicate Sorted<T, K>(s: seq<T>, key: T -> K, lt: (K, K) -> bool) {
    forall i, j | 0 <= i < j < |s| :: !lt(key(s[j]), key(s[i]))
  }

  /** Any two elements with equal keys appear in the relative order `before` prescribes. */
  ghost predicate TiesOrdered<T, K>(s: seq<T>, key: T -> K, before: (T, T) -> bool) {
    forall i, j | 0 <= i < j < |s| && key(s[i]) == key(s[j]) :: before(s[i], s[j])
  }

  /** Insert `x` into `r` in front of the first element whose key it strictly precedes. */
  function Insert<T, K>(r: seq<T>, x: T, key: T -> K, lt: (K, K) -> bool): (q: seq<T>)
    ensures |q| == |r| + 1 && multiset(q) == multiset(r) + multiset{x}
  {
    if r == [] then [x]
    else if lt(key(x), key(r[0])) then [x] + r
    else
      assert r == [r[0]] + r[1..];
      [r[0]] + Insert(r[1..], x, key, lt)
  }

  /** The stable sort of `s` by `key` under `lt`: a permutation of `s`. */
  function InsertionSort<T, K>(s: seq<T>, key: T -> K, lt: (K, K) -> bool): (r: seq<T>)
    ensures |r| == |s| && multiset(r) == multiset(s)
  {
    if s == [] then []
    else
      assert s == s[..|s| - 1] + [s[|s| - 1]];
      Insert(InsertionSort(s[..|s| - 1], key, lt), s[|s| - 1], key, lt)
  }

  lemma {:induction false} InsertSorted<T, K(!new)>(r: seq<T>, x: T, key: T -> K, lt: (K, K) -> bool)
    requires StrictTotalOrder(lt) && Sorted(r, key, lt)
    ensures Sorted(Insert(r, x, key, lt), key, lt)
  {
    if r == [] {
    } else if lt(key(x), key(r[0])) {
      forall j | 0 <= j < |r|
        ensures !lt(key(r[j]), key(x))
      {
        assert !lt(key(r[j]), key(r[0]));
      }
    } else {
      InsertSorted(r[1..], x, key, lt);
      var q := Insert(r[1..], x, key, lt);
      forall j | 0 <= j < |q|
        ensures !lt(key(q[j]), key(r[0]))
      {
        assert q[j] in multiset(r[1..]) + multiset{x};
        if q[j] != x {
          var m :| 0 <= m < |r[1..]| && r[1..][m] == q[j];
          assert r[m + 1] == q[j];
        }
      }
    }
  }

  /** The stable sort's output is sorted. */
  lemma {:induction false} SortSorted<T, K(!new)>(s: seq<T>, key: T -> K, lt: (K, K) -> bool)
    requires StrictTotalOrder(lt)
    ensures Sorted(InsertionSort(s, key, lt), key, lt)
  {
    if s != [] {
      SortSorted(s[..|s| - 1], key, lt);
      InsertSorted(InsertionSort(s[..|s| - 1], key, lt), s[|s| - 1], key, lt);
    }
  }

  /** Where `Insert` puts `x`: after the elements it does not precede, before the first it does. */
  lemma {:induction false} InsertAt<T, K>(r: seq<T>, x: T, p: nat, key: T -> K, lt: (K, K) -> bool)
    requires p <= |r|
    requires forall k | 0 <= k < p :: !lt(key(x), key(r[k]))
    requires p < |r| ==> lt(key(x), key(r[p]))
    ensures Insert(r, x, key, lt) == r[..p] + [x] + r[p..]
  {
    if p == 0 {
      assert r[..0] + [x] + r[0..] == [x] + r;
    } else {
      assert Insert(r, x, key, lt) == [r[0]] + Insert(r[1..], x, key, lt) by {
        assert !lt(key(x), key(r[0]));
      }
      assert forall k | 0 <= k < p - 1 :: !lt(key(x), key(r[1..][k])) by {
        ShiftedNotBefore(r, x, p, key, lt);
      }
      InsertAt(r[1..], x, p - 1, key, lt);
      ConsSplit(r, x, p);
    }
  }

  lemma ShiftedNotBefore<T, K>(r: seq<T>, x: T, p: nat, key: T -> K, lt: (K, K) -> bool)
    requires 0 < p <= |r|
    requires forall k | 0 <= k < p :: !lt(key(x), key(r[k]))
    ensures forall k | 0 <= k < p - 1 :: !lt(key(x), key(r[1..][k]))
  {
    forall k | 0 <= k < p - 1
      ensures !lt(key(x), key(r[1..][k]))
    {
      assert r[1..][k] == r[k + 1];
    }
  }

  lemma ConsSplit<T>(r: seq<T>, x: T, p: nat)
    requires 0 < p <= |r|
    ensures [r[0]] + (r[1..][..p - 1] + [x] + r[1..][p - 1..]) == r[..p] + [x] + r[p..]
  {
    assert r[1..][..p - 1] == r[1..p] && r[1..][p - 1..] == r[p..];
    assert [r[0]] + r[1..p] == r[..p];
  }

  /** In a sorted sequence, an element that does not precede `r[p - 1]` precedes none before it. */
  lemma NotBeforeEarlier<T, K(!new)>(r: seq<T>, x: T, p: nat, key: T -> K, lt: (K, K) -> bool)
    requires StrictTotalOrder(lt) && Sorted(r, key, lt) && 0 < p <= |r|
    requires !lt(key(x), key(r[p - 1]))
    ensures forall k | 0 <= k < p :: !lt(key(x), key(r[k]))
  {
    forall k | 0 <= k < p - 1
      ensures !lt(key(x), key(r[k]))
    {
      assert !lt(key(r[p - 1]), key(r[k]));
      assert key(r[p - 1]) == key(r[k]) || lt(key(r[k]), key(r[p - 1]));
    }
  }

  /** Sorting a longer prefix adds its last element to the sorted shorter prefix. */
  lemma SortPrefixStep<T, K>(s: seq<T>, i: nat, key: T -> K, lt: (K, K) -> bool)
    requires i < |s|
    ensures InsertionSort(s[..i + 1], key, lt) == Insert(InsertionSort(s[..i], key, lt), s[i], key, lt)
  {
    assert s[..i + 1][..i] == s[..i];
  }

  /**
   * One step of the in-place insertion sort: shift the sorted prefix `a[..i]` right until `a[i]`
   * fits, then drop it in.
   */
  method InsertLast<T, K(!new)>(a: array<T>, i: nat, key: T -> K, lt: (K, K) -> bool)
    requires StrictTotalOrder(lt) && i < a.Length && Sorted(a[..i], key, lt)
    modifies a
    ensures a[..i + 1] == Insert(old(a[..i]), old(a[i]), key, lt)
    ensures forall k | i < k < a.Length :: a[k] == old(a[k])
  {
    ghost var sorted := a[..i];
    var x := a[i];
    var j := i;
    while j > 0 && lt(key(x), key(a[j - 1]))
      invariant 0 <= j <= i
      invariant forall k | 0 <= k < j :: a[k] == sorted[k]
      invariant forall k | j < k <= i :: a[k] == sorted[k - 1]
      invariant forall k | i < k < a.Length :: a[k] == old(a[k])
      invariant forall k | j <= k < i :: lt(key(x), key(sorted[k]))
    {
      a[j] := a[j - 1];
      j := j - 1;
    }
    a[j] := x;
    assert Insert(sorted, x, key, lt) == sorted[..j] + [x] + sorted[j..] by {
      if j > 0 {
        NotBeforeEarlier(sorted, x, j, key, lt);
      }
      InsertAt(sorted, x, j, key, lt);
    }
    Placed(a[..i + 1], sorted, x, j);
  }

  /** A sequence that holds `sorted[..j]`, then `x`, then the rest of `sorted` shifted by one. */
  lemma Placed<T>(s: seq<T>, sorted: seq<T>, x: T, j: nat)
    requires j <= |sorted| && |s| == |sorted| + 1 && s[j] == x
    requires forall k | 0 <= k < j :: s[k] == sorted[k]
    requires forall k | j < k < |s| :: s[k] == sorted[k - 1]
    ensures s == sorted[..j] + [x] + sorted[j..]
  {
    var inserted := sorted[..j] + [x] + sorted[j..];
    forall k | 0 <= k < |s|
      ensures s[k] == inserted[k]
    {
      if k < j {
        assert inserted[k] == sorted[k];
      } else if k > j {
        assert inserted[k] == sorted[k - 1];
      }
    }
  }

  /** Sorting in place, as `list.sort(key=..., reverse=...)` does, proved equal to the stable sort. */
  method SortInPlace<T, K(!new)>(a: array<T>, key: T -> K, lt: (K, K) -> bool)
    requires StrictTotalOrder(lt)
    modifies a
    ensures a[..] == InsertionSort(old(a[..]), key, lt)
  {
    ghost var orig := a[..];
    var i := 0;
    while i < a.Length
      invariant 0 <= i <= a.Length
      invariant a[..i] == InsertionSort(orig[..i], key, lt)
      invariant forall k | i <= k < a.Length :: a[k] == orig[k]
    {
      SortSorted(orig[..i], key, lt);
      SortPrefixStep(orig, i, key, lt);
      InsertLast(a, i, key, lt);
      i := i + 1;
    }
    assert orig[..a.Length] == orig;
  }

  lemma {:induction false} InsertTiesOrdered<T, K(!new)>(r: seq<T>, x: T, key: T -> K, lt: (K, K) -> bool,
                                                   before: (T, T) -> bool)
    requires StrictTotalOrder(lt) && Sorted(r, key, lt) && TiesOrdered(r, key, before)
    requires forall i | 0 <= i < |r| && key(r[i]) == key(x) :: before(r[i], x)
    ensures TiesOrdered(Insert(r, x, key, lt), key, before)
  {
    if r == [] {
    } else if lt(key(x), key(r[0])) {
      forall j | 0 <= j < |r|
        ensures key(r[j]) != key(x)
      {
        assert !lt(key(r[j]), key(r[0]));
      }
    } else {
      InsertTiesOrdered(r[1..], x, key, lt, before);
      var q := Insert(r[1..], x, key, lt);
      forall j | 0 <= j < |q| && key(r[0]) == key(q[j])
        ensures before(r[0], q[j])
      {
        assert q[j] in multiset(r[1..]) + multiset{x};
        if q[j] != x {
          var m :| 0 <= m < |r[1..]| && r[1..][m] == q[j];
          assert r[m + 1] == q[j];
        }
      }
    }
  }

  /**
   * Stability: if every pair of equal-key elements of `s` is in `before` order, the sort keeps
   * them so (with `before` "earlier in the input", ties keep their input order).
   */
  lemma {:induction false} SortTiesOrdered<T, K(!new)>(s: seq<T>, key: T -> K, lt: (K, K) -> bool,
                                                 before: (T, T) -> bool)
    requires StrictTotalOrder(lt) && TiesOrdered(s, key, before)
    ensures TiesOrdered(InsertionSort(s, key, lt), key, before)
  {
    if s != [] {
      var init, x := s[..|s| - 1], s[|s| - 1];
      SortTiesOrdered(init, key, lt, before);
      SortSorted(init, key, lt);
      var r := InsertionSort(init, key, lt);
      forall i | 0 <= i < |r| && key(r[i]) == key(x)
        ensures before(r[i], x)
      {
        assert r[i] in multiset(init);
        var m :| 0 <= m < |init| && init[m] == r[i];
        assert s[m] == r[i];
      }
      InsertTiesOrdered(r, x, key, lt, before);
    }
  }

  /**
   * With an injective key, a sorted sequence is determined by its multiset of elements: the
   * sort's result does not depend on the order of its input.
   */
  lemma {:induction false} SortedUnique<T, K(!new)>(s: seq<T>, t: seq<T>, key: T -> K, lt: (K, K) -> bool)
    requires StrictTotalOrder(lt)
    requires forall a, b :: key(a) == key(b) ==> a == b
    requires Sorted(s, key, lt) && Sorted(t, key, lt) && multiset(s) == multiset(t)
    ensures s == t
  {
    if s != [] {
      assert s[0] in multiset(t);
      SortedHeadsEqual(s, t, key, lt);
      SortedTail(s, key, lt);
      SortedTail(t, key, lt);
      assert multiset(s[1..]) == multiset(t[1..]) by {
        assert s == [s[0]] + s[1..] && t == [t[0]] + t[1..];
        assert multiset(s[1..]) == multiset(s) - multiset{s[0]};
        assert multiset(t[1..]) == multiset(t) - multiset{t[0]};
      }
      SortedUnique(s[1..], t[1..], key, lt);
      assert s == [s[0]] + s[1..] && t == [t[0]] + t[1..];
    }
  }

  lemma SortedTail<T, K>(s: seq<T>, key: T -> K, lt: (K, K) -> bool)
    requires Sorted(s, key, lt) && s != []
    ensures Sorted(s[1..], key, lt)
  {
    forall i, j | 0 <= i < j < |s| - 1
      ensures !lt(key(s[1..][j]), key(s[1..][i]))
    {
      assert s[1..][j] == s[j + 1] && s[1..][i] == s[i + 1];
    }
  }

  lemma SortedHeadsEqual<T, K(!new)>(s: seq<T>, t: seq<T>, key: T -> K, lt: (K, K) -> bool)
    requires StrictTotalOrder(lt)
    requires forall a, b :: key(a) == key(b) ==> a == b
    requires Sorted(s, key, lt) && Sorted(t, key, lt) && multiset(s) == multiset(t)
    requires s != [] && t != []
    ensures s[0] == t[0]
  {
    assert t[0] in multiset(s);
    var m :| 0 <= m < |s| && s[m] == t[0];
    assert s[0] in multiset(t);
    var n :| 0 <= n < |t| && t[n] == s[0];
    assert !lt(key(t[0]), key(s[0]));
    assert !lt(key(s[0]), key(t[0]));
    assert key(s[0]) == key(t[0]);
  }

  /** The stable sort of two permutations of one another is the same, for an injective key. */
  lemma SortPermutationInvariant<T, K(!new)>(s: seq<T>, t: seq<T>, key: T -> K, lt: (K, K) -> bool)
    requires StrictTotalOrder(lt)
    requires forall a, b :: key(a) == key(b) ==> a == b
    requires multiset(s) == multiset(t)
    ensures InsertionSort(s, key, lt) == InsertionSort(t, key, lt)
  {
    SortSorted(s, key, lt);
    SortSorted(t, key, lt);
    SortedUnique(InsertionSort(s, key, lt), InsertionSort(t, key, lt), key, lt);
  }
}
