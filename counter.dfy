/**
 * The dictionary counters of `get_jumplist_statistics` (`d[k] = d.get(k, 0) + 1` over a list)
 * and their top entries (`sorted(d.items(), key=lambda x: x[1], reverse=True)[:n]`).
 *
 * A dictionary keeps its keys in insertion order, so a counter is modelled as the sequence of
 * its items: each key once, in order of first appearance, with its count.
 */
module Counter {
  import opened Sorting

  type Counts<K> = seq<(K, nat)>

  predicate Distinct<K(==)>(s: seq<K>) {
    forall i, j | 0 <= i < j < |s| :: s[i] != s[j]
  }

  /** The distinct elements of `s` in order of first appearance. */
  function Keys<K(==)>(s: seq<K>): (r: seq<K>)
    ensures |r| <= |s|
  {
    if s == [] then []
    else
      var init := Keys(s[..|s| - 1]);
      if s[|s| - 1] in init then init else init + [s[|s| - 1]]
  }

  /** `Keys` lists every element of `s`, each once. */
  lemma {:induction false} KeysShape<K>(s: seq<K>)
    ensures forall k :: k in Keys(s) <==> k in s
    ensures Distinct(Keys(s))
  {
    if s != [] {
      var init := s[..|s| - 1];
      KeysShape(init);
      assert s == init + [s[|s| - 1]];
    }
  }

  /** `Keys` has one entry per distinct element of `s`. */
  lemma {:induction false} KeysCount<K>(s: seq<K>)
    ensures |Keys(s)| == |set k | k in s|
  {
    if s == [] {
      assert (set k | k in s) == {};
    } else {
      var init := s[..|s| - 1];
      var x := s[|s| - 1];
      KeysCount(init);
      KeysShape(init);
      assert s == init + [x];
      assert (set k | k in s) == (set k | k in init) + {x};
      if x in init {
        assert Keys(s) == Keys(init);
        assert (set k | k in s) == (set k | k in init);
      } else {
        assert Keys(s) == Keys(init) + [x];
        assert x !in (set k | k in init);
      }
    }
  }

  /** The position of `k` in `s`, `|s|` when it does not occur. */
  function IndexIn<K(==)>(s: seq<K>, k: K): (i: nat)
    ensures i <= |s|
    ensures i < |s| ==> s[i] == k
    ensures forall j | 0 <= j < i :: s[j] != k
  {
    if s == [] then 0
    else if s[0] == k then 0
    else 1 + IndexIn(s[1..], k)
  }

  /** Keys come in order of first appearance: an earlier key occurs in `s` before a later one first does. */
  lemma {:induction false} KeysFirstSeen<K>(s: seq<K>, i: nat, j: nat)
    requires i < j < |Keys(s)|
    ensures IndexIn(s, Keys(s)[i]) < IndexIn(s, Keys(s)[j])
  {
    KeysShape(s);
    var init := s[..|s| - 1];
    var x := s[|s| - 1];
    KeysShape(init);
    assert s == init + [x];
    PrefixIndex(init, x, Keys(s)[i]);
    PrefixIndex(init, x, Keys(s)[j]);
    if j < |Keys(init)| {
      KeysFirstSeen(init, i, j);
    } else {
      assert Keys(s)[j] == x && x !in init;
      var k := Keys(s)[i];
      assert k == Keys(init)[i] && k in Keys(init);
      assert IndexIn(init, k) < |init|;
    }
  }

  /** An element of the prefix is first found where the prefix finds it. */
  lemma {:induction false} PrefixIndex<K>(init: seq<K>, x: K, k: K)
    ensures k in init ==> IndexIn(init + [x], k) == IndexIn(init, k)
    ensures k !in init ==> IndexIn(init + [x], k) >= |init|
  {
    if init != [] && init[0] != k {
      assert (init + [x])[1..] == init[1..] + [x];
      PrefixIndex(init[1..], x, k);
    }
  }

  /** The counter a loop of `d[k] = d.get(k, 0) + 1` over `s` builds. */
  function Tally<K(==)>(s: seq<K>): (c: Counts<K>)
    ensures |c| == |Keys(s)|
  {
    var ks := Keys(s);
    seq(|ks|, i requires 0 <= i < |ks| => (ks[i], multiset(s)[ks[i]]))
  }

  /** The keys of a counter, in its order. */
  function KeysOf<K>(c: Counts<K>): (ks: seq<K>)
    ensures |ks| == |c| && forall i | 0 <= i < |c| :: ks[i] == c[i].0
  {
    seq(|c|, i requires 0 <= i < |c| => c[i].0)
  }

  /** `d[k] = d.get(k, 0) + 1`: the count of a present key goes up, an absent key is appended with 1. */
  function Bump<K(==)>(c: Counts<K>, k: K): (r: Counts<K>)
    ensures KeysOf(r) == if k in KeysOf(c) then KeysOf(c) else KeysOf(c) + [k]
  {
    var i := IndexIn(KeysOf(c), k);
    if i == |c| then c + [(k, 1)] else c[i := (k, c[i].1 + 1)]
  }

  /** Counting one more element is one `Bump` of the counter. */
  lemma TallyStep<K>(s: seq<K>, x: K)
    ensures Tally(s + [x]) == Bump(Tally(s), x)
  {
    var t := s + [x];
    assert t[..|t| - 1] == s;
    KeysShape(s);
    var ks := Keys(s);
    var c := Tally(s);
    assert KeysOf(c) == ks;
    assert multiset(t) == multiset(s) + multiset{x};
    var i := IndexIn(ks, x);
    var r := Tally(t);
    if i == |ks| {
      assert x !in s;
      assert Keys(t) == ks + [x];
      var b := c + [(x, 1)];
      forall j | 0 <= j < |r|
        ensures r[j] == b[j]
      {
        if j < |ks| {
          assert ks[j] != x;
        }
      }
      assert r == b;
    } else {
      assert Keys(t) == ks;
      var b := c[i := (x, c[i].1 + 1)];
      forall j | 0 <= j < |r|
        ensures r[j] == b[j]
      {
        if j != i {
          assert ks[j] != ks[i];
        }
      }
      assert r == b;
    }
  }

  /** The counting loop. */
  method CountAll<K(==)>(s: seq<K>) returns (c: Counts<K>)
    ensures c == Tally(s)
  {
    c := [];
    var i := 0;
    while i < |s|
      invariant 0 <= i <= |s|
      invariant c == Tally(s[..i])
    {
      assert s[..i + 1] == s[..i] + [s[i]];
      TallyStep(s[..i], s[i]);
      c := Bump(c, s[i]);
      i := i + 1;
    }
    assert s[..i] == s;
  }

  /** The order `reverse=True` sorts counts by. */
  predicate Greater(a: nat, b: nat) {
    a > b
  }

  function CountOf<K>(p: (K, nat)): nat {
    p.1
  }

  lemma GreaterIsTotal()
    ensures StrictTotalOrder(Greater)
  {
  }

  /** `sorted(c.items(), key=lambda x: x[1], reverse=True)[:n]`. */
  function Top<K>(c: Counts<K>, n: nat): (r: Counts<K>)
    ensures |r| == if n < |c| then n else |c|
  {
    var sorted := InsertionSort(c, CountOf, Greater);
    if n < |sorted| then sorted[..n] else sorted
  }

  /** `p` is the counter entry of its key: an element of `s` with its number of occurrences. */
  predicate IsEntry<K(==)>(s: seq<K>, p: (K, nat)) {
    p.0 in s && p.1 == multiset(s)[p.0]
  }

  /** The top entries are a prefix of the sorted counter. */
  lemma TopIsPrefix<K>(c: Counts<K>, n: nat)
    ensures Top(c, n) == InsertionSort(c, CountOf, Greater)[..|Top(c, n)|]
  {
  }

  /** Every entry of the sorted counter of `s` is an entry of `s`. */
  lemma SortedTallyEntries<K>(s: seq<K>, i: nat)
    requires i < |InsertionSort(Tally(s), CountOf, Greater)|
    ensures IsEntry(s, InsertionSort(Tally(s), CountOf, Greater)[i])
  {
    var c := Tally(s);
    var p := InsertionSort(c, CountOf, Greater)[i];
    assert p in multiset(c);
    var j :| 0 <= j < |c| && c[j] == p;
    KeysShape(s);
  }

  /** A counter with distinct keys holds each entry at most once. */
  lemma {:induction false} DistinctKeysOnce<K>(c: Counts<K>, x: (K, nat))
    requires Distinct(KeysOf(c))
    ensures multiset(c)[x] <= 1
  {
    if c != [] {
      var init := c[..|c| - 1];
      var last := c[|c| - 1];
      assert c == init + [last];
      assert Distinct(KeysOf(init)) by {
        forall a, b | 0 <= a < b < |init|
          ensures KeysOf(init)[a] != KeysOf(init)[b]
        {
          assert KeysOf(c)[a] != KeysOf(c)[b];
        }
      }
      DistinctKeysOnce(init, x);
    }
  }

  /** An element at two positions of a sequence occurs there at least twice. */
  lemma Twice<T>(s: seq<T>, i: nat, j: nat)
    requires i < j < |s| && s[i] == s[j]
    ensures multiset(s)[s[i]] >= 2
  {
    assert s == s[..j] + s[j..];
    assert s[i] in s[..j];
    assert s[j] in s[j..];
  }

  /** The top entries of the counter of `s` are distinct entries of `s`. */
  lemma TopEntries<K>(s: seq<K>, n: nat)
    ensures var t := Top(Tally(s), n);
      && (forall i | 0 <= i < |t| :: IsEntry(s, t[i]))
      && Distinct(KeysOf(t))
  {
    var c := Tally(s);
    var sorted := InsertionSort(c, CountOf, Greater);
    var t := Top(c, n);
    TopIsPrefix(c, n);
    KeysShape(s);
    assert KeysOf(c) == Keys(s);
    forall i | 0 <= i < |t|
      ensures IsEntry(s, t[i])
    {
      SortedTallyEntries(s, i);
    }
    forall i, j | 0 <= i < j < |t|
      ensures KeysOf(t)[i] != KeysOf(t)[j]
    {
      if t[i].0 == t[j].0 {
        SortedTallyEntries(s, i);
        SortedTallyEntries(s, j);
        Twice(sorted, i, j);
        DistinctKeysOnce(c, t[i]);
      }
    }
  }

  /**
   * The top counts do not increase, and entries with equal counts keep the order in which their
   * keys first appear in `s`.
   */
  lemma TopOrdered<K>(s: seq<K>, n: nat)
    ensures var t := Top(Tally(s), n);
      && (forall i, j | 0 <= i < j < |t| :: t[i].1 >= t[j].1)
      && (forall i, j | 0 <= i < j < |t| && t[i].1 == t[j].1 :: IndexIn(s, t[i].0) < IndexIn(s, t[j].0))
  {
    var c := Tally(s);
    GreaterIsTotal();
    SortSorted(c, CountOf, Greater);
    var before := (p: (K, nat), q: (K, nat)) => IndexIn(s, p.0) < IndexIn(s, q.0);
    forall i, j | 0 <= i < j < |c| && CountOf(c[i]) == CountOf(c[j])
      ensures before(c[i], c[j])
    {
      KeysFirstSeen(s, i, j);
    }
    SortTiesOrdered(c, CountOf, Greater, before);
    TopIsPrefix(c, n);
  }

  /** No element of `s` left out of the top entries occurs more often than any entry kept. */
  lemma TopMaximal<K>(s: seq<K>, n: nat, k: K)
    requires k in s && k !in KeysOf(Top(Tally(s), n))
    ensures forall i | 0 <= i < |Top(Tally(s), n)| :: multiset(s)[k] <= Top(Tally(s), n)[i].1
  {
    var c := Tally(s);
    var t := Top(c, n);
    var sorted := InsertionSort(c, CountOf, Greater);
    var m := IndexIn(Keys(s), k);
    assert m < |c| && c[m] == (k, multiset(s)[k]) by {
      KeysShape(s);
    }
    var p := Position(sorted, c[m]);
    assert p >= |t| by {
      TopIsPrefix(c, n);
      OutsidePrefix(t, sorted, p, k);
    }
    assert Sorted(sorted, CountOf, Greater) by {
      GreaterIsTotal();
      SortSorted(c, CountOf, Greater);
    }
    forall i | 0 <= i < |t|
      ensures multiset(s)[k] <= t[i].1
    {
      assert t[i] == sorted[i] by {
        TopIsPrefix(c, n);
      }
      assert !Greater(CountOf(sorted[p]), CountOf(sorted[i]));
    }
  }

  /** An entry whose key the prefix `t` lacks lies beyond it. */
  lemma OutsidePrefix<K>(t: Counts<K>, sorted: Counts<K>, p: nat, k: K)
    requires |t| <= |sorted| && t == sorted[..|t|]
    requires p < |sorted| && sorted[p].0 == k && k !in KeysOf(t)
    ensures p >= |t|
  {
  }

  /** A position at which an element of `s` stands. */
  lemma Position<T>(s: seq<T>, x: T) returns (p: nat)
    requires x in multiset(s)
    ensures p < |s| && s[p] == x
  {
    p :| 0 <= p < |s| && s[p] == x;
  }
}
