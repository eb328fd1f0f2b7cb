/** `value_counts`, `sort_values` and `sort_index` on a column: a table of
    (value, count) entries, one per distinct value. */
module Counting {
  import opened Base

  // ---------------------------------------------------------------------
  // Counting cells

  /** How many cells hold `k`; missing cells hold nothing. */
  function Occurrences<K(==)>(xs: seq<Option<K>>, k: K): nat
    decreases |xs|
  {
    if xs == [] then 0
    else Occurrences(xs[..|xs| - 1], k) + (if xs[|xs| - 1] == Some(k) then 1 else 0)
  }

  /** How many cells are not missing. */
  function Present<K>(xs: seq<Option<K>>): (n: nat)
    ensures n <= |xs|
    decreases |xs|
  {
    if xs == [] then 0
    else Present(xs[..|xs| - 1]) + (if xs[|xs| - 1].Some? then 1 else 0)
  }

  /** No cell is present exactly when every cell is missing. */
  lemma {:induction false} PresentZero<K>(xs: seq<Option<K>>)
    ensures Present(xs) == 0 <==> forall i :: 0 <= i < |xs| ==> xs[i].None?
    decreases |xs|
  {
    if xs != [] {
      var init := xs[..|xs| - 1];
      PresentZero(init);
      assert forall i :: 0 <= i < |init| ==> init[i] == xs[i];
    }
  }

  // ---------------------------------------------------------------------
  // Count tables

  function Keys<K>(t: seq<(K, nat)>): seq<K> {
    seq(|t|, i requires 0 <= i < |t| => t[i].0)
  }

  ghost predicate DistinctKeys<K>(t: seq<(K, nat)>) {
    forall i, j :: 0 <= i < j < |t| ==> t[i].0 != t[j].0
  }

  ghost predicate Positive<K>(t: seq<(K, nat)>) {
    forall i :: 0 <= i < |t| ==> t[i].1 > 0
  }

  /** The sum of the counts. */
  function Total<K>(t: seq<(K, nat)>): nat {
    if t == [] then 0 else t[0].1 + Total(t[1..])
  }

  /** The count a table gives `k`, 0 when `k` has no entry. */
  function CountOf<K(==)>(t: seq<(K, nat)>, k: K): nat {
    if t == [] then 0
    else if t[0].0 == k then t[0].1
    else CountOf(t[1..], k)
  }

  /** Adds one to the count of `k`, appending a new entry for a new value. */
  function Increment<K(==)>(t: seq<(K, nat)>, k: K): seq<(K, nat)> {
    if t == [] then [(k, 1)]
    else if t[0].0 == k then [(k, t[0].1 + 1)] + t[1..]
    else [t[0]] + Increment(t[1..], k)
  }

  /** The counts of a column, values in order of first appearance. */
  function Tally<K(==)>(xs: seq<Option<K>>): seq<(K, nat)>
    decreases |xs|
  {
    if xs == [] then []
    else
      var t := Tally(xs[..|xs| - 1]);
      match xs[|xs| - 1]
      case None => t
      case Some(k) => Increment(t, k)
  }

  lemma {:induction false} IncrementFacts<K>(t: seq<(K, nat)>, k: K)
    requires DistinctKeys(t) && Positive(t)
    ensures DistinctKeys(Increment(t, k)) && Positive(Increment(t, k))
    ensures forall j :: CountOf(Increment(t, k), j) == CountOf(t, j) + (if j == k then 1 else 0)
    ensures forall j :: j in Keys(Increment(t, k)) <==> j in Keys(t) || j == k
    ensures Total(Increment(t, k)) == Total(t) + 1
    decreases |t|
  {
    if t == [] {
      assert Keys(Increment(t, k)) == [k];
    } else {
      var r := Increment(t, k);
      assert Keys(t) == [t[0].0] + Keys(t[1..]);
      if t[0].0 == k {
        assert r[1..] == t[1..];
        assert Keys(r) == Keys(t);
      } else {
        IncrementFacts(t[1..], k);
        var u := Increment(t[1..], k);
        assert r == [t[0]] + u;
        assert Keys(r) == [t[0].0] + Keys(u);
        forall m | 0 <= m < |u| ensures u[m].0 != t[0].0 {
          assert Keys(u)[m] == u[m].0;
          if u[m].0 != k {
            assert u[m].0 in Keys(u);
            assert u[m].0 in Keys(t[1..]);
            var n :| 0 <= n < |t[1..]| && Keys(t[1..])[n] == u[m].0;
            assert t[n + 1].0 == u[m].0;
          }
        }
      }
    }
  }

  lemma {:induction false} CountOfAbsent<K>(t: seq<(K, nat)>, k: K)
    requires k !in Keys(t)
    ensures CountOf(t, k) == 0
    decreases |t|
  {
    if t != [] {
      assert Keys(t) == [t[0].0] + Keys(t[1..]);
      CountOfAbsent(t[1..], k);
    }
  }

  lemma {:induction false} CountOfEntry<K>(t: seq<(K, nat)>, i: nat)
    requires DistinctKeys(t) && i < |t|
    ensures CountOf(t, t[i].0) == t[i].1
    decreases i
  {
    if i > 0 {
      CountOfEntry(t[1..], i - 1);
    }
  }

  /** The tally has one entry per value present, each with that value's number
      of cells, and its counts add up to the number of cells present. */
  lemma {:induction false} TallyCounts<K>(xs: seq<Option<K>>)
    ensures DistinctKeys(Tally(xs)) && Positive(Tally(xs))
    ensures forall k :: CountOf(Tally(xs), k) == Occurrences(xs, k)
    ensures forall k :: k in Keys(Tally(xs)) <==> Occurrences(xs, k) > 0
    ensures Total(Tally(xs)) == Present(xs)
    decreases |xs|
  {
    if xs != [] {
      var init := xs[..|xs| - 1];
      TallyCounts(init);
      match xs[|xs| - 1]
      case None =>
      case Some(k) => IncrementFacts(Tally(init), k);
    }
    forall k ensures k in Keys(Tally(xs)) <==> Occurrences(xs, k) > 0 {
      if k !in Keys(Tally(xs)) {
        CountOfAbsent(Tally(xs), k);
      } else {
        var i :| 0 <= i < |Tally(xs)| && Keys(Tally(xs))[i] == k;
        CountOfEntry(Tally(xs), i);
      }
    }
  }

  // ---------------------------------------------------------------------
  // Sorting a count table: insertion sort on a rank, ascending

  /** Ranks for `sort_values(ascending=False)` and for `sort_index()`. */
  function DescendingCount<K>(e: (K, nat)): int { -(e.1 as int) }

  function AscendingKey(e: (int, nat)): int { e.0 }

  ghost predicate SortedBy<K>(t: seq<(K, nat)>, rank: ((K, nat)) -> int) {
    forall i, j :: 0 <= i < j < |t| ==> rank(t[i]) <= rank(t[j])
  }

  function Insert<K>(e: (K, nat), s: seq<(K, nat)>, rank: ((K, nat)) -> int): seq<(K, nat)> {
    if s == [] then [e]
    else if rank(e) <= rank(s[0]) then [e] + s
    else [s[0]] + Insert(e, s[1..], rank)
  }

  function SortBy<K>(t: seq<(K, nat)>, rank: ((K, nat)) -> int): seq<(K, nat)> {
    if t == [] then [] else Insert(t[0], SortBy(t[1..], rank), rank)
  }

  lemma {:induction false} InsertMembers<K>(e: (K, nat), s: seq<(K, nat)>, rank: ((K, nat)) -> int)
    ensures multiset(Insert(e, s, rank)) == multiset(s) + multiset{e}
    ensures Total(Insert(e, s, rank)) == Total(s) + e.1
    decreases |s|
  {
    if s != [] && rank(e) > rank(s[0]) {
      InsertMembers(e, s[1..], rank);
      assert s == [s[0]] + s[1..];
    }
  }

  lemma {:induction false} InsertSorted<K>(e: (K, nat), s: seq<(K, nat)>, rank: ((K, nat)) -> int)
    requires SortedBy(s, rank)
    ensures SortedBy(Insert(e, s, rank), rank)
    decreases |s|
  {
    if s != [] && rank(e) > rank(s[0]) {
      InsertSorted(e, s[1..], rank);
      InsertMembers(e, s[1..], rank);
      var u := Insert(e, s[1..], rank);
      forall m | 0 <= m < |u| ensures rank(s[0]) <= rank(u[m]) {
        assert u[m] in multiset(u);
        if u[m] != e {
          assert u[m] in multiset(s[1..]);
        }
      }
    }
  }

  lemma {:induction false} InsertDistinct<K>(e: (K, nat), s: seq<(K, nat)>, rank: ((K, nat)) -> int)
    requires DistinctKeys(s) && forall m :: 0 <= m < |s| ==> s[m].0 != e.0
    ensures DistinctKeys(Insert(e, s, rank))
    decreases |s|
  {
    if s != [] && rank(e) > rank(s[0]) {
      InsertDistinct(e, s[1..], rank);
      InsertMembers(e, s[1..], rank);
      var u := Insert(e, s[1..], rank);
      forall m | 0 <= m < |u| ensures u[m].0 != s[0].0 {
        assert u[m] in multiset(u);
        if u[m] != e {
          assert u[m] in multiset(s[1..]);
        }
      }
    }
  }

  lemma {:induction false} SortByFacts<K>(t: seq<(K, nat)>, rank: ((K, nat)) -> int)
    ensures SortedBy(SortBy(t, rank), rank)
    ensures multiset(SortBy(t, rank)) == multiset(t)
    ensures Total(SortBy(t, rank)) == Total(t)
    decreases |t|
  {
    if t != [] {
      var rest := SortBy(t[1..], rank);
      SortByFacts(t[1..], rank);
      InsertMembers(t[0], rest, rank);
      InsertSorted(t[0], rest, rank);
      assert t == [t[0]] + t[1..];
    }
  }

  lemma {:induction false} SortByDistinct<K>(t: seq<(K, nat)>, rank: ((K, nat)) -> int)
    requires DistinctKeys(t)
    ensures DistinctKeys(SortBy(t, rank))
    decreases |t|
  {
    if t != [] {
      var rest := SortBy(t[1..], rank);
      SortByDistinct(t[1..], rank);
      SortByFacts(t[1..], rank);
      forall m | 0 <= m < |rest| ensures rest[m].0 != t[0].0 {
        assert rest[m] in multiset(t[1..]);
      }
      InsertDistinct(t[0], rest, rank);
    }
  }

  /** Two tables holding the same entries have the same keys. */
  lemma PermutedKeys<K>(t: seq<(K, nat)>, v: seq<(K, nat)>)
    requires multiset(v) == multiset(t)
    ensures forall k :: k in Keys(v) <==> k in Keys(t)
  {
    forall k ensures k in Keys(v) ==> k in Keys(t) {
      if k in Keys(v) {
        var i :| 0 <= i < |v| && Keys(v)[i] == k;
        assert v[i] in multiset(t);
        var a :| 0 <= a < |t| && t[a] == v[i];
        assert Keys(t)[a] == k;
      }
    }
    forall k ensures k in Keys(t) ==> k in Keys(v) {
      if k in Keys(t) {
        var a :| 0 <= a < |t| && Keys(t)[a] == k;
        assert t[a] in multiset(v);
        var i :| 0 <= i < |v| && v[i] == t[a];
        assert Keys(v)[i] == k;
      }
    }
  }

  /** Each entry of a permutation of the tally is a correct, positive count. */
  lemma PermutedTallyEntries<K>(xs: seq<Option<K>>, v: seq<(K, nat)>)
    requires multiset(v) == multiset(Tally(xs))
    ensures forall i :: 0 <= i < |v| ==> v[i].1 == Occurrences(xs, v[i].0) > 0
  {
    var t := Tally(xs);
    TallyCounts(xs);
    forall i | 0 <= i < |v| ensures v[i].1 == Occurrences(xs, v[i].0) > 0 {
      assert v[i] in multiset(t);
      var a :| 0 <= a < |t| && t[a] == v[i];
      CountOfEntry(t, a);
    }
  }

  /** `value_counts()`: one entry per value present, with that value's number
      of cells, largest count first; the counts add up to the cells present. */
  function ValueCounts<K(==,!new)>(xs: seq<Option<K>>): (v: seq<(K, nat)>)
    ensures DistinctKeys(v)
    ensures forall i :: 0 <= i < |v| ==> v[i].1 == Occurrences(xs, v[i].0) > 0
    ensures forall k :: k in Keys(v) <==> Occurrences(xs, k) > 0
    ensures forall i, j :: 0 <= i < j < |v| ==> v[i].1 >= v[j].1
    ensures Total(v) == Present(xs)
  {
    TallyCounts(xs);
    SortByFacts(Tally(xs), DescendingCount);
    SortByDistinct(Tally(xs), DescendingCount);
    PermutedKeys(Tally(xs), SortBy(Tally(xs), DescendingCount));
    PermutedTallyEntries(xs, SortBy(Tally(xs), DescendingCount));
    SortBy(Tally(xs), DescendingCount)
  }

  /** `sort_index()` of a count table with integer keys: keys strictly
      ascending, entries unchanged. */
  function SortIndex(t: seq<(int, nat)>): (s: seq<(int, nat)>)
    requires DistinctKeys(t)
    ensures multiset(s) == multiset(t) && Total(s) == Total(t)
    ensures forall i, j :: 0 <= i < j < |s| ==> s[i].0 < s[j].0
  {
    SortByFacts(t, AscendingKey);
    SortByDistinct(t, AscendingKey);
    SortBy(t, AscendingKey)
  }
}
