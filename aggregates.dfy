/** The integer counts the dashboard shows: the loan count, the distribution
    of `default_label`, the counts per education level, and the report of
    missing values. */
module Aggregates {
  import opened Base
  import opened Loans
  import opened Counting
  import opened Cleaning
  import opened Filtering

  // ---------------------------------------------------------------------
  // Columns as sequences of cells

  function LabelColumn(rows: seq<Loan>): seq<Option<string>> {
    seq(|rows|, i requires 0 <= i < |rows| => rows[i].defaultLabel)
  }

  function EdColumn(rows: seq<Loan>): seq<Option<int>> {
    seq(|rows|, i requires 0 <= i < |rows| => rows[i].ed)
  }

  lemma {:induction false} PresentWhenNoneMissing<K>(xs: seq<Option<K>>)
    requires forall i :: 0 <= i < |xs| ==> xs[i].Some?
    ensures Present(xs) == |xs|
    decreases |xs|
  {
    if xs != [] {
      PresentWhenNoneMissing(xs[..|xs| - 1]);
    }
  }

  lemma {:induction false} OccurringValueIsACell<K>(xs: seq<Option<K>>, k: K)
    requires Occurrences(xs, k) > 0
    ensures exists i :: 0 <= i < |xs| && xs[i] == Some(k)
    decreases |xs|
  {
    var init := xs[..|xs| - 1];
    if xs[|xs| - 1] != Some(k) {
      OccurringValueIsACell(init, k);
      var i :| 0 <= i < |init| && init[i] == Some(k);
      assert xs[i] == Some(k);
    }
  }

  /** Filtering a cleaned table leaves a cleaned table. */
  lemma CleanedFiltered(rows: seq<Loan>, sel: Selection)
    requires Cleaned(rows)
    ensures Cleaned(ApplyFilters(rows, sel))
  {
    var f := ApplyFilters(rows, sel);
    forall i | 0 <= i < |f|
      ensures || (f[i].default == Int(0) && f[i].defaultLabel == Some(ApprovedLabel))
              || (f[i].default == Int(1) && f[i].defaultLabel == Some(NotApprovedLabel))
    {
      assert f[i] in multiset(f);
      assert f[i] in multiset(rows);
      var j :| 0 <= j < |rows| && rows[j] == f[i];
    }
  }

  // ---------------------------------------------------------------------
  // Line 280: the loan count

  /** The "total loans" figure: the number of filtered rows. */
  function TotalLoans(filtered: seq<Loan>): nat {
    |filtered|
  }

  /** How many rows satisfy the selection. */
  function CountMatching(rows: seq<Loan>, sel: Selection): nat {
    if rows == [] then 0
    else (if Matches(sel, rows[0]) then 1 else 0) + CountMatching(rows[1..], sel)
  }

  /** The figure counts exactly the rows that satisfy the selection, and never
      exceeds the size of the table. */
  lemma {:induction false} TotalLoansCountsMatches(rows: seq<Loan>, sel: Selection)
    ensures TotalLoans(ApplyFilters(rows, sel)) == CountMatching(rows, sel) <= |rows|
    decreases |rows|
  {
    if rows != [] {
      TotalLoansCountsMatches(rows[1..], sel);
    }
  }

  // ---------------------------------------------------------------------
  // Line 350: the label distribution

  /** `filtered_df['default_label'].value_counts()` */
  function LabelDistribution(filtered: seq<Loan>): seq<(string, nat)> {
    ValueCounts(LabelColumn(filtered))
  }

  /** On a cleaned table the label counts add up to the loan count, and only
      the two labels occur. */
  lemma LabelDistributionAddsUp(filtered: seq<Loan>)
    requires Cleaned(filtered)
    ensures Total(LabelDistribution(filtered)) == TotalLoans(filtered)
    ensures forall k :: k in Keys(LabelDistribution(filtered)) ==>
              k == ApprovedLabel || k == NotApprovedLabel
  {
    var xs := LabelColumn(filtered);
    PresentWhenNoneMissing(xs);
    forall k | k in Keys(LabelDistribution(filtered))
      ensures k == ApprovedLabel || k == NotApprovedLabel
    {
      OccurringValueIsACell(xs, k);
    }
  }

  /** Under an outcome choice other than "Todos" every filtered row carries the
      label of that outcome, so the distribution has that one label only. */
  lemma LabelDistributionUnderOutcome(rows: seq<Loan>, sel: Selection)
    requires Cleaned(rows) && sel.outcome != Todos
    ensures forall k :: k in Keys(LabelDistribution(ApplyFilters(rows, sel))) ==>
              k == (if sel.outcome == Aprobado then ApprovedLabel else NotApprovedLabel)
  {
    var f := ApplyFilters(rows, sel);
    CleanedFiltered(rows, sel);
    forall k | k in Keys(LabelDistribution(f))
      ensures k == (if sel.outcome == Aprobado then ApprovedLabel else NotApprovedLabel)
    {
      OccurringValueIsACell(LabelColumn(f), k);
      var i :| 0 <= i < |f| && LabelColumn(f)[i] == Some(k);
      assert f[i] in f;
      assert Matches(sel, f[i]);
    }
  }

  // ---------------------------------------------------------------------
  // Line 498: counts per education level

  /** `filtered_df['ed'].value_counts().sort_index()`: one entry per level
      present, levels strictly ascending, each with its number of rows; the
      counts add up to the number of rows that have a level. */
  function EdDistribution(filtered: seq<Loan>): (v: seq<(int, nat)>)
    ensures forall i, j :: 0 <= i < j < |v| ==> v[i].0 < v[j].0
    ensures forall i :: 0 <= i < |v| ==> v[i].1 == Occurrences(EdColumn(filtered), v[i].0) > 0
    ensures forall k :: k in Keys(v) <==> Occurrences(EdColumn(filtered), k) > 0
    ensures Total(v) == Present(EdColumn(filtered)) <= |filtered|
  {
    var counts := ValueCounts(EdColumn(filtered));
    var v := SortIndex(counts);
    PermutedKeys(counts, v);
    forall i | 0 <= i < |v| ensures v[i].1 == Occurrences(EdColumn(filtered), v[i].0) > 0 {
      assert v[i] in multiset(counts);
      var a :| 0 <= a < |counts| && counts[a] == v[i];
    }
    v
  }

  // ---------------------------------------------------------------------
  // Lines 569-575: the missing-value report

  /** `isnull().sum()` of one column. */
  function MissingCount(rows: seq<Loan>, c: Column): (n: nat)
    ensures n <= |rows|
  {
    if rows == [] then 0
    else (if IsMissing(rows[0], c) then 1 else 0) + MissingCount(rows[1..], c)
  }

  /** The missing count of every column, in column order. */
  function MissingCounts(rows: seq<Loan>): seq<(Column, nat)> {
    seq(|Columns|, i requires 0 <= i < |Columns| => (Columns[i], MissingCount(rows, Columns[i])))
  }

  /** The mask `Valores_Faltantes > 0`. */
  function DropZero(t: seq<(Column, nat)>): seq<(Column, nat)> {
    if t == [] then []
    else (if t[0].1 > 0 then [t[0]] else []) + DropZero(t[1..])
  }

  lemma {:induction false} DropZeroMembers(t: seq<(Column, nat)>)
    ensures forall x :: x in DropZero(t) <==> x in t && x.1 > 0
    decreases |t|
  {
    if t != [] {
      DropZeroMembers(t[1..]);
      assert t == [t[0]] + t[1..];
    }
  }

  lemma {:induction false} DropZeroSorted(t: seq<(Column, nat)>)
    requires SortedBy(t, DescendingCount)
    ensures SortedBy(DropZero(t), DescendingCount)
    decreases |t|
  {
    if t != [] {
      DropZeroSorted(t[1..]);
      DropZeroMembers(t[1..]);
      var rest := DropZero(t[1..]);
      if t[0].1 > 0 {
        forall m | 0 <= m < |rest| ensures DescendingCount(t[0]) <= DescendingCount(rest[m]) {
          assert rest[m] in t[1..];
          var n :| 0 <= n < |t[1..]| && t[1..][n] == rest[m];
          assert t[n + 1] == rest[m];
        }
      }
    }
  }

  lemma {:induction false} DropZeroDistinct(t: seq<(Column, nat)>)
    requires DistinctKeys(t)
    ensures DistinctKeys(DropZero(t))
    decreases |t|
  {
    if t != [] {
      DropZeroDistinct(t[1..]);
      DropZeroMembers(t[1..]);
      var rest := DropZero(t[1..]);
      if t[0].1 > 0 {
        forall m | 0 <= m < |rest| ensures t[0].0 != rest[m].0 {
          assert rest[m] in t[1..];
          var n :| 0 <= n < |t[1..]| && t[1..][n] == rest[m];
          assert t[n + 1] == rest[m];
        }
      }
    }
  }

  /** Every column has one entry in `MissingCounts`, holding its count. */
  lemma MissingCountsFacts(rows: seq<Loan>)
    ensures DistinctKeys(MissingCounts(rows))
    ensures forall x :: x in MissingCounts(rows) <==> x == (x.0, MissingCount(rows, x.0))
  {
    var counts := MissingCounts(rows);
    ColumnsListed(Age);
    forall x: (Column, nat) | x == (x.0, MissingCount(rows, x.0)) ensures x in counts {
      ColumnsListed(x.0);
      var a :| 0 <= a < |Columns| && Columns[a] == x.0;
      assert counts[a] == x;
    }
  }

  /** The entries of the report are the positive entries of `MissingCounts`. */
  lemma MissingReportMembers(rows: seq<Loan>)
    ensures DistinctKeys(DropZero(SortBy(MissingCounts(rows), DescendingCount)))
    ensures SortedBy(DropZero(SortBy(MissingCounts(rows), DescendingCount)), DescendingCount)
    ensures forall x :: x in DropZero(SortBy(MissingCounts(rows), DescendingCount)) <==>
                        x == (x.0, MissingCount(rows, x.0)) && x.1 > 0
  {
    var counts := MissingCounts(rows);
    var sorted := SortBy(counts, DescendingCount);
    MissingCountsFacts(rows);
    SortByFacts(counts, DescendingCount);
    SortByDistinct(counts, DescendingCount);
    DropZeroMembers(sorted);
    DropZeroSorted(sorted);
    DropZeroDistinct(sorted);
    assert forall x :: x in sorted <==> x in counts by {
      forall x ensures x in sorted <==> x in counts {
        assert x in sorted <==> x in multiset(sorted);
        assert x in counts <==> x in multiset(counts);
      }
    }
  }

  /** The missing-value report: the columns that have a missing value, each
      with its count, largest count first. The percentages the chart shows
      are these counts over the row count (`Percentage`). */
  function MissingReport(rows: seq<Loan>): (r: seq<(Column, nat)>)
    ensures DistinctKeys(r)
    ensures forall i :: 0 <= i < |r| ==> r[i].1 == MissingCount(rows, r[i].0) > 0
    ensures forall c :: c in Keys(r) <==> MissingCount(rows, c) > 0
    ensures forall i, j :: 0 <= i < j < |r| ==> r[i].1 >= r[j].1
  {
    MissingReportMembers(rows);
    var r := DropZero(SortBy(MissingCounts(rows), DescendingCount));
    assert forall i :: 0 <= i < |r| ==> r[i] in r;
    assert forall c :: c in Keys(r) <==> MissingCount(rows, c) > 0 by {
      forall c ensures c in Keys(r) <==> MissingCount(rows, c) > 0 {
        if c in Keys(r) {
          var i :| 0 <= i < |r| && Keys(r)[i] == c;
          assert r[i] in r;
        }
        if MissingCount(rows, c) > 0 {
          var x := (c, MissingCount(rows, c));
          assert x in r;
          var i :| 0 <= i < |r| && r[i] == x;
          assert Keys(r)[i] == c;
        }
      }
    }
    assert forall i, j :: 0 <= i < j < |r| ==> DescendingCount(r[i]) <= DescendingCount(r[j]);
    r
  }

  /** The share of missing cells, in percent, before rounding. */
  function Percentage(count: nat, total: nat): real
    requires total > 0
  {
    count as real / total as real * 100.0
  }

  /** The report's percentages lie in (0, 100] and do not increase down the
      report: the order by count is an order by percentage. */
  lemma MissingPercentagesOrdered(rows: seq<Loan>)
    ensures forall i :: 0 <= i < |MissingReport(rows)| ==>
      |rows| > 0 && 0.0 < Percentage(MissingReport(rows)[i].1, |rows|) <= 100.0
    ensures forall i, j :: 0 <= i < j < |MissingReport(rows)| ==>
      |rows| > 0 &&
      Percentage(MissingReport(rows)[i].1, |rows|) >= Percentage(MissingReport(rows)[j].1, |rows|)
  {
    var r := MissingReport(rows);
    forall i | 0 <= i < |r| ensures |rows| > 0 && 0.0 < Percentage(r[i].1, |rows|) <= 100.0 {
      PercentageBounds(r[i].1, |rows|);
    }
    forall i, j | 0 <= i < j < |r|
      ensures |rows| > 0 && Percentage(r[i].1, |rows|) >= Percentage(r[j].1, |rows|)
    {
      PercentageMonotone(r[j].1, r[i].1, |rows|);
    }
  }

  lemma PercentageBounds(count: nat, total: nat)
    requires 0 < count <= total
    ensures 0.0 < Percentage(count, total) <= 100.0
  {
    assert count as real / total as real <= 1.0;
  }

  lemma PercentageMonotone(a: nat, b: nat, total: nat)
    requires a <= b && total > 0
    ensures Percentage(a, total) <= Percentage(b, total)
  {
    assert a as real / total as real <= b as real / total as real;
  }

  lemma {:induction false} NothingMissing(rows: seq<Loan>, c: Column)
    requires forall i :: 0 <= i < |rows| ==> !IsMissing(rows[i], c)
    ensures MissingCount(rows, c) == 0
    decreases |rows|
  {
    if rows != [] {
      NothingMissing(rows[1..], c);
    }
  }

  /** After cleaning, `default` and `default_label` never appear in the report. */
  lemma CleanedColumnsNeverMissing(rows: seq<Loan>)
    requires Cleaned(rows)
    ensures Default !in Keys(MissingReport(rows))
    ensures DefaultLabel !in Keys(MissingReport(rows))
  {
    NothingMissing(rows, Default);
    NothingMissing(rows, DefaultLabel);
  }
}
