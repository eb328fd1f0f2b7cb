/** The data flow of `main`: load, clean in place, filter a copy, and compute
    the figures the page shows. Widgets, layout and charts are not modelled;
    the sidebar's choices arrive as a `Selection`. */
module Dashboard {
  import opened Base
  import opened Loans
  import opened Counting
  import opened Cleaning
  import opened Filtering
  import opened Aggregates

  /** The integer figures of one render: the loan count, the label and
      education distributions of the filtered rows, and the missing-value
      report of the whole table with its row count (the denominator of the
      percentages). */
  datatype View = View(
    totalLoans: nat,
    labels: seq<(string, nat)>,
    education: seq<(int, nat)>,
    missing: seq<(Column, nat)>,
    tableRows: nat)

  /** What a run of `main` ends with: no file, the exception of the cleaning
      step, the exception of a slider's setup in the column it names, or a
      page. */
  datatype Page = NoData | Crashed(error: CleanError) | SliderFailed(column: Column) | Shown(view: View)

  function AgeColumn(rows: seq<Loan>): seq<Option<int>> {
    seq(|rows|, i requires 0 <= i < |rows| => rows[i].age)
  }

  function IncomeColumn(rows: seq<Loan>): seq<Option<real>> {
    seq(|rows|, i requires 0 <= i < |rows| => rows[i].income)
  }

  /** The sliders take `int()` of the least and greatest age (line 247) and
      then of the least and greatest income (lines 252-254). A column without
      a single value has NaN extremes, and `int()` of NaN raises, so the age
      slider fails on a table with no age and the income slider on one with
      an age but no income. */
  function SliderFailure(df: seq<Loan>): (c: Option<Column>)
    ensures c == Some(Age) <==> forall i :: 0 <= i < |df| ==> df[i].age.None?
    ensures c == Some(Income) <==>
      && (exists i :: 0 <= i < |df| && df[i].age.Some?)
      && (forall i :: 0 <= i < |df| ==> df[i].income.None?)
    ensures c.None? <==>
      && (exists i :: 0 <= i < |df| && df[i].age.Some?)
      && (exists i :: 0 <= i < |df| && df[i].income.Some?)
  {
    PresentZero(AgeColumn(df));
    PresentZero(IncomeColumn(df));
    assert forall i :: 0 <= i < |df| ==> AgeColumn(df)[i] == df[i].age;
    assert forall i :: 0 <= i < |df| ==> IncomeColumn(df)[i] == df[i].income;
    if Present(AgeColumn(df)) == 0 then Some(Age)
    else if Present(IncomeColumn(df)) == 0 then Some(Income)
    else None
  }

  /** One run of `main` on the loaded table (`None` when the file is absent). */
  function Render(loaded: Option<seq<Loan>>, sel: Selection): Page {
    match loaded
    case None => NoData
    case Some(raw) =>
      match Clean(raw)
      case Failure(e) => Crashed(e)
      case Success(df) =>
        match SliderFailure(df)
        case Some(c) => SliderFailed(c)
        case None =>
          var filtered := ApplyFilters(df, sel);
          Shown(View(TotalLoans(filtered), LabelDistribution(filtered),
                     EdDistribution(filtered), MissingReport(df), |df|))
  }

  /** Cleaning leaves the age and income columns as they were, so the sliders
      fail on the cleaned table exactly when they would on the raw one. */
  lemma CleanKeepsSliderColumns(raw: seq<Loan>)
    requires Clean(raw).Success?
    ensures SliderFailure(Clean(raw).value) == SliderFailure(raw)
  {
    var df := Clean(raw).value;
    assert AgeColumn(df) == AgeColumn(raw);
    assert IncomeColumn(df) == IncomeColumn(raw);
  }

  /** What a run promises: no data exactly when the file is absent; the
      cleaning exception exactly when some raw `default` has no accepted
      spelling; otherwise the age slider fails exactly when no row has an age,
      and the income slider exactly when rows have an age but none has an
      income. The page appears exactly when none of these happens. Its loan
      count is the number of cleaned rows the selection admits; the label
      counts add up to it and name only the two labels; the education counts
      add up to at most it; and the missing-value report never lists the
      cleaned columns. */
  lemma RenderedFiguresAgree(loaded: Option<seq<Loan>>, sel: Selection)
    ensures Render(loaded, sel).NoData? <==> loaded.None?
    ensures loaded.Some? ==>
      (Render(loaded, sel).Crashed? <==>
       exists i :: 0 <= i < |loaded.value| && Decode(loaded.value[i].default).None?)
    ensures loaded.Some? && Clean(loaded.value).Success? ==>
      var raw := loaded.value;
      && (Render(loaded, sel) == SliderFailed(Age) <==>
          forall i :: 0 <= i < |raw| ==> raw[i].age.None?)
      && (Render(loaded, sel) == SliderFailed(Income) <==>
          (exists i :: 0 <= i < |raw| && raw[i].age.Some?) &&
          (forall i :: 0 <= i < |raw| ==> raw[i].income.None?))
    ensures Render(loaded, sel).Shown? <==>
      && loaded.Some?
      && (forall i :: 0 <= i < |loaded.value| ==> Decode(loaded.value[i].default).Some?)
      && (exists i :: 0 <= i < |loaded.value| && loaded.value[i].age.Some?)
      && (exists i :: 0 <= i < |loaded.value| && loaded.value[i].income.Some?)
    ensures Render(loaded, sel).Shown? ==>
      var v := Render(loaded, sel).view;
      var df := Clean(loaded.value).value;
      && v.totalLoans == CountMatching(df, sel) <= v.tableRows == |loaded.value|
      && v.tableRows > 0
      && Total(v.labels) == v.totalLoans
      && (forall k :: k in Keys(v.labels) ==> k == ApprovedLabel || k == NotApprovedLabel)
      && Total(v.education) <= v.totalLoans
      && Default !in Keys(v.missing) && DefaultLabel !in Keys(v.missing)
  {
    if loaded.Some? && Clean(loaded.value).Success? {
      var df := Clean(loaded.value).value;
      CleanEstablishesInvariant(loaded.value);
      CleanKeepsSliderColumns(loaded.value);
      CleanedFiltered(df, sel);
      TotalLoansCountsMatches(df, sel);
      LabelDistributionAddsUp(ApplyFilters(df, sel));
      CleanedColumnsNeverMissing(df);
    }
  }

  /** `main` with `df` the frame `load_data` returned (null when the file is
      absent). Cleaning changes `df` in place; the filters work on a copy, so
      once cleaning succeeds `df` holds the cleaned table, and when it raises
      `df` holds the mapped column. */
  method RunMain(df: array?<Loan>, sel: Selection) returns (p: Page)
    modifies df
    ensures p == Render(if df == null then None else Some(old(df[..])), sel)
    ensures df != null && (p.SliderFailed? || p.Shown?) ==> df[..] == Clean(old(df[..])).value
    ensures df != null && p.Crashed? ==> df[..] == MappedStage(TextStage(old(df[..])))
  {
    if df == null {
      return NoData;
    }
    var err := PreprocessData(df);
    if err.Some? {
      return Crashed(err.value);
    }
    var stop := SliderFailure(df[..]);
    if stop.Some? {
      return SliderFailed(stop.value);
    }
    var filtered := ApplyFilters(df[..], sel);
    var view := View(TotalLoans(filtered), LabelDistribution(filtered),
                     EdDistribution(filtered), MissingReport(df[..]), df.Length);
    p := Shown(view);
  }
}
