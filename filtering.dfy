/** The filter block of `main`: a copy of the cleaned table is narrowed first
    by the selected loan outcome and then by the income and age sliders. */
module Filtering {
  import opened Base
  import opened Loans

  /** The three options of the outcome selector. */
  datatype Outcome = Todos | Aprobado | NoAprobado

  /** The sidebar's choices: the outcome and two inclusive integer ranges. */
  datatype Selection = Selection(
    outcome: Outcome,
    ageLo: int, ageHi: int,
    incomeLo: int, incomeHi: int)

  /** The code an outcome keeps; "Todos" skips the outcome step. */
  function OutcomeCode(o: Outcome): Option<int> {
    if o == Todos then None
    else Some(if o == Aprobado then 0 else 1)
  }

  // ---------------------------------------------------------------------
  // Row predicates. A missing value fails every comparison, as NaN does.

  predicate HasCode(r: Loan, code: int) {
    r.default == Int(code)
  }

  predicate InRanges(sel: Selection, r: Loan) {
    && r.income.Some? && sel.incomeLo as real <= r.income.value <= sel.incomeHi as real
    && r.age.Some? && sel.ageLo <= r.age.value <= sel.ageHi
  }

  predicate OutcomeHolds(o: Outcome, r: Loan) {
    match OutcomeCode(o)
    case None => true
    case Some(code) => HasCode(r, code)
  }

  /** The conjunction the filter block is meant to compute. */
  predicate Matches(sel: Selection, r: Loan) {
    OutcomeHolds(sel.outcome, r) && InRanges(sel, r)
  }

  // ---------------------------------------------------------------------
  // The two masks, as `main` applies them

  /** `filtered_df[filtered_df['default'] == code]` */
  function ByCode(rows: seq<Loan>, code: int): seq<Loan> {
    if rows == [] then []
    else (if HasCode(rows[0], code) then [rows[0]] else []) + ByCode(rows[1..], code)
  }

  /** The four-way income and age mask. */
  function ByRanges(rows: seq<Loan>, sel: Selection): seq<Loan> {
    if rows == [] then []
    else (if InRanges(sel, rows[0]) then [rows[0]] else []) + ByRanges(rows[1..], sel)
  }

  /** The reference: the rows that satisfy the whole conjunction, in order. */
  function Selected(rows: seq<Loan>, sel: Selection): seq<Loan> {
    if rows == [] then []
    else (if Matches(sel, rows[0]) then [rows[0]] else []) + Selected(rows[1..], sel)
  }

  /** `sub` is `s` with some rows left out and the rest in their order. */
  ghost predicate IsSubsequence(sub: seq<Loan>, s: seq<Loan>)
    decreases |s|
  {
    if sub == [] then true
    else if s == [] then false
    else (sub[0] == s[0] && IsSubsequence(sub[1..], s[1..])) || IsSubsequence(sub, s[1..])
  }

  // ---------------------------------------------------------------------
  // Lemmas about the reference

  lemma {:induction false} SelectedFacts(rows: seq<Loan>, sel: Selection)
    ensures forall r :: r in Selected(rows, sel) ==> Matches(sel, r)
    ensures forall r :: multiset(Selected(rows, sel))[r] ==
                        if Matches(sel, r) then multiset(rows)[r] else 0
    ensures IsSubsequence(Selected(rows, sel), rows)
    decreases |rows|
  {
    if rows != [] {
      SelectedFacts(rows[1..], sel);
      assert rows == [rows[0]] + rows[1..];
      var rest := Selected(rows[1..], sel);
      if Matches(sel, rows[0]) {
        assert Selected(rows, sel) == [rows[0]] + rest;
        assert Selected(rows, sel)[1..] == rest;
      } else {
        assert Selected(rows, sel) == rest;
        SubsequenceSkip(rest, rows);
      }
    }
  }

  lemma SubsequenceSkip(sub: seq<Loan>, s: seq<Loan>)
    requires s != [] && IsSubsequence(sub, s[1..])
    ensures IsSubsequence(sub, s)
  {
  }

  /** Rows that all match survive the filter unchanged. */
  lemma {:induction false} SelectedKeepsMatching(rows: seq<Loan>, sel: Selection)
    requires forall r :: r in rows ==> Matches(sel, r)
    ensures Selected(rows, sel) == rows
    decreases |rows|
  {
    if rows != [] {
      assert rows[0] in rows;
      assert forall r :: r in rows[1..] ==> r in rows;
      SelectedKeepsMatching(rows[1..], sel);
    }
  }

  /** The outcome mask followed by the range mask computes the conjunction. */
  lemma {:induction false} RangesAfterCode(rows: seq<Loan>, sel: Selection, code: int)
    requires OutcomeCode(sel.outcome) == Some(code)
    ensures ByRanges(ByCode(rows, code), sel) == Selected(rows, sel)
    decreases |rows|
  {
    if rows != [] {
      RangesAfterCode(rows[1..], sel, code);
      var tail := ByCode(rows[1..], code);
      if HasCode(rows[0], code) {
        assert ByCode(rows, code) == [rows[0]] + tail;
        assert (ByCode(rows, code))[1..] == tail;
      } else {
        assert ByCode(rows, code) == tail;
      }
    }
  }

  /** The range mask followed by the outcome mask computes it too. */
  lemma {:induction false} CodeAfterRanges(rows: seq<Loan>, sel: Selection, code: int)
    requires OutcomeCode(sel.outcome) == Some(code)
    ensures ByCode(ByRanges(rows, sel), code) == Selected(rows, sel)
    decreases |rows|
  {
    if rows != [] {
      CodeAfterRanges(rows[1..], sel, code);
      var tail := ByRanges(rows[1..], sel);
      if InRanges(sel, rows[0]) {
        assert ByRanges(rows, sel) == [rows[0]] + tail;
        assert (ByRanges(rows, sel))[1..] == tail;
      } else {
        assert ByRanges(rows, sel) == tail;
      }
    }
  }

  /** With "Todos" the range mask alone computes the conjunction. */
  lemma {:induction false} RangesAlone(rows: seq<Loan>, sel: Selection)
    requires sel.outcome == Todos
    ensures ByRanges(rows, sel) == Selected(rows, sel)
    decreases |rows|
  {
    if rows != [] {
      RangesAlone(rows[1..], sel);
    }
  }

  // ---------------------------------------------------------------------
  // The filter block

  /** `filtered_df`: the outcome mask, skipped for "Todos", then the range
      mask, both on a copy. It keeps exactly the rows that satisfy the
      selection, each as often as the input holds it, in input order. */
  function ApplyFilters(rows: seq<Loan>, sel: Selection): (r: seq<Loan>)
    ensures r == Selected(rows, sel)
    ensures forall x :: x in r ==> Matches(sel, x)
    ensures forall x :: multiset(r)[x] == if Matches(sel, x) then multiset(rows)[x] else 0
    ensures IsSubsequence(r, rows)
  {
    var afterOutcome :=
      match OutcomeCode(sel.outcome)
      case None => rows
      case Some(code) => ByCode(rows, code);
    SelectedFacts(rows, sel);
    match OutcomeCode(sel.outcome)
    case None => RangesAlone(rows, sel); ByRanges(afterOutcome, sel)
    case Some(code) => RangesAfterCode(rows, sel, code); ByRanges(afterOutcome, sel)
  }

  /** Filtering the filtered table again with the same choices changes nothing. */
  lemma FilterIdempotent(rows: seq<Loan>, sel: Selection)
    ensures ApplyFilters(ApplyFilters(rows, sel), sel) == ApplyFilters(rows, sel)
  {
    SelectedKeepsMatching(ApplyFilters(rows, sel), sel);
  }

  /** Applying the outcome mask before or after the range mask keeps the same rows. */
  lemma FilterOrderIrrelevant(rows: seq<Loan>, sel: Selection, code: int)
    requires OutcomeCode(sel.outcome) == Some(code)
    ensures ByRanges(ByCode(rows, code), sel) == ByCode(ByRanges(rows, sel), code)
  {
    RangesAfterCode(rows, sel, code);
    CodeAfterRanges(rows, sel, code);
  }

  /** With "Todos" and ranges that every row meets, the filter returns the
      table as it was, row for row. */
  lemma WidestSelectionKeepsAll(rows: seq<Loan>, sel: Selection)
    requires sel.outcome == Todos
    requires forall r :: r in rows ==> InRanges(sel, r)
    ensures ApplyFilters(rows, sel) == rows
  {
    SelectedKeepsMatching(rows, sel);
  }
}
