/** The loan table of the Bankloan data set: one record per row, with the
    columns the dashboard reads. */
module Loans {
  import opened Base

  /** A cell of the raw `default` column as the CSV reader types it: an
      integer, a string (when the column mixes spellings such as "'0'"), or a
      missing value. After cleaning the column holds integers only. */
  datatype Value = Int(i: int) | Text(s: string) | NaN

  /** One row. Numeric columns are `None` where the file has no value (NaN);
      `defaultLabel` is the `default_label` column, which cleaning adds. */
  datatype Loan = Loan(
    age: Option<int>,
    ed: Option<int>,
    employ: Option<int>,
    address: Option<int>,
    income: Option<real>,
    debtinc: Option<real>,
    creddebt: Option<real>,
    othdebt: Option<real>,
    default: Value,
    defaultLabel: Option<string>)

  /** The two labels of the `default_label` column. */
  const ApprovedLabel: string := "Aprobado"
  const NotApprovedLabel: string := "No Aprobado"

  /** The columns of the cleaned table, in their order in the frame. */
  datatype Column =
    | Age | Ed | Employ | Address | Income | Debtinc | Creddebt | Othdebt
    | Default | DefaultLabel

  const Columns: seq<Column> :=
    [Age, Ed, Employ, Address, Income, Debtinc, Creddebt, Othdebt, Default, DefaultLabel]

  /** `isnull()` of one cell. */
  predicate IsMissing(r: Loan, c: Column) {
    match c
    case Age => r.age.None?
    case Ed => r.ed.None?
    case Employ => r.employ.None?
    case Address => r.address.None?
    case Income => r.income.None?
    case Debtinc => r.debtinc.None?
    case Creddebt => r.creddebt.None?
    case Othdebt => r.othdebt.None?
    case Default => r.default.NaN?
    case DefaultLabel => r.defaultLabel.None?
  }

  /** Every column occurs once in `Columns`. */
  lemma ColumnsListed(c: Column)
    ensures c in Columns
    ensures forall i, j :: 0 <= i < j < |Columns| ==> Columns[i] != Columns[j]
  {
  }
}
