# Credit-risk dashboard: the record pipeline, modelled in Dafny

The dashboard loads the Bankloan table and cleans its `default` column. It
filters the rows by loan outcome, age and income. It then shows figures about
the rows that remain. This project models that pipeline and proves what each
step promises.

- `loans.dfy` (module `Loans`): a loan record and the columns of the cleaned
  table. A numeric cell is `None` where the file has no value (pandas' NaN).
  A raw `default` cell is an integer, a string or missing.
- `cleaning.dfy` (module `Cleaning`): `preprocess_data`. `PreprocessData`
  works in place on an `array<Loan>` with three whole-column assignments:
  `astype(str)`, the lookup in the four-entry table, and the label column. The
  integer conversion in between raises on the first value that did not map.
  `Clean` is the same computation as a function. `Decode` is an independent
  statement of the accepted spellings: `"0"`, `"'0'"` and `":0"` (and the
  integer 0) mean 0, and `"1"` (and the integer 1) means 1. Any other value
  makes cleaning fail, including `"'1'"`, `":1"` and a missing value.
- `filtering.dfy` (module `Filtering`): the filter block of `main`. It has the
  outcome mask (skipped for "Todos") and then the inclusive income and age
  mask. `Selected` is the reference: the plain conjunction of the three
  conditions. A missing age or income fails every comparison, as NaN does, so
  such a row is never kept.
- `counting.dfy` (module `Counting`): `value_counts` is modelled as a tally in
  order of first appearance, then an insertion sort by descending count.
  `sort_index` is an insertion sort by key.
- `aggregates.dfy` (module `Aggregates`): the loan count, the label
  distribution, the counts per education level and the missing-value report.
  The report's percentage is a count over the shared row count.
- `dashboard.dfy` (module `Dashboard`): one run of `main`. The file may be
  absent (no data). Cleaning may raise (the page stops). Setting up the age or
  income slider raises when that column has no value at all. Otherwise the
  filters run on a copy of the cleaned table and the page's figures are
  computed.

The labels are the strings the code uses, "Aprobado" and "No Aprobado". The
sidebar's options are "Todos", "Aprobado" and "No Aprobado".

## Model

| member | source | states |
|---|---|---|
| `Cleaning.IntSpelling` | reporte_streamlit.py:31-32 | The printed form of an integer is a key of the lookup table exactly when the integer is 0 or 1, and it then maps to that integer. |
| `Cleaning.NormaliseIsDecode` | reporte_streamlit.py:31-33 | Printing a cell and looking it up gives the code `Decode` assigns. `"0"`, `"'0'"`, `":0"` and 0 give 0, and `"1"` and 1 give 1. Every other cell becomes missing, including `"'1'"`, `":1"` and NaN (printed as "nan"). |
| `Cleaning.FirstUncastable` | reporte_streamlit.py:34 | Gives the first row whose mapped value the integer conversion rejects. It gives none exactly when every value is an integer. |
| `Cleaning.Clean` | reporte_streamlit.py:29-39 | Cleaning succeeds exactly when every raw value has an accepted spelling. On failure it names the first row without one. On success the row count and order are kept. Each row gets its 0/1 code and the label for that code, and no other column changes. |
| `Cleaning.CleanEstablishesInvariant` | reporte_streamlit.py:34-37 | After a successful clean, every `default` is 0 or 1, labelled "Aprobado" for 0 and "No Aprobado" for 1. Every other column is as it was. |
| `Cleaning.PreprocessData` | reporte_streamlit.py:29-39 | Works in place. The frame ends as `Clean` of its old contents, and no error is returned, exactly when `Clean` succeeds. When the conversion raises, the frame keeps the mapped column and the error is `Clean`'s. |
| `Filtering.ApplyFilters` | reporte_streamlit.py:260-271 | The filtered table is `Selected`. Every kept row satisfies the outcome condition ("Todos" imposes none, "Aprobado" needs 0, "No Aprobado" needs 1) and both inclusive ranges. Every input row that satisfies them is kept, as many times as it occurs. The result is an order-preserving subsequence of the input. |
| `Filtering.FilterIdempotent` | reporte_streamlit.py:262-271 | Filtering the filtered table again with the same choices returns it unchanged. |
| `Filtering.FilterOrderIrrelevant` | reporte_streamlit.py:262-271 | The outcome mask applied before or after the range mask keeps the same rows in the same order. |
| `Filtering.WidestSelectionKeepsAll` | reporte_streamlit.py:260-271 | With "Todos" and ranges that every row meets, the filter returns the table row for row. |
| `Filtering.SelectedFacts` | reporte_streamlit.py:262-271 | The reference conjunction keeps only matching rows. It keeps every matching row with its multiplicity and preserves input order. |
| `Aggregates.CleanedFiltered` | reporte_streamlit.py:260-271 | Filtering a cleaned table keeps every row's 0/1 code and its label consistent. |
| `Aggregates.TotalLoansCountsMatches` | reporte_streamlit.py:280 | The loan count is the number of rows that satisfy the selection, and it never exceeds the size of the table. |
| `Counting.TallyCounts` | reporte_streamlit.py:350 | The tally under `value_counts` has one entry per value present. Each entry holds that value's number of cells, and the counts add up to the number of non-missing cells. |
| `Counting.ValueCounts` | reporte_streamlit.py:350 | `value_counts`: distinct values, each with its positive number of cells. Every present value is listed. Counts do not increase down the list, and they add up to the non-missing cells. |
| `Aggregates.LabelDistributionAddsUp` | reporte_streamlit.py:350 | On a cleaned table the label counts add up to the loan count, and only "Aprobado" and "No Aprobado" occur. |
| `Aggregates.LabelDistributionUnderOutcome` | reporte_streamlit.py:262-264 | With "Aprobado" or "No Aprobado" selected, the label distribution of the filtered rows lists only that label. |
| `Counting.SortIndex` | reporte_streamlit.py:498 | `sort_index` of a count table with distinct integer keys keeps the same entries and total, with keys strictly ascending. |
| `Aggregates.EdDistribution` | reporte_streamlit.py:498 | Education levels appear strictly ascending. Each count is positive and is that level's number of rows. Every present level is listed. The counts add up to the number of rows that have a level, which is at most the row count. |
| `Aggregates.MissingCount` | reporte_streamlit.py:569 | A column's missing count never exceeds the number of rows. |
| `Aggregates.MissingReport` | reporte_streamlit.py:569-575 | The report lists exactly the columns with at least one missing value, each once and with its missing count. Counts do not increase down the report. |
| `Aggregates.MissingPercentagesOrdered` | reporte_streamlit.py:570-575 | Every percentage in the report lies in (0, 100], and the percentages do not increase down the report. |
| `Aggregates.CleanedColumnsNeverMissing` | reporte_streamlit.py:569-575 | After cleaning, `default` and `default_label` never appear in the missing-value report. |
| `Dashboard.SliderFailure` | reporte_streamlit.py:243-255 | The age slider's `int()` of a NaN extreme fails exactly when no row has an age. Otherwise the income slider's fails exactly when no row has an income. Both sliders are set up exactly when some row has an age and some row has an income. |
| `Dashboard.CleanKeepsSliderColumns` | reporte_streamlit.py:226-255 | Cleaning leaves age and income untouched, so the sliders fail on the cleaned table exactly when they would on the raw one. |
| `Dashboard.RenderedFiguresAgree` | reporte_streamlit.py:221-280 | No data appears exactly when the file is absent. The page stops in cleaning exactly when some raw `default` has no accepted spelling. After a successful clean it stops at the age slider exactly when no row has an age, and at the income slider exactly when some row has an age but none has an income. The page is shown exactly when none of these holds, so it always has at least one row. On a shown page, the loan count is the number of cleaned rows the selection admits, which is at most the table size. The label counts add up to it and name only the two labels. The education counts add up to at most it. The missing report never lists the cleaned columns. |
| `Dashboard.RunMain` | reporte_streamlit.py:215-271 | Cleans the frame in place and computes the page `Render` describes. After a slider failure or a shown page the frame holds the cleaned table, so the filter has not modified it. When cleaning raises, the frame holds the mapped `default` column. |

## Left out

- Loading (`load_data`, `pd.read_csv`) is file I/O. The model receives the loaded table, or nothing when the file is absent. It does not model the reader's type inference: a `default` cell is an integer, a string or missing. A float cell is not represented, including the 0.0 or 1.0 an integer column holds once it has a missing cell. Such a column fails cleaning in pandas as in the model, but the model's error then names the row of the missing cell, where the float column already fails on its first row.
- Columns beyond the nine Bankloan columns and `default_label` are not modelled.
- Presentation is left out: the CSS, every `st.*` widget and layout call, and every Plotly figure. The sidebar's choices enter as a `Selection`.
- Session navigation (`st.session_state.chart_section`) is framework-owned UI state. `View` holds the figures of every section at once.
- Floating-point statistics are left out. These are the mean default rate, mean income and mean age (NaN on an empty selection), the correlation matrix and its rounding, the correlation with `default`, and `describe()`.
- The random sample of at most 500 rows for the 3D plot is not modelled, because the rows it picks are random.
- The slider bounds and defaults are computed with `int()` of the column extremes only to set up the widgets. The model keeps only the failure of that `int()` on a NaN extreme, and takes the chosen ranges as given.
- Any check Streamlit itself makes of a slider's arguments, such as a default outside the bounds, is framework behaviour and is not modelled.
- `Aggregates.MissingReport`: the code sorts by the percentage rounded to two decimals, with a sort that need not be stable. The model sorts by count, which is one of the orders the code can produce. The contract promises only that counts do not increase. The two-decimal rounding is not modelled.
- `Counting.ValueCounts`: the order of values with equal counts is not promised, because pandas does not promise it either.
- `Cleaning.Clean`: the conversion error in pandas names neither a row nor a value. The model's error records the first row whose value did not map.
- The `'ed' in filtered_df.columns` test always passes in the model, because the column always exists.
