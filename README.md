# Financial fraud detection dashboard — upload handler model

The dashboard reads an uploaded CSV of transactions into a table. It then
reconciles the table's columns with what the trained classifier expects. It
runs the classifier on the table, appends a `Fraud Prediction` and a
`Fraud Probability` column, and shows how many rows were predicted fraudulent,
how many safe, and how many there were in all.

This project models that upload handler in Dafny:

- `Columns` (`columns.dfy`): headers as sequences of column names; `Without`
  drops a set of names and keeps the order of the rest.
- `Frames` (`frames.dfy`): the mutable table (`DataFrame`). It has a header,
  one column of opaque cells per name and a row count. It supports the two
  table operations the handler uses: dropping a column and assigning a whole
  column by name.
- `Reconciliation` (`reconciliation.dfy`): the four column rules.
  - Synthesise `scaled_amount` from `Amount`, or fail with `MissingAmountColumn`.
  - Drop the label columns `Class`, `Target`, `Fraud`, `label`.
  - Drop `Amount` when `scaled_amount` is present.
  - Fail with `FeatureCountMismatch(expected, actual)` when the width is wrong.

  `ReconcileHeader` specifies the rules on the header. `Reconcile` runs them
  step by step on a `DataFrame`. The label drops run in a loop, as in the
  handler. Lemmas show what the rules amount to. They keep everything but
  `Amount` and the label names, in order, and add `scaled_amount` last. They
  are idempotent. They fail only in the documented cases.
- `Summaries` (`summaries.dfy`): the fraud / safe / total counts.
- `Detection` (`detection.dfy`): the classifier as an opaque value, the
  attachment of the two result columns, and the whole pipeline `DetectFraud`.

The classifier, the amount scaler and CSV parsing are not visible to the
handler. The classifier is a `Model` value holding its feature count and two
functions of one feature row: its label and its fraud probability. The scaler
is a function parameter `standardize` that returns one cell per row. A
`DataFrame` built by its constructor stands for the parsed table.

## Model

| member | source | states |
|---|---|---|
| Columns.Without | app.py:108-115 | dropping columns by name keeps exactly the columns whose name is not dropped, never adds one, and never makes the header longer |
| Columns.WithoutWithout | app.py:108-115 | dropping one set of names and then another is the same as dropping their union at once |
| Columns.WithoutDistinct | app.py:108-115 | dropping columns never creates a repeated column name |
| Frames.AssignedHeader | app.py:101 | assigning a column by name leaves every existing column in its place; a new name goes last, an existing one is overwritten where it stands |
| Frames.RowMajor | app.py:127 | the array handed to the classifier has one row per table row and one entry per column |
| Frames.DataFrame.Matrix | app.py:127 | the table's array view has one row per table row |
| Frames.DataFrame.constructor | app.py:95 | a table read from a CSV has distinct column names, and every column has one cell per row |
| Frames.DataFrame.Drop | app.py:108-115 | dropping a present column removes that name from the header and its cells from the table; other columns and the row count are unchanged |
| Frames.DataFrame.Assign | app.py:101 | assigning one cell per row stores those cells under the name; the header changes as `AssignedHeader` says, and the row count is unchanged |
| Reconciliation.DropTargetsIsWithout | app.py:108-111 | dropping each present label column in turn is the same as dropping all label names at once |
| Reconciliation.ReconcileHeader | app.py:97-124 | the upload fails with `MissingAmountColumn` exactly when both `scaled_amount` and `Amount` are absent, a check made before any drop. An accepted header has exactly `expected` columns, includes `scaled_amount` and has neither `Amount` nor a label name. A `FeatureCountMismatch` carries the expected count and an actual count that differs from it |
| Reconciliation.AdjustedIsFilter | app.py:97-115 | after rules 1–3 the header is the input minus `Amount` and the label names, in the original relative order, with `scaled_amount` appended last when it was not already there |
| Reconciliation.AdjustedMembership | app.py:97-115 | a name survives rules 1–3 exactly when it was in the input or is `scaled_amount`, and is neither `Amount` nor a label name |
| Reconciliation.AdjustedDistinct | app.py:97-115 | rules 1–3 keep a header free of repeated names |
| Reconciliation.ReconciledData | app.py:97-115 | the reconciled table has exactly the adjusted columns, and each of them has one cell per row |
| Reconciliation.ScaledAmountSkipsSynthesis | app.py:98 | when `scaled_amount` is present, rule 1 leaves the header alone and never fails, even without `Amount` |
| Reconciliation.SynthesisedScaledAmountLast | app.py:99-115 | with `Amount` but no `scaled_amount`, an accepted header is the kept input columns followed by `scaled_amount`, without `Amount` |
| Reconciliation.SuccessDropsExactlyDropped | app.py:107-115 | an accepted header has `scaled_amount`, has no `Amount` and no label column, and still has every other input column; having no label column is not an error |
| Reconciliation.CountDecidesOutcome | app.py:118-124 | once an amount column exists: a wrong adjusted width fails with `FeatureCountMismatch`, which carries both the expected and the actual count; the right width is accepted with exactly that many columns |
| Reconciliation.ReconciledHeaderUnchanged | app.py:97-124 | a header that already has `scaled_amount`, no `Amount`, no label column and the expected width is accepted unchanged |
| Reconciliation.ReconcileIdempotent | app.py:97-124 | reconciling an accepted header again accepts it unchanged |
| Reconciliation.ExampleAmountReplaced | app.py:97-124 | `[Amount, f1, f2]` against 3 features becomes `[f1, f2, scaled_amount]` |
| Reconciliation.ExampleLabelDropped | app.py:97-124 | `[scaled_amount, f1, Class]` against 2 features becomes `[scaled_amount, f1]` |
| Reconciliation.ExampleNoAmount | app.py:97-105 | `[f1, f2]` fails with `MissingAmountColumn` |
| Reconciliation.ExampleWidthMismatch | app.py:97-124 | `[Amount, scaled_amount, f1]` against 1 feature fails with `FeatureCountMismatch(1, 2)` |
| Reconciliation.DropTargetColumns | app.py:107-111 | the loop over the label names drops those present, leaves the header as `DropTargets` specifies, and leaves every remaining column's cells unchanged |
| Reconciliation.Reconcile | app.py:97-124 | the table-level rules return what `ReconcileHeader` specifies. A missing amount leaves the table untouched. Otherwise the table has the adjusted header and holds `ReconciledData`: every surviving column keeps its uploaded cells, and a synthesised `scaled_amount` holds the standardised `Amount` cells |
| Summaries.Summarize | app.py:155-158 | the total is the row count and fraud + safe = total; for 0/1 predictions, 0 ≤ fraud ≤ total and 0 ≤ safe ≤ total |
| Summaries.Sum | app.py:155 | the sum of a 0/1 prediction column lies between 0 and the row count |
| Summaries.BinarySumCountsOnes | app.py:155 | the sum of a 0/1 prediction column is its number of ones, and its ones and zeros together make up its length |
| Summaries.SummaryCountsLabels | app.py:155-158 | for 0/1 predictions, the fraud count is the number of rows predicted 1 and the safe count the number predicted 0 |
| Detection.LabelCells | app.py:134 | the prediction column has one cell per row, and cell `i` holds prediction `i` |
| Detection.Model.Predict | app.py:130 | `predict` gives one label per array row, and label `i` is the classifier's answer for row `i` |
| Detection.Model.PredictFraudProbability | app.py:131 | column 1 of `predict_proba` gives one probability per array row, and entry `i` is the fraud probability for row `i` |
| Detection.PredictIsBinary | app.py:130 | a binary classifier's predictions for any array form a 0/1 column |
| Detection.ResultHeader | app.py:133-135 | the result header holds both result columns, starts with the reconciled header unchanged, grows by at most two, and holds no other new name |
| Detection.ResultHeaderAppendsTwo | app.py:133-135 | when neither result column is already present, the result table is the reconciled columns followed by `Fraud Prediction` and `Fraud Probability` |
| Detection.ResultHeaderOverwrites | app.py:133-135 | a result column already in the reconciled table is overwritten in place, so the table gains fewer than two columns and keeps its reconciled prefix |
| Detection.AttachPredictions | app.py:127-135 | the classifier runs once on the table's array. `Fraud Prediction` holds its label for each row, in row order. `Fraud Probability` holds its fraud probability for each row, in row order. Every other column and the row count are unchanged |
| Detection.DetectFraud | app.py:97-158 | a rejected upload reports exactly the reconciler's error. An accepted one has the expected width and the result header. Its cells are the reconciled cells plus the classifier's label and fraud probability for each reconciled row, in row order. Its summary is the summary of those labels: the total is the row count, the counts add up, and 0 ≤ fraud ≤ total |

## Left out

- Page setup, styling, titles, the sidebar uploader, banners, the expander preview of 50 rows, the download button and the summary heading (app.py:10-71, 86-87, 138-154, 162-164), and the `st.metric` display calls (app.py:157-159) whose counts `Summarize` computes. These are display calls. Each notice the handler prints for a column change is advisory output and is not modelled.
- Loading the classifier from `rf_model.pkl` and halting when it is missing (app.py:76-81). `DetectFraud` takes an already loaded `Model`.
- CSV parsing (app.py:95). A `DataFrame` built by its constructor stands for the parsed table: distinct names and equal column lengths are the parser's guarantees.
- Conversion of the table to a numeric array (app.py:127). `Matrix` is a cell-wise row-major view without any dtype conversion.
- The values of the standardised amount (app.py:100-101). `StandardScaler` works in floating point, so it is the parameter `standardize`. It is assumed to return one cell per row and never to fail. In the source it raises on a table with 0 rows or a non-numeric `Amount`, and the upload then fails through the catch-all handler. The model instead synthesises `scaled_amount` in those cases. Zero mean and unit variance are not modelled.
- The classifier's internals (app.py:130-131). `Model.classify` and `Model.fraudProbability` are opaque functions of one feature row. This matches a classifier that answers each row independently, such as the random forest the dashboard loads. `Model.Valid` states that labels are 0 or 1. Probabilities stay opaque cells.
- Serialising the result table to CSV bytes (app.py:145).
- The catch-all exception handler (app.py:161-162). Only the reconciler's typed errors are modelled. Failures raised inside the table library, the amount scaler (0 rows, non-numeric `Amount`) or the classifier (non-numeric or non-finite features) are not.
- Frames.DataFrame.Drop: the table library's `drop` returns a new table that the handler rebinds to `data`. The model updates the one table in place, which is equivalent because nothing else refers to the old table.
- Detection.AttachPredictions: it follows the code, which assigns the two result columns on the reconciled table itself rather than on a copy. An existing column with either result name is overwritten in place rather than appended (see `ResultHeaderOverwrites`).
