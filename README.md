# Proportional splitting and target isolation (prep.py)

This project models in Dafny the two functions of the real-estate
data-preparation toolkit that carry their own logic instead of delegating it
to pandas or scikit-learn:

- `get_proportional_splits` cuts a table into train, validate and test
  partitions by position, with no shuffling. The train partition has
  `round(0.5·n)` rows and the validate partition has `round(0.3·n)` rows,
  using Python's round-half-to-even. The test partition takes the rest. The
  function then asserts that the three sizes add up to `df.size`.
- `isolate_lm_target` splits each of the three partitions into a feature
  frame X (every column except the target) and a target frame y (the target
  column only). Both frames keep every row.

A table (`Frame.Table`) is an ordered list of column names plus an ordered
list of rows. Each row keeps its pandas index label and holds one cell per
column, matched to the columns by position. Cell values have a generic type
`V`. Column names may repeat, as they can in pandas: `drop(columns=[t])`
removes every column named `t`, and `[[t]]` keeps all of them. Both are
modelled by the one positional filter `Frame.Pick`. `Frame.Merge` is its
inverse: it interleaves the two halves back together.

Python's `round` on the rational `num/den` is `Rounding.RoundHalfEven`. It is
specified by `Rounding.IsRoundHalfEven`: a nearest integer, and the even one
on an exact tie. `n * .5` is exact in floating point. `n * .3` is not, so the
size lemmas are proved for ANY rounding that lands within one half of the
exact value (`Prep.AnyNearestRoundingFits`). `Prep.FloatRoundingFits` carries
this over to a float product that is off the exact 3n/10 by less than 1/20.

Failures are values: `Frame.Result` is either `Ok` or `Err`. `Err` holds
`MissingColumn(name)` for pandas' KeyError or `AssertionFailed` for Python's
AssertionError.

The final check of `get_proportional_splits` (prep.py:112) compares the size
sum with `df.size`, which is rows × columns. `test_size` is defined at
prep.py:104 as `len(df) - train_size - validate_size`, so the three sizes
always sum to `len(df)`: the check can only be meant as a row-count guard.
The model follows the code as written (`Prep.GetProportionalSplitsAsWritten`),
reports the difference under Findings, and also models the row-count check
(`Prep.GetProportionalSplits`).

## Model

| member | source | states |
|---|---|---|
| `Rounding.RoundHalfEven` | prep.py:102-103 | the result is an integer within one half of num/den, and an even one when it is exactly one half away (Python 3 `round`) |
| `Rounding.RoundHalfEvenUnique` | prep.py:102-103 | any integer meeting the round-half-to-even specification is the one `RoundHalfEven` returns, so the rounding is fully determined |
| `Rounding.NearestDespiteError` | prep.py:103 | if a float argument x is within 1/(2·den) of num/den, any integer within one half of x is a nearest integer of num/den |
| `Prep.TrainSize` | prep.py:102 | `train_size` is round-half-to-even of n/2, and lies between 0 and n |
| `Prep.ValidateSize` | prep.py:103 | `validate_size` is round-half-to-even of 3n/10, and lies between 0 and n |
| `Prep.TestSize` | prep.py:104 | `test_size` is between 0 and n, and with the other two sizes sums to n |
| `Prep.AnyNearestRoundingFits` | prep.py:102-104 | for any nearest-integer roundings t of n/2 and v of 3n/10: t ≥ 0, v ≥ 0 and t + v ≤ n, so `test_size` is never negative |
| `Prep.FloatRoundingFits` | prep.py:102-104 | the same bounds hold when `n * .3` is computed with an error below 1/20 |
| `Prep.SplitSizes` | prep.py:102-105 | 0 ≤ train_size ≤ val_end_idx ≤ n, test_size ≥ 0, and the three sizes sum to n for every n |
| `Prep.ProportionalSplits` | prep.py:105-110 | every slice bound is in range; each partition keeps all columns; partition lengths equal train_size, validate_size and test_size; concatenated in order the partitions are exactly the input rows; well-formedness is kept |
| `Prep.CellCount` | prep.py:112 | `df.size` (rows × columns) equals the row count exactly when the table has no rows or exactly one column |
| `Prep.CellCountIsRowCount` | prep.py:112 | rows × columns equals the row count exactly when there are no rows or exactly one column |
| `Prep.GetProportionalSplitsAsWritten` | prep.py:100-113 | the assertion against `df.size` passes exactly when the table has no rows or exactly one column; when it passes the result is the three slices, otherwise an AssertionError |
| `Prep.AsWrittenRejectsTwoColumns` | prep.py:112 | a one-row table with two columns makes the function as written raise |
| `Prep.GetProportionalSplits` | prep.py:100-113 | with the check against the row count, the function always succeeds and returns exactly the proportional slices of `Prep.ProportionalSplits` (sizes round(n/2), round(3n/10) and the rest), which put back together give the input |
| `Prep.Project` | prep.py:22-23 | the positional projection behind `drop` and `[[ ]]`; its ensures only describe its construction, and its meaning (complementary columns, every cell and label kept, merge back to the input) is proved by `Prep.ProjectRecombines` |
| `Prep.DropColumn` | prep.py:22 | `drop(columns=[target])` fails with a missing-column error exactly when target is absent; otherwise it is the non-target projection: every row kept with its index label, its columns exactly the input's other columns, one per non-target column, in order |
| `Prep.SelectColumn` | prep.py:23 | `[[target]]` fails exactly when target is absent; otherwise it is the target projection: every row kept with its index label, and every column is target, one per occurrence |
| `Prep.ProjectRecombines` | prep.py:22-23 | the dropped frame and the selected frame together satisfy the X/y relation: merging them by the input's column names gives back the column list and every row |
| `Prep.Isolate` | prep.py:22-23 | one partition: fails exactly when target is absent; otherwise X and y keep every row with its label and order, X holds every non-target name, y only target, and merging row i of X with row i of y gives back row i of the partition |
| `Prep.IsolateUniqueTarget` | prep.py:22-23 | when target names exactly one column, at position pos: y's columns are [target], X's are the other columns in their original order, and each row's cells split the same way |
| `Prep.IsolateLmTarget` | prep.py:17-30 | fails with a missing-column error exactly when target is absent from some partition; otherwise each (X, y) pair stands in the X/y relation to its partition |
| `Frame.Occurrences` | prep.py:22-23 | the number of columns named target is at most the number of columns, and zero exactly when target is not a column |
| `Frame.Pick` | prep.py:22-23 | the positional column filter keeps one element per matching (or non-matching) name |
| `Frame.Merge` | prep.py:22-23 | re-interleaving kept and picked elements by name yields one element per name |
| `Frame.MergePick` | prep.py:22-23 | splitting a row or column list by target name and merging the halves gives the original back: nothing is lost, duplicated or reordered |
| `Frame.PickOthersMembers` | prep.py:22 | a name survives the drop exactly when it is a column name other than target |
| `Frame.PickTargetMembers` | prep.py:23 | every name that `[[target]]` selects is target |
| `Frame.PickUniqueTarget` | prep.py:23 | with a single target column, selecting it yields exactly [target] |
| `Frame.PickOthersAround` | prep.py:22-23 | with a single target column at pos, the drop keeps everything before and after pos in order, and the selection is the element at pos |
| `Frame.PickNoneMatch` | prep.py:22-23 | when no name is target, the filter keeps everything on the drop side and nothing on the select side |

## Left out

- `get_splits` (prep.py:10-13): the random split is done inside scikit-learn's `train_test_split`, whose shuffling and size rounding are not part of this model.
- `get_Xy_dummies` (prep.py:33-46): its behaviour is pandas' `get_dummies`, covering category order, `drop_first` and dtype selection, and none of that is in this model.
- `minmax_scale_data` (prep.py:48-69): floating-point scaling done by scikit-learn's `MinMaxScaler`.
- `rfe`, `select_kbest` and `pipe_fitter` (prep.py:72-98): model fitting, F-test scoring and float predictions all happen inside scikit-learn.
- wrangle.py: database and CSV input/output, plus renaming, imputation and casting glue tied to an external schema. None of it is modelled.
- Prep.ValidateSize: takes the product `n * .3` as the exact 3n/10. Python computes it in floating point. Tables whose row count pushes the float error to 1/20 or more are not covered, and `Prep.FloatRoundingFits` states the bound.
- Column labels are strings. pandas accepts any hashable label, such as integers; no proved property depends on the label type.
- Cell values are a generic type: dtypes, missing values and pandas' dtype coercion on slicing are not modelled.
- Index labels are carried along unchanged. Label-based lookups and non-unique index semantics are not modelled. Integer slices of a frame are taken by position, as pandas does for `df[a:b]`.
- Python run with `-O` strips `assert` statements. The model always evaluates the check.
- The error values do not carry pandas' message text, or which partition raised first. The order of evaluation (train, then validate, then test) does not change the error value.
- Tables are immutable values, so the fact that the input partitions are not modified holds by construction and needs no stated property.

## Findings

| source | as written | input that shows it | evidently intended | confidence | as-written member | corrected member |
|---|---|---|---|---|---|---|
| prep.py:112 | `assert(train_size + validate_size + test_size == df.size)` compares the row total with rows × columns | any table with at least one row and not exactly one column, e.g. one row with columns `tax_val` and `beds`: the sum is 1, `df.size` is 2 | compare with `len(df)`, the row count, which the sizes always sum to | high, not executed | `Prep.GetProportionalSplitsAsWritten` | `Prep.GetProportionalSplits` |
