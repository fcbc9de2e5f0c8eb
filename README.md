# Blocking-detection data utilities, modelled in Dafny

This project models the four array transformations of
`Detective_Algorithm/Utils_for_CNN.py`, which prepare geopotential-height
(Z500) snapshots and blocked/not-blocked day labels for a CNN, and score its
predictions against a ground-truth dataset (GTD):

- `accuracy.dfy`, module `Accuracy`: `check_blocking_accuracy` as pure
  functions. Labels are `seq<int>`. The pandas `matching` column is a
  `seq<bool>`, and a column sum is a fold.
- `replicate.dfy`, module `Replicate`: `multiply_data` as a method with a
  loop that appends one row per day.
- `windowing.dfy`, module `Windowing`: `windowing_geopotential_new` as a
  method with the source's three nested loops. It is proved equal to the
  specification function `Windows`, and lemmas say what `Windows` contains.
- `labeling.dfy`, module `Labeling`: `format_labeling` as a method with the
  per-year loop. numpy `reshape` becomes `Split` (flat to rows) and `Flatten`
  (rows to flat). The two are proved inverse to each other.

Grids are `seq<seq<T>>` over a generic element type, and so are labels
wherever only their positions matter. Integers are unbounded. Every quantity
here is a length or an index, so no fixed width is involved.

Where the source's docs and its code differ, the model follows the code. The
doc comment of `format_labeling` (lines 107-110) says that 4 days are removed
from the beginning of each summer. For window 7 and labelled day 4 the code
removes `margin = 3` days from the beginning and 3 more from the end. This
explains the 3440 labels the comment quotes: 40 × (92 − 6) = 3440. The
general length is stated by `FormatLabeling`.

Preconditions stand in for the cases where the source raises an error or
leaves its domain:

- `multiply_data` reads a global `time_domain_size` that is never defined. It
  is a parameter here, and `arr.reshape(time_domain_size, 1)` requires it to
  equal `|arr|`.
- `check_blocking_accuracy` assigns a column of a different length, which
  pandas rejects. So `|pred| == |actual|` is required.
- `windowing_geopotential_new` indexes `data_arr[i+m][j]` for every row index
  `j` of the first grid. So every grid needs at least that many rows
  (`RowsCovered`). A grid with more rows is silently cut, as in the source.
  `window >= 1` is required. The row condition applies only when there is at
  least one window. With empty data or `window > T` the outer `range` is
  empty and `data_arr[0]` is never read. The result is then empty, whatever
  the grids' shapes.
- `format_labeling`: `|labels| == years * n` is the reshape's condition. It
  also requires `0 <= margin` and `2 * margin <= n`. When `2 * margin == n`,
  every year keeps no labels, just as the source does.

## Model

| member | source | states |
|---|---|---|
| Accuracy.CheckBlockingAccuracy | Detective_Algorithm/Utils_for_CNN.py:35-40 | the true-positive count is the number of indices where both the prediction and the reference are 1, and lies between 0 and the sequence length |
| Accuracy.Matching | Detective_Algorithm/Utils_for_CNN.py:37-38 | the matching column has one entry per day, true exactly when both labels are 1 |
| Accuracy.CountTrue | Detective_Algorithm/Utils_for_CNN.py:40 | the sum of a boolean column is at most its length |
| Accuracy.MatchingCountsBothBlocked | Detective_Algorithm/Utils_for_CNN.py:37-40 | summing the matching column counts the set of indices where both labels are 1 |
| Accuracy.PositivesCountBlocked | Detective_Algorithm/Utils_for_CNN.py:39 | for 0/1 reference labels, the positives (their sum) are the number of blocked days |
| Accuracy.TruePositivesAtMostPositives | Detective_Algorithm/Utils_for_CNN.py:37-40 | true positives never exceed positives when no reference label is negative |
| Accuracy.ScoreOfBinaryLabels | Detective_Algorithm/Utils_for_CNN.py:35-40 | for 0/1 reference labels the score is (days blocked in both, days blocked in the reference), and the first set is contained in the second |
| Accuracy.WorkedExample | Detective_Algorithm/Utils_for_CNN.py:35-40 | prediction [1,0,1,1,0] against reference [1,0,0,1,1] scores 2 true positives of 3 positives |
| Replicate.ListTimes | Detective_Algorithm/Utils_for_CNN.py:61 | list repetition `li * m` has max(0, m) times the length of `li` entries, and entry `k` is `li[k % len(li)]`: copies of `li`, one after another |
| Replicate.Column | Detective_Algorithm/Utils_for_CNN.py:57 | reshaping to `(n, 1)` gives rows of one entry each, and reading their first column gives the array back |
| Replicate.MultiplyData | Detective_Algorithm/Utils_for_CNN.py:42-62 | one row per day, each `multiple` long (empty if `multiple <= 0`), every entry of row `i` equal to `arr[i]`; for a positive multiple the first column gives `arr` back |
| Windowing.WindowingGeopotential | Detective_Algorithm/Utils_for_CNN.py:64-88 | the result equals `Windows`: `T - window + 1` windows (none when `window > T`), each with the first grid's row count, row `j` of window `i` being row `j` of grids `i .. i+window-1` joined in order |
| Windowing.JoinedRowLength | Detective_Algorithm/Utils_for_CNN.py:83-84 | joining rows of length `len` from `count` grids gives a row of `count * len` entries |
| Windowing.JoinedRowAt | Detective_Algorithm/Utils_for_CNN.py:83-84 | entry `m * len + c` of a joined row is entry `c` of row `j` of grid `i + m` |
| Windowing.WindowsEntry | Detective_Algorithm/Utils_for_CNN.py:78-87 | for grids of one shape, row `j` of window `i` is `window * len` long and its `m`-th block is row `j` of grid `i + m` |
| Windowing.WindowOfOneIsIdentity | Detective_Algorithm/Utils_for_CNN.py:78-87 | with a one-day window the windows are the input grids themselves |
| Labeling.Split | Detective_Algorithm/Utils_for_CNN.py:112 | reshaping a flat array of `years * n` labels gives `years` rows of `n` labels |
| Labeling.FlattenSplit | Detective_Algorithm/Utils_for_CNN.py:112 | flattening the rows of a reshape gives the labels back |
| Labeling.SplitFlatten | Detective_Algorithm/Utils_for_CNN.py:116 | flattening `len(rows)` rows of `w` entries each gives `len(rows) * w` entries, and reshaping them back gives the rows |
| Labeling.SplitAt | Detective_Algorithm/Utils_for_CNN.py:112 | entry `k` of row `y` of a reshape is flat entry `y * n + k` |
| Labeling.FormatLabeling | Detective_Algorithm/Utils_for_CNN.py:90-116 | the result holds `years * (n - 2 * margin)` labels, and year `y`'s part of it is year `y`'s chunk without its first and last `margin` labels |
| Labeling.FormattedEntry | Detective_Algorithm/Utils_for_CNN.py:112-116 | in such a result, entry `y * (n - 2 * margin) + k` is input label `y * n + margin + k`, so year order and day order are kept |
| Labeling.CenteredLabelsMatchWindows | Detective_Algorithm/Utils_for_CNN.py:107-115 | when windows are labelled on their middle day (`window == 2 * day_of_label - 1`), a result of format_labeling keeps per year as many labels as a year of grids has windows, and output entry `y * kept + k` is input label `y * n + k + day_of_label - 1`, the labelled day of the window starting on day `k` of year `y` |

## Left out

- The ratio `matching.sum() / num_blocked` (line 40) is not modelled. It is a floating-point division, and pandas gives NaN or infinity when there are no positives. `Score` carries its numerator and denominator instead.
- The pandas DataFrame construction (lines 35-38) is plain sequence counting here. A length mismatch is handled by a precondition.
- The imports of xarray, scipy, glob and matplotlib (lines 11-16) are not modelled. None of them is used by the four functions.
- numpy's conversion of nested lists with `np.array` (lines 62, 88, 116) is not modelled. Ragged rows, which numpy would turn into an object array or an error, are not told apart.
- `reshape` with a `-1` dimension, which asks numpy to infer it, is out of domain: years and days per year are `nat`.
- A negative `margin` is excluded by precondition. Python's wrap-around of negative slice bounds (line 115) is therefore not modelled.
- A window of zero or fewer days is excluded by precondition. The source would then build windows with empty rows.
