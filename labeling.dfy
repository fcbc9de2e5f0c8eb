/**
 * Alignment of the label sequence with windowed data (format_labeling): the
 * labels are cut into one chunk per year, `margin = window - dayOfLabel`
 * labels are dropped from both ends of every chunk, and the rest is joined
 * back together in year order.
 */
module Labeling {
  import Windowing

  /**
   * `labels.reshape(years, n)`: `years` rows of `n` labels each, so that
   * joining the rows back up gives `labels` (FlattenSplit).
   */
  function Split<T>(labels: seq<T>, years: nat, n: nat): (rows: seq<seq<T>>)
    requires |labels| == years * n
    ensures |rows| == years
    ensures forall y :: 0 <= y < years ==> |rows[y]| == n
    decreases years
  {
    if years == 0 then [] else Split(labels[..|labels| - n], years - 1, n) + [labels[|labels| - n..]]
  }

  /** Row-major flattening of a list of rows, as `reshape` to one dimension does. */
  function Flatten<T>(rows: seq<seq<T>>): seq<T>
  {
    if |rows| == 0 then [] else Flatten(rows[..|rows| - 1]) + rows[|rows| - 1]
  }

  /** The labels dropped from each end of every year. */
  function Margin(window: int, dayOfLabel: int): int
  {
    window - dayOfLabel
  }

  /** The labels kept of every year. */
  function KeptPerYear(window: int, dayOfLabel: int, n: nat): int
  {
    n - 2 * Margin(window, dayOfLabel)
  }

  /** Flattening the rows of a reshape gives the labels back. */
  lemma {:induction false} FlattenSplit<T>(labels: seq<T>, years: nat, n: nat)
    requires |labels| == years * n
    ensures Flatten(Split(labels, years, n)) == labels
  {
    if years > 0 {
      var rows := Split(labels, years, n);
      var front := labels[..|labels| - n];
      FlattenSplit(front, years - 1, n);
      assert rows[..years - 1] == Split(front, years - 1, n);
      assert labels == front + labels[|labels| - n..];
    }
  }

  /** Reshaping a flattened list of rows of `w` entries back into rows gives the rows. */
  lemma {:induction false} SplitFlatten<T>(rows: seq<seq<T>>, w: nat)
    requires forall y :: 0 <= y < |rows| ==> |rows[y]| == w
    ensures |Flatten(rows)| == |rows| * w
    ensures Split(Flatten(rows), |rows|, w) == rows
  {
    if |rows| > 0 {
      var front := rows[..|rows| - 1];
      SplitFlatten(front, w);
      var flat := Flatten(rows);
      assert flat[..|flat| - w] == Flatten(front);
      assert flat[|flat| - w..] == rows[|rows| - 1];
      assert rows == front + [rows[|rows| - 1]];
    }
  }

  /** Taking one row of `b` off `a` rows leaves `a - 1` rows. */
  lemma MulPred(a: nat, b: nat)
    requires a >= 1
    ensures (a - 1) * b == a * b - b
  {
  }

  /** Entry `k` of row `y` of a reshape is entry `y * n + k` of the flat labels. */
  lemma {:induction false} SplitAt<T>(labels: seq<T>, years: nat, n: nat, y: nat, k: nat)
    requires |labels| == years * n
    requires y < years && k < n
    ensures y * n + k < |labels|
    ensures Split(labels, years, n)[y][k] == labels[y * n + k]
  {
    MulPred(years, n);
    var front := labels[..|labels| - n];
    if y < years - 1 {
      SplitAt(front, years - 1, n, y, k);
    }
  }

  /** Joining the trimmed years up and reshaping the result gives the trimmed years back. */
  lemma TrimmedYears<T>(labels: seq<T>, years: nat, n: nat, margin: nat, kept: nat, trimmed: seq<seq<T>>)
    requires |labels| == years * n && kept == n - 2 * margin
    requires |trimmed| == years
    requires forall y :: 0 <= y < years ==> trimmed[y] == Split(labels, years, n)[y][margin .. n - margin]
    ensures |Flatten(trimmed)| == years * kept
    ensures Split(Flatten(trimmed), years, kept) == trimmed
  {
    SplitFlatten(trimmed, kept);
  }

  /**
   * format_labeling: the result holds `n - 2 * margin` labels per year; year
   * `y`'s part of it is year `y`'s chunk of the input without its first and
   * its last `margin` labels (FormattedEntry gives the same per entry).
   */
  method FormatLabeling<T>(labels: seq<T>, window: int, dayOfLabel: int, years: nat, n: nat) returns (r: seq<T>)
    requires |labels| == years * n
    requires 0 <= Margin(window, dayOfLabel) && 2 * Margin(window, dayOfLabel) <= n
    ensures |r| == years * KeptPerYear(window, dayOfLabel, n)
    ensures forall y :: 0 <= y < years ==>
      Split(r, years, KeptPerYear(window, dayOfLabel, n))[y]
        == Split(labels, years, n)[y][Margin(window, dayOfLabel) .. n - Margin(window, dayOfLabel)]
  {
    var margin := Margin(window, dayOfLabel);
    var split := Split(labels, years, n);
    var formatted: seq<seq<T>> := [];
    for y := 0 to |split|
      invariant |formatted| == y
      invariant forall y' :: 0 <= y' < y ==> formatted[y'] == split[y'][margin .. n - margin]
    {
      var h := split[y];
      formatted := formatted + [h[margin .. n - margin]];
    }
    var kept := KeptPerYear(window, dayOfLabel, n);
    r := Flatten(formatted);
    TrimmedYears(labels, years, n, margin, kept, formatted);
  }

  /**
   * In a result of format_labeling, the `k`-th label kept of year `y` sits at
   * `y * kept + k` and is input label `y * n + margin + k`: years stay in
   * order, and so do the days within a year.
   */
  lemma FormattedEntry<T>(labels: seq<T>, years: nat, n: nat, margin: nat, kept: nat, r: seq<T>, y: nat, k: nat)
    requires |labels| == years * n && kept == n - 2 * margin
    requires |r| == years * kept
    requires forall y' :: 0 <= y' < years ==> Split(r, years, kept)[y'] == Split(labels, years, n)[y'][margin .. n - margin]
    requires y < years && k < kept
    ensures y * kept + k < |r| && y * n + margin + k < |labels|
    ensures r[y * kept + k] == labels[y * n + margin + k]
  {
    var rowR, rowL := Split(r, years, kept)[y], Split(labels, years, n)[y];
    assert rowR[k] == rowL[margin + k];
    SplitAt(r, years, kept, y, k);
    SplitAt(labels, years, n, y, margin + k);
  }

  /**
   * Labelling every window on its middle day (`window == 2 * dayOfLabel - 1`):
   * in a result of format_labeling, every year keeps as many labels as a year
   * of grids has windows, and the `k`-th label kept of year `y` is the label
   * of day `k + dayOfLabel - 1` of that year, the labelled day of the window
   * that starts on day `k`. (For such windows the margin is `dayOfLabel - 1`.)
   */
  lemma CenteredLabelsMatchWindows<T>(labels: seq<T>, window: int, dayOfLabel: int, years: nat, n: nat, kept: nat, r: seq<T>, y: nat, k: nat)
    requires dayOfLabel >= 1 && window == 2 * dayOfLabel - 1 && window <= n
    requires |labels| == years * n && kept == KeptPerYear(window, dayOfLabel, n)
    requires |r| == years * kept
    requires forall y' :: 0 <= y' < years ==>
      Split(r, years, kept)[y'] == Split(labels, years, n)[y'][dayOfLabel - 1 .. n - (dayOfLabel - 1)]
    requires y < years && k < Windowing.NumWindows(n, window)
    ensures kept == Windowing.NumWindows(n, window)
    ensures y * kept + k < |r| && y * n + k + dayOfLabel - 1 < |labels|
    ensures r[y * kept + k] == labels[y * n + k + dayOfLabel - 1]
  {
    FormattedEntry(labels, years, n, dayOfLabel - 1, kept, r, y, k);
  }
}
