/**
 * Sliding windows over a sequence of daily grids (windowing_geopotential_new):
 * window `i` places grids `i .. i+window-1` side by side, row by row.
 */
module Windowing {

  /** A 2-D field: a sequence of rows. Only its shape matters here. */
  type Grid<T> = seq<seq<T>>

  /** Every grid has at least as many rows as the first one, so every row index of the first is valid in all. */
  predicate RowsCovered<T>(data: seq<Grid<T>>)
  {
    forall k :: 0 <= k < |data| ==> |data[0]| <= |data[k]|
  }

  /** Row `j` of grids `i .. i+count-1` joined left to right, in the order the innermost loop appends them. */
  function JoinedRow<T>(data: seq<Grid<T>>, i: nat, count: nat, j: nat): seq<T>
    requires i + count <= |data|
    requires forall k :: i <= k < i + count ==> j < |data[k]|
  {
    if count == 0 then [] else JoinedRow(data, i, count - 1, j) + data[i + count - 1][j]
  }

  /** `len(range(t - (window - 1)))`: the number of window start days. */
  function NumWindows(t: int, window: int): nat
  {
    if t - (window - 1) <= 0 then 0 else t - (window - 1)
  }

  /**
   * The windows of `data`, one per start day, each with the row count of the
   * first grid. The grids are only looked at when there is a window at all.
   */
  function Windows<T>(data: seq<Grid<T>>, window: int): seq<Grid<T>>
    requires window >= 1 && (NumWindows(|data|, window) > 0 ==> RowsCovered(data))
  {
    var w := NumWindows(|data|, window);
    seq(w, i requires 0 <= i < w =>
      seq(|data[0]|, j requires 0 <= j < |data[0]| => JoinedRow(data, i, window, j)))
  }

  /**
   * windowing_geopotential_new: one window per start day (none when the
   * window is longer than the data), each with the rows of the first grid,
   * row `j` of window `i` being row `j` of the grids it covers, joined in order.
   */
  method WindowingGeopotential<T>(data: seq<Grid<T>>, window: int) returns (r: seq<Grid<T>>)
    requires window >= 1 && (NumWindows(|data|, window) > 0 ==> RowsCovered(data))
    ensures r == Windows(data, window)
    ensures |r| == NumWindows(|data|, window)
    ensures window > |data| ==> r == []
    ensures forall i :: 0 <= i < |r| ==> |r[i]| == |data[0]|
    ensures forall i, j :: 0 <= i < |r| && 0 <= j < |r[i]| ==> r[i][j] == JoinedRow(data, i, window, j)
  {
    r := [];
    var i := 0;
    while i < |data| - (window - 1)
      invariant 0 <= i <= NumWindows(|data|, window)
      invariant r == Windows(data, window)[..i]
    {
      var rows: Grid<T> := [];
      for j := 0 to |data[0]|
        invariant rows == Windows(data, window)[i][..j]
      {
        var top: Grid<T> := [];
        var addedDays: seq<T> := [];
        for m := 0 to window
          invariant addedDays == JoinedRow(data, i, m, j)
        {
          addedDays := addedDays + data[i + m][j];
        }
        top := top + [addedDays];
        rows := rows + top;
      }
      ghost var ws := Windows(data, window);
      assert rows == ws[i] by { assert ws[i][..|data[0]|] == ws[i]; }
      assert ws[..i + 1] == ws[..i] + [ws[i]];
      r := r + [rows];
      i := i + 1;
    }
  }

  /** If row `j` has length `len` in every grid covered, the joined row is `count * len` long. */
  lemma {:induction false} JoinedRowLength<T>(data: seq<Grid<T>>, i: nat, count: nat, j: nat, len: nat)
    requires i + count <= |data|
    requires forall k :: i <= k < i + count ==> j < |data[k]| && |data[k][j]| == len
    ensures |JoinedRow(data, i, count, j)| == count * len
  {
    if count > 0 {
      JoinedRowLength(data, i, count - 1, j, len);
    }
  }

  /** Entry `c` of the `m`-th piece of a joined row is entry `c` of row `j` of grid `i + m`. */
  lemma {:induction false} JoinedRowAt<T>(data: seq<Grid<T>>, i: nat, count: nat, j: nat, len: nat, m: nat, c: nat)
    requires i + count <= |data|
    requires forall k :: i <= k < i + count ==> j < |data[k]| && |data[k][j]| == len
    requires m < count && c < len
    ensures m * len + c < |JoinedRow(data, i, count, j)|
    ensures JoinedRow(data, i, count, j)[m * len + c] == data[i + m][j][c]
  {
    JoinedRowLength(data, i, count - 1, j, len);
    JoinedRowLength(data, i, count, j, len);
    if m < count - 1 {
      JoinedRowAt(data, i, count - 1, j, len, m, c);
    } else {
      assert m * len == (count - 1) * len;
    }
  }

  /** Every grid has `rows` rows and every row has `len` entries. */
  predicate Uniform<T>(data: seq<Grid<T>>, rows: nat, len: nat)
  {
    forall k :: 0 <= k < |data| ==> |data[k]| == rows && forall j :: 0 <= j < rows ==> |data[k][j]| == len
  }

  /**
   * For grids of one shape, row `j` of window `i` is `window * len` long and
   * its `m`-th block of `len` entries is row `j` of grid `i + m`.
   */
  lemma WindowsEntry<T>(data: seq<Grid<T>>, window: int, rows: nat, len: nat, i: nat, j: nat, m: nat, c: nat)
    requires window >= 1 && |data| > 0 && Uniform(data, rows, len)
    requires i < NumWindows(|data|, window) && j < rows && m < window && c < len
    ensures |Windows(data, window)[i][j]| == window * len
    ensures Windows(data, window)[i][j][m * len + c] == data[i + m][j][c]
  {
    JoinedRowLength(data, i, window, j, len);
    JoinedRowAt(data, i, window, j, len, m, c);
  }

  /** A one-day window changes nothing: the windows are the grids themselves. */
  lemma WindowOfOneIsIdentity<T>(data: seq<Grid<T>>)
    requires forall k :: 0 <= k < |data| ==> |data[k]| == |data[0]|
    ensures Windows(data, 1) == data
  {
    forall i | 0 <= i < |data|
      ensures Windows(data, 1)[i] == data[i]
    {
      forall j | 0 <= j < |data[0]|
        ensures Windows(data, 1)[i][j] == data[i][j]
      {
        assert JoinedRow(data, i, 0, j) == [];
      }
    }
  }
}
