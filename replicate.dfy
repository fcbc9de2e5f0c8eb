/**
 * Replication of one label per day into one label per snapshot of that day
 * (multiply_data). The global day count the source reads is a parameter.
 */
module Replicate {

  /** Python's list repetition `li * m`: `m` copies of `li` in a row, none when `m <= 0`. */
  function ListTimes<T>(li: seq<T>, m: int): (r: seq<T>)
    ensures |r| == (if m <= 0 then 0 else m) * |li|
    ensures forall k :: 0 <= k < |r| ==> r[k] == li[k % |li|]
  {
    if m <= 0 then [] else ListTimesStep(li, m); ListTimes(li, m - 1) + li
  }

  /** The copy appended last continues the cycle through `li` where the earlier copies stop. */
  lemma ListTimesStep<T>(li: seq<T>, m: int)
    requires m > 0
    ensures forall k :: (m - 1) * |li| <= k < m * |li| ==> k % |li| == k - (m - 1) * |li|
  {
    forall k | (m - 1) * |li| <= k < m * |li|
      ensures k % |li| == k - (m - 1) * |li|
    {
      ModOfBlock(m - 1, |li|, k - (m - 1) * |li|);
    }
  }

  /** Entry `c` of block `q` of width `w` sits at `q * w + c`, and `(q * w + c) % w == c`. */
  lemma ModOfBlock(q: nat, w: nat, c: nat)
    requires c < w
    ensures (q * w + c) % w == c
  {
    var x := q * w + c;
    var d := q - x / w;
    assert x == (x / w) * w + x % w;
    assert d * w == x % w - c;
  }

  /** `arr.reshape(n, 1)`: every element becomes a row of its own. */
  function Column<T>(arr: seq<T>): (c: seq<seq<T>>)
    ensures forall i :: 0 <= i < |c| ==> |c[i]| == 1
    ensures FirstColumn(c) == arr
  {
    seq(|arr|, i requires 0 <= i < |arr| => [arr[i]])
  }

  /** The first entry of every row that has one. */
  function FirstColumn<T>(rows: seq<seq<T>>): seq<T>
    requires forall i :: 0 <= i < |rows| ==> |rows[i]| > 0
  {
    seq(|rows|, i requires 0 <= i < |rows| => rows[i][0])
  }

  /**
   * multiply_data: row `i` of the result is `arr[i]` repeated `multiple`
   * times, and for a positive multiple the first column gives `arr` back.
   */
  method MultiplyData<T>(arr: seq<T>, multiple: int, timeDomainSize: int) returns (r: seq<seq<T>>)
    requires timeDomainSize == |arr|
    ensures |r| == |arr|
    ensures forall i :: 0 <= i < |r| ==> |r[i]| == if multiple <= 0 then 0 else multiple
    ensures forall i, j :: 0 <= i < |r| && 0 <= j < |r[i]| ==> r[i][j] == arr[i]
    ensures multiple > 0 ==> FirstColumn(r) == arr
  {
    var snaps := Column(arr);
    r := [];
    for i := 0 to |snaps|
      invariant |r| == i
      invariant forall i' :: 0 <= i' < i ==> |r[i']| == if multiple <= 0 then 0 else multiple
      invariant forall i', j :: 0 <= i' < i && 0 <= j < |r[i']| ==> r[i'][j] == arr[i']
    {
      var li := snaps[i];
      assert li == [arr[i]] by { assert FirstColumn(snaps)[i] == arr[i]; }
      r := r + [ListTimes(li, multiple)];
    }
  }
}
