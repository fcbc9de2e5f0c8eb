/**
 * Scoring of predicted blocked-day labels against the reference labels
 * (check_blocking_accuracy). The pandas columns become sequences; the
 * 'matching' column is a sequence of booleans and a column sum is a fold.
 */
module Accuracy {

  /** True positives and positives; the ratio between them is not modelled. */
  datatype Score = Score(truePositives: int, positives: int)

  /** The sum of a boolean column: how many entries are true. */
  function CountTrue(b: seq<bool>): (r: nat)
    ensures r <= |b|
  {
    if |b| == 0 then 0 else CountTrue(b[..|b| - 1]) + (if b[|b| - 1] then 1 else 0)
  }

  /** The sum of an integer column. */
  function Sum(s: seq<int>): int
  {
    if |s| == 0 then 0 else Sum(s[..|s| - 1]) + s[|s| - 1]
  }

  /** The 'matching' column: the actual label equals the predicted one and is 1. */
  function Matching(pred: seq<int>, actual: seq<int>): (m: seq<bool>)
    requires |pred| == |actual|
    ensures |m| == |pred|
    ensures forall k :: 0 <= k < |m| ==> (m[k] <==> pred[k] == 1 && actual[k] == 1)
  {
    seq(|pred|, k requires 0 <= k < |pred| => actual[k] == pred[k] && actual[k] == 1)
  }

  /** The indices at which both the prediction and the reference say "blocked". */
  ghost function BothBlocked(pred: seq<int>, actual: seq<int>): set<int>
    requires |pred| == |actual|
  {
    set k | 0 <= k < |pred| && pred[k] == 1 && actual[k] == 1
  }

  /** The indices at which the reference says "blocked". */
  ghost function Blocked(actual: seq<int>): set<int>
  {
    set k | 0 <= k < |actual| && actual[k] == 1
  }

  /** A label sequence that only holds 0 and 1. */
  predicate IsBinary(s: seq<int>)
  {
    forall k :: 0 <= k < |s| ==> s[k] == 0 || s[k] == 1
  }

  /**
   * check_blocking_accuracy without its final division: the number of days
   * predicted blocked that are blocked in the reference, and the sum of the
   * reference labels.
   */
  function CheckBlockingAccuracy(pred: seq<int>, actual: seq<int>): (r: Score)
    requires |pred| == |actual|
    ensures r.truePositives == |BothBlocked(pred, actual)|
    ensures 0 <= r.truePositives <= |pred|
  {
    MatchingCountsBothBlocked(pred, actual);
    Score(CountTrue(Matching(pred, actual)), Sum(actual))
  }

  lemma {:induction false} MatchingPrefix(pred: seq<int>, actual: seq<int>, n: nat)
    requires |pred| == |actual| && n <= |pred|
    ensures Matching(pred, actual)[..n] == Matching(pred[..n], actual[..n])
  {
  }

  /** Counting the 'matching' column is counting the indices where both labels are 1. */
  lemma {:induction false} MatchingCountsBothBlocked(pred: seq<int>, actual: seq<int>)
    requires |pred| == |actual|
    ensures CountTrue(Matching(pred, actual)) == |BothBlocked(pred, actual)|
  {
    var m := Matching(pred, actual);
    if |pred| > 0 {
      var n := |pred| - 1;
      MatchingPrefix(pred, actual, n);
      MatchingCountsBothBlocked(pred[..n], actual[..n]);
      var before := BothBlocked(pred[..n], actual[..n]);
      assert n !in before;
      if m[n] {
        assert BothBlocked(pred, actual) == before + {n};
      } else {
        assert BothBlocked(pred, actual) == before;
      }
    }
  }

  /** For 0/1 reference labels, the positives are the number of blocked days. */
  lemma {:induction false} PositivesCountBlocked(actual: seq<int>)
    requires IsBinary(actual)
    ensures Sum(actual) == |Blocked(actual)|
  {
    if |actual| > 0 {
      var n := |actual| - 1;
      var front := actual[..n];
      assert IsBinary(front) by {
        forall k | 0 <= k < |front| ensures front[k] == 0 || front[k] == 1 {
          assert front[k] == actual[k];
        }
      }
      PositivesCountBlocked(front);
      assert n !in Blocked(front);
      if actual[n] == 1 {
        assert Blocked(actual) == Blocked(front) + {n};
      } else {
        assert Blocked(actual) == Blocked(front);
      }
    }
  }

  /**
   * True positives never exceed positives, as long as no reference label is
   * negative (in particular for 0/1 labels).
   */
  lemma {:induction false} TruePositivesAtMostPositives(pred: seq<int>, actual: seq<int>)
    requires |pred| == |actual|
    requires forall k :: 0 <= k < |actual| ==> actual[k] >= 0
    ensures CheckBlockingAccuracy(pred, actual).truePositives <= CheckBlockingAccuracy(pred, actual).positives
  {
    if |pred| > 0 {
      var n := |pred| - 1;
      MatchingPrefix(pred, actual, n);
      TruePositivesAtMostPositives(pred[..n], actual[..n]);
      assert actual[..n] == actual[..|actual| - 1];
    }
  }

  /**
   * With 0/1 reference labels the score is a pair of counts: days blocked in
   * both sequences, and days blocked in the reference.
   */
  lemma ScoreOfBinaryLabels(pred: seq<int>, actual: seq<int>)
    requires |pred| == |actual| && IsBinary(actual)
    ensures CheckBlockingAccuracy(pred, actual) == Score(|BothBlocked(pred, actual)|, |Blocked(actual)|)
    ensures BothBlocked(pred, actual) <= Blocked(actual)
  {
    PositivesCountBlocked(actual);
  }

  /** The worked example: two of the three blocked days are predicted. */
  lemma WorkedExample()
    ensures CheckBlockingAccuracy([1, 0, 1, 1, 0], [1, 0, 0, 1, 1]) == Score(2, 3)
  {
    var pred, actual := [1, 0, 1, 1, 0], [1, 0, 0, 1, 1];
    var m := Matching(pred, actual);
    assert m == [true, false, false, true, false];
    assert CountTrue(m[..1]) == 1 by { assert m[..1][..0] == []; }
    assert CountTrue(m[..2]) == 1 by { assert m[..2][..1] == m[..1]; }
    assert CountTrue(m[..3]) == 1 by { assert m[..3][..2] == m[..2]; }
    assert CountTrue(m[..4]) == 2 by { assert m[..4][..3] == m[..3]; }
    assert CountTrue(m) == 2 by { assert m[..4] == m[..|m| - 1]; }
    assert Sum(actual[..1]) == 1 by { assert actual[..1][..0] == []; }
    assert Sum(actual[..2]) == 1 by { assert actual[..2][..1] == actual[..1]; }
    assert Sum(actual[..3]) == 1 by { assert actual[..3][..2] == actual[..2]; }
    assert Sum(actual[..4]) == 2 by { assert actual[..4][..3] == actual[..3]; }
    assert Sum(actual) == 3 by { assert actual[..4] == actual[..|actual| - 1]; }
  }
}
