/** `accuracy` in exercises/tick1.py: the share of predictions that equal
    the true label at the same position. The result is an exact rational
    number here, where the source computes a floating-point quotient. */
module Evaluation {
  import opened Results

  /** The exceptions `accuracy` can raise. */
  datatype AccuracyError =
    | DivisionByZero   // ZeroDivisionError: no predictions
    | IndexOutOfRange  // IndexError: fewer true labels than predictions

  /** The number of positions i < |pred| with pred[i] == truth[i]. */
  function Matches(pred: seq<int>, truth: seq<int>): (n: nat)
    requires |pred| <= |truth|
    ensures n <= |pred|
  {
    if pred == [] then 0
    else
      Matches(pred[..|pred| - 1], truth)
      + (if pred[|pred| - 1] == truth[|pred| - 1] then 1 else 0)
  }

  /** `accuracy(pred, true)`: the loop counts the correct predictions; with
      no prediction the final division raises, and with fewer labels than
      predictions the loop raises when it reaches the first missing label.
      Otherwise the result is the number of correct predictions over the
      number of predictions, a value between 0 and 1. */
  method Accuracy(pred: seq<int>, truth: seq<int>) returns (r: Result<real, AccuracyError>)
    ensures |pred| == 0 ==> r == Err(DivisionByZero)
    ensures 0 < |pred| && |truth| < |pred| ==> r == Err(IndexOutOfRange)
    ensures 0 < |pred| <= |truth| ==>
      r.Ok? && r.value == Share(Matches(pred, truth), |pred|) && 0.0 <= r.value <= 1.0
  {
    var correct := 0;
    var counter := 0;
    while counter < |pred|
      invariant 0 <= counter <= |pred| && counter <= |truth|
      invariant correct == Matches(pred[..counter], truth)
    {
      if counter >= |truth| {
        return Err(IndexOutOfRange);
      }
      assert pred[..counter + 1][..counter] == pred[..counter];
      if pred[counter] == truth[counter] {
        correct := correct + 1;
      }
      counter := counter + 1;
    }
    if |pred| == 0 {
      return Err(DivisionByZero);
    }
    assert pred[..counter] == pred;
    return Ok(Share(correct, |pred|));
  }

  /** `correct / total` as an exact rational: the number that, times
      `total`, gives `correct`; a share between 0 and 1 when there are no
      more correct answers than answers. */
  function Share(correct: nat, total: nat): (q: real)
    requires 0 < total
    ensures q * total as real == correct as real
    ensures correct <= total ==> 0.0 <= q <= 1.0
  {
    correct as real / total as real
  }

  /** An independent reading of `Matches`: the number of indices at which
      the prediction is right. */
  lemma {:induction false} MatchesCountsCorrectIndices(pred: seq<int>, truth: seq<int>)
    requires |pred| <= |truth|
    ensures Matches(pred, truth) == |set i | 0 <= i < |pred| && pred[i] == truth[i]|
  {
    if pred != [] {
      var n := |pred| - 1;
      var init := pred[..n];
      MatchesCountsCorrectIndices(init, truth);
      var before := set i | 0 <= i < n && init[i] == truth[i];
      var after := set i | 0 <= i < |pred| && pred[i] == truth[i];
      assert before == set i | 0 <= i < n && pred[i] == truth[i];
      if pred[n] == truth[n] {
        assert after == before + {n};
      } else {
        assert after == before;
      }
    }
  }

  /** Every prediction is right exactly when the count reaches the number of
      predictions, that is when the accuracy is 1. */
  lemma {:induction false} AllCorrect(pred: seq<int>, truth: seq<int>)
    requires |pred| <= |truth|
    ensures Matches(pred, truth) == |pred| <==> pred == truth[..|pred|]
  {
    if pred != [] {
      var n := |pred| - 1;
      AllCorrect(pred[..n], truth);
      assert pred == pred[..n] + [pred[n]];
      assert truth[..|pred|] == truth[..n] + [truth[n]];
    }
  }

  /** No prediction is right exactly when the count is 0, that is when the
      accuracy is 0. */
  lemma {:induction false} NoneCorrect(pred: seq<int>, truth: seq<int>)
    requires |pred| <= |truth|
    ensures Matches(pred, truth) == 0 <==> forall i :: 0 <= i < |pred| ==> pred[i] != truth[i]
  {
    if pred != [] {
      var n := |pred| - 1;
      var init := pred[..n];
      NoneCorrect(init, truth);
      assert forall i :: 0 <= i < n ==> init[i] == pred[i];
    }
  }
}
