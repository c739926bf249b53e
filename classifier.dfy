/** The lexicon-lookup classifiers of exercises/tick1.py: count the tokens
    of a review whose lexicon entry is +1 and those whose entry is -1, then
    decide from the two counts. */
module Classifier {

  /** The cut-off of `predict_sentiment_improved`: a review is positive only
      when it has more than this many positive tokens beyond its negative
      ones. */
  const THRESHOLD := 7

  /** True when `token` is in the lexicon with the value `polarity`. */
  predicate HasPolarity(lexicon: map<string, int>, token: string, polarity: int)
  {
    token in lexicon && lexicon[token] == polarity
  }

  /** True when neither counter moves for `token`: it is not in the lexicon,
      or its value is neither +1 nor -1. */
  predicate IsNeutral(lexicon: map<string, int>, token: string)
  {
    !HasPolarity(lexicon, token, 1) && !HasPolarity(lexicon, token, -1)
  }

  /** The number of occurrences in `review` (duplicates included) of tokens
      whose lexicon value is `polarity`; never more than the review's
      length. */
  function Count(review: seq<string>, lexicon: map<string, int>, polarity: int): (n: nat)
    ensures n <= |review|
  {
    if review == [] then 0
    else
      Count(review[..|review| - 1], lexicon, polarity)
      + (if HasPolarity(lexicon, review[|review| - 1], polarity) then 1 else 0)
  }

  /** The number of occurrences in `review` of tokens that move neither
      counter. */
  function NeutralCount(review: seq<string>, lexicon: map<string, int>): (n: nat)
    ensures n <= |review|
  {
    if review == [] then 0
    else
      NeutralCount(review[..|review| - 1], lexicon)
      + (if IsNeutral(lexicon, review[|review| - 1]) then 1 else 0)
  }

  /** The counting loop shared by `predict_sentiment` and
      `predict_sentiment_improved`: `pos` counts the tokens with lexicon
      value +1 and `neg` those with -1; together they never exceed the
      review's length. */
  method CountPolarities(review: seq<string>, lexicon: map<string, int>) returns (pos: int, neg: int)
    ensures pos == Count(review, lexicon, 1) && neg == Count(review, lexicon, -1)
    ensures pos + neg <= |review|
  {
    pos, neg := 0, 0;
    var i := 0;
    while i < |review|
      invariant 0 <= i <= |review|
      invariant pos == Count(review[..i], lexicon, 1)
      invariant neg == Count(review[..i], lexicon, -1)
    {
      assert review[..i + 1][..i] == review[..i];
      var word := review[i];
      if word in lexicon {
        var sentiment := lexicon[word];
        if sentiment == 1 {
          pos := pos + 1;
        } else if sentiment == -1 {
          neg := neg + 1;
        }
      }
      i := i + 1;
    }
    assert review[..i] == review;
    EveryTokenCountedOnce(review, lexicon);
  }

  /** `predict_sentiment`: 1 when more tokens are positive than negative, -1
      when fewer, and 0 on a tie (an empty review, or one without lexicon
      words, included). */
  method PredictSentiment(review: seq<string>, lexicon: map<string, int>) returns (r: int)
    ensures r == 1 || r == -1 || r == 0
    ensures r == 1 <==> Count(review, lexicon, 1) > Count(review, lexicon, -1)
    ensures r == -1 <==> Count(review, lexicon, 1) < Count(review, lexicon, -1)
    ensures r == 0 <==> Count(review, lexicon, 1) == Count(review, lexicon, -1)
  {
    var pos, neg := CountPolarities(review, lexicon);
    if pos > neg {
      r := 1;
    } else if pos < neg {
      r := -1;
    } else {
      r := 0;
    }
  }

  /** `predict_sentiment_improved`: 1 exactly when the positive tokens
      outnumber the negative ones by more than `THRESHOLD`, and -1 otherwise
      (a tie included); it never answers 0. */
  method PredictSentimentImproved(review: seq<string>, lexicon: map<string, int>) returns (r: int)
    ensures r == 1 || r == -1
    ensures r == 1 <==> Count(review, lexicon, 1) - Count(review, lexicon, -1) > THRESHOLD
  {
    var pos, neg := CountPolarities(review, lexicon);
    var value := pos - neg;
    if value > THRESHOLD {
      r := 1;
    } else {
      r := -1;
    }
  }

  /** Counting over a concatenation adds the counts of the two parts. */
  lemma {:induction false} CountAppend(a: seq<string>, b: seq<string>, lexicon: map<string, int>, polarity: int)
    ensures Count(a + b, lexicon, polarity) == Count(a, lexicon, polarity) + Count(b, lexicon, polarity)
  {
    if b != [] {
      var b' := b[..|b| - 1];
      CountAppend(a, b', lexicon, polarity);
      assert (a + b)[..|a + b| - 1] == a + b';
      assert (a + b)[|a + b| - 1] == b[|b| - 1];
    } else {
      assert a + b == a;
    }
  }

  /** Every token of a review is counted exactly once: as positive, as
      negative or as neutral. Hence the two counters together never exceed
      the review's length. */
  lemma {:induction false} EveryTokenCountedOnce(review: seq<string>, lexicon: map<string, int>)
    ensures Count(review, lexicon, 1) + Count(review, lexicon, -1) + NeutralCount(review, lexicon) == |review|
  {
    if review != [] {
      EveryTokenCountedOnce(review[..|review| - 1], lexicon);
    }
  }

  /** A review made only of neutral tokens counts nothing. */
  lemma {:induction false} NeutralTokensCountNothing(review: seq<string>, lexicon: map<string, int>, polarity: int)
    requires polarity == 1 || polarity == -1
    requires forall k :: 0 <= k < |review| ==> IsNeutral(lexicon, review[k])
    ensures Count(review, lexicon, polarity) == 0
  {
    if review != [] {
      var init := review[..|review| - 1];
      assert forall k :: 0 <= k < |init| ==> init[k] == review[k];
      NeutralTokensCountNothing(init, lexicon, polarity);
      assert IsNeutral(lexicon, review[|review| - 1]);
    }
  }

  /** Tokens that are not in the lexicon, or whose value is neither +1 nor
      -1, may be inserted anywhere in a review without changing either
      count. */
  lemma InsertNeutralTokens(a: seq<string>, neutral: seq<string>, b: seq<string>,
                            lexicon: map<string, int>, polarity: int)
    requires polarity == 1 || polarity == -1
    requires forall k :: 0 <= k < |neutral| ==> IsNeutral(lexicon, neutral[k])
    ensures Count(a + neutral + b, lexicon, polarity) == Count(a + b, lexicon, polarity)
  {
    CountAppend(a + neutral, b, lexicon, polarity);
    CountAppend(a, neutral, lexicon, polarity);
    CountAppend(a, b, lexicon, polarity);
    NeutralTokensCountNothing(neutral, lexicon, polarity);
  }

  /** Counts depend only on the multiset of tokens: reordering a review does
      not change them, and so, by the contracts of `PredictSentiment` and
      `PredictSentimentImproved`, does not change either prediction. */
  lemma {:induction false} CountIgnoresOrder(a: seq<string>, b: seq<string>, lexicon: map<string, int>, polarity: int)
    requires multiset(a) == multiset(b)
    ensures Count(a, lexicon, polarity) == Count(b, lexicon, polarity)
    decreases |a|
  {
    if a == [] {
      assert |b| == |multiset(b)| == 0;
    } else {
      var x := a[|a| - 1];
      var a' := a[..|a| - 1];
      assert a == a' + [x];
      assert x in multiset(b);
      var k :| 0 <= k < |b| && b[k] == x;
      var b' := RemoveToken(b, k, lexicon, polarity);
      assert multiset(a') == multiset(a) - multiset{x};
      CountIgnoresOrder(a', b', lexicon, polarity);
    }
  }

  /** `b` without its token at `k`: one token fewer in the multiset, and
      that token's contribution fewer in the count. */
  lemma RemoveToken(b: seq<string>, k: nat, lexicon: map<string, int>, polarity: int) returns (b': seq<string>)
    requires k < |b|
    ensures b' == b[..k] + b[k + 1..]
    ensures multiset(b') == multiset(b) - multiset{b[k]}
    ensures Count(b, lexicon, polarity) ==
      Count(b', lexicon, polarity) + (if HasPolarity(lexicon, b[k], polarity) then 1 else 0)
  {
    b' := b[..k] + b[k + 1..];
    assert b == b[..k] + [b[k]] + b[k + 1..];
    CountAppend(b[..k] + [b[k]], b[k + 1..], lexicon, polarity);
    CountAppend(b[..k], [b[k]], lexicon, polarity);
    CountAppend(b[..k], b[k + 1..], lexicon, polarity);
    assert [b[k]][..0] == [];
  }
}
