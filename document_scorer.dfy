/** Document-scoped sentiment: a binary label and a confidence, with no
    negation handling and no neutral outcome. */
module DocumentScorer {
  import opened Text
  import opened Lexicon
  import opened Matching
  import opened Cues
  import opened SentenceScorer

  datatype DocumentSentiment = DocumentSentiment(sentiment: Sentiment, confidence: real)

  const Boost: real := 1.15
  const Cap: real := 0.98
  const NoSignalConfidence: real := 0.5

  /** The share of the larger score, boosted by 15% and capped at 0.98;
      0.5 when there is no cue at all. */
  function Confidence(positives: nat, negatives: nat): real {
    var total := positives + negatives;
    if total > 0 then
      var ratio := (if positives >= negatives then positives else negatives) as real / total as real;
      if ratio * Boost <= Cap then ratio * Boost else Cap
    else NoSignalConfidence
  }

  /** The label and confidence for the given cue counts; ties, 0-0 among
      them, go to negative. */
  function Score(positives: nat, negatives: nat): (r: DocumentSentiment)
    ensures r.sentiment != Neutral
    ensures r.sentiment == Positive <==> positives > negatives
    ensures r.confidence == Confidence(positives, negatives)
  {
    DocumentSentiment(if positives > negatives then Positive else Negative, Confidence(positives, negatives))
  }

  /** The specification of the document scorer. */
  function DocumentOf(text: string): DocumentSentiment {
    var lower := Lower(text);
    Score(PositiveCount(lower), NegativeCount(lower))
  }

  /** Scores a whole text the way the source does, accumulating the counts
      cue by cue. */
  method AnalyzeSentiment(text: string) returns (sentiment: Sentiment, confidence: real)
    ensures DocumentSentiment(sentiment, confidence) == DocumentOf(text)
  {
    var lowerText := Lower(text);
    var positiveScore := CountCues(PositiveWords, lowerText);
    var negativeScore := CountCues(NegativeWords, lowerText);

    var totalScore := positiveScore + negativeScore;
    sentiment := if positiveScore > negativeScore then Positive else Negative;

    confidence := 0.5;
    if totalScore > 0 {
      var larger := if positiveScore >= negativeScore then positiveScore else negativeScore;
      confidence := larger as real / totalScore as real;
      confidence := if confidence * 1.15 <= 0.98 then confidence * 1.15 else 0.98;
    }
  }

  /** The larger of two counts is at least half, and at most all, of their sum. */
  lemma RatioBounds(larger: nat, total: nat)
    requires 0 < total && total <= 2 * larger && larger <= total
    ensures 0.5 <= larger as real / total as real <= 1.0
  {
    var l := larger as real;
    var t := total as real;
    var r := l / t;
    assert r * t == l;
    assert (r - 0.5) * t == l - 0.5 * t;
    assert (1.0 - r) * t == t - l;
    NonNegativeFactor(r - 0.5, t);
    NonNegativeFactor(1.0 - r, t);
  }

  /** A product with a positive factor is non-negative only if the other
      factor is. */
  lemma NonNegativeFactor(x: real, t: real)
    requires t > 0.0 && x * t >= 0.0
    ensures x >= 0.0
  {
  }

  /** Confidence is 0.5 without cues, and otherwise between 0.575 (an even
      split) and the 0.98 cap. */
  lemma ConfidenceBounds(positives: nat, negatives: nat)
    ensures positives + negatives == 0 ==> Confidence(positives, negatives) == 0.5
    ensures positives + negatives > 0 ==> 0.575 <= Confidence(positives, negatives) <= 0.98
    ensures 0.5 <= Confidence(positives, negatives) <= 0.98
  {
    var total := positives + negatives;
    if total > 0 {
      RatioBounds(if positives >= negatives then positives else negatives, total);
    }
  }

  /** Cues of one polarity only give the capped confidence 0.98. */
  lemma UnanimousIsCapped(positives: nat, negatives: nat)
    requires positives + negatives > 0 && (positives == 0 || negatives == 0)
    ensures Confidence(positives, negatives) == 0.98
  {
    var total := positives + negatives;
    var larger := if positives >= negatives then positives else negatives;
    assert larger == total;
    assert larger as real / total as real == 1.0;
  }

  /** An even split gives the lowest confidence, 0.5 boosted to 0.575. */
  lemma EvenSplitIsLowest(count: nat)
    requires count > 0
    ensures Confidence(count, count) == 0.575
  {
    var total := count + count;
    assert count as real / total as real == 0.5 by {
      assert 0.5 * total as real == count as real;
    }
  }

  /** Every text gets a binary label and a confidence in [0.5, 0.98]; a text
      with no cue, the empty text among them, gets negative at 0.5. */
  lemma DocumentProperties(text: string)
    ensures DocumentOf(text).sentiment in {Positive, Negative}
    ensures 0.5 <= DocumentOf(text).confidence <= 0.98
    ensures PositiveCount(Lower(text)) + NegativeCount(Lower(text)) == 0
            ==> DocumentOf(text) == DocumentSentiment(Negative, 0.5)
  {
    ConfidenceBounds(PositiveCount(Lower(text)), NegativeCount(Lower(text)));
  }

  /** The empty review: negative by the tie-break, at confidence 0.5. */
  lemma EmptyText()
    ensures DocumentOf("") == DocumentSentiment(Negative, 0.5)
  {
    NoCuesWithoutWordChars("");
  }
}
