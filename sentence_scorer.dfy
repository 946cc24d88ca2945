/** Sentence-scoped sentiment: cue counting with negation dampening and a
    three-way decision with a 0.5 margin. */
module SentenceScorer {
  import opened Text
  import opened Lexicon
  import opened Matching
  import opened Cues

  datatype Sentiment = Positive | Negative | Neutral

  /** The margin one score must exceed the other by. */
  const Threshold: real := 0.5

  /** The weight of a positive occurrence in a sentence holding a negation. */
  const NegatedWeight: real := 0.3

  /** Some negation word occurs in (lower-cased) `s` as a plain substring,
      not necessarily as a whole word. */
  predicate HasNegation(s: string) {
    exists w | w in NegationWords :: Contains(s, w)
  }

  /** The positive score of `count` positive occurrences. */
  function PositiveScore(count: nat, negated: bool): (r: real)
    ensures negated ==> r == NegatedWeight * count as real
    ensures !negated ==> r == count as real
    ensures 0.0 <= r <= count as real
  {
    if negated then count as real * NegatedWeight else count as real
  }

  /** The decision with hysteresis: a polarity only on a clear margin. */
  function Decide(positiveScore: real, negativeScore: real): (r: Sentiment)
    ensures r == Positive <==> positiveScore > negativeScore + Threshold
    ensures r == Negative <==> negativeScore > positiveScore + Threshold
    ensures r == Neutral <==> -Threshold <= positiveScore - negativeScore <= Threshold
  {
    if positiveScore > negativeScore + Threshold then Positive
    else if negativeScore > positiveScore + Threshold then Negative
    else Neutral
  }

  /** The label of a sentence with the given cue counts. */
  function Label(positives: nat, negatives: nat, negated: bool): Sentiment {
    Decide(PositiveScore(positives, negated), negatives as real)
  }

  /** The specification of the sentence scorer. */
  function SentenceSentiment(sentence: string): Sentiment {
    var lower := Lower(sentence);
    Label(PositiveCount(lower), NegativeCount(lower), HasNegation(lower))
  }

  /** Scores a sentence the way the source does, accumulating scores cue by
      cue over the two lists. */
  method AnalyzeSentenceContext(sentence: string) returns (sentiment: Sentiment)
    ensures sentiment == SentenceSentiment(sentence)
  {
    var lowerSentence := Lower(sentence);
    var hasNegation := HasNegation(lowerSentence);

    var positiveScore := ScorePositives(PositiveWords, lowerSentence, hasNegation);
    var negatives := CountCues(NegativeWords, lowerSentence);
    var negativeScore := negatives as real;

    var threshold := 0.5;
    if positiveScore > negativeScore + threshold {
      return Positive;
    }
    if negativeScore > positiveScore + threshold {
      return Negative;
    }
    return Neutral;
  }

  /** The positive-cue loop: each occurrence of a cue of `words` in
      (lower-cased) `lowerSentence` adds 1, or 0.3 under a negation. */
  method ScorePositives(words: seq<string>, lowerSentence: string, hasNegation: bool) returns (positiveScore: real)
    ensures positiveScore == PositiveScore(SumCounts(words, lowerSentence), hasNegation)
  {
    positiveScore := 0.0;
    for i := 0 to |words|
      invariant positiveScore == PositiveScore(SumCounts(words[..i], lowerSentence), hasNegation)
    {
      assert words[..i + 1][..i] == words[..i];
      var matches := WordMatches(lowerSentence, words[i]);
      if |matches| > 0 {
        positiveScore := positiveScore + if hasNegation then |matches| as real * NegatedWeight else |matches| as real;
      }
    }
    assert words[..|words|] == words;
  }

  /** A negation only ever lowers the positive score: with the same cue
      counts it cannot turn a negative label positive, nor a neutral one
      positive, and a sentence positive under a negation is positive
      without it. */
  lemma NegationNeverRaises(positives: nat, negatives: nat)
    ensures Label(positives, negatives, false) == Negative ==> Label(positives, negatives, true) == Negative
    ensures Label(positives, negatives, false) == Neutral ==> Label(positives, negatives, true) != Positive
    ensures Label(positives, negatives, true) == Positive ==> Label(positives, negatives, false) == Positive
  {
  }

  /** The same statement for two sentences with equal cue counts, one of
      them holding a negation word. */
  lemma NegatedSentenceNeverMorePositive(plain: string, negated: string)
    requires PositiveCount(Lower(plain)) == PositiveCount(Lower(negated))
    requires NegativeCount(Lower(plain)) == NegativeCount(Lower(negated))
    requires !HasNegation(Lower(plain)) && HasNegation(Lower(negated))
    ensures SentenceSentiment(plain) == Negative ==> SentenceSentiment(negated) == Negative
    ensures SentenceSentiment(negated) == Positive ==> SentenceSentiment(plain) == Positive
  {
    NegationNeverRaises(PositiveCount(Lower(plain)), NegativeCount(Lower(plain)));
  }

  /** One positive cue alone makes a sentence positive, but not when a
      negation is present: "the acting was good" against "the acting was
      not good". */
  lemma SingleCueUnderNegation()
    ensures Label(1, 0, false) == Positive
    ensures Label(1, 0, true) == Neutral
  {
  }

  /** A sentence with no cue occurrences is neutral. */
  lemma CueFreeIsNeutral(sentence: string)
    requires PositiveCount(Lower(sentence)) == 0 && NegativeCount(Lower(sentence)) == 0
    ensures SentenceSentiment(sentence) == Neutral
  {
  }

  /** An empty or white-space-only sentence (more generally, one without
      word characters) is neutral. */
  lemma BlankIsNeutral(sentence: string)
    requires forall j :: 0 <= j < |sentence| ==> !IsWordChar(sentence[j])
    ensures SentenceSentiment(sentence) == Neutral
  {
    NoCuesWithoutWordChars(sentence);
  }

  /** The negation test is a substring test, so it fires inside words that
      merely contain a negation word. */
  lemma NegationInsideWords()
    ensures HasNegation("i know")
    ensures HasNegation("nothing")
    ensures HasNegation("normal")
  {
    assert "no" in NegationWords && OccursAt("i know", "no", 3);
    assert "not" in NegationWords && OccursAt("nothing", "not", 0);
    assert "nor" in NegationWords && OccursAt("normal", "nor", 0);
  }
}
