/** Cue-word counting shared by the sentence and the document scorer. */
module Cues {
  import opened Text
  import opened Lexicon
  import opened Matching

  /** Whole-word occurrences of the positive cues in (lower-cased) `s`. */
  function PositiveCount(s: string): nat {
    SumCounts(PositiveWords, s)
  }

  /** Whole-word occurrences of the negative cues in (lower-cased) `s`. */
  function NegativeCount(s: string): nat {
    SumCounts(NegativeWords, s)
  }

  /** Adds up the whole-word occurrences of each cue of `words` in
      (lower-cased) `lowerText`, one cue at a time. */
  method CountCues(words: seq<string>, lowerText: string) returns (score: nat)
    ensures score == SumCounts(words, lowerText)
  {
    score := 0;
    for i := 0 to |words|
      invariant score == SumCounts(words[..i], lowerText)
    {
      assert words[..i + 1][..i] == words[..i];
      var matches := WordMatches(lowerText, words[i]);
      if |matches| > 0 {
        score := score + |matches|;
      }
    }
    assert words[..|words|] == words;
  }

  /** Because "disappointing" is listed twice, each of its occurrences adds
      two to the negative count; every other negative cue adds one. */
  lemma DisappointingCountsTwice(s: string)
    ensures NegativeCount(s)
         == SumCounts(Without(NegativeWords, "disappointing"), s) + 2 * CountWord(s, "disappointing")
  {
    DisappointingListedTwice();
    SumCountsSplit(NegativeWords, "disappointing", s);
  }

  /** A text without word characters (an empty or all-blank one among them)
      contains no cue. */
  lemma NoCuesWithoutWordChars(s: string)
    requires forall j :: 0 <= j < |s| ==> !IsWordChar(s[j])
    ensures PositiveCount(s) == 0 && NegativeCount(s) == 0
    ensures PositiveCount(Lower(s)) == 0 && NegativeCount(Lower(s)) == 0
  {
    SumCountsWithoutWordChars(PositiveWords, s);
    SumCountsWithoutWordChars(NegativeWords, s);
    SumCountsWithoutWordChars(PositiveWords, Lower(s));
    SumCountsWithoutWordChars(NegativeWords, Lower(s));
  }
}
