/** Worked cases of the matching rules. */
module Scenarios {
  import opened Text
  import opened Options
  import opened Lexicon
  import opened Matching

  /** The scan is leftmost and tries the alternatives in order, and it
      resumes after a match: in "protagonist actor" the multi-word ACTOR
      term matches at index 0 and hides the word "actor" inside it. */
  lemma MultiWordTermHidesActor()
    ensures PatternMatches("protagonist actor", Terms(Actor)) == ["protagonist actor"]
  {
    var s := "protagonist actor";
    var terms := Terms(Actor);
    assert terms[8] == "protagonist actor";
    assert Lower(s) == s;
    assert MatchesAt(s, terms[8], 0);
    OnlyTheLastActorTermAtStart();
    assert FirstAlternative(s, terms, 0, 0) == Some(8);
    assert FirstAlternative(s, terms, 17, 0) == None;
    assert MatchesFrom(s, terms, 17) == [];
    assert s[0..17] == s;
    assert MatchesFrom(s, terms, 0) == [s[0..17]] + MatchesFrom(s, terms, 17);
  }

  /** None of the eight single-word ACTOR terms listed before it matches at
      the start of "protagonist actor". */
  lemma OnlyTheLastActorTermAtStart()
    ensures forall k | 0 <= k < 8 :: !MatchesAt("protagonist actor", Terms(Actor)[k], 0)
  {
    var s := "protagonist actor";
    forall k | 0 <= k < 8 ensures !MatchesAt(s, Terms(Actor)[k], 0) {
      assert s[0] == 'p';
    }
  }
}
