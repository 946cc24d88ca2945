/** The static tables of the engine: the nine entity categories with their
    trigger terms, and the positive, negative and negation cue lists. */
module Lexicon {
  import opened Text

  /** The entity categories, in the order the category table declares them. */
  datatype Category =
    | Actor | Director | Character | Plot | Cinematography
    | Soundtrack | Screenplay | Acting | Movie

  /** Declaration order, which is the order in which categories are scanned. */
  const CategoryOrder: seq<Category> :=
    [Actor, Director, Character, Plot, Cinematography, Soundtrack, Screenplay, Acting, Movie]

  /** Position of a category in the declaration order. */
  function Rank(c: Category): (r: nat)
    ensures r < |CategoryOrder| && CategoryOrder[r] == c
  {
    match c
    case Actor => 0
    case Director => 1
    case Character => 2
    case Plot => 3
    case Cinematography => 4
    case Soundtrack => 5
    case Screenplay => 6
    case Acting => 7
    case Movie => 8
  }

  /** The label string a category is reported under. */
  function Name(c: Category): string {
    match c
    case Actor => "ACTOR"
    case Director => "DIRECTOR"
    case Character => "CHARACTER"
    case Plot => "PLOT"
    case Cinematography => "CINEMATOGRAPHY"
    case Soundtrack => "SOUNDTRACK"
    case Screenplay => "SCREENPLAY"
    case Acting => "ACTING"
    case Movie => "MOVIE"
  }

  /** Distinct categories are reported under distinct labels, so comparing
      labels compares categories. */
  lemma NameInjective(a: Category, b: Category)
    ensures Name(a) == Name(b) <==> a == b
  {
    assert Name(a)[0] == Name(b)[0] ==> Name(a)[1] == Name(b)[1] ==> |Name(a)| == |Name(b)| ==> a == b;
  }

  /** The alternatives of a category's pattern, in the order they are tried. */
  function Terms(c: Category): seq<string> {
    match c
    case Actor => ["actor", "actress", "cast", "star", "performer", "lead", "supporting", "ensemble", "protagonist actor"]
    case Director => ["director", "directed by", "filmmaker", "helmed", "vision", "directorial"]
    case Character => ["character", "protagonist", "antagonist", "hero", "villain", "role", "portrayal"]
    case Plot => ["plot", "story", "storyline", "narrative", "script", "tale", "pacing", "arc", "twist"]
    case Cinematography => ["cinematography", "visuals", "camera work", "shots", "filming", "photography", "frames", "lighting", "composition"]
    case Soundtrack => ["soundtrack", "music", "score", "songs", "audio", "sound", "theme", "composition"]
    case Screenplay => ["screenplay", "writing", "dialogue", "script", "lines", "conversation"]
    case Acting => ["acting", "performance", "portrayed", "played", "delivery", "expression", "chemistry"]
    case Movie => ["movie", "film", "picture", "flick", "feature"]
  }

  const PositiveWords: seq<string> := [
    "excellent", "amazing", "wonderful", "brilliant", "fantastic", "great",
    "perfect", "outstanding", "superb", "phenomenal", "incredible", "masterpiece",
    "stunning", "beautiful", "impressive", "compelling", "engaging", "captivating",
    "love", "loved", "best", "favorite", "good", "well", "powerful", "strong",
    "breathtaking", "remarkable", "magnificent", "spectacular", "exceptional",
    "masterful", "flawless", "riveting", "gripping", "mesmerizing", "unforgettable",
    "award-worthy"
  ]

  /** "disappointing" is listed twice, at positions 5 and 32. */
  const NegativeWords: seq<string> := [
    "terrible", "awful", "horrible", "bad", "worst", "disappointing", "poor",
    "weak", "boring", "dull", "mediocre", "waste", "failed", "lacking", "rushed",
    "underwhelming", "forgettable", "cliche", "predictable", "hate", "hated",
    "annoying", "confusing", "mess", "disaster", "ridiculous", "forced", "bland",
    "uninspired", "tedious", "clumsy", "dragged", "disappointing"
  ]

  const NegationWords: seq<string> :=
    ["not", "never", "no", "neither", "nor", "hardly", "barely", "scarcely"]

  /** A character a term may hold: a lower-case letter, a space or a hyphen. */
  predicate IsTermChar(c: char) {
    ('a' <= c <= 'z') || c == ' ' || c == '-'
  }

  /** A term that begins and ends with a letter and holds only term
      characters; so it is lower case and holds no sentence-terminal
      punctuation. */
  predicate WellFormedTerm(t: string) {
    && |t| > 0
    && 'a' <= t[0] <= 'z' && 'a' <= t[|t| - 1] <= 'z'
    && forall i :: 0 <= i < |t| ==> IsTermChar(t[i])
  }

  /** Every term of every category is well formed. */
  lemma TermsWellFormed(c: Category)
    ensures forall t | t in Terms(c) :: WellFormedTerm(t)
  {
    match c
    case Actor => ActorTermsWellFormed();
    case Director => DirectorTermsWellFormed();
    case Character => CharacterTermsWellFormed();
    case Plot => PlotTermsWellFormed();
    case Cinematography => CinematographyTermsWellFormed();
    case Soundtrack => SoundtrackTermsWellFormed();
    case Screenplay => ScreenplayTermsWellFormed();
    case Acting => ActingTermsWellFormed();
    case Movie => MovieTermsWellFormed();
  }

  lemma ActorTermsWellFormed()
    ensures forall t | t in Terms(Actor) :: WellFormedTerm(t)
  {
  }

  lemma DirectorTermsWellFormed()
    ensures forall t | t in Terms(Director) :: WellFormedTerm(t)
  {
  }

  lemma CharacterTermsWellFormed()
    ensures forall t | t in Terms(Character) :: WellFormedTerm(t)
  {
  }

  lemma PlotTermsWellFormed()
    ensures forall t | t in Terms(Plot) :: WellFormedTerm(t)
  {
  }

  lemma CinematographyTermsWellFormed()
    ensures forall t | t in Terms(Cinematography) :: WellFormedTerm(t)
  {
  }

  lemma SoundtrackTermsWellFormed()
    ensures forall t | t in Terms(Soundtrack) :: WellFormedTerm(t)
  {
  }

  lemma ScreenplayTermsWellFormed()
    ensures forall t | t in Terms(Screenplay) :: WellFormedTerm(t)
  {
  }

  lemma ActingTermsWellFormed()
    ensures forall t | t in Terms(Acting) :: WellFormedTerm(t)
  {
  }

  lemma MovieTermsWellFormed()
    ensures forall t | t in Terms(Movie) :: WellFormedTerm(t)
  {
  }

  /** "disappointing" is the only negative cue listed more than once. */
  lemma DisappointingListedTwice()
    ensures multiset(NegativeWords)["disappointing"] == 2
  {
    var d := "disappointing";
    NegativeWordsLayout();
    DisappointingNotBefore();
    DisappointingNotBetween();
    var before, between := NegativeWords[..5], NegativeWords[6..32];
    assert multiset(NegativeWords) == multiset(before) + multiset{d} + multiset(between) + multiset{d};
  }

  lemma NegativeWordsLayout()
    ensures NegativeWords == NegativeWords[..5] + ["disappointing"] + NegativeWords[6..32] + ["disappointing"]
  {
  }

  lemma DisappointingNotBefore()
    ensures "disappointing" !in NegativeWords[..5]
  {
  }

  lemma DisappointingNotBetween()
    ensures "disappointing" !in NegativeWords[6..32]
  {
  }
}
