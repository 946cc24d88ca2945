/** Entity extraction: per category, the unique whole-word matches, each
    attributed to the first sentence that contains it and scored there, then
    deduplicated on (text, label, context). */
module Entities {
  import opened Text
  import opened Options
  import opened Lexicon
  import opened Matching
  import opened Dedup
  import opened Sentences
  import opened SentenceScorer

  datatype Entity = Entity(text: string, category: Category, sentiment: Sentiment, context: string)

  /** The identity the final deduplication uses: text, label string and
      context. */
  function EntityKey(e: Entity): (string, string, string) {
    (e.text, Name(e.category), e.context)
  }

  /** The first sentence whose lower-cased form contains `needle`,
      searching from index `k`. */
  function FirstContainingFrom(sentences: seq<string>, needle: string, k: nat): (r: Option<nat>)
    requires k <= |sentences|
    ensures r.Some? ==> k <= r.value < |sentences|
    decreases |sentences| - k
  {
    if k == |sentences| then None
    else if Contains(Lower(sentences[k]), needle) then Some(k)
    else FirstContainingFrom(sentences, needle, k + 1)
  }

  /** The search finds the first sentence containing the needle, and finds
      none only when no sentence contains it. */
  lemma {:induction false} FirstContainingFromSpec(sentences: seq<string>, needle: string, k: nat)
    requires k <= |sentences|
    ensures FirstContainingFrom(sentences, needle, k).Some? ==>
              var i := FirstContainingFrom(sentences, needle, k).value;
              Contains(Lower(sentences[i]), needle)
              && forall j :: k <= j < i ==> !Contains(Lower(sentences[j]), needle)
    ensures FirstContainingFrom(sentences, needle, k).None? ==>
              forall j :: k <= j < |sentences| ==> !Contains(Lower(sentences[j]), needle)
    decreases |sentences| - k
  {
    if k < |sentences| && !Contains(Lower(sentences[k]), needle) {
      FirstContainingFromSpec(sentences, needle, k + 1);
    }
  }

  function FirstContaining(sentences: seq<string>, needle: string): (r: Option<nat>)
    ensures r.Some? ==> r.value < |sentences|
  {
    FirstContainingFrom(sentences, needle, 0)
  }

  /** `sentences.find(s => s.toLowerCase().includes(m.toLowerCase())) || ""`. */
  function ContainingSentence(sentences: seq<string>, m: string): string {
    match FirstContaining(sentences, Lower(m))
    case Some(k) => sentences[k]
    case None => ""
  }

  /** The entity one unique match contributes, if its sentence is not blank. */
  function CandidateFor(category: Category, m: string, sentences: seq<string>): seq<Entity> {
    var containing := ContainingSentence(sentences, m);
    if Trim(containing) != [] then
      [Entity(Lower(m), category, SentenceSentiment(containing), Trim(containing))]
    else []
  }

  /** The entities the unique matches `ms` of one category contribute, in order. */
  function MatchCandidates(category: Category, ms: seq<string>, sentences: seq<string>): seq<Entity> {
    if ms == [] then []
    else MatchCandidates(category, ms[..|ms| - 1], sentences) + CandidateFor(category, ms[|ms| - 1], sentences)
  }

  /** `[...new Set(matches)]`: the matches without repeats, first occurrence
      first; the comparison is case-sensitive. */
  function Distinct(ms: seq<string>): seq<string> {
    DedupBy(ms, MatchKey)
  }

  /** A `Set` of strings compares them as they are. */
  function MatchKey(m: string): string {
    m
  }

  function CategoryCandidates(category: Category, text: string, sentences: seq<string>): seq<Entity> {
    var matches := PatternMatches(text, Terms(category));
    if |matches| > 0 then MatchCandidates(category, Distinct(matches), sentences) else []
  }

  function CandidatesOver(categories: seq<Category>, text: string, sentences: seq<string>): seq<Entity> {
    if categories == [] then []
    else CandidatesOver(categories[..|categories| - 1], text, sentences)
         + CategoryCandidates(categories[|categories| - 1], text, sentences)
  }

  /** Every entity pushed before deduplication, in push order. */
  function Candidates(text: string): seq<Entity> {
    CandidatesOver(CategoryOrder, text, SentencesOf(text))
  }

  /** The specification of the extractor. */
  function ExtractedEntities(text: string): seq<Entity> {
    DedupBy(Candidates(text), EntityKey)
  }

  /** Extracts the entities the way the source does: nested loops over the
      categories and their unique matches, pushing one entity at a time, and
      a final deduplication. */
  method ExtractEntities(text: string) returns (result: seq<Entity>)
    ensures result == ExtractedEntities(text)
  {
    var entities: seq<Entity> := [];
    var sentences := SentencesOf(text);

    for i := 0 to |CategoryOrder|
      invariant entities == CandidatesOver(CategoryOrder[..i], text, sentences)
    {
      CandidatesOverStep(CategoryOrder, i, text, sentences);
      entities := PushCategory(entities, CategoryOrder[i], text, sentences);
    }
    assert CategoryOrder[..|CategoryOrder|] == CategoryOrder;

    result := DedupBy(entities, EntityKey);
  }

  /** One iteration of the category loop: the matches of the category's
      pattern, reduced to unique ones, are pushed in order. */
  method PushCategory(entities: seq<Entity>, category: Category, text: string, sentences: seq<string>)
    returns (pushed: seq<Entity>)
    ensures pushed == entities + CategoryCandidates(category, text, sentences)
  {
    pushed := entities;
    var matches := PatternMatches(text, Terms(category));
    if |matches| > 0 {
      var uniqueMatches := Distinct(matches);
      pushed := PushMatches(entities, category, uniqueMatches, sentences);
    }
  }

  /** The inner loop: each unique match is pushed with its containing
      sentence and that sentence's sentiment, unless the sentence is blank. */
  method PushMatches(entities: seq<Entity>, category: Category, uniqueMatches: seq<string>, sentences: seq<string>)
    returns (pushed: seq<Entity>)
    ensures pushed == entities + MatchCandidates(category, uniqueMatches, sentences)
  {
    pushed := entities;
    for j := 0 to |uniqueMatches|
      invariant pushed == entities + MatchCandidates(category, uniqueMatches[..j], sentences)
    {
      MatchCandidatesStep(category, uniqueMatches, j, sentences);
      var m := uniqueMatches[j];
      var containingSentence := ContainingSentence(sentences, m);
      var sentiment := AnalyzeSentenceContext(containingSentence);
      if Trim(containingSentence) != [] {
        pushed := pushed + [Entity(Lower(m), category, sentiment, Trim(containingSentence))];
      }
      AppendAssoc(entities, MatchCandidates(category, uniqueMatches[..j], sentences), CandidateFor(category, m, sentences));
    }
    assert uniqueMatches[..|uniqueMatches|] == uniqueMatches;
  }

  lemma AppendAssoc<T>(a: seq<T>, b: seq<T>, c: seq<T>)
    ensures a + (b + c) == a + b + c
  {
  }

  lemma CandidatesOverStep(categories: seq<Category>, i: nat, text: string, sentences: seq<string>)
    requires i < |categories|
    ensures CandidatesOver(categories[..i + 1], text, sentences)
         == CandidatesOver(categories[..i], text, sentences) + CategoryCandidates(categories[i], text, sentences)
  {
    assert categories[..i + 1][..i] == categories[..i];
  }

  lemma MatchCandidatesStep(category: Category, ms: seq<string>, j: nat, sentences: seq<string>)
    requires j < |ms|
    ensures MatchCandidates(category, ms[..j + 1], sentences)
         == MatchCandidates(category, ms[..j], sentences) + CandidateFor(category, ms[j], sentences)
  {
    assert ms[..j + 1][..j] == ms[..j];
  }
}
