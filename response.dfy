/** The analysis endpoint: the review check, the two scorers, the entity
    extractor and the per-sentiment counts of the entities. */
module Response {
  import opened Text
  import opened SentenceScorer
  import opened DocumentScorer
  import opened Dedup
  import opened Entities
  import opened EntityProperties

  datatype Stats = Stats(totalEntities: nat, positiveEntities: nat, negativeEntities: nat, neutralEntities: nat)

  datatype AnalysisResult = AnalysisResult(sentiment: Sentiment, confidence: real, entities: seq<Entity>, stats: Stats)

  /** The endpoint's answer: a rejected review, or the analysis. */
  datatype Response = InvalidReview | Analysis(result: AnalysisResult)

  /** The sentiments of the entities, in order. */
  function Sentiments(entities: seq<Entity>): (r: seq<Sentiment>)
    ensures |r| == |entities| && forall i :: 0 <= i < |entities| ==> r[i] == entities[i].sentiment
  {
    seq(|entities|, i requires 0 <= i < |entities| => entities[i].sentiment)
  }

  /** `entities.filter(e => e.sentiment === s).length`: the number of
      entities whose sentiment is `s`. */
  function CountSentiment(entities: seq<Entity>, s: Sentiment): (n: nat)
    ensures n <= |entities|
    ensures n == 0 <==> forall e | e in entities :: e.sentiment != s
    ensures n == multiset(Sentiments(entities))[s]
  {
    if entities == [] then 0
    else
      var init := entities[..|entities| - 1];
      assert forall e | e in init :: e in entities;
      assert Sentiments(entities) == Sentiments(init) + [entities[|entities| - 1].sentiment];
      CountSentiment(init, s) + if entities[|entities| - 1].sentiment == s then 1 else 0
  }

  /** Every entity has exactly one of the three sentiments, so the three
      counts partition the list. */
  lemma {:induction false} CountsPartition(entities: seq<Entity>)
    ensures CountSentiment(entities, Positive) + CountSentiment(entities, Negative)
            + CountSentiment(entities, Neutral) == |entities|
  {
    if entities != [] {
      CountsPartition(entities[..|entities| - 1]);
    }
  }

  /** The statistics block of the response. */
  function StatsOf(entities: seq<Entity>): (r: Stats)
    ensures r.totalEntities == |entities|
    ensures r.positiveEntities == multiset(Sentiments(entities))[Positive]
    ensures r.negativeEntities == multiset(Sentiments(entities))[Negative]
    ensures r.neutralEntities == multiset(Sentiments(entities))[Neutral]
    ensures r.positiveEntities + r.negativeEntities + r.neutralEntities == r.totalEntities
  {
    CountsPartition(entities);
    Stats(|entities|, CountSentiment(entities, Positive), CountSentiment(entities, Negative),
          CountSentiment(entities, Neutral))
  }

  /** The specification of the endpoint. An empty review is falsy and is
      rejected before any analysis. */
  function Respond(review: string): (r: Response)
    ensures r.InvalidReview? <==> review == []
  {
    if review == [] then InvalidReview
    else
      var document := DocumentOf(review);
      var entities := ExtractedEntities(review);
      Analysis(AnalysisResult(document.sentiment, document.confidence, entities, StatsOf(entities)))
  }

  /** Handles one request body whose `review` field is a string. */
  method Post(review: string) returns (response: Response)
    ensures response == Respond(review)
  {
    if review == [] {
      return InvalidReview;
    }
    var sentiment, confidence := AnalyzeSentiment(review);
    var entities := ExtractEntities(review);
    var stats := StatsOf(entities);
    response := Analysis(AnalysisResult(sentiment, confidence, entities, stats));
  }

  /** Every analysis has a binary label, a confidence in [0.5, 0.98],
      deduplicated well-formed entities and counts that add up. */
  lemma ResponseProperties(review: string)
    requires review != []
    ensures Respond(review).Analysis?
    ensures Respond(review).result.sentiment != Neutral
    ensures 0.5 <= Respond(review).result.confidence <= 0.98
    ensures forall i, j :: 0 <= i < j < |Respond(review).result.entities| ==>
              EntityKey(Respond(review).result.entities[i]) != EntityKey(Respond(review).result.entities[j])
    ensures forall e | e in Respond(review).result.entities :: WellFormedEntity(e)
    ensures Respond(review).result.stats.totalEntities == |Respond(review).result.entities|
    ensures Respond(review).result.stats.positiveEntities + Respond(review).result.stats.negativeEntities
            + Respond(review).result.stats.neutralEntities == Respond(review).result.stats.totalEntities
  {
    DocumentProperties(review);
    ExtractedEntitiesDeduplicated(review);
    ExtractedEntitiesSound(review);
  }
}
