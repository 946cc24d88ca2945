# Review analysis engine: a Dafny model

This project models the text-analysis engine behind the movie-review
analyser's `/api/analyze` endpoint (`app/api/analyze/route.ts`). The engine
takes one review and returns four things:

- a document sentiment: positive or negative, with a confidence;
- the review-topic entities it mentions (ACTOR, DIRECTOR, CHARACTER, PLOT,
  CINEMATOGRAPHY, SOUNDTRACK, SCREENPLAY, ACTING, MOVIE);
- for each entity, the sentence that mentions it and that sentence's own
  sentiment;
- counts of the entities by sentiment.

The model is split into modules, one per part of the engine:

| file | module | what it holds |
|---|---|---|
| `option.dfy` | `Options` | the optional value used by searches |
| `text.dfy` | `Text` | ASCII lower-casing, the regex word boundary `\b`, `trim`, and substring search (`includes`) |
| `lexicon.dfy` | `Lexicon` | the nine categories and their terms, and the positive, negative and negation lists |
| `matching.dfy` | `Matching` | how a global, case-insensitive `\b(t1\|…\|tn)\b` scans a string; cue counting |
| `cues.dfy` | `Cues` | positive and negative cue counts, and the loop that accumulates a count |
| `sentence_scorer.dfy` | `SentenceScorer` | `analyzeSentenceContext` |
| `document_scorer.dfy` | `DocumentScorer` | `analyzeSentiment` |
| `sentences.dfy` | `Sentences` | `text.split(/[.!?]+/).filter(s => s.trim())` |
| `dedup.dfy` | `Dedup` | keep-first deduplication, used for both `[...new Set(xs)]` and the final `filter`/`findIndex` |
| `entities.dfy` | `Entities` | `extractEntities` |
| `entity_properties.dfy` | `EntityProperties` | what the returned entities satisfy |
| `entity_order.dfy` | `EntityOrder` | the order of the returned entities within one category |
| `response.dfy` | `Response` | the `POST` handler: the review check, the stats fold and the response |
| `scenarios.dfy` | `Scenarios` | a worked case of the matching rules |

The three functions that accumulate state in the source are Dafny methods
with loops: `analyzeSentenceContext`, `analyzeSentiment` and `extractEntities`
(`+=` and `push` inside `forEach` and `for` loops). Each method is proved
equal to a specification function:

| method | specification function |
|---|---|
| `AnalyzeSentenceContext` | `SentenceSentiment` |
| `AnalyzeSentiment` | `DocumentOf` |
| `ExtractEntities` | `ExtractedEntities` |

The lemmas state their properties about those functions. The sentence split,
the deduplication and the stats counts are pure in the source and are pure
functions here.

Behaviour of the code that the model keeps exactly:

- The negation test is a plain substring test. It fires inside words such as
  "know", "nothing" and "normal".
- "disappointing" is listed twice among the negative cues. Each of its
  occurrences therefore counts 2 in both scorers.
- Any document tie, 0–0 included, is labelled negative.
- The unique-match `Set` is case-sensitive. Matches that differ only in case
  collapse later, in the final deduplication.
- An entity's sentence is the first one whose lower-cased text contains the
  lower-cased match as a substring. That may be an earlier sentence than the
  one where the match occurred.

Arithmetic is exact: Dafny `real` for the 0.3 weight, the 0.5 margin and the
ratio boosted by 1.15 and capped at 0.98.

Two edge cases of the code:

- **Unique matches.** `new Set(matches)` (route.ts:104) compares
  case-sensitively, so case variants collapse only in the final
  deduplication (`CaseVariantsCollide`).
- **Empty review.** The handler rejects the empty string (`!review`,
  route.ts:204). The engine functions still handle it (`EmptyText`,
  `NoEntitiesWithoutWordChars`).

## Model

| member | source | states |
|---|---|---|
| `Lexicon.Rank` | app/api/analyze/route.ts:3-13 | each category's position in the declaration order, which is the order the categories are scanned in |
| `Lexicon.TermsWellFormed` | app/api/analyze/route.ts:4-12 | every trigger term is non-empty, lower case, starts and ends with a letter, and holds only letters, spaces and hyphens (so it has no sentence punctuation) |
| `Lexicon.NameInjective` | app/api/analyze/route.ts:3-13 | distinct categories carry distinct labels, so the label comparison of the final deduplication compares categories |
| `Lexicon.DisappointingListedTwice` | app/api/analyze/route.ts:56-90 | "disappointing" occurs exactly twice in the negative cue list |
| `Matching.FirstAlternative` | app/api/analyze/route.ts:4-12 | the alternative tried at a position is the first one, in list order, that matches whole-word and case-insensitively; none is found only if no alternative matches there |
| `Matching.MatchesFrom` | app/api/analyze/route.ts:102 | every string a global scan returns is, in its original casing, a whole-word case-insensitive occurrence of one of the terms |
| `Matching.SumCountsSplit` | app/api/analyze/route.ts:154-160 | a cue listed n times contributes n times its occurrence count to the summed score |
| `Matching.NoMatchesWithoutWordChars` | app/api/analyze/route.ts:146-147 | a string with no word character has no whole-word match |
| `Cues.CountCues` | app/api/analyze/route.ts:154-160 | the cue-by-cue loop adds up to exactly the summed whole-word occurrence count of the cue list |
| `Cues.DisappointingCountsTwice` | app/api/analyze/route.ts:181-185 | the negative count is the count of the other negative cues plus twice the occurrences of "disappointing" |
| `Cues.NoCuesWithoutWordChars` | app/api/analyze/route.ts:145-160 | an empty or punctuation-only text has zero positive and zero negative cues |
| `SentenceScorer.PositiveScore` | app/api/analyze/route.ts:150 | under a negation each positive occurrence weighs 0.3, otherwise 1, so the score never exceeds the count |
| `SentenceScorer.Decide` | app/api/analyze/route.ts:162-167 | positive iff pos > neg + 0.5, negative iff neg > pos + 0.5, neutral iff the scores are within 0.5 of each other |
| `SentenceScorer.ScorePositives` | app/api/analyze/route.ts:145-152 | the positive-cue loop yields the summed occurrence count, weighted 0.3 under a negation and 1 otherwise |
| `SentenceScorer.AnalyzeSentenceContext` | app/api/analyze/route.ts:135-168 | the cue-by-cue accumulation over both lists yields exactly the specified sentence label |
| `SentenceScorer.NegationNeverRaises` | app/api/analyze/route.ts:142-160 | with the same cue counts a negation cannot turn a negative or neutral label positive, and a label positive under negation is positive without it |
| `SentenceScorer.NegatedSentenceNeverMorePositive` | app/api/analyze/route.ts:135-168 | of two sentences with equal cue counts, the one with a negation word is never more positive than the one without |
| `SentenceScorer.SingleCueUnderNegation` | app/api/analyze/route.ts:145-152 | one positive cue alone is positive, but neutral when a negation word is present ("was good" against "was not good") |
| `SentenceScorer.CueFreeIsNeutral` | app/api/analyze/route.ts:162-167 | a sentence without cue occurrences is neutral |
| `SentenceScorer.BlankIsNeutral` | app/api/analyze/route.ts:135-168 | an empty or blank sentence is neutral |
| `SentenceScorer.NegationInsideWords` | app/api/analyze/route.ts:142-143 | the substring negation test fires on "i know", "nothing" and "normal" |
| `DocumentScorer.Score` | app/api/analyze/route.ts:187-195 | the document label is never neutral, and is positive iff the positive count strictly exceeds the negative one (ties go negative) |
| `DocumentScorer.AnalyzeSentiment` | app/api/analyze/route.ts:170-198 | the cue-by-cue accumulation and the confidence computation yield exactly the specified label and confidence |
| `DocumentScorer.ConfidenceBounds` | app/api/analyze/route.ts:190-195 | confidence is 0.5 with no cues, and otherwise lies between 0.575 and 0.98 |
| `DocumentScorer.UnanimousIsCapped` | app/api/analyze/route.ts:192-194 | cues of one polarity only give the capped confidence 0.98 |
| `DocumentScorer.EvenSplitIsLowest` | app/api/analyze/route.ts:192-194 | an even split of cues gives confidence 0.575 |
| `DocumentScorer.DocumentProperties` | app/api/analyze/route.ts:170-198 | every text gets a binary label with confidence in [0.5, 0.98]; a cue-free text is negative at 0.5 |
| `DocumentScorer.EmptyText` | app/api/analyze/route.ts:187-195 | the empty text is negative at confidence 0.5 |
| `Text.TrimProperties` | app/api/analyze/route.ts:119 | `trim` yields a trimmed infix of its input, is idempotent, and is empty exactly when the input is blank |
| `Text.ContainsAfterTrim` | app/api/analyze/route.ts:108-119 | a term found in a sentence's lower-cased text is still found after the sentence is trimmed |
| `Sentences.Split` | app/api/analyze/route.ts:99 | splitting yields at least one fragment, and no fragment holds a '.', '!' or '?' |
| `Sentences.SplitTiles` | app/api/analyze/route.ts:99 | the fragments tile the text: the first starts at 0, the last ends at the text's end, each is the text between its offsets, and consecutive fragments are separated by a non-empty run of '.', '!' and '?' only |
| `Sentences.NonBlankMembers` | app/api/analyze/route.ts:99 | the filter keeps exactly the fragments that do not trim to nothing |
| `Sentences.NonBlankSingle` | app/api/analyze/route.ts:99 | a single fragment is kept exactly when it does not trim to nothing |
| `Sentences.NonBlankAppend` | app/api/analyze/route.ts:99 | filtering a concatenation is concatenating the filtered parts, so the kept fragments keep their order and their repeats |
| `Sentences.SentencesOf` | app/api/analyze/route.ts:99 | every sentence is non-blank and free of terminators |
| `Sentences.SpanInSentence` | app/api/analyze/route.ts:99 | a terminator-free stretch of the text with a non-space character lies inside one of the sentences |
| `Dedup.IndexOfKey` | app/api/analyze/route.ts:129 | `findIndex`: -1 exactly when no element has the key, and otherwise an index whose element has it |
| `Dedup.IndexOfKeyIsFirst` | app/api/analyze/route.ts:129 | no element before the index `findIndex` returns has the key |
| `Dedup.KeepFirstSound` | app/api/analyze/route.ts:126-130 | every kept element is the first element of its key, and it comes from the part of the list scanned so far |
| `Dedup.KeepFirstOrdered` | app/api/analyze/route.ts:126-130 | kept elements keep the order of their positions in the input |
| `Dedup.KeepFirstComplete` | app/api/analyze/route.ts:126-130 | every element that is the first of its key in the scanned part is kept |
| `Dedup.DedupByProperties` | app/api/analyze/route.ts:126-130 | the result has pairwise-distinct keys, holds the first occurrence of every key of the input, and keeps the input's order |
| `Dedup.DedupByPositions` | app/api/analyze/route.ts:126-130 | two kept elements, in order, are the first occurrences of their keys, at increasing positions of the input |
| `Dedup.DedupByIdempotent` | app/api/analyze/route.ts:104 | deduplicating twice is the same as deduplicating once |
| `Entities.FirstContainingFromSpec` | app/api/analyze/route.ts:108 | `find` returns the first sentence whose lower-cased text contains the needle, and none only when no sentence does |
| `Entities.ExtractEntities` | app/api/analyze/route.ts:92-133 | the nested category and match loops followed by the deduplication yield exactly the specified entity list |
| `Entities.PushCategory` | app/api/analyze/route.ts:101-124 | one category iteration appends that category's candidates, in unique-match order, to the entities pushed so far |
| `Entities.PushMatches` | app/api/analyze/route.ts:106-122 | the unique-match loop appends one entity per match whose containing sentence is not blank |
| `EntityProperties.MatchIsTerm` | app/api/analyze/route.ts:102 | every match lower-cases to one of its category's terms and occurs verbatim in the text |
| `EntityProperties.CandidateForSound` | app/api/analyze/route.ts:106-121 | for a match that lower-cases to a well-formed term, the entity pushed for it (if any) is well formed, carries the category and the lower-cased match, and is attributed to the first sentence containing it |
| `EntityProperties.ExtractedEntitiesSound` | app/api/analyze/route.ts:108-121 | every returned entity's text is the lower-cased form of an actual match of its category's pattern and one of that category's terms; it has a non-empty trimmed context whose lower-cased form contains the text, and context and sentiment taken from the first sentence containing the text |
| `EntityProperties.ExtractedEntitiesDeduplicated` | app/api/analyze/route.ts:126-130 | the returned (text, label, context) triples are pairwise distinct, and the result is the first-occurrence subsequence of the pushed entities |
| `EntityProperties.CaseVariantsCollide` | app/api/analyze/route.ts:104-120 | two matches that differ only in case contribute the same entity, so the final deduplication collapses them |
| `EntityProperties.ExtractedEntitiesOrdered` | app/api/analyze/route.ts:101-124 | the returned entities follow the category declaration order (the order within a category is `EntityOrder.ExtractedEntitiesMatchOrder`) |
| `EntityProperties.MatchInSomeSentence` | app/api/analyze/route.ts:99-108 | every match lies inside some sentence, because no term holds sentence punctuation |
| `EntityProperties.MatchHasSentence` | app/api/analyze/route.ts:108-121 | every unique match finds a containing sentence and contributes exactly one entity |
| `EntityProperties.EveryMatchReported` | app/api/analyze/route.ts:101-124 | for every match of a category's pattern, the result holds an entity of that category whose text is the lower-cased match |
| `EntityOrder.ExtractedEntitiesMatchOrder` | app/api/analyze/route.ts:101-130 | two returned entities of one category appear in the order in which their texts first occur, lower-cased, among the category's matches |
| `EntityOrder.CategoryBlockShape` | app/api/analyze/route.ts:102-121 | a category pushes one entity per unique match, carrying the lower-cased match, and matches equal after lower-casing push equal entities |
| `EntityOrder.BlockPosition` | app/api/analyze/route.ts:101-130 | an entity that the final deduplication keeps sits in its category's block, at the place of the first unique match with its text |
| `EntityOrder.FirstOfLowered` | app/api/analyze/route.ts:102-104 | the first unique match with a given lower-cased form is the first match with that form |
| `EntityProperties.NoEntitiesWithoutWordChars` | app/api/analyze/route.ts:92-133 | an empty or punctuation-only text yields no entity |
| `Response.CountSentiment` | app/api/analyze/route.ts:213-215 | a sentiment count is the number of entities with that sentiment (its multiplicity among the entities' sentiments); it is at most the number of entities, and zero exactly when no entity has that sentiment |
| `Response.CountsPartition` | app/api/analyze/route.ts:211-216 | the positive, negative and neutral counts add up to the number of entities |
| `Response.StatsOf` | app/api/analyze/route.ts:211-216 | totalEntities is the number of entities, each sentiment field is the number of entities with that sentiment, and the three add up to totalEntities |
| `Response.Respond` | app/api/analyze/route.ts:204-206 | the request is rejected exactly when the review is empty |
| `Response.Post` | app/api/analyze/route.ts:200-223 | the handler returns exactly the specified response |
| `Response.ResponseProperties` | app/api/analyze/route.ts:208-216 | an analysis has a binary label, confidence in [0.5, 0.98], pairwise-distinct well-formed entities, and stats that sum to the entity count |
| `Scenarios.MultiWordTermHidesActor` | app/api/analyze/route.ts:4 | in "protagonist actor" the multi-word ACTOR term matches and hides "actor" |

## Left out

- The page component (`app/page.tsx`) is left out: it is UI (state, the `fetch` call, icons and colours) with no analysis logic.
- The `POST` transport is left out: parsing the JSON body, `NextResponse`, and the 400 and 500 status codes. `Post` takes the review as a string and returns `InvalidReview` for the rejected case. A non-string or missing `review` cannot be expressed with a string parameter. The `catch` branch cannot be reached from the modelled code, which never fails.
- JavaScript double arithmetic is not modelled: the 0.3 weight, the ratio and the 1.15 boost are exact `real`s, so there is no rounding.
- `toLowerCase` and the regex `i` flag cover ASCII letters only. Other characters are left unchanged and compared exactly. `\b` uses the ASCII word characters `[A-Za-z0-9_]`, as JavaScript regexes without the `u` flag do.
- Matching.MatchesFrom: its ensures states only that each returned string is a whole-word match of some term. The leftmost-first, non-overlapping scan order is fixed by its definition and shown on one worked case (`Scenarios.MultiWordTermHidesActor`), not by a general lemma.
