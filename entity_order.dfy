/** The order of the returned entities within one category: the order in
    which the distinct lower-cased matches of the category's pattern first
    occur in the text. */
module EntityOrder {
  import opened Text
  import opened Lexicon
  import opened Matching
  import opened Dedup
  import opened Sentences
  import opened Entities
  import opened EntityProperties

  /** The position, among the matches of category `c`'s pattern in `text`,
      of the first match whose lower-cased form is `t`; -1 if there is none. */
  function FirstMatchWith(text: string, c: Category, t: string): int {
    IndexOfKey(PatternMatches(text, Terms(c)), Lower, t)
  }

  /** Within a category, the returned entities follow the order in which
      their texts first occur among the category's matches. */
  lemma ExtractedEntitiesMatchOrder(text: string)
    ensures forall i, j ::
              0 <= i < j < |ExtractedEntities(text)| && ExtractedEntities(text)[i].category == ExtractedEntities(text)[j].category ==>
              0 <= FirstMatchWith(text, ExtractedEntities(text)[i].category, ExtractedEntities(text)[i].text)
                 < FirstMatchWith(text, ExtractedEntities(text)[j].category, ExtractedEntities(text)[j].text)
  {
    var r := ExtractedEntities(text);
    forall i, j | 0 <= i < j < |r| && r[i].category == r[j].category
      ensures 0 <= FirstMatchWith(text, r[i].category, r[i].text) < FirstMatchWith(text, r[j].category, r[j].text)
    {
      PairOrder(text, i, j);
    }
  }

  /** Two returned entities of one category: each is the first pushed
      entity of its key, so each sits in the category's block at the place
      of the first unique match with its text, and those places are in
      the order of the first lower-cased occurrences. */
  lemma PairOrder(text: string, i: nat, j: nat)
    requires i < j < |ExtractedEntities(text)|
    requires ExtractedEntities(text)[i].category == ExtractedEntities(text)[j].category
    ensures 0 <= FirstMatchWith(text, ExtractedEntities(text)[i].category, ExtractedEntities(text)[i].text)
               < FirstMatchWith(text, ExtractedEntities(text)[j].category, ExtractedEntities(text)[j].text)
  {
    var r := ExtractedEntities(text);
    var xs := Candidates(text);
    var c := r[i].category;
    DedupByPositions(xs, EntityKey, i, j);
    var ai := IndexOfKey(xs, EntityKey, EntityKey(r[i]));
    var aj := IndexOfKey(xs, EntityKey, EntityKey(r[j]));
    CategoryBlockShape(text, c);
    var oi, pi := BlockPosition(text, SentencesOf(text), c, ai);
    var oj, pj := BlockPosition(text, SentencesOf(text), c, aj);
    OrderOfFirsts(PatternMatches(text, Terms(c)), pi, pj, r[i].text, r[j].text);
  }

  /** An entity of category `c` that is the first of its key among the
      pushed entities sits in `c`'s block, at the place of the first unique
      match with its text. */
  lemma BlockPosition(text: string, sentences: seq<string>, c: Category, a: int) returns (offset: nat, p: nat)
    requires BlockShape(CategoryCandidates(c, text, sentences), Distinct(PatternMatches(text, Terms(c))))
    requires 0 <= a < |CandidatesOver(CategoryOrder, text, sentences)|
    requires CandidatesOver(CategoryOrder, text, sentences)[a].category == c
    requires IndexOfKey(CandidatesOver(CategoryOrder, text, sentences), EntityKey,
                        EntityKey(CandidatesOver(CategoryOrder, text, sentences)[a])) == a
    ensures offset == |CandidatesOver(CategoryOrder[..Rank(c)], text, sentences)| && a == offset + p
    ensures p < |Distinct(PatternMatches(text, Terms(c)))|
    ensures Lower(Distinct(PatternMatches(text, Terms(c)))[p]) == CandidatesOver(CategoryOrder, text, sentences)[a].text
    ensures forall q | 0 <= q < p ::
              Lower(Distinct(PatternMatches(text, Terms(c)))[q]) != CandidatesOver(CategoryOrder, text, sentences)[a].text
  {
    var xs := CandidatesOver(CategoryOrder, text, sentences);
    var block := CategoryCandidates(c, text, sentences);
    offset := InCategoryBlock(text, sentences, c, a);
    p := a - offset;
    FirstInBlock(xs, offset, block, Distinct(PatternMatches(text, Terms(c))), a);
  }

  /** The pushed entities of category `c` form one contiguous block. */
  lemma InCategoryBlock(text: string, sentences: seq<string>, c: Category, a: int) returns (offset: nat)
    requires 0 <= a < |CandidatesOver(CategoryOrder, text, sentences)|
    requires CandidatesOver(CategoryOrder, text, sentences)[a].category == c
    ensures offset == |CandidatesOver(CategoryOrder[..Rank(c)], text, sentences)|
    ensures offset <= a < offset + |CategoryCandidates(c, text, sentences)| <= |CandidatesOver(CategoryOrder, text, sentences)|
    ensures forall q | 0 <= q < |CategoryCandidates(c, text, sentences)| ::
              CandidatesOver(CategoryOrder, text, sentences)[offset + q] == CategoryCandidates(c, text, sentences)[q]
  {
    var before := CandidatesOver(CategoryOrder[..Rank(c)], text, sentences);
    var after := CandidatesOver(CategoryOrder[Rank(c) + 1..], text, sentences);
    offset := |before|;
    BlockOf(c, text, sentences);
    OutsideBefore(c, text, sentences);
    OutsideAfter(c, text, sentences);
    LocateInBlock(CandidatesOver(CategoryOrder, text, sentences), before, CategoryCandidates(c, text, sentences), after, a, c, offset);
  }

  /** Where an entity of category `c` lies when only the middle part of
      the sequence holds entities of that category. */
  lemma LocateInBlock(xs: seq<Entity>, before: seq<Entity>, block: seq<Entity>, after: seq<Entity>, a: int, c: Category, offset: nat)
    requires xs == before + block + after && 0 <= a < |xs| && xs[a].category == c
    requires forall e | e in before :: e.category != c
    requires forall e | e in after :: e.category != c
    requires offset == |before|
    ensures offset <= a < offset + |block| <= |xs|
    ensures forall q | 0 <= q < |block| :: xs[offset + q] == block[q]
  {
    assert forall q | 0 <= q < offset :: xs[q] == before[q] && before[q] in before;
    assert forall q | offset + |block| <= q < |xs| :: xs[q] == after[q - offset - |block|] && after[q - offset - |block|] in after;
  }

  /** What the deduplication needs to know of one category's block `block`
      built from the unique matches `us`: one entity per match, carrying
      the match's lower-cased form, and matches that agree after
      lower-casing contribute the same entity. */
  predicate BlockShape(block: seq<Entity>, us: seq<string>) {
    |block| == |us|
    && (forall p | 0 <= p < |us| :: block[p].text == Lower(us[p]))
    && (forall p, q | 0 <= p < |us| && 0 <= q < |us| && Lower(us[p]) == Lower(us[q]) :: block[p] == block[q])
  }

  lemma CategoryBlockShape(text: string, c: Category)
    ensures BlockShape(CategoryCandidates(c, text, SentencesOf(text)), Distinct(PatternMatches(text, Terms(c))))
  {
    var ms := PatternMatches(text, Terms(c));
    if |ms| == 0 {
      assert Distinct(ms) == [];
    } else {
      UniqueMatchesHaveSentences(text, c);
      MatchBlockShape(c, Distinct(ms), SentencesOf(text));
    }
  }

  lemma MatchBlockShape(c: Category, us: seq<string>, sentences: seq<string>)
    requires forall q | 0 <= q < |us| :: |CandidateFor(c, us[q], sentences)| == 1
    ensures BlockShape(MatchCandidates(c, us, sentences), us)
  {
    var block := MatchCandidates(c, us, sentences);
    MatchCandidatesAll(c, us, sentences);
    forall p | 0 <= p < |us| ensures block[p].text == Lower(us[p]) {
      CandidateForFields(c, us[p], sentences);
      assert CandidateFor(c, us[p], sentences)[0] in CandidateFor(c, us[p], sentences);
    }
    forall p, q | 0 <= p < |us| && 0 <= q < |us| && Lower(us[p]) == Lower(us[q]) ensures block[p] == block[q] {
      CandidateDependsOnLower(c, us[p], us[q], sentences);
    }
  }

  /** In a block of that shape, an entity that is the first of its key is
      contributed by a match no earlier match agrees with after
      lower-casing. */
  lemma FirstInBlock(xs: seq<Entity>, offset: nat, block: seq<Entity>, us: seq<string>, a: nat)
    requires BlockShape(block, us)
    requires offset <= a < offset + |block| <= |xs| && forall q | 0 <= q < |block| :: xs[offset + q] == block[q]
    requires IndexOfKey(xs, EntityKey, EntityKey(xs[a])) == a
    ensures a - offset < |us| && Lower(us[a - offset]) == xs[a].text
    ensures forall q | 0 <= q < a - offset :: Lower(us[q]) != xs[a].text
  {
    assert block[a - offset] == xs[a];
    IndexOfKeyIsFirst(xs, EntityKey, EntityKey(xs[a]));
  }

  /** Every unique match of `c` contributes exactly one entity. */
  lemma UniqueMatchesHaveSentences(text: string, c: Category)
    ensures forall q | 0 <= q < |Distinct(PatternMatches(text, Terms(c)))| ::
              |CandidateFor(c, Distinct(PatternMatches(text, Terms(c)))[q], SentencesOf(text))| == 1
  {
    var us := Distinct(PatternMatches(text, Terms(c)));
    DedupByProperties(PatternMatches(text, Terms(c)), MatchKey);
    forall q | 0 <= q < |us| ensures |CandidateFor(c, us[q], SentencesOf(text))| == 1 {
      assert us[q] in us;
      MatchHasSentence(text, c, us[q]);
    }
  }

  /** The entity a match contributes depends on the match only through its
      lower-cased form. */
  lemma CandidateDependsOnLower(c: Category, m1: string, m2: string, sentences: seq<string>)
    ensures Lower(m1) == Lower(m2) ==> CandidateFor(c, m1, sentences) == CandidateFor(c, m2, sentences)
  {
    if Lower(m1) == Lower(m2) {
      CaseVariantsCollide(c, m1, m2, sentences);
    }
  }

  /** When every match contributes one entity, the entities are the
      matches' entities, position by position. */
  lemma {:induction false} MatchCandidatesAll(c: Category, us: seq<string>, sentences: seq<string>)
    requires forall q | 0 <= q < |us| :: |CandidateFor(c, us[q], sentences)| == 1
    ensures |MatchCandidates(c, us, sentences)| == |us|
    ensures forall p | 0 <= p < |us| :: MatchCandidates(c, us, sentences)[p] == CandidateFor(c, us[p], sentences)[0]
  {
    if us != [] {
      var init := us[..|us| - 1];
      forall q | 0 <= q < |init| ensures |CandidateFor(c, init[q], sentences)| == 1 {
        assert init[q] == us[q];
      }
      MatchCandidatesAll(c, init, sentences);
      MatchCandidatesLast(c, us, sentences);
    }
  }

  lemma MatchCandidatesLast(c: Category, us: seq<string>, sentences: seq<string>)
    requires us != [] && forall q | 0 <= q < |us| :: |CandidateFor(c, us[q], sentences)| == 1
    requires |MatchCandidates(c, us[..|us| - 1], sentences)| == |us| - 1
    requires forall p | 0 <= p < |us| - 1 :: MatchCandidates(c, us[..|us| - 1], sentences)[p] == CandidateFor(c, us[p], sentences)[0]
    ensures |MatchCandidates(c, us, sentences)| == |us|
    ensures forall p | 0 <= p < |us| :: MatchCandidates(c, us, sentences)[p] == CandidateFor(c, us[p], sentences)[0]
  {
  }

  /** Of two unique matches, the earlier one, when no earlier unique match
      shares its lower-cased form, has the earlier first lower-cased
      occurrence. */
  lemma OrderOfFirsts(ms: seq<string>, pi: nat, pj: nat, ti: string, tj: string)
    requires pi < pj < |Distinct(ms)|
    requires Lower(Distinct(ms)[pi]) == ti && forall q | 0 <= q < pi :: Lower(Distinct(ms)[q]) != ti
    requires Lower(Distinct(ms)[pj]) == tj && forall q | 0 <= q < pj :: Lower(Distinct(ms)[q]) != tj
    ensures 0 <= IndexOfKey(ms, Lower, ti) < IndexOfKey(ms, Lower, tj)
  {
    FirstOfLowered(ms, pi, ti);
    FirstOfLowered(ms, pj, tj);
    DedupByPositions(ms, MatchKey, pi, pj);
  }

  /** The unique match at `p` whose lower-cased form `t` no earlier unique
      match has is the first match with lower-cased form `t`. */
  lemma FirstOfLowered(ms: seq<string>, p: nat, t: string)
    requires p < |Distinct(ms)| && Lower(Distinct(ms)[p]) == t
    requires forall q | 0 <= q < p :: Lower(Distinct(ms)[q]) != t
    ensures 0 <= IndexOfKey(ms, MatchKey, Distinct(ms)[p]) == IndexOfKey(ms, Lower, t)
  {
    var us := Distinct(ms);
    DedupByProperties(ms, MatchKey);
    assert us[p] in us;
    var g := IndexOfKey(ms, MatchKey, us[p]);
    var f := IndexOfKey(ms, Lower, t);
    assert Lower(ms[g]) == t;
    IndexOfKeyIsFirst(ms, Lower, t);
    assert f <= g;
    var u := ms[f];
    IndexOfKeyIsFirst(ms, MatchKey, u);
    var gu := IndexOfKey(ms, MatchKey, u);
    assert gu == f;
    assert ms[gu] in us;
    var q :| 0 <= q < |us| && us[q] == ms[gu];
    assert Lower(us[q]) == t;
    assert p <= q;
    assert IndexOfKey(ms, MatchKey, MatchKey(us[q])) == f;
  }

  lemma {:induction false} CandidatesOverAppend(a: seq<Category>, b: seq<Category>, text: string, sentences: seq<string>)
    ensures CandidatesOver(a + b, text, sentences) == CandidatesOver(a, text, sentences) + CandidatesOver(b, text, sentences)
  {
    if b == [] {
      assert a + b == a;
    } else {
      var init := b[..|b| - 1];
      CandidatesOverAppend(a, init, text, sentences);
      InitOfAppend(a, b);
      AppendAssoc(CandidatesOver(a, text, sentences), CandidatesOver(init, text, sentences),
                  CategoryCandidates(b[|b| - 1], text, sentences));
    }
  }

  lemma InitOfAppend<T>(a: seq<T>, b: seq<T>)
    requires b != []
    ensures (a + b)[..|a + b| - 1] == a + b[..|b| - 1] && (a + b)[|a + b| - 1] == b[|b| - 1]
  {
  }

  /** The pushed entities are those of the categories before `c`, then
      `c`'s, then those of the categories after it. */
  lemma BlockOf(c: Category, text: string, sentences: seq<string>)
    ensures CandidatesOver(CategoryOrder, text, sentences)
         == CandidatesOver(CategoryOrder[..Rank(c)], text, sentences)
            + CategoryCandidates(c, text, sentences)
            + CandidatesOver(CategoryOrder[Rank(c) + 1..], text, sentences)
  {
    var k := Rank(c);
    var before, after := CategoryOrder[..k], CategoryOrder[k + 1..];
    assert CategoryOrder == before + [c] + after;
    CandidatesOverAppend(before + [c], after, text, sentences);
    CandidatesOverAppend(before, [c], text, sentences);
    assert [c][..0] == [];
  }

  /** No entity before `c`'s block has category `c`. */
  lemma OutsideBefore(c: Category, text: string, sentences: seq<string>)
    ensures forall e | e in CandidatesOver(CategoryOrder[..Rank(c)], text, sentences) :: e.category != c
  {
    var before := CategoryOrder[..Rank(c)];
    CandidatesOverCategories(before, text, sentences);
    forall e | e in CandidatesOver(before, text, sentences) ensures e.category != c {
      var i :| 0 <= i < |before| && before[i] == e.category;
      RankOfSlot(i);
    }
  }

  /** No entity after `c`'s block has category `c`. */
  lemma OutsideAfter(c: Category, text: string, sentences: seq<string>)
    ensures forall e | e in CandidatesOver(CategoryOrder[Rank(c) + 1..], text, sentences) :: e.category != c
  {
    var after := CategoryOrder[Rank(c) + 1..];
    CandidatesOverCategories(after, text, sentences);
    forall e | e in CandidatesOver(after, text, sentences) ensures e.category != c {
      var i :| 0 <= i < |after| && after[i] == e.category;
      RankOfSlot(Rank(c) + 1 + i);
    }
  }

  /** The categories in the declaration order are pairwise distinct. */
  lemma RankOfSlot(i: nat)
    requires i < |CategoryOrder|
    ensures Rank(CategoryOrder[i]) == i
  {
  }

  lemma {:induction false} CandidatesOverCategories(categories: seq<Category>, text: string, sentences: seq<string>)
    ensures forall e | e in CandidatesOver(categories, text, sentences) :: e.category in categories
  {
    if categories != [] {
      var init, last := categories[..|categories| - 1], categories[|categories| - 1];
      CandidatesOverCategories(init, text, sentences);
      var matches := PatternMatches(text, Terms(last));
      if |matches| > 0 {
        MatchCandidatesCategory(last, Distinct(matches), sentences);
      }
    }
  }

  lemma {:induction false} MatchCandidatesCategory(c: Category, ms: seq<string>, sentences: seq<string>)
    ensures forall e | e in MatchCandidates(c, ms, sentences) :: e.category == c
  {
    if ms != [] {
      MatchCandidatesCategory(c, ms[..|ms| - 1], sentences);
      CandidateForFields(c, ms[|ms| - 1], sentences);
    }
  }
}
