/** What the extractor guarantees about the entities it returns: their
    shape, the sentence each is attributed to, that no whole-word match is
    lost, that duplicates are gone and that the order is the category order. */
module EntityProperties {
  import opened Text
  import opened Options
  import opened Lexicon
  import opened Matching
  import opened Dedup
  import opened Sentences
  import opened SentenceScorer
  import opened Entities

  /** The shape every emitted entity has: lower-case text that is a
      well-formed term, and a non-empty trimmed context whose lower-cased
      form contains the text. */
  predicate WellFormedEntity(e: Entity) {
    && IsLower(e.text)
    && WellFormedTerm(e.text)
    && e.context != []
    && IsTrimmed(e.context)
    && Contains(Lower(e.context), e.text)
  }

  /** `e` is attributed to the FIRST sentence, in split order, whose
      lower-cased form contains the entity text; its context is that
      sentence trimmed and its sentiment that sentence's label. */
  predicate AttributedTo(e: Entity, sentences: seq<string>) {
    exists k | 0 <= k < |sentences| ::
      && Contains(Lower(sentences[k]), e.text)
      && (forall j :: 0 <= j < k ==> !Contains(Lower(sentences[j]), e.text))
      && e.context == Trim(sentences[k])
      && e.sentiment == SentenceSentiment(sentences[k])
  }

  lemma WellFormedTermFacts(t: string)
    requires WellFormedTerm(t)
    ensures IsLower(t) && Lower(t) == t
    ensures !IsSpace(t[0]) && !IsSpace(t[|t| - 1])
    ensures forall i :: 0 <= i < |t| ==> !IsTerminator(t[i])
  {
    LowerOfLowerString(t);
  }

  /** A match of a category's pattern lower-cases to one of its terms and
      occurs verbatim in the text. */
  lemma {:induction false} MatchIsTerm(text: string, terms: seq<string>, m: string)
    requires forall t | t in terms :: WellFormedTerm(t)
    requires m in PatternMatches(text, terms)
    ensures Lower(m) in terms && WellFormedTerm(Lower(m))
    ensures exists p :: OccursAt(text, m, p)
  {
    assert IsMatchIn(text, terms, m, 0);
    var p, k :| 0 <= p <= |text| && 0 <= k < |terms| && MatchesAt(text, terms[k], p) && m == text[p..p + |terms[k]|];
    WellFormedTermFacts(terms[k]);
    assert Lower(m) == terms[k];
    assert OccursAt(text, m, p);
  }

  /** The trimmed context of a sentence still contains a term found in it. */
  lemma TrimmedContext(n: string, s: string)
    requires WellFormedTerm(n) && Contains(Lower(s), n)
    ensures Trim(s) != [] && IsTrimmed(Trim(s)) && Contains(Lower(Trim(s)), n)
  {
    WellFormedTermFacts(n);
    TrimProperties(s);
    ContainsAfterTrim(s, n);
    var i :| 0 <= i <= |Lower(Trim(s))| - |n| && OccursAt(Lower(Trim(s)), n, i);
    assert |Trim(s)| > 0;
  }

  /** The entity a well-formed match contributes, if any, is well formed
      and attributed to the first sentence containing it. */
  lemma CandidateForSound(c: Category, m: string, sentences: seq<string>)
    requires WellFormedTerm(Lower(m))
    ensures forall e | e in CandidateFor(c, m, sentences) ::
              WellFormedEntity(e) && AttributedTo(e, sentences) && e.category == c && e.text == Lower(m)
  {
    var first := FirstContaining(sentences, Lower(m));
    if first.Some? {
      forall e | e in CandidateFor(c, m, sentences)
        ensures WellFormedEntity(e) && AttributedTo(e, sentences) && e.category == c && e.text == Lower(m)
      {
        CandidateForSomeSound(c, m, sentences, first.value, e);
      }
    } else {
      CandidateForNone(c, m, sentences);
    }
  }

  lemma CandidateForSomeSound(c: Category, m: string, sentences: seq<string>, k: nat, e: Entity)
    requires FirstContaining(sentences, Lower(m)) == Some(k)
    requires WellFormedTerm(Lower(m))
    requires e in CandidateFor(c, m, sentences)
    ensures WellFormedEntity(e) && AttributedTo(e, sentences) && e.category == c && e.text == Lower(m)
  {
    CandidateIs(c, m, sentences, k, e);
    LowerIsLower(m);
    EntityAtSound(c, Lower(m), sentences, k);
  }

  lemma CandidateIs(c: Category, m: string, sentences: seq<string>, k: nat, e: Entity)
    requires FirstContaining(sentences, Lower(m)) == Some(k)
    requires e in CandidateFor(c, m, sentences)
    ensures e == Entity(Lower(m), c, SentenceSentiment(sentences[k]), Trim(sentences[k]))
  {
    var pushed := CandidateFor(c, m, sentences);
    assert pushed == [] || pushed == [Entity(Lower(m), c, SentenceSentiment(sentences[k]), Trim(sentences[k]))] by {
      CandidateForAt(c, m, sentences, k);
    }
    assert pushed != [];
    assert e == pushed[0];
  }

  lemma CandidateForNone(c: Category, m: string, sentences: seq<string>)
    requires FirstContaining(sentences, Lower(m)).None?
    ensures CandidateFor(c, m, sentences) == []
  {
    assert ContainingSentence(sentences, m) == "";
    assert TrimStart("") == "" && TrimEnd("") == "";
  }

  lemma EntityAtSound(c: Category, n: string, sentences: seq<string>, k: nat)
    requires FirstContaining(sentences, n) == Some(k)
    requires WellFormedTerm(n) && IsLower(n)
    ensures WellFormedEntity(Entity(n, c, SentenceSentiment(sentences[k]), Trim(sentences[k])))
    ensures AttributedTo(Entity(n, c, SentenceSentiment(sentences[k]), Trim(sentences[k])), sentences)
  {
    FirstContainingFromSpec(sentences, n, 0);
    TrimmedContext(n, sentences[k]);
    AttributedToFirst(c, n, sentences, k);
  }

  lemma CandidateForAt(c: Category, m: string, sentences: seq<string>, k: nat)
    requires FirstContaining(sentences, Lower(m)) == Some(k)
    ensures CandidateFor(c, m, sentences)
         == if Trim(sentences[k]) != [] then [Entity(Lower(m), c, SentenceSentiment(sentences[k]), Trim(sentences[k]))] else []
  {
  }

  lemma AttributedToFirst(c: Category, n: string, sentences: seq<string>, k: nat)
    requires FirstContaining(sentences, n) == Some(k)
    ensures AttributedTo(Entity(n, c, SentenceSentiment(sentences[k]), Trim(sentences[k])), sentences)
  {
    FirstContainingFromSpec(sentences, n, 0);
  }

  /** The entities pushed for the matches `ms` of the alternation `terms`
      are well formed, attributed, and carry one of the terms as text. */
  lemma {:induction false} MatchCandidatesSound(c: Category, terms: seq<string>, ms: seq<string>, text: string, sentences: seq<string>)
    requires forall t | t in terms :: WellFormedTerm(t)
    requires forall m | m in ms :: m in PatternMatches(text, terms)
    ensures forall e | e in MatchCandidates(c, ms, sentences) ::
              WellFormedEntity(e) && AttributedTo(e, sentences) && e.category == c && e.text in terms
  {
    if ms != [] {
      var last := ms[|ms| - 1];
      MatchCandidatesSound(c, terms, ms[..|ms| - 1], text, sentences);
      MatchIsTerm(text, terms, last);
      CandidateForSound(c, last, sentences);
    }
  }

  lemma CategoryCandidatesSound(c: Category, text: string, sentences: seq<string>)
    ensures forall e | e in CategoryCandidates(c, text, sentences) ::
              WellFormedEntity(e) && AttributedTo(e, sentences) && e.category == c && e.text in Terms(c)
  {
    var terms := Terms(c);
    var matches := PatternMatches(text, terms);
    if |matches| > 0 {
      TermsWellFormed(c);
      DedupByProperties(matches, MatchKey);
      MatchCandidatesSound(c, terms, Distinct(matches), text, sentences);
    }
  }

  lemma {:induction false} CandidatesOverSound(categories: seq<Category>, text: string, sentences: seq<string>)
    ensures forall e | e in CandidatesOver(categories, text, sentences) ::
              WellFormedEntity(e) && AttributedTo(e, sentences) && e.category in categories && e.text in Terms(e.category)
  {
    if categories != [] {
      var init, last := categories[..|categories| - 1], categories[|categories| - 1];
      CandidatesOverSound(init, text, sentences);
      CategoryCandidatesSound(last, text, sentences);
    }
  }

  /** `e.text` is the lower-cased form of a whole-word match, in `text`, of
      the pattern of `e`'s category. */
  predicate FromMatch(e: Entity, text: string) {
    exists m | m in PatternMatches(text, Terms(e.category)) :: e.text == Lower(m)
  }

  /** The entity a match contributes, if any, carries the category and the
      lower-cased match. */
  lemma CandidateForFields(c: Category, m: string, sentences: seq<string>)
    ensures forall e | e in CandidateFor(c, m, sentences) :: e.category == c && e.text == Lower(m)
  {
  }

  lemma {:induction false} MatchCandidatesFromMatches(c: Category, ms: seq<string>, text: string, sentences: seq<string>)
    requires forall m | m in ms :: m in PatternMatches(text, Terms(c))
    ensures forall e | e in MatchCandidates(c, ms, sentences) :: e.category == c && FromMatch(e, text)
  {
    if ms != [] {
      var last := ms[|ms| - 1];
      MatchCandidatesFromMatches(c, ms[..|ms| - 1], text, sentences);
      CandidateForFields(c, last, sentences);
      assert last in ms;
    }
  }

  lemma {:induction false} CandidatesOverFromMatches(categories: seq<Category>, text: string, sentences: seq<string>)
    ensures forall e | e in CandidatesOver(categories, text, sentences) :: FromMatch(e, text)
  {
    if categories != [] {
      var c := categories[|categories| - 1];
      CandidatesOverFromMatches(categories[..|categories| - 1], text, sentences);
      var matches := PatternMatches(text, Terms(c));
      if |matches| > 0 {
        DedupByProperties(matches, MatchKey);
        MatchCandidatesFromMatches(c, Distinct(matches), text, sentences);
      }
    }
  }

  /** Every returned entity is well formed, its text is the lower-cased form
      of an actual whole-word match of its category's pattern (and one of
      that category's terms), and it is attributed to the first sentence of
      the text that contains it. */
  lemma ExtractedEntitiesSound(text: string)
    ensures forall e | e in ExtractedEntities(text) ::
              WellFormedEntity(e) && e.text in Terms(e.category) && FromMatch(e, text)
              && AttributedTo(e, SentencesOf(text))
  {
    CandidatesOverSound(CategoryOrder, text, SentencesOf(text));
    CandidatesOverFromMatches(CategoryOrder, text, SentencesOf(text));
    DedupByProperties(Candidates(text), EntityKey);
  }

  /** The returned entities have pairwise distinct (text, label, context)
      triples, and they are exactly the first occurrence of each triple
      among the pushed entities, in push order. */
  lemma ExtractedEntitiesDeduplicated(text: string)
    ensures forall i, j :: 0 <= i < j < |ExtractedEntities(text)| ==>
              EntityKey(ExtractedEntities(text)[i]) != EntityKey(ExtractedEntities(text)[j])
    ensures forall e | e in ExtractedEntities(text) :: e in Candidates(text)
              && Candidates(text)[IndexOfKey(Candidates(text), EntityKey, EntityKey(e))] == e
    ensures forall e | e in Candidates(text) ::
              Candidates(text)[IndexOfKey(Candidates(text), EntityKey, EntityKey(e))] in ExtractedEntities(text)
    ensures forall i, j :: 0 <= i < j < |ExtractedEntities(text)| ==>
              IndexOfKey(Candidates(text), EntityKey, EntityKey(ExtractedEntities(text)[i]))
              < IndexOfKey(Candidates(text), EntityKey, EntityKey(ExtractedEntities(text)[j]))
  {
    DedupByProperties(Candidates(text), EntityKey);
  }

  /** Two matches that differ only in case survive the case-sensitive set
      separately but contribute the same entity, which the final
      deduplication then collapses. */
  lemma CaseVariantsCollide(c: Category, m1: string, m2: string, sentences: seq<string>)
    requires Lower(m1) == Lower(m2)
    ensures CandidateFor(c, m1, sentences) == CandidateFor(c, m2, sentences)
  {
  }

  /** Categories never interleave: the entities pushed before deduplication
      are ordered by the declaration order of their categories. */
  lemma {:induction false} CandidatesOverOrdered(categories: seq<Category>, text: string, sentences: seq<string>)
    requires forall i, j :: 0 <= i < j < |categories| ==> Rank(categories[i]) < Rank(categories[j])
    ensures forall i, j :: 0 <= i < j < |CandidatesOver(categories, text, sentences)| ==>
              Rank(CandidatesOver(categories, text, sentences)[i].category)
              <= Rank(CandidatesOver(categories, text, sentences)[j].category)
  {
    if categories != [] {
      var init, last := categories[..|categories| - 1], categories[|categories| - 1];
      CandidatesOverOrdered(init, text, sentences);
      CandidatesOverSound(init, text, sentences);
      CategoryCandidatesSound(last, text, sentences);
      var a := CandidatesOver(init, text, sentences);
      var b := CategoryCandidates(last, text, sentences);
      var all := CandidatesOver(categories, text, sentences);
      assert all == a + b;
      forall i, j | 0 <= i < j < |all| ensures Rank(all[i].category) <= Rank(all[j].category) {
        if j >= |a| {
          assert all[j] in b;
          if i < |a| {
            assert all[i] in a;
            var k :| 0 <= k < |init| && init[k] == all[i].category;
            assert Rank(init[k]) < Rank(categories[|categories| - 1]);
          } else {
            assert all[i] in b;
          }
        }
      }
    }
  }

  lemma CategoryOrderIncreasing()
    ensures forall i, j :: 0 <= i < j < |CategoryOrder| ==> Rank(CategoryOrder[i]) < Rank(CategoryOrder[j])
  {
    forall i | 0 <= i < |CategoryOrder| ensures Rank(CategoryOrder[i]) == i {
    }
  }

  /** The returned entities are grouped by category, in declaration order. */
  lemma ExtractedEntitiesOrdered(text: string)
    ensures forall i, j :: 0 <= i < j < |ExtractedEntities(text)| ==>
              Rank(ExtractedEntities(text)[i].category) <= Rank(ExtractedEntities(text)[j].category)
  {
    var xs := Candidates(text);
    var r := ExtractedEntities(text);
    CategoryOrderIncreasing();
    CandidatesOverOrdered(CategoryOrder, text, SentencesOf(text));
    DedupByProperties(xs, EntityKey);
    forall i, j | 0 <= i < j < |r| ensures Rank(r[i].category) <= Rank(r[j].category) {
      assert r[i] in r && r[j] in r;
      var a := IndexOfKey(xs, EntityKey, EntityKey(r[i]));
      var b := IndexOfKey(xs, EntityKey, EntityKey(r[j]));
      assert xs[a] == r[i] && xs[b] == r[j] && a < b;
    }
  }

  /** A match never lies across a sentence boundary, so the lower-cased
      form of some sentence contains it. */
  lemma MatchInSomeSentence(text: string, terms: seq<string>, m: string)
    requires forall t | t in terms :: WellFormedTerm(t)
    requires m in PatternMatches(text, terms)
    ensures exists f | f in SentencesOf(text) :: Contains(Lower(f), Lower(m))
  {
    MatchIsTerm(text, terms, m);
    var n := Lower(m);
    WellFormedTermFacts(n);
    var p :| OccursAt(text, m, p);
    assert text[p..p + |m|] == m;
    forall j | 0 <= j < |m| ensures !IsTerminator(m[j]) {
      assert LowerChar(m[j]) == n[j];
    }
    assert LowerChar(text[p]) == n[0];
    SpanInSentence(text, p, |m|, p);
    var sentences := SentencesOf(text);
    var f :| f in sentences && Contains(f, m);
    ContainsLower(f, m);
  }

  /** The search for a containing sentence succeeds when one exists. */
  lemma FirstContainingFound(sentences: seq<string>, n: string, f: string)
    requires f in sentences && Contains(Lower(f), n)
    ensures FirstContaining(sentences, n).Some?
  {
    FirstContainingFromSpec(sentences, n, 0);
    var k :| 0 <= k < |sentences| && sentences[k] == f;
  }

  /** Hence every match contributes exactly one entity: the discard branch
      for a match without a sentence is never taken. */
  lemma MatchHasSentence(text: string, c: Category, m: string)
    requires m in PatternMatches(text, Terms(c))
    ensures FirstContaining(SentencesOf(text), Lower(m)).Some?
    ensures |CandidateFor(c, m, SentencesOf(text))| == 1
  {
    TermsWellFormed(c);
    MatchInSomeSentence(text, Terms(c), m);
    var sentences := SentencesOf(text);
    var f :| f in sentences && Contains(Lower(f), Lower(m));
    FirstContainingFound(sentences, Lower(m), f);
    var first := FirstContaining(sentences, Lower(m));
    CandidateForAt(c, m, sentences, first.value);
  }

  lemma {:induction false} MatchCandidatesComplete(c: Category, ms: seq<string>, sentences: seq<string>, m: string)
    requires m in ms && |CandidateFor(c, m, sentences)| == 1
    ensures CandidateFor(c, m, sentences)[0] in MatchCandidates(c, ms, sentences)
  {
    var init := ms[..|ms| - 1];
    assert MatchCandidates(c, ms, sentences) == MatchCandidates(c, init, sentences) + CandidateFor(c, ms[|ms| - 1], sentences);
    if m in init {
      MatchCandidatesComplete(c, init, sentences, m);
    } else {
      assert m == ms[|ms| - 1];
    }
  }

  lemma {:induction false} CandidatesOverComplete(categories: seq<Category>, c: Category, text: string, e: Entity)
    requires c in categories && e in CategoryCandidates(c, text, SentencesOf(text))
    ensures e in CandidatesOver(categories, text, SentencesOf(text))
  {
    var init := categories[..|categories| - 1];
    if c in init {
      CandidatesOverComplete(init, c, text, e);
    } else {
      assert c == categories[|categories| - 1];
    }
  }

  /** Nothing the patterns match is lost: for every match of a category's
      pattern in the text, the result holds an entity of that category
      whose text is the lower-cased match. */
  lemma EveryMatchReported(text: string, c: Category, m: string)
    requires m in PatternMatches(text, Terms(c))
    ensures exists e | e in ExtractedEntities(text) :: e.text == Lower(m) && e.category == c
  {
    var e := MatchPushed(text, c, m);
    var xs := Candidates(text);
    DedupByProperties(xs, EntityKey);
    var kept := xs[IndexOfKey(xs, EntityKey, EntityKey(e))];
    assert kept in ExtractedEntities(text) && EntityKey(kept) == EntityKey(e);
    NameInjective(kept.category, e.category);
  }

  /** The entity a match contributes is among the pushed entities. */
  lemma MatchPushed(text: string, c: Category, m: string) returns (e: Entity)
    requires m in PatternMatches(text, Terms(c))
    ensures e in Candidates(text) && e.text == Lower(m) && e.category == c
  {
    var sentences := SentencesOf(text);
    var matches := PatternMatches(text, Terms(c));
    DedupByProperties(matches, MatchKey);
    assert matches[IndexOfKey(matches, MatchKey, MatchKey(m))] == m;
    MatchHasSentence(text, c, m);
    MatchCandidatesComplete(c, Distinct(matches), sentences, m);
    e := CandidateFor(c, m, sentences)[0];
    CandidateIs(c, m, sentences, FirstContaining(sentences, Lower(m)).value, e);
    assert c in CategoryOrder by {
      assert CategoryOrder[Rank(c)] == c;
    }
    CandidatesOverComplete(CategoryOrder, c, text, e);
  }

  lemma {:induction false} CandidatesOverNoMatches(categories: seq<Category>, text: string, sentences: seq<string>)
    requires forall c :: PatternMatches(text, Terms(c)) == []
    ensures CandidatesOver(categories, text, sentences) == []
  {
    if categories != [] {
      CandidatesOverNoMatches(categories[..|categories| - 1], text, sentences);
    }
  }

  /** A text without word characters, the empty text among them, yields
      no entity. */
  lemma NoEntitiesWithoutWordChars(text: string)
    requires forall j :: 0 <= j < |text| ==> !IsWordChar(text[j])
    ensures ExtractedEntities(text) == []
  {
    forall c ensures PatternMatches(text, Terms(c)) == [] {
      NoMatchesWithoutWordChars(text, Terms(c), 0);
    }
    CandidatesOverNoMatches(CategoryOrder, text, SentencesOf(text));
  }
}
