/** Whole-word, case-insensitive matching of term alternations, in the way a
    global regular expression `\b(t1|...|tn)\b` with flags `gi` scans a
    string: leftmost first, alternatives tried in order, and the scan resumes
    after each match, so matches never overlap. */
module Matching {
  import opened Text
  import opened Options

  /** Term `t` matches case-insensitively at index `i` of `s`, with a word
      boundary on both sides. */
  predicate MatchesAt(s: string, t: string, i: int) {
    && 0 <= i && i + |t| <= |s|
    && IsBoundary(s, i)
    && Lower(s[i..i + |t|]) == Lower(t)
    && IsBoundary(s, i + |t|)
  }

  /** The first alternative, from index `k` on, that matches at `i`. */
  function FirstAlternative(s: string, terms: seq<string>, i: int, k: nat): (r: Option<nat>)
    requires k <= |terms|
    ensures r.Some? ==> k <= r.value < |terms| && MatchesAt(s, terms[r.value], i)
    ensures r.Some? ==> forall j :: k <= j < r.value ==> !MatchesAt(s, terms[j], i)
    ensures r.None? ==> forall j :: k <= j < |terms| ==> !MatchesAt(s, terms[j], i)
    decreases |terms| - k
  {
    if k == |terms| then None
    else if MatchesAt(s, terms[k], i) then Some(k)
    else FirstAlternative(s, terms, i, k + 1)
  }

  /** `m` is the text of a match of one of `terms` in `s` at or after `i`. */
  predicate IsMatchIn(s: string, terms: seq<string>, m: string, i: int) {
    exists p, k | i <= p <= |s| && 0 <= k < |terms| ::
      MatchesAt(s, terms[k], p) && m == s[p..p + |terms[k]|]
  }

  /** The matched substrings, in their original casing, of a global scan
      that starts at index `i`. */
  function MatchesFrom(s: string, terms: seq<string>, i: int): (r: seq<string>)
    requires 0 <= i <= |s|
    ensures forall m | m in r :: IsMatchIn(s, terms, m, i)
    decreases |s| - i
  {
    match FirstAlternative(s, terms, i, 0)
    case Some(k) =>
      var e := i + |terms[k]|;
      var next := if e == i then i + 1 else e;
      var rest := if next <= |s| then MatchesFrom(s, terms, next) else [];
      assert IsMatchIn(s, terms, s[i..e], i);
      assert forall m | m in rest :: IsMatchIn(s, terms, m, i);
      [s[i..e]] + rest
    case None =>
      var rest := if i < |s| then MatchesFrom(s, terms, i + 1) else [];
      assert forall m | m in rest :: IsMatchIn(s, terms, m, i);
      rest
  }

  /** `s.match(pattern)` for the alternation of `terms`; an empty result
      stands for the `null` of no match. */
  function PatternMatches(s: string, terms: seq<string>): seq<string> {
    MatchesFrom(s, terms, 0)
  }

  /** `s.match(new RegExp("\\b" + w + "\\b", "gi"))`. */
  function WordMatches(s: string, w: string): seq<string> {
    MatchesFrom(s, [w], 0)
  }

  /** Number of whole-word occurrences of cue `w` in `s`. */
  function CountWord(s: string, w: string): nat {
    |WordMatches(s, w)|
  }

  /** Occurrences of all cues of `words`, a cue listed twice counting twice. */
  function SumCounts(words: seq<string>, s: string): nat {
    if words == [] then 0
    else SumCounts(words[..|words| - 1], s) + CountWord(s, words[|words| - 1])
  }

  /** `words` with every copy of `w` removed. */
  function Without(words: seq<string>, w: string): (r: seq<string>)
    ensures w !in r
    ensures forall x | x in words && x != w :: x in r
    ensures forall x | x in r :: x in words
  {
    if words == [] then []
    else
      var last := words[|words| - 1];
      Without(words[..|words| - 1], w) + (if last == w then [] else [last])
  }

  /** A cue listed `n` times contributes `n` times its occurrence count. */
  lemma {:induction false} SumCountsSplit(words: seq<string>, w: string, s: string)
    ensures SumCounts(words, s) == SumCounts(Without(words, w), s) + multiset(words)[w] * CountWord(s, w)
  {
    if words != [] {
      var init := words[..|words| - 1];
      var last := words[|words| - 1];
      assert words == init + [last];
      SumCountsSplit(init, w, s);
      var rest := Without(init, w);
      var n := multiset(init)[w];
      var c := CountWord(s, w);
      assert SumCounts(words, s) == SumCounts(init, s) + CountWord(s, last);
      if last == w {
        assert Without(words, w) == rest;
        assert multiset(words)[w] == n + 1;
        MulSucc(n, c);
      } else {
        var r := rest + [last];
        assert Without(words, w) == r;
        assert r[..|r| - 1] == rest;
        assert SumCounts(r, s) == SumCounts(rest, s) + CountWord(s, last);
        assert multiset(words)[w] == n;
      }
    }
  }

  lemma MulSucc(n: nat, c: nat)
    ensures (n + 1) * c == n * c + c
  {
  }

  /** No cue occurs in a string without word characters, the empty string
      among them. */
  lemma {:induction false} NoMatchesWithoutWordChars(s: string, terms: seq<string>, i: int)
    requires 0 <= i <= |s|
    requires forall j :: 0 <= j < |s| ==> !IsWordChar(s[j])
    ensures MatchesFrom(s, terms, i) == []
    decreases |s| - i
  {
    assert !IsBoundary(s, i);
    if i < |s| {
      NoMatchesWithoutWordChars(s, terms, i + 1);
    }
  }

  lemma {:induction false} SumCountsWithoutWordChars(words: seq<string>, s: string)
    requires forall j :: 0 <= j < |s| ==> !IsWordChar(s[j])
    ensures SumCounts(words, s) == 0
  {
    if words != [] {
      NoMatchesWithoutWordChars(s, [words[|words| - 1]], 0);
      SumCountsWithoutWordChars(words[..|words| - 1], s);
    }
  }
}
