/** Sentence segmentation: `text.split(/[.!?]+/).filter(s => s.trim())`. */
module Sentences {
  import opened Text

  predicate NoTerminator(s: string) {
    forall j :: 0 <= j < |s| ==> !IsTerminator(s[j])
  }

  /** The first terminator at or after `i`, or `|s|` if there is none. */
  function NextTerminator(s: string, i: nat): (k: nat)
    requires i <= |s|
    ensures i <= k <= |s|
    ensures forall j :: i <= j < k ==> !IsTerminator(s[j])
    ensures k < |s| ==> IsTerminator(s[k])
    decreases |s| - i
  {
    if i == |s| || IsTerminator(s[i]) then i else NextTerminator(s, i + 1)
  }

  /** The end of the run of terminators that starts at `i`. */
  function RunEnd(s: string, i: nat): (k: nat)
    requires i <= |s|
    ensures i <= k <= |s|
    ensures forall j :: i <= j < k ==> IsTerminator(s[j])
    ensures k < |s| ==> !IsTerminator(s[k])
    decreases |s| - i
  {
    if i < |s| && IsTerminator(s[i]) then RunEnd(s, i + 1) else i
  }

  /** The fragments between maximal runs of terminators, empty ones
      included (a leading or trailing run yields an empty fragment). */
  function Split(s: string): (r: seq<string>)
    ensures |r| >= 1
    ensures forall f | f in r :: NoTerminator(f)
    decreases |s|
  {
    var k := NextTerminator(s, 0);
    if k == |s| then [s]
    else
      var e := RunEnd(s, k);
      [s[..k]] + Split(s[e..])
  }

  /** Where each fragment of `Split(s)` starts in `s`. */
  function SplitStarts(s: string): (r: seq<nat>)
    decreases |s|
  {
    var k := NextTerminator(s, 0);
    if k == |s| then [0]
    else
      var e := RunEnd(s, k);
      [0] + Shift(SplitStarts(s[e..]), e)
  }

  /** Every offset moved right by `e`. */
  function Shift(starts: seq<nat>, e: nat): (r: seq<nat>)
    ensures |r| == |starts| && forall i :: 0 <= i < |starts| ==> r[i] == starts[i] + e
  {
    seq(|starts|, i requires 0 <= i < |starts| => starts[i] + e)
  }

  /** `f` is the text of `s` at offset `a`. */
  predicate PlacedAt(s: string, f: string, a: nat) {
    a + |f| <= |s| && s[a..a + |f|] == f
  }

  /** `s[a..b]` consists of terminators only. */
  predicate TerminatorRun(s: string, a: nat, b: nat)
    requires a <= b <= |s|
  {
    forall j | a <= j < b :: IsTerminator(s[j])
  }

  /** `fragments`, placed at `starts`, tile `s`: the first starts at 0, the
      last ends at the end of `s`, each is the text at its place, and
      consecutive fragments are separated by a non-empty run of terminators
      and nothing else. */
  predicate Tiles(s: string, fragments: seq<string>, starts: seq<nat>) {
    && |starts| == |fragments| >= 1
    && starts[0] == 0
    && starts[|starts| - 1] + |fragments[|fragments| - 1]| == |s|
    && (forall i | 0 <= i < |fragments| :: PlacedAt(s, fragments[i], starts[i]))
    && (forall i | 0 <= i < |fragments| - 1 :: Separated(s, fragments, starts, i))
  }

  /** Fragment `i` and fragment `i + 1` are separated by a non-empty run of
      terminators. */
  predicate Separated(s: string, fragments: seq<string>, starts: seq<nat>, i: nat)
    requires i + 1 < |fragments| == |starts|
  {
    starts[i] + |fragments[i]| < starts[i + 1] <= |s| && TerminatorRun(s, starts[i] + |fragments[i]|, starts[i + 1])
  }

  /** The split fragments, together with their terminator-free contents,
      rebuild the text: the text is the fragments in order, joined by the
      maximal terminator runs. */
  lemma {:induction false} SplitTiles(s: string)
    ensures Tiles(s, Split(s), SplitStarts(s))
    decreases |s|
  {
    var k := NextTerminator(s, 0);
    if k == |s| {
      assert s[0..|s|] == s;
    } else {
      var e := RunEnd(s, k);
      SplitTiles(s[e..]);
      TilesStep(s, k, e, Split(s[e..]), SplitStarts(s[e..]));
    }
  }

  /** A fragment, a run of terminators and a tiling of the rest tile the
      whole. */
  lemma TilesStep(s: string, k: nat, e: nat, fs: seq<string>, ss: seq<nat>)
    requires k < e <= |s| && TerminatorRun(s, k, e)
    requires Tiles(s[e..], fs, ss)
    ensures Tiles(s, [s[..k]] + fs, [0] + Shift(ss, e))
  {
    var rest := s[e..];
    var fragments := [s[..k]] + fs;
    var starts := [0] + Shift(ss, e);
    forall i | 0 <= i < |fragments|
      ensures PlacedAt(s, fragments[i], starts[i])
    {
      if i > 0 {
        assert fragments[i] == fs[i - 1] && starts[i] == ss[i - 1] + e;
        assert PlacedAt(rest, fs[i - 1], ss[i - 1]);
        ShiftedSlice(s, e, ss[i - 1], |fs[i - 1]|);
      } else {
        assert s[0..k] == s[..k];
      }
    }
    forall i | 0 <= i < |fragments| - 1
      ensures Separated(s, fragments, starts, i)
    {
      if i > 0 {
        assert fragments[i] == fs[i - 1] && starts[i] == ss[i - 1] + e && starts[i + 1] == ss[i] + e;
        assert Separated(rest, fs, ss, i - 1);
        ShiftedRun(s, e, ss[i - 1] + |fs[i - 1]|, ss[i]);
      }
    }
  }

  lemma ShiftedRun(s: string, e: nat, a: nat, b: nat)
    requires e <= |s| && a <= b <= |s| - e
    requires TerminatorRun(s[e..], a, b)
    ensures TerminatorRun(s, a + e, b + e)
  {
    forall j | a + e <= j < b + e ensures IsTerminator(s[j]) {
      assert s[j] == s[e..][j - e];
    }
  }

  lemma ShiftedSlice(s: string, e: nat, a: nat, n: nat)
    requires e <= |s| && a + n <= |s| - e
    ensures s[e..][a..a + n] == s[a + e..a + e + n]
  {
  }

  /** The fragments that are not blank, kept untrimmed. */
  function NonBlank(fragments: seq<string>): (r: seq<string>)
    ensures |r| <= |fragments|
  {
    if fragments == [] then []
    else
      var rest := NonBlank(fragments[1..]);
      if Trim(fragments[0]) != [] then [fragments[0]] + rest else rest
  }

  /** The filter keeps exactly the fragments that do not trim to nothing. */
  lemma {:induction false} NonBlankMembers(fragments: seq<string>)
    ensures forall f | f in NonBlank(fragments) :: f in fragments && Trim(f) != []
    ensures forall f | f in fragments && Trim(f) != [] :: f in NonBlank(fragments)
  {
    if fragments != [] {
      NonBlankMembers(fragments[1..]);
      assert fragments == [fragments[0]] + fragments[1..];
    }
  }

  /** The filter keeps a single fragment exactly when it is not blank. */
  lemma NonBlankSingle(f: string)
    ensures NonBlank([f]) == if Trim(f) != [] then [f] else []
  {
    assert [f][1..] == [];
  }

  /** The filter distributes over concatenation, so it keeps the non-blank
      fragments in their order and with their repeats. */
  lemma {:induction false} NonBlankAppend(a: seq<string>, b: seq<string>)
    ensures NonBlank(a + b) == NonBlank(a) + NonBlank(b)
  {
    if a != [] {
      var head := if Trim(a[0]) != [] then [a[0]] else [];
      assert (a + b)[0] == a[0] && (a + b)[1..] == a[1..] + b;
      assert NonBlank(a + b) == head + NonBlank(a[1..] + b);
      assert NonBlank(a) == head + NonBlank(a[1..]);
      NonBlankAppend(a[1..], b);
    } else {
      assert a + b == b;
    }
  }

  function SentencesOf(text: string): (r: seq<string>)
    ensures forall f | f in r :: Trim(f) != [] && NoTerminator(f)
  {
    NonBlankMembers(Split(text));
    NonBlank(Split(text))
  }

  /** A stretch of the text without terminators lies inside one fragment. */
  lemma {:induction false} SpanInFragment(s: string, p: nat, len: nat)
    requires 0 < len && p + len <= |s| && NoTerminator(s[p..p + len])
    ensures exists f | f in Split(s) :: Contains(f, s[p..p + len])
    decreases |s|
  {
    var k := NextTerminator(s, 0);
    var piece := s[p..p + len];
    if k == |s| {
      assert OccursAt(s, piece, p);
      assert s in Split(s);
    } else if p + len <= k {
      assert s[..k][p..p + len] == piece;
      assert OccursAt(s[..k], piece, p);
      assert s[..k] in Split(s);
    } else {
      assert forall j :: p <= j < p + len ==> s[j] == piece[j - p];
      assert p > k;
      var e := RunEnd(s, k);
      assert piece[0] == s[p];
      assert p >= e;
      var rest := s[e..];
      assert rest[p - e..p - e + len] == piece;
      SpanInFragment(rest, p - e, len);
      var f :| f in Split(rest) && Contains(f, piece);
      assert f in Split(s);
    }
  }

  /** Hence a terminator-free stretch holding a non-space character lies
      inside one of the sentences. */
  lemma SpanInSentence(text: string, p: nat, len: nat, q: nat)
    requires p + len <= |text| && NoTerminator(text[p..p + len])
    requires p <= q < p + len && !IsSpace(text[q])
    ensures exists f | f in SentencesOf(text) :: Contains(f, text[p..p + len])
  {
    assert 0 < len;
    SpanInFragment(text, p, len);
    var piece := text[p..p + len];
    var f :| f in Split(text) && Contains(f, piece);
    var i :| 0 <= i <= |f| - |piece| && OccursAt(f, piece, i);
    assert f[i + q - p] == piece[q - p] == text[q];
    NotBlankWhenNonSpace(f, i + q - p);
    NonBlankMembers(Split(text));
    assert f in SentencesOf(text);
  }
}
