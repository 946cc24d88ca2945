/** Character classes and string primitives the analysis engine relies on:
    ASCII lower-casing, the regular-expression word boundary, whitespace
    trimming and substring search. */
module Text {

  /** A character of the regular-expression class `\w`, i.e. `[A-Za-z0-9_]`. */
  predicate IsWordChar(c: char) {
    ('a' <= c <= 'z') || ('A' <= c <= 'Z') || ('0' <= c <= '9') || c == '_'
  }

  /** `\b` at index `i` of `s`: exactly one of the characters on either side
      is a word character (outside the string counts as a non-word character). */
  predicate IsBoundary(s: string, i: int)
    requires 0 <= i <= |s|
  {
    (i > 0 && IsWordChar(s[i - 1])) != (i < |s| && IsWordChar(s[i]))
  }

  /** A sentence-terminal punctuation mark, `[.!?]`. */
  predicate IsTerminator(c: char) {
    c == '.' || c == '!' || c == '?'
  }

  /** The white space and line terminators that string trimming removes. */
  predicate IsSpace(c: char) {
    if c <= ' ' then c == ' ' || ('\t' <= c <= '\r')
    else if c < '\U{A0}' then false
    else
      c == '\U{A0}' || c == '\U{1680}' || ('\U{2000}' <= c <= '\U{200A}')
      || c == '\U{2028}' || c == '\U{2029}' || c == '\U{202F}' || c == '\U{205F}'
      || c == '\U{3000}' || c == '\U{FEFF}'
  }

  /** Lower-casing of one character, restricted to the ASCII letters. */
  function LowerChar(c: char): char {
    if 'A' <= c <= 'Z' then (c as int - 'A' as int + 'a' as int) as char else c
  }

  /** Lower-casing yields no upper-case letter, changes nothing but the
      upper-case letters, and keeps a character's class. */
  lemma LowerCharClasses(c: char)
    ensures !('A' <= LowerChar(c) <= 'Z')
    ensures !('A' <= c <= 'Z') ==> LowerChar(c) == c
    ensures IsWordChar(LowerChar(c)) == IsWordChar(c)
    ensures IsSpace(LowerChar(c)) == IsSpace(c)
    ensures IsTerminator(LowerChar(c)) == IsTerminator(c)
  {
  }

  /** Lower-casing, restricted to the ASCII letters. */
  function Lower(s: string): (r: string)
    ensures |r| == |s|
    ensures forall i :: 0 <= i < |s| ==> r[i] == LowerChar(s[i])
  {
    seq(|s|, i requires 0 <= i < |s| => LowerChar(s[i]))
  }

  predicate IsLower(s: string) {
    forall i :: 0 <= i < |s| ==> !('A' <= s[i] <= 'Z')
  }

  lemma LowerIsLower(s: string)
    ensures IsLower(Lower(s))
    ensures Lower(Lower(s)) == Lower(s)
  {
  }

  lemma LowerOfLowerString(s: string)
    requires IsLower(s)
    ensures Lower(s) == s
  {
  }

  lemma LowerSlice(s: string, a: int, b: int)
    requires 0 <= a <= b <= |s|
    ensures Lower(s[a..b]) == Lower(s)[a..b]
  {
  }

  /** `b` occurs in `a` starting at index `i`. */
  predicate OccursAt(a: string, b: string, i: int) {
    0 <= i && i + |b| <= |a| && a[i..i + |b|] == b
  }

  /** Substring test (`a.includes(b)`). */
  predicate Contains(a: string, b: string) {
    exists i | 0 <= i <= |a| - |b| :: OccursAt(a, b, i)
  }

  /** Case-folding both sides keeps an occurrence. */
  lemma ContainsLower(a: string, b: string)
    requires Contains(a, b)
    ensures Contains(Lower(a), Lower(b))
  {
    var i :| 0 <= i <= |a| - |b| && OccursAt(a, b, i);
    LowerSlice(a, i, i + |b|);
    assert OccursAt(Lower(a), Lower(b), i);
  }

  function TrimStart(s: string): (r: string)
    ensures |r| <= |s| && r == s[|s| - |r|..]
    ensures r == [] || !IsSpace(r[0])
    ensures forall i :: 0 <= i < |s| - |r| ==> IsSpace(s[i])
  {
    if |s| > 0 && IsSpace(s[0]) then TrimStart(s[1..]) else s
  }

  function TrimEnd(s: string): (r: string)
    ensures |r| <= |s| && r == s[..|r|]
    ensures r == [] || !IsSpace(r[|r| - 1])
    ensures forall i :: |r| <= i < |s| ==> IsSpace(s[i])
  {
    if |s| > 0 && IsSpace(s[|s| - 1]) then TrimEnd(s[..|s| - 1]) else s
  }

  /** `s.trim()`: removes leading and trailing white space. */
  function Trim(s: string): string {
    TrimEnd(TrimStart(s))
  }

  predicate IsTrimmed(s: string) {
    s == [] || (!IsSpace(s[0]) && !IsSpace(s[|s| - 1]))
  }

  predicate IsBlank(s: string) {
    forall i :: 0 <= i < |s| ==> IsSpace(s[i])
  }

  /** Trimming yields a trimmed infix of the input, and it is empty exactly
      when the input is all white space. */
  lemma TrimProperties(s: string)
    ensures IsTrimmed(Trim(s))
    ensures Trim(Trim(s)) == Trim(s)
    ensures exists a | 0 <= a <= |s| - |Trim(s)| :: OccursAt(s, Trim(s), a)
    ensures Trim(s) == [] <==> IsBlank(s)
  {
    var l := TrimStart(s);
    var r := TrimEnd(l);
    var a := |s| - |l|;
    TrimInfix(s, l, r, a);
    TrimmedIsTrimmed(l, r);
    TrimEmptyIffBlank(s, l, r);
  }

  lemma TrimEmptyIffBlank(s: string, l: string, r: string)
    requires l == TrimStart(s) && r == TrimEnd(l)
    ensures r == [] <==> IsBlank(s)
  {
    if r == [] {
      assert IsBlank(l);
      assert |l| == 0;
    } else {
      var a := |s| - |l|;
      assert s[a] == l[0];
    }
  }

  lemma TrimInfix(s: string, l: string, r: string, a: int)
    requires l == TrimStart(s) && r == TrimEnd(l) && a == |s| - |l|
    ensures 0 <= a <= |s| - |r| && OccursAt(s, r, a)
  {
    assert s[a..] == l;
    assert s[a..a + |r|] == l[..|r|];
  }

  lemma TrimmedIsTrimmed(l: string, r: string)
    requires r == TrimEnd(l) && (l == [] || !IsSpace(l[0]))
    ensures IsTrimmed(r) && TrimStart(r) == r && TrimEnd(r) == r
  {
    if r != [] {
      assert r[0] == l[0];
    }
  }

  /** A string holding a non-space character does not trim to nothing. */
  lemma NotBlankWhenNonSpace(s: string, i: int)
    requires 0 <= i < |s| && !IsSpace(s[i])
    ensures Trim(s) != []
  {
    TrimProperties(s);
  }

  /** An occurrence of a needle that starts and ends with a non-space
      character survives trimming the (lower-cased) haystack. */
  lemma ContainsAfterTrim(s: string, n: string)
    requires |n| > 0 && !IsSpace(n[0]) && !IsSpace(n[|n| - 1])
    requires Contains(Lower(s), n)
    ensures Contains(Lower(Trim(s)), n)
  {
    var i :| 0 <= i <= |s| - |n| && OccursAt(Lower(s), n, i);
    var l := TrimStart(s);
    var a := |s| - |l|;
    assert s[a..|s|] == l;
    InfixOccurrence(s, n, i, a, |s|);
    var r := TrimEnd(l);
    assert l[0..|r|] == r;
    InfixOccurrence(l, n, i - a, 0, |r|);
  }

  /** An occurrence at `i` lies inside `s[a..b]` when everything outside
      `s[a..b]` is white space and the needle's ends are not. */
  lemma InfixOccurrence(s: string, n: string, i: int, a: int, b: int)
    requires |n| > 0 && !IsSpace(n[0]) && !IsSpace(n[|n| - 1])
    requires 0 <= a <= b <= |s| && OccursAt(Lower(s), n, i)
    requires forall k :: 0 <= k < a ==> IsSpace(s[k])
    requires forall k :: b <= k < |s| ==> IsSpace(s[k])
    ensures a <= i && i + |n| <= b
    ensures OccursAt(Lower(s[a..b]), n, i - a)
    ensures Contains(Lower(s[a..b]), n)
  {
    assert Lower(s)[i] == n[0];
    assert Lower(s)[i + |n| - 1] == n[|n| - 1];
    LowerCharClasses(s[i]);
    LowerCharClasses(s[i + |n| - 1]);
    LowerSlice(s, a, b);
    assert Lower(s[a..b])[i - a..i - a + |n|] == Lower(s)[i..i + |n|];
    assert OccursAt(Lower(s[a..b]), n, i - a);
  }
}
