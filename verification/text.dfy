/** The JavaScript string operations the core relies on: `includes`, the first
    two pieces of `split`, and `trim`. A string is a sequence of Unicode
    scalar values compared by value; unpaired UTF-16 surrogates, which a
    JavaScript string may hold, are not represented. */
module Text {
  import opened Wrappers

  /** `pat` occurs in `s` starting at index `i`. */
  predicate OccursAt(s: string, pat: string, i: nat) {
    i + |pat| <= |s| && s[i..i + |pat|] == pat
  }

  /** The first occurrence of `pat` in `s` at or after `from` (`s.indexOf(pat, from)`). */
  function IndexFrom(s: string, pat: string, from: nat): (r: Option<nat>)
    ensures r.Some? ==> from <= r.value && OccursAt(s, pat, r.value)
    ensures forall j: nat :: from <= j && (r.None? || j < r.value) ==> !OccursAt(s, pat, j)
    decreases |s| - from
  {
    if from + |pat| > |s| then None
    else if s[from..from + |pat|] == pat then Some(from)
    else IndexFrom(s, pat, from + 1)
  }

  /** `s.indexOf(pat)`, with None for -1. */
  function IndexOf(s: string, pat: string): (r: Option<nat>)
    ensures r.Some? ==> OccursAt(s, pat, r.value)
    ensures forall j: nat :: (r.None? || j < r.value) ==> !OccursAt(s, pat, j)
  {
    IndexFrom(s, pat, 0)
  }

  /** `s.includes(pat)`: true exactly when `pat` occurs somewhere in `s`. */
  predicate Contains(s: string, pat: string)
    ensures Contains(s, pat) <==> exists i: nat :: OccursAt(s, pat, i)
  {
    IndexOf(s, pat).Some?
  }

  /** `s.split(sep)[0]`: the text before the first occurrence of `sep`, or all of `s`. */
  function BeforeFirst(s: string, sep: string): (r: string)
    requires |sep| > 0
    ensures |r| <= |s| && r == s[..|r|]
    ensures forall j: nat :: j < |r| ==> !OccursAt(s, sep, j)
    ensures |r| == |s| || OccursAt(s, sep, |r|)
  {
    match IndexOf(s, sep)
    case None => s
    case Some(i) => s[..i]
  }

  /** `s.split(sep)[1]` for an `s` that contains `sep`: the text between the first
      occurrence of `sep` and the next one (or the end of `s`). */
  function SecondPiece(s: string, sep: string): (r: string)
    requires |sep| > 0 && Contains(s, sep)
    ensures var i := IndexOf(s, sep).value;
      var rest := s[i + |sep|..];
      && |r| <= |rest| && r == rest[..|r|]
      && (forall j: nat :: j < |r| ==> !OccursAt(rest, sep, j))
      && (|r| == |rest| || OccursAt(rest, sep, |r|))
  {
    var i := IndexOf(s, sep).value;
    BeforeFirst(s[i + |sep|..], sep)
  }

  /** The text after the first occurrence of `sep`, or "" when there is none. */
  function AfterFirst(s: string, sep: string): (r: string)
    requires |sep| > 0
    ensures Contains(s, sep) ==> s == BeforeFirst(s, sep) + sep + r
    ensures !Contains(s, sep) ==> r == ""
  {
    match IndexOf(s, sep)
    case None => ""
    case Some(i) => s[i + |sep|..]
  }

  /** The characters `String.prototype.trim` removes: WhiteSpace and
      LineTerminator of ECMA-262 (TAB, VT, FF, ZWNBSP, the space separators,
      LF, CR, LS, PS). */
  predicate IsWhitespace(c: char) {
    || c == '\t' || c == '\n' || c == '\U{000B}' || c == '\U{000C}' || c == '\r'
    || c == ' ' || c == '\U{00A0}' || c == '\U{1680}'
    || ('\U{2000}' <= c <= '\U{200A}')
    || c == '\U{2028}' || c == '\U{2029}' || c == '\U{202F}' || c == '\U{205F}'
    || c == '\U{3000}' || c == '\U{FEFF}'
  }

  /** Drops the leading whitespace: what is dropped is all whitespace and
      what is kept does not start with whitespace. */
  function TrimStart(s: string): (r: string)
    ensures |r| <= |s| && r == s[|s| - |r|..]
    ensures forall i :: 0 <= i < |s| - |r| ==> IsWhitespace(s[i])
    ensures r == [] || !IsWhitespace(r[0])
  {
    if s != [] && IsWhitespace(s[0]) then
      var r := TrimStart(s[1..]);
      assert forall i :: 1 <= i < |s| ==> s[i] == s[1..][i - 1];
      r
    else s
  }

  /** Drops the trailing whitespace: what is dropped is all whitespace and
      what is kept does not end with whitespace. */
  function TrimEnd(s: string): (r: string)
    ensures |r| <= |s| && r == s[..|r|]
    ensures forall i :: |r| <= i < |s| ==> IsWhitespace(s[i])
    ensures r == [] || !IsWhitespace(r[|r| - 1])
  {
    if s != [] && IsWhitespace(s[|s| - 1]) then TrimEnd(s[..|s| - 1]) else s
  }

  /** `r` is the infix of `s` starting at `a`, and everything around it is whitespace. */
  predicate PaddedAt(s: string, r: string, a: nat) {
    && a + |r| <= |s| && r == s[a..a + |r|]
    && (forall i :: 0 <= i < a ==> IsWhitespace(s[i]))
    && (forall i :: a + |r| <= i < |s| ==> IsWhitespace(s[i]))
  }

  /** `s.trim()`. */
  function Trim(s: string): string {
    TrimEnd(TrimStart(s))
  }

  /** `!s.trim()`: the string is empty after trimming. */
  predicate IsBlank(s: string) {
    Trim(s) == ""
  }

  /** Trimming drops only whitespace around the infix of `s` it leaves. */
  lemma TrimDropsPadding(s: string)
    ensures exists a: nat :: PaddedAt(s, Trim(s), a)
  {
    var t := TrimStart(s);
    PaddedBehind(s, t, TrimEnd(t));
    assert PaddedAt(s, Trim(s), |s| - |t|);
  }

  /** What trimming leaves neither starts nor ends with whitespace. */
  lemma TrimmedEnds(s: string)
    ensures Trim(s) == [] || (!IsWhitespace(Trim(s)[0]) && !IsWhitespace(Trim(s)[|Trim(s)| - 1]))
  {
    var t := TrimStart(s);
    var r := TrimEnd(t);
    if r != [] {
      assert r[0] == t[0];
    }
  }

  /** A prefix `r` of a suffix `t` of `s` is padded in `s` when the text
      before `t` and the text after `r` in `t` are whitespace. */
  lemma PaddedBehind(s: string, t: string, r: string)
    requires |t| <= |s| && t == s[|s| - |t|..]
    requires forall i :: 0 <= i < |s| - |t| ==> IsWhitespace(s[i])
    requires |r| <= |t| && r == t[..|r|]
    requires forall i :: |r| <= i < |t| ==> IsWhitespace(t[i])
    ensures PaddedAt(s, r, |s| - |t|)
  {
    var a := |s| - |t|;
    assert t == s[a..] && r == t[..|r|];
    assert r == s[a..a + |r|];
    forall i | a + |r| <= i < |s|
      ensures IsWhitespace(s[i])
    {
      assert s[i] == t[i - a];
    }
  }

  /** Every character of `s` is whitespace (vacuously so for ""). */
  predicate WhitespaceOnly(s: string) {
    forall i :: 0 <= i < |s| ==> IsWhitespace(s[i])
  }

  /** A string is blank exactly when every character of it is whitespace. */
  lemma BlankIffAllWhitespace(s: string)
    ensures IsBlank(s) <==> WhitespaceOnly(s)
  {
    TrimDropsPadding(s);
    TrimmedEnds(s);
  }

  /** Text placed after some other text keeps its occurrences, shifted. */
  lemma OccursInSuffix(a: string, b: string, pat: string, i: nat)
    requires OccursAt(b, pat, i)
    ensures OccursAt(a + b, pat, |a| + i)
  {
    assert (a + b)[|a| + i..|a| + i + |pat|] == b[i..i + |pat|];
  }

  /** An occurrence makes `includes` true, and `indexOf` finds it or an earlier one. */
  lemma ContainsAt(s: string, pat: string, i: nat)
    requires OccursAt(s, pat, i)
    ensures Contains(s, pat) && IndexOf(s, pat).value <= i
  {
  }

  /** A one-character pattern occurs exactly where that character stands. */
  lemma CharOccurrences(s: string, c: char)
    ensures forall j: nat :: OccursAt(s, [c], j) <==> j < |s| && s[j] == c
  {
    forall j: nat | j < |s|
      ensures OccursAt(s, [c], j) <==> s[j] == c
    {
      assert s[j..j + 1] == [s[j]];
    }
  }

  /** A pattern placed after some text occurs right where it was placed. */
  lemma OccursAfter(a: string, pat: string)
    ensures OccursAt(a + pat, pat, |a|)
  {
    assert (a + pat)[|a|..|a| + |pat|] == pat;
  }

  /** An occurrence inside a prefix is an occurrence in the whole string. */
  lemma OccursInPrefix(a: string, b: string, pat: string, i: nat)
    requires OccursAt(a, pat, i)
    ensures OccursAt(a + b, pat, i)
  {
    assert (a + b)[i..i + |pat|] == a[i..i + |pat|];
  }

  /** A pattern holding a character that `s` lacks never occurs in `s`. */
  lemma AbsentWithoutChar(s: string, pat: string, k: nat)
    requires k < |pat| && pat[k] !in s
    ensures !Contains(s, pat)
  {
    forall j: nat | j + |pat| <= |s|
      ensures !OccursAt(s, pat, j)
    {
      assert s[j..j + |pat|][k] == s[j + k];
    }
  }

  /** A pattern whose first character stands in `s` only at `i`, and which
      does not occur at `i`, does not occur in `s`. */
  lemma AbsentUnlessAt(s: string, pat: string, i: nat)
    requires |pat| > 0 && !OccursAt(s, pat, i)
    requires forall j :: 0 <= j < |s| && j != i ==> s[j] != pat[0]
    ensures !Contains(s, pat)
  {
    forall j: nat | j + |pat| <= |s| && j != i
      ensures !OccursAt(s, pat, j)
    {
      assert s[j..j + |pat|][0] == s[j];
    }
  }

  /** An occurrence preceded by no occurrence of the pattern's first character is the first one. */
  lemma FirstOccurrence(s: string, pat: string, i: nat)
    requires |pat| > 0 && OccursAt(s, pat, i) && pat[0] !in s[..i]
    ensures IndexOf(s, pat) == Some(i)
  {
    forall j: nat | j < i
      ensures !OccursAt(s, pat, j)
    {
      assert s[j] == s[..i][j];
    }
  }

  /** Splitting `a + [c] + b` on a character `c` that `a` lacks gives `a` and `b`. */
  lemma SplitOnChar(a: string, c: char, b: string)
    requires c !in a
    ensures BeforeFirst(a + [c] + b, [c]) == a
    ensures AfterFirst(a + [c] + b, [c]) == b
  {
    var s := a + [c] + b;
    CharOccurrences(s, c);
    assert s[|a|] == c;
    assert forall j :: 0 <= j < |a| ==> s[j] == a[j];
    assert IndexOf(s, [c]) == Some(|a|);
    assert s[..|a|] == a;
    assert s[|a| + 1..] == b;
  }

  /** A string without the character `c` is its own first piece and has nothing after `c`. */
  lemma SplitWithoutChar(a: string, c: char)
    requires c !in a
    ensures BeforeFirst(a, [c]) == a
    ensures AfterFirst(a, [c]) == ""
  {
    AbsentWithoutChar(a, [c], 0);
  }
}
