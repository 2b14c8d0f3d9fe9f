/**
  The JavaScript string built-ins the pipeline relies on, over sequences of
  characters: `trim`, the regular-expression class `\s`, `indexOf`, and
  `replace` with a string pattern.
 */
module JsText {
  import opened Wrappers

  /** The characters `String.prototype.trim` removes and `\s` matches: the
      WhiteSpace and LineTerminator code points of ECMAScript. */
  predicate IsSpace(c: char) {
    || c == '\t' || c == '\n' || c == '\U{B}' || c == '\U{C}' || c == '\r' || c == ' '
    || c == '\U{A0}' || c == '\U{1680}' || ('\U{2000}' <= c <= '\U{200A}')
    || c == '\U{2028}' || c == '\U{2029}' || c == '\U{202F}' || c == '\U{205F}'
    || c == '\U{3000}' || c == '\U{FEFF}'
  }

  predicate AllSpace(s: string) {
    forall k :: 0 <= k < |s| ==> IsSpace(s[k])
  }

  /** Neither the first nor the last character of `s` is white space. */
  predicate Unpadded(s: string) {
    s == [] || (!IsSpace(s[0]) && !IsSpace(s[|s| - 1]))
  }

  /** `s` is `r` with white space (possibly none) added on either side. */
  ghost predicate PaddedBy(s: string, r: string) {
    exists i :: 0 <= i <= |s| - |r| && AllSpace(s[..i]) && s[i..i + |r|] == r && AllSpace(s[i + |r|..])
  }

  /** Length of the run of white space that starts `s`. */
  function LeadingSpace(s: string): (n: nat)
    ensures n <= |s|
  {
    if s == [] || !IsSpace(s[0]) then 0 else 1 + LeadingSpace(s[1..])
  }

  /** Length of the run of white space that ends `s`. */
  function TrailingSpace(s: string): (n: nat)
    ensures n <= |s|
  {
    if s == [] || !IsSpace(s[|s| - 1]) then 0 else 1 + TrailingSpace(s[..|s| - 1])
  }

  /** The leading run is white space and stops at the first other character. */
  lemma {:induction false} LeadingSpaceSpec(s: string)
    ensures AllSpace(s[..LeadingSpace(s)])
    ensures LeadingSpace(s) < |s| ==> !IsSpace(s[LeadingSpace(s)])
  {
    if s != [] && IsSpace(s[0]) {
      var n := LeadingSpace(s);
      LeadingSpaceSpec(s[1..]);
      assert forall k :: 1 <= k < n ==> s[k] == s[1..][k - 1];
      assert n < |s| ==> s[n] == s[1..][n - 1];
    }
  }

  /** The trailing run is white space and stops at the last other character. */
  lemma {:induction false} TrailingSpaceSpec(s: string)
    ensures AllSpace(s[|s| - TrailingSpace(s)..])
    ensures TrailingSpace(s) < |s| ==> !IsSpace(s[|s| - TrailingSpace(s) - 1])
  {
    if s != [] && IsSpace(s[|s| - 1]) {
      var n := TrailingSpace(s);
      var t := s[..|s| - 1];
      TrailingSpaceSpec(t);
      assert forall k :: |s| - n <= k < |s| - 1 ==> s[k] == t[k];
      assert n < |s| ==> s[|s| - n - 1] == t[|t| - (n - 1) - 1];
    }
  }

  /** `s` without the white space it starts with. */
  function TrimStart(s: string): (r: string)
    ensures |r| <= |s|
  {
    s[LeadingSpace(s)..]
  }

  /** `s` without the white space it ends with. */
  function TrimEnd(s: string): (r: string)
    ensures |r| <= |s|
  {
    s[..|s| - TrailingSpace(s)]
  }

  /** `trimStart` drops a white-space prefix and keeps the rest, which starts
      with a character other than white space. */
  lemma TrimStartSpec(s: string)
    ensures var r := TrimStart(s);
      r == s[|s| - |r|..] && AllSpace(s[..|s| - |r|]) && (r == [] || !IsSpace(r[0]))
  {
    LeadingSpaceSpec(s);
  }

  /** `trimEnd` drops a white-space suffix and keeps the rest, which ends
      with a character other than white space. */
  lemma TrimEndSpec(s: string)
    ensures var r := TrimEnd(s);
      r == s[..|r|] && AllSpace(s[|r|..]) && (r == [] || !IsSpace(r[|r| - 1]))
  {
    TrailingSpaceSpec(s);
  }

  /** `s.trim()`. */
  function Trim(s: string): (r: string)
    ensures |r| <= |s|
  {
    TrimEnd(TrimStart(s))
  }

  /** The result of `trim` is the unpadded core of `s`. */
  lemma TrimSpec(s: string)
    ensures Unpadded(Trim(s)) && PaddedBy(s, Trim(s))
  {
    var t := TrimStart(s);
    var r := TrimEnd(t);
    TrimStartSpec(s);
    TrimEndSpec(t);
    var i := |s| - |t|;
    assert s[i..i + |r|] == r by {
      assert t == s[i..] && r == t[..|r|];
    }
    assert s[i + |r|..] == t[|r|..];
    assert AllSpace(s[..i]) && AllSpace(s[i + |r|..]);
    assert r != [] ==> r[0] == t[0];
  }

  lemma LeadingSpaceIs(s: string, n: nat)
    requires n <= |s| && AllSpace(s[..n]) && (n < |s| ==> !IsSpace(s[n]))
    ensures LeadingSpace(s) == n
  {
    var m := LeadingSpace(s);
    LeadingSpaceSpec(s);
    assert forall k :: 0 <= k < n ==> s[..n][k] == s[k];
    assert forall k :: 0 <= k < m ==> s[..m][k] == s[k];
  }

  lemma TrailingSpaceIs(s: string, n: nat)
    requires n <= |s| && AllSpace(s[|s| - n..]) && (n < |s| ==> !IsSpace(s[|s| - n - 1]))
    ensures TrailingSpace(s) == n
  {
    TrailingSpaceSpec(s);
    TrailingRunUnique(s, TrailingSpace(s), n);
  }

  /** Two white-space suffixes that each stop at a character other than
      white space have the same length. */
  lemma TrailingRunUnique(s: string, m: nat, n: nat)
    requires m <= |s| && AllSpace(s[|s| - m..]) && (m < |s| ==> !IsSpace(s[|s| - m - 1]))
    requires n <= |s| && AllSpace(s[|s| - n..]) && (n < |s| ==> !IsSpace(s[|s| - n - 1]))
    ensures m == n
  {
    SuffixSpace(s, n);
    SuffixSpace(s, m);
  }

  /** The characters of an all-space suffix, by their index in `s`. */
  lemma SuffixSpace(s: string, n: nat)
    requires n <= |s| && AllSpace(s[|s| - n..])
    ensures forall j :: |s| - n <= j < |s| ==> IsSpace(s[j])
  {
    assert forall j :: |s| - n <= j < |s| ==> s[j] == s[|s| - n..][j - (|s| - n)];
  }

  /** Trimming recovers exactly the unpadded core: together with the
      contract of `Trim` this pins the result down. */
  lemma {:induction false} TrimPadded(a: string, m: string, b: string)
    requires AllSpace(a) && AllSpace(b) && Unpadded(m)
    ensures Trim(a + m + b) == m
  {
    var s := a + m + b;
    if m == [] {
      assert s == a + b;
      assert s[..|s|] == s;
      LeadingSpaceIs(s, |s|);
    } else {
      assert s[..|a|] == a;
      assert s[|a|] == m[0];
      LeadingSpaceIs(s, |a|);
      var t := s[|a|..];
      assert t == m + b;
      assert t[|t| - |b|..] == b;
      assert t[|t| - |b| - 1] == m[|m| - 1];
      TrailingSpaceIs(t, |b|);
      assert t[..|t| - |b|] == m;
    }
  }

  /** Removing leading white space is not disturbed by text appended after a
      non-space character. */
  lemma TrimStartAppend(x: string, y: string)
    requires y != [] && !IsSpace(y[0])
    ensures TrimStart(x + y) == TrimStart(x) + y
  {
    var n := LeadingSpace(x);
    LeadingSpaceSpec(x);
    var s := x + y;
    assert s[..n] == x[..n];
    if n < |x| { assert s[n] == x[n]; } else { assert s[n] == y[0]; }
    LeadingSpaceIs(s, n);
    assert s[n..] == x[n..] + y;
  }

  /** `pat` occurs in `s` at index `i`. */
  predicate OccursAt(s: string, pat: string, i: nat) {
    i + |pat| <= |s| && s[i..i + |pat|] == pat
  }

  /** `s.indexOf(pat, from)`: the first occurrence of `pat` at or after `from`. */
  function IndexFrom(s: string, pat: string, from: nat): (r: Option<nat>)
    ensures r.Some? ==> from <= r.value && OccursAt(s, pat, r.value)
    ensures r.Some? ==> forall j :: from <= j < r.value ==> !OccursAt(s, pat, j)
    ensures r.None? ==> forall j :: from <= j ==> !OccursAt(s, pat, j)
    decreases |s| - from
  {
    if |s| < from + |pat| then None
    else if s[from..from + |pat|] == pat then Some(from)
    else IndexFrom(s, pat, from + 1)
  }

  /** `s.indexOf(pat)`, with `None` for -1. */
  function IndexOf(s: string, pat: string): Option<nat> {
    IndexFrom(s, pat, 0)
  }

  /** `s.replace(pat, rep)` with a string pattern: only the first occurrence
      of `pat` is replaced, and `rep` is inserted literally. */
  function ReplaceFirst(s: string, pat: string, rep: string): string {
    match IndexOf(s, pat)
    case None => s
    case Some(i) => s[..i] + rep + s[i + |pat|..]
  }

  /** Replacing a pattern that does not occur leaves the text alone. */
  lemma ReplaceAbsent(s: string, pat: string, rep: string)
    requires forall j: nat :: !OccursAt(s, pat, j)
    ensures ReplaceFirst(s, pat, rep) == s
  {
  }

  /** Replacing at the first occurrence: the text before it and after it is kept. */
  lemma ReplaceFirstAt(s: string, pat: string, rep: string, i: nat)
    requires OccursAt(s, pat, i)
    requires forall j: nat :: j < i ==> !OccursAt(s, pat, j)
    ensures IndexOf(s, pat) == Some(i)
    ensures ReplaceFirst(s, pat, rep) == s[..i] + rep + s[i + |pat|..]
  {
  }

  /** When no character before an occurrence of `pat` can start `pat`, that
      occurrence is the first, and it alone is replaced: whatever `q` holds,
      including further copies of `pat`, is kept. */
  lemma ReplaceFirstAfter(p: string, pat: string, q: string, rep: string)
    requires pat != [] && pat[0] !in p
    ensures IndexOf(p + pat + q, pat) == Some(|p|)
    ensures ReplaceFirst(p + pat + q, pat, rep) == p + rep + q
  {
    var s := p + pat + q;
    assert s[|p|..|p| + |pat|] == pat;
    forall j: nat | j < |p|
      ensures !OccursAt(s, pat, j)
    {
      assert s[j..j + |pat|][0] == s[j] == p[j];
    }
    ReplaceFirstAt(s, pat, rep, |p|);
    assert s[..|p|] == p;
    assert s[|p| + |pat|..] == q;
  }

  /** An occurrence preceded by a marker that starts like `pat` but differs in
      its second character is still the first occurrence. */
  lemma ReplaceFirstPastMarker(a: string, b: string, pat: string, q: string, rep: string)
    requires |pat| >= 2 && |b| >= 2 && pat[0] !in a && pat[0] !in b[1..] && b[1] != pat[1]
    ensures ReplaceFirst(a + b + pat + q, pat, rep) == a + b + rep + q
  {
    var s := a + b + pat + q;
    var i := |a| + |b|;
    assert s[i..i + |pat|] == pat;
    forall j: nat | j < i
      ensures !OccursAt(s, pat, j)
    {
      var w := s[j..j + |pat|];
      if j < |a| {
        assert w[0] == s[j] == a[j];
      } else if j == |a| {
        assert w[1] == s[j + 1] == b[1];
      } else {
        assert w[0] == s[j] == b[1..][j - |a| - 1];
      }
    }
    ReplaceFirstAt(s, pat, rep, i);
    assert s[..i] == a + b;
    assert s[i + |pat|..] == q;
  }
}
