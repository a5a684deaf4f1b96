/**
 * The parts of `java.lang.String` the crawler relies on, with Java's exact
 * semantics: `contains`, `startsWith`, `endsWith`, `trim`, `replace` and
 * `split`.  `split` takes a regular expression; every expression the crawler
 * passes is a run of literal characters in which `.` is the only
 * metacharacter, so patterns here are strings whose `.` matches any character
 * except a line terminator.
 */
module JavaString {
  import opened Wrappers

  /** The unchecked exceptions the crawler's string handling can raise. */
  datatype Fault =
    | IndexOutOfBounds   // `split(..)[k]` on a shorter array
    | MalformedUrl       // `new URL(s)` or URI resolution rejected the text
    | NullPointer        // a method called on the null URL a rejected text leaves

  // ---------------------------------------------------------------------
  // Literal search
  // ---------------------------------------------------------------------

  /** `t` occurs in `s` starting at index `i`. */
  predicate OccursAt(s: string, t: string, i: int) {
    0 <= i && i + |t| <= |s| && s[i..i + |t|] == t
  }

  /** `s.contains(t)`. */
  predicate Contains(s: string, t: string) {
    exists i | 0 <= i <= |s| - |t| :: OccursAt(s, t, i)
  }

  /** `s.startsWith(t)`. */
  predicate StartsWith(s: string, t: string) {
    |t| <= |s| && s[..|t|] == t
  }

  /** `s.endsWith(t)`. */
  predicate EndsWith(s: string, t: string) {
    |t| <= |s| && s[|s| - |t|..] == t
  }

  /**
   * `s.length()`.  Java strings are sequences of UTF-16 code units, so a
   * character beyond U+FFFF (a surrogate pair) counts twice.
   */
  function Length(s: string): (n: nat)
    ensures |s| <= n <= 2 * |s|
    ensures (forall k | 0 <= k < |s| :: s[k] as int <= 0xFFFF) ==> n == |s|
  {
    if |s| == 0 then 0
    else (if s[0] as int > 0xFFFF then 2 else 1) + Length(s[1..])
  }

  /** An occurrence inside a slice is an occurrence in the whole string. */
  lemma ContainsInSlice(s: string, a: int, b: int, t: string)
    requires 0 <= a <= b <= |s|
    requires Contains(s[a..b], t)
    ensures Contains(s, t)
  {
    var j :| 0 <= j <= |s[a..b]| - |t| && OccursAt(s[a..b], t, j);
    forall k | 0 <= k < |t| ensures s[a + j..a + j + |t|][k] == t[k] {
      assert t[k] == s[a..b][j..j + |t|][k] == s[a + j + k];
    }
    assert OccursAt(s, t, a + j);
  }

  /**
   * Joining two strings free of `t` cannot create `t` when the character at
   * the seam (last of `a` or first of `b`) is not a character of `t`.
   */
  lemma NoOccurrenceAcrossSeam(a: string, b: string, t: string)
    requires !Contains(a, t) && !Contains(b, t)
    requires (|a| > 0 && a[|a| - 1] !in t) || (|b| > 0 && b[0] !in t)
    ensures !Contains(a + b, t)
  {
    var s := a + b;
    forall i | 0 <= i <= |s| - |t| ensures !OccursAt(s, t, i) {
      if i + |t| <= |a| {
        assert s[i..i + |t|] == a[i..i + |t|];
        assert !OccursAt(a, t, i);
      } else if i >= |a| {
        assert s[i..i + |t|] == b[i - |a|..i - |a| + |t|];
        assert !OccursAt(b, t, i - |a|);
      } else if |a| > 0 && a[|a| - 1] !in t {
        assert s[|a| - 1] == a[|a| - 1];
      } else {
        assert s[|a|] == b[0];
      }
    }
  }

  /** For a one-character target, `contains` is membership. */
  lemma ContainsChar(s: string, c: char)
    ensures Contains(s, [c]) <==> c in s
  {
    if c in s {
      var i :| 0 <= i < |s| && s[i] == c;
      assert OccursAt(s, [c], i);
    }
    if Contains(s, [c]) {
      var i :| 0 <= i <= |s| - 1 && OccursAt(s, [c], i);
      assert s[i] == s[i..i + 1][0] == c;
    }
  }

  /** A string shorter than `t` does not contain it. */
  lemma ShortDoesNotContain(s: string, t: string)
    requires |s| < |t|
    ensures !Contains(s, t)
  {
  }

  // ---------------------------------------------------------------------
  // trim and replace
  // ---------------------------------------------------------------------

  /** `String.trim` removes every leading and trailing character up to U+0020. */
  function TrimStart(s: string): (r: string)
    ensures |r| <= |s| && r == s[|s| - |r|..]
    ensures |r| > 0 ==> r[0] > ' '
    ensures forall k | 0 <= k < |s| - |r| :: s[k] <= ' '
  {
    if |s| > 0 && s[0] <= ' ' then TrimStart(s[1..]) else s
  }

  function TrimEnd(s: string): (r: string)
    ensures |r| <= |s| && r == s[..|r|]
    ensures |r| > 0 ==> r[|r| - 1] > ' '
    ensures forall k | |r| <= k < |s| :: s[k] <= ' '
  {
    if |s| > 0 && s[|s| - 1] <= ' ' then TrimEnd(s[..|s| - 1]) else s
  }

  /** `s.trim()`. */
  function Trim(s: string): string {
    TrimEnd(TrimStart(s))
  }

  /** A string with no character up to U+0020 at either end is its own trim. */
  lemma TrimOfTrimmed(s: string)
    requires |s| > 0 ==> s[0] > ' ' && s[|s| - 1] > ' '
    ensures Trim(s) == s
  {
  }

  /**
   * `s.replace(target, replacement)` for a non-empty target: occurrences are
   * replaced left to right and never overlap.
   */
  function Replace(s: string, target: string, replacement: string): (r: string)
    requires |target| > 0
    ensures !Contains(s, target) ==> r == s
    decreases |s|
  {
    if |s| < |target| then s
    else if s[..|target|] == target then
      assert OccursAt(s, target, 0);
      replacement + Replace(s[|target|..], target, replacement)
    else
      assert !Contains(s, target) ==> !Contains(s[1..], target) by {
        assert s[1..] == s[1..|s|];
        if Contains(s[1..], target) {
          ContainsInSlice(s, 1, |s|, target);
        }
      }
      [s[0]] + Replace(s[1..], target, replacement)
  }

  // ---------------------------------------------------------------------
  // Regular-expression matching for split
  // ---------------------------------------------------------------------

  predicate LineTerminator(c: char) {
    c == '\n' || c == '\r' || c == '\U{0085}' || c == '\U{2028}' || c == '\U{2029}'
  }

  /** One pattern character against one input character. */
  predicate CharMatches(p: char, c: char) {
    if p == '.' then !LineTerminator(c) else p == c
  }

  /** The pattern matches `s` at index `i`. */
  predicate MatchesAt(s: string, pat: string, i: int) {
    0 <= i && i + |pat| <= |s| && forall k | 0 <= k < |pat| :: CharMatches(pat[k], s[i + k])
  }

  /** A pattern with no `.` is a literal: it matches exactly where it occurs. */
  lemma LiteralMatch(s: string, pat: string, i: int)
    requires '.' !in pat
    ensures MatchesAt(s, pat, i) <==> OccursAt(s, pat, i)
  {
    if MatchesAt(s, pat, i) {
      assert forall k | 0 <= k < |pat| :: s[i..i + |pat|][k] == pat[k] by {
        forall k | 0 <= k < |pat| ensures s[i..i + |pat|][k] == pat[k] {
          assert CharMatches(pat[k], s[i + k]);
        }
      }
    }
    if OccursAt(s, pat, i) {
      forall k | 0 <= k < |pat| ensures CharMatches(pat[k], s[i + k]) {
        assert s[i + k] == s[i..i + |pat|][k];
      }
    }
  }

  /** Every pattern matches its own text (a `.` is not a line terminator). */
  lemma PatternMatchesItself(pat: string, rest: string)
    ensures MatchesAt(pat + rest, pat, 0)
  {
    forall k | 0 <= k < |pat| ensures CharMatches(pat[k], (pat + rest)[k]) {
      assert (pat + rest)[k] == pat[k];
    }
  }

  /** The leftmost match at or after `i`, as `Matcher.find` reports it. */
  function FirstMatchFrom(s: string, pat: string, i: nat): (r: Option<nat>)
    ensures r.Some? ==> i <= r.value && MatchesAt(s, pat, r.value)
    ensures r.Some? ==> forall j | i <= j < r.value :: !MatchesAt(s, pat, j)
    ensures r.None? ==> forall j | i <= j :: !MatchesAt(s, pat, j)
    decreases |s| - i
  {
    if i + |pat| > |s| then None
    else if MatchesAt(s, pat, i) then Some(i)
    else FirstMatchFrom(s, pat, i + 1)
  }

  /** A pattern matches its own text wherever that text is placed. */
  lemma MatchesAfter(pre: string, pat: string, rest: string)
    ensures MatchesAt(pre + pat + rest, pat, |pre|)
  {
    var s := pre + pat + rest;
    forall k | 0 <= k < |pat| ensures CharMatches(pat[k], s[|pre| + k]) {
      assert s[|pre| + k] == pat[k];
    }
  }

  /** A match with no match before it is the leftmost one. */
  lemma FirstMatchIs(s: string, pat: string, i: nat)
    requires MatchesAt(s, pat, i)
    requires forall j | 0 <= j < i :: !MatchesAt(s, pat, j)
    ensures FirstMatchFrom(s, pat, 0) == Some(i)
  {
  }

  /** The pattern matches somewhere in `s`. */
  predicate HasMatch(s: string, pat: string) {
    FirstMatchFrom(s, pat, 0).Some?
  }

  /** For a literal pattern, matching somewhere is `contains`. */
  lemma LiteralHasMatch(s: string, pat: string)
    requires '.' !in pat
    ensures HasMatch(s, pat) <==> Contains(s, pat)
  {
    if HasMatch(s, pat) {
      var i := FirstMatchFrom(s, pat, 0).value;
      LiteralMatch(s, pat, i);
    }
    if Contains(s, pat) {
      var i :| 0 <= i <= |s| - |pat| && OccursAt(s, pat, i);
      LiteralMatch(s, pat, i);
    }
  }

  /**
   * The pieces between successive non-overlapping matches, scanning left to
   * right; one more piece than there are matches, empty pieces included.
   */
  function Pieces(s: string, pat: string): (r: seq<string>)
    requires |pat| > 0
    ensures |r| >= 1
    decreases |s|
  {
    match FirstMatchFrom(s, pat, 0)
    case None => [s]
    case Some(i) => [s[..i]] + Pieces(s[i + |pat|..], pat)
  }

  /** Java drops the trailing empty strings of a `split` with limit 0. */
  function DropTrailingEmpty(r: seq<string>): (t: seq<string>)
    ensures |t| <= |r| && t == r[..|t|]
    ensures |t| > 0 ==> t[|t| - 1] != ""
    ensures forall k | |t| <= k < |r| :: r[k] == ""
    decreases |r|
  {
    if |r| > 0 && r[|r| - 1] == "" then DropTrailingEmpty(r[..|r| - 1]) else r
  }

  /**
   * `s.split(pat)`: with no match the array is `[s]` (even for the empty
   * string); otherwise the pieces with trailing empty strings removed, which
   * may leave no element at all.
   */
  function Split(s: string, pat: string): (r: seq<string>)
    requires |pat| > 0
  {
    if HasMatch(s, pat) then DropTrailingEmpty(Pieces(s, pat)) else [s]
  }

  /** A non-empty piece survives the removal of trailing empty strings. */
  lemma KeepsNonEmpty(r: seq<string>, j: int)
    requires 0 <= j < |r| && r[j] != ""
    ensures |DropTrailingEmpty(r)| > j && DropTrailingEmpty(r)[j] == r[j]
  {
  }

  /** When the first match is not at the start, element 0 is the text before it. */
  lemma SplitHead(s: string, pat: string)
    requires |pat| > 0
    requires FirstMatchFrom(s, pat, 0).Some? && FirstMatchFrom(s, pat, 0).value > 0
    ensures |Split(s, pat)| >= 1
    ensures Split(s, pat)[0] == s[..FirstMatchFrom(s, pat, 0).value]
  {
    var i := FirstMatchFrom(s, pat, 0).value;
    assert Pieces(s, pat)[0] == s[..i];
    assert s[..i] != "";
    KeepsNonEmpty(Pieces(s, pat), 0);
  }

  /** A string whose only match is a leading one splits into "" and the rest. */
  lemma SplitAfterLeadingMatch(pat: string, rest: string)
    requires |pat| > 0
    requires !HasMatch(rest, pat)
    ensures Split(pat + rest, pat) == if rest == "" then [] else ["", rest]
  {
    var s := pat + rest;
    PatternMatchesItself(pat, rest);
    assert FirstMatchFrom(s, pat, 0) == Some(0);
    assert s[..0] == "" && s[|pat|..] == rest;
    assert Pieces(s, pat) == [""] + Pieces(rest, pat);
    assert Pieces(rest, pat) == [rest];
    if rest != "" {
      KeepsNonEmpty(Pieces(s, pat), 1);
    }
  }

  /** Whatever precedes the first match is the first piece; scanning resumes after the match. */
  lemma PiecesAtFirst(pre: string, pat: string, rest: string)
    requires |pat| > 0
    requires FirstMatchFrom(pre + pat + rest, pat, 0) == Some(|pre|)
    ensures Pieces(pre + pat + rest, pat) == [pre] + Pieces(rest, pat)
  {
    var s := pre + pat + rest;
    assert s[..|pre|] == pre;
    assert s[|pre| + |pat|..] == rest;
  }

  /**
   * A pattern whose first character is a literal absent from `pre`, matched
   * right after `pre` and nowhere in `rest`: the split is `pre` and `rest`,
   * less the trailing empty strings.
   */
  lemma SplitAroundFirst(pre: string, pat: string, rest: string)
    requires |pat| > 0 && pat[0] != '.' && pat[0] !in pre
    requires !HasMatch(rest, pat)
    ensures HasMatch(pre + pat + rest, pat)
    ensures Split(pre + pat + rest, pat) == DropTrailingEmpty([pre, rest])
  {
    var s := pre + pat + rest;
    MatchesAfter(pre, pat, rest);
    forall j | 0 <= j < |pre| ensures !MatchesAt(s, pat, j) {
      assert s[j] == pre[j] && pre[j] in pre;
    }
    FirstMatchIs(s, pat, |pre|);
    PiecesAtFirst(pre, pat, rest);
    assert Pieces(rest, pat) == [rest];
  }

  /**
   * Splitting at a single separator character: the text before the first
   * separator is the first piece.
   */
  lemma PiecesAtChar(a: string, sep: char, b: string)
    requires sep != '.' && sep !in a
    ensures Pieces(a + [sep] + b, [sep]) == [a] + Pieces(b, [sep])
  {
    var s := a + [sep] + b;
    assert MatchesAt(s, [sep], |a|) by {
      assert s[|a|] == sep;
    }
    forall j | 0 <= j < |a| ensures !MatchesAt(s, [sep], j) {
      assert s[j] == a[j] && a[j] in a;
      assert !CharMatches([sep][0], s[j]);
    }
    var r := FirstMatchFrom(s, [sep], 0);
    assert r == Some(|a|);
    assert s[..|a|] == a && s[|a| + 1..] == b;
  }

  /** A string without the separator character is a single piece. */
  lemma PiecesWithoutChar(a: string, sep: char)
    requires sep != '.' && sep !in a
    ensures Pieces(a, [sep]) == [a]
    ensures !HasMatch(a, [sep])
  {
    forall j | 0 <= j ensures !MatchesAt(a, [sep], j) {
      if j < |a| {
        assert a[j] in a;
        assert !CharMatches([sep][0], a[j]);
      }
    }
  }

  /** Every piece of a split is free of any `t` the whole string is free of. */
  lemma {:induction false} PiecesAvoid(s: string, pat: string, t: string)
    requires |pat| > 0
    requires !Contains(s, t)
    ensures forall k | 0 <= k < |Pieces(s, pat)| :: !Contains(Pieces(s, pat)[k], t)
    decreases |s|
  {
    match FirstMatchFrom(s, pat, 0)
    case None =>
    case Some(i) =>
      if Contains(s[..i], t) {
        ContainsInSlice(s, 0, i, t);
      }
      assert s[i + |pat|..] == s[i + |pat|..|s|];
      if Contains(s[i + |pat|..], t) {
        ContainsInSlice(s, i + |pat|, |s|, t);
      }
      PiecesAvoid(s[i + |pat|..], pat, t);
  }

  lemma SplitAvoids(s: string, pat: string, t: string)
    requires |pat| > 0
    requires !Contains(s, t)
    ensures forall k | 0 <= k < |Split(s, pat)| :: !Contains(Split(s, pat)[k], t)
  {
    PiecesAvoid(s, pat, t);
  }
}
