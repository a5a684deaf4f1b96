/**
 * The two URL normalizers.  Both cut the text at the first `?`, `#` and
 * `javascript:` (a text starting with one of them becomes empty), drop one
 * trailing `/` and apply the stackoverflow question collapse.  The base-less
 * `normalize(String)` also picks a word out of a text holding spaces; the
 * base-aware `normalize(String,String)` resolves the text against a base URL
 * and rebuilds it from protocol, host and path, which loses the port.
 */
module Normalize {
  import opened Wrappers
  import opened JavaString
  import opened Questions

  // ---------------------------------------------------------------------
  // Marker cutting
  // ---------------------------------------------------------------------

  /** A prefix of a text free of `t` is free of `t`. */
  lemma PrefixAvoids(s: string, p: string, t: string)
    requires StartsWith(s, p) && !Contains(s, t)
    ensures !Contains(p, t)
  {
    assert p == s[0..|p|];
    if Contains(p, t) {
      ContainsInSlice(s, 0, |p|, t);
    }
  }

  /** The text before the first occurrence of a literal pattern is free of it. */
  lemma BeforeFirstMatch(s: string, m: string, i: nat)
    requires |m| > 0 && '.' !in m
    requires FirstMatchFrom(s, m, 0) == Some(i)
    ensures !Contains(s[..i], m)
  {
    if Contains(s[..i], m) {
      var j :| 0 <= j <= i - |m| && OccursAt(s[..i], m, j);
      assert s[j..j + |m|] == s[..i][j..j + |m|];
      LiteralMatch(s, m, j);
    }
  }

  /**
   * `if (s.contains(m) && !s.startsWith(m)) s = s.split(m)[0]` for a literal
   * marker: a text holding the marker after its start is cut just before the
   * first occurrence, leaving a non-empty prefix free of the marker; any
   * other text is left alone.
   */
  function CutAt(s: string, m: string): (r: string)
    requires |m| > 0 && '.' !in m
    ensures StartsWith(s, r)
    ensures Contains(s, m) && !StartsWith(s, m) ==> r != "" && !Contains(r, m)
    ensures !Contains(s, m) || StartsWith(s, m) ==> r == s
  {
    if Contains(s, m) && !StartsWith(s, m) then
      LiteralHasMatch(s, m);
      var i := FirstMatchFrom(s, m, 0).value;
      LiteralMatch(s, m, 0);
      assert i > 0;
      SplitHead(s, m);
      BeforeFirstMatch(s, m, i);
      Split(s, m)[0]
    else s
  }

  /**
   * The cut followed by `if (s.startsWith(m)) s = ""`: the result is a prefix
   * of the text and never holds the marker.
   */
  function Strip(s: string, m: string): (r: string)
    requires |m| > 0 && '.' !in m
    ensures StartsWith(s, r) && !Contains(r, m)
    ensures StartsWith(s, m) ==> r == ""
    ensures !Contains(s, m) ==> r == s
  {
    var c := CutAt(s, m);
    if StartsWith(c, m) then
      assert c[..0] == "" && OccursAt(c, m, 0);
      ""
    else c
  }

  /** A prefix free of a character survives a cut at that character. */
  lemma CutKeepsPrefix(s: string, c: char, p: string)
    requires c != '.' && c !in p && StartsWith(s, p)
    ensures StartsWith(CutAt(s, [c]), p)
  {
    var r := CutAt(s, [c]);
    if Contains(s, [c]) && !StartsWith(s, [c]) {
      LiteralHasMatch(s, [c]);
      var i := FirstMatchFrom(s, [c], 0).value;
      LiteralMatch(s, [c], 0);
      SplitHead(s, [c]);
      assert r == s[..i];
      assert CharMatches([c][0], s[i]);
      forall j | 0 <= j < |p| ensures s[j] != c {
        assert s[j] == p[j] && p[j] in p;
      }
      assert r[..|p|] == s[..|p|];
    }
  }

  /** The three markers both normalizers cut at. */
  const Query := "?"
  const Fragment := "#"
  const Script := "javascript:"

  /** Cutting at two one-character markers and then at a third marker. */
  function StripThree(s: string, q: char, f: char, j: string): (r: string)
    requires q != '.' && f != '.' && |j| > 0 && '.' !in j
    ensures StartsWith(s, r)
    ensures !Contains(r, [q]) && !Contains(r, [f]) && !Contains(r, j)
  {
    var a := Strip(s, [q]);
    var b := Strip(a, [f]);
    var c := Strip(b, j);
    PrefixAvoids(a, b, [q]);
    PrefixAvoids(b, c, [q]);
    PrefixAvoids(b, c, [f]);
    c
  }

  /** A text starting with the second marker strips to nothing when the first is not in it. */
  lemma SecondMarkerClears(s: string, q: char, f: char, j: string)
    requires q != '.' && f != '.' && |j| > 0 && '.' !in j
    requires q != f && StartsWith(s, [f])
    ensures StripThree(s, q, f, j) == ""
  {
    var a := Strip(s, [q]);
    if a != "" {
      CutKeepsPrefix(s, q, [f]);
    }
  }

  /** A text starting with the third marker strips to nothing when neither character is in it. */
  lemma ThirdMarkerClears(s: string, q: char, f: char, j: string)
    requires q != '.' && f != '.' && |j| > 0 && '.' !in j
    requires q !in j && f !in j && StartsWith(s, j)
    ensures StripThree(s, q, f, j) == ""
  {
    var a := Strip(s, [q]);
    var b := Strip(a, [f]);
    if a != "" {
      CutKeepsPrefix(s, q, j);
      if b != "" {
        CutKeepsPrefix(a, f, j);
      }
    }
  }

  /** Everything both normalizers cut away: query, fragment and script part. */
  function StripAll(s: string): (r: string)
    ensures StartsWith(s, r)
    ensures !Contains(r, Query) && !Contains(r, Fragment) && !Contains(r, Script)
  {
    StripThree(s, '?', '#', Script)
  }

  /** Dropping the trailing `/` cannot create a text. */
  lemma DropKeepsAvoid(s: string, t: string)
    ensures !Contains(s, t) ==> !Contains(DropTrailingSlash(s), t)
  {
    if !Contains(s, t) {
      PrefixAvoids(s, DropTrailingSlash(s), t);
    }
  }

  /** Drops one trailing `/`. */
  function DropTrailingSlash(s: string): (r: string)
    ensures StartsWith(s, r)
    ensures r == s || r + "/" == s
    ensures !EndsWith(s, "/") ==> r == s
  {
    if EndsWith(s, "/") then
      assert s == s[..|s| - 1] + "/";
      s[..|s| - 1]
    else s
  }

  // ---------------------------------------------------------------------
  // normalize(String)
  // ---------------------------------------------------------------------

  /** The index of the first piece longer than two UTF-16 code units, from `i` on (`|parts|` if none). */
  function FirstLong(parts: seq<string>, i: nat): (k: nat)
    requires i <= |parts|
    ensures i <= k <= |parts|
    ensures k < |parts| ==> Length(parts[k]) > 2
    ensures forall j | i <= j < k :: Length(parts[j]) <= 2
    decreases |parts| - i
  {
    if i == |parts| then i
    else if Length(parts[i]) > 2 then i
    else FirstLong(parts, i + 1)
  }

  /**
   * The space step of `normalize(String)`: a text holding a space becomes
   * its first space-separated word longer than two characters (as Java
   * counts them, in UTF-16 code units), and is left alone when there is none.
   */
  function SpaceStep(s: string): (r: string)
    ensures ' ' !in s ==> r == s
    ensures r != s ==> ' ' !in r && Length(r) > 2
  {
    ContainsChar(s, ' ');
    if Contains(s, " ") then
      var parts := Split(s, " ");
      var k := FirstLong(parts, 0);
      if k < |parts| then
        SplitPieceFree(s, ' ', k);
        parts[k]
      else s
    else s
  }

  /**
   * A word of one character beyond U+FFFF and one ordinary character is two
   * characters but three UTF-16 code units, so the space step picks it.
   */
  lemma SpaceStepCountsCodeUnits()
    ensures SpaceStep("a \U{1F600}z b") == "\U{1F600}z"
  {
    var s := "a \U{1F600}z b";
    var w := "\U{1F600}z";
    SplitExample();
    assert OccursAt(s, " ", 1);
    assert Contains(s, " ");
    assert Length(w) == 3 by {
      assert w[1..] == "z";
    }
    assert FirstLong(["a", w, "b"], 0) == 1;
  }

  /** The words of the example above. */
  lemma SplitExample()
    ensures Split("a \U{1F600}z b", " ") == ["a", "\U{1F600}z", "b"]
  {
    var w := "\U{1F600}z";
    var s := "a" + [' '] + (w + [' '] + "b");
    assert s == "a \U{1F600}z b";
    PiecesAtChar("a", ' ', w + [' '] + "b");
    PiecesAtChar(w, ' ', "b");
    PiecesWithoutChar("b", ' ');
    assert Pieces(s, " ") == ["a", w, "b"];
    assert OccursAt(s, " ", 1);
    LiteralHasMatch(s, " ");
  }

  /** The marker handling of `normalize(String)`, before the trailing-slash step. */
  function Stripped(input: string): (r: string)
    ensures !Contains(r, Fragment) && !Contains(r, Script)
  {
    var a := CutAt(input, Query);
    var b := SpaceStep(a);
    var c := if StartsWith(b, Query) then "" else b;
    var d := Strip(c, Fragment);
    var e := Strip(d, Script);
    PrefixAvoids(d, e, Fragment);
    e
  }

  /**
   * `normalize(String)`.  The stackoverflow collapse can fail with an index
   * fault when nothing follows the marker.
   */
  function NormalizePartial(input: string, numeric: string -> bool): (r: Result<string, Fault>)
    ensures r.Success? ==> !Contains(r.value, Fragment) && !Contains(r.value, Script)
    ensures !Contains(Stripped(input), Marker) ==> r.Success?
    ensures r.Failure? ==> r.error == IndexOutOfBounds
  {
    var s := Stripped(input);
    var d := DropTrailingSlash(s);
    PrefixAvoids(s, d, Fragment);
    PrefixAvoids(s, d, Script);
    DropKeepsAvoid(s, Marker);
    MarkerFreeOfMarks();
    var r := Collapse(d, numeric);
    if r.Success? then
      CollapseAvoids(d, numeric, Fragment);
      CollapseAvoids(d, numeric, Script);
      r
    else r
  }

  /** Without spaces the base-less normalizer strips exactly what the base-aware one does. */
  lemma StrippedWithoutSpaces(input: string)
    requires ' ' !in input
    ensures Stripped(input) == StripAll(input)
  {
    var a := CutAt(input, Query);
    PrefixAvoids(input, a, " ") by {
      ContainsChar(input, ' ');
    }
    ContainsChar(a, ' ');
    assert SpaceStep(a) == a;
  }

  /**
   * A space-free input comes out with no `?`, `#` or `javascript:`, the
   * collapse included.
   */
  lemma PartialAvoidsMarkers(input: string, numeric: string -> bool)
    requires ' ' !in input
    requires NormalizePartial(input, numeric).Success?
    ensures !Contains(NormalizePartial(input, numeric).value, Query)
    ensures !Contains(NormalizePartial(input, numeric).value, Fragment)
    ensures !Contains(NormalizePartial(input, numeric).value, Script)
  {
    StrippedWithoutSpaces(input);
    var s := StripAll(input);
    var d := DropTrailingSlash(s);
    PrefixAvoids(s, d, Query);
    PrefixAvoids(s, d, Fragment);
    PrefixAvoids(s, d, Script);
    MarkerFreeOfMarks();
    CollapseAvoids(d, numeric, Query);
    CollapseAvoids(d, numeric, Fragment);
    CollapseAvoids(d, numeric, Script);
  }

  /** A text whose first character is absent from `s` does not occur in `s`. */
  lemma HeadAbsent(s: string, t: string)
    requires |t| > 0 && t[0] !in s
    ensures !Contains(s, t)
  {
    forall i | 0 <= i <= |s| - |t| ensures !OccursAt(s, t, i) {
      assert s[i] in s && s[i..i + |t|][0] == s[i];
    }
  }

  /** The stackoverflow marker holds none of the cut markers. */
  lemma MarkerFreeOfMarks()
    ensures !Contains(Marker, Query) && !Contains(Marker, Fragment) && !Contains(Marker, Script)
    ensures '/' !in Query && '/' !in Fragment && '/' !in Script
  {
    MarkerLacks();
    assert Query[0] == '?' && Fragment[0] == '#' && Script[0] == 'j';
    HeadAbsent(Marker, Query);
    HeadAbsent(Marker, Fragment);
    HeadAbsent(Marker, Script);
  }

  /** An input starting with `?` becomes empty when it has no space. */
  lemma LeadingQueryClears(input: string, numeric: string -> bool)
    requires ' ' !in input && StartsWith(input, Query)
    ensures NormalizePartial(input, numeric) == Success("")
  {
    assert Stripped(input) == "" by {
      StrippedWithoutSpaces(input);
    }
    NothingLeft(input, numeric);
  }

  /** An input starting with `#` becomes empty when it has no space. */
  lemma LeadingFragmentClears(input: string, numeric: string -> bool)
    requires ' ' !in input && StartsWith(input, Fragment)
    ensures NormalizePartial(input, numeric) == Success("")
  {
    assert Stripped(input) == "" by {
      StrippedWithoutSpaces(input);
      assert Fragment == ['#'];
      ScriptChars();
      SecondMarkerClears(input, '?', '#', Script);
    }
    NothingLeft(input, numeric);
  }

  /** An input starting with `javascript:` becomes empty when it has no space. */
  lemma LeadingScriptClears(input: string, numeric: string -> bool)
    requires ' ' !in input && StartsWith(input, Script)
    ensures NormalizePartial(input, numeric) == Success("")
  {
    assert Stripped(input) == "" by {
      StrippedWithoutSpaces(input);
      ScriptChars();
      ThirdMarkerClears(input, '?', '#', Script);
    }
    NothingLeft(input, numeric);
  }

  lemma ScriptChars()
    ensures '?' !in Script && '#' !in Script && |Script| > 0 && '.' !in Script
  {
  }

  /** Nothing left after the marker steps normalizes to the empty text. */
  lemma NothingLeft(input: string, numeric: string -> bool)
    requires Stripped(input) == ""
    ensures NormalizePartial(input, numeric) == Success("")
  {
    assert DropTrailingSlash("") == "";
  }

  /**
   * Away from the stackoverflow marker, a space-free input comes out as a
   * prefix of itself: the stripped text, less at most one trailing `/`.
   */
  lemma PartialIsPrefix(input: string, numeric: string -> bool)
    requires ' ' !in input && !Contains(input, Marker)
    ensures NormalizePartial(input, numeric).Success?
    ensures StartsWith(input, NormalizePartial(input, numeric).value)
    ensures var s := StripAll(input);
      NormalizePartial(input, numeric).value == s || NormalizePartial(input, numeric).value + "/" == s
  {
    StrippedWithoutSpaces(input);
    var s := StripAll(input);
    var d := DropTrailingSlash(s);
    PrefixAvoids(input, s, Marker);
    PrefixAvoids(s, d, Marker);
    assert input[..|d|] == s[..|d|];
  }

  /** An id, an empty slug and a last chunk split into exactly those three chunks. */
  lemma SplitEmptySlug(num: string, rest: string)
    requires num != "" && rest != "" && '/' !in num && '/' !in rest
    ensures Split(num + "//" + rest, "/") == [num, "", rest]
  {
    var tail := num + "//" + rest;
    assert tail == num + ['/'] + ([] + ['/'] + rest);
    PiecesAtChar(num, '/', [] + ['/'] + rest);
    PiecesAtChar([], '/', rest);
    PiecesWithoutChar(rest, '/');
    assert Pieces(tail, "/") == [num, "", rest];
    assert MatchesAt(tail, "/", |num|) by {
      assert tail[|num|] == '/';
    }
  }

  /** A question with an empty slug collapses to the id followed by `/`. */
  lemma CollapseEmptySlug(num: string, rest: string, numeric: string -> bool)
    requires num != "" && rest != "" && '/' !in num && '/' !in rest
    requires !HasMatch(num + "//" + rest, Marker)
    requires numeric(num)
    ensures Collapse(Marker + num + "//" + rest, numeric) == Success(Marker + num + "/")
  {
    var tail := num + "//" + rest;
    assert Marker + num + "//" + rest == Marker + tail;
    SplitAfterMarker(tail);
    SplitEmptySlug(num, rest);
    assert Marker + num + "/" + "" == Marker + num + "/";
  }

  /** A text free of the cut markers and of spaces is untouched by the marker steps. */
  lemma PlainText(s: string)
    requires ' ' !in s
    requires !Contains(s, Query) && !Contains(s, Fragment) && !Contains(s, Script)
    ensures Stripped(s) == s
  {
    StrippedWithoutSpaces(s);
  }

  /**
   * `normalize(String)` is not idempotent: a question URL with an empty
   * slug keeps a trailing `/` that a second pass removes.
   */
  lemma PartialNotIdempotent(num: string, rest: string, numeric: string -> bool)
    requires num != "" && rest != "" && '/' !in num && '/' !in rest && ' ' !in num && ' ' !in rest
    requires !HasMatch(num + "//" + rest, Marker) && !HasMatch(num, Marker)
    requires !Contains(Marker + num + "//" + rest, Query)
    requires !Contains(Marker + num + "//" + rest, Fragment)
    requires !Contains(Marker + num + "//" + rest, Script)
    requires rest[|rest| - 1] != '/'
    requires numeric(num)
    ensures NormalizePartial(Marker + num + "//" + rest, numeric) == Success(Marker + num + "/")
    ensures NormalizePartial(Marker + num + "/", numeric) == Success(Marker + num)
  {
    var input := Marker + num + "//" + rest;
    MarkerShape(num, rest);
    PlainText(input);
    assert input[|input| - 1] == rest[|rest| - 1];
    assert !EndsWith(input, "/");
    CollapseEmptySlug(num, rest, numeric);
    var once := Marker + num + "/";
    PrefixAvoids(input, once, Query);
    PrefixAvoids(input, once, Fragment);
    PrefixAvoids(input, once, Script);
    PlainText(once);
    assert DropTrailingSlash(once) == Marker + num;
    CollapseSingleChunk(num, numeric);
  }

  /** The shapes the non-idempotence example relies on. */
  lemma MarkerShape(num: string, rest: string)
    requires ' ' !in num && ' ' !in rest
    ensures ' ' !in Marker + num + "//" + rest
    ensures StartsWith(Marker + num + "//" + rest, Marker + num + "/")
  {
    var input := Marker + num + "//" + rest;
    assert ' ' !in Marker;
    assert input == (Marker + num + "/") + ("/" + rest);
  }

  /** The concrete case: `.../questions/12//foo` and its second pass. */
  lemma PartialNotIdempotentExample(num: string, rest: string, numeric: string -> bool)
    requires num == "12" && rest == "foo" && numeric(num)
    ensures NormalizePartial(Marker + num + "//" + rest, numeric) == Success(Marker + num + "/")
    ensures NormalizePartial(Marker + num + "/", numeric) == Success(Marker + num)
  {
    var tail := num + "//" + rest;
    MarkerLacks();
    assert '?' !in tail && '#' !in tail && 'j' !in tail;
    var input := Marker + tail;
    assert Marker + num + "//" + rest == input;
    assert '?' !in input && '#' !in input && 'j' !in input;
    assert Query[0] == '?' && Fragment[0] == '#' && Script[0] == 'j';
    HeadAbsent(input, Query);
    HeadAbsent(input, Fragment);
    HeadAbsent(input, Script);
    assert |tail| < |Marker|;
    PartialNotIdempotent(num, rest, numeric);
  }

  /** Characters the stackoverflow marker does not hold. */
  lemma MarkerLacks()
    ensures '?' !in Marker && '#' !in Marker && 'j' !in Marker && ' ' !in Marker
  {
    MarkerLacksChar('?');
    MarkerLacksChar('#');
    assert 'j' !in Marker by {
      MarkerParts();
      assert 'j' !in "http://" && 'j' !in HostPath;
    }
    MarkerLacksChar(' ');
  }

  /** The marker is made of lower-case letters, `:`, `/` and `.`. */
  lemma MarkerLacksChar(c: char)
    requires !('a' <= c <= 'z') && c != ':' && c != '/' && c != '.'
    ensures c !in Marker
  {
  }

  /** A stackoverflow text whose tail has none of the cut characters is untouched by the marker steps. */
  lemma PlainQuestionText(tail: string)
    requires '?' !in tail && '#' !in tail && 'j' !in tail && ' ' !in tail
    ensures Stripped(Marker + tail) == Marker + tail
  {
    var input := Marker + tail;
    MarkerLacks();
    assert Query[0] == '?' && Fragment[0] == '#' && Script[0] == 'j';
    HeadAbsent(input, Query);
    HeadAbsent(input, Fragment);
    HeadAbsent(input, Script);
    PlainText(input);
  }

  /** A question URL with an empty id and a trailing `/` makes the collapse fail. */
  lemma PartialEmptyQuestionFails(input: string, numeric: string -> bool)
    requires input == Marker + "/"
    ensures NormalizePartial(input, numeric) == Failure(IndexOutOfBounds)
  {
    PlainQuestionText("/");
    assert DropTrailingSlash(input) == Marker;
    CollapseBareMarker(numeric);
  }

  // ---------------------------------------------------------------------
  // normalize(String, String)
  // ---------------------------------------------------------------------

  /** What `java.net` URI/URL resolution yields: protocol, host, port (-1 if none) and path. */
  datatype Resolved = Resolved(protocol: string, host: string, port: int, path: string)

  /** The text rebuilt from a resolved URL: the port is not part of it. */
  function Rebuilt(u: Resolved): (r: string)
    ensures StartsWith(r, u.protocol + "://" + u.host)
  {
    var p := Replace(u.path, "/$", "");
    assert (u.protocol + "://" + u.host + p)[..|u.protocol + "://" + u.host|] == u.protocol + "://" + u.host;
    u.protocol + "://" + u.host + p
  }

  /**
   * `normalize(taintedURL, baseURL)`.  `resolve` stands for the `java.net`
   * resolution of the stripped text against the base (`None` when either
   * is rejected, surfacing as a malformed-URL fault).  The base is taken to
   * be absolute, as at every call site: a relative base would make
   * `toURL` raise an `IllegalArgumentException` instead.  The rebuilt text
   * loses one trailing `/`; without the stackoverflow marker it is the
   * result, and with it the question rule may shorten it to the marker, the
   * id and the slug, or fail on a missing id.
   */
  function NormalizeFull(tainted: string, base: string, resolve: (string, string) -> Option<Resolved>,
                         numeric: string -> bool): (r: Result<string, Fault>)
    ensures r == Failure(MalformedUrl) <==> resolve(StripAll(tainted), base).None?
    ensures resolve(StripAll(tainted), base).Some? ==>
              var d := DropTrailingSlash(Rebuilt(resolve(StripAll(tainted), base).value));
              && (!Contains(d, Marker) ==> r == Success(d))
              && (r.Failure? ==> r.error == IndexOutOfBounds)
              && (r.Success? && r.value != d ==> StartsWith(r.value, Marker))
  {
    match resolve(StripAll(tainted), base)
    case None => Failure(MalformedUrl)
    case Some(u) =>
      var d := DropTrailingSlash(Rebuilt(u));
      var res := Collapse(d, numeric);
      assert res != Failure(MalformedUrl) by {
        if !res.Success? {
          assert res == Failure(IndexOutOfBounds);
        }
      }
      res
  }

  /** A rebuilt text without the marker comes back with one trailing `/` dropped. */
  lemma FullPlain(tainted: string, base: string, resolve: (string, string) -> Option<Resolved>,
                  numeric: string -> bool, u: Resolved)
    requires resolve(StripAll(tainted), base) == Some(u)
    requires !Contains(Rebuilt(u), Marker)
    ensures NormalizeFull(tainted, base, resolve, numeric) == Success(DropTrailingSlash(Rebuilt(u)))
  {
    DropKeepsAvoid(Rebuilt(u), Marker);
  }

  /**
   * A question URL whose rebuilt text (less its trailing `/`) is the marker,
   * an id, a slug and more path is cut to marker, id and slug exactly when
   * the id is numeric.
   */
  lemma FullQuestion(tainted: string, base: string, resolve: (string, string) -> Option<Resolved>,
                     numeric: string -> bool, u: Resolved, num: string, slug: string, rest: string)
    requires resolve(StripAll(tainted), base) == Some(u)
    requires DropTrailingSlash(Rebuilt(u)) == Marker + num + "/" + slug + rest
    requires num != "" && slug != "" && '/' !in num && '/' !in slug
    requires rest == "" || rest[0] == '/'
    requires !HasMatch(num + "/" + slug + rest, Marker)
    ensures numeric(num) ==> NormalizeFull(tainted, base, resolve, numeric) == Success(Marker + num + "/" + slug)
    ensures !numeric(num) ==> NormalizeFull(tainted, base, resolve, numeric) == Success(Marker + num + "/" + slug + rest)
  {
    CollapseQuestion(num, slug, rest, numeric);
  }

  /** The port of the resolved URL never reaches the result. */
  lemma FullIgnoresPort(u: Resolved, port: int, numeric: string -> bool, tainted: string, base: string,
                        r1: (string, string) -> Option<Resolved>, r2: (string, string) -> Option<Resolved>)
    requires r1(StripAll(tainted), base) == Some(u)
    requires r2(StripAll(tainted), base) == Some(u.(port := port))
    ensures NormalizeFull(tainted, base, r1, numeric) == NormalizeFull(tainted, base, r2, numeric)
  {
    assert Rebuilt(u) == Rebuilt(u.(port := port));
  }

  /** A path without the literal `/$` is kept verbatim. */
  lemma RebuiltKeepsPlainPath(u: Resolved)
    requires !Contains(u.path, "/$")
    ensures Rebuilt(u) == u.protocol + "://" + u.host + u.path
  {
  }

  // ---------------------------------------------------------------------
  // Normalizers as values
  // ---------------------------------------------------------------------

  /**
   * A normalizer: the text a link string normalizes to, or the fault it
   * raises.  The crawler uses `normalize(String)`.
   */
  type Normalizer = string -> Result<string, Fault>

  /** `normalize(String)` as a normalizer. */
  function Partial(numeric: string -> bool): (norm: Normalizer)
    ensures forall s :: norm(s) == NormalizePartial(s, numeric)
  {
    (s: string) => NormalizePartial(s, numeric)
  }

  /** The only fault `normalize(String)` raises is an index fault. */
  lemma PartialFaults(numeric: string -> bool, s: string)
    ensures Partial(numeric)(s).Failure? ==> Partial(numeric)(s).error == IndexOutOfBounds
  {
  }
}
