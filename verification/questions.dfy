/**
 * The crawler's one site-specific rule: a stackoverflow.com question page is
 * known by the number after `/questions/`, and whatever follows the
 * question's slug names the same page.
 */
module Questions {
  import opened Wrappers
  import opened JavaString

  /** The text whose presence switches the rule on; it is searched literally. */
  const Marker: string := "http://stackoverflow.com/questions/"

  /** The expression the visited check splits at; its dots match any character. */
  const HostPath: string := "stackoverflow.com/questions/"

  lemma MarkerParts()
    ensures Marker == "http://" + HostPath
    ensures HostPath[0] == 's' && 's' !in "http://"
  {
  }

  lemma MarkerEndsInSlash()
    ensures |Marker| > 0 && Marker[|Marker| - 1] == '/'
  {
  }

  /**
   * The question id the visited check compares: the text after the first
   * match of `HostPath`, up to the next `/`.  Both array lookups of the
   * source can fall outside the array.
   */
  function QuestionId(s: string): (r: Result<string, Fault>)
    ensures r.Success? ==> '/' !in r.value
  {
    var parts := Split(s, HostPath);
    if |parts| < 2 then Failure(IndexOutOfBounds)
    else
      var chunks := Split(parts[1], "/");
      if |chunks| == 0 then Failure(IndexOutOfBounds)
      else
        SplitPieceFree(parts[1], '/', 0);
        Success(chunks[0])
  }

  /** Every piece of a split at a one-character separator is free of that character. */
  lemma SplitPieceFree(s: string, c: char, k: nat)
    requires c != '.'
    requires k < |Split(s, [c])|
    ensures c !in Split(s, [c])[k]
  {
    if HasMatch(s, [c]) {
      PiecesFree(s, c);
    } else {
      ContainsChar(s, c);
      LiteralHasMatch(s, [c]);
    }
  }

  lemma {:induction false} PiecesFree(s: string, c: char)
    requires c != '.'
    ensures forall k | 0 <= k < |Pieces(s, [c])| :: c !in Pieces(s, [c])[k]
    decreases |s|
  {
    match FirstMatchFrom(s, [c], 0)
    case None =>
      LiteralHasMatch(s, [c]);
      ContainsChar(s, c);
    case Some(i) =>
      forall j | 0 <= j < i ensures s[j] != c {
        assert !MatchesAt(s, [c], j);
      }
      assert c !in s[..i];
      PiecesFree(s[i + 1..], c);
  }

  /** The id of `Marker + id + "/" + more`, when nothing after the marker matches again. */
  lemma QuestionIdOf(id: string, more: string)
    requires id != "" && '/' !in id
    requires !HasMatch(id + "/" + more, HostPath)
    ensures QuestionId(Marker + id + "/" + more) == Success(id)
  {
    var rest := id + "/" + more;
    MarkerParts();
    assert Marker + id + "/" + more == "http://" + HostPath + rest;
    SplitAroundFirst("http://", HostPath, rest);
    KeepsNonEmpty(["http://", rest], 1);
    FirstChunk(id, more);
  }

  /** The first `/`-separated chunk of `id + "/" + more`. */
  lemma FirstChunk(id: string, more: string)
    requires id != "" && '/' !in id
    ensures |Split(id + "/" + more, "/")| >= 1
    ensures Split(id + "/" + more, "/")[0] == id
  {
    var s := id + "/" + more;
    PiecesAtChar(id, '/', more);
    assert s == id + ['/'] + more;
    assert MatchesAt(s, "/", |id|) by {
      assert s[|id|] == '/';
    }
    assert HasMatch(s, "/");
    KeepsNonEmpty(Pieces(s, "/"), 0);
  }

  /** The first two pieces around a separator, the remainder empty or starting at one. */
  lemma TwoPieces(a: string, b: string, rest: string, sep: char)
    requires sep != '.' && sep !in a && sep !in b
    requires rest == "" || rest[0] == sep
    ensures |Pieces(a + [sep] + (b + rest), [sep])| >= 2
    ensures Pieces(a + [sep] + (b + rest), [sep])[0] == a
    ensures Pieces(a + [sep] + (b + rest), [sep])[1] == b
  {
    PiecesAtChar(a, sep, b + rest);
    if rest == "" {
      assert b + rest == b;
      PiecesWithoutChar(b, sep);
    } else {
      assert b + rest == b + [sep] + rest[1..];
      PiecesAtChar(b, sep, rest[1..]);
    }
  }

  /** The first two chunks of `num + "/" + slug + rest`, `rest` empty or starting at a `/`. */
  lemma TwoChunks(num: string, slug: string, rest: string)
    requires num != "" && slug != "" && '/' !in num && '/' !in slug
    requires rest == "" || rest[0] == '/'
    ensures |Split(num + "/" + slug + rest, "/")| >= 2
    ensures Split(num + "/" + slug + rest, "/")[0] == num
    ensures Split(num + "/" + slug + rest, "/")[1] == slug
  {
    var tail := num + "/" + slug + rest;
    FirstChunk(num, slug + rest);
    assert tail == num + "/" + (slug + rest);
    assert tail == num + ['/'] + (slug + rest);
    TwoPieces(num, slug, rest, '/');
    KeepsNonEmpty(Pieces(tail, "/"), 0);
    KeepsNonEmpty(Pieces(tail, "/"), 1);
  }

  /** The bare marker has nothing after it: the lookup of element 1 fails. */
  lemma QuestionIdOfBareMarker()
    ensures QuestionId(Marker) == Failure(IndexOutOfBounds)
  {
    MarkerParts();
    assert Marker == "http://" + HostPath + "";
    assert !HasMatch("", HostPath);
    SplitAroundFirst("http://", HostPath, "");
    assert DropTrailingEmpty(["http://", ""]) == DropTrailingEmpty(["http://"]);
  }

  /**
   * The collapse both normalizers end with: when the text contains the
   * marker, the text after the marker's first match is cut into
   * `/`-separated chunks, and with at least two chunks and a numeric first
   * chunk the result is the marker, the id and the slug.  `numeric` stands
   * for `Double.parseDouble` succeeding.
   */
  function Collapse(r: string, numeric: string -> bool): (res: Result<string, Fault>)
    ensures !Contains(r, Marker) ==> res == Success(r)
    ensures res.Success? && res.value != r ==> StartsWith(res.value, Marker)
  {
    if !Contains(r, Marker) then Success(r)
    else
      var parts := Split(r, Marker);
      if |parts| < 2 then Failure(IndexOutOfBounds)
      else
        var chunks := Split(parts[1], "/");
        if |chunks| >= 2 && numeric(chunks[0]) then
          assert (Marker + chunks[0] + "/" + chunks[1])[..|Marker|] == Marker;
          Success(Marker + chunks[0] + "/" + chunks[1])
        else Success(r)
  }

  /** The pieces of a text after a leading marker, when the marker does not recur. */
  lemma SplitAfterMarker(tail: string)
    requires tail != ""
    requires !HasMatch(tail, Marker)
    ensures Contains(Marker + tail, Marker)
    ensures Split(Marker + tail, Marker) == ["", tail]
  {
    SplitAfterLeadingMatch(Marker, tail);
    assert OccursAt(Marker + tail, Marker, 0);
  }

  /**
   * `Marker + num + "/" + slug + rest` (with `rest` empty or starting at a
   * `/`) collapses to `Marker + num + "/" + slug` exactly when `num` is
   * numeric, and is left alone otherwise.
   */
  lemma CollapseQuestion(num: string, slug: string, rest: string, numeric: string -> bool)
    requires num != "" && slug != "" && '/' !in num && '/' !in slug
    requires rest == "" || rest[0] == '/'
    requires !HasMatch(num + "/" + slug + rest, Marker)
    ensures numeric(num) ==> Collapse(Marker + num + "/" + slug + rest, numeric) == Success(Marker + num + "/" + slug)
    ensures !numeric(num) ==> Collapse(Marker + num + "/" + slug + rest, numeric) == Success(Marker + num + "/" + slug + rest)
  {
    var tail := num + "/" + slug + rest;
    assert Marker + num + "/" + slug + rest == Marker + tail;
    SplitAfterMarker(tail);
    TwoChunks(num, slug, rest);
  }

  /** A marker followed by a single chunk is left alone. */
  lemma CollapseSingleChunk(id: string, numeric: string -> bool)
    requires id != "" && '/' !in id
    requires !HasMatch(id, Marker)
    ensures Collapse(Marker + id, numeric) == Success(Marker + id)
  {
    SplitAfterMarker(id);
    PiecesWithoutChar(id, '/');
  }

  /** The bare marker has nothing after it: the lookup of element 1 fails. */
  lemma CollapseBareMarker(numeric: string -> bool)
    ensures Collapse(Marker, numeric) == Failure(IndexOutOfBounds)
  {
    assert Marker == Marker + "";
    SplitAfterLeadingMatch(Marker, "");
    assert OccursAt(Marker, Marker, 0);
  }

  /**
   * A collapsed text is free of any `t` that the input and the marker are
   * free of, provided `t` has no `/`: the result is built from the marker,
   * pieces of the input and `/`.
   */
  lemma CollapseAvoids(r: string, numeric: string -> bool, t: string)
    requires !Contains(r, t) && !Contains(Marker, t) && t != "" && '/' !in t
    requires Collapse(r, numeric).Success?
    ensures !Contains(Collapse(r, numeric).value, t)
  {
    if Contains(r, Marker) {
      var parts := Split(r, Marker);
      var chunks := Split(parts[1], "/");
      if |chunks| >= 2 && numeric(chunks[0]) {
        SplitAvoids(r, Marker, t);
        SplitAvoids(parts[1], "/", t);
        ShortOrSlash(t);
        MarkerEndsInSlash();
        NoOccurrenceAcrossSeam(Marker, chunks[0], t);
        NoOccurrenceAcrossSeam(Marker + chunks[0], "/", t);
        NoOccurrenceAcrossSeam(Marker + chunks[0] + "/", chunks[1], t);
      }
    }
  }

  /** "/" contains no `t` without a `/`. */
  lemma ShortOrSlash(t: string)
    requires t != "" && '/' !in t
    ensures !Contains("/", t)
  {
    if |t| == 1 {
      ContainsChar("/", t[0]);
      assert t == [t[0]];
    } else if |t| > 1 {
      ShortDoesNotContain("/", t);
    }
  }
}
