/**
 * The robots.txt reader: the site's base link and the line scanner of
 * `getExcludedList`.  Fetching the file is an input: `None` stands for a
 * robots file that could not be opened or was not ready, and `Some(lines)`
 * for the lines read from it.  The normalizer is a parameter; the crawler
 * passes `normalize(String)`.
 */
module Robots {
  import opened Wrappers
  import opened JavaString
  import opened Sequences
  import opened ItemUrl
  import opened Frontier
  import opened Normalize

  // ---------------------------------------------------------------------
  // The base link
  // ---------------------------------------------------------------------

  /** The decimal digits of a natural number, as `Integer.toString` prints it. */
  function Digits(n: nat): (r: string)
    ensures |r| > 0 && forall k | 0 <= k < |r| :: '0' <= r[k] <= '9'
  {
    if n < 10 then [DigitChar(n)] else Digits(n / 10) + [DigitChar(n % 10)]
  }

  function DigitChar(d: nat): (c: char)
    requires d < 10
    ensures '0' <= c <= '9' && c as int - '0' as int == d
  {
    (d + '0' as int) as char
  }

  /** The number a run of decimal digits denotes. */
  function DecimalValue(s: string): nat
    requires forall k | 0 <= k < |s| :: '0' <= s[k] <= '9'
  {
    if |s| == 0 then 0 else DecimalValue(s[..|s| - 1]) * 10 + (s[|s| - 1] as int - '0' as int)
  }

  /** Reading the printed digits back gives the number. */
  lemma {:induction false} DigitsRoundTrip(n: nat)
    ensures DecimalValue(Digits(n)) == n
  {
    if n >= 10 {
      var d := Digits(n);
      assert d[..|d| - 1] == Digits(n / 10);
      DigitsRoundTrip(n / 10);
    }
  }

  /**
   * `protocol://host`, followed by `:port` when the URL names a port.  The
   * robots file is looked up under this link and disallowed paths are
   * appended to it.
   */
  function BaseLink(page: Url): (r: string)
    ensures StartsWith(r, page.protocol + "://" + page.host)
    ensures page.port <= -1 ==> r == page.protocol + "://" + page.host
    ensures page.port > -1 ==> r == page.protocol + "://" + page.host + ":" + Digits(page.port)
  {
    var root := page.protocol + "://" + page.host;
    var r := root + (if page.port > -1 then ":" + Digits(page.port) else "");
    assert r[..|root|] == root;
    r
  }

  // ---------------------------------------------------------------------
  // The line scanner
  // ---------------------------------------------------------------------

  const AnyAgent := "User-Agent: *"
  const AgentField := "User-Agent:"
  const DisallowField := "Disallow: "

  /** A line opening the section for every crawler. */
  predicate IsStar(line: string) {
    Contains(line, AnyAgent)
  }

  /** A line opening a section for some other crawler. */
  predicate IsStop(line: string) {
    !IsStar(line) && Contains(line, AgentField)
  }

  /** Line `a` is the first line opening the section for every crawler. */
  predicate FirstStar(lines: seq<string>, a: int)
    requires 0 <= a < |lines|
  {
    IsStar(lines[a]) && forall j | 0 <= j < a :: !IsStar(lines[j])
  }

  /** No line before `i` opens the section for every crawler. */
  predicate NoStarBefore(lines: seq<string>, i: int)
    requires 0 <= i <= |lines|
  {
    forall j | 0 <= j < i :: !IsStar(lines[j])
  }

  /**
   * Line `k` lies inside the section the scan reads: after the first star
   * line, with no other agent line between (the first such line ends the
   * scan, so later star lines never reopen it).
   */
  predicate Active(lines: seq<string>, k: int)
    requires 0 <= k <= |lines|
  {
    exists a | 0 <= a < k :: FirstStar(lines, a) && forall j | a < j < k :: !IsStop(lines[j])
  }

  /** The path a `Disallow: ` line names, with every `Disallow: ` removed. */
  function DisallowedPath(line: string): string {
    Replace(line, DisallowField, "")
  }

  /** A path with a wildcard, query or fragment is ignored. */
  predicate Plain(path: string) {
    !Contains(path, "*") && !Contains(path, "?") && !Contains(path, "#")
  }

  /** The link a `Disallow: ` line names: its trimmed path appended to the base link. */
  function PathLink(base: string, line: string): string {
    base + Trim(DisallowedPath(line))
  }

  /**
   * Line `k` is a `Disallow: ` line inside the section, with a plain path
   * whose link normalizes to a text other than the base link: the scan
   * hands that text to `new URL`.
   */
  predicate Kept(lines: seq<string>, k: int, base: string, norm: Normalizer)
    requires 0 <= k < |lines|
  {
    Active(lines, k) && !IsStar(lines[k]) && !Contains(lines[k], AgentField)
    && Contains(lines[k], DisallowField) && Plain(DisallowedPath(lines[k]))
    && norm(PathLink(base, lines[k])).Success?
    && norm(PathLink(base, lines[k])).value != base
  }

  /** `u` is the URL parsed from kept line `k`. */
  predicate EntryAt(lines: seq<string>, k: int, base: string, parse: string -> Option<UrlParts>,
                    norm: Normalizer, u: Url)
    requires 0 <= k < |lines|
  {
    Kept(lines, k, base, norm) && ParseUrl(norm(PathLink(base, lines[k])).value, parse) == Some(u)
  }

  /** Every kept line from `i` through `k` parses; a malformed one would end the scan there. */
  predicate ParsesThrough(lines: seq<string>, i: int, k: int, base: string,
                          parse: string -> Option<UrlParts>, norm: Normalizer)
    requires 0 <= i && k < |lines|
  {
    forall j | i <= j <= k && Kept(lines, j, base, norm) :: parse(norm(PathLink(base, lines[j])).value).Some?
  }

  /** A fault the normalizer raises on the link of some line from `i` on. */
  predicate LineFault(lines: seq<string>, i: nat, base: string, norm: Normalizer, e: Fault) {
    exists k | i <= k < |lines| :: norm(PathLink(base, lines[k])) == Failure(e)
  }

  /** `u` comes from some line. */
  predicate Entry(lines: seq<string>, base: string, parse: string -> Option<UrlParts>, norm: Normalizer, u: Url) {
    exists k | 0 <= k < |lines| :: EntryAt(lines, k, base, parse, norm, u)
  }

  /** The section flag after line `i`, which is no other agent line while the flag is set. */
  lemma {:induction false} ActiveNext(lines: seq<string>, i: nat, seen: bool)
    requires i < |lines|
    requires seen ==> Active(lines, i)
    requires !seen ==> NoStarBefore(lines, i)
    requires seen ==> !IsStop(lines[i])
    ensures IsStar(lines[i]) || seen ==> Active(lines, i + 1)
    ensures !IsStar(lines[i]) && !seen ==> NoStarBefore(lines, i + 1)
  {
    if seen {
      var a :| 0 <= a < i && FirstStar(lines, a) && forall j | a < j < i :: !IsStop(lines[j]);
      assert forall j | a < j < i + 1 :: !IsStop(lines[j]);
    } else if IsStar(lines[i]) {
      assert FirstStar(lines, i);
    }
  }

  /** There is only one first star line. */
  lemma FirstStarUnique(lines: seq<string>, a: int, b: int)
    requires 0 <= a < |lines| && 0 <= b < |lines|
    requires FirstStar(lines, a) && FirstStar(lines, b)
    ensures a == b
  {
  }

  /** Once an agent line inside the section ends it, no later line is inside. */
  lemma StopEnds(lines: seq<string>, i: nat, k: nat)
    requires i < k <= |lines|
    requires Active(lines, i) && IsStop(lines[i])
    ensures !Active(lines, k)
  {
    var a :| 0 <= a < i && FirstStar(lines, a) && forall j | a < j < i :: !IsStop(lines[j]);
    forall b | 0 <= b < k && FirstStar(lines, b)
      ensures exists j | b < j < k :: IsStop(lines[j])
    {
      FirstStarUnique(lines, a, b);
    }
  }

  /** A second star line after another agent's section does not reopen the scan. */
  lemma SecondStarDoesNotReopen()
    ensures !Active(["User-Agent: *", "User-Agent: bot", "User-Agent: *", "Disallow: /x"], 3)
  {
    var lines := ["User-Agent: *", "User-Agent: bot", "User-Agent: *", "Disallow: /x"];
    assert OccursAt(lines[0], AnyAgent, 0);
    assert FirstStar(lines, 0);
    assert !IsStar(lines[1]) by {
      forall i | 0 <= i <= |lines[1]| - |AnyAgent| ensures !OccursAt(lines[1], AnyAgent, i) {
        assert lines[1][i + 12] != AnyAgent[12];
      }
    }
    assert OccursAt(lines[1], AgentField, 0);
    StopEnds(lines, 1, 3);
  }

  /** Entries found after `acc + add`, `add` holding at most one entry, are entries found after `acc`. */
  lemma AppendEntry(lines: seq<string>, base: string, parse: string -> Option<UrlParts>, norm: Normalizer,
                    acc: seq<Url>, add: seq<Url>, r: seq<Url>)
    requires |add| <= 1
    requires |acc + add| <= |r| && r[..|acc + add|] == acc + add
    requires |add| == 1 ==> Entry(lines, base, parse, norm, add[0])
    requires forall q | |acc + add| <= q < |r| :: Entry(lines, base, parse, norm, r[q])
    ensures r[..|acc|] == acc
    ensures forall q | |acc| <= q < |r| :: Entry(lines, base, parse, norm, r[q])
  {
    if |add| == 1 {
      assert acc + add == acc + [add[0]];
      AppendKeeps(acc, add[0], r, (x: Url) => Entry(lines, base, parse, norm, x));
    } else {
      assert acc + add == acc;
    }
  }

  /** What one line does to the scan: go on with a flag and new entries, stop, or fail. */
  datatype LineEffect = Next(seen: bool, add: seq<Url>) | Stop | Fail(fault: Fault)

  /**
   * One iteration of the scan loop on line `i`, `seen` being the section
   * flag: a star line sets the flag; inside the section another agent line
   * stops the scan and a plain `Disallow: ` path is normalized against the
   * base link and kept unless it is the base link itself.  A malformed URL
   * stops the scan (the exception is caught outside the loop); a fault of
   * the normalizer propagates.
   */
  function LineStep(lines: seq<string>, i: nat, seen: bool, base: string,
                    parse: string -> Option<UrlParts>, norm: Normalizer): (r: LineEffect)
    requires i < |lines|
    requires seen ==> Active(lines, i)
    requires !seen ==> NoStarBefore(lines, i)
    ensures r.Next? ==> |r.add| <= 1
    ensures r.Next? && r.seen ==> Active(lines, i + 1)
    ensures r.Next? && !r.seen ==> NoStarBefore(lines, i + 1)
    ensures r.Next? && |r.add| == 1 ==> EntryAt(lines, i, base, parse, norm, r.add[0])
    ensures Kept(lines, i, base, norm) && parse(norm(PathLink(base, lines[i])).value).Some? ==>
              r == Next(true, [ParseUrl(norm(PathLink(base, lines[i])).value, parse).value])
    ensures r.Stop? ==> (seen && IsStop(lines[i])) ||
                        (Kept(lines, i, base, norm) && parse(norm(PathLink(base, lines[i])).value).None?)
    ensures r.Fail? ==> norm(PathLink(base, lines[i])) == Failure(r.fault)
    ensures !seen && !IsStar(lines[i]) ==> r == Next(false, [])
  {
    var line := lines[i];
    if IsStar(line) then
      ActiveNext(lines, i, seen);
      Next(true, [])
    else if seen && Contains(line, AgentField) then Stop
    else
      ActiveNext(lines, i, seen);
      if seen && Contains(line, DisallowField) && Plain(DisallowedPath(line)) then
        match norm(PathLink(base, line))
        case Failure(e) => Fail(e)
        case Success(t) =>
          if t == base then Next(seen, [])
          else
            match ParseUrl(t, parse)
            case None => Stop
            case Some(u) => Next(seen, [u])
      else Next(seen, [])
  }

  /**
   * `found` misses no kept line from `i` on, up to the first malformed one
   * (which ends the scan early).
   */
  ghost predicate CompleteFrom(lines: seq<string>, i: nat, base: string, parse: string -> Option<UrlParts>,
                         norm: Normalizer, found: seq<Url>)
  {
    forall k, u | i <= k < |lines| && EntryAt(lines, k, base, parse, norm, u) && ParsesThrough(lines, i, k, base, parse, norm) ::
      u in found
  }

  /**
   * The scan loop from line `i` on, `seen` being the section flag and `acc`
   * the entries so far, applying `LineStep` to each line in turn.
   */
  function ScanFrom(lines: seq<string>, i: nat, seen: bool, acc: seq<Url>, base: string,
                    parse: string -> Option<UrlParts>, norm: Normalizer): (r: Result<seq<Url>, Fault>)
    requires i <= |lines|
    requires seen ==> Active(lines, i)
    requires !seen ==> NoStarBefore(lines, i)
    ensures r.Success? ==> |acc| <= |r.value| && r.value[..|acc|] == acc
    ensures r.Success? ==> forall q | |acc| <= q < |r.value| :: Entry(lines, base, parse, norm, r.value[q])
    ensures r.Success? ==> CompleteFrom(lines, i, base, parse, norm, r.value[|acc|..])
    ensures !seen && (forall j | i <= j < |lines| :: !IsStar(lines[j])) ==> r == Success(acc)
    ensures r.Failure? ==> LineFault(lines, i, base, norm, r.error)
    decreases |lines| - i
  {
    if i == |lines| then Success(acc)
    else
      match LineStep(lines, i, seen, base, parse, norm)
      case Stop =>
        StopCompletes(lines, i, seen, base, parse, norm);
        Success(acc)
      case Fail(e) => Failure(e)
      case Next(s, add) =>
        var rest := ScanFrom(lines, i + 1, s, acc + add, base, parse, norm);
        if rest.Success? then
          AppendEntry(lines, base, parse, norm, acc, add, rest.value);
          NextCompletes(lines, i, seen, base, parse, norm, acc, add, rest.value);
          rest
        else rest
  }

  /** A line that stops the scan leaves no kept line ahead that the scan would have reached. */
  lemma StopCompletes(lines: seq<string>, i: nat, seen: bool, base: string,
                      parse: string -> Option<UrlParts>, norm: Normalizer)
    requires i < |lines|
    requires seen ==> Active(lines, i)
    requires !seen ==> NoStarBefore(lines, i)
    requires LineStep(lines, i, seen, base, parse, norm).Stop?
    ensures CompleteFrom(lines, i, base, parse, norm, [])
  {
    if seen && IsStop(lines[i]) {
      StopLineCompletes(lines, i, base, parse, norm);
    } else {
      MalformedCompletes(lines, i, base, parse, norm);
    }
  }

  /** After the agent line ending the section, no kept line is left. */
  lemma StopLineCompletes(lines: seq<string>, i: nat, base: string,
                          parse: string -> Option<UrlParts>, norm: Normalizer)
    requires i < |lines|
    requires Active(lines, i) && IsStop(lines[i])
    ensures CompleteFrom(lines, i, base, parse, norm, [])
  {
    forall k: nat, u | i < k < |lines| && EntryAt(lines, k, base, parse, norm, u)
      ensures false
    {
      StopEnds(lines, i, k);
    }
  }

  /** A kept line the parser rejects blocks every kept line from it on. */
  lemma MalformedCompletes(lines: seq<string>, i: nat, base: string,
                           parse: string -> Option<UrlParts>, norm: Normalizer)
    requires i < |lines|
    requires Kept(lines, i, base, norm) && parse(norm(PathLink(base, lines[i])).value).None?
    ensures CompleteFrom(lines, i, base, parse, norm, [])
  {
    forall k: nat, u | i <= k < |lines| && EntryAt(lines, k, base, parse, norm, u)
      ensures !ParsesThrough(lines, i, k, base, parse, norm)
    {
      MalformedBlocks(lines, i, k, i, base, parse, norm);
    }
  }

  /** A malformed kept line between `i` and `k` means not every kept line through `k` parses. */
  lemma MalformedBlocks(lines: seq<string>, i: nat, k: nat, j: nat, base: string,
                        parse: string -> Option<UrlParts>, norm: Normalizer)
    requires i <= j <= k < |lines|
    requires Kept(lines, j, base, norm) && parse(norm(PathLink(base, lines[j])).value).None?
    ensures !ParsesThrough(lines, i, k, base, parse, norm)
  {
  }

  /** Completeness after line `i` plus what line `i` added gives completeness from line `i`. */
  lemma NextCompletes(lines: seq<string>, i: nat, seen: bool, base: string,
                      parse: string -> Option<UrlParts>, norm: Normalizer, acc: seq<Url>, add: seq<Url>, r: seq<Url>)
    requires i < |lines|
    requires seen ==> Active(lines, i)
    requires !seen ==> NoStarBefore(lines, i)
    requires LineStep(lines, i, seen, base, parse, norm).Next? && LineStep(lines, i, seen, base, parse, norm).add == add
    requires |acc + add| <= |r| && r[..|acc + add|] == acc + add
    requires CompleteFrom(lines, i + 1, base, parse, norm, r[|acc + add|..])
    ensures CompleteFrom(lines, i, base, parse, norm, r[|acc|..])
  {
    forall k: nat, u | i <= k < |lines| && EntryAt(lines, k, base, parse, norm, u) && ParsesThrough(lines, i, k, base, parse, norm)
      ensures u in r[|acc|..]
    {
      if k == i {
        assert add == [u];
        assert r[|acc|..][0] == r[..|acc + add|][|acc|] == u;
      } else {
        ParsesThroughTail(lines, i, k, base, parse, norm);
        SuffixMember(r, |acc|, |acc + add|, u);
      }
    }
  }

  /** Every kept line in `i..k` parsing, with `i < k`, gives every kept line in `i + 1..k` parsing. */
  lemma ParsesThroughTail(lines: seq<string>, i: nat, k: nat, base: string,
                          parse: string -> Option<UrlParts>, norm: Normalizer)
    requires i < k < |lines|
    requires ParsesThrough(lines, i, k, base, parse, norm)
    ensures ParsesThrough(lines, i + 1, k, base, parse, norm)
  {
  }

  /** An element of a later suffix is an element of an earlier one. */
  lemma SuffixMember<T>(r: seq<T>, a: nat, b: nat, x: T)
    requires a <= b <= |r|
    requires x in r[b..]
    ensures x in r[a..]
  {
    var q :| 0 <= q < |r[b..]| && r[b..][q] == x;
    assert r[a..][q + b - a] == x;
  }

  /** Removing repeats keeps only scanned entries. */
  lemma EntriesSurvive(lines: seq<string>, base: string, parse: string -> Option<UrlParts>, norm: Normalizer,
                       found: seq<Url>)
    requires forall q | 0 <= q < |found| :: Entry(lines, base, parse, norm, found[q])
    ensures forall q | 0 <= q < |RemoveRepeated(found)| :: Entry(lines, base, parse, norm, RemoveRepeated(found)[q])
  {
    var r := RemoveRepeated(found);
    SubseqMembers(r, found);
    forall q | 0 <= q < |r| ensures Entry(lines, base, parse, norm, r[q]) {
      assert r[q] in found;
      var p :| 0 <= p < |found| && found[p] == r[q];
    }
  }

  /** The whole scan of a robots file, before repeats are removed. */
  function Scan(lines: seq<string>, base: string, parse: string -> Option<UrlParts>, norm: Normalizer): Result<seq<Url>, Fault> {
    ScanFrom(lines, 0, false, [], base, parse, norm)
  }

  /**
   * `getExcludedList`: nothing when the robots file cannot be read;
   * otherwise the scanned entries with repeats removed (by the same
   * removal `removeRepeated` performs), each taken from a plain `Disallow: `
   * path in the section for every crawler and differing from the base link.
   */
  function GetExcludedList(page: Url, fetch: Option<seq<string>>, parse: string -> Option<UrlParts>,
                           norm: Normalizer): (r: Result<seq<Url>, Fault>)
    ensures fetch.None? ==> r == Success([])
    ensures fetch.Some? && r.Success? ==>
              forall q | 0 <= q < |r.value| :: Entry(fetch.value, BaseLink(page), parse, norm, r.value[q])
    ensures fetch.Some? && (forall j | 0 <= j < |fetch.value| :: !IsStar(fetch.value[j])) ==> r == Success([])
    ensures r.Failure? ==> fetch.Some? && LineFault(fetch.value, 0, BaseLink(page), norm, r.error)
    ensures fetch.Some? ==> (r.Success? <==> Scan(fetch.value, BaseLink(page), parse, norm).Success?)
    ensures fetch.Some? && r.Success? ==> IsSubseq(r.value, Scan(fetch.value, BaseLink(page), parse, norm).value)
    ensures fetch.Some? && r.Success? && UniqueTexts(Scan(fetch.value, BaseLink(page), parse, norm).value) ==>
              r.value == Scan(fetch.value, BaseLink(page), parse, norm).value
  {
    match fetch
    case None => Success([])
    case Some(lines) =>
      var base := BaseLink(page);
      var found :- ScanFrom(lines, 0, false, [], base, parse, norm);
      if |found| > 0 then
        EntriesSurvive(lines, base, parse, norm, found);
        Success(RemoveRepeated(found))
      else
        SubseqRefl(found);
        Success(found)
  }

  /**
   * Every kept line of the robots file up to the first malformed one is in
   * the scan, and in the excluded list when the scan found no repeats.
   */
  lemma ExcludedListComplete(page: Url, lines: seq<string>, parse: string -> Option<UrlParts>,
                             norm: Normalizer, k: nat, u: Url)
    requires k < |lines|
    requires EntryAt(lines, k, BaseLink(page), parse, norm, u) && ParsesThrough(lines, 0, k, BaseLink(page), parse, norm)
    ensures GetExcludedList(page, Some(lines), parse, norm).Success? ==> u in Scan(lines, BaseLink(page), parse, norm).value
    ensures GetExcludedList(page, Some(lines), parse, norm).Success? &&
            UniqueTexts(Scan(lines, BaseLink(page), parse, norm).value) ==>
              u in GetExcludedList(page, Some(lines), parse, norm).value
  {
    var r := Scan(lines, BaseLink(page), parse, norm);
    if r.Success? {
      assert r.value[0..] == r.value;
    }
  }
}
