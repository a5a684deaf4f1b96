/**
 * A worker's pass in `CrawlerThread.run`, and the crawl of the first seed
 * in `innerCrawl`: which ready item a worker claims, what happens to it by
 * depth, and which lists change.  Fetching, link extraction, indexing and
 * redirects are parameters or left out.
 */
module WorkerPass {
  import opened Wrappers
  import opened JavaString
  import opened Sequences
  import opened ItemUrl
  import opened Frontier
  import opened Normalize
  import opened Robots
  import opened Pipelines

  /**
   * What a worker cannot compute itself: URL parsing, the `Double.parseDouble`
   * test, the normalizer (the crawler's is `Partial(numeric)`, that is
   * `normalize(String)`), the robots.txt of a page's host (`None` when it
   * cannot be opened), the outlinks `crawlAndIndexPage` returns (`None` when
   * it throws), whether the index-only visit (the fetch, `indexPage` and
   * the redirect walk) completes without raising an exception it catches,
   * and the maximal crawl depth.
   */
  datatype Env = Env(parse: string -> Option<UrlParts>, numeric: string -> bool, norm: Normalizer,
                     robots: Url -> Option<seq<string>>, crawl: Url -> Option<seq<Url>>,
                     reachable: Url -> bool, maxDepth: Int32)

  /** The environment normalizes as the crawler does. */
  ghost predicate UsesPartial(env: Env) {
    forall s :: env.norm(s) == Partial(env.numeric)(s)
  }

  /** A worker's shared lists and its busy flag. */
  datatype State = State(lists: Lists, busy: bool)

  /**
   * What became of a host's turn: no ready item for it; the thread died of an
   * uncaught exception; the item was already visited; or it was attempted,
   * by crawling, by indexing only, not at all because the robots step threw
   * (the exception is caught and the URL still marked visited), not at all
   * because the prefix rule excludes it, or not at all because it is too
   * deep.
   */
  datatype Outcome = NoItem | Halted(fault: Fault) | Discarded | Crawled | Indexed | Aborted | Excluded | TooDeep

  /** A step's new state and outcome. */
  datatype Step = Step(state: State, outcome: Outcome)

  /** The outcomes that count as a visit attempt for the pass's sleep rule. */
  predicate Attempted(o: Outcome) {
    o == Crawled || o == Indexed || o == Aborted || o == Excluded || o == TooDeep
  }

  // ---------------------------------------------------------------------
  // The claim
  // ---------------------------------------------------------------------

  /** The search for a ready item of `host` from position `i` on. */
  function ClaimFrom(next: seq<Item>, host: string, i: nat): (r: Option<nat>)
    requires i <= |next|
    ensures r.Some? ==> i <= r.value < |next| && next[r.value].url.host == host
                        && forall j | i <= j < r.value :: next[j].url.host != host
    ensures r.None? <==> forall j | i <= j < |next| :: next[j].url.host != host
    decreases |next| - i
  {
    if i == |next| then None
    else if next[i].url.host == host then Some(i)
    else ClaimFrom(next, host, i + 1)
  }

  /** A worker claims the first ready item of its host, if any. */
  function Claim(next: seq<Item>, host: string): (r: Option<nat>)
    ensures r.Some? ==> r.value < |next| && next[r.value].url.host == host
                        && forall j | 0 <= j < r.value :: next[j].url.host != host
    ensures r.None? <==> forall j | 0 <= j < |next| :: next[j].url.host != host
  {
    ClaimFrom(next, host, 0)
  }

  /** The list without position `i`: `nextUrls.remove` of the claimed entry. */
  function RemoveAt(next: seq<Item>, i: nat): (r: seq<Item>)
    requires i < |next|
    ensures |r| == |next| - 1
    ensures forall j | 0 <= j < i :: r[j] == next[j]
    ensures forall j | i <= j < |r| :: r[j] == next[j + 1]
  {
    next[..i] + next[i + 1..]
  }

  // ---------------------------------------------------------------------
  // Robots and the depth dispatch
  // ---------------------------------------------------------------------

  /** Links as frontier items, all at depth `d`. */
  function AtDepth(links: seq<Url>, d: Int32): (r: seq<Item>)
    ensures |r| == |links|
    ensures forall k | 0 <= k < |r| :: r[k].url == links[k] && r[k].depth == d
  {
    seq(|links|, k requires 0 <= k < |links| => NewItem(links[k], d))
  }

  /** The outcome of the robots step: the new excluded list and the entries fetched. */
  datatype RobotsStep = RobotsStep(excluded: seq<Url>, found: seq<Url>)

  /**
   * The robots step before a visit: when no visited URL shares the page's
   * protocol and host, its robots entries are fetched, and a non-empty list
   * is appended to the excluded list, which `removeRepeated` then rewrites.
   * A fault of the fetch is the step's fault.
   */
  function RobotsUpdate(excluded: seq<Url>, visited: seq<Url>, u: Url, env: Env): (r: Result<RobotsStep, Fault>)
    ensures IsVisitedHost(u, visited) ==> r == Success(RobotsStep(excluded, []))
    ensures r.Failure? <==> !IsVisitedHost(u, visited) && GetExcludedList(u, env.robots(u), env.parse, env.norm).Failure?
    ensures r.Failure? ==> r.error == GetExcludedList(u, env.robots(u), env.parse, env.norm).error
    ensures r.Success? && !IsVisitedHost(u, visited) ==>
              r.value.found == GetExcludedList(u, env.robots(u), env.parse, env.norm).value
    ensures r.Success? ==> forall q | 0 <= q < |r.value.found| :: Entry(env.robots(u).value, BaseLink(u), env.parse, env.norm, r.value.found[q])
    ensures r.Success? ==> IsSubseq(r.value.excluded, excluded + r.value.found)
    ensures r.Success? && UniqueTexts(excluded + r.value.found) ==> r.value.excluded == excluded + r.value.found
    ensures r.Success? && r.value.found == [] ==> r.value.excluded == excluded
  {
    if IsVisitedHost(u, visited) then
      SubseqRefl(excluded);
      assert excluded + [] == excluded;
      Success(RobotsStep(excluded, []))
    else
      var found :- GetExcludedList(u, env.robots(u), env.parse, env.norm);
      if |found| > 0 then
        Success(RobotsStep(RemoveRepeated(excluded + found), found))
      else
        SubseqRefl(excluded);
        assert found == [] && excluded + found == excluded;
        Success(RobotsStep(excluded, found))
  }

  /**
   * What the local `results` holds after the robots step: the rewritten
   * excluded list when entries were found, nothing otherwise.
   */
  function Leaked(rs: RobotsStep): (r: seq<Url>)
    ensures r == [] <==> rs.found == [] || rs.excluded == []
    ensures r != [] ==> r == rs.excluded
  {
    if |rs.found| > 0 then rs.excluded else []
  }

  /**
   * The crawl branch (`depth + 1 <= maxCrawlDepth`) for the normalized URL
   * `u` of an item at depth `d`.  A fault of the robots step is caught with
   * nothing to enqueue and the URL marked visited.  An excluded URL is not crawled and not marked, but
   * whatever `results` holds is still enqueued; so is it when the crawl
   * throws.  Otherwise the page's outlinks are enqueued at `depth + 1` and
   * the URL is marked visited.  The caught paths clear the busy flag.
   */
  function CrawlBranch(l: Lists, busy: bool, u: Url, d: Int32, env: Env): (r: Step)
  {
    match RobotsUpdate(l.excluded, l.visited, u, env)
    case Failure(_) =>
      Step(State(l.(visited := MarkAsVisited(l.visited, u)), false), Aborted)
    case Success(rs) =>
      if IsExcluded(u, rs.excluded) then
        Step(State(l.(excluded := rs.excluded, tentative := l.tentative + AtDepth(Leaked(rs), IncDepth(d))), false), Excluded)
      else
        match env.crawl(u)
        case Some(links) =>
          Step(State(l.(excluded := rs.excluded, tentative := l.tentative + AtDepth(links, IncDepth(d)),
                        visited := MarkAsVisited(l.visited, u)), busy), Crawled)
        case None =>
          Step(State(l.(excluded := rs.excluded, tentative := l.tentative + AtDepth(Leaked(rs), IncDepth(d)),
                        visited := MarkAsVisited(l.visited, u)), false), Crawled)
  }

  /**
   * The index-only branch (`depth == maxCrawlDepth`): the same robots step;
   * an excluded URL is left alone, otherwise the page is fetched for
   * indexing (an exception caught while fetching, indexing or following
   * redirects clears the busy flag) and marked visited.
   * Nothing is enqueued.
   */
  function IndexBranch(l: Lists, busy: bool, u: Url, env: Env): (r: Step)
  {
    match RobotsUpdate(l.excluded, l.visited, u, env)
    case Failure(_) =>
      Step(State(l.(visited := MarkAsVisited(l.visited, u)), false), Aborted)
    case Success(rs) =>
      if IsExcluded(u, rs.excluded) then
        Step(State(l.(excluded := rs.excluded), busy), Excluded)
      else
        Step(State(l.(excluded := rs.excluded, visited := MarkAsVisited(l.visited, u)), busy && env.reachable(u)), Indexed)
  }

  /**
   * A ready item's text normalized and parsed: a fault of the normalizer,
   * `None` for a malformed result, or the URL to visit.
   */
  function Target(item: Item, env: Env): (r: Result<Option<Url>, Fault>)
    ensures r.Failure? <==> env.norm(item.url.text).Failure?
    ensures r.Failure? ==> r.error == env.norm(item.url.text).error
    ensures r.Success? ==> (r.value.Some? <==> env.parse(env.norm(item.url.text).value).Some?)
    ensures r.Success? && r.value.Some? ==> r.value.value.text == env.parse(env.norm(item.url.text).value).value.text
  {
    var t :- env.norm(item.url.text);
    Success(ParseUrl(t, env.parse))
  }

  /** With the crawler's normalizer the only uncaught normalization fault is an index fault. */
  lemma TargetFaults(item: Item, env: Env)
    requires UsesPartial(env)
    ensures Target(item, env).Failure? ==> Target(item, env).error == IndexOutOfBounds
  {
    PartialFaults(env.numeric, item.url.text);
  }

  /** With the crawler's normalizer the only fault of the robots step is an index fault. */
  lemma RobotsFaults(excluded: seq<Url>, visited: seq<Url>, u: Url, env: Env)
    requires UsesPartial(env)
    ensures RobotsUpdate(excluded, visited, u, env).Failure? ==>
              RobotsUpdate(excluded, visited, u, env).error == IndexOutOfBounds
  {
    var r := RobotsUpdate(excluded, visited, u, env);
    if r.Failure? {
      var lines := env.robots(u).value;
      var k :| 0 <= k < |lines| && env.norm(PathLink(BaseLink(u), lines[k])) == Failure(r.error);
      PartialFaults(env.numeric, PathLink(BaseLink(u), lines[k]));
    }
  }

  /**
   * One host's turn in a worker's pass.  The first ready item of the host is
   * claimed and its text normalized and parsed: a normalizer fault kills the
   * thread; a malformed result removes the item, clears the busy flag and
   * then kills the thread on the null URL.  A visited URL (a fault there
   * kills the thread) is dropped.  Otherwise the depth picks the branch, and
   * the claimed item leaves the ready list.
   */
  function Visit(st: State, host: string, env: Env): (r: Step)
  {
    var l := st.lists;
    match Claim(l.next, host)
    case None => Step(st, NoItem)
    case Some(i) =>
      var item := l.next[i];
      var rest := l.(next := RemoveAt(l.next, i));
      match Target(item, env)
      case Failure(f) => Step(st, Halted(f))
      case Success(None) => Step(State(rest, false), Halted(NullPointer))
      case Success(Some(u)) =>
        match IsVisited(u, l.visited, env.numeric)
        case Failure(f) => Step(st, Halted(f))
        case Success(true) => Step(State(rest, st.busy), Discarded)
        case Success(false) => Dispatch(rest, st.busy, u, item.depth, env)
  }

  /** The depth dispatch for an unvisited URL `u` whose item is at depth `d`. */
  function Dispatch(l: Lists, busy: bool, u: Url, d: Int32, env: Env): (r: Step)
  {
    if IncDepth(d) <= env.maxDepth then CrawlBranch(l, busy, u, d, env)
    else if d == env.maxDepth then IndexBranch(l, busy, u, env)
    else Step(State(l, busy), TooDeep)
  }

  /**
   * Whatever the branch, the ready list is untouched, the thread survives,
   * and the visited list is either unchanged or has `u` marked.
   */
  lemma DispatchFrame(l: Lists, busy: bool, u: Url, d: Int32, env: Env)
    ensures var r := Dispatch(l, busy, u, d, env);
      r.state.lists.next == l.next && Attempted(r.outcome)
      && (r.state.lists.visited == l.visited || r.state.lists.visited == MarkAsVisited(l.visited, u))
  {
    if IncDepth(d) <= env.maxDepth {
      CrawlBranchFrame(l, busy, u, d, env);
    } else if d == env.maxDepth {
      IndexBranchFrame(l, busy, u, env);
    }
  }

  /**
   * The crawl branch keeps the ready list, ends crawled, aborted or
   * excluded, marks a crawled or aborted URL, and leaves an excluded one
   * unmarked and excluded.  It is aborted exactly when the robots step
   * throws, and then nothing but the visited list and the busy flag changes.
   */
  lemma CrawlBranchFrame(l: Lists, busy: bool, u: Url, d: Int32, env: Env)
    ensures var r := CrawlBranch(l, busy, u, d, env); var l' := r.state.lists;
      l'.next == l.next && (r.outcome == Crawled || r.outcome == Aborted || r.outcome == Excluded)
      && (r.outcome == Crawled || r.outcome == Aborted ==> l'.visited == MarkAsVisited(l.visited, u))
      && (r.outcome == Excluded ==> l'.visited == l.visited && IsExcluded(u, l'.excluded))
      && (r.outcome == Aborted <==> RobotsUpdate(l.excluded, l.visited, u, env).Failure?)
      && (r.outcome == Aborted ==> r.state == State(l.(visited := MarkAsVisited(l.visited, u)), false))
  {
    match RobotsUpdate(l.excluded, l.visited, u, env)
    case Failure(_) =>
    case Success(rs) =>
      if !IsExcluded(u, rs.excluded) {
        match env.crawl(u)
        case Some(_) =>
        case None =>
      }
  }

  /**
   * The index-only branch keeps the ready list, ends indexed, aborted or
   * excluded, marks an indexed or aborted URL, and leaves an excluded one
   * unmarked and excluded.  It is aborted exactly when the robots step
   * throws, and then nothing but the visited list and the busy flag changes.
   */
  lemma IndexBranchFrame(l: Lists, busy: bool, u: Url, env: Env)
    ensures var r := IndexBranch(l, busy, u, env); var l' := r.state.lists;
      l'.next == l.next && (r.outcome == Indexed || r.outcome == Aborted || r.outcome == Excluded)
      && (r.outcome == Indexed || r.outcome == Aborted ==> l'.visited == MarkAsVisited(l.visited, u))
      && (r.outcome == Excluded ==> l'.visited == l.visited && IsExcluded(u, l'.excluded))
      && (r.outcome == Aborted <==> RobotsUpdate(l.excluded, l.visited, u, env).Failure?)
      && (r.outcome == Aborted ==> r.state == State(l.(visited := MarkAsVisited(l.visited, u)), false))
  {
    match RobotsUpdate(l.excluded, l.visited, u, env)
    case Failure(_) =>
    case Success(rs) =>
  }

  // ---------------------------------------------------------------------
  // What one turn promises
  // ---------------------------------------------------------------------

  /** Removing the claimed entry keeps the others in order. */
  lemma {:induction false} RemoveAtSubseq(next: seq<Item>, i: nat)
    requires i < |next|
    ensures IsSubseq(RemoveAt(next, i), next)
    decreases i
  {
    if i == 0 {
      assert RemoveAt(next, 0) == next[1..];
      SubseqRefl(next[1..]);
    } else {
      assert RemoveAt(next, i)[1..] == RemoveAt(next[1..], i - 1);
      RemoveAtSubseq(next[1..], i - 1);
    }
  }

  /** A host with no ready item leaves everything as it was, and only then is there nothing to claim. */
  lemma VisitNoItem(st: State, host: string, env: Env)
    ensures var r := Visit(st, host, env);
      (r.outcome == NoItem <==> forall j | 0 <= j < |st.lists.next| :: st.lists.next[j].url.host != host)
      && (r.outcome == NoItem ==> r.state == st)
  {
    match Claim(st.lists.next, host)
    case None =>
    case Some(i) =>
      var item := st.lists.next[i];
      match Target(item, env)
      case Failure(_) =>
      case Success(None) =>
      case Success(Some(u)) =>
        if IsVisited(u, st.lists.visited, env.numeric) == Success(false) {
          var rest := st.lists.(next := RemoveAt(st.lists.next, i));
          assert Visit(st, host, env) == Dispatch(rest, st.busy, u, item.depth, env);
          DispatchFrame(rest, st.busy, u, item.depth, env);
        }
  }

  /**
   * The claimed item leaves the ready list on every path but the uncaught
   * faults, which leave the state as it was; a malformed URL is removed
   * and clears the busy flag before the thread dies.
   */
  lemma VisitRemovesClaim(st: State, host: string, env: Env, i: nat)
    requires Claim(st.lists.next, host) == Some(i)
    ensures var r := Visit(st, host, env);
      (!r.outcome.Halted? ==> r.state.lists.next == RemoveAt(st.lists.next, i))
      && (r.outcome.Halted? ==> r.state == st
                                || (Target(st.lists.next[i], env) == Success(None)
                                    && r.state == State(st.lists.(next := RemoveAt(st.lists.next, i)), false)))
  {
    var rest := st.lists.(next := RemoveAt(st.lists.next, i));
    var item := st.lists.next[i];
    match Target(item, env)
    case Failure(_) =>
    case Success(None) =>
    case Success(Some(u)) =>
      if IsVisited(u, st.lists.visited, env.numeric) == Success(false) {
        assert Visit(st, host, env) == Dispatch(rest, st.busy, u, item.depth, env);
        DispatchFrame(rest, st.busy, u, item.depth, env);
      }
  }

  /** An already visited URL is dropped and nothing else changes. */
  lemma VisitDiscards(st: State, host: string, env: Env, i: nat, u: Url)
    requires Claim(st.lists.next, host) == Some(i)
    requires Target(st.lists.next[i], env) == Success(Some(u))
    requires IsVisited(u, st.lists.visited, env.numeric) == Success(true)
    ensures Visit(st, host, env) == Step(State(st.lists.(next := RemoveAt(st.lists.next, i)), st.busy), Discarded)
  {
  }

  /**
   * The depth dispatch for an unvisited URL at depth `d`: crawled (or found
   * excluded, or aborted by the robots step) when `d + 1 <= max` in 32-bit
   * arithmetic; indexed only (or found excluded, or aborted) when
   * `d == max`; otherwise left alone.  A crawled, indexed or aborted URL is
   * marked visited; an excluded one is not, and is excluded by the updated
   * list.  Only the crawl branch enqueues, at `d + 1`.
   */
  lemma DispatchRules(l: Lists, busy: bool, u: Url, d: Int32, env: Env)
    ensures var r := Dispatch(l, busy, u, d, env);
      (IncDepth(d) <= env.maxDepth ==> r.outcome == Crawled || r.outcome == Aborted || r.outcome == Excluded)
      && (IncDepth(d) > env.maxDepth && d == env.maxDepth ==> r.outcome == Indexed || r.outcome == Aborted || r.outcome == Excluded)
      && (IncDepth(d) > env.maxDepth && d != env.maxDepth ==> r == Step(State(l, busy), TooDeep))
  {
    if IncDepth(d) <= env.maxDepth {
      CrawlBranchFrame(l, busy, u, d, env);
    } else if d == env.maxDepth {
      IndexBranchFrame(l, busy, u, env);
    }
  }

  /**
   * A crawled, indexed or aborted URL is marked visited; an excluded one is not, and
   * is excluded by the updated list.
   */
  lemma DispatchMarks(l: Lists, busy: bool, u: Url, d: Int32, env: Env)
    ensures var r := Dispatch(l, busy, u, d, env); var l' := r.state.lists;
      (r.outcome == Crawled || r.outcome == Indexed || r.outcome == Aborted ==> l'.visited == MarkAsVisited(l.visited, u))
      && (r.outcome == Excluded ==> l'.visited == l.visited && IsExcluded(u, l'.excluded))
  {
    if IncDepth(d) <= env.maxDepth {
      CrawlBranchFrame(l, busy, u, d, env);
    } else if d == env.maxDepth {
      IndexBranchFrame(l, busy, u, env);
    }
  }

  /** Only the crawl branch enqueues, and only at `d + 1`; what was pending stays in front. */
  lemma DispatchEnqueues(l: Lists, busy: bool, u: Url, d: Int32, env: Env)
    ensures var l' := Dispatch(l, busy, u, d, env).state.lists;
      (IncDepth(d) > env.maxDepth ==> l'.tentative == l.tentative)
      && |l.tentative| <= |l'.tentative| && l'.tentative[..|l.tentative|] == l.tentative
      && (forall k | |l.tentative| <= k < |l'.tentative| :: l'.tentative[k].depth == IncDepth(d))
    ensures var l' := Dispatch(l, busy, u, d, env).state.lists;
      IncDepth(d) <= env.maxDepth && RobotsUpdate(l.excluded, l.visited, u, env).Success?
      && !IsExcluded(u, RobotsUpdate(l.excluded, l.visited, u, env).value.excluded) && env.crawl(u).Some? ==>
        l'.tentative == l.tentative + AtDepth(env.crawl(u).value, IncDepth(d))
  {
    if IncDepth(d) <= env.maxDepth {
      var l' := CrawlBranch(l, busy, u, d, env).state.lists;
      match RobotsUpdate(l.excluded, l.visited, u, env)
      case Failure(_) =>
      case Success(rs) =>
        if IsExcluded(u, rs.excluded) {
          AppendAtDepth(l.tentative, Leaked(rs), IncDepth(d));
        } else {
          match env.crawl(u)
          case Some(links) => AppendAtDepth(l.tentative, links, IncDepth(d));
          case None => AppendAtDepth(l.tentative, Leaked(rs), IncDepth(d));
        }
    }
  }

  /** Appending links at depth `d` keeps the list in front and adds only depth-`d` items. */
  lemma AppendAtDepth(t: seq<Item>, links: seq<Url>, d: Int32)
    ensures var t' := t + AtDepth(links, d);
      |t'| == |t| + |links| && t'[..|t|] == t && forall k | |t| <= k < |t'| :: t'[k].depth == d
  {
    var t' := t + AtDepth(links, d);
    assert t'[..|t|] == t;
    forall k | |t| <= k < |t'| ensures t'[k].depth == d {
      assert t'[k] == AtDepth(links, d)[k - |t|];
    }
  }

  /** The dispatch rules, seen from a turn that claimed position `i` whose URL is `u` and unvisited. */
  lemma VisitDispatch(st: State, host: string, env: Env, i: nat, u: Url)
    requires Claim(st.lists.next, host) == Some(i)
    requires Target(st.lists.next[i], env) == Success(Some(u))
    requires IsVisited(u, st.lists.visited, env.numeric) == Success(false)
    ensures Visit(st, host, env) == Dispatch(st.lists.(next := RemoveAt(st.lists.next, i)), st.busy, u, st.lists.next[i].depth, env)
  {
  }

  /** Every turn keeps the visited list append-only and free of repeats. */
  lemma VisitAppendsVisited(st: State, host: string, env: Env)
    ensures var v := st.lists.visited; var v' := Visit(st, host, env).state.lists.visited;
      |v| <= |v'| <= |v| + 1 && v'[..|v|] == v && (UniqueTexts(v) ==> UniqueTexts(v'))
  {
    match Claim(st.lists.next, host)
    case None =>
    case Some(i) =>
      var rest := st.lists.(next := RemoveAt(st.lists.next, i));
      var item := st.lists.next[i];
      match Target(item, env)
      case Failure(_) =>
      case Success(None) =>
      case Success(Some(u)) =>
        if IsVisited(u, st.lists.visited, env.numeric) == Success(false) {
          assert Visit(st, host, env) == Dispatch(rest, st.busy, u, item.depth, env);
          DispatchFrame(rest, st.busy, u, item.depth, env);
        }
  }

  /**
   * As written, an excluded URL in the crawl branch still enqueues the
   * local `results`: after a non-empty robots fetch that is the whole
   * rewritten excluded list, at `depth + 1`.
   */
  lemma ExcludedCrawlLeaks(l: Lists, busy: bool, u: Url, d: Int32, env: Env, rs: RobotsStep)
    requires RobotsUpdate(l.excluded, l.visited, u, env) == Success(rs)
    requires |rs.found| > 0 && IsExcluded(u, rs.excluded)
    ensures CrawlBranch(l, busy, u, d, env).state.lists.tentative == l.tentative + AtDepth(rs.excluded, IncDepth(d))
    ensures CrawlBranch(l, busy, u, d, env).outcome == Excluded
  {
  }

  /**
   * As written, a crawl that throws after a non-empty robots fetch also
   * enqueues the whole rewritten excluded list at `depth + 1`, and the URL
   * still counts as crawled.
   */
  lemma FailedCrawlLeaks(l: Lists, busy: bool, u: Url, d: Int32, env: Env, rs: RobotsStep)
    requires RobotsUpdate(l.excluded, l.visited, u, env) == Success(rs)
    requires |rs.found| > 0 && !IsExcluded(u, rs.excluded) && env.crawl(u).None?
    ensures CrawlBranch(l, busy, u, d, env).state.lists.tentative == l.tentative + AtDepth(rs.excluded, IncDepth(d))
    ensures CrawlBranch(l, busy, u, d, env).outcome == Crawled
  {
  }

  /**
   * What the crawl branch enqueues: after a robots fault nothing; otherwise
   * the crawled page's links when the URL is not excluded and the crawl
   * returns, and the local `results` (the leaked robots list) when it is
   * excluded or the crawl throws, all at `depth + 1` behind what was pending.
   */
  lemma CrawlBranchEnqueues(l: Lists, busy: bool, u: Url, d: Int32, env: Env)
    ensures RobotsUpdate(l.excluded, l.visited, u, env).Failure? ==>
              CrawlBranch(l, busy, u, d, env).state.lists.tentative == l.tentative
    ensures RobotsUpdate(l.excluded, l.visited, u, env).Success? ==>
              var rs := RobotsUpdate(l.excluded, l.visited, u, env).value;
              CrawlBranch(l, busy, u, d, env).state.lists.tentative ==
                l.tentative + AtDepth(if !IsExcluded(u, rs.excluded) && env.crawl(u).Some? then env.crawl(u).value else Leaked(rs),
                                      IncDepth(d))
  {
  }

  /**
   * The leaked entries are harmless to the next merge as long as the
   * excluded list still holds them: each is excluded by itself.
   */
  lemma LeakedAreExcluded(rs: RobotsStep)
    ensures forall k | 0 <= k < |Leaked(rs)| :: IsExcluded(Leaked(rs)[k], rs.excluded)
  {
    forall k | 0 <= k < |Leaked(rs)| ensures IsExcluded(Leaked(rs)[k], rs.excluded) {
      assert ExcludedBy(rs.excluded[k].text, rs.excluded[k].text);
    }
  }

  // ---------------------------------------------------------------------
  // The pass over a worker's hosts
  // ---------------------------------------------------------------------

  /** The outcome of one pass: the state, whether any claim was attempted, and the fault that killed the thread, if any. */
  datatype Pass = Pass(state: State, attempted: bool, halted: Option<Fault>)

  /** A host's turn on a state: `Visit` with the environment fixed. */
  type Turn = (State, string) -> Step

  /**
   * What the pass relies on of a turn: it removes at most one ready item,
   * exactly one when it attempts a visit, and only appends to the visited
   * list, keeping it free of repeats.
   */
  ghost predicate TurnRules(turn: Turn) {
    forall st: State, host: string ::
      IsSubseq(turn(st, host).state.lists.next, st.lists.next)
      && |st.lists.next| - 1 <= |turn(st, host).state.lists.next|
      && (Attempted(turn(st, host).outcome) ==> |turn(st, host).state.lists.next| == |st.lists.next| - 1)
      && |st.lists.visited| <= |turn(st, host).state.lists.visited|
      && turn(st, host).state.lists.visited[..|st.lists.visited|] == st.lists.visited
      && (UniqueTexts(st.lists.visited) ==> UniqueTexts(turn(st, host).state.lists.visited))
  }

  /** The worker's turn in an environment. */
  function VisitTurn(env: Env): (turn: Turn)
    ensures forall st, host :: turn(st, host) == Visit(st, host, env)
  {
    (st: State, host: string) => Visit(st, host, env)
  }

  /** The worker's turn keeps the rules the pass relies on. */
  lemma VisitTurnRules(env: Env)
    ensures TurnRules(VisitTurn(env))
  {
    forall st: State, host: string
      ensures IsSubseq(Visit(st, host, env).state.lists.next, st.lists.next)
      ensures |st.lists.next| - 1 <= |Visit(st, host, env).state.lists.next|
      ensures Attempted(Visit(st, host, env).outcome) ==> |Visit(st, host, env).state.lists.next| == |st.lists.next| - 1
      ensures |st.lists.visited| <= |Visit(st, host, env).state.lists.visited|
      ensures Visit(st, host, env).state.lists.visited[..|st.lists.visited|] == st.lists.visited
      ensures UniqueTexts(st.lists.visited) ==> UniqueTexts(Visit(st, host, env).state.lists.visited)
    {
      VisitShrinksNext(st, host, env);
      VisitAttemptConsumes(st, host, env);
      VisitAppendsVisited(st, host, env);
    }
  }

  /**
   * The pass from host `k` of the snapshot on: one turn per host, in order,
   * each on the lists the previous turns left; an uncaught fault ends it.
   */
  function PassFrom(st: State, hosts: seq<string>, k: nat, turn: Turn, attempted: bool): (r: Pass)
    requires k <= |hosts| && TurnRules(turn)
    ensures IsSubseq(r.state.lists.next, st.lists.next)
    ensures attempted ==> r.attempted
    decreases |hosts| - k
  {
    if k == |hosts| then
      SubseqRefl(st.lists.next);
      Pass(st, attempted, None)
    else
      var step := turn(st, hosts[k]);
      if step.outcome.Halted? then Pass(step.state, attempted, Some(step.outcome.fault))
      else
        var r := PassFrom(step.state, hosts, k + 1, turn, attempted || Attempted(step.outcome));
        SubseqTrans(r.state.lists.next, step.state.lists.next, st.lists.next);
        r
  }

  /**
   * A pass removes at most one ready item per host, and reports an attempt
   * only when one was reported before it or the ready list shrank.
   */
  lemma {:induction false} PassConsumes(st: State, hosts: seq<string>, k: nat, turn: Turn, attempted: bool)
    requires k <= |hosts| && TurnRules(turn)
    ensures var r := PassFrom(st, hosts, k, turn, attempted);
      |st.lists.next| - |r.state.lists.next| <= |hosts| - k
      && (r.attempted ==> attempted || |r.state.lists.next| < |st.lists.next|)
    decreases |hosts| - k
  {
    if k < |hosts| {
      var step := turn(st, hosts[k]);
      if !step.outcome.Halted? {
        var was := attempted || Attempted(step.outcome);
        PassConsumes(step.state, hosts, k + 1, turn, was);
        var r := PassFrom(step.state, hosts, k + 1, turn, was);
        assert PassFrom(st, hosts, k, turn, attempted) == r;
        SubseqMembers(r.state.lists.next, step.state.lists.next);
        SubseqMembers(step.state.lists.next, st.lists.next);
      }
    }
  }

  /** A pass keeps the visited list append-only and free of repeats. */
  lemma {:induction false} PassAppendsVisited(st: State, hosts: seq<string>, k: nat, turn: Turn, attempted: bool)
    requires k <= |hosts| && TurnRules(turn)
    ensures var v := st.lists.visited; var v' := PassFrom(st, hosts, k, turn, attempted).state.lists.visited;
      |v| <= |v'| && v'[..|v|] == v && (UniqueTexts(v) ==> UniqueTexts(v'))
    decreases |hosts| - k
  {
    if k < |hosts| {
      var step := turn(st, hosts[k]);
      if !step.outcome.Halted? {
        var was := attempted || Attempted(step.outcome);
        PassAppendsVisited(step.state, hosts, k + 1, turn, was);
        var v' := PassFrom(step.state, hosts, k + 1, turn, was).state.lists.visited;
        assert v'[..|st.lists.visited|] == v'[..|step.state.lists.visited|][..|st.lists.visited|];
      }
    }
  }

  /** A turn removes at most its claimed item from the ready list. */
  lemma VisitShrinksNext(st: State, host: string, env: Env)
    ensures var n' := Visit(st, host, env).state.lists.next;
      IsSubseq(n', st.lists.next) && |st.lists.next| - 1 <= |n'|
  {
    match Claim(st.lists.next, host)
    case None => SubseqRefl(st.lists.next);
    case Some(i) =>
      VisitRemovesClaim(st, host, env, i);
      RemoveAtSubseq(st.lists.next, i);
      SubseqRefl(st.lists.next);
  }

  /** A turn that attempts a visit has consumed its claimed item. */
  lemma VisitAttemptConsumes(st: State, host: string, env: Env)
    ensures Attempted(Visit(st, host, env).outcome) ==> |Visit(st, host, env).state.lists.next| == |st.lists.next| - 1
  {
    match Claim(st.lists.next, host)
    case None =>
    case Some(i) => VisitRemovesClaim(st, host, env, i);
  }

  /**
   * One pass of the `run` loop over a snapshot of the worker's hosts: the
   * ready list loses at most one item per host, and an attempt means it
   * lost one; the visited list is only appended to.
   */
  function RunPass(st: State, hosts: seq<string>, env: Env): (r: Pass)
    ensures IsSubseq(r.state.lists.next, st.lists.next)
    ensures |st.lists.next| - |r.state.lists.next| <= |hosts|
    ensures r.attempted ==> |r.state.lists.next| < |st.lists.next|
    ensures |st.lists.visited| <= |r.state.lists.visited| && r.state.lists.visited[..|st.lists.visited|] == st.lists.visited
    ensures UniqueTexts(st.lists.visited) ==> UniqueTexts(r.state.lists.visited)
  {
    VisitTurnRules(env);
    PassConsumes(st, hosts, 0, VisitTurn(env), false);
    PassAppendsVisited(st, hosts, 0, VisitTurn(env), false);
    PassFrom(st, hosts, 0, VisitTurn(env), false)
  }

  /** The check after a pass, from host `k` on: a ready item of one of the hosts remains. */
  function LeftFrom(next: seq<Item>, hosts: seq<string>, k: nat): (b: bool)
    requires k <= |hosts|
    ensures b <==> exists j, h | 0 <= j < |next| && k <= h < |hosts| :: next[j].url.host == hosts[h]
    decreases |hosts| - k
  {
    if k == |hosts| then false
    else if Claim(next, hosts[k]).Some? then true
    else LeftFrom(next, hosts, k + 1)
  }

  /** `somethingLeftToCrawl`: some ready item belongs to one of the worker's hosts. */
  function SomethingLeft(next: seq<Item>, hosts: seq<string>): (b: bool)
    ensures b <==> exists j, h | 0 <= j < |next| && 0 <= h < |hosts| :: next[j].url.host == hosts[h]
    ensures b <==> exists h | 0 <= h < |hosts| :: Claim(next, hosts[h]).Some?
  {
    LeftFrom(next, hosts, 0)
  }

  /** What the thread does after a pass. */
  datatype After = Dead | Done | Sleep | Again

  /**
   * After a pass the thread is dead if a fault escaped; otherwise it ends
   * its loop (clearing its busy flag) when nothing of its hosts is left,
   * sleeps before the next pass when something is left and some claim was
   * attempted, and passes again at once otherwise.
   */
  function AfterPass(p: Pass, hosts: seq<string>): (a: After)
    ensures a == Dead <==> p.halted.Some?
    ensures a == Sleep <==> p.halted.None? && SomethingLeft(p.state.lists.next, hosts) && p.attempted
    ensures a == Again <==> p.halted.None? && SomethingLeft(p.state.lists.next, hosts) && !p.attempted
    ensures a == Done <==> p.halted.None? && forall j, h | 0 <= j < |p.state.lists.next| && 0 <= h < |hosts| ::
                                                 p.state.lists.next[j].url.host != hosts[h]
  {
    if p.halted.Some? then Dead
    else if !SomethingLeft(p.state.lists.next, hosts) then Done
    else if p.attempted then Sleep
    else Again
  }

  // ---------------------------------------------------------------------
  // The first seed
  // ---------------------------------------------------------------------

  /**
   * The crawl of the first seed before the workers start: the first ready
   * item is visited by the main thread.  In the crawl branch its robots
   * entries are merged as in a worker, then the page's outlinks (or, when
   * the crawl throws, the raw robots entries) join the tentative list at
   * depth 1, which is deduplicated and filtered by the visited and excluded
   * lists; a robots fault is caught before the crawl.  In the index-only
   * branch only the robots step changes a list.  Either way the seed is
   * marked visited, excluded or not, and leaves the ready list.
   */
  function Bootstrap(l: Lists, env: Env): (r: Lists)
  {
    if |l.next| == 0 then l
    else
      var u := l.next[0].url;
      var d := l.next[0].depth;
      var marked := MarkAsVisited(l.visited, u);
      if IncDepth(d) <= env.maxDepth then
        match RobotsUpdate(l.excluded, l.visited, u, env)
        case Failure(_) => Lists(l.next[1..], FirstPages(l.tentative, [], l.visited, l.excluded), marked, l.excluded)
        case Success(rs) =>
          var pages := match env.crawl(u) case Some(links) => links case None => rs.found;
          Lists(l.next[1..], FirstPages(l.tentative, pages, l.visited, rs.excluded), marked, rs.excluded)
      else if d == env.maxDepth then
        match RobotsUpdate(l.excluded, l.visited, u, env)
        case Failure(_) => Lists(l.next[1..], l.tentative, marked, l.excluded)
        case Success(rs) => Lists(l.next[1..], l.tentative, marked, rs.excluded)
      else Lists(l.next[1..], l.tentative, marked, l.excluded)
  }

  /**
   * The first page's links at depth 1 join the tentative list, which is
   * deduplicated, then filtered by the visited list, then by the prefix rule.
   */
  function FirstPages(tentative: seq<Item>, pages: seq<Url>, visited: seq<Url>, excluded: seq<Url>): (r: seq<Item>)
    ensures UniqueItems(r)
    ensures forall k | 0 <= k < |r| :: !Listed(r[k].url.text, visited) && !IsExcluded(r[k].url, excluded)
    ensures forall k | 0 <= k < |r| ::
              r[k].depth == 1 || exists j | 0 <= j < |tentative| :: tentative[j].url.text == r[k].url.text
    ensures forall p | p in pages && !Listed(p.text, visited) && !IsExcluded(p, excluded) ::
              exists y | y in r :: y.url.text == p.text && y.depth <= 1
    ensures forall x | x in tentative && !Listed(x.url.text, visited) && !IsExcluded(x.url, excluded) ::
              exists y | y in r :: y.url.text == x.url.text && y.depth <= x.depth
  {
    var all := tentative + AtDepth(pages, 1);
    var t1 := CleanUrlList(all);
    var t2 := RemoveVisited(t1, visited);
    var t3 := RemoveExcluded(t2, excluded);
    FirstPagesStages(tentative, pages, all, t1, t2, t3, visited, excluded);
    CleanDominates(all);
    FirstPagesKeeps(tentative, pages, all, t1, t2, t3, visited, excluded);
    t3
  }

  /**
   * No candidate of `FirstPages` is lost: every unvisited, non-excluded link
   * of the page, and every such pending item, has a copy in the result at no
   * greater depth.
   */
  lemma FirstPagesKeeps(tentative: seq<Item>, pages: seq<Url>, all: seq<Item>, t1: seq<Item>, t2: seq<Item>, t3: seq<Item>,
                        visited: seq<Url>, excluded: seq<Url>)
    requires all == tentative + AtDepth(pages, 1)
    requires Dominates(all, t1)
    requires forall x :: multiset(t2)[x] == if Listed(x.url.text, visited) then 0 else multiset(t1)[x]
    requires forall x :: multiset(t3)[x] == if IsExcluded(x.url, excluded) then 0 else multiset(t2)[x]
    ensures forall p | p in pages && !Listed(p.text, visited) && !IsExcluded(p, excluded) ::
              exists y | y in t3 :: y.url.text == p.text && y.depth <= 1
    ensures forall x | x in tentative && !Listed(x.url.text, visited) && !IsExcluded(x.url, excluded) ::
              exists y | y in t3 :: y.url.text == x.url.text && y.depth <= x.depth
  {
    forall p | p in pages && !Listed(p.text, visited) && !IsExcluded(p, excluded)
      ensures exists y | y in t3 :: y.url.text == p.text && y.depth <= 1
    {
      var q :| 0 <= q < |pages| && pages[q] == p;
      assert all[|tentative| + q] == AtDepth(pages, 1)[q];
      KeptCopy(all, t1, t2, t3, visited, excluded, |tentative| + q);
    }
    forall x | x in tentative && !Listed(x.url.text, visited) && !IsExcluded(x.url, excluded)
      ensures exists y | y in t3 :: y.url.text == x.url.text && y.depth <= x.depth
    {
      var q :| 0 <= q < |tentative| && tentative[q] == x;
      assert all[q] == x;
      KeptCopy(all, t1, t2, t3, visited, excluded, q);
    }
  }

  /** An unvisited, non-excluded input item keeps a copy through the three stages. */
  lemma KeptCopy(all: seq<Item>, t1: seq<Item>, t2: seq<Item>, t3: seq<Item>, visited: seq<Url>, excluded: seq<Url>, q: nat)
    requires q < |all| && Dominates(all, t1)
    requires forall x :: multiset(t2)[x] == if Listed(x.url.text, visited) then 0 else multiset(t1)[x]
    requires forall x :: multiset(t3)[x] == if IsExcluded(x.url, excluded) then 0 else multiset(t2)[x]
    requires !Listed(all[q].url.text, visited) && !IsExcluded(all[q].url, excluded)
    ensures exists y | y in t3 :: y.url.text == all[q].url.text && y.depth <= all[q].depth
  {
    assert HasCopy(t1, all[q].url.text, all[q].depth);
    var a :| 0 <= a < |t1| && t1[a].url.text == all[q].url.text && t1[a].depth <= all[q].depth;
    var y := t1[a];
    ExcludedByText(y.url, all[q].url, excluded);
    assert multiset(t1)[y] > 0;
    assert multiset(t3)[y] > 0;
  }

  /** The stages of `FirstPages`, each stated by the fact the argument uses. */
  lemma FirstPagesStages(tentative: seq<Item>, pages: seq<Url>, all: seq<Item>, t1: seq<Item>, t2: seq<Item>, t3: seq<Item>,
                         visited: seq<Url>, excluded: seq<Url>)
    requires all == tentative + AtDepth(pages, 1)
    requires UniqueItems(t1) && LowestDepths(all, t1)
    requires IsSubseq(t2, t1)
    requires forall x :: multiset(t2)[x] == if Listed(x.url.text, visited) then 0 else multiset(t1)[x]
    requires IsSubseq(t3, t2)
    requires forall k, e | 0 <= k < |t3| && 0 <= e < |excluded| :: !ExcludedBy(t3[k].url.text, excluded[e].text)
    ensures UniqueItems(t3)
    ensures forall k | 0 <= k < |t3| :: !Listed(t3[k].url.text, visited) && !IsExcluded(t3[k].url, excluded)
    ensures forall k | 0 <= k < |t3| ::
              t3[k].depth == 1 || exists j | 0 <= j < |tentative| :: tentative[j].url.text == t3[k].url.text
  {
    SubseqTrans(t3, t2, t1);
    UniqueSubseq(t3, t1);
    SubseqMembers(t3, t2);
    SubseqMembers(t3, t1);
    forall k | 0 <= k < |t3|
      ensures !Listed(t3[k].url.text, visited) && !IsExcluded(t3[k].url, excluded)
      ensures t3[k].depth == 1 || exists j | 0 <= j < |tentative| :: tentative[j].url.text == t3[k].url.text
    {
      var y := t3[k];
      assert y in t2 && y in t1;
      assert multiset(t2)[y] > 0;
      var a :| 0 <= a < |t1| && t1[a] == y;
      var q :| 0 <= q < |all| && all[q].url.text == y.url.text && all[q].depth == y.depth;
      if q >= |tentative| {
        assert all[q] == AtDepth(pages, 1)[q - |tentative|];
      } else {
        assert tentative[q] == all[q];
      }
    }
  }

  /**
   * The first seed always leaves the ready list and is always marked
   * visited, without an exclusion check.
   */
  lemma BootstrapMarksSeed(l: Lists, env: Env)
    requires |l.next| > 0
    ensures Bootstrap(l, env).next == l.next[1..]
    ensures Bootstrap(l, env).visited == MarkAsVisited(l.visited, l.next[0].url)
  {
  }

  /**
   * Only the crawl branch changes the tentative list; the list it leaves
   * has no repeats, nothing visited before the seed, nothing excluded, and
   * every new URL at depth 1.
   */
  lemma BootstrapTentative(l: Lists, env: Env)
    requires |l.next| > 0
    ensures var r := Bootstrap(l, env); var d := l.next[0].depth;
      (IncDepth(d) > env.maxDepth ==> r.tentative == l.tentative)
      && (IncDepth(d) <= env.maxDepth ==>
            UniqueItems(r.tentative)
            && (forall k | 0 <= k < |r.tentative| :: !Listed(r.tentative[k].url.text, l.visited) && !IsExcluded(r.tentative[k].url, r.excluded))
            && (forall k | 0 <= k < |r.tentative| ::
                  r.tentative[k].depth == 1 || exists j | 0 <= j < |l.tentative| :: l.tentative[j].url.text == r.tentative[k].url.text))
  {
    var u := l.next[0].url;
    var r := Bootstrap(l, env);
    if IncDepth(l.next[0].depth) <= env.maxDepth {
      BootstrapCrawl(l, env);
      var rb := RobotsUpdate(l.excluded, l.visited, u, env);
      var pages := if rb.Failure? then [] else if env.crawl(u).Some? then env.crawl(u).value else rb.value.found;
      var ex := if rb.Failure? then l.excluded else rb.value.excluded;
      assert r.excluded == ex;
      assert r.tentative == FirstPages(l.tentative, pages, l.visited, ex);
    }
  }

  /**
   * The crawl branch of the first seed hands `FirstPages` the page's links,
   * or the raw robots entries when the crawl throws, or nothing after a
   * robots fault.
   */
  lemma BootstrapCrawl(l: Lists, env: Env)
    requires |l.next| > 0
    ensures var r := Bootstrap(l, env); var u := l.next[0].url; var rb := RobotsUpdate(l.excluded, l.visited, u, env);
      IncDepth(l.next[0].depth) <= env.maxDepth ==>
        (rb.Failure? ==> r.tentative == FirstPages(l.tentative, [], l.visited, l.excluded))
        && (rb.Success? ==>
              r.tentative == FirstPages(l.tentative, if env.crawl(u).Some? then env.crawl(u).value else rb.value.found,
                                        l.visited, rb.value.excluded))
  {
  }

  /**
   * The crawled first page's links reach the tentative list: each link
   * neither visited nor excluded has a copy there at depth 1 or less.
   */
  lemma BootstrapEnqueuesLinks(l: Lists, env: Env, rs: RobotsStep, links: seq<Url>)
    requires |l.next| > 0 && IncDepth(l.next[0].depth) <= env.maxDepth
    requires RobotsUpdate(l.excluded, l.visited, l.next[0].url, env) == Success(rs)
    requires env.crawl(l.next[0].url) == Some(links)
    ensures forall p | p in links && !Listed(p.text, l.visited) && !IsExcluded(p, rs.excluded) ::
              exists y | y in Bootstrap(l, env).tentative :: y.url.text == p.text && y.depth <= 1
  {
    BootstrapCrawl(l, env);
  }
}
