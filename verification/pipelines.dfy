/**
 * The two fixed pipelines `innerCrawl` builds from the list helpers: the
 * seed pipeline, run once before crawling starts, and the merge of the
 * discovered links into the ready list, run on every scheduler cycle.
 */
module Pipelines {
  import opened Wrappers
  import opened JavaString
  import opened Sequences
  import opened ItemUrl
  import opened Frontier
  import opened Normalize

  /** The four URL lists the crawler shares between its threads. */
  datatype Lists = Lists(next: seq<Item>, tentative: seq<Item>, visited: seq<Url>, excluded: seq<Url>)

  /** `isValid`: the validity hook, which accepts every URL. */
  predicate IsValid(u: Url) {
    true
  }

  /** Membership in a list that keeps exactly the `keep` elements of another, with their multiplicities. */
  lemma InFilter<T>(list: seq<T>, r: seq<T>, keep: T -> bool, x: T)
    requires forall y :: multiset(r)[y] == if keep(y) then multiset(list)[y] else 0
    ensures x in r <==> x in list && keep(x)
  {
    assert x in r <==> multiset(r)[x] > 0;
    assert x in list <==> multiset(list)[x] > 0;
  }

  // ---------------------------------------------------------------------
  // The seed pipeline
  // ---------------------------------------------------------------------

  /** `seed` normalizes and parses to `u`. */
  predicate Yields(seed: Url, parse: string -> Option<UrlParts>, norm: Normalizer, u: Url) {
    norm(seed.text).Success? && ParseUrl(norm(seed.text).value, parse) == Some(u)
  }

  /**
   * One seed of the normalization loop: normalized (a fault of the
   * normalizer is not caught), parsed (a malformed result is skipped) and
   * kept at depth 0 unless the prefix rule excludes it.
   */
  function SeedItem(seed: Url, excluded: seq<Url>, parse: string -> Option<UrlParts>,
                    norm: Normalizer): (r: Result<seq<Item>, Fault>)
    ensures r.Failure? <==> norm(seed.text).Failure?
    ensures r.Failure? ==> r.error == norm(seed.text).error
    ensures r.Success? ==> |r.value| <= 1
    ensures r.Success? && |r.value| == 1 ==>
              r.value[0].depth == 0 && !IsExcluded(r.value[0].url, excluded) && Yields(seed, parse, norm, r.value[0].url)
    ensures forall u | Yields(seed, parse, norm, u) && !IsExcluded(u, excluded) :: r == Success([Item(u, 0)])
  {
    var t :- norm(seed.text);
    match ParseUrl(t, parse)
    case Some(u) =>
      if IsValid(u) && !IsExcluded(u, excluded) then Success([NewItem(u, 0)]) else Success([])
    case None => Success([])
  }

  /** The loop over the remaining seeds, in order; the first fault ends it. */
  function SeedItems(seeds: seq<Url>, excluded: seq<Url>, parse: string -> Option<UrlParts>,
                     norm: Normalizer): (r: Result<seq<Item>, Fault>)
    decreases |seeds|
  {
    if |seeds| == 0 then Success([])
    else
      var h :- SeedItem(seeds[0], excluded, parse, norm);
      var rest :- SeedItems(seeds[1..], excluded, parse, norm);
      Success(h + rest)
  }

  /** The loop fails exactly when some seed's normalization does, with that fault. */
  lemma {:induction false} SeedItemsFail(seeds: seq<Url>, excluded: seq<Url>, parse: string -> Option<UrlParts>,
                                         norm: Normalizer)
    ensures SeedItems(seeds, excluded, parse, norm).Failure?
        <==> exists s | s in seeds :: norm(s.text).Failure?
    ensures SeedItems(seeds, excluded, parse, norm).Failure? ==>
              exists s | s in seeds :: norm(s.text) == Failure(SeedItems(seeds, excluded, parse, norm).error)
    decreases |seeds|
  {
    if |seeds| > 0 {
      SeedItemsFail(seeds[1..], excluded, parse, norm);
      assert seeds == [seeds[0]] + seeds[1..];
      assert forall s | s in seeds :: s == seeds[0] || s in seeds[1..];
    }
  }

  /** Every item of the loop is a non-excluded depth-0 item some seed yields. */
  lemma {:induction false} SeedItemsSound(seeds: seq<Url>, excluded: seq<Url>, parse: string -> Option<UrlParts>,
                                          norm: Normalizer)
    requires SeedItems(seeds, excluded, parse, norm).Success?
    ensures var items := SeedItems(seeds, excluded, parse, norm).value;
      forall k | 0 <= k < |items| ::
        items[k].depth == 0 && !IsExcluded(items[k].url, excluded)
        && exists s | s in seeds :: Yields(s, parse, norm, items[k].url)
    decreases |seeds|
  {
    if |seeds| > 0 {
      var h := SeedItem(seeds[0], excluded, parse, norm).value;
      var rest := SeedItems(seeds[1..], excluded, parse, norm).value;
      SeedItemsSound(seeds[1..], excluded, parse, norm);
      var items := h + rest;
      assert SeedItems(seeds, excluded, parse, norm).value == items;
      forall k | 0 <= k < |items|
        ensures items[k].depth == 0 && !IsExcluded(items[k].url, excluded)
        ensures exists s | s in seeds :: Yields(s, parse, norm, items[k].url)
      {
        if k < |h| {
          assert Yields(seeds[0], parse, norm, items[k].url);
        } else {
          var j := k - |h|;
          assert items[k] == rest[j];
          var s :| s in seeds[1..] && Yields(s, parse, norm, rest[j].url);
          assert s in seeds;
        }
      }
    }
  }

  /** Every seed yielding a URL the prefix rule does not exclude contributes a depth-0 item. */
  lemma {:induction false} SeedItemsComplete(seeds: seq<Url>, excluded: seq<Url>, parse: string -> Option<UrlParts>,
                                             norm: Normalizer, s: Url, u: Url)
    requires SeedItems(seeds, excluded, parse, norm).Success?
    requires s in seeds && Yields(s, parse, norm, u) && !IsExcluded(u, excluded)
    ensures Item(u, 0) in SeedItems(seeds, excluded, parse, norm).value
    decreases |seeds|
  {
    var h := SeedItem(seeds[0], excluded, parse, norm).value;
    var rest := SeedItems(seeds[1..], excluded, parse, norm).value;
    assert SeedItems(seeds, excluded, parse, norm).value == h + rest;
    if s == seeds[0] {
      assert h == [Item(u, 0)];
    } else {
      assert s in seeds[1..] by {
        assert seeds == [seeds[0]] + seeds[1..];
      }
      SeedItemsComplete(seeds[1..], excluded, parse, norm, s, u);
    }
  }

  /**
   * The seed pipeline: repeats removed, then the seeds listed as visited,
   * then those listed as excluded (both by exact text), then the
   * normalization loop.
   */
  function SeedPipeline(seeds: seq<Url>, visited: seq<Url>, excluded: seq<Url>,
                        parse: string -> Option<UrlParts>, norm: Normalizer): (r: Result<seq<Item>, Fault>)
  {
    var s1 := RemoveRepeated(seeds);
    var s2 := RemoveIfExistsInOtherList(s1, visited);
    var s3 := RemoveIfExistsInOtherList(s2, excluded);
    SeedItems(s3, excluded, parse, norm)
  }

  /** The seeds that reach the normalization loop: input seeds listed as neither visited nor excluded. */
  lemma SeedsSurvive(seeds: seq<Url>, visited: seq<Url>, excluded: seq<Url>)
    ensures var s3 := RemoveIfExistsInOtherList(RemoveIfExistsInOtherList(RemoveRepeated(seeds), visited), excluded);
      forall s | s in s3 :: s in seeds && !Listed(s.text, visited) && !Listed(s.text, excluded)
  {
    var s1 := RemoveRepeated(seeds);
    var s2 := RemoveIfExistsInOtherList(s1, visited);
    var s3 := RemoveIfExistsInOtherList(s2, excluded);
    SubseqMembers(s1, seeds);
    forall s | s in s3 ensures s in seeds && !Listed(s.text, visited) && !Listed(s.text, excluded) {
      InFilter(s2, s3, (u: Url) => !Listed(u.text, excluded), s);
      InFilter(s1, s2, (u: Url) => !Listed(u.text, visited), s);
    }
  }

  /**
   * Every seed item is at depth 0, is not excluded by the prefix rule, and
   * is what some input seed listed as neither visited nor excluded
   * normalizes and parses to; a fault is the normalization fault of some
   * input seed listed as neither visited nor excluded.
   */
  lemma SeedPipelineSound(seeds: seq<Url>, visited: seq<Url>, excluded: seq<Url>,
                          parse: string -> Option<UrlParts>, norm: Normalizer)
    ensures var r := SeedPipeline(seeds, visited, excluded, parse, norm);
      r.Success? ==> forall k | 0 <= k < |r.value| ::
        r.value[k].depth == 0 && !IsExcluded(r.value[k].url, excluded)
        && exists s | s in seeds && !Listed(s.text, visited) && !Listed(s.text, excluded) :: Yields(s, parse, norm, r.value[k].url)
    ensures var r := SeedPipeline(seeds, visited, excluded, parse, norm);
      r.Failure? ==> exists s | s in seeds && !Listed(s.text, visited) && !Listed(s.text, excluded) :: norm(s.text) == Failure(r.error)
  {
    var s3 := RemoveIfExistsInOtherList(RemoveIfExistsInOtherList(RemoveRepeated(seeds), visited), excluded);
    SeedsSurvive(seeds, visited, excluded);
    SeedItemsFail(s3, excluded, parse, norm);
    if SeedItems(s3, excluded, parse, norm).Success? {
      SeedItemsSound(s3, excluded, parse, norm);
    }
  }

  /**
   * With no repeated seeds, every seed listed in neither list whose
   * normalization parses to a URL the prefix rule does not exclude becomes
   * an item at depth 0.
   */
  lemma SeedPipelineComplete(seeds: seq<Url>, visited: seq<Url>, excluded: seq<Url>,
                             parse: string -> Option<UrlParts>, norm: Normalizer, s: Url, u: Url)
    requires UniqueTexts(seeds)
    requires s in seeds && !Listed(s.text, visited) && !Listed(s.text, excluded)
    requires Yields(s, parse, norm, u) && !IsExcluded(u, excluded)
    requires SeedPipeline(seeds, visited, excluded, parse, norm).Success?
    ensures Item(u, 0) in SeedPipeline(seeds, visited, excluded, parse, norm).value
  {
    var s1 := RemoveRepeated(seeds);
    var s2 := RemoveIfExistsInOtherList(s1, visited);
    var s3 := RemoveIfExistsInOtherList(s2, excluded);
    assert s1 == seeds;
    InFilter(s1, s2, (x: Url) => !Listed(x.text, visited), s);
    InFilter(s2, s3, (x: Url) => !Listed(x.text, excluded), s);
    SeedItemsComplete(s3, excluded, parse, norm, s, u);
  }

  // ---------------------------------------------------------------------
  // The per-cycle merge
  // ---------------------------------------------------------------------

  /**
   * The merge of one scheduler cycle: the drained tentative list is
   * filtered by `isValid`, deduplicated, filtered by the prefix rule,
   * appended to the ready list, deduplicated again and filtered by the
   * visited list.
   */
  function MergeTentative(next: seq<Item>, tentative: seq<Item>, visited: seq<Url>, excluded: seq<Url>): (r: seq<Item>)
    ensures UniqueItems(r)
    ensures forall k | 0 <= k < |r| :: !Listed(r[k].url.text, visited)
  {
    var valid := Filter(tentative, (it: Item) => IsValid(it.url));
    var t3 := RemoveExcluded(CleanUrlList(valid), excluded);
    var joined := CleanUrlList(next + t3);
    var r := RemoveVisited(joined, visited);
    NotVisitedAfterFilter(joined, visited, r);
    UniqueSubseq(r, joined);
    r
  }

  /** The visited filter leaves no visited URL. */
  lemma NotVisitedAfterFilter(items: seq<Item>, visited: seq<Url>, r: seq<Item>)
    requires forall x :: multiset(r)[x] == if Listed(x.url.text, visited) then 0 else multiset(items)[x]
    ensures forall k | 0 <= k < |r| :: !Listed(r[k].url.text, visited)
  {
    forall k | 0 <= k < |r| ensures !Listed(r[k].url.text, visited) {
      InFilter(items, r, (it: Item) => !Listed(it.url.text, visited), r[k]);
    }
  }

  /** A subsequence of a list without repeated URLs has none either. */
  lemma {:induction false} UniqueSubseq(a: seq<Item>, b: seq<Item>)
    requires IsSubseq(a, b) && UniqueItems(b)
    ensures UniqueItems(a)
    decreases |b|
  {
    if |a| > 0 {
      assert UniqueItems(b[1..]) by {
        forall x, y | 0 <= x < y < |b[1..]| ensures b[1..][x].url.text != b[1..][y].url.text {
          assert b[1..][x] == b[x + 1] && b[1..][y] == b[y + 1];
        }
      }
      if a[0] == b[0] && IsSubseq(a[1..], b[1..]) {
        UniqueSubseq(a[1..], b[1..]);
        SubseqMembers(a[1..], b[1..]);
        forall x, y | 0 <= x < y < |a| ensures a[x].url.text != a[y].url.text {
          if x == 0 {
            assert a[y] == a[1..][y - 1];
            assert a[y] in b[1..];
            var z :| 0 <= z < |b[1..]| && b[1..][z] == a[y];
            assert b[z + 1] == a[y];
          } else {
            assert a[x] == a[1..][x - 1] && a[y] == a[1..][y - 1];
          }
        }
      } else {
        UniqueSubseq(a, b[1..]);
      }
    }
  }

  /** Where a merged URL may come from: the ready list, or the discovered links when not excluded. */
  predicate MergeSource(u: Url, next: seq<Item>, tentative: seq<Item>, excluded: seq<Url>) {
    (exists j | 0 <= j < |next| :: next[j].url == u)
    || ((exists j | 0 <= j < |tentative| :: tentative[j].url == u) && !IsExcluded(u, excluded))
  }

  /** The discovered links that survive deduplication and the prefix rule. */
  lemma ExclusionStageSources(tentative: seq<Item>, t2: seq<Item>, t3: seq<Item>, excluded: seq<Url>)
    requires FromInput(tentative, t2)
    requires forall x :: multiset(t3)[x] == if IsExcluded(x.url, excluded) then 0 else multiset(t2)[x]
    ensures forall y | y in t3 :: (exists j | 0 <= j < |tentative| :: tentative[j].url == y.url) && !IsExcluded(y.url, excluded)
  {
    forall y | y in t3 ensures (exists j | 0 <= j < |tentative| :: tentative[j].url == y.url) && !IsExcluded(y.url, excluded) {
      InFilter(t2, t3, (it: Item) => !IsExcluded(it.url, excluded), y);
      var b :| 0 <= b < |t2| && t2[b] == y;
    }
  }

  /** The deduplicated join draws every URL from its two parts. */
  lemma JoinStageSources(next: seq<Item>, tentative: seq<Item>, t3: seq<Item>, joined: seq<Item>, excluded: seq<Url>)
    requires FromInput(next + t3, joined)
    requires forall y | y in t3 :: (exists j | 0 <= j < |tentative| :: tentative[j].url == y.url) && !IsExcluded(y.url, excluded)
    ensures forall y | y in joined :: MergeSource(y.url, next, tentative, excluded)
  {
    forall y | y in joined ensures MergeSource(y.url, next, tentative, excluded) {
      var a :| 0 <= a < |joined| && joined[a] == y;
      var q :| 0 <= q < |next + t3| && y.url == (next + t3)[q].url;
      if q >= |next| {
        assert t3[q - |next|] in t3;
      }
    }
  }

  /** Every merged URL comes from the ready list, or from the discovered links when not excluded. */
  lemma MergeSources(next: seq<Item>, tentative: seq<Item>, visited: seq<Url>, excluded: seq<Url>)
    ensures var r := MergeTentative(next, tentative, visited, excluded);
      forall k | 0 <= k < |r| :: MergeSource(r[k].url, next, tentative, excluded)
  {
    var valid := Filter(tentative, (it: Item) => IsValid(it.url));
    FilterAll(tentative, (it: Item) => IsValid(it.url));
    var t2 := CleanUrlList(valid);
    var t3 := RemoveExcluded(t2, excluded);
    var joined := CleanUrlList(next + t3);
    var r := RemoveVisited(joined, visited);
    ExclusionStageSources(tentative, t2, t3, excluded);
    JoinStageSources(next, tentative, t3, joined, excluded);
    forall k | 0 <= k < |r| ensures MergeSource(r[k].url, next, tentative, excluded) {
      InFilter(joined, r, (it: Item) => !Listed(it.url.text, visited), r[k]);
    }
  }

  /** A discovered link the prefix rule accepts survives deduplication and exclusion at no greater depth. */
  lemma TentativeSurvives(tentative: seq<Item>, t2: seq<Item>, t3: seq<Item>, excluded: seq<Url>, x: Item)
    requires x in tentative && !IsExcluded(x.url, excluded)
    requires Dominates(tentative, t2)
    requires forall y :: multiset(t3)[y] == if IsExcluded(y.url, excluded) then 0 else multiset(t2)[y]
    ensures exists y | y in t3 :: y.url.text == x.url.text && y.depth <= x.depth
  {
    var p :| 0 <= p < |tentative| && tentative[p] == x;
    assert HasCopy(t2, tentative[p].url.text, tentative[p].depth);
    var b :| 0 <= b < |t2| && t2[b].url.text == x.url.text && t2[b].depth <= x.depth;
    var y := t2[b];
    ExcludedByText(y.url, x.url, excluded);
    assert multiset(t2)[y] > 0;
    assert multiset(t3)[y] > 0;
    assert y in t3;
  }

  /** An item of the join survives deduplication and the visited filter at no greater depth. */
  lemma JoinedSurvives(all: seq<Item>, joined: seq<Item>, r: seq<Item>, visited: seq<Url>, c: Item)
    requires c in all && !Listed(c.url.text, visited)
    requires Dominates(all, joined)
    requires forall y :: multiset(r)[y] == if Listed(y.url.text, visited) then 0 else multiset(joined)[y]
    ensures exists y | y in r :: y.url.text == c.url.text && y.depth <= c.depth
  {
    var q :| 0 <= q < |all| && all[q] == c;
    assert HasCopy(joined, all[q].url.text, all[q].depth);
    var a :| 0 <= a < |joined| && joined[a].url.text == c.url.text && joined[a].depth <= c.depth;
    var y := joined[a];
    assert multiset(joined)[y] > 0;
    assert multiset(r)[y] > 0;
    assert y in r;
  }

  /**
   * Nothing ready is lost: every ready URL not yet visited, and every
   * discovered URL neither visited nor excluded, is in the merged list at
   * a depth no greater than the copy's.
   */
  lemma MergeKeepsCandidates(next: seq<Item>, tentative: seq<Item>, visited: seq<Url>, excluded: seq<Url>, x: Item)
    requires x in next || (x in tentative && !IsExcluded(x.url, excluded))
    requires !Listed(x.url.text, visited)
    ensures exists y | y in MergeTentative(next, tentative, visited, excluded) ::
              y.url.text == x.url.text && y.depth <= x.depth
  {
    var valid := Filter(tentative, (it: Item) => IsValid(it.url));
    FilterAll(tentative, (it: Item) => IsValid(it.url));
    var t2 := CleanUrlList(valid);
    var t3 := RemoveExcluded(t2, excluded);
    var joined := CleanUrlList(next + t3);
    var r := RemoveVisited(joined, visited);
    CleanDominates(valid);
    CleanDominates(next + t3);
    CandidateSurvivesStages(next, tentative, valid, t2, t3, joined, r, visited, excluded, x);
  }

  /** The stages of the merge, each stated by the fact about it the survival argument uses. */
  lemma CandidateSurvivesStages(next: seq<Item>, tentative: seq<Item>, valid: seq<Item>, t2: seq<Item>, t3: seq<Item>,
                                joined: seq<Item>, r: seq<Item>, visited: seq<Url>, excluded: seq<Url>, x: Item)
    requires x in next || (x in tentative && !IsExcluded(x.url, excluded))
    requires !Listed(x.url.text, visited)
    requires x in tentative ==> x in valid
    requires Dominates(valid, t2)
    requires forall y :: multiset(t3)[y] == if IsExcluded(y.url, excluded) then 0 else multiset(t2)[y]
    requires Dominates(next + t3, joined)
    requires forall y :: multiset(r)[y] == if Listed(y.url.text, visited) then 0 else multiset(joined)[y]
    ensures exists y | y in r :: y.url.text == x.url.text && y.depth <= x.depth
  {
    if x in next {
      JoinedSurvives(next + t3, joined, r, visited, x);
    } else {
      TentativeSurvives(valid, t2, t3, excluded, x);
      var c :| c in t3 && c.url.text == x.url.text && c.depth <= x.depth;
      ExcludedByText(c.url, x.url, excluded);
      JoinedSurvives(next + t3, joined, r, visited, c);
    }
  }

  /** The exclusion rule only reads a URL's printed form. */
  lemma ExcludedByText(u: Url, v: Url, excluded: seq<Url>)
    requires u.text == v.text
    ensures IsExcluded(u, excluded) == IsExcluded(v, excluded)
  {
  }

  /**
   * One scheduler cycle on the lists: the ready list is deduplicated, the
   * tentative list is drained and merged into it.
   */
  function CycleLists(l: Lists): (r: Lists)
    ensures r.tentative == [] && r.visited == l.visited && r.excluded == l.excluded
    ensures UniqueItems(r.next)
    ensures forall k | 0 <= k < |r.next| :: !Listed(r.next[k].url.text, l.visited)
  {
    var ready := CleanUrlList(l.next);
    Lists(MergeTentative(ready, l.tentative, l.visited, l.excluded), [], l.visited, l.excluded)
  }

  /**
   * The loop condition of `innerCrawl`: something is waiting in either list
   * or some worker is busy.
   */
  function KeepCrawling(l: Lists, anyBusy: bool): (b: bool)
    ensures !b <==> l.next == [] && l.tentative == [] && !anyBusy
  {
    |l.tentative| > 0 || |l.next| > 0 || anyBusy
  }
}
