/**
 * The list helpers that keep the crawler's URL lists consistent: the
 * duplicate remover that keeps the lowest depth, the exact-match and
 * prefix filters, and the visited list with its checks.  URLs are compared
 * by their printed form throughout, as the crawler compares `toString()`.
 */
module Frontier {
  import opened Wrappers
  import opened JavaString
  import opened Sequences
  import opened ItemUrl
  import opened Questions

  /** Some entry of `us` prints as `t`. */
  predicate Listed(t: string, us: seq<Url>) {
    exists k | 0 <= k < |us| :: us[k].text == t
  }

  /** No two entries print the same. */
  predicate UniqueTexts(us: seq<Url>) {
    forall a, b | 0 <= a < b < |us| :: us[a].text != us[b].text
  }

  /** No two items carry URLs that print the same. */
  predicate UniqueItems(items: seq<Item>) {
    forall a, b | 0 <= a < b < |items| :: items[a].url.text != items[b].url.text
  }

  // ---------------------------------------------------------------------
  // cleanUrlList
  // ---------------------------------------------------------------------

  /** The position of the first item whose URL prints as `t` (`|list|` if none). */
  function FirstIndex(list: seq<Item>, t: string): (i: nat)
    ensures i <= |list|
    ensures i < |list| ==> list[i].url.text == t
    decreases |list|
  {
    if |list| == 0 then 0
    else if list[0].url.text == t then 0
    else 1 + FirstIndex(list[1..], t)
  }

  /** No item before the first index prints as `t`. */
  lemma {:induction false} BeforeFirstIndex(list: seq<Item>, t: string, j: int)
    requires 0 <= j < FirstIndex(list, t)
    ensures list[j].url.text != t
    decreases |list|
  {
    if j > 0 {
      BeforeFirstIndex(list[1..], t, j - 1);
    }
  }

  /** An item's URL first occurs at or before the item. */
  lemma FirstIndexAtMost(list: seq<Item>, q: int)
    requires 0 <= q < |list|
    ensures FirstIndex(list, list[q].url.text) <= q
  {
    if FirstIndex(list, list[q].url.text) > q {
      BeforeFirstIndex(list, list[q].url.text, q);
    }
  }

  /** Position `q` holds the first occurrence of its URL. */
  predicate IsFirst(list: seq<Item>, q: int)
    requires 0 <= q < |list|
  {
    FirstIndex(list, list[q].url.text) == q
  }

  /** The positions from `j` on whose URL prints as `t`, ascending. */
  function SameUrlFrom(list: seq<Item>, t: string, j: nat): (ps: seq<nat>)
    ensures forall k | 0 <= k < |ps| :: j <= ps[k] < |list| && list[ps[k]].url.text == t
    decreases |list| - j
  {
    if j >= |list| then []
    else (if list[j].url.text == t then [j] else []) + SameUrlFrom(list, t, j + 1)
  }

  /** Every position from `j` on whose URL prints as `t` is collected. */
  lemma {:induction false} SameUrlComplete(list: seq<Item>, t: string, j: nat, q: int)
    requires j <= q < |list| && list[q].url.text == t
    ensures q in SameUrlFrom(list, t, j)
    decreases q - j
  {
    if q > j {
      SameUrlComplete(list, t, j + 1, q);
    }
  }

  /**
   * The depth-selection loop of `cleanUrlList`: start from `d` and lower it
   * to any smaller depth found at the positions `ps`.
   */
  function Lowest(list: seq<Item>, ps: seq<nat>, d: Int32): (r: Int32)
    requires forall k | 0 <= k < |ps| :: ps[k] < |list|
    ensures r <= d
    ensures forall k | 0 <= k < |ps| :: r <= list[ps[k]].depth
    ensures r == d || exists k | 0 <= k < |ps| :: r == list[ps[k]].depth
    decreases |ps|
  {
    if |ps| == 0 then d
    else Lowest(list, ps[1..], if list[ps[0]].depth < d then list[ps[0]].depth else d)
  }

  /** Two position lists that agree on every depth below `d` select the same minimum. */
  lemma LowestAgree(list: seq<Item>, ps1: seq<nat>, ps2: seq<nat>, d: Int32)
    requires forall k | 0 <= k < |ps1| :: ps1[k] < |list|
    requires forall k | 0 <= k < |ps2| :: ps2[k] < |list|
    requires forall k | 0 <= k < |ps1| :: ps1[k] in ps2 || d <= list[ps1[k]].depth
    requires forall k | 0 <= k < |ps2| :: ps2[k] in ps1 || d <= list[ps2[k]].depth
    ensures Lowest(list, ps1, d) == Lowest(list, ps2, d)
  {
    var r1, r2 := Lowest(list, ps1, d), Lowest(list, ps2, d);
    if r1 != d {
      var k :| 0 <= k < |ps1| && r1 == list[ps1[k]].depth;
      if ps1[k] in ps2 {
        var k2 :| 0 <= k2 < |ps2| && ps2[k2] == ps1[k];
      }
    }
    if r2 != d {
      var k :| 0 <= k < |ps2| && r2 == list[ps2[k]].depth;
      if ps2[k] in ps1 {
        var k1 :| 0 <= k1 < |ps1| && ps1[k1] == ps2[k];
      }
    }
  }

  /** The lowest depth among the items whose URL prints as `t`, `t` occurring. */
  function MinDepth(list: seq<Item>, t: string): Int32
    requires FirstIndex(list, t) < |list|
  {
    Lowest(list, SameUrlFrom(list, t, 0), list[FirstIndex(list, t)].depth)
  }

  /** `MinDepth` is the minimum: below every copy's depth and equal to one of them. */
  lemma MinDepthIsMinimum(list: seq<Item>, t: string)
    requires FirstIndex(list, t) < |list|
    ensures forall k | 0 <= k < |list| && list[k].url.text == t :: MinDepth(list, t) <= list[k].depth
    ensures exists k | 0 <= k < |list| :: list[k].url.text == t && list[k].depth == MinDepth(list, t)
  {
    var ps := SameUrlFrom(list, t, 0);
    var r := MinDepth(list, t);
    forall k | 0 <= k < |list| && list[k].url.text == t ensures r <= list[k].depth {
      SameUrlComplete(list, t, 0, k);
      var j :| 0 <= j < |ps| && ps[j] == k;
    }
  }

  // The properties `cleanUrlList` promises, each over the input and the result.

  /** Some item of `r` carries the URL text `t`. */
  predicate HasText(r: seq<Item>, t: string) {
    exists a | 0 <= a < |r| :: r[a].url.text == t
  }

  /** Some item of `r` carries the URL text `t` at depth `d` or less. */
  predicate HasCopy(r: seq<Item>, t: string, d: Int32) {
    exists a | 0 <= a < |r| :: r[a].url.text == t && r[a].depth <= d
  }

  // The input-to-result properties fire on `HasText`/`HasCopy` terms only, so
  // that together with the result-to-input ones they cannot feed each other.

  /** Every URL of the input is represented. */
  predicate CoversAll(list: seq<Item>, r: seq<Item>) {
    forall k {:trigger HasText(r, list[k].url.text)} | 0 <= k < |list| :: HasText(r, list[k].url.text)
  }

  /** Every result URL is one of the input's. */
  predicate FromInput(list: seq<Item>, r: seq<Item>) {
    forall a | 0 <= a < |r| :: exists k | 0 <= k < |list| :: r[a].url == list[k].url
  }

  /** Every result item carries the lowest depth among the input copies of its URL. */
  predicate LowestDepths(list: seq<Item>, r: seq<Item>) {
    (forall a, k | 0 <= a < |r| && 0 <= k < |list| && list[k].url.text == r[a].url.text :: r[a].depth <= list[k].depth)
    && (forall a | 0 <= a < |r| :: exists k | 0 <= k < |list| :: list[k].url.text == r[a].url.text && list[k].depth == r[a].depth)
  }

  /** Result items follow the order of their URLs' first occurrences in the input. */
  predicate FirstOccurrenceOrder(list: seq<Item>, r: seq<Item>) {
    forall a, b | 0 <= a < b < |r| :: FirstIndex(list, r[a].url.text) < FirstIndex(list, r[b].url.text)
  }

  /**
   * The meaning of `cleanUrlList` from position `i` on: one item per URL, at
   * the URL's first occurrence, carrying the lowest depth among its copies.
   */
  function DedupFrom(list: seq<Item>, i: nat): seq<Item>
    requires i <= |list|
    decreases |list| - i
  {
    if i == |list| then []
    else
      var t := list[i].url.text;
      if FirstIndex(list, t) == i then [Item(list[i].url, MinDepth(list, t))] + DedupFrom(list, i + 1)
      else DedupFrom(list, i + 1)
  }

  /** Each reference item's URL first occurs at or after `i`. */
  predicate FirstsFrom(list: seq<Item>, i: nat, r: seq<Item>) {
    forall a | 0 <= a < |r| :: i <= FirstIndex(list, r[a].url.text) < |list|
  }

  /** Each reference item is the first occurrence of its URL with the lowest depth. */
  predicate AtFirsts(list: seq<Item>, r: seq<Item>) {
    forall a | 0 <= a < |r| ::
      FirstIndex(list, r[a].url.text) < |list|
      && r[a] == Item(list[FirstIndex(list, r[a].url.text)].url, MinDepth(list, r[a].url.text))
  }

  lemma {:induction false} DedupBounds(list: seq<Item>, i: nat)
    requires i <= |list|
    ensures FirstsFrom(list, i, DedupFrom(list, i))
    decreases |list| - i
  {
    if i < |list| {
      DedupBounds(list, i + 1);
      var rest := DedupFrom(list, i + 1);
      if FirstIndex(list, list[i].url.text) == i {
        var r := DedupFrom(list, i);
        forall a | 0 <= a < |r| ensures i <= FirstIndex(list, r[a].url.text) < |list| {
          if a > 0 {
            assert r[a] == rest[a - 1];
          }
        }
      }
    }
  }

  lemma {:induction false} DedupOrigin(list: seq<Item>, i: nat)
    requires i <= |list|
    ensures AtFirsts(list, DedupFrom(list, i))
    decreases |list| - i
  {
    if i < |list| {
      DedupOrigin(list, i + 1);
      var t := list[i].url.text;
      var rest := DedupFrom(list, i + 1);
      if FirstIndex(list, t) == i {
        var r := DedupFrom(list, i);
        forall a | 0 <= a < |r|
          ensures FirstIndex(list, r[a].url.text) < |list|
          ensures r[a] == Item(list[FirstIndex(list, r[a].url.text)].url, MinDepth(list, r[a].url.text))
        {
          if a > 0 {
            assert r[a] == rest[a - 1];
          }
        }
      }
    }
  }

  lemma {:induction false} DedupOrder(list: seq<Item>, i: nat)
    requires i <= |list|
    ensures FirstOccurrenceOrder(list, DedupFrom(list, i))
    decreases |list| - i
  {
    if i < |list| {
      DedupOrder(list, i + 1);
      DedupBounds(list, i + 1);
      DedupOrderStep(list, i, DedupFrom(list, i + 1));
    }
  }

  /** Putting the item of position `i` before a reference tail keeps first-occurrence order. */
  lemma DedupOrderStep(list: seq<Item>, i: nat, rest: seq<Item>)
    requires i < |list| && rest == DedupFrom(list, i + 1)
    requires FirstOccurrenceOrder(list, rest) && FirstsFrom(list, i + 1, rest)
    ensures FirstOccurrenceOrder(list, DedupFrom(list, i))
  {
    if FirstIndex(list, list[i].url.text) == i {
      ConsOrder(list, i, Item(list[i].url, MinDepth(list, list[i].url.text)), rest);
    }
  }

  /** An item whose URL first occurs at `i`, put before items whose URLs first occur later, keeps the order. */
  lemma ConsOrder(list: seq<Item>, i: nat, head: Item, rest: seq<Item>)
    requires FirstIndex(list, head.url.text) == i
    requires FirstOccurrenceOrder(list, rest) && FirstsFrom(list, i + 1, rest)
    ensures FirstOccurrenceOrder(list, [head] + rest)
  {
    var r := [head] + rest;
    forall a, b | 0 <= a < b < |r| ensures FirstIndex(list, r[a].url.text) < FirstIndex(list, r[b].url.text) {
      assert r[b] == rest[b - 1];
      if a > 0 {
        assert r[a] == rest[a - 1];
      }
    }
  }

  /** Every first occurrence from `i` on is represented. */
  predicate CoversFirsts(list: seq<Item>, i: nat, r: seq<Item>) {
    forall q | i <= q < |list| && FirstIndex(list, list[q].url.text) == q ::
      exists a | 0 <= a < |r| :: r[a].url == list[q].url
  }

  lemma {:induction false} DedupCoversFrom(list: seq<Item>, i: nat)
    requires i <= |list|
    ensures CoversFirsts(list, i, DedupFrom(list, i))
    decreases |list| - i
  {
    if i < |list| {
      DedupCoversFrom(list, i + 1);
      var t := list[i].url.text;
      var rest := DedupFrom(list, i + 1);
      var r := DedupFrom(list, i);
      if FirstIndex(list, t) == i {
        assert r == [Item(list[i].url, MinDepth(list, t))] + rest;
        forall q | i <= q < |list| && FirstIndex(list, list[q].url.text) == q
          ensures exists a | 0 <= a < |r| :: r[a].url == list[q].url
        {
          if q == i {
            assert r[0].url == list[q].url;
          } else {
            var a :| 0 <= a < |rest| && rest[a].url == list[q].url;
            assert r[a + 1] == rest[a];
          }
        }
      } else {
        assert r == rest;
      }
    }
  }

  /** The reference meaning keeps one item per URL. */
  lemma DedupUnique(list: seq<Item>)
    ensures UniqueItems(DedupFrom(list, 0))
  {
    DedupOrder(list, 0);
    var r := DedupFrom(list, 0);
    forall a, b | 0 <= a < b < |r| ensures r[a].url.text != r[b].url.text {
      assert FirstIndex(list, r[a].url.text) < FirstIndex(list, r[b].url.text);
    }
  }

  /** The reference meaning represents every URL of the input. */
  lemma DedupCoversAll(list: seq<Item>)
    ensures CoversAll(list, DedupFrom(list, 0))
  {
    var r := DedupFrom(list, 0);
    DedupCoversFrom(list, 0);
    forall k | 0 <= k < |list| ensures HasText(r, list[k].url.text) {
      FirstIndexAtMost(list, k);
      var f := FirstIndex(list, list[k].url.text);
      assert FirstIndex(list, list[f].url.text) == f;
      var a :| 0 <= a < |r| && r[a].url == list[f].url;
    }
  }

  /** The reference meaning only carries input URLs, at their lowest depths. */
  lemma DedupFromInput(list: seq<Item>)
    ensures FromInput(list, DedupFrom(list, 0))
    ensures LowestDepths(list, DedupFrom(list, 0))
  {
    var r := DedupFrom(list, 0);
    DedupBounds(list, 0);
    DedupOrigin(list, 0);
    forall a | 0 <= a < |r| ensures exists k | 0 <= k < |list| :: r[a].url == list[k].url {
      var f := FirstIndex(list, r[a].url.text);
      assert r[a].url == list[f].url;
    }
    forall a | 0 <= a < |r|
      ensures forall k | 0 <= k < |list| && list[k].url.text == r[a].url.text :: r[a].depth <= list[k].depth
      ensures exists k | 0 <= k < |list| :: list[k].url.text == r[a].url.text && list[k].depth == r[a].depth
    {
      MinDepthIsMinimum(list, r[a].url.text);
    }
  }

  /**
   * `cleanUrlList` as written, from position `i` on: a position already in
   * `discard` is skipped; otherwise the later positions with the same URL are
   * collected, a lone item is kept as is, and a repeated one is replaced by a
   * fresh item with the lowest depth, its positions joining `discard`.
   */
  function CleanFrom(list: seq<Item>, i: nat, discard: set<int>): seq<Item>
    requires i <= |list|
    decreases |list| - i
  {
    if i == |list| then []
    else if i in discard then CleanFrom(list, i + 1, discard)
    else
      var later := SameUrlFrom(list, list[i].url.text, i + 1);
      if |later| == 0 then [list[i]] + CleanFrom(list, i + 1, discard)
      else
        [NewItem(list[i].url, Lowest(list, later, list[i].depth))]
        + CleanFrom(list, i + 1, discard + {i} + Marks(later))
  }

  /** The discard invariant: a position still ahead is discarded iff its URL first occurred before `i`. */
  predicate DiscardExact(list: seq<Item>, i: nat, discard: set<int>) {
    forall q | i <= q < |list| :: (q in discard <==> FirstIndex(list, list[q].url.text) < i)
  }

  /** At a first occurrence, the loop's selected depth is the reference minimum. */
  lemma LowestIsMinDepth(list: seq<Item>, i: nat)
    requires i < |list| && FirstIndex(list, list[i].url.text) == i
    ensures Lowest(list, SameUrlFrom(list, list[i].url.text, i + 1), list[i].depth) == MinDepth(list, list[i].url.text)
  {
    var t := list[i].url.text;
    var later := SameUrlFrom(list, t, i + 1);
    var all := SameUrlFrom(list, t, 0);
    forall k | 0 <= k < |all| ensures all[k] in later || list[i].depth <= list[all[k]].depth {
      if all[k] < i {
        BeforeFirstIndex(list, t, all[k]);
      } else if all[k] > i {
        SameUrlComplete(list, t, i + 1, all[k]);
      }
    }
    forall k | 0 <= k < |later| ensures later[k] in all || list[i].depth <= list[later[k]].depth {
      SameUrlComplete(list, t, 0, later[k]);
    }
    LowestAgree(list, later, all, list[i].depth);
  }

  lemma DiscardSkip(list: seq<Item>, i: nat, discard: set<int>)
    requires i < |list| && DiscardExact(list, i, discard) && i in discard
    ensures DiscardExact(list, i + 1, discard)
  {
    var t := list[i].url.text;
    forall q | i + 1 <= q < |list| ensures (q in discard <==> FirstIndex(list, list[q].url.text) < i + 1) {
      if list[q].url.text == t {
        assert FirstIndex(list, list[q].url.text) == FirstIndex(list, t);
      }
    }
  }

  lemma DiscardLone(list: seq<Item>, i: nat, discard: set<int>)
    requires i < |list| && DiscardExact(list, i, discard) && i !in discard
    requires |SameUrlFrom(list, list[i].url.text, i + 1)| == 0
    ensures DiscardExact(list, i + 1, discard)
  {
    var t := list[i].url.text;
    forall q | i + 1 <= q < |list| ensures (q in discard <==> FirstIndex(list, list[q].url.text) < i + 1) {
      if list[q].url.text == t {
        SameUrlComplete(list, t, i + 1, q);
      }
    }
  }

  /** The later positions collected for `i` are exactly the later copies of its URL. */
  lemma GroupMember(list: seq<Item>, i: nat, later: seq<nat>, q: int)
    requires i < q < |list|
    requires later == SameUrlFrom(list, list[i].url.text, i + 1)
    ensures q in Marks(later) <==> list[q].url.text == list[i].url.text
  {
    if list[q].url.text == list[i].url.text {
      SameUrlComplete(list, list[i].url.text, i + 1, q);
      var k :| 0 <= k < |later| && later[k] == q;
    }
    if q in Marks(later) {
      var k :| 0 <= k < |later| && later[k] == q;
    }
  }

  lemma DiscardGroup(list: seq<Item>, i: nat, discard: set<int>, later: seq<nat>)
    requires i < |list| && DiscardExact(list, i, discard) && i !in discard
    requires later == SameUrlFrom(list, list[i].url.text, i + 1)
    ensures DiscardExact(list, i + 1, discard + {i} + Marks(later))
  {
    var t := list[i].url.text;
    var d2 := discard + {i} + Marks(later);
    FirstIndexAtMost(list, i);
    forall q | i + 1 <= q < |list| ensures (q in d2 <==> FirstIndex(list, list[q].url.text) < i + 1) {
      GroupMember(list, i, later, q);
      assert q in discard <==> FirstIndex(list, list[q].url.text) < i;
      if list[q].url.text == t {
        assert FirstIndex(list, list[q].url.text) == i;
      } else {
        assert FirstIndex(list, list[q].url.text) != i;
      }
    }
  }

  /** The discard set after position `i` is handled. */
  function DiscardAfter(list: seq<Item>, i: nat, discard: set<int>): set<int>
    requires i < |list|
  {
    var later := SameUrlFrom(list, list[i].url.text, i + 1);
    if i in discard || |later| == 0 then discard else discard + {i} + Marks(later)
  }

  /** One step of the loop against one step of the reference: both skip, or both emit the same item. */
  lemma CleanStep(list: seq<Item>, i: nat, discard: set<int>)
    requires i < |list| && DiscardExact(list, i, discard)
    ensures DiscardExact(list, i + 1, DiscardAfter(list, i, discard))
    ensures i in discard ==>
              CleanFrom(list, i, discard) == CleanFrom(list, i + 1, discard)
              && DedupFrom(list, i) == DedupFrom(list, i + 1)
    ensures i !in discard ==> FirstIndex(list, list[i].url.text) == i
    ensures i !in discard ==>
              var head := Item(list[i].url, MinDepth(list, list[i].url.text));
              CleanFrom(list, i, discard) == [head] + CleanFrom(list, i + 1, DiscardAfter(list, i, discard))
              && DedupFrom(list, i) == [head] + DedupFrom(list, i + 1)
  {
    var t := list[i].url.text;
    if i in discard {
      assert FirstIndex(list, t) < i;
      DiscardSkip(list, i, discard);
    } else {
      FirstIndexAtMost(list, i);
      assert FirstIndex(list, t) == i;
      LowestIsMinDepth(list, i);
      var later := SameUrlFrom(list, t, i + 1);
      if |later| == 0 {
        DiscardLone(list, i, discard);
      } else {
        DiscardGroup(list, i, discard, later);
      }
    }
  }

  /** The discard bookkeeping is exact, so the loop computes the reference meaning. */
  lemma {:induction false} CleanFromIsDedup(list: seq<Item>, i: nat, discard: set<int>)
    requires i <= |list|
    requires DiscardExact(list, i, discard)
    ensures CleanFrom(list, i, discard) == DedupFrom(list, i)
    decreases |list| - i
  {
    if i < |list| {
      CleanStep(list, i, discard);
      CleanFromIsDedup(list, i + 1, DiscardAfter(list, i, discard));
    }
  }

  /**
   * `cleanUrlList`: no two items share a URL; every URL of the input
   * survives, in the order of first occurrences, carrying the lowest depth
   * among its copies; nothing else appears.
   */
  function CleanUrlList(list: seq<Item>): (r: seq<Item>)
    ensures UniqueItems(r)
    ensures CoversAll(list, r)
    ensures FromInput(list, r)
    ensures LowestDepths(list, r)
    ensures FirstOccurrenceOrder(list, r)
  {
    CleanFromIsDedup(list, 0, {});
    DedupUnique(list);
    DedupCoversAll(list);
    DedupFromInput(list);
    DedupOrder(list, 0);
    CleanFrom(list, 0, {})
  }

  /** Every input URL has a result copy at no greater depth. */
  predicate Dominates(list: seq<Item>, r: seq<Item>) {
    forall k {:trigger HasCopy(r, list[k].url.text, list[k].depth)} | 0 <= k < |list| ::
      HasCopy(r, list[k].url.text, list[k].depth)
  }

  /** Deduplication never loses a URL and never deepens one. */
  lemma CleanDominates(list: seq<Item>)
    ensures Dominates(list, CleanUrlList(list))
  {
    var r := CleanUrlList(list);
    forall k | 0 <= k < |list| ensures HasCopy(r, list[k].url.text, list[k].depth) {
      assert HasText(r, list[k].url.text);
      var a :| 0 <= a < |r| && r[a].url.text == list[k].url.text;
    }
  }

  // ---------------------------------------------------------------------
  // removeIfExistsInOtherList and removeRepeated
  // ---------------------------------------------------------------------

  /** The first loop of `removeIfExistsInOtherList`: positions from `i` on whose URL is blocked. */
  function BlockedFrom(list: seq<Url>, blocked: seq<Url>, i: nat): (idx: seq<nat>)
    requires i <= |list|
    ensures Ascending(idx)
    ensures forall k | 0 <= k < |idx| :: i + k <= idx[k] < |list|
    ensures forall q | i <= q < |list| :: (q in Marks(idx) <==> Listed(list[q].text, blocked))
    decreases |list| - i
  {
    if i == |list| then []
    else
      var rest := BlockedFrom(list, blocked, i + 1);
      if Listed(list[i].text, blocked) then
        var idx := [i] + rest;
        assert idx[1..] == rest;
        AscendingMarks(idx);
        idx
      else rest
  }

  /**
   * `removeIfExistsInOtherList`: the order-preserving subsequence of `list`
   * whose URLs equal no blocked entry, each kept entry with its full
   * multiplicity.
   */
  function RemoveIfExistsInOtherList(list: seq<Url>, blocked: seq<Url>): (r: seq<Url>)
    ensures IsSubseq(r, list)
    ensures forall x :: multiset(r)[x] == if Listed(x.text, blocked) then 0 else multiset(list)[x]
  {
    RemoveIfExistsIsFilter(list, blocked);
    ApplyRemovals(list, BlockedFrom(list, blocked, 0), 0, false)
  }

  /** The index bookkeeping of `removeIfExistsInOtherList` amounts to a filter. */
  lemma RemoveIfExistsIsFilter(list: seq<Url>, blocked: seq<Url>)
    ensures ApplyRemovals(list, BlockedFrom(list, blocked, 0), 0, false)
         == Filter(list, (u: Url) => !Listed(u.text, blocked))
  {
    var idx := BlockedFrom(list, blocked, 0);
    var keep := (u: Url) => !Listed(u.text, blocked);
    ApplyAscendingRemovals(list, idx, 0);
    var marked := Marks(idx);
    forall j | 0 <= j < |list| ensures (0 + j in marked <==> !keep(list[j])) {
      assert keep(list[j]) == !Listed(list[j].text, blocked);
    }
    KeepUnmarkedIsFilter(list, keep, marked, 0);
  }

  /** Adds `j` to an insertion-ordered set (a `LinkedHashSet`). */
  function AddOnce(acc: seq<nat>, j: nat): (r: seq<nat>)
    ensures j in r && forall x | x in acc :: x in r
    ensures forall x | x in r :: x in acc || x == j
  {
    if j in acc then acc else acc + [j]
  }

  /** The inner loop of `removeRepeated` for position `i`: later positions repeating it. */
  function RepeatsOf(list: seq<Url>, i: nat, j: nat, acc: seq<nat>): (r: seq<nat>)
    requires i < j
    requires forall k | 0 <= k < |acc| :: 1 <= acc[k] < |list|
    ensures forall k | 0 <= k < |r| :: 1 <= r[k] < |list|
    ensures UniqueTexts(list) ==> r == acc
    decreases |list| - j
  {
    if j >= |list| then acc
    else RepeatsOf(list, i, j + 1, if list[i].text == list[j].text then AddOnce(acc, j) else acc)
  }

  /**
   * The first loop of `removeRepeated`: for each position, every later
   * position holding the same URL, in discovery order (not sorted).
   */
  function RepeatPositions(list: seq<Url>, i: nat, acc: seq<nat>): (r: seq<nat>)
    requires forall k | 0 <= k < |acc| :: 1 <= acc[k] < |list|
    ensures forall k | 0 <= k < |r| :: 1 <= r[k] < |list|
    ensures UniqueTexts(list) ==> r == acc
    decreases |list| - i
  {
    if i >= |list| then acc
    else RepeatPositions(list, i + 1, RepeatsOf(list, i, i + 1, acc))
  }

  /**
   * `removeRepeated` as written: the collected positions are removed with
   * the shift bookkeeping of an ascending list, skipping a shifted position
   * that is not positive.  Every position handed to `remove` is in range;
   * the result is a subsequence that keeps the first entry, and a list with
   * no repeats comes back unchanged.
   */
  function RemoveRepeated(list: seq<Url>): (r: seq<Url>)
    ensures IsSubseq(r, list)
    ensures |list| > 0 ==> |r| > 0 && r[0] == list[0]
    ensures UniqueTexts(list) ==> r == list
  {
    var idx := RepeatPositions(list, 0, []);
    ApplyRemovalsSubseq(list, idx, 0, true);
    GuardedRemovalsKeepHead(list, idx, 0);
    ApplyRemovals(list, idx, 0, true)
  }

  /** Four URLs that print differently. */
  predicate Distinct4(a: Url, b: Url, c: Url, x: Url) {
    a.text != b.text && a.text != c.text && a.text != x.text
    && b.text != c.text && b.text != x.text && c.text != x.text
  }

  lemma RepeatsOfFirst(a: Url, b: Url, c: Url, x: Url)
    requires Distinct4(a, b, c, x)
    ensures RepeatsOf([a, b, c, b, x, a], 0, 1, []) == [5]
  {
    var list := [a, b, c, b, x, a];
    assert RepeatsOf(list, 0, 5, []) == RepeatsOf(list, 0, 6, [5]);
    assert RepeatsOf(list, 0, 3, []) == RepeatsOf(list, 0, 5, []);
    assert RepeatsOf(list, 0, 1, []) == RepeatsOf(list, 0, 3, []);
  }

  lemma RepeatsOfSecond(a: Url, b: Url, c: Url, x: Url)
    requires Distinct4(a, b, c, x)
    ensures RepeatsOf([a, b, c, b, x, a], 1, 2, [5]) == [5, 3]
  {
    var list := [a, b, c, b, x, a];
    assert AddOnce([5], 3) == [5, 3];
    assert RepeatsOf(list, 1, 4, [5, 3]) == RepeatsOf(list, 1, 6, [5, 3]);
    assert RepeatsOf(list, 1, 2, [5]) == RepeatsOf(list, 1, 4, [5, 3]);
  }

  lemma RepeatsOfLastFour(a: Url, b: Url, c: Url, x: Url)
    requires Distinct4(a, b, c, x)
    ensures RepeatPositions([a, b, c, b, x, a], 2, [5, 3]) == [5, 3]
  {
    var list := [a, b, c, b, x, a];
    assert RepeatsOf(list, 2, 4, [5, 3]) == RepeatsOf(list, 2, 6, [5, 3]);
    assert RepeatsOf(list, 2, 3, [5, 3]) == [5, 3];
    assert RepeatsOf(list, 3, 4, [5, 3]) == RepeatsOf(list, 3, 6, [5, 3]);
    assert RepeatsOf(list, 3, 4, [5, 3]) == [5, 3];
    assert RepeatsOf(list, 4, 5, [5, 3]) == [5, 3];
    assert RepeatsOf(list, 5, 6, [5, 3]) == [5, 3];
    assert RepeatPositions(list, 4, [5, 3]) == RepeatPositions(list, 6, [5, 3]);
    assert RepeatPositions(list, 2, [5, 3]) == RepeatPositions(list, 4, [5, 3]);
  }

  /**
   * The removal positions are kept in discovery order, which the shift
   * bookkeeping does not expect: for `[a, b, c, b, x, a]` the positions are
   * `[5, 3]`, the second removal lands on `c` instead of the second `b`, and
   * a duplicate survives.
   */
  lemma RemoveRepeatedKeepsDuplicate(a: Url, b: Url, c: Url, x: Url)
    requires Distinct4(a, b, c, x)
    ensures RepeatPositions([a, b, c, b, x, a], 0, []) == [5, 3]
    ensures RemoveRepeated([a, b, c, b, x, a]) == [a, b, b, x]
  {
    var list := [a, b, c, b, x, a];
    RepeatsOfFirst(a, b, c, x);
    RepeatsOfSecond(a, b, c, x);
    RepeatsOfLastFour(a, b, c, x);
    assert RepeatPositions(list, 0, []) == RepeatPositions(list, 2, [5, 3]);
    var once := list[..5] + list[6..];
    assert once == [a, b, c, b, x];
    assert ApplyRemovals(list, [5, 3], 0, true) == ApplyRemovals(once, [3], 1, true);
    assert once[..2] + once[3..] == [a, b, b, x];
  }

  /** The guarded loop never removes position 0. */
  lemma {:induction false} GuardedRemovalsKeepHead<T>(r: seq<T>, idx: seq<nat>, shift: nat)
    requires forall k | 0 <= k < |idx| :: idx[k] < |r| + shift
    ensures |r| > 0 ==> |ApplyRemovals(r, idx, shift, true)| > 0 && ApplyRemovals(r, idx, shift, true)[0] == r[0]
    decreases |idx|
  {
    if |idx| > 0 && |r| > 0 {
      var p := idx[0] - shift;
      if p <= 0 {
        GuardedRemovalsKeepHead(r, idx[1..], shift + 1);
      } else {
        GuardedRemovalsKeepHead(r[..p] + r[p + 1..], idx[1..], shift + 1);
      }
    }
  }

  // ---------------------------------------------------------------------
  // removeVisited, isExcluded, removeExcluded
  // ---------------------------------------------------------------------

  /**
   * `removeVisited`: the items whose URL equals no visited entry, in order,
   * each with its full multiplicity.
   */
  function RemoveVisited(items: seq<Item>, visited: seq<Url>): (r: seq<Item>)
    ensures IsSubseq(r, items)
    ensures forall x :: multiset(r)[x] == if Listed(x.url.text, visited) then 0 else multiset(items)[x]
  {
    Filter(items, (it: Item) => !Listed(it.url.text, visited))
  }

  /** The exclusion rule: `u` lies under `e + "/"` or equals `e` up to surrounding blanks. */
  predicate ExcludedBy(u: string, e: string) {
    StartsWith(u, e + "/") || Trim(u) == Trim(e)
  }

  /** `isExcluded`: some excluded entry rules the URL out. */
  function IsExcluded(u: Url, excluded: seq<Url>): (b: bool)
    ensures b <==> exists k | 0 <= k < |excluded| :: ExcludedBy(u.text, excluded[k].text)
    decreases |excluded|
  {
    if |excluded| == 0 then false
    else if ExcludedBy(u.text, excluded[0].text) then true
    else
      ExcludedTail(u.text, excluded);
      IsExcluded(u, excluded[1..])
  }

  /** Some entry of the tail rules `u` out exactly when some entry past the head does. */
  lemma ExcludedTail(u: string, excluded: seq<Url>)
    requires |excluded| > 0
    ensures (exists k | 0 <= k < |excluded[1..]| :: ExcludedBy(u, excluded[1..][k].text))
        <==> exists k | 1 <= k < |excluded| :: ExcludedBy(u, excluded[k].text)
  {
    if exists k | 0 <= k < |excluded[1..]| :: ExcludedBy(u, excluded[1..][k].text) {
      var k :| 0 <= k < |excluded[1..]| && ExcludedBy(u, excluded[1..][k].text);
      assert excluded[1..][k] == excluded[k + 1];
    }
    if exists k | 1 <= k < |excluded| :: ExcludedBy(u, excluded[k].text) {
      var k :| 1 <= k < |excluded| && ExcludedBy(u, excluded[k].text);
      assert excluded[1..][k - 1] == excluded[k];
    }
  }

  /**
   * `removeExcluded`: the items no excluded entry rules out, in order, each
   * with its full multiplicity.
   */
  function RemoveExcluded(items: seq<Item>, excluded: seq<Url>): (r: seq<Item>)
    ensures IsSubseq(r, items)
    ensures forall k, e | 0 <= k < |r| && 0 <= e < |excluded| :: !ExcludedBy(r[k].url.text, excluded[e].text)
    ensures forall x :: multiset(r)[x] == if IsExcluded(x.url, excluded) then 0 else multiset(items)[x]
  {
    var r := Filter(items, (it: Item) => !IsExcluded(it.url, excluded));
    forall k | 0 <= k < |r| ensures !IsExcluded(r[k].url, excluded) {
      FilterMembers(items, (it: Item) => !IsExcluded(it.url, excluded), r[k]);
    }
    r
  }

  /** For texts without surrounding blanks: excluded means equal, or below `e + "/"`. */
  lemma ExclusionLaw(u: string, e: string)
    requires Trim(u) == u && Trim(e) == e
    ensures ExcludedBy(u, e) <==> u == e || StartsWith(u, e + "/")
  {
  }

  /** An entry blocks its sub-paths but not a sibling sharing its prefix. */
  lemma ExclusionIsByPathSegment()
    ensures ExcludedBy("http://h/private/page", "http://h/private")
    ensures !ExcludedBy("http://h/privateX", "http://h/private")
  {
    var e, below, sibling := "http://h/private", "http://h/private/page", "http://h/privateX";
    assert below[..|e + "/"|] == e + "/";
    assert sibling[|e|] == 'X' && (e + "/")[|e|] == '/';
    TrimOfTrimmed(e);
    TrimOfTrimmed(sibling);
  }

  // ---------------------------------------------------------------------
  // The visited list
  // ---------------------------------------------------------------------

  /**
   * `markAsVisited`: the list only grows at its end, by the URL itself and
   * only when no entry prints the same; a duplicate-free list stays so.
   */
  function MarkAsVisited(visited: seq<Url>, u: Url): (r: seq<Url>)
    ensures Listed(u.text, r)
    ensures |visited| <= |r| <= |visited| + 1 && r[..|visited|] == visited
    ensures |r| > |visited| ==> r[|visited|] == u && !Listed(u.text, visited)
    ensures Listed(u.text, visited) ==> r == visited
    ensures UniqueTexts(visited) ==> UniqueTexts(r)
  {
    if Listed(u.text, visited) then visited
    else
      assert (visited + [u])[|visited|] == u;
      visited + [u]
  }

  /** Marking twice is marking once. */
  lemma MarkAsVisitedIdempotent(visited: seq<Url>, u: Url)
    ensures MarkAsVisited(MarkAsVisited(visited, u), u) == MarkAsVisited(visited, u)
  {
  }

  /**
   * Visited entry `v` names the same stackoverflow question as `u`: it
   * carries the marker, both question ids can be extracted and are numeric,
   * and one text contains the other.
   */
  predicate SameQuestion(u: Url, v: Url, numeric: string -> bool) {
    Contains(v.text, Marker)
    && QuestionId(u.text).Success? && QuestionId(v.text).Success?
    && numeric(QuestionId(u.text).value) && numeric(QuestionId(v.text).value)
    && (Contains(u.text, v.text) || Contains(v.text, u.text))
  }

  /** Entry `v` answers yes for `u`: it prints the same, or (with the stackoverflow check on) names the same question. */
  predicate Matches(u: Url, v: Url, numeric: string -> bool, soCheck: bool) {
    v.text == u.text || (soCheck && SameQuestion(u, v, numeric))
  }

  /**
   * The loop of `isVisited` from entry `i` on.  An entry printing as `u`
   * answers yes; when both texts carry the stackoverflow marker, their
   * question ids are extracted (which can fail) and, both being numeric, one
   * text containing the other also answers yes.
   */
  function VisitedFrom(u: Url, visited: seq<Url>, numeric: string -> bool, soCheck: bool, i: nat): (r: Result<bool, Fault>)
    requires i <= |visited|
    ensures r == Success(true) ==> exists k | i <= k < |visited| :: Matches(u, visited[k], numeric, soCheck)
    ensures (exists k | i <= k < |visited| :: Matches(u, visited[k], numeric, soCheck)) ==> r != Success(false)
    ensures r.Failure? ==> soCheck && r.error == IndexOutOfBounds
    ensures !soCheck ==> r == Success(exists k | i <= k < |visited| :: visited[k].text == u.text)
    decreases |visited| - i
  {
    if i == |visited| then Success(false)
    else
      var v := visited[i];
      if v.text == u.text then Success(true)
      else if soCheck && Contains(v.text, Marker) then
        var idU :- QuestionId(u.text);
        var idV :- QuestionId(v.text);
        if numeric(idU) && numeric(idV) && (Contains(u.text, v.text) || Contains(v.text, u.text)) then Success(true)
        else VisitedFrom(u, visited, numeric, soCheck, i + 1)
      else VisitedFrom(u, visited, numeric, soCheck, i + 1)
  }

  /**
   * `isVisited`: an empty URL is never visited; without the stackoverflow
   * marker the answer is exact membership; with it, a visited entry naming
   * the same numeric question also counts, and a malformed question URL
   * raises an index fault.
   */
  function IsVisited(u: Url, visited: seq<Url>, numeric: string -> bool): (r: Result<bool, Fault>)
    ensures u.text == "" ==> r == Success(false)
    ensures !Contains(u.text, Marker) ==> r == Success(u.text != "" && Listed(u.text, visited))
    ensures r == Success(true) ==> exists k | 0 <= k < |visited| :: Matches(u, visited[k], numeric, Contains(u.text, Marker))
    ensures u.text != "" && (exists k | 0 <= k < |visited| :: Matches(u, visited[k], numeric, Contains(u.text, Marker))) ==>
              r != Success(false)
    ensures r.Failure? ==> Contains(u.text, Marker) && r.error == IndexOutOfBounds
  {
    if u.text == "" then Success(false)
    else VisitedFrom(u, visited, numeric, Contains(u.text, Marker), 0)
  }

  /** `isVisitedHost`: some visited entry has the same protocol and host, compared as one joined string. */
  function IsVisitedHost(u: Url, visited: seq<Url>): (b: bool)
    ensures b <==> u.text != "" && exists k | 0 <= k < |visited| :: visited[k].protocol + visited[k].host == u.protocol + u.host
  {
    u.text != "" && HostSeen(u, visited)
  }

  function HostSeen(u: Url, visited: seq<Url>): (b: bool)
    ensures b <==> exists k | 0 <= k < |visited| :: visited[k].protocol + visited[k].host == u.protocol + u.host
    decreases |visited|
  {
    if |visited| == 0 then false
    else if visited[0].protocol + visited[0].host == u.protocol + u.host then true
    else
      var b := HostSeen(u, visited[1..]);
      assert forall k | 1 <= k < |visited| :: visited[k] == visited[1..][k - 1];
      b
  }

  /**
   * Joining protocol and host loses their boundary: an `http` visit to host
   * `shost` counts as a visit to `https` host `host`.
   */
  lemma VisitedHostJoinsStrings()
    ensures IsVisitedHost(Url("https://host/", "https", "host", -1), [Url("http://shost/", "http", "shost", -1)])
  {
    assert "http" + "shost" == "https" + "host";
  }
}
