/**
 * Sequence facts shared by the frontier list helpers: subsequences, the
 * order-preserving filter, and the Java idiom "collect indices to remove,
 * then `list.remove(i - removedSoFar)` for each" that two helpers use.
 */
module Sequences {

  /** `a` is obtained from `b` by deleting elements, keeping the order. */
  predicate IsSubseq<T(==)>(a: seq<T>, b: seq<T>)
    decreases |b|
  {
    |a| == 0 || (|b| > 0 && ((a[0] == b[0] && IsSubseq(a[1..], b[1..])) || IsSubseq(a, b[1..])))
  }

  lemma {:induction false} SubseqRefl<T>(a: seq<T>)
    ensures IsSubseq(a, a)
    decreases |a|
  {
    if |a| > 0 {
      SubseqRefl(a[1..]);
    }
  }

  lemma {:induction false} SubseqTrans<T>(a: seq<T>, b: seq<T>, c: seq<T>)
    requires IsSubseq(a, b) && IsSubseq(b, c)
    ensures IsSubseq(a, c)
    decreases |c|
  {
    if |a| > 0 {
      if IsSubseq(b, c[1..]) {
        SubseqTrans(a, b, c[1..]);
      } else {
        assert b[0] == c[0] && IsSubseq(b[1..], c[1..]);
        if a[0] == b[0] && IsSubseq(a[1..], b[1..]) {
          SubseqTrans(a[1..], b[1..], c[1..]);
        } else {
          SubseqTrans(a, b[1..], c[1..]);
        }
      }
    }
  }

  /** A result extending `acc + [u]`, whose tail and `u` satisfy `P`, extends `acc` with a tail satisfying `P`. */
  lemma AppendKeeps<T>(acc: seq<T>, u: T, r: seq<T>, P: T -> bool)
    requires |acc| + 1 <= |r| && r[..|acc| + 1] == acc + [u]
    requires P(u)
    requires forall q | |acc| + 1 <= q < |r| :: P(r[q])
    ensures r[..|acc|] == acc
    ensures forall q | |acc| <= q < |r| :: P(r[q])
  {
    assert r[..|acc|] == r[..|acc| + 1][..|acc|];
    assert r[|acc|] == r[..|acc| + 1][|acc|] == u;
  }

  /** Every element of a subsequence is an element of the whole. */
  lemma {:induction false} SubseqMembers<T>(a: seq<T>, b: seq<T>)
    requires IsSubseq(a, b)
    ensures forall x | x in a :: x in b
    ensures |a| <= |b|
    decreases |b|
  {
    if |a| > 0 {
      if a[0] == b[0] && IsSubseq(a[1..], b[1..]) {
        SubseqMembers(a[1..], b[1..]);
        assert forall x | x in a :: x == a[0] || x in a[1..];
      } else {
        SubseqMembers(a, b[1..]);
      }
    }
  }

  /** Deleting one element yields a subsequence. */
  lemma {:induction false} RemoveAtIsSubseq<T>(r: seq<T>, p: nat)
    requires p < |r|
    ensures IsSubseq(r[..p] + r[p + 1..], r)
    decreases p
  {
    var d := r[..p] + r[p + 1..];
    if p == 0 {
      assert d == r[1..];
      SubseqRefl(r[1..]);
    } else {
      RemoveAtIsSubseq(r[1..], p - 1);
      assert d[0] == r[0];
      assert d[1..] == r[1..][..p - 1] + r[1..][p..];
    }
  }

  // ---------------------------------------------------------------------
  // Filter
  // ---------------------------------------------------------------------

  /** The elements of `s` that `keep` accepts, in their original order. */
  function Filter<T(==,!new)>(s: seq<T>, keep: T -> bool): (r: seq<T>)
    ensures IsSubseq(r, s)
    ensures forall x :: multiset(r)[x] == if keep(x) then multiset(s)[x] else 0
    ensures |r| <= |s|
    decreases |s|
  {
    if |s| == 0 then []
    else
      var rest := Filter(s[1..], keep);
      assert s == [s[0]] + s[1..];
      assert multiset(s) == multiset{s[0]} + multiset(s[1..]);
      if keep(s[0]) then
        assert ([s[0]] + rest)[1..] == rest;
        [s[0]] + rest
      else
        rest
  }

  /** A filter keeps exactly the accepted elements. */
  lemma FilterMembers<T(!new)>(s: seq<T>, keep: T -> bool, x: T)
    ensures x in Filter(s, keep) <==> x in s && keep(x)
  {
    var r := Filter(s, keep);
    assert x in r <==> multiset(r)[x] > 0;
    assert x in s <==> multiset(s)[x] > 0;
  }

  /** Filtering with a test that accepts every element changes nothing. */
  lemma {:induction false} FilterAll<T(!new)>(s: seq<T>, keep: T -> bool)
    requires forall k | 0 <= k < |s| :: keep(s[k])
    ensures Filter(s, keep) == s
    decreases |s|
  {
    if |s| > 0 {
      FilterAll(s[1..], keep);
    }
  }

  // ---------------------------------------------------------------------
  // Removal by a list of indices
  // ---------------------------------------------------------------------

  /**
   * `r` with the elements whose absolute position `base + j` is in `marked`
   * deleted; the reference meaning of a removal loop.
   */
  function KeepUnmarked<T>(r: seq<T>, marked: set<int>, base: int): seq<T>
    decreases |r|
  {
    if |r| == 0 then []
    else (if base in marked then [] else [r[0]]) + KeepUnmarked(r[1..], marked, base + 1)
  }

  lemma {:induction false} KeepUnmarkedAppend<T>(a: seq<T>, b: seq<T>, marked: set<int>, base: int)
    ensures KeepUnmarked(a + b, marked, base)
         == KeepUnmarked(a, marked, base) + KeepUnmarked(b, marked, base + |a|)
    decreases |a|
  {
    if |a| > 0 {
      assert (a + b)[1..] == a[1..] + b;
      KeepUnmarkedAppend(a[1..], b, marked, base + 1);
    } else {
      assert a + b == b;
    }
  }

  /** Only the marks inside the window `[base, base + |r|)` matter. */
  lemma {:induction false} KeepUnmarkedWindow<T>(r: seq<T>, m1: set<int>, m2: set<int>, base: int)
    requires forall q | base <= q < base + |r| :: (q in m1 <==> q in m2)
    ensures KeepUnmarked(r, m1, base) == KeepUnmarked(r, m2, base)
    decreases |r|
  {
    if |r| > 0 {
      KeepUnmarkedWindow(r[1..], m1, m2, base + 1);
    }
  }

  lemma {:induction false} KeepUnmarkedNone<T>(r: seq<T>, marked: set<int>, base: int)
    requires forall q | base <= q < base + |r| :: q !in marked
    ensures KeepUnmarked(r, marked, base) == r
    decreases |r|
  {
    if |r| > 0 {
      KeepUnmarkedNone(r[1..], marked, base + 1);
      assert r == [r[0]] + r[1..];
    }
  }

  /** Marking exactly the rejected positions is filtering. */
  lemma {:induction false} KeepUnmarkedIsFilter<T(!new)>(r: seq<T>, keep: T -> bool, marked: set<int>, base: int)
    requires forall j | 0 <= j < |r| :: (base + j in marked <==> !keep(r[j]))
    ensures KeepUnmarked(r, marked, base) == Filter(r, keep)
    decreases |r|
  {
    if |r| > 0 {
      assert base + 0 in marked <==> !keep(r[0]);
      forall j | 0 <= j < |r[1..]| ensures (base + 1 + j in marked <==> !keep(r[1..][j])) {
        assert r[1..][j] == r[j + 1] && base + 1 + j == base + (j + 1);
      }
      KeepUnmarkedIsFilter(r[1..], keep, marked, base + 1);
    }
  }

  /** The indices are strictly increasing. */
  predicate Ascending(idx: seq<nat>) {
    forall a, b | 0 <= a < b < |idx| :: idx[a] < idx[b]
  }

  /**
   * The Java loop
   *   `for (int i : removeList) { [if (i - removedSoFar > 0)] results.remove(i - removedSoFar); removedSoFar++; }`
   * with `shift` as `removedSoFar`.  `skipNonPositive` selects the guarded
   * variant, which counts a skipped index as removed all the same.  The
   * requires say that every index the loop hands to `remove` is in range.
   */
  function ApplyRemovals<T>(r: seq<T>, idx: seq<nat>, shift: nat, skipNonPositive: bool): seq<T>
    requires forall k | 0 <= k < |idx| :: idx[k] < |r| + shift
    requires !skipNonPositive ==> forall k | 0 <= k < |idx| :: shift + k <= idx[k]
    decreases |idx|
  {
    if |idx| == 0 then r
    else
      var p := idx[0] - shift;
      if skipNonPositive && p <= 0 then
        ApplyRemovals(r, idx[1..], shift + 1, skipNonPositive)
      else
        ApplyRemovals(r[..p] + r[p + 1..], idx[1..], shift + 1, skipNonPositive)
  }

  /** Whatever the indices, the loop only ever deletes elements. */
  lemma {:induction false} ApplyRemovalsSubseq<T>(r: seq<T>, idx: seq<nat>, shift: nat, skip: bool)
    requires forall k | 0 <= k < |idx| :: idx[k] < |r| + shift
    requires !skip ==> forall k | 0 <= k < |idx| :: shift + k <= idx[k]
    ensures IsSubseq(ApplyRemovals(r, idx, shift, skip), r)
    decreases |idx|
  {
    if |idx| == 0 {
      SubseqRefl(r);
    } else {
      var p := idx[0] - shift;
      if skip && p <= 0 {
        ApplyRemovalsSubseq(r, idx[1..], shift + 1, skip);
      } else {
        var r' := r[..p] + r[p + 1..];
        ApplyRemovalsSubseq(r', idx[1..], shift + 1, skip);
        RemoveAtIsSubseq(r, p);
        SubseqTrans(ApplyRemovals(r', idx[1..], shift + 1, skip), r', r);
      }
    }
  }

  /** The set of positions an index list names. */
  function Marks(idx: seq<nat>): (m: set<int>)
    ensures forall k | 0 <= k < |idx| :: idx[k] in m
  {
    set k | 0 <= k < |idx| :: idx[k]
  }

  /** An ascending list's marks are its head plus the tail's marks, all above the head. */
  lemma AscendingMarks(idx: seq<nat>)
    requires |idx| > 0 && Ascending(idx)
    ensures Marks(idx) == {idx[0] as int} + Marks(idx[1..])
    ensures forall q | q in Marks(idx[1..]) :: idx[0] < q
  {
    forall q | q in Marks(idx[1..]) ensures idx[0] < q && q in Marks(idx) {
      var k :| 0 <= k < |idx[1..]| && idx[1..][k] == q;
      assert idx[k + 1] == q;
    }
    forall q | q in Marks(idx) ensures q == idx[0] || q in Marks(idx[1..]) {
      var k :| 0 <= k < |idx| && idx[k] == q;
      if k > 0 {
        assert idx[1..][k - 1] == q;
      }
    }
  }

  /** Marks that all lie at or beyond `lo` leave a prefix ending before `lo` alone. */
  lemma KeepUnmarkedBelow<T>(r: seq<T>, marked: set<int>, base: int, lo: int)
    requires base + |r| <= lo
    requires forall q | q in marked :: lo <= q
    ensures KeepUnmarked(r, marked, base) == r
  {
    KeepUnmarkedNone(r, marked, base);
  }

  /** Once position `p` is deleted, the marks above it still see the tail. */
  lemma AfterDeletion<T>(head: seq<T>, tail: seq<T>, rest: set<int>, shift: int)
    requires forall q | q in rest :: shift + |head| < q
    ensures KeepUnmarked(head + tail, rest, shift + 1) == head + KeepUnmarked(tail, rest, shift + |head| + 1)
  {
    KeepUnmarkedAppend(head, tail, rest, shift + 1);
    KeepUnmarkedBelow(head, rest, shift + 1, shift + |head| + 1);
  }

  /** A marked first element is dropped. */
  lemma DropMarkedHead<T>(x: T, tail: seq<T>, marked: set<int>, base: int)
    requires base in marked
    ensures KeepUnmarked([x] + tail, marked, base) == KeepUnmarked(tail, marked, base + 1)
  {
    assert ([x] + tail)[1..] == tail;
  }

  /** Marking position `p` and some positions above it deletes `r[p]` and keeps what precedes it. */
  lemma BeforeDeletion<T>(r: seq<T>, p: nat, rest: set<int>, shift: int)
    requires p < |r|
    requires forall q | q in rest :: shift + p < q
    ensures KeepUnmarked(r, {shift + p} + rest, shift) == r[..p] + KeepUnmarked(r[p + 1..], rest, shift + p + 1)
  {
    var marked := {shift + p} + rest;
    var head, tail := r[..p], r[p + 1..];
    assert r == head + ([r[p]] + tail);
    KeepUnmarkedAppend(head, [r[p]] + tail, marked, shift);
    KeepUnmarkedBelow(head, marked, shift, shift + p);
    DropMarkedHead(r[p], tail, marked, shift + p);
    KeepUnmarkedWindow(tail, marked, rest, shift + p + 1);
  }

  /**
   * With ascending indices the shift bookkeeping is exact: the unguarded loop
   * deletes precisely the listed positions.
   */
  lemma {:induction false} ApplyAscendingRemovals<T>(r: seq<T>, idx: seq<nat>, shift: nat)
    requires Ascending(idx)
    requires forall k | 0 <= k < |idx| :: shift + k <= idx[k] < |r| + shift
    ensures ApplyRemovals(r, idx, shift, false) == KeepUnmarked(r, Marks(idx), shift)
    decreases |idx|
  {
    if |idx| == 0 {
      KeepUnmarkedNone(r, Marks(idx), shift);
    } else {
      var p := idx[0] - shift;
      AscendingMarks(idx);
      assert forall k | 0 <= k < |idx[1..]| :: idx[1..][k] == idx[k + 1];
      var rest := Marks(idx[1..]);
      ApplyAscendingRemovals(r[..p] + r[p + 1..], idx[1..], shift + 1);
      assert ApplyRemovals(r, idx, shift, false) == ApplyRemovals(r[..p] + r[p + 1..], idx[1..], shift + 1, false);
      assert |r[..p]| == p;
      AfterDeletion(r[..p], r[p + 1..], rest, shift);
      BeforeDeletion(r, p, rest, shift);
      assert Marks(idx) == {shift + p} + rest;
    }
  }
}
