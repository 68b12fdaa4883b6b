/** The range algebra of src/utils.rs: containment, intersection, merging of
    two ranges, and `eliminated_ranges`, which turns any list of ranges into
    the canonical list of disjoint, non-touching ranges covering the same
    positions. */
module Ranges {
  import opened Wrappers
  import opened Models

  function Min(a: Loc, b: Loc): Loc { if a <= b then a else b }
  function Max(a: Loc, b: Loc): Loc { if a >= b then a else b }

  /** Position `p` is covered by some range of `rs`. */
  ghost predicate CoveredBy(rs: seq<Range>, p: int) {
    exists r :: r in rs && Covers(r, p)
  }

  /** `a` and `b` cover exactly the same positions. */
  ghost predicate SamePoints(a: seq<Range>, b: seq<Range>) {
    forall p :: CoveredBy(a, p) <==> CoveredBy(b, p)
  }

  lemma CoveredByAppend(a: seq<Range>, b: seq<Range>, p: int)
    ensures CoveredBy(a + b, p) <==> CoveredBy(a, p) || CoveredBy(b, p)
  {
    if CoveredBy(a + b, p) {
      var r :| r in a + b && Covers(r, p);
      assert r in a || r in b;
    }
    if CoveredBy(a, p) {
      var r :| r in a && Covers(r, p);
      assert r in a + b;
    }
    if CoveredBy(b, p) {
      var r :| r in b && Covers(r, p);
      assert r in a + b;
    }
  }

  lemma CoveredByCons(rs: seq<Range>, p: int)
    requires |rs| > 0
    ensures CoveredBy(rs, p) <==> Covers(rs[0], p) || CoveredBy(rs[1..], p)
  {
    assert rs == [rs[0]] + rs[1..];
    CoveredByAppend([rs[0]], rs[1..], p);
    assert CoveredBy([rs[0]], p) <==> Covers(rs[0], p) by {
      if CoveredBy([rs[0]], p) {
        var r :| r in [rs[0]] && Covers(r, p);
      }
    }
  }

  /** Two lists with the same elements cover the same positions. */
  lemma SameElementsSamePoints(a: seq<Range>, b: seq<Range>)
    requires multiset(a) == multiset(b)
    ensures SamePoints(a, b)
  {
    forall p ensures CoveredBy(a, p) <==> CoveredBy(b, p) {
      if CoveredBy(a, p) {
        var r :| r in a && Covers(r, p);
        assert r in multiset(a);
        assert r in b;
      }
      if CoveredBy(b, p) {
        var r :| r in b && Covers(r, p);
        assert r in multiset(b);
        assert r in a;
      }
    }
  }

  // ---------------------------------------------------------------------------
  // Two ranges.

  /** `is_super_range(r1, r2)`. */
  predicate IsSuperRange(r1: Range, r2: Range) {
    (r1.from < r2.from && r2.until <= r1.until) || (r1.from <= r2.from && r2.until < r1.until)
  }

  /** `r1` is a super range of `r2` exactly when it covers every position of
      `r2` and is a different range. */
  lemma IsSuperRangeIsStrictContainment(r1: Range, r2: Range)
    ensures IsSuperRange(r1, r2) <==> (forall p :: Covers(r2, p) ==> Covers(r1, p)) && r1 != r2
  {
    if (forall p :: Covers(r2, p) ==> Covers(r1, p)) && r1 != r2 {
      assert Covers(r2, r2.from);
      assert Covers(r2, r2.until - 1);
    }
  }

  /** `common_range(r1, r2)`: order the pair by start, then intersect. */
  function CommonRange(r1: Range, r2: Range): (c: Option<Range>)
    ensures c.Some? <==> Max(r1.from, r2.from) < Min(r1.until, r2.until)
    ensures c.Some? ==> c.value.from == Max(r1.from, r2.from) && c.value.until == Min(r1.until, r2.until)
    decreases if r2.from < r1.from then 1 else 0
  {
    if r2.from < r1.from then CommonRange(r2, r1)
    else if r1.until < r2.from then None
    else RangeNew(r2.from, Min(r1.until, r2.until))
  }

  /** The common range is the set intersection: it exists exactly when the two
      ranges share a position, and then covers exactly the shared positions. */
  lemma CommonRangeIsIntersection(r1: Range, r2: Range)
    ensures CommonRange(r1, r2).None? <==> forall p :: !(Covers(r1, p) && Covers(r2, p))
    ensures CommonRange(r1, r2).Some? ==>
      forall p :: Covers(CommonRange(r1, r2).value, p) <==> Covers(r1, p) && Covers(r2, p)
  {
    if CommonRange(r1, r2).Some? {
      var p := Max(r1.from, r2.from);
      assert Covers(r1, p) && Covers(r2, p);
    }
  }

  lemma CommonRangeSymmetric(r1: Range, r2: Range)
    ensures CommonRange(r1, r2) == CommonRange(r2, r1)
  {
  }

  /** Intersecting with a range that contains `r2` (or equals it) gives `r2`. */
  lemma CommonRangeOfContained(r1: Range, r2: Range)
    requires IsSuperRange(r1, r2) || r1 == r2
    ensures CommonRange(r1, r2) == Some(r2)
  {
  }

  /** `merge_ranges(r1, r2)`: the hull when the ranges overlap or touch. */
  function MergeRanges(r1: Range, r2: Range): (m: Option<Range>)
    ensures m.Some? <==> r1.from <= r2.until && r2.from <= r1.until
    ensures m.Some? ==> m.value.from == Min(r1.from, r2.from) && m.value.until == Max(r1.until, r2.until)
  {
    if CommonRange(r1, r2).Some? || r1.until == r2.from || r2.until == r1.from then
      RangeNew(Min(r1.from, r2.from), Max(r1.until, r2.until))
    else None
  }

  /** A merge covers exactly the union of the two ranges; when there is no
      merge some position between them is covered by neither. */
  lemma MergeRangesIsUnion(r1: Range, r2: Range)
    ensures MergeRanges(r1, r2).Some? ==>
      forall p :: Covers(MergeRanges(r1, r2).value, p) <==> Covers(r1, p) || Covers(r2, p)
    ensures MergeRanges(r1, r2).None? ==>
      exists p :: Min(r1.from, r2.from) <= p < Max(r1.until, r2.until) && !Covers(r1, p) && !Covers(r2, p)
  {
    if MergeRanges(r1, r2).None? {
      var p := Min(r1.until, r2.until);
      assert !Covers(r1, p) && !Covers(r2, p);
    }
  }

  /** The merge of two ranges contains each of them. */
  lemma MergeRangesContainsBoth(r1: Range, r2: Range)
    requires MergeRanges(r1, r2).Some?
    ensures var m := MergeRanges(r1, r2).value;
      (IsSuperRange(m, r1) || m == r1) && (IsSuperRange(m, r2) || m == r2)
  {
  }

  lemma MergeRangesCommutative(r1: Range, r2: Range)
    ensures MergeRanges(r1, r2) == MergeRanges(r2, r1)
  {
  }

  lemma MergeRangesSelf(r: Range)
    ensures MergeRanges(r, r) == Some(r)
  {
  }

  // ---------------------------------------------------------------------------
  // eliminated_ranges.

  /** The canonical form: ranges in increasing order with at least one
      uncovered position between neighbours. */
  predicate Normal(rs: seq<Range>) {
    forall i :: 0 <= i < |rs| - 1 ==> rs[i].until < rs[i + 1].from
  }

  /** The sort key `(from, until)`. */
  predicate LexLe(a: Range, b: Range) {
    a.from < b.from || (a.from == b.from && a.until <= b.until)
  }

  predicate SortedLex(rs: seq<Range>) {
    forall i, j :: 0 <= i < j < |rs| ==> LexLe(rs[i], rs[j])
  }

  function InsertSorted(x: Range, rs: seq<Range>): (r: seq<Range>)
    requires SortedLex(rs)
    ensures SortedLex(r)
    ensures multiset(r) == multiset(rs) + multiset{x}
    ensures |r| == |rs| + 1
  {
    if |rs| == 0 then [x]
    else if LexLe(x, rs[0]) then [x] + rs
    else
      var tail := InsertSorted(x, rs[1..]);
      assert rs == [rs[0]] + rs[1..];
      InsertSortedHead(x, rs, tail);
      [rs[0]] + tail
  }

  lemma InsertSortedHead(x: Range, rs: seq<Range>, tail: seq<Range>)
    requires |rs| > 0 && SortedLex(rs) && !LexLe(x, rs[0])
    requires SortedLex(tail) && multiset(tail) == multiset(rs[1..]) + multiset{x}
    ensures SortedLex([rs[0]] + tail)
  {
    forall k | 0 <= k < |tail| ensures LexLe(rs[0], tail[k]) {
      assert tail[k] in multiset(tail);
      if tail[k] != x {
        assert tail[k] in multiset(rs[1..]);
        var j :| 0 <= j < |rs[1..]| && rs[1..][j] == tail[k];
        assert rs[j + 1] == tail[k];
      }
    }
    var r := [rs[0]] + tail;
    forall i, j | 0 <= i < j < |r| ensures LexLe(r[i], r[j]) {
      if i == 0 {
        assert r[j] == tail[j - 1];
      } else {
        assert r[i] == tail[i - 1] && r[j] == tail[j - 1];
      }
    }
  }

  /** `sort_by_key(|r| (r.from, r.until))`. The key is the whole range, so the
      sorted order is fully determined and any sorting algorithm gives it. */
  function SortRanges(rs: seq<Range>): (r: seq<Range>)
    ensures SortedLex(r)
    ensures multiset(r) == multiset(rs)
    ensures |r| == |rs|
  {
    if |rs| == 0 then []
    else
      assert rs == [rs[0]] + rs[1..];
      InsertSorted(rs[0], SortRanges(rs[1..]))
  }

  /** The merge loop of `eliminated_ranges`, with `cur` the range being grown
      and `rest` the sorted ranges not yet visited. */
  function Sweep(cur: Range, rest: seq<Range>): (out: seq<Range>)
    requires forall i :: 0 <= i < |rest| ==> cur.from <= rest[i].from
    requires SortedLex(rest)
    ensures 0 < |out| <= |rest| + 1
    ensures out[0].from == cur.from
    ensures Normal(out)
    decreases |rest|
  {
    if |rest| == 0 then [cur]
    else
      var r := rest[0];
      if r.from <= cur.until || r.from == cur.until then
        var grown: Range := if r.until > cur.until then Interval(cur.from, r.until) else cur;
        Sweep(grown, rest[1..])
      else
        [cur] + Sweep(r, rest[1..])
  }

  /** `eliminated_ranges`. */
  function EliminatedRanges(rs: seq<Range>): (out: seq<Range>)
    ensures |rs| <= 1 ==> out == rs
    ensures Normal(out)
    ensures |out| <= |rs|
  {
    if |rs| <= 1 then rs
    else
      var sorted := SortRanges(rs);
      Sweep(sorted[0], sorted[1..])
  }

  lemma {:induction false} SweepCovers(cur: Range, rest: seq<Range>)
    requires forall i :: 0 <= i < |rest| ==> cur.from <= rest[i].from
    requires SortedLex(rest)
    ensures forall p :: CoveredBy(Sweep(cur, rest), p) <==> Covers(cur, p) || CoveredBy(rest, p)
    decreases |rest|
  {
    if |rest| == 0 {
      forall p ensures CoveredBy([cur], p) <==> Covers(cur, p) {
        CoveredByCons([cur], p);
        assert [cur][1..] == [];
      }
    } else {
      var r := rest[0];
      forall p ensures CoveredBy(rest, p) <==> Covers(r, p) || CoveredBy(rest[1..], p) {
        CoveredByCons(rest, p);
      }
      if r.from <= cur.until || r.from == cur.until {
        var grown: Range := if r.until > cur.until then Interval(cur.from, r.until) else cur;
        SweepCovers(grown, rest[1..]);
        assert forall p :: Covers(grown, p) <==> Covers(cur, p) || Covers(r, p);
      } else {
        SweepCovers(r, rest[1..]);
        var tail := Sweep(r, rest[1..]);
        forall p ensures CoveredBy([cur] + tail, p) <==> Covers(cur, p) || CoveredBy(tail, p) {
          CoveredByCons([cur] + tail, p);
          assert ([cur] + tail)[1..] == tail;
        }
      }
    }
  }

  /** `eliminated_ranges` keeps exactly the positions it was given. */
  lemma EliminatedRangesSamePoints(rs: seq<Range>)
    ensures SamePoints(rs, EliminatedRanges(rs))
  {
    if |rs| > 1 {
      var sorted := SortRanges(rs);
      SweepSortedSamePoints(rs, sorted);
    }
  }

  /** The sweep over a sorted copy of `rs` keeps the positions of `rs`. */
  lemma SweepSortedSamePoints(rs: seq<Range>, sorted: seq<Range>)
    requires |sorted| > 1 && SortedLex(sorted) && multiset(sorted) == multiset(rs)
    ensures forall i :: 0 <= i < |sorted[1..]| ==> sorted[0].from <= sorted[1..][i].from
    ensures SamePoints(rs, Sweep(sorted[0], sorted[1..]))
  {
    assert forall i :: 0 <= i < |sorted[1..]| ==> sorted[1..][i] == sorted[i + 1];
    assert SortedLex(sorted[1..]);
    SameElementsSamePoints(rs, sorted);
    SweepCovers(sorted[0], sorted[1..]);
    HeadAndTailSamePoints(rs, sorted, Sweep(sorted[0], sorted[1..]));
  }

  /** A list covering exactly the head and the tail of a list covering the
      positions of `rs` covers the positions of `rs`. */
  lemma HeadAndTailSamePoints(rs: seq<Range>, sorted: seq<Range>, out: seq<Range>)
    requires |sorted| > 0 && SamePoints(rs, sorted)
    requires forall p :: CoveredBy(out, p) <==> Covers(sorted[0], p) || CoveredBy(sorted[1..], p)
    ensures SamePoints(rs, out)
  {
    forall p ensures CoveredBy(rs, p) <==> CoveredBy(out, p) {
      CoveredByCons(sorted, p);
    }
  }

  lemma {:induction false} NormalStrict(rs: seq<Range>, i: int, j: int)
    requires Normal(rs)
    requires 0 <= i < j < |rs|
    ensures rs[i].until < rs[j].from
    decreases j - i
  {
    if j > i + 1 {
      NormalStrict(rs, i + 1, j);
    }
  }

  /** No position at or before the end of the first range of a normal list is
      covered by a later range. */
  lemma NormalTailAfterHead(rs: seq<Range>, p: int)
    requires Normal(rs) && |rs| > 0
    requires CoveredBy(rs[1..], p)
    ensures rs[0].until < p
  {
    var r :| r in rs[1..] && Covers(r, p);
    var k :| 0 <= k < |rs[1..]| && rs[1..][k] == r;
    NormalStrict(rs, 0, k + 1);
  }

  /** A normal list is determined by the positions it covers. */
  lemma {:induction false} NormalUnique(a: seq<Range>, b: seq<Range>)
    requires Normal(a) && Normal(b)
    requires SamePoints(a, b)
    ensures a == b
    decreases |a| + |b|
  {
    if |a| == 0 {
      NormalEmpty(a, b);
    } else if |b| == 0 {
      NormalEmpty(b, a);
    } else {
      HeadsAgree(a, b);
      HeadsAgree(b, a);
      UntilAgree(a, b);
      UntilAgree(b, a);
      assert a[0] == b[0];
      NormalTailsSamePoints(a, b);
      NormalUnique(a[1..], b[1..]);
      assert a == [a[0]] + a[1..] && b == [b[0]] + b[1..];
    }
  }

  lemma NormalEmpty(a: seq<Range>, b: seq<Range>)
    requires SamePoints(a, b) && |a| == 0
    ensures |b| == 0
  {
    if |b| > 0 {
      assert Covers(b[0], b[0].from);
      assert CoveredBy(b, b[0].from);
      assert false;
    }
  }

  lemma NormalSuffix(rs: seq<Range>)
    requires Normal(rs) && |rs| > 0
    ensures Normal(rs[1..])
  {
    forall i | 0 <= i < |rs[1..]| - 1 ensures rs[1..][i].until < rs[1..][i + 1].from {
      assert rs[1..][i] == rs[i + 1];
    }
  }

  lemma NormalTailsSamePoints(a: seq<Range>, b: seq<Range>)
    requires Normal(a) && Normal(b) && |a| > 0 && |b| > 0
    requires SamePoints(a, b) && a[0] == b[0]
    ensures Normal(a[1..]) && Normal(b[1..])
    ensures SamePoints(a[1..], b[1..])
  {
    forall p ensures CoveredBy(a[1..], p) <==> CoveredBy(b[1..], p) {
      CoveredByCons(a, p);
      CoveredByCons(b, p);
      if CoveredBy(a[1..], p) {
        NormalTailAfterHead(a, p);
      }
      if CoveredBy(b[1..], p) {
        NormalTailAfterHead(b, p);
      }
    }
    NormalSuffix(a);
    NormalSuffix(b);
  }

  /** The first range of a normal list starts at its least covered position. */
  lemma HeadsAgree(a: seq<Range>, b: seq<Range>)
    requires Normal(a) && Normal(b) && |a| > 0 && |b| > 0
    requires SamePoints(a, b)
    ensures b[0].from <= a[0].from
  {
    assert Covers(a[0], a[0].from);
    assert CoveredBy(b, a[0].from);
    var r :| r in b && Covers(r, a[0].from);
    var k :| 0 <= k < |b| && b[k] == r;
    if k > 0 {
      NormalStrict(b, 0, k);
    }
  }

  lemma UntilAgree(a: seq<Range>, b: seq<Range>)
    requires Normal(a) && Normal(b) && |a| > 0 && |b| > 0
    requires SamePoints(a, b)
    requires a[0].from == b[0].from
    ensures b[0].until <= a[0].until
  {
    if a[0].until < b[0].until {
      var p := a[0].until;
      assert Covers(b[0], p);
      assert CoveredBy(a, p);
      var r :| r in a && Covers(r, p);
      var k :| 0 <= k < |a| && a[k] == r;
      assert k != 0;
      NormalStrict(a, 0, k);
      assert false;
    }
  }

  /** The result of `eliminated_ranges` depends only on the positions covered:
      any two lists covering the same positions give the same result. */
  lemma EliminatedRangesCanonical(a: seq<Range>, b: seq<Range>)
    requires SamePoints(a, b)
    ensures EliminatedRanges(a) == EliminatedRanges(b)
  {
    EliminatedRangesSamePoints(a);
    EliminatedRangesSamePoints(b);
    NormalUnique(EliminatedRanges(a), EliminatedRanges(b));
  }

  /** A list that is already disjoint and non-touching comes back unchanged. */
  lemma EliminatedRangesOfNormal(rs: seq<Range>)
    requires Normal(rs)
    ensures EliminatedRanges(rs) == rs
  {
    EliminatedRangesSamePoints(rs);
    NormalUnique(EliminatedRanges(rs), rs);
  }

  lemma EliminatedRangesIdempotent(rs: seq<Range>)
    ensures EliminatedRanges(EliminatedRanges(rs)) == EliminatedRanges(rs)
  {
    EliminatedRangesOfNormal(EliminatedRanges(rs));
  }

  /** The order of the input does not matter. */
  lemma EliminatedRangesPermutation(a: seq<Range>, b: seq<Range>)
    requires multiset(a) == multiset(b)
    ensures EliminatedRanges(a) == EliminatedRanges(b)
  {
    SameElementsSamePoints(a, b);
    EliminatedRangesCanonical(a, b);
  }
}
