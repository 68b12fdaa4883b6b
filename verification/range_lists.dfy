/** The two list operations of src/utils.rs built on the range algebra:
    `exclude_ranges`, which removes the excluded positions (and the position
    on either side of each removed stretch), and `common_ranges`, which keeps
    the positions covered at least twice. */
module RangeLists {
  import opened Wrappers
  import opened Models
  import opened Ranges

  function TotalSize(rs: seq<Range>): nat {
    if |rs| == 0 then 0 else Size(rs[0]) + TotalSize(rs[1..])
  }

  lemma {:induction false} TotalSizeAppend(a: seq<Range>, b: seq<Range>)
    ensures TotalSize(a + b) == TotalSize(a) + TotalSize(b)
  {
    if |a| == 0 {
      assert a + b == b;
    } else {
      assert (a + b)[1..] == a[1..] + b;
      TotalSizeAppend(a[1..], b);
    }
  }

  function OptionToSeq(o: Option<Range>): (s: seq<Range>)
    ensures |s| <= 1
    ensures o.Some? ==> s == [o.value]
    ensures o.None? ==> s == []
  {
    if o.Some? then [o.value] else []
  }

  /** `r` shares no position with any exclude. */
  ghost predicate ClearOf(r: Range, excludes: seq<Range>) {
    forall j :: 0 <= j < |excludes| ==> CommonRange(r, excludes[j]).None?
  }

  /** Position `p` lies in an exclude or right next to one. */
  ghost predicate NearExclude(excludes: seq<Range>, p: int) {
    exists e :: e in excludes && LocSub(e.from, 1) <= p < LocAdd(e.until, 1)
  }

  /** The inner loop of `exclude_ranges`: the common range of `r` with the first
      exclude that overlaps it. */
  function FirstOverlap(r: Range, excludes: seq<Range>): (c: Option<Range>)
    ensures c.None? <==> ClearOf(r, excludes)
    ensures c.Some? ==> r.from <= c.value.from && c.value.until <= r.until
    ensures c.Some? ==> exists e :: e in excludes && CommonRange(r, e) == c
  {
    if |excludes| == 0 then None
    else
      match CommonRange(r, excludes[0])
      case Some(c) => Some(c)
      case None =>
        var rest := FirstOverlap(r, excludes[1..]);
        assert forall j :: 1 <= j < |excludes| ==> excludes[j] == excludes[1..][j - 1];
        assert rest.Some? ==> forall e :: e in excludes[1..] ==> e in excludes;
        rest
  }

  /** What is left of `r` on each side once `c` is cut out: `[r.from, c.from - 1)`
      and `[c.until + 1, r.until)`, with saturating `Loc` arithmetic. */
  function Fragments(r: Range, c: Range): (fs: seq<Range>)
    requires r.from <= c.from && c.until <= r.until
    ensures |fs| <= 2
    ensures TotalSize(fs) < Size(r)
    ensures forall p :: CoveredBy(fs, p) ==> Covers(r, p) && !Covers(c, p)
  {
    var left := OptionToSeq(RangeNew(r.from, LocSub(c.from, 1)));
    var right := OptionToSeq(RangeNew(LocAdd(c.until, 1), r.until));
    TotalSizeAppend(left, right);
    assert TotalSize(left) <= c.from - r.from;
    assert TotalSize(right) <= r.until - c.until;
    forall p | CoveredBy(left + right, p) ensures Covers(r, p) && !Covers(c, p) {
      CoveredByAppend(left, right, p);
    }
    left + right
  }

  lemma TotalSizeRemove(work: seq<Range>, i: nat)
    requires i < |work|
    ensures TotalSize(work) == TotalSize(work[..i] + work[i + 1..]) + Size(work[i])
  {
    assert work == work[..i] + ([work[i]] + work[i + 1..]);
    TotalSizeAppend(work[..i], [work[i]] + work[i + 1..]);
    TotalSizeAppend(work[..i], work[i + 1..]);
  }

  /** The outer loop of `exclude_ranges`: `work[..i]` has been checked; when
      `work[i]` overlaps an exclude its fragments are pushed at the end and it
      is removed without advancing `i`. */
  function ExcludeLoop(work: seq<Range>, i: nat, excludes: seq<Range>): seq<Range>
    requires i <= |work|
    decreases TotalSize(work), |work| - i
  {
    if i == |work| then work
    else
      match FirstOverlap(work[i], excludes)
      case None => ExcludeLoop(work, i + 1, excludes)
      case Some(c) =>
        var frags := Fragments(work[i], c);
        var next := work[..i] + work[i + 1..] + frags;
        TotalSizeRemove(work, i);
        TotalSizeAppend(work[..i] + work[i + 1..], frags);
        ExcludeLoop(next, i, excludes)
  }

  /** `exclude_ranges(from, excludes)`. */
  function ExcludeRanges(from: seq<Range>, excludes: seq<Range>): (out: seq<Range>)
    ensures Normal(out)
  {
    EliminatedRanges(ExcludeLoop(from, 0, excludes))
  }

  lemma CoveredByRemove(work: seq<Range>, i: nat, p: int)
    requires i < |work|
    ensures CoveredBy(work, p) <==> Covers(work[i], p) || CoveredBy(work[..i] + work[i + 1..], p)
  {
    assert work == work[..i] + ([work[i]] + work[i + 1..]);
    CoveredByAppend(work[..i], [work[i]] + work[i + 1..], p);
    CoveredByCons([work[i]] + work[i + 1..], p);
    assert ([work[i]] + work[i + 1..])[1..] == work[i + 1..];
    CoveredByAppend(work[..i], work[i + 1..], p);
  }

  /** One pass of the loop that cuts `work[i]`: the work list shrinks in total
      size, keeps its first `i` entries and leaves the same final result. */
  lemma ExcludeLoopCut(work: seq<Range>, i: nat, excludes: seq<Range>, c: Range)
    requires i < |work| && FirstOverlap(work[i], excludes) == Some(c)
    ensures var next := work[..i] + work[i + 1..] + Fragments(work[i], c);
      && i <= |next| && TotalSize(next) < TotalSize(work)
      && (forall k :: 0 <= k < i ==> next[k] == work[k])
      && ExcludeLoop(work, i, excludes) == ExcludeLoop(next, i, excludes)
  {
    var frags := Fragments(work[i], c);
    TotalSizeRemove(work, i);
    TotalSizeAppend(work[..i] + work[i + 1..], frags);
  }

  lemma {:induction false} ExcludeLoopClear(work: seq<Range>, i: nat, excludes: seq<Range>)
    requires i <= |work|
    requires forall k :: 0 <= k < i ==> ClearOf(work[k], excludes)
    ensures forall r :: r in ExcludeLoop(work, i, excludes) ==> ClearOf(r, excludes)
    decreases TotalSize(work), |work| - i
  {
    if i < |work| {
      match FirstOverlap(work[i], excludes)
      case None =>
        ExcludeLoopClear(work, i + 1, excludes);
      case Some(c) =>
        ExcludeLoopCut(work, i, excludes, c);
        ExcludeLoopClear(work[..i] + work[i + 1..] + Fragments(work[i], c), i, excludes);
    } else {
      assert forall r :: r in work ==> exists k :: 0 <= k < |work| && work[k] == r;
    }
  }

  lemma {:induction false} ExcludeLoopSound(work: seq<Range>, i: nat, excludes: seq<Range>)
    requires i <= |work|
    ensures forall p :: CoveredBy(ExcludeLoop(work, i, excludes), p) ==> CoveredBy(work, p)
    decreases TotalSize(work), |work| - i
  {
    if i < |work| {
      match FirstOverlap(work[i], excludes)
      case None =>
        ExcludeLoopSound(work, i + 1, excludes);
      case Some(c) =>
        var frags := Fragments(work[i], c);
        var next := work[..i] + work[i + 1..] + frags;
        ExcludeLoopCut(work, i, excludes, c);
        ExcludeLoopSound(next, i, excludes);
        forall p | CoveredBy(next, p) ensures CoveredBy(work, p) {
          CoveredByAppend(work[..i] + work[i + 1..], frags, p);
          CoveredByRemove(work, i, p);
        }
    }
  }

  lemma {:induction false} ExcludeLoopComplete(work: seq<Range>, i: nat, excludes: seq<Range>)
    requires i <= |work|
    ensures forall p :: CoveredBy(work, p) && !NearExclude(excludes, p) ==> CoveredBy(ExcludeLoop(work, i, excludes), p)
    decreases TotalSize(work), |work| - i
  {
    if i < |work| {
      match FirstOverlap(work[i], excludes)
      case None =>
        ExcludeLoopComplete(work, i + 1, excludes);
      case Some(c) =>
        var frags := Fragments(work[i], c);
        var next := work[..i] + work[i + 1..] + frags;
        ExcludeLoopCut(work, i, excludes, c);
        ExcludeLoopComplete(next, i, excludes);
        forall p | CoveredBy(work, p) && !NearExclude(excludes, p) ensures CoveredBy(next, p) {
          CoveredByAppend(work[..i] + work[i + 1..], frags, p);
          CoveredByRemove(work, i, p);
          if Covers(work[i], p) {
            FragmentsKeepFarPoints(work[i], c, excludes, p);
          }
        }
    }
  }

  /** A position of `r` that is not next to any exclude survives the cut. */
  lemma FragmentsKeepFarPoints(r: Range, c: Range, excludes: seq<Range>, p: int)
    requires r.from <= c.from && c.until <= r.until
    requires exists e :: e in excludes && CommonRange(r, e) == Some(c)
    requires Covers(r, p) && !NearExclude(excludes, p)
    ensures CoveredBy(Fragments(r, c), p)
  {
    var e :| e in excludes && CommonRange(r, e) == Some(c);
    assert !(LocSub(e.from, 1) <= p < LocAdd(e.until, 1));
    FragmentsKeepPointOutside(r, c, e, p);
  }

  /** The same, for the one exclude `e` whose common range with `r` is `c`. */
  lemma FragmentsKeepPointOutside(r: Range, c: Range, e: Range, p: int)
    requires r.from <= c.from && c.until <= r.until
    requires e.from <= c.from && c.until <= e.until
    requires Covers(r, p) && !(LocSub(e.from, 1) <= p < LocAdd(e.until, 1))
    ensures CoveredBy(Fragments(r, c), p)
  {
    var lo, hi := LocSub(c.from, 1), LocAdd(c.until, 1);
    var left := OptionToSeq(RangeNew(r.from, lo));
    var right := OptionToSeq(RangeNew(hi, r.until));
    var frags := Fragments(r, c);
    assert frags == left + right;
    if p < LocSub(e.from, 1) {
      assert r.from <= p < lo;
      assert frags[0] == Interval(r.from, lo);
      assert frags[0] in frags && Covers(frags[0], p);
    } else {
      assert hi <= p < r.until;
      assert frags[|frags| - 1] == Interval(hi, r.until);
      assert frags[|frags| - 1] in frags && Covers(frags[|frags| - 1], p);
    }
  }

  /** Every position `exclude_ranges` keeps comes from `from` and lies in no exclude. */
  lemma ExcludeRangesSound(from: seq<Range>, excludes: seq<Range>)
    ensures forall p :: CoveredBy(ExcludeRanges(from, excludes), p) ==>
      CoveredBy(from, p) && !CoveredBy(excludes, p)
  {
    var loop := ExcludeLoop(from, 0, excludes);
    ExcludeLoopSound(from, 0, excludes);
    ExcludeLoopClear(from, 0, excludes);
    EliminatedRangesSamePoints(loop);
    forall p | CoveredBy(ExcludeRanges(from, excludes), p)
      ensures CoveredBy(from, p) && !CoveredBy(excludes, p)
    {
      var r :| r in loop && Covers(r, p);
      if CoveredBy(excludes, p) {
        var e :| e in excludes && Covers(e, p);
        var j :| 0 <= j < |excludes| && excludes[j] == e;
        CommonRangeIsIntersection(r, e);
        assert false;
      }
    }
  }

  /** Every position of `from` that is neither in an exclude nor right next to
      one is kept. */
  lemma ExcludeRangesComplete(from: seq<Range>, excludes: seq<Range>)
    ensures forall p :: CoveredBy(from, p) && !NearExclude(excludes, p) ==>
      CoveredBy(ExcludeRanges(from, excludes), p)
  {
    ExcludeLoopComplete(from, 0, excludes);
    EliminatedRangesSamePoints(ExcludeLoop(from, 0, excludes));
  }

  /** No range of the result overlaps an exclude. */
  lemma ExcludeRangesClearOfExcludes(from: seq<Range>, excludes: seq<Range>)
    ensures forall r :: r in ExcludeRanges(from, excludes) ==> ClearOf(r, excludes)
  {
    ExcludeRangesSound(from, excludes);
    forall r, j | r in ExcludeRanges(from, excludes) && 0 <= j < |excludes|
      ensures CommonRange(r, excludes[j]).None?
    {
      CommonRangeIsIntersection(r, excludes[j]);
      if CommonRange(r, excludes[j]).Some? {
        var p := CommonRange(r, excludes[j]).value.from;
        assert Covers(r, p) && Covers(excludes[j], p);
        assert CoveredBy(ExcludeRanges(from, excludes), p);
        assert false;
      }
    }
  }

  lemma {:induction false} ExcludeLoopUntouched(work: seq<Range>, i: nat, excludes: seq<Range>)
    requires i <= |work|
    requires forall k :: i <= k < |work| ==> ClearOf(work[k], excludes)
    ensures ExcludeLoop(work, i, excludes) == work
    decreases |work| - i
  {
    if i < |work| {
      ExcludeLoopUntouched(work, i + 1, excludes);
    }
  }

  /** Ranges that overlap no exclude are only normalised. */
  lemma ExcludeRangesDisjoint(from: seq<Range>, excludes: seq<Range>)
    requires forall k :: 0 <= k < |from| ==> ClearOf(from[k], excludes)
    ensures ExcludeRanges(from, excludes) == EliminatedRanges(from)
  {
    ExcludeLoopUntouched(from, 0, excludes);
  }

  /** The fragments left by cutting `c = r ∩ e` out of `r` overlap neither `e`
      nor each other, and do not touch. */
  lemma FragmentsOfCommon(r: Range, e: Range)
    requires CommonRange(r, e).Some?
    ensures var c := CommonRange(r, e).value;
      && Normal(Fragments(r, c))
      && forall k :: 0 <= k < |Fragments(r, c)| ==> ClearOf(Fragments(r, c)[k], [e])
  {
    var c := CommonRange(r, e).value;
    var left := OptionToSeq(RangeNew(r.from, LocSub(c.from, 1)));
    var right := OptionToSeq(RangeNew(LocAdd(c.until, 1), r.until));
    var frags := Fragments(r, c);
    assert frags == left + right;
    forall k | 0 <= k < |frags| ensures ClearOf(frags[k], [e]) {
      CommonRangeIsIntersection(frags[k], e);
    }
  }

  /** Cutting one exclude out of one range leaves exactly its two fragments. */
  lemma ExcludeRangesSingle(r: Range, e: Range)
    requires CommonRange(r, e).Some?
    ensures ExcludeRanges([r], [e]) == Fragments(r, CommonRange(r, e).value)
  {
    var frags := Fragments(r, CommonRange(r, e).value);
    ExcludeLoopSingleCut(r, e);
    FragmentsOfCommon(r, e);
    ExcludeLoopUntouched(frags, 0, [e]);
    EliminatedRangesOfNormal(frags);
  }

  /** The first pass of the loop over `[r]` replaces `r` by its fragments. */
  lemma ExcludeLoopSingleCut(r: Range, e: Range)
    requires CommonRange(r, e).Some?
    ensures ExcludeLoop([r], 0, [e]) == ExcludeLoop(Fragments(r, CommonRange(r, e).value), 0, [e])
  {
    var c := CommonRange(r, e).value;
    var frags := Fragments(r, c);
    assert FirstOverlap(r, [e]) == Some(c);
    assert [r][..0] + [r][1..] + frags == frags;
  }

  /** The example from the source's tests: `[0, 20)` minus `[5, 15)`. */
  lemma ExcludeRangesExample()
    ensures ExcludeRanges([Interval(0, 20)], [Interval(5, 15)]) == [Interval(0, 4), Interval(16, 20)]
  {
    ExcludeRangesSingle(Interval(0, 20), Interval(5, 15));
  }

  /** A range that is itself an exclude disappears entirely. */
  lemma ExcludeRangesOfExcluded(r: Range, excludes: seq<Range>)
    requires r in excludes
    ensures ExcludeRanges([r], excludes) == []
  {
    var out := ExcludeRanges([r], excludes);
    ExcludeRangesSound([r], excludes);
    assert forall p :: CoveredBy([r], p) ==> Covers(r, p) && CoveredBy(excludes, p);
    assert forall p :: !CoveredBy(out, p);
    CoveringNothing(out);
  }

  /** Every range is non-empty, so a list that covers no position is empty. */
  lemma CoveringNothing(rs: seq<Range>)
    requires forall p :: !CoveredBy(rs, p)
    ensures rs == []
  {
    if |rs| > 0 {
      assert CoveredBy(rs, rs[0].from) by {
        assert rs[0] in rs && Covers(rs[0], rs[0].from);
      }
    }
  }

  // ---------------------------------------------------------------------------
  // common_ranges.

  /** The inner loop: intersections of `rs[i]` with `rs[j..]`, in order. */
  function RowCommons(rs: seq<Range>, i: nat, j: nat): seq<Range>
    requires i < |rs| && j <= |rs|
    decreases |rs| - j
  {
    if j == |rs| then []
    else OptionToSeq(CommonRange(rs[i], rs[j])) + RowCommons(rs, i, j + 1)
  }

  /** The outer loop: all pairwise intersections `rs[a] ∩ rs[b]` with `i <= a < b`. */
  function AllCommons(rs: seq<Range>, i: nat): seq<Range>
    requires i <= |rs|
    decreases |rs| - i
  {
    if i == |rs| then [] else RowCommons(rs, i, i + 1) + AllCommons(rs, i + 1)
  }

  /** `common_ranges`. */
  function CommonRanges(rs: seq<Range>): (out: seq<Range>)
    ensures Normal(out)
  {
    EliminatedRanges(AllCommons(rs, 0))
  }

  /** Position `p` is covered by two different entries of `rs` at or after `i`. */
  ghost predicate SharedFrom(rs: seq<Range>, i: nat, p: int) {
    exists a, b :: i <= a < b < |rs| && Covers(rs[a], p) && Covers(rs[b], p)
  }

  /** The intersection of two ranges, as a list, covers what both cover. */
  lemma CommonCovers(r1: Range, r2: Range, p: int)
    ensures CoveredBy(OptionToSeq(CommonRange(r1, r2)), p) <==> Covers(r1, p) && Covers(r2, p)
  {
    var head := OptionToSeq(CommonRange(r1, r2));
    CommonRangeIsIntersection(r1, r2);
    if CoveredBy(head, p) {
      var r :| r in head && Covers(r, p);
    }
    if Covers(r1, p) && Covers(r2, p) {
      assert Covers(head[0], p);
    }
  }

  /** Position `p` is covered by `rs[i]` and by some entry from index `j` on. */
  ghost predicate RowShared(rs: seq<Range>, i: nat, j: nat, p: int)
    requires i < |rs|
  {
    exists b :: j <= b < |rs| && Covers(rs[i], p) && Covers(rs[b], p)
  }

  lemma RowSharedStep(rs: seq<Range>, i: nat, j: nat, p: int)
    requires i < |rs| && j < |rs|
    ensures RowShared(rs, i, j, p) <==> (Covers(rs[i], p) && Covers(rs[j], p)) || RowShared(rs, i, j + 1, p)
  {
    if RowShared(rs, i, j, p) {
      var b :| j <= b < |rs| && Covers(rs[i], p) && Covers(rs[b], p);
      if b > j {
        assert j + 1 <= b < |rs| && Covers(rs[i], p) && Covers(rs[b], p);
      }
    }
    if Covers(rs[i], p) && Covers(rs[j], p) {
      assert j <= j < |rs| && Covers(rs[i], p) && Covers(rs[j], p);
    }
    if RowShared(rs, i, j + 1, p) {
      var b :| j + 1 <= b < |rs| && Covers(rs[i], p) && Covers(rs[b], p);
      assert j <= b < |rs|;
    }
  }

  lemma {:induction false} RowCommonsCovers(rs: seq<Range>, i: nat, j: nat, p: int)
    requires i < |rs| && j <= |rs|
    ensures CoveredBy(RowCommons(rs, i, j), p) <==> RowShared(rs, i, j, p)
    decreases |rs| - j
  {
    if j < |rs| {
      var head := OptionToSeq(CommonRange(rs[i], rs[j]));
      RowCommonsCovers(rs, i, j + 1, p);
      CoveredByAppend(head, RowCommons(rs, i, j + 1), p);
      CommonCovers(rs[i], rs[j], p);
      RowSharedStep(rs, i, j, p);
    }
  }

  lemma SharedFromStep(rs: seq<Range>, i: nat, p: int)
    requires i < |rs|
    ensures SharedFrom(rs, i, p) <==> RowShared(rs, i, i + 1, p) || SharedFrom(rs, i + 1, p)
  {
    if SharedFrom(rs, i, p) {
      var a, b :| i <= a < b < |rs| && Covers(rs[a], p) && Covers(rs[b], p);
      if a == i {
        assert i + 1 <= b < |rs| && Covers(rs[i], p) && Covers(rs[b], p);
      } else {
        assert i + 1 <= a < b < |rs| && Covers(rs[a], p) && Covers(rs[b], p);
      }
    }
    if RowShared(rs, i, i + 1, p) {
      var b :| i + 1 <= b < |rs| && Covers(rs[i], p) && Covers(rs[b], p);
      assert i <= i < b < |rs| && Covers(rs[i], p) && Covers(rs[b], p);
    }
    if SharedFrom(rs, i + 1, p) {
      var a, b :| i + 1 <= a < b < |rs| && Covers(rs[a], p) && Covers(rs[b], p);
      assert i <= a < b < |rs| && Covers(rs[a], p) && Covers(rs[b], p);
    }
  }

  lemma {:induction false} AllCommonsCovers(rs: seq<Range>, i: nat, p: int)
    requires i <= |rs|
    ensures CoveredBy(AllCommons(rs, i), p) <==> SharedFrom(rs, i, p)
    decreases |rs| - i
  {
    if i < |rs| {
      var row, rest := RowCommons(rs, i, i + 1), AllCommons(rs, i + 1);
      calc {
        CoveredBy(AllCommons(rs, i), p);
        CoveredBy(row + rest, p);
        { CoveredByAppend(row, rest, p); }
        CoveredBy(row, p) || CoveredBy(rest, p);
        { RowCommonsCovers(rs, i, i + 1, p); AllCommonsCovers(rs, i + 1, p); }
        RowShared(rs, i, i + 1, p) || SharedFrom(rs, i + 1, p);
        { SharedFromStep(rs, i, p); }
        SharedFrom(rs, i, p);
      }
    }
  }

  /** `common_ranges` covers exactly the positions that two different input
      ranges share. */
  lemma CommonRangesCoversShared(rs: seq<Range>)
    ensures forall p :: CoveredBy(CommonRanges(rs), p) <==>
      exists a, b :: 0 <= a < b < |rs| && Covers(rs[a], p) && Covers(rs[b], p)
  {
    EliminatedRangesSamePoints(AllCommons(rs, 0));
    forall p ensures CoveredBy(AllCommons(rs, 0), p) <==> SharedFrom(rs, 0, p) {
      AllCommonsCovers(rs, 0, p);
    }
  }
}
