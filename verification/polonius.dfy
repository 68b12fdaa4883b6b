/** Fact-to-range extraction of src/bin/core/analyze/polonius_analyzer.rs.

    The borrow checker's output relations arrive as nested sequences, iterated
    in the order given. `PoloniusLocationTable::to_rich_location`, the sibling
    helpers `sort_locs` and `rich_locations_to_ranges`, and the iteration order
    of an index set are function parameters: they live outside this model. */
module PoloniusAnalyzer {
  import opened Wrappers
  import opened Models
  import opened Ranges

  type Point = nat   // a location index of the location table
  type Local = nat
  type Loan = nat    // a borrow index
  type Region = nat  // an origin

  datatype StmtLoc = StmtLoc(block: nat, statementIndex: nat)

  datatype RichLocation = Start(loc: StmtLoc) | Mid(loc: StmtLoc)

  datatype BorrowData = Shared(borrowed: Local) | Mutable(borrowed: Local)

  /** The borrow map: each loan's data, and the loans listed under each local. */
  datatype BorrowMap = BorrowMap(byIndex: map<Loan, BorrowData>, localMap: seq<(Local, seq<Loan>)>)

  /** The relations of the borrow checker's output read by the analyses. */
  datatype PoloniusOutput = PoloniusOutput(
    varLiveOnEntry: seq<(Point, seq<Local>)>,
    varDropLiveOnEntry: seq<(Point, seq<Local>)>,
    loanLiveAt: seq<(Point, seq<Loan>)>,
    originLiveOnEntry: seq<(Point, seq<Region>)>,
    subset: seq<(Point, seq<(Region, seq<Region>)>)>,
    originContainsLoanAt: seq<(Point, seq<(Region, seq<Loan>)>)>)

  // ---------------------------------------------------------------------------
  // Iterating nested relations and grouping their entries.

  function Spread<A, T>(a: A, ts: seq<T>): seq<(A, T)> {
    seq(|ts|, i requires 0 <= i < |ts| => (a, ts[i]))
  }

  /** The pairs visited by `for (a, ts) in facts { for t in ts { .. } }`, in order. */
  function Flatten<A, T>(facts: seq<(A, seq<T>)>): seq<(A, T)> {
    if |facts| == 0 then []
    else Flatten(facts[..|facts| - 1]) + Spread(facts[|facts| - 1].0, facts[|facts| - 1].1)
  }

  /** The inner entries of `for (_, inner) in facts { for g in inner { .. } }`, in order. */
  function ConcatInner<A, X>(facts: seq<(A, seq<X>)>): seq<X> {
    if |facts| == 0 then [] else ConcatInner(facts[..|facts| - 1]) + facts[|facts| - 1].1
  }

  function SetOf<T>(ts: seq<T>): set<T> {
    set t | t in ts
  }

  lemma {:induction false} FlattenMember<A, T>(facts: seq<(A, seq<T>)>, a: A, t: T)
    ensures (a, t) in Flatten(facts) <==> exists f :: f in facts && f.0 == a && t in f.1
  {
    if |facts| > 0 {
      var front, last := facts[..|facts| - 1], facts[|facts| - 1];
      assert facts == front + [last];
      FlattenMember(front, a, t);
      var sp := Spread(last.0, last.1);
      assert (a, t) in sp <==> last.0 == a && t in last.1 by {
        if last.0 == a && t in last.1 {
          var j :| 0 <= j < |last.1| && last.1[j] == t;
          assert sp[j] == (a, t);
        }
      }
      assert Flatten(facts) == Flatten(front) + sp;
    }
  }

  lemma {:induction false} ConcatInnerMember<A, X>(facts: seq<(A, seq<X>)>, g: X)
    ensures g in ConcatInner(facts) <==> exists f :: f in facts && g in f.1
  {
    if |facts| > 0 {
      var front, last := facts[..|facts| - 1], facts[|facts| - 1];
      assert facts == front + [last];
      ConcatInnerMember(front, g);
    }
  }

  /** `map.entry(k).or_insert_with(Vec::new).push(v)` for each pair in turn. */
  function GroupSeq<K, V>(pairs: seq<(K, V)>): map<K, seq<V>> {
    if |pairs| == 0 then map[]
    else
      var m := GroupSeq(pairs[..|pairs| - 1]);
      var (k, v) := pairs[|pairs| - 1];
      m[k := (if k in m then m[k] else []) + [v]]
  }

  /** The values paired with `k`, in order. */
  ghost function Select<K, V>(pairs: seq<(K, V)>, k: K): seq<V> {
    if |pairs| == 0 then []
    else Select(pairs[..|pairs| - 1], k) + (if pairs[|pairs| - 1].0 == k then [pairs[|pairs| - 1].1] else [])
  }

  /** Grouping keeps every key that occurs and lists its values in order. */
  lemma {:induction false} GroupSeqSpec<K, V>(pairs: seq<(K, V)>, k: K)
    ensures k in GroupSeq(pairs) <==> exists p :: p in pairs && p.0 == k
    ensures k in GroupSeq(pairs) ==> GroupSeq(pairs)[k] == Select(pairs, k)
    ensures k !in GroupSeq(pairs) ==> Select(pairs, k) == []
  {
    if |pairs| > 0 {
      var front, last := pairs[..|pairs| - 1], pairs[|pairs| - 1];
      assert pairs == front + [last];
      GroupSeqSpec(front, k);
      var m := GroupSeq(front);
      assert GroupSeq(pairs) == m[last.0 := (if last.0 in m then m[last.0] else []) + [last.1]];
      assert Select(pairs, k) == Select(front, k) + (if last.0 == k then [last.1] else []);
      assert (exists p :: p in pairs && p.0 == k) <==> (exists p :: p in front && p.0 == k) || last.0 == k by {
        assert forall p :: p in pairs <==> p in front || p == last;
      }
    }
  }

  /** `map.entry(k).or_insert_with(HashSet::default).extend(vs)` for each pair in turn. */
  function GroupUnion<K, V>(pairs: seq<(K, set<V>)>): map<K, set<V>> {
    if |pairs| == 0 then map[]
    else
      var m := GroupUnion(pairs[..|pairs| - 1]);
      var (k, vs) := pairs[|pairs| - 1];
      m[k := (if k in m then m[k] else {}) + vs]
  }

  /** Grouping keeps every key that occurs and unites its value sets. */
  lemma {:induction false} GroupUnionSpec<K, V>(pairs: seq<(K, set<V>)>, k: K, v: V)
    ensures k in GroupUnion(pairs) <==> exists p :: p in pairs && p.0 == k
    ensures k in GroupUnion(pairs) ==> (v in GroupUnion(pairs)[k] <==> exists p :: p in pairs && p.0 == k && v in p.1)
  {
    if |pairs| > 0 {
      var front, last := pairs[..|pairs| - 1], pairs[|pairs| - 1];
      assert pairs == front + [last];
      GroupUnionSpec(front, k, v);
    }
  }

  // ---------------------------------------------------------------------------
  // get_range: pairing the Start and Mid points of each local.

  /** `statement_location_to_range`: a statement's range, or the terminator's
      once the index runs past the statements; None for a missing block or a
      block without terminator. */
  function StatementLocationToRange(bbs: seq<MirBasicBlock>, at: StmtLoc): (r: Option<Range>)
    ensures at.block >= |bbs| ==> r == None
    ensures at.block < |bbs| && at.statementIndex < |bbs[at.block].statements| ==>
      r == Some(bbs[at.block].statements[at.statementIndex].range)
    ensures at.block < |bbs| && at.statementIndex >= |bbs[at.block].statements| ==>
      (r.Some? <==> bbs[at.block].terminator.Some?) &&
      (r.Some? ==> r.value == bbs[at.block].terminator.value.CodeRange())
  {
    if at.block < |bbs| then
      var bb := bbs[at.block];
      if at.statementIndex < |bb.statements| then Some(bb.statements[at.statementIndex].range)
      else if bb.terminator.Some? then Some(bb.terminator.value.CodeRange())
      else None
    else None
  }

  /** The range one start/mid pair yields: from the start's `from` to the mid's
      `until`, if both resolve and the result is non-empty. */
  function PairedRange(bbs: seq<MirBasicBlock>, s: StmtLoc, m: StmtLoc): (r: Option<Range>)
    ensures r.Some? <==>
      var sr, mr := StatementLocationToRange(bbs, s), StatementLocationToRange(bbs, m);
      sr.Some? && mr.Some? && sr.value.from < mr.value.until
    ensures r.Some? ==>
      r.value.from == StatementLocationToRange(bbs, s).value.from &&
      r.value.until == StatementLocationToRange(bbs, m).value.until
  {
    var sr := StatementLocationToRange(bbs, s);
    var mr := StatementLocationToRange(bbs, m);
    if sr.Some? && mr.Some? then RangeNew(sr.value.from, mr.value.until) else None
  }

  function MinLen(a: nat, b: nat): nat { if a <= b then a else b }

  /** The first `n` pairs, in index order, keeping those that yield a range. */
  function PairPrefix(bbs: seq<MirBasicBlock>, starts: seq<StmtLoc>, mids: seq<StmtLoc>, n: nat): (r: seq<Range>)
    requires n <= |starts| && n <= |mids|
    ensures |r| <= n
  {
    if n == 0 then []
    else
      var p := PairedRange(bbs, starts[n - 1], mids[n - 1]);
      PairPrefix(bbs, starts, mids, n - 1) + (if p.Some? then [p.value] else [])
  }

  /** The pairing loop: the i-th start with the i-th mid, truncated to the shorter list. */
  function PairRanges(bbs: seq<MirBasicBlock>, starts: seq<StmtLoc>, mids: seq<StmtLoc>): (r: seq<Range>)
    ensures |r| <= MinLen(|starts|, |mids|)
  {
    PairPrefix(bbs, starts, mids, MinLen(|starts|, |mids|))
  }

  lemma {:induction false} PairPrefixMembers(bbs: seq<MirBasicBlock>, starts: seq<StmtLoc>, mids: seq<StmtLoc>, n: nat, x: Range)
    requires n <= |starts| && n <= |mids|
    ensures x in PairPrefix(bbs, starts, mids, n) <==>
      exists i :: 0 <= i < n && PairedRange(bbs, starts[i], mids[i]) == Some(x)
  {
    if n > 0 {
      PairPrefixMembers(bbs, starts, mids, n - 1, x);
      var front := PairPrefix(bbs, starts, mids, n - 1);
      var p := PairedRange(bbs, starts[n - 1], mids[n - 1]);
      var last: seq<Range> := if p.Some? then [p.value] else [];
      var all := PairPrefix(bbs, starts, mids, n);
      assert all == front + last;
      if x in all {
        if x in front {
          var i :| 0 <= i < n - 1 && PairedRange(bbs, starts[i], mids[i]) == Some(x);
          assert 0 <= i < n && PairedRange(bbs, starts[i], mids[i]) == Some(x);
        } else {
          assert x in last;
          assert 0 <= n - 1 < n && PairedRange(bbs, starts[n - 1], mids[n - 1]) == Some(x);
        }
      }
      if i :| 0 <= i < n && PairedRange(bbs, starts[i], mids[i]) == Some(x) {
        if i < n - 1 {
          assert x in front;
        } else {
          assert x in last;
        }
        assert x in all;
      }
    }
  }

  /** A range is formed exactly for an index below both lengths whose pair
      resolves to a non-empty range; extra points are ignored. */
  lemma PairRangesMembers(bbs: seq<MirBasicBlock>, starts: seq<StmtLoc>, mids: seq<StmtLoc>, x: Range)
    ensures x in PairRanges(bbs, starts, mids) <==>
      exists i :: 0 <= i < |starts| && i < |mids| && PairedRange(bbs, starts[i], mids[i]) == Some(x)
  {
    PairPrefixMembers(bbs, starts, mids, MinLen(|starts|, |mids|), x);
  }

  function StartLocs(rich: seq<RichLocation>): seq<StmtLoc> {
    if |rich| == 0 then []
    else StartLocs(rich[..|rich| - 1]) + (if rich[|rich| - 1].Start? then [rich[|rich| - 1].loc] else [])
  }

  function MidLocs(rich: seq<RichLocation>): seq<StmtLoc> {
    if |rich| == 0 then []
    else MidLocs(rich[..|rich| - 1]) + (if rich[|rich| - 1].Mid? then [rich[|rich| - 1].loc] else [])
  }

  /** Each (point, local) fact as (local, rich location). */
  function LocalRich(pairs: seq<(Point, Local)>, toRich: Point -> RichLocation): seq<(Local, RichLocation)> {
    seq(|pairs|, i requires 0 <= i < |pairs| => (pairs[i].1, toRich(pairs[i].0)))
  }

  /** The rich locations at which `l` is listed, in fact order. */
  ghost function LiveAt(pairs: seq<(Point, Local)>, toRich: Point -> RichLocation, l: Local): seq<RichLocation> {
    if |pairs| == 0 then []
    else LiveAt(pairs[..|pairs| - 1], toRich, l) + (if pairs[|pairs| - 1].1 == l then [toRich(pairs[|pairs| - 1].0)] else [])
  }

  lemma {:induction false} SelectLocalRich(pairs: seq<(Point, Local)>, toRich: Point -> RichLocation, l: Local)
    ensures Select(LocalRich(pairs, toRich), l) == LiveAt(pairs, toRich, l)
  {
    if |pairs| > 0 {
      assert LocalRich(pairs, toRich)[..|pairs| - 1] == LocalRich(pairs[..|pairs| - 1], toRich);
      SelectLocalRich(pairs[..|pairs| - 1], toRich, l);
    }
  }

  lemma LocalRichKeys(facts: seq<(Point, seq<Local>)>, toRich: Point -> RichLocation)
    ensures forall l :: l in GroupSeq(LocalRich(Flatten(facts), toRich)) <==> exists f :: f in facts && l in f.1
  {
    var pairs := Flatten(facts);
    var lr := LocalRich(pairs, toRich);
    forall l ensures l in GroupSeq(lr) <==> exists f :: f in facts && l in f.1 {
      GroupSeqSpec(lr, l);
      if l in GroupSeq(lr) {
        var q :| q in lr && q.0 == l;
        var i :| 0 <= i < |lr| && lr[i] == q;
        FlattenMember(facts, pairs[i].0, l);
      }
      if f :| f in facts && l in f.1 {
        FlattenMember(facts, f.0, l);
        var i :| 0 <= i < |pairs| && pairs[i] == (f.0, l);
        assert lr[i].0 == l;
      }
    }
  }

  /** `sort_locs` rearranges its input. */
  ghost predicate SortsByPermutation(sortLocs: seq<StmtLoc> -> seq<StmtLoc>) {
    forall xs :: multiset(sortLocs(xs)) == multiset(xs)
  }

  /** The normalised ranges one local's rich locations yield. */
  function LocalRanges(bbs: seq<MirBasicBlock>, sortLocs: seq<StmtLoc> -> seq<StmtLoc>, rich: seq<RichLocation>): seq<Range> {
    EliminatedRanges(PairRanges(bbs, sortLocs(StartLocs(rich)), sortLocs(MidLocs(rich))))
  }

  /** `get_range`: every local of the facts is a key, mapped to a normal list. */
  function GetRange(liveOnEntry: seq<(Point, seq<Local>)>, toRich: Point -> RichLocation,
                    bbs: seq<MirBasicBlock>, sortLocs: seq<StmtLoc> -> seq<StmtLoc>): (r: map<Local, seq<Range>>)
    ensures forall l :: l in r <==> exists f :: f in liveOnEntry && l in f.1
    ensures forall l :: l in r ==> Normal(r[l])
  {
    var live := GroupSeq(LocalRich(Flatten(liveOnEntry), toRich));
    LocalRichKeys(liveOnEntry, toRich);
    map l | l in live :: LocalRanges(bbs, sortLocs, live[l])
  }

  /** A local's list pairs its sorted Start and Mid points index by index, has
      at most as many ranges as the shorter of the two, and covers the same
      positions as the ranges the pairing formed. */
  lemma GetRangeSpec(liveOnEntry: seq<(Point, seq<Local>)>, toRich: Point -> RichLocation,
                     bbs: seq<MirBasicBlock>, sortLocs: seq<StmtLoc> -> seq<StmtLoc>, l: Local)
    requires SortsByPermutation(sortLocs)
    requires l in GetRange(liveOnEntry, toRich, bbs, sortLocs)
    ensures var rich := LiveAt(Flatten(liveOnEntry), toRich, l);
      var formed := PairRanges(bbs, sortLocs(StartLocs(rich)), sortLocs(MidLocs(rich)));
      && GetRange(liveOnEntry, toRich, bbs, sortLocs)[l] == EliminatedRanges(formed)
      && SamePoints(formed, GetRange(liveOnEntry, toRich, bbs, sortLocs)[l])
      && |GetRange(liveOnEntry, toRich, bbs, sortLocs)[l]| <= MinLen(|StartLocs(rich)|, |MidLocs(rich)|)
  {
    var pairs := Flatten(liveOnEntry);
    var rich := LiveAt(pairs, toRich, l);
    var live := GroupSeq(LocalRich(pairs, toRich));
    GroupSeqSpec(LocalRich(pairs, toRich), l);
    SelectLocalRich(pairs, toRich, l);
    assert live[l] == rich;
    var s, m := StartLocs(rich), MidLocs(rich);
    var formed := PairRanges(bbs, sortLocs(s), sortLocs(m));
    assert GetRange(liveOnEntry, toRich, bbs, sortLocs)[l] == EliminatedRanges(formed);
    PermutationLength(sortLocs, s);
    PermutationLength(sortLocs, m);
    EliminatedRangesSamePoints(formed);
  }

  lemma PermutationLength(sortLocs: seq<StmtLoc> -> seq<StmtLoc>, xs: seq<StmtLoc>)
    requires SortsByPermutation(sortLocs)
    ensures |sortLocs(xs)| == |xs|
  {
    assert multiset(sortLocs(xs)) == multiset(xs);
    assert |multiset(sortLocs(xs))| == |multiset(xs)|;
  }

  /** `get_accurate_live`: `get_range` over the variables live on entry. */
  function GetAccurateLive(output: PoloniusOutput, toRich: Point -> RichLocation,
                           bbs: seq<MirBasicBlock>, sortLocs: seq<StmtLoc> -> seq<StmtLoc>): (r: map<Local, seq<Range>>)
    ensures forall l :: l in r <==> exists f :: f in output.varLiveOnEntry && l in f.1
    ensures forall l :: l in r ==> Normal(r[l])
  {
    GetRange(output.varLiveOnEntry, toRich, bbs, sortLocs)
  }

  /** `drop_range`: `get_range` over the variables drop-live on entry. */
  function DropRange(output: PoloniusOutput, toRich: Point -> RichLocation,
                     bbs: seq<MirBasicBlock>, sortLocs: seq<StmtLoc> -> seq<StmtLoc>): (r: map<Local, seq<Range>>)
    ensures forall l :: l in r <==> exists f :: f in output.varDropLiveOnEntry && l in f.1
    ensures forall l :: l in r ==> Normal(r[l])
  {
    GetRange(output.varDropLiveOnEntry, toRich, bbs, sortLocs)
  }

  // ---------------------------------------------------------------------------
  // get_borrow_live: live loans attributed to the borrowed local.

  /** The loan is a borrow of `l` of the given kind according to the borrow map. */
  predicate LendsTo(bm: BorrowMap, loan: Loan, l: Local, mutable: bool) {
    loan in bm.byIndex && bm.byIndex[loan] == (if mutable then Mutable(l) else Shared(l))
  }

  /** The (borrowed local, location) entries the loop pushes into one of the two
      maps; a loan the borrow map cannot resolve contributes nothing. */
  function LoanEntries(pairs: seq<(Point, Loan)>, toRich: Point -> RichLocation, bm: BorrowMap, mutable: bool): seq<(Local, RichLocation)> {
    if |pairs| == 0 then []
    else
      var (p, loan) := pairs[|pairs| - 1];
      LoanEntries(pairs[..|pairs| - 1], toRich, bm, mutable) +
        (if loan in bm.byIndex && bm.byIndex[loan].Mutable? == mutable then [(bm.byIndex[loan].borrowed, toRich(p))] else [])
  }

  /** The locations at which some loan of `l` of the given kind is live, in fact order. */
  ghost function LoanLocations(pairs: seq<(Point, Loan)>, toRich: Point -> RichLocation, bm: BorrowMap, l: Local, mutable: bool): seq<RichLocation> {
    if |pairs| == 0 then []
    else
      LoanLocations(pairs[..|pairs| - 1], toRich, bm, l, mutable) +
        (if LendsTo(bm, pairs[|pairs| - 1].1, l, mutable) then [toRich(pairs[|pairs| - 1].0)] else [])
  }

  lemma {:induction false} LoanEntriesSelect(pairs: seq<(Point, Loan)>, toRich: Point -> RichLocation, bm: BorrowMap, l: Local, mutable: bool)
    ensures Select(LoanEntries(pairs, toRich, bm, mutable), l) == LoanLocations(pairs, toRich, bm, l, mutable)
  {
    if |pairs| > 0 {
      var front, last := pairs[..|pairs| - 1], pairs[|pairs| - 1];
      LoanEntriesSelect(front, toRich, bm, l, mutable);
      var e := LoanEntries(pairs, toRich, bm, mutable);
      if last.1 in bm.byIndex && bm.byIndex[last.1].Mutable? == mutable {
        assert e[..|e| - 1] == LoanEntries(front, toRich, bm, mutable);
        assert e[|e| - 1] == (bm.byIndex[last.1].borrowed, toRich(last.0));
      } else {
        assert e == LoanEntries(front, toRich, bm, mutable);
      }
    }
  }

  lemma {:induction false} LoanEntriesMember(pairs: seq<(Point, Loan)>, toRich: Point -> RichLocation, bm: BorrowMap, mutable: bool, l: Local)
    ensures (exists q :: q in LoanEntries(pairs, toRich, bm, mutable) && q.0 == l) <==>
      exists x :: x in pairs && LendsTo(bm, x.1, l, mutable)
  {
    if |pairs| > 0 {
      var front, last := pairs[..|pairs| - 1], pairs[|pairs| - 1];
      assert pairs == front + [last];
      LoanEntriesMember(front, toRich, bm, mutable, l);
      var e := LoanEntries(pairs, toRich, bm, mutable);
      assert e == LoanEntries(front, toRich, bm, mutable) +
        (if last.1 in bm.byIndex && bm.byIndex[last.1].Mutable? == mutable then [(bm.byIndex[last.1].borrowed, toRich(last.0))] else []);
      if LendsTo(bm, last.1, l, mutable) {
        assert (l, toRich(last.0)) in e;
      }
    }
  }

  lemma LoanKeys(facts: seq<(Point, seq<Loan>)>, toRich: Point -> RichLocation, bm: BorrowMap, mutable: bool)
    ensures forall l :: l in GroupSeq(LoanEntries(Flatten(facts), toRich, bm, mutable)) <==>
      exists f, loan :: f in facts && loan in f.1 && LendsTo(bm, loan, l, mutable)
  {
    var pairs := Flatten(facts);
    forall l ensures l in GroupSeq(LoanEntries(pairs, toRich, bm, mutable)) <==>
      exists f, loan :: f in facts && loan in f.1 && LendsTo(bm, loan, l, mutable)
    {
      GroupSeqSpec(LoanEntries(pairs, toRich, bm, mutable), l);
      LoanEntriesMember(pairs, toRich, bm, mutable, l);
      if x :| x in pairs && LendsTo(bm, x.1, l, mutable) {
        FlattenMember(facts, x.0, x.1);
      }
      if f, loan :| f in facts && loan in f.1 && LendsTo(bm, loan, l, mutable) {
        FlattenMember(facts, f.0, loan);
        assert (f.0, loan) in pairs;
      }
    }
  }

  /** `get_borrow_live`: the shared and the mutable loans live at each location,
      keyed by the local they borrow, each list normalised. */
  function GetBorrowLive(output: PoloniusOutput, toRich: Point -> RichLocation, bm: BorrowMap, bbs: seq<MirBasicBlock>,
                         toRanges: (seq<MirBasicBlock>, seq<RichLocation>) -> seq<Range>): (r: (map<Local, seq<Range>>, map<Local, seq<Range>>))
    ensures forall l :: l in r.0 <==> exists f, loan :: f in output.loanLiveAt && loan in f.1 && LendsTo(bm, loan, l, false)
    ensures forall l :: l in r.1 <==> exists f, loan :: f in output.loanLiveAt && loan in f.1 && LendsTo(bm, loan, l, true)
    ensures forall l :: l in r.0 ==> Normal(r.0[l])
    ensures forall l :: l in r.1 ==> Normal(r.1[l])
  {
    var pairs := Flatten(output.loanLiveAt);
    var shared := GroupSeq(LoanEntries(pairs, toRich, bm, false));
    var mutable := GroupSeq(LoanEntries(pairs, toRich, bm, true));
    LoanKeys(output.loanLiveAt, toRich, bm, false);
    LoanKeys(output.loanLiveAt, toRich, bm, true);
    (NormalizeEach(shared, s => toRanges(bbs, s)), NormalizeEach(mutable, s => toRanges(bbs, s)))
  }

  /** Builds each local's list and normalises it; the locals stay the same. */
  function NormalizeEach<P>(m: map<Local, P>, build: P -> seq<Range>): (r: map<Local, seq<Range>>)
    ensures r.Keys == m.Keys
    ensures forall l :: l in r ==> Normal(r[l]) && r[l] == EliminatedRanges(build(m[l]))
  {
    map l | l in m :: EliminatedRanges(build(m[l]))
  }

  /** Each local's shared (mutable) list is built from exactly the locations
      at which one of its shared (mutable) loans is live, in fact order. */
  lemma GetBorrowLiveSpec(output: PoloniusOutput, toRich: Point -> RichLocation, bm: BorrowMap, bbs: seq<MirBasicBlock>,
                          toRanges: (seq<MirBasicBlock>, seq<RichLocation>) -> seq<Range>, l: Local)
    ensures var r := GetBorrowLive(output, toRich, bm, bbs, toRanges);
      && (l in r.0 ==> r.0[l] == EliminatedRanges(toRanges(bbs, LoanLocations(Flatten(output.loanLiveAt), toRich, bm, l, false))))
      && (l in r.1 ==> r.1[l] == EliminatedRanges(toRanges(bbs, LoanLocations(Flatten(output.loanLiveAt), toRich, bm, l, true))))
  {
    var pairs := Flatten(output.loanLiveAt);
    GroupSeqSpec(LoanEntries(pairs, toRich, bm, false), l);
    GroupSeqSpec(LoanEntries(pairs, toRich, bm, true), l);
    LoanEntriesSelect(pairs, toRich, bm, l, false);
    LoanEntriesSelect(pairs, toRich, bm, l, true);
  }

  // ---------------------------------------------------------------------------
  // get_must_live: a region/subset/loan join, one level deep.

  /** Point `p` is live on entry in `region`. */
  ghost predicate LiveIn(output: PoloniusOutput, p: Point, region: Region) {
    exists f :: f in output.originLiveOnEntry && f.0 == p && region in f.1
  }

  /** At some point, `sup` is recorded with `sub` among its subsets. */
  ghost predicate Outlives(output: PoloniusOutput, sup: Region, sub: Region) {
    exists f, g :: f in output.subset && g in f.1 && g.0 == sup && sub in g.1
  }

  /** At some point, `region` contains `loan`. */
  ghost predicate HoldsLoan(output: PoloniusOutput, region: Region, loan: Loan) {
    exists f, g :: f in output.originContainsLoanAt && g in f.1 && g.0 == region && loan in g.1
  }

  function RegionPointEntries(pairs: seq<(Point, Region)>): seq<(Region, set<Point>)> {
    seq(|pairs|, i requires 0 <= i < |pairs| => (pairs[i].1, {pairs[i].0}))
  }

  /** `region_locations`: each region with the points where it is live on entry. */
  function RegionLocations(output: PoloniusOutput): map<Region, set<Point>> {
    GroupUnion(RegionPointEntries(Flatten(output.originLiveOnEntry)))
  }

  lemma RegionLocationsSpec(output: PoloniusOutput, region: Region, p: Point)
    ensures region in RegionLocations(output) && p in RegionLocations(output)[region] <==> LiveIn(output, p, region)
    ensures region in RegionLocations(output) ==> RegionLocations(output)[region] != {}
  {
    var pairs := Flatten(output.originLiveOnEntry);
    var es := RegionPointEntries(pairs);
    GroupUnionSpec(es, region, p);
    if region in RegionLocations(output) {
      var e :| e in es && e.0 == region;
      var i :| 0 <= i < |es| && es[i] == e;
      GroupUnionSpec(es, region, pairs[i].0);
    }
    if region in RegionLocations(output) && p in RegionLocations(output)[region] {
      var e :| e in es && e.0 == region && p in e.1;
      var i :| 0 <= i < |es| && es[i] == e;
      FlattenMember(output.originLiveOnEntry, p, region);
    }
    if LiveIn(output, p, region) {
      FlattenMember(output.originLiveOnEntry, p, region);
      var i :| 0 <= i < |pairs| && pairs[i] == (p, region);
      assert es[i] in es;
    }
  }

  /** `borrow_local`: each loan with the local listing it; a later listing overwrites. */
  function LastWins(pairs: seq<(Local, Loan)>): map<Loan, Local> {
    if |pairs| == 0 then map[]
    else LastWins(pairs[..|pairs| - 1])[pairs[|pairs| - 1].1 := pairs[|pairs| - 1].0]
  }

  function BorrowLocal(bm: BorrowMap): map<Loan, Local> {
    LastWins(Flatten(bm.localMap))
  }

  /** `l` is paired with `loan` at some index and no later pair mentions `loan`. */
  ghost predicate LastOwner(pairs: seq<(Local, Loan)>, loan: Loan, l: Local) {
    exists i :: 0 <= i < |pairs| && pairs[i] == (l, loan) && forall j :: i < j < |pairs| ==> pairs[j].1 != loan
  }

  /** A loan listed under several locals resolves to the last one. */
  lemma {:induction false} LastWinsSpec(pairs: seq<(Local, Loan)>, loan: Loan)
    ensures loan in LastWins(pairs) <==> exists p :: p in pairs && p.1 == loan
    ensures loan in LastWins(pairs) ==> LastOwner(pairs, loan, LastWins(pairs)[loan])
  {
    if |pairs| > 0 {
      var front, last := pairs[..|pairs| - 1], pairs[|pairs| - 1];
      assert pairs == front + [last];
      LastWinsSpec(front, loan);
      if last.1 == loan {
        assert pairs[|pairs| - 1] == (LastWins(pairs)[loan], loan);
      } else if loan in LastWins(front) {
        var i :| 0 <= i < |front| && front[i] == (LastWins(front)[loan], loan) &&
          forall j :: i < j < |front| ==> front[j].1 != loan;
        assert pairs[i] == front[i];
      }
    }
  }

  lemma TwoListingsFlatten(facts: seq<(Local, seq<Loan>)>)
    requires facts == [(1, [7]), (2, [7])]
    ensures Flatten(facts) == [(1, 7), (2, 7)]
  {
    assert facts[..1][..0] == [];
    assert Spread(1, [7]) == [(1, 7)];
    assert Flatten(facts[..1]) == [(1, 7)];
    assert Spread(2, [7]) == [(2, 7)];
  }

  lemma TwoListingsLastWins(ps: seq<(Local, Loan)>)
    requires ps == [(1, 7), (2, 7)]
    ensures LastWins(ps) == map[7 := 2]
  {
    assert ps[..1][..0] == [];
    assert LastWins(ps[..1]) == map[7 := 1];
  }

  /** The listing order decides: locals 1 and 2 both list loan 7, and 2 wins. */
  lemma BorrowLocalExample()
    ensures BorrowLocal(BorrowMap(map[], [(1, [7]), (2, [7])])) == map[7 := 2]
  {
    var bm := BorrowMap(map[], [(1, [7]), (2, [7])]);
    TwoListingsFlatten(bm.localMap);
    TwoListingsLastWins(Flatten(bm.localMap));
  }

  function SubsetEntries(gs: seq<(Region, seq<Region>)>): seq<(Region, set<Region>)> {
    seq(|gs|, i requires 0 <= i < |gs| => (gs[i].0, SetOf(gs[i].1)))
  }

  /** `subsets`: each region with the union of its subsets over all points. */
  function Subsets(output: PoloniusOutput): map<Region, set<Region>> {
    GroupUnion(SubsetEntries(ConcatInner(output.subset)))
  }

  lemma SubsetsSpec(output: PoloniusOutput, sup: Region, sub: Region)
    ensures sup in Subsets(output) && sub in Subsets(output)[sup] <==> Outlives(output, sup, sub)
  {
    var gs := ConcatInner(output.subset);
    var es := SubsetEntries(gs);
    GroupUnionSpec(es, sup, sub);
    if sup in Subsets(output) && sub in Subsets(output)[sup] {
      var e :| e in es && e.0 == sup && sub in e.1;
      var i :| 0 <= i < |es| && es[i] == e;
      ConcatInnerMember(output.subset, gs[i]);
    }
    if Outlives(output, sup, sub) {
      var f, g :| f in output.subset && g in f.1 && g.0 == sup && sub in g.1;
      ConcatInnerMember(output.subset, g);
      var i :| 0 <= i < |gs| && gs[i] == g;
      assert es[i] in es;
    }
  }

  /** `region_must_locations`: each region with the locations of its direct
      subsets; the region's own locations are not included. */
  function RegionMustLocations(subsets: map<Region, set<Region>>, regionLocations: map<Region, set<Point>>): map<Region, set<Point>> {
    map sup | sup in subsets && (exists sub :: sub in subsets[sup] && sub in regionLocations)
      :: set sub, p | sub in subsets[sup] && sub in regionLocations && p in regionLocations[sub] :: p
  }

  function HoldEntries(output: PoloniusOutput): seq<(Region, Loan)> {
    Flatten(ConcatInner(output.originContainsLoanAt))
  }

  lemma HoldEntriesSpec(output: PoloniusOutput, region: Region, loan: Loan)
    ensures (region, loan) in HoldEntries(output) <==> HoldsLoan(output, region, loan)
  {
    var gs := ConcatInner(output.originContainsLoanAt);
    FlattenMember(gs, region, loan);
    if (region, loan) in HoldEntries(output) {
      var g :| g in gs && g.0 == region && loan in g.1;
      ConcatInnerMember(output.originContainsLoanAt, g);
    }
    if HoldsLoan(output, region, loan) {
      var f, g :| f in output.originContainsLoanAt && g in f.1 && g.0 == region && loan in g.1;
      ConcatInnerMember(output.originContainsLoanAt, g);
    }
  }

  /** The (local, locations) entries of the innermost loop: both lookups must succeed. */
  function MustEntries(holds: seq<(Region, Loan)>, rm: map<Region, set<Point>>, bl: map<Loan, Local>): seq<(Local, set<Point>)> {
    if |holds| == 0 then []
    else
      var (region, loan) := holds[|holds| - 1];
      MustEntries(holds[..|holds| - 1], rm, bl) + (if region in rm && loan in bl then [(bl[loan], rm[region])] else [])
  }

  lemma {:induction false} MustEntriesMember(holds: seq<(Region, Loan)>, rm: map<Region, set<Point>>, bl: map<Loan, Local>, q: (Local, set<Point>))
    ensures q in MustEntries(holds, rm, bl) <==> exists h :: h in holds && h.0 in rm && h.1 in bl && q == (bl[h.1], rm[h.0])
  {
    if |holds| > 0 {
      var front, last := holds[..|holds| - 1], holds[|holds| - 1];
      assert holds == front + [last];
      MustEntriesMember(front, rm, bl, q);
    }
  }

  /** `local_must_locations`. */
  function LocalMustLocations(output: PoloniusOutput, bm: BorrowMap): map<Local, set<Point>> {
    var rm := RegionMustLocations(Subsets(output), RegionLocations(output));
    GroupUnion(MustEntries(HoldEntries(output), rm, BorrowLocal(bm)))
  }

  /** `l` must be live at `p`: a region holding one of `l`'s loans (by the
      last-wins loan owner) has a direct subset live at `p`. */
  ghost predicate MustLiveAt(output: PoloniusOutput, bm: BorrowMap, l: Local, p: Point) {
    exists region, loan, sub ::
      && HoldsLoan(output, region, loan)
      && loan in BorrowLocal(bm) && BorrowLocal(bm)[loan] == l
      && Outlives(output, region, sub)
      && LiveIn(output, p, sub)
  }

  lemma LocalMustSound(output: PoloniusOutput, bm: BorrowMap, l: Local, p: Point)
    requires l in LocalMustLocations(output, bm) && p in LocalMustLocations(output, bm)[l]
    ensures MustLiveAt(output, bm, l, p)
  {
    var rl, ss := RegionLocations(output), Subsets(output);
    var rm := RegionMustLocations(ss, rl);
    var bl := BorrowLocal(bm);
    var es := MustEntries(HoldEntries(output), rm, bl);
    GroupUnionSpec(es, l, p);
    var q :| q in es && q.0 == l && p in q.1;
    MustEntriesMember(HoldEntries(output), rm, bl, q);
    var h :| h in HoldEntries(output) && h.0 in rm && h.1 in bl && q == (bl[h.1], rm[h.0]);
    var sub :| sub in ss[h.0] && sub in rl && p in rl[sub];
    HoldEntriesSpec(output, h.0, h.1);
    SubsetsSpec(output, h.0, sub);
    RegionLocationsSpec(output, sub, p);
  }

  lemma LocalMustComplete(output: PoloniusOutput, bm: BorrowMap, l: Local, p: Point, region: Region, loan: Loan, sub: Region)
    requires HoldsLoan(output, region, loan)
    requires loan in BorrowLocal(bm) && BorrowLocal(bm)[loan] == l
    requires Outlives(output, region, sub)
    requires LiveIn(output, p, sub)
    ensures l in LocalMustLocations(output, bm) && p in LocalMustLocations(output, bm)[l]
  {
    var rl, ss := RegionLocations(output), Subsets(output);
    var rm := RegionMustLocations(ss, rl);
    var bl := BorrowLocal(bm);
    HoldEntriesSpec(output, region, loan);
    SubsetsSpec(output, region, sub);
    RegionLocationsSpec(output, sub, p);
    assert region in rm && p in rm[region];
    var q := (l, rm[region]);
    MustEntriesMember(HoldEntries(output), rm, bl, q);
    GroupUnionSpec(MustEntries(HoldEntries(output), rm, bl), l, p);
  }

  /** The join, both directions: `p` is among `l`'s must-live locations exactly
      when `MustLiveAt` holds. */
  lemma LocalMustLocationsSpec(output: PoloniusOutput, bm: BorrowMap, l: Local, p: Point)
    ensures l in LocalMustLocations(output, bm) && p in LocalMustLocations(output, bm)[l] <==> MustLiveAt(output, bm, l, p)
  {
    if l in LocalMustLocations(output, bm) && p in LocalMustLocations(output, bm)[l] {
      LocalMustSound(output, bm, l, p);
    }
    if MustLiveAt(output, bm, l, p) {
      var region, loan, sub :| HoldsLoan(output, region, loan) && loan in BorrowLocal(bm) && BorrowLocal(bm)[loan] == l
        && Outlives(output, region, sub) && LiveIn(output, p, sub);
      LocalMustComplete(output, bm, l, p, region, loan, sub);
    }
  }

  /** A local is a key only when it must be live somewhere. */
  lemma LocalMustKeys(output: PoloniusOutput, bm: BorrowMap)
    ensures forall l :: l in LocalMustLocations(output, bm) <==> exists p :: MustLiveAt(output, bm, l, p)
  {
    var rl, ss := RegionLocations(output), Subsets(output);
    var rm := RegionMustLocations(ss, rl);
    var bl := BorrowLocal(bm);
    var es := MustEntries(HoldEntries(output), rm, bl);
    forall l ensures l in LocalMustLocations(output, bm) <==> exists p :: MustLiveAt(output, bm, l, p) {
      if l in LocalMustLocations(output, bm) {
        GroupUnionSpec(es, l, 0);
        var q :| q in es && q.0 == l;
        MustEntriesMember(HoldEntries(output), rm, bl, q);
        var h :| h in HoldEntries(output) && h.0 in rm && h.1 in bl && q == (bl[h.1], rm[h.0]);
        var sub :| sub in ss[h.0] && sub in rl;
        RegionLocationsSpec(output, sub, 0);
        var p :| p in rl[sub];
        assert p in q.1;
        GroupUnionSpec(es, l, p);
        LocalMustSound(output, bm, l, p);
      }
      if p :| MustLiveAt(output, bm, l, p) {
        LocalMustLocationsSpec(output, bm, l, p);
      }
    }
  }

  function RichSeq(toRich: Point -> RichLocation, ps: seq<Point>): seq<RichLocation> {
    seq(|ps|, i requires 0 <= i < |ps| => toRich(ps[i]))
  }

  /** `get_must_live`: a normalised list for each local that must be live
      somewhere, and for no other local. */
  function GetMustLive(output: PoloniusOutput, toRich: Point -> RichLocation, bm: BorrowMap, bbs: seq<MirBasicBlock>,
                       toRanges: (seq<MirBasicBlock>, seq<RichLocation>) -> seq<Range>,
                       enumerate: set<Point> -> seq<Point>): (r: map<Local, seq<Range>>)
    ensures forall l :: l in r <==> exists p :: MustLiveAt(output, bm, l, p)
    ensures forall l :: l in r ==> Normal(r[l])
  {
    var lm := LocalMustLocations(output, bm);
    LocalMustKeys(output, bm);
    NormalizeEach(lm, s => toRanges(bbs, RichSeq(toRich, enumerate(s))))
  }

  // ---------------------------------------------------------------------------
  // Examples.

  /** Regions 1 ⊇ 2 ⊇ 3; region 3 is live at point 9 and region 1 at point 8;
      loan 5 belongs to local 4. */
  function ChainOutput(holder: Region): PoloniusOutput {
    PoloniusOutput([], [], [],
      [(9, [3]), (8, [1])],
      [(0, [(1, [2]), (2, [3])])],
      [(0, [(holder, [5])])])
  }

  const ChainBorrows := BorrowMap(map[5 := Shared(4)], [(4, [5])])

  lemma ChainRegionLocations(holder: Region)
    ensures RegionLocations(ChainOutput(holder)) == map[3 := {9}, 1 := {8}]
  {
    var live := ChainOutput(holder).originLiveOnEntry;
    assert live[..1] == [(9, [3])];
    assert Spread(9, [3]) == [(9, 3)] && Spread(8, [1]) == [(8, 1)];
    var lp: seq<(Point, Region)> := [(9, 3), (8, 1)];
    assert Flatten(live) == lp;
    var le := RegionPointEntries(lp);
    assert le == [(3, {9}), (1, {8})];
    assert GroupUnion(le[..1]) == map[3 := {9}] by {
      assert le[..1][..0] == le[..1][..|le[..1]| - 1];
      assert {} + {9} == {9};
    }
    assert {} + {8} == {8};
  }

  lemma ChainSubsets(holder: Region)
    ensures Subsets(ChainOutput(holder)) == map[1 := {2}, 2 := {3}]
  {
    var out := ChainOutput(holder);
    var gs := ConcatInner(out.subset);
    assert out.subset[..0] == [];
    assert gs == [(1, [2]), (2, [3])];
    var se := SubsetEntries(gs);
    var two: seq<Region>, three: seq<Region> := [2], [3];
    assert SetOf(two) == {2} && SetOf(three) == {3};
    assert gs[1].1 == three;
    assert se == [(1, {2}), (2, {3})];
    assert GroupUnion(se[..1]) == map[1 := {2}] by {
      assert se[..1][..0] == se[..1][..|se[..1]| - 1];
      assert {} + {2} == {2};
    }
    assert {} + {3} == {3};
  }

  lemma ChainHolds(holder: Region)
    ensures HoldEntries(ChainOutput(holder)) == [(holder, 5)]
  {
    var facts := ChainOutput(holder).originContainsLoanAt;
    assert facts[..|facts| - 1] == [];
    assert ConcatInner(facts[..|facts| - 1]) == [];
    var hs := ConcatInner(facts);
    assert hs == ConcatInner(facts[..|facts| - 1]) + facts[|facts| - 1].1;
    assert hs == [(holder, [5])];
    assert hs[..|hs| - 1] == [];
    assert Flatten(hs[..|hs| - 1]) == [];
    assert Spread(holder, [5]) == [(holder, 5)];
    assert Flatten(hs) == Flatten(hs[..|hs| - 1]) + Spread(holder, [5]);
  }

  lemma ChainBorrowLocal()
    ensures BorrowLocal(ChainBorrows) == map[5 := 4]
  {
    FlattenOne<Local, Loan>(4, 5);
    var ps: seq<(Local, Loan)> := [(4, 5)];
    assert ps[..0] == [];
  }

  lemma ChainRegionMust()
    ensures RegionMustLocations(map[1 := {2}, 2 := {3}], map[3 := {9}, 1 := {8}]) == map[2 := {9}]
  {
    var ss: map<Region, set<Region>> := map[1 := {2}, 2 := {3}];
    var rl: map<Region, set<Point>> := map[3 := {9}, 1 := {8}];
    var rm := RegionMustLocations(ss, rl);
    assert 1 !in rm;
    assert 2 in rm by { assert 3 in ss[2] && 3 in rl; }
    assert rm[2] == {9};
    assert rm.Keys == {2};
  }

  lemma TopLevelEntries()
    ensures MustEntries([(1, 5)], map[2 := {9}], map[5 := 4]) == []
  {
    var hs: seq<(Region, Loan)> := [(1, 5)];
    assert hs[..|hs| - 1] == [];
  }

  /** With region 1 holding the loan, no location reaches local 4. */
  lemma MustLiveNoneAtTop()
    ensures LocalMustLocations(ChainOutput(1), ChainBorrows) == map[]
  {
    ChainRegionLocations(1);
    ChainSubsets(1);
    ChainHolds(1);
    ChainBorrowLocal();
    ChainRegionMust();
    TopLevelEntries();
  }

  /** Only direct subsets count: the holder's own locations are excluded and
      region 3, two levels below region 1, is not reached. */
  lemma MustLiveNotTransitive()
    ensures GetMustLive(ChainOutput(1), s => Start(StmtLoc(0, 0)), ChainBorrows, [], (b, r) => [], s => []) == map[]
  {
    MustLiveNoneAtTop();
  }

  lemma GroupUnionSingle<K, V>(k: K, vs: set<V>)
    ensures GroupUnion([(k, vs)]) == map[k := vs]
  {
    var ps := [(k, vs)];
    assert ps[..|ps| - 1] == [];
    assert {} + vs == vs;
  }

  lemma OneLevelEntries()
    ensures MustEntries([(2, 5)], map[2 := {9}], map[5 := 4]) == [(4, {9})]
  {
    var hs: seq<(Region, Loan)> := [(2, 5)];
    assert hs[..|hs| - 1] == [];
  }

  /** One level down the chain, region 2's direct subset 3 puts local 4 at point 9. */
  lemma MustLiveOneLevel()
    ensures LocalMustLocations(ChainOutput(2), ChainBorrows) == map[4 := {9}]
  {
    ChainRegionLocations(2);
    ChainSubsets(2);
    ChainHolds(2);
    ChainBorrowLocal();
    ChainRegionMust();
    OneLevelEntries();
    GroupUnionSingle(4, {9});
  }

  /** A block with statements [0,10) [10,20) [20,30) and a terminator [30,40). */
  function ThreeStatementBlock(): seq<MirBasicBlock> {
    [MirBasicBlock(
      [OtherStatement(Interval(0, 10)), OtherStatement(Interval(10, 20)), OtherStatement(Interval(20, 30))],
      Some(OtherTerminator(Interval(30, 40))))]
  }

  /** Start(0, 1) with Mid(0, 2) yields [10, 30); a Mid past the statements
      falls back to the terminator, and a missing block yields nothing. */
  lemma PairedRangeExamples()
    ensures PairedRange(ThreeStatementBlock(), StmtLoc(0, 1), StmtLoc(0, 2)) == Some(Interval(10, 30))
    ensures PairedRange(ThreeStatementBlock(), StmtLoc(0, 1), StmtLoc(0, 5)) == Some(Interval(10, 40))
    ensures PairedRange(ThreeStatementBlock(), StmtLoc(1, 0), StmtLoc(0, 2)) == None
    ensures PairedRange(ThreeStatementBlock(), StmtLoc(0, 2), StmtLoc(0, 0)) == None
  {
  }

  /** Two starts and one mid: only the first start is paired. */
  lemma PairRangesTruncates()
    ensures PairRanges(ThreeStatementBlock(), [StmtLoc(0, 0), StmtLoc(0, 1)], [StmtLoc(0, 2)]) == [Interval(0, 30)]
  {
    assert PairedRange(ThreeStatementBlock(), StmtLoc(0, 0), StmtLoc(0, 2)) == Some(Interval(0, 30));
  }

  lemma PermutationOfSingleton(sortLocs: seq<StmtLoc> -> seq<StmtLoc>, x: StmtLoc)
    requires SortsByPermutation(sortLocs)
    ensures sortLocs([x]) == [x]
  {
    var r := sortLocs([x]);
    assert multiset(r) == multiset([x]);
    assert |r| == 1 by { assert |multiset(r)| == |multiset([x])|; }
    assert r[0] in multiset(r);
  }

  /** The location table of the example: point 0 is Start(0, 1), any other Mid(0, 2). */
  function ExampleRich(p: Point): RichLocation {
    if p == 0 then Start(StmtLoc(0, 1)) else Mid(StmtLoc(0, 2))
  }

  lemma FlattenOne<A, T>(a: A, x: T)
    ensures Flatten([(a, [x])]) == [(a, x)]
  {
    var facts := [(a, [x])];
    assert facts[..0] == [];
    assert Spread(a, [x]) == [(a, x)];
  }

  lemma FlattenTwo<A, T>(a1: A, x1: T, a2: A, x2: T)
    ensures Flatten([(a1, [x1]), (a2, [x2])]) == [(a1, x1), (a2, x2)]
  {
    var facts := [(a1, [x1]), (a2, [x2])];
    assert facts[..1] == [(a1, [x1])];
    FlattenOne(a1, x1);
    assert Spread(a2, [x2]) == [(a2, x2)];
  }

  lemma GroupSeqTwoSame<K, V>(k: K, v1: V, v2: V)
    ensures GroupSeq([(k, v1), (k, v2)]) == map[k := [v1, v2]]
  {
    var pairs := [(k, v1), (k, v2)];
    assert pairs[..1] == [(k, v1)] && pairs[..1][..0] == [];
    assert GroupSeq(pairs[..1]) == map[k := [v1]] by {
      assert GroupSeq(pairs[..1][..0]) == map[];
      assert [] + [v1] == [v1];
    }
    assert [v1] + [v2] == [v1, v2];
  }

  lemma ExampleLive(rich: seq<RichLocation>)
    requires rich == [Start(StmtLoc(0, 1)), Mid(StmtLoc(0, 2))]
    ensures GroupSeq(LocalRich(Flatten([(0, [1]), (1, [1])]), ExampleRich)) == map[1 := rich]
  {
    FlattenTwo<Point, Local>(0, 1, 1, 1);
    var pairs: seq<(Point, Local)> := [(0, 1), (1, 1)];
    assert LocalRich(pairs, ExampleRich) == [(1, rich[0]), (1, rich[1])];
    GroupSeqTwoSame(1 as Local, rich[0], rich[1]);
    assert [rich[0], rich[1]] == rich;
  }

  lemma ExampleLocs(rich: seq<RichLocation>)
    requires rich == [Start(StmtLoc(0, 1)), Mid(StmtLoc(0, 2))]
    ensures StartLocs(rich) == [StmtLoc(0, 1)]
    ensures MidLocs(rich) == [StmtLoc(0, 2)]
  {
    var first := rich[..1];
    assert rich[..|rich| - 1] == first && first[..|first| - 1] == [];
    assert StartLocs(first) == [StmtLoc(0, 1)] && MidLocs(first) == [];
    assert StartLocs(rich) == StartLocs(first) + [];
    assert MidLocs(rich) == MidLocs(first) + [StmtLoc(0, 2)];
  }

  lemma ExamplePair()
    ensures PairRanges(ThreeStatementBlock(), [StmtLoc(0, 1)], [StmtLoc(0, 2)]) == [Interval(10, 30)]
  {
    assert PairedRange(ThreeStatementBlock(), StmtLoc(0, 1), StmtLoc(0, 2)) == Some(Interval(10, 30));
  }

  lemma ExampleLocalRanges(sortLocs: seq<StmtLoc> -> seq<StmtLoc>, rich: seq<RichLocation>)
    requires SortsByPermutation(sortLocs)
    requires rich == [Start(StmtLoc(0, 1)), Mid(StmtLoc(0, 2))]
    ensures LocalRanges(ThreeStatementBlock(), sortLocs, rich) == [Interval(10, 30)]
  {
    ExampleLocs(rich);
    PermutationOfSingleton(sortLocs, StmtLoc(0, 1));
    PermutationOfSingleton(sortLocs, StmtLoc(0, 2));
    ExamplePair();
    EliminatedRangesOfNormal([Interval(10, 30)]);
  }

  /** Local 1 live at Start(0, 1) and at Mid(0, 2) gets exactly [10, 30). */
  lemma GetRangeExample(sortLocs: seq<StmtLoc> -> seq<StmtLoc>)
    requires SortsByPermutation(sortLocs)
    ensures GetRange([(0, [1]), (1, [1])], ExampleRich, ThreeStatementBlock(), sortLocs) == map[1 := [Interval(10, 30)]]
  {
    var rich := [Start(StmtLoc(0, 1)), Mid(StmtLoc(0, 2))];
    ExampleLive(rich);
    ExampleLocalRanges(sortLocs, rich);
    GetRangeOfOneLocal([(0, [1]), (1, [1])], ExampleRich, ThreeStatementBlock(), sortLocs, 1, rich);
  }

  /** Facts that mention a single local give a map with that one key. */
  lemma GetRangeOfOneLocal(facts: seq<(Point, seq<Local>)>, toRich: Point -> RichLocation,
                           bbs: seq<MirBasicBlock>, sortLocs: seq<StmtLoc> -> seq<StmtLoc>,
                           l: Local, rich: seq<RichLocation>)
    requires GroupSeq(LocalRich(Flatten(facts), toRich)) == map[l := rich]
    ensures GetRange(facts, toRich, bbs, sortLocs) == map[l := LocalRanges(bbs, sortLocs, rich)]
  {
  }
}
