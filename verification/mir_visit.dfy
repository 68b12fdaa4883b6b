/** `mir_visit` of src/utils.rs. The visitor's four callbacks are whatever the
    caller supplies, so the model records the sequence of callback invocations
    the traversal makes; any visitor sees exactly this sequence. */
module MirVisit {
  import opened Wrappers
  import opened Models

  datatype Visit =
    | VisitFunc(func: Function)
    | VisitDecl(decl: MirDecl)
    | VisitStmt(stmt: MirStatement)
    | VisitTerm(term: MirTerminator)

  function DeclVisits(decls: seq<MirDecl>): seq<Visit> {
    if |decls| == 0 then [] else DeclVisits(decls[..|decls| - 1]) + [VisitDecl(decls[|decls| - 1])]
  }

  function StmtVisits(stmts: seq<MirStatement>): seq<Visit> {
    if |stmts| == 0 then [] else StmtVisits(stmts[..|stmts| - 1]) + [VisitStmt(stmts[|stmts| - 1])]
  }

  function BlockVisits(bb: MirBasicBlock): seq<Visit> {
    StmtVisits(bb.statements) + (if bb.terminator.Some? then [VisitTerm(bb.terminator.value)] else [])
  }

  function BlocksVisits(bbs: seq<MirBasicBlock>): seq<Visit> {
    if |bbs| == 0 then [] else BlocksVisits(bbs[..|bbs| - 1]) + BlockVisits(bbs[|bbs| - 1])
  }

  /** The order the traversal promises: the function, its declarations, then
      each basic block's statements followed by its terminator, if any. */
  function VisitOrder(f: Function): seq<Visit> {
    [VisitFunc(f)] + DeclVisits(f.decls) + BlocksVisits(f.basicBlocks)
  }

  /** `mir_visit(func, visitor)`, returning the callbacks in the order it makes them. */
  method MirVisit(f: Function) returns (trace: seq<Visit>)
    ensures trace == VisitOrder(f)
  {
    var decls: seq<Visit> := [];
    var i := 0;
    while i < |f.decls|
      invariant 0 <= i <= |f.decls|
      invariant decls == DeclVisits(f.decls[..i])
    {
      assert f.decls[..i + 1][..i] == f.decls[..i];
      decls := decls + [VisitDecl(f.decls[i])];
      i := i + 1;
    }
    assert f.decls[..i] == f.decls;
    var blocks: seq<Visit> := [];
    var b := 0;
    while b < |f.basicBlocks|
      invariant 0 <= b <= |f.basicBlocks|
      invariant blocks == BlocksVisits(f.basicBlocks[..b])
    {
      var visits := VisitBlock(f.basicBlocks[b]);
      assert f.basicBlocks[..b + 1][..b] == f.basicBlocks[..b];
      blocks := blocks + visits;
      b := b + 1;
    }
    assert f.basicBlocks[..b] == f.basicBlocks;
    trace := [VisitFunc(f)] + decls + blocks;
  }

  /** One basic block of the traversal: its statements in order, then its terminator. */
  method VisitBlock(bb: MirBasicBlock) returns (visits: seq<Visit>)
    ensures visits == BlockVisits(bb)
  {
    visits := [];
    var j := 0;
    while j < |bb.statements|
      invariant 0 <= j <= |bb.statements|
      invariant visits == StmtVisits(bb.statements[..j])
    {
      assert bb.statements[..j + 1][..j] == bb.statements[..j];
      visits := visits + [VisitStmt(bb.statements[j])];
      j := j + 1;
    }
    assert bb.statements[..j] == bb.statements;
    if bb.terminator.Some? {
      visits := visits + [VisitTerm(bb.terminator.value)];
    }
  }

  // ---------------------------------------------------------------------------
  // How many times each callback runs.

  function CountFuncs(vs: seq<Visit>): nat {
    if |vs| == 0 then 0 else (if vs[0].VisitFunc? then 1 else 0) + CountFuncs(vs[1..])
  }

  function CountDecls(vs: seq<Visit>): nat {
    if |vs| == 0 then 0 else (if vs[0].VisitDecl? then 1 else 0) + CountDecls(vs[1..])
  }

  function CountStmts(vs: seq<Visit>): nat {
    if |vs| == 0 then 0 else (if vs[0].VisitStmt? then 1 else 0) + CountStmts(vs[1..])
  }

  function CountTerms(vs: seq<Visit>): nat {
    if |vs| == 0 then 0 else (if vs[0].VisitTerm? then 1 else 0) + CountTerms(vs[1..])
  }

  lemma {:induction false} CountsAppend(a: seq<Visit>, b: seq<Visit>)
    ensures CountFuncs(a + b) == CountFuncs(a) + CountFuncs(b)
    ensures CountDecls(a + b) == CountDecls(a) + CountDecls(b)
    ensures CountStmts(a + b) == CountStmts(a) + CountStmts(b)
    ensures CountTerms(a + b) == CountTerms(a) + CountTerms(b)
  {
    if |a| == 0 {
      assert a + b == b;
    } else {
      assert (a + b)[1..] == a[1..] + b;
      CountsAppend(a[1..], b);
    }
  }

  /** The number of statements over all basic blocks. */
  function TotalStatements(bbs: seq<MirBasicBlock>): nat {
    if |bbs| == 0 then 0 else |bbs[0].statements| + TotalStatements(bbs[1..])
  }

  /** The number of basic blocks that have a terminator. */
  function TotalTerminators(bbs: seq<MirBasicBlock>): nat {
    if |bbs| == 0 then 0 else (if bbs[0].terminator.Some? then 1 else 0) + TotalTerminators(bbs[1..])
  }

  lemma {:induction false} DeclVisitsCounts(decls: seq<MirDecl>)
    ensures var vs := DeclVisits(decls);
      CountFuncs(vs) == 0 && CountDecls(vs) == |decls| && CountStmts(vs) == 0 && CountTerms(vs) == 0
  {
    if |decls| > 0 {
      DeclVisitsCounts(decls[..|decls| - 1]);
      CountsAppend(DeclVisits(decls[..|decls| - 1]), [VisitDecl(decls[|decls| - 1])]);
    }
  }

  lemma {:induction false} StmtVisitsCounts(stmts: seq<MirStatement>)
    ensures var vs := StmtVisits(stmts);
      CountFuncs(vs) == 0 && CountDecls(vs) == 0 && CountStmts(vs) == |stmts| && CountTerms(vs) == 0
  {
    if |stmts| > 0 {
      StmtVisitsCounts(stmts[..|stmts| - 1]);
      CountsAppend(StmtVisits(stmts[..|stmts| - 1]), [VisitStmt(stmts[|stmts| - 1])]);
    }
  }

  lemma {:induction false} TotalsSnoc(bbs: seq<MirBasicBlock>)
    requires |bbs| > 0
    ensures TotalStatements(bbs) == TotalStatements(bbs[..|bbs| - 1]) + |bbs[|bbs| - 1].statements|
    ensures TotalTerminators(bbs) == TotalTerminators(bbs[..|bbs| - 1]) + (if bbs[|bbs| - 1].terminator.Some? then 1 else 0)
  {
    if |bbs| > 1 {
      assert bbs[1..][..|bbs[1..]| - 1] == bbs[..|bbs| - 1][1..];
      TotalsSnoc(bbs[1..]);
    }
  }

  lemma {:induction false} BlocksVisitsCounts(bbs: seq<MirBasicBlock>)
    ensures var vs := BlocksVisits(bbs);
      && CountFuncs(vs) == 0 && CountDecls(vs) == 0
      && CountStmts(vs) == TotalStatements(bbs) && CountTerms(vs) == TotalTerminators(bbs)
  {
    if |bbs| > 0 {
      var bb := bbs[|bbs| - 1];
      var term: seq<Visit> := if bb.terminator.Some? then [VisitTerm(bb.terminator.value)] else [];
      BlocksVisitsCounts(bbs[..|bbs| - 1]);
      StmtVisitsCounts(bb.statements);
      CountsAppend(StmtVisits(bb.statements), term);
      CountsAppend(BlocksVisits(bbs[..|bbs| - 1]), BlockVisits(bb));
      TotalsSnoc(bbs);
    }
  }

  /** The traversal calls `visit_func` once, `visit_decl` once per declaration,
      `visit_stmt` once per statement and `visit_term` once per terminator. */
  lemma VisitOrderCounts(f: Function)
    ensures var vs := VisitOrder(f);
      && CountFuncs(vs) == 1
      && CountDecls(vs) == |f.decls|
      && CountStmts(vs) == TotalStatements(f.basicBlocks)
      && CountTerms(vs) == TotalTerminators(f.basicBlocks)
  {
    DeclVisitsCounts(f.decls);
    BlocksVisitsCounts(f.basicBlocks);
    CountsAppend([VisitFunc(f)], DeclVisits(f.decls));
    CountsAppend([VisitFunc(f)] + DeclVisits(f.decls), BlocksVisits(f.basicBlocks));
  }
}
