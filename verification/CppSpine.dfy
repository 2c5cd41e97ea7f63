/**
 The left spine of a printed expression: the operand it begins with, and the operators and operands that
 follow. Reading goes along it whatever the first operand turns out to be.
 */
module CppSpine {
  import opened Sequences
  import opened CppLexical
  import opened CppExpr
  import opened CppExprPrint

  /** At level `j` the tree is printed as its left part, an operator and its right part. */
  predicate Spread(e: Expr, j: nat) {
    e.Binary? && Prec(e) >= j
  }

  /** The operand with which the text of `e` at level `j` begins. */
  function Unit(e: Expr, j: nat): (u: Expr)
    requires Printable(e)
    ensures Printable(u)
  {
    if Spread(e, j) then Unit(e.l, Level(e.op)) else e
  }

  function RightText(e: Expr): (s: string)
    requires Printable(e) && e.Binary?
  {
    OpText(e.op) + (" " + Print(e.r, Level(e.op) + 1))
  }

  /** What follows it. */
  function ChainText(e: Expr, j: nat): (s: string)
    requires Printable(e)
  {
    if Spread(e, j) then ChainText(e.l, Level(e.op)) + RightText(e) else ""
  }

  /** The tree with another first operand. */
  function Plug(e: Expr, j: nat, u: Expr): (e': Expr)
    requires Printable(e)
  {
    if Spread(e, j) then Binary(e.op, Plug(e.l, Level(e.op), u), e.r) else u
  }

  lemma {:induction false} PrintSplits(e: Expr, j: nat)
    requires Printable(e) && j <= 10
    ensures Print(e, j) == Print(Unit(e, j), 10) + ChainText(e, j)
  {
    if Spread(e, j) {
      PrintSplits(e.l, Level(e.op));
      Associates(Print(Unit(e.l, Level(e.op)), 10), ChainText(e.l, Level(e.op)), RightText(e));
    } else {
      assert Print(e, 10) + "" == Print(e, 10);
    }
  }

  lemma {:induction false} PlugIsInjective(e: Expr, j: nat, u: Expr)
    requires Printable(e) && Plug(e, j, u) == e
    ensures u == Unit(e, j)
  {
    if Spread(e, j) {
      PlugIsInjective(e.l, Level(e.op), u);
    }
  }

  lemma ChainUnfolds(e: Expr, j: nat, rest: string)
    requires Printable(e) && Spread(e, j)
    ensures ChainText(e, j) + rest
            == ChainText(e.l, Level(e.op)) + (OpText(e.op) + (" " + (Print(e.r, Level(e.op) + 1) + rest)))
  {
    RegroupBinary(ChainText(e.l, Level(e.op)), OpText(e.op), Print(e.r, Level(e.op) + 1), rest);
  }

  // -------------------------------------------------------------------
  // Reading along the spine
  // -------------------------------------------------------------------

  /** What a level has read is what every lower level has read, as long as none of its operators follows. */
  lemma {:induction false} LevelDown(k: nat, j: nat, s: string, e: Expr, rest: string, sharp: bool)
    requires j <= k <= 10 && Stops(j + 1, rest, sharp) && ParseLevel(k, s, sharp) == After(k, e, rest, sharp)
    ensures ParseLevel(j, s, sharp) == After(j, e, rest, sharp)
    decreases k - j
  {
    if j < k {
      LevelDown(k, j + 1, s, e, rest, sharp);
      LevelFromNext(j, s, e, rest, sharp);
    }
  }

  /** Whatever first operand is read in front of the chain, the chain is built onto it. */
  lemma {:induction false} PlugReads(e: Expr, j: nat, s: string, u: Expr, rest: string, sharp: bool)
    requires Printable(e) && j <= 10 && Stops(j + 1, rest, sharp)
    requires ParseUnary(s, sharp) == (u, ChainText(e, j) + rest)
    ensures ParseLevel(j, s, sharp) == After(j, Plug(e, j, u), rest, sharp)
    decreases e
  {
    if Spread(e, j) {
      var op, lev := e.op, Level(e.op);
      var x := Print(e.r, lev + 1) + rest;
      ChainUnfolds(e, j, rest);
      OperatorStops(op, x, sharp);
      PlugReads(e.l, lev, s, u, OpText(op) + (" " + x), sharp);
      PrintReads(e.r, lev + 1, rest, sharp);
      RestTakes(op, Plug(e.l, lev, u), e.r, x, rest, sharp);
      LevelDown(lev, j, s, Plug(e, j, u), rest, sharp);
    } else {
      assert ChainText(e, j) + rest == rest;
      LevelDown(10, j, s, u, rest, sharp);
    }
  }

  // -------------------------------------------------------------------
  // Reading the spine at a higher level than it was printed for
  // -------------------------------------------------------------------

  /** No operator of level `k` or above follows, and the text begins right there. */
  ghost predicate Clean(k: nat, rest: string, sharp: bool) {
    Skip(rest, sharp) == rest && Stops(k, rest, sharp)
  }

  /** The part of the chain that level `k` leaves over: the operators below it. */
  function Low(e: Expr, j: nat, k: nat): (s: string)
    requires Printable(e)
  {
    if Spread(e, j) && Level(e.op) < k then Low(e.l, Level(e.op), k) + RightText(e) else ""
  }

  /** What level `k` builds onto the first operand. */
  function High(e: Expr, j: nat, k: nat, u: Expr): (e': Expr)
    requires Printable(e)
  {
    if !Spread(e, j) then u
    else if Level(e.op) < k then High(e.l, Level(e.op), k, u)
    else Plug(e, j, u)
  }

  lemma LowUnfolds(e: Expr, j: nat, k: nat, rest: string)
    requires Printable(e) && Spread(e, j) && Level(e.op) < k
    ensures Low(e, j, k) + rest
            == Low(e.l, Level(e.op), k) + (OpText(e.op) + (" " + (Print(e.r, Level(e.op) + 1) + rest)))
  {
    RegroupBinary(Low(e.l, Level(e.op), k), OpText(e.op), Print(e.r, Level(e.op) + 1), rest);
  }

  lemma RightIsClean(e: Expr, rest: string, sharp: bool)
    requires Printable(e) && e.Binary?
    ensures Clean(Level(e.op) + 1, OpText(e.op) + (" " + (Print(e.r, Level(e.op) + 1) + rest)), sharp)
  {
    OperatorStops(e.op, Print(e.r, Level(e.op) + 1) + rest, sharp);
  }

  /** A level takes the operators of its own and higher levels and leaves the others. */
  lemma {:induction false} HighReads(e: Expr, j: nat, k: nat, s: string, u: Expr, rest: string, sharp: bool)
    requires Printable(e) && k <= 9 && Clean(k, rest, sharp)
    requires ParseUnary(s, sharp) == (u, ChainText(e, j) + rest)
    ensures ParseLevel(k, s, sharp) == (High(e, j, k, u), Low(e, j, k) + rest)
    decreases e
  {
    if Spread(e, j) && Level(e.op) < k {
      var rest' := OpText(e.op) + (" " + (Print(e.r, Level(e.op) + 1) + rest));
      ChainUnfolds(e, j, rest);
      LowUnfolds(e, j, k, rest);
      RightIsClean(e, rest, sharp);
      HighReads(e.l, Level(e.op), k, s, u, rest', sharp);
    } else {
      assert "" + rest == rest;
      if Spread(e, j) {
        assert ChainText(e, k) == ChainText(e, j) && Plug(e, k, u) == Plug(e, j, u);
        PlugReads(e, k, s, u, rest, sharp);
      } else {
        LevelDown(10, k, s, u, rest, sharp);
      }
      RestStops(k, High(e, j, k, u), rest, sharp);
    }
  }

  /** The operators of one level, built onto what was read before them. */
  function Segment(e: Expr, k: nat, acc: Expr): (e': Expr)
    requires Printable(e)
  {
    if e.Binary? && Level(e.op) == k then Binary(e.op, Segment(e.l, k, acc), e.r) else acc
  }

  lemma SegmentStep(e: Expr, acc: Expr, rest: string, sharp: bool)
    requires Printable(e) && e.Binary? && Stops(Level(e.op) + 1, rest, sharp)
    ensures ParseRest(Level(e.op), acc, OpText(e.op) + (" " + (Print(e.r, Level(e.op) + 1) + rest)), sharp)
            == ParseRest(Level(e.op), Binary(e.op, acc, e.r), rest, sharp)
  {
    PrintReads(e.r, Level(e.op) + 1, rest, sharp);
    RestTakes(e.op, acc, e.r, Print(e.r, Level(e.op) + 1) + rest, rest, sharp);
  }

  lemma {:induction false} SegmentReads(e: Expr, k: nat, acc: Expr, rest: string, sharp: bool)
    requires Printable(e) && k <= 9 && Stops(k + 1, rest, sharp)
    ensures ParseRest(k, acc, Low(e, k, k + 1) + rest, sharp) == ParseRest(k, Segment(e, k, acc), rest, sharp)
    decreases e
  {
    if e.Binary? && Level(e.op) == k {
      var x := Print(e.r, k + 1) + rest;
      LowUnfolds(e, k, k + 1, rest);
      RightIsClean(e, rest, sharp);
      SegmentReads(e.l, k, acc, OpText(e.op) + (" " + x), sharp);
      SegmentStep(e, Segment(e.l, k, acc), rest, sharp);
    } else {
      assert "" + rest == rest;
    }
  }

  lemma LowReadsHere(e: Expr, j: nat, k: nat, acc: Expr, rest: string, sharp: bool)
    requires Printable(e) && k <= 9 && Clean(k, rest, sharp) && Spread(e, j) && Level(e.op) == k
    ensures ParseRest(k, acc, Low(e, j, k + 1) + rest, sharp).1 == Low(e, j, k) + rest
  {
    assert "" + rest == rest && Low(e, j, k + 1) == Low(e, k, k + 1);
    SegmentReads(e, k, acc, rest, sharp);
    RestStops(k, Segment(e, k, acc), rest, sharp);
  }

  lemma LowReadsBelow(e: Expr, j: nat, k: nat, acc: Expr, more: string, rest: string, sharp: bool)
    requires Printable(e) && k <= 9 && Spread(e, j) && Level(e.op) < k
    requires more == OpText(e.op) + (" " + (Print(e.r, Level(e.op) + 1) + rest))
    requires ParseRest(k, acc, Low(e.l, Level(e.op), k + 1) + more, sharp).1 == Low(e.l, Level(e.op), k) + more
    ensures ParseRest(k, acc, Low(e, j, k + 1) + rest, sharp).1 == Low(e, j, k) + rest
  {
    LowUnfolds(e, j, k + 1, rest);
    LowUnfolds(e, j, k, rest);
  }

  lemma NothingBelow(k: nat, acc: Expr, rest: string, sharp: bool)
    requires k <= 9 && Clean(k, rest, sharp)
    ensures ParseRest(k, acc, "" + rest, sharp).1 == "" + rest
  {
    assert "" + rest == rest;
    RestStops(k, acc, rest, sharp);
  }

  /** The next level down takes its operators from what was left over. */
  lemma {:induction false} LowReads(e: Expr, j: nat, k: nat, acc: Expr, rest: string, sharp: bool)
    requires Printable(e) && k <= 9 && Clean(k, rest, sharp)
    ensures ParseRest(k, acc, Low(e, j, k + 1) + rest, sharp).1 == Low(e, j, k) + rest
    decreases e
  {
    if Spread(e, j) && Level(e.op) < k {
      var more := OpText(e.op) + (" " + (Print(e.r, Level(e.op) + 1) + rest));
      RightIsClean(e, rest, sharp);
      LowReads(e.l, Level(e.op), k, acc, more, sharp);
      LowReadsBelow(e, j, k, acc, more, rest, sharp);
    } else if Spread(e, j) && Level(e.op) == k {
      LowReadsHere(e, j, k, acc, rest, sharp);
    } else {
      NothingBelow(k, acc, rest, sharp);
    }
  }

  /** Whatever stands in front, reading a printed expression from its first operand on ends right behind it. */
  lemma {:induction false} LevelsEndBehind(e: Expr, j: nat, s: string, acc: Expr, rest: string, sharp: bool)
    requires Printable(e) && j <= 4 && Clean(0, rest, sharp)
    requires ParseLevel(4, s, sharp) == ParseRest(4, acc, Low(e, 0, 5) + rest, sharp)
    ensures ParseLevel(j, s, sharp).1 == Low(e, 0, j) + rest
    decreases 4 - j
  {
    if j == 4 {
      LowReads(e, 0, 4, acc, rest, sharp);
    } else {
      LevelsEndBehind(e, j + 1, s, acc, rest, sharp);
      LowReads(e, 0, j, ParseLevel(j + 1, s, sharp).0, rest, sharp);
    }
  }
}
