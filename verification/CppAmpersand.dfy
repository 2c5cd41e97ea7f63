/** A single `&` swallows the character behind it: exactly when the expression is still read as it is spelt. */
module CppAmpersand {
  import opened Sequences
  import opened CppLexical
  import opened CppExpr
  import opened CppExprPrint
  import opened CppSpine

  // -------------------------------------------------------------------
  // How far a tree goes to the left
  // -------------------------------------------------------------------

  function LeftDepth(e: Expr): (n: nat) {
    if e.Binary? then 1 + LeftDepth(e.l) else 0
  }

  function LeftLeaf(e: Expr): (u: Expr) {
    if e.Binary? then LeftLeaf(e.l) else e
  }

  /** The operator next to the leftmost leaf. */
  function LeftOp(e: Expr): (op: Op)
    requires e.Binary?
  {
    if e.l.Binary? then LeftOp(e.l) else e.op
  }

  /** What a level builds contains what it started from as it is, or deeper on the left. */
  ghost predicate Grown(e: Expr, e': Expr) {
    e' == e || LeftDepth(e') > LeftDepth(e)
  }

  lemma {:induction false} RestGrows(j: nat, l: Expr, s: string, sharp: bool)
    requires j <= 9
    ensures Grown(l, ParseRest(j, l, s, sharp).0)
    decreases |s|
  {
    var t := Skip(s, sharp);
    match OperatorAt(j, t)
    case None =>
    case Some((op, n)) =>
      var (r, u) := ParseLevel(j + 1, t[n..], sharp);
      RestGrows(j, Binary(op, l, r), u, sharp);
  }

  lemma {:induction false} CommasGrow(l: Expr, s: string, sharp: bool)
    ensures Grown(l, ParseCommas(l, s, sharp).0)
    decreases |s|
  {
    var t := Skip(s, sharp);
    if t != [] && t[0] == ',' {
      var (r, u) := ParseLevel(0, t[1..], sharp);
      CommasGrow(Binary(Comma, l, r), u, sharp);
    }
  }

  lemma {:induction false} LevelsGrow(j: nat, s: string, l: Expr, u: string, sharp: bool)
    requires j <= 4 && ParseLevel(4, s, sharp) == ParseRest(4, l, u, sharp)
    ensures Grown(l, ParseLevel(j, s, sharp).0) && |ParseLevel(j, s, sharp).1| <= |u|
    decreases 4 - j
  {
    if j == 4 {
      RestGrows(4, l, u, sharp);
    } else {
      LevelsGrow(j + 1, s, l, u, sharp);
      var (e, t) := ParseLevel(j + 1, s, sharp);
      RestGrows(j, e, t, sharp);
    }
  }

  lemma ExprGrows(s: string, l: Expr, u: string, sharp: bool)
    requires ParseLevel(4, s, sharp) == ParseRest(4, l, u, sharp)
    ensures Grown(l, ParseExpr(s, sharp).0) && |ParseExpr(s, sharp).1| <= |u|
  {
    LevelsGrow(0, s, l, u, sharp);
    var (e, t) := ParseLevel(0, s, sharp);
    CommasGrow(e, t, sharp);
  }

  // -------------------------------------------------------------------
  // The right operand decides
  // -------------------------------------------------------------------

  /** An expression `l&` with `x` behind the swallowed character. */
  function Swallowed(l: Expr, x: string): (s: string)
    requires Printable(l)
  {
    Print(l, 4) + ("&" + (" " + x))
  }

  lemma SwallowedReads(l: Expr, x: string, sharp: bool)
    requires Printable(l)
    ensures var (r, u) := ParseLevel(5, x, sharp);
            ParseLevel(4, Swallowed(l, x), sharp) == ParseRest(4, Binary(BitAnd, l, r), u, sharp)
  {
    var s := "&" + (" " + x);
    AmpersandStops(' ', x, sharp);
    PrintReads(l, 4, s, sharp);
    VisibleStays(s, sharp);
    assert s[2..] == x;
    var (r, u) := ParseLevel(5, x, sharp);
    RestUnfolds(4, l, s, BitAnd, 2, r, u, sharp);
  }

  /** Another right operand makes another expression. */
  lemma WrongOperand(l: Expr, r: Expr, x: string, sharp: bool)
    requires Printable(l) && ParseLevel(5, x, sharp).0 != r
    ensures ParseExpr(Swallowed(l, x), sharp).0 != Binary(BitAnd, l, r)
  {
    var (r', u) := ParseLevel(5, x, sharp);
    SwallowedReads(l, x, sharp);
    ExprGrows(Swallowed(l, x), Binary(BitAnd, l, r'), u, sharp);
    assert LeftDepth(Binary(BitAnd, l, r')) == LeftDepth(Binary(BitAnd, l, r));
  }

  /** Reading past the end of the expression leaves too little. */
  lemma ReadTooFar(l: Expr, x: string, n: nat, sharp: bool)
    requires Printable(l) && |ParseLevel(5, x, sharp).1| < n
    ensures |ParseExpr(Swallowed(l, x), sharp).1| < n
  {
    var (r', u) := ParseLevel(5, x, sharp);
    SwallowedReads(l, x, sharp);
    ExprGrows(Swallowed(l, x), Binary(BitAnd, l, r'), u, sharp);
  }

  // -------------------------------------------------------------------
  // What the first operand becomes
  // -------------------------------------------------------------------

  /** Reading goes on with the chain behind another first operand. */
  lemma OtherUnit(l: Expr, r: Expr, u: Expr, x: string, c: char, rest: string, sharp: bool)
    requires Printable(l) && Printable(r) && Terminator(c) && u != Unit(r, 5)
    requires ParseUnary(x, sharp) == (u, ChainText(r, 5) + ([c] + rest))
    ensures ParseExpr(Swallowed(l, x), sharp).0 != Binary(BitAnd, l, r)
  {
    var z := [c] + rest;
    VisibleStays(z, sharp);
    assert Stops(0, z, sharp);
    PlugReads(r, 5, x, u, z, sharp);
    RestStops(5, Plug(r, 5, u), z, sharp);
    if Plug(r, 5, u) == r {
      PlugIsInjective(r, 5, u);
      assert false;
    }
    WrongOperand(l, r, x, sharp);
  }

  lemma RightStart(e: Expr)
    requires Printable(e) && e.Binary?
    ensures RightText(e) != [] && !SymChar(RightText(e)[0])
  {
    assert RightText(e)[0] == OpText(e.op)[0];
  }

  lemma {:induction false} ChainEndsAt(e: Expr, j: nat, z: string)
    requires Printable(e) && z != [] && !SymChar(z[0])
    ensures Ends(ChainText(e, j) + z)
    decreases e
  {
    if Spread(e, j) {
      RightStart(e);
      assert (RightText(e) + z)[0] == RightText(e)[0];
      ChainEndsAt(e.l, Level(e.op), RightText(e) + z);
      Associates(ChainText(e.l, Level(e.op)), RightText(e), z);
    } else {
      assert "" + z == z;
    }
  }

  /** Without its operator the operand is read in its place. */
  lemma UnaryLost(l: Expr, r: Expr, c: char, rest: string, sharp: bool)
    requires Printable(l) && Printable(r) && Terminator(c) && Unit(r, 5).Unary?
    ensures var x := Print(Unit(r, 5).e, 10) + (ChainText(r, 5) + ([c] + rest));
            ParseExpr(Swallowed(l, x), sharp).0 != Binary(BitAnd, l, r)
  {
    var e, y := Unit(r, 5).e, ChainText(r, 5) + ([c] + rest);
    ChainEndsAt(r, 5, [c] + rest);
    PrintReads(e, 10, y, sharp);
    OtherUnit(l, r, e, Print(e, 10) + y, c, rest, sharp);
  }

  /** Without its first letter `defined` is a name, and the parenthesis behind it ends the expression. */
  lemma DefinedLost(l: Expr, name: string, y: string, sharp: bool)
    requires Printable(l) && Identifier(name)
    ensures ParseExpr(Swallowed(l, "efined" + ("(" + (name + (")" + y)))), sharp).1 == name + (")" + y)
  {
    var p := "(" + (name + (")" + y));
    var x := "efined" + p;
    VisibleStays(x, sharp);
    VisibleStays(p, sharp);
    SymLengthOf("efined", p);
    assert x[6..] == p && p[1..] == name + (")" + y);
    assert ParseUnary(x, sharp) == (Num(0), p);
    assert Stops(0, p, sharp);
    LevelDown(10, 5, x, Num(0), p, sharp);
    RestStops(5, Num(0), p, sharp);
    var e := Binary(BitAnd, l, Num(0));
    SwallowedReads(l, x, sharp);
    RestStops(4, e, p, sharp);
    LevelDownFrom4(Swallowed(l, x), e, p, sharp);
  }

  lemma LevelDownFrom4(s: string, e: Expr, p: string, sharp: bool)
    requires ParseLevel(4, s, sharp) == (e, p) && Skip(p, sharp) == p && Stops(0, p, sharp)
    ensures ParseLevel(0, s, sharp) == (e, p)
  {
    RestStops(3, e, p, sharp);
    RestStops(2, e, p, sharp);
    RestStops(1, e, p, sharp);
    RestStops(0, e, p, sharp);
    assert ParseLevel(3, s, sharp) == (e, p);
    assert ParseLevel(2, s, sharp) == (e, p);
    assert ParseLevel(1, s, sharp) == (e, p);
  }

  /** Without its opening parenthesis the closing one ends the expression. */
  lemma ParenthesisLost(l: Expr, e: Expr, y: string, sharp: bool)
    requires Printable(l) && Printable(e)
    ensures ParseExpr(Swallowed(l, Bare(e) + (")" + y)), sharp).1 == ")" + y
  {
    var x, z := Bare(e) + (")" + y), ")" + y;
    CloseStops(y, sharp);
    BareReadsAtFive(e, z, sharp);
    SwallowedReads(l, x, sharp);
    LevelsEndBehind(e, 0, Swallowed(l, x), Binary(BitAnd, l, High(e, 0, 5, Unit(e, 0))), z, sharp);
    ClosingEnds(Swallowed(l, x), y, sharp);
  }

  lemma BareReadsAtFive(e: Expr, z: string, sharp: bool)
    requires Printable(e) && z != [] && z[0] == ')' && Clean(0, z, sharp)
    ensures ParseLevel(5, Bare(e) + z, sharp) == (High(e, 0, 5, Unit(e, 0)), Low(e, 0, 5) + z)
  {
    PrintSplits(e, 0);
    ChainEndsAt(e, 0, z);
    Associates(Print(Unit(e, 0), 10), ChainText(e, 0), z);
    PrintReads(Unit(e, 0), 10, ChainText(e, 0) + z, sharp);
    HighReads(e, 0, 5, Bare(e) + z, Unit(e, 0), z, sharp);
  }

  lemma ClosingEnds(s: string, y: string, sharp: bool)
    requires ParseLevel(0, s, sharp).1 == "" + (")" + y)
    ensures ParseExpr(s, sharp).1 == ")" + y
  {
    assert "" + (")" + y) == ")" + y;
    CloseStops(y, sharp);
  }

  // -------------------------------------------------------------------
  // Numbers
  // -------------------------------------------------------------------

  ghost predicate AllDigits(s: string) {
    forall i :: 0 <= i < |s| ==> Digit(s[i])
  }

  /** The value of a string of digits, built from the left. */
  function Fold(base: nat, s: string, v: nat): (r: nat)
    requires AllDigits(s)
    decreases |s|
  {
    if s == [] then v else Fold(base, s[1..], v * base + DigitValue(s[0]))
  }

  lemma {:induction false} FoldOneMore(base: nat, s: string, d: char, v: nat)
    requires AllDigits(s) && Digit(d)
    ensures Fold(base, s + [d], v) == Fold(base, s, v) * base + DigitValue(d)
    decreases |s|
  {
    if s == [] {
      assert s + [d] == [d] && [d][1..] == [];
    } else {
      assert (s + [d])[1..] == s[1..] + [d];
      FoldOneMore(base, s[1..], d, v * base + DigitValue(s[0]));
    }
  }

  /** Digits read in base eight give no more than in base ten. */
  lemma {:induction false} OctalIsLess(s: string, v: nat, w: nat)
    requires AllDigits(s) && v <= w
    ensures Fold(8, s, v) <= Fold(10, s, w)
    decreases |s|
  {
    if s != [] {
      OctalIsLess(s[1..], v * 8 + DigitValue(s[0]), w * 10 + DigitValue(s[0]));
    }
  }

  lemma {:induction false} FoldGrows(base: nat, s: string, v: nat)
    requires AllDigits(s) && base >= 1
    ensures Fold(base, s, v) >= v
    decreases |s|
  {
    if s != [] {
      assert v * base >= v;
      FoldGrows(base, s[1..], v * base + DigitValue(s[0]));
    }
  }

  /** The digit loop computes that value, as long as it fits. */
  lemma {:induction false} DigitsFold(base: nat, s: string, v: nat, rest: string)
    requires AllDigits(s) && Ends(rest) && base >= 1 && Fold(base, s, v) < 0x8000_0000
    ensures Digits(base, s + rest, v) == (Fold(base, s, v), rest)
    decreases |s|
  {
    var t := s + rest;
    if s == [] {
      assert t == rest;
    } else {
      assert t[0] == s[0] && t[1..] == s[1..] + rest;
      var v' := v * base + DigitValue(s[0]);
      FoldGrows(base, s[1..], v');
      assert Wrap(v') == v';
      DigitsFold(base, s[1..], v', rest);
    }
  }

  /** The digits of a number without the first come to less than the number. */
  lemma {:induction false} TailIsLess(v: nat)
    requires v >= 10
    ensures |Decimal(v)| > 1 && AllDigits(Decimal(v)[1..]) && Fold(10, Decimal(v)[1..], 0) < v
  {
    DecimalDigits(v);
    DecimalDigits(v / 10);
    var d := '0' + (v % 10) as char;
    assert DigitValue(d) == v % 10;
    if v < 100 {
      assert Decimal(v)[1..] == [d] && [d][1..] == [];
    } else {
      TailIsLess(v / 10);
      assert Decimal(v)[1..] == Decimal(v / 10)[1..] + [d];
      FoldOneMore(10, Decimal(v / 10)[1..], d, 0);
    }
  }

  /** A number that lost its first digit is read as a smaller one. */
  lemma ShortNumber(v: nat, rest: string)
    requires 10 <= v < 0x8000_0000 && Ends(rest)
    ensures var s := Decimal(v)[1..] + rest;
            s != [] && Digit(s[0]) && Number(s).0 < v && Number(s).1 == rest
  {
    var t := Decimal(v)[1..];
    var s := t + rest;
    TailIsLess(v);
    assert s[0] == t[0] && s[1..] == t[1..] + rest;
    if t[0] == '0' {
      assert Fold(10, t, 0) == Fold(10, t[1..], 0);
      OctalIsLess(t[1..], 0, 0);
      NoHexMark(t, rest);
      DigitsFold(8, t[1..], 0, rest);
    } else {
      DigitsFold(10, t[1..], DigitValue(t[0]), rest);
    }
  }

  lemma NoHexMark(t: string, rest: string)
    requires t != [] && AllDigits(t) && Ends(rest)
    ensures var s := t + rest; |s| > 1 ==> s[1] != 'x' && s[1] != 'X'
  {
    var s := t + rest;
    if |s| > 1 {
      assert s[1] == if |t| > 1 then t[1] else rest[0];
    }
  }

  lemma DigitLost(l: Expr, r: Expr, c: char, rest: string, sharp: bool)
    requires Printable(l) && Printable(r) && Terminator(c) && Unit(r, 5).Num? && Unit(r, 5).v >= 10
    ensures var x := Decimal(Unit(r, 5).v)[1..] + (ChainText(r, 5) + ([c] + rest));
            ParseExpr(Swallowed(l, x), sharp).0 != Binary(BitAnd, l, r)
  {
    var v, y := Unit(r, 5).v, ChainText(r, 5) + ([c] + rest);
    var x := Decimal(v)[1..] + y;
    ChainEndsAt(r, 5, [c] + rest);
    ShortNumber(v, y);
    VisibleStays(x, sharp);
    UnaryIsPrimary(x, sharp);
    OtherUnit(l, r, Num(Number(x).0), x, c, rest, sharp);
  }

  // -------------------------------------------------------------------
  // A number of one digit is lost altogether
  // -------------------------------------------------------------------

  lemma {:induction false} RestKeepsLeft(j: nat, l: Expr, s: string, sharp: bool)
    requires j <= 9
    ensures var e := ParseRest(j, l, s, sharp).0;
            LeftLeaf(e) == LeftLeaf(l) && (l.Binary? ==> e.Binary? && LeftOp(e) == LeftOp(l))
    decreases |s|
  {
    var t := Skip(s, sharp);
    match OperatorAt(j, t)
    case None =>
    case Some((op, n)) =>
      var (r, u) := ParseLevel(j + 1, t[n..], sharp);
      RestKeepsLeft(j, Binary(op, l, r), u, sharp);
  }

  /** Some level from `j` up takes `op` at the front of `s`. */
  ghost predicate Taken(j: nat, s: string, op: Op) {
    exists k :: j <= k <= 9 && OperatorAt(k, s).Some? && OperatorAt(k, s).value.0 == op
  }

  /** The leftmost leaf is the first operand read, and the operator next to it the first one taken behind it. */
  lemma {:induction false} LevelKeepsLeft(j: nat, s: string, sharp: bool)
    requires j <= 10 && !ParseUnary(s, sharp).0.Binary?
    ensures var (u, t), (e, t') := ParseUnary(s, sharp), ParseLevel(j, s, sharp);
            && LeftLeaf(e) == u
            && (if e.Binary? then Taken(j, Skip(t, sharp), LeftOp(e)) else Skip(t', sharp) == Skip(t, sharp))
    decreases 10 - j
  {
    if j < 10 {
      LevelKeepsLeft(j + 1, s, sharp);
      var (e, t) := ParseLevel(j + 1, s, sharp);
      RestKeepsLeft(j, e, t, sharp);
      if !e.Binary? {
        FirstTaken(j, e, t, sharp);
      }
    }
  }

  lemma FirstTaken(j: nat, u: Expr, t: string, sharp: bool)
    requires j <= 9 && !u.Binary?
    ensures var (e, t') := ParseRest(j, u, t, sharp);
            if e.Binary? then Taken(j, Skip(t, sharp), LeftOp(e)) else Skip(t', sharp) == Skip(t, sharp)
  {
    SkipTwice(t, sharp);
    match OperatorAt(j, Skip(t, sharp))
    case None =>
    case Some((op, n)) =>
      var (r, v) := ParseLevel(j + 1, Skip(t, sharp)[n..], sharp);
      RestKeepsLeft(j, Binary(op, u, r), v, sharp);
  }

  /** The characters an operand can begin with. */
  predicate OperandStart(c: char) {
    Digit(c) || c == '(' || c == 'd' || UnaryOp(c)
  }

  lemma {:induction false} PrintStart(e: Expr, j: nat)
    requires Printable(e) && j <= 10
    ensures Print(e, j) != [] && OperandStart(Print(e, j)[0])
    decreases e
  {
    match e
    case Num(v) => DecimalDigits(v);
    case Defined(name) =>
    case Unary(c, e') =>
    case Binary(op, l, r) => PrintStart(l, Level(op));
  }

  lemma {:induction false} UnitIsLeft(e: Expr, j: nat)
    requires Printable(e) && !Unit(e, j).Binary?
    ensures LeftLeaf(e) == Unit(e, j) && (e.Binary? ==> Spread(e, j))
  {
    if Spread(e, j) {
      UnitIsLeft(e.l, Level(e.op));
    }
  }

  /** The chain begins with the operator next to the leftmost leaf and its operand. */
  lemma {:induction false} ChainFront(e: Expr, j: nat, z: string) returns (y: string)
    requires Printable(e) && Spread(e, j) && !Unit(e, j).Binary?
    ensures ChainText(e, j) + z == OpText(LeftOp(e)) + (" " + y)
    ensures y != [] && OperandStart(y[0]) && LeftOp(e) != Comma && Level(LeftOp(e)) >= j
    decreases e
  {
    var lev := Level(e.op);
    if Spread(e.l, lev) {
      y := ChainFront(e.l, lev, RightText(e) + z);
      Associates(ChainText(e.l, lev), RightText(e), z);
    } else {
      y := Print(e.r, lev + 1) + z;
      PrintStart(e.r, lev + 1);
      ChainUnfolds(e, j, z);
      assert "" + (OpText(e.op) + (" " + y)) == OpText(e.op) + (" " + y);
    }
  }

  /** Read as an operand, the operator is a unary one or is taken for a number that is missing. */
  lemma OperatorAsOperand(op: Op, y: string, sharp: bool)
    requires op != Comma && 5 <= Level(op)
    ensures var s := OpText(op) + (" " + y);
            if op == Sub || op == Neq then ParseUnary(s, sharp).0.Unary?
            else ParseUnary(s, sharp) == (Num(0), s[1..])
  {
    var s := OpText(op) + (" " + y);
    OperatorStops(op, y, sharp);
    assert s[0] == OpText(op)[0];
  }

  /** Behind its first character the operator is not found again. */
  lemma OperatorNotTaken(op: Op, y: string, sharp: bool)
    requires op != Comma && 5 <= Level(op) && op != Sub && op != Neq && y != [] && OperandStart(y[0])
    ensures !Taken(5, Skip((OpText(op) + (" " + y))[1..], sharp), op)
  {
    var s := OpText(op) + (" " + y);
    if |OpText(op)| == 1 {
      assert s[1..] == " " + y && (" " + y)[1..] == y;
      VisibleStays(y, sharp);
    } else {
      var t := s[1..];
      assert t[0] == OpText(op)[1] && t[1] == ' ';
      VisibleStays(t, sharp);
    }
  }

  lemma OperandLost(l: Expr, r: Expr, c: char, rest: string, sharp: bool)
    requires Printable(l) && Printable(r) && Terminator(c) && Unit(r, 5).Num? && Spread(r, 5)
    ensures ParseExpr(Swallowed(l, ChainText(r, 5) + ([c] + rest)), sharp).0 != Binary(BitAnd, l, r)
  {
    var x := ChainText(r, 5) + ([c] + rest);
    var y := ChainFront(r, 5, [c] + rest);
    var op := LeftOp(r);
    UnitIsLeft(r, 5);
    OperatorAsOperand(op, y, sharp);
    LevelKeepsLeft(5, x, sharp);
    if op != Sub && op != Neq {
      OperatorNotTaken(op, y, sharp);
    }
    WrongOperand(l, r, x, sharp);
  }

  lemma UnaryConsumes(s: string, sharp: bool)
    requires s != []
    ensures |ParseUnary(s, sharp).1| < |s|
  {
  }

  lemma {:induction false} LevelConsumes(j: nat, s: string, sharp: bool)
    requires j <= 10 && s != []
    ensures |ParseLevel(j, s, sharp).1| < |s|
    decreases 10 - j
  {
    if j == 10 {
      UnaryConsumes(s, sharp);
    } else {
      LevelConsumes(j + 1, s, sharp);
    }
  }

  // -------------------------------------------------------------------
  // The theorem
  // -------------------------------------------------------------------

  lemma TailJoined(a: string, b: string, c: string)
    requires a != []
    ensures (a + b)[1..] + c == a[1..] + (b + c)
  {
  }

  lemma DefinedTail(name: string, y: string)
    ensures ("defined(" + name + ")")[1..] + y == "efined" + ("(" + (name + (")" + y)))
  {
  }

  lemma ParenthesisTail(s: string, y: string)
    ensures ("(" + (s + ")"))[1..] + y == s + (")" + y)
  {
  }

  lemma LongerRest(a: string, y: string, b: string, z: string)
    requires a != []
    ensures a + (y + (b + z)) != z
  {
  }

  /** A right operand that lost its first character is never read back. */
  lemma FirstCharacterMatters(l: Expr, r: Expr, c: char, rest: string, sharp: bool)
    requires Printable(l) && Printable(r) && Terminator(c) && Print(r, 5) != []
    ensures ParseExpr(Swallowed(l, Print(r, 5)[1..] + ([c] + rest)), sharp) != (Binary(BitAnd, l, r), [c] + rest)
  {
    var u, y := Unit(r, 5), ChainText(r, 5) + ([c] + rest);
    PrintSplits(r, 5);
    PrintStart(u, 10);
    TailJoined(Print(u, 10), ChainText(r, 5), [c] + rest);
    match u
    case Num(v) => NumberLost(l, r, c, rest, sharp);
    case Defined(name) =>
      DefinedTail(name, y);
      DefinedLost(l, name, y, sharp);
      LongerRest(name, ")", ChainText(r, 5), [c] + rest);
    case Unary(op, e) =>
      assert Print(u, 10)[1..] == Print(e, 10);
      UnaryLost(l, r, c, rest, sharp);
    case Binary(op, _, _) =>
      ParenthesisTail(Bare(u), y);
      ParenthesisLost(l, u, y, sharp);
      LongerRest(")", "", ChainText(r, 5), [c] + rest);
      assert "" + y == y;
  }

  lemma NumberLost(l: Expr, r: Expr, c: char, rest: string, sharp: bool)
    requires Printable(l) && Printable(r) && Terminator(c) && Unit(r, 5).Num? && Print(Unit(r, 5), 10) != []
    ensures var x := Print(Unit(r, 5), 10)[1..] + (ChainText(r, 5) + ([c] + rest));
            ParseExpr(Swallowed(l, x), sharp) != (Binary(BitAnd, l, r), [c] + rest)
  {
    var v, z := Unit(r, 5).v, [c] + rest;
    if v >= 10 {
      DigitLost(l, r, c, rest, sharp);
    } else {
      assert Decimal(v)[1..] + (ChainText(r, 5) + z) == ChainText(r, 5) + z;
      if Spread(r, 5) {
        OperandLost(l, r, c, rest, sharp);
      } else {
        assert ChainText(r, 5) + z == z;
        LevelConsumes(5, z, sharp);
        ReadTooFar(l, z, |z|, sharp);
      }
    }
  }

  /**
   Between an `&` and its right operand there must be something to swallow: the printed expression is read back,
   tree and end, exactly when a blank stands there.
   */
  lemma AmpersandExact(l: Expr, r: Expr, sep: string, c: char, rest: string, sharp: bool)
    requires Printable(l) && Printable(r) && Terminator(c) && (sep == "" || sep == " ")
    ensures ParseExpr(Print(l, 4) + ("&" + (sep + (Print(r, 5) + ([c] + rest)))), sharp)
            == (Binary(BitAnd, l, r), [c] + rest)
            <==> sep == " "
  {
    var p, z := Print(r, 5), [c] + rest;
    if sep == " " {
      var e := Binary(BitAnd, l, r);
      RegroupBinary(Print(l, 4), "&", p, z);
      assert Print(e, 0) + z == Print(l, 4) + ("&" + (" " + (p + z)));
      ExprReads(e, c, rest, sharp);
    } else {
      PrintStart(r, 5);
      assert "" + (p + z) == [p[0]] + (p[1..] + z);
      AmpersandReads(l, p[0], p[1..] + z, sharp);
      FirstCharacterMatters(l, r, c, rest, sharp);
    }
  }
}
