/** Evaluating the preprocessor's expressions: `exec_free` against the meaning C gives them. */
module CppEval {
  import opened Bytes
  import opened CppLexical
  import opened CppExpr
  import opened CppExprPrint

  // -------------------------------------------------------------------
  // Operators on 32-bit ints
  // -------------------------------------------------------------------

  function Truth(b: bool): (v: int) {
    if b then 1 else 0
  }

  /** Division rounding toward zero. */
  function Quotient(l: int, r: int): (q: int)
    requires r != 0
  {
    if l >= 0 then l / r else -(-l / r)
  }

  predicate Int32(x: int) {
    -0x8000_0000 <= x < 0x8000_0000
  }

  /** One bit of a bitwise operator's result. */
  predicate BitResult(op: Op, a: bool, b: bool) {
    if op == BitAnd then a && b else if op == BitOr then a || b else a != b
  }

  /** A bitwise operator in two's complement: `n` bits one by one, then the sign. */
  function Bitwise(op: Op, x: int, y: int, n: nat): (v: int)
    decreases n
  {
    if n == 0 then -Truth(BitResult(op, x < 0, y < 0))
    else Truth(BitResult(op, x % 2 == 1, y % 2 == 1)) + 2 * Bitwise(op, x / 2, y / 2, n - 1)
  }

  /** Both operands at hand; `None` where C leaves the result undefined or the division traps. */
  function Apply(op: Op, l: int, r: int): (v: Option<int>) {
    match op
    case Mul => Some(Wrap(l * r))
    case Div => if r == 0 || (l == -0x8000_0000 && r == -1) then None else Some(Quotient(l, r))
    case Rem => if r == 0 || (l == -0x8000_0000 && r == -1) then None else Some(l - r * Quotient(l, r))
    case Add => Some(Wrap(l + r))
    case Sub => Some(Wrap(l - r))
    case Lsh => if 0 <= r < 32 then Some(Wrap(l * PowerOfTwo(r))) else None
    case Rsh => if 0 <= r < 32 then Some(l / PowerOfTwo(r)) else None
    case Lt => Some(Truth(l < r))
    case Gt => Some(Truth(l > r))
    case Leq => Some(Truth(l <= r))
    case Geq => Some(Truth(l >= r))
    case Eql => Some(Truth(l == r))
    case Neq => Some(Truth(l != r))
    case BitAnd => Some(Bitwise(op, l, r, 31))
    case BitXor => Some(Bitwise(op, l, r, 31))
    case BitOr => Some(Bitwise(op, l, r, 31))
    case And => Some(Truth(l != 0 && r != 0))
    case Or => Some(Truth(l != 0 || r != 0))
    case Comma => Some(0)
  }

  function ApplyUnary(c: char, x: int): (v: int) {
    if c == '-' then Wrap(0 - x) else if c == '!' then Truth(x == 0) else if c == '~' then -x - 1 else 0
  }

  // -------------------------------------------------------------------
  // The evaluator and the meaning
  // -------------------------------------------------------------------

  /** `exec_free`: both operands of every operator are evaluated; a comma node comes to 0. */
  function Exec(e: Expr, defs: set<string>): (v: Option<int>) {
    match e
    case Num(v) => Some(v)
    case Defined(name) => Some(Truth(name in defs))
    case Unary(c, e') =>
      var x := Exec(e', defs);
      if x.None? then None else Some(ApplyUnary(c, x.value))
    case Binary(op, l, r) =>
      if op == Comma then Some(0)
      else
        var x, y := Exec(l, defs), Exec(r, defs);
        if x.None? || y.None? then None else Apply(op, x.value, y.value)
  }

  /** The meaning in C: `&&` and `||` look at their right operand only when they must. */
  function Value(e: Expr, defs: set<string>): (v: Option<int>) {
    match e
    case Num(v) => Some(v)
    case Defined(name) => Some(Truth(name in defs))
    case Unary(c, e') =>
      var x := Value(e', defs);
      if x.None? then None else Some(ApplyUnary(c, x.value))
    case Binary(op, l, r) =>
      var x := Value(l, defs);
      if x.None? then None
      else if op == And && x.value == 0 then Some(0)
      else if op == Or && x.value != 0 then Some(1)
      else
        var y := Value(r, defs);
        if y.None? then None else if op == Comma then y else Apply(op, x.value, y.value)
  }

  ghost predicate CommaFree(e: Expr) {
    match e
    case Num(_) => true
    case Defined(_) => true
    case Unary(_, e') => CommaFree(e')
    case Binary(op, l, r) => op != Comma && CommaFree(l) && CommaFree(r)
  }

  /** What the evaluator computes is what the expression means. */
  lemma {:induction false} ExecIsValue(e: Expr, defs: set<string>)
    requires CommaFree(e) && Exec(e, defs).Some?
    ensures Value(e, defs) == Exec(e, defs)
  {
    match e
    case Num(_) =>
    case Defined(_) =>
    case Unary(_, e') => ExecIsValue(e', defs);
    case Binary(op, l, r) =>
      ExecIsValue(l, defs);
      ExecIsValue(r, defs);
      ShortCircuit(op, Value(l, defs).value, Value(r, defs).value);
  }

  lemma ShortCircuit(op: Op, x: int, y: int)
    ensures op == And && x == 0 ==> Apply(op, x, y) == Some(0)
    ensures op == Or && x != 0 ==> Apply(op, x, y) == Some(1)
  {
  }

  /** The operand values with which an operator has a result. */
  predicate Guard(op: Op, l: int, r: int) {
    match op
    case Div => r != 0 && !(l == -0x8000_0000 && r == -1)
    case Rem => r != 0 && !(l == -0x8000_0000 && r == -1)
    case Lsh => 0 <= r < 32
    case Rsh => 0 <= r < 32
    case _ => true
  }

  lemma ApplyIsGuarded(op: Op, l: int, r: int)
    ensures Apply(op, l, r).Some? <==> Guard(op, l, r)
  {
  }

  /**
   No division or shift anywhere in the expression has operands it is undefined for, not even in an operand
   the meaning leaves out.
   */
  ghost predicate Untrapped(e: Expr, defs: set<string>) {
    match e
    case Num(_) => true
    case Defined(_) => true
    case Unary(_, e') => Untrapped(e', defs)
    case Binary(op, l, r) =>
      && Untrapped(l, defs) && Untrapped(r, defs)
      && Value(l, defs).Some? && Value(r, defs).Some? && Guard(op, Value(l, defs).value, Value(r, defs).value)
  }

  /** The evaluator has a result exactly for expressions no operator of which is undefined. */
  lemma {:induction false} ExecIsUntrapped(e: Expr, defs: set<string>)
    requires CommaFree(e)
    ensures Exec(e, defs).Some? <==> Untrapped(e, defs)
  {
    match e
    case Num(_) =>
    case Defined(_) =>
    case Unary(_, e') => ExecIsUntrapped(e', defs);
    case Binary(op, l, r) =>
      ExecIsUntrapped(l, defs);
      ExecIsUntrapped(r, defs);
      if Exec(l, defs).Some? && Exec(r, defs).Some? {
        ExecIsValue(l, defs);
        ExecIsValue(r, defs);
        ApplyIsGuarded(op, Exec(l, defs).value, Exec(r, defs).value);
      }
  }

  /** It computes the meaning exactly of those, and of expressions that have none. */
  lemma ExecReachesValue(e: Expr, defs: set<string>)
    requires CommaFree(e)
    ensures Exec(e, defs) == Value(e, defs) <==> Untrapped(e, defs) || Value(e, defs).None?
  {
    ExecIsUntrapped(e, defs);
    if Exec(e, defs).Some? {
      ExecIsValue(e, defs);
    }
  }

  /** `0&&1/0` has the value 0, but the evaluator divides by zero. */
  lemma SkippedDivision(defs: set<string>)
    ensures var e := Binary(And, Num(0), Binary(Div, Num(1), Num(0)));
            Value(e, defs) == Some(0) && Exec(e, defs) == None
  {
  }

  /** The expression with every comma expression in it replaced by 0. */
  function Zeroed(e: Expr): (e': Expr) {
    match e
    case Num(_) => e
    case Defined(_) => e
    case Unary(c, e1) => Unary(c, Zeroed(e1))
    case Binary(op, l, r) => if op == Comma then Num(0) else Binary(op, Zeroed(l), Zeroed(r))
  }

  lemma {:induction false} ExecZeroesCommas(e: Expr, defs: set<string>)
    ensures CommaFree(Zeroed(e)) && Exec(e, defs) == Exec(Zeroed(e), defs)
  {
    match e
    case Num(_) =>
    case Defined(_) =>
    case Unary(_, e1) => ExecZeroesCommas(e1, defs);
    case Binary(_, l, r) =>
      ExecZeroesCommas(l, defs);
      ExecZeroesCommas(r, defs);
  }

  /** What the evaluator makes of any expression, wherever commas stand in it: the meaning with 0 in their place. */
  lemma ExecOfAnyTree(e: Expr, defs: set<string>)
    ensures Exec(e, defs) == if Untrapped(Zeroed(e), defs) then Value(Zeroed(e), defs) else None
  {
    ExecZeroesCommas(e, defs);
    ExecIsUntrapped(Zeroed(e), defs);
    ExecReachesValue(Zeroed(e), defs);
  }

  // -------------------------------------------------------------------
  // A directive's condition
  // -------------------------------------------------------------------

  function SkipHSpace(s: string): (t: string)
    ensures |t| <= |s|
  {
    if s != [] && HSpace(s[0]) then SkipHSpace(s[1..]) else s
  }

  /** What follows the first `d`. */
  function Past(s: string, d: char): (t: string)
    ensures |t| <= |s|
  {
    if s == [] then [] else if s[0] == d then s[1..] else Past(s[1..], d)
  }

  /** `eval_expr`: the condition's value and what follows the line, or the parenthesis, it ends with. */
  function EvalExpr(s: string, sharp: bool, defs: set<string>): (r: (Option<int>, string)) {
    var (e, t) := ParseExpr(s, sharp);
    var u := if sharp then SkipHSpace(t) else SkipSpace(t);
    (Exec(e, defs), Past(u, if sharp then '\n' else ')'))
  }

  /** The condition of a printed directive is the value of the tree it was printed from. */
  lemma EvalPrinted(e: Expr, rest: string, sharp: bool, defs: set<string>)
    requires Printable(e)
    ensures var d := if sharp then '\n' else ')';
            EvalExpr(Print(e, 0) + ([d] + rest), sharp, defs) == (Exec(e, defs), rest)
  {
    var d := if sharp then '\n' else ')';
    ExprReads(e, d, rest, sharp);
    assert ([d] + rest)[1..] == rest;
  }

  lemma {:induction false} JunkPassed(junk: string, d: char, rest: string)
    requires d !in junk
    ensures Past(junk + ([d] + rest), d) == rest
    decreases |junk|
  {
    var s := junk + ([d] + rest);
    if junk == [] {
      assert s == [d] + rest && s[1..] == rest;
    } else {
      assert s[0] == junk[0] && s[1..] == junk[1..] + ([d] + rest);
      JunkPassed(junk[1..], d, rest);
    }
  }

  lemma {:induction false} BlanksPassed(s: string, d: char)
    ensures !HSpace(d) ==> Past(SkipHSpace(s), d) == Past(s, d)
    ensures !Space(d) ==> Past(SkipSpace(s), d) == Past(s, d)
    decreases |s|
  {
    if s != [] {
      BlanksPassed(s[1..], d);
    }
  }

  /** A character that begins no operator, and no blank, comment, joined line, word or number either. */
  predicate Foreign(c: char) {
    Visible(c) && !SymChar(c) && c !in "*/%+-<>=!&^|,)\n"
  }

  lemma ForeignStops(c: char, x: string, sharp: bool)
    requires Foreign(c)
    ensures Stops(0, [c] + x, sharp) && Skip([c] + x, sharp) == [c] + x
  {
    VisibleStays([c] + x, sharp);
  }

  /** Whatever stands behind the expression is passed, up to the end of the line or the parenthesis. */
  lemma JunkIsPassed(e: Expr, c: char, junk: string, rest: string, sharp: bool, defs: set<string>)
    requires Printable(e) && Foreign(c) && (if sharp then '\n' else ')') !in junk
    ensures var d := if sharp then '\n' else ')';
            EvalExpr(Print(e, 0) + ([c] + (junk + ([d] + rest))), sharp, defs) == (Exec(e, defs), rest)
  {
    var d := if sharp then '\n' else ')';
    var t := junk + ([d] + rest);
    ForeignStops(c, t, sharp);
    PrintReads(e, 0, [c] + t, sharp);
    RestStops(0, e, [c] + t, sharp);
    assert ([c] + t)[1..] == t;
    assert ParseExpr(Print(e, 0) + ([c] + t), sharp) == (e, t);
    BlanksPassed(t, d);
    JunkPassed(junk, d, rest);
  }

  lemma {:induction false} PrintableIsCommaFree(e: Expr)
    requires Printable(e)
    ensures CommaFree(e)
  {
    match e
    case Num(_) =>
    case Defined(_) =>
    case Unary(_, e') => PrintableIsCommaFree(e');
    case Binary(_, l, r) =>
      PrintableIsCommaFree(l);
      PrintableIsCommaFree(r);
  }

  /** From text to value: the condition comes to what the expression means exactly when nothing in it is undefined. */
  lemma ConditionIsValue(e: Expr, rest: string, sharp: bool, defs: set<string>)
    requires Printable(e)
    ensures var d := if sharp then '\n' else ')';
            EvalExpr(Print(e, 0) + ([d] + rest), sharp, defs) == (Value(e, defs), rest)
            <==> Untrapped(e, defs) || Value(e, defs).None?
  {
    EvalPrinted(e, rest, sharp, defs);
    PrintableIsCommaFree(e);
    ExecReachesValue(e, defs);
  }
}
