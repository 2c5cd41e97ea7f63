/** The operators as a condition spells them: what each computes, and how they bind. */
module CppOperators {
  import opened Bytes
  import opened CppExpr
  import opened CppExprPrint
  import opened CppEval
  import opened CppArithmetic

  // -------------------------------------------------------------------
  // What they compute
  // -------------------------------------------------------------------

  const OPERATORS: seq<string> :=
    ["+", "-", "*", "/", "%", "<<", ">>", "<", ">", "<=", ">=", "==", "!=", "&&", "||", "&", "^", "|"]

  /** The value of `x`, the operator so spelled, `y`, for ints that are not negative. */
  ghost predicate Means(text: string, x: nat, y: nat, v: Option<int>) {
    if text == "+" then v.Some? && Wrapped(v.value, x + y)
    else if text == "-" then v == Some(x - y)
    else if text == "*" then v.Some? && Wrapped(v.value, x * y)
    else if text == "/" then v == if y == 0 then None else Some(x / y)
    else if text == "%" then v == if y == 0 then None else Some(x % y)
    else if text == "<<" then if y < 32 then v.Some? && Wrapped(v.value, x * PowerOfTwo(y)) else v == None
    else if text == ">>" then v == if y < 32 then Some(x / PowerOfTwo(y)) else None
    else if text == "<" then v == Some(if x < y then 1 else 0)
    else if text == ">" then v == Some(if x > y then 1 else 0)
    else if text == "<=" then v == Some(if x <= y then 1 else 0)
    else if text == ">=" then v == Some(if x >= y then 1 else 0)
    else if text == "==" then v == Some(if x == y then 1 else 0)
    else if text == "!=" then v == Some(if x != y then 1 else 0)
    else if text == "&&" then v == Some(if x != 0 && y != 0 then 1 else 0)
    else if text == "||" then v == Some(if x != 0 || y != 0 then 1 else 0)
    else if text == "&" then
      v.Some? && v.value >= 0 && forall i :: 0 <= i < 31 ==> (BitOf(v.value, i) <==> BitOf(x, i) && BitOf(y, i))
    else if text == "^" then
      v.Some? && v.value >= 0 && forall i :: 0 <= i < 31 ==> (BitOf(v.value, i) <==> BitOf(x, i) != BitOf(y, i))
    else
      v.Some? && v.value >= 0 && forall i :: 0 <= i < 31 ==> (BitOf(v.value, i) <==> BitOf(x, i) || BitOf(y, i))
  }

  lemma BitMeans(op: Op, x: nat, y: nat)
    requires op in {BitAnd, BitXor, BitOr} && x < 0x8000_0000 && y < 0x8000_0000
    ensures Means(OpText(op), x, y, Apply(op, x, y))
  {
    BitOperators(x, y);
  }

  lemma ApplyMeans(op: Op, x: nat, y: nat)
    requires op != Comma && x < 0x8000_0000 && y < 0x8000_0000
    ensures Means(OpText(op), x, y, Apply(op, x, y))
  {
    match op
    case Add => Sums(x, y);
    case Sub => Differences(x, y);
    case Mul => Products(x, y);
    case Lsh => LeftShift(x, y);
    case Rem => assert y != 0 ==> x - y * (x / y) == x % y;
    case BitAnd => BitMeans(op, x, y);
    case BitXor => BitMeans(op, x, y);
    case BitOr => BitMeans(op, x, y);
    case _ =>
  }

  lemma OperatorSpelled(text: string) returns (op: Op)
    requires text in OPERATORS
    ensures op != Comma && OpText(op) == text
  {
    op := if text == "+" then Add else if text == "-" then Sub else if text == "*" then Mul
          else if text == "/" then Div else if text == "%" then Rem else if text == "<<" then Lsh
          else if text == ">>" then Rsh else if text == "<" then Lt else if text == ">" then Gt
          else if text == "<=" then Leq else if text == ">=" then Geq else if text == "==" then Eql
          else if text == "!=" then Neq else if text == "&&" then And else if text == "||" then Or
          else if text == "&" then BitAnd else if text == "^" then BitXor else BitOr;
  }

  lemma Unparenthesized(e: Expr, j: nat)
    requires Printable(e) && j <= 10 && j <= Prec(e)
    ensures Print(e, j) == Bare(e)
  {
  }

  lemma BareBinary(op: Op, l: Expr, r: Expr)
    requires op != Comma && Printable(l) && Printable(r) && Level(op) <= Prec(l) && Level(op) < Prec(r)
    ensures Bare(Binary(op, l, r)) == Bare(l) + (OpText(op) + (" " + Bare(r)))
  {
    Unparenthesized(l, Level(op));
    Unparenthesized(r, Level(op) + 1);
  }

  lemma PrintedOperator(op: Op, l: Expr, r: Expr, z: string)
    requires op != Comma && Printable(l) && Printable(r) && Level(op) <= Prec(l) && Level(op) < Prec(r)
    ensures Print(Binary(op, l, r), 0) + z == Bare(l) + (OpText(op) + (" " + (Bare(r) + z)))
  {
    Unparenthesized(Binary(op, l, r), 0);
    BareBinary(op, l, r);
    RegroupBinary(Bare(l), OpText(op), Bare(r), z);
  }

  /** Two numbers with an operator between them, from the text to the value. */
  lemma OperatorOnText(text: string, x: nat, y: nat, rest: string, sharp: bool, defs: set<string>)
    requires text in OPERATORS && x < 0x8000_0000 && y < 0x8000_0000
    ensures var d := if sharp then '\n' else ')';
            var r := EvalExpr(Decimal(x) + (text + (" " + (Decimal(y) + ([d] + rest)))), sharp, defs);
            r.1 == rest && Means(text, x, y, r.0)
  {
    var d := if sharp then '\n' else ')';
    var op := OperatorSpelled(text);
    assert Printable(Num(x)) && Printable(Num(y));
    PrintedOperator(op, Num(x), Num(y), [d] + rest);
    EvalPrinted(Binary(op, Num(x), Num(y)), rest, sharp, defs);
    ApplyMeans(op, x, y);
  }

  // -------------------------------------------------------------------
  // How they bind
  // -------------------------------------------------------------------

  /** The operators from the weakest to the strongest, as C groups them. */
  const GROUPS: seq<seq<Op>> :=
    [[Or], [And], [BitOr], [BitXor], [BitAnd], [Eql, Neq], [Lt, Gt, Leq, Geq], [Lsh, Rsh], [Add, Sub], [Mul, Div, Rem]]

  lemma GroupIsLevel(i: nat, op: Op)
    requires i < |GROUPS| && op in GROUPS[i]
    ensures op != Comma && Level(op) == i
  {
  }

  /** Two operators between three operands that need no parentheses. */
  function Flat(x: Expr, p: Op, y: Expr, q: Op, z: Expr, rest: string): (s: string)
    requires Printable(x) && Printable(y) && Printable(z)
  {
    Bare(x) + (OpText(p) + (" " + (Bare(y) + (OpText(q) + (" " + (Bare(z) + rest))))))
  }

  lemma RightPrints(x: Expr, p: Op, y: Expr, q: Op, z: Expr, rest: string)
    requires Printable(x) && Printable(y) && Printable(z) && !x.Binary? && !y.Binary? && !z.Binary?
    requires p != Comma && q != Comma && Level(p) < Level(q)
    ensures Print(Binary(p, x, Binary(q, y, z)), 0) + rest == Flat(x, p, y, q, z, rest)
  {
    PrintedOperator(p, x, Binary(q, y, z), rest);
    BareBinary(q, y, z);
    RegroupBinary(Bare(y), OpText(q), Bare(z), rest);
  }

  lemma LeftPrints(x: Expr, p: Op, y: Expr, q: Op, z: Expr, rest: string)
    requires Printable(x) && Printable(y) && Printable(z) && !x.Binary? && !y.Binary? && !z.Binary?
    requires p != Comma && q != Comma && Level(p) >= Level(q)
    ensures Print(Binary(q, Binary(p, x, y), z), 0) + rest == Flat(x, p, y, q, z, rest)
  {
    PrintedOperator(q, Binary(p, x, y), z, rest);
    BareBinary(p, x, y);
    RegroupBinary(Bare(x), OpText(p), Bare(y), OpText(q) + (" " + (Bare(z) + rest)));
  }

  /** Without parentheses the stronger operator binds first, and of two equally strong ones the left. */
  lemma Binding(p: Op, q: Op, i: nat, j: nat, x: Expr, y: Expr, z: Expr, c: char, rest: string, sharp: bool)
    requires i < |GROUPS| && p in GROUPS[i] && j < |GROUPS| && q in GROUPS[j]
    requires Printable(x) && Printable(y) && Printable(z) && !x.Binary? && !y.Binary? && !z.Binary? && Terminator(c)
    ensures ParseExpr(Flat(x, p, y, q, z, [c] + rest), sharp)
            == (if i < j then Binary(p, x, Binary(q, y, z)) else Binary(q, Binary(p, x, y), z), [c] + rest)
  {
    GroupIsLevel(i, p);
    GroupIsLevel(j, q);
    if i < j {
      RightPrints(x, p, y, q, z, [c] + rest);
      ExprReads(Binary(p, x, Binary(q, y, z)), c, rest, sharp);
    } else {
      LeftPrints(x, p, y, q, z, [c] + rest);
      ExprReads(Binary(q, Binary(p, x, y), z), c, rest, sharp);
    }
  }
}
