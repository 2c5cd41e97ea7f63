/** Comma expressions: read as a chain, evaluated to 0. */
module CppComma {
  import opened Bytes
  import opened Sequences
  import opened CppLexical
  import opened CppExpr
  import opened CppExprPrint
  import opened CppEval

  /** The tree of `e` followed by the operands `es`, each behind a comma. */
  function Chain(e: Expr, es: seq<Expr>): (r: Expr)
    decreases |es|
  {
    if es == [] then e else Chain(Binary(Comma, e, es[0]), es[1..])
  }

  ghost predicate AllPrintable(es: seq<Expr>) {
    forall i :: 0 <= i < |es| ==> Printable(es[i])
  }

  function CommaText(es: seq<Expr>): (s: string)
    requires AllPrintable(es)
  {
    if es == [] then "" else "," + (Print(es[0], 0) + CommaText(es[1..]))
  }

  lemma CommaOrEndStops(c: char, rest: string, sharp: bool)
    requires c == ',' || Terminator(c)
    ensures Skip([c] + rest, sharp) == [c] + rest && Stops(0, [c] + rest, sharp)
  {
    VisibleStays([c] + rest, sharp);
  }

  lemma OperandBehindComma(acc: Expr, e: Expr, c: char, y: string, sharp: bool)
    requires Printable(e) && (c == ',' || Terminator(c))
    ensures ParseCommas(acc, "," + (Print(e, 0) + ([c] + y)), sharp)
            == ParseCommas(Binary(Comma, acc, e), [c] + y, sharp)
  {
    var s := "," + (Print(e, 0) + ([c] + y));
    VisibleStays(s, sharp);
    assert s[1..] == Print(e, 0) + ([c] + y);
    CommaOrEndStops(c, y, sharp);
    PrintReads(e, 0, [c] + y, sharp);
    RestStops(0, e, [c] + y, sharp);
  }

  lemma CommaTextUnfolds(es: seq<Expr>, z: string)
    requires AllPrintable(es) && es != []
    ensures CommaText(es) + z == "," + (Print(es[0], 0) + (CommaText(es[1..]) + z))
  {
    Regroup(",", Print(es[0], 0), CommaText(es[1..]), z);
  }

  /** What follows an operand: another comma, or the end. */
  lemma CommaTextFront(es: seq<Expr>, c: char, rest: string)
    requires AllPrintable(es)
    ensures var y := CommaText(es) + ([c] + rest); y == [if es == [] then c else ','] + y[1..]
  {
    if es != [] {
      CommaTextUnfolds(es, [c] + rest);
    }
  }

  /** The operands are taken one by one, up to the character that ends the expression. */
  lemma {:induction false} CommasRead(acc: Expr, es: seq<Expr>, c: char, rest: string, sharp: bool)
    requires AllPrintable(es) && Terminator(c)
    ensures ParseCommas(acc, CommaText(es) + ([c] + rest), sharp) == (Chain(acc, es), [c] + rest)
    decreases |es|
  {
    if es == [] {
      assert CommaText(es) + ([c] + rest) == [c] + rest;
      CommaOrEndStops(c, rest, sharp);
    } else {
      var y := CommaText(es[1..]) + ([c] + rest);
      CommaTextUnfolds(es, [c] + rest);
      CommaTextFront(es[1..], c, rest);
      OperandBehindComma(acc, es[0], if es[1..] == [] then c else ',', y[1..], sharp);
      CommasRead(Binary(Comma, acc, es[0]), es[1..], c, rest, sharp);
    }
  }

  lemma ChainReads(e: Expr, es: seq<Expr>, c: char, rest: string, sharp: bool)
    requires Printable(e) && AllPrintable(es) && Terminator(c)
    ensures ParseExpr(Print(e, 0) + (CommaText(es) + ([c] + rest)), sharp) == (Chain(e, es), [c] + rest)
  {
    var y := CommaText(es) + ([c] + rest);
    CommaTextFront(es, c, rest);
    CommaOrEndStops(if es == [] then c else ',', y[1..], sharp);
    PrintReads(e, 0, y, sharp);
    RestStops(0, e, y, sharp);
    CommasRead(e, es, c, rest, sharp);
  }

  lemma {:induction false} ChainIsComma(e: Expr, es: seq<Expr>)
    requires es != []
    ensures Chain(e, es).Binary? && Chain(e, es).op == Comma
    decreases |es|
  {
    if |es| > 1 {
      ChainIsComma(Binary(Comma, e, es[0]), es[1..]);
    }
  }

  ghost predicate AllDefined(es: seq<Expr>, defs: set<string>) {
    forall i :: 0 <= i < |es| ==> Value(es[i], defs).Some?
  }

  /** In C a comma expression has the value of its last operand, when all of them have one. */
  lemma {:induction false} ChainValue(e: Expr, es: seq<Expr>, defs: set<string>)
    requires es != []
    ensures Value(Chain(e, es), defs)
            == if Value(e, defs).Some? && AllDefined(es, defs) then Value(es[|es| - 1], defs) else None
    decreases |es|
  {
    var e' := Binary(Comma, e, es[0]);
    if |es| > 1 {
      ChainValue(e', es[1..], defs);
      assert es[1..][|es| - 2] == es[|es| - 1];
      assert AllDefined(es, defs) <==> Value(es[0], defs).Some? && AllDefined(es[1..], defs);
    }
  }

  /**
   A condition with commas in it comes to 0 whatever its operands are; that is its meaning exactly when all
   operands have a value and the last one is 0.
   */
  lemma CommaCondition(e: Expr, es: seq<Expr>, rest: string, sharp: bool, defs: set<string>)
    requires Printable(e) && AllPrintable(es) && es != []
    ensures var d := if sharp then '\n' else ')';
            var r := EvalExpr(Print(e, 0) + (CommaText(es) + ([d] + rest)), sharp, defs);
            && r == (Some(0), rest)
            && (r == (Value(Chain(e, es), defs), rest)
                <==> Value(e, defs).Some? && AllDefined(es, defs) && Value(es[|es| - 1], defs) == Some(0))
  {
    var d := if sharp then '\n' else ')';
    ChainReads(e, es, d, rest, sharp);
    ChainIsComma(e, es);
    ChainValue(e, es, defs);
    assert ([d] + rest)[1..] == rest;
  }

  /** The directive `#if 1,2` is taken as false, although its condition means 2. */
  lemma CommaExample(s: string, defs: set<string>)
    requires s == "1,2\n"
    ensures ParseExpr(s, true) == (Binary(Comma, Num(1), Num(2)), "\n")
    ensures EvalExpr(s, true, defs) == (Some(0), "")
    ensures Value(Binary(Comma, Num(1), Num(2)), defs) == Some(2)
  {
    var one, two := Num(1), Num(2);
    assert Print(one, 0) == "1" && CommaText([two]) == ",2" by {
      assert Print(two, 0) == "2" && [two][1..] == [] && "2" + "" == "2";
    }
    assert s == "1" + (",2" + (['\n'] + "")) && ['\n'] + "" == "\n";
    ChainReads(one, [two], '\n', "", true);
    assert Chain(one, [two]) == Binary(Comma, one, two) by {
      assert [two][1..] == [];
    }
    CommaCondition(one, [two], "", true, defs);
  }
}
