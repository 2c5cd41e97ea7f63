/** `if` and `elif` from their text: the condition is read, evaluated, and decides what is shown. */
module CppDirective {
  import opened Bytes
  import opened CppLexical
  import opened CppExpr
  import opened CppExprReader
  import opened CppEval
  import opened CppConditional
  import opened CppActuals

  /** What follows the line that is skipped, `last` being the character before: behind a backslash no line ends. */
  function PastLine(s: string, last: char): (t: string)
    ensures |t| <= |s|
    decreases |s|
  {
    if s == [] then [] else if s[0] == '\n' && last != '\\' then s[1..] else PastLine(s[1..], s[0])
  }

  /** Every line end in the text has a backslash before it. */
  predicate Joined(line: string, last: char) {
    line == [] || ((line[0] == '\n' ==> last == '\\') && Joined(line[1..], line[0]))
  }

  /** The line, with those joined to it, up to the first line end without a backslash. */
  lemma {:induction false} LineIsPassed(line: string, rest: string, last: char)
    requires Joined(line, last) && (if line == [] then last else line[|line| - 1]) != '\\'
    ensures PastLine(line + ("\n" + rest), last) == rest
    decreases |line|
  {
    var s := line + ("\n" + rest);
    if line == [] {
      assert s == "\n" + rest && s[1..] == rest;
    } else {
      assert s[0] == line[0] && s[1..] == line[1..] + ("\n" + rest);
      LineIsPassed(line[1..], rest, line[0]);
    }
  }

  /** The outcome of a directive's condition and what follows it; `None` when its evaluation has no result. */
  function Condition(s: string, sharp: bool, defs: set<string>): (r: Option<(Test, string)>) {
    var t := SkipSpace(s);
    if !sharp && First(t) != Some('(') then Some((NoParens, t))
    else
      match EvalExpr(if sharp then s else t[1..], sharp, defs)
      case (None, _) => None
      case (Some(v), rest) => Some((if v != 0 then Holds else Fails, rest))
  }

  /** The `@` form without its parenthesis has no condition. */
  lemma ParenthesisMissing(ws: string, t: string, defs: set<string>)
    requires (forall i :: 0 <= i < |ws| ==> Space(ws[i])) && (t == [] || (!Space(t[0]) && t[0] != '('))
    ensures Condition(ws + t, false, defs) == Some((NoParens, t))
  {
    SpacesSkipped(ws, t);
  }

  /** `eval_expr`: read the tree, pass the rest of the line or the parenthesis, evaluate. */
  method ReadCondition(s: string, sharp: bool, defs: set<string>) returns (value: Option<int>, rest: string)
    ensures (value, rest) == EvalExpr(s, sharp, defs)
  {
    var reader := new Reader(s, sharp);
    var e := reader.ReadExpr();
    rest := reader.chars;
    rest := if sharp then SkipHSpace(rest) else SkipSpace(rest);
    var d := if sharp then '\n' else ')';
    ghost var t := rest;
    while rest != [] && rest[0] != d
      invariant Past(rest, d) == Past(t, d)
      decreases |rest|
    {
      rest := rest[1..];
    }
    rest := if rest == [] then [] else rest[1..];
    value := Exec(e, defs);
  }

  method ReadTest(s: string, sharp: bool, defs: set<string>) returns (r: Option<(Test, string)>)
    ensures r == Condition(s, sharp, defs)
  {
    var t := SkipSpace(s);
    if !sharp && First(t) != Some('(') {
      return Some((NoParens, t));
    }
    var value, rest := ReadCondition(if sharp then s else t[1..], sharp, defs);
    r := if value.None? then None else Some((if value.value != 0 then Holds else Fails, rest));
  }

  /** `do_if` on the text behind the directive's name. */
  method IfDirective(pp: Preprocessor, s: string, sharp: bool, defs: set<string>) returns (ok: bool, rest: string)
    modifies pp
    ensures old(pp.Abs()).InFalseIf() ==>
              ok && pp.Abs() == Step(old(pp.Abs()), If(Fails)) && rest == if sharp then PastLine(s, '\0') else s
    ensures !old(pp.Abs()).InFalseIf() ==>
              match Condition(s, sharp, defs)
              case None => !ok && pp.Abs() == old(pp.Abs())
              case Some((test, t)) => ok && pp.Abs() == Step(old(pp.Abs()), If(test)) && rest == t
  {
    if pp.InFalseIf() {
      pp.DoIf(true, true, 0);
      return true, if sharp then PastLine(s, '\0') else s;
    }
    var r := ReadTest(s, sharp, defs);
    if r.None? {
      return false, s;
    }
    pp.Handle(If(r.value.0));
    return true, r.value.1;
  }

  /** `do_elif`; the condition is evaluated whenever the conditional itself is not skipped. */
  method ElifDirective(pp: Preprocessor, s: string, sharp: bool, defs: set<string>) returns (ok: bool, rest: string)
    modifies pp
    ensures old(pp.nSkippedIfs) > 0 ==>
              ok && pp.Abs() == Step(old(pp.Abs()), Elif(Fails)) && rest == if sharp then PastLine(s, '\0') else s
    ensures old(pp.nSkippedIfs) == 0 ==>
              match Condition(s, sharp, defs)
              case None => !ok && pp.Abs() == old(pp.Abs())
              case Some((test, t)) => ok && pp.Abs() == Step(old(pp.Abs()), Elif(test)) && rest == t
  {
    if pp.nSkippedIfs > 0 {
      pp.Handle(Elif(Fails));
      return true, if sharp then PastLine(s, '\0') else s;
    }
    var r := ReadTest(s, sharp, defs);
    if r.None? {
      return false, s;
    }
    pp.Handle(Elif(r.value.0));
    return true, r.value.1;
  }

  /** A condition written out decides as the expression means, and the line is used up. */
  lemma PrintedCondition(e: Expr, rest: string, defs: set<string>)
    requires Printable(e) && Untrapped(e, defs)
    ensures Value(e, defs).Some?
    ensures Condition(Print(e, 0) + ("\n" + rest), true, defs)
            == Some((if Value(e, defs) != Some(0) then Holds else Fails, rest))
  {
    PrintableIsCommaFree(e);
    ExecIsUntrapped(e, defs);
    ExecIsValue(e, defs);
    ConditionIsValue(e, rest, true, defs);
    assert ['\n'] + rest == "\n" + rest;
  }

  /** So does the form in parentheses. */
  lemma PrintedConditionInParentheses(e: Expr, rest: string, defs: set<string>)
    requires Printable(e) && Untrapped(e, defs)
    ensures Value(e, defs).Some?
    ensures Condition("(" + (Print(e, 0) + (")" + rest)), false, defs)
            == Some((if Value(e, defs) != Some(0) then Holds else Fails, rest))
  {
    PrintableIsCommaFree(e);
    ExecIsUntrapped(e, defs);
    ExecIsValue(e, defs);
    ConditionIsValue(e, rest, false, defs);
    assert [')'] + rest == ")" + rest;
    var s := "(" + (Print(e, 0) + (")" + rest));
    assert SkipSpace(s) == s && s[1..] == Print(e, 0) + (")" + rest);
  }
}
