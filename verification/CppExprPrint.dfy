/** The parser inverts the printer. */
module CppExprPrint {
  import opened Bytes
  import opened CppLexical
  import opened CppExpr

  /** A number or identifier ends before `rest`. */
  predicate Ends(rest: string) {
    rest == [] || !SymChar(rest[0])
  }

  /** Nothing after this point belongs to the operators of level `j` and above. */
  ghost predicate Stops(j: nat, rest: string, sharp: bool) {
    Ends(rest) && forall k :: j <= k <= 9 ==> OperatorAt(k, Skip(rest, sharp)).None?
  }

  /** What reading an operand of level `j` comes to when the operand is `e` and `rest` follows. */
  function After(j: nat, e: Expr, rest: string, sharp: bool): (r: (Expr, string))
    requires j <= 10
  {
    if j == 10 then (e, rest) else ParseRest(j, e, rest, sharp)
  }

  // -------------------------------------------------------------------
  // Blanks
  // -------------------------------------------------------------------

  lemma RestAfterSkip(j: nat, e: Expr, rest: string, sharp: bool)
    requires j <= 9
    ensures ParseRest(j, e, Skip(rest, sharp), sharp) == ParseRest(j, e, rest, sharp)
  {
    SkipTwice(rest, sharp);
  }

  lemma RestStops(j: nat, e: Expr, rest: string, sharp: bool)
    requires j <= 9 && OperatorAt(j, Skip(rest, sharp)).None?
    ensures ParseRest(j, e, rest, sharp) == (e, Skip(rest, sharp))
  {
  }

  lemma AfterStops(j: nat, e: Expr, rest: string, sharp: bool)
    requires j <= 9 && Stops(j + 1, rest, sharp)
    ensures After(j + 1, e, rest, sharp) == (e, rest) || After(j + 1, e, rest, sharp) == (e, Skip(rest, sharp))
  {
    if j + 1 <= 9 {
      RestStops(j + 1, e, rest, sharp);
    }
  }

  /** Once the operand of the next level is read, this level goes on from there. */
  lemma LevelFromNext(j: nat, s: string, e: Expr, rest: string, sharp: bool)
    requires j <= 9 && Stops(j + 1, rest, sharp)
    requires ParseLevel(j + 1, s, sharp) == After(j + 1, e, rest, sharp)
    ensures ParseLevel(j, s, sharp) == ParseRest(j, e, rest, sharp)
  {
    AfterStops(j, e, rest, sharp);
    RestAfterSkip(j, e, rest, sharp);
  }

  lemma UnarySkips(s: string, sharp: bool)
    ensures ParseUnary(Skip(s, sharp), sharp) == ParseUnary(s, sharp)
  {
    SkipTwice(s, sharp);
  }

  lemma {:induction false} LevelSkips(j: nat, s: string, sharp: bool)
    requires j <= 10
    ensures ParseLevel(j, Skip(s, sharp), sharp) == ParseLevel(j, s, sharp)
    decreases 10 - j
  {
    if j == 10 {
      UnarySkips(s, sharp);
    } else {
      LevelSkips(j + 1, s, sharp);
    }
  }

  lemma BlankSkips(j: nat, s: string, sharp: bool)
    requires j <= 10
    ensures ParseLevel(j, " " + s, sharp) == ParseLevel(j, s, sharp)
  {
    assert (" " + s)[1..] == s;
    assert Skip(" " + s, sharp) == Skip(s, sharp);
    LevelSkips(j, " " + s, sharp);
    LevelSkips(j, s, sharp);
  }

  // -------------------------------------------------------------------
  // Operators
  // -------------------------------------------------------------------

  /** A printed operator is found by its own level, and by no level above. */
  lemma OperatorFound(op: Op, tail: string)
    requires op != Comma
    ensures var s := OpText(op) + (" " + tail);
            && OperatorAt(Level(op), s) == Some((op, if op == BitAnd then 2 else |OpText(op)|))
            && forall k :: Level(op) < k <= 9 ==> OperatorAt(k, s).None?
  {
    var s := OpText(op) + (" " + tail);
    assert s[0] == OpText(op)[0];
    assert s[1] == if |OpText(op)| == 1 then ' ' else OpText(op)[1];
  }

  lemma OperatorStops(op: Op, tail: string, sharp: bool)
    requires op != Comma
    ensures var s := OpText(op) + (" " + tail); Skip(s, sharp) == s && Stops(Level(op) + 1, s, sharp)
  {
    var s := OpText(op) + (" " + tail);
    OperatorFound(op, tail);
    assert s[0] == OpText(op)[0];
    assert s[1] == if |OpText(op)| == 1 then ' ' else OpText(op)[1];
  }

  lemma OperandFollows(op: Op, x: string, j: nat, sharp: bool)
    requires op != Comma && j <= 10
    ensures var s := OpText(op) + (" " + x);
            ParseLevel(j, s[if op == BitAnd then 2 else |OpText(op)|..], sharp) == ParseLevel(j, x, sharp)
  {
    var s := OpText(op) + (" " + x);
    if op == BitAnd {
      assert s[2..] == x;
    } else {
      assert s[|OpText(op)|..] == " " + x;
      BlankSkips(j, x, sharp);
    }
  }

  lemma RestUnfolds(j: nat, l: Expr, s: string, op: Op, n: nat, r: Expr, u: string, sharp: bool)
    requires j <= 9 && Skip(s, sharp) == s && OperatorAt(j, s) == Some((op, n))
    requires n <= |s| && ParseLevel(j + 1, s[n..], sharp) == (r, u)
    ensures ParseRest(j, l, s, sharp) == ParseRest(j, Binary(op, l, r), u, sharp)
  {
  }

  /** The operator and its right operand are taken; the level goes on behind them. */
  lemma RestTakes(op: Op, l: Expr, r: Expr, x: string, rest: string, sharp: bool)
    requires op != Comma && Stops(Level(op) + 1, rest, sharp)
    requires ParseLevel(Level(op) + 1, x, sharp) == After(Level(op) + 1, r, rest, sharp)
    ensures ParseRest(Level(op), l, OpText(op) + (" " + x), sharp)
            == ParseRest(Level(op), Binary(op, l, r), rest, sharp)
  {
    var j, s, n := Level(op), OpText(op) + (" " + x), if op == BitAnd then 2 else |OpText(op)|;
    OperatorStops(op, x, sharp);
    OperatorFound(op, x);
    OperandFollows(op, x, j + 1, sharp);
    AfterStops(j, r, rest, sharp);
    RestUnfolds(j, l, s, op, n, r, After(j + 1, r, rest, sharp).1, sharp);
    RestAfterSkip(j, Binary(op, l, r), rest, sharp);
  }

  // -------------------------------------------------------------------
  // Leaves
  // -------------------------------------------------------------------

  lemma {:induction false} DecimalDigits(v: nat)
    ensures |Decimal(v)| > 0 && forall i :: 0 <= i < |Decimal(v)| ==> Digit(Decimal(v)[i])
    ensures v > 0 ==> Decimal(v)[0] != '0'
  {
    if v >= 10 {
      DecimalDigits(v / 10);
    }
  }

  lemma DigitStep(d: nat, rest: string, v: nat)
    requires d < 10 && 10 * v + d < 0x8000_0000
    ensures Digits(10, ['0' + d as char] + rest, v) == Digits(10, rest, 10 * v + d)
  {
    var s := ['0' + d as char] + rest;
    assert s[1..] == rest;
    assert DigitValue(s[0]) == d;
    assert Wrap(v * 10 + d) == 10 * v + d;
  }

  lemma {:induction false} DecimalReads(v: nat, rest: string)
    requires v < 0x8000_0000
    ensures Digits(10, Decimal(v) + rest, 0) == Digits(10, rest, v)
  {
    var d := ['0' + (v % 10) as char];
    if v < 10 {
      DigitStep(v, rest, 0);
    } else {
      DecimalReads(v / 10, d + rest);
      DigitStep(v % 10, rest, v / 10);
      assert Decimal(v) + rest == Decimal(v / 10) + (d + rest);
    }
  }

  lemma NumberReads(v: nat, rest: string)
    requires v < 0x8000_0000 && Ends(rest)
    ensures var s := Decimal(v) + rest; s != [] && Digit(s[0]) && Number(s) == (v, rest)
  {
    var s := Decimal(v) + rest;
    DecimalDigits(v);
    assert s[0] == Decimal(v)[0];
    if v == 0 {
      assert Decimal(v) == "0" && s[1..] == rest;
    } else {
      DecimalReads(v, rest);
      assert Wrap(DigitValue(s[0])) == DigitValue(s[0]);
    }
  }

  /** A character that starts an operand and is not skipped. */
  predicate Visible(c: char) {
    !HSpace(c) && c != '/' && c != '\\'
  }

  lemma VisibleStays(s: string, sharp: bool)
    requires s != [] && Visible(s[0])
    ensures Skip(s, sharp) == s
  {
  }

  lemma UnaryIsPrimary(s: string, sharp: bool)
    requires s != [] && Visible(s[0]) && !UnaryOp(s[0]) && s[0] != 'd'
    ensures ParseUnary(s, sharp) == ParsePrimary(s, sharp)
  {
    VisibleStays(s, sharp);
  }

  lemma NumReads(v: nat, rest: string, sharp: bool)
    requires v < 0x8000_0000 && Ends(rest)
    ensures ParseUnary(Decimal(v) + rest, sharp) == (Num(v), rest)
  {
    var s := Decimal(v) + rest;
    NumberReads(v, rest);
    VisibleStays(s, sharp);
    UnaryIsPrimary(s, sharp);
  }

  lemma DefinedUnfolds(s: string, t: string, name: string, rest: string)
    requires |s| >= 7 && SymLength(s) == 7 && s[..7] == "defined" && s[7..] == "(" + t
    requires |name| <= |t| && SymLength(t) == |name| && t[..|name|] == name && t[|name|..] == ")" + rest
    requires Identifier(name)
    ensures DefinedAt(s) == Some((name, rest))
  {
    assert ("(" + t)[1..] == t && (")" + rest)[1..] == rest;
    assert t[0] == name[0];
  }

  lemma DefinedReads(name: string, rest: string)
    requires Identifier(name)
    ensures DefinedAt("defined(" + name + ")" + rest) == Some((name, rest))
  {
    var t := name + (")" + rest);
    var s := "defined" + ("(" + t);
    assert "defined(" + name + ")" + rest == s;
    SymLengthOf("defined", "(" + t);
    SymLengthOf(name, ")" + rest);
    DefinedUnfolds(s, t, name, rest);
  }

  lemma DefinedParses(name: string, rest: string, sharp: bool)
    requires Identifier(name)
    ensures ParseUnary("defined(" + name + ")" + rest, sharp) == (Defined(name), rest)
  {
    var s := "defined(" + name + ")" + rest;
    DefinedReads(name, rest);
    assert s[0] == 'd';
    VisibleStays(s, sharp);
  }

  lemma UnaryReads(c: char, e: Expr, x: string, rest: string, sharp: bool)
    requires UnaryOp(c) && ParseUnary(x, sharp) == (e, rest)
    ensures ParseUnary([c] + x, sharp) == (Unary(c, e), rest)
  {
    VisibleStays([c] + x, sharp);
    assert ([c] + x)[1..] == x;
  }

  lemma CloseStops(rest: string, sharp: bool)
    ensures Skip(")" + rest, sharp) == ")" + rest && Stops(0, ")" + rest, sharp)
  {
    VisibleStays(")" + rest, sharp);
  }

  lemma ParenExpr(e: Expr, x: string, rest: string, sharp: bool)
    requires ParseLevel(0, x, sharp) == ParseRest(0, e, ")" + rest, sharp)
    ensures ParseExpr(x, sharp) == (e, ")" + rest)
  {
    CloseStops(rest, sharp);
    RestStops(0, e, ")" + rest, sharp);
  }

  lemma PrimaryUnfolds(x: string, e: Expr, rest: string, sharp: bool)
    requires ParseExpr(x, sharp) == (e, ")" + rest)
    ensures ParsePrimary("(" + x, sharp) == (e, rest)
  {
    CloseStops(rest, sharp);
    VisibleStays("(" + x, sharp);
    assert ("(" + x)[1..] == x && (")" + rest)[1..] == rest;
  }

  lemma ParenReads(e: Expr, x: string, rest: string, sharp: bool)
    requires ParseLevel(0, x, sharp) == ParseRest(0, e, ")" + rest, sharp)
    ensures ParseUnary("(" + x, sharp) == (e, rest)
  {
    ParenExpr(e, x, rest, sharp);
    UnaryIsPrimary("(" + x, sharp);
    PrimaryUnfolds(x, e, rest, sharp);
  }

  // -------------------------------------------------------------------
  // The theorem
  // -------------------------------------------------------------------

  /** Reading a printed operand at any level gives the tree back and goes on right behind it. */
  lemma {:induction false} PrintReads(e: Expr, j: nat, rest: string, sharp: bool)
    requires Printable(e) && j <= 10 && Stops(j + 1, rest, sharp)
    ensures ParseLevel(j, Print(e, j) + rest, sharp) == After(j, e, rest, sharp)
    decreases e, if j > Prec(e) then 1 else 0, 10 - j, 1
  {
    if j < 10 && Prec(e) != j {
      PrintReads(e, j + 1, rest, sharp);
      LevelFromNext(j, Print(e, j) + rest, e, rest, sharp);
    } else if j < 10 {
      BinaryReads(e, rest, sharp);
    } else if Prec(e) < 10 {
      CloseStops(rest, sharp);
      PrintReads(e, 0, ")" + rest, sharp);
      ParenReads(e, Bare(e) + (")" + rest), rest, sharp);
      assert Print(e, 10) + rest == "(" + (Bare(e) + (")" + rest));
    } else {
      LeafReads(e, rest, sharp);
    }
  }

  lemma RegroupBinary(a: string, b: string, c: string, d: string)
    ensures a + (b + (" " + c)) + d == a + (b + (" " + (c + d)))
  {
  }

  lemma {:induction false} BinaryReads(e: Expr, rest: string, sharp: bool)
    requires Printable(e) && e.Binary? && Stops(Level(e.op) + 1, rest, sharp)
    ensures ParseLevel(Level(e.op), Bare(e) + rest, sharp) == ParseRest(Level(e.op), e, rest, sharp)
    decreases e, 0, 0, 0
  {
    var op, l, r, j := e.op, e.l, e.r, Level(e.op);
    var x := Print(r, j + 1) + rest;
    var rest' := OpText(op) + (" " + x);
    OperatorStops(op, x, sharp);
    PrintReads(l, j, rest', sharp);
    PrintReads(r, j + 1, rest, sharp);
    RestTakes(op, l, r, x, rest, sharp);
    RegroupBinary(Print(l, j), OpText(op), Print(r, j + 1), rest);
  }

  lemma {:induction false} LeafReads(e: Expr, rest: string, sharp: bool)
    requires Printable(e) && !e.Binary? && Ends(rest)
    ensures ParseUnary(Bare(e) + rest, sharp) == (e, rest)
    decreases e, 0, 0, 0
  {
    match e
    case Num(v) => NumReads(v, rest, sharp);
    case Defined(name) => DefinedParses(name, rest, sharp);
    case Unary(c, e') =>
      PrintReads(e', 10, rest, sharp);
      UnaryReads(c, e', Print(e', 10) + rest, rest, sharp);
      assert Bare(e) + rest == [c] + (Print(e', 10) + rest);
  }

  /** The end of a directive's line, or the closing parenthesis of the `@` form. */
  predicate Terminator(c: char) {
    c == '\n' || c == ')'
  }

  /** The whole expression is read, up to the character that ends it. */
  lemma ExprReads(e: Expr, c: char, rest: string, sharp: bool)
    requires Printable(e) && Terminator(c)
    ensures ParseExpr(Print(e, 0) + ([c] + rest), sharp) == (e, [c] + rest)
  {
    VisibleStays([c] + rest, sharp);
    assert Stops(0, [c] + rest, sharp);
    PrintReads(e, 0, [c] + rest, sharp);
    RestStops(0, e, [c] + rest, sharp);
  }

  /** A single `&` takes the character after it, whatever it is: the operand begins one further on. */
  lemma AmpersandTakesNext(l: Expr, c: char, x: string, sharp: bool)
    requires c != '&'
    ensures ParseRest(4, l, "&" + ([c] + x), sharp) == ParseRest(4, l, "&" + (" " + x), sharp)
  {
    var s, s' := "&" + ([c] + x), "&" + (" " + x);
    VisibleStays(s, sharp);
    VisibleStays(s', sharp);
    assert s[2..] == x && s'[2..] == x;
    assert OperatorAt(4, s) == Some((BitAnd, 2)) && OperatorAt(4, s') == Some((BitAnd, 2));
    var (r, u) := ParseLevel(5, x, sharp);
    RestUnfolds(4, l, s, BitAnd, 2, r, u, sharp);
    RestUnfolds(4, l, s', BitAnd, 2, r, u, sharp);
  }

  lemma {:induction false} SameLevel(j: nat, s: string, s': string, sharp: bool)
    requires j <= 4 && ParseLevel(4, s, sharp) == ParseLevel(4, s', sharp)
    ensures ParseLevel(j, s, sharp) == ParseLevel(j, s', sharp)
    decreases 4 - j
  {
    if j < 4 {
      SameLevel(j + 1, s, s', sharp);
    }
  }

  lemma AmpersandStops(c: char, x: string, sharp: bool)
    ensures Stops(5, "&" + ([c] + x), sharp)
  {
    VisibleStays("&" + ([c] + x), sharp);
  }

  /** Whatever stands right behind a single `&` is read as a blank would be. */
  lemma AmpersandReads(l: Expr, c: char, x: string, sharp: bool)
    requires Printable(l) && c != '&'
    ensures ParseExpr(Print(l, 4) + ("&" + ([c] + x)), sharp) == ParseExpr(Print(l, 4) + ("&" + (" " + x)), sharp)
  {
    AmpersandStops(c, x, sharp);
    AmpersandStops(' ', x, sharp);
    PrintReads(l, 4, "&" + ([c] + x), sharp);
    PrintReads(l, 4, "&" + (" " + x), sharp);
    AmpersandTakesNext(l, c, x, sharp);
    SameLevel(0, Print(l, 4) + ("&" + ([c] + x)), Print(l, 4) + ("&" + (" " + x)), sharp);
  }

  /** So `1&12` is read as `1& 2`: without the blank the printer's text would not be read back. */
  lemma AmpersandLosesDigit()
    ensures ParseExpr("1&12\n", true) == (Binary(BitAnd, Num(1), Num(2)), "\n")
  {
    var one, two := Num(1), Num(2);
    var e := Binary(BitAnd, one, two);
    assert Print(one, 4) == "1" && Print(two, 5) == "2";
    AmpersandReads(one, '1', "2\n", true);
    assert "1" + ("&" + (['1'] + "2\n")) == "1&12\n";
    assert Print(e, 0) + (['\n'] + "") == "1" + ("&" + (" " + "2\n"));
    ExprReads(e, '\n', "", true);
    assert ['\n'] + "" == "\n";
  }
}
