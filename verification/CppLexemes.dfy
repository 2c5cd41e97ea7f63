/** What stands for what in a condition: characters, numbers, constants, `defined`, and what is passed over. */
module CppLexemes {
  import opened Bytes
  import opened CppLexical
  import opened CppComments
  import opened CppExpr
  import opened CppExprPrint

  // -------------------------------------------------------------------
  // Characters
  // -------------------------------------------------------------------

  const LOWER: string := "abcdefghijklmnopqrstuvwxyz"
  const UPPER: string := "ABCDEFGHIJKLMNOPQRSTUVWXYZ"
  const DIGITS: string := "0123456789abcdef"
  const WHITE: string := " \t\n\U{000B}\U{000C}\r"

  lemma LowerLetters(c: char)
    ensures c in LOWER <==> 'a' <= c <= 'z'
  {
    forall i | 0 <= i < 26 ensures LOWER[i] == 'a' + i as char {
    }
    if 'a' <= c <= 'z' {
      assert LOWER[c as int - 'a' as int] == c;
    }
  }

  lemma UpperLetters(c: char)
    ensures c in UPPER <==> 'A' <= c <= 'Z'
  {
    forall i | 0 <= i < 26 ensures UPPER[i] == 'A' + i as char {
    }
    if 'A' <= c <= 'Z' {
      assert UPPER[c as int - 'A' as int] == c;
    }
  }

  /** The characters of identifiers, and white space. */
  lemma Alphabet(c: char)
    ensures SymStart(c) <==> c in LOWER || c in UPPER || c == '_'
    ensures SymChar(c) <==> c in LOWER || c in UPPER || c in "0123456789_$"
    ensures Space(c) <==> c in WHITE
    ensures HSpace(c) <==> c in " \t"
  {
    LowerLetters(c);
    UpperLetters(c);
  }

  // -------------------------------------------------------------------
  // Numbers
  // -------------------------------------------------------------------

  /** The digit so written, in lower or upper case. */
  function DigitText(d: nat, up: bool): (c: char)
    requires d < 16
  {
    if up then "0123456789ABCDEF"[d] else DIGITS[d]
  }

  lemma DigitTextValue(d: nat, up: bool)
    requires d < 16
    ensures HexDigit(DigitText(d, up)) && DigitValue(DigitText(d, up)) == d
    ensures d < 10 ==> Digit(DigitText(d, up)) && (DigitText(d, up) == '0' <==> d == 0)
  {
  }

  /** A digit and whether it is written in upper case. */
  datatype Figure = Figure(d: nat, up: bool)

  function FiguresText(fs: seq<Figure>): (s: string)
    requires forall i :: 0 <= i < |fs| ==> fs[i].d < 16
  {
    if fs == [] then [] else [DigitText(fs[0].d, fs[0].up)] + FiguresText(fs[1..])
  }

  /** The number the digits stand for: the last one counts once, each other one `base` times as much as the next. */
  function Positional(base: nat, fs: seq<Figure>): (v: nat) {
    if fs == [] then 0 else Positional(base, fs[..|fs| - 1]) * base + fs[|fs| - 1].d
  }

  lemma WrapOnce(a: int, base: nat, d: nat)
    ensures Wrap(Wrap(a) * base + d) == Wrap(a * base + d)
  {
    var k := (Wrap(a) - a) / 0x1_0000_0000;
    assert Wrap(a) == a + 0x1_0000_0000 * k;
    assert Wrap(a) * base + d == a * base + d + 0x1_0000_0000 * (k * base);
    WrapMore(a * base + d, k * base);
  }

  lemma WrapMore(x: int, k: int)
    ensures Wrap(x + 0x1_0000_0000 * k) == Wrap(x)
  {
  }

  lemma FirstFigure(fs: seq<Figure>, rest: string)
    requires fs != [] && forall i :: 0 <= i < |fs| ==> fs[i].d < 16
    ensures var s := FiguresText(fs) + rest;
            && s[0] == DigitText(fs[0].d, fs[0].up) && HexDigit(s[0]) && DigitValue(s[0]) == fs[0].d
            && s[1..] == FiguresText(fs[1..]) + rest
  {
    var c, t := DigitText(fs[0].d, fs[0].up), FiguresText(fs[1..]);
    DigitTextValue(fs[0].d, fs[0].up);
    assert FiguresText(fs) == [c] + t;
    Front(c, t, rest);
  }

  lemma Front(c: char, t: string, rest: string)
    ensures var s := [c] + t + rest; s[0] == c && s[1..] == t + rest
  {
  }

  lemma OneMoreFigure(base: nat, all: seq<Figure>, n: nat)
    requires n < |all|
    ensures Positional(base, all[..n + 1]) == Positional(base, all[..n]) * base + all[n].d
    ensures all[n..][0] == all[n] && all[n..][1..] == all[n + 1..]
  {
    assert all[..n + 1][..n] == all[..n];
  }

  lemma {:induction false} DigitsMean(base: nat, all: seq<Figure>, n: nat, rest: string)
    requires n <= |all| && (forall i :: 0 <= i < |all| ==> all[i].d < 16) && Ends(rest)
    ensures Digits(base, FiguresText(all[n..]) + rest, Wrap(Positional(base, all[..n])))
            == (Wrap(Positional(base, all)), rest)
    decreases |all| - n
  {
    if n == |all| {
      assert all[n..] == [] && all[..n] == all && [] + rest == rest;
    } else {
      DigitsStep(base, all, n, rest);
      DigitsMean(base, all, n + 1, rest);
    }
  }

  lemma DigitsStep(base: nat, all: seq<Figure>, n: nat, rest: string)
    requires n < |all| && forall i :: 0 <= i < |all| ==> all[i].d < 16
    ensures Digits(base, FiguresText(all[n..]) + rest, Wrap(Positional(base, all[..n])))
            == Digits(base, FiguresText(all[n + 1..]) + rest, Wrap(Positional(base, all[..n + 1])))
  {
    FirstFigure(all[n..], rest);
    OneMoreFigure(base, all, n);
    WrapOnce(Positional(base, all[..n]), base, all[n].d);
  }

  lemma DigitsFromStart(base: nat, fs: seq<Figure>, rest: string)
    requires (forall i :: 0 <= i < |fs| ==> fs[i].d < 16) && Ends(rest)
    ensures Digits(base, FiguresText(fs) + rest, 0) == (Wrap(Positional(base, fs)), rest)
  {
    assert fs[0..] == fs && fs[..0] == [];
    DigitsMean(base, fs, 0, rest);
  }

  /** Hexadecimal behind `0x` or `0X`. */
  lemma HexadecimalReads(fs: seq<Figure>, x: char, rest: string)
    requires (forall i :: 0 <= i < |fs| ==> fs[i].d < 16) && (x == 'x' || x == 'X') && Ends(rest)
    ensures Number(['0', x] + (FiguresText(fs) + rest)) == (Wrap(Positional(16, fs)), rest)
  {
    var s := ['0', x] + (FiguresText(fs) + rest);
    assert s[2..] == FiguresText(fs) + rest;
    DigitsFromStart(16, fs, rest);
  }

  /** Octal behind `0`. */
  lemma OctalReads(fs: seq<Figure>, rest: string)
    requires (forall i :: 0 <= i < |fs| ==> fs[i].d < 8) && Ends(rest)
    ensures Number("0" + (FiguresText(fs) + rest)) == (Wrap(Positional(8, fs)), rest)
  {
    var t := FiguresText(fs) + rest;
    var s := "0" + t;
    assert s[1..] == t;
    if fs != [] {
      FirstFigure(fs, rest);
    } else {
      assert t == rest;
    }
    DigitsFromStart(8, fs, rest);
  }

  /** Decimal, when the first digit is not 0. */
  lemma DecimalFiguresRead(fs: seq<Figure>, rest: string)
    requires fs != [] && fs[0].d != 0 && (forall i :: 0 <= i < |fs| ==> fs[i].d < 10) && Ends(rest)
    ensures var s := FiguresText(fs) + rest;
            Digit(s[0]) && Number(s) == (Wrap(Positional(10, fs)), rest)
  {
    FirstFigure(fs, rest);
    DigitTextValue(fs[0].d, fs[0].up);
    FirstCounts(fs);
    DigitsMean(10, fs, 1, rest);
  }

  lemma FirstCounts(fs: seq<Figure>)
    requires fs != [] && fs[0].d < 16
    ensures Wrap(Positional(10, fs[..1])) == fs[0].d
  {
    OneMoreFigure(10, fs, 0);
    assert fs[..0] == [] && Positional(10, []) == 0;
  }

  // -------------------------------------------------------------------
  // Character constants
  // -------------------------------------------------------------------

  /** One character of a constant: as it is, behind a backslash, or by three octal digits. */
  datatype Part = Direct(c: char) | Escape(c: char) | Code(x: nat, y: nat, z: nat) {
    predicate Fits() {
      match this
      case Direct(c) => c !in "'\n\\"
      case Escape(c) => c !in "01234567"
      case Code(x, y, z) => x < 8 && y < 8 && z < 8
    }

    function Text(): (s: string)
      requires Fits()
    {
      match this
      case Direct(c) => [c]
      case Escape(c) => ['\\', c]
      case Code(x, y, z) => ['\\', DIGITS[x], DIGITS[y], DIGITS[z]]
    }

    /** The character's code: `\n` is 10, `\r` 13, `\e` 27, `\f` 12, `\t` 9, `\b` 8, `\v` 11. */
    function Value(): (v: nat) {
      match this
      case Direct(c) => c as int % 256
      case Escape(c) =>
        if c == 'n' then 10 else if c == 'r' then 13 else if c == 'e' then 27 else if c == 'f' then 12
        else if c == 't' then 9 else if c == 'b' then 8 else if c == 'v' then 11 else c as int % 256
      case Code(x, y, z) => (64 * x + 8 * y + z) % 256
    }
  }

  lemma CodeReads(a: nat, b: nat, c: nat, rest: string)
    requires a < 8 && b < 8 && c < 8
    ensures QuoteChar(['\\', DIGITS[a], DIGITS[b], DIGITS[c]] + rest) == (Some((64 * a + 8 * b + c) % 256), rest)
  {
    var s := ['\\', DIGITS[a], DIGITS[b], DIGITS[c]] + rest;
    var t := s[1..];
    assert t[0] == DIGITS[a] && t[1..][0] == DIGITS[b] && t[1..][1..][0] == DIGITS[c] && t[1..][1..][1..] == rest;
    assert Octal(t[1..][1..], 1, 8 * a + b) == Octal(rest, 0, 64 * a + 8 * b + c);
    assert Octal(t[1..], 2, a) == Octal(t[1..][1..], 1, 8 * a + b);
    assert Octal(t, 3, 0) == Octal(t[1..], 2, a);
  }

  lemma PartReads(p: Part, rest: string)
    requires p.Fits()
    ensures QuoteChar(p.Text() + rest) == (Some(p.Value()), rest)
  {
    match p
    case Direct(c) =>
      assert ([c] + rest)[1..] == rest;
    case Escape(c) =>
      var s := ['\\', c] + rest;
      assert s[1..] == [c] + rest && ([c] + rest)[1..] == rest;
    case Code(a, b, c) => CodeReads(a, b, c, rest);
  }

  function PartsText(ps: seq<Part>): (s: string)
    requires forall i :: 0 <= i < |ps| ==> ps[i].Fits()
  {
    if ps == [] then [] else ps[0].Text() + PartsText(ps[1..])
  }

  /** The codes eight bits each, the last one lowest. */
  function Packed(ps: seq<Part>): (v: nat) {
    if ps == [] then 0 else Packed(ps[..|ps| - 1]) * 256 + ps[|ps| - 1].Value()
  }

  lemma OneMorePart(all: seq<Part>, n: nat, t: string)
    requires n < |all| && forall i :: 0 <= i < |all| ==> all[i].Fits()
    ensures Packed(all[..n + 1]) == Packed(all[..n]) * 256 + all[n].Value()
    ensures PartsText(all[n..]) + t == all[n].Text() + (PartsText(all[n + 1..]) + t)
  {
    assert all[..n + 1][..n] == all[..n] && all[n..][1..] == all[n + 1..];
  }

  lemma PartsStep(all: seq<Part>, n: nat, t: string)
    requires n < |all| && forall i :: 0 <= i < |all| ==> all[i].Fits()
    ensures Quoted(PartsText(all[n..]) + t, Wrap(Packed(all[..n])))
            == Quoted(PartsText(all[n + 1..]) + t, Wrap(Packed(all[..n + 1])))
  {
    OneMorePart(all, n, t);
    PartReads(all[n], PartsText(all[n + 1..]) + t);
    WrapOnce(Packed(all[..n]), 256, all[n].Value());
  }

  lemma {:induction false} PartsRead(all: seq<Part>, n: nat, q: char, rest: string)
    requires n <= |all| && (forall i :: 0 <= i < |all| ==> all[i].Fits()) && (q == '\'' || q == '\n')
    ensures Quoted(PartsText(all[n..]) + ([q] + rest), Wrap(Packed(all[..n]))) == (Wrap(Packed(all)), rest)
    decreases |all| - n
  {
    if n == |all| {
      assert all[n..] == [] && all[..n] == all && [] + ([q] + rest) == [q] + rest && ([q] + rest)[1..] == rest;
    } else {
      PartsStep(all, n, [q] + rest);
      PartsRead(all, n + 1, q, rest);
    }
  }

  /** A character constant of any length is the number its characters make; an open one ends with its line. */
  lemma ConstantReads(ps: seq<Part>, q: char, rest: string, sharp: bool)
    requires (forall i :: 0 <= i < |ps| ==> ps[i].Fits()) && (q == '\'' || q == '\n')
    ensures ParseUnary("'" + (PartsText(ps) + ([q] + rest)), sharp) == (Num(Wrap(Packed(ps))), rest)
  {
    var s := "'" + (PartsText(ps) + ([q] + rest));
    assert s[1..] == PartsText(ps) + ([q] + rest) && ps[0..] == ps && ps[..0] == [];
    PartsRead(ps, 0, q, rest);
    VisibleStays(s, sharp);
    UnaryIsPrimary(s, sharp);
  }

  // -------------------------------------------------------------------
  // `defined` without parentheses
  // -------------------------------------------------------------------

  lemma {:induction false} WhiteIsSkipped(ws: string, t: string)
    requires (forall i :: 0 <= i < |ws| ==> ws[i] in WHITE) && (t == [] || t[0] !in WHITE)
    ensures SkipSpace(ws + t) == t
    decreases |ws|
  {
    if ws == [] {
      assert ws + t == t;
      if t != [] {
        Alphabet(t[0]);
      }
    } else {
      Alphabet(ws[0]);
      assert (ws + t)[1..] == ws[1..] + t;
      WhiteIsSkipped(ws[1..], t);
    }
  }

  lemma NameAndRest(name: string, rest: string)
    requires Identifier(name) && Ends(rest)
    ensures var u := name + rest;
            && u != [] && SymStart(u[0]) && u[0] !in WHITE && u[0] != '(' && SymLength(u) == |name|
            && u[..|name|] == name && u[|name|..] == rest
  {
    Alphabet(name[0]);
    SymLengthOf(name, rest);
  }

  lemma WordDefined(t: string)
    requires Ends(t)
    ensures var s := "defined" + t; SymLength(s) == 7 && s[..7] == "defined" && s[7..] == t && s[0] == 'd'
  {
    SymLengthOf("defined", t);
  }

  lemma DefinedAtWord(s: string, t: string, u: string, name: string, rest: string)
    requires SymLength(s) == 7 && s[..7] == "defined" && s[7..] == t && SkipSpace(t) == u
    requires u != [] && SymStart(u[0]) && u[0] != '(' && SymLength(u) == |name|
    requires u[..|name|] == name && u[|name|..] == rest
    ensures DefinedAt(s) == Some((name, rest))
  {
  }

  /** `defined name`, with any white space between. */
  lemma DefinedWord(ws: string, name: string, rest: string, sharp: bool)
    requires ws != [] && (forall i :: 0 <= i < |ws| ==> ws[i] in WHITE) && Identifier(name) && Ends(rest)
    ensures ParseUnary("defined" + (ws + (name + rest)), sharp) == (Defined(name), rest)
  {
    var u := name + rest;
    var t := ws + u;
    Alphabet(ws[0]);
    WordDefined(t);
    NameAndRest(name, rest);
    WhiteIsSkipped(ws, u);
    DefinedAtWord("defined" + t, t, u, name, rest);
    VisibleStays("defined" + t, sharp);
  }

  // -------------------------------------------------------------------
  // What is passed over
  // -------------------------------------------------------------------

  /** A blank, a comment, or a line end behind a backslash. */
  datatype Filler = Blank(c: char) | Remark(text: string) | Join {
    predicate Fits(sharp: bool) {
      match this
      case Blank(c) => c == ' ' || c == '\t'
      case Remark(text) => true
      case Join => sharp
    }

    function Text(): (s: string) {
      match this
      case Blank(c) => [c]
      case Remark(text) => "/*" + (text + "*/")
      case Join => "\\\n"
    }
  }

  ghost predicate Fillers(fs: seq<Filler>, sharp: bool) {
    forall i :: 0 <= i < |fs| ==> fs[i].Fits(sharp) && (fs[i].Remark? ==> EndsOnce(fs[i].text + "*"))
  }

  function FillersText(fs: seq<Filler>): (s: string) {
    if fs == [] then [] else fs[0].Text() + FillersText(fs[1..])
  }

  lemma {:induction false} AfterRemark(text: string, rest: string)
    requires EndsOnce(text + "*")
    ensures AfterComment(text + ("*/" + rest)) == rest
    decreases |text|
  {
    var s, u := text + ("*/" + rest), text + "*";
    if text == [] {
      assert s == "*/" + rest && s[2..] == rest;
    } else {
      assert u[0] == s[0] && u[1] == s[1] && u[1..] == text[1..] + "*" && s[1..] == text[1..] + ("*/" + rest);
      AfterRemark(text[1..], rest);
    }
  }

  lemma FillerIsSkipped(f: Filler, t: string, sharp: bool)
    requires f.Fits(sharp) && (f.Remark? ==> EndsOnce(f.text + "*"))
    ensures Skip(f.Text() + t, sharp) == Skip(t, sharp)
  {
    var s := f.Text() + t;
    match f
    case Blank(c) =>
      assert s[1..] == t;
    case Remark(text) =>
      assert s[2..] == text + ("*/" + t);
      AfterRemark(text, t);
    case Join =>
      assert s[2..] == t;
  }

  /** Any number of blanks, comments and joined lines, in any order. */
  lemma {:induction false} FillersAreSkipped(fs: seq<Filler>, t: string, sharp: bool)
    requires Fillers(fs, sharp)
    ensures Skip(FillersText(fs) + t, sharp) == Skip(t, sharp)
    decreases |fs|
  {
    if fs == [] {
      assert [] + t == t;
    } else {
      assert FillersText(fs) + t == fs[0].Text() + (FillersText(fs[1..]) + t);
      FillerIsSkipped(fs[0], FillersText(fs[1..]) + t, sharp);
      FillersAreSkipped(fs[1..], t, sharp);
    }
  }

  lemma {:induction false} SkippedLevel(j: nat, s: string, t: string, sharp: bool)
    requires j <= 10 && Skip(s, sharp) == Skip(t, sharp)
    ensures ParseLevel(j, s, sharp) == ParseLevel(j, t, sharp)
    decreases 10 - j
  {
    if j < 10 {
      SkippedLevel(j + 1, s, t, sharp);
    }
  }

  /** In front of an expression, an operand or an operator they make no difference. */
  lemma FillersMakeNoDifference(fs: seq<Filler>, t: string, l: Expr, j: nat, sharp: bool)
    requires Fillers(fs, sharp) && j <= 9
    ensures ParseExpr(FillersText(fs) + t, sharp) == ParseExpr(t, sharp)
    ensures ParseLevel(j, FillersText(fs) + t, sharp) == ParseLevel(j, t, sharp)
    ensures ParseRest(j, l, FillersText(fs) + t, sharp) == ParseRest(j, l, t, sharp)
  {
    FillersAreSkipped(fs, t, sharp);
    SkippedLevel(0, FillersText(fs) + t, t, sharp);
    SkippedLevel(j, FillersText(fs) + t, t, sharp);
  }

  // -------------------------------------------------------------------
  // What is not as it should be
  // -------------------------------------------------------------------

  /** An octal code of one or two digits ends at the first character that is none. */
  lemma OneDigitCode(a: nat, rest: string)
    requires a < 8 && (rest == [] || rest[0] !in "01234567")
    ensures QuoteChar(['\\', DIGITS[a]] + rest) == (Some(a), rest)
  {
    var s := ['\\', DIGITS[a]] + rest;
    assert s[1..][1..] == rest && s[1..][0] == DIGITS[a];
    assert Octal(s[1..], 3, 0) == Octal(rest, 2, a);
  }

  lemma TwoDigitCode(a: nat, b: nat, rest: string)
    requires a < 8 && b < 8 && (rest == [] || rest[0] !in "01234567")
    ensures QuoteChar(['\\', DIGITS[a], DIGITS[b]] + rest) == (Some(8 * a + b), rest)
  {
    var s := ['\\', DIGITS[a], DIGITS[b]] + rest;
    var u := s[1..][1..];
    assert s[1..][0] == DIGITS[a] && u[0] == DIGITS[b] && u[1..] == rest;
    assert Octal(u, 2, a) == Octal(rest, 1, 8 * a + b);
    assert Octal(s[1..], 3, 0) == Octal(u, 2, a);
  }

  /** A word that is not `defined` counts as 0. */
  lemma WordIsZero(word: string, rest: string, sharp: bool)
    requires Identifier(word) && word != "defined" && Ends(rest)
    ensures ParseUnary(word + rest, sharp) == (Num(0), rest)
  {
    var s := word + rest;
    NameAndRest(word, rest);
    VisibleStays(s, sharp);
    assert DefinedAt(s) == None;
    assert ParseUnary(s, sharp) == ParsePrimary(s, sharp);
  }

  /** So does a character that begins no operand. */
  lemma StrayCharacter(c: char, rest: string, sharp: bool)
    requires Visible(c) && !UnaryOp(c) && !SymStart(c) && !Digit(c) && c !in "('\n"
    ensures ParseUnary([c] + rest, sharp) == (Num(0), rest)
  {
    var s := [c] + rest;
    assert s[1..] == rest;
    UnaryIsPrimary(s, sharp);
    VisibleStays(s, sharp);
  }

  /** A missing parenthesis is supplied at the end of the line. */
  lemma ParenthesisSupplied(e: Expr, rest: string)
    requires Printable(e)
    ensures ParseUnary("(" + (Print(e, 0) + (['\n'] + rest)), true) == (e, ['\n'] + rest)
  {
    var x := Print(e, 0) + (['\n'] + rest);
    var s := "(" + x;
    assert s[1..] == x;
    ExprReads(e, '\n', rest, true);
    UnaryIsPrimary(s, true);
    VisibleStays(s, true);
    VisibleStays(['\n'] + rest, true);
  }

  /** In the `@` form an operand may stand on the next line. */
  lemma LineEndBeforeOperand(s: string)
    ensures ParsePrimary("\n" + s, false) == ParsePrimary(s, false)
  {
    VisibleStays("\n" + s, false);
    assert ("\n" + s)[1..] == s;
  }
}
