/** The preprocessor's expressions: trees, the precedence-climbing parser and a printer it inverts. */
module CppExpr {
  import opened Bytes
  import opened CppLexical

  datatype Op =
    | Mul | Div | Rem | Add | Sub | Lsh | Rsh | Lt | Gt | Leq | Geq | Eql | Neq
    | BitAnd | BitXor | BitOr | And | Or | Comma

  datatype Expr =
    | Num(v: int)
    | Defined(name: string)
    | Unary(c: char, e: Expr)
    | Binary(op: Op, l: Expr, r: Expr)

  /** The reader that builds the operator's nodes, `read_expr_0` to `read_expr_9`. */
  function Level(op: Op): (j: int) {
    match op
    case Comma => -1
    case Or => 0
    case And => 1
    case BitOr => 2
    case BitXor => 3
    case BitAnd => 4
    case Eql => 5 case Neq => 5
    case Lt => 6 case Gt => 6 case Leq => 6 case Geq => 6
    case Lsh => 7 case Rsh => 7
    case Add => 8 case Sub => 8
    case Mul => 9 case Div => 9 case Rem => 9
  }

  function OpText(op: Op): (s: string) {
    match op
    case Comma => ","
    case Or => "||"
    case And => "&&"
    case BitOr => "|"
    case BitXor => "^"
    case BitAnd => "&"
    case Eql => "==" case Neq => "!="
    case Lt => "<" case Gt => ">" case Leq => "<=" case Geq => ">="
    case Lsh => "<<" case Rsh => ">>"
    case Add => "+" case Sub => "-"
    case Mul => "*" case Div => "/" case Rem => "%"
  }

  // -------------------------------------------------------------------
  // Operators
  // -------------------------------------------------------------------

  /** The operator level `j` takes at the front of `s`, and how many characters it uses up. */
  function OperatorAt(j: nat, s: string): (r: Option<(Op, nat)>)
    requires j <= 9
    ensures r.Some? ==> 1 <= r.value.1 <= |s|
  {
    var c, d := Head(s), Head(Tail(s));
    if s == [] then None
    else match j
      case 9 =>
        if c == '*' then Some((Mul, 1)) else if c == '/' then Some((Div, 1)) else if c == '%' then Some((Rem, 1))
        else None
      case 8 => if c == '+' then Some((Add, 1)) else if c == '-' then Some((Sub, 1)) else None
      case 7 =>
        if |s| > 1 && c == '<' && d == '<' then Some((Lsh, 2))
        else if |s| > 1 && c == '>' && d == '>' then Some((Rsh, 2))
        else None
      case 6 =>
        if c == '<' then if |s| > 1 && d == '=' then Some((Leq, 2)) else Some((Lt, 1))
        else if c == '>' then if |s| > 1 && d == '=' then Some((Geq, 2)) else Some((Gt, 1))
        else None
      case 5 =>
        if |s| > 1 && c == '=' && d == '=' then Some((Eql, 2))
        else if |s| > 1 && c == '!' && d == '=' then Some((Neq, 2))
        else None
      case 4 => if c == '&' && d != '&' then Some((BitAnd, if |s| > 1 then 2 else 1)) else None
      case 3 => if c == '^' then Some((BitXor, 1)) else None
      case 2 => if c == '|' && d != '|' then Some((BitOr, 1)) else None
      case 1 => if |s| > 1 && c == '&' && d == '&' then Some((And, 2)) else None
      case 0 => if |s| > 1 && c == '|' && d == '|' then Some((Or, 2)) else None
  }

  // -------------------------------------------------------------------
  // Numbers
  // -------------------------------------------------------------------

  /** A sum or product as the 32-bit `int` holds it. */
  function Wrap(x: int): (y: int)
    ensures -0x8000_0000 <= y < 0x8000_0000
  {
    (x + 0x8000_0000) % 0x1_0000_0000 - 0x8000_0000
  }

  predicate HexDigit(c: char) {
    Digit(c) || 'a' <= c <= 'f' || 'A' <= c <= 'F'
  }

  function DigitValue(c: char): (v: nat)
    requires HexDigit(c)
  {
    if Digit(c) then c as int - '0' as int
    else if 'a' <= c then c as int - 'a' as int + 10
    else c as int - 'A' as int + 10
  }

  /** The digits at the front of `s`; a digit too large for the base is warned about and used all the same. */
  function Digits(base: nat, s: string, v: int): (r: (int, string))
    ensures |r.1| <= |s|
    decreases |s|
  {
    if s != [] && HexDigit(s[0]) then Digits(base, s[1..], Wrap(v * base + DigitValue(s[0]))) else (v, s)
  }

  function Number(s: string): (r: (int, string))
    requires s != [] && Digit(s[0])
    ensures |r.1| < |s|
  {
    if s[0] != '0' then Digits(10, s[1..], DigitValue(s[0]))
    else if |s| > 1 && (s[1] == 'x' || s[1] == 'X') then Digits(16, s[2..], 0)
    else Digits(8, s[1..], 0)
  }

  // -------------------------------------------------------------------
  // Character constants
  // -------------------------------------------------------------------

  predicate OctalDigit(c: char) {
    '0' <= c <= '7'
  }

  /** Up to `n` more octal digits of an escape. */
  function Octal(s: string, n: nat, v: nat): (r: (nat, string))
    ensures |r.1| <= |s|
  {
    if n == 0 || s == [] || !OctalDigit(s[0]) then (v % 256, s)
    else Octal(s[1..], n - 1, 8 * v + (s[0] as int - '0' as int))
  }

  function Escape(c: char): (v: nat) {
    match c
    case 'n' => 10
    case 'r' => 13
    case 'e' => 27
    case 'f' => 12
    case 't' => 9
    case 'b' => 8
    case 'v' => 11
    case _ => c as int % 256
  }

  /** `get_quote_char`: a character's value; `None` at the closing quote, a line's end or the input's. */
  function QuoteChar(s: string): (r: (Option<nat>, string))
    ensures |r.1| <= |s| && (r.0.Some? ==> |r.1| < |s|)
  {
    if s == [] then (None, [])
    else if s[0] == '\'' || s[0] == '\n' then (None, s[1..])
    else if s[0] != '\\' then (Some(s[0] as int % 256), s[1..])
    else if |s| > 1 && OctalDigit(s[1]) then
      var (v, t) := Octal(s[1..], 3, 0);
      (Some(v), t)
    else (Some(Escape(Head(s[1..]))), Tail(s[1..]))
  }

  /** The characters of a constant, packed eight bits each. */
  function Quoted(s: string, v: int): (r: (int, string))
    ensures |r.1| <= |s|
    decreases |s|
  {
    match QuoteChar(s)
    case (None, t) => (v, t)
    case (Some(j), t) => Quoted(t, Wrap(v * 256 + j))
  }

  // -------------------------------------------------------------------
  // The parser
  // -------------------------------------------------------------------

  /** `defined(name)` or `defined name` at the front of `s`; `None` when the text goes on differently. */
  function DefinedAt(s: string): (r: Option<(string, string)>)
    ensures r.Some? ==> |r.value.1| < |s|
  {
    var n := SymLength(s);
    if s[..n] != "defined" then None
    else
      var t := SkipSpace(s[n..]);
      if Head(t) == '(' && t != [] then
        var u := SkipSpace(t[1..]);
        if u == [] || !SymStart(u[0]) then None
        else
          var m := SymLength(u);
          var w := SkipSpace(u[m..]);
          if w != [] && w[0] == ')' then Some((u[..m], w[1..])) else None
      else if t != [] && SymStart(t[0]) then Some((t[..SymLength(t)], t[SymLength(t)..]))
      else None
  }

  /** `read_expr_`: expressions separated by commas; another character where an operator belongs ends it. */
  function ParseExpr(s: string, sharp: bool): (r: (Expr, string))
    ensures |r.1| <= |s|
    decreases |s|, 25
  {
    var (l, t) := ParseLevel(0, s, sharp);
    ParseCommas(l, t, sharp)
  }

  function ParseCommas(l: Expr, s: string, sharp: bool): (r: (Expr, string))
    ensures |r.1| <= |s|
    decreases |s|, 24
  {
    var t := Skip(s, sharp);
    if t == [] then (l, [])
    else if t[0] == '\n' || t[0] == ')' then (l, t)
    else if t[0] == ',' then
      var (r, u) := ParseLevel(0, t[1..], sharp);
      ParseCommas(Binary(Comma, l, r), u, sharp)
    else (l, t[1..])
  }

  /** `read_expr_0` to `read_expr_9`: operands of the next level joined from the left. */
  function ParseLevel(j: nat, s: string, sharp: bool): (r: (Expr, string))
    requires j <= 10
    ensures |r.1| <= |s|
    decreases |s|, 22 - 2 * j
  {
    if j == 10 then ParseUnary(s, sharp)
    else
      var (l, t) := ParseLevel(j + 1, s, sharp);
      ParseRest(j, l, t, sharp)
  }

  function ParseRest(j: nat, l: Expr, s: string, sharp: bool): (r: (Expr, string))
    requires j <= 9
    ensures |r.1| <= |s|
    decreases |s|, 21 - 2 * j
  {
    var t := Skip(s, sharp);
    match OperatorAt(j, t)
    case None => (l, t)
    case Some((op, n)) =>
      var (r, u) := ParseLevel(j + 1, t[n..], sharp);
      ParseRest(j, Binary(op, l, r), u, sharp)
  }

  predicate UnaryOp(c: char) {
    c == '-' || c == '~' || c == '!'
  }

  /** `read_expr_10`. */
  function ParseUnary(s: string, sharp: bool): (r: (Expr, string))
    ensures |r.1| <= |s|
    decreases |s|, 1
  {
    var t := Skip(s, sharp);
    if t != [] && UnaryOp(t[0]) then
      var (e, u) := ParseUnary(t[1..], sharp);
      (Unary(t[0], e), u)
    else if t != [] && t[0] == 'd' && DefinedAt(t).Some? then
      (Defined(DefinedAt(t).value.0), DefinedAt(t).value.1)
    else ParsePrimary(t, sharp)
  }

  /** `read_expr_11`. */
  function ParsePrimary(s: string, sharp: bool): (r: (Expr, string))
    ensures |r.1| <= |s|
    decreases |s|, 0
  {
    var t := Skip(s, sharp);
    if t == [] then (Num(0), [])
    else if t[0] == '(' then
      var (e, u) := ParseExpr(t[1..], sharp);
      var w := Skip(u, sharp);
      (e, if Head(w) == ')' && w != [] then w[1..] else w)
    else if Digit(t[0]) then
      var (v, u) := Number(t);
      (Num(v), u)
    else if t[0] == '\'' then
      var (v, u) := Quoted(t[1..], 0);
      (Num(v), u)
    else if t[0] == '\n' && !sharp then ParsePrimary(t[1..], sharp)
    else if SymStart(t[0]) then (Num(0), t[SymLength(t)..])
    else (Num(0), t[1..])
  }

  // -------------------------------------------------------------------
  // The printer
  // -------------------------------------------------------------------

  function Decimal(v: nat): (s: string) {
    var d := ['0' + (v % 10) as char];
    if v < 10 then d else Decimal(v / 10) + d
  }

  /** The trees a directive can be written for: no commas, literals a 32-bit `int` holds. */
  ghost predicate Printable(e: Expr) {
    match e
    case Num(v) => 0 <= v < 0x8000_0000
    case Defined(name) => Identifier(name)
    case Unary(c, e') => UnaryOp(c) && Printable(e')
    case Binary(op, l, r) => op != Comma && Printable(l) && Printable(r)
  }

  /** The level at which a tree is read without parentheses. */
  function Prec(e: Expr): (j: int) {
    match e
    case Num(_) => 10
    case Defined(_) => 10
    case Unary(_, _) => 10
    case Binary(op, _, _) => Level(op)
  }

  /** A tree as an operand of level `j`: parentheses where the level needs them, a blank after each operator. */
  function Print(e: Expr, j: nat): (s: string)
    requires Printable(e) && j <= 10
    decreases e, 1
  {
    if Prec(e) < j then "(" + (Bare(e) + ")") else Bare(e)
  }

  function Bare(e: Expr): (s: string)
    requires Printable(e)
    decreases e, 0
  {
    match e
    case Num(v) => Decimal(v)
    case Defined(name) => "defined(" + name + ")"
    case Unary(c, e') => [c] + Print(e', 10)
    case Binary(op, l, r) => Print(l, Level(op)) + (OpText(op) + (" " + Print(r, Level(op) + 1)))
  }
}
