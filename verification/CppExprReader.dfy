/** The expression reader of the preprocessor, working on its input with pushback. */
module CppExprReader {
  import opened Bytes
  import opened CppLexical
  import opened CppExpr

  lemma CommentFrom(s: string)
    ensures AfterComment(['\0'] + s) == AfterComment(s)
  {
    assert (['\0'] + s)[1..] == s;
  }

  /** The characters `acc` of `t` are the beginning of the identifier there. */
  ghost predicate Scanned(t: string, acc: string) {
    1 <= |acc| <= |t| && t[..|acc|] == acc && SymLength(t) == |acc| + SymLength(t[|acc|..])
  }

  lemma ScannedFirst(t: string)
    requires t != [] && SymStart(t[0])
    ensures Scanned(t, [t[0]])
  {
  }

  lemma ScannedMore(t: string, acc: string)
    requires Scanned(t, acc) && |acc| < |t| && SymChar(t[|acc|])
    ensures Scanned(t, acc + [t[|acc|]]) && t[|acc|..][1..] == t[|acc| + 1..]
  {
  }

  class Reader {
    var chars: string
    const sharp: bool

    constructor (text: string, directive: bool)
      ensures chars == text && sharp == directive
    {
      chars, sharp := text, directive;
    }

    /** The next character, or nothing at the end of the input. */
    method Get() returns (c: Option<char>)
      modifies this
      ensures c == First(old(chars)) && chars == Tail(old(chars))
    {
      c := None;
      if chars != [] {
        c, chars := Some(chars[0]), chars[1..];
      }
    }

    method Push(c: Option<char>)
      modifies this
      ensures chars == if c.Some? then [c.value] + old(chars) else old(chars)
    {
      if c.Some? {
        chars := [c.value] + chars;
      }
    }

    /** Pass the comment whose opening has been read. */
    method SkipComment()
      modifies this
      ensures chars == AfterComment(old(chars))
    {
      var c, d: Option<char> := None, Some('\0');
      CommentFrom(chars);
      while true
        invariant d.Some? && AfterComment([d.value] + chars) == AfterComment(old(chars))
        decreases |chars|
      {
        ghost var s := [d.value] + chars;
        c := d;
        d := Get();
        if d.None? {
          return;
        }
        assert s[1..] == [d.value] + chars && s[2..] == chars;
        if c == Some('*') && d == Some('/') {
          return;
        }
      }
    }

    /** `getnhsexpand`: the next character that is not a blank, in a comment or a joined line's end. */
    method GetNonBlank() returns (c: Option<char>)
      modifies this
      ensures var t := Skip(old(chars), sharp); c == First(t) && chars == Tail(t)
    {
      while true
        invariant Skip(chars, sharp) == Skip(old(chars), sharp)
        decreases |chars|
      {
        ghost var s := chars;
        c := Get();
        if c == Some('/') {
          var d := Get();
          if d == Some('*') {
            assert chars == s[2..];
            SkipComment();
            continue;
          }
          Push(d);
          assert chars == s[1..];
          return;
        }
        if c.Some? && HSpace(c.value) {
          continue;
        }
        if sharp && c == Some('\\') {
          var d := Get();
          if d == Some('\n') {
            assert chars == s[2..];
            continue;
          }
          Push(d);
          assert chars == s[1..];
        }
        return;
      }
    }

    /** Put back what was read ahead: the input stands where the character was found. */
    method PutBack(c: Option<char>, ghost t: string)
      requires c == First(t) && chars == Tail(t)
      modifies this
      ensures chars == t
    {
      Push(c);
    }

    method GetNonSpace() returns (c: Option<char>)
      modifies this
      ensures var t := SkipSpace(old(chars)); c == First(t) && chars == Tail(t)
    {
      c := Get();
      while c.Some? && Space(c.value)
        invariant var t := SkipSpace(old(chars));
                  SkipSpace(if c.Some? then [c.value] + chars else chars) == t && (c.None? ==> chars == [])
        decreases |chars|, if c.Some? then 1 else 0
      {
        assert ([c.value] + chars)[1..] == chars;
        c := Get();
      }
    }

    /** The identifier after any white space; without one the input stays at what was found instead. */
    method ReadIdent() returns (w: Option<string>)
      modifies this
      ensures var t := SkipSpace(old(chars));
              if t == [] || !SymStart(t[0]) then w == None && chars == t
              else w == Some(t[..SymLength(t)]) && chars == t[SymLength(t)..]
    {
      ghost var t := SkipSpace(chars);
      var c := GetNonSpace();
      if c.None? || !SymStart(c.value) {
        PutBack(c, t);
        return None;
      }
      var acc := [c.value];
      ScannedFirst(t);
      c := Get();
      while c.Some? && SymChar(c.value)
        invariant Scanned(t, acc) && c == First(t[|acc|..]) && chars == Tail(t[|acc|..])
        decreases |t| - |acc|
      {
        ScannedMore(t, acc);
        acc := acc + [c.value];
        c := Get();
      }
      PutBack(c, t[|acc|..]);
      w := Some(acc);
    }

    method ReadNumber(first: char) returns (v: int)
      requires Digit(first)
      modifies this
      ensures (v, chars) == Number([first] + old(chars))
    {
      ghost var s := [first] + chars;
      assert s[1..] == chars;
      var base, d := 10, Some(first);
      v := 0;
      ghost var t := s;
      if first == '0' {
        base, t := 8, chars;
        d := Get();
        if d == Some('x') || d == Some('X') {
          base, t := 16, chars;
          assert s[2..] == chars;
          d := Get();
        }
      }
      assert first != '0' ==> Wrap(DigitValue(first)) == DigitValue(first);
      while d.Some? && HexDigit(d.value)
        invariant d == First(t) && chars == Tail(t) && Digits(base, t, v) == Number(s)
        decreases |t|
      {
        v := Wrap(v * base + DigitValue(d.value));
        t := chars;
        d := Get();
      }
      PutBack(d, t);
    }

    /** The octal digits of an escape, up to three of them, of which the first has been read. */
    method ReadOctal(first: char) returns (v: nat)
      requires OctalDigit(first)
      modifies this
      ensures (v, chars) == Octal([first] + old(chars), 3, 0)
    {
      ghost var s := [first] + chars;
      assert s[1..] == chars;
      v := first as int - '0' as int;
      ghost var t := chars;
      assert Octal(s, 3, 0) == Octal(t, 2, v);
      var c := Get();
      if c.Some? && OctalDigit(c.value) {
        v, t := 8 * v + (c.value as int - '0' as int), chars;
        assert Octal(s, 3, 0) == Octal(t, 1, v);
        c := Get();
        if c.Some? && OctalDigit(c.value) {
          v := 8 * v + (c.value as int - '0' as int);
          assert Octal(s, 3, 0) == Octal(chars, 0, v);
          v := v % 256;
          return;
        }
      }
      PutBack(c, t);
      v := v % 256;
    }

    /** `get_quote_char`. */
    method GetQuoteChar() returns (j: Option<nat>)
      modifies this
      ensures (j, chars) == QuoteChar(old(chars))
    {
      ghost var s := chars;
      var c := Get();
      if c.None? || c == Some('\'') || c == Some('\n') {
        return None;
      }
      if c != Some('\\') {
        return Some(c.value as int % 256);
      }
      c := Get();
      if c.Some? && OctalDigit(c.value) {
        assert s[1..] == [c.value] + chars;
        var v := ReadOctal(c.value);
        return Some(v);
      }
      j := Some(Escape(if c.Some? then c.value else EOF));
    }

    method ReadQuoted() returns (v: int)
      modifies this
      ensures (v, chars) == Quoted(old(chars), 0)
    {
      v := 0;
      while true
        invariant Quoted(chars, v) == Quoted(old(chars), 0)
        decreases |chars|
      {
        var j := GetQuoteChar();
        if j.None? {
          return;
        }
        v := Wrap(v * 256 + j.value);
      }
    }

    /** The operator of level `j` at the next non-blank character; otherwise everything read goes back. */
    method ReadOperator(j: nat) returns (op: Option<Op>)
      requires j <= 9
      modifies this
      ensures var t := Skip(old(chars), sharp);
              match OperatorAt(j, t)
              case None => op == None && chars == t
              case Some((o, n)) => op == Some(o) && chars == t[n..]
    {
      ghost var t := Skip(chars, sharp);
      var c := GetNonBlank();
      op := SingleOperator(j, c);
      if op.Some? {
        return;
      }
      if DoubleStart(j, c) {
        ghost var t' := chars;
        var d := Get();
        op := DoubleOperator(j, c, d);
        if op.Some? {
          assert chars == t[|t| - |chars|..];
          return;
        }
        PutBack(d, t');
        if j == 6 {
          op := Some(if c == Some('<') then Lt else Gt);
          return;
        }
        if j == 2 && d != Some('|') {
          op := Some(BitOr);
          return;
        }
      }
      PutBack(c, t);
    }

    /** `read_expr_0` to `read_expr_9`, and `read_expr_10` as the level above them. */
    method ReadLevel(j: nat) returns (n: Expr)
      requires j <= 10
      modifies this
      ensures (n, chars) == ParseLevel(j, old(chars), sharp)
      decreases |chars|, 22 - 2 * j
    {
      if j == 10 {
        n := ReadUnary();
        return;
      }
      n := ReadLevel(j + 1);
      n := ReadRest(j, n);
    }

    /** The operators of level `j` behind a first operand. */
    method ReadRest(j: nat, n0: Expr) returns (n: Expr)
      requires j <= 9
      modifies this
      ensures (n, chars) == ParseRest(j, n0, old(chars), sharp)
      decreases |chars|, 21 - 2 * j
    {
      ghost var whole := ParseRest(j, n0, chars, sharp);
      n := n0;
      while true
        invariant ParseRest(j, n, chars, sharp) == whole && |chars| <= |old(chars)|
        decreases |chars|
      {
        var op := ReadOperator(j);
        if op.None? {
          return;
        }
        var r := ReadLevel(j + 1);
        n := Binary(op.value, n, r);
      }
    }

    /** `defined(name)` or `defined name`, read ahead; the input is rewound when it is neither. */
    method ReadDefined() returns (name: Option<string>)
      requires chars != [] && SymStart(chars[0])
      modifies this
      ensures match DefinedAt(old(chars))
              case None => name == None && chars == old(chars)
              case Some((id, rest)) => name == Some(id) && chars == rest
    {
      var mark := chars;
      assert SkipSpace(chars) == chars;
      var w := ReadIdent();
      if w == Some("defined") {
        ghost var t := SkipSpace(chars);
        var c := GetNonSpace();
        if c == Some('(') {
          name := ReadIdent();
          if name.Some? {
            c := GetNonSpace();
            if c == Some(')') {
              return;
            }
          }
        } else if c.Some? && SymStart(c.value) {
          PutBack(c, t);
          assert SkipSpace(t) == t;
          name := ReadIdent();
          return;
        }
      }
      name, chars := None, mark;
    }

    method ReadUnary() returns (n: Expr)
      modifies this
      ensures (n, chars) == ParseUnary(old(chars), sharp)
      decreases |chars|, 1
    {
      ghost var t := Skip(chars, sharp);
      var c := GetNonBlank();
      if c.Some? && UnaryOp(c.value) {
        n := ReadUnary();
        n := Unary(c.value, n);
        return;
      }
      PutBack(c, t);
      if c == Some('d') {
        var name := ReadDefined();
        if name.Some? {
          return Defined(name.value);
        }
      }
      n := ReadPrimary();
    }

    method ReadPrimary() returns (n: Expr)
      modifies this
      ensures (n, chars) == ParsePrimary(old(chars), sharp)
      decreases |chars|, 0
    {
      ghost var whole := ParsePrimary(chars, sharp);
      while true
        invariant ParsePrimary(chars, sharp) == whole && |chars| <= |old(chars)|
        decreases |chars|
      {
        ghost var t := Skip(chars, sharp);
        var c := GetNonBlank();
        if c == Some('(') {
          n := ReadExpr();
          ghost var u := Skip(chars, sharp);
          c := GetNonBlank();
          if c != Some(')') {
            PutBack(c, u);
          }
          return;
        }
        if c.Some? && Digit(c.value) {
          assert t == [c.value] + chars;
          var v := ReadNumber(c.value);
          return Num(v);
        }
        if c == Some('\'') {
          var v := ReadQuoted();
          return Num(v);
        }
        if c == Some('\n') && !sharp {
          continue;
        }
        if c.Some? && SymStart(c.value) {
          PutBack(c, t);
          assert SkipSpace(t) == t;
          var id := ReadIdent();
        }
        return Num(0);
      }
    }

    /** `read_expr_`. */
    method ReadExpr() returns (n: Expr)
      modifies this
      ensures (n, chars) == ParseExpr(old(chars), sharp)
      decreases |chars|, 25
    {
      n := ReadLevel(0);
      while true
        invariant ParseCommas(n, chars, sharp) == ParseExpr(old(chars), sharp) && |chars| <= |old(chars)|
        decreases |chars|
      {
        ghost var t := Skip(chars, sharp);
        var c := GetNonBlank();
        if c == Some('\n') || c == Some(')') {
          PutBack(c, t);
          return;
        }
        if c != Some(',') {
          return;
        }
        var r := ReadLevel(0);
        n := Binary(Comma, n, r);
      }
    }
  }

  /** The operators a level knows by one character alone. */
  function SingleOperator(j: nat, c: Option<char>): (op: Option<Op>) {
    match c
    case None => None
    case Some(c) =>
      if j == 9 && c == '*' then Some(Mul)
      else if j == 9 && c == '/' then Some(Div)
      else if j == 9 && c == '%' then Some(Rem)
      else if j == 8 && c == '+' then Some(Add)
      else if j == 8 && c == '-' then Some(Sub)
      else if j == 3 && c == '^' then Some(BitXor)
      else None
  }

  /** The characters after which a level has to look at one more. */
  predicate DoubleStart(j: nat, c: Option<char>) {
    || ((j == 7 || j == 6) && (c == Some('<') || c == Some('>')))
    || (j == 5 && (c == Some('=') || c == Some('!')))
    || ((j == 4 || j == 1) && c == Some('&'))
    || ((j == 2 || j == 0) && c == Some('|'))
  }

  /** The operators that use up the second character; for a single `&` that is any character but another. */
  function DoubleOperator(j: nat, c: Option<char>, d: Option<char>): (op: Option<Op>)
    requires DoubleStart(j, c)
  {
    match j
    case 7 => if d != c then None else if c == Some('<') then Some(Lsh) else Some(Rsh)
    case 6 => if d != Some('=') then None else if c == Some('<') then Some(Leq) else Some(Geq)
    case 5 => if d != Some('=') then None else if c == Some('=') then Some(Eql) else Some(Neq)
    case 4 => if d != Some('&') then Some(BitAnd) else None
    case 1 => if d == c then Some(And) else None
    case 0 => if d == c then Some(Or) else None
    case _ => None
  }
}
