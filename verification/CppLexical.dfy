/** Character classes and the skipping of blanks in the preprocessor's input. */
module CppLexical {
  import opened Bytes

  /** What reading delivers at the end of the input. */
  const EOF: char := '\U{00FF}'

  predicate HSpace(c: char) {
    c == ' ' || c == '\t'
  }

  predicate Space(c: char) {
    c == ' ' || 9 as char <= c <= 13 as char
  }

  predicate Digit(c: char) {
    '0' <= c <= '9'
  }

  /** A character an identifier can begin with. */
  predicate SymStart(c: char) {
    'a' <= c <= 'z' || 'A' <= c <= 'Z' || c == '_'
  }

  predicate SymChar(c: char) {
    SymStart(c) || Digit(c) || c == '$'
  }

  function Head(s: string): (c: char) {
    if s == [] then EOF else s[0]
  }

  /** The character at the front, if any. */
  function First(s: string): (c: Option<char>) {
    if s == [] then None else Some(s[0])
  }

  function Tail(s: string): (t: string)
    ensures |t| <= |s| && (s != [] ==> |t| < |s|)
  {
    if s == [] then [] else s[1..]
  }

  /** What follows the comment whose opening has been read. */
  function AfterComment(s: string): (t: string)
    ensures |t| <= |s|
  {
    if |s| < 2 then []
    else if s[0] == '*' && s[1] == '/' then s[2..]
    else AfterComment(s[1..])
  }

  /** Where the next character of an expression stands: blanks, comments and, in a directive, line joins are passed. */
  function Skip(s: string, sharp: bool): (t: string)
    ensures |t| <= |s|
    decreases |s|
  {
    if s == [] then []
    else if HSpace(s[0]) then Skip(s[1..], sharp)
    else if s[0] == '/' && |s| > 1 && s[1] == '*' then Skip(AfterComment(s[2..]), sharp)
    else if sharp && s[0] == '\\' && |s| > 1 && s[1] == '\n' then Skip(s[2..], sharp)
    else s
  }

  function SkipSpace(s: string): (t: string)
    ensures |t| <= |s|
  {
    if s != [] && Space(s[0]) then SkipSpace(s[1..]) else s
  }

  /** The characters of an identifier at the front of `s`. */
  function SymLength(s: string): (n: nat)
    ensures n <= |s|
  {
    if s != [] && SymChar(s[0]) then 1 + SymLength(s[1..]) else 0
  }

  lemma {:induction false} SkipTwice(s: string, sharp: bool)
    ensures Skip(Skip(s, sharp), sharp) == Skip(s, sharp)
    decreases |s|
  {
    if s == [] {
    } else if HSpace(s[0]) {
      SkipTwice(s[1..], sharp);
    } else if s[0] == '/' && |s| > 1 && s[1] == '*' {
      SkipTwice(AfterComment(s[2..]), sharp);
    } else if sharp && s[0] == '\\' && |s| > 1 && s[1] == '\n' {
      SkipTwice(s[2..], sharp);
    }
  }

  predicate Identifier(name: string) {
    name != [] && SymStart(name[0]) && forall i :: 0 <= i < |name| ==> SymChar(name[i])
  }

  /** An identifier is read to its end when no further symbol character follows. */
  lemma {:induction false} SymLengthOf(name: string, rest: string)
    requires forall i :: 0 <= i < |name| ==> SymChar(name[i])
    requires rest == [] || !SymChar(rest[0])
    ensures SymLength(name + rest) == |name|
  {
    if name == [] {
      assert name + rest == rest;
    } else {
      assert (name + rest)[1..] == name[1..] + rest;
      SymLengthOf(name[1..], rest);
    }
  }
}
