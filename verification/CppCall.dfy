/** A macro from its definition to the text its call delivers. */
module CppCall {
  import opened Bytes
  import opened CppLexical
  import opened CppInput
  import opened CppActuals
  import opened CppComments
  import opened CppMacro
  import opened CppDefine
  import opened CppExpand
  import CppLexemes

  /** Read the next `n` characters. */
  method Deliver(input: Input, n: nat) returns (s: string)
    requires input.Valid() && n <= |input.text|
    modifies input
    ensures input.Valid() && s == old(input.text)[..n] && input.text == old(input.text)[n..]
    ensures input.LastLine() == old(input.LastLine())
  {
    s := "";
    ghost var text, line := input.text, input.LastLine();
    while |s| < n
      invariant |s| <= n && s == text[..|s|] && input.Valid() && input.text == text[|s|..] && input.LastLine() == line
    {
      var c := input.Get();
      s := s + [c.value];
    }
  }

  /** Formals of a macro with a parameter list; a macro without one has none at all. */
  datatype Parameters = ObjectLike | Formals(names: seq<string>) {
    function Names(): (r: seq<string>) {
      match this
      case ObjectLike => []
      case Formals(names) => names
    }

    /** `nargs` as the definition stores it. */
    function Nargs(): (n: int) {
      match this
      case ObjectLike => -1
      case Formals(names) => |names|
    }
  }

  /** A call as it is written behind the macro's name. */
  function CallText(params: Parameters, args: seq<string>): (s: string)
    requires |args| == |params.Names()|
  {
    match params
    case ObjectLike => ""
    case Formals(names) => if names == [] then "()" else "(" + Join(args)
  }

  /** What a call has to look like to be replaced as it stands. */
  ghost predicate Replaceable(body: string, params: Parameters, args: seq<string>) {
    && Ascii(body) && |params.Names()| <= MAX_FORMALS && |args| == |params.Names()| && AllBalanced(args)
    && (var text := Substitute(body, false, params.Names(), args); CommentFree(text) && PasteFree(text))
  }

  lemma EmptyCallIsFound(rest: string)
    ensures Actuals("()" + rest, 0) == Some(([], rest))
  {
    var s, t := "()" + rest, ")" + rest;
    assert s[1..] == t && t[1..] == rest && SkipSpace(s) == s && SkipSpace(t) == t;
  }

  lemma ArgumentsAreFound(args: seq<string>, rest: string)
    requires args != [] && AllBalanced(args)
    ensures Actuals("(" + Join(args) + rest, |args|) == Some((args, rest))
  {
    assert "(" + Join(args) + rest == "(" + (Join(args) + rest);
    ActualsOfCall(args, rest);
  }

  /** The arguments of a written call are found again, whatever kind of macro it is. */
  lemma CallIsFound(params: Parameters, args: seq<string>, rest: string)
    requires |args| == |params.Names()| && AllBalanced(args)
    ensures Called(CallText(params, args) + rest, params.Nargs()) == Some((args, rest))
  {
    var s := CallText(params, args) + rest;
    match params
    case ObjectLike => assert s == rest && args == [];
    case Formals(names) =>
      if names == [] {
        assert args == [];
        EmptyCallIsFound(rest);
      } else {
        ArgumentsAreFound(args, rest);
      }
  }

  /** White space may stand between the name and the parenthesis. */
  lemma SpacedCallIsFound(ws: string, names: seq<string>, args: seq<string>, rest: string)
    requires |args| == |names| && AllBalanced(args) && forall i :: 0 <= i < |ws| ==> ws[i] in CppLexemes.WHITE
    ensures Called(ws + (CallText(Formals(names), args) + rest), |names|) == Some((args, rest))
  {
    var s := CallText(Formals(names), args) + rest;
    assert s[0] == '(';
    CallIsFound(Formals(names), args, rest);
    CppLexemes.WhiteIsSkipped(ws, s);
    CppLexemes.WhiteIsSkipped([], s);
    assert [] + s == s;
  }

  lemma CallDelivers(body: string, params: Parameters, args: seq<string>, rest: string, keep: bool)
    requires Replaceable(body, params, args)
    ensures var repl, s := Encode(body, false, params.Names()), CallText(params, args) + rest;
            && Called(s, params.Nargs()) == Some((args, rest)) && Stored(repl, |args|)
            && Expansion(repl, args, keep) == Substitute(body, false, params.Names(), args)
            && Paste(Expansion(repl, args, keep)) == Substitute(body, false, params.Names(), args)
  {
    CallIsFound(params, args, rest);
    ExpansionSubstitutes(body, params.Names(), args, keep);
  }

  /**
   Define a macro, call it with as many arguments as it has formals, none included, and read on: the body comes
   out with every formal replaced by its argument, all at once, and the input stands right behind the call.
   */
  method DefineAndCall(buf: array<char>, n: nat, params: Parameters, args: seq<string>, ghost rest: string,
                       input: Input, keep: bool)
    returns (out: string)
    requires n < buf.Length && buf[n] == '\0' && Replaceable(buf[..n], params, args)
    requires buf != input.pushback && input.Valid() && input.text == CallText(params, args) + rest
    requires input.npushed + 1 + |Substitute(buf[..n], false, params.Names(), args)| <= MAX_PUSHBACK + 1
    modifies buf, input, input.pushback
    ensures out == Substitute(old(buf[..n]), false, params.Names(), args)
    ensures input.Valid() && input.text == rest && input.LastLine() == old(input.LastLine())
  {
    var body := buf[..n];
    CallDelivers(body, params, args, rest, keep);
    var t := EncodeBody(buf, n, params.Names());
    var ok, held := ExpandDef(input, params.Nargs(), buf[..t], keep);
    var text := Substitute(body, false, params.Names(), args);
    assert input.text[..|text|] == text && input.text[|text|..] == rest;
    out := Deliver(input, |text|);
  }
}
