/** What replacing a macro's formals means, stated on the text of the body: words, other characters, comments. */
module CppBody {
  import opened Bytes
  import opened CppLexical
  import opened CppMacro
  import opened CppComments

  // -------------------------------------------------------------------
  // Finding a formal
  // -------------------------------------------------------------------

  lemma {:induction false} FormalFromFinds(formals: seq<string>, id: string, k: nat, i: nat)
    requires k <= i < |formals| && formals[i] == id && forall j :: k <= j < i ==> formals[j] != id
    ensures FormalFrom(formals, id, k) == Some(i)
    decreases i - k
  {
    if k < i {
      FormalFromFinds(formals, id, k + 1, i);
    }
  }

  /** The first formal of that name is found, and none when there is none. */
  lemma FormalIsFirst(formals: seq<string>, id: string)
    ensures id !in formals <==> Formal(formals, id) == None
    ensures forall i :: 0 <= i < |formals| && formals[i] == id && (forall j :: 0 <= j < i ==> formals[j] != id)
              ==> Formal(formals, id) == Some(i)
  {
    forall i | 0 <= i < |formals| && formals[i] == id && (forall j :: 0 <= j < i ==> formals[j] != id)
      ensures Formal(formals, id) == Some(i)
    {
      FormalFromFinds(formals, id, 0, i);
    }
    if id in formals {
      var i := First(formals, id);
      FormalFromFinds(formals, id, 0, i);
    }
  }

  ghost function First(formals: seq<string>, id: string): (i: nat)
    requires id in formals
    ensures i < |formals| && formals[i] == id && forall j :: 0 <= j < i ==> formals[j] != id
  {
    if formals[0] == id then 0 else First(formals[1..], id) + 1
  }

  // -------------------------------------------------------------------
  // The text piece by piece
  // -------------------------------------------------------------------

  /** No identifier goes on here. */
  predicate Apart(rest: string) {
    rest == [] || !SymChar(rest[0])
  }

  lemma WordOf(word: string, rest: string)
    requires Identifier(word) && Apart(rest)
    ensures var s := word + rest; SymStart(s[0]) && SymLength(s) == |word| && s[..|word|] == word && s[|word|..] == rest
  {
    SymLengthOf(word, rest);
  }

  /** A formal gives way to its argument. */
  lemma FormalReplaced(formals: seq<string>, actuals: seq<string>, i: nat, rest: string)
    requires |actuals| == |formals| && i < |formals| && Identifier(formals[i]) && Apart(rest)
    requires forall j :: 0 <= j < i ==> formals[j] != formals[i]
    ensures Substitute(formals[i] + rest, false, formals, actuals)
            == actuals[i] + Substitute(rest, false, formals, actuals)
  {
    WordOf(formals[i], rest);
    FormalFromFinds(formals, formals[i], 0, i);
  }

  /** Any other word stays. */
  lemma WordStays(formals: seq<string>, actuals: seq<string>, word: string, rest: string)
    requires |actuals| == |formals| && Identifier(word) && word !in formals && Apart(rest)
    ensures Substitute(word + rest, false, formals, actuals) == word + Substitute(rest, false, formals, actuals)
  {
    WordOf(word, rest);
    FormalIsFirst(formals, word);
  }

  /** So does any other character that opens no comment. */
  lemma CharacterStays(formals: seq<string>, actuals: seq<string>, c: char, rest: string)
    requires |actuals| == |formals| && !SymStart(c) && !(c == '/' && rest != [] && rest[0] == '*')
    ensures Substitute([c] + rest, false, formals, actuals) == [c] + Substitute(rest, false, formals, actuals)
  {
    var s := [c] + rest;
    assert s[..1] == [c] && s[1..] == rest;
  }

  // -------------------------------------------------------------------
  // Comments
  // -------------------------------------------------------------------

  predicate EndsWithSlash(c: string) {
    c != [] && c[|c| - 1] == '/'
  }

  /** What follows the text `c` of an open comment: its end, or a slash that hides the end. */
  function Behind(c: string, rest: string, formals: seq<string>, actuals: seq<string>): (s: string)
    requires |actuals| == |formals|
  {
    if EndsWithSlash(c) then "*" + Substitute("/" + rest, true, formals, actuals)
    else "*/" + Substitute(rest, false, formals, actuals)
  }

  lemma InFront(c: string, n: nat, t: string)
    requires n <= |c|
    ensures c[..n] + (c[n..] + t) == c + t
  {
  }

  /** Inside a comment everything stays; its end is seen unless a slash stands right before it. */
  lemma {:induction false} InsideStays(formals: seq<string>, actuals: seq<string>, c: string, rest: string)
    requires |actuals| == |formals| && EndsOnce(c + "*")
    ensures Substitute(c + ("*/" + rest), true, formals, actuals) == c + Behind(c, rest, formals, actuals)
    decreases |c|
  {
    if c == [] || c == "/" {
      InsideEnds(formals, actuals, c, rest);
    } else {
      var n := InsideStep(formals, actuals, c, rest);
      InsideStays(formals, actuals, c[n..], rest);
      InFront(c, n, Behind(c, rest, formals, actuals));
    }
  }

  lemma InsideEnds(formals: seq<string>, actuals: seq<string>, c: string, rest: string)
    requires |actuals| == |formals| && (c == [] || c == "/")
    ensures Substitute(c + ("*/" + rest), true, formals, actuals) == c + Behind(c, rest, formals, actuals)
  {
    if c == [] {
      EndIsSeen(formals, actuals, rest);
      NothingInFront("*/" + rest);
      NothingInFront(Behind(c, rest, formals, actuals));
    } else {
      EndIsHidden(formals, actuals, "/" + rest);
      StarMoves(rest);
      SlashMoves(Substitute("/" + rest, true, formals, actuals));
    }
  }

  lemma NothingInFront(t: string)
    ensures [] + t == t
  {
  }

  lemma StarMoves(rest: string)
    ensures "/" + ("*/" + rest) == "/*" + ("/" + rest)
  {
  }

  lemma SlashMoves(t: string)
    ensures "/" + ("*" + t) == "/*" + t
  {
  }

  lemma EndIsSeen(formals: seq<string>, actuals: seq<string>, rest: string)
    requires |actuals| == |formals|
    ensures Substitute("*/" + rest, true, formals, actuals) == "*/" + Substitute(rest, false, formals, actuals)
  {
    var s := "*/" + rest;
    assert s[..2] == "*/" && s[2..] == rest;
  }

  lemma EndIsHidden(formals: seq<string>, actuals: seq<string>, rest: string)
    requires |actuals| == |formals|
    ensures Substitute("/*" + rest, true, formals, actuals) == "/*" + Substitute(rest, true, formals, actuals)
  {
    var s := "/*" + rest;
    assert s[..2] == "/*" && s[2..] == rest;
  }

  lemma InsideStep(formals: seq<string>, actuals: seq<string>, c: string, rest: string) returns (n: nat)
    requires |actuals| == |formals| && EndsOnce(c + "*") && c != [] && c != "/"
    ensures 1 <= n <= |c| && EndsOnce(c[n..] + "*") && EndsWithSlash(c[n..]) == EndsWithSlash(c)
    ensures Substitute(c + ("*/" + rest), true, formals, actuals)
            == c[..n] + Substitute(c[n..] + ("*/" + rest), true, formals, actuals)
  {
    var s, u := c + ("*/" + rest), c + "*";
    assert s[0] == c[0] == u[0] && s[1] == (if |c| > 1 then c[1] else '*') == u[1];
    n := if c[0] == '/' && s[1] == '*' then 2 else 1;
    assert s[..n] == c[..n] && s[n..] == c[n..] + ("*/" + rest) && u[n..] == c[n..] + "*";
  }

  /** The comment stays, and the text behind it is replaced in as if it stood alone, whatever the macro. */
  ghost predicate LeftAlone(c: string) {
    forall formals: seq<string>, actuals: seq<string>, rest: string | |actuals| == |formals| ::
      Substitute("/*" + (c + ("*/" + rest)), false, formals, actuals)
      == "/*" + (c + ("*/" + Substitute(rest, false, formals, actuals)))
  }

  lemma Opening(formals: seq<string>, actuals: seq<string>, t: string)
    requires |actuals| == |formals|
    ensures Substitute("/*" + t, false, formals, actuals) == "/*" + Substitute(t, true, formals, actuals)
  {
    var s := "/*" + t;
    assert s[..2] == "/*" && s[2..] == t;
  }

  /** A body with such a comment: the formal behind it is not replaced. */
  lemma HiddenEnd(c: string, formals: seq<string>, actuals: seq<string>)
    requires EndsOnce(c + "*") && EndsWithSlash(c) && formals == ["x"] && actuals == ["yy"]
    ensures Substitute("/*" + (c + ("*/" + "x")), false, formals, actuals) == "/*" + (c + ("*/" + "x"))
    ensures Substitute("x", false, formals, actuals) == "yy"
  {
    Opening(formals, actuals, c + ("*/" + "x"));
    InsideStays(formals, actuals, c, "x");
    SlashAndWord(formals, actuals);
    assert "*" + "/x" == "*/" + "x";
    assert "x" + [] == "x" && "yy" + [] == "yy" && Apart([]);
    FormalReplaced(formals, actuals, 0, []);
  }

  lemma SlashAndWord(formals: seq<string>, actuals: seq<string>)
    requires |actuals| == |formals|
    ensures Substitute("/" + "x", true, formals, actuals) == "/x"
  {
    var s := "/" + "x";
    assert s[..1] == "/" && s[1..] == "x" && "x"[..1] == "x" && "x"[1..] == [];
    assert Substitute([], true, formals, actuals) == [] && "x" + [] == "x";
    assert Substitute("x", true, formals, actuals) == "x" + [];
  }

  /** A comment of a macro's body is left alone exactly when no slash stands right before its end. */
  lemma CommentStays(c: string)
    requires EndsOnce(c + "*")
    ensures LeftAlone(c) <==> !EndsWithSlash(c)
  {
    if EndsWithSlash(c) {
      var formals, actuals := ["x"], ["yy"];
      HiddenEnd(c, formals, actuals);
      var whole, rest := "/*" + (c + ("*/" + "x")), Substitute("x", false, formals, actuals);
      assert |"/*" + (c + ("*/" + rest))| == |whole| + 1;
      assert !LeftAlone(c);
    } else {
      forall formals: seq<string>, actuals: seq<string>, rest: string | |actuals| == |formals|
        ensures Substitute("/*" + (c + ("*/" + rest)), false, formals, actuals)
                == "/*" + (c + ("*/" + Substitute(rest, false, formals, actuals)))
      {
        Opening(formals, actuals, c + ("*/" + rest));
        InsideStays(formals, actuals, c, rest);
      }
    }
  }

  // -------------------------------------------------------------------
  // A call
  // -------------------------------------------------------------------

  /** The body `x*x` with 3 for `x`. */
  lemma SquareExample(body: string, formals: seq<string>, actuals: seq<string>)
    requires body == "x*x" && formals == ["x"] && actuals == ["3"]
    ensures Substitute(body, false, formals, actuals) == "3*3"
  {
    assert body == "x" + "*x" && "*x" == ['*'] + "x" && "x" == "x" + "" && Apart("*x") && Apart("");
    FormalReplaced(formals, actuals, 0, "*x");
    CharacterStays(formals, actuals, '*', "x");
    FormalReplaced(formals, actuals, 0, "");
    assert "3" + ("*" + ("3" + "")) == "3*3";
  }
}
