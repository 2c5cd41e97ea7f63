/** Comments as C reads them, and exactly when the stripping loop removes them. */
module CppCommentText {
  import opened CppComments

  // -------------------------------------------------------------------
  // Texts as C reads them
  // -------------------------------------------------------------------

  predicate Opens(s: string) {
    |s| >= 2 && s[0] == '/' && s[1] == '*'
  }

  /** What follows the end of the comment whose text begins here; nothing when it has no end. */
  function Behind(s: string): (t: string)
    ensures |t| <= |s|
  {
    if |s| < 2 then [] else if s[0] == '*' && s[1] == '/' then s[2..] else Behind(s[1..])
  }

  /** The text without its comments. */
  function Plain(s: string): (t: string)
    decreases |s|
  {
    if s == [] then [] else if Opens(s) then Plain(Behind(s[2..])) else [s[0]] + Plain(s[1..])
  }

  predicate Starts(s: string, c: char) {
    s != [] && s[0] == c
  }

  /** Some comment begins with a slash right behind its opening star. */
  predicate Slashed(s: string)
    decreases |s|
  {
    if s == [] then false
    else if Opens(s) then Starts(s[2..], '/') || Slashed(Behind(s[2..]))
    else Slashed(s[1..])
  }

  /** Some comment's end has a star right behind it. */
  predicate Starred(s: string)
    decreases |s|
  {
    if s == [] then false
    else if Opens(s) then Starts(Behind(s[2..]), '*') || Starred(Behind(s[2..]))
    else Starred(s[1..])
  }

  // -------------------------------------------------------------------
  // Texts without slashed comments
  // -------------------------------------------------------------------

  /** Dropping comments, the loop is in a comment or copies; `StripAt` is the loop in either state. */
  function StripAt(s: string, last: char, inside: bool, result: string): (r: string) {
    Strip(s, last, !inside, inside, false, result)
  }

  lemma StripAtUnfolds(s: string, last: char, inside: bool, result: string)
    requires s != []
    ensures var opens, closes := !inside && last == '/' && s[0] == '*', last == '*' && s[0] == '/';
            StripAt(s, last, inside, result)
            == StripAt(s[1..], s[0], (inside || opens) && !closes,
                       if opens then DropLast(result) else if inside then result else result + [s[0]])
  {
  }

  /** In a comment the loop goes on to the comment's end. */
  lemma {:induction false} StripToEnd(s: string, last: char, result: string)
    requires !(last == '*' && Starts(s, '/'))
    ensures StripAt(s, last, true, result) == StripAt(Behind(s), '/', false, result)
    decreases |s|
  {
    if s != [] {
      StripAtUnfolds(s, last, true, result);
      if |s| >= 2 {
        if s[0] == '*' && s[1] == '/' {
          StripAtUnfolds(s[1..], '*', true, result);
          assert s[1..][1..] == s[2..];
        } else {
          StripToEnd(s[1..], s[0], result);
        }
      }
    }
  }

  /** A comment's opening from either state: the loop is inside, and what it holds has not grown. */
  lemma StripOpening(s: string, last: char, inside: bool, result: string) returns (result': string)
    requires Opens(s)
    ensures StripAt(s, last, inside, result) == StripAt(s[2..], '*', true, result') && |result'| <= |result|
    ensures !inside ==> result' == result
  {
    StripAtUnfolds(s, last, inside, result);
    var in1 := inside && last != '*';
    var r1 := if inside then result else result + "/";
    StripAtUnfolds(s[1..], '/', in1, r1);
    assert s[1..][1..] == s[2..] && DropLast(result + "/") == result;
    result' := if in1 then r1 else DropLast(r1);
  }

  /** From whatever state, no more comes out than the text without its comments. */
  lemma {:induction false} StripAddsNoMore(s: string, last: char, inside: bool, result: string)
    requires !Slashed(s)
    ensures |StripAt(s, last, inside, result)| <= |result| + |Plain(s)|
    decreases |s|
  {
    if Opens(s) {
      var result' := StripOpening(s, last, inside, result);
      StripToEnd(s[2..], '*', result');
      StripAddsNoMore(Behind(s[2..]), '/', false, result');
    } else if s != [] {
      StripAtUnfolds(s, last, inside, result);
      var opens, closes := !inside && last == '/' && s[0] == '*', last == '*' && s[0] == '/';
      StripAddsNoMore(s[1..], s[0], (inside || opens) && !closes,
                      if opens then DropLast(result) else if inside then result else result + [s[0]]);
    }
  }

  /** The loop between comments removes those to come, or loses text as well when a star stands behind one. */
  lemma {:induction false} StripBetween(s: string, last: char, result: string)
    requires !Slashed(s) && !(last == '/' && Starts(s, '*'))
    ensures !Starred(s) ==> StripAt(s, last, false, result) == result + Plain(s)
    ensures Starred(s) ==> |StripAt(s, last, false, result)| < |result| + |Plain(s)|
    decreases |s|
  {
    if s == [] {
      assert result + [] == result;
    } else if Opens(s) {
      var t := Behind(s[2..]);
      var result' := StripOpening(s, last, false, result);
      StripToEnd(s[2..], '*', result);
      if Starts(t, '*') {
        StripBehindStar(t, result);
      } else {
        StripBetween(t, '/', result);
      }
    } else {
      StripAtUnfolds(s, last, false, result);
      StripBetween(s[1..], s[0], result + [s[0]]);
      assert result + [s[0]] + Plain(s[1..]) == result + ([s[0]] + Plain(s[1..]));
    }
  }

  lemma StripBehindStar(t: string, result: string)
    requires !Slashed(t) && Starts(t, '*')
    ensures |StripAt(t, '/', false, result)| < |result| + |Plain(t)|
  {
    StripAtUnfolds(t, '/', false, result);
    StripAddsNoMore(t[1..], '*', true, DropLast(result));
  }

  /**
   Every text in which no comment begins with a slash: its comments, and nothing else, are removed exactly when
   none has a star behind its end.
   */
  lemma StarExact(s: string)
    requires !Slashed(s)
    ensures Strip(s, '\0', true, false, false, "") == Plain(s) <==> !Starred(s)
  {
    StripBetween(s, '\0', "");
    assert "" + Plain(s) == Plain(s);
  }

  // -------------------------------------------------------------------
  // Slashed comments
  // -------------------------------------------------------------------

  /** The text of the comment that begins here, up to its end. */
  function Inner(s: string): (c: string)
    ensures |c| + |Behind(s)| <= |s|
  {
    if |s| < 2 then s else if s[0] == '*' && s[1] == '/' then [] else [s[0]] + Inner(s[1..])
  }

  predicate Closed(s: string) {
    |s| >= 2 && ((s[0] == '*' && s[1] == '/') || Closed(s[1..]))
  }

  /** Every comment that begins with a slash has an end, and no other opening inside it. */
  ghost predicate Shallow(s: string)
    decreases |s|
  {
    if s == [] then true
    else if Opens(s) then
      (Starts(s[2..], '/') ==> Closed(s[2..]) && CommentFree(Inner(s[2..]) + "*")) && Shallow(Behind(s[2..]))
    else Shallow(s[1..])
  }

  lemma {:induction false} InnerSplits(s: string)
    requires Closed(s)
    ensures s == Inner(s) + ("*/" + Behind(s))
    decreases |s|
  {
    if s[0] == '*' && s[1] == '/' {
      assert s == "*/" + s[2..];
    } else {
      InnerSplits(s[1..]);
      assert s == [s[0]] + s[1..];
    }
  }

  lemma CommentFreeToEnd(c: string)
    requires CommentFree(c + "*")
    ensures CommentFree(c + "*/")
  {
    var u, v := c + "*", c + "*/";
    forall i | 0 <= i < |v| - 1 ensures !(v[i] == '/' && v[i + 1] == '*') {
      if i + 1 < |u| {
        assert v[i] == u[i] && v[i + 1] == u[i + 1];
      }
    }
  }

  /** The slash of a comment's text closes the comment, and the rest of it comes out with its end. */
  lemma StripSlashed(s: string, result: string)
    requires Starts(s, '/') && Closed(s) && CommentFree(Inner(s) + "*")
    ensures Inner(s) != [] && Inner(s)[0] == '/'
    ensures StripAt(s, '*', true, result) == StripAt(Behind(s), '/', false, result + (Inner(s)[1..] + "*/"))
  {
    var c := Inner(s);
    InnerSplits(s);
    CommentFreeToEnd(c);
    StripAtUnfolds(s, '*', true, result);
    var d := c[1..] + "*/";
    assert s[1..] == d + Behind(s) && ['/'] + d == c + "*/";
    StripPlainText(d, Behind(s), '/', false, result);
  }

  /** Without stars behind comments, slashed ones only add to what comes out. */
  lemma {:induction false} StripAddsMore(s: string, last: char, result: string)
    requires Shallow(s) && !Starred(s) && !(last == '/' && Starts(s, '*'))
    ensures |StripAt(s, last, false, result)| >= |result| + |Plain(s)|
    ensures Slashed(s) ==> |StripAt(s, last, false, result)| > |result| + |Plain(s)|
    decreases |s|
  {
    if Opens(s) {
      var t, c := Behind(s[2..]), Inner(s[2..]);
      var result' := StripOpening(s, last, false, result);
      if Starts(s[2..], '/') {
        StripSlashed(s[2..], result);
        StripAddsMore(t, '/', result + (c[1..] + "*/"));
      } else {
        StripToEnd(s[2..], '*', result);
        StripAddsMore(t, '/', result);
      }
    } else if s != [] {
      StripAtUnfolds(s, last, false, result);
      StripAddsMore(s[1..], s[0], result + [s[0]]);
    }
  }

  /** Every text with one kind of fault at most: just its comments are removed exactly when it has none. */
  lemma StripExact(s: string)
    requires Shallow(s) && !(Slashed(s) && Starred(s))
    ensures Strip(s, '\0', true, false, false, "") == Plain(s) <==> !Slashed(s) && !Starred(s)
  {
    if Slashed(s) {
      StripAddsMore(s, '\0', "");
    } else {
      StarExact(s);
    }
  }

  // -------------------------------------------------------------------
  // One comment between two texts
  // -------------------------------------------------------------------

  /** The text of a comment as C reads it; one that begins with a slash has no other opening in it. */
  ghost predicate CComment(c: string) {
    EndsOnce(c + "*") && (Starts(c, '/') ==> CommentFree(c + "*"))
  }

  lemma ProperIsUnslashed(c: string)
    requires EndsOnce(c + "*")
    ensures ProperComment(c) <==> !Starts(c, '/')
  {
    var u, v := "*" + (c + "*"), c + "*";
    if Starts(c, '/') {
      assert u[0] == '*' && u[1] == '/';
    } else {
      forall i | 0 <= i < |u| - 1 ensures !(u[i] == '*' && u[i + 1] == '/') {
        assert i > 0 ==> u[i] == v[i - 1] && u[i + 1] == v[i];
        assert c != [] ==> u[1] == c[0];
      }
    }
  }

  /** In text without openings nothing that is held is taken back. */
  lemma {:induction false} StripKeepsHeld(s: string, last: char, inside: bool, result: string)
    requires CommentFree([last] + s)
    ensures result <= StripAt(s, last, inside, result)
    decreases |s|
  {
    if s != [] {
      var u := [last] + s;
      assert u[0] == last && u[1] == s[0] && [s[0]] + s[1..] == u[1..];
      StripAtUnfolds(s, last, inside, result);
      var closes := last == '*' && s[0] == '/';
      StripKeepsHeld(s[1..], s[0], inside && !closes, if inside then result else result + [s[0]]);
    }
  }

  /** A comment as it is written is read up to its end. */
  lemma {:induction false} InnerOfWritten(c: string, b: string)
    requires EndsOnce(c + "*")
    ensures var s := c + ("*/" + b); Closed(s) && Inner(s) == c && Behind(s) == b
    decreases |c|
  {
    var s, u := c + ("*/" + b), c + "*";
    if c == [] {
      assert s == "*/" + b && s[2..] == b;
    } else {
      assert u[0] == s[0] && u[1] == s[1] && u[1..] == c[1..] + "*";
      assert s[1..] == c[1..] + ("*/" + b);
      InnerOfWritten(c[1..], b);
      assert [c[0]] + c[1..] == c;
    }
  }

  lemma WrittenOpens(c: string, b: string)
    ensures Opens(Comment(c) + b) && (Comment(c) + b)[2..] == c + ("*/" + b)
  {
  }

  /** Without the comment the two texts are left. */
  lemma {:induction false} PlainOfWritten(a: string, c: string, b: string)
    requires CommentFree(a) && EndsOnce(c + "*") && CommentFree(b)
    ensures Plain(a + (Comment(c) + b)) == a + b
    decreases |a|
  {
    var s := a + (Comment(c) + b);
    if a == [] {
      assert s == Comment(c) + b && a + b == b;
      WrittenOpens(c, b);
      InnerOfWritten(c, b);
      PlainOfFree(b);
    } else {
      assert s[0] == a[0] && s[1] == (if |a| > 1 then a[1] else '/') && s[1..] == a[1..] + (Comment(c) + b);
      PlainOfWritten(a[1..], c, b);
      assert [a[0]] + (a[1..] + b) == a + b;
    }
  }

  lemma {:induction false} PlainOfFree(b: string)
    requires CommentFree(b)
    ensures Plain(b) == b
    decreases |b|
  {
    if b != [] {
      PlainOfFree(b[1..]);
      assert [b[0]] + b[1..] == b;
    }
  }

  lemma UpToSlashed(a: string, c: string, b: string)
    requires CommentFree(a) && CComment(c) && Starts(c, '/')
    ensures StripAt(a + (Comment(c) + b), '\0', false, "") == StripAt(b, '/', false, a + (c[1..] + "*/"))
  {
    var s := Comment(c) + b;
    CommentFreeBehind(a, '\0');
    StripPlainText(a, s, '\0', false, "");
    assert "" + a == a;
    WrittenOpens(c, b);
    InnerOfWritten(c, b);
    var a' := StripOpening(s, LastOf(a, '\0'), false, a);
    StripSlashed(s[2..], a);
  }

  /** Behind a slashed comment, whatever follows, the comment's second character comes out. */
  lemma SlashedShows(a: string, d: string, b: string)
    requires d != [] && d[0] != '*' && CommentFree(b)
    ensures StripAt(b, '/', false, a + (d + "*/")) != a + b
  {
    var r := a + (d + "*/");
    if Starts(b, '*') {
      StripAtUnfolds(b, '/', false, r);
      assert ['*'] + b[1..] == b && DropLast(r) == a + (d + "*");
      StripKeepsHeld(b[1..], '*', true, DropLast(r));
      assert DropLast(r)[|a|] == d[0] && (a + b)[|a|] == '*';
    } else {
      CommentFreeBehind(b, '/');
      StripNothing(b, '/', false, r);
    }
  }

  /**
   Between two texts a comment disappears without trace exactly when its text does not begin with a slash and no
   star follows its end.
   */
  lemma CommentDisappears(a: string, c: string, b: string)
    requires CommentFree(a) && CommentFree(b) && CComment(c)
    ensures Plain(a + (Comment(c) + b)) == a + b
    ensures Strip(a + (Comment(c) + b), '\0', true, false, false, "") == a + b
            <==> !Starts(c, '/') && !Starts(b, '*')
  {
    PlainOfWritten(a, c, b);
    ProperIsUnslashed(c);
    if Starts(c, '/') {
      var u := c + "*";
      assert u[0] == '/' && u[1] == (if |c| > 1 then c[1] else '*');
      UpToSlashed(a, c, b);
      SlashedShows(a, c[1..], b);
    } else {
      UpToComment(a, c, b);
      BehindComment(a, b);
    }
  }

  // -------------------------------------------------------------------
  // Comments kept
  // -------------------------------------------------------------------

  /** No empty comment stands in the text, not even inside another one. */
  predicate NoneEmpty(s: string) {
    |s| < 4 || (s[..4] != "/**/" && NoneEmpty(s[1..]))
  }

  lemma {:induction false} StripKeepsAll(s: string, last: char, incomm: bool, result: string)
    requires NoneEmpty([last] + s)
    ensures Strip(s, last, true, incomm, true, result) == result + s
    decreases |s|
  {
    if s == [] {
      assert result + s == result;
    } else {
      var u := [last] + s;
      assert [s[0]] + s[1..] == u[1..] && NoneEmpty(u[1..]);
      assert |s| >= 3 ==> u[..4] == [last] + s[..3];
      var opens, closes := !incomm && last == '/' && s[0] == '*', last == '*' && s[0] == '/';
      StripKeepsAll(s[1..], s[0], (incomm || opens) && !closes, result + [s[0]]);
      assert result + [s[0]] + s[1..] == result + s;
    }
  }

  /** When comments are kept, a text without empty ones is left as it is, whatever its comments look like. */
  lemma KeptWhole(s: string)
    requires NoneEmpty(s)
    ensures Strip(s, '\0', true, false, true, "") == s
  {
    var u := ['\0'] + s;
    assert u[1..] == s;
    if |u| >= 4 {
      assert u[..4][0] == '\0';
    }
    StripKeepsAll(s, '\0', false, "");
    assert "" + s == s;
  }

  // -------------------------------------------------------------------
  // Examples
  // -------------------------------------------------------------------

  /** In `x`, a comment that begins with a slash and `y` the rest of the comment comes out. */
  lemma SlashInComment(s: string)
    requires s == "x/*/a*/y"
    ensures Strip(s, '\0', true, false, false, "") == "xa*/y"
  {
    var c := "/a";
    assert s == "x" + (Comment(c) + "y") && c + "*" == "/a*" && c[1..] == "a";
    UpToSlashed("x", c, "y");
    CommentFreeBehind("y", '/');
    StripNothing("y", '/', false, "xa*/");
  }

  lemma SlashedEnd(u: string)
    requires u == "/*/x*/"
    ensures StripAt(u, '/', false, "") == "x*/" && Plain(u) == ""
  {
    var v := u[2..];
    assert v == "/x" + ("*/" + "") && "/x" + "*" == "/x*" && "/x"[1..] + "*/" == "x*/" && Opens(u);
    InnerOfWritten("/x", "");
    var a' := StripOpening(u, '/', false, "");
    StripSlashed(v, "");
  }

  lemma StarredMiddle(t: string, u: string)
    requires t == "*/" + u && Starts(u, '/')
    ensures StripAt(t, '/', false, "x") == StripAt(u, '/', false, "") && Plain(t) == "*/" + Plain(u)
  {
    assert t[1..] == "/" + u && t[1..][1..] == u && DropLast("x") == "";
    StripAtUnfolds(t, '/', false, "x");
    StripAtUnfolds(t[1..], '*', true, "");
  }

  lemma PlainBehind(s: string, t: string)
    requires s == "x" + ("/**/" + t)
    ensures Plain(s) == "x" + Plain(t)
  {
    assert s[1..] == "/**/" + t && s[1..][2..] == "*/" + t && ("*/" + t)[2..] == t;
  }

  lemma UpToStarred(s: string, t: string, u: string)
    requires s == "x" + ("/**/" + t) && t == "*/" + u && Starts(u, '/')
    ensures StripAt(s, '\0', false, "") == StripAt(u, '/', false, "") && Plain(s) == "x" + ("*/" + Plain(u))
  {
    assert Comment("") == "/**/";
    UpToComment("x", "", t);
    StarredMiddle(t, u);
    PlainBehind(s, t);
  }

  /** A star behind one comment and a slash in the next: here the two faults undo each other. */
  lemma FaultsCancel(s: string)
    requires s == "x/**/*//*/x*/"
    ensures Strip(s, '\0', true, false, false, "") == Plain(s) == "x*/"
  {
    var u := s[7..];
    assert u == "/*/x*/" && s == "x" + ("/**/" + ("*/" + u));
    SlashedEnd(u);
    UpToStarred(s, "*/" + u, u);
  }

  /** An opening inside a slashed comment: here the slash does no harm. */
  lemma OpeningInside(s: string)
    requires s == "/*/*/"
    ensures Slashed(s) && Strip(s, '\0', true, false, false, "") == Plain(s) == ""
  {
    var t := s[2..];
    assert t == "/*/" && t[1..] == "*/" && t[1..][1..] == "/" && Opens(s);
    var a' := StripOpening(s, '\0', false, "");
    StripAtUnfolds(t, '*', true, "");
    StripAtUnfolds(t[1..], '/', false, "");
    StripAtUnfolds(t[1..][1..], '*', true, "");
    assert Behind(t) == "";
  }
}
