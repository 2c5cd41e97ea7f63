/** Comment stripping in an expanded macro. */
module CppComments {
  import opened Sequences

  function DropLast(s: string): (t: string) {
    if s == [] then [] else s[..|s| - 1]
  }

  /** The loop that strips comments, from the state it is in. */
  function Strip(s: string, last: char, ok: bool, incomm: bool, keep: bool, result: string): (r: string)
    decreases |s|
  {
    if s == [] then result
    else
      var opens := !incomm && last == '/' && s[0] == '*';
      var drops := opens && (!keep || (|s| >= 3 && s[..3] == "**/"));
      var ok' := ok && !drops;
      var kept := if drops then DropLast(result) else result;
      var closes := last == '*' && s[0] == '/';
      Strip(s[1..], s[0], ok' || closes, (incomm || opens) && !closes, keep, if ok' then kept + [s[0]] else kept)
  }

  /** No comment begins in the text. */
  ghost predicate CommentFree(s: string) {
    forall i :: 0 <= i < |s| - 1 ==> !(s[i] == '/' && s[i + 1] == '*')
  }

  lemma {:induction false} StripNothing(s: string, last: char, keep: bool, result: string)
    requires CommentFree([last] + s)
    ensures Strip(s, last, true, false, keep, result) == result + s
    decreases |s|
  {
    if s == [] {
      assert result + s == result;
    } else {
      var t := [last] + s;
      assert t[0] == last && t[1] == s[0];
      assert [s[0]] + s[1..] == t[1..];
      StripNothing(s[1..], s[0], keep, result + [s[0]]);
      assert result + [s[0]] + s[1..] == result + s;
    }
  }

  /** A comment as it is written, and no earlier end inside it. */
  function Comment(c: string): (s: string) {
    "/*" + (c + "*/")
  }

  ghost predicate EndsOnce(s: string) {
    forall i :: 0 <= i < |s| - 1 ==> !(s[i] == '*' && s[i + 1] == '/')
  }

  ghost predicate ProperComment(c: string) {
    EndsOnce("*" + (c + "*"))
  }

  function LastOf(s: string, last: char): (c: char) {
    if s == [] then last else s[|s| - 1]
  }

  /** Text in which no comment begins is passed on. */
  lemma {:induction false} StripPlainText(s: string, t: string, last: char, keep: bool, result: string)
    requires CommentFree([last] + s)
    ensures Strip(s + t, last, true, false, keep, result) == Strip(t, LastOf(s, last), true, false, keep, result + s)
    decreases |s|
  {
    if s == [] {
      assert s + t == t && result + s == result;
    } else {
      var u := [last] + s;
      assert u[0] == last && u[1] == s[0] && [s[0]] + s[1..] == u[1..];
      assert (s + t)[1..] == s[1..] + t;
      StripPlainText(s[1..], t, s[0], keep, result + [s[0]]);
      assert result + [s[0]] + s[1..] == result + s;
    }
  }

  /** Inside a comment everything is dropped, or everything kept, up to its end. */
  lemma {:induction false} StripInside(c: string, t: string, last: char, ok: bool, keep: bool, result: string)
    requires EndsOnce([last] + (c + "*"))
    ensures Strip(c + ("*/" + t), last, ok, true, keep, result)
            == Strip(t, '/', true, false, keep, if ok then result + (c + "*/") else result)
    decreases |c|
  {
    var s := c + ("*/" + t);
    if c == [] {
      assert s == "*/" + t && s[1..] == "/" + t && s[1..][1..] == t;
      assert ([last] + (c + "*"))[0] == last;
      assert result + "*" + "/" == result + (c + "*/");
    } else {
      var u := [last] + (c + "*");
      assert u[0] == last && u[1] == c[0] && u[1..] == [c[0]] + (c[1..] + "*");
      assert s[0] == c[0] && s[1..] == c[1..] + ("*/" + t);
      StripInside(c[1..], t, c[0], ok, keep, if ok then result + [c[0]] else result);
      assert result + [c[0]] + (c[1..] + "*/") == result + (c + "*/");
    }
  }

  /** What is left of a comment. */
  function Kept(c: string, keep: bool): (s: string) {
    if keep && c != "" then Comment(c) else ""
  }

  /** A comment is dropped; when comments are kept, only an empty one is. */
  lemma StripOneComment(c: string, t: string, last: char, keep: bool, result: string)
    requires ProperComment(c)
    ensures Strip(Comment(c) + t, last, true, false, keep, result)
            == Strip(t, '/', true, false, keep, result + Kept(c, keep))
  {
    var s := Comment(c) + t;
    var body := c + ("*/" + t);
    assert s == "/*" + body && s[1..] == "*" + body && ("*" + body)[1..] == body;
    DropsWhenEmpty(c, t);
    assert DropLast(result + "/") == result;
    StripInside(c, t, '*', keep && c != "", keep, if keep && c != "" then result + "/" + "*" else result);
    assert result + "/" + "*" + (c + "*/") == result + Comment(c) && result + "" == result;
  }

  lemma DropsWhenEmpty(c: string, t: string)
    requires ProperComment(c)
    ensures var s := "*" + (c + ("*/" + t)); |s| >= 3 && (s[..3] == "**/" <==> c == "")
  {
    var s := "*" + (c + ("*/" + t));
    var u := "*" + (c + "*");
    if c == "" {
      assert s == "*" + ("*/" + t);
    } else if s[..3] == "**/" {
      assert s[1] == c[0] && s[2] == (if |c| > 1 then c[1] else '*');
      assert u[1] == c[0] && u[2] == s[2];
    }
  }

  /** Text made of pieces with comments between them. */
  function Mixed(ps: seq<string>, cs: seq<string>): (s: string)
    requires |ps| == |cs| + 1
  {
    if cs == [] then ps[0] else ps[0] + (Comment(cs[0]) + Mixed(ps[1..], cs[1..]))
  }

  /** What is left of it: the pieces, and when comments are kept those that are not empty. */
  function Stripped(ps: seq<string>, cs: seq<string>, keep: bool): (s: string)
    requires |ps| == |cs| + 1
  {
    if cs == [] then ps[0]
    else ps[0] + (Kept(cs[0], keep) + Stripped(ps[1..], cs[1..], keep))
  }

  ghost predicate ProperPieces(ps: seq<string>, cs: seq<string>) {
    && (forall i :: 0 <= i < |ps| ==> CommentFree(ps[i]))
    && (forall i :: 1 <= i < |ps| ==> ps[i] == [] || ps[i][0] != '*')
    && (forall i :: 0 <= i < |cs| ==> ProperComment(cs[i]))
  }

  lemma CommentFreeBehind(p: string, last: char)
    requires CommentFree(p) && (last != '/' || p == [] || p[0] != '*')
    ensures CommentFree([last] + p)
  {
    var u := [last] + p;
    forall i | 0 <= i < |u| - 1 ensures !(u[i] == '/' && u[i + 1] == '*') {
      if i > 0 {
        assert u[i] == p[i - 1] && u[i + 1] == p[i];
      }
    }
  }

  lemma StripPiece(p: string, c: string, t: string, last: char, keep: bool, result: string)
    requires CommentFree([last] + p) && ProperComment(c)
    ensures Strip(p + (Comment(c) + t), last, true, false, keep, result)
            == Strip(t, '/', true, false, keep, result + (p + Kept(c, keep)))
  {
    StripPlainText(p, Comment(c) + t, last, keep, result);
    StripOneComment(c, t, LastOf(p, last), keep, result + p);
    Associates(result, p, Kept(c, keep));
  }

  /** Comments are stripped from any text in which none follows another's end with a star. */
  lemma {:induction false} StripMixed(ps: seq<string>, cs: seq<string>, last: char, keep: bool, result: string)
    requires |ps| == |cs| + 1 && ProperPieces(ps, cs) && (last != '/' || ps[0] == [] || ps[0][0] != '*')
    ensures Strip(Mixed(ps, cs), last, true, false, keep, result) == result + Stripped(ps, cs, keep)
    decreases |cs|
  {
    var p := ps[0];
    CommentFreeBehind(p, last);
    if cs == [] {
      StripNothing(p, last, keep, result);
    } else {
      StripPiece(p, cs[0], Mixed(ps[1..], cs[1..]), last, keep, result);
      StripMixed(ps[1..], cs[1..], '/', keep, result + (p + Kept(cs[0], keep)));
      Regroup(result, p, Kept(cs[0], keep), Stripped(ps[1..], cs[1..], keep));
    }
  }

  lemma {:induction false} StripIsNoLonger(s: string, last: char, ok: bool, incomm: bool, keep: bool, result: string)
    ensures |Strip(s, last, ok, incomm, keep, result)| <= |result| + |s|
    decreases |s|
  {
    if s != [] {
      var opens := !incomm && last == '/' && s[0] == '*';
      var drops := opens && (!keep || (|s| >= 3 && s[..3] == "**/"));
      var ok' := ok && !drops;
      var kept := if drops then DropLast(result) else result;
      var closes := last == '*' && s[0] == '/';
      StripIsNoLonger(s[1..], s[0], ok' || closes, (incomm || opens) && !closes, keep,
                      if ok' then kept + [s[0]] else kept);
    }
  }

  lemma UpToComment(a: string, c: string, b: string)
    requires CommentFree(a) && ProperComment(c)
    ensures Strip(a + (Comment(c) + b), '\0', true, false, false, "") == Strip(b, '/', true, false, false, a)
  {
    CommentFreeBehind(a, '\0');
    StripPiece(a, c, b, '\0', false, "");
    assert "" + (a + "") == a;
  }

  lemma BehindComment(a: string, b: string)
    requires CommentFree(b)
    ensures Strip(b, '/', true, false, false, a) == a + b <==> b == "" || b[0] != '*'
  {
    if b == "" || b[0] != '*' {
      CommentFreeBehind(b, '/');
      StripNothing(b, '/', false, a);
    } else {
      StripIsNoLonger(b[1..], '*', false, true, false, DropLast(a));
    }
  }

  lemma StarStrips(s: string)
    requires s == "*y"
    ensures Strip(s, '/', true, false, false, "x") == ""
  {
    assert s[1..] == "y" && "y"[1..] == "" && DropLast("x") == "";
    assert Strip("y", '*', false, true, false, "") == Strip("", 'y', false, true, false, "");
  }

  /** In `x`, a comment and `*y` the text before the comment is lost as well. */
  lemma StarBehindComment(s: string)
    requires s == "x/*a*/*y"
    ensures Strip(s, '\0', true, false, false, "") == ""
  {
    assert s == "x" + (Comment("a") + "*y");
    UpToComment("x", "a", "*y");
    StarStrips("*y");
  }

  method StripComments(text: string, keep: bool) returns (result: string)
    ensures result == Strip(text, '\0', true, false, keep, "")
  {
    result := "";
    var last, ok, incomm, i := '\0', true, false, 0;
    assert text[0..] == text;
    while i < |text|
      invariant 0 <= i <= |text|
      invariant Strip(text[i..], last, ok, incomm, keep, result) == Strip(text, '\0', true, false, keep, "")
    {
      ghost var rest := text[i..];
      assert rest[1..] == text[i + 1..];
      if !incomm && last == '/' && text[i] == '*' {
        incomm := true;
        if !keep || (i + 3 <= |text| && text[i..i + 3] == "**/") {
          result := DropLast(result);
          ok := false;
        }
      }
      if ok {
        result := result + [text[i]];
      }
      if last == '*' && text[i] == '/' {
        incomm, ok := false, true;
      }
      last := text[i];
      i := i + 1;
    }
  }
}
