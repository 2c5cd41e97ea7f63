/** `expand_def`: a macro call replaced in the input by the text it stands for. */
module CppExpand {
  import opened Bytes
  import opened Sequences
  import opened CppLexical
  import opened CppInput
  import opened CppActuals
  import opened CppComments
  import opened CppMacro

  // -------------------------------------------------------------------
  // Pasting
  // -------------------------------------------------------------------

  /** The text without its `##`, paired from the right. */
  function Paste(s: string): (t: string)
    ensures |t| <= |s|
  {
    if s == [] then []
    else if |s| >= 2 && s[|s| - 1] == '#' && s[|s| - 2] == '#' then Paste(s[..|s| - 2])
    else Paste(s[..|s| - 1]) + [s[|s| - 1]]
  }

  ghost predicate PasteFree(s: string) {
    forall i :: 0 <= i < |s| - 1 ==> !(s[i] == '#' && s[i + 1] == '#')
  }

  lemma {:induction false} PasteNothing(s: string)
    requires PasteFree(s)
    ensures Paste(s) == s
  {
    if s != [] {
      PasteNothing(s[..|s| - 1]);
      assert s[..|s| - 1] + [s[|s| - 1]] == s;
    }
  }

  lemma PastePair(a: string)
    ensures Paste(a + "##") == Paste(a)
  {
    var s := a + "##";
    assert s[..|s| - 2] == a;
  }

  lemma PasteEnd(a: string, c: char)
    requires c != '#'
    ensures Paste(a + [c]) == Paste(a) + [c]
  {
    var s := a + [c];
    assert s[..|s| - 1] == a;
  }

  lemma LastApart(a: string, b: string)
    requires b != []
    ensures a + b[..|b| - 1] + [b[|b| - 1]] == a + b
  {
  }

  /** Pasting joins what stands on the two sides of `##`. */
  lemma {:induction false} PasteJoins(a: string, b: string)
    requires '#' !in b
    ensures Paste(a + "##" + b) == Paste(a) + b
    decreases |b|
  {
    if b == [] {
      PastePair(a);
      assert a + "##" + b == a + "##" && Paste(a) + b == Paste(a);
    } else {
      var b', c := b[..|b| - 1], b[|b| - 1];
      PasteJoins(a, b');
      PasteEnd(a + "##" + b', c);
      LastApart(a + "##", b);
      LastApart(Paste(a), b);
    }
  }

  /** What is pasted from the first `dp` characters and what was pushed already make the whole. */
  ghost predicate Pasting(s: string, dp: nat, pushed: string, whole: string) {
    dp <= |s| && whole == Paste(s[..dp]) + pushed
  }

  lemma PastingStep(s: string, dp: nat, pushed: string, whole: string)
    requires 0 < dp && Pasting(s, dp, pushed, whole)
    ensures if dp >= 2 && s[dp - 1] == '#' && s[dp - 2] == '#' then Pasting(s, dp - 2, pushed, whole)
            else Pasting(s, dp - 1, [s[dp - 1]] + pushed, whole)
  {
    var r, c := s[..dp], s[dp - 1];
    if dp >= 2 && s[dp - 1] == '#' && s[dp - 2] == '#' {
      assert r[..dp - 2] == s[..dp - 2];
    } else {
      assert r[..dp - 1] == s[..dp - 1];
      assert Paste(s[..dp - 1]) + [c] + pushed == Paste(s[..dp - 1]) + ([c] + pushed);
    }
  }

  lemma PastingBegins(s: string)
    ensures Pasting(s, |s|, "", Paste(s))
  {
    assert s[..|s|] == s && Paste(s) + "" == Paste(s);
  }

  lemma PastingEnds(s: string, pushed: string, whole: string)
    requires Pasting(s, 0, pushed, whole)
    ensures pushed == whole
  {
    assert s[..0] == [] && [] + pushed == pushed;
  }

  // -------------------------------------------------------------------
  // The steps
  // -------------------------------------------------------------------

  /** What is expanded and what is still stored make the whole. */
  ghost predicate Expanding(left: string, actuals: seq<string>, result: string, whole: string) {
    Stored(left, |actuals|) && whole == result + Expand(left, actuals)
  }

  lemma ExpandingStep(left: string, actuals: seq<string>, result: string, whole: string)
    requires left != [] && Expanding(left, actuals, result, whole)
    ensures var c := left[0] as int;
            && (c >= 0x80 ==> c - 0x80 < |actuals|)
            && Expanding(left[1..], actuals, result + (if c >= 0x80 then actuals[c - 0x80] else [left[0]]), whole)
  {
    var c := left[0] as int;
    var piece, rest := if c >= 0x80 then actuals[c - 0x80] else [left[0]], Expand(left[1..], actuals);
    assert result + (piece + rest) == result + piece + rest;
  }

  method ExpandText(repl: string, actuals: seq<string>) returns (result: string)
    requires Stored(repl, |actuals|)
    ensures result == Expand(repl, actuals)
  {
    result := "";
    var i := 0;
    ghost var whole := Expand(repl, actuals);
    assert repl[0..] == repl && "" + whole == whole;
    while i < |repl|
      invariant 0 <= i <= |repl| && Expanding(repl[i..], actuals, result, whole)
    {
      var c := repl[i] as int;
      ExpandingStep(repl[i..], actuals, result, whole);
      assert repl[i..][1..] == repl[i + 1..];
      result := result + if c >= 0x80 then actuals[c - 0x80] else [repl[i]];
      i := i + 1;
    }
  }

  lemma PushAllOne(row: string, c: char, pushed: string)
    ensures PushAll(row, [c] + pushed) == PushOne(PushAll(row, pushed), c)
  {
    assert ([c] + pushed)[1..] == pushed;
  }

  /** The loop that pushes the text back from its end to its beginning, without `##`. */
  method PushBackwards(input: Input, s: string)
    requires input.Valid() && PlainText(s)
    modifies input, input.pushback
    ensures input.Valid() && input.Row() == PushAll(old(input.Row()), Paste(s)) && input.file == old(input.file)
    ensures old(input.npushed) + |Paste(s)| <= MAX_PUSHBACK + 1 ==> input.LastLine() == old(input.LastLine())
  {
    var dp: nat := |s|;
    ghost var pushed, whole, row, n, line := "", Paste(s), input.Row(), input.npushed, input.LastLine();
    PastingBegins(s);
    while dp > 0
      invariant dp <= |s| && Pasting(s, dp, pushed, whole)
      invariant input.Valid() && input.Row() == PushAll(row, pushed) && input.file == old(input.file)
      invariant n + |pushed| <= MAX_PUSHBACK + 1 ==> input.npushed == n + |pushed| && input.LastLine() == line
    {
      PastingStep(s, dp, pushed, whole);
      if s[dp - 1] == '#' && dp >= 2 && s[dp - 2] == '#' {
        dp := dp - 2;
      } else {
        var c := s[dp - 1];
        PushAllOne(row, c, pushed);
        input.Push(c);
        pushed := [c] + pushed;
        dp := dp - 1;
      }
    }
    PastingEnds(s, pushed, whole);
  }

  /** Afterwards the pasted text stands in front of the input if there is room for it. */
  method PushText(input: Input, s: string)
    requires input.Valid() && PlainText(s)
    modifies input, input.pushback
    ensures input.Valid() && input.text == PushAll(old(input.Row()), Paste(s)) + old(input.file)
    ensures input.text == Paste(s) + old(input.text) <==> old(input.npushed) + |Paste(s)| <= MAX_PUSHBACK + 1
    ensures old(input.npushed) + |Paste(s)| <= MAX_PUSHBACK + 1 ==> input.LastLine() == old(input.LastLine())
  {
    assert input.text == input.Row() + input.file;
    PushedInFront(input.Row(), input.file, Paste(s));
    PushBackwards(input, s);
    assert input.text == input.Row() + input.file;
  }

  /** It stands in front of the input, with nothing lost, exactly when there is room for it. */
  lemma PushedInFront(row: string, file: string, w: string)
    requires |row| <= MAX_PUSHBACK + 1
    ensures PushAll(row, w) + file == w + (row + file) <==> |row| + |w| <= MAX_PUSHBACK + 1
  {
    NothingLost(row, w);
    Associates(w, row, file);
    SameEnd(PushAll(row, w), w + row, file);
  }

  lemma SameEnd(a: string, b: string, end: string)
    ensures a + end == b + end <==> a == b
  {
    if a + end == b + end {
      assert |a| == |b|;
      assert a == (a + end)[..|a|] && b == (b + end)[..|a|];
    }
  }

  // -------------------------------------------------------------------
  // The preprocessor's own marks cannot get into the text
  // -------------------------------------------------------------------

  ghost predicate AllPlain(args: seq<string>) {
    forall i :: 0 <= i < |args| ==> PlainText(args[i])
  }

  lemma {:induction false} SplitPlain(s: string)
    requires PlainText(s) && Split(s).Some?
    ensures AllPlain(Split(s).value.0)
    decreases |s|
  {
    var k := ArgEnd(START, s).value;
    if s[k] != ')' {
      SplitPlain(s[k + 1..]);
    }
  }

  lemma {:induction false} SkipSpacePlain(s: string)
    requires PlainText(s)
    ensures PlainText(SkipSpace(s))
  {
    if s != [] && Space(s[0]) {
      SkipSpacePlain(s[1..]);
    }
  }

  lemma ActualsPlain(s: string, n: nat)
    requires PlainText(s) && Actuals(s, n).Some?
    ensures AllPlain(Actuals(s, n).value.0)
  {
    var t := SkipSpace(s);
    SkipSpacePlain(s);
    if First(t) == Some('(') && n > 0 {
      SplitPlain(t[1..]);
    }
  }

  lemma {:induction false} ExpandPlain(repl: string, actuals: seq<string>)
    requires Stored(repl, |actuals|) && AllPlain(actuals)
    ensures PlainText(Expand(repl, actuals))
  {
    if repl != [] {
      ExpandPlain(repl[1..], actuals);
    }
  }

  lemma {:induction false} StripPlain(s: string, last: char, ok: bool, incomm: bool, keep: bool, result: string)
    requires PlainText(s) && PlainText(result)
    ensures PlainText(Strip(s, last, ok, incomm, keep, result))
    decreases |s|
  {
    if s != [] {
      var opens := !incomm && last == '/' && s[0] == '*';
      var drops := opens && (!keep || (|s| >= 3 && s[..3] == "**/"));
      var ok' := ok && !drops;
      var kept := if drops then DropLast(result) else result;
      var closes := last == '*' && s[0] == '/';
      StripPlain(s[1..], s[0], ok' || closes, (incomm || opens) && !closes, keep, if ok' then kept + [s[0]] else kept);
    }
  }

  // -------------------------------------------------------------------
  // Expansion
  // -------------------------------------------------------------------

  /** The arguments of a call at the front of the input; a macro without a parameter list takes none. */
  function Called(s: string, nargs: int): (r: Option<(seq<string>, string)>)
    ensures r.Some? ==> |r.value.0| == if nargs < 0 then 0 else nargs
  {
    if nargs < 0 then Some(([], s)) else Actuals(s, nargs)
  }

  /** The text of a stored body with its actuals, comments stripped. */
  function Expansion(repl: string, actuals: seq<string>, keep: bool): (s: string)
    requires Stored(repl, |actuals|)
  {
    Strip(Expand(repl, actuals), '\0', true, false, keep, "")
  }

  lemma ExpansionPlain(text: string, nargs: int, repl: string, keep: bool)
    requires PlainText(text) && Called(text, nargs).Some? && Stored(repl, |Called(text, nargs).value.0|)
    ensures PlainText(Expansion(repl, Called(text, nargs).value.0, keep))
  {
    var args := Called(text, nargs).value.0;
    if nargs >= 0 {
      ActualsPlain(text, nargs);
    }
    ExpandPlain(repl, args);
    StripPlain(Expand(repl, args), '\0', true, false, keep, "");
  }

  /** Without comments and `##` in it, the text is the body with all formals replaced. */
  lemma ExpansionSubstitutes(body: string, formals: seq<string>, actuals: seq<string>, keep: bool)
    requires Ascii(body) && |formals| <= MAX_FORMALS && |actuals| == |formals|
    requires var text := Substitute(body, false, formals, actuals); CommentFree(text) && PasteFree(text)
    ensures Stored(Encode(body, false, formals), |actuals|)
    ensures Expansion(Encode(body, false, formals), actuals, keep) == Substitute(body, false, formals, actuals)
    ensures Paste(Substitute(body, false, formals, actuals)) == Substitute(body, false, formals, actuals)
  {
    var text := Substitute(body, false, formals, actuals);
    ExpandEncode(body, false, formals, actuals);
    StripNothing(text, '\0', keep, "");
    assert "" + text == text;
    PasteNothing(text);
  }

  /**
   `expand_def`: the call in front of the input gives way to its expansion, pushed onto the `held` characters that
   are left of those pushed back; with room for it, it stands in front of what follows the call.
   */
  method ExpandDef(input: Input, nargs: int, repl: string, keep: bool) returns (ok: bool, ghost held: nat)
    requires input.Valid() && Stored(repl, if nargs < 0 then 0 else nargs)
    modifies input, input.pushback
    ensures input.Valid() && ok == Called(old(input.text), nargs).Some?
    ensures ok ==>
              var (args, rest) := Called(old(input.text), nargs).value;
              var w := Paste(Expansion(repl, args, keep));
              && held <= |rest| && (held <= old(input.npushed) || held == 1)
              && input.text == PushAll(rest[..held], w) + rest[held..]
              && (held + |w| <= MAX_PUSHBACK + 1 ==>
                    input.text == w + rest && input.LastLine() == old(input.LastLine()))
  {
    ghost var call := Called(input.text, nargs);
    if call.Some? {
      ExpansionPlain(input.text, nargs, repl, keep);
    }
    var actuals: seq<string> := [];
    held := 0;
    if nargs >= 0 {
      var read := ReadActuals(input, nargs);
      if read.None? {
        return false, 0;
      }
      actuals := read.value;
    }
    held := input.npushed;
    var text := ExpandText(repl, actuals);
    text := StripComments(text, keep);
    assert input.Row() == input.text[..held] && input.file == input.text[held..];
    PushText(input, text);
    ok := true;
  }
}
