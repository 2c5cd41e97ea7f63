/** The arguments of a macro call as a grammar: what may stand in one without ending it. */
module CppArguments {
  import opened Bytes
  import opened CppComments
  import opened CppActuals

  /** A character in quotes, as it is or behind a backslash. */
  datatype Letter = Letter(c: char, escaped: bool) {
    function Text(): (s: string) {
      if escaped then ['\\', c] else [c]
    }

    predicate Fits(q: char) {
      escaped || (c != q && c != '\\')
    }
  }

  datatype Item =
    | Plain(c: char)
    | Escaped(c: char)
    | Quoted(q: char, letters: seq<Letter>)
    | Remark(text: string)
    | Nested(inner: Items)

  datatype Items = Nil | Cons(item: Item, rest: Items)

  // -------------------------------------------------------------------
  // The text, and what may be written
  // -------------------------------------------------------------------

  function LettersText(ls: seq<Letter>): (s: string) {
    if ls == [] then [] else ls[0].Text() + LettersText(ls[1..])
  }

  function ItemText(item: Item): (s: string)
    decreases item, 0
  {
    match item
    case Plain(c) => [c]
    case Escaped(c) => ['\\', c]
    case Quoted(q, letters) => [q] + (LettersText(letters) + [q])
    case Remark(text) => "/*" + (text + "*/")
    case Nested(inner) => "(" + (Text(inner) + ")")
  }

  function Text(items: Items): (s: string)
    decreases items, 0
  {
    match items
    case Nil => []
    case Cons(item, rest) => ItemText(item) + Text(rest)
  }

  /** The last character of an item's text. */
  function Last(item: Item): (c: char) {
    match item
    case Plain(c) => c
    case Escaped(c) => c
    case Quoted(q, _) => q
    case Remark(_) => '/'
    case Nested(_) => ')'
  }

  function LastOf(items: Items, last: char): (c: char) {
    match items
    case Nil => last
    case Cons(item, rest) => LastOf(rest, Last(item))
  }

  /**
   Any character but those that begin something else; commas only in parentheses; no star behind a slash; anything
   in quotes; any comment whose text does not begin with a slash.
   */
  ghost predicate ItemFits(item: Item, nested: bool, last: char)
    decreases item, 0
  {
    match item
    case Plain(c) => c !in "\\'\"()" && (c == ',' ==> nested) && !(last == '/' && c == '*')
    case Escaped(_) => true
    case Quoted(q, letters) => (q == '\'' || q == '"') && forall i :: 0 <= i < |letters| ==> letters[i].Fits(q)
    case Remark(text) => EndsOnce(text + "*") && (text == [] || text[0] != '/')
    case Nested(inner) => Fit(inner, true, '(')
  }

  ghost predicate Fit(items: Items, nested: bool, last: char)
    decreases items, 0
  {
    match items
    case Nil => true
    case Cons(item, rest) => ItemFits(item, nested, last) && Fit(rest, nested, Last(item))
  }

  // -------------------------------------------------------------------
  // The scanner passes it
  // -------------------------------------------------------------------

  /** Outside quotes, escapes and comments. */
  predicate Outside(st: Scan) {
    st.quote == '\0' && !st.backslash && !st.comment
  }

  lemma {:induction false} ThroughBoth(st: Scan, a: string, b: string)
    requires Through(st, a).Some?
    ensures Through(st, a + b) == Through(Through(st, a).value, b)
    decreases |a|
  {
    if a == [] {
      assert a + b == b;
    } else {
      assert (a + b)[1..] == a[1..] + b;
      ThroughBoth(Next(st, a[0]).value, a[1..], b);
    }
  }

  lemma ThroughOne(st: Scan, c: char)
    ensures Through(st, [c]) == Next(st, c)
  {
    assert [c][1..] == [];
  }

  lemma ThroughTwo(st: Scan, c: char, d: char)
    requires Next(st, c).Some?
    ensures Through(st, [c, d]) == Next(Next(st, c).value, d)
  {
    assert [c, d][1..] == [d];
    ThroughOne(Next(st, c).value, d);
  }

  lemma {:induction false} LettersPass(st: Scan, q: char, ls: seq<Letter>)
    requires st.quote == q && (q == '\'' || q == '"') && !st.backslash && !st.comment
    requires forall i :: 0 <= i < |ls| ==> ls[i].Fits(q)
    ensures Through(st, LettersText(ls)).Some?
    ensures var st' := Through(st, LettersText(ls)).value; st' == st.(last := st'.last)
    decreases |ls|
  {
    if ls != [] {
      var l := ls[0];
      if l.escaped {
        ThroughTwo(st, '\\', l.c);
      } else {
        ThroughOne(st, l.c);
      }
      LettersPass(st.(last := l.c), q, ls[1..]);
      ThroughBoth(st, l.Text(), LettersText(ls[1..]));
    }
  }

  lemma QuotedPasses(st: Scan, q: char, ls: seq<Letter>)
    requires Outside(st) && (q == '\'' || q == '"') && forall i :: 0 <= i < |ls| ==> ls[i].Fits(q)
    ensures Through(st, [q] + (LettersText(ls) + [q])) == Some(st.(last := q))
  {
    var st1 := st.(quote := q, last := q);
    ThroughOne(st, q);
    LettersPass(st1, q, ls);
    var st2 := Through(st1, LettersText(ls)).value;
    ThroughOne(st2, q);
    ThroughBoth(st1, LettersText(ls), [q]);
    ThroughBoth(st, [q], LettersText(ls) + [q]);
  }

  lemma {:induction false} InsidePasses(st: Scan, text: string)
    requires st.comment && EndsOnce([st.last] + (text + "*"))
    ensures Through(st, text + "*/") == Some(st.(comment := false, last := '/'))
    decreases |text|
  {
    var s, u := text + "*/", [st.last] + (text + "*");
    if text == [] {
      assert s == ['*', '/'];
      ThroughTwo(st, '*', '/');
    } else {
      assert u[0] == st.last && u[1] == text[0] && u[1..] == [text[0]] + (text[1..] + "*");
      assert s[0] == text[0] && s[1..] == text[1..] + "*/";
      InsidePasses(st.(last := text[0]), text[1..]);
    }
  }

  lemma OpeningPasses(st: Scan)
    requires Outside(st)
    ensures Through(st, "/*") == Some(st.(comment := true, last := '*'))
  {
    ThroughTwo(st, '/', '*');
    assert "/*" == ['/', '*'];
  }

  lemma RemarkPasses(st: Scan, text: string)
    requires Outside(st) && EndsOnce(text + "*") && (text == [] || text[0] != '/')
    ensures Through(st, "/*" + (text + "*/")) == Some(st.(last := '/'))
  {
    OpeningPasses(st);
    var u, v := ['*'] + (text + "*"), text + "*";
    forall i | 0 <= i < |u| - 1 ensures !(u[i] == '*' && u[i + 1] == '/') {
      assert i > 0 ==> u[i] == v[i - 1] && u[i + 1] == v[i];
      assert text != [] ==> u[1] == text[0];
    }
    InsidePasses(st.(comment := true, last := '*'), text);
    ThroughBoth(st, "/*", text + "*/");
  }

  lemma {:induction false} NestedPasses(st: Scan, inner: Items)
    requires Outside(st) && Fit(inner, true, '(')
    ensures Through(st, "(" + (Text(inner) + ")")) == Some(st.(last := ')'))
    decreases inner, 4
  {
    var st1 := st.(pc := st.pc + 1, last := '(');
    ThroughOne(st, '(');
    ItemsPass(st1, inner);
    var st2 := st1.(last := LastOf(inner, '('));
    ThroughOne(st2, ')');
    ThroughBoth(st1, Text(inner), ")");
    ThroughBoth(st, "(", Text(inner) + ")");
  }

  lemma {:induction false} ItemPasses(st: Scan, item: Item)
    requires Outside(st) && ItemFits(item, st.pc > 0, st.last)
    ensures Through(st, ItemText(item)) == Some(st.(last := Last(item)))
    decreases item, 2
  {
    match item
    case Plain(c) => ThroughOne(st, c);
    case Escaped(c) => ThroughTwo(st, '\\', c);
    case Quoted(q, letters) => QuotedPasses(st, q, letters);
    case Remark(text) => RemarkPasses(st, text);
    case Nested(inner) => NestedPasses(st, inner);
  }

  /** Behind such text the scanner stands as before it, at any depth. */
  lemma {:induction false} ItemsPass(st: Scan, items: Items)
    requires Outside(st) && Fit(items, st.pc > 0, st.last)
    ensures Through(st, Text(items)) == Some(st.(last := LastOf(items, st.last)))
    decreases items, 3
  {
    match items
    case Nil =>
    case Cons(item, rest) =>
      ItemPasses(st, item);
      ItemsPass(st.(last := Last(item)), rest);
      ThroughBoth(st, ItemText(item), Text(rest));
  }

  /** Text of the grammar is one argument. */
  lemma ArgumentIsBalanced(items: Items)
    requires Fit(items, false, '\0')
    ensures Balanced(Text(items))
  {
    ItemsPass(START, items);
  }

  function Texts(args: seq<Items>): (r: seq<string>)
    ensures |r| == |args| && forall i :: 0 <= i < |args| ==> r[i] == Text(args[i])
  {
    if args == [] then [] else [Text(args[0])] + Texts(args[1..])
  }

  /** Any list of arguments of the grammar, written with commas between them, is split into just these. */
  lemma ArgumentsSplit(args: seq<Items>, rest: string)
    requires |args| >= 1 && forall i :: 0 <= i < |args| ==> Fit(args[i], false, '\0')
    ensures Split(Join(Texts(args)) + rest) == Some((Texts(args), rest))
  {
    forall i | 0 <= i < |args| ensures Balanced(Texts(args)[i]) {
      ArgumentIsBalanced(args[i]);
    }
    SplitOfJoin(Texts(args), rest);
  }

  // -------------------------------------------------------------------
  // Comments
  // -------------------------------------------------------------------

  /**
   A comment is passed exactly when its text does not begin with a slash, or what follows the slash is passed as if
   it stood outside the comment.
   */
  lemma RemarkExact(st: Scan, text: string)
    requires Outside(st) && EndsOnce(text + "*")
    ensures Through(st, "/*" + (text + "*/")) == Some(st.(last := '/'))
            <==> text == [] || text[0] != '/' || Through(st.(last := '/'), text[1..] + "*/") == Some(st.(last := '/'))
  {
    if text == [] || text[0] != '/' {
      RemarkPasses(st, text);
    } else {
      OpeningPasses(st);
      ThroughBoth(st, "/*", text + "*/");
      assert Next(st.(comment := true, last := '*'), '/') == Some(st.(last := '/'));
      assert (text + "*/")[0] == '/' && (text + "*/")[1..] == text[1..] + "*/";
    }
  }

  /** A comma in a comment that begins with a slash ends the argument. */
  lemma SlashedRemark(s: string)
    requires s == "/*/,*/)"
    ensures ArgEnd(START, s) == Some(3)
  {
    assert s == "/*/" + ([','] + "*/)") && "/*/" == "/*" + "/";
    OpeningPasses(START);
    ThroughOne(START.(comment := true, last := '*'), '/');
    ThroughBoth(START, "/*", "/");
    ArgEndOf(START, "/*/", ',', "*/)");
  }

  /** A star is passed as it is exactly when no slash is before it, be it the end of a comment or escaped. */
  lemma StarExact(st: Scan)
    requires Outside(st)
    ensures Through(st, "*") == Some(st.(last := '*')) <==> st.last != '/'
  {
    ThroughOne(st, '*');
    assert "*" == ['*'];
  }

  /** A star behind a comment opens another one: the comma and the parenthesis are not seen. */
  lemma StarBehindRemark(s: string)
    requires s == "/**/*,b)"
    ensures ArgEnd(START, s) == None
  {
    var t := "*,b)";
    assert s == "/**/" + t && "/**/" == "/*" + ([] + "*/");
    RemarkPasses(START, []);
    SkipPassed(START, "/**/", t);
    var st := START.(comment := true, last := '*');
    assert t[1..] == ",b)";
    NoEndInside(st, ",b)");
  }

  lemma {:induction false} SkipPassed(st: Scan, a: string, b: string)
    requires Through(st, a).Some?
    ensures ArgEnd(st, a + b)
            == match ArgEnd(Through(st, a).value, b) case None => None case Some(k) => Some(|a| + k)
    decreases |a|
  {
    if a == [] {
      assert a + b == b;
    } else {
      assert (a + b)[1..] == a[1..] + b;
      SkipPassed(Next(st, a[0]).value, a[1..], b);
    }
  }

  lemma {:induction false} NoEndInside(st: Scan, s: string)
    requires st.comment && forall i :: 0 <= i < |s| ==> s[i] != '/'
    ensures ArgEnd(st, s) == None
    decreases |s|
  {
    if s != [] {
      NoEndInside(st.(last := s[0]), s[1..]);
    }
  }

  // -------------------------------------------------------------------
  // A call
  // -------------------------------------------------------------------

  lemma PlainText(c: char, rest: Items)
    ensures Text(Cons(Plain(c), rest)) == [c] + Text(rest)
  {
  }

  lemma NestedText(inner: Items)
    ensures Text(Cons(Nested(inner), Nil)) == "(" + (Text(inner) + ")")
  {
    assert ItemText(Nested(inner)) + [] == ItemText(Nested(inner));
  }

  lemma ListFits(b: Items, comma: Items, ab: Items)
    requires b == Cons(Plain('b'), Nil) && comma == Cons(Plain(','), b) && ab == Cons(Plain('a'), comma)
    ensures Fit(ab, true, '(') && Text(ab) == "a,b"
  {
    PlainText('b', Nil);
    PlainText(',', b);
    PlainText('a', comma);
    assert Fit(b, true, ',') && Fit(comma, true, 'a');
  }

  lemma CallFits(ab: Items, g: Items)
    requires Fit(ab, true, '(') && Text(ab) == "a,b" && g == Cons(Plain('g'), Cons(Nested(ab), Nil))
    ensures Fit(g, false, '\0') && Text(g) == "g(a,b)"
  {
    var call := Cons(Nested(ab), Nil);
    NestedText(ab);
    PlainText('g', call);
    assert ItemFits(Nested(ab), false, 'g') && Fit(call, false, 'g');
    assert "(" + ("a,b" + ")") == "(a,b)" && ['g'] + "(a,b)" == "g(a,b)";
  }

  lemma InnerCall()
    ensures Balanced("g(a,b)")
  {
    var b := Cons(Plain('b'), Nil);
    var comma := Cons(Plain(','), b);
    var ab := Cons(Plain('a'), comma);
    ListFits(b, comma, ab);
    CallFits(ab, Cons(Plain('g'), Cons(Nested(ab), Nil)));
    ArgumentIsBalanced(Cons(Plain('g'), Cons(Nested(ab), Nil)));
  }

  /** `F(g(a,b),c)`: the comma in the inner parentheses separates nothing. */
  lemma NestedCallExample(s: string, g: string, c: string)
    requires s == "g(a,b),c)" && g == "g(a,b)" && c == "c"
    ensures Split(s) == Some(([g, c], ""))
  {
    InnerCall();
    PlainText('c', Nil);
    ArgumentIsBalanced(Cons(Plain('c'), Nil));
    assert Text(Cons(Plain('c'), Nil)) == c;
    SplitLast(c, "");
    SplitFirst(g, c + (")" + ""), [c], "");
    assert s == g + ("," + (c + (")" + ""))) && [g] + [c] == [g, c];
  }
}
