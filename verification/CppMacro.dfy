/** Macro bodies: formals encoded in place, actuals put in for them, and the text pushed back to be read again. */
module CppMacro {
  import opened Bytes
  import opened CppLexical

  const MAX_FORMALS := 128

  predicate Ascii(s: string) {
    forall i :: 0 <= i < |s| ==> 0 < s[i] as int < 0x80
  }

  /** The body as the buffer holds it: characters other than the terminator. */
  predicate NulFree(s: string) {
    forall i :: 0 <= i < |s| ==> s[i] != '\0'
  }

  /** The first formal of that name, counted from `k`. */
  function FormalFrom(formals: seq<string>, id: string, k: nat): (r: Option<nat>)
    requires k <= |formals|
    ensures r.Some? ==> k <= r.value < |formals| && formals[r.value] == id
    decreases |formals| - k
  {
    if k == |formals| then None else if formals[k] == id then Some(k) else FormalFrom(formals, id, k + 1)
  }

  function Formal(formals: seq<string>, id: string): (r: Option<nat>)
    ensures r.Some? ==> r.value < |formals| && formals[r.value] == id
  {
    FormalFrom(formals, id, 0)
  }

  /** The code that stands for formal `i` in a stored body. */
  function Code(i: nat): (c: char)
    requires i < MAX_FORMALS
  {
    (0x80 + i) as char
  }

  // -------------------------------------------------------------------
  // What a stored body is, and what it means
  // -------------------------------------------------------------------

  predicate StartsWith(s: string, c: char, d: char) {
    |s| >= 2 && s[0] == c && s[1] == d
  }

  /** The text at the front that is copied as it is, and whether a comment is open behind it. */
  function Copied(body: string, comment: bool): (r: (nat, bool))
    requires body != []
    ensures 1 <= r.0 <= |body|
  {
    if StartsWith(body, '/', '*') then (2, true)
    else if comment && StartsWith(body, '*', '/') then (2, false)
    else (1, comment)
  }

  /** The code of an identifier that is a formal, and any other identifier itself. */
  function WordCode(word: string, formals: seq<string>): (s: string)
    requires |formals| <= MAX_FORMALS
  {
    match Formal(formals, word)
    case Some(i) => [Code(i)]
    case None => word
  }

  /** The body with each identifier that is a formal replaced by its code; comments are left alone. */
  function Encode(body: string, comment: bool, formals: seq<string>): (s: string)
    requires |formals| <= MAX_FORMALS
    decreases |body|
  {
    if body == [] then []
    else if SymStart(body[0]) && !comment then
      var n := SymLength(body);
      WordCode(body[..n], formals) + Encode(body[n..], comment, formals)
    else
      var (k, comment') := Copied(body, comment);
      body[..k] + Encode(body[k..], comment', formals)
  }

  /** The meaning of a call: every formal of the body replaced by its actual, all at once. */
  function Substitute(body: string, comment: bool, formals: seq<string>, actuals: seq<string>): (s: string)
    requires |actuals| == |formals|
    decreases |body|
  {
    if body == [] then []
    else if SymStart(body[0]) && !comment then
      var n := SymLength(body);
      (match Formal(formals, body[..n])
       case Some(i) => actuals[i]
       case None => body[..n]) + Substitute(body[n..], comment, formals, actuals)
    else
      var (k, comment') := Copied(body, comment);
      body[..k] + Substitute(body[k..], comment', formals, actuals)
  }

  /** Every code in a stored body has an actual. */
  ghost predicate Stored(repl: string, n: nat) {
    forall i :: 0 <= i < |repl| ==> 0 < repl[i] as int < 0x80 + n
  }

  /** The stored body with the actuals put in for the codes. */
  function Expand(repl: string, actuals: seq<string>): (s: string)
    requires Stored(repl, |actuals|)
  {
    if repl == [] then []
    else (if repl[0] as int >= 0x80 then actuals[repl[0] as int - 0x80] else [repl[0]]) + Expand(repl[1..], actuals)
  }

  lemma {:induction false} ExpandAppend(a: string, b: string, actuals: seq<string>)
    requires Stored(a, |actuals|) && Stored(b, |actuals|)
    ensures Stored(a + b, |actuals|) && Expand(a + b, actuals) == Expand(a, actuals) + Expand(b, actuals)
  {
    if a == [] {
      assert a + b == b;
    } else {
      var first := if a[0] as int >= 0x80 then actuals[a[0] as int - 0x80] else [a[0]];
      assert (a + b)[1..] == a[1..] + b;
      ExpandAppend(a[1..], b, actuals);
      assert first + (Expand(a[1..], actuals) + Expand(b, actuals))
             == first + Expand(a[1..], actuals) + Expand(b, actuals);
    }
  }

  lemma {:induction false} ExpandAscii(s: string, actuals: seq<string>)
    requires Ascii(s)
    ensures Stored(s, |actuals|) && Expand(s, actuals) == s
  {
    if s != [] {
      ExpandAscii(s[1..], actuals);
      assert s == [s[0]] + s[1..];
    }
  }

  lemma ExpandCode(i: nat, actuals: seq<string>)
    requires i < MAX_FORMALS && i < |actuals|
    ensures Stored([Code(i)], |actuals|) && Expand([Code(i)], actuals) == actuals[i]
  {
    assert [Code(i)][1..] == [];
  }

  /** One piece of the body, encoded and expanded, followed by the rest. */
  lemma Piece(piece: string, text: string, rest: string, rest': string, actuals: seq<string>)
    requires Stored(piece, |actuals|) && Expand(piece, actuals) == text
    requires Stored(rest, |actuals|) && Expand(rest, actuals) == rest'
    ensures Stored(piece + rest, |actuals|) && Expand(piece + rest, actuals) == text + rest'
  {
    ExpandAppend(piece, rest, actuals);
  }

  /** Expanding an encoded body is substituting in the body. */
  lemma {:induction false} ExpandEncode(body: string, comment: bool, formals: seq<string>, actuals: seq<string>)
    requires Ascii(body) && |formals| <= MAX_FORMALS && |actuals| == |formals|
    ensures Stored(Encode(body, comment, formals), |actuals|)
    ensures Expand(Encode(body, comment, formals), actuals) == Substitute(body, comment, formals, actuals)
    decreases |body|
  {
    if body == [] {
    } else if SymStart(body[0]) && !comment {
      var n := SymLength(body);
      var rest, rest' := Encode(body[n..], comment, formals), Substitute(body[n..], comment, formals, actuals);
      ExpandEncode(body[n..], comment, formals, actuals);
      match Formal(formals, body[..n])
      case Some(i) =>
        ExpandCode(i, actuals);
        Piece([Code(i)], actuals[i], rest, rest', actuals);
      case None =>
        ExpandAscii(body[..n], actuals);
        Piece(body[..n], body[..n], rest, rest', actuals);
    } else {
      var (k, comment') := Copied(body, comment);
      ExpandAscii(body[..k], actuals);
      ExpandEncode(body[k..], comment', formals, actuals);
      Piece(body[..k], body[..k], Encode(body[k..], comment', formals),
            Substitute(body[k..], comment', formals, actuals), actuals);
    }
  }

  // -------------------------------------------------------------------
  // Bodies with characters from 0x80 up
  // -------------------------------------------------------------------

  /** The body is stored so that every call gives the body with its formals replaced. */
  ghost predicate Faithful(body: string, formals: seq<string>)
    requires |formals| <= MAX_FORMALS
  {
    && Stored(Encode(body, false, formals), |formals|)
    && forall actuals: seq<string> | |actuals| == |formals| ::
         Expand(Encode(body, false, formals), actuals) == Substitute(body, false, formals, actuals)
  }

  function HighCount(s: string): (n: nat) {
    if s == [] then 0 else (if s[0] as int >= 0x80 then 1 else 0) + HighCount(s[1..])
  }

  lemma {:induction false} HighCountAppend(a: string, b: string)
    ensures HighCount(a + b) == HighCount(a) + HighCount(b)
  {
    if a == [] {
      assert a + b == b;
    } else {
      assert (a + b)[1..] == a[1..] + b;
      HighCountAppend(a[1..], b);
    }
  }

  lemma HighCountSplits(s: string, k: nat)
    requires k <= |s|
    ensures HighCount(s) == HighCount(s[..k]) + HighCount(s[k..])
  {
    HighCountAppend(s[..k], s[k..]);
    assert s[..k] + s[k..] == s;
  }

  lemma {:induction false} HighCountIsZero(s: string)
    requires NulFree(s)
    ensures HighCount(s) == 0 <==> Ascii(s)
  {
    if s != [] {
      HighCountIsZero(s[1..]);
      assert Ascii(s) <==> s[0] as int < 0x80 && Ascii(s[1..]);
    }
  }

  lemma {:induction false} WordIsAscii(s: string)
    ensures SymLength(s) <= |s| && HighCount(s[..SymLength(s)]) == 0
  {
    if s != [] && SymChar(s[0]) {
      WordIsAscii(s[1..]);
      assert s[..SymLength(s)][1..] == s[1..][..SymLength(s[1..])];
    }
  }

  function NoActuals(n: nat): (r: seq<string>)
    ensures |r| == n
  {
    seq(n, _ => "")
  }

  /** With empty actuals every such character disappears. */
  lemma {:induction false} ExpandDropsHigh(s: string, n: nat)
    requires Stored(s, n)
    ensures |Expand(s, NoActuals(n))| + HighCount(s) == |s|
  {
    if s != [] {
      ExpandDropsHigh(s[1..], n);
    }
  }

  /** How much shorter the expansion comes out than it should, with empty actuals. */
  lemma {:induction false} LengthGap(body: string, comment: bool, formals: seq<string>)
    requires |formals| <= MAX_FORMALS && Stored(Encode(body, comment, formals), |formals|)
    ensures var none := NoActuals(|formals|);
            |Expand(Encode(body, comment, formals), none)| + HighCount(body)
            == |Substitute(body, comment, formals, none)|
    decreases |body|
  {
    var none := NoActuals(|formals|);
    if body == [] {
    } else if SymStart(body[0]) && !comment {
      var n := SymLength(body);
      var code, rest := WordCode(body[..n], formals), Encode(body[n..], comment, formals);
      WordIsAscii(body);
      ExpandParts(code, rest, |formals|);
      LengthGap(body[n..], comment, formals);
      HighCountSplits(body, n);
      WordGap(body[..n], formals);
    } else {
      var (k, comment') := Copied(body, comment);
      var rest := Encode(body[k..], comment', formals);
      ExpandParts(body[..k], rest, |formals|);
      LengthGap(body[k..], comment', formals);
      ExpandDropsHigh(body[..k], |formals|);
      HighCountSplits(body, k);
    }
  }

  lemma SplitStored(a: string, b: string, n: nat)
    requires Stored(a + b, n)
    ensures Stored(a, n) && Stored(b, n)
  {
    forall i | 0 <= i < |a| ensures 0 < a[i] as int < 0x80 + n { assert a[i] == (a + b)[i]; }
    forall i | 0 <= i < |b| ensures 0 < b[i] as int < 0x80 + n { assert b[i] == (a + b)[|a| + i]; }
  }

  lemma ExpandParts(a: string, b: string, n: nat)
    requires Stored(a + b, n)
    ensures Stored(a, n) && Stored(b, n)
    ensures |Expand(a + b, NoActuals(n))| == |Expand(a, NoActuals(n))| + |Expand(b, NoActuals(n))|
  {
    SplitStored(a, b, n);
    ExpandAppend(a, b, NoActuals(n));
  }

  lemma WordGap(word: string, formals: seq<string>)
    requires |formals| <= MAX_FORMALS && HighCount(word) == 0 && Stored(WordCode(word, formals), |formals|)
    ensures |Expand(WordCode(word, formals), NoActuals(|formals|))|
            == match Formal(formals, word) case Some(i) => 0 case None => |word|
  {
    match Formal(formals, word)
    case Some(i) => ExpandCode(i, NoActuals(|formals|));
    case None => ExpandDropsHigh(word, |formals|);
  }

  /** The encoding is faithful exactly for ASCII bodies: a character from 0x80 up is taken for a formal's code. */
  lemma FaithfulIsAscii(body: string, formals: seq<string>)
    requires |formals| <= MAX_FORMALS && NulFree(body)
    ensures Faithful(body, formals) <==> Ascii(body)
  {
    if Ascii(body) {
      ExpandEncode(body, false, formals, NoActuals(|formals|));
      forall actuals: seq<string> | |actuals| == |formals|
        ensures Expand(Encode(body, false, formals), actuals) == Substitute(body, false, formals, actuals)
      {
        ExpandEncode(body, false, formals, actuals);
      }
    } else if Faithful(body, formals) {
      LengthGap(body, false, formals);
      HighCountIsZero(body);
    }
  }

  /** A body of one character that is taken for the first formal. */
  lemma HighCharacterExample(body: string, formals: seq<string>, actuals: seq<string>)
    requires body == [Code(0)] && formals == ["x"] && actuals == ["y"]
    ensures Encode(body, false, formals) == body && Stored(body, 1)
    ensures Expand(body, actuals) == "y" && Substitute(body, false, formals, actuals) == body
  {
    assert body[1..] == [] && body[..1] == body && body + [] == body;
    ExpandCode(0, actuals);
  }
}
