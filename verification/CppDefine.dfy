/** `do_define`'s rewriting of a macro body: formals become codes, in the buffer that holds the body. */
module CppDefine {
  import opened Bytes
  import opened CppLexical
  import opened CppMacro

  /** From `f` on the buffer still holds the body and its terminator. */
  ghost predicate Unread(buf: seq<char>, body: string, f: nat) {
    f <= |body| < |buf| && buf[f..|body| + 1] == body[f..] + ['\0']
  }

  /** The characters of the body at the read position, as the buffer shows them. */
  lemma Ahead(buf: seq<char>, body: string, f: nat)
    requires Unread(buf, body, f) && NulFree(body)
    ensures buf[f] == '\0' <==> f == |body|
    ensures f < |body| ==> buf[f] == body[f] && buf[f + 1] == (if f + 1 < |body| then body[f + 1] else '\0')
  {
    var s := body[f..] + ['\0'];
    assert buf[f] == buf[f..|body| + 1][0] == s[0];
    if f < |body| {
      assert buf[f + 1] == buf[f..|body| + 1][1] == s[1];
    }
  }

  lemma StillUnread(buf: seq<char>, buf': seq<char>, body: string, f: nat, f': nat)
    requires Unread(buf, body, f) && f <= f' <= |body| && |buf'| == |buf| && buf'[f'..] == buf[f'..]
    ensures Unread(buf', body, f')
  {
    assert buf'[f'..|body| + 1] == buf'[f'..][..|body| + 1 - f'] == buf[f'..|body| + 1];
    assert buf[f'..|body| + 1] == buf[f..|body| + 1][f' - f..];
  }

  lemma UnreadSlice(buf: seq<char>, body: string, f: nat, k: nat)
    requires Unread(buf, body, f) && f + k <= |body|
    ensures buf[f..f + k] == body[f..][..k]
  {
    assert buf[f..f + k] == buf[f..|body| + 1][..k];
  }

  /** The end of the identifier at `f`. */
  method SymEnd(buf: array<char>, f: nat, ghost body: string) returns (g: nat)
    requires Unread(buf[..], body, f) && NulFree(body)
    ensures f <= g <= |body| && g - f == SymLength(body[f..])
  {
    g := f;
    Ahead(buf[..], body, g);
    while SymChar(buf[g])
      invariant f <= g <= |body| && SymLength(body[f..]) == (g - f) + SymLength(body[g..])
      invariant buf[g] == if g < |body| then body[g] else '\0'
      decreases |body| - g
    {
      assert body[g..][1..] == body[g + 1..];
      g := g + 1;
      StillUnread(buf[..], buf[..], body, f, g);
      Ahead(buf[..], body, g);
    }
  }

  /** The formal an identifier names, if any. */
  method FindFormal(word: string, formals: seq<string>) returns (i: nat)
    ensures i <= |formals| && Formal(formals, word) == if i < |formals| then Some(i) else None
  {
    i := 0;
    while i < |formals| && formals[i] != word
      invariant 0 <= i <= |formals| && Formal(formals, word) == FormalFrom(formals, word, i)
    {
      i := i + 1;
    }
  }

  /** The first `i` characters from `f` on are in their new places from `t` on, the others where they were. */
  ghost predicate Moved(was: string, now: string, t: nat, f: nat, i: nat) {
    && t <= f && f + i <= |now| == |was|
    && (forall j :: t <= j < t + i ==> now[j] == was[j + (f - t)])
    && (forall j :: 0 <= j < |now| && (j < t || f + i <= j) ==> now[j] == was[j])
  }

  lemma MovedOne(was: string, now: string, t: nat, f: nat, i: nat)
    requires Moved(was, now, t, f, i) && f + i < |now|
    ensures Moved(was, now[t + i := now[f + i]], t, f, i + 1)
  {
  }

  lemma MovedSlices(was: string, now: string, t: nat, f: nat, k: nat)
    requires Moved(was, now, t, f, k)
    ensures now[t..t + k] == was[f..f + k] && now[..t] == was[..t] && now[f + k..] == was[f + k..]
  {
  }

  /** Move `k` characters down; source and destination may overlap. */
  method CopyDown(buf: array<char>, t: nat, f: nat, k: nat)
    requires t <= f && f + k <= buf.Length
    modifies buf
    ensures buf[t..t + k] == old(buf[f..f + k]) && buf[..t] == old(buf[..t]) && buf[f + k..] == old(buf[f + k..])
  {
    var i := 0;
    while i < k
      invariant 0 <= i <= k && Moved(old(buf[..]), buf[..], t, f, i)
    {
      MovedOne(old(buf[..]), buf[..], t, f, i);
      buf[t + i] := buf[f + i];
      i := i + 1;
    }
    MovedSlices(old(buf[..]), buf[..], t, f, k);
  }

  lemma SplitAt(s: string, m: nat, n: nat)
    requires m <= n <= |s|
    ensures s[..n] == s[..m] + s[m..n]
  {
  }

  /** An identifier: its code if it is a formal, itself otherwise. */
  method RewriteWord(buf: array<char>, ghost body: string, f0: nat, t0: nat, formals: seq<string>)
    returns (f: nat, t: nat)
    requires Unread(buf[..], body, f0) && NulFree(body) && t0 <= f0 < |body| && SymStart(body[f0])
    requires |formals| <= MAX_FORMALS
    modifies buf
    ensures f - f0 == SymLength(body[f0..]) && t <= f <= |body| && Unread(buf[..], body, f)
    ensures buf[..t] == old(buf[..t0]) + WordCode(body[f0..][..f - f0], formals)
  {
    ghost var was := buf[..];
    f := SymEnd(buf, f0, body);
    UnreadSlice(buf[..], body, f0, f - f0);
    ghost var word := body[f0..][..f - f0];
    assert buf[f0..f] == word;
    var i := FindFormal(buf[f0..f], formals);
    if i < |formals| {
      buf[t0] := Code(i);
      t := t0 + 1;
      SplitAt(buf[..], t0, t);
    } else {
      CopyDown(buf, t0, f0, f - f0);
      t := t0 + (f - f0);
      SplitAt(buf[..], t0, t);
    }
    assert buf[..][f..] == was[f..];
    StillUnread(was, buf[..], body, f0, f);
  }

  /** Anything else: the two characters that open or close a comment, or one character. */
  method RewriteOther(buf: array<char>, ghost body: string, f0: nat, t0: nat, comment0: bool)
    returns (f: nat, t: nat, comment: bool)
    requires Unread(buf[..], body, f0) && NulFree(body) && t0 <= f0 < |body|
    modifies buf
    ensures (f - f0, comment) == Copied(body[f0..], comment0)
    ensures t <= f <= |body| && Unread(buf[..], body, f) && buf[..t] == old(buf[..t0]) + body[f0..][..f - f0]
  {
    ghost var was := buf[..];
    Ahead(buf[..], body, f0);
    comment, f, t := comment0, f0 + 1, t0 + 1;
    if buf[f0] == '/' && buf[f0 + 1] == '*' {
      comment, f, t := true, f0 + 2, t0 + 2;
    } else if comment && buf[f0] == '*' && buf[f0 + 1] == '/' {
      comment, f, t := false, f0 + 2, t0 + 2;
    }
    UnreadSlice(buf[..], body, f0, f - f0);
    assert buf[f0..f] == body[f0..][..f - f0];
    CopyDown(buf, t0, f0, f - f0);
    SplitAt(buf[..], t0, t);
    assert buf[..][f..] == was[f..];
    StillUnread(was, buf[..], body, f0, f);
  }

  /** What is written and the encoding of what is left make the whole encoding. */
  ghost predicate Written(whole: string, out: string, left: string, comment: bool, formals: seq<string>) {
    |formals| <= MAX_FORMALS && whole == out + Encode(left, comment, formals)
  }

  lemma PieceMoves(whole: string, out: string, left: string, piece: string, rest: string)
    requires whole == out + left && left == piece + rest
    ensures whole == (out + piece) + rest
  {
  }

  lemma Behind(body: string, f: nat, n: nat)
    requires f + n <= |body|
    ensures body[f..][n..] == body[f + n..]
  {
  }

  lemma EncodeWord(s: string, formals: seq<string>)
    requires s != [] && SymStart(s[0]) && |formals| <= MAX_FORMALS
    ensures 1 <= SymLength(s) <= |s|
    ensures Encode(s, false, formals)
            == WordCode(s[..SymLength(s)], formals) + Encode(s[SymLength(s)..], false, formals)
  {
  }

  lemma EncodeOther(s: string, comment: bool, formals: seq<string>)
    requires s != [] && !(SymStart(s[0]) && !comment) && |formals| <= MAX_FORMALS
    ensures var c := Copied(s, comment); Encode(s, comment, formals) == s[..c.0] + Encode(s[c.0..], c.1, formals)
  {
  }

  lemma WordWritten(whole: string, out: string, s: string, formals: seq<string>)
    requires Written(whole, out, s, false, formals) && s != [] && SymStart(s[0])
    ensures var n := SymLength(s);
            1 <= n <= |s| && Written(whole, out + WordCode(s[..n], formals), s[n..], false, formals)
  {
    var n := SymLength(s);
    EncodeWord(s, formals);
    PieceMoves(whole, out, Encode(s, false, formals), WordCode(s[..n], formals), Encode(s[n..], false, formals));
  }

  lemma OtherWritten(whole: string, out: string, s: string, comment: bool, formals: seq<string>)
    requires Written(whole, out, s, comment, formals) && s != [] && !(SymStart(s[0]) && !comment)
    ensures var (n, comment') := Copied(s, comment);
            1 <= n <= |s| && Written(whole, out + s[..n], s[n..], comment', formals)
  {
    var (n, comment') := Copied(s, comment);
    EncodeOther(s, comment, formals);
    PieceMoves(whole, out, Encode(s, comment, formals), s[..n], Encode(s[n..], comment', formals));
  }

  /** As much is written as stands for the first `f` characters of the body. */
  ghost predicate Done(whole: string, out: string, body: string, f: nat, comment: bool, formals: seq<string>) {
    f <= |body| && Written(whole, out, body[f..], comment, formals)
  }

  lemma WordDone(whole: string, out: string, out': string, body: string, f: nat, f': nat, formals: seq<string>)
    requires Done(whole, out, body, f, false, formals) && f < |body| && SymStart(body[f])
    requires f' - f == SymLength(body[f..]) && out' == out + WordCode(body[f..][..f' - f], formals)
    ensures f < f' && Done(whole, out', body, f', false, formals)
  {
    var s := body[f..];
    WordWritten(whole, out, s, formals);
    assert SymLength(s) == f' - f;
    Behind(body, f, f' - f);
  }

  lemma OtherDone(whole: string, out: string, out': string, body: string, f: nat, comment: bool, f': nat,
                  comment': bool, formals: seq<string>)
    requires Done(whole, out, body, f, comment, formals) && f < |body| && !(SymStart(body[f]) && !comment)
    requires (f' - f, comment') == Copied(body[f..], comment) && out' == out + body[f..][..f' - f]
    ensures f < f' && Done(whole, out', body, f', comment', formals)
  {
    OtherWritten(whole, out, body[f..], comment, formals);
    Behind(body, f, f' - f);
  }

  lemma AllDone(whole: string, out: string, body: string, comment: bool, formals: seq<string>)
    requires Done(whole, out, body, |body|, comment, formals)
    ensures out == whole
  {
    assert out + [] == out;
  }

  lemma NothingDone(body: string, formals: seq<string>)
    requires |formals| <= MAX_FORMALS
    ensures Done(Encode(body, false, formals), [], body, 0, false, formals)
  {
    assert body[0..] == body && [] + Encode(body, false, formals) == Encode(body, false, formals);
  }

  /** The body in the buffer's first `n` places is replaced by its encoding, which is never longer. */
  method EncodeBody(buf: array<char>, n: nat, formals: seq<string>) returns (t: nat)
    requires n < buf.Length && NulFree(buf[..n]) && buf[n] == '\0' && |formals| <= MAX_FORMALS
    modifies buf
    ensures t <= n && buf[..t] == Encode(old(buf[..n]), false, formals) && buf[t] == '\0'
  {
    ghost var body := buf[..n];
    var f: nat, comment := 0, false;
    t := 0;
    assert Unread(buf[..], body, 0) by {
      assert buf[..][0..n + 1] == body[0..] + ['\0'];
    }
    ghost var whole := Encode(body, false, formals);
    NothingDone(body, formals);
    assert buf[..0] == [];
    Ahead(buf[..], body, f);
    while buf[f] != '\0'
      invariant t <= f <= n && Unread(buf[..], body, f) && Done(whole, buf[..t], body, f, comment, formals)
      invariant (buf[f] == '\0' <==> f == n) && (f < n ==> buf[f] == body[f])
      decreases n - f
    {
      ghost var out, f0, comment0 := buf[..t], f, comment;
      if SymStart(buf[f]) && !comment {
        f, t := RewriteWord(buf, body, f, t, formals);
        WordDone(whole, out, buf[..t], body, f0, f, formals);
      } else {
        f, t, comment := RewriteOther(buf, body, f, t, comment);
        OtherDone(whole, out, buf[..t], body, f0, comment0, f, comment, formals);
      }
      Ahead(buf[..], body, f);
    }
    AllDone(whole, buf[..t], body, comment, formals);
    ghost var out := buf[..t];
    buf[t] := '\0';
    assert buf[..t] == out;
  }
}
