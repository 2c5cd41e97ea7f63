/** The preprocessor's input: a file with a stack of characters pushed back in front of it. */
module CppInput {
  import opened Bytes
  import opened CppLexical

  const MAX_PUSHBACK := 8192

  /** The codes 0x81 to 0x83 are the preprocessor's own marks and do not stand for text. */
  predicate Plain(c: char) {
    !('\U{0081}' <= c <= '\U{0083}')
  }

  ghost predicate PlainText(s: string) {
    forall i :: 0 <= i < |s| ==> Plain(s[i])
  }

  function Newlines(s: string): (n: nat) {
    if s == [] then 0 else (if s[0] == '\n' then 1 else 0) + Newlines(s[1..])
  }

  /** The place `Push` stores to when `n` characters are held: above the row's size it starts again. */
  function PushSlot(n: nat): (slot: nat) {
    if n > MAX_PUSHBACK then 0 else n
  }

  /** None of `k` pushes in a row, the first with `n` characters held, stores outside the row. */
  predicate StaysInRow(n: nat, k: nat)
    decreases k
  {
    k == 0 || (PushSlot(n) < MAX_PUSHBACK && StaysInRow(PushSlot(n) + 1, k - 1))
  }

  /** They stay inside exactly when they fit; an overrun is noticed one push too late. */
  lemma {:induction false} PushesStayInRow(n: nat, k: nat)
    ensures StaysInRow(n, k) <==> (if n > MAX_PUSHBACK then k else n + k) <= MAX_PUSHBACK
    decreases k
  {
    if k > 0 {
      PushesStayInRow(PushSlot(n) + 1, k - 1);
    }
  }

  /** The characters held, the next one first, after one more is pushed: an overrun row is given up. */
  function PushOne(row: string, c: char): (row': string) {
    [c] + if |row| > MAX_PUSHBACK then [] else row
  }

  /** After the characters of `w` are pushed, the last one first. */
  function PushAll(row: string, w: string): (row': string) {
    if w == [] then row else PushOne(PushAll(row, w[1..]), w[0])
  }

  lemma {:induction false} PushAllBound(row: string, w: string)
    requires |row| <= MAX_PUSHBACK + 1
    ensures |PushAll(row, w)| <= MAX_PUSHBACK + 1
  {
    if w != [] {
      PushAllBound(row, w[1..]);
    }
  }

  lemma {:induction false} PushAllFits(row: string, w: string)
    requires |row| + |w| <= MAX_PUSHBACK + 1
    ensures PushAll(row, w) == w + row
  {
    if w == [] {
      assert w + row == row;
    } else {
      PushAllFits(row, w[1..]);
      assert [w[0]] + (w[1..] + row) == w + row;
    }
  }

  /** Nothing is lost exactly when the row and the one place behind it can hold everything. */
  lemma NothingLost(row: string, w: string)
    requires |row| <= MAX_PUSHBACK + 1
    ensures PushAll(row, w) == w + row <==> |row| + |w| <= MAX_PUSHBACK + 1
  {
    if |row| + |w| <= MAX_PUSHBACK + 1 {
      PushAllFits(row, w);
    } else {
      PushAllBound(row, w);
    }
  }

  /** The first `n` cells, last one first, and then the file make the text. */
  ghost predicate Holds(cells: string, n: nat, text: string, file: string) {
    && n <= |cells| && |text| == n + |file| && (forall i :: 0 <= i < n ==> text[i] == cells[n - 1 - i])
    && text[n..] == file && PlainText(text)
  }

  lemma Popped(cells: string, n: nat, text: string, file: string)
    requires Holds(cells, n, text, file) && n > 0
    ensures text[0] == cells[n - 1] && Plain(text[0]) && Holds(cells, n - 1, text[1..], file)
  {
  }

  lemma ReadOn(cells: string, text: string, file: string)
    requires Holds(cells, 0, text, file) && file != []
    ensures text[0] == file[0] && Plain(text[0]) && Holds(cells, 0, text[1..], file[1..])
  {
    assert text[0..] == text;
  }

  lemma PushedOn(cells: string, n: nat, text: string, file: string, c: char)
    requires Holds(cells, n, text, file) && n < |cells| && Plain(c)
    ensures Holds(cells[n := c], n + 1, [c] + text, file) && ([c] + text)[..n + 1] == [c] + text[..n]
  {
    assert ([c] + text)[n + 1..] == text[n..];
  }

  lemma GivenUp(cells: string, n: nat, text: string, file: string)
    requires Holds(cells, n, text, file)
    ensures Holds(cells, 0, file, file)
  {
    forall i | 0 <= i < |file| ensures Plain(file[i]) {
      assert file[i] == text[n..][i] == text[n + i];
    }
  }

  class Input {
    // the row of this file and the one place behind it that a full row is written to
    const pushback: array<char>
    var npushed: nat
    var file: string
    var lineno: int
    ghost var text: string

    /** What will be read: the characters pushed back, last one first, then the file. */
    ghost predicate Valid()
      reads this, pushback
    {
      pushback.Length == MAX_PUSHBACK + 1 && Holds(pushback[..], npushed, text, file)
    }

    /** The characters pushed back, the next one first. */
    ghost function Row(): (row: string)
      requires npushed <= |text|
      reads this
    {
      text[..npushed]
    }

    /** No more than `n` characters are held, or one that was read and put back. */
    ghost predicate Held(n: nat)
      reads this
    {
      npushed <= n || npushed == 1
    }

    constructor (contents: string)
      requires PlainText(contents)
      ensures Valid() && fresh(pushback) && text == contents && lineno == 1 && npushed == 0
    {
      pushback := new char[MAX_PUSHBACK + 1];
      npushed, file, lineno, text := 0, contents, 1, contents;
    }

    /** Reading and pushing back keep the line number right: with the line ends ahead it adds up to the same. */
    ghost function LastLine(): (n: int)
      reads this
    {
      lineno + Newlines(text)
    }

    method Get() returns (c: Option<char>)
      requires Valid()
      modifies this
      ensures Valid() && c == First(old(text)) && text == Tail(old(text)) && LastLine() == old(LastLine())
      ensures lineno == old(lineno) + if c == Some('\n') then 1 else 0
      ensures npushed <= old(npushed) && (c.Some? ==> Plain(c.value) && (npushed < old(npushed) || npushed == 0))
    {
      if npushed > 0 {
        Popped(pushback[..], npushed, text, file);
        npushed := npushed - 1;
        c := Some(pushback[npushed]);
      } else if file == [] {
        return None;
      } else {
        ReadOn(pushback[..], text, file);
        c, file := Some(file[0]), file[1..];
      }
      text := text[1..];
      if c == Some('\n') {
        lineno := lineno + 1;
      }
    }

    /** One character in front of the input; what was pushed before is lost when it overran the row. */
    method Push(c: char)
      requires Valid() && Plain(c)
      modifies this, pushback
      ensures Valid() && pushback[PushSlot(old(npushed))] == c && npushed == PushSlot(old(npushed)) + 1
      ensures text == [c] + if old(npushed) <= MAX_PUSHBACK then old(text) else old(file)
      ensures Row() == PushOne(old(Row()), c) && file == old(file)
      ensures old(npushed) <= MAX_PUSHBACK ==> LastLine() == old(LastLine())
      ensures lineno == old(lineno) - if c == '\n' then 1 else 0
    {
      if npushed > MAX_PUSHBACK {
        GivenUp(pushback[..], npushed, text, file);
        npushed, text := 0, file;
      }
      PushedOn(pushback[..], npushed, text, file, c);
      pushback[npushed] := c;
      npushed := npushed + 1;
      assert ([c] + text)[1..] == text;
      text := [c] + text;
      if c == '\n' {
        lineno := lineno - 1;
      }
    }

    method GetNonSpace() returns (c: Option<char>)
      requires Valid()
      modifies this
      ensures Valid() && LastLine() == old(LastLine()) && npushed <= old(npushed)
      ensures c.Some? ==> npushed < old(npushed) || npushed == 0
      ensures var t := SkipSpace(old(text)); c == First(t) && text == Tail(t) && (c.Some? ==> Plain(c.value))
    {
      c := Get();
      while c.Some? && Space(c.value)
        invariant Valid() && LastLine() == old(LastLine()) && npushed <= old(npushed)
        invariant SkipSpace(if c.Some? then [c.value] + text else text) == SkipSpace(old(text))
        invariant if c.None? then text == [] else Plain(c.value) && (npushed < old(npushed) || npushed == 0)
        decreases |text|, if c.Some? then 1 else 0
      {
        assert ([c.value] + text)[1..] == text;
        c := Get();
      }
    }
  }

  /** A full row: the next character is stored behind it. */
  method FullRowExample() returns (input: Input)
    ensures input.Valid() && input.npushed == 8193 && input.pushback[8192] == 'y'
  {
    input := new Input("");
    while input.npushed < MAX_PUSHBACK
      invariant fresh(input) && fresh(input.pushback) && input.Valid() && input.npushed <= MAX_PUSHBACK
      decreases MAX_PUSHBACK - input.npushed
    {
      input.Push('x');
    }
    input.Push('y');
  }
}
