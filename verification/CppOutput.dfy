/** The preprocessor's output stage: line ends are held back, and markers say where the text goes on. */
module CppOutput {
  import opened Bytes

  /** What is written: a line marker on lines of its own, or a character. */
  datatype Event = Marker(line: int, file: string) | Ch(c: char)

  /** The calls the preprocessor makes: where it is now, and the next character. */
  datatype Call = At(line: int, file: string) | Put(c: char)

  predicate Blank(c: char) {
    c == ' ' || c == '\t'
  }

  /** What happened so far, the latest last. */
  datatype Log<T> = Start | Then(before: Log<T>, latest: T)

  // -------------------------------------------------------------------
  // Where the calls put each character
  // -------------------------------------------------------------------

  /**
   A visible character, its place, and the blanks put since the character or line end before it; `moved` when the
   place was changed among them.
   */
  datatype Place = Place(c: char, line: int, file: string, blanks: string, moved: bool)

  /** The place now, the visible characters so far, and the blanks since the last of them or the last line end. */
  datatype Trail = Trail(line: int, file: string, seen: seq<Place>, blanks: string, moved: bool) {
    function Pass(c: char): (t: Trail) {
      if c == '\n' then Trail(line + 1, file, seen, "", false)
      else if Blank(c) then this.(blanks := blanks + [c])
      else Trail(line, file, seen + [Place(c, line, file, blanks, moved)], "", false)
    }
  }

  function Assign(t: Trail, call: Call): (t': Trail) {
    match call
    case At(line, file) => if line == t.line && file == t.file then t else Trail(line, file, t.seen, t.blanks, true)
    case Put(c) => t.Pass(c)
  }

  function Assigned(calls: Log<Call>): (t: Trail) {
    match calls
    case Start => Trail(0, "", [], "", true)
    case Then(before, call) => Assign(Assigned(before), call)
  }

  // -------------------------------------------------------------------
  // Where a reader finds each character
  // -------------------------------------------------------------------

  /**
   A visible character, the place a reader who follows markers and line ends finds it at, the blanks right before
   it, and those before the markers since the character or line end before it.
   */
  datatype Found = Found(c: char, line: int, file: string, blanks: string, left: string)

  datatype Reading = Reading(line: int, file: string, seen: seq<Found>, blanks: string, left: string) {
    function Pass(c: char): (t: Reading) {
      if c == '\n' then Reading(line + 1, file, seen, "", "")
      else if Blank(c) then this.(blanks := blanks + [c])
      else Reading(line, file, seen + [Found(c, line, file, blanks, left)], "", "")
    }
  }

  function Follow(t: Reading, e: Event): (t': Reading) {
    match e
    case Marker(line, file) => Reading(line, file, t.seen, "", t.left + t.blanks)
    case Ch(c) => t.Pass(c)
  }

  function Read(events: Log<Event>): (t: Reading) {
    match events
    case Start => Reading(0, "", [], "", "")
    case Then(before, e) => Follow(Read(before), e)
  }

  // -------------------------------------------------------------------
  // The two agree
  // -------------------------------------------------------------------

  function Whole(s: string): (t: string) {
    s
  }

  /** The text `t` ends with `s`, stated so that it is unfolded only where `Whole` is mentioned. */
  ghost predicate Suffix(s: string, t: string) {
    forall u {:trigger Whole(u)} :: Whole(u) == t ==> |s| <= |u| && u[|u| - |s|..] == s
  }

  lemma SuffixMeans(s: string, t: string)
    ensures Suffix(s, t) <==> |s| <= |t| && t[|t| - |s|..] == s
  {
    assert Whole(t) == t;
  }

  /**
   The blanks found before a character are the last of those put there, and none of those is missing: the others
   stand before a marker. Without a move they are just those put there.
   */
  ghost predicate BlanksKept(blanks: string, moved: bool, found: string, left: string) {
    Suffix(found, blanks) && Suffix(blanks, left + found) && (!moved ==> found == blanks)
  }

  ghost predicate SamePlace(p: Place, f: Found) {
    p.c == f.c && p.line == f.line && p.file == f.file && BlanksKept(p.blanks, p.moved, f.blanks, f.left)
  }

  /** Every visible character is found where it was put, behind the blanks that were put before it. */
  ghost predicate Agree(put: seq<Place>, found: seq<Found>) {
    |put| == |found| && forall i :: 0 <= i < |put| ==> SamePlace(put[i], found[i])
  }

  lemma AgreeMore(put: seq<Place>, found: seq<Found>, p: Place, f: Found)
    requires Agree(put, found) && SamePlace(p, f)
    ensures Agree(put + [p], found + [f])
  {
  }

  lemma SuffixMore(s: string, t: string, c: char)
    requires Suffix(s, t)
    ensures Suffix(s + [c], t + [c])
  {
    SuffixMeans(s, t);
    SuffixMeans(s + [c], t + [c]);
  }

  lemma KeptMore(blanks: string, moved: bool, found: string, left: string, c: char)
    requires BlanksKept(blanks, moved, found, left)
    ensures BlanksKept(blanks + [c], moved, found + [c], left)
  {
    SuffixMore(found, blanks, c);
    SuffixMore(blanks, left + found, c);
    assert (left + found) + [c] == left + (found + [c]);
  }

  lemma KeptWhole(blanks: string, moved: bool, left: string)
    ensures BlanksKept(blanks, moved, blanks, left)
  {
    SuffixMeans(blanks, blanks);
    SuffixMeans(blanks, left + blanks);
  }

  function Held(white: Option<string>): (s: string) {
    if white.Some? then white.value else ""
  }

  /**
   What the pending state promises: behind a line end all blanks are held back; behind a move those held back are
   the last ones, and the others are written; otherwise none is held back.
   */
  ghost predicate Pending(t: Trail, r: Reading, nnls: nat, doneLine: bool, white: Option<string>) {
    if nnls > 0 then t.blanks == Held(white)
    else if !doneLine then t.moved && Suffix(Held(white), t.blanks) && Suffix(t.blanks, r.left + r.blanks + Held(white))
    else white == None && BlanksKept(t.blanks, t.moved, r.blanks, r.left)
  }

  /** What will be found right before the next character, if everything held back is written now, is as it should be. */
  ghost predicate Ready(t: Trail, r: Reading, nnls: nat, white: Option<string>) {
    if nnls > 0 then t.blanks == Held(white) else BlanksKept(t.blanks, t.moved, r.blanks + Held(white), r.left)
  }

  // -------------------------------------------------------------------
  // The steps, on values
  // -------------------------------------------------------------------

  ghost predicate AllBlank(s: string) {
    forall i :: 0 <= i < |s| ==> Blank(s[i])
  }

  ghost predicate Places(t: Trail, r: Reading, nnls: nat, atline: int, atfile: string, doneLine: bool) {
    && t.line == atline + nnls && t.file == atfile && Agree(t.seen, r.seen)
    && (doneLine ==> r.line == atline && r.file == atfile)
  }

  /** The reader finds every character where the calls put it; pending line ends are still to be counted. */
  ghost predicate Ok(t: Trail, r: Reading, nnls: nat, atline: int, atfile: string, doneLine: bool,
                     white: Option<string>) {
    Places(t, r, nnls, atline, atfile, doneLine) && Pending(t, r, nnls, doneLine, white) && AllBlank(Held(white))
  }

  /** Ready to be flushed: a marker, if there has to be one, is written. */
  ghost predicate Marked(t: Trail, r: Reading, nnls: nat, atline: int, atfile: string, white: Option<string>) {
    Places(t, r, nnls, atline, atfile, true) && Ready(t, r, nnls, white) && AllBlank(Held(white))
  }

  lemma MarkerWritten(t: Trail, r: Reading, nnls: nat, atline: int, atfile: string, doneLine: bool,
                      white: Option<string>)
    requires Ok(t, r, nnls, atline, atfile, doneLine, white) && (nnls > 0 || !doneLine)
    ensures var r' := Follow(r, Marker(atline + nnls, atfile));
            Marked(t, r', 0, atline + nnls, atfile, white) && r'.blanks == ""
  {
    assert "" + Held(white) == Held(white);
    if nnls > 0 {
      KeptWhole(t.blanks, t.moved, r.left + r.blanks);
    }
  }

  /** Right behind a marker the place can be changed again. */
  lemma MarkedMoves(t: Trail, r: Reading, atline: int, atfile: string, white: Option<string>, line: int, file: string)
    requires Marked(t, r, 0, atline, atfile, white) && r.blanks == "" && (line != t.line || file != t.file)
    ensures Ok(Assign(t, At(line, file)), r, 0, line, file, false, white)
  {
    assert "" + Held(white) == Held(white);
    assert r.left + "" == r.left;
  }

  lemma SettledMoves(t: Trail, r: Reading, nnls: nat, atline: int, atfile: string, white: Option<string>,
                     line: int, file: string)
    requires Ok(t, r, nnls, atline, atfile, true, white) && (line != t.line || file != t.file)
    ensures Ok(Assign(t, At(line, file)), r, nnls, line - nnls, file, false, white)
  {
    if nnls == 0 {
      assert r.left + r.blanks + "" == r.left + r.blanks;
      SuffixMeans("", t.blanks);
    }
  }

  lemma NeedsNoMarker(t: Trail, r: Reading, nnls: nat, atline: int, atfile: string, white: Option<string>)
    requires Ok(t, r, nnls, atline, atfile, true, white)
    ensures Marked(t, r, nnls, atline, atfile, white)
  {
    assert r.blanks + "" == r.blanks;
  }

  lemma LineEndWritten(t: Trail, r: Reading, nnls: nat, atline: int, atfile: string, white: Option<string>)
    requires nnls > 0 && Marked(t, r, nnls, atline, atfile, white)
    ensures Marked(t, r.Pass('\n'), nnls - 1, atline + 1, atfile, white)
  {
    assert "" + Held(white) == Held(white);
    KeptWhole(t.blanks, t.moved, "");
  }

  lemma BlankWritten(r: Reading, s: string, i: nat)
    requires i < |s| && Blank(s[i])
    ensures r.(blanks := r.blanks + s[..i]).Pass(s[i]) == r.(blanks := r.blanks + s[..i + 1])
  {
    assert r.blanks + s[..i] + [s[i]] == r.blanks + s[..i + 1];
  }

  lemma AllWritten(t: Trail, r: Reading, atline: int, atfile: string, white: Option<string>)
    requires Marked(t, r, 0, atline, atfile, white)
    ensures Ok(t, r.(blanks := r.blanks + Held(white)), 0, atline, atfile, true, None)
  {
  }

  lemma LineEndPut(t: Trail, r: Reading, nnls: nat, atline: int, atfile: string, doneLine: bool, white: Option<string>)
    requires Ok(t, r, nnls, atline, atfile, doneLine, white)
    ensures Ok(t.Pass('\n'), r, nnls + 1, atline, atfile, doneLine, None)
  {
  }

  lemma BlankHeld(t: Trail, r: Reading, nnls: nat, atline: int, atfile: string, doneLine: bool, white: Option<string>,
                  c: char)
    requires Ok(t, r, nnls, atline, atfile, doneLine, white) && nnls > 0 && Blank(c)
    ensures Ok(t.Pass(c), r, nnls, atline, atfile, doneLine, Some(Held(white) + [c]))
  {
  }

  /** A character put and written at once. */
  lemma PutAndWritten(t: Trail, r: Reading, atline: int, atfile: string, c: char)
    requires Ok(t, r, 0, atline, atfile, true, None) && c != '\n'
    ensures Ok(t.Pass(c), r.Pass(c), 0, atline, atfile, true, None)
  {
    if Blank(c) {
      KeptMore(t.blanks, t.moved, r.blanks, r.left, c);
    } else {
      AgreeMore(t.seen, r.seen, Place(c, t.line, t.file, t.blanks, t.moved),
                Found(c, r.line, r.file, r.blanks, r.left));
      KeptWhole("", false, "");
    }
  }

  lemma NothingWritten(r: Reading)
    ensures r.(blanks := r.blanks + "") == r
  {
    assert r.blanks + "" == r.blanks;
  }

  lemma Beginning(calls: Log<Call>, events: Log<Event>, atfile: string, white: Option<string>)
    requires calls == Start && events == Start && atfile == "" && white == None
    ensures Ok(Assigned(calls), Read(events), 0, 0, atfile, false, white)
  {
    SuffixMeans("", "");
    assert "" + "" + "" == "";
  }

  class Output {
    var nnls: nat
    var atline: int
    var atfile: string
    var doneLine: bool
    var white: Option<string>
    var events: Log<Event>
    ghost var calls: Log<Call>

    ghost predicate Valid()
      reads this
    {
      Ok(Assigned(calls), Read(events), nnls, atline, atfile, doneLine, white)
    }

    constructor ()
      ensures Valid() && calls == Start
    {
      nnls, atline, atfile, doneLine, white := 0, 0, "", false, None;
      events, calls := Start, Start;
      new;
      Beginning(calls, events, atfile, white);
    }

    method Accumulate(c: char)
      modifies this`events
      ensures events == Then(old(events), Ch(c)) && Read(events) == Read(old(events)).Pass(c)
    {
      events := Then(events, Ch(c));
    }

    method OutputLineAndFile()
      requires Valid() && (nnls > 0 || !doneLine)
      modifies this`atline, this`nnls, this`events, this`doneLine
      ensures Marked(Assigned(calls), Read(events), 0, atline, atfile, white) && Read(events).blanks == ""
      ensures nnls == 0 && doneLine && atline == old(atline + nnls)
    {
      MarkerWritten(Assigned(calls), Read(events), nnls, atline, atfile, doneLine, white);
      atline := atline + nnls;
      nnls := 0;
      events := Then(events, Marker(atline, atfile));
      doneLine := true;
    }

    method OutAt(line: int, file: string)
      requires Valid()
      modifies this
      ensures Valid() && calls == Then(old(calls), At(line, file))
    {
      if line - nnls != atline || file != atfile {
        if !doneLine {
          OutputLineAndFile();
          MarkedMoves(Assigned(calls), Read(events), atline, atfile, white, line, file);
        } else {
          SettledMoves(Assigned(calls), Read(events), nnls, atline, atfile, white, line, file);
        }
        atline := line - nnls;
        atfile := file;
        doneLine := false;
      }
      calls := Then(calls, At(line, file));
    }

    /** The line ends held back. */
    method FlushLines()
      requires Marked(Assigned(calls), Read(events), nnls, atline, atfile, white)
      modifies this`nnls, this`atline, this`events
      ensures Marked(Assigned(calls), Read(events), 0, atline, atfile, white) && nnls == 0
    {
      while nnls > 0
        invariant Marked(Assigned(calls), Read(events), nnls, atline, atfile, white)
        decreases nnls
      {
        LineEndWritten(Assigned(calls), Read(events), nnls, atline, atfile, white);
        atline := atline + 1;
        Accumulate('\n');
        nnls := nnls - 1;
      }
    }

    method WriteBlanks(s: string)
      requires AllBlank(s)
      modifies this`events
      ensures Read(events) == old(Read(events)).(blanks := old(Read(events)).blanks + s)
    {
      ghost var r := Read(events);
      var i := 0;
      assert s[..0] == "" && r.blanks + "" == r.blanks;
      while i < |s|
        invariant 0 <= i <= |s| && Read(events) == r.(blanks := r.blanks + s[..i])
      {
        BlankWritten(r, s, i);
        Accumulate(s[i]);
        i := i + 1;
      }
      assert s[..i] == s;
    }

    /** Then the blanks held back behind the last of them. */
    method FlushWhite()
      requires Marked(Assigned(calls), Read(events), 0, atline, atfile, white)
      modifies this`events, this`white
      ensures Ok(Assigned(calls), Read(events), 0, atline, atfile, true, None) && white == None
    {
      AllWritten(Assigned(calls), Read(events), atline, atfile, white);
      if white.Some? {
        WriteBlanks(white.value);
        white := None;
      } else {
        NothingWritten(Read(events));
      }
    }

    /** A marker, if there has to be one. */
    method Mark()
      requires Valid()
      modifies this`nnls, this`atline, this`events, this`doneLine
      ensures Marked(Assigned(calls), Read(events), nnls, atline, atfile, white) && doneLine
    {
      if nnls > 2 || !doneLine {
        OutputLineAndFile();
      } else {
        NeedsNoMarker(Assigned(calls), Read(events), nnls, atline, atfile, white);
      }
    }

    /** Everything held back is written. */
    method Flush()
      requires Valid()
      modifies this`nnls, this`atline, this`events, this`white, this`doneLine
      ensures Valid() && doneLine && nnls == 0 && white == None
    {
      Mark();
      FlushLines();
      FlushWhite();
    }

    method OutputC(c: char)
      requires Valid()
      modifies this
      ensures Valid() && calls == Then(old(calls), Put(c)) && Agree(Assigned(calls).seen, Read(events).seen)
    {
      if c == '\n' {
        LineEndPut(Assigned(calls), Read(events), nnls, atline, atfile, doneLine, white);
        nnls := nnls + 1;
        white := None;
      } else if nnls > 0 && Blank(c) {
        BlankHeld(Assigned(calls), Read(events), nnls, atline, atfile, doneLine, white, c);
        white := Some((if white.Some? then white.value else "") + [c]);
      } else {
        Flush();
        PutAndWritten(Assigned(calls), Read(events), atline, atfile, c);
        Accumulate(c);
      }
      calls := Then(calls, Put(c));
    }
  }
}
