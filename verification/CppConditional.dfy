/** Conditional inclusion in the IDL preprocessor: a stack of open conditionals and a count of skipped ones. */
module CppConditional {
  import opened Bytes

  datatype CondState = TRUE | FALSE | STAYFALSE

  /** What a directive's condition comes to; `NoParens` is the `@` form whose parenthesis is missing. */
  datatype Test = Holds | Fails | NoParens

  datatype Token = If(test: Test) | Elif(test: Test) | Else | Endif | Text(c: char)

  /** `ifstack`, top first, `n_skipped_ifs`, and what has been printed. */
  datatype State = State(stack: seq<CondState>, skipped: nat, out: string) {
    predicate InFalseIf() {
      stack != [] && stack[0] != TRUE
    }

    predicate Active() {
      !InFalseIf()
    }

    /** Only the top conditional can hide text, and nothing is skipped unless it does. */
    ghost predicate Invariant() {
      && (forall i :: 1 <= i < |stack| ==> stack[i] == TRUE)
      && (skipped > 0 ==> InFalseIf())
    }

    function Push(s: CondState): (st: State) {
      this.(stack := [s] + stack)
    }

    function WithTop(s: CondState): (st: State)
      requires stack != []
    {
      this.(stack := [s] + stack[1..])
    }
  }

  const INITIAL := State([], 0, "")

  /** Where a chain of alternatives goes next: its first true one, and none after that. */
  function Advance(s: CondState, t: Test): (s': CondState) {
    if t == NoParens || s != FALSE then STAYFALSE else if t == Holds then TRUE else FALSE
  }

  function StepIf(st: State, t: Test): (st': State) {
    if st.InFalseIf() then st.(skipped := st.skipped + 1)
    else st.Push(if t == Holds then TRUE else FALSE)
  }

  function StepElif(st: State, t: Test): (st': State) {
    var st := if st.stack == [] then st.Push(FALSE) else st;
    if st.skipped > 0 then st else st.WithTop(Advance(st.stack[0], t))
  }

  function StepElse(st: State): (st': State) {
    if st.skipped > 0 || st.stack == [] then st else st.WithTop(Advance(st.stack[0], Holds))
  }

  function StepEndif(st: State): (st': State) {
    if st.skipped > 0 then st.(skipped := st.skipped - 1)
    else if st.stack != [] then st.(stack := st.stack[1..])
    else st
  }

  function StepText(st: State, c: char): (st': State) {
    if c == '\n' || !st.InFalseIf() then st.(out := st.out + [c]) else st
  }

  function Step(st: State, t: Token): (st': State) {
    match t
    case If(test) => StepIf(st, test)
    case Elif(test) => StepElif(st, test)
    case Else => StepElse(st)
    case Endif => StepEndif(st)
    case Text(c) => StepText(st, c)
  }

  function Run(st: State, ts: seq<Token>): (st': State)
    decreases |ts|
  {
    if ts == [] then st else Run(Step(st, ts[0]), ts[1..])
  }

  // -------------------------------------------------------------------
  // The preprocessor's procedures
  // -------------------------------------------------------------------

  class Preprocessor {
    var ifstack: seq<CondState>
    var nSkippedIfs: nat
    var output: string

    ghost function Abs(): (st: State)
      reads this
    {
      State(ifstack, nSkippedIfs, output)
    }

    constructor ()
      ensures Abs() == INITIAL
    {
      ifstack, nSkippedIfs, output := [], 0, "";
    }

    predicate InFalseIf()
      reads this
    {
      ifstack != [] && ifstack[0] != TRUE
    }

    method IfTrue()
      modifies this`ifstack
      ensures Abs() == old(Abs()).Push(TRUE)
    {
      ifstack := [TRUE] + ifstack;
    }

    method IfFalse()
      modifies this`ifstack
      ensures Abs() == old(Abs()).Push(FALSE)
    {
      ifstack := [FALSE] + ifstack;
    }

    /** `#if` and `@if`; `paren` says whether the `@` form is followed by its parenthesis. */
    method DoIf(sharp: bool, paren: bool, value: int)
      modifies this
      ensures Abs() == Step(old(Abs()), If(if !sharp && !paren then NoParens else if value != 0 then Holds else Fails))
    {
      if InFalseIf() {
        nSkippedIfs := nSkippedIfs + 1;
        return;
      }
      if !sharp && !paren {
        IfFalse();
        return;
      }
      if value != 0 {
        IfTrue();
      } else {
        IfFalse();
      }
    }

    /** `#ifdef`: a missing identifier counts as undefined. */
    method DoIfdef(ident: Option<string>, defined: set<string>)
      modifies this
      ensures Abs() == Step(old(Abs()), If(if ident.Some? && ident.value in defined then Holds else Fails))
    {
      if InFalseIf() {
        nSkippedIfs := nSkippedIfs + 1;
      } else if ident.None? {
        IfFalse();
      } else if ident.value in defined {
        IfTrue();
      } else {
        IfFalse();
      }
    }

    method DoIfndef(ident: Option<string>, defined: set<string>)
      modifies this
      ensures Abs() == Step(old(Abs()), If(if ident.Some? && ident.value in defined then Fails else Holds))
    {
      if InFalseIf() {
        nSkippedIfs := nSkippedIfs + 1;
      } else if ident.None? {
        IfTrue();
      } else if ident.value in defined {
        IfFalse();
      } else {
        IfTrue();
      }
    }

    method DoElse()
      modifies this
      ensures Abs() == Step(old(Abs()), Else)
    {
      if nSkippedIfs == 0 {
        if ifstack != [] {
          match ifstack[0]
          case TRUE => ifstack := ifstack[0 := STAYFALSE];
          case FALSE => ifstack := ifstack[0 := TRUE];
          case STAYFALSE =>
        }
      }
    }

    method DoElif(sharp: bool, paren: bool, value: int)
      modifies this
      ensures Abs()
              == Step(old(Abs()), Elif(if !sharp && !paren then NoParens else if value != 0 then Holds else Fails))
    {
      if ifstack == [] {
        IfFalse();
      }
      if nSkippedIfs > 0 {
        return;
      }
      if !sharp && !paren {
        ifstack := ifstack[0 := STAYFALSE];
        return;
      }
      match ifstack[0]
      case TRUE => ifstack := ifstack[0 := STAYFALSE];
      case FALSE =>
        if value != 0 {
          ifstack := ifstack[0 := TRUE];
        }
      case STAYFALSE =>
    }

    method DoEndif()
      modifies this
      ensures Abs() == Step(old(Abs()), Endif)
    {
      if nSkippedIfs > 0 {
        nSkippedIfs := nSkippedIfs - 1;
      } else if ifstack != [] {
        ifstack := ifstack[1..];
      }
    }

    method MaybePrint(c: char)
      modifies this`output
      ensures Abs() == Step(old(Abs()), Text(c))
    {
      if c == '\n' || !InFalseIf() {
        output := output + [c];
      }
    }

    /** A directive or a character of text, as the main loop passes it on. */
    method Handle(t: Token)
      modifies this
      ensures Abs() == Step(old(Abs()), t)
    {
      match t
      case If(test) => DoIf(test != NoParens, false, if test == Holds then 1 else 0);
      case Elif(test) => DoElif(test != NoParens, false, if test == Holds then 1 else 0);
      case Else => DoElse();
      case Endif => DoEndif();
      case Text(c) => MaybePrint(c);
    }

    /** A whole run. */
    method Process(ts: seq<Token>)
      modifies this
      ensures Abs() == Run(old(Abs()), ts)
    {
      var i := 0;
      assert ts[0..] == ts;
      while i < |ts|
        invariant 0 <= i <= |ts| && Run(Abs(), ts[i..]) == Run(old(Abs()), ts)
      {
        assert ts[i..][1..] == ts[i + 1..];
        Handle(ts[i]);
        i := i + 1;
      }
    }
  }

  // -------------------------------------------------------------------
  // What every run keeps
  // -------------------------------------------------------------------

  lemma StepKeepsInvariant(st: State, t: Token)
    requires st.Invariant()
    ensures Step(st, t).Invariant()
  {
  }

  lemma {:induction false} RunKeepsInvariant(st: State, ts: seq<Token>)
    requires st.Invariant()
    ensures Run(st, ts).Invariant()
    decreases |ts|
  {
    if ts != [] {
      StepKeepsInvariant(st, ts[0]);
      RunKeepsInvariant(Step(st, ts[0]), ts[1..]);
    }
  }

  /** The order in which a conditional's alternatives can be gone through. */
  function Rank(s: CondState): (n: nat) {
    match s
    case FALSE => 0
    case TRUE => 1
    case STAYFALSE => 2
  }

  /** The conditional at nesting depth `d`, counted from the outermost. */
  function AtDepth(st: State, d: nat): (s: CondState)
    requires d < |st.stack|
  {
    st.stack[|st.stack| - 1 - d]
  }

  lemma StepKeepsOrder(st: State, t: Token, d: nat)
    requires d < |st.stack| && d < |Step(st, t).stack|
    ensures Rank(AtDepth(st, d)) <= Rank(AtDepth(Step(st, t), d))
  {
  }

  /** The conditional at depth `d` stays open throughout the run. */
  ghost predicate StaysOpen(st: State, ts: seq<Token>, d: nat)
    decreases |ts|
  {
    d < |st.stack| && (ts != [] ==> StaysOpen(Step(st, ts[0]), ts[1..], d))
  }

  /** While a conditional is open it only moves on: once an alternative was taken, none is taken again. */
  lemma {:induction false} RunKeepsOrder(st: State, ts: seq<Token>, d: nat)
    requires StaysOpen(st, ts, d)
    ensures d < |Run(st, ts).stack| && Rank(AtDepth(st, d)) <= Rank(AtDepth(Run(st, ts), d))
    decreases |ts|
  {
    if ts != [] {
      StepKeepsOrder(st, ts[0], d);
      RunKeepsOrder(Step(st, ts[0]), ts[1..], d);
    }
  }

  // -------------------------------------------------------------------
  // Counting skipped conditionals instead of stacking them
  // -------------------------------------------------------------------

  /** The plain machine: every open conditional is on the stack, and text shows when all of them are true. */
  predicate AllTrue(stack: seq<CondState>) {
    forall i :: 0 <= i < |stack| ==> stack[i] == TRUE
  }

  function PlainStep(stack: seq<CondState>, t: Token): (stack': seq<CondState>) {
    match t
    case If(test) => [if !AllTrue(stack) then STAYFALSE else if test == Holds then TRUE else FALSE] + stack
    case Elif(test) => if stack == [] then [Advance(FALSE, test)] else [Advance(stack[0], test)] + stack[1..]
    case Else => if stack == [] then [] else [Advance(stack[0], Holds)] + stack[1..]
    case Endif => if stack == [] then [] else stack[1..]
    case Text(_) => stack
  }

  function PlainPrint(stack: seq<CondState>, t: Token): (s: string) {
    if t.Text? && (t.c == '\n' || AllTrue(stack)) then [t.c] else ""
  }

  function Skips(n: nat): (s: seq<CondState>) {
    seq(n, _ => STAYFALSE)
  }

  /** The stack of all open conditionals: the counted ones lie on top of those kept. */
  function Whole(st: State): (stack: seq<CondState>) {
    Skips(st.skipped) + st.stack
  }

  lemma WholeIsActive(st: State)
    requires st.Invariant()
    ensures AllTrue(Whole(st)) <==> st.Active()
  {
    if st.skipped > 0 {
      assert Whole(st)[0] == STAYFALSE;
    } else {
      assert Whole(st) == st.stack;
    }
  }

  lemma WholeUnskipped(st: State)
    requires st.skipped == 0
    ensures Whole(st) == st.stack
  {
  }

  lemma WholeSkipped(st: State)
    requires st.skipped > 0
    ensures Whole(st) == [STAYFALSE] + Whole(st.(skipped := st.skipped - 1))
    ensures Whole(st)[0] == STAYFALSE && Whole(st)[1..] == Whole(st.(skipped := st.skipped - 1))
  {
    assert Skips(st.skipped) == [STAYFALSE] + Skips(st.skipped - 1);
  }

  lemma IfIsPlain(st: State, t: Test)
    requires st.Invariant()
    ensures Whole(StepIf(st, t)) == PlainStep(Whole(st), If(t))
  {
    WholeIsActive(st);
    if st.InFalseIf() {
      WholeSkipped(StepIf(st, t));
      assert StepIf(st, t).(skipped := st.skipped) == st;
    } else {
      WholeUnskipped(st);
      WholeUnskipped(StepIf(st, t));
    }
  }

  /** A skipped conditional's alternatives change nothing on the whole stack either. */
  lemma AlternativeIsPlain(st: State, t: Test)
    requires st.stack != []
    ensures var st' := if st.skipped > 0 then st else st.WithTop(Advance(st.stack[0], t));
            Whole(st') == [Advance(Whole(st)[0], t)] + Whole(st)[1..]
  {
    if st.skipped > 0 {
      WholeSkipped(st);
    } else {
      WholeUnskipped(st);
      WholeUnskipped(st.WithTop(Advance(st.stack[0], t)));
    }
  }

  lemma EndifIsPlain(st: State)
    ensures Whole(StepEndif(st)) == PlainStep(Whole(st), Endif)
  {
    if st.skipped > 0 {
      WholeSkipped(st);
    } else {
      WholeUnskipped(st);
      WholeUnskipped(StepEndif(st));
    }
  }

  /** Every step of the machine is a step of the plain one, and prints the same. */
  lemma StepIsPlain(st: State, t: Token)
    requires st.Invariant()
    ensures Whole(Step(st, t)) == PlainStep(Whole(st), t)
    ensures Step(st, t).out == st.out + PlainPrint(Whole(st), t)
  {
    match t
    case If(test) => IfIsPlain(st, test);
    case Elif(test) =>
      if st.stack == [] {
        WholeUnskipped(st);
        WholeUnskipped(StepElif(st, test));
      } else {
        AlternativeIsPlain(st, test);
      }
    case Else =>
      if st.stack == [] {
        WholeUnskipped(st);
      } else {
        AlternativeIsPlain(st, Holds);
      }
    case Endif => EndifIsPlain(st);
    case Text(c) => WholeIsActive(st);
  }

  function PlainRun(stack: seq<CondState>, ts: seq<Token>): (r: (seq<CondState>, string))
    decreases |ts|
  {
    if ts == [] then (stack, "")
    else
      var r := PlainRun(PlainStep(stack, ts[0]), ts[1..]);
      (r.0, PlainPrint(stack, ts[0]) + r.1)
  }

  /** Over every run, well nested or not, the counter loses nothing. */
  lemma {:induction false} RunIsPlain(st: State, ts: seq<Token>)
    requires st.Invariant()
    ensures Whole(Run(st, ts)) == PlainRun(Whole(st), ts).0
    ensures Run(st, ts).out == st.out + PlainRun(Whole(st), ts).1
    decreases |ts|
  {
    if ts != [] {
      StepIsPlain(st, ts[0]);
      StepKeepsInvariant(st, ts[0]);
      RunIsPlain(Step(st, ts[0]), ts[1..]);
      EmitTwice(st, PlainPrint(Whole(st), ts[0]), PlainRun(Whole(Step(st, ts[0])), ts[1..]).1);
    }
  }

  // -------------------------------------------------------------------
  // Well-nested text
  // -------------------------------------------------------------------

  /** Text with conditionals in it, and the alternatives after a conditional's first part. */
  datatype Items = Nil | Char(c: char, tail: Items) | Cond(test: Test, body: Items, arms: Arms, tail: Items)
  datatype Arms = End | Arm(head: Head, body: Items, next: Arms)
  datatype Head = ElseIf(test: Test) | Otherwise

  function HeadTest(h: Head): (t: Test) {
    match h
    case ElseIf(test) => test
    case Otherwise => Holds
  }

  function HeadToken(h: Head): (t: Token) {
    match h
    case ElseIf(test) => Elif(test)
    case Otherwise => Else
  }

  function Tokens(items: Items): (ts: seq<Token>) {
    match items
    case Nil => []
    case Char(c, tail) => [Text(c)] + Tokens(tail)
    case Cond(test, body, arms, tail) => [If(test)] + (Tokens(body) + (ArmTokens(arms) + Tokens(tail)))
  }

  function ArmTokens(arms: Arms): (ts: seq<Token>) {
    match arms
    case End => [Endif]
    case Arm(head, body, next) => [HeadToken(head)] + (Tokens(body) + ArmTokens(next))
  }

  /** What the text means: of each conditional the first part whose test holds; line ends always stay. */
  function Meaning(items: Items, shown: bool): (s: string) {
    match items
    case Nil => ""
    case Char(c, tail) => (if shown || c == '\n' then [c] else "") + Meaning(tail, shown)
    case Cond(test, body, arms, tail) =>
      Meaning(body, shown && test == Holds) + (ArmsMeaning(arms, shown, test != Holds) + Meaning(tail, shown))
  }

  /** `wanted`: no part was taken yet, and no alternative was without its parenthesis. */
  function ArmsMeaning(arms: Arms, shown: bool, wanted: bool): (s: string) {
    match arms
    case End => ""
    case Arm(head, body, next) =>
      Meaning(body, shown && wanted && HeadTest(head) == Holds)
      + ArmsMeaning(next, shown, wanted && HeadTest(head) == Fails)
  }

  function Emit(st: State, s: string): (st': State) {
    st.(out := st.out + s)
  }

  lemma {:induction false} RunAppend(st: State, a: seq<Token>, b: seq<Token>)
    ensures Run(st, a + b) == Run(Run(st, a), b)
    decreases |a|
  {
    if a == [] {
      assert a + b == b;
    } else {
      assert (a + b)[1..] == a[1..] + b;
      RunAppend(Step(st, a[0]), a[1..], b);
    }
  }

  lemma RunOneThen(st: State, t: Token, b: seq<Token>)
    ensures Run(st, [t] + b) == Run(Step(st, t), b)
  {
    assert ([t] + b)[1..] == b;
  }

  lemma EmitTwice(st: State, a: string, b: string)
    ensures Emit(Emit(st, a), b) == Emit(st, a + b)
  {
    assert st.out + a + b == st.out + (a + b);
  }

  /** Inside hidden text it does not matter which alternative is wanted. */
  lemma {:induction false} HiddenArms(arms: Arms, wanted: bool, wanted': bool)
    ensures ArmsMeaning(arms, false, wanted) == ArmsMeaning(arms, false, wanted')
  {
    match arms
    case End =>
    case Arm(head, body, next) =>
      HiddenArms(next, wanted && HeadTest(head) == Fails, wanted' && HeadTest(head) == Fails);
  }

  /** The innermost conditional is kept on the stack and still looks for a part to take. */
  ghost predicate Wanting(st: State) {
    st.skipped == 0 && st.stack != [] && st.stack[0] == FALSE
  }

  lemma IfOpens(st: State, test: Test)
    requires st.Invariant()
    ensures var st' := StepIf(st, test);
            && st'.Invariant() && st'.stack != [] && StepEndif(st') == st
            && (st'.Active() <==> st.Active() && test == Holds)
            && (st'.skipped == 0 <==> st.Active()) && (st.Active() ==> (Wanting(st') <==> test != Holds))
  {
    if st.Active() {
      assert StepIf(st, test).stack[1..] == st.stack;
    }
  }

  lemma HeadMovesOn(st: State, head: Head)
    requires st.Invariant() && st.stack != []
    ensures var st' := Step(st, HeadToken(head));
            && st'.Invariant() && st'.stack != [] && StepEndif(st') == StepEndif(st) && st'.skipped == st.skipped
            && (st'.Active() <==> Wanting(st) && HeadTest(head) == Holds)
            && (Wanting(st') <==> Wanting(st) && HeadTest(head) == Fails)
  {
  }

  lemma CharRuns(st: State, c: char, ts: seq<Token>, m: string)
    requires Run(StepText(st, c), ts) == Emit(StepText(st, c), m)
    ensures Run(st, [Text(c)] + ts) == Emit(st, (if st.Active() || c == '\n' then [c] else "") + m)
  {
    RunOneThen(st, Text(c), ts);
    var first := if st.Active() || c == '\n' then [c] else "";
    assert StepText(st, c) == Emit(st, first) by {
      assert st.out + "" == st.out;
    }
    EmitTwice(st, first, m);
  }

  /** A conditional runs as its parts do, one after another. */
  lemma CondRuns(st: State, test: Test, body: seq<Token>, arms: seq<Token>, tail: seq<Token>,
                 m1: string, m2: string, m3: string)
    requires st.Invariant()
    requires Run(StepIf(st, test), body) == Emit(StepIf(st, test), m1)
    requires Run(Emit(StepIf(st, test), m1), arms) == Emit(StepEndif(Emit(StepIf(st, test), m1)), m2)
    requires Run(Emit(st, m1 + m2), tail) == Emit(Emit(st, m1 + m2), m3)
    ensures Run(st, [If(test)] + (body + (arms + tail))) == Emit(st, m1 + (m2 + m3))
  {
    var st1 := StepIf(st, test);
    IfOpens(st, test);
    RunOneThen(st, If(test), body + (arms + tail));
    RunAppend(st1, body, arms + tail);
    RunAppend(Emit(st1, m1), arms, tail);
    EmitTwice(st, m1, m2);
    EmitTwice(st, m1 + m2, m3);
    assert m1 + m2 + m3 == m1 + (m2 + m3);
  }

  /** The machine shows exactly the parts the conditionals select, and ends where it began. */
  lemma {:induction false} RunIsMeaning(items: Items, st: State)
    requires st.Invariant()
    ensures Run(st, Tokens(items)) == Emit(st, Meaning(items, st.Active()))
    decreases items
  {
    match items
    case Nil =>
      assert st.out + "" == st.out;
    case Char(c, tail) =>
      RunIsMeaning(tail, StepText(st, c));
      CharRuns(st, c, Tokens(tail), Meaning(tail, st.Active()));
    case Cond(test, body, arms, tail) =>
      var st1, shown := StepIf(st, test), st.Active();
      IfOpens(st, test);
      var m1, m2 := Meaning(body, shown && test == Holds), ArmsMeaning(arms, shown, test != Holds);
      RunIsMeaning(body, st1);
      ArmsRunIsMeaning(arms, Emit(st1, m1));
      HiddenArms(arms, Wanting(st1), test != Holds);
      RunIsMeaning(tail, Emit(st, m1 + m2));
      CondRuns(st, test, Tokens(body), ArmTokens(arms), Tokens(tail), m1, m2, Meaning(tail, shown));
  }

  lemma {:induction false} ArmsRunIsMeaning(arms: Arms, st: State)
    requires st.Invariant() && st.stack != []
    ensures Run(st, ArmTokens(arms)) == Emit(StepEndif(st), ArmsMeaning(arms, st.skipped == 0, Wanting(st)))
    decreases arms
  {
    match arms
    case End =>
      RunOneThen(st, Endif, []);
      assert [Endif] + [] == [Endif] && StepEndif(st).out + "" == StepEndif(st).out;
    case Arm(head, body, next) =>
      var st1, shown := Step(st, HeadToken(head)), st.skipped == 0;
      HeadMovesOn(st, head);
      RunOneThen(st, HeadToken(head), Tokens(body) + ArmTokens(next));
      RunAppend(st1, Tokens(body), ArmTokens(next));
      RunIsMeaning(body, st1);
      var m := Meaning(body, st1.Active());
      ArmsRunIsMeaning(next, Emit(st1, m));
      EmitTwice(StepEndif(st), m, ArmsMeaning(next, shown, Wanting(st1)));
  }

  /** From the start: what is printed is what the text means, and every conditional is closed again. */
  lemma WholeRun(items: Items)
    ensures Run(INITIAL, Tokens(items)) == State([], 0, Meaning(items, true))
  {
    RunIsMeaning(items, INITIAL);
  }

  /** The preprocessor on well-nested text: its output is the text's meaning, and every conditional is closed. */
  method Preprocess(items: Items) returns (output: string)
    ensures output == Meaning(items, true)
  {
    var pp := new Preprocessor();
    pp.Process(Tokens(items));
    WholeRun(items);
    assert pp.ifstack == [] && pp.nSkippedIfs == 0;
    output := pp.output;
  }

  /** Outside every conditional an `elif` opens one, and `else` and `endif` do nothing. */
  lemma StrayDirectives(st: State, t: Test)
    requires st.stack == [] && st.skipped == 0
    ensures t != NoParens ==> Step(st, Elif(t)) == Step(st, If(t))
    ensures Step(st, Elif(NoParens)) == st.Push(STAYFALSE)
    ensures Step(st, Else) == st && Step(st, Endif) == st
  {
  }

  /** After an `else` the conditional shows nothing more, whatever alternatives follow. */
  lemma NothingBehindElse(st: State, ts: seq<Token>)
    requires st.stack != [] && st.skipped == 0 && st.stack[0] == STAYFALSE
    requires forall i :: 0 <= i < |ts| ==> ts[i].Elif? || ts[i].Else?
    ensures Run(st, ts) == st
    decreases |ts|
  {
    if ts != [] {
      assert Step(st, ts[0]) == st by {
        assert [STAYFALSE] + st.stack[1..] == st.stack;
      }
      NothingBehindElse(st, ts[1..]);
    }
  }
}
