/** Splitting a macro call's arguments: a scanner that minds parentheses, quotes, backslashes and comments. */
module CppActuals {
  import opened Bytes
  import opened Sequences
  import opened CppLexical
  import opened CppInput

  // -------------------------------------------------------------------
  // The scanner
  // -------------------------------------------------------------------

  /** `pc`, `quote` (NUL when outside quotes), `backslash`, `comment` and the character before. */
  datatype Scan = Scan(pc: nat, quote: char, backslash: bool, comment: bool, last: char) {
    predicate Neutral() {
      pc == 0 && quote == '\0' && !backslash && !comment
    }
  }

  const START := Scan(0, '\0', false, false, '\0')

  /** The scanner's next state; `None` when `c` ends the argument. */
  function Next(st: Scan, c: char): (r: Option<Scan>) {
    var st' := st.(last := c);
    if st.comment then Some(if st.last == '*' && c == '/' then st'.(comment := false) else st')
    else if st.backslash then Some(st'.(backslash := false))
    else if st.quote != '\0' && c == st.quote then Some(st'.(quote := '\0'))
    else if c == '\\' then Some(st'.(backslash := true))
    else if st.quote != '\0' then Some(st')
    else if st.last == '/' && c == '*' then Some(st'.(comment := true))
    else if c == '\'' || c == '"' then Some(st'.(quote := c))
    else if c == '(' then Some(st'.(pc := st.pc + 1))
    else if c == ')' then if st.pc > 0 then Some(st'.(pc := st.pc - 1)) else None
    else if c == ',' && st.pc == 0 then None
    else Some(st')
  }

  /** The state after the text `s`, or `None` when the argument ends within it. */
  function Through(st: Scan, s: string): (r: Option<Scan>)
    decreases |s|
  {
    if s == [] then Some(st)
    else match Next(st, s[0])
      case None => None
      case Some(st') => Through(st', s[1..])
  }

  /** Where the argument at the front of `s` ends, if it does. */
  function ArgEnd(st: Scan, s: string): (r: Option<nat>)
    ensures r.Some? ==> r.value < |s| && (s[r.value] == ',' || s[r.value] == ')')
    decreases |s|
  {
    if s == [] then None
    else match Next(st, s[0])
      case None => Some(0)
      case Some(st') =>
        match ArgEnd(st', s[1..])
        case None => None
        case Some(k) => Some(k + 1)
  }

  /** The arguments up to the closing parenthesis, and what follows it. */
  function Split(s: string): (r: Option<(seq<string>, string)>)
    ensures r.Some? ==> |r.value.0| >= 1
    decreases |s|
  {
    match ArgEnd(START, s)
    case None => None
    case Some(k) =>
      if s[k] == ')' then Some(([s[..k]], s[k + 1..]))
      else match Split(s[k + 1..])
        case None => None
        case Some((args, rest)) => Some(([s[..k]] + args, rest))
  }

  // -------------------------------------------------------------------
  // Splitting inverts joining
  // -------------------------------------------------------------------

  /** An argument: the scanner passes it and stands as it began, outside everything. */
  ghost predicate Balanced(arg: string) {
    Through(START, arg).Some? && Through(START, arg).value.Neutral()
  }

  function Join(args: seq<string>): (s: string)
    requires |args| >= 1
  {
    if |args| == 1 then args[0] + ")" else args[0] + ("," + Join(args[1..]))
  }

  lemma {:induction false} ArgEndOf(st: Scan, arg: string, c: char, rest: string)
    requires Through(st, arg).Some? && Through(st, arg).value.Neutral() && (c == ',' || c == ')')
    ensures ArgEnd(st, arg + ([c] + rest)) == Some(|arg|)
    decreases |arg|
  {
    var s := arg + ([c] + rest);
    if arg == [] {
      assert s == [c] + rest;
    } else {
      assert s[1..] == arg[1..] + ([c] + rest);
      ArgEndOf(Next(st, arg[0]).value, arg[1..], c, rest);
    }
  }

  lemma {:induction false} ArgEndIsEnd(st: Scan, s: string)
    requires ArgEnd(st, s).Some?
    ensures var k := ArgEnd(st, s).value; Through(st, s[..k]).Some? && Through(st, s[..k]).value.Neutral()
    decreases |s|
  {
    var k := ArgEnd(st, s).value;
    if k > 0 {
      ArgEndIsEnd(Next(st, s[0]).value, s[1..]);
      assert s[..k][1..] == s[1..][..k - 1];
    }
  }

  ghost predicate AllBalanced(args: seq<string>) {
    forall i :: 0 <= i < |args| ==> Balanced(args[i])
  }

  lemma SplitLast(arg: string, rest: string)
    requires Balanced(arg)
    ensures Split(arg + (")" + rest)) == Some(([arg], rest))
  {
    var s := arg + (")" + rest);
    ArgEndOf(START, arg, ')', rest);
    assert s[..|arg|] == arg && s[|arg| + 1..] == rest;
  }

  lemma SplitFirst(arg: string, x: string, args: seq<string>, rest: string)
    requires Balanced(arg) && Split(x) == Some((args, rest))
    ensures Split(arg + ("," + x)) == Some(([arg] + args, rest))
  {
    var s := arg + ("," + x);
    ArgEndOf(START, arg, ',', x);
    assert s[..|arg|] == arg && s[|arg| + 1..] == x;
  }

  lemma JoinOne(arg: string, rest: string)
    ensures Join([arg]) + rest == arg + (")" + rest)
  {
  }

  lemma JoinMore(arg: string, args: seq<string>, rest: string)
    requires |args| >= 1
    ensures Join([arg] + args) + rest == arg + ("," + (Join(args) + rest))
  {
    assert ([arg] + args)[1..] == args;
    Regroup(arg, ",", Join(args), rest);
  }

  /** Arguments joined by commas are split into the same arguments, up to the closing parenthesis. */
  lemma {:induction false} SplitOfJoin(args: seq<string>, rest: string)
    requires |args| >= 1 && AllBalanced(args)
    ensures Split(Join(args) + rest) == Some((args, rest))
    decreases |args|
  {
    var arg, others := args[0], args[1..];
    if |args| == 1 {
      assert args == [arg];
      JoinOne(arg, rest);
      SplitLast(arg, rest);
    } else {
      assert args == [arg] + others;
      SplitOfJoin(others, rest);
      JoinMore(arg, others, rest);
      SplitFirst(arg, Join(others) + rest, others, rest);
    }
  }

  lemma SplitAt(s: string, k: nat)
    requires k < |s|
    ensures s == s[..k] + ([s[k]] + s[k + 1..])
  {
  }

  /** And whatever is split was joined from balanced arguments. */
  lemma {:induction false} JoinOfSplit(s: string)
    requires Split(s).Some?
    ensures AllBalanced(Split(s).value.0) && s == Join(Split(s).value.0) + Split(s).value.1
    decreases |s|
  {
    var k := ArgEnd(START, s).value;
    ArgEndIsEnd(START, s);
    SplitAt(s, k);
    if s[k] == ')' {
      JoinOne(s[..k], s[k + 1..]);
    } else {
      JoinOfSplit(s[k + 1..]);
      JoinMore(s[..k], Split(s[k + 1..]).value.0, Split(s[k + 1..]).value.1);
    }
  }

  // -------------------------------------------------------------------
  // Reading a call's arguments
  // -------------------------------------------------------------------

  /** The first `n` arguments; those missing are empty. */
  function Fit(args: seq<string>, n: nat): (r: seq<string>)
    ensures |r| == n && forall i :: 0 <= i < n ==> r[i] == if i < |args| then args[i] else ""
  {
    if |args| >= n then args[..n] else args + seq(n - |args|, _ => "")
  }

  /** The actuals of a macro of `n` formals and the input behind the call; `None` when the call never ends. */
  function Actuals(s: string, n: nat): (r: Option<(seq<string>, string)>)
    ensures r.Some? ==> |r.value.0| == n
  {
    var t := SkipSpace(s);
    if First(t) != Some('(') then Some((Fit([], n), t))
    else if n == 0 then
      var u := SkipSpace(t[1..]);
      Some(([], if First(u) == Some(')') then u[1..] else u))
    else match Split(t[1..])
      case None => None
      case Some((args, rest)) => Some((Fit(args, n), rest))
  }

  /** A call with the right number of arguments gets exactly those, and reading goes on right behind it. */
  lemma ActualsOfCall(args: seq<string>, rest: string)
    requires |args| >= 1 && AllBalanced(args)
    ensures Actuals("(" + (Join(args) + rest), |args|) == Some((args, rest))
  {
    var s := "(" + (Join(args) + rest);
    SplitOfJoin(args, rest);
    assert SkipSpace(s) == s && s[1..] == Join(args) + rest && args[..|args|] == args;
  }

  /** Too few arguments are filled up with empty ones, too many are cut. */
  lemma ActualsOfAnyCall(args: seq<string>, n: nat, rest: string)
    requires |args| >= 1 && AllBalanced(args) && n > 0
    ensures Actuals("(" + (Join(args) + rest), n) == Some((Fit(args, n), rest))
  {
    var s := "(" + (Join(args) + rest);
    SplitOfJoin(args, rest);
    assert SkipSpace(s) == s && s[1..] == Join(args) + rest;
  }

  /** Without a parenthesis all arguments are empty, and nothing but white space is used up. */
  lemma ActualsOfNoCall(ws: string, t: string, n: nat)
    requires (forall i :: 0 <= i < |ws| ==> Space(ws[i])) && (t == [] || (!Space(t[0]) && t[0] != '('))
    ensures Actuals(ws + t, n) == Some((Fit([], n), t))
  {
    SpacesSkipped(ws, t);
  }

  /** A macro with an empty parameter list takes nothing from between the parentheses. */
  lemma ActualsOfNone(ws: string, t: string)
    requires (forall i :: 0 <= i < |ws| ==> Space(ws[i])) && (t == [] || !Space(t[0]))
    ensures Actuals("(" + (ws + t), 0) == Some(([], if First(t) == Some(')') then t[1..] else t))
  {
    var s := "(" + (ws + t);
    assert SkipSpace(s) == s && s[1..] == ws + t;
    SpacesSkipped(ws, t);
  }

  lemma {:induction false} SpacesSkipped(ws: string, t: string)
    requires (forall i :: 0 <= i < |ws| ==> Space(ws[i])) && (t == [] || !Space(t[0]))
    ensures SkipSpace(ws + t) == t
    decreases |ws|
  {
    if ws == [] {
      assert ws + t == t;
    } else {
      assert (ws + t)[1..] == ws[1..] + t;
      SpacesSkipped(ws[1..], t);
    }
  }

  function Shift(k: nat, r: Option<nat>): (r': Option<nat>) {
    match r
    case None => None
    case Some(i) => Some(k + i)
  }

  /** After `k` characters of `t` the scanner is in `st`, and from there on finds the argument's end at `end`. */
  ghost predicate Reached(t: string, k: nat, st: Scan, end: Option<nat>) {
    k <= |t| && end == Shift(k, ArgEnd(st, t[k..]))
  }

  lemma ReachedStep(t: string, k: nat, st: Scan, end: Option<nat>)
    requires Reached(t, k, st, end)
    ensures k == |t| ==> end == None
    ensures k < |t| ==> First(t[k..]) == Some(t[k]) && Tail(t[k..]) == t[k + 1..] && t[..k] + [t[k]] == t[..k + 1]
    ensures k < |t| && Next(st, t[k]).None? ==> end == Some(k)
    ensures k < |t| && Next(st, t[k]).Some? ==> Reached(t, k + 1, Next(st, t[k]).value, end)
  {
    if k < |t| {
      assert t[k..][1..] == t[k + 1..];
    }
  }

  /** What the next character does to the scanner's variables, and whether it ends the argument. */
  method Advance(pc0: nat, quote0: char, backslash0: bool, comment0: bool, last: char, c: char)
    returns (ended: bool, pc: nat, quote: char, backslash: bool, comment: bool)
    ensures Next(Scan(pc0, quote0, backslash0, comment0, last), c)
            == if ended then None else Some(Scan(pc, quote, backslash, comment, c))
  {
    ended, pc, quote, backslash, comment := false, pc0, quote0, backslash0, comment0;
    if comment {
      if last == '*' && c == '/' {
        comment := false;
      }
    } else {
      if backslash {
        backslash := false;
      } else if quote != '\0' && c == quote {
        quote := '\0';
      } else if c == '\\' {
        backslash := true;
      } else if quote != '\0' {
      } else if last == '/' && c == '*' {
        comment := true;
      } else if c == '\'' || c == '"' {
        quote := c;
      } else if c == '(' {
        pc := pc + 1;
      } else if c == ')' {
        if pc > 0 {
          pc := pc - 1;
        } else {
          ended := true;
        }
      } else if c == ',' && pc == 0 {
        ended := true;
      }
    }
  }

  ghost predicate Taken(t: string, acc: string, rest: string) {
    |acc| <= |t| && acc == t[..|acc|] && rest == t[|acc|..]
  }

  lemma TakenMore(t: string, acc: string)
    requires |acc| < |t| && Taken(t, acc, t[|acc|..])
    ensures t[|acc|..][0] == t[|acc|] && Taken(t, acc + [t[|acc|]], t[|acc|..][1..])
  {
  }

  method TakeNext(input: Input, ghost t: string, ghost acc: string) returns (next: Option<char>)
    requires input.Valid() && Taken(t, acc, input.text)
    modifies input
    ensures input.Valid() && input.npushed <= old(input.npushed) && input.LastLine() == old(input.LastLine())
    ensures if |acc| == |t| then next == None
            else next == Some(t[|acc|]) && Taken(t, acc + [t[|acc|]], input.text)
  {
    if |acc| < |t| {
      TakenMore(t, acc);
    }
    next := input.Get();
  }

  /** One argument and the character that ended it. */
  method ReadArg(input: Input) returns (r: Option<(string, char)>)
    requires input.Valid()
    modifies input
    ensures input.Valid() && input.npushed <= old(input.npushed) && input.LastLine() == old(input.LastLine())
    ensures match ArgEnd(START, old(input.text))
            case None => r == None
            case Some(k) =>
              r == Some((old(input.text)[..k], old(input.text)[k])) && input.text == old(input.text)[k + 1..]
  {
    var pc: nat, quote, backslash, comment, c := 0, '\0', false, false, '\0';
    var acc := "";
    ghost var t, end := input.text, ArgEnd(START, input.text);
    assert t[0..] == t;
    while true
      invariant input.Valid() && input.npushed <= old(input.npushed) && input.LastLine() == old(input.LastLine())
      invariant Reached(t, |acc|, Scan(pc, quote, backslash, comment, c), end)
      invariant Taken(t, acc, input.text)
      decreases |t| - |acc|
    {
      var last := c;
      ReachedStep(t, |acc|, Scan(pc, quote, backslash, comment, last), end);
      var next := TakeNext(input, t, acc);
      if next.None? {
        return None;
      }
      c := next.value;
      var ended;
      ended, pc, quote, backslash, comment := Advance(pc, quote, backslash, comment, last, c);
      if ended {
        return Some((acc, c));
      }
      acc := acc + [c];
    }
  }

  /** With `got` read so far, splitting the rest of the input completes the arguments `all`. */
  ghost predicate Gathered(got: seq<string>, rest: string, all: Option<(seq<string>, string)>) {
    all == match Split(rest) case None => None case Some((args, r)) => Some((got + args, r))
  }

  lemma GatheredMore(got: seq<string>, rest: string, all: Option<(seq<string>, string)>)
    requires Gathered(got, rest, all)
    ensures match ArgEnd(START, rest)
            case None => all == None
            case Some(k) =>
              if rest[k] == ')' then all == Some((got + [rest[..k]], rest[k + 1..]))
              else Gathered(got + [rest[..k]], rest[k + 1..], all)
  {
    match ArgEnd(START, rest)
    case None =>
    case Some(k) =>
      if rest[k] != ')' && Split(rest[k + 1..]).Some? {
        var args := Split(rest[k + 1..]).value.0;
        assert got + ([rest[..k]] + args) == got + [rest[..k]] + args;
      }
  }

  lemma GatheredNone(rest: string)
    ensures Gathered([], rest, Split(rest))
  {
    if Split(rest).Some? {
      assert [] + Split(rest).value.0 == Split(rest).value.0;
    }
  }

  /** Fill up with empty arguments. */
  method Pad(args: seq<string>, n: nat) returns (r: seq<string>)
    requires |args| <= n
    ensures r == Fit(args, n)
  {
    r := args;
    while |r| < n
      invariant |args| <= |r| <= n && r == Fit(args, |r|)
    {
      r := r + [""];
    }
  }

  /** The first `n` arguments. */
  function Kept(args: seq<string>, n: nat): (r: seq<string>) {
    if |args| < n then args else args[..n]
  }

  method KeepOne(kept0: seq<string>, arg: string, n: nat, ghost args: seq<string>) returns (kept: seq<string>)
    requires kept0 == Kept(args, n)
    ensures kept == Kept(args + [arg], n)
  {
    kept := kept0;
    if |kept| < n {
      kept := kept + [arg];
    }
  }

  /** The arguments up to the closing parenthesis; the first `n` of them are kept. */
  method Gather(input: Input, n: nat) returns (ok: bool, kept: seq<string>)
    requires input.Valid()
    modifies input
    ensures input.Valid() && input.npushed <= old(input.npushed) && input.LastLine() == old(input.LastLine())
    ensures match Split(old(input.text))
            case None => !ok
            case Some((args, rest)) => ok && kept == Kept(args, n) && input.text == rest
  {
    ghost var all, got: seq<string> := Split(input.text), [];
    kept, ok := [], true;
    GatheredNone(input.text);
    while true
      invariant input.Valid() && input.npushed <= old(input.npushed) && input.LastLine() == old(input.LastLine())
      invariant Gathered(got, input.text, all) && kept == Kept(got, n)
      decreases |input.text|
    {
      GatheredMore(got, input.text, all);
      var arg := ReadArg(input);
      if arg.None? {
        return false, [];
      }
      kept := KeepOne(kept, arg.value.0, n, got);
      got := got + [arg.value.0];
      if arg.value.1 == ')' {
        return;
      }
    }
  }

  lemma FitKept(args: seq<string>, n: nat)
    ensures Fit(Kept(args, n), n) == Fit(args, n)
  {
  }

  /** Behind the parenthesis of a call without arguments: the closing one is passed, anything else is put back. */
  method CloseCall(input: Input)
    requires input.Valid()
    modifies input, input.pushback
    ensures input.Valid() && input.LastLine() == old(input.LastLine()) && input.Held(old(input.npushed))
    ensures var u := SkipSpace(old(input.text)); input.text == if First(u) == Some(')') then u[1..] else u
  {
    var c := input.GetNonSpace();
    if c.Some? && c != Some(')') {
      input.Push(c.value);
    }
  }

  /** `read_actuals`. */
  method ReadActuals(input: Input, n: nat) returns (actuals: Option<seq<string>>)
    requires input.Valid()
    modifies input, input.pushback
    ensures input.Valid() && input.LastLine() == old(input.LastLine()) && input.Held(old(input.npushed))
    ensures match Actuals(old(input.text), n)
            case None => actuals == None
            case Some((args, rest)) => actuals == Some(args) && input.text == rest
  {
    var c := input.GetNonSpace();
    if c != Some('(') {
      if c.Some? {
        input.Push(c.value);
      }
      var none := Pad([], n);
      return Some(none);
    }
    if n == 0 {
      CloseCall(input);
      return Some([]);
    }
    ghost var list := Split(input.text);
    var ok, kept := Gather(input, n);
    if !ok {
      return None;
    }
    FitKept(list.value.0, n);
    kept := Pad(kept, n);
    actuals := Some(kept);
  }
}
