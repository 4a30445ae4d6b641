/** IFF / ELSEIFF / ELSE / ENDIFF in batch files (BATPROC/BATCH.C): what a nested program means,
    how it is written down as a stream of lines, and a stack machine that reads such a stream. */
module IffMeaning {

  /** A line of a batch file as the parser sees it.  Commands and conditions are named by
      numbers; what a condition yields is decided by an oracle. */
  datatype Line =
    | Command(id: nat)
    | Iff(cond: nat)
    | ElseIff(cond: nat)
    | Else
    | EndIff

  datatype Event =
    | Ran(line: Line)
    | Tested(cond: nat, value: bool)

  /** The value of a condition may depend on everything that was run or tested before. */
  type Oracle = (seq<Event>, nat) -> bool

  // ----- nested programs -----

  datatype Prog =
    | Done
    | Do(cmd: nat, rest: Prog)
    | Choose(cond: nat, body: Prog, alt: Alt, rest: Prog)

  datatype Alt =
    | NoElse
    | Otherwise(body: Prog)
    | OrIf(cond: nat, body: Prog, alt: Alt)

  /** The if / else-if / else meaning. */
  function Exec(p: Prog, tr: seq<Event>, truth: Oracle): seq<Event> {
    match p
    case Done => tr
    case Do(c, rest) => Exec(rest, tr + [Ran(Command(c))], truth)
    case Choose(c, body, alt, rest) =>
      var v := truth(tr, c);
      var tr1 := tr + [Tested(c, v)];
      Exec(rest, if v then Exec(body, tr1, truth) else ExecAlt(alt, tr1, truth), truth)
  }

  function ExecAlt(a: Alt, tr: seq<Event>, truth: Oracle): seq<Event> {
    match a
    case NoElse => tr
    case Otherwise(body) => Exec(body, tr, truth)
    case OrIf(c, body, alt) =>
      var v := truth(tr, c);
      var tr1 := tr + [Tested(c, v)];
      if v then Exec(body, tr1, truth) else ExecAlt(alt, tr1, truth)
  }

  /** The program as lines of a batch file. */
  function Flatten(p: Prog): seq<Line> {
    match p
    case Done => []
    case Do(c, rest) => [Command(c)] + Flatten(rest)
    case Choose(c, body, alt, rest) =>
      [Iff(c)] + Flatten(body) + FlattenAlt(alt) + [EndIff] + Flatten(rest)
  }

  function FlattenAlt(a: Alt): seq<Line> {
    match a
    case NoElse => []
    case Otherwise(body) => [Else] + Flatten(body)
    case OrIf(c, body, alt) => [ElseIff(c)] + Flatten(body) + FlattenAlt(alt)
  }

  function Size(p: Prog): nat {
    match p
    case Done => 0
    case Do(_, rest) => 1 + Size(rest)
    case Choose(_, body, alt, rest) => 1 + Size(body) + SizeAlt(alt) + Size(rest)
  }

  function SizeAlt(a: Alt): nat {
    match a
    case NoElse => 0
    case Otherwise(body) => 1 + Size(body)
    case OrIf(_, body, alt) => 1 + Size(body) + SizeAlt(alt)
  }

  // ----- the stack machine -----

  /** One open IFF: its current branch runs; it waits for an ELSE; it waits for its ENDIFF; or
      it was opened inside a branch that does not run. */
  datatype Frame = Live | WaitElse | WaitEnd | Ignored

  /** The open IFFs, innermost on top. */
  datatype Stack = Empty | Push(below: Stack, top: Frame)

  datatype State = State(stack: Stack, trace: seq<Event>)

  function Opened(v: bool): Frame {
    if v then Live else WaitElse
  }

  function Test(st: State, below: Stack, c: nat, truth: Oracle): State {
    var v := truth(st.trace, c);
    State(Push(below, Opened(v)), st.trace + [Tested(c, v)])
  }

  /** One line read by the stack machine.  Outside any IFF, a stray directive is a command. */
  function Step(st: State, line: Line, truth: Oracle): State {
    match st.stack
    case Empty =>
      if line.Iff? then Test(st, Empty, line.cond, truth) else st.(trace := st.trace + [Ran(line)])
    case Push(below, top) =>
      match line
      case Command(_) => if top.Live? then st.(trace := st.trace + [Ran(line)]) else st
      case Iff(c) => if top.Live? then Test(st, st.stack, c, truth) else st.(stack := Push(st.stack, Ignored))
      case EndIff => st.(stack := below)
      case Else =>
        (match top
         case Live => st.(stack := Push(below, WaitEnd))
         case WaitElse => st.(stack := Push(below, Live))
         case WaitEnd => st
         case Ignored => st)
      case ElseIff(c) =>
        (match top
         case Live => st.(stack := Push(below, WaitEnd))
         case WaitElse => Test(st, below, c, truth)
         case WaitEnd => st
         case Ignored => st)
  }

  function Run(st: State, lines: seq<Line>, truth: Oracle): State
    decreases lines
  {
    if lines == [] then st else Run(Step(st, lines[0], truth), lines[1..], truth)
  }

  lemma StepExtends(st: State, line: Line, truth: Oracle)
    ensures st.trace <= Step(st, line, truth).trace
  {
  }

  // ----- the machine runs nested programs -----

  lemma {:induction false} RunAppend(st: State, a: seq<Line>, b: seq<Line>, truth: Oracle)
    ensures Run(st, a + b, truth) == Run(Run(st, a, truth), b, truth)
    decreases a
  {
    if a == [] {
      assert a + b == b;
    } else {
      assert (a + b)[1..] == a[1..] + b;
      RunAppend(Step(st, a[0], truth), a[1..], b, truth);
    }
  }

  lemma RunOne(st: State, l: Line, truth: Oracle)
    ensures Run(st, [l], truth) == Step(st, l, truth)
  {
    assert [l][1..] == [];
  }

  predicate Dead(stack: Stack) {
    stack.Push? && !stack.top.Live?
  }

  /** In a branch that does not run, nothing of a nested program is run or tested, and the
      machine is back where it was afterwards. */
  lemma {:induction false} SkipsProg(p: Prog, st: State, truth: Oracle)
    requires Dead(st.stack)
    ensures Run(st, Flatten(p), truth) == st
  {
    match p
    case Done =>
    case Do(c, rest) =>
      RunAppend(st, [Command(c)], Flatten(rest), truth);
      RunOne(st, Command(c), truth);
      SkipsProg(rest, st, truth);
    case Choose(c, body, alt, rest) =>
      var inner := st.(stack := Push(st.stack, Ignored));
      RunAppend(st, [Iff(c)] + Flatten(body) + FlattenAlt(alt) + [EndIff], Flatten(rest), truth);
      RunAppend(st, [Iff(c)] + Flatten(body) + FlattenAlt(alt), [EndIff], truth);
      RunAppend(st, [Iff(c)] + Flatten(body), FlattenAlt(alt), truth);
      RunAppend(st, [Iff(c)], Flatten(body), truth);
      RunOne(st, Iff(c), truth);
      SkipsProg(body, inner, truth);
      SkipsAlt(alt, inner, truth);
      RunOne(inner, EndIff, truth);
      SkipsProg(rest, st, truth);
  }

  lemma {:induction false} SkipsAlt(a: Alt, st: State, truth: Oracle)
    requires Dead(st.stack) && st.stack.top != WaitElse
    ensures Run(st, FlattenAlt(a), truth) == st
  {
    match a
    case NoElse =>
    case Otherwise(body) =>
      RunAppend(st, [Else], Flatten(body), truth);
      RunOne(st, Else, truth);
      SkipsProg(body, st, truth);
    case OrIf(c, body, alt) =>
      RunAppend(st, [ElseIff(c)] + Flatten(body), FlattenAlt(alt), truth);
      RunAppend(st, [ElseIff(c)], Flatten(body), truth);
      RunOne(st, ElseIff(c), truth);
      SkipsProg(body, st, truth);
      SkipsAlt(alt, st, truth);
  }

  predicate Running(stack: Stack) {
    !Dead(stack)
  }

  /** Reading the lines of a nested program runs exactly the commands and tests exactly the
      conditions its meaning prescribes, in order, and leaves the stack as it was. */
  lemma {:induction false} RunsProg(p: Prog, st: State, truth: Oracle)
    requires Running(st.stack)
    ensures Run(st, Flatten(p), truth) == State(st.stack, Exec(p, st.trace, truth))
    decreases Size(p), 0
  {
    match p
    case Done =>
    case Do(c, rest) =>
      RunAppend(st, [Command(c)], Flatten(rest), truth);
      RunOne(st, Command(c), truth);
      RunsProg(rest, st.(trace := st.trace + [Ran(Command(c))]), truth);
    case Choose(c, body, alt, rest) =>
      RunAppend(st, [Iff(c)] + Flatten(body) + FlattenAlt(alt) + [EndIff], Flatten(rest), truth);
      RunAppend(st, [Iff(c)] + Flatten(body) + FlattenAlt(alt), [EndIff], truth);
      RunAppend(st, [Iff(c)] + Flatten(body), FlattenAlt(alt), truth);
      RunAppend(st, [Iff(c)], Flatten(body), truth);
      RunOne(st, Iff(c), truth);
      var st1 := Test(st, st.stack, c, truth);
      assert Step(st, Iff(c), truth) == st1;
      var st2 := RunsBranch(st.stack, truth(st.trace, c), body, alt, st1.trace, truth);
      RunsProg(rest, st2, truth);
  }

  /** The rest of an IFF whose condition has just been tested, up to its ENDIFF. */
  lemma {:induction false} RunsBranch(below: Stack, v: bool, body: Prog, alt: Alt, tr: seq<Event>, truth: Oracle)
    returns (end: State)
    ensures end == State(below, if v then Exec(body, tr, truth) else ExecAlt(alt, tr, truth))
    ensures end == Run(Run(Run(State(Push(below, Opened(v)), tr), Flatten(body), truth), FlattenAlt(alt), truth), [EndIff], truth)
    decreases Size(body) + SizeAlt(alt), 1
  {
    var st := State(Push(below, Opened(v)), tr);
    if v {
      RunsProg(body, st, truth);
      end := FinishesAlt(below, alt, Exec(body, tr, truth), truth);
    } else {
      SkipsProg(body, st, truth);
      end := TakesAlt(below, alt, tr, truth);
    }
  }

  /** After a branch that ran, the remaining branches are skipped. */
  lemma {:induction false} FinishesAlt(below: Stack, a: Alt, tr: seq<Event>, truth: Oracle) returns (end: State)
    ensures end == State(below, tr)
    ensures end == Run(Run(State(Push(below, Live), tr), FlattenAlt(a), truth), [EndIff], truth)
  {
    var st := State(Push(below, Live), tr);
    var waiting := State(Push(below, WaitEnd), tr);
    match a {
      case NoElse =>
        RunOne(st, EndIff, truth);
      case Otherwise(body) =>
        RunAppend(st, [Else], Flatten(body), truth);
        RunOne(st, Else, truth);
        SkipsProg(body, waiting, truth);
        RunOne(waiting, EndIff, truth);
      case OrIf(c, body, alt) =>
        RunAppend(st, [ElseIff(c)] + Flatten(body), FlattenAlt(alt), truth);
        RunAppend(st, [ElseIff(c)], Flatten(body), truth);
        RunOne(st, ElseIff(c), truth);
        SkipsProg(body, waiting, truth);
        SkipsAlt(alt, waiting, truth);
        RunOne(waiting, EndIff, truth);
    }
    end := State(below, tr);
  }

  /** While waiting for an ELSE, the first branch whose condition holds is run. */
  lemma {:induction false} TakesAlt(below: Stack, a: Alt, tr: seq<Event>, truth: Oracle) returns (end: State)
    ensures end == State(below, ExecAlt(a, tr, truth))
    ensures end == Run(Run(State(Push(below, WaitElse), tr), FlattenAlt(a), truth), [EndIff], truth)
    decreases SizeAlt(a), 0
  {
    var st := State(Push(below, WaitElse), tr);
    match a {
      case NoElse =>
        RunOne(st, EndIff, truth);
        end := State(below, tr);
      case Otherwise(body) =>
        var st1 := State(Push(below, Live), tr);
        RunAppend(st, [Else], Flatten(body), truth);
        RunOne(st, Else, truth);
        RunsProg(body, st1, truth);
        end := State(below, Exec(body, tr, truth));
        RunOne(State(Push(below, Live), end.trace), EndIff, truth);
      case OrIf(c, body, alt) =>
        RunAppend(st, [ElseIff(c)] + Flatten(body), FlattenAlt(alt), truth);
        RunAppend(st, [ElseIff(c)], Flatten(body), truth);
        RunOne(st, ElseIff(c), truth);
        var v := truth(tr, c);
        end := RunsBranch(below, v, body, alt, tr + [Tested(c, v)], truth);
    }
  }
}
