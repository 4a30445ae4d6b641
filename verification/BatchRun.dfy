/** Batch files that call, chain, jump and quit, run by a flat machine: the stack of open files is
    written out, and every step either reads one line of the innermost file or leaves it. */
module BatchRun {
  import opened CText
  import opened IffMeaning

  const MAXBATCH := 16

  datatype BatLine =
    | Plain(line: Line)
    | Call(name: string)
    | Chain(name: string)
    | Goto(target: string)
    | Label(target: string)
    | Quit
    | Cancel

  /** A batch frame: the file's lines and the read offset, -1 once the file has been quit. */
  datatype BFrame = BFrame(lines: seq<BatLine>, offset: int)

  predicate AtEnd(f: BFrame) {
    f.offset < 0 || f.offset >= |f.lines|
  }

  // ----- labels -----

  /** A label line carries the label asked for, case ignored and one leading colon dropped. */
  predicate Carries(line: BatLine, target: string) {
    line.Label? && Upper(line.target) == Upper(if target != "" && target[0] == ':' then target[1..] else target)
  }

  /** The label asked for may have a colon in front, and case does not matter. */
  lemma LabelsMatch(x: string, target: string)
    requires target == "" || target[0] != ':'
    ensures Carries(Label(x), target) <==> StrICmp(x, target) == 0
    ensures Carries(Label(x), ":" + target) <==> StrICmp(x, target) == 0
  {
    StrICmpIsUpper(x, target);
    assert (":" + target)[1..] == target;
  }

  predicate Labelled(lines: seq<BatLine>, target: string) {
    exists l :: l in lines && Carries(l, target)
  }

  /** Reading goes on after the first line with the label, or at the end if there is none. */
  ghost predicate LandsAfter(lines: seq<BatLine>, target: string, offset: int) {
    if Labelled(lines, target) then
      && 0 < offset <= |lines| && Carries(lines[offset - 1], target)
      && (forall j :: 0 <= j < offset - 1 ==> !Carries(lines[j], target))
    else offset == |lines|
  }

  function Landing(lines: seq<BatLine>, target: string, k: nat): (offset: nat)
    requires k <= |lines| && forall j :: 0 <= j < k ==> !Carries(lines[j], target)
    ensures LandsAfter(lines, target, offset)
    decreases |lines| - k
  {
    if k == |lines| then k else if Carries(lines[k], target) then k + 1 else Landing(lines, target, k + 1)
  }

  lemma LandsOnce(lines: seq<BatLine>, target: string, offset: int)
    requires LandsAfter(lines, target, offset)
    ensures offset == Landing(lines, target, 0)
  {
  }

  // ----- the machine -----

  /** The files being run, innermost last, each with its open IFFs; before them stand the open IFFs
      of the command line.  The trace is what was run and tested. */
  datatype Machine = Machine(frames: seq<BFrame>, stacks: seq<Stack>, trace: seq<Event>)

  predicate Framed(m: Machine) {
    |m.stacks| == |m.frames| + 1 && |m.frames| <= MAXBATCH
  }

  function Top(m: Machine): BFrame
    requires Framed(m) && m.frames != []
  {
    m.frames[|m.frames| - 1]
  }

  function Open(m: Machine): Stack
    requires Framed(m)
  {
    m.stacks[|m.frames|]
  }

  /** The innermost file goes on as f, with these IFFs open. */
  function GoesOn(m: Machine, f: BFrame, open: Stack): Machine
    requires Framed(m) && m.frames != []
  {
    m.(frames := m.frames[|m.frames| - 1 := f], stacks := m.stacks[|m.frames| := open])
  }

  function Cancelled(frames: seq<BFrame>): (r: seq<BFrame>)
    ensures |r| == |frames|
  {
    seq(|frames|, k requires 0 <= k < |frames| => frames[k].(offset := -1))
  }

  /** A file is called: the files that run stay as they are under it. */
  function Entered(m: Machine, lines: seq<BatLine>): (r: Machine)
    requires Framed(m) && |m.frames| < MAXBATCH
    ensures Framed(r) && |r.frames| == |m.frames| + 1
  {
    m.(frames := m.frames + [BFrame(lines, 0)], stacks := m.stacks + [Empty])
  }

  /** The innermost file is left, and the one that called it goes on. */
  function Left(m: Machine): Machine
    requires Framed(m) && m.frames != []
  {
    m.(frames := m.frames[..|m.frames| - 1], stacks := m.stacks[..|m.frames|])
  }

  /** One line, its offset already passed.  Where lines are skipped only IFF lines have effect; at the
      nesting limit no file is entered. */
  function OnLine(m: Machine, line: BatLine, files: map<string, seq<BatLine>>, truth: Oracle): (r: Machine)
    requires Framed(m) && m.frames != []
    ensures Framed(r)
  {
    if line.Plain? then
      var st := Step(State(Open(m), m.trace), line.line, truth);
      GoesOn(m, Top(m), st.stack).(trace := st.trace)
    else if Dead(Open(m)) then m
    else match line
      case Call(name) =>
        if name in files && |m.frames| < MAXBATCH then Entered(m, files[name]) else m
      case Chain(name) =>
        if name in files && |m.frames| < MAXBATCH then GoesOn(m, BFrame(files[name], 0), Empty) else m
      case Goto(target) =>
        var f := Top(m).(offset := Landing(Top(m).lines, target, 0));
        GoesOn(m, f, if Labelled(f.lines, target) then Empty else Open(m))
      case Quit => GoesOn(m, Top(m).(offset := -1), Open(m))
      case Cancel => m.(frames := Cancelled(m.frames))
      case Label(_) => m
  }

  function Next(m: Machine, files: map<string, seq<BatLine>>, truth: Oracle): (r: Machine)
    requires Framed(m) && m.frames != []
    ensures Framed(r)
  {
    var f := Top(m);
    if AtEnd(f) then Left(m)
    else OnLine(GoesOn(m, f.(offset := f.offset + 1), Open(m)), f.lines[f.offset], files, truth)
  }

  /** n steps lead from m to last, and before each of them more than `level` files are open. */
  ghost predicate Reaches(m: Machine, n: nat, last: Machine, level: nat, files: map<string, seq<BatLine>>, truth: Oracle)
    requires Framed(m)
    decreases n
  {
    if n == 0 then m == last
    else |m.frames| > level && Reaches(Next(m, files, truth), n - 1, last, level, files, truth)
  }

  lemma {:induction false} ReachesOn(m: Machine, n: nat, mid: Machine, k: nat, last: Machine, level: nat,
                                     files: map<string, seq<BatLine>>, truth: Oracle)
    requires Framed(m) && Reaches(m, n, mid, level, files, truth)
    requires Framed(mid) && Reaches(mid, k, last, level, files, truth)
    ensures Reaches(m, n + k, last, level, files, truth)
    decreases n
  {
    hide Next, Framed;
    if n > 0 {
      ReachesOn(Next(m, files, truth), n - 1, mid, k, last, level, files, truth);
    }
  }

  lemma ReachesItself(m: Machine, level: nat, files: map<string, seq<BatLine>>, truth: Oracle)
    requires Framed(m)
    ensures Reaches(m, 0, m, level, files, truth)
  {
  }

  /** One step more. */
  lemma ReachesStep(m: Machine, n: nat, mid: Machine, level: nat, files: map<string, seq<BatLine>>, truth: Oracle)
    requires Framed(m) && Reaches(m, n, mid, level, files, truth) && Framed(mid) && level < |mid.frames|
    ensures Reaches(m, n + 1, Next(mid, files, truth), level, files, truth)
  {
    hide Next, Framed;
    assert Reaches(mid, 1, Next(mid, files, truth), level, files, truth) by {
      ReachesItself(Next(mid, files, truth), level, files, truth);
    }
    ReachesOn(m, n, mid, 1, Next(mid, files, truth), level, files, truth);
  }

  lemma {:induction false} ReachesAbove(m: Machine, n: nat, last: Machine, level: nat, lower: nat,
                                        files: map<string, seq<BatLine>>, truth: Oracle)
    requires Framed(m) && lower <= level && Reaches(m, n, last, level, files, truth)
    ensures Framed(last) && Reaches(m, n, last, lower, files, truth)
    decreases n
  {
    hide Next;
    if n > 0 {
      ReachesAbove(Next(m, files, truth), n - 1, last, level, lower, files, truth);
    }
  }

  /** A run that has come down to a level comes down to it once: any other run from there is a part of
      it, and if it has come down too it is the same. */
  lemma {:induction false} ReachesOnce(m: Machine, n: nat, last: Machine, k: nat, other: Machine, level: nat,
                                       files: map<string, seq<BatLine>>, truth: Oracle)
    requires Framed(m) && Reaches(m, n, last, level, files, truth) && |last.frames| <= level
    requires Reaches(m, k, other, level, files, truth)
    ensures k <= n && (k == n <==> |other.frames| <= level) && (k == n ==> other == last)
    decreases n
  {
    hide Next, Framed;
    if n > 0 && k > 0 {
      ReachesOnce(Next(m, files, truth), n - 1, last, k - 1, other, level, files, truth);
    }
  }

  /** The files suspended under a CALL: still at their places, or cancelled. */
  ghost predicate Suspended(now: seq<BFrame>, before: seq<BFrame>) {
    |now| == |before|
    && forall k :: 0 <= k < |now| ==>
      now[k].lines == before[k].lines && (now[k].offset == before[k].offset || now[k].offset == -1)
  }

  lemma SuspendedItself(frames: seq<BFrame>)
    ensures Suspended(frames, frames)
  {
  }

  lemma SuspendedOn(now: seq<BFrame>, then': seq<BFrame>, before: seq<BFrame>)
    requires Suspended(now, then') && Suspended(then', before)
    ensures Suspended(now, before)
  {
  }

  lemma SuspendedUnder(now: seq<BFrame>, before: seq<BFrame>, k: nat)
    requires Suspended(now, before) && k <= |now|
    ensures Suspended(now[..k], before[..k])
  {
  }

  lemma SuspendedCancelled(frames: seq<BFrame>, k: nat)
    requires k <= |frames|
    ensures Suspended(Cancelled(frames)[..k], frames[..k])
  {
  }

  /** What lies under a level is as it was: the open IFFs exactly, the files but for a CANCEL. */
  ghost predicate Under(now: Machine, before: Machine, level: nat)
    requires Framed(now) && Framed(before)
  {
    level <= |now.frames| && level <= |before.frames|
    && now.stacks[..level + 1] == before.stacks[..level + 1]
    && Suspended(now.frames[..level], before.frames[..level])
  }

  lemma NextKeepsUnder(m: Machine, level: nat, files: map<string, seq<BatLine>>, truth: Oracle)
    requires Framed(m) && level < |m.frames|
    ensures Under(Next(m, files, truth), m, level)
  {
  }

  /** Whatever a file and the files it calls do, the files under it are found again with their IFFs as
      they were left, where they were left unless they have been cancelled. */
  lemma {:induction false} UnderIsKept(m: Machine, n: nat, last: Machine, level: nat,
                                       files: map<string, seq<BatLine>>, truth: Oracle)
    requires Framed(m) && level <= |m.frames| && Reaches(m, n, last, level, files, truth)
    ensures Framed(last) && Under(last, m, level)
    decreases n
  {
    if n > 0 {
      NextKeepsUnder(m, level, files, truth);
      UnderIsKept(Next(m, files, truth), n - 1, last, level, files, truth);
    }
  }

  // ----- the machine over the fields of the interpreter -----

  /** The open IFFs of the innermost file apart from those saved under it. */
  function Flat(frames: seq<BFrame>, saved: seq<Stack>, open: Stack, trace: seq<Event>): (m: Machine)
    requires |saved| == |frames| <= MAXBATCH
    ensures Framed(m) && |m.frames| == |frames|
  {
    Machine(frames, saved + [open], trace)
  }

  lemma FlatReads(frames: seq<BFrame>, saved: seq<Stack>, open: Stack, trace: seq<Event>)
    requires |saved| == |frames| <= MAXBATCH
    ensures var m := Flat(frames, saved, open, trace);
      && m.frames == frames && Open(m) == open && m.trace == trace
      && (frames != [] ==> Top(m) == frames[|frames| - 1])
  {
  }

  lemma FlatGoesOn(frames: seq<BFrame>, saved: seq<Stack>, open: Stack, trace: seq<Event>, f: BFrame, open': Stack)
    requires 0 < |frames| == |saved| <= MAXBATCH
    ensures GoesOn(Flat(frames, saved, open, trace), f, open')
         == Flat(frames[|frames| - 1 := f], saved, open', trace)
  {
  }

  lemma FlatStep(frames: seq<BFrame>, saved: seq<Stack>, open: Stack, trace: seq<Event>, line: Line,
                 files: map<string, seq<BatLine>>, truth: Oracle)
    requires 0 < |frames| == |saved| <= MAXBATCH
    ensures var st := Step(State(open, trace), line, truth);
      OnLine(Flat(frames, saved, open, trace), Plain(line), files, truth) == Flat(frames, saved, st.stack, st.trace)
  {
    FlatGoesOn(frames, saved, open, trace, frames[|frames| - 1], Step(State(open, trace), line, truth).stack);
    assert frames[|frames| - 1 := frames[|frames| - 1]] == frames;
  }

  lemma FlatEntered(frames: seq<BFrame>, saved: seq<Stack>, open: Stack, trace: seq<Event>, lines: seq<BatLine>)
    requires |saved| == |frames| < MAXBATCH
    ensures Entered(Flat(frames, saved, open, trace), lines)
         == Flat(frames + [BFrame(lines, 0)], saved + [open], Empty, trace)
  {
  }

  lemma FlatLeft(frames: seq<BFrame>, saved: seq<Stack>, open: Stack, trace: seq<Event>)
    requires 0 < |frames| == |saved| <= MAXBATCH
    ensures var k := |frames| - 1;
      Left(Flat(frames, saved, open, trace)) == Flat(frames[..k], saved[..k], saved[k], trace)
  {
  }

  /** The lines that are neither commands nor IFF lines, where they are executed. */
  lemma FlatDirective(frames: seq<BFrame>, saved: seq<Stack>, open: Stack, trace: seq<Event>, line: BatLine,
                      files: map<string, seq<BatLine>>, truth: Oracle)
    requires 0 < |frames| == |saved| <= MAXBATCH && !line.Plain? && Running(open)
    ensures var m := Flat(frames, saved, open, trace);
      var k := |frames| - 1;
      OnLine(m, line, files, truth) ==
        match line
        case Call(name) =>
          if name in files && |frames| < MAXBATCH then Entered(m, files[name]) else m
        case Chain(name) =>
          if name in files && |frames| < MAXBATCH then GoesOn(m, BFrame(files[name], 0), Empty) else m
        case Goto(target) =>
          var to := Landing(frames[k].lines, target, 0);
          Flat(frames[k := frames[k].(offset := to)], saved,
               if Labelled(frames[k].lines, target) then Empty else open, trace)
        case Quit => Flat(frames[k := frames[k].(offset := -1)], saved, open, trace)
        case Cancel => Flat(Cancelled(frames), saved, open, trace)
        case Label(_) => m
  {
    hide Flat, GoesOn, Labelled, Landing, Cancelled;
    FlatReads(frames, saved, open, trace);
    var f := frames[|frames| - 1];
    match line {
      case Goto(target) =>
        FlatGoesOn(frames, saved, open, trace, f.(offset := Landing(f.lines, target, 0)),
                   if Labelled(f.lines, target) then Empty else open);
      case Quit => FlatGoesOn(frames, saved, open, trace, f.(offset := -1), open);
      case Cancel => FlatCancel(frames, saved, open, trace);
      case Call(_) =>
      case Chain(_) =>
      case Label(_) =>
    }
  }

  lemma FlatCancel(frames: seq<BFrame>, saved: seq<Stack>, open: Stack, trace: seq<Event>)
    requires |saved| == |frames| <= MAXBATCH
    ensures var m := Flat(frames, saved, open, trace);
      m.(frames := Cancelled(m.frames)) == Flat(Cancelled(frames), saved, open, trace)
  {
  }

  lemma FlatNext(frames: seq<BFrame>, saved: seq<Stack>, open: Stack, trace: seq<Event>,
                 files: map<string, seq<BatLine>>, truth: Oracle)
    requires 0 < |frames| == |saved| <= MAXBATCH
    ensures var k := |frames| - 1;
      var f := frames[k];
      Next(Flat(frames, saved, open, trace), files, truth) ==
        if AtEnd(f) then Flat(frames[..k], saved[..k], saved[k], trace)
        else OnLine(Flat(frames[k := f.(offset := f.offset + 1)], saved, open, trace), f.lines[f.offset], files, truth)
  {
    hide Flat, OnLine, Left, GoesOn;
    FlatReads(frames, saved, open, trace);
    FlatLeft(frames, saved, open, trace);
    var f := frames[|frames| - 1];
    FlatGoesOn(frames, saved, open, trace, f.(offset := f.offset + 1), open);
  }

  // ----- plain files -----

  /** Only commands and IFF lines. */
  predicate AllPlain(lines: seq<BatLine>) {
    forall l :: l in lines ==> l.Plain?
  }

  function Texts(lines: seq<BatLine>): seq<Line>
    requires AllPlain(lines)
  {
    if lines == [] then [] else [lines[0].line] + Texts(lines[1..])
  }
}
