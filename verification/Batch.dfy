/** The batch interpreter (BATPROC/BATCH.C): three flags in place of a stack of open IFFs, and
    the stack of batch files with CALL, chaining, GOTO, QUIT and CANCEL. */
module Batch {
  import opened CText
  import opened IffMeaning
  import opened BatchRun
  import opened Options

  const SKIP_TO_ENDIFF := 0x80

  // ----- the flags as a picture of the stack -----

  datatype Flags = Flags(iff: int, els: int, endiff: int)

  /** A frame is Ignored exactly when it was opened in a branch that does not run. */
  predicate Proper(stack: Stack) {
    stack.Push? ==> Proper(stack.below) && (stack.top.Ignored? <==> Dead(stack.below))
  }

  function Encode(stack: Stack): Flags {
    match stack
    case Empty => Flags(0, 0, 0)
    case Push(below, top) =>
      var f := Encode(below);
      match top
      case Live => f.(iff := f.iff + 1)
      case WaitElse => f.(iff := f.iff + 1, els := f.els + 1)
      case WaitEnd => f.(iff := f.iff + 1, els := SKIP_TO_ENDIFF)
      case Ignored => f.(endiff := f.endiff + 1)
  }

  /** Reading the flags: the innermost open IFF that was reached decides `els`, and `endiff`
      counts the IFFs passed over inside it. */
  lemma {:induction false} EncodeReads(stack: Stack)
    requires Proper(stack)
    ensures var f := Encode(stack);
      && 0 <= f.iff && 0 <= f.endiff && f.els in {0, 1, SKIP_TO_ENDIFF}
      && (f.iff == 0 <==> stack.Empty?)
      && (f.els != 0 <==> Dead(stack))
      && (f.endiff > 0 <==> stack.Push? && stack.top.Ignored?)
      && (f.endiff > 0 ==> f.els != 0)
      && (stack.Push? && f.endiff == 0 ==>
            (f.els == 1 <==> stack.top.WaitElse?) && (f.els == SKIP_TO_ENDIFF <==> stack.top.WaitEnd?))
  {
    if stack.Push? {
      EncodeReads(stack.below);
    }
  }

  /** `else_flag & 0x7F`: whether the flag says "waiting for ELSE". */
  method WaitsForElse(els: int) returns (waits: bool)
    requires els in {0, 1, 0x80}
    ensures waits <==> els == 1
  {
    waits := els % 0x80 != 0;
  }

  // ----- batch files -----

  /** What is still to be read of a frame's file. */
  function Unread(f: BFrame): seq<BatLine> {
    if 0 <= f.offset <= |f.lines| then f.lines[f.offset..] else []
  }

  lemma UnreadAll(lines: seq<BatLine>)
    ensures Unread(BFrame(lines, 0)) == lines
  {
  }

  lemma UnreadNext(f: BFrame)
    requires 0 <= f.offset < |f.lines| && AllPlain(Unread(f))
    ensures var g := f.(offset := f.offset + 1);
      && AllPlain(Unread(g)) && f.lines[f.offset].Plain?
      && Texts(Unread(f)) == [f.lines[f.offset].line] + Texts(Unread(g))
      && |Unread(f)| == |Unread(g)| + 1
  {
    assert Unread(f)[0] == f.lines[f.offset];
    assert Unread(f)[1..] == Unread(f.(offset := f.offset + 1));
  }

  lemma RunCons(st: State, l: Line, ls: seq<Line>, truth: Oracle)
    ensures Run(st, [l] + ls, truth) == Run(Step(st, l, truth), ls, truth)
  {
    assert ([l] + ls)[1..] == ls;
  }

  lemma RunNone(st: State, f: BFrame, truth: Oracle)
    requires AtEnd(f)
    ensures Unread(f) == [] && Run(st, Texts([]), truth) == st
  {
  }

  /** What is left to execute of a line that is not skipped, and the stack it leaves. */
  predicate IsLeft(line: Line, before: Stack, after: Stack, left: Option<Line>) {
    if before.Push? && line.Else? then
      left == None && before.top.WaitElse? && after == Push(before.below, Live)
    else if before.Push? && line.ElseIff? then
      left == Some(Iff(line.cond)) && before.top.WaitElse? && after == before.below
    else
      left == Some(line) && after == before && (line.EndIff? ==> before.Empty?)
  }

  class Interpreter {
    var bn: int
    var bframe: seq<BFrame>
    var iffFlag: int
    var elseFlag: int
    var endiffFlag: int
    var callFlag: bool
    var trace: seq<Event>
    const files: map<string, seq<BatLine>>
    const truth: Oracle

    /** The open IFFs of the current file that the flags stand for. */
    ghost var stack: Stack

    /** The open IFFs saved under it: those of the command line, then of each suspended file. */
    ghost var saved: seq<Stack>

    ghost predicate Valid()
      reads this
    {
      && -1 <= bn < MAXBATCH && |bframe| == bn + 1
      && Proper(stack) && Flags(iffFlag, elseFlag, endiffFlag) == Encode(stack)
    }

    ghost predicate Nested()
      reads this
    {
      Valid() && |saved| == bn + 1
    }

    /** The interpreter as a machine over the whole stack of files. */
    ghost function AsMachine(): (m: Machine)
      reads this
      requires Nested()
      ensures Framed(m) && |m.frames| == bn + 1
    {
      Flat(bframe, saved, stack, trace)
    }

    constructor (files: map<string, seq<BatLine>>, truth: Oracle)
      ensures Nested() && bn == -1 && stack == Empty && trace == [] && !callFlag
      ensures this.files == files && this.truth == truth
    {
      this.files, this.truth := files, truth;
      bn, bframe, callFlag, trace, stack, saved := -1, [], false, [], Empty, [];
      iffFlag, elseFlag, endiffFlag := 0, 0, 0;
    }

    /** `iff_parsing`: update the flags for a line about to be executed (None: a line that is
        no command, IFF or directive of its own).  The line is skipped, or what is left of it
        is executed: nothing of an ELSE, the IFF of an ELSEIFF. */
    method IffParsing(line: Option<Line>) returns (skip: int, left: Option<Line>)
      requires Valid()
      modifies this`iffFlag, this`elseFlag, this`endiffFlag, this`stack
      ensures Valid()
      ensures line == None ==> left == None && stack == old(stack) && (skip != 0 <==> Dead(stack))
      ensures line.Some? && skip != 0 ==>
        old(stack).Push? && State(stack, trace) == Step(State(old(stack), trace), line.value, truth)
      ensures line.Some? && skip == 0 ==> Running(stack) && IsLeft(line.value, old(stack), stack, left)
    {
      skip, left := 0, line;
      EncodeReads(stack);
      if iffFlag == 0 {
        return;
      }
      ghost var below := stack.below;
      EncodeReads(below);
      if line == Some(EndIff) {
        if endiffFlag == 0 {
          iffFlag := iffFlag - 1;
          elseFlag := 0;
        } else {
          endiffFlag := endiffFlag - 1;
        }
        stack := below;
        skip := 1;
        return;
      } else if line.Some? && line.value.Iff? {
        if elseFlag != 0 {
          endiffFlag := endiffFlag + 1;
          stack := Push(stack, Ignored);
        }
      } else if endiffFlag == 0 && line.Some? && (line.value.Else? || line.value.ElseIff?) {
        var waits := WaitsForElse(elseFlag);
        if waits {
          if line.value.ElseIff? {
            iffFlag := iffFlag - 1;
            left := Some(Iff(line.value.cond));
            stack := below;
          } else {
            left := None;
            stack := Push(below, Live);
          }
          elseFlag := 0;
        } else {
          elseFlag := SKIP_TO_ENDIFF;
          stack := Push(below, WaitEnd);
        }
      }
      skip := if elseFlag != 0 || endiffFlag != 0 then 1 else 0;
      EncodeReads(stack);
    }

    /** The IFF step of `ifcmd`, for a condition followed by THEN. */
    method IffThen(cond: nat)
      requires Valid() && Running(stack)
      modifies this`iffFlag, this`elseFlag, this`stack, this`trace
      ensures Valid()
      ensures State(stack, trace) == Test(State(old(stack), old(trace)), old(stack), cond, truth)
    {
      var condition := truth(trace, cond);
      trace := trace + [Tested(cond, condition)];
      iffFlag := iffFlag + 1;
      if !condition {
        elseFlag := elseFlag + 1;
      }
      EncodeReads(stack);
      stack := Push(stack, Opened(condition));
    }

    /** One command or IFF line: exactly one step of the stack machine. */
    method Feed(line: Line)
      requires Valid()
      modifies this`iffFlag, this`elseFlag, this`endiffFlag, this`stack, this`trace
      ensures Valid()
      ensures State(stack, trace) == Step(State(old(stack), old(trace)), line, truth)
    {
      var skip, left := IffParsing(Some(line));
      if skip == 0 && left.Some? {
        if left.value.Iff? {
          IffThen(left.value.cond);
        } else {
          trace := trace + [Ran(left.value)];
        }
      }
    }

    method FeedAll(lines: seq<Line>)
      requires Valid()
      modifies this`iffFlag, this`elseFlag, this`endiffFlag, this`stack, this`trace
      ensures Valid()
      ensures State(stack, trace) == Run(State(old(stack), old(trace)), lines, truth)
    {
      ghost var st0 := State(stack, trace);
      var k := 0;
      while k < |lines|
        invariant k <= |lines| && Valid()
        invariant Run(st0, lines, truth) == Run(State(stack, trace), lines[k..], truth)
      {
        Feed(lines[k]);
        assert lines[k..][1..] == lines[k + 1..];
        k := k + 1;
      }
    }

    /** A well-nested script, fed to an interpreter outside any IFF, runs and tests exactly what
        its nested meaning prescribes and leaves all three flags zero. */
    method FeedProgram(p: Prog)
      requires Valid() && iffFlag == elseFlag == endiffFlag == 0
      modifies this`iffFlag, this`elseFlag, this`endiffFlag, this`stack, this`trace
      ensures Valid() && iffFlag == elseFlag == endiffFlag == 0
      ensures trace == Exec(p, old(trace), truth)
    {
      EncodeReads(stack);
      RunsProg(p, State(stack, trace), truth);
      FeedAll(Flatten(p));
    }

    // ----- batch files -----

    /** `exit_bat`: drop the current file. */
    method ExitBat()
      requires Valid() && bn >= 0
      modifies this`bn, this`bframe
      ensures Valid() && bn == old(bn) - 1 && bframe == old(bframe)[..old(bn)]
    {
      bframe := bframe[..bn];
      bn := bn - 1;
    }

    /** A new frame for a file, with no IFF open in it. */
    method Enter(lines: seq<BatLine>)
      requires Valid() && bn < MAXBATCH - 1
      modifies this`bn, this`bframe, this`iffFlag, this`elseFlag, this`endiffFlag, this`stack
      ensures Valid() && bn == old(bn) + 1 && bframe == old(bframe) + [BFrame(lines, 0)] && stack == Empty
    {
      bn := bn + 1;
      bframe := bframe + [BFrame(lines, 0)];
      iffFlag, elseFlag, endiffFlag, stack := 0, 0, 0, Empty;
    }

    /** The end of a nested file: its frame is dropped and the saved flags are put back. */
    method Leave(saveIff: int, saveElse: int, saveEndiff: int, ghost open: Stack)
      requires Valid() && bn >= 0 && Proper(open) && Flags(saveIff, saveElse, saveEndiff) == Encode(open)
      modifies this`bn, this`bframe, this`iffFlag, this`elseFlag, this`endiffFlag, this`stack
      ensures Valid() && bn == old(bn) - 1 && bframe == old(bframe)[..old(bn)] && stack == open
    {
      ExitBat();
      iffFlag, elseFlag, endiffFlag, stack := saveIff, saveElse, saveEndiff, open;
    }

    /** The nested part of `batch`: run a file in a frame of its own and restore what it found.  The n
        steps the machine makes from the file's first line end when the file is left; without fuel
        they end within it. */
    method RunNested(lines: seq<BatLine>, fuel: nat) returns (done: bool, ghost n: nat)
      requires Nested() && bn < MAXBATCH - 1
      modifies this
      ensures Nested() && old(trace) <= trace
      ensures done ==> !callFlag && bn == old(bn) && stack == old(stack) && Suspended(bframe, old(bframe))
      ensures done ==> saved == old(saved)
      ensures Reaches(Entered(old(AsMachine()), lines), n, AsMachine(), old(bn) + 1, files, truth)
      ensures !done ==> bn > old(bn) && n + bn >= fuel + old(bn)
      ensures AllPlain(lines) ==>
        (fuel > |lines| + 1 ==> done)
        && (done ==> trace == Run(State(Empty, old(trace)), Texts(lines), truth).trace)
      decreases fuel, 0
    {
      hide Encode, Run, Texts, Proper, Flat, Next, Entered, Reaches;
      ghost var under, open, level := bframe, stack, bn + 1;
      ghost var start := Entered(AsMachine(), lines);
      var saveIff, saveElse, saveEndiff := iffFlag, elseFlag, endiffFlag;
      FlatEntered(bframe, saved, stack, trace, lines);
      Enter(lines);
      saved := saved + [open];
      UnreadAll(lines);
      assert bframe[..bn] == under;
      callFlag := false;
      ReachesItself(start, level, files, truth);
      if fuel == 0 {
        return false, 0;
      }
      done, n := BatchCli(fuel - 1);
      if done {
        ghost var ended := AsMachine();
        FlatNext(bframe, saved, stack, trace, files, truth);
        Leave(saveIff, saveElse, saveEndiff, open);
        saved := saved[..level];
        ReachesStep(start, n, ended, level, files, truth);
        n := n + 1;
      }
    }

    /** `batch`: run a batch file.  Under a CALL (or from the command line) the file is nested,
        and when it has ended everything it found is restored: the nesting level, the flags, and
        the suspended files, which at most have been cancelled.  Without a CALL it takes the
        place of the current file with no IFF open.  At the nesting limit nothing happens. */
    method RunBatch(lines: seq<BatLine>, fuel: nat) returns (done: bool, ghost n: nat)
      requires Nested()
      modifies this
      ensures Nested()
      ensures old(trace) <= trace
      ensures done && !old(callFlag) ==> !callFlag
      ensures done ==> saved == old(saved)
      ensures done && (old(callFlag) || old(bn) < 0 || old(bn) == MAXBATCH - 1) ==>
        bn == old(bn) && stack == old(stack) && Suspended(bframe, old(bframe))
      ensures AllPlain(lines) && old(bn) < MAXBATCH - 1 && (old(callFlag) || old(bn) < 0) ==>
        (fuel > |lines| + 1 ==> done)
        && (done ==> trace == Run(State(Empty, old(trace)), Texts(lines), truth).trace)
      ensures done && !old(callFlag) && 0 <= old(bn) < MAXBATCH - 1 ==>
        !callFlag && bn == old(bn) && stack == Empty && bframe == old(bframe)[..bn] + [BFrame(lines, 0)]
      ensures old(bn) == MAXBATCH - 1 ==>
        done && bframe == old(bframe) && trace == old(trace) && AsMachine() == old(AsMachine())
      ensures old(bn) < MAXBATCH - 1 && (old(callFlag) || old(bn) < 0) ==>
        Reaches(Entered(old(AsMachine()), lines), n, AsMachine(), old(bn) + 1, files, truth)
        && (!done ==> bn > old(bn) && n + bn >= fuel + old(bn))
      ensures !old(callFlag) && 0 <= old(bn) < MAXBATCH - 1 ==>
        done && trace == old(trace) && AsMachine() == GoesOn(old(AsMachine()), BFrame(lines, 0), Empty)
      decreases fuel, 1
    {
      hide Encode, Run, Texts, Proper, Flat, Next, Entered, GoesOn, Reaches;
      n := 0;
      if bn >= MAXBATCH - 1 {
        return true, 0;
      }
      if !callFlag {
        if bn >= 0 {
          FlatGoesOn(bframe, saved, stack, trace, BFrame(lines, 0), Empty);
          assert bframe[bn := BFrame(lines, 0)] == bframe[..bn] + [BFrame(lines, 0)];
          ExitBat();
        } else {
          callFlag := true;
        }
      }
      if callFlag {
        done, n := RunNested(lines, fuel);
      } else {
        Enter(lines);
        done := true;
      }
    }

    /** `call`: a completed CALL restores the nesting level and all three flags. */
    method CallFile(name: string, fuel: nat) returns (done: bool, ghost n: nat)
      requires Nested()
      modifies this
      ensures Nested()
      ensures done ==> bn == old(bn) && stack == old(stack) && Suspended(bframe, old(bframe)) && saved == old(saved)
      ensures !callFlag && old(trace) <= trace
      ensures name in files && AllPlain(files[name]) && old(bn) < MAXBATCH - 1 ==>
        (fuel > |files[name]| + 1 ==> done)
        && (done ==> trace == Run(State(Empty, old(trace)), Texts(files[name]), truth).trace)
      ensures done ==> iffFlag == old(iffFlag) && elseFlag == old(elseFlag) && endiffFlag == old(endiffFlag)
      ensures name !in files || old(bn) == MAXBATCH - 1 ==> done && AsMachine() == old(AsMachine())
      ensures name in files && old(bn) < MAXBATCH - 1 ==>
        Reaches(Entered(old(AsMachine()), files[name]), n, AsMachine(), old(bn) + 1, files, truth)
        && (!done ==> bn > old(bn) && n + bn >= fuel + old(bn))
      decreases fuel, 2
    {
      hide Run, Texts, Flat, Next, Entered, GoesOn, Reaches;
      callFlag := true;
      done, n := true, 0;
      if name in files {
        done, n := RunBatch(files[name], fuel);
      }
      callFlag := false;
    }

    /** `gotocmd`: a label that is found closes all IFFs. */
    method GotoCmd(target: string)
      requires Valid() && bn >= 0
      modifies this`bframe, this`iffFlag, this`elseFlag, this`endiffFlag, this`stack
      ensures Valid() && bframe == old(bframe)[bn := old(bframe)[bn].(offset := bframe[bn].offset)]
      ensures LandsAfter(bframe[bn].lines, target, bframe[bn].offset)
      ensures stack == if Labelled(bframe[bn].lines, target) then Empty else old(stack)
    {
      var lines := bframe[bn].lines;
      var found := FindLabel(lines, target);
      if found < |lines| {
        assert lines[found] in lines;
        bframe := bframe[bn := bframe[bn].(offset := found + 1)];
        iffFlag, elseFlag, endiffFlag, stack := 0, 0, 0, Empty;
      } else {
        bframe := bframe[bn := bframe[bn].(offset := found)];
      }
    }

    /** CANCEL: every batch file is at its end. */
    method CancelCmd()
      requires Valid()
      modifies this`bframe
      ensures Valid() && |bframe| == |old(bframe)|
      ensures forall k :: 0 <= k < |bframe| ==> bframe[k] == old(bframe)[k].(offset := -1)
      ensures bframe == Cancelled(old(bframe))
    {
      var frames := bframe;
      bframe := seq(|frames|, k requires 0 <= k < |frames| => frames[k].(offset := -1));
    }

    /** A line that is executed and is neither command nor IFF line: it may call or chain to another
        file, jump, or quit. */
    method Directive(line: BatLine, fuel: nat) returns (done: bool, ghost n: nat)
      requires Nested() && bn >= 0 && !callFlag && !line.Plain? && Running(stack)
      modifies this
      ensures Nested() && old(trace) <= trace
      ensures done ==> !callFlag && bn == old(bn) && Suspended(bframe[..bn], old(bframe)[..bn]) && saved == old(saved)
      ensures line.Call? && done ==> stack == old(stack)
      ensures line.Call? && line.name in files && AllPlain(files[line.name]) && old(bn) < MAXBATCH - 1 ==>
        (fuel > |files[line.name]| + 1 ==> done)
        && (done ==> trace == Run(State(Empty, old(trace)), Texts(files[line.name]), truth).trace)
      ensures line.Chain? && line.name in files && old(bn) < MAXBATCH - 1 ==>
        stack == Empty && bframe == old(bframe)[..old(bn)] + [BFrame(files[line.name], 0)]
      ensures !line.Call? ==> done && n == 0 && trace == old(trace)
      ensures line.Goto? ==>
        && bframe == old(bframe)[bn := old(bframe)[bn].(offset := bframe[bn].offset)]
        && LandsAfter(bframe[bn].lines, line.target, bframe[bn].offset)
        && stack == (if Labelled(bframe[bn].lines, line.target) then Empty else old(stack))
      ensures line.Quit? ==>
        bframe == old(bframe)[bn := old(bframe)[bn].(offset := -1)] && stack == old(stack)
      ensures line.Cancel? ==> bframe == Cancelled(old(bframe)) && stack == old(stack)
      ensures Reaches(OnLine(old(AsMachine()), line, files, truth), n, AsMachine(), old(bn), files, truth)
      ensures !done ==> bn >= old(bn) && n + bn >= fuel + old(bn)
      decreases fuel, 3
    {
      hide Labelled, LandsAfter, Encode, Run, Texts, Flat, OnLine, Next, Entered, GoesOn, Reaches, Cancelled, Suspended;
      done, n := true, 0;
      FlatReads(bframe, saved, stack, trace);
      FlatDirective(bframe, saved, stack, trace, line, files, truth);
      SuspendedItself(bframe[..bn]);
      ghost var m := AsMachine();
      match line {
        case Call(name) =>
          done, n := CallFile(name, fuel);
          if name in files && |m.frames| < MAXBATCH {
            ReachesAbove(Entered(m, files[name]), n, AsMachine(), |m.frames|, |m.frames| - 1, files, truth);
          } else {
            n := 0;
            ReachesItself(m, |m.frames| - 1, files, truth);
          }
          if done {
            SuspendedUnder(bframe, old(bframe), bn);
          }
          return;
        case Chain(name) =>
          if name in files {
            done, n := RunBatch(files[name], fuel);
            n := 0;
          }
        case Goto(target) =>
          GotoCmd(target);
          LandsOnce(bframe[bn].lines, target, bframe[bn].offset);
        case Label(_) =>
        case Quit =>
          bframe := bframe[bn := bframe[bn].(offset := -1)];
        case Cancel =>
          CancelCmd();
          SuspendedCancelled(old(bframe), bn);
      }
      assert !line.Cancel? ==> bframe[..bn] == old(bframe)[..bn];
      ReachesItself(AsMachine(), |m.frames| - 1, files, truth);
    }

    /** One line of the current batch file: commands and IFF lines go to `Feed`, others are executed
        unless they are skipped.  The line is one step of the machine, and the n steps after it, if
        any, are those of a file it calls. */
    method RunLine(line: BatLine, fuel: nat) returns (done: bool, ghost n: nat)
      requires Nested() && bn >= 0 && !callFlag
      modifies this
      ensures Nested() && old(trace) <= trace
      ensures done ==> !callFlag && bn == old(bn) && Suspended(bframe[..bn], old(bframe)[..bn]) && saved == old(saved)
      ensures line.Plain? ==> done && bframe == old(bframe)
      ensures line.Plain? ==> State(stack, trace) == Step(State(old(stack), old(trace)), line.line, truth)
      ensures !line.Plain? && Dead(old(stack)) ==> done && bframe == old(bframe) && stack == old(stack)
      ensures line.Call? && done ==> stack == old(stack)
      ensures line.Call? && Running(old(stack)) && line.name in files && AllPlain(files[line.name])
              && old(bn) < MAXBATCH - 1 ==>
        (fuel > |files[line.name]| + 1 ==> done)
        && (done ==> trace == Run(State(Empty, old(trace)), Texts(files[line.name]), truth).trace)
      ensures line.Chain? && Running(old(stack)) && line.name in files && old(bn) < MAXBATCH - 1 ==>
        done && stack == Empty && bframe == old(bframe)[..old(bn)] + [BFrame(files[line.name], 0)]
      ensures !line.Call? || Dead(old(stack)) ==> done && n == 0
      ensures !line.Plain? && !line.Call? ==> trace == old(trace)
      ensures line.Goto? && Running(old(stack)) ==>
        && bframe == old(bframe)[bn := old(bframe)[bn].(offset := bframe[bn].offset)]
        && LandsAfter(bframe[bn].lines, line.target, bframe[bn].offset)
        && stack == (if Labelled(bframe[bn].lines, line.target) then Empty else old(stack))
      ensures line.Quit? && Running(old(stack)) ==>
        bframe == old(bframe)[bn := old(bframe)[bn].(offset := -1)] && stack == old(stack)
      ensures line.Cancel? && Running(old(stack)) ==> bframe == Cancelled(old(bframe)) && stack == old(stack)
      ensures Reaches(OnLine(old(AsMachine()), line, files, truth), n, AsMachine(), old(bn), files, truth)
      ensures !done ==> bn >= old(bn) && n + bn >= fuel + old(bn)
      decreases fuel, 4
    {
      hide Labelled, LandsAfter, Encode, Run, Texts, Flat, Next, Entered, GoesOn, Reaches, Cancelled;
      FlatReads(bframe, saved, stack, trace);
      if line.Plain? {
        StepExtends(State(stack, trace), line.line, truth);
        FlatStep(bframe, saved, stack, trace, line.line, files, truth);
        Feed(line.line);
      } else {
        var skip, _ := IffParsing(None);
        if skip == 0 {
          done, n := Directive(line, fuel);
          return;
        }
      }
      done, n := true, 0;
      ReachesItself(AsMachine(), bn, files, truth);
    }

    /** `batchcli`: run the current file until its lines are used up or it is quit.  The files
        suspended under it stay where they are, unless they are cancelled.  The machine makes n steps,
        and ends in the same place; without fuel the run is cut short within them.  A file of commands
        and IFF lines only is read through to its end, one step of the stack machine a line. */
    method BatchCli(fuel: nat) returns (done: bool, ghost n: nat)
      requires Nested() && bn >= 0 && !callFlag
      modifies this
      ensures Nested() && old(trace) <= trace
      ensures done ==> !callFlag && bn == old(bn) && Suspended(bframe[..bn], old(bframe)[..bn]) && saved == old(saved)
      ensures done ==> AtEnd(bframe[bn])
      ensures Reaches(old(AsMachine()), n, AsMachine(), old(bn), files, truth)
      ensures !done ==> bn >= old(bn) && n + bn >= fuel + old(bn)
      ensures var unread := Unread(old(bframe)[old(bn)]);
        AllPlain(unread) ==>
          (fuel > |unread| ==> done)
          && (done ==> State(stack, trace) == Run(State(old(stack), old(trace)), Texts(unread), truth))
      decreases fuel, 5
    {
      hide Encode, Run, Texts, Flat, Next, OnLine, Reaches, Suspended;
      var left := fuel;
      ghost var level, under, first, below := bn, bframe[..bn], AsMachine(), saved;
      ghost var unread := Unread(bframe[bn]);
      ghost var plain := AllPlain(unread);
      ghost var end := if plain then Run(State(stack, trace), Texts(unread), truth) else State(stack, trace);
      n := 0;
      ReachesItself(first, level, files, truth);
      SuspendedItself(under);
      while left > 0
        invariant Nested() && bn == level >= 0 && !callFlag && left <= fuel && saved == below
        invariant Suspended(bframe[..bn], under) && old(trace) <= trace
        invariant Reaches(first, n, AsMachine(), level, files, truth) && n >= fuel - left
        invariant plain ==> AllPlain(Unread(bframe[bn])) && fuel - left == |unread| - |Unread(bframe[bn])|
        invariant plain ==> Run(State(stack, trace), Texts(Unread(bframe[bn])), truth) == end
        decreases left
      {
        var f := bframe[bn];
        if f.offset < 0 || f.offset >= |f.lines| {
          RunNone(State(stack, trace), f, truth);
          return true, n;
        }
        if plain {
          UnreadNext(f);
          RunCons(State(stack, trace), f.lines[f.offset].line, Texts(Unread(f.(offset := f.offset + 1))), truth);
        }
        FlatNext(bframe, saved, stack, trace, files, truth);
        ReachesStep(first, n, AsMachine(), level, files, truth);
        ghost var sofar := bframe[..bn];
        bframe := bframe[bn := f.(offset := f.offset + 1)];
        assert bframe[..bn] == sofar;
        left := left - 1;
        ghost var k, line := 0, OnLine(AsMachine(), f.lines[f.offset], files, truth);
        done, k := RunLine(f.lines[f.offset], left);
        ReachesOn(first, n + 1, line, k, AsMachine(), level, files, truth);
        n := n + 1 + k;
        if !done {
          return;
        }
        SuspendedOn(bframe[..bn], sofar, under);
      }
      return false, n;
    }
  }

  /** `goto_label`: the first line carrying the label, or the number of lines. */
  method FindLabel(lines: seq<BatLine>, target: string) returns (k: nat)
    ensures k <= |lines| && (k < |lines| ==> Carries(lines[k], target))
    ensures forall j :: 0 <= j < k ==> !Carries(lines[j], target)
  {
    var name := if target != "" && target[0] == ':' then target[1..] else target;
    k := 0;
    while k < |lines|
      invariant k <= |lines| && forall j :: 0 <= j < k ==> !Carries(lines[j], target)
    {
      if lines[k].Label? {
        StrICmpIsUpper(name, lines[k].target);
        if StrICmp(name, lines[k].target) == 0 {
          return;
        }
      }
      k := k + 1;
    }
  }
}
