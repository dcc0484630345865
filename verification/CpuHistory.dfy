/** Reverse debugging with the history of the CPU: a virtual call stack that is
    changed on every step back and forward. */
module CpuHistory {
  import opened Options
  import opened CallStack
  import opened Z80Stack
  import opened ReverseStack
  import opened Sequences
  import Values = StackContents

  class ReverseDebugStack {
    var frames: seq<CallStackFrame>
    /** The frames that have been on the stack. */
    ghost var pool: set<CallStackFrame>

    constructor (frames: seq<CallStackFrame>)
      requires Distinct(frames)
      ensures this.frames == frames && pool == FrameSet(frames) && Valid()
    {
      this.frames := frames;
      pool := FrameSet(frames);
    }

    ghost predicate Valid()
      reads this
    {
      Distinct(frames) && FrameSet(frames) <= pool
    }

    /** The words on each frame. */
    ghost function Words(): (r: seq<Values.Words>)
      reads this, frames`stack
      ensures |r| == |frames| && forall i :: 0 <= i < |r| ==> r[i] == frames[i].stack
    {
      Contents(frames)
    }

    /** The number of words on each frame. */
    ghost function Shape(): seq<nat>
      reads this, frames`stack
    {
      Values.SizesOf(Words())
    }

    function Last(): CallStackFrame
      requires |frames| > 0
      reads this
    {
      frames[|frames| - 1]
    }

    /** All frames but the last one are those from before. */
    ghost predicate KeepsFrames(before: seq<CallStackFrame>)
      reads this
    {
      forall i :: 0 <= i < |frames| - 1 && i < |before| ==> frames[i] == before[i]
    }

    method SetFrames(frames: seq<CallStackFrame>)
      requires Distinct(frames)
      modifies this
      ensures this.frames == frames && pool == FrameSet(frames) && Valid()
    {
      this.frames := frames;
      pool := FrameSet(frames);
    }

    method PushFrame(frame: CallStackFrame)
      requires Valid() && frame !in frames && frame.stack == []
      modifies this
      ensures Valid() && frames == old(frames) + [frame] && pool == old(pool) + {frame}
      ensures Words() == Values.AddFrame(old(Words()))
    {
      frames := frames + [frame];
      pool := pool + {frame};
    }

    method PopFrame()
      requires Valid() && |frames| > 0
      modifies this
      ensures Valid() && frames == old(frames)[..|old(frames)| - 1] && pool == old(pool)
      ensures Words() == Values.DropFrame(old(Words()))
    {
      frames := frames[..|frames| - 1];
    }

    /** Changes the words of the last frame. */
    method SetStack(stack: seq<Option<int>>)
      requires Valid() && |frames| > 0
      modifies {frames[|frames| - 1]}`stack
      ensures Last().stack == stack && Words() == Values.SetWords(old(Words()), stack)
    {
      frames[|frames| - 1].stack := stack;
    }

    /** Creates the main frame if there is no frame at all. */
    method EnsureFrame(sp: int)
      requires Valid()
      modifies this
      ensures Valid() && |frames| >= 1 && old(pool) <= pool && fresh(pool - old(pool))
      ensures old(|frames|) > 0 ==> frames == old(frames)
      ensures old(|frames|) == 0 ==> |frames| == 1 && fresh(frames[0])
      ensures Words() == Values.AtLeastMain(old(Words()))
    {
      if |frames| == 0 {
        var frame := new CallStackFrame(0, sp, Main(sp));
        PushFrame(frame);
      }
    }

    /** Takes words from the last frame until `count` is used up. Returns the rest. */
    method RemoveData(count: int, ghost keepMain: bool) returns (n: int)
      requires Valid() && |frames| > 0 && count > 1
      modifies {frames[|frames| - 1]}`stack
      ensures 0 <= n <= count && (n > 1 ==> Last().stack == [])
      ensures Values.Shrunk(old(Words()), Words())
      ensures Remove(Shape(), Half(n), keepMain) == Remove(old(Shape()), Half(count), keepMain)
    {
      hide Remove, Values.SizesOf, Values.Shrunk, Values.SetWords, Contents, Words;
      n := count;
      ghost var before := Words();
      Values.ShrunkByWord(before);
      while n > 1 && |Last().stack| > 0
        invariant 0 <= n <= count && Values.Shrunk(before, Words())
        invariant Remove(Shape(), Half(n), keepMain) == Remove(old(Shape()), Half(count), keepMain)
        decreases n
      {
        var stack := Last().stack;
        RemoveWord(Shape(), Half(n), keepMain);
        Values.ShrunkByWord(Words());
        Values.ShrunkMore(before, Words(), Values.SetWords(Words(), stack[..|stack| - 1]));
        SetStack(stack[..|stack| - 1]);
        n := n - 2;
      }
    }

    /** Takes the words of the last frame and then the frame itself, until `count` is used
        up. Returns the rest, and whether the last frame has to stay. */
    method RemoveFrameAndData(count: int, keepMain: bool) returns (n: int, stopped: bool)
      requires Valid() && |frames| > 0 && count > 1
      modifies this, {frames[|frames| - 1]}`stack
      ensures Valid() && frames <= old(frames) && pool == old(pool) && 0 <= n <= count && (n < count || stopped)
      ensures Values.Shrunk(old(Words()), Words())
      ensures Remove(Shape(), Half(n), keepMain) == Remove(old(Shape()), Half(count), keepMain)
      ensures stopped ==> keepMain && |Shape()| == 1 && Top(Shape()) == 0
    {
      hide Remove, Values.SizesOf, Values.Shrunk, Values.DropFrame, Contents, Words;
      ghost var before := Words();
      stopped := false;
      // First remove the data stack.
      n := RemoveData(count, keepMain);
      // Now remove the frame.
      if n > 1 {
        if keepMain && |frames| <= 1 {
          stopped := true;
        } else {
          RemoveFrame(Shape(), Half(n), keepMain);
          Values.ShrunkByFrame(Words());
          Values.ShrunkMore(before, Words(), Values.DropFrame(Words()));
          PopFrame();
          n := n - 2;
        }
      }
    }

    /** Takes `count / 2` words from the top: first the words of the last frame, then
        the frame itself, and so on. When `keepMain` is set, the last frame stays. */
    method RemoveWords(count: int, keepMain: bool)
      requires Valid() && |frames| > 0 && count > 0
      modifies this, frames`stack
      ensures Valid() && frames <= old(frames) && pool == old(pool)
      ensures Shape() == Remove(old(Shape()), Half(count), keepMain)
      ensures Values.Shrunk(old(Words()), Words())
    {
      hide Remove, Values.SizesOf, Values.Shrunk, Contents, Words;
      ghost var before := Words();
      Values.ShrunkByWord(before);
      var n, stopped := count, false;
      while n > 1 && |frames| > 0 && !stopped
        invariant Valid() && frames <= old(frames) && pool == old(pool) && 0 <= n
        invariant Values.Shrunk(before, Words())
        invariant Remove(Shape(), Half(n), keepMain) == Remove(old(Shape()), Half(count), keepMain)
        invariant stopped ==> keepMain && |Shape()| == 1 && Top(Shape()) == 0
        decreases n, if stopped then 0 else 1
      {
        ghost var words := Words();
        n, stopped := RemoveFrameAndData(n, keepMain);
        Values.ShrunkMore(before, words, Words());
      }
      RemoveNothing(Shape(), Half(n), keepMain);
    }

    /** Puts `count / 2` unknown words on the last frame. */
    method AddUnknownWords(count: int)
      requires Valid() && |frames| > 0
      modifies {frames[|frames| - 1]}`stack
      ensures Words() == Values.SetWords(old(Words()), old(Last().stack) + Values.Unknown(Half(count)))
    {
      hide Values.SizesOf, Values.SetWords, Values.Unknown;
      var n := count;
      ghost var before, w, k: nat := Words(), Last().stack, 0;
      Values.SetTwice(before, w, w);
      Values.UnknownMore(w, 0);
      while n > 1
        invariant (n == count || n >= 0) && k + Half(n) == Half(count)
        invariant Words() == Values.SetWords(before, w + Values.Unknown(k))
        decreases n
      {
        Values.SetTwice(before, w + Values.Unknown(k), w + Values.Unknown(k) + [None]);
        Values.UnknownMore(w, k);
        SetStack(Last().stack + [None]);
        n := n - 2;
        k := k + 1;
      }
    }

    /** Removes or adds words until the stack pointer fits. */
    method AdjustWords(count: int, keepMain: bool)
      requires Valid() && |frames| > 0
      modifies this, frames`stack
      ensures Valid() && frames <= old(frames) && pool == old(pool)
      ensures Words() == Values.AdjustWords(old(Words()), count, keepMain)
      ensures count == 0 ==> frames == old(frames)
      ensures forall f :: f in frames ==> f in old(frames)
    {
      hide Remove, Values.SizesOf;
      if count > 0 {
        RemoveWords(count, keepMain);
        Values.ShrunkIsFit(old(Words()), Words());
      } else {
        AddUnknownWords(-count);
        Values.GrownIsFit(old(Words()), Half(-count));
      }
      assert forall i :: 0 <= i < |frames| ==> frames[i] == old(frames)[i];
    }

    /** An executed RET: removes the frame of an interrupt, if there was one, and
        enters the routine that returns. */
    method ReturnBack(currentLine: Line, prevLine: Line, memory: int -> bv8)
      requires Valid() && |frames| > 0
      modifies this
      ensures Valid() && |frames| > 0
      ensures old(pool) <= pool && fresh(pool - old(pool))
      ensures Words() == Values.AddFrame(if currentLine.sp + 2 != prevLine.sp then Values.DropFrame(old(Words()))
                                         else old(Words()))
      ensures Last().addr == currentLine.pcLong
      ensures frames[..|frames| - 1] ==
              if currentLine.sp + 2 != prevLine.sp then old(frames)[..|old(frames)| - 1] else old(frames)
      ensures fresh(Last()) && Last().stackStartAddress == currentLine.sp
      ensures Last().name == CalleeName(memory, currentLine.spContent)
    {
      hide Values.SizesOf, Values.AddFrame, Values.DropFrame, Contents, Words, CalleeName;
      var name := CalleeName(memory, currentLine.spContent);
      // Check if there also was an interrupt in the previous line.
      if currentLine.sp + 2 != prevLine.sp {
        PopFrame();
      }
      var frame := new CallStackFrame(currentLine.pcLong, currentLine.sp, name);
      PushFrame(frame);
    }

    /** Any other instruction: fits the stack to the stack pointer, and puts back a
        popped word. */
    method AdjustBack(currentLine: Line, prevLine: Line)
      requires Valid() && |frames| > 0
      modifies this, pool`stack, pool`addr
      ensures Valid() && |frames| > 0
      ensures old(pool) <= pool && fresh(pool - old(pool))
      ensures var t := Values.AdjustWords(old(Words()), BackCount(currentLine, prevLine), true);
              Words() == if IsPop(currentLine) then Values.PushWord(t, Some(currentLine.spContent)) else t
      ensures frames <= old(frames) && Last().addr == currentLine.pcLong
      ensures forall f :: f in old(pool) && f != Last() ==> f.addr == old(f.addr)
    {
      hide Remove, Values.AdjustWords, Values.SizesOf, Values.PushWord, Contents, Words, IsPop;
      var popped := IsPop(currentLine);
      // Counting the popped word copes with an interrupt.
      var sp: int := if popped then currentLine.sp + 2 else currentLine.sp;
      AdjustWords(sp - prevLine.sp, true);
      // Adjust the PC within the frame.
      var frame := Last();
      frame.addr := currentLine.pcLong;
      // Add a possibly popped value.
      if popped {
        PushWord(Some(currentLine.spContent));
      }
    }

    /** Puts a word on the last frame. */
    method PushWord(w: Option<int>)
      requires Valid() && |frames| > 0
      modifies {frames[|frames| - 1]}`stack
      ensures Words() == Values.PushWord(old(Words()), w)
    {
      SetStack(Last().stack + [w]);
    }

    /** Handles the instruction `currentLine` on a step back from `prevLine`. */
    method HandleBack(currentLine: Line, prevLine: Line, memory: int -> bv8)
      requires Valid()
      modifies this, pool`stack, pool`addr
      ensures Valid() && |frames| > 0
      ensures old(pool) <= pool && fresh(pool - old(pool))
      ensures Words() == Values.BackWords(old(Words()), currentLine, prevLine)
      ensures Shape() == Back(old(Shape()), currentLine, prevLine)
      ensures Last().addr == currentLine.pcLong && KeepsFrames(old(frames))
      ensures forall f :: f in old(pool) && f != Last() ==> f.addr == old(f.addr)
      ensures if IsRetAndExecuted(currentLine) then
                fresh(Last()) && Last().stackStartAddress == currentLine.sp
                && Last().name == CalleeName(memory, currentLine.spContent)
              else
                |old(frames)| > 0 ==> frames <= old(frames)
    {
      hide Remove, Values.AdjustWords, Values.SizesOf, Contents, Words, IsRetAndExecuted, IsPop, CalleeName, BackCount;
      // Check if there is at least one frame.
      EnsureFrame(currentLine.sp);
      if IsRetAndExecuted(currentLine) {
        ReturnBack(currentLine, prevLine, memory);
      } else {
        AdjustBack(currentLine, prevLine);
      }
    }

    /** Puts what the instruction itself pushes on the stack: a frame for a CALL or
        RST, a word for a PUSH. Returns the stack pointer after that, and the one
        that is expected after the instruction. */
    method PushForward(currentLine: Line, nextLine: Line) returns (sp: int, expectedSP: Option<int>)
      requires Valid() && |frames| > 0
      modifies this, {frames[|frames| - 1]}`stack
      ensures Valid() && |frames| > 0
      ensures Words() == Values.PushedWords(old(Words()), currentLine)
      ensures sp == (if Pushes(currentLine) then currentLine.sp - 2 else currentLine.sp)
      ensures expectedSP == ExpectedSp(currentLine)
      ensures old(pool) <= pool && fresh(pool - old(pool))
      ensures if EntersRoutine(currentLine) then
                frames[..|frames| - 1] == old(frames) && fresh(Last()) && IsFrameOf(Last(), currentLine, nextLine)
              else
                frames == old(frames)
      ensures forall f :: f in frames ==> f in old(frames) || fresh(f)
    {
      hide Values.SizesOf, Contents, Words, IsRetAndExecuted, IsPop, IsCallAndExecuted, IsRstOpcode, PushedValue,
           CalcDirectSpChanges, RstTarget;
      sp := currentLine.sp;
      if IsCallAndExecuted(currentLine) {
        sp := sp - 2;
        expectedSP := Some(sp);
        var frame := new CallStackFrame(0, nextLine.sp - 2, Function(Nnnn(currentLine)));
        PushFrame(frame);
      } else if IsRstOpcode(currentLine.op0) {
        sp := sp - 2;
        expectedSP := Some(sp);
        RstTargets(currentLine.op0);
        var frame := new CallStackFrame(0, nextLine.sp - 2, Function((currentLine.op0 & 0x38) as int));
        PushFrame(frame);
      } else {
        var pushedValue := PushedValue(currentLine);
        if pushedValue.Some? {
          SetStack([Some(pushedValue.value)] + Last().stack);
          sp := sp - 2;
          expectedSP := Some(sp);
        } else if IsPop(currentLine) || IsRetAndExecuted(currentLine) {
          expectedSP := Some(sp + 2);
        } else {
          expectedSP := CalcDirectSpChanges(currentLine, sp);
        }
      }
    }

    /** Enters an interrupt, makes sure that there is a frame, and sets its PC. */
    method EndForward(interruptFound: bool, sp: int, nextLine: Line)
      requires Valid()
      modifies this, frames`addr
      ensures Valid() && |frames| > 0
      ensures old(pool) <= pool && fresh(pool - old(pool))
      ensures Words() == if interruptFound then Values.AddFrame(old(Words())) else Values.AtLeastMain(old(Words()))
      ensures !interruptFound && old(|frames|) > 0 ==> frames == old(frames)
      ensures interruptFound ==> frames[..|frames| - 1] == old(frames)
      ensures forall f :: f in old(pool) && f != Last() ==> f.addr == old(f.addr)
      ensures Last().addr == nextLine.pcLong
      ensures interruptFound ==> fresh(Last()) && Last().name == Interrupt && Last().stackStartAddress == nextLine.sp
      ensures forall f :: f in frames ==> f in old(frames) || fresh(f)
    {
      hide Values.SizesOf, Values.AddFrame, Values.AtLeastMain, Contents, Words, Valid;
      Values.MainIsThere(Words());
      Values.MainIsThere(Values.AddFrame(Words()));
      if interruptFound {
        var frame := new CallStackFrame(0, nextLine.sp, Interrupt);
        PushFrame(frame);
      }
      // Create a new main frame if none exists any more.
      EnsureFrame(sp);
      Last().addr := nextLine.pcLong;
    }

    /** Fits the stack to the stack pointer, and ends the step. */
    method FitForward(count: int, interruptFound: bool, sp: int, nextLine: Line)
      requires Valid() && |frames| > 0
      modifies this, pool`stack, pool`addr
      ensures Valid() && |frames| > 0
      ensures old(pool) <= pool && fresh(pool - old(pool))
      ensures var t := Values.AdjustWords(old(Words()), count, false);
              Words() == if interruptFound then Values.AddFrame(t) else Values.AtLeastMain(t)
      ensures frames[..|frames| - 1] <= old(frames)
      ensures count == 0 ==> old(frames) == if interruptFound then frames[..|frames| - 1] else frames
      ensures !interruptFound && Values.AdjustWords(old(Words()), count, false) != [] ==> frames <= old(frames)
      ensures forall f :: f in old(pool) && f != Last() ==> f.addr == old(f.addr)
      ensures Last().addr == nextLine.pcLong
      ensures interruptFound ==> fresh(Last()) && Last().name == Interrupt && Last().stackStartAddress == nextLine.sp
      ensures forall f :: f in frames ==> f in old(frames) || fresh(f)
    {
      hide Remove, Values.AdjustWords, Values.SizesOf;
      AdjustWords(count, false);
      EndForward(interruptFound, sp, nextLine);
    }

    /** Finds out whether an interrupt follows, and how far the stack pointer moves. */
    method CheckForward(currentLine: Line, nextLine: Line, sp: int, expectedSP: Option<int>)
      returns (interruptFound: bool, count: int)
      requires sp == (if Pushes(currentLine) then currentLine.sp - 2 else currentLine.sp)
               && expectedSP == ExpectedSp(currentLine)
      ensures interruptFound == InterruptFound(currentLine, nextLine) && count == ForwardCount(currentLine, nextLine)
    {
      hide Pushes, ExpectedSp;
      // Check for an interrupt, either by the SP or by the PC.
      interruptFound := if expectedSP.Some? then nextLine.sp == expectedSP.value - 2
                        else nextLine.pcLong != currentLine.pc + 4;
      // An expected SP of 0 counts as unknown here.
      var usedSP := if expectedSP.Some? && expectedSP.value != 0 then expectedSP.value else nextLine.sp;
      count := usedSP - sp;
    }

    /** The same when there is a frame. */
    method MoveForward(currentLine: Line, nextLine: Line)
      requires Valid() && |frames| > 0
      modifies this, pool`stack, pool`addr
      ensures Valid() && |frames| > 0
      ensures old(pool) <= pool && fresh(pool - old(pool))
      ensures Words() == Values.ForwardWords(old(Words()), currentLine, nextLine)
      ensures Last().addr == nextLine.pcLong && ForwardFrames(old(frames), frames, currentLine, nextLine)
      ensures forall f :: f in old(pool) && f != Last() ==> f.addr == old(f.addr)
      ensures InterruptFound(currentLine, nextLine) ==> fresh(Last())
      ensures forall f :: f in frames ==> f in old(frames) || fresh(f)
      ensures !EntersRoutine(currentLine) && !InterruptFound(currentLine, nextLine)
              && Values.AdjustWords(Values.PushedWords(old(Words()), currentLine), ForwardCount(currentLine, nextLine),
                                    false) != [] ==>
                frames <= old(frames)
    {
      hide Remove, Values.AdjustWords, Values.SizesOf, Values.ForwardWords, Values.PushedWords, Values.AtLeastMain,
           Values.AddFrame, Pushed, Pushes, ExpectedSp, InterruptFound, ForwardCount, Forward, EntersRoutine,
           IsFrameOf, Contents, Words, ForwardFrames;
      ghost var words := Words();
      Values.MainIsThere(words);
      var sp, expectedSP := PushForward(currentLine, nextLine);
      ghost var pushed := frames;
      var interruptFound, count := CheckForward(currentLine, nextLine, sp, expectedSP);
      Values.ForwardIs(words, currentLine, nextLine);
      FitForward(count, interruptFound, sp, nextLine);
      ForwardFramesAre(old(frames), pushed, frames, currentLine, nextLine);
    }

    /** Handles the instruction `currentLine` on a step forward to `nextLine`. */
    method HandleForward(currentLine: Line, nextLine: Line)
      requires Valid()
      modifies this, pool`stack, pool`addr
      ensures Valid() && |frames| > 0
      ensures old(pool) <= pool && fresh(pool - old(pool))
      ensures Words() == Values.ForwardWords(old(Words()), currentLine, nextLine)
      ensures Shape() == Forward(old(Shape()), currentLine, nextLine)
      ensures Last().addr == nextLine.pcLong && ForwardFrames(old(frames), frames, currentLine, nextLine)
      ensures forall f :: f in old(pool) && f != Last() ==> f.addr == old(f.addr)
      ensures InterruptFound(currentLine, nextLine) ==> fresh(Last())
      ensures forall f :: f in frames ==> f in old(frames) || fresh(f)
      ensures !EntersRoutine(currentLine) && !InterruptFound(currentLine, nextLine) && |old(frames)| > 0
              && Values.AdjustWords(Values.PushedWords(old(Words()), currentLine), ForwardCount(currentLine, nextLine),
                                    false) != [] ==>
                frames <= old(frames)
    {
      hide Remove, Values.AdjustWords, Values.SizesOf, Values.ForwardWords, Values.PushedWords, Values.AtLeastMain,
           Values.AddFrame, InterruptFound, ForwardCount, Forward, EntersRoutine, IsFrameOf, Contents, Words;
      Values.MainIsThere(Words());
      Values.ForwardFromMain(Words(), currentLine, nextLine);
      // Check if there is at least one frame.
      EnsureFrame(currentLine.sp);
      MoveForward(currentLine, nextLine);
    }
  }

  predicate EntersRoutine(l: Line) {
    IsCallAndExecuted(l) || IsRstOpcode(l.op0)
  }

  /** What becomes of the frames on a step forward: all but the last one stay, and behind
      them are those of the entered routine and of an interrupt. */
  ghost predicate ForwardFrames(before: seq<CallStackFrame>, after: seq<CallStackFrame>, cur: Line, next: Line) {
    && |after| > 0
    && (forall i :: 0 <= i < |after| - 1 && i < |before| ==> after[i] == before[i])
    && (InterruptFound(cur, next) ==>
          after[|after| - 1].name == Interrupt && after[|after| - 1].stackStartAddress == next.sp)
    && (EntersRoutine(cur) && ForwardCount(cur, next) == 0 ==>
          var n := |after| - if InterruptFound(cur, next) then 2 else 1;
          n >= 0 && IsFrameOf(after[n], cur, next))
  }

  lemma ForwardFramesAre(before: seq<CallStackFrame>, pushed: seq<CallStackFrame>, after: seq<CallStackFrame>,
                         cur: Line, next: Line)
    requires |after| > 0 && |pushed| > 0 && before <= pushed && after[..|after| - 1] <= pushed
    requires EntersRoutine(cur) ==> IsFrameOf(pushed[|pushed| - 1], cur, next)
    requires ForwardCount(cur, next) == 0 ==>
               pushed == if InterruptFound(cur, next) then after[..|after| - 1] else after
    requires InterruptFound(cur, next) ==>
               after[|after| - 1].name == Interrupt && after[|after| - 1].stackStartAddress == next.sp
    ensures ForwardFrames(before, after, cur, next)
  {
    hide InterruptFound, ForwardCount, EntersRoutine, IsFrameOf;
    forall i | 0 <= i < |after| - 1 && i < |before|
      ensures after[i] == before[i]
    {
      assert after[i] == after[..|after| - 1][i] == pushed[i];
    }
  }

  /** The frame of the routine that a CALL or RST enters. */
  predicate IsFrameOf(frame: CallStackFrame, l: Line, next: Line) {
    && frame.stackStartAddress == next.sp - 2
    && frame.name == Function(if IsCallAndExecuted(l) then Nnnn(l) else RstTarget(l.op0))
  }

  /** Forward over a CALL or RST, the frame starts where the routine will put its first word.
      Back over its RET, it starts at the return address, which is one word higher. */
  lemma StartAddressesDiffer(entered: CallStackFrame, call: Line, first: Line, second: Line,
                             returned: CallStackFrame, ret: Line)
    requires IsFrameOf(entered, call, first) && StackOpOf(first).Push? && SpAfter(first) == Some(second.sp)
    requires returned.stackStartAddress == ret.sp == first.sp
    ensures entered.stackStartAddress == second.sp
    ensures returned.stackStartAddress == entered.stackStartAddress + 2
  {
  }

  /** The name of the routine from which a RET to `retAddr` returns, guessed from the
      byte where a CALL would be. */
  function CalleeName(memory: int -> bv8, retAddr: Word): FrameName {
    var a := (retAddr - 3) % 0x10000;
    var first := memory(a);
    if IsCallOpcode(first) then Function((memory((a + 2) % 0x10000) as int) * 256 + (memory((a + 1) % 0x10000) as int))
    else if IsRstOpcode(first) then Function((first & 0x38) as int)
    else Unknown
  }

  /** Behind a CALL that is in memory, the name is that of the called routine. */
  lemma CalleeIsCalled(memory: int -> bv8, l: Line)
    requires InMemory(memory, l) && StackOpOf(l) == Call
    ensures CalleeName(memory, (l.pc + 3) % 0x10000) == Function(Nnnn(l))
  {
    CallOpcodeIff(l);
    assert StackOpOf(l.(flags := l.flags)) == Call;
  }

  /** The address to which an RST jumps. */
  function RstTarget(op0: bv8): int {
    match op0
    case 0xCF => 0x08 case 0xD7 => 0x10 case 0xDF => 0x18 case 0xE7 => 0x20
    case 0xEF => 0x28 case 0xF7 => 0x30 case 0xFF => 0x38
    case _ => 0
  }

  /** Behind an RST the byte is looked for where a CALL would be, two bytes too early: the name
      is that of the routine exactly if there happens to be the same RST. */
  lemma RstIsNamedIff(memory: int -> bv8, l: Line)
    requires InMemory(memory, l) && StackOpOf(l) == Rst
    ensures CalleeName(memory, (l.pc + 1) % 0x10000) == Function(RstTarget(l.op0)) <==>
            var before := memory((l.pc - 2) % 0x10000);
            IsRstOpcode(before) && RstTarget(before) == RstTarget(l.op0)
  {
    hide StackOpOf, IsRetAndExecuted, IsPop, PushedValue, IsCallAndExecuted, RstTarget;
    var before := memory((l.pc - 2) % 0x10000);
    OpcodeTestsAreExact(l);
    RstTargets(l.op0);
    NameBefore(memory, l.pc);
    if IsRstOpcode(before) {
      RstTargets(before);
    }
  }

  lemma NameBefore(memory: int -> bv8, pc: Word)
    ensures var a := (pc - 2) % 0x10000;
            CalleeName(memory, (pc + 1) % 0x10000) ==
            if IsCallOpcode(memory(a)) then Function(256 * (memory(pc) as int) + (memory((pc - 1) % 0x10000) as int))
            else if IsRstOpcode(memory(a)) then Function((memory(a) & 0x38) as int)
            else Unknown
  {
    hide IsCallOpcode, IsRstOpcode;
    BytesBefore(pc);
  }

  lemma BytesBefore(pc: Word)
    ensures ((pc + 1) % 0x10000 - 3) % 0x10000 == (pc - 2) % 0x10000
    ensures ((pc - 2) % 0x10000 + 1) % 0x10000 == (pc - 1) % 0x10000
    ensures ((pc - 2) % 0x10000 + 2) % 0x10000 == pc
  {
    if 2 <= pc < 0xFFFF {
    }
  }

  lemma RstTargets(op0: bv8)
    requires IsRstOpcode(op0)
    ensures (op0 & 0x38) as int == RstTarget(op0) <= 0x38 && op0 as int > 0 && !IsCallOpcode(op0)
  {
  }
}
