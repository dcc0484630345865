/** Time travel through the history that the emulator has recorded of every executed
    instruction. The history is fetched bit by bit, and a virtual call stack is carried
    along. */
module ReverseDebugging {
  import opened Options
  import opened CallStack
  import opened CallStackFromMemory
  import opened CpuHistory
  import opened ReverseStack
  import opened Sequences
  import StackContents
  import opened TimeRuns
  import opened TimeTravel
  import opened Z80Stack

  /** Where stepping forward is to stop, apart from the breakpoints. */
  datatype Goal = ToBreakpoint | OneStep | OverCall(pc0: int, pc1: int) | OutOf(startSP: int)

  /** The goal of a step from `cur` to `next`. */
  predicate Reached(goal: Goal, cur: Line, next: Line) {
    match goal
    case ToBreakpoint => false
    case OneStep => true
    case OverCall(pc0, pc1) => next.pc == pc0 || next.pc == pc1
    case OutOf(startSP) => IsRetAndExecuted(cur) && next.sp > startSP
  }

  predicate ReachedAt(goal: Goal, h: seq<Line>, i: int) {
    0 <= i < |h| - 1 && Reached(goal, h[i + 1], h[i])
  }

  predicate FiresAt(hit: (int, Line) -> bool, h: seq<Line>, i: int) {
    0 <= i < |h| && hit(h[i].pcLong, h[i])
  }

  /** The entries at which stepping towards a goal stops. */
  function StopsFor(goal: Goal, hit: (int, Line) -> bool, h: seq<Line>): (r: seq<bool>)
    ensures forall i {:trigger At(r, i)} :: At(r, i) <==> ReachedAt(goal, h, i) || FiresAt(hit, h, i)
  {
    seq(|h|, i => ReachedAt(goal, h, i) || FiresAt(hit, h, i))
  }

  lemma BreakpointStops(hit: (int, Line) -> bool, h: seq<Line>, i: int)
    ensures At(StopsFor(ToBreakpoint, hit, h), i) <==> FiresAt(hit, h, i)
  {
  }

  /** Why stepping towards the goal has stopped at entry `i`. */
  function ReasonFor(goal: Goal, h: seq<Line>, i: int, phase: Phase): BreakReason {
    match phase
    case UnderWay => NoReason
    case AtEnd => ReachedStart
    case Stopped => if ReachedAt(goal, h, i) then NoReason else BreakpointHit
  }

  function StepOverGoal(l: Line): Goal {
    if IsCallOpcode(l.op0) then OverCall(l.pc + 3, l.pc + 3)
    else if IsRstOpcode(l.op0) then OverCall(l.pc + 1, l.pc + 2)
    else OneStep
  }

  /** The moves, followed by `n` times the same one. */
  function Again(moves: Moves, m: Move, n: nat): Moves {
    if n == 0 then moves else Then(Again(moves, m, n - 1), m)
  }

  /** Running forward has led from `s` to `t`, and from the moves `ms` to `mt`. */
  ghost predicate RanForth(goal: Goal, hit: (int, Line) -> bool, s: TimeState, ms: Moves,
                           t: TimeState, mt: Moves, phase: Phase, reason: BreakReason)
    requires Inv(s)
  {
    && WentForth(StopsFor(goal, hit, t.history), s, t, phase) && (phase == AtEnd <==> t.index < 0)
    && mt == Again(ms, Move.StepForward, s.index - t.index)
    && reason == ReasonFor(goal, t.history, t.index, phase)
  }

  lemma RanForthStart(goal: Goal, hit: (int, Line) -> bool, s: TimeState, ms: Moves)
    requires Inv(s) && s.index >= 0
    ensures RanForth(goal, hit, s, ms, s, ms, UnderWay, NoReason)
  {
    hide WentForth;
    StartForth(StopsFor(goal, hit, s.history), s);
  }

  lemma RanForthMore(goal: Goal, hit: (int, Line) -> bool, s: TimeState, ms: Moves, t: TimeState, mt: Moves,
                     reason: BreakReason)
    requires Inv(s) && Inv(t) && RanForth(goal, hit, s, ms, t, mt, UnderWay, reason)
    ensures 0 <= t.index
    ensures var phase := PhaseForth(StopsFor(goal, hit, t.history), t);
            RanForth(goal, hit, s, ms, Next(t).0, Then(mt, Move.StepForward), phase,
                     ReasonFor(goal, t.history, t.index - 1, phase))
  {
    hide Inv, Next, StopsFor, ReasonFor, PhaseForth, ForthTimes, Passed;
    var stops := StopsFor(goal, hit, t.history);
    NextMoves(t);
    PhaseForthIs(stops, t);
    WentForthMore(stops, s, t);
  }

  /** Running back has led from `s` to `t`, and from the moves `ms` to `mt`. */
  ghost predicate RanBack(hit: (int, Line) -> bool, s: TimeState, ms: Moves, t: TimeState, mt: Moves, phase: Phase)
    requires Inv(s)
  {
    && WentBack(StopsFor(ToBreakpoint, hit, t.history), s, t, phase)
    && mt == Again(ms, Move.StepBack, t.index - s.index)
  }

  lemma RanBackStart(hit: (int, Line) -> bool, s: TimeState, ms: Moves)
    requires Inv(s)
    ensures RanBack(hit, s, ms, s, ms, UnderWay)
  {
    hide WentBack;
    StartBack(StopsFor(ToBreakpoint, hit, s.history), s);
  }

  lemma RanBackMore(hit: (int, Line) -> bool, s: TimeState, ms: Moves, t: TimeState, mt: Moves)
    requires Inv(s) && Inv(t) && RanBack(hit, s, ms, t, mt, UnderWay)
    ensures var phase := PhaseBack(StopsFor(ToBreakpoint, hit, t.history), t);
            RanBack(hit, s, ms, Prev(t).0, if phase == AtEnd then mt else Then(mt, Move.StepBack), phase)
  {
    hide Inv, Prev, StopsFor, PhaseBack, BackTimes, Passed;
    var stops := StopsFor(ToBreakpoint, hit, t.history);
    PresentRegisters(t, t.registers);
    PrevMoves(t);
    PhaseBackIs(stops, t);
    WentBackMore(stops, s, t);
  }

  class CpuHistoryClass {
    const maxSize: nat
    const spotCount: int
    /** The breakpoints: whether the one at a long address, if any, fires with the
        given registers. */
    const hit: (int, Line) -> bool
    /** The paused emulator: its registers, and what it has recorded. */
    const remote: RemoteBase
    const emulator: Line
    const remoteHistory: seq<Line>
    ghost const machineStack: seq<Word>

    var history: seq<Line>
    var historyIndex: int
    var presentRegistersCache: Option<Line>
    var registers: Line
    var revDbgHistory: seq<int>
    const reverseDbgStack: ReverseDebugStack
    /** The steps back and forward that have been made. */
    ghost var moves: Moves

    constructor (maxSize: nat, spotCount: int, hit: (int, Line) -> bool, remote: RemoteBase, emulator: Line,
                 remoteHistory: seq<Line>)
      modifies remote`listFrames
      ensures Valid() && State() == TimeState(Visible(), -1, emulator, None, []) && moves == NoMoves && history == []
      ensures this.maxSize == maxSize && this.spotCount == spotCount && this.hit == hit && this.remote == remote
      ensures this.emulator == emulator && this.remoteHistory == remoteHistory
    {
      var stack := remote.GetCallStackFromEmulator(emulator);
      this.maxSize, this.spotCount, this.hit, this.remote := maxSize, spotCount, hit, remote;
      this.emulator, this.remoteHistory, machineStack := emulator, remoteHistory, stack;
      history, historyIndex, presentRegistersCache := [], -1, None;
      registers, revDbgHistory, moves := emulator, [], NoMoves;
      reverseDbgStack := new ReverseDebugStack([]);
    }

    // The history.

    /** The entries that can be reached: the history of the emulator up to the maximum
        size. */
    function Visible(): (r: seq<Line>)
      ensures r <= remoteHistory && |r| <= maxSize
    {
      if |remoteHistory| <= maxSize then remoteHistory else remoteHistory[..maxSize]
    }

    ghost function State(): (s: TimeState)
      reads this`historyIndex, this`presentRegistersCache, this`registers, this`revDbgHistory
      ensures s.history == Visible() && s.index == historyIndex && s.registers == registers
    {
      TimeState(Visible(), historyIndex, registers, presentRegistersCache, revDbgHistory)
    }

    /** The buffer always is a prefix of the history of the emulator. */
    ghost predicate TimeValid()
      reads this`history, this`historyIndex, this`presentRegistersCache, this`registers, this`revDbgHistory
    {
      && Inv(State())
      && history <= remoteHistory && historyIndex < |history|
      && (historyIndex == -1 ==> registers == emulator)
      && (presentRegistersCache.Some? ==> presentRegistersCache.value == emulator)
    }

    predicate IsInStepBackMode()
      reads this`historyIndex
    {
      historyIndex >= 0
    }

    function GetRemoteHistoryIndex(i: nat): Option<Line> {
      if i < |remoteHistory| then Some(remoteHistory[i]) else None
    }

    /** Fetches the part of the history that is shown at once. This may be more than
        the maximum size. */
    method GetHistorySpotFromRemote()
      requires TimeValid() && !IsInStepBackMode()
      modifies this`history
      ensures TimeValid()
      ensures history == remoteHistory[..if spotCount < 0 then 0 else Min(spotCount, |remoteHistory|)]
    {
      history := [];
      var i := 0;
      while i < spotCount
        invariant |history| == i && history <= remoteHistory && (i == 0 || i <= spotCount)
      {
        var line := GetRemoteHistoryIndex(i);
        if line.None? {
          break;
        }
        history := history + [line.value];
        i := i + 1;
      }
    }

    /** Fetches entries until the buffer holds `endIndex` of them, or all. */
    method Prefetch(endIndex: int)
      requires history <= remoteHistory
      modifies this`history
      ensures old(history) <= history <= remoteHistory
      ensures |history| >= endIndex || history == remoteHistory
    {
      var i := |history|;
      while i < endIndex
        invariant i == |history| && old(history) <= history <= remoteHistory
      {
        var line := GetRemoteHistoryIndex(i);
        if line.None? {
          break;
        }
        history := history + [line.value];
        i := i + 1;
      }
    }

    /** Whatever has been fetched before, this is the next entry of the emulator; there
        is none exactly past the maximum size or the end of its history. */
    method GetPrevRegisters() returns (line: Option<Line>)
      requires history <= remoteHistory && -1 <= historyIndex < |history|
      modifies this`history, this`historyIndex
      ensures history <= remoteHistory && historyIndex < |history|
      ensures line.Some? <==> old(historyIndex) + 1 < maxSize && old(historyIndex) + 1 < |remoteHistory|
      ensures historyIndex == old(historyIndex) + if line.Some? then 1 else 0
      ensures line.Some? ==> line.value == remoteHistory[historyIndex]
    {
      var count := if spotCount < 1 then 1 else spotCount;
      var index := historyIndex + 1;
      if index >= maxSize {
        return None;
      }
      var endIndex := index + count;
      if endIndex > maxSize {
        endIndex := maxSize;
      }
      Prefetch(endIndex);
      if index >= |history| {
        return None;
      }
      historyIndex := index;
      line := Some(history[index]);
    }

    method GetNextRegisters() returns (line: Option<Line>)
      requires history <= remoteHistory && 0 <= historyIndex < |history|
      modifies this`historyIndex
      ensures historyIndex == old(historyIndex) - 1
      ensures line == if historyIndex >= 0 then Some(remoteHistory[historyIndex]) else None
    {
      assert historyIndex >= 0;
      historyIndex := historyIndex - 1;
      line := if historyIndex >= 0 then Some(history[historyIndex]) else None;
    }

    method RevDbgPrev() returns (line: Option<Line>)
      requires TimeValid()
      modifies this`history, this`historyIndex, this`presentRegistersCache, this`registers, this`revDbgHistory
      ensures TimeValid() && (State(), line) == Prev(old(State()))
      ensures historyIndex == old(historyIndex) + (if line.Some? then 1 else 0) < |Visible()|
    {
      PrevKeepsInv(State());
      if !IsInStepBackMode() {
        // Store the current registers.
        presentRegistersCache := Some(registers);
      }
      line := GetPrevRegisters();
      if line.Some? {
        registers := line.value;
        // Add to the history for the decoration.
        revDbgHistory := revDbgHistory + [registers.pcLong];
      }
    }

    method RevDbgNext() returns (line: Option<Line>)
      requires TimeValid() && IsInStepBackMode()
      modifies this`historyIndex, this`registers, this`revDbgHistory
      ensures Inv(old(State())) && TimeValid() && (State(), line) == Next(old(State()))
      ensures historyIndex == old(historyIndex) - 1 && (line.Some? <==> IsInStepBackMode())
    {
      NextKeepsInv(State());
      line := GetNextRegisters();
      // At the start the registers get their real value back.
      registers := if line.Some? then line.value else presentRegistersCache.value;
      // Remove one address from the history.
      revDbgHistory := revDbgHistory[..|revDbgHistory| - 1];
    }

    // The virtual call stack.

    ghost function PresentFrames(): seq<Frame> {
      FullCallStack(remote.program, Top64k(remote.program, emulator.sp), machineStack, emulator.pcLong)
    }

    /** The present registers, and before them the history. */
    function Lines(): (r: seq<Line>)
      ensures |r| > 0
    {
      [emulator] + Visible()
    }

    ghost function CurrentSpot(): (t: Spot)
      reads this`moves
      ensures t.index < |Lines()|
    {
      Walk(Lines(), FrameSizes(PresentFrames()), moves)
    }

    ghost function WalkWith(m: Move): (t: Spot)
      reads this`moves
    {
      Walk(Lines(), FrameSizes(PresentFrames()), Then(moves, m))
    }

    /** The call stack of the emulator is that of its memory. */
    ghost predicate Fetched()
      reads remote`listFrames, remote.listFrames`addr, remote.listFrames`stack
    {
      Distinct(remote.listFrames) && Views(remote.listFrames) == PresentFrames()
    }

    /** The virtual stack is what the moves so far have made of it, and shows the
        current program counter. */
    ghost predicate Ready(s: TimeState)
      reads this`moves, reverseDbgStack, reverseDbgStack.frames`addr, reverseDbgStack.frames`stack
    {
      && reverseDbgStack.Valid()
      && CurrentSpot() == Spot(if s.index < 0 then 0 else s.index + 1, reverseDbgStack.Shape())
      && (s.InStepBackMode() ==> |reverseDbgStack.frames| > 0 && reverseDbgStack.Last().addr == s.registers.pcLong)
    }

    ghost predicate StackValid(s: TimeState)
      reads this`moves, reverseDbgStack, reverseDbgStack.frames`addr, reverseDbgStack.frames`stack
      reads remote`listFrames, remote.listFrames`addr, remote.listFrames`stack
    {
      && IsStack(remote.program, emulator.sp, machineStack)
      && if s.InStepBackMode() then Ready(s) else Fetched() && CurrentSpot() == Spot(0, FrameSizes(PresentFrames()))
    }

    ghost predicate Valid()
      reads this, reverseDbgStack, reverseDbgStack.frames`addr, reverseDbgStack.frames`stack
      reads remote`listFrames, remote.listFrames`addr, remote.listFrames`stack
    {
      TimeValid() && StackValid(State())
    }

    /** The virtual stack starts as the call stack of the emulator. */
    method PrepareReverseDbgStack()
      requires Valid()
      modifies reverseDbgStack
      ensures Valid() && Ready(State())
      ensures reverseDbgStack.pool == if historyIndex < 0 then FrameSet(remote.listFrames)
                                      else old(reverseDbgStack.pool)
    {
      if !IsInStepBackMode() {
        reverseDbgStack.SetFrames(remote.listFrames);
      }
    }

    /** Changes the virtual stack on a step back, from `s` to `t`. */
    method HandleStackBack(currentLine: Line, prevLine: Line, ghost s: TimeState, ghost t: TimeState)
      requires StackValid(s) && Ready(s) && 0 <= t.index && t.registers == currentLine
      requires WalkWith(Move.StepBack) ==
               Spot(t.index + 1, ReverseStack.Back(CurrentSpot().sizes, currentLine, prevLine))
      modifies this`moves, reverseDbgStack, reverseDbgStack.pool`addr, reverseDbgStack.pool`stack
      ensures StackValid(t) && Ready(t) && moves == Then(old(moves), Move.StepBack)
      ensures old(reverseDbgStack.pool) <= reverseDbgStack.pool
              && fresh(reverseDbgStack.pool - old(reverseDbgStack.pool))
    {
      hide Walk, ReverseStack.Back, IsRetAndExecuted, IsPop, CalleeName, FullCallStack, Visible,
           StackContents.BackWords, StackContents.SizesOf, Contents;
      reverseDbgStack.HandleBack(currentLine, prevLine, remote.program.memory);
      moves := Then(moves, Move.StepBack);
    }

    /** Changes the virtual stack on a step forward, from `s` to `t`. */
    method HandleStackForward(currentLine: Line, nextLine: Line, ghost s: TimeState, ghost t: TimeState)
      requires StackValid(s) && Ready(s) && 0 <= t.index && t.registers == nextLine
      requires WalkWith(Move.StepForward) == Spot(t.index + 1, Forward(CurrentSpot().sizes, currentLine, nextLine))
      modifies this`moves, reverseDbgStack, reverseDbgStack.pool`addr, reverseDbgStack.pool`stack
      ensures StackValid(t) && Ready(t) && moves == Then(old(moves), Move.StepForward)
      ensures old(reverseDbgStack.pool) <= reverseDbgStack.pool
              && fresh(reverseDbgStack.pool - old(reverseDbgStack.pool))
    {
      hide Walk, Forward, InterruptFound, FullCallStack, Visible, StackContents.ForwardWords, StackContents.SizesOf,
           Contents, IsCallAndExecuted, ForwardCount;
      reverseDbgStack.HandleForward(currentLine, nextLine);
      moves := Then(moves, Move.StepForward);
    }

    /** Fetches the call stack of the emulator again. */
    method FetchCallStack()
      requires IsStack(remote.program, emulator.sp, machineStack)
      modifies remote`listFrames
      ensures Fetched()
    {
      hide IsStack, FullCallStack, Top64k;
      var stack := remote.GetCallStackFromEmulator(emulator);
      StackIsUnique(remote.program, emulator.sp, stack, machineStack);
    }

    /** Gets the registers and the call stack of the emulator again. */
    method ArriveAtPresent()
      requires TimeValid() && historyIndex == -1 && IsStack(remote.program, emulator.sp, machineStack)
      requires WalkWith(Move.StepForward) == Spot(0, FrameSizes(PresentFrames()))
      modifies this`registers, this`moves, remote`listFrames
      ensures TimeValid() && StackValid(State()) && State() == old(State())
              && moves == Then(old(moves), Move.StepForward)
    {
      hide Inv, Walk, IsStack, Fetched, PresentFrames, Visible;
      registers := emulator;
      FetchCallStack();
      moves := Then(moves, Move.StepForward);
    }

    /** `checkPcBreakpoints`: the program counter is that of the call stack. */
    method CheckPcBreakpoints() returns (stop: bool)
      requires TimeValid() && Ready(State()) && historyIndex >= 0
      ensures stop == FiresAt(hit, Visible(), historyIndex)
    {
      var callStack := reverseDbgStack.frames;
      assert |callStack| > 0;
      stop := hit(callStack[|callStack| - 1].addr, registers);
    }

    lemma StaysValid(s: TimeState, t: TimeState)
      requires StackValid(s) && Ready(s) && s.index == t.index && s.registers == t.registers
      ensures StackValid(t) && Ready(t)
    {
    }

    /** What one more step back does to the virtual stack. */
    lemma WalksBack()
      requires TimeValid() && Ready(State())
      ensures -1 <= historyIndex < |Visible()| && (Prev(State()).1.None? ==> Prev(State()).0.registers == registers)
      ensures var (t, line) := Prev(State());
              line.Some? ==>
                && 0 <= t.index && t.registers == line.value
                && WalkWith(Move.StepBack) ==
                   Spot(t.index + 1, ReverseStack.Back(CurrentSpot().sizes, line.value, registers))
    {
      hide Walk, ReverseStack.Back, PresentFrames;
      if Prev(State()).1.Some? {
        WalkBackOn(emulator, FrameSizes(PresentFrames()), moves, State());
      }
    }

    /** One entry back, before the virtual stack is changed. */
    method PrevLine() returns (currentLine: Option<Line>)
      requires Inv(State()) && TimeValid() && StackValid(State()) && Ready(State())
      modifies this`history, this`historyIndex, this`presentRegistersCache, this`registers, this`revDbgHistory
      ensures TimeValid() && (State(), currentLine) == Prev(old(State()))
      ensures historyIndex == old(historyIndex) + (if currentLine.Some? then 1 else 0) < |Visible()|
      ensures currentLine.None? ==> registers == old(registers)
      ensures StackValid(old(State())) && Ready(old(State()))
      ensures currentLine.Some? ==>
                && historyIndex >= 0 && registers == currentLine.value
                && WalkWith(Move.StepBack) ==
                   Spot(historyIndex + 1, ReverseStack.Back(CurrentSpot().sizes, currentLine.value, old(registers)))
    {
      hide *;
      ghost var s := State();
      WalksBack();
      PrevMoves(s);
      currentLine := RevDbgPrev();
    }

    /** One entry back, with the virtual stack. */
    method BackOnce() returns (currentLine: Option<Line>)
      requires Inv(State()) && TimeValid() && StackValid(State()) && Ready(State())
      modifies this`history, this`historyIndex, this`presentRegistersCache, this`registers, this`revDbgHistory,
               this`moves
      modifies reverseDbgStack, reverseDbgStack.pool`addr, reverseDbgStack.pool`stack
      ensures TimeValid() && StackValid(State()) && Ready(State())
      ensures (State(), currentLine) == Prev(old(State()))
      ensures moves == if currentLine.Some? then Then(old(moves), Move.StepBack) else old(moves)
      ensures old(reverseDbgStack.pool) <= reverseDbgStack.pool
              && fresh(reverseDbgStack.pool - old(reverseDbgStack.pool))
      ensures historyIndex == old(historyIndex) + (if currentLine.Some? then 1 else 0) < |Visible()|
    {
      hide *;
      ghost var s := State();
      var prevLine := registers;
      currentLine := PrevLine();
      if currentLine.Some? {
        HandleStackBack(currentLine.value, prevLine, s, State());
      } else {
        StaysValid(s, State());
      }
    }

    method StepBack() returns (reason: BreakReason)
      requires Valid()
      modifies this`history, this`historyIndex, this`presentRegistersCache, this`registers, this`revDbgHistory,
               this`moves
      modifies reverseDbgStack, reverseDbgStack.pool`addr, reverseDbgStack.pool`stack
      modifies remote.listFrames`addr, remote.listFrames`stack
      ensures Valid() && State() == Prev(old(State())).0
      ensures reason == if Prev(old(State())).1.Some? then NoReason else ReachedEnd
      ensures moves == if reason == NoReason then Then(old(moves), Move.StepBack) else old(moves)
    {
      hide TimeValid, StackValid, Ready, State, Prev;
      IndexInHistory();
      PrepareReverseDbgStack();
      var currentLine := BackOnce();
      reason := if currentLine.Some? then NoReason else ReachedEnd;
    }

    /** What one more step forward does to the virtual stack. */
    lemma WalksForward()
      requires TimeValid() && StackValid(State()) && historyIndex >= 0
      ensures Inv(State()) && Ready(State()) && IsStack(remote.program, emulator.sp, machineStack)
      ensures var (t, line) := Next(State());
              if line.Some? then
                && 0 <= t.index && t.registers == line.value
                && WalkWith(Move.StepForward) == Spot(t.index + 1, Forward(CurrentSpot().sizes, registers, line.value))
              else
                t.index == -1 && WalkWith(Move.StepForward) == Spot(0, FrameSizes(PresentFrames()))
    {
      hide Walk, Forward, PresentFrames, IsStack;
      if historyIndex > 0 {
        WalkForwardOn(emulator, FrameSizes(PresentFrames()), moves, State());
      } else {
        WalkOn(Lines(), FrameSizes(PresentFrames()), moves, Move.StepForward);
      }
    }

    /** One entry forward, before the virtual stack is changed. */
    method NextLine() returns (nextLine: Option<Line>)
      requires Inv(State()) && TimeValid() && StackValid(State()) && historyIndex >= 0
      modifies this`historyIndex, this`registers, this`revDbgHistory
      ensures TimeValid() && (State(), nextLine) == Next(old(State()))
      ensures historyIndex == old(historyIndex) - 1 && (nextLine.Some? <==> historyIndex >= 0)
      ensures StackValid(old(State())) && Ready(old(State())) && IsStack(remote.program, emulator.sp, machineStack)
      ensures if nextLine.Some? then
                && registers == nextLine.value
                && WalkWith(Move.StepForward) ==
                   Spot(historyIndex + 1, Forward(CurrentSpot().sizes, old(registers), nextLine.value))
              else
                WalkWith(Move.StepForward) == Spot(0, FrameSizes(PresentFrames()))
    {
      hide *;
      WalksForward();
      nextLine := RevDbgNext();
    }

    /** One entry forward, with the virtual stack; or the real one at the present. */
    method ForwardOnce() returns (nextLine: Option<Line>)
      requires Inv(State()) && TimeValid() && StackValid(State()) && historyIndex >= 0
      modifies this`historyIndex, this`registers, this`revDbgHistory, this`moves, remote`listFrames
      modifies reverseDbgStack, reverseDbgStack.pool`addr, reverseDbgStack.pool`stack
      ensures TimeValid() && StackValid(State()) && (State(), nextLine) == Next(old(State()))
      ensures historyIndex == old(historyIndex) - 1 && (nextLine.Some? <==> historyIndex >= 0)
      ensures nextLine.Some? ==> Ready(State()) && registers == nextLine.value
      ensures moves == Then(old(moves), Move.StepForward)
      ensures old(reverseDbgStack.pool) <= reverseDbgStack.pool
              && fresh(reverseDbgStack.pool - old(reverseDbgStack.pool))
    {
      hide *;
      ghost var s := State();
      var currentLine := registers;
      nextLine := NextLine();
      if nextLine.Some? {
        HandleStackForward(currentLine, nextLine.value, s, State());
      } else {
        // The real registers and the real call stack are there again.
        ArriveAtPresent();
      }
    }

    /** `stepInto`: never gives a reason. */
    method StepInto() returns (reason: BreakReason)
      requires Valid() && IsInStepBackMode()
      modifies this`historyIndex, this`registers, this`revDbgHistory, this`moves, remote`listFrames
      modifies reverseDbgStack, reverseDbgStack.pool`addr, reverseDbgStack.pool`stack
      ensures Inv(old(State())) && Valid() && State() == Next(old(State())).0 && reason == NoReason
      ensures moves == Then(old(moves), Move.StepForward)
    {
      hide TimeValid, StackValid, Ready, State, Next;
      IndexInHistory();
      var nextLine := ForwardOnce();
      reason := NoReason;
    }

    /** One step towards the goal. */
    method ForwardStep(goal: Goal) returns (phase: Phase, reason: BreakReason)
      requires Inv(State()) && TimeValid() && StackValid(State()) && historyIndex >= 0
      modifies this`historyIndex, this`registers, this`revDbgHistory, this`moves, remote`listFrames
      modifies reverseDbgStack, reverseDbgStack.pool`addr, reverseDbgStack.pool`stack
      ensures TimeValid() && StackValid(State()) && State() == Next(old(State())).0
      ensures historyIndex == old(historyIndex) - 1
      ensures phase == PhaseAt(goal, historyIndex) && (phase == AtEnd <==> historyIndex < 0)
      ensures reason == ReasonFor(goal, Visible(), historyIndex, phase)
      ensures moves == Then(old(moves), Move.StepForward)
      ensures old(reverseDbgStack.pool) <= reverseDbgStack.pool
              && fresh(reverseDbgStack.pool - old(reverseDbgStack.pool))
    {
      hide *;
      IndexedLine();
      AtEndReason(goal);
      var currentLine := registers;
      var nextLine := ForwardOnce();
      if nextLine.None? {
        phase, reason := AtEnd, ReachedStart;
      } else {
        phase, reason := CheckForward(goal, currentLine, nextLine.value);
      }
    }

    lemma AtEndReason(goal: Goal)
      ensures ReasonFor(goal, Visible(), -1, AtEnd) == ReachedStart && PhaseAt(goal, -1) == AtEnd
    {
    }

    /** Checks whether a step has reached the goal or a breakpoint. */
    method CheckForward(goal: Goal, currentLine: Line, nextLine: Line) returns (phase: Phase, reason: BreakReason)
      requires TimeValid() && Ready(State()) && 0 <= historyIndex && IsLine(historyIndex + 1, currentLine)
               && nextLine == registers
      ensures phase == PhaseAt(goal, historyIndex) && phase != AtEnd
      ensures reason == ReasonFor(goal, Visible(), historyIndex, phase)
    {
      hide TimeValid, Ready, State, Reached, FiresAt;
      IndexedLine();
      // Check for the goal.
      if Reached(goal, currentLine, nextLine) {
        return Stopped, NoReason;
      }
      // Check for a breakpoint.
      var stop := CheckPcBreakpoints();
      phase, reason := if stop then Stopped else UnderWay, if stop then BreakpointHit else NoReason;
    }

    /** The line is entry `i` of the history. */
    predicate IsLine(i: int, line: Line) {
      0 <= i < |Visible()| && Visible()[i] == line
    }

    lemma IndexedLine()
      requires TimeValid() && historyIndex >= 0
      ensures IsLine(historyIndex, registers)
    {
    }

    /** The phase after a step towards the goal to entry `i`. */
    function PhaseAt(goal: Goal, i: int): Phase {
      if i < 0 then AtEnd else if At(StopsFor(goal, hit, Visible()), i) then Stopped else UnderWay
    }

    lemma RunsForward(goal: Goal, before: TimeState, ms: Moves, reason: BreakReason)
      requires TimeValid() && Inv(before) && RanForth(goal, hit, before, ms, State(), moves, UnderWay, reason)
      ensures Inv(State()) && historyIndex >= 0
      ensures var phase := PhaseAt(goal, historyIndex - 1);
              RanForth(goal, hit, before, ms, Next(State()).0, Then(moves, Move.StepForward), phase,
                       ReasonFor(goal, Visible(), historyIndex - 1, phase))
    {
      hide StopsFor, ReasonFor, RanForth, Next;
      IndexInHistory();
      RanForthMore(goal, hit, before, ms, State(), moves, reason);
      PhaseForthIs(StopsFor(goal, hit, Visible()), State());
    }

    /** Steps forward until the goal or a breakpoint is reached, or else to the
        present. */
    method RunForward(goal: Goal) returns (phase: Phase, reason: BreakReason)
      requires TimeValid() && StackValid(State()) && historyIndex >= 0
      modifies this`historyIndex, this`registers, this`revDbgHistory, this`moves, remote`listFrames
      modifies reverseDbgStack, reverseDbgStack.pool`addr, reverseDbgStack.pool`stack
      ensures Inv(old(State())) && TimeValid() && StackValid(State()) && phase != UnderWay
      ensures RanForth(goal, hit, old(State()), old(moves), State(), moves, phase, reason)
    {
      hide *;
      ghost var before := State();
      phase, reason := UnderWay, NoReason;
      IndexInHistory();
      RanForthStart(goal, hit, before, moves);
      while phase == UnderWay
        invariant TimeValid() && StackValid(State())
        invariant RanForth(goal, hit, before, old(moves), State(), moves, phase, reason)
        invariant old(reverseDbgStack.pool) <= reverseDbgStack.pool
                  && fresh(reverseDbgStack.pool - old(reverseDbgStack.pool))
        decreases historyIndex, phase == UnderWay
      {
        RunsForward(goal, before, old(moves), reason);
        phase, reason := ForwardStep(goal);
      }
    }

    /** Continues to the next breakpoint, or to the present. */
    method Continue() returns (reason: BreakReason)
      requires Valid() && IsInStepBackMode()
      modifies this`historyIndex, this`registers, this`revDbgHistory, this`moves, remote`listFrames
      modifies reverseDbgStack, reverseDbgStack.pool`addr, reverseDbgStack.pool`stack
      ensures Inv(old(State())) && Valid() && (reason == BreakpointHit || reason == ReachedStart)
      ensures RanForth(ToBreakpoint, hit, old(State()), old(moves), State(), moves,
                       if reason == BreakpointHit then Stopped else AtEnd, reason)
    {
      hide TimeValid, StackValid, State, WentForth;
      var phase;
      phase, reason := RunForward(ToBreakpoint);
    }

    /** Steps over a CALL or RST; steps into any other instruction. A return address may
        have been moved by one after a RST. */
    method StepOver() returns (ghost phase: Phase, reason: BreakReason)
      requires Valid() && IsInStepBackMode()
      modifies this`historyIndex, this`registers, this`revDbgHistory, this`moves, remote`listFrames
      modifies reverseDbgStack, reverseDbgStack.pool`addr, reverseDbgStack.pool`stack
      ensures Inv(old(State())) && Valid() && phase != UnderWay
      ensures RanForth(StepOverGoal(old(registers)), hit, old(State()), old(moves), State(), moves, phase, reason)
    {
      hide TimeValid, StackValid, State, RanForth;
      var goal := OneStep;
      if IsCallOpcode(registers.op0) {
        goal := OverCall(registers.pc + 3, registers.pc + 3);
      } else if IsRstOpcode(registers.op0) {
        goal := OverCall(registers.pc + 1, registers.pc + 2);
      }
      var p, r := RunForward(goal);
      phase, reason := p, r;
    }

    /** Steps forward to after the RET that takes the stack above where it is. */
    method StepOut() returns (ghost phase: Phase, reason: BreakReason)
      requires Valid() && IsInStepBackMode()
      modifies this`historyIndex, this`registers, this`revDbgHistory, this`moves, remote`listFrames
      modifies reverseDbgStack, reverseDbgStack.pool`addr, reverseDbgStack.pool`stack
      ensures Inv(old(State())) && Valid() && phase != UnderWay
      ensures RanForth(OutOf(old(registers).sp), hit, old(State()), old(moves), State(), moves, phase, reason)
    {
      hide TimeValid, StackValid, State, RanForth;
      var startSP := registers.sp;
      var p, r := RunForward(OutOf(startSP));
      phase, reason := p, r;
    }

    /** One step back on the way to the previous breakpoint. */
    method ReverseContinueStep() returns (phase: Phase)
      requires Inv(State()) && TimeValid() && StackValid(State()) && Ready(State())
      modifies this`history, this`historyIndex, this`presentRegistersCache, this`registers, this`revDbgHistory,
               this`moves
      modifies reverseDbgStack, reverseDbgStack.pool`addr, reverseDbgStack.pool`stack
      ensures TimeValid() && StackValid(State()) && Ready(State())
      ensures State() == Prev(old(State())).0
      ensures phase == PhaseBack(StopsFor(ToBreakpoint, hit, Visible()), old(State()))
      ensures moves == if phase == AtEnd then old(moves) else Then(old(moves), Move.StepBack)
      ensures old(reverseDbgStack.pool) <= reverseDbgStack.pool
              && fresh(reverseDbgStack.pool - old(reverseDbgStack.pool))
      ensures historyIndex == old(historyIndex) + (if phase == AtEnd then 0 else 1) < |Visible()|
    {
      hide *;
      IndexInHistory();
      PhaseBackIs(StopsFor(ToBreakpoint, hit, Visible()), State());
      PrevMoves(State());
      BreakpointStops(hit, Visible(), historyIndex + 1);
      var currentLine := BackOnce();
      if currentLine.None? {
        return AtEnd;
      }
      // Check for a breakpoint.
      var stop := CheckPcBreakpoints();
      phase := if stop then Stopped else UnderWay;
    }

    lemma IndexInHistory()
      requires TimeValid()
      ensures Inv(State()) && -1 <= historyIndex < |Visible()|
    {
    }

    /** Steps back until a breakpoint is reached, or else to the oldest entry. */
    method RunBack() returns (phase: Phase)
      requires TimeValid() && StackValid(State()) && Ready(State())
      modifies this`history, this`historyIndex, this`presentRegistersCache, this`registers, this`revDbgHistory,
               this`moves
      modifies reverseDbgStack, reverseDbgStack.pool`addr, reverseDbgStack.pool`stack
      ensures Inv(old(State())) && TimeValid() && StackValid(State()) && phase != UnderWay
      ensures RanBack(hit, old(State()), old(moves), State(), moves, phase)
    {
      hide *;
      ghost var before := State();
      IndexInHistory();
      RanBackStart(hit, before, moves);
      phase := UnderWay;
      while phase == UnderWay
        invariant TimeValid() && StackValid(State()) && Ready(State())
        invariant RanBack(hit, before, old(moves), State(), moves, phase)
        invariant old(reverseDbgStack.pool) <= reverseDbgStack.pool
                  && fresh(reverseDbgStack.pool - old(reverseDbgStack.pool))
        decreases |Visible()| - historyIndex, phase == UnderWay
      {
        IndexInHistory();
        RanBackMore(hit, before, old(moves), State(), moves);
        phase := ReverseContinueStep();
      }
    }

    /** Goes back to the next breakpoint, or else to the oldest entry. */
    method ReverseContinue() returns (reason: BreakReason)
      requires Valid()
      modifies this`history, this`historyIndex, this`presentRegistersCache, this`registers, this`revDbgHistory,
               this`moves
      modifies reverseDbgStack, reverseDbgStack.pool`addr, reverseDbgStack.pool`stack
      modifies remote.listFrames`addr, remote.listFrames`stack
      ensures Inv(old(State())) && Valid() && (reason == BreakpointHit || reason == ReachedEnd)
      ensures RanBack(hit, old(State()), old(moves), State(), moves, if reason == BreakpointHit then Stopped else AtEnd)
    {
      hide TimeValid, StackValid, Ready, State, RanBack;
      PrepareReverseDbgStack();
      var phase := RunBack();
      reason := if phase == Stopped then BreakpointHit else ReachedEnd;
    }

    /** The virtual stack tracks the stack pointer, whatever way through the history
        has been taken, but for one word for each time that an LD SP,(nnnn) has been
        passed on the way forward. */
    lemma VirtualStackTracksSp()
      requires Valid() && IsInStepBackMode()
      requires RegularHistory(Lines(), remote.program.topOfStack)
      requires remote.program.topOfStack - emulator.sp <= 2 * MAX_STACK_ITEMS
      requires EmptyInterrupts(Lines(), FrameSizes(PresentFrames()), moves)
      ensures var drift := Drift(Lines(), FrameSizes(PresentFrames()), moves);
              && AccountsUpTo(reverseDbgStack.Shape(), registers, remote.program.topOfStack, drift)
              && (AccountsFor(reverseDbgStack.Shape(), registers, remote.program.topOfStack) <==> drift == 0)
    {
      hide Regular, Walk, AccountsFor, AccountsUpTo, EmptyInterrupts, FullCallStack, Drift;
      CallStackAccountsIff(remote.program, emulator, machineStack);
      WalkDrifts(Lines(), FrameSizes(PresentFrames()), moves, remote.program.topOfStack);
      WalkTracksSpIff(Lines(), FrameSizes(PresentFrames()), moves, remote.program.topOfStack);
    }
  }

  /** Where running forward has stopped, if no breakpoint did it, the goal has been reached. */
  lemma GoalIsReached(goal: Goal, hit: (int, Line) -> bool, s: TimeState, ms: Moves, t: TimeState, mt: Moves,
                      phase: Phase, reason: BreakReason)
    requires Inv(s) && Inv(t) && RanForth(goal, hit, s, ms, t, mt, phase, reason)
    requires phase == Stopped && reason == NoReason
    ensures 0 <= t.index < s.index < |t.history| && Reached(goal, t.history[t.index + 1], t.registers)
    ensures forall i :: t.index < i < s.index ==> !ReachedAt(goal, t.history, i)
  {
    hide ForthTimes, Reached;
    assert ReachedAt(goal, t.history, t.index);
    var stops := StopsFor(goal, hit, t.history);
    forall i | t.index < i < s.index
      ensures !ReachedAt(goal, t.history, i)
    {
      assert !At(stops, i);
    }
  }

  /** Without a breakpoint, stepping over a CALL stops right behind it, and stepping over an RST
      one or two bytes behind it; no entry in between is there. */
  lemma StepOverStopsBehind(hit: (int, Line) -> bool, s: TimeState, ms: Moves, t: TimeState, mt: Moves,
                            phase: Phase, reason: BreakReason)
    requires Inv(s) && Inv(t) && RanForth(StepOverGoal(s.registers), hit, s, ms, t, mt, phase, reason)
    requires phase == Stopped && reason == NoReason
    ensures StackOpOf(s.registers) == Call ==>
              t.registers.pc == s.registers.pc + 3
              && forall i :: t.index < i < s.index ==> t.history[i].pc != s.registers.pc + 3
    ensures StackOpOf(s.registers) == Rst ==>
              s.registers.pc + 1 <= t.registers.pc <= s.registers.pc + 2
              && forall i :: t.index < i < s.index ==>
                   !(s.registers.pc + 1 <= t.history[i].pc <= s.registers.pc + 2)
    ensures StackOpOf(s.registers) in {Ret, Pop, LoadSpIndirect, IncSp, DecSp} ==> t.index == s.index - 1
  {
    hide RanForth, StackOpOf, Inv, IsCallOpcode, IsRstOpcode;
    var goal := StepOverGoal(s.registers);
    GoalIsReached(goal, hit, s, ms, t, mt, phase, reason);
    OpcodesAreApart(s.registers);
    forall i | t.index < i < s.index
      ensures goal.OverCall? ==> t.history[i].pc != goal.pc0 && t.history[i].pc != goal.pc1
      ensures !goal.OneStep?
    {
      assert !ReachedAt(goal, t.history, i);
    }
    assert t.index < t.index + 1 < s.index ==> !goal.OneStep?;
  }

  lemma OpcodesAreApart(l: Line)
    ensures StackOpOf(l) == Call ==> IsCallOpcode(l.op0)
    ensures StackOpOf(l) == Rst ==> IsRstOpcode(l.op0) && !IsCallOpcode(l.op0)
    ensures StackOpOf(l) in {Ret, Pop, LoadSpIndirect, IncSp, DecSp} ==> !IsCallOpcode(l.op0) && !IsRstOpcode(l.op0)
  {
    hide Condition;
  }

  /** Without a breakpoint, stepping out stops behind a RET with SP above where it was; there is
      no such place before. In a regular history SP is then as the RET has left it, or an
      interrupt came right behind it. */
  lemma StepOutStopsAbove(hit: (int, Line) -> bool, s: TimeState, ms: Moves, t: TimeState, mt: Moves,
                          phase: Phase, reason: BreakReason, top: int)
    requires Inv(s) && Inv(t) && RanForth(OutOf(s.registers.sp), hit, s, ms, t, mt, phase, reason)
    requires phase == Stopped && reason == NoReason && RegularHistory(t.history, top)
    ensures 0 <= t.index < s.index < |t.history| && StackOpOf(t.history[t.index + 1]) == Ret
    ensures var before := t.history[t.index + 1].sp;
            t.registers.sp > s.registers.sp && (t.registers.sp == before + 2 || t.registers.sp == before)
    ensures forall i :: t.index < i < s.index ==> !ReturnsAbove(t.history, i, s.registers.sp)
  {
    hide RanForth, StackOpOf, IsRetAndExecuted;
    var goal := OutOf(s.registers.sp);
    GoalIsReached(goal, hit, s, ms, t, mt, phase, reason);
    OpcodeTestsAreExact(t.history[t.index + 1]);
    assert Regular(t.history[t.index + 1], t.history[t.index], top);
    forall i | t.index < i < s.index
      ensures !ReturnsAbove(t.history, i, s.registers.sp)
    {
      assert !ReachedAt(goal, t.history, i);
      OpcodeTestsAreExact(t.history[i + 1]);
    }
  }

  /** Entry `i` lies behind a RET, with SP above `sp`. */
  predicate ReturnsAbove(h: seq<Line>, i: int, sp: int) {
    0 <= i < |h| - 1 && StackOpOf(h[i + 1]) == Ret && h[i].sp > sp
  }

  /** Going forward over lines without an LD SP,(nnnn) leaves the drift as it is. */
  lemma {:induction false} DriftStays(h: seq<Line>, present: seq<nat>, moves: Moves, n: nat)
    requires |h| > 0 && n < Walk(h, present, moves).index
    requires forall i :: 0 < i < |h| && Walk(h, present, moves).index - n < i <= Walk(h, present, moves).index ==>
               !LoadsSpIndirect(h[i])
    requires EmptyInterrupts(h, present, moves)
    ensures var after := Again(moves, Move.StepForward, n);
            && Walk(h, present, after).index == Walk(h, present, moves).index - n
            && Drift(h, present, after) == Drift(h, present, moves) && EmptyInterrupts(h, present, after)
  {
    hide Forward, ReverseStack.Back, StackOpOf, InterruptFound;
    if n > 0 {
      DriftStays(h, present, moves, n - 1);
    }
  }

  /** Stepping over a call stops by the program counter alone. Where it stops, SP is where
      it was if and only if the virtual stack is as deep as it was. */
  lemma StepOverIsLevelIff(h: seq<Line>, present: seq<nat>, moves: Moves, n: nat, top: int)
    requires RegularHistory(h, top) && AccountsFor(present, h[0], top) && EmptyInterrupts(h, present, moves)
    requires n < Walk(h, present, moves).index
    requires forall i :: 0 < i < |h| && Walk(h, present, moves).index - n < i <= Walk(h, present, moves).index ==>
               !LoadsSpIndirect(h[i])
    ensures var s, t := Walk(h, present, moves), Walk(h, present, Again(moves, Move.StepForward, n));
            && t.index == s.index - n
            && (h[t.index].sp == h[s.index].sp <==> Depth(t.sizes) == Depth(s.sizes))
            && (h[t.index].sp < h[s.index].sp <==> Depth(t.sizes) > Depth(s.sizes))
  {
    hide Walk, Drift, EmptyInterrupts, Depth, LoadsSpIndirect, Regular;
    DriftStays(h, present, moves, n);
    WalkDrifts(h, present, moves, top);
    WalkDrifts(h, present, Again(moves, Move.StepForward, n), top);
  }

  function PlainLine(pc: Word, sp: Word, op0: bv8, flags: bv8): Line {
    Line(pc, pc + 0x10000, sp, flags, 0, 0, 0, 0, 0, 0, op0, 0, 0, 0, 0)
  }

  /** A routine at 8000h that calls itself: RET Z, CALL 8000h, RET. */
  function RecursiveRun(): (h: seq<Line>)
    ensures |h| == 6
  {
    [PlainLine(0x8004, 0xF000, 0xC9, FLAG_Z), PlainLine(0x8004, 0xEFFE, 0xC9, FLAG_Z),
     PlainLine(0x8000, 0xEFFC, 0xC8, FLAG_Z), PlainLine(0x8001, 0xEFFE, 0xCD, 0),
     PlainLine(0x8000, 0xEFFE, 0xC8, 0), PlainLine(0x8001, 0xF000, 0xCD, 0)]
  }

  lemma RecursiveRunIsRegular(i: nat)
    requires 0 < i < 6
    ensures Regular(RecursiveRun()[i], RecursiveRun()[i - 1], 0xF000)
  {
    var cur := RecursiveRun()[i];
    assert cur.op0 == 0xC9 || cur.op0 == 0xC8 || cur.op0 == 0xCD;
  }

  /** Stepping over the outer call of a recursive routine stops behind the inner one. */
  lemma StepOverStopsInside()
    ensures RegularHistory(RecursiveRun(), 0xF000)
    ensures var h := RecursiveRun();
            var goal := OverCall(0x8004, 0x8004);
            && StepOverGoal(h[5]) == goal
            && !ReachedAt(goal, h, 4) && !ReachedAt(goal, h, 3) && !ReachedAt(goal, h, 2)
            && ReachedAt(goal, h, 1) && h[1].sp < h[5].sp
            && ReachedAt(goal, h, 0) && h[0].sp == h[5].sp
  {
    hide Regular;
    forall i | 0 < i < 6
      ensures Regular(RecursiveRun()[i], RecursiveRun()[i - 1], 0xF000)
    {
      RecursiveRunIsRegular(i);
    }
    assert IsCallOpcode(0xCD);
  }

  lemma WalkOn(h: seq<Line>, present: seq<nat>, moves: Moves, m: Move)
    requires |h| > 0
    ensures Walk(h, present, Then(moves, m)) == MoveOn(h, present, Walk(h, present, moves), m)
  {
  }

  lemma WalkBackOn(emulator: Line, present: seq<nat>, moves: Moves, s: TimeState)
    requires Inv(s) && Prev(s).1.Some? && (s.index == -1 ==> s.registers == emulator)
    requires Walk([emulator] + s.history, present, moves).index == s.index + 1
    ensures var t := Prev(s).0;
            && t.index == s.index + 1 && Prev(s).1 == Some(t.registers)
            && Walk([emulator] + s.history, present, Then(moves, Move.StepBack)) ==
               Spot(t.index + 1,
                    ReverseStack.Back(Walk([emulator] + s.history, present, moves).sizes, t.registers, s.registers))
  {
    hide ReverseStack.Back, Walk;
    WalkOn([emulator] + s.history, present, moves, Move.StepBack);
  }

  lemma WalkForwardOn(emulator: Line, present: seq<nat>, moves: Moves, s: TimeState)
    requires Inv(s) && s.index > 0
    requires Walk([emulator] + s.history, present, moves).index == s.index + 1
    ensures var t := Next(s).0;
            && t.index == s.index - 1 && Next(s).1 == Some(t.registers)
            && Walk([emulator] + s.history, present, Then(moves, Move.StepForward)) ==
               Spot(t.index + 1, Forward(Walk([emulator] + s.history, present, moves).sizes, s.registers, t.registers))
  {
    hide Forward, Walk;
    WalkOn([emulator] + s.history, present, moves, Move.StepForward);
  }

  lemma StackIsUnique(p: Program, sp: Word, s: seq<Word>, t: seq<Word>)
    requires IsStack(p, sp, s) && IsStack(p, sp, t)
    ensures s == t
  {
    hide WordAt, StackLength, Top64k, UsedDepth;
  }
}
