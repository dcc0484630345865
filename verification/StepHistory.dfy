/** The lite history: the instructions that have been stepped over, without what a
    called subroutine did. */
module StepHistory {
  import opened Options
  import opened CallStack
  import opened Z80Stack
  import opened TimeTravel
  import opened TimeRuns

  /** A recorded call stack is only read any more, so that it is a value here. */
  type RecordedCallStack = s: seq<Frame> | s != [] witness [Frame(0, 0, Unknown, [])]

  /** A breakpoint fires at entry `i`. The long program counter of an entry is that of
      the innermost call. */
  predicate StopsAt(hit: (int, Line) -> bool, history: seq<Line>, callStacks: seq<RecordedCallStack>, i: int) {
    0 <= i < |history| && i < |callStacks| && hit(callStacks[i][|callStacks[i]| - 1].addr, history[i])
  }

  /** Where the breakpoints stop. */
  function Breakpoints(hit: (int, Line) -> bool, history: seq<Line>, callStacks: seq<RecordedCallStack>): (r: seq<bool>)
    ensures forall i {:trigger At(r, i)} :: At(r, i) <==> StopsAt(hit, history, callStacks, i)
  {
    seq(|history|, i => StopsAt(hit, history, callStacks, i))
  }

  /** As long as every call stack was recorded at the PC of its entry, breakpoints stop exactly
      where one fires at the PC of an entry. */
  lemma StopsAtPc(hit: (int, Line) -> bool, history: seq<Line>, callStacks: seq<RecordedCallStack>, i: int)
    requires |history| == |callStacks| && 0 <= i < |history|
    requires forall j {:trigger history[j]} :: 0 <= j < |history| ==>
               callStacks[j][|callStacks[j]| - 1].addr == history[j].pcLong
    ensures At(Breakpoints(hit, history, callStacks), i) <==> hit(history[i].pcLong, history[i])
  {
    assert callStacks[i][|callStacks[i]| - 1].addr == history[i].pcLong;
  }

  ghost predicate AreRecentEntries(history: seq<Line>, callStacks: seq<RecordedCallStack>,
                                   recorded: seq<(Line, RecordedCallStack)>, maxSize: nat) {
    && |history| == |callStacks| == (if |recorded| < maxSize then |recorded| else maxSize)
    && forall i :: 0 <= i < |history| ==> recorded[|recorded| - 1 - i] == (history[i], callStacks[i])
  }

  /** The list has got a new first element; its last one was dropped, but only if there was no
      room. */
  ghost predicate GotNewest<T>(before: seq<T>, x: T, after: seq<T>, maxSize: nat) {
    && |after| == (if |before| < maxSize then |before| + 1 else maxSize)
    && (maxSize > 0 ==> after[0] == x && after[1..] <= before)
  }

  lemma NewestSize<T>(before: seq<T>, x: T, after: seq<T>, maxSize: nat)
    requires GotNewest(before, x, after, maxSize)
    ensures |after| == if |before| < maxSize then |before| + 1 else maxSize
  {
  }

  lemma OneMoreEntry(history: seq<Line>, callStacks: seq<RecordedCallStack>, recorded: seq<(Line, RecordedCallStack)>,
                     line: Line, callStack: RecordedCallStack,
                     history': seq<Line>, callStacks': seq<RecordedCallStack>, maxSize: nat)
    requires AreRecentEntries(history, callStacks, recorded, maxSize)
    requires GotNewest(history, line, history', maxSize) && GotNewest(callStacks, callStack, callStacks', maxSize)
    ensures AreRecentEntries(history', callStacks', recorded + [(line, callStack)], maxSize)
  {
    var more := recorded + [(line, callStack)];
    forall i | 0 <= i < |history'|
      ensures more[|more| - 1 - i] == (history'[i], callStacks'[i])
    {
      if i > 0 {
        assert history'[1..][i - 1] == history[i - 1] && callStacks'[1..][i - 1] == callStacks[i - 1];
      }
    }
  }

  class StepHistoryClass {
    const maxSize: nat
    /** The breakpoints: whether the one at a long address, if any, fires with the
        given registers. */
    const hit: (int, Line) -> bool

    /** The youngest entry comes first. */
    var history: seq<Line>
    var historyIndex: int
    var presentRegistersCache: Option<Line>
    var revDbgHistory: seq<int>
    var liteCallStackHistory: seq<RecordedCallStack>
    /** The registers that the debugger shows. */
    var registers: Line
    /** Everything that has ever been recorded, the oldest first. */
    ghost var recorded: seq<(Line, RecordedCallStack)>

    constructor (maxSize: nat, hit: (int, Line) -> bool, registers: Line)
      ensures Valid() && this.maxSize == maxSize && this.hit == hit
      ensures State() == TimeState([], -1, registers, None, [])
    {
      this.maxSize, this.hit, this.registers := maxSize, hit, registers;
      history, historyIndex, presentRegistersCache := [], -1, None;
      revDbgHistory, liteCallStackHistory, recorded := [], [], [];
    }

    ghost function State(): (s: TimeState)
      reads this
      ensures s.index == historyIndex && s.history == history && s.registers == registers
    {
      TimeState(history, historyIndex, registers, presentRegistersCache, revDbgHistory)
    }

    ghost predicate Valid()
      reads this
    {
      Inv(State()) && EntriesAreRecent() && |history| <= maxSize
    }

    /** Entry `i` and its call stack are those that have been recorded together, the youngest
        ones first; as many as there may be. */
    ghost predicate EntriesAreRecent()
      reads this`history, this`liteCallStackHistory, this`recorded
    {
      AreRecentEntries(history, liteCallStackHistory, recorded, maxSize)
    }

    predicate IsInStepBackMode()
      reads this
    {
      historyIndex >= 0
    }

    lemma InvBounds()
      requires Valid()
      ensures -1 <= historyIndex < |history|
    {
    }

    method GetPrevRegisters() returns (line: Option<Line>)
      requires Valid()
      modifies this`historyIndex
      ensures line.Some? <==> old(historyIndex) + 1 < |history|
      ensures historyIndex == old(historyIndex) + if line.Some? then 1 else 0
      ensures line.Some? ==> line.value == history[historyIndex]
    {
      var index := historyIndex + 1;
      assert index >= 0;
      if index >= |history| {
        return None;
      }
      historyIndex := index;
      line := Some(history[index]);
    }

    method GetNextRegisters() returns (line: Option<Line>)
      requires Valid() && IsInStepBackMode()
      modifies this`historyIndex
      ensures historyIndex == old(historyIndex) - 1
      ensures line == if historyIndex >= 0 then Some(history[historyIndex]) else None
    {
      assert historyIndex >= 0;
      historyIndex := historyIndex - 1;
      line := if historyIndex >= 0 then Some(history[historyIndex]) else None;
    }

    method RevDbgPrev() returns (line: Option<Line>)
      requires Valid()
      modifies this`historyIndex, this`presentRegistersCache, this`registers, this`revDbgHistory
      ensures Valid() && (State(), line) == Prev(old(State()))
      ensures historyIndex == old(historyIndex) + (if line.Some? then 1 else 0) < |history|
      ensures line.None? ==> historyIndex == |history| - 1
    {
      PrevKeepsInv(State());
      if !IsInStepBackMode() {
        // Store the current registers.
        presentRegistersCache := Some(registers);
      }
      line := GetPrevRegisters();
      if line.Some? {
        registers := line.value;
        // Add to the history for the decoration.
        revDbgHistory := revDbgHistory + [registers.pcLong];
      }
    }

    method RevDbgNext() returns (line: Option<Line>)
      requires Valid() && IsInStepBackMode()
      modifies this`historyIndex, this`registers, this`revDbgHistory
      ensures Valid() && (State(), line) == Next(old(State()))
      ensures historyIndex == old(historyIndex) - 1 < |history|
      ensures line.Some? <==> historyIndex >= 0
    {
      NextKeepsInv(State());
      line := GetNextRegisters();
      // At the start the registers get their real value back.
      registers := if line.Some? then line.value else presentRegistersCache.value;
      // Remove one address from the history.
      revDbgHistory := revDbgHistory[..|revDbgHistory| - 1];
    }

    method PushHistoryInfo(line: Line)
      requires Inv(State()) && !IsInStepBackMode() && |history| <= maxSize
      modifies this`history
      ensures Inv(State()) && State() == Remember(old(State()), line, maxSize)
      ensures GotNewest(old(history), line, history, maxSize)
    {
      history := [line] + history;
      if |history| > maxSize {
        history := history[..|history| - 1];
      }
    }

    /** Is called after `PushHistoryInfo`. */
    method PushCallStack(callStack: RecordedCallStack)
      requires |history| == if |liteCallStackHistory| < maxSize then |liteCallStackHistory| + 1 else maxSize
      requires |liteCallStackHistory| <= maxSize
      modifies this`liteCallStackHistory
      ensures |liteCallStackHistory| == |history|
      ensures GotNewest(old(liteCallStackHistory), callStack, liteCallStackHistory, maxSize)
    {
      liteCallStackHistory := [callStack] + liteCallStackHistory;
      if |liteCallStackHistory| > maxSize {
        liteCallStackHistory := liteCallStackHistory[..|liteCallStackHistory| - 1];
      }
      assert |liteCallStackHistory| == |history|;
    }

    /** Remembers the present before an instruction is really executed. The new entry comes
        first; the last one is dropped, but only if there is no room. */
    method Record(callStack: RecordedCallStack)
      requires Valid() && !IsInStepBackMode()
      modifies this`history, this`liteCallStackHistory, this`recorded
      ensures Valid() && State() == Remember(old(State()), registers, maxSize)
      ensures recorded == old(recorded) + [(registers, callStack)]
      ensures GotNewest(old(history), registers, history, maxSize)
      ensures GotNewest(old(liteCallStackHistory), callStack, liteCallStackHistory, maxSize)
    {
      hide GotNewest, Inv;
      HistorySize();
      PushHistoryInfo(registers);
      NewestSize(old(history), registers, history, maxSize);
      PushCallStack(callStack);
      OneMoreEntry(old(history), old(liteCallStackHistory), recorded, registers, callStack,
                   history, liteCallStackHistory, maxSize);
      recorded := recorded + [(registers, callStack)];
    }

    lemma HistorySize()
      requires Valid()
      ensures |history| == |liteCallStackHistory| <= maxSize
    {
    }

    method CheckPcBreakpoints() returns (stop: bool)
      requires Valid() && IsInStepBackMode()
      ensures stop == StopsAt(hit, history, liteCallStackHistory, historyIndex)
    {
      var callStack := liteCallStackHistory[historyIndex];
      assert |callStack| > 0;
      stop := hit(callStack[|callStack| - 1].addr, registers);
    }

    /** One step forward on the way to the next breakpoint. */
    method ContinueStep() returns (phase: Phase)
      requires Valid() && IsInStepBackMode()
      modifies this`historyIndex, this`registers, this`revDbgHistory
      ensures Inv(old(State())) && Valid() && State() == Next(old(State())).0
      ensures phase == PhaseForth(Breakpoints(hit, history, liteCallStackHistory), old(State()))
      ensures historyIndex == old(historyIndex) - 1 && (phase == AtEnd <==> !IsInStepBackMode())
    {
      hide Inv, Next;
      var nextLine := RevDbgNext();
      if nextLine.None? {
        return AtEnd;
      }
      // Check for a breakpoint.
      var stop := CheckPcBreakpoints();
      phase := if stop then Stopped else UnderWay;
    }

    /** Continues to the next breakpoint on the way forward, or else to the present;
        there the registers are read from the emulator again. */
    method Continue(emulator: Line) returns (reason: BreakReason)
      requires Valid() && IsInStepBackMode()
      modifies this`historyIndex, this`registers, this`revDbgHistory
      ensures Inv(old(State())) && Valid() && (reason == BreakpointHit || reason == ReachedStart)
      ensures reason == BreakpointHit ==>
                WentForth(Breakpoints(hit, history, liteCallStackHistory), old(State()), State(), Stopped)
      ensures reason == ReachedStart ==> registers == emulator && presentRegistersCache.Some?
      ensures reason == ReachedStart ==>
                WentForth(Breakpoints(hit, history, liteCallStackHistory), old(State()),
                          State().(registers := presentRegistersCache.value), AtEnd)
    {
      hide Inv, Next, WentForth, Breakpoints;
      ghost var before, stops := State(), Breakpoints(hit, history, liteCallStackHistory);
      var phase := UnderWay;
      StartForth(stops, before);
      while phase == UnderWay
        invariant Valid() && WentForth(stops, before, State(), phase)
        invariant phase == AtEnd <==> !IsInStepBackMode()
        decreases historyIndex, phase == UnderWay
      {
        WentForthMore(stops, before, State());
        phase := ContinueStep();
      }
      ArrivedForth(stops, before, State(), phase);
      reason := BreakpointHit;
      if phase == AtEnd {
        registers := emulator;
        reason := ReachedStart;
      }
    }

    /** One step back on the way to the previous breakpoint. */
    method ReverseContinueStep() returns (phase: Phase)
      requires Valid()
      modifies this`historyIndex, this`presentRegistersCache, this`registers, this`revDbgHistory
      ensures Valid() && State() == Prev(old(State())).0
      ensures phase == PhaseBack(Breakpoints(hit, history, liteCallStackHistory), old(State()))
      ensures historyIndex == old(historyIndex) + (if phase == AtEnd then 0 else 1) < |history|
    {
      hide Inv, Prev;
      PresentRegisters(State(), registers);
      var currentLine := RevDbgPrev();
      if currentLine.None? {
        return AtEnd;
      }
      // Check for a breakpoint.
      var stop := CheckPcBreakpoints();
      phase := if stop then Stopped else UnderWay;
    }

    /** Goes back to the next breakpoint, or else to the oldest entry. */
    method ReverseContinue() returns (reason: BreakReason)
      requires Valid()
      modifies this`historyIndex, this`presentRegistersCache, this`registers, this`revDbgHistory
      ensures Inv(old(State())) && Valid() && (reason == BreakpointHit || reason == ReachedEnd)
      ensures WentBack(Breakpoints(hit, history, liteCallStackHistory), old(State()), State(),
                       if reason == BreakpointHit then Stopped else AtEnd)
    {
      hide Inv, Prev, WentBack, Breakpoints;
      ghost var before, stops := State(), Breakpoints(hit, history, liteCallStackHistory);
      PresentRegisters(before, registers);
      StartBack(stops, before);
      var phase := UnderWay;
      while phase == UnderWay
        invariant Valid() && WentBack(stops, before, State(), phase)
        invariant phase == UnderWay ==> historyIndex < |history|
        decreases |history| - historyIndex, phase == UnderWay
      {
        InvBounds();
        WentBackMore(stops, before, State());
        phase := ReverseContinueStep();
      }
      reason := if phase == Stopped then BreakpointHit else ReachedEnd;
    }

    method StepOver() returns (reason: BreakReason)
      requires Valid() && IsInStepBackMode()
      modifies this`historyIndex, this`registers, this`revDbgHistory
      ensures Valid() && State() == Next(old(State())).0
      ensures reason == if old(historyIndex) == 0 then ReachedStart else NoReason
    {
      var currentLine := RevDbgNext();
      reason := if currentLine.None? then ReachedStart else NoReason;
    }

    method StepBack() returns (reason: BreakReason)
      requires Valid()
      modifies this`historyIndex, this`presentRegistersCache, this`registers, this`revDbgHistory
      ensures Valid() && State() == Prev(old(State())).0
      ensures reason == if old(historyIndex) + 1 >= |history| then ReachedEnd else NoReason
    {
      var currentLine := RevDbgPrev();
      reason := if currentLine.None? then ReachedEnd else NoReason;
    }
  }
}
