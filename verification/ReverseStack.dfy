/** The virtual call stack of reverse debugging on values: every frame is the number
    of words that are pushed on it. How the stack changes on a step back or forward,
    and that it thereby follows the stack pointer. */
module ReverseStack {
  import opened Options
  import opened Z80Stack

  function Min(a: int, b: int): int { if a <= b then a else b }

  function Sum(sizes: seq<nat>): nat {
    if sizes == [] then 0 else Sum(sizes[..|sizes| - 1]) + sizes[|sizes| - 1]
  }

  /** The words of the machine stack that the frames account for: one for each frame
      above the main one, and one for each pushed word. */
  function Depth(sizes: seq<nat>): int {
    |sizes| - 1 + Sum(sizes)
  }

  function Top(sizes: seq<nat>): nat
    requires |sizes| > 0
  {
    sizes[|sizes| - 1]
  }

  function SetTop(sizes: seq<nat>, n: nat): (r: seq<nat>)
    requires |sizes| > 0
    ensures |r| == |sizes|
  {
    sizes[..|sizes| - 1] + [n]
  }

  /** Takes `n` words from the top: the words of the last frame, then the frame itself,
      and so on. When `keepMain` is set, the main frame stays. */
  function Remove(sizes: seq<nat>, n: nat, keepMain: bool): (r: seq<nat>)
    ensures keepMain && |sizes| > 0 ==> |r| > 0
    decreases n
  {
    if n == 0 || sizes == [] then sizes
    else if Top(sizes) > 0 then Remove(SetTop(sizes, Top(sizes) - 1), n - 1, keepMain)
    else if keepMain && |sizes| == 1 then sizes
    else Remove(sizes[..|sizes| - 1], n - 1, keepMain)
  }

  /** Words and frames are taken from the top: below the last frame that is left, nothing
      changes. */
  lemma {:induction false} RemoveTakesFromTop(sizes: seq<nat>, n: nat, keepMain: bool)
    ensures var r := Remove(sizes, n, keepMain);
            && |r| <= |sizes| && (r != [] ==> r[|r| - 1] <= sizes[|r| - 1])
            && forall i :: 0 <= i < |r| - 1 ==> r[i] == sizes[i]
    decreases n
  {
    if n > 0 && sizes != [] {
      if Top(sizes) > 0 {
        RemoveTakesFromTop(SetTop(sizes, Top(sizes) - 1), n - 1, keepMain);
      } else if !(keepMain && |sizes| == 1) {
        RemoveTakesFromTop(sizes[..|sizes| - 1], n - 1, keepMain);
      }
    }
  }

  lemma RemoveWord(sizes: seq<nat>, n: nat, keepMain: bool)
    requires n > 0 && |sizes| > 0 && Top(sizes) > 0
    ensures Remove(sizes, n, keepMain) == Remove(SetTop(sizes, Top(sizes) - 1), n - 1, keepMain)
  {
  }

  lemma RemoveFrame(sizes: seq<nat>, n: nat, keepMain: bool)
    requires n > 0 && |sizes| > 0 && Top(sizes) == 0 && !(keepMain && |sizes| == 1)
    ensures Remove(sizes, n, keepMain) == Remove(sizes[..|sizes| - 1], n - 1, keepMain)
  {
  }

  lemma RemoveNothing(sizes: seq<nat>, n: nat, keepMain: bool)
    requires n == 0 || sizes == [] || (keepMain && |sizes| == 1 && Top(sizes) == 0)
    ensures Remove(sizes, n, keepMain) == sizes
  {
  }

  lemma SumSplit(sizes: seq<nat>, n: nat)
    ensures Sum(sizes + [n]) == Sum(sizes) + n
  {
    assert (sizes + [n])[..|sizes|] == sizes;
  }

  lemma DepthSetTop(sizes: seq<nat>, n: nat)
    requires |sizes| > 0
    ensures Depth(SetTop(sizes, n)) == Depth(sizes) + n - Top(sizes)
  {
    SumSplit(sizes[..|sizes| - 1], n);
  }

  lemma DepthPop(sizes: seq<nat>)
    requires |sizes| > 0
    ensures Depth(sizes) == Depth(sizes[..|sizes| - 1]) + 1 + Top(sizes)
    ensures |sizes| == 1 ==> Depth(sizes[..|sizes| - 1]) == -1
  {
  }

  lemma {:induction false} DepthRemove(sizes: seq<nat>, n: nat, keepMain: bool)
    requires |sizes| > 0
    ensures Depth(Remove(sizes, n, keepMain)) == Depth(sizes) - Min(Depth(sizes) + (if keepMain then 0 else 1), n)
    decreases n
  {
    hide Remove, Depth;
    DepthPop(sizes);
    DepthIsNatural(sizes);
    if n == 0 {
      RemoveNothing(sizes, n, keepMain);
    } else if Top(sizes) > 0 {
      RemoveWord(sizes, n, keepMain);
      DepthSetTop(sizes, Top(sizes) - 1);
      DepthRemove(SetTop(sizes, Top(sizes) - 1), n - 1, keepMain);
    } else if |sizes| > 1 {
      RemoveFrame(sizes, n, keepMain);
      DepthIsNatural(sizes[..|sizes| - 1]);
      DepthRemove(sizes[..|sizes| - 1], n - 1, keepMain);
    } else if keepMain {
      RemoveNothing(sizes, n, keepMain);
    } else {
      RemoveFrame(sizes, n, keepMain);
      RemoveNothing(sizes[..0], n - 1, keepMain);
    }
  }

  lemma DepthIsNatural(sizes: seq<nat>)
    requires |sizes| > 0
    ensures Depth(sizes) >= 0
  {
  }

  function Half(count: int): nat {
    if count > 0 then count / 2 else 0
  }

  /** Takes half of `count` bytes as words from the stack, or puts unknown words on the
      last frame if `count` is negative. */
  function Adjust(sizes: seq<nat>, count: int, keepMain: bool): (r: seq<nat>)
    requires |sizes| > 0
    ensures keepMain || count <= 0 ==> |r| > 0
  {
    if count > 0 then Remove(sizes, Half(count), keepMain) else SetTop(sizes, Top(sizes) + Half(-count))
  }

  lemma DepthAdjust(sizes: seq<nat>, count: int, keepMain: bool)
    requires |sizes| > 0
    ensures Depth(Adjust(sizes, count, keepMain)) ==
            Depth(sizes) + Half(-count) - Min(Depth(sizes) + (if keepMain then 0 else 1), Half(count))
  {
    hide Remove;
    DepthRemove(sizes, Half(count), keepMain);
    DepthSetTop(sizes, Top(sizes) + Half(-count));
  }

  // Stepping back from `prev` to the instruction before it, `cur`.

  /** The words that `cur` and a following interrupt pushed, as far as the debugger
      can tell; negative if the stack has shrunk. A popped word counts as being
      back already. */
  function BackCount(cur: Line, prev: Line): int {
    cur.sp + (if IsPop(cur) then 2 else 0) - prev.sp
  }

  /** `handleReverseDebugStackBack` */
  function Back(sizes: seq<nat>, cur: Line, prev: Line): (r: seq<nat>)
    ensures |r| > 0
  {
    var s := if sizes == [] then [0] else sizes;
    if IsRetAndExecuted(cur) then
      (if cur.sp + 2 != prev.sp then s[..|s| - 1] else s) + [0]
    else
      var t := Adjust(s, BackCount(cur, prev), true);
      if IsPop(cur) then SetTop(t, Top(t) + 1) else t
  }

  /** The depth follows the stack pointer from line `l` to line `m`. */
  predicate Follows(sizes: seq<nat>, l: Line, sizes': seq<nat>, m: Line) {
    2 * (Depth(sizes') - Depth(sizes)) == l.sp - m.sp
  }

  /** What a step back does to the depth, for any two lines. */
  lemma DepthBack(sizes: seq<nat>, cur: Line, prev: Line)
    requires |sizes| > 0
    ensures var d, count := Depth(sizes), BackCount(cur, prev);
            Depth(Back(sizes, cur, prev)) ==
            if IsRetAndExecuted(cur) then
              if prev.sp == cur.sp + 2 then d + 1 else d - Top(sizes)
            else
              d + Half(-count) - Min(d, Half(count)) + if IsPop(cur) then 1 else 0
  {
    hide IsRetAndExecuted, IsPop, Adjust;
    if IsRetAndExecuted(cur) {
      SumSplit(sizes, 0);
      SumSplit(sizes[..|sizes| - 1], 0);
    } else {
      DepthAdjust(sizes, BackCount(cur, prev), true);
      var t := Adjust(sizes, BackCount(cur, prev), true);
      DepthSetTop(t, Top(t) + 1);
    }
  }

  /** Exactly when a step back follows the stack pointer: after an executed RET, the
      stack pointer has increased by two, or the frame that is taken for an interrupt
      holds just the words to make up the difference (none, if it is an interrupt);
      after any other instruction, it has changed by an even amount and there are
      enough words to remove. */
  lemma BackFollowsIff(sizes: seq<nat>, cur: Line, prev: Line)
    requires |sizes| > 0
    ensures Follows(sizes, prev, Back(sizes, cur, prev), cur) <==>
            if IsRetAndExecuted(cur) then prev.sp == cur.sp + 2 || prev.sp == cur.sp - 2 * Top(sizes)
            else (cur.sp - prev.sp) % 2 == 0 && Half(BackCount(cur, prev)) <= Depth(sizes)
  {
    hide IsRetAndExecuted, IsPop, Back, Sum;
    DepthBack(sizes, cur, prev);
  }

  // Stepping forward over the instruction `cur` to the following one, `next`.

  predicate Pushes(cur: Line) {
    IsCallAndExecuted(cur) || IsRstOpcode(cur.op0) || PushedValue(cur).Some?
  }

  /** The stack pointer that is expected after `cur`. */
  function ExpectedSp(cur: Line): Option<int> {
    if Pushes(cur) then Some(cur.sp - 2)
    else if IsPop(cur) || IsRetAndExecuted(cur) then Some(cur.sp + 2)
    else CalcDirectSpChanges(cur, cur.sp)
  }

  predicate InterruptFound(cur: Line, next: Line) {
    match ExpectedSp(cur)
    case Some(sp) => next.sp == sp - 2
    case None => next.pcLong != cur.pc + 4
  }

  /** The words that `cur` takes from the stack. Note that an expected stack pointer
      of 0 is taken for an unknown one. */
  function ForwardCount(cur: Line, next: Line): int {
    var sp := if Pushes(cur) then cur.sp - 2 else cur.sp;
    var expected := ExpectedSp(cur);
    (if expected.Some? && expected.value != 0 then expected.value else next.sp) - sp
  }

  /** What `cur` puts on the stack itself. */
  function Pushed(s: seq<nat>, cur: Line): (r: seq<nat>)
    requires |s| > 0
    ensures |r| > 0
  {
    if IsCallAndExecuted(cur) || IsRstOpcode(cur.op0) then s + [0]
    else if PushedValue(cur).Some? then SetTop(s, Top(s) + 1)
    else s
  }

  /** `handleReverseDebugStackForward` */
  function Forward(sizes: seq<nat>, cur: Line, next: Line): (r: seq<nat>)
    ensures |r| > 0
  {
    var s := Pushed(if sizes == [] then [0] else sizes, cur);
    var t := Adjust(s, ForwardCount(cur, next), false);
    if InterruptFound(cur, next) then t + [0]
    else if t == [] then [0]
    else t
  }

  /** The next line is what the instruction, possibly followed by an interrupt, leads
      to; after LD SP,(nnnn) the program counter is all there is to go by. */
  predicate Expected(cur: Line, next: Line) {
    match ExpectedSp(cur)
    case Some(sp) => next.sp == sp || next.sp == sp - 2
    case None => next.pcLong == cur.pc + 4
  }

  lemma DepthPushed(sizes: seq<nat>, cur: Line)
    requires |sizes| > 0
    ensures Depth(Pushed(sizes, cur)) == Depth(sizes) + if Pushes(cur) then 1 else 0
  {
    SumSplit(sizes, 0);
    DepthSetTop(sizes, Top(sizes) + 1);
  }

  /** What a step forward does to the depth, for any two lines. */
  lemma DepthForward(sizes: seq<nat>, cur: Line, next: Line)
    requires |sizes| > 0
    ensures var count := ForwardCount(cur, next);
            var d := Depth(sizes) + if Pushes(cur) then 1 else 0;
            var r := d + Half(-count) - Min(d + 1, Half(count));
            Depth(Forward(sizes, cur, next)) == if InterruptFound(cur, next) then r + 1 else if r == -1 then 0 else r
  {
    hide Pushes, ExpectedSp, CalcDirectSpChanges, IsPop, IsRetAndExecuted, Adjust, Pushed, InterruptFound, ForwardCount;
    var s := Pushed(sizes, cur);
    DepthPushed(sizes, cur);
    DepthAdjust(s, ForwardCount(cur, next), false);
    var t := Adjust(s, ForwardCount(cur, next), false);
    SumSplit(t, 0);
    assert t == [] ==> Depth(t) == -1;
  }

  /** Exactly when a step forward follows the stack pointer. If the frames run out of
      words, only the empty main frame is left. Otherwise the next line has to be the
      expected one (with an expected stack pointer of 0, which counts as unknown, any
      line will do), unless the number of bytes to take is odd: then half of it is
      rounded towards zero, and only a line that is off by that byte follows. */
  lemma ForwardFollowsIff(sizes: seq<nat>, cur: Line, next: Line)
    requires |sizes| > 0
    ensures var count, expected := ForwardCount(cur, next), ExpectedSp(cur);
            Follows(sizes, cur, Forward(sizes, cur, next), next) <==>
            if Half(count) > Depth(Pushed(sizes, cur)) then next.sp == cur.sp + 2 * Depth(sizes)
            else if count % 2 != 0 then
              expected.Some? && expected.value != 0 && next.sp == expected.value - (if count > 0 then 1 else -1)
            else expected == Some(0) || Expected(cur, next)
  {
    hide Pushes, CalcDirectSpChanges, IsPop, IsRetAndExecuted, Forward, Pushed, Sum;
    DepthPushed(sizes, cur);
    DepthForward(sizes, cur, next);
  }

  predicate LoadsSpIndirect(l: Line) {
    StackOpOf(l) == LoadSpIndirect
  }

  /** LD SP,(nnnn) is the exception, as its stack pointer cannot be predicted: the
      debugger looks for an interrupt by the program counter instead. It compares a
      long address, whose bank number starts at 1, with the 64K address behind the
      instruction, so that it finds an interrupt, and the frames end up one too deep,
      unless the instruction ends at the very end of the 64K and bank 0 is mapped
      to address 0. */
  lemma LoadSpIndirectIsOff(sizes: seq<nat>, cur: Line, next: Line)
    requires |sizes| > 0 && LoadsSpIndirect(cur)
    ensures InterruptFound(cur, next) <==> next.pcLong != cur.pc + 4
    ensures next.pcLong >= 0x10000 && !InterruptFound(cur, next) ==> cur.pc >= 0xFFFC && next.pcLong < 0x10004
    ensures (next.sp - cur.sp) % 2 == 0 && Half(next.sp - cur.sp) <= Depth(sizes) ==>
              2 * (Depth(Forward(sizes, cur, next)) - Depth(sizes)) ==
              cur.sp - next.sp + if InterruptFound(cur, next) then 2 else 0
  {
    hide IsCallAndExecuted, IsRetAndExecuted, IsPop, IsRstOpcode, PushedValue, CalcDirectSpChanges, Forward, Sum;
    ExpectedSpIsExact(cur);
    OpcodeTestsAreExact(cur);
    DepthForward(sizes, cur, next);
  }

  /** The debugger expects what the instruction set says. */
  lemma ExpectedSpIsExact(l: Line)
    ensures ExpectedSp(l) == SpAfter(l)
  {
    hide IsCallAndExecuted, IsRetAndExecuted, IsPop, IsRstOpcode, PushedValue, Condition;
    OpcodeTestsAreExact(l);
  }

  /** An interrupt is found exactly if SP is one word below what the instruction set makes it;
      where that cannot be known, if the long PC is not that of the next instruction. */
  lemma InterruptFoundIff(cur: Line, next: Line)
    ensures InterruptFound(cur, next) <==>
            match SpAfter(cur)
            case Some(sp) => next.sp == sp - 2
            case None => next.pcLong != cur.pc + 4
  {
    hide ExpectedSp, SpAfter;
    ExpectedSpIsExact(cur);
  }

  // Walking back and forth through a history. Line 0 holds the present registers,
  // higher lines are older.

  datatype Move = StepBack | StepForward

  /** The moves since the start, the last one outermost. */
  datatype Moves = NoMoves | Then(before: Moves, last: Move)

  /** The current line, and the frames of the virtual stack. */
  datatype Spot = Spot(index: nat, sizes: seq<nat>)

  /** A step back stays at the oldest line; a step forward that reaches the present
      fetches the real call stack again. */
  function MoveOn(h: seq<Line>, present: seq<nat>, s: Spot, m: Move): (t: Spot)
    requires s.index < |h|
    ensures t.index < |h|
  {
    match m
    case StepBack =>
      if s.index + 1 < |h| then Spot(s.index + 1, Back(s.sizes, h[s.index + 1], h[s.index])) else s
    case StepForward =>
      if s.index <= 1 then Spot(0, present) else Spot(s.index - 1, Forward(s.sizes, h[s.index], h[s.index - 1]))
  }

  function Walk(h: seq<Line>, present: seq<nat>, moves: Moves): (t: Spot)
    requires |h| > 0
    ensures t.index < |h|
  {
    if moves.NoMoves? then Spot(0, present)
    else MoveOn(h, present, Walk(h, present, moves.before), moves.last)
  }

  /** `next` was recorded after `cur`: the stack pointer is what the instruction made
      it, or an interrupt has pushed one more word. It stays below the top of the
      stack, and moves by whole words. */
  predicate Regular(cur: Line, next: Line, top: int) {
    && cur.sp <= top && (top - cur.sp) % 2 == 0
    && next.sp <= top && (top - next.sp) % 2 == 0
    && match SpAfter(cur)
       case Some(sp) => sp <= top && (next.sp == sp || next.sp == sp - 2)
       case None => true
  }

  predicate RegularHistory(h: seq<Line>, top: int) {
    |h| > 0 && h[0].sp <= top && (top - h[0].sp) % 2 == 0 && forall i :: 0 < i < |h| ==> Regular(h[i], h[i - 1], top)
  }

  /** Whenever the walk goes back over a RET that was followed by an interrupt, the
      frame of the interrupt holds no words. */
  predicate EmptyInterrupts(h: seq<Line>, present: seq<nat>, moves: Moves)
    requires |h| > 0
  {
    if moves.NoMoves? then true else
      var s := Walk(h, present, moves.before);
      && EmptyInterrupts(h, present, moves.before)
      && (moves.last == StepForward || s.index + 1 >= |h| || !InterruptedRet(h[s.index + 1], h[s.index])
          || (s.sizes != [] && Top(s.sizes) == 0))
  }

  predicate InterruptedRet(cur: Line, prev: Line) {
    IsRetAndExecuted(cur) && prev.sp != cur.sp + 2
  }

  /** An LD SP,(nnnn) that is taken for an interrupted one on the way forward. */
  predicate MistakenLoad(cur: Line, next: Line) {
    LoadsSpIndirect(cur) && InterruptFound(cur, next)
  }

  /** How often the walk has gone forward over an LD SP,(nnnn) since it last was at
      the present. */
  function Drift(h: seq<Line>, present: seq<nat>, moves: Moves): nat
    requires |h| > 0
  {
    if moves.NoMoves? then 0 else
      var i := Walk(h, present, moves.before).index;
      if moves.last == StepBack then Drift(h, present, moves.before)
      else if i <= 1 then 0
      else Drift(h, present, moves.before) + if MistakenLoad(h[i], h[i - 1]) then 1 else 0
  }

  /** The frames account for the words between the stack pointer and the top of the
      stack, and for `drift` words more. */
  predicate AccountsUpTo(sizes: seq<nat>, l: Line, top: int, drift: nat) {
    sizes != [] && 2 * Depth(sizes) == top - l.sp + 2 * drift
  }

  /** The frames account for exactly the words between the stack pointer and the top
      of the stack. */
  predicate AccountsFor(sizes: seq<nat>, l: Line, top: int) {
    AccountsUpTo(sizes, l, top, 0)
  }

  lemma BackStepAccounts(sizes: seq<nat>, cur: Line, prev: Line, top: int, drift: nat)
    requires AccountsUpTo(sizes, prev, top, drift) && Regular(cur, prev, top)
    requires InterruptedRet(cur, prev) ==> Top(sizes) == 0
    ensures AccountsUpTo(Back(sizes, cur, prev), cur, top, drift)
  {
    hide SpAfter, IsRetAndExecuted, IsPop, Back, Pushes, CalcDirectSpChanges, Depth;
    ExpectedSpIsExact(cur);
    BackFollowsIff(sizes, cur, prev);
    BackIsNotEmpty(sizes, cur, prev);
  }

  lemma BackIsNotEmpty(sizes: seq<nat>, cur: Line, prev: Line)
    ensures Back(sizes, cur, prev) != []
    ensures IsPop(cur) || IsRetAndExecuted(cur) ==> !Pushes(cur)
  {
    hide IsCallAndExecuted, IsRetAndExecuted, IsPop, IsRstOpcode, PushedValue;
    hide Back;
    OpcodeTestsAreExact(cur);
  }

  lemma ForwardStepAccounts(sizes: seq<nat>, cur: Line, next: Line, top: int, drift: nat)
    requires AccountsUpTo(sizes, cur, top, drift) && Regular(cur, next, top)
    ensures AccountsUpTo(Forward(sizes, cur, next), next, top, drift + if MistakenLoad(cur, next) then 1 else 0)
  {
    hide SpAfter, StackOpOf, IsRetAndExecuted, IsPop, Forward, CalcDirectSpChanges, Depth, Pushes, Pushed;
    ExpectedSpIsExact(cur);
    SpIsUnknownIff(cur);
    if LoadsSpIndirect(cur) {
      LoadSpIndirectIsOff(sizes, cur, next);
    } else {
      DepthPushed(sizes, cur);
      ForwardFollowsIff(sizes, cur, next);
    }
  }

  lemma SpIsUnknownIff(l: Line)
    ensures SpAfter(l) == None <==> LoadsSpIndirect(l)
  {
  }

  /** Over any walk back and forth through a regular history, the virtual stack tracks
      the stack pointer, but for one word too many for each time that it went forward
      over an LD SP,(nnnn) since the present. */
  lemma {:induction false} WalkDrifts(h: seq<Line>, present: seq<nat>, moves: Moves, top: int)
    requires RegularHistory(h, top) && AccountsFor(present, h[0], top)
    requires EmptyInterrupts(h, present, moves)
    ensures var s := Walk(h, present, moves);
            AccountsUpTo(s.sizes, h[s.index], top, Drift(h, present, moves))
  {
    hide AccountsUpTo, Regular, Back, Forward, InterruptedRet, MistakenLoad;
    if moves.Then? {
      WalkDrifts(h, present, moves.before, top);
      var s := Walk(h, present, moves.before);
      match moves.last
      case StepBack =>
        if s.index + 1 < |h| {
          BackStepAccounts(s.sizes, h[s.index + 1], h[s.index], top, Drift(h, present, moves.before));
        }
      case StepForward =>
        if s.index > 1 {
          ForwardStepAccounts(s.sizes, h[s.index], h[s.index - 1], top, Drift(h, present, moves.before));
        }
    }
  }

  /** Over any walk, the virtual stack tracks the stack pointer exactly if it has not
      gone forward over an LD SP,(nnnn) since the present. */
  lemma WalkTracksSpIff(h: seq<Line>, present: seq<nat>, moves: Moves, top: int)
    requires RegularHistory(h, top) && AccountsFor(present, h[0], top)
    requires EmptyInterrupts(h, present, moves)
    ensures var s := Walk(h, present, moves);
            AccountsFor(s.sizes, h[s.index], top) <==> Drift(h, present, moves) == 0
  {
    hide Depth, EmptyInterrupts, Regular, Walk, Drift;
    WalkDrifts(h, present, moves, top);
  }
}
