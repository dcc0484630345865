/** The call stack of the paused program, reconstructed from the words on its machine
    stack. */
module CallStackFromMemory {
  import opened Options
  import opened CallStack
  import opened ReverseStack
  import opened Sequences
  import opened Z80Stack

  const MAX_STACK_ITEMS := 100

  function WordAt(memory: int -> bv8, a: int): Word {
    (memory(a + 1) as int) * 256 + (memory(a) as int)
  }

  /** The paused program: its memory, and the bank that is paged in at an address. */
  datatype Program = Program(memory: int -> bv8, createLongAddress: int -> int, topOfStack: int)

  datatype EntryType = EntryType(name: FrameName, callerAddr: int)

  /** `getStackEntryType`: a word on the stack is a return address if the instruction
      before it is a CALL. */
  function GetStackEntryType(p: Program, value: Word): Option<EntryType> {
    var a := (value - 3) % 0x10000;
    if p.memory(a) == 0xCD || p.memory(a) & 0xC7 == 0xC4 then
      Some(EntryType(Function(WordAt(p.memory, a + 1)), p.createLongAddress(value - 3)))
    else
      None
  }

  /** The low byte of a word comes first. */
  lemma WordIs(memory: int -> bv8, a: int)
    ensures IsWord(WordAt(memory, a), memory(a), memory(a + 1))
  {
  }

  /** The word behind a CALL that is in memory, be it conditional or not, is recognised as a
      return address: with the called routine, and the address of the CALL. */
  lemma ReturnAddressIsRecognised(p: Program, l: Line)
    requires InMemory(p.memory, l) && l.pc + 3 < 0x10000 && StackOpOf(l) == Call
    ensures GetStackEntryType(p, l.pc + 3) == Some(EntryType(Function(Nnnn(l)), p.createLongAddress(l.pc)))
  {
    CallOpcodeIff(l);
    assert StackOpOf(l.(flags := l.flags)) == Call;
  }

  /** No other word is taken for one. */
  lemma EntryTypeIff(p: Program, value: Word, l: Line)
    requires l.op0 == p.memory((value - 3) % 0x10000)
    ensures GetStackEntryType(p, value).Some? <==> exists flags :: StackOpOf(l.(flags := flags)) == Call
  {
    CallOpcodeIff(l);
  }

  /** The bytes of the stack that are looked at. */
  function UsedDepth(p: Program, sp: Word): int {
    Min(p.topOfStack - sp, 2 * MAX_STACK_ITEMS)
  }

  function StackLength(p: Program, sp: Word): nat {
    Half(UsedDepth(p, sp))
  }

  /** The address that is taken for the top of the stack. */
  function Top64k(p: Program, sp: Word): int {
    sp + 2 * StackLength(p, sp)
  }

  /** Entry `k` of the stack, the oldest one first, is the word below the top; one byte
      off if the depth is odd. */
  predicate IsStack(p: Program, sp: Word, stack: seq<Word>) {
    && |stack| == StackLength(p, sp)
    && forall k :: 0 <= k < |stack| ==> stack[k] == WordAt(p.memory, Top64k(p, sp) - 2 - 2 * k + UsedDepth(p, sp) % 2)
  }

  method GetStackFromEmulator(p: Program, sp: Word) returns (zStack: seq<Word>)
    ensures IsStack(p, sp, zStack)
  {
    var depth := p.topOfStack - sp;
    if depth > 2 * MAX_STACK_ITEMS {
      depth := 2 * MAX_STACK_ITEMS;
    }
    zStack := [];
    if depth > 0 {
      var i := depth - 2;
      while i >= 0
        invariant i == depth - 2 - 2 * |zStack| >= -2
        invariant forall k :: 0 <= k < |zStack| ==> zStack[k] == WordAt(p.memory, sp + depth - 2 - 2 * k)
      {
        var value := WordAt(p.memory, sp + i);
        zStack := zStack + [value];
        i := i - 2;
      }
    }
  }

  function SetLast(fs: seq<Frame>, f: Frame): (r: seq<Frame>)
    requires |fs| > 0
    ensures |r| == |fs|
  {
    fs[..|fs| - 1] + [f]
  }

  function LastOf(fs: seq<Frame>): Frame
    requires |fs| > 0
  {
    fs[|fs| - 1]
  }

  /** The frames with one more stack entry: a new frame starting at `start` if it is a
      return address, and otherwise a word on the last frame. */
  function Extend(fs: seq<Frame>, value: Word, entryType: Option<EntryType>, start: int): (r: seq<Frame>)
    requires |fs| > 0
    ensures |r| > 0
  {
    match entryType
    case Some(t) => SetLast(fs, LastOf(fs).(addr := t.callerAddr)) + [Frame(0, start, t.name, [])]
    case None => SetLast(fs, LastOf(fs).(stack := LastOf(fs).stack + [Some(value)]))
  }

  /** The frames after the oldest `n` entries, where every single entry is looked up. */
  function Reconstruct(p: Program, top: int, stack: seq<Word>, n: nat): (fs: seq<Frame>)
    requires n <= |stack|
    ensures |fs| > 0
  {
    if n == 0 then [Frame(0, top - 2, Main(top), [])] else
      Extend(Reconstruct(p, top, stack, n - 1), stack[n - 1], GetStackEntryType(p, stack[n - 1]), top - 2 - 2 * n)
  }

  lemma OneView(f: CallStackFrame)
    ensures Views([f]) == [Frame(f.addr, f.stackStartAddress, f.name, f.stack)] && Distinct([f])
  {
  }

  lemma ReconstructNone(p: Program, top: int, stack: seq<Word>)
    ensures Reconstruct(p, top, stack, 0) == [Frame(0, top - 2, Main(top), [])]
  {
  }

  lemma ReconstructMore(p: Program, top: int, stack: seq<Word>, n: nat)
    requires n < |stack|
    ensures Reconstruct(p, top, stack, n + 1) ==
            Extend(Reconstruct(p, top, stack, n), stack[n], GetStackEntryType(p, stack[n]), top - 2 - 2 * (n + 1))
  {
  }

  function FullCallStack(p: Program, top: int, stack: seq<Word>, pc: int): (fs: seq<Frame>)
    ensures |fs| > 0
  {
    var fs := Reconstruct(p, top, stack, |stack|);
    SetLast(fs, LastOf(fs).(addr := pc))
  }

  class RemoteBase {
    const program: Program
    var listFrames: seq<CallStackFrame>

    constructor (program: Program)
      ensures this.program == program && listFrames == []
    {
      this.program, listFrames := program, [];
    }

    /** Adds a stack entry to the last frame, or a frame for it. */
    method AddEntry(frames: seq<CallStackFrame>, value: Word, entryType: Option<EntryType>, frameSP: int)
        returns (callStack: seq<CallStackFrame>)
      requires Distinct(frames) && |frames| > 0
      modifies {frames[|frames| - 1]}`addr, {frames[|frames| - 1]}`stack
      ensures Distinct(callStack) && |callStack| > 0
      ensures frames <= callStack && forall i :: |frames| <= i < |callStack| ==> fresh(callStack[i])
      ensures Views(callStack) == Extend(old(Views(frames)), value, entryType, frameSP)
    {
      callStack := frames;
      var lastCallStackFrame := callStack[|callStack| - 1];
      match entryType
      case Some(t) =>
        lastCallStackFrame.addr := t.callerAddr;
        lastCallStackFrame := new CallStackFrame(0, frameSP, t.name);
        callStack := callStack + [lastCallStackFrame];
      case None =>
        // Something else, e.g. a pushed value.
        lastCallStackFrame.stack := lastCallStackFrame.stack + [Some(value)];
    }

    /** Filters the return addresses out of the stack; the other words are pushed on
        their frames. */
    method AddEntries(stack: seq<Word>, top: int) returns (callStack: seq<CallStackFrame>)
      ensures fresh(callStack) && Distinct(callStack) && |callStack| > 0
      ensures Views(callStack) == Reconstruct(program, top, stack, |stack|)
    {
      hide Views, Distinct;
      hide GetStackEntryType, Extend, Reconstruct;
      var lastCallStackFrame := new CallStackFrame(0, top - 2, Main(top));
      callStack := [lastCallStackFrame];
      ReconstructNone(program, top, stack);
      OneView(lastCallStackFrame);
      var prevValue: Option<Word>, entryType := None, None;
      for i := 0 to |stack|
        invariant fresh(callStack) && Distinct(callStack) && |callStack| > 0
        invariant prevValue.Some? ==> entryType == GetStackEntryType(program, prevValue.value)
        invariant Views(callStack) == Reconstruct(program, top, stack, i)
      {
        callStack, prevValue, entryType := AddNext(stack, top, i, callStack, prevValue, entryType);
      }
    }

    /** Looks up the next stack entry, and adds it. Memory is only read again if the
        value has changed. */
    method AddNext(stack: seq<Word>, top: int, i: nat, frames: seq<CallStackFrame>,
                   prevValue: Option<Word>, prevType: Option<EntryType>)
        returns (callStack: seq<CallStackFrame>, value: Option<Word>, entryType: Option<EntryType>)
      requires i < |stack| && Distinct(frames) && |frames| > 0
      requires prevValue.Some? ==> prevType == GetStackEntryType(program, prevValue.value)
      requires Views(frames) == Reconstruct(program, top, stack, i)
      modifies {frames[|frames| - 1]}`addr, {frames[|frames| - 1]}`stack
      ensures Distinct(callStack) && |callStack| > 0
      ensures frames <= callStack && forall i :: |frames| <= i < |callStack| ==> fresh(callStack[i])
      ensures value == Some(stack[i]) && entryType == GetStackEntryType(program, stack[i])
      ensures Views(callStack) == Reconstruct(program, top, stack, i + 1)
    {
      hide GetStackEntryType, Extend, Reconstruct, Views, Distinct;
      value := Some(stack[i]);
      entryType := prevType;
      if value != prevValue {
        entryType := GetStackEntryType(program, stack[i]);
      }
      ReconstructMore(program, top, stack, i);
      callStack := AddEntry(frames, stack[i], entryType, top - 2 - 2 * (i + 1));
    }

    method GetCallStackFromEmulator(registers: Line) returns (ghost stack: seq<Word>)
      modifies this`listFrames
      ensures fresh(listFrames) && Distinct(listFrames) && |listFrames| > 0
      ensures IsStack(program, registers.sp, stack)
      ensures Views(listFrames) == FullCallStack(program, Top64k(program, registers.sp), stack, registers.pcLong)
    {
      hide GetStackEntryType, IsStack, Reconstruct, SetLast, Views;
      var zStack := GetStackFromEmulator(program, registers.sp);
      stack := zStack;
      StackHasLength(program, registers.sp, stack);
      var callStack := AddEntries(zStack, registers.sp + 2 * |zStack|);
      SetPc(callStack, registers.pcLong);
      listFrames := callStack;
    }

    method SetPc(frames: seq<CallStackFrame>, pc: int)
      requires Distinct(frames) && |frames| > 0
      modifies {frames[|frames| - 1]}`addr
      ensures Views(frames) == SetLast(old(Views(frames)), LastOf(old(Views(frames))).(addr := pc))
    {
      frames[|frames| - 1].addr := pc;
    }
  }

  lemma StackHasLength(p: Program, sp: Word, stack: seq<Word>)
    requires IsStack(p, sp, stack)
    ensures |stack| == StackLength(p, sp)
  {
  }

  // What the reconstructed frames are.

  /** The stack entry at which the words of a frame start. */
  function StartOf(top: int, f: Frame): int {
    (top - 2 - f.stackStartAddress) / 2
  }

  /** The stack entry after the words of a frame. */
  function EndOf(top: int, f: Frame): int {
    StartOf(top, f) + |f.stack|
  }

  /** The frame holds a run of stack entries that are no return addresses. */
  predicate HoldsRun(p: Program, top: int, stack: seq<Word>, f: Frame) {
    && 0 <= StartOf(top, f) <= EndOf(top, f) <= |stack|
    && f.stackStartAddress == top - 2 - 2 * StartOf(top, f)
    && forall j :: 0 <= j < |f.stack| ==>
         f.stack[j] == Some(stack[StartOf(top, f) + j]) && GetStackEntryType(p, stack[StartOf(top, f) + j]).None?
  }

  /** The entry after the run of `f` is the return address into `f` by which `g` was
      called. */
  predicate Linked(p: Program, top: int, stack: seq<Word>, f: Frame, g: Frame) {
    && 0 <= EndOf(top, f) < |stack|
    && StartOf(top, g) == EndOf(top, f) + 1
    && GetStackEntryType(p, stack[EndOf(top, f)]) == Some(EntryType(g.name, f.addr))
  }

  /** The frames cut the oldest `n` entries into runs, from main on. */
  ghost predicate AreRuns(p: Program, top: int, stack: seq<Word>, n: nat, fs: seq<Frame>) {
    && |fs| > 0 && fs[0].name == Main(top) && StartOf(top, fs[0]) == 0
    && (forall i :: 0 <= i < |fs| ==> HoldsRun(p, top, stack, fs[i]))
    && (forall i, k :: 0 <= i && k == i + 1 && k < |fs| ==> Linked(p, top, stack, fs[i], fs[k]))
    && EndOf(top, LastOf(fs)) == n
  }

  lemma RunGrows(p: Program, top: int, stack: seq<Word>, f: Frame, n: nat)
    requires HoldsRun(p, top, stack, f) && EndOf(top, f) == n < |stack| && GetStackEntryType(p, stack[n]).None?
    ensures HoldsRun(p, top, stack, f.(stack := f.stack + [Some(stack[n])]))
  {
    hide GetStackEntryType;
    var g := f.(stack := f.stack + [Some(stack[n])]);
    assert StartOf(top, g) == StartOf(top, f) && EndOf(top, g) == n + 1;
    forall j | 0 <= j < |g.stack|
      ensures g.stack[j] == Some(stack[StartOf(top, g) + j]) && GetStackEntryType(p, stack[StartOf(top, g) + j]).None?
    {
      assert j < |f.stack| ==> g.stack[j] == f.stack[j];
    }
  }

  lemma RunKeeps(p: Program, top: int, stack: seq<Word>, f: Frame, addr: int)
    requires HoldsRun(p, top, stack, f)
    ensures HoldsRun(p, top, stack, f.(addr := addr)) && EndOf(top, f.(addr := addr)) == EndOf(top, f)
  {
    hide GetStackEntryType;
    assert StartOf(top, f.(addr := addr)) == StartOf(top, f);
  }

  lemma RunStarts(p: Program, top: int, stack: seq<Word>, f: Frame, n: nat)
    requires f.stackStartAddress == top - 2 - 2 * n && f.stack == [] && n <= |stack|
    ensures HoldsRun(p, top, stack, f) && StartOf(top, f) == EndOf(top, f) == n
  {
  }

  /** One more entry keeps the frames runs. */
  lemma ExtendKeepsRuns(p: Program, top: int, stack: seq<Word>, n: nat, fs: seq<Frame>)
    requires 0 < n <= |stack| && AreRuns(p, top, stack, n - 1, fs)
    ensures AreRuns(p, top, stack, n, Extend(fs, stack[n - 1], GetStackEntryType(p, stack[n - 1]), top - 2 - 2 * n))
  {
    hide HoldsRun;
    hide GetStackEntryType;
    var f := LastOf(fs);
    var t := GetStackEntryType(p, stack[n - 1]);
    assert f == fs[|fs| - 1];
    match t
    case Some(_) =>
      RunStarts(p, top, stack, Frame(0, top - 2 - 2 * n, t.value.name, []), n);
      RunKeeps(p, top, stack, f, t.value.callerAddr);
      assert Linked(p, top, stack, f.(addr := t.value.callerAddr), Frame(0, top - 2 - 2 * n, t.value.name, []));
    case None =>
      RunGrows(p, top, stack, f, n - 1);
  }

  lemma MainIsRun(p: Program, top: int, stack: seq<Word>)
    ensures AreRuns(p, top, stack, 0, [Frame(0, top - 2, Main(top), [])])
  {
  }

  /** Nothing is lost, added or moved: the frames cut the stack into runs. */
  lemma {:induction false} ReconstructIsFaithful(p: Program, top: int, stack: seq<Word>, n: nat)
    requires n <= |stack|
    ensures AreRuns(p, top, stack, n, Reconstruct(p, top, stack, n))
  {
    hide AreRuns, Extend;
    if n == 0 {
      MainIsRun(p, top, stack);
    } else {
      ReconstructIsFaithful(p, top, stack, n - 1);
      ExtendKeepsRuns(p, top, stack, n, Reconstruct(p, top, stack, n - 1));
    }
  }

  /** How many words are on each frame. */
  function FrameSizes(fs: seq<Frame>): (r: seq<nat>)
    ensures |r| == |fs| && forall i :: 0 <= i < |r| ==> r[i] == |fs[i].stack|
  {
    seq(|fs|, i requires 0 <= i < |fs| => |fs[i].stack|)
  }

  lemma DepthExtend(fs: seq<Frame>, value: Word, entryType: Option<EntryType>, start: int)
    requires |fs| > 0
    ensures Depth(FrameSizes(Extend(fs, value, entryType, start))) == Depth(FrameSizes(fs)) + 1
  {
    hide Depth;
    var r, s := FrameSizes(Extend(fs, value, entryType, start)), FrameSizes(fs);
    if entryType.Some? {
      assert r == s + [0];
      DepthAddFrame(s);
    } else {
      assert r == SetTop(s, Top(s) + 1);
      DepthSetTop(s, Top(s) + 1);
    }
  }

  lemma DepthAddFrame(s: seq<nat>)
    ensures Depth(s + [0]) == Depth(s) + 1
  {
    SumSplit(s, 0);
  }

  /** The frames above main and all words on frames together are the stack entries. */
  lemma {:induction false} ReconstructDepth(p: Program, top: int, stack: seq<Word>, n: nat)
    requires n <= |stack|
    ensures Depth(FrameSizes(Reconstruct(p, top, stack, n))) == n
  {
    hide Depth, Extend;
    if n == 0 {
      MainDepth(FrameSizes(Reconstruct(p, top, stack, n)));
    } else {
      ReconstructDepth(p, top, stack, n - 1);
      DepthExtend(Reconstruct(p, top, stack, n - 1), stack[n - 1], GetStackEntryType(p, stack[n - 1]), top - 2 - 2 * n);
    }
  }

  lemma MainDepth(s: seq<nat>)
    requires s == [0]
    ensures Depth(s) == 0
  {
    SumSplit([], 0);
    assert [] + [0] == s;
  }

  /** Word `j` of each frame is the word in memory that the start address of the frame
      stands for, if the depth of the stack is even, and one byte off otherwise. */
  lemma WordsAreInMemory(p: Program, l: Line, stack: seq<Word>, i: nat, j: nat)
    requires IsStack(p, l.sp, stack)
    requires var fs := FullCallStack(p, Top64k(p, l.sp), stack, l.pcLong); i < |fs| && j < |fs[i].stack|
    ensures var f := FullCallStack(p, Top64k(p, l.sp), stack, l.pcLong)[i];
            f.stack[j] == Some(WordAt(p.memory, f.stackStartAddress - 2 * j + UsedDepth(p, l.sp) % 2))
  {
    hide GetStackEntryType, Reconstruct, WordAt, UsedDepth;
    var top := Top64k(p, l.sp);
    ReconstructIsFaithful(p, top, stack, |stack|);
    assert HoldsRun(p, top, stack, Reconstruct(p, top, stack, |stack|)[i]);
  }

  /** The frames of the call stack account for the machine stack exactly if its depth
      is even, not negative, and not too large to be read. */
  lemma CallStackAccountsIff(p: Program, l: Line, stack: seq<Word>)
    requires IsStack(p, l.sp, stack)
    ensures var sizes := FrameSizes(FullCallStack(p, Top64k(p, l.sp), stack, l.pcLong));
            && Depth(sizes) == |stack|
            && (AccountsFor(sizes, l, p.topOfStack) <==>
                0 <= p.topOfStack - l.sp <= 2 * MAX_STACK_ITEMS && (p.topOfStack - l.sp) % 2 == 0)
  {
    hide Depth, Reconstruct;
    var top := Top64k(p, l.sp);
    ReconstructDepth(p, top, stack, |stack|);
    assert FrameSizes(FullCallStack(p, top, stack, l.pcLong)) == FrameSizes(Reconstruct(p, top, stack, |stack|));
  }
}
