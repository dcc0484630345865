/** How the instructions of a recorded history move the stack pointer. The opcodes
    are those of the Z80 CPU User Manual (UM0080). */
module Z80Stack {
  import opened Options

  type Word = w: int | 0 <= w < 0x10000

  /** One line of the history: the registers before the instruction at `pc`, its
      (up to four) bytes, and the word at the stack pointer. */
  datatype Line = Line(
    pc: Word, pcLong: int, sp: Word, flags: bv8,
    bc: Word, de: Word, hl: Word, af: Word, ix: Word, iy: Word,
    op0: bv8, op1: bv8, op2: bv8, op3: bv8,
    spContent: Word)

  const FLAG_S: bv8 := 0x80
  const FLAG_Z: bv8 := 0x40
  const FLAG_PV: bv8 := 0x04
  const FLAG_C: bv8 := 0x01

  /** `isCcMetByFlag`: the three condition bits of a conditional CALL or RET. */
  predicate IsCcMetByFlag(cc: bv8, flags: bv8) {
    var testSet := cc & 1 != 0;
    var flag := match (cc >> 1) & 3 case 0 => FLAG_Z case 1 => FLAG_C case 2 => FLAG_PV case _ => FLAG_S;
    (flags & flag != 0) == testSet
  }

  predicate IsRetAndExecuted(l: Line) {
    || l.op0 == 0xC9
    || (l.op0 == 0xED && (l.op1 == 0x4D || l.op1 == 0x45))
    || (l.op0 & 0xC7 == 0xC0 && IsCcMetByFlag((l.op0 & 0x38) >> 3, l.flags))
  }

  predicate IsCallAndExecuted(l: Line) {
    || l.op0 == 0xCD
    || (l.op0 & 0xC7 == 0xC4 && IsCcMetByFlag((l.op0 & 0x38) >> 3, l.flags))
  }

  predicate IsCallOpcode(op0: bv8) {
    op0 == 0xCD || op0 & 0xC7 == 0xC4
  }

  predicate IsRstOpcode(op0: bv8) {
    op0 & 0xC7 == 0xC7
  }

  predicate IsPop(l: Line) {
    || l.op0 & 0xCF == 0xC1
    || ((l.op0 == 0xDD || l.op0 == 0xFD) && l.op1 == 0xE1)
  }

  function Nnnn(l: Line): Word {
    (l.op1 as int) + 256 * (l.op2 as int)
  }

  /** The value that a PUSH instruction pushes. */
  function PushedValue(l: Line): Option<Word> {
    if l.op0 == 0xC5 then Some(l.bc)
    else if l.op0 == 0xD5 then Some(l.de)
    else if l.op0 == 0xE5 then Some(l.hl)
    else if l.op0 == 0xF5 then Some(l.af)
    else if l.op0 == 0xDD && l.op1 == 0xE5 then Some(l.ix)
    else if l.op0 == 0xFD && l.op1 == 0xE5 then Some(l.iy)
    else if l.op0 == 0xED && l.op1 == 0x8A then Some(256 * (l.op2 as int) + (l.op3 as int))
    else None
  }

  /** `calcDirectSpChanges`: the stack pointer after an instruction other than CALL,
      RST, RET, PUSH and POP. Not known for LD SP,(nnnn). */
  function CalcDirectSpChanges(l: Line, sp: int): Option<int> {
    if l.op0 == 0x31 then Some(Nnnn(l))
    else if l.op0 == 0x33 then Some(sp + 1)
    else if l.op0 == 0x3B then Some(sp - 1)
    else if l.op0 == 0xF9 then Some(l.hl)
    else if l.op0 == 0xED && l.op1 == 0x7B then None
    else if l.op0 == 0xDD && l.op1 == 0xF9 then Some(l.ix)
    else if l.op0 == 0xFD && l.op1 == 0xF9 then Some(l.iy)
    else Some(sp)
  }

  // The instruction set, independently of how the debugger tests the opcodes.

  datatype StackOp =
    | Call
    | Rst
    | Ret
    | Push(value: Word)
    | Pop
    | LoadSp(value: Word)
    | LoadSpIndirect
    | IncSp
    | DecSp
    | Other

  /** Bit 7 is the sign flag, 6 zero, 2 parity and overflow, 0 carry. */
  predicate Bit(flags: bv8, n: nat)
    requires n < 8
  {
    (flags >> n) & 1 == 1
  }

  /** A word of which the byte `low` comes first in memory. */
  predicate IsWord(w: Word, low: bv8, high: bv8) {
    w % 256 == low as int && w / 256 == high as int
  }

  /** The condition of the conditional instruction with the given bits 3 to 5. */
  predicate Condition(n: nat, flags: bv8) {
    if n == 0 then !Bit(flags, 6)        // NZ
    else if n == 1 then Bit(flags, 6)    // Z
    else if n == 2 then !Bit(flags, 0)   // NC
    else if n == 3 then Bit(flags, 0)    // C
    else if n == 4 then !Bit(flags, 2)   // PO
    else if n == 5 then Bit(flags, 2)    // PE
    else if n == 6 then !Bit(flags, 7)   // P
    else Bit(flags, 7)                   // M
  }

  /** What the executed instruction does with the stack pointer. */
  function StackOpOf(l: Line): StackOp {
    match l.op0
    case 0xCD => Call
    case 0xC4 => if Condition(0, l.flags) then Call else Other
    case 0xCC => if Condition(1, l.flags) then Call else Other
    case 0xD4 => if Condition(2, l.flags) then Call else Other
    case 0xDC => if Condition(3, l.flags) then Call else Other
    case 0xE4 => if Condition(4, l.flags) then Call else Other
    case 0xEC => if Condition(5, l.flags) then Call else Other
    case 0xF4 => if Condition(6, l.flags) then Call else Other
    case 0xFC => if Condition(7, l.flags) then Call else Other
    case 0xC7 => Rst case 0xCF => Rst case 0xD7 => Rst case 0xDF => Rst
    case 0xE7 => Rst case 0xEF => Rst case 0xF7 => Rst case 0xFF => Rst
    case 0xC9 => Ret
    case 0xC0 => if Condition(0, l.flags) then Ret else Other
    case 0xC8 => if Condition(1, l.flags) then Ret else Other
    case 0xD0 => if Condition(2, l.flags) then Ret else Other
    case 0xD8 => if Condition(3, l.flags) then Ret else Other
    case 0xE0 => if Condition(4, l.flags) then Ret else Other
    case 0xE8 => if Condition(5, l.flags) then Ret else Other
    case 0xF0 => if Condition(6, l.flags) then Ret else Other
    case 0xF8 => if Condition(7, l.flags) then Ret else Other
    case 0xC5 => Push(l.bc) case 0xD5 => Push(l.de) case 0xE5 => Push(l.hl) case 0xF5 => Push(l.af)
    case 0xC1 => Pop case 0xD1 => Pop case 0xE1 => Pop case 0xF1 => Pop
    case 0x31 => LoadSp(Nnnn(l))
    case 0x33 => IncSp
    case 0x3B => DecSp
    case 0xF9 => LoadSp(l.hl)
    case 0xDD =>
      if l.op1 == 0xE5 then Push(l.ix) else if l.op1 == 0xE1 then Pop else if l.op1 == 0xF9 then LoadSp(l.ix) else Other
    case 0xFD =>
      if l.op1 == 0xE5 then Push(l.iy) else if l.op1 == 0xE1 then Pop else if l.op1 == 0xF9 then LoadSp(l.iy) else Other
    case 0xED => if l.op1 == 0x45 || l.op1 == 0x4D then Ret
                 else if l.op1 == 0x8A then Push((l.op2 as int) * 256 + (l.op3 as int))
                 else if l.op1 == 0x7B then LoadSpIndirect else Other
    case _ => Other
  }

  /** The operand of CALL nn and LD SP,nn: the low byte comes first. */
  lemma OperandIsWord(l: Line)
    ensures IsWord(Nnnn(l), l.op1, l.op2)
  {
  }

  lemma ConditionsAgree(cc: bv8, flags: bv8)
    requires cc < 8
    ensures IsCcMetByFlag(cc, flags) <==> Condition(cc as int, flags)
  {
    FlagsAreBits(flags);
  }

  lemma FlagsAreBits(flags: bv8)
    ensures flags & FLAG_S != 0 <==> Bit(flags, 7)
    ensures flags & FLAG_Z != 0 <==> Bit(flags, 6)
    ensures flags & FLAG_PV != 0 <==> Bit(flags, 2)
    ensures flags & FLAG_C != 0 <==> Bit(flags, 0)
  {
  }

  /** The opcode tests of the debugger agree with the instruction set. */
  lemma OpcodeTestsAreExact(l: Line)
    ensures IsCallAndExecuted(l) <==> StackOpOf(l) == Call
    ensures IsRstOpcode(l.op0) <==> StackOpOf(l) == Rst
    ensures IsRetAndExecuted(l) <==> StackOpOf(l) == Ret
    ensures match StackOpOf(l) case Push(v) => PushedValue(l) == Some(v) case _ => PushedValue(l) == None
    ensures IsPop(l) <==> StackOpOf(l) == Pop
  {
    hide IsCcMetByFlag, Condition;
    ConditionsAgree(0, l.flags);
    ConditionsAgree(1, l.flags);
    ConditionsAgree(2, l.flags);
    ConditionsAgree(3, l.flags);
    ConditionsAgree(4, l.flags);
    ConditionsAgree(5, l.flags);
    ConditionsAgree(6, l.flags);
    ConditionsAgree(7, l.flags);
  }

  /** The opcodes that are taken for a CALL are those that the instruction set executes as one
      under some condition. */
  lemma CallOpcodeIff(l: Line)
    ensures IsCallOpcode(l.op0) <==> exists flags :: StackOpOf(l.(flags := flags)) == Call
  {
    hide IsCcMetByFlag, Condition;
    ConditionCanHold();
    forall flags
      ensures StackOpOf(l.(flags := flags)) == Call ==> IsCallOpcode(l.op0)
    {
    }
    if IsCallOpcode(l.op0) {
      SomeFlagsCall(l);
    }
  }

  /** Each condition holds with all flags reset, or with all of them set. */
  lemma ConditionCanHold()
    ensures forall n: nat :: n < 8 ==> Condition(n, if n % 2 == 0 then 0 else 0xFF)
  {
  }

  lemma SomeFlagsCall(l: Line)
    requires IsCallOpcode(l.op0)
    ensures exists flags :: StackOpOf(l.(flags := flags)) == Call
  {
    hide IsCcMetByFlag, Condition;
    ConditionCanHold();
    var n: nat := ((l.op0 & 0x38) >> 3) as nat;
    var flags: bv8 := if n % 2 == 0 then 0 else 0xFF;
    assert StackOpOf(l.(flags := flags)) == Call;
  }

  /** The bytes of the instruction are in memory. */
  predicate InMemory(memory: int -> bv8, l: Line) {
    memory(l.pc) == l.op0 && memory((l.pc + 1) % 0x10000) == l.op1 && memory((l.pc + 2) % 0x10000) == l.op2
  }

  /** The stack pointer after the instruction; unknown if it is loaded from memory. */
  function SpAfter(l: Line): Option<int> {
    match StackOpOf(l)
    case Call | Rst | Push(_) => Some(l.sp - 2)
    case Ret | Pop => Some(l.sp + 2)
    case LoadSp(value) => Some(value)
    case LoadSpIndirect => None
    case IncSp => Some(l.sp + 1)
    case DecSp => Some(l.sp - 1)
    case Other => Some(l.sp)
  }
}
