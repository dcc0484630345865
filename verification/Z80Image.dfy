/** What the smart disassembler works on: a 64K memory image seen through the
    opcode decoder, the slot/bank layout of the memory model, the ASSIGNED
    bytes and the SKIP addresses, together with the control flow it induces.
    All of it stays fixed during one disassembly. */
module Z80Image {

  const MEM_SIZE := 0x10000

  /** Every decoded instruction is between one and four bytes long. */
  type OpcodeLength = n: int | 1 <= n <= 4 witness 1

  /** A decoded instruction: its length, the opcode flags, whether its operand
      is a data label, and the operand (for a relative jump the target address,
      which may lie outside of the 64K). */
  datatype Opcode = Opcode(
    length: OpcodeLength,
    branchAddress: bool,
    call: bool,
    stop: bool,
    ret: bool,
    conditional: bool,
    dataLabel: bool,
    value: int)

  /** Stands for the bytes that a called routine skips. */
  function SkipPseudoOpcode(length: OpcodeLength): Opcode {
    Opcode(length, false, false, false, false, false, false, 0)
  }

  datatype SlotBank = SlotBank(slot: int, singleBank: bool)

  /** A point of the control flow: an address, reached while working on a node
      that lies in the given slot. */
  datatype Point = Point(addr: int, slot: int)

  predicate Between(a: int, b: int, c: int) {
    a <= b <= c
  }

  datatype Image = Image(
    decode: int -> Opcode,
    slotBanks: map<int, SlotBank>,
    assignedBytes: set<int>,
    skips: map<int, nat>)
  {
    /** The layout that `setMemoryModel` and `setMemory` produce: the slots cover
        the 64K, each one is a range of addresses, and the flag `singleBank` is a
        property of the slot. Skips are one or two bytes long and do not wrap around
        the end of the memory. */
    ghost predicate Valid() {
      && (forall a :: a in slotBanks <==> 0 <= a < MEM_SIZE)
      && (forall a, b :: a in slotBanks && b in slotBanks && slotBanks[a].slot == slotBanks[b].slot
            ==> slotBanks[a].singleBank == slotBanks[b].singleBank)
      && (forall a, b, c {:trigger Between(a, b, c)} ::
            a in slotBanks && c in slotBanks && Between(a, b, c) && slotBanks[a].slot == slotBanks[c].slot
            ==> slotBanks[b].slot == slotBanks[a].slot)
      && (forall a :: a in assignedBytes ==> 0 <= a < MEM_SIZE)
      && (forall a :: a in skips ==> 0 <= a && skips[a] <= 2 && a + skips[a] < MEM_SIZE)
    }

    function Next(a: int): int {
      a + decode(a).length
    }

    /** The bytes of the instruction at `a`. */
    predicate Covers(a: int, b: int) {
      a <= b < Next(a)
    }

    /** The bytes of the instruction at `a` other than its first one. */
    predicate Inside(a: int, b: int) {
      a < b < Next(a)
    }

    predicate BankBorderPassed(startSlot: int, addr: int) {
      addr !in slotBanks || (startSlot != slotBanks[addr].slot && !slotBanks[addr].singleBank)
    }

    /** Where execution resumes after a call whose return address is `a`. */
    function SkipOver(a: int): (r: int)
      requires Valid()
      ensures a <= r && (r == a || r < MEM_SIZE)
      decreases MEM_SIZE - a
    {
      if a in skips && skips[a] > 0 then SkipOver(a + skips[a]) else a
    }

    /** The address behind an instruction that ends a node, together with the bytes
        that a called routine skips. */
    function EndOfLast(a: int): (e: int)
      requires Valid()
      ensures e >= Next(a)
    {
      var op := decode(a);
      if op.branchAddress && !op.stop then SkipOver(Next(a)) else Next(a)
    }

    /** The instruction at `u` has a byte among those that are skipped behind the one
        at `a`. */
    ghost predicate SkipMeets(a: int, u: int)
      requires Valid()
    {
      exists b :: Next(a) <= b < EndOfLast(a) && Covers(u, b)
    }

    /** The plain next instruction `t` belongs to the same straight line as `s`. */
    ghost predicate Falls(s: Point, t: Point) {
      var op := decode(s.addr);
      && t == Point(s.addr + op.length, s.slot)
      && t.addr < MEM_SIZE
      && !op.branchAddress
      && !(op.ret && op.conditional)
      && !op.stop
      && !BankBorderPassed(s.slot, t.addr)
    }

    /** Control may go from the instruction at `s` to a node that starts at `b`:
        the branch target, the return address of a call or conditional branch,
        or the instruction behind a RET cc. */
    ghost predicate Queues(s: Point, b: int)
      requires Valid()
    {
      var op := decode(s.addr);
      && !BankBorderPassed(s.slot, b)
      && if op.branchAddress then
           b == op.value || (!op.stop && b == SkipOver(Next(s.addr)))
         else
           op.ret && op.conditional && b == Next(s.addr)
    }

    /** One step of the control flow. A node can only be entered at an assigned
        address and then continues in the slot of that address. */
    ghost predicate Step(s: Point, t: Point)
      requires Valid()
    {
      || Falls(s, t)
      || (Queues(s, t.addr) && t.addr in assignedBytes && t.slot == slotBanks[t.addr].slot)
    }

    ghost predicate Init(starts: set<int>, s: Point) {
      && s.addr in starts && s.addr in assignedBytes && s.addr in slotBanks
      && s.slot == slotBanks[s.addr].slot
    }

    ghost predicate IsPath(starts: set<int>, p: seq<Point>)
      requires Valid()
    {
      && |p| > 0
      && Init(starts, p[0])
      && forall i :: 0 < i < |p| ==> Step(p[i - 1], p[i])
    }

    /** The declarative meaning of "reachable code": some control flow path from
        a start address leads to `s`. */
    ghost predicate Reaches(starts: set<int>, s: Point)
      requires Valid()
    {
      exists p :: IsPath(starts, p) && p[|p| - 1] == s
    }

    ghost predicate ReachesAddr(starts: set<int>, a: int)
      requires Valid()
    {
      exists slot :: Reaches(starts, Point(a, slot))
    }

    lemma ReachInit(starts: set<int>, s: Point)
      requires Valid() && Init(starts, s)
      ensures Reaches(starts, s)
    {
      assert IsPath(starts, [s]) && [s][|[s]| - 1] == s;
    }

    lemma ReachStep(starts: set<int>, s: Point, t: Point)
      requires Valid() && Reaches(starts, s) && Step(s, t)
      ensures Reaches(starts, t)
    {
      var p :| IsPath(starts, p) && p[|p| - 1] == s;
      var q := p + [t];
      assert IsPath(starts, q) && q[|q| - 1] == t;
    }

    /** `s` is in the slot of a node from which its address is accessible. */
    ghost predicate IsPlaced(s: Point) {
      && !BankBorderPassed(s.slot, s.addr)
      && exists n :: n in slotBanks && n <= s.addr && slotBanks[n].slot == s.slot
    }

    lemma StepIsPlaced(s: Point, t: Point)
      requires Valid() && IsPlaced(s) && Step(s, t)
      ensures IsPlaced(t)
    {
    }

    lemma {:induction false} PathIsPlaced(starts: set<int>, p: seq<Point>, i: nat)
      requires Valid() && IsPath(starts, p) && i < |p|
      ensures IsPlaced(p[i])
    {
      if i > 0 {
        PathIsPlaced(starts, p, i - 1);
        StepIsPlaced(p[i - 1], p[i]);
      }
    }

    /** A node that starts somewhere on a straight line sees the same bank borders
        ahead of it as the node from which the line came. */
    lemma SameBorders(s: Point, b: int)
      requires Valid() && IsPlaced(s) && b >= s.addr
      ensures BankBorderPassed(slotBanks[s.addr].slot, b) == BankBorderPassed(s.slot, b)
    {
      var n :| n in slotBanks && n <= s.addr && slotBanks[n].slot == s.slot;
      assert Between(n, s.addr, b);
    }

    ghost predicate UnpagedSlot(slot: int) {
      forall a :: a in slotBanks && slotBanks[a].slot == slot ==> slotBanks[a].singleBank
    }

    /** The point lies in the slot of its address, or in a slot that is not paged. */
    ghost predicate AtHome(s: Point) {
      s.addr in slotBanks && (s.slot == slotBanks[s.addr].slot || UnpagedSlot(s.slot))
    }

    /** No reachable straight line leaves the paged slot in which it started. */
    ghost predicate LinesStay(starts: set<int>)
      requires Valid()
    {
      forall s :: Reaches(starts, s) ==> AtHome(s)
    }

    /** The instruction at `a` leads to `b`, if that is accessible. */
    ghost predicate MayLead(a: int, b: int)
      requires Valid()
    {
      var op := decode(a);
      if op.branchAddress then b == op.value || (!op.stop && b == SkipOver(Next(a)))
      else (!op.stop || (op.ret && op.conditional)) && b == Next(a)
    }

    /** Where the flow goes in one step: exactly to what the instruction may lead to, as far as
        that is accessible. */
    lemma StepsAreLeads(s: Point, b: int)
      requires Valid()
      ensures Queues(s, b) || Falls(s, Point(b, s.slot)) <==> MayLead(s.addr, b) && !BankBorderPassed(s.slot, b)
    {
    }

    /** From both points the same successors are accessible. */
    ghost predicate SameSuccessors(s: Point, t: Point)
      requires Valid()
    {
      forall b {:trigger MayLead(s.addr, b)} :: MayLead(s.addr, b) ==>
        BankBorderPassed(s.slot, b) == BankBorderPassed(t.slot, b)
    }

    /** Where an instruction leads does not depend on the slot from which it is reached. */
    ghost predicate BordersAgree(starts: set<int>)
      requires Valid()
    {
      forall s, t :: Reaches(starts, s) && Reaches(starts, t) && s.addr == t.addr ==> SameSuccessors(s, t)
    }

    /** For lines that stay in their slots the bank borders depend on the address alone. */
    lemma HomeBorders(starts: set<int>, s: Point, b: int)
      requires Valid() && LinesStay(starts) && Reaches(starts, s)
      ensures BankBorderPassed(s.slot, b) == BankBorderPassed(slotBanks[s.addr].slot, b)
    {
      var p :| IsPath(starts, p) && p[|p| - 1] == s;
      PathIsPlaced(starts, p, |p| - 1);
      assert AtHome(s);
    }

    lemma LinesStayAgree(starts: set<int>)
      requires Valid() && LinesStay(starts)
      ensures BordersAgree(starts)
    {
      hide LinesStay, Reaches;
      forall s, t, b | Reaches(starts, s) && Reaches(starts, t) && s.addr == t.addr && MayLead(s.addr, b)
        ensures BankBorderPassed(s.slot, b) == BankBorderPassed(t.slot, b)
      {
        HomeBorders(starts, s, b);
        HomeBorders(starts, t, b);
      }
    }

    /** Flows ask for a node at `b`: it is a start address, or a reachable
        instruction leads there. */
    ghost predicate Requested(starts: set<int>, b: int)
      requires Valid()
    {
      b in starts || exists s :: Reaches(starts, s) && Queues(s, b)
    }

    /** No flow leads to memory that was not fetched. */
    ghost predicate RequestsAssigned(starts: set<int>)
      requires Valid()
    {
      forall b :: Requested(starts, b) ==> b in assignedBytes
    }

    /** No flow leads to memory that was not fetched and lies inside of a reachable
        instruction. */
    ghost predicate InsidesAssigned(starts: set<int>)
      requires Valid()
    {
      forall u, b {:trigger Inside(u, b)} :: ReachesAddr(starts, u) && Inside(u, b) && Requested(starts, b) ==>
        b in assignedBytes
    }

    /** A complete 64K dump was fetched. */
    ghost predicate AllAssigned() {
      forall a :: a in slotBanks ==> a in assignedBytes
    }

    lemma AllRequestsAssigned(starts: set<int>)
      requires Valid() && AllAssigned() && forall a :: a in starts ==> a in slotBanks
      ensures RequestsAssigned(starts)
    {
    }

    /** Every start address lies in memory that is not paged. */
    ghost predicate UnpagedStarts(starts: set<int>) {
      forall a :: a in starts ==> a in slotBanks && slotBanks[a].singleBank
    }

    lemma {:induction false} PathStaysUnpaged(starts: set<int>, p: seq<Point>, i: nat)
      requires Valid() && UnpagedStarts(starts) && IsPath(starts, p) && i < |p|
      ensures UnpagedSlot(p[i].slot)
    {
      if i > 0 {
        PathStaysUnpaged(starts, p, i - 1);
        assert Step(p[i - 1], p[i]);
      }
    }

    /** From unpaged memory, no line ever enters a paged slot. */
    lemma UnpagedLinesStay(starts: set<int>)
      requires Valid() && UnpagedStarts(starts)
      ensures LinesStay(starts)
    {
      forall s | Reaches(starts, s)
        ensures AtHome(s)
      {
        var p :| IsPath(starts, p) && p[|p| - 1] == s;
        PathStaysUnpaged(starts, p, |p| - 1);
        PathIsPlaced(starts, p, |p| - 1);
      }
    }
  }
}
