/** Small memory images on which the analysis shows its limits. */
module FlowExamples {
  import opened Z80Image
  import opened Flow
  import opened FlowTheorems
  import opened NodeLayout

  function Instruction(length: OpcodeLength): Opcode {
    Opcode(length, false, false, false, false, false, false, 0)
  }

  /** RET */
  function Return(): Opcode {
    Instruction(1).(stop := true, ret := true)
  }

  /** JP nn */
  function Jump(target: int): Opcode {
    Instruction(3).(branchAddress := true, stop := true, value := target)
  }

  /** CALL nn */
  function CallTo(target: int): Opcode {
    Instruction(3).(branchAddress := true, call := true, value := target)
  }

  predicate InMemory(a: int) {
    0 <= a < MEM_SIZE
  }

  function Addresses(): set<int> {
    set a | 0 <= a < MEM_SIZE && InMemory(a)
  }

  /** The parts of a finished run in which nothing was stopped or refused. */
  lemma IsDone(img: Image, starts: set<int>, p: Progress)
    requires img.Valid() && p.comments == [] && starts <= p.nodes
    requires Sound(img, starts, p) && Fresh(img, p) && Reported(img, p) && Rooted(img, p, {}) && Closed(img, p, {}, {})
    ensures Done(img, starts, p)
  {
    hide Sound, Fresh, Reported, Closed;
    assert Explained(img, starts, p) && Wanted(img, starts, p, {});
  }

  lemma IsRooted(img: Image, p: Progress)
    requires forall i :: 0 <= i < |p.trace| ==> p.trace[i].addr in p.nodes
    requires forall a :: a in p.nodes ==> p.First(a)
    ensures Rooted(img, p, {})
  {
  }

  // A skipped byte that is code.

  function SkipCode(a: int): Opcode {
    if a == 0 then CallTo(10) else if a == 4 then Jump(3) else Return()
  }

  /** CALL 10 at address 0 skips the byte at 3, but JP 3 at address 4 leads there. */
  function SkipImage(): (img: Image)
    ensures img.Valid() && img.AllAssigned()
  {
    Image(a => SkipCode(a), map a | a in Addresses() :: SlotBank(0, true), Addresses(), map[3 := 1])
  }

  /** How the analysis runs. */
  function SkipRun(): Progress {
    Progress([Point(0, 0), Point(4, 0), Point(3, 0), Point(10, 0)], {0, 4, 3, 10}, [])
  }

  lemma SkipLayout()
    ensures var img := SkipImage();
            && img.Next(0) == 3 && img.Next(4) == 7 && img.Next(3) == 4 && img.Next(10) == 11
            && img.EndOfLast(0) == 4
  {
    assert SkipImage().SkipOver(4) == 4;
  }

  lemma SkipFlow(b: int)
    ensures var img := SkipImage();
            && (img.Queues(Point(0, 0), b) <==> b == 4 || b == 10)
            && (img.Queues(Point(4, 0), b) <==> b == 3)
            && !img.Queues(Point(3, 0), b) && !img.Queues(Point(10, 0), b)
  {
    assert SkipImage().SkipOver(4) == 4;
  }

  lemma SkipNeverFalls(s: Point, t: Point)
    ensures !SkipImage().Falls(s, t)
  {
  }

  lemma SkipSteps(a: int, b: int)
    requires b in SkipImage().slotBanks && SkipImage().Queues(Point(a, 0), b)
    ensures SkipImage().Step(Point(a, 0), Point(b, 0))
  {
  }

  lemma SkipRunIsSound()
    ensures Sound(SkipImage(), {0}, SkipRun())
  {
    var img, p := SkipImage(), SkipRun();
    assert img.Init({0}, p.trace[0]);
    SkipFlow(4);
    SkipFlow(3);
    SkipFlow(10);
    hide SkipImage;
    SkipSteps(0, 4);
    SkipSteps(4, 3);
    SkipSteps(0, 10);
  }

  lemma SkipRunIsApart()
    ensures Fresh(SkipImage(), SkipRun()) && Reported(SkipImage(), SkipRun())
  {
    hide SkipImage;
    SkipLayout();
  }

  lemma SkipRunIsRooted()
    ensures Rooted(SkipImage(), SkipRun(), {})
  {
    hide SkipImage, Rooted;
    var p := SkipRun();
    assert p.trace[0].addr == 0 && p.trace[1].addr == 4 && p.trace[2].addr == 3 && p.trace[3].addr == 10;
    IsRooted(SkipImage(), p);
  }

  lemma SkipRunIsClosed()
    ensures Closed(SkipImage(), SkipRun(), {}, {})
  {
    hide SkipImage, Image.Falls, Image.Queues;
    var img, p := SkipImage(), SkipRun();
    forall i | 0 <= i < |p.trace|
      ensures forall t :: !img.Falls(p.trace[i], t)
      ensures forall b :: img.Queues(p.trace[i], b) ==> b in p.nodes
    {
      forall t {
        SkipNeverFalls(p.trace[i], t);
      }
      forall b {
        SkipFlow(b);
      }
    }
  }

  lemma SkipRunIsDone()
    ensures Done(SkipImage(), {0}, SkipRun())
  {
    hide SkipImage, Sound, Inv, Rooted, Fresh, Reported, Closed;
    SkipRunIsSound();
    SkipRunIsApart();
    SkipRunIsRooted();
    SkipRunIsClosed();
    IsDone(SkipImage(), {0}, SkipRun());
  }

  /** Whatever the run, it reports nothing, and yet two nodes share a byte. */
  lemma SkippedCodeIsShared(p: Progress, l: Layout)
    requires l.img == SkipImage() && Done(l.img, {0}, p)
    requires forall a :: a in l.first <==> p.First(a)
    requires p.nodes <= l.nodes
    requires forall n :: n in l.nodes ==> n in l.first
    ensures !p.Ambiguity() && l.Clean() && !l.NodesDisjoint()
  {
    hide Inv, SkipImage;
    var img := SkipImage();
    SkipReaches();
    SkipHasNoOverlap();
    SkipBordersAgree();
    img.AllRequestsAssigned({0});
    AmbiguityIffOverlap(img, {0}, p);
    NodesDisjointIffUnreachable({0}, p, l);
    SkipLayout();
    assert img.Covers(3, 3) && img.SkipMeets(0, 3);
  }

  lemma SkipReaches()
    ensures SkipImage().ReachesAddr({0}, 0) && SkipImage().ReachesAddr({0}, 3)
  {
    hide *;
    var img, p := SkipImage(), SkipRun();
    SkipRunIsDone();
    SkipRunIs();
    AnalysedIsReachable(img, {0}, p, 0);
    AnalysedIsReachable(img, {0}, p, 3);
  }

  lemma SkipRunIs()
    ensures forall a :: SkipRun().First(a) <==> a in SkipRun().nodes
    ensures SkipRun().nodes == {0, 3, 4, 10} && !SkipRun().Ambiguity()
  {
    var p := SkipRun();
    assert p.trace[0].addr == 0 && p.trace[1].addr == 4 && p.trace[2].addr == 3 && p.trace[3].addr == 10;
  }

  lemma SkipBordersAgree()
    ensures SkipImage().BordersAgree({0}) && 0 in SkipImage().slotBanks
  {
    hide Image.LinesStay, Image.BordersAgree;
    SkipImage().UnpagedLinesStay({0});
    SkipImage().LinesStayAgree({0});
  }

  lemma SkipHasNoOverlap()
    ensures !ReachableOverlap(SkipImage(), {0})
  {
    hide *;
    var img, p := SkipImage(), SkipRun();
    SkipRunIsDone();
    SkipRunIs();
    SkipBordersAgree();
    SkipIsAssigned();
    AmbiguityIffOverlap(img, {0}, p);
  }

  lemma SkipIsAssigned()
    ensures SkipImage().RequestsAssigned({0})
  {
    SkipImage().AllRequestsAssigned({0});
  }

  // A straight line that leaves its paged slot.

  function PagedCode(a: int): Opcode {
    if a == 0 then Jump(20) else if a == 20 then Jump(10) else if a == 19 then Instruction(1) else Return()
  }

  function PagedSlot(a: int): SlotBank {
    if a < 10 then SlotBank(0, true) else if a < 20 then SlotBank(1, false) else SlotBank(2, true)
  }

  /** JP 20 at address 0, and JP 10 at address 20, which is only accessible to what
      comes from the paged slot, such as the instruction at 19. */
  function PagedImage(): (img: Image)
    ensures img.Valid() && img.AllAssigned()
  {
    Image(a => PagedCode(a), map a | a in Addresses() :: PagedSlot(a), Addresses(), map[])
  }

  /** The start address 0 comes first: the line from 19 then joins the node at 20. */
  function PagedRun(): Progress {
    Progress([Point(0, 0), Point(20, 2), Point(19, 1)], {0, 20, 19}, [])
  }

  lemma PagedFlow(b: int)
    ensures var img := PagedImage();
            && (img.Queues(Point(0, 0), b) <==> b == 20)
            && !img.Queues(Point(20, 2), b)
            && !img.Queues(Point(19, 1), b)
            && (img.Queues(Point(20, 1), b) <==> b == 10)
  {
  }

  lemma PagedLines(t: Point)
    ensures var img := PagedImage();
            && !img.Falls(Point(0, 0), t) && !img.Falls(Point(20, 2), t)
            && (img.Falls(Point(19, 1), t) <==> t == Point(20, 1))
  {
  }

  lemma PagedSteps()
    ensures var img := PagedImage();
            && img.Init({0, 19}, Point(0, 0)) && img.Init({0, 19}, Point(19, 1))
            && img.Step(Point(0, 0), Point(20, 2))
            && img.Step(Point(19, 1), Point(20, 1)) && img.Step(Point(20, 1), Point(10, 1))
  {
    PagedFlow(20);
    PagedFlow(10);
    PagedLines(Point(20, 1));
  }

  lemma PagedLayout()
    ensures var img := PagedImage();
            && img.Next(0) == 3 && img.Next(20) == 23 && img.Next(19) == 20
            && 0 in img.slotBanks && 19 in img.slotBanks && 20 in img.slotBanks
  {
  }

  lemma PagedRunIsSound()
    ensures Sound(PagedImage(), {0, 19}, PagedRun())
    ensures Fresh(PagedImage(), PagedRun()) && Reported(PagedImage(), PagedRun())
  {
    hide PagedImage, Image.Init, Image.Step;
    PagedLayout();
    PagedSteps();
    var img, p := PagedImage(), PagedRun();
    assert !p.StoppedAt(p.trace[0].addr) && img.Step(p.trace[0], p.trace[1]);
  }

  lemma PagedRunIsRooted()
    ensures Rooted(PagedImage(), PagedRun(), {})
    ensures forall a :: PagedRun().First(a) <==> a in {0, 19, 20}
  {
    hide PagedImage, Rooted;
    var p := PagedRun();
    assert p.trace[0].addr == 0 && p.trace[1].addr == 20 && p.trace[2].addr == 19;
    IsRooted(PagedImage(), p);
  }

  lemma PagedRunIsClosed()
    ensures Closed(PagedImage(), PagedRun(), {}, {})
  {
    hide PagedImage, Image.Falls, Image.Queues;
    var img, p := PagedImage(), PagedRun();
    forall i | 0 <= i < |p.trace|
      ensures forall t :: img.Falls(p.trace[i], t) ==> t.addr in p.nodes
      ensures forall b :: img.Queues(p.trace[i], b) ==> b in p.nodes
    {
      forall t {
        PagedLines(t);
      }
      forall b {
        PagedFlow(b);
      }
    }
  }

  /** The run is finished and reports nothing, and yet the code at 10 is reachable and
      has not been analysed. */
  lemma PagedCodeIsMissed()
    ensures Done(PagedImage(), {0, 19}, PagedRun()) && !PagedRun().Ambiguity()
    ensures PagedImage().ReachesAddr({0, 19}, 10) && !PagedRun().First(10)
    ensures !PagedImage().BordersAgree({0, 19})
  {
    hide PagedImage, Sound, Inv, Rooted, Fresh, Reported, Closed, Image.Init, Image.Step, Image.BordersAgree;
    var img, starts := PagedImage(), {0, 19};
    PagedRunIsSound();
    PagedRunIsRooted();
    PagedRunIsClosed();
    IsDone(img, starts, PagedRun());
    PagedSteps();
    img.ReachInit(starts, Point(19, 1));
    img.ReachStep(starts, Point(19, 1), Point(20, 1));
    img.ReachStep(starts, Point(20, 1), Point(10, 1));
    if img.BordersAgree(starts) {
      FlowIsReachability(img, starts, PagedRun(), 10);
    }
  }

  // Skips that reach the end of the memory.

  /** How many bytes are skipped at an address. */
  function SkipAt(skips: map<int, nat>, a: int): nat {
    if a in skips then skips[a] else 0
  }

  /** Where the first pass is after `n` skips: it goes on at the start of the memory. */
  function FirstPassAfter(skips: map<int, nat>, a: int, n: nat): int {
    if n == 0 then a else
      var b := FirstPassAfter(skips, a, n - 1);
      if SkipAt(skips, b) > 0 then (b + SkipAt(skips, b)) % MEM_SIZE else b
  }

  /** Where the second pass is after `n` skips. */
  function SecondPassAfter(skips: map<int, nat>, a: int, n: nat): int {
    if n == 0 then a else
      var b := SecondPassAfter(skips, a, n - 1);
      b + SkipAt(skips, b)
  }

  /** After any number of skips, the two passes are at the same address if and only if
      the second one is still in the memory. If it is not, the first pass is in the memory
      all the same, where it asks for a node that the second one does not link. */
  lemma {:induction false} PassesAgreeIff(skips: map<int, nat>, a: int, n: nat)
    requires 0 <= a < MEM_SIZE
    ensures 0 <= FirstPassAfter(skips, a, n) < MEM_SIZE && a <= SecondPassAfter(skips, a, n)
    ensures FirstPassAfter(skips, a, n) == SecondPassAfter(skips, a, n) <==> SecondPassAfter(skips, a, n) < MEM_SIZE
  {
    if n > 0 {
      PassesAgreeIff(skips, a, n - 1);
    }
  }

  /** Where no skip wraps, this is where the execution resumes in both passes. */
  lemma {:induction false} PassesResume(img: Image, a: int, n: nat)
    requires img.Valid() && 0 <= a < MEM_SIZE
    ensures FirstPassAfter(img.skips, a, n) == SecondPassAfter(img.skips, a, n) < MEM_SIZE
    ensures img.SkipOver(SecondPassAfter(img.skips, a, n)) == img.SkipOver(a)
    ensures SkipAt(img.skips, SecondPassAfter(img.skips, a, n)) == 0 ==>
              SecondPassAfter(img.skips, a, n) == img.SkipOver(a)
  {
    if n > 0 {
      PassesResume(img, a, n - 1);
    }
  }
}
