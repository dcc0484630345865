/** The first pass of the smart disassembler on values: the invariant that
    `createNodes` keeps after every analysed instruction, and what it means once
    the worklist is empty. */
module Flow {
  import opened Z80Image

  /** The comments of the disassembly, without their wording. */
  datatype Comment =
    | Ambiguous(origin: int, target: int)
    | DifferentBank(origin: int, target: int)
    | BranchToUnassigned(origin: int, target: int)
    | OpcodeSpreadsOverBanks(origin: int)

  /** The progress of the analysis: the analysed instructions in the order in
      which they were analysed, the addresses that have a node, and the comments. */
  datatype Progress = Progress(trace: seq<Point>, nodes: set<int>, comments: seq<Comment>)
  {
    /** `a` carries the CODE_FIRST attribute. */
    ghost predicate First(a: int) {
      exists i :: 0 <= i < |trace| && trace[i].addr == a
    }

    /** `b` carries the FLOW_ANALYZED attribute. */
    ghost predicate Analysed(img: Image, b: int) {
      exists i :: 0 <= i < |trace| && img.Covers(trace[i].addr, b)
    }

    /** The analysis stopped right after the instruction at `a`, because one of
        its other bytes had been analysed before. */
    ghost predicate StoppedAt(a: int) {
      exists f :: f > a && Ambiguous(a, f) in comments
    }

    /** A node was refused at `a`. */
    ghost predicate RefusedAt(a: int) {
      Ambiguous(a, a) in comments
    }

    ghost predicate Ambiguity() {
      exists c :: c in comments && c.Ambiguous?
    }
  }

  /** A start address, or a followed flow, wants a node at `b`. */
  ghost predicate Target(img: Image, starts: set<int>, p: Progress, b: int)
    requires img.Valid()
  {
    || b in starts
    || exists k :: 0 <= k < |p.trace| && !p.StoppedAt(p.trace[k].addr) && img.Queues(p.trace[k], b)
  }

  /** The flow that was followed to `s`: `s` is a start, or one control flow step
      away from one of the first `n` analysed instructions at which the analysis
      did not stop. */
  ghost predicate Caused(img: Image, starts: set<int>, p: Progress, n: nat, s: Point)
    requires img.Valid() && n <= |p.trace|
  {
    || img.Init(starts, s)
    || exists k :: 0 <= k < n && !p.StoppedAt(p.trace[k].addr) && img.Step(p.trace[k], s)
  }

  ghost predicate Sound(img: Image, starts: set<int>, p: Progress)
    requires img.Valid()
  {
    forall i :: 0 <= i < |p.trace| ==> p.trace[i].addr in img.slotBanks && Caused(img, starts, p, i, p.trace[i])
  }

  /** No instruction was analysed at a byte that had been analysed before. */
  ghost predicate Fresh(img: Image, p: Progress) {
    forall i, j :: 0 <= i < j < |p.trace| ==> !img.Covers(p.trace[i].addr, p.trace[j].addr)
  }

  /** An instruction that runs into an earlier analysed one is reported and ends
      its flow. */
  ghost predicate Reported(img: Image, p: Progress) {
    forall i, j :: 0 <= i < j < |p.trace| && img.Inside(p.trace[j].addr, p.trace[i].addr)
      ==> p.StoppedAt(p.trace[j].addr)
  }

  /** The plain predecessor through which the flow came to `s`. */
  ghost predicate FlowedInto(img: Image, p: Progress, s: Point) {
    exists k :: 0 <= k < |p.trace| && img.Falls(p.trace[k], s) && !p.StoppedAt(p.trace[k].addr)
  }

  /** Every node lies at an analysed instruction (or the one that is about to be
      analysed), and an instruction without node continues a straight line. */
  ghost predicate Rooted(img: Image, p: Progress, current: set<Point>) {
    && (forall a :: a in p.nodes ==> p.First(a) || exists s :: s in current && s.addr == a)
    && (forall i :: 0 <= i < |p.trace| ==> p.trace[i].addr in p.nodes || FlowedInto(img, p, p.trace[i]))
  }

  /** What became of the straight line behind the i-th analysed instruction: it
      joined an existing node or went on right there. */
  ghost predicate Continued(p: Progress, current: set<Point>, i: int, t: Point)
    requires 0 <= i < |p.trace|
  {
    || t.addr in p.nodes
    || (i + 1 < |p.trace| && p.trace[i + 1] == t)
    || (i + 1 == |p.trace| && t in current)
  }

  /** What became of the request for a node at `b`. */
  ghost predicate Settled(img: Image, p: Progress, b: int) {
    b in p.nodes || p.RefusedAt(b) || b !in img.assignedBytes
  }

  /** Every flow that was not stopped has been followed, or is still waiting. */
  ghost predicate Closed(img: Image, p: Progress, current: set<Point>, pending: set<int>)
    requires img.Valid()
  {
    forall i :: 0 <= i < |p.trace| && !p.StoppedAt(p.trace[i].addr) ==>
      && (forall t :: img.Falls(p.trace[i], t) ==> Continued(p, current, i, t))
      && (forall b :: img.Queues(p.trace[i], b) ==> b in pending || Settled(img, p, b))
  }

  /** Some analysed instruction other than the one at `a` explains the comment. */
  ghost predicate Witnessed(img: Image, starts: set<int>, p: Progress, c: Comment)
    requires img.Valid()
  {
    && c.Ambiguous?
    && if c.origin < c.target then
         p.First(c.origin) && exists u :: p.First(u) && img.Inside(c.origin, u)
       else
         c.origin == c.target && Target(img, starts, p, c.target) && exists u :: p.First(u) && img.Inside(u, c.target)
  }

  ghost predicate Explained(img: Image, starts: set<int>, p: Progress)
    requires img.Valid()
  {
    forall c :: c in p.comments ==> Witnessed(img, starts, p, c)
  }

  ghost predicate Wanted(img: Image, starts: set<int>, p: Progress, pending: set<int>)
    requires img.Valid()
  {
    forall b :: b in pending ==> b in img.slotBanks && Target(img, starts, p, b)
  }

  /** The invariant of the first pass. `current` holds the point that is about to
      be analysed, `pending` the worklist. */
  ghost predicate Inv(img: Image, starts: set<int>, p: Progress, current: set<Point>, pending: set<int>) {
    && img.Valid()
    && Sound(img, starts, p)
    && Fresh(img, p)
    && Reported(img, p)
    && Rooted(img, p, current)
    && Closed(img, p, current, pending)
    && Explained(img, starts, p)
    && Wanted(img, starts, p, pending)
  }

  /** `s` may be analysed next. */
  ghost predicate Ready(img: Image, starts: set<int>, p: Progress, s: Point)
    requires img.Valid()
  {
    && s.addr in img.slotBanks
    && Caused(img, starts, p, |p.trace|, s)
    && !p.Analysed(img, s.addr)
    && (s.addr in p.nodes || FlowedInto(img, p, s))
  }

  /** `q` is `p` after the instruction at `s` has been analysed, where `overlap`
      holds the first address at which it ran into analysed code. */
  ghost predicate Visited(img: Image, p: Progress, s: Point, overlap: set<int>, q: Progress) {
    && q.trace == p.trace + [s]
    && q.nodes == p.nodes
    && if overlap == {} then
         q.comments == p.comments && forall b :: img.Inside(s.addr, b) ==> !p.Analysed(img, b)
       else
         exists f :: overlap == {f} && img.Inside(s.addr, f) && p.Analysed(img, f)
              && (forall b :: s.addr < b < f ==> !p.Analysed(img, b))
              && q.comments == p.comments + [Ambiguous(s.addr, f)]
  }

  lemma VisitGrows(img: Image, p: Progress, s: Point, overlap: set<int>, q: Progress)
    requires Visited(img, p, s, overlap, q)
    ensures forall a :: q.First(a) <==> p.First(a) || a == s.addr
    ensures forall b :: q.Analysed(img, b) <==> p.Analysed(img, b) || img.Covers(s.addr, b)
    ensures forall c :: c in p.comments ==> c in q.comments
    ensures forall a :: p.StoppedAt(a) ==> q.StoppedAt(a)
    ensures overlap == {} ==> forall a :: q.StoppedAt(a) ==> p.StoppedAt(a)
    ensures overlap != {} ==> q.StoppedAt(s.addr)
    ensures forall a :: q.StoppedAt(a) ==> p.StoppedAt(a) || a == s.addr
  {
    assert q.trace[|p.trace|] == s;
    forall a | p.First(a) ensures q.First(a) {
      var i :| 0 <= i < |p.trace| && p.trace[i].addr == a;
      assert q.trace[i].addr == a;
    }
    forall b | p.Analysed(img, b) ensures q.Analysed(img, b) {
      var i :| 0 <= i < |p.trace| && img.Covers(p.trace[i].addr, b);
      assert img.Covers(q.trace[i].addr, b);
    }
    forall b | img.Covers(s.addr, b) ensures q.Analysed(img, b) {
      assert img.Covers(q.trace[|p.trace|].addr, b);
    }
  }

  lemma SameTrace(img: Image, p: Progress, q: Progress)
    requires p.trace == q.trace
    ensures forall a :: p.First(a) == q.First(a)
    ensures forall b :: p.Analysed(img, b) == q.Analysed(img, b)
  {
  }

  /** A first byte is analysed. */
  lemma FirstIsAnalysed(img: Image, p: Progress, a: int)
    requires p.First(a)
    ensures p.Analysed(img, a)
  {
    var i :| 0 <= i < |p.trace| && p.trace[i].addr == a;
    assert img.Covers(p.trace[i].addr, a);
  }

  /** When the byte behind fresh bytes is analysed already, it is the first byte
      of an instruction and a node starts there: the flow can never run into the
      inside of an instruction or into the middle of a node. */
  lemma JoinsAtNode(img: Image, p: Progress, current: set<Point>, a: int, n: int)
    requires Rooted(img, p, current)
    requires a < n && forall b :: a <= b < n ==> !p.Analysed(img, b)
    requires p.Analysed(img, n)
    ensures p.First(n) && n in p.nodes
  {
    forall k | 0 <= k < |p.trace|
      ensures img.Next(p.trace[k].addr) <= a || n <= p.trace[k].addr
    {
      var u := p.trace[k].addr;
      assert img.Covers(u, u) && p.Analysed(img, u) && !p.Analysed(img, a);
    }
    var i :| 0 <= i < |p.trace| && img.Covers(p.trace[i].addr, n);
    assert !FlowedInto(img, p, p.trace[i]);
  }

  /** The same right after the instruction at `s` was analysed. */
  lemma VisitJoins(img: Image, starts: set<int>, p: Progress, s: Point, q: Progress, n: int)
    requires img.Valid() && Rooted(img, p, {s}) && Ready(img, starts, p, s) && Visited(img, p, s, {}, q)
    requires n == img.Next(s.addr) && q.Analysed(img, n)
    ensures n in q.nodes
  {
    VisitGrows(img, p, s, {}, q);
    forall b | s.addr <= b < n
      ensures !p.Analysed(img, b)
    {
      assert b == s.addr || img.Inside(s.addr, b);
    }
    JoinsAtNode(img, p, {s}, s.addr, n);
  }

  // Visiting an instruction keeps the invariant, part by part.

  lemma VisitKeepsStops(img: Image, p: Progress, s: Point, overlap: set<int>, q: Progress)
    requires Visited(img, p, s, overlap, q) && !p.Analysed(img, s.addr)
    ensures forall i :: 0 <= i < |p.trace| ==> q.trace[i] == p.trace[i]
    ensures forall i :: 0 <= i < |p.trace| ==> p.trace[i].addr != s.addr
    ensures forall i :: 0 <= i < |p.trace| ==> q.StoppedAt(p.trace[i].addr) == p.StoppedAt(p.trace[i].addr)
  {
    VisitGrows(img, p, s, overlap, q);
    if p.First(s.addr) {
      FirstIsAnalysed(img, p, s.addr);
    }
    assert forall i :: 0 <= i < |p.trace| ==> p.First(p.trace[i].addr);
  }

  lemma VisitKeepsTarget(img: Image, starts: set<int>, p: Progress, s: Point, overlap: set<int>, q: Progress, b: int)
    requires img.Valid() && Visited(img, p, s, overlap, q) && !p.Analysed(img, s.addr)
    requires Target(img, starts, p, b)
    ensures Target(img, starts, q, b)
  {
    VisitKeepsStops(img, p, s, overlap, q);
    if b !in starts {
      var k :| 0 <= k < |p.trace| && !p.StoppedAt(p.trace[k].addr) && img.Queues(p.trace[k], b);
      assert img.Queues(q.trace[k], b);
    }
  }

  lemma VisitKeepsSound(img: Image, starts: set<int>, p: Progress, s: Point, overlap: set<int>, q: Progress)
    requires img.Valid() && Sound(img, starts, p)
    requires Ready(img, starts, p, s) && Visited(img, p, s, overlap, q)
    ensures Sound(img, starts, q)
  {
    VisitKeepsStops(img, p, s, overlap, q);
    forall i | 0 <= i < |q.trace|
      ensures q.trace[i].addr in img.slotBanks && Caused(img, starts, q, i, q.trace[i])
    {
      assert Caused(img, starts, p, i, q.trace[i]);
      if !img.Init(starts, q.trace[i]) {
        var k :| 0 <= k < i && !p.StoppedAt(p.trace[k].addr) && img.Step(p.trace[k], q.trace[i]);
        assert img.Step(q.trace[k], q.trace[i]);
      }
    }
  }

  lemma VisitKeepsOrder(img: Image, starts: set<int>, p: Progress, s: Point, overlap: set<int>, q: Progress)
    requires img.Valid()
    requires Fresh(img, p) && Reported(img, p)
    requires Ready(img, starts, p, s) && Visited(img, p, s, overlap, q)
    ensures Fresh(img, q) && Reported(img, q)
  {
    VisitGrows(img, p, s, overlap, q);
    forall i, j | 0 <= i < j < |q.trace|
      ensures !img.Covers(q.trace[i].addr, q.trace[j].addr)
      ensures img.Inside(q.trace[j].addr, q.trace[i].addr) ==> q.StoppedAt(q.trace[j].addr)
    {
      if j == |p.trace| {
        assert q.trace[i] == p.trace[i];
        assert p.First(p.trace[i].addr);
        FirstIsAnalysed(img, p, p.trace[i].addr);
      }
    }
  }

  lemma VisitKeepsRooted(img: Image, starts: set<int>, p: Progress, s: Point, overlap: set<int>, q: Progress,
                         current: set<Point>)
    requires img.Valid() && Rooted(img, p, {s}) && Fresh(img, p)
    requires Ready(img, starts, p, s) && Visited(img, p, s, overlap, q)
    ensures Rooted(img, q, current)
  {
    VisitGrows(img, p, s, overlap, q);
    forall i | 0 <= i < |q.trace|
      ensures q.trace[i].addr in q.nodes || FlowedInto(img, q, q.trace[i])
    {
      if q.trace[i].addr !in q.nodes {
        assert FlowedInto(img, p, q.trace[i]);
        var k :| 0 <= k < |p.trace| && img.Falls(p.trace[k], q.trace[i]) && !p.StoppedAt(p.trace[k].addr);
        assert q.trace[k] == p.trace[k];
        assert p.First(p.trace[k].addr);
        FirstIsAnalysed(img, p, p.trace[k].addr);
      }
    }
  }

  lemma VisitKeepsClosed(img: Image, starts: set<int>, p: Progress, s: Point, overlap: set<int>, q: Progress,
                         current: set<Point>, pending: set<int>, pending': set<int>)
    requires img.Valid() && Closed(img, p, {s}, pending) && pending <= pending'
    requires Ready(img, starts, p, s) && Visited(img, p, s, overlap, q)
    requires overlap == {} ==> forall t :: img.Falls(s, t) ==> t.addr in q.nodes || t in current
    requires overlap == {} ==> forall b :: img.Queues(s, b) ==> b in pending'
    ensures Closed(img, q, current, pending')
  {
    VisitGrows(img, p, s, overlap, q);
    forall i | 0 <= i < |q.trace| && !q.StoppedAt(q.trace[i].addr)
      ensures forall t :: img.Falls(q.trace[i], t) ==> Continued(q, current, i, t)
      ensures forall b :: img.Queues(q.trace[i], b) ==> b in pending' || Settled(img, q, b)
    {
      if i < |p.trace| {
        assert q.trace[i] == p.trace[i];
      }
    }
  }

  lemma VisitKeepsExplained(img: Image, starts: set<int>, p: Progress, s: Point, overlap: set<int>, q: Progress)
    requires img.Valid() && Explained(img, starts, p)
    requires Ready(img, starts, p, s) && Visited(img, p, s, overlap, q)
    ensures Explained(img, starts, q)
  {
    VisitGrows(img, p, s, overlap, q);
    forall c | c in q.comments
      ensures Witnessed(img, starts, q, c)
    {
      if c in p.comments {
        assert Witnessed(img, starts, p, c);
        if c.origin == c.target {
          VisitKeepsTarget(img, starts, p, s, overlap, q, c.target);
        }
      } else {
        var i :| 0 <= i < |p.trace| && img.Covers(p.trace[i].addr, c.target);
        var u := p.trace[i].addr;
        assert p.First(u);
        assert img.Inside(c.origin, u);
      }
    }
  }

  lemma VisitKeepsWanted(img: Image, starts: set<int>, p: Progress, s: Point, overlap: set<int>, q: Progress,
                         pending: set<int>, pushed: set<int>)
    requires img.Valid() && Wanted(img, starts, p, pending) && Explained(img, starts, p)
    requires Ready(img, starts, p, s) && Visited(img, p, s, overlap, q)
    requires forall b :: b in pushed ==> overlap == {} && img.Queues(s, b)
    ensures Wanted(img, starts, q, pending + pushed)
  {
    forall b | b in pending + pushed
      ensures b in img.slotBanks && Target(img, starts, q, b)
    {
      if b in pending {
        VisitKeepsTarget(img, starts, p, s, overlap, q, b);
      } else {
        ReadyIsNotStopped(img, starts, p, s);
        VisitGrows(img, p, s, overlap, q);
        assert img.Queues(q.trace[|p.trace|], b);
      }
    }
  }

  /** The analysis of the instruction at `s` keeps the invariant. Unless it ended
      in an overlap, `pushed` holds the addresses at which nodes have to start,
      and the straight line goes on at `current` or met a node. */
  lemma VisitKeepsInv(img: Image, starts: set<int>, p: Progress, s: Point, overlap: set<int>, q: Progress,
                      current: set<Point>, pending: set<int>, pushed: set<int>)
    requires Inv(img, starts, p, {s}, pending)
    requires Ready(img, starts, p, s) && Visited(img, p, s, overlap, q)
    requires overlap == {} ==> forall t :: img.Falls(s, t) ==> t.addr in q.nodes || t in current
    requires overlap == {} ==> forall b :: img.Queues(s, b) ==> b in pushed
    requires forall b :: b in pushed ==> overlap == {} && img.Queues(s, b)
    ensures Inv(img, starts, q, current, pending + pushed)
  {
    VisitKeepsSound(img, starts, p, s, overlap, q);
    VisitKeepsOrder(img, starts, p, s, overlap, q);
    VisitKeepsRooted(img, starts, p, s, overlap, q, current);
    VisitKeepsClosed(img, starts, p, s, overlap, q, current, pending, pending + pushed);
    VisitKeepsExplained(img, starts, p, s, overlap, q);
    VisitKeepsWanted(img, starts, p, s, overlap, q, pending, pushed);
  }

  /** The instruction behind `s` may be analysed next when it is still fresh. */
  lemma FallIsReady(img: Image, starts: set<int>, p: Progress, s: Point, q: Progress, t: Point)
    requires img.Valid() && Ready(img, starts, p, s) && Visited(img, p, s, {}, q) && img.Falls(s, t)
    requires !p.StoppedAt(s.addr) && !q.Analysed(img, t.addr)
    ensures Ready(img, starts, q, t)
  {
    VisitGrows(img, p, s, {}, q);
    assert q.trace[|p.trace|] == s;
    assert FlowedInto(img, q, t);
  }

  /** An instruction that is about to be analysed has not been stopped at. */
  lemma ReadyIsNotStopped(img: Image, starts: set<int>, p: Progress, s: Point)
    requires img.Valid() && Explained(img, starts, p) && Ready(img, starts, p, s)
    ensures !p.StoppedAt(s.addr)
  {
    if p.First(s.addr) {
      FirstIsAnalysed(img, p, s.addr);
    }
  }

  /** Only a node or a refusal at `b` was added. */
  ghost predicate Settles(img: Image, p: Progress, b: int, q: Progress) {
    && q.trace == p.trace
    && (|| (q.nodes == p.nodes + {b} && q.comments == p.comments)
        || (q.nodes == p.nodes && q.comments == p.comments + [Ambiguous(b, b)]))
  }

  lemma SettleGrows(img: Image, p: Progress, b: int, q: Progress)
    requires Settles(img, p, b, q)
    ensures forall a :: q.First(a) == p.First(a)
    ensures forall a :: q.Analysed(img, a) == p.Analysed(img, a)
    ensures forall a :: q.StoppedAt(a) == p.StoppedAt(a)
    ensures Settled(img, q, b)
    ensures forall a :: Settled(img, p, a) ==> Settled(img, q, a)
  {
    assert forall c :: c in p.comments ==> c in q.comments;
    assert q.comments != p.comments ==> q.comments[|p.comments|] == Ambiguous(b, b);
  }

  lemma SettleKeepsRooted(img: Image, p: Progress, b: int, q: Progress, current: set<Point>)
    requires Settles(img, p, b, q) && Rooted(img, p, {})
    requires b in q.nodes ==> p.First(b) || exists s :: s in current && s.addr == b
    ensures Rooted(img, q, current)
  {
    SettleGrows(img, p, b, q);
    forall i | 0 <= i < |q.trace|
      ensures q.trace[i].addr in q.nodes || FlowedInto(img, q, q.trace[i])
    {
      assert p.trace[i].addr in p.nodes || FlowedInto(img, p, p.trace[i]);
    }
  }

  lemma SettleKeepsClosed(img: Image, p: Progress, b: int, q: Progress, current: set<Point>, pending: set<int>)
    requires img.Valid() && Settles(img, p, b, q) && Closed(img, p, {}, pending + {b})
    ensures Closed(img, q, current, pending)
  {
    SettleGrows(img, p, b, q);
    forall i | 0 <= i < |q.trace| && !q.StoppedAt(q.trace[i].addr)
      ensures forall t :: img.Falls(q.trace[i], t) ==> Continued(q, current, i, t)
      ensures forall c :: img.Queues(q.trace[i], c) ==> c in pending || Settled(img, q, c)
    {
      assert forall t :: img.Falls(p.trace[i], t) ==> Continued(p, {}, i, t);
    }
  }

  lemma SettleKeepsExplained(img: Image, starts: set<int>, p: Progress, b: int, q: Progress)
    requires img.Valid() && Settles(img, p, b, q) && Explained(img, starts, p)
    requires q.comments != p.comments ==> p.Analysed(img, b) && !p.First(b) && Target(img, starts, p, b)
    ensures Explained(img, starts, q)
  {
    SettleGrows(img, p, b, q);
    forall c | c in q.comments
      ensures Witnessed(img, starts, q, c)
    {
      if c in p.comments {
        assert Witnessed(img, starts, p, c);
      } else {
        var i :| 0 <= i < |p.trace| && img.Covers(p.trace[i].addr, b);
        assert p.First(p.trace[i].addr);
      }
    }
  }

  /** The waiting request for a node at `b` is granted or refused. */
  lemma SettleKeepsInv(img: Image, starts: set<int>, p: Progress, b: int, q: Progress, current: set<Point>,
                       pending: set<int>)
    requires Inv(img, starts, p, {}, pending + {b}) && Settles(img, p, b, q)
    requires b in q.nodes ==> p.First(b) || exists s :: s in current && s.addr == b
    requires q.comments != p.comments ==> p.Analysed(img, b) && !p.First(b)
    ensures Inv(img, starts, q, current, pending)
  {
    SettleKeepsRooted(img, p, b, q, current);
    SettleKeepsClosed(img, p, b, q, current, pending);
    assert b in pending + {b};
    SettleKeepsExplained(img, starts, p, b, q);
    SettleGrows(img, p, b, q);
  }

  /** A waiting request leads to a node in the middle of analysed code. */
  lemma JoinKeepsInv(img: Image, starts: set<int>, p: Progress, b: int, q: Progress, pending: set<int>)
    requires Inv(img, starts, p, {}, pending + {b}) && p.First(b)
    requires q == p.(nodes := p.nodes + {b})
    ensures Inv(img, starts, q, {}, pending) && Settled(img, q, b)
  {
    hide Inv;
    SettleKeepsInv(img, starts, p, b, q, {}, pending);
  }

  /** It is refused inside of an analysed instruction. */
  lemma RefuseKeepsInv(img: Image, starts: set<int>, p: Progress, b: int, q: Progress, pending: set<int>)
    requires Inv(img, starts, p, {}, pending + {b}) && p.Analysed(img, b) && !p.First(b) && b !in p.nodes
    requires q == p.(comments := p.comments + [Ambiguous(b, b)])
    ensures Inv(img, starts, q, {}, pending) && Settled(img, q, b)
  {
    hide Inv;
    SettleKeepsInv(img, starts, p, b, q, {}, pending);
  }

  /** It leads to a new node, whose flow is to be followed next. */
  lemma GrantKeepsInv(img: Image, starts: set<int>, p: Progress, b: int, q: Progress, pending: set<int>)
    requires Inv(img, starts, p, {}, pending + {b}) && b in img.slotBanks && b in img.assignedBytes
             && !p.Analysed(img, b)
    requires q == p.(nodes := p.nodes + {b})
    ensures Inv(img, starts, q, {Point(b, img.slotBanks[b].slot)}, pending)
    ensures Ready(img, starts, q, Point(b, img.slotBanks[b].slot))
  {
    hide Sound, Fresh, Reported, Rooted, Closed, Explained;
    SettleKeepsInv(img, starts, p, b, q, {Point(b, img.slotBanks[b].slot)}, pending);
    assert b in pending + {b};
  }

  lemma WaitingIsMapped(img: Image, starts: set<int>, p: Progress, b: int, pending: set<int>)
    requires Inv(img, starts, p, {}, pending + {b})
    ensures b in img.slotBanks && img.Valid()
  {
    hide Sound, Fresh, Reported, Rooted, Closed, Explained;
    assert b in pending + {b};
  }

  lemma EmptyInv(img: Image, starts: set<int>, p: Progress)
    requires img.Valid() && p == Progress([], {}, [])
    ensures Inv(img, starts, p, {}, {})
  {
  }

  lemma NodesAreFirst(img: Image, starts: set<int>, p: Progress)
    requires Inv(img, starts, p, {}, {})
    ensures forall a :: a in p.nodes ==> p.First(a)
  {
  }

  lemma FirstIsMapped(img: Image, starts: set<int>, p: Progress, a: int)
    requires Inv(img, starts, p, {}, {}) && p.First(a)
    ensures a in img.slotBanks
  {
  }

  /** A flow may start at each of the start addresses. */
  lemma RequestKeepsInv(img: Image, starts: set<int>, p: Progress, b: int)
    requires Inv(img, starts, p, {}, {}) && b in starts && b in img.slotBanks
    ensures Inv(img, starts, p, {}, {b})
  {
  }

  /** The waiting request for a node at `b` needs no node. */
  lemma SkipKeepsInv(img: Image, starts: set<int>, p: Progress, b: int, pending: set<int>)
    requires Inv(img, starts, p, {}, pending + {b}) && Settled(img, p, b)
    ensures Inv(img, starts, p, {}, pending)
  {
  }
}
