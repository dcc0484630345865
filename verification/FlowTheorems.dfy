/** What the finished first pass has established. */
module FlowTheorems {
  import opened Z80Image
  import opened Flow

  /** The worklist is empty and every start address has been dealt with. */
  ghost predicate Done(img: Image, starts: set<int>, p: Progress) {
    && Inv(img, starts, p, {}, {})
    && forall a :: a in starts ==> p.First(a) || p.RefusedAt(a) || a !in img.assignedBytes
  }

  lemma {:induction false} TraceReaches(img: Image, starts: set<int>, p: Progress, i: nat)
    requires img.Valid() && Sound(img, starts, p) && i < |p.trace|
    ensures img.Reaches(starts, p.trace[i])
  {
    assert Caused(img, starts, p, i, p.trace[i]);
    if img.Init(starts, p.trace[i]) {
      img.ReachInit(starts, p.trace[i]);
    } else {
      var k :| 0 <= k < i && !p.StoppedAt(p.trace[k].addr) && img.Step(p.trace[k], p.trace[i]);
      TraceReaches(img, starts, p, k);
      img.ReachStep(starts, p.trace[k], p.trace[i]);
    }
  }

  /** Soundness, in every run: only reachable addresses become CODE_FIRST. */
  lemma AnalysedIsReachable(img: Image, starts: set<int>, p: Progress, a: int)
    requires Done(img, starts, p) && p.First(a)
    ensures img.ReachesAddr(starts, a)
  {
    var i :| 0 <= i < |p.trace| && p.trace[i].addr == a;
    TraceReaches(img, starts, p, i);
    assert img.Reaches(starts, Point(a, p.trace[i].slot));
  }

  /** In every run, two instructions overlap only when the second one in memory
      was analysed before the first one, and then the overlap is reported and the
      flow ends there. */
  lemma OverlapIsReported(img: Image, starts: set<int>, p: Progress, s: int, t: int)
    requires Done(img, starts, p) && p.First(s) && p.First(t) && img.Inside(s, t)
    ensures p.StoppedAt(s)
    ensures exists i, j :: 0 <= i < j < |p.trace| && p.trace[i].addr == t && p.trace[j].addr == s
  {
    var i :| 0 <= i < |p.trace| && p.trace[i].addr == t;
    var j :| 0 <= j < |p.trace| && p.trace[j].addr == s;
    assert i != j && !(j < i);
  }

  /** In every run: behind an instruction at which the analysis did not stop, the
      straight line either went on with the very next analysed instruction, or it
      met the start of a node that is CODE_FIRST. */
  lemma LineContinuesOrJoinsNode(img: Image, starts: set<int>, p: Progress, i: nat, t: Point)
    requires Done(img, starts, p) && i < |p.trace|
    requires !p.StoppedAt(p.trace[i].addr) && img.Falls(p.trace[i], t)
    ensures p.First(t.addr)
    ensures t.addr in p.nodes || (i + 1 < |p.trace| && p.trace[i + 1] == t)
  {
    assert Continued(p, {}, i, t);
  }

  lemma StepStaysAnalysed(img: Image, starts: set<int>, p: Progress, s: Point, t: Point)
    requires Done(img, starts, p) && !p.Ambiguity() && img.BordersAgree(starts)
    requires img.Reaches(starts, s) && p.First(s.addr) && img.Step(s, t)
    ensures p.First(t.addr)
  {
    hide Sound, Fresh, Reported, Rooted, Explained, Wanted;
    var i :| 0 <= i < |p.trace| && p.trace[i].addr == s.addr;
    var r := p.trace[i];
    TraceReaches(img, starts, p, i);
    assert img.SameSuccessors(s, r) && img.MayLead(s.addr, t.addr);
    assert !p.StoppedAt(r.addr) && !p.RefusedAt(t.addr);
    if img.Falls(s, t) {
      assert img.Falls(r, Point(t.addr, r.slot));
      LineContinuesOrJoinsNode(img, starts, p, i, Point(t.addr, r.slot));
    } else {
      assert img.Queues(r, t.addr);
      NodesAreFirst(img, starts, p);
    }
  }

  lemma {:induction false} PathIsAnalysed(img: Image, starts: set<int>, p: Progress, path: seq<Point>, i: nat)
    requires Done(img, starts, p) && !p.Ambiguity() && img.BordersAgree(starts)
    requires img.IsPath(starts, path) && i < |path|
    ensures p.First(path[i].addr) && img.Reaches(starts, path[i])
  {
    if i == 0 {
      assert !p.RefusedAt(path[0].addr);
      img.ReachInit(starts, path[0]);
    } else {
      PathIsAnalysed(img, starts, p, path, i - 1);
      StepStaysAnalysed(img, starts, p, path[i - 1], path[i]);
      img.ReachStep(starts, path[i - 1], path[i]);
    }
  }

  /** Exactness: without an ambiguity comment the CODE_FIRST addresses are exactly
      the reachable ones, as long as it does not matter from which slot an instruction
      is reached. */
  lemma FlowIsReachability(img: Image, starts: set<int>, p: Progress, a: int)
    requires Done(img, starts, p) && !p.Ambiguity() && img.BordersAgree(starts)
    ensures p.First(a) <==> img.ReachesAddr(starts, a)
  {
    if p.First(a) {
      AnalysedIsReachable(img, starts, p, a);
    }
    if img.ReachesAddr(starts, a) {
      var slot :| img.Reaches(starts, Point(a, slot));
      var path :| img.IsPath(starts, path) && path[|path| - 1] == Point(a, slot);
      PathIsAnalysed(img, starts, p, path, |path| - 1);
    }
  }

  /** Two reachable instructions share a byte without being the same. */
  ghost predicate ReachableOverlap(img: Image, starts: set<int>)
    requires img.Valid()
  {
    exists s, t :: img.ReachesAddr(starts, s) && img.ReachesAddr(starts, t) && img.Inside(s, t)
  }

  /** The analysis of an instruction asks for a node at `b`. */
  lemma TraceRequests(img: Image, starts: set<int>, p: Progress, k: nat, b: int)
    requires Done(img, starts, p) && k < |p.trace| && img.Queues(p.trace[k], b)
    ensures img.Requested(starts, b)
  {
    TraceReaches(img, starts, p, k);
  }

  lemma TargetIsRequested(img: Image, starts: set<int>, p: Progress, b: int)
    requires Done(img, starts, p) && Target(img, starts, p, b) && forall a :: a in starts ==> a in img.slotBanks
    ensures img.Requested(starts, b) && b in img.slotBanks
  {
    hide Sound, Fresh, Reported, Rooted, Closed, Explained, Wanted;
    if b !in starts {
      var k :| 0 <= k < |p.trace| && !p.StoppedAt(p.trace[k].addr) && img.Queues(p.trace[k], b);
      TraceRequests(img, starts, p, k, b);
    }
  }

  lemma RequestIsReachable(img: Image, starts: set<int>, b: int)
    requires img.Valid() && img.Requested(starts, b) && b in img.assignedBytes && b in img.slotBanks
    ensures img.ReachesAddr(starts, b)
  {
    hide Image.Reaches;
    var t := Point(b, img.slotBanks[b].slot);
    if b in starts {
      img.ReachInit(starts, t);
    } else {
      var s :| img.Reaches(starts, s) && img.Queues(s, b);
      img.ReachStep(starts, s, t);
    }
  }

  /** A comment is about two reachable instructions that overlap, or about memory inside
      of one to which a flow leads, but which was not fetched. */
  lemma CommentMeansConflict(img: Image, starts: set<int>, p: Progress)
    requires Done(img, starts, p) && (forall a :: a in starts ==> a in img.slotBanks) && p.Ambiguity()
    ensures ReachableOverlap(img, starts) || !img.InsidesAssigned(starts)
  {
    hide Sound, Fresh, Reported, Rooted, Closed;
    var c :| c in p.comments && c.Ambiguous?;
    assert Witnessed(img, starts, p, c);
    if c.origin < c.target {
      var u :| p.First(u) && img.Inside(c.origin, u);
      AnalysedIsReachable(img, starts, p, c.origin);
      AnalysedIsReachable(img, starts, p, u);
    } else {
      var u :| p.First(u) && img.Inside(u, c.target);
      AnalysedIsReachable(img, starts, p, u);
      TargetIsRequested(img, starts, p, c.target);
      if img.InsidesAssigned(starts) {
        RequestIsReachable(img, starts, c.target);
      }
    }
  }

  lemma OverlapMeansComment(img: Image, starts: set<int>, p: Progress)
    requires Done(img, starts, p) && img.BordersAgree(starts)
    requires ReachableOverlap(img, starts)
    ensures p.Ambiguity()
  {
    var s, t :| img.ReachesAddr(starts, s) && img.ReachesAddr(starts, t) && img.Inside(s, t);
    if !p.Ambiguity() {
      FlowIsReachability(img, starts, p, s);
      FlowIsReachability(img, starts, p, t);
      OverlapIsReported(img, starts, p, s, t);
    }
  }

  /** When no flow leads to unfetched memory inside of an instruction, and it does not
      matter from which slots instructions are reached, the analysis reports an ambiguity
      if and only if two reachable instructions really overlap; whether it does therefore
      does not depend on the order in which the flows are followed. */
  lemma AmbiguityIffOverlap(img: Image, starts: set<int>, p: Progress)
    requires Done(img, starts, p) && forall a :: a in starts ==> a in img.slotBanks
    requires img.BordersAgree(starts) && img.InsidesAssigned(starts)
    ensures p.Ambiguity() <==> ReachableOverlap(img, starts)
  {
    if p.Ambiguity() {
      CommentMeansConflict(img, starts, p);
    }
    if ReachableOverlap(img, starts) {
      OverlapMeansComment(img, starts, p);
    }
  }
}
