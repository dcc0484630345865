/** The second pass on values: which instructions belong to a node, where it
    ends, and why the nodes partition the code. */
module NodeLayout {
  import opened Z80Image
  import opened Flow
  import opened FlowTheorems

  /** What the first pass and the labels leave behind: the CODE_FIRST addresses
      and the addresses of the nodes. */
  datatype Layout = Layout(img: Image, first: set<int>, nodes: set<int>)
  {
    /** Another CODE_FIRST address lies inside of the instruction at `a`. */
    predicate Overlapped(a: int) {
      exists f :: f in first && img.Inside(a, f)
    }

    /** A node whose slot is `slot` ends with the instruction at `a`. */
    predicate EndsNode(a: int, slot: int) {
      var op := img.decode(a);
      || op.branchAddress || op.stop
      || img.Next(a) >= MEM_SIZE
      || img.Next(a) in nodes
      || Overlapped(a)
      || img.BankBorderPassed(slot, img.Next(a))
    }

    /** The addresses of the instructions from `a` up to the end of the node. */
    function Trail(a: int, slot: int): (t: seq<int>)
      ensures |t| > 0 && t[0] == a
      decreases MEM_SIZE - a
    {
      if EndsNode(a, slot) then [a] else [a] + Trail(img.Next(a), slot)
    }

    function Slot(n: int): int {
      if n in img.slotBanks then img.slotBanks[n].slot else 0
    }

    function NodeTrail(n: int): seq<int> {
      Trail(n, Slot(n))
    }

    function NodeEnd(n: int): int
      requires img.Valid()
    {
      var t := NodeTrail(n);
      img.EndOfLast(t[|t| - 1])
    }

    /** `b` is not accessible from the slot of `a`. */
    predicate Bars(a: int, b: int) {
      img.BankBorderPassed(Slot(a), b)
    }

    ghost predicate Owns(n: int, a: int) {
      n in nodes && a in NodeTrail(n)
    }

    ghost predicate HasOwner(a: int) {
      exists n :: Owns(n, a)
    }

    /** The layout of any run, ambiguous or not. */
    ghost predicate Followed() {
      && img.Valid()
      && (forall n :: n in nodes ==> n in first)
      && (forall a :: a in first ==> a in img.slotBanks)
      && (forall a {:trigger HasOwner(a)} :: a in first ==> HasOwner(a))
    }

    /** All instructions of a node are CODE_FIRST. */
    ghost predicate IsCode(n: int) {
      forall i :: 0 <= i < |NodeTrail(n)| ==> NodeTrail(n)[i] in first
    }

    /** A node leads to `b`, be it over a branch, a call, or a straight line. */
    ghost predicate LeadsTo(n: int, b: int)
      requires img.Valid()
    {
      b in BranchTargets(Last(n), Slot(n)) || (img.decode(Last(n)).branchAddress && b == img.decode(Last(n)).value)
    }

    /** Every accessible address that a node leads to has a node. */
    ghost predicate HasTargets(n: int)
      requires img.Valid()
    {
      forall b :: LeadsTo(n, b) ==> b in nodes || Bars(n, b)
    }

    /** The layout of an unambiguous run. */
    ghost predicate Clean() {
      && Followed()
      && (forall s, t {:trigger img.Inside(s, t)} :: s in first && t in first ==> !img.Inside(s, t))
      && (forall n {:trigger IsCode(n)} :: n in nodes ==> IsCode(n))
      && (forall n {:trigger HasTargets(n)} :: n in nodes ==> HasTargets(n))
    }

    /** The instructions at the given addresses. */
    function Codes(t: seq<int>): seq<Opcode> {
      seq(|t|, i requires 0 <= i < |t| => img.decode(t[i]))
    }

    /** The data addresses that the instructions at the given addresses refer to. */
    function DataLabels(t: seq<int>): seq<int> {
      if t == [] then [] else
        var op := img.decode(t[|t| - 1]);
        DataLabels(t[..|t| - 1]) + if op.dataLabel then [op.value] else []
    }

    /** A value is among them exactly if one of the instructions has it as its data operand. */
    lemma {:induction false} DataLabelsAre(t: seq<int>, v: int)
      ensures v in DataLabels(t) <==> exists a <- t :: img.decode(a).dataLabel && img.decode(a).value == v
    {
      if t != [] {
        DataLabelsAre(t[..|t| - 1], v);
        var last := t[|t| - 1];
        assert last in t && forall a :: a in t <==> a in t[..|t| - 1] || a == last;
      }
    }

    /** The pseudo instructions for the bytes that are skipped from `a` on. */
    function SkipCodes(a: int): seq<Opcode>
      requires img.Valid()
      decreases MEM_SIZE - a
    {
      if a in img.skips && img.skips[a] > 0 then
        [SkipPseudoOpcode(img.skips[a])] + SkipCodes(a + img.skips[a])
      else
        []
    }

    /** All instructions of a node whose last one is at `last`. */
    function NodeCodes(t: seq<int>): seq<Opcode>
      requires img.Valid() && |t| > 0
    {
      var last := t[|t| - 1];
      var op := img.decode(last);
      Codes(t) + if op.branchAddress && !op.stop then SkipCodes(img.Next(last)) else []
    }

    /** Where the flow goes from the last instruction of a node, calls excluded. */
    function BranchTargets(last: int, slot: int): seq<int>
      requires img.Valid()
    {
      var op := img.decode(last);
      if op.branchAddress then
        (if !op.stop && img.EndOfLast(last) < MEM_SIZE then [img.EndOfLast(last)] else [])
        + (if !op.call then [op.value] else [])
      else if op.stop || img.Next(last) >= MEM_SIZE then
        []
      else if img.Next(last) in nodes || !Overlapped(last) then
        [img.Next(last)]
      else
        []
    }

    /** Adjacent instructions of which only the first one may start a node. */
    ghost predicate IsLine(t: seq<int>) {
      forall i :: 0 < i < |t| ==> Follows(t, i)
    }

    ghost predicate Follows(t: seq<int>, i: int)
      requires 0 < i < |t|
    {
      t[i] == img.Next(t[i - 1]) && t[i] !in nodes
    }

    lemma {:induction false} TrailIsLine(a: int, slot: int)
      ensures IsLine(Trail(a, slot))
      decreases MEM_SIZE - a
    {
      if !EndsNode(a, slot) {
        TrailIsLine(img.Next(a), slot);
        var u := Trail(img.Next(a), slot);
        var t := [a] + u;
        forall i | 0 < i < |t| ensures Follows(t, i) {
          assert i > 1 ==> Follows(u, i - 1);
        }
      }
    }

    lemma {:induction false} LineAscends(t: seq<int>, i: nat, j: nat)
      requires IsLine(t) && i < j < |t|
      ensures img.Next(t[i]) <= t[j]
    {
      assert Follows(t, j);
      if i + 1 < j {
        LineAscends(t, i, j - 1);
      }
    }

    /** In a clean layout the trail of a node consists of CODE_FIRST instructions. */
    ghost predicate IsRun(t: seq<int>) {
      IsLine(t) && forall i :: 0 <= i < |t| ==> t[i] in first
    }

    lemma NodeIsRun(n: int)
      requires Clean() && n in nodes
      ensures IsRun(NodeTrail(n)) && Last(n) in first
    {
      TrailIsLine(n, Slot(n));
      assert IsCode(n);
    }

    /** An address within the bytes of a run belongs to one of its instructions. */
    lemma {:induction false} RunCovers(t: seq<int>, b: int) returns (i: nat)
      requires IsRun(t) && |t| > 0 && t[0] <= b < img.Next(t[|t| - 1])
      ensures i < |t| && img.Covers(t[i], b)
    {
      var last := |t| - 1;
      if t[last] <= b {
        i := last;
      } else {
        assert Follows(t, last);
        assert forall i :: 0 < i < last ==> Follows(t, i) ==> Follows(t[..last], i);
        i := RunCovers(t[..last], b);
      }
    }

    function Last(n: int): int {
      var t := NodeTrail(n);
      t[|t| - 1]
    }

    lemma NodeStartsRun(t: seq<int>, i: nat, m: int)
      requires Clean() && IsRun(t) && i < |t| && m in nodes && img.Covers(t[i], m)
      ensures m == t[0]
    {
      assert i > 0 ==> Follows(t, i);
      assert !img.Inside(t[i], m);
    }

    /** No other node starts within the instructions of a node. */
    lemma NodesAreApart(n: int, m: int)
      requires Clean() && n in nodes && m in nodes && n < m
      ensures img.Next(Last(n)) <= m
    {
      NodeIsRun(n);
      if m < img.Next(Last(n)) {
        var i := RunCovers(NodeTrail(n), m);
        NodeStartsRun(NodeTrail(n), i, m);
      }
    }

    /** No instruction belongs to two nodes. */
    lemma OneOwner(a: int, n: int, m: int)
      requires Clean() && n in nodes && m in nodes
      requires a in NodeTrail(n) && a in NodeTrail(m)
      ensures n == m
    {
      TrailBounds(n, a);
      TrailBounds(m, a);
      if n < m {
        NodesAreApart(n, m);
      } else if m < n {
        NodesAreApart(m, n);
      }
    }

    lemma TrailBounds(n: int, a: int)
      requires a in NodeTrail(n)
      ensures n <= a < img.Next(a) <= img.Next(Last(n))
    {
      TrailIsLine(n, Slot(n));
      var t := NodeTrail(n);
      var i :| 0 <= i < |t| && t[i] == a;
      if 0 < i { LineAscends(t, 0, i); }
      if i < |t| - 1 { LineAscends(t, i, |t| - 1); }
    }

    /** The nodes partition the code: every CODE_FIRST instruction lies in exactly
        one node, and nodes contain nothing else. */
    lemma NodesPartitionCode(a: int)
      requires Clean()
      ensures a in first <==> exists n :: Owns(n, a)
      ensures forall n, m :: Owns(n, a) && Owns(m, a) ==> n == m
    {
      if a in first {
        assert HasOwner(a);
      }
      forall n | Owns(n, a) ensures a in first {
        NodeIsRun(n);
      }
      forall n, m | Owns(n, a) && Owns(m, a) ensures n == m {
        OneOwner(a, n, m);
      }
    }

    /** The bytes of the node at `n`. */
    predicate InNode(n: int, b: int)
      requires img.Valid()
    {
      n <= b < NodeEnd(n)
    }

    ghost predicate NodesDisjoint()
      requires img.Valid()
    {
      forall n, m, b :: n in nodes && m in nodes && InNode(n, b) && InNode(m, b) ==> n == m
    }

    /** No byte that is skipped behind a call is also code. */
    ghost predicate SkipsAreData()
      requires img.Valid()
    {
      forall a, u {:trigger img.SkipMeets(a, u)} :: a in first && u in first ==> !img.SkipMeets(a, u)
    }

    lemma GoesOnInMemory(a: int, slot: int)
      ensures !EndsNode(a, slot) ==> img.Next(a) < MEM_SIZE
    {
    }

    /** The k-th instruction of a trail ends the node exactly when it is the last
        one; otherwise the next one lies right behind it. */
    lemma {:induction false} TrailStep(a: int, slot: int, k: nat)
      requires k < |Trail(a, slot)|
      ensures var t := Trail(a, slot);
              if EndsNode(t[k], slot) then k == |t| - 1 else k + 1 < |t| && t[k + 1] == img.Next(t[k])
      decreases k
    {
      if k > 0 {
        TrailStep(img.Next(a), slot, k - 1);
      }
    }

    /** A line goes on behind an instruction. */
    ghost predicate LineGoesOn(a: int, slot: int) {
      && !img.decode(a).branchAddress && !img.decode(a).stop
      && img.Next(a) < MEM_SIZE && img.Next(a) !in nodes && !img.BankBorderPassed(slot, img.Next(a))
      && forall f :: f in first ==> !img.Inside(a, f)
    }

    ghost predicate GoesOnAt(t: seq<int>, slot: int, k: int)
      requires 0 <= k < |t| - 1
    {
      LineGoesOn(t[k], slot) && t[k + 1] == img.Next(t[k])
    }

    /** A straight line from `a` on, up to the first instruction that branches or stops, or behind
        which the memory, the bank or the node ends, or inside of which another one starts. */
    ghost predicate IsNodeLine(t: seq<int>, a: int, slot: int) {
      && |t| > 0 && t[0] == a && !LineGoesOn(t[|t| - 1], slot)
      && forall k :: 0 <= k < |t| - 1 ==> GoesOnAt(t, slot, k)
    }

    lemma {:induction false} LinesAgree(t: seq<int>, u: seq<int>, a: int, slot: int, k: nat)
      requires IsNodeLine(t, a, slot) && IsNodeLine(u, a, slot) && k < |t| && k < |u|
      ensures t[k] == u[k]
    {
      hide LineGoesOn;
      if k > 0 {
        LinesAgree(t, u, a, slot, k - 1);
        assert GoesOnAt(t, slot, k - 1) && GoesOnAt(u, slot, k - 1);
      }
    }

    /** Which instructions belong to a node: exactly those of this line. */
    lemma TrailIs(a: int, slot: int, t: seq<int>)
      ensures t == Trail(a, slot) <==> IsNodeLine(t, a, slot)
    {
      hide LineGoesOn, Trail;
      var u := Trail(a, slot);
      TrailIsNodeLine(a, slot);
      if IsNodeLine(t, a, slot) {
        forall k | 0 <= k < |t| && k < |u|
          ensures t[k] == u[k]
        {
          LinesAgree(t, u, a, slot, k);
        }
        assert |t| < |u| ==> GoesOnAt(u, slot, |t| - 1);
        assert |u| < |t| ==> GoesOnAt(t, slot, |u| - 1);
      }
    }

    lemma TrailIsNodeLine(a: int, slot: int)
      ensures IsNodeLine(Trail(a, slot), a, slot)
    {
      var u := Trail(a, slot);
      TrailStep(a, slot, |u| - 1);
      forall k | 0 <= k < |u| - 1
        ensures GoesOnAt(u, slot, k)
      {
        TrailStep(a, slot, k);
      }
    }

    lemma BranchEndsNode(n: int, a: int)
      requires Owns(n, a) && img.decode(a).branchAddress
      ensures a == Last(n)
    {
      var t := NodeTrail(n);
      var i :| 0 <= i < |t| && t[i] == a;
      TrailStep(n, Slot(n), i);
    }

    lemma SkippedCodeOverlaps(a: int, u: int)
      requires Clean() && a in first && u in first && img.SkipMeets(a, u)
      ensures !NodesDisjoint()
    {
      var b :| img.Next(a) <= b < img.EndOfLast(a) && img.Covers(u, b);
      assert HasOwner(a) && HasOwner(u);
      var n :| Owns(n, a);
      var m :| Owns(m, u);
      BranchEndsNode(n, a);
      assert !img.Inside(u, a);
      TrailBounds(n, a);
      TrailBounds(m, u);
      if m < n {
        NodesAreApart(m, n);
      } else if n < m {
        assert InNode(n, u) ==> InNode(m, u);
        assert !img.Inside(a, u);
        LastEndsInside(m);
        assert InNode(m, u) && InNode(n, u);
      } else {
        assert false;
      }
    }

    lemma LastEndsInside(n: int)
      requires img.Valid()
      ensures img.Next(Last(n)) <= NodeEnd(n)
    {
    }

    /** The byte ranges of the nodes, which include skipped bytes, are pairwise
        disjoint if and only if no skipped byte is code. */
    lemma NodesDisjointIff()
      requires Clean()
      ensures NodesDisjoint() <==> SkipsAreData()
    {
      if NodesDisjoint() {
        forall a, u | a in first && u in first
          ensures !img.SkipMeets(a, u)
        {
          if img.SkipMeets(a, u) {
            SkippedCodeOverlaps(a, u);
          }
        }
      }
      if SkipsAreData() {
        forall n, m, b | n in nodes && m in nodes && InNode(n, b) && InNode(m, b)
          ensures n == m
        {
          if n < m {
            NodeEndsBefore(n, m);
          } else if m < n {
            NodeEndsBefore(m, n);
          }
        }
      }
    }

    lemma NodeEndsBefore(n: int, m: int)
      requires Clean() && SkipsAreData() && n in nodes && m in nodes && n < m
      ensures NodeEnd(n) <= m
    {
      NodesAreApart(n, m);
      NodeIsRun(n);
      if m < NodeEnd(n) {
        assert img.Covers(m, m) && img.SkipMeets(Last(n), m);
      }
    }
  }

  /** Every analysed instruction lies in a node, from which the same addresses are
      accessible as from the one in which it was analysed. */
  lemma {:induction false} AnalysedHasOwner(l: Layout, starts: set<int>, p: Progress, i: nat) returns (n: int)
    requires Done(l.img, starts, p) && i < |p.trace|
    requires forall a :: a in l.first <==> p.First(a)
    requires p.nodes <= l.nodes
    ensures l.Owns(n, p.trace[i].addr) && n <= p.trace[i].addr
    ensures forall b :: b >= p.trace[i].addr ==> l.Bars(n, b) == l.img.BankBorderPassed(p.trace[i].slot, b)
    decreases p.trace[i].addr
  {
    hide Sound, Fresh, Reported, Closed, Explained, Wanted;
    var s := p.trace[i];
    if s.addr in l.nodes {
      n := s.addr;
      BordersFromHere(l, starts, p, i);
    } else {
      assert FlowedInto(l.img, p, s);
      var k :| 0 <= k < |p.trace| && l.img.Falls(p.trace[k], s) && !p.StoppedAt(p.trace[k].addr);
      n := AnalysedHasOwner(l, starts, p, k);
      NotOverlapped(l, starts, p, k);
      var t := l.NodeTrail(n);
      var j :| 0 <= j < |t| && t[j] == p.trace[k].addr;
      l.TrailStep(n, l.Slot(n), j);
      assert t[j + 1] in t;
    }
  }

  lemma BordersFromHere(l: Layout, starts: set<int>, p: Progress, i: nat)
    requires Done(l.img, starts, p) && i < |p.trace|
    ensures forall b :: b >= p.trace[i].addr ==>
              l.Bars(p.trace[i].addr, b) == l.img.BankBorderPassed(p.trace[i].slot, b)
  {
    var s := p.trace[i];
    TraceReaches(l.img, starts, p, i);
    var path :| l.img.IsPath(starts, path) && path[|path| - 1] == s;
    l.img.PathIsPlaced(starts, path, |path| - 1);
    forall b | b >= s.addr
      ensures l.Bars(s.addr, b) == l.img.BankBorderPassed(s.slot, b)
    {
      l.img.SameBorders(s, b);
    }
  }

  lemma NotOverlapped(l: Layout, starts: set<int>, p: Progress, k: nat)
    requires Done(l.img, starts, p) && k < |p.trace| && !p.StoppedAt(p.trace[k].addr)
    requires forall a :: a in l.first <==> p.First(a)
    ensures !l.Overlapped(p.trace[k].addr)
  {
    assert p.First(p.trace[k].addr);
    forall f | f in l.first ensures !l.img.Inside(p.trace[k].addr, f) {
      if l.img.Inside(p.trace[k].addr, f) {
        OverlapIsReported(l.img, starts, p, p.trace[k].addr, f);
      }
    }
  }

  /** The address of an analysed instruction, which the node at `n` contains: ahead of it
      the same addresses are accessible from both, and elsewhere all that are accessible
      from the node are so as well. */
  ghost predicate Traced(l: Layout, p: Progress, n: int, a: int, i: nat) {
    && i < |p.trace| && p.trace[i].addr == a
    && (forall b :: b >= a ==> l.Bars(n, b) == l.img.BankBorderPassed(p.trace[i].slot, b))
    && (forall b :: l.img.BankBorderPassed(p.trace[i].slot, b) ==> l.Bars(n, b))
  }

  lemma NodeIsTraced(l: Layout, starts: set<int>, p: Progress, i: nat)
    requires Done(l.img, starts, p) && i < |p.trace|
    ensures Traced(l, p, p.trace[i].addr, p.trace[i].addr, i)
  {
    hide Sound, Fresh, Reported, Rooted, Closed, Explained, Wanted;
    BordersFromHere(l, starts, p, i);
    TraceReaches(l.img, starts, p, i);
    var path :| l.img.IsPath(starts, path) && path[|path| - 1] == p.trace[i];
    l.img.PathIsPlaced(starts, path, |path| - 1);
  }

  /** What an analysed instruction asks for, and is accessible from the node that contains
      it, has a node. */
  lemma TracedAsks(l: Layout, starts: set<int>, p: Progress, n: int, i: nat, b: int)
    requires Done(l.img, starts, p) && !p.Ambiguity() && l.img.RequestsAssigned(starts)
    requires i < |p.trace| && Traced(l, p, n, p.trace[i].addr, i) && !l.Bars(n, b)
    requires var op := l.img.decode(p.trace[i].addr);
             if op.branchAddress then b == op.value || (!op.stop && b == l.img.SkipOver(l.img.Next(p.trace[i].addr)))
             else op.ret && op.conditional && b == l.img.Next(p.trace[i].addr)
    ensures b in p.nodes
  {
    hide Sound, Fresh, Reported, Rooted, Explained, Wanted;
    assert l.img.Queues(p.trace[i], b);
    TraceRequests(l.img, starts, p, i, b);
    assert Settled(l.img, p, b);
  }

  /** The next instruction of a node has been analysed as well. */
  lemma TracedGoesOn(l: Layout, starts: set<int>, p: Progress, n: int, a: int, i: nat)
    requires Done(l.img, starts, p) && !p.Ambiguity() && l.img.RequestsAssigned(starts)
    requires Traced(l, p, n, a, i) && !l.EndsNode(a, l.Slot(n)) && p.nodes <= l.nodes
    ensures Traced(l, p, n, l.img.Next(a), i + 1)
  {
    hide Sound, Fresh, Reported, Rooted, Explained, Wanted, Closed;
    var op, t := l.img.decode(a), Point(l.img.Next(a), p.trace[i].slot);
    if op.ret && op.conditional {
      TracedAsks(l, starts, p, n, i, t.addr);
    } else {
      assert l.img.Falls(p.trace[i], t);
      LineContinuesOrJoinsNode(l.img, starts, p, i, t);
    }
  }

  /** In an unambiguous run all instructions of a node have been analysed, whatever the
      slots through which its line runs. */
  lemma {:induction false} TrailIsTraced(l: Layout, starts: set<int>, p: Progress, n: int, k: nat) returns (i: nat)
    requires Done(l.img, starts, p) && !p.Ambiguity() && l.img.RequestsAssigned(starts)
    requires p.nodes <= l.nodes && n in l.nodes && p.First(n) && k < |l.NodeTrail(n)|
    ensures Traced(l, p, n, l.NodeTrail(n)[k], i)
  {
    hide Done, Traced, Layout.EndsNode, Progress.Ambiguity;
    if k == 0 {
      i :| 0 <= i < |p.trace| && p.trace[i].addr == n;
      NodeIsTraced(l, starts, p, i);
    } else {
      l.TrailStep(n, l.Slot(n), k - 1);
      var j := TrailIsTraced(l, starts, p, n, k - 1);
      TracedGoesOn(l, starts, p, n, l.NodeTrail(n)[k - 1], j);
      i := j + 1;
    }
  }

  /** The nodes contain only analysed code ... */
  lemma NodeIsCode(l: Layout, starts: set<int>, p: Progress, n: int)
    requires Done(l.img, starts, p) && !p.Ambiguity() && l.img.RequestsAssigned(starts)
    requires forall a :: a in l.first <==> p.First(a)
    requires p.nodes <= l.nodes && n in l.nodes && n in l.first
    ensures l.IsCode(n)
  {
    hide Done, Layout.NodeTrail;
    forall k | 0 <= k < |l.NodeTrail(n)|
      ensures l.NodeTrail(n)[k] in l.first
    {
      var i := TrailIsTraced(l, starts, p, n, k);
      assert p.First(l.NodeTrail(n)[k]);
    }
  }

  /** ... and every accessible address that a node leads to has a node. */
  lemma TargetsHaveNodes(l: Layout, starts: set<int>, p: Progress, n: int)
    requires Done(l.img, starts, p) && !p.Ambiguity() && l.img.RequestsAssigned(starts)
    requires forall a :: a in l.first <==> p.First(a)
    requires p.nodes <= l.nodes && n in l.nodes && n in l.first
    ensures l.HasTargets(n)
  {
    hide Sound, Fresh, Reported, Rooted, Closed, Explained, Wanted, Layout.Trail, Traced;
    var last := |l.NodeTrail(n)| - 1;
    l.TrailStep(n, l.Slot(n), last);
    var i := TrailIsTraced(l, starts, p, n, last);
    forall b | l.LeadsTo(n, b)
      ensures b in l.nodes || l.Bars(n, b)
    {
      if !l.Bars(n, b) && l.img.decode(l.Last(n)).branchAddress {
        TracedIs(l, p, n, l.Last(n), i);
        TracedAsks(l, starts, p, n, i, b);
      }
    }
  }

  lemma TracedIs(l: Layout, p: Progress, n: int, a: int, i: nat)
    requires Traced(l, p, n, a, i)
    ensures i < |p.trace| && p.trace[i].addr == a
  {
  }

  /** In every run of the first pass, ambiguous or not, every CODE_FIRST instruction
      belongs to a node, whatever further nodes the labels add. */
  lemma DoneIsFollowed(starts: set<int>, p: Progress, l: Layout)
    requires Done(l.img, starts, p)
    requires forall a :: a in l.first <==> p.First(a)
    requires p.nodes <= l.nodes
    requires forall n :: n in l.nodes ==> n in l.first
    ensures l.Followed()
  {
    hide Sound, Fresh, Reported, Rooted, Closed, Explained, Wanted;
    forall a | a in l.first ensures a in l.img.slotBanks && l.HasOwner(a) {
      var i :| 0 <= i < |p.trace| && p.trace[i].addr == a;
      FirstIsMapped(l.img, starts, p, a);
      var n := AnalysedHasOwner(l, starts, p, i);
    }
  }

  /** A run without ambiguity leaves a clean layout, as long as no flow leads to memory
      that was not fetched. */
  lemma DoneIsClean(starts: set<int>, p: Progress, l: Layout)
    requires Done(l.img, starts, p) && !p.Ambiguity() && l.img.RequestsAssigned(starts)
    requires forall a :: a in l.first <==> p.First(a)
    requires p.nodes <= l.nodes
    requires forall n :: n in l.nodes ==> n in l.first
    ensures l.Clean()
  {
    hide Inv, Layout.IsCode, Layout.HasTargets, Layout.HasOwner, Progress.Ambiguity, Progress.First;
    DoneIsFollowed(starts, p, l);
    forall n | n in l.nodes
      ensures l.IsCode(n) && l.HasTargets(n)
    {
      NodeIsCode(l, starts, p, n);
      TargetsHaveNodes(l, starts, p, n);
    }
    NothingOverlaps(starts, p, l);
  }

  lemma NothingOverlaps(starts: set<int>, p: Progress, l: Layout)
    requires Done(l.img, starts, p) && !p.Ambiguity() && forall a :: a in l.first <==> p.First(a)
    ensures forall s, t {:trigger l.img.Inside(s, t)} :: s in l.first && t in l.first ==> !l.img.Inside(s, t)
  {
    hide Inv;
    forall s, t | s in l.first && t in l.first
      ensures !l.img.Inside(s, t)
    {
      if l.img.Inside(s, t) {
        OverlapIsReported(l.img, starts, p, s, t);
      }
    }
  }

  /** Some reachable instruction has a byte among those that are skipped behind a
      reachable call. */
  ghost predicate SkippedCodeIsReachable(img: Image, starts: set<int>)
    requires img.Valid()
  {
    exists a, u :: img.ReachesAddr(starts, a) && img.ReachesAddr(starts, u) && img.SkipMeets(a, u)
  }

  /** When no reachable instructions overlap, the nodes have disjoint byte ranges if and
      only if no skipped byte is reachable code. */
  lemma NodesDisjointIffUnreachable(starts: set<int>, p: Progress, l: Layout)
    requires Done(l.img, starts, p) && forall a :: a in starts ==> a in l.img.slotBanks
    requires l.img.BordersAgree(starts) && l.img.RequestsAssigned(starts) && !ReachableOverlap(l.img, starts)
    requires forall a :: a in l.first <==> p.First(a)
    requires p.nodes <= l.nodes
    requires forall n :: n in l.nodes ==> n in l.first
    ensures l.Clean() && (l.NodesDisjoint() <==> !SkippedCodeIsReachable(l.img, starts))
  {
    hide Inv;
    AmbiguityIffOverlap(l.img, starts, p);
    DoneIsClean(starts, p, l);
    l.NodesDisjointIff();
    forall a
      ensures a in l.first <==> l.img.ReachesAddr(starts, a)
    {
      FlowIsReachability(l.img, starts, p, a);
    }
    assert l.SkipsAreData() <==> !SkippedCodeIsReachable(l.img, starts);
  }
}
