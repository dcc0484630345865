/** The labels of the nodes: a global one for the first node of a block, local ones for
    the other nodes of the block to which there are references. */
module NodeLabels {
  import opened Options
  import opened Z80Image
  import opened AsmNodes
  import opened Blocks
  import opened Sequences

  /** There are references to the node other than the natural flow from the node
      before. */
  predicate OtherReference(n: AsmNode)
    reads n`callers, n`predecessors, n.predecessors`length, n.predecessors`stop
  {
    || |n.callers| > 0
    || |n.predecessors| > 1
    || (|n.predecessors| == 1
        && var p := n.predecessors[0];
           (p.start + p.length == n.start ==> p.stop))
  }

  predicate Referenced(n: AsmNode)
    reads n`callers, n`predecessors
  {
    |n.callers| > 0 || |n.predecessors| > 0
  }

  // The same, seen from the other ends of the links.

  ghost predicate IsCalled(n: AsmNode, all: set<AsmNode>)
    reads all`callee
  {
    exists x :: x in all && x.callee == n
  }

  ghost predicate IsEntered(n: AsmNode, all: set<AsmNode>)
    reads all`branchNodes
  {
    exists x :: x in all && n in x.branchNodes
  }

  /** Two branches lead to the node, from different nodes or from the same one. */
  ghost predicate IsEnteredTwice(n: AsmNode, all: set<AsmNode>)
    reads all`branchNodes
  {
    exists x, y :: x in all && y in all && n in x.branchNodes && n in y.branchNodes
                   && (x != y || Count(x.branchNodes, n) > 1)
  }

  /** A branch leads to the node from one that does not end right before it, or that stops. */
  ghost predicate IsJumpedTo(n: AsmNode, all: set<AsmNode>)
    reads all`branchNodes, all`length, all`stop
  {
    exists x :: x in all && n in x.branchNodes && (x.start + x.length != n.start || x.stop)
  }

  lemma CallersCall(n: AsmNode, all: set<AsmNode>)
    requires MutualLinks(all) && n in all
    ensures |n.callers| > 0 <==> IsCalled(n, all)
  {
    assert LinksWithin(n, all);
    if |n.callers| > 0 {
      var x := n.callers[0];
      assert x in multiset(n.callers) && Mutual(x, n);
    }
    if IsCalled(n, all) {
      var x :| x in all && x.callee == n;
      assert Mutual(x, n) && x in multiset(n.callers);
    }
  }

  lemma PredecessorsEnter(n: AsmNode, x: AsmNode, all: set<AsmNode>)
    requires MutualLinks(all) && n in all
    ensures x in n.predecessors <==> x in all && n in x.branchNodes
    ensures x in all ==> Count(n.predecessors, x) == Count(x.branchNodes, n)
  {
    assert LinksWithin(n, all);
    if x in all {
      assert Mutual(x, n);
      assert x in n.predecessors <==> x in multiset(n.predecessors);
      assert n in x.branchNodes <==> n in multiset(x.branchNodes);
    }
  }

  lemma CountTwice(s: seq<AsmNode>, i: nat, j: nat)
    requires i < j < |s| && s[i] == s[j]
    ensures Count(s, s[i]) > 1
  {
    assert s == s[..i] + [s[i]] + s[i + 1..j] + [s[j]] + s[j + 1..];
  }

  lemma CountOnce(s: seq<AsmNode>, x: AsmNode)
    requires |s| == 1
    ensures Count(s, x) <= 1
  {
    assert s == [s[0]];
  }

  /** A node is referenced if and only if some node calls it or branches to it. */
  lemma ReferencedIff(n: AsmNode, all: set<AsmNode>)
    requires MutualLinks(all) && n in all
    ensures Referenced(n) <==> IsCalled(n, all) || IsEntered(n, all)
  {
    CallersCall(n, all);
    if |n.predecessors| > 0 {
      PredecessorsEnter(n, n.predecessors[0], all);
    }
    if IsEntered(n, all) {
      var x :| x in all && n in x.branchNodes;
      PredecessorsEnter(n, x, all);
    }
  }

  /** There are other references than the natural flow if and only if some node calls it, or
      two branches lead to it, or one that is not the flow from the node right before it. */
  lemma OtherReferenceIff(n: AsmNode, all: set<AsmNode>)
    requires MutualLinks(all) && n in all
    ensures OtherReference(n) <==> IsCalled(n, all) || IsEnteredTwice(n, all) || IsJumpedTo(n, all)
  {
    hide MutualLinks;
    CallersCall(n, all);
    forall x
      ensures x in n.predecessors <==> x in all && n in x.branchNodes
      ensures x in all ==> Count(n.predecessors, x) == Count(x.branchNodes, n)
    {
      PredecessorsEnter(n, x, all);
    }
    var p := n.predecessors;
    if |p| > 1 {
      assert p[0] in p && p[1] in p;
      if p[0] == p[1] {
        CountTwice(p, 0, 1);
      }
      assert IsEnteredTwice(n, all);
    } else if |p| == 1 {
      assert p[0] in p;
      CountOnce(p, p[0]);
    }
  }

  /** Two nodes that follow one another in memory belong to the same block if and only if
      they are adjacent, the second one is not called, and the first node of the block reaches
      it over branches. */
  lemma SameBlockIff(blocks: array<AsmNode?>, before: seq<AsmNode?>, nodes: map<int, AsmNode>,
                     s: seq<AsmNode>, runs: seq<Run>, all: set<AsmNode>, k: nat)
    requires HasBlocks(blocks, before, nodes, s, runs, all) && MutualLinks(all)
    requires k + 1 < |s| && forall n :: n in s ==> n in all
    ensures |runs| == |s| && runs[k].root <= k
    ensures runs[k + 1].root == runs[k].root <==>
            && s[k].start + s[k].length == s[k + 1].start && !IsCalled(s[k + 1], all)
            && BranchReaches(s[runs[k].root], s[k + 1], all)
    ensures runs[k + 1].root != runs[k].root ==> runs[k + 1].root == k + 1
  {
    hide MutualLinks, IsSorted, Registered, Stale, BranchReaches, Describes;
    DescribesAt(s, runs, all, k);
    DescribesAt(s, runs, all, k + 1);
    assert s[k + 1] in s;
    CallersCall(s[k + 1], all);
    assert StartsBlock(s, runs, k + 1, all) <==> runs[k + 1].root == k + 1;
    assert Joins(runs, k + 1);
  }

  /** The addresses to which an RST jumps. */
  predicate IsRstAddress(a: int) {
    0 <= a < 0x40 && a % 8 == 0
  }

  /** The prefix of the label of a block that starts with this node. */
  function PrefixOf(n: AsmNode): Prefix
    reads n`isSubroutine
  {
    if !n.isSubroutine then LBL else if IsRstAddress(n.start) then RST else SUB
  }

  /** SUB is for subroutines, RST for those at the eight addresses to which an RST jumps, and
      LBL for what is no subroutine. */
  lemma PrefixIs(n: AsmNode)
    ensures PrefixOf(n) == LBL <==> !n.isSubroutine
    ensures PrefixOf(n) == RST <==> n.isSubroutine && n.start in {0x00, 0x08, 0x10, 0x18, 0x20, 0x28, 0x30, 0x38}
    ensures PrefixOf(n) == SUB <==> n.isSubroutine && n.start !in {0x00, 0x08, 0x10, 0x18, 0x20, 0x28, 0x30, 0x38}
  {
    if IsRstAddress(n.start) {
      assert n.start == 8 * (n.start / 8) && 0 <= n.start / 8 < 8;
    }
  }

  // Loops.

  /** The predecessors of `s` that are not in front of `target`. */
  ghost function Behind(target: AsmNode, s: set<AsmNode>, all: set<AsmNode>): set<AsmNode>
    reads all`predecessors
  {
    set y | y in all && y.start >= target.start && exists x :: x in s && x in all && y in x.predecessors
  }

  /** The nodes from which at most `n + 1` branches lead to `target`, over nodes that are
      not in front of it. */
  ghost function LeadWithin(target: AsmNode, n: nat, all: set<AsmNode>): set<AsmNode>
    reads all`predecessors
  {
    if n == 0 then Behind(target, {target}, all)
    else LeadWithin(target, n - 1, all) + Behind(target, LeadWithin(target, n - 1, all), all)
  }

  ghost predicate Leads(target: AsmNode, x: AsmNode, all: set<AsmNode>)
    reads all`predecessors
  {
    exists n: nat :: x in LeadWithin(target, n, all)
  }

  /** The node is the first one in memory of a loop: branches lead from it back to it
      over nodes that are not in front of it. */
  ghost predicate OnLoop(target: AsmNode, all: set<AsmNode>)
    reads all`predecessors
  {
    Leads(target, target, all)
  }

  lemma LeadStep(target: AsmNode, x: AsmNode, y: AsmNode, all: set<AsmNode>)
    requires target in all && x in all && y in all && y in x.predecessors && y.start >= target.start
    requires x == target || Leads(target, x, all)
    ensures Leads(target, y, all)
  {
    if x == target {
      assert y in LeadWithin(target, 0, all);
    } else {
      var n: nat :| x in LeadWithin(target, n, all);
      assert y in LeadWithin(target, n + 1, all);
    }
  }

  lemma {:induction false} ClosedContainsLeads(target: AsmNode, s: set<AsmNode>, n: nat, all: set<AsmNode>)
    requires Behind(target, s + {target}, all) <= s
    ensures LeadWithin(target, n, all) <= s
  {
    if n == 0 {
      assert Behind(target, {target}, all) <= Behind(target, s + {target}, all);
    } else {
      ClosedContainsLeads(target, s, n - 1, all);
    }
  }

  /** `AsmNode.isLoopRoot`: a search backwards through the predecessors. */
  method IsLoopRoot(target: AsmNode, ghost all: set<AsmNode>) returns (found: bool)
    requires target in all && forall x :: x in all ==> LinksWithin(x, all)
    ensures found <==> OnLoop(target, all)
  {
    hide Leads;
    var predecs := target.predecessors;
    var processed: seq<AsmNode> := [];
    var i := 0;
    assert LinksWithin(target, all);
    forall p | p in predecs && p.start >= target.start
      ensures Leads(target, p, all)
    {
      LeadStep(target, target, p, all);
    }
    while i < |predecs|
      invariant 0 <= i <= |predecs|
      invariant forall p :: p in predecs ==> p in all && (p.start >= target.start ==> Leads(target, p, all))
      invariant forall p :: p in processed ==> p in all && p != target
      invariant forall p :: p in target.predecessors ==> p in predecs
      invariant forall x, p :: x in processed && x.start >= target.start && p in x.predecessors ==> p in predecs
      invariant forall j :: 0 <= j < i ==> predecs[j] in processed
      decreases all - (set p | p in processed), |predecs| - i
    {
      var predecessor := predecs[i];
      i := i + 1;
      // Check if already processed.
      if predecessor in processed {
        continue;
      }
      ghost var before := set p | p in processed;
      assert predecessor in all - before;
      // Check if the node is lower than the target.
      if predecessor.start < target.start {
        processed := processed + [predecessor];
        continue;
      }
      // Check if found.
      if predecessor == target {
        return true;
      }
      processed := processed + [predecessor];
      assert LinksWithin(predecessor, all);
      forall p | p in predecessor.predecessors && p.start >= target.start
        ensures Leads(target, p, all)
      {
        LeadStep(target, predecessor, p, all);
      }
      predecs := predecs + predecessor.predecessors;
    }
    ProcessedAll(target, processed, all);
    return false;
  }

  lemma ProcessedAll(target: AsmNode, processed: seq<AsmNode>, all: set<AsmNode>)
    requires target !in processed
    requires forall p :: p in target.predecessors ==> p in processed
    requires forall x, p :: x in processed && x.start >= target.start && p in x.predecessors ==> p in processed
    ensures !OnLoop(target, all)
  {
    var s := set p | p in processed && p.start >= target.start;
    assert Behind(target, s + {target}, all) <= s;
    forall n: nat
      ensures target !in LeadWithin(target, n, all)
    {
      ClosedContainsLeads(target, s, n, all);
    }
  }

  // The labels of all nodes in memory order, as they are before and after.

  function Labels(s: seq<AsmNode>): (labels: seq<Option<Label>>)
    reads s`nodeLabel
    ensures |labels| == |s| && forall i :: 0 <= i < |s| ==> labels[i] == s[i].nodeLabel
  {
    if s == [] then [] else Labels(s[..|s| - 1]) + [s[|s| - 1].nodeLabel]
  }

  /** Which nodes are referenced, and which of them are loops. */
  datatype References = References(other: seq<bool>, any: seq<bool>, loop: seq<bool>)

  ghost predicate AreReferences(refs: References, s: seq<AsmNode>, all: set<AsmNode>)
    reads all`callers, all`predecessors, all`length, all`stop, all`branchNodes, all`callee
  {
    && |refs.other| == |refs.any| == |refs.loop| == |s|
    && forall k {:trigger s[k]} :: 0 <= k < |s| ==>
         && s[k] in all && LinksWithin(s[k], all)
         && refs.other[k] == OtherReference(s[k]) && refs.any[k] == Referenced(s[k])
         && refs.loop[k] == OnLoop(s[k], all)
  }

  ghost method FindReferences(s: seq<AsmNode>, all: set<AsmNode>) returns (refs: References)
    requires forall n :: n in s ==> n in all && LinksWithin(n, all)
    ensures AreReferences(refs, s, all)
  {
    refs := References([], [], []);
    for k := 0 to |s|
      invariant |refs.other| == |refs.any| == |refs.loop| == k
      invariant forall j :: 0 <= j < k ==> refs.other[j] == OtherReference(s[j]) && refs.any[j] == Referenced(s[j])
      invariant forall j :: 0 <= j < k ==> refs.loop[j] == OnLoop(s[j], all)
    {
      assert s[k] in s && LinksWithin(s[k], all);
      refs := References(refs.other + [OtherReference(s[k])], refs.any + [Referenced(s[k])],
                         refs.loop + [OnLoop(s[k], all)]);
    }
  }

  /** The node needs a label and has none. */
  predicate Needs(labels: seq<Option<Label>>, refs: References, k: int)
    requires 0 <= k < |labels| && k < |refs.other|
  {
    labels[k].None? && refs.other[k]
  }

  /** The nodes from `r` to `k` that need a label: either those that are loops, or the
      others. */
  function Collect(labels: seq<Option<Label>>, refs: References, r: nat, k: nat, loop: bool): (c: seq<nat>)
    requires r <= k <= |labels| == |refs.other| == |refs.loop|
    ensures forall i :: 0 <= i < |c| ==> r <= c[i] < k && Needs(labels, refs, c[i]) && refs.loop[c[i]] == loop
    decreases k
  {
    if k == r then []
    else
      Collect(labels, refs, r, k - 1, loop)
      + if Needs(labels, refs, k - 1) && refs.loop[k - 1] == loop then [k - 1] else []
  }

  lemma {:induction false} CollectPrefix(labels: seq<Option<Label>>, refs: References, r: nat, j: nat, k: nat,
                                         loop: bool)
    requires r <= j <= k <= |labels| == |refs.other| == |refs.loop|
    ensures Collect(labels, refs, r, j, loop) <= Collect(labels, refs, r, k, loop)
    decreases k
  {
    if j < k {
      CollectPrefix(labels, refs, r, j, k - 1, loop);
    }
  }

  /** The place of a node among the collected ones. */
  lemma CollectAt(labels: seq<Option<Label>>, refs: References, r: nat, j: nat, k: nat, loop: bool)
    requires r <= j < k <= |labels| == |refs.other| == |refs.loop|
    requires Needs(labels, refs, j) && refs.loop[j] == loop
    ensures var c, i := Collect(labels, refs, r, k, loop), |Collect(labels, refs, r, j, loop)|; i < |c| && c[i] == j
  {
    CollectPrefix(labels, refs, r, j + 1, k, loop);
  }

  lemma IncreasingPush(c: seq<nat>, n: nat)
    requires Increasing(c) && forall i :: 0 <= i < |c| ==> c[i] < n
    ensures Increasing(c + [n])
  {
  }

  lemma {:induction false} CollectIsIncreasing(labels: seq<Option<Label>>, refs: References, r: nat, k: nat, loop: bool)
    requires r <= k <= |labels| == |refs.other| == |refs.loop|
    ensures Increasing(Collect(labels, refs, r, k, loop))
    decreases k
  {
    hide Increasing;
    if r < k {
      CollectIsIncreasing(labels, refs, r, k - 1, loop);
      var c := Collect(labels, refs, r, k - 1, loop);
      IncreasingPush(c, k - 1);
      assert c + [] == c;
    } else {
      NothingIncreases();
    }
  }

  lemma NothingIncreases()
    ensures Increasing([])
  {
  }

  /** The nodes of a list are the collected ones. */
  ghost predicate AreCollected(list: seq<AsmNode>, s: seq<AsmNode>, c: seq<nat>)
    requires forall i :: 0 <= i < |c| ==> c[i] < |s|
  {
    |list| == |c| && forall i :: 0 <= i < |c| ==> list[i] == s[c[i]]
  }

  /** What `assignLocalLabels` does not change while it runs. */
  ghost predicate BlockInfo(nodes: map<int, AsmNode>, blocks: array<AsmNode?>, before: seq<AsmNode?>,
                            s: seq<AsmNode>, runs: seq<Run>, all: set<AsmNode>, refs: References)
    reads blocks, all`callers, all`predecessors, all`length, all`stop, all`branchNodes, all`callee
  {
    && (forall n :: n in s ==> n in all)
    && HasBlocks(blocks, before, nodes, s, runs, all)
    && (forall a :: a in nodes ==> 0 <= a < MEM_SIZE && nodes[a].start == a)
    && AreReferences(refs, s, all)
    && |runs| == |s| == |refs.other| == |refs.any| == |refs.loop|
    && (forall x :: x in all ==> LinksWithin(x, all))
    && (forall k :: 0 <= k < |s| ==> runs[k].root <= k && 0 <= s[k].start < MEM_SIZE)
    && blocks.Length == MEM_SIZE
  }

  /** The walk from the first node of the block comes to the k-th node. */
  ghost predicate VisitedInBlock(blocks: array<AsmNode?>, s: seq<AsmNode>, runs: seq<Run>, k: nat)
    requires |runs| == |s| && blocks.Length == MEM_SIZE
    requires forall k :: 0 <= k < |s| ==> runs[k].root <= k && 0 <= s[k].start < MEM_SIZE
    reads blocks
  {
    k < |s| && forall j :: runs[k].root <= j <= k ==>
      runs[j].root == runs[k].root && blocks[s[j].start] == s[runs[k].root]
  }

  lemma BlockIsPlaced(nodes: map<int, AsmNode>, blocks: array<AsmNode?>, before: seq<AsmNode?>,
                      s: seq<AsmNode>, runs: seq<Run>, all: set<AsmNode>, refs: References)
    requires BlockInfo(nodes, blocks, before, s, runs, all, refs)
    ensures |runs| == |s| == |refs.other| == |refs.any| == |refs.loop| && blocks.Length == MEM_SIZE
    ensures forall k :: 0 <= k < |s| ==> runs[k].root <= k && 0 <= s[k].start < MEM_SIZE
  {
  }

  lemma BlockHasReferences(nodes: map<int, AsmNode>, blocks: array<AsmNode?>, before: seq<AsmNode?>,
                           s: seq<AsmNode>, runs: seq<Run>, all: set<AsmNode>, refs: References)
    requires BlockInfo(nodes, blocks, before, s, runs, all, refs)
    ensures AreReferences(refs, s, all) && forall x :: x in all ==> LinksWithin(x, all)
  {
  }

  /** Nothing has been visited or collected yet. */
  lemma VisitStarts(nodes: map<int, AsmNode>, blocks: array<AsmNode?>, before: seq<AsmNode?>,
                    s: seq<AsmNode>, runs: seq<Run>, all: set<AsmNode>, refs: References, r: nat)
    requires BlockInfo(nodes, blocks, before, s, runs, all, refs)
    requires r < |s| && 0 <= s[r].start < MEM_SIZE == blocks.Length && blocks[s[r].start] == s[r]
    ensures runs[r].root == r && VisitedInBlock(blocks, s, runs, r)
    ensures AreCollected([], s, Collect(Labels(s), refs, r, r, false))
            && AreCollected([], s, Collect(Labels(s), refs, r, r, true))
  {
    hide HasBlocks, AreReferences;
    RegisteredStartsBlock(blocks, before, nodes, s, runs, all, r);
    VisitedStart(blocks, s, runs, r);
  }

  lemma VisitedStart(blocks: array<AsmNode?>, s: seq<AsmNode>, runs: seq<Run>, r: nat)
    requires |runs| == |s| && blocks.Length == MEM_SIZE
    requires forall k :: 0 <= k < |s| ==> runs[k].root <= k && 0 <= s[k].start < MEM_SIZE
    requires r < |s| && runs[r].root == r && blocks[s[r].start] == s[r]
    ensures VisitedInBlock(blocks, s, runs, r)
  {
  }

  /** The walk goes on to the next node while that is registered for the block. */
  lemma VisitedMore(nodes: map<int, AsmNode>, blocks: array<AsmNode?>, before: seq<AsmNode?>,
                    s: seq<AsmNode>, runs: seq<Run>, all: set<AsmNode>, refs: References, k: nat)
    requires BlockInfo(nodes, blocks, before, s, runs, all, refs) && VisitedInBlock(blocks, s, runs, k)
    requires var addr := s[k].start + s[k].length; addr < MEM_SIZE && blocks[addr] == s[runs[k].root]
    ensures k + 1 < |s| && VisitedInBlock(blocks, s, runs, k + 1) && runs[k + 1].root == runs[k].root
    ensures s[k + 1].start == s[k].start + s[k].length
    ensures s[k + 1].start in nodes && nodes[s[k + 1].start] == s[k + 1]
  {
    hide HasBlocks, AreReferences;
    BlockGoesOn(blocks, before, nodes, s, runs, all, k);
  }

  /** Otherwise it has come to all nodes of the block to which it ever comes. */
  lemma VisitedAll(nodes: map<int, AsmNode>, blocks: array<AsmNode?>, before: seq<AsmNode?>,
                   s: seq<AsmNode>, runs: seq<Run>, all: set<AsmNode>, refs: References, r: nat, k: nat)
    requires BlockInfo(nodes, blocks, before, s, runs, all, refs)
    requires r <= k < |s| && runs[k].root == r && VisitedInBlock(blocks, s, runs, k)
    requires var addr := s[k].start + s[k].length; addr >= MEM_SIZE || blocks[addr] != s[r]
    ensures forall j :: 0 <= j < |s| ==> (runs[j].root == r && VisitedInBlock(blocks, s, runs, j) <==> r <= j <= k)
  {
    hide HasBlocks, AreReferences;
    forall j | 0 <= j < |s|
      ensures runs[j].root == r && VisitedInBlock(blocks, s, runs, j) <==> r <= j <= k
    {
      if runs[j].root == r && VisitedInBlock(blocks, s, runs, j) && j > k {
        assert runs[k + 1].root == r && blocks[s[k + 1].start] == s[r];
        NextIsAdjacent(blocks, before, nodes, s, runs, all, k);
      }
    }
  }

  lemma NextIsAdjacent(blocks: array<AsmNode?>, before: seq<AsmNode?>, nodes: map<int, AsmNode>,
                       s: seq<AsmNode>, runs: seq<Run>, all: set<AsmNode>, k: nat)
    requires HasBlocks(blocks, before, nodes, s, runs, all)
    requires |runs| == |s| && k + 1 < |s| && runs[k + 1].root == runs[k].root && runs[k].root <= k
    ensures s[k + 1].start == s[k].start + s[k].length
  {
    hide IsSorted, BranchReaches, Stale, Describes, Registered;
    DescribesAt(s, runs, all, k);
    DescribesAt(s, runs, all, k + 1);
    assert Joins(runs, k + 1);
  }

  /** Adds a node to those that need a label, if it is one of them. */
  method CollectNode(blockNode: AsmNode, localNodes: seq<AsmNode>, loopNodes: seq<AsmNode>, ghost s: seq<AsmNode>,
                     ghost all: set<AsmNode>, ghost refs: References, ghost r: nat, ghost k: nat)
    returns (localNodes': seq<AsmNode>, loopNodes': seq<AsmNode>)
    requires AreReferences(refs, s, all) && forall x :: x in all ==> LinksWithin(x, all)
    requires r <= k < |s| && blockNode == s[k]
    requires AreCollected(localNodes, s, Collect(Labels(s), refs, r, k, false))
    requires AreCollected(loopNodes, s, Collect(Labels(s), refs, r, k, true))
    ensures AreCollected(localNodes', s, Collect(Labels(s), refs, r, k + 1, false))
    ensures AreCollected(loopNodes', s, Collect(Labels(s), refs, r, k + 1, true))
  {
    hide OtherReference, OnLoop;
    localNodes', loopNodes' := localNodes, loopNodes;
    // Check if the block is referenced out of the normal flow.
    if OtherReference(blockNode) && blockNode.nodeLabel.None? {
      var isLoop := IsLoopRoot(blockNode, all);
      if isLoop {
        loopNodes' := loopNodes' + [blockNode];
      } else {
        localNodes' := localNodes' + [blockNode];
      }
    }
  }

  /** `assignLocalLabels`, first part: visits the nodes of the block that starts with
      `node`, and collects those that need a label. Both checks of the original, that
      the address is the start of a node and that there is a node, always hold. */
  method VisitBlock(node: AsmNode, nodes: map<int, AsmNode>, blocks: array<AsmNode?>, ghost before: seq<AsmNode?>,
                    ghost s: seq<AsmNode>, ghost runs: seq<Run>, ghost all: set<AsmNode>, ghost refs: References,
                    ghost r: nat)
    returns (localNodes: seq<AsmNode>, loopNodes: seq<AsmNode>, ghost end: nat)
    requires BlockInfo(nodes, blocks, before, s, runs, all, refs)
    requires r < |s| && s[r] == node && blocks[node.start] == node
    ensures r < end <= |s| && forall j :: 0 <= j < |s| ==>
              (runs[j].root == r && VisitedInBlock(blocks, s, runs, j) <==> r <= j < end)
    ensures AreCollected(localNodes, s, Collect(Labels(s), refs, r, end, false))
    ensures AreCollected(loopNodes, s, Collect(Labels(s), refs, r, end, true))
  {
    hide HasBlocks, VisitedInBlock, AreReferences, AreCollected, BlockInfo, Collect, LinksWithin;
    BlockIsPlaced(nodes, blocks, before, s, runs, all, refs);
    localNodes, loopNodes := [], [];
    var addr := node.start;
    var blockNode := node;
    ghost var k := r;
    VisitStarts(nodes, blocks, before, s, runs, all, refs, r);
    while addr < MEM_SIZE
      invariant r <= k < |s| && blockNode == s[k] && addr == blockNode.start
      invariant VisitedInBlock(blocks, s, runs, k) && runs[k].root == r
      invariant AreCollected(localNodes, s, Collect(Labels(s), refs, r, k, false))
      invariant AreCollected(loopNodes, s, Collect(Labels(s), refs, r, k, true))
      decreases |s| - k
    {
      BlockHasReferences(nodes, blocks, before, s, runs, all, refs);
      localNodes, loopNodes := CollectNode(blockNode, localNodes, loopNodes, s, all, refs, r, k);
      assert addr == blockNode.start;
      addr := addr + blockNode.length;
      // Leave if the block ends.
      if addr >= MEM_SIZE || blocks[addr] != node {
        VisitedAll(nodes, blocks, before, s, runs, all, refs, r, k);
        end := k + 1;
        return;
      }
      VisitedMore(nodes, blocks, before, s, runs, all, refs, k);
      assert addr in nodes;
      blockNode := nodes[addr];
      k := k + 1;
    }
  }

  /** The i-th of `n` new labels of a block, whose own label is `pre`. */
  function LabelOf(pre: Option<Label>, loop: bool, n: nat, i: nat, start: int): Label {
    match pre
    case None => GlobalLabel(LBL, start)
    case Some(l) => LocalLabel(l, loop, if loop && n == 1 then 0 else i + 1)
  }

  /** The nodes with the indices `c` got labels. */
  ghost predicate ListLabelled(s: seq<AsmNode>, labels: seq<Option<Label>>, labels': seq<Option<Label>>,
                               c: seq<nat>, pre: Option<Label>, loop: bool) {
    && |s| == |labels| == |labels'|
    && (forall i :: 0 <= i < |c| ==> c[i] < |s|)
    && (forall k :: 0 <= k < |s| && k !in c ==> labels'[k] == labels[k])
    && forall i :: 0 <= i < |c| ==> labels'[c[i]] == Some(LabelOf(pre, loop, |c|, i, s[c[i]].start))
  }

  /** Numbers the local labels. A single loop gets no number. */
  method NumberLabels(list: seq<AsmNode>, pre: Label, loop: bool, ghost s: seq<AsmNode>, ghost c: seq<nat>)
    requires forall i :: 0 <= i < |c| ==> c[i] < |s|
    requires AreCollected(list, s, c) && Distinct(s) && Increasing(c)
    modifies s`nodeLabel
    ensures ListLabelled(s, old(Labels(s)), Labels(s), c, Some(pre), loop)
  {
    for i := 0 to |list|
      invariant forall k :: 0 <= k < |s| && k !in c ==> s[k].nodeLabel == old(Labels(s))[k]
      invariant forall j :: 0 <= j < i ==>
                  s[c[j]].nodeLabel == Some(LocalLabel(pre, loop, if loop && |c| == 1 then 0 else j + 1))
    {
      var node := list[i];
      assert node == s[c[i]] && c[i] in c;
      node.nodeLabel := Some(LocalLabel(pre, loop, if loop && |list| == 1 then 0 else i + 1));
    }
  }

  /** Without a label of the block, the nodes get global labels. */
  method GlobalLabels(list: seq<AsmNode>, ghost loop: bool, ghost s: seq<AsmNode>, ghost c: seq<nat>)
    requires forall i :: 0 <= i < |c| ==> c[i] < |s|
    requires AreCollected(list, s, c) && Distinct(s) && Increasing(c)
    modifies s`nodeLabel
    ensures ListLabelled(s, old(Labels(s)), Labels(s), c, None, loop)
  {
    for i := 0 to |list|
      invariant forall k :: 0 <= k < |s| && k !in c ==> s[k].nodeLabel == old(Labels(s))[k]
      invariant forall j :: 0 <= j < i ==> s[c[j]].nodeLabel == Some(GlobalLabel(LBL, s[c[j]].start))
    {
      var node := list[i];
      assert node == s[c[i]] && c[i] in c;
      node.nodeLabel := Some(GlobalLabel(LBL, node.start));
    }
  }

  /** The label of a node in a block that starts with node `r`: numbered in memory
      order, loops apart from the others, or global if the block has no label. */
  function NewLabel(labels: seq<Option<Label>>, refs: References, r: nat, end: nat, k: nat, start: int): Label
    requires r <= k < end <= |labels| == |refs.other| == |refs.loop|
  {
    var loop := refs.loop[k];
    LabelOf(labels[r], loop, |Collect(labels, refs, r, end, loop)|, |Collect(labels, refs, r, k, loop)|, start)
  }

  /** The local labels count in memory order: of the nodes that need one, loops apart from the
      others, the first one gets number 1, the next one 2, and so on; but a single loop none. */
  lemma LocalLabelsCount(labels: seq<Option<Label>>, refs: References, r: nat, end: nat, loop: bool, i: nat, start: int)
    requires r < end <= |labels| == |refs.other| == |refs.loop| && labels[r].Some?
    ensures var c := Collect(labels, refs, r, end, loop);
            && Increasing(c)
            && (forall k :: k in c <==> r <= k < end && Needs(labels, refs, k) && refs.loop[k] == loop)
            && (i < |c| ==> NewLabel(labels, refs, r, end, c[i], start) ==
                            LocalLabel(labels[r].value, loop, if loop && |c| == 1 then 0 else i + 1))
  {
    hide Collect, Increasing, Needs;
    var c := Collect(labels, refs, r, end, loop);
    CollectIsIncreasing(labels, refs, r, end, loop);
    forall k | r <= k < end && Needs(labels, refs, k) && refs.loop[k] == loop
      ensures k in c
    {
      CollectAt(labels, refs, r, k, end, loop);
    }
    if i < |c| {
      CollectAt(labels, refs, r, c[i], end, loop);
      IncreasingOnce(c, i, |Collect(labels, refs, r, c[i], loop)|);
    }
  }

  lemma IncreasingOnce(c: seq<nat>, i: nat, j: nat)
    requires Increasing(c) && i < |c| && j < |c| && c[i] == c[j]
    ensures i == j
  {
  }

  /** Exactly the nodes of the block that need a label got one. */
  ghost predicate BlockLabelled(s: seq<AsmNode>, labels: seq<Option<Label>>, labels': seq<Option<Label>>,
                                refs: References, r: nat, end: nat)
    requires r < end <= |s| == |labels| == |labels'| == |refs.other| == |refs.loop|
  {
    forall k :: 0 <= k < |s| ==>
      labels'[k] == if r <= k < end && Needs(labels, refs, k) then Some(NewLabel(labels, refs, r, end, k, s[k].start))
                    else labels[k]
  }

  /** `assignLocalLabels` */
  method AssignLocalLabels(node: AsmNode, nodes: map<int, AsmNode>, blocks: array<AsmNode?>,
                           ghost before: seq<AsmNode?>,
                           ghost s: seq<AsmNode>, ghost runs: seq<Run>, ghost all: set<AsmNode>, ghost refs: References,
                           ghost r: nat)
    returns (ghost end: nat)
    requires BlockInfo(nodes, blocks, before, s, runs, all, refs)
    requires r < |s| && s[r] == node && blocks[node.start] == node
    modifies s`nodeLabel
    ensures r < end <= |s| && forall j :: 0 <= j < |s| ==>
              (runs[j].root == r && VisitedInBlock(blocks, s, runs, j) <==> r <= j < end)
    ensures BlockLabelled(s, old(Labels(s)), Labels(s), refs, r, end)
  {
    hide HasBlocks, VisitedInBlock, AreReferences, AreCollected, BlockInfo, Collect, LinksWithin, Labels, Distinct;
    BlockIsPlaced(nodes, blocks, before, s, runs, all, refs);
    BlockIsDistinct(nodes, blocks, before, s, runs, all, refs);
    ghost var labels, mid := Labels(s), Labels(s);
    var localNodes, loopNodes;
    localNodes, loopNodes, end := VisitBlock(node, nodes, blocks, before, s, runs, all, refs, r);
    ghost var c, d := Collect(labels, refs, r, end, false), Collect(labels, refs, r, end, true);
    CollectIsIncreasing(labels, refs, r, end, false);
    CollectIsIncreasing(labels, refs, r, end, true);
    if node.nodeLabel.Some? {
      var preLabel := node.nodeLabel.value;
      NumberLabels(localNodes, preLabel, false, s, c);
      mid := Labels(s);
      NumberLabels(loopNodes, preLabel, true, s, d);
    } else {
      GlobalLabels(localNodes, false, s, c);
      mid := Labels(s);
      GlobalLabels(loopNodes, true, s, d);
    }
    ListsLabelBlock(s, labels, mid, Labels(s), refs, r, end);
  }

  lemma ListsLabelBlock(s: seq<AsmNode>, labels: seq<Option<Label>>, mid: seq<Option<Label>>,
                        labels': seq<Option<Label>>,
                        refs: References, r: nat, end: nat)
    requires r < end <= |s| == |labels| == |labels'| == |refs.other| == |refs.loop|
    requires ListLabelled(s, labels, mid, Collect(labels, refs, r, end, false), labels[r], false)
    requires ListLabelled(s, mid, labels', Collect(labels, refs, r, end, true), labels[r], true)
    ensures BlockLabelled(s, labels, labels', refs, r, end)
  {
    hide Collect, LabelOf;
    var c, d := Collect(labels, refs, r, end, false), Collect(labels, refs, r, end, true);
    forall k | 0 <= k < |s|
      ensures labels'[k] ==
              if r <= k < end && Needs(labels, refs, k) then Some(NewLabel(labels, refs, r, end, k, s[k].start))
              else labels[k]
    {
      if r <= k < end && Needs(labels, refs, k) {
        CollectAt(labels, refs, r, k, end, refs.loop[k]);
      }
    }
  }

  lemma BlockIsDistinct(nodes: map<int, AsmNode>, blocks: array<AsmNode?>, before: seq<AsmNode?>,
                        s: seq<AsmNode>, runs: seq<Run>, all: set<AsmNode>, refs: References)
    requires BlockInfo(nodes, blocks, before, s, runs, all, refs)
    ensures Distinct(s)
  {
  }

  /** The nodes in memory order, the blocks, which nodes are visited from the first node
      of their block, and the references: what stays the same while the labels are
      assigned. */
  datatype Plan = Plan(starts: seq<int>, prefixes: seq<Prefix>, roots: seq<nat>, visited: seq<bool>, refs: References)
  {
    ghost predicate Valid() {
      && |starts| == |prefixes| == |roots| == |visited| == |refs.other| == |refs.any| == |refs.loop|
      && (forall i, j :: 0 <= i < j < |starts| ==> starts[i] < starts[j])
      && (forall k :: 0 <= k < |roots| ==> roots[k] <= k && roots[roots[k]] == roots[k])
      && forall k :: 0 <= k < |roots| && refs.other[k] ==> refs.any[k]
    }

    /** What becomes of the label of a node: a label that it has stays. The first node of
        a block gets a global label if there is any reference to it, the others get local
        ones if there are references other than the natural flow. */
    ghost predicate LabelIs(labels: seq<Option<Label>>, labels': seq<Option<Label>>, k: int)
      requires Valid() && 0 <= k < |starts| == |labels| == |labels'|
    {
      if labels[k].Some? || !visited[k] then
        labels'[k] == labels[k]
      else if roots[k] == k then
        labels'[k] == if refs.any[k] then Some(GlobalLabel(prefixes[k], starts[k])) else None
      else if !refs.other[k] then
        labels'[k] == None
      else match labels'[roots[k]]
        case None => labels'[k] == Some(GlobalLabel(LBL, starts[k]))
        case Some(l) => labels'[k].Some? && IsLocal(labels'[k].value, l, refs.loop[k])
    }

    /** The new labels of a block differ. */
    ghost predicate NewAreDistinct(labels: seq<Option<Label>>, labels': seq<Option<Label>>)
      requires Valid() && |starts| == |labels| == |labels'|
    {
      forall i, j ::
        0 <= i < j < |starts| && roots[i] == roots[j] && labels[i].None? && labels[j].None? && labels'[i].Some?
        ==> labels'[i] != labels'[j]
    }

    /** All blocks that start in front of `addr` have been labelled. */
    ghost predicate LabelledUpTo(labels: seq<Option<Label>>, labels': seq<Option<Label>>, addr: int) {
      && Valid() && |starts| == |labels| == |labels'|
      && (forall k :: 0 <= k < |starts| ==>
            if starts[roots[k]] < addr then LabelIs(labels, labels', k) else labels'[k] == labels[k])
      && NewAreDistinct(labels, labels')
    }

    ghost predicate Labelled(labels: seq<Option<Label>>, labels': seq<Option<Label>>) {
      && Valid() && |starts| == |labels| == |labels'|
      && (forall k :: 0 <= k < |starts| ==> LabelIs(labels, labels', k))
      && NewAreDistinct(labels, labels')
    }

    /** The labels so far come from the list file, and no two nodes share one. */
    ghost predicate NamesAreUnique(labels: seq<Option<Label>>) {
      && (forall k :: 0 <= k < |labels| && labels[k].Some? ==> labels[k].value.Named?)
      && forall i, j :: 0 <= i < j < |labels| && labels[i].Some? ==> labels[i] != labels[j]
    }

    lemma BlockLabelsDiffer(labels: seq<Option<Label>>, labels': seq<Option<Label>>, i: nat, j: nat)
      requires Labelled(labels, labels') && NamesAreUnique(labels)
      requires i < |starts| && j < |starts| && i != j && roots[i] == i && roots[j] == j && labels'[i].Some?
      ensures labels'[i] != labels'[j]
    {
      assert LabelIs(labels, labels', i) && LabelIs(labels, labels', j);
    }

    /** No two nodes get the same label, if no two labels of the list file are the same. */
    lemma LabelsAreUnique(labels: seq<Option<Label>>, labels': seq<Option<Label>>, i: nat, j: nat)
      requires Labelled(labels, labels') && NamesAreUnique(labels)
      requires i < j < |starts| && labels'[i].Some?
      ensures labels'[i] != labels'[j]
    {
      assert LabelIs(labels, labels', i) && LabelIs(labels, labels', j);
      if roots[i] != roots[j] && labels'[roots[i]].Some? {
        BlockLabelsDiffer(labels, labels', roots[i], roots[j]);
      }
    }

    /** Where all nodes are visited, exactly those have a label that had one, or to which
        there are references; for all but the first node of a block, these have to be
        references other than the natural flow. */
    lemma LabelledIff(labels: seq<Option<Label>>, labels': seq<Option<Label>>, k: nat)
      requires Labelled(labels, labels') && k < |starts| && visited[k]
      ensures labels'[k].Some? <==> labels[k].Some? || (if roots[k] == k then refs.any[k] else refs.other[k])
    {
      assert LabelIs(labels, labels', k);
    }

    lemma NothingLabelled(labels: seq<Option<Label>>, addr: int)
      requires Valid() && |labels| == |starts| && forall k :: 0 <= k < |starts| ==> addr <= starts[k]
      ensures LabelledUpTo(labels, labels, addr)
    {
    }

    lemma AllLabelled(labels: seq<Option<Label>>, labels': seq<Option<Label>>, addr: int)
      requires LabelledUpTo(labels, labels', addr) && forall k :: 0 <= k < |starts| ==> starts[k] < addr
      ensures Labelled(labels, labels')
    {
    }

    /** No block starts at `addr`, or its first node is not registered for it. */
    lemma NoBlockAt(labels: seq<Option<Label>>, labels': seq<Option<Label>>, addr: int)
      requires LabelledUpTo(labels, labels', addr)
      requires forall k :: 0 <= k < |starts| && starts[roots[k]] == addr ==> !visited[k]
      ensures LabelledUpTo(labels, labels', addr + 1)
    {
    }

    lemma NewLabelsDiffer(labels: seq<Option<Label>>, r: nat, end: nat, i: nat, j: nat)
      requires Valid() && r <= i < j < end <= |starts| == |labels|
      requires Needs(labels, refs, i) && Needs(labels, refs, j)
      ensures NewLabel(labels, refs, r, end, i, starts[i]) != NewLabel(labels, refs, r, end, j, starts[j])
    {
      if refs.loop[i] == refs.loop[j] {
        CollectAt(labels, refs, r, i, j, refs.loop[i]);
        CollectAt(labels, refs, r, i, end, refs.loop[i]);
        CollectAt(labels, refs, r, j, end, refs.loop[j]);
      }
    }

    /** Labelling the block that starts at the r-th node. */
    lemma OneMoreBlock(labels: seq<Option<Label>>, before: seq<Option<Label>>, mid: seq<Option<Label>>,
                       after: seq<Option<Label>>, r: nat, end: nat)
      requires r < end <= |starts| && LabelledUpTo(labels, before, starts[r]) && roots[r] == r
      requires |after| == |starts|
      requires mid == before[r := if before[r].None? && refs.any[r] then Some(GlobalLabel(prefixes[r], starts[r]))
                                  else before[r]]
      requires forall k :: 0 <= k < |starts| ==>
                 after[k] == if r <= k < end && Needs(mid, refs, k) then Some(NewLabel(mid, refs, r, end, k, starts[k]))
                             else mid[k]
      requires forall k :: 0 <= k < |starts| ==> (roots[k] == r && visited[k] <==> r <= k < end)
      ensures LabelledUpTo(labels, after, starts[r] + 1)
    {
      hide Collect;
      forall k | 0 <= k < |starts|
        ensures if starts[roots[k]] < starts[r] + 1 then LabelIs(labels, after, k) else after[k] == labels[k]
      {
        if roots[k] != r {
          assert after[k] == before[k] && after[roots[k]] == before[roots[k]];
        }
      }
      forall i, j |
        0 <= i < j < |starts| && roots[i] == roots[j] && labels[i].None? && labels[j].None? && after[i].Some?
        ensures after[i] != after[j]
      {
        if roots[i] != r {
          assert after[i] == before[i] && after[j] == before[j];
        } else if Needs(mid, refs, i) && Needs(mid, refs, j) && i >= r && j < end {
          NewLabelsDiffer(mid, r, end, i, j);
        }
      }
    }
  }

  /** What a plan says about the nodes. */
  ghost predicate Fits(plan: Plan, nodes: map<int, AsmNode>, blocks: array<AsmNode?>, before: seq<AsmNode?>,
                       s: seq<AsmNode>, runs: seq<Run>, all: set<AsmNode>)
    reads blocks, all`callers, all`predecessors, all`length, all`stop, all`branchNodes, all`callee, all`isSubroutine
  {
    && BlockInfo(nodes, blocks, before, s, runs, all, plan.refs)
    && |plan.starts| == |plan.prefixes| == |plan.roots| == |plan.visited| == |s|
    && (forall k :: 0 <= k < |s| ==> s[k] in all && plan.prefixes[k] == PrefixOf(s[k]))
    && (forall k :: 0 <= k < |s| ==> plan.starts[k] == s[k].start && plan.roots[k] == runs[k].root)
    && forall k :: 0 <= k < |s| ==> plan.visited[k] == VisitedInBlock(blocks, s, runs, k)
  }

  ghost method MakePlan(nodes: map<int, AsmNode>, blocks: array<AsmNode?>, before: seq<AsmNode?>,
                        s: seq<AsmNode>, runs: seq<Run>, all: set<AsmNode>) returns (plan: Plan)
    requires HasBlocks(blocks, before, nodes, s, runs, all)
    requires forall a :: a in nodes ==> 0 <= a < MEM_SIZE && nodes[a].start == a && nodes[a] in all
    requires forall x :: x in all ==> LinksWithin(x, all)
    ensures Fits(plan, nodes, blocks, before, s, runs, all) && plan.Valid()
  {
    hide *;
    SortedInAll(blocks, before, nodes, s, runs, all);
    var refs := FindReferences(s, all);
    IsBlockInfo(nodes, blocks, before, s, runs, all, refs);
    plan := ReadPlan(nodes, blocks, before, s, runs, all, refs);
    PlanIsValid(plan, nodes, blocks, before, s, runs, all);
  }

  lemma SortedInAll(blocks: array<AsmNode?>, before: seq<AsmNode?>, nodes: map<int, AsmNode>,
                    s: seq<AsmNode>, runs: seq<Run>, all: set<AsmNode>)
    requires HasBlocks(blocks, before, nodes, s, runs, all)
    requires forall a :: a in nodes ==> 0 <= a < MEM_SIZE && nodes[a] in all
    ensures forall n :: n in s ==> n in all && 0 <= n.start < MEM_SIZE
  {
    forall n | n in s
      ensures n in all && 0 <= n.start < MEM_SIZE
    {
      var k :| 0 <= k < |s| && s[k] == n;
      SortedMember(s, nodes, k);
    }
  }

  lemma IsBlockInfo(nodes: map<int, AsmNode>, blocks: array<AsmNode?>, before: seq<AsmNode?>,
                    s: seq<AsmNode>, runs: seq<Run>, all: set<AsmNode>, refs: References)
    requires HasBlocks(blocks, before, nodes, s, runs, all) && AreReferences(refs, s, all)
    requires forall a :: a in nodes ==> 0 <= a < MEM_SIZE && nodes[a].start == a
    requires forall n :: n in s ==> n in all && 0 <= n.start < MEM_SIZE
    requires forall x :: x in all ==> LinksWithin(x, all)
    ensures BlockInfo(nodes, blocks, before, s, runs, all, refs)
  {
    hide IsSorted, Registered, Stale, LinksWithin, OtherReference, OnLoop, Describes, StartsBlock, Contiguous;
    assert forall k :: 0 <= k < |s| ==> s[k] in s;
  }

  ghost method ReadPlan(nodes: map<int, AsmNode>, blocks: array<AsmNode?>, before: seq<AsmNode?>,
                        s: seq<AsmNode>, runs: seq<Run>, all: set<AsmNode>, refs: References) returns (plan: Plan)
    requires BlockInfo(nodes, blocks, before, s, runs, all, refs)
    ensures Fits(plan, nodes, blocks, before, s, runs, all) && plan.refs == refs
  {
    hide VisitedInBlock, AreReferences, LinksWithin, HasBlocks;
    var starts, prefixes, roots, visited := [], [], [], [];
    for k := 0 to |s|
      invariant |starts| == |prefixes| == |roots| == |visited| == k
      invariant forall j :: 0 <= j < k ==> prefixes[j] == PrefixOf(s[j])
      invariant forall j :: 0 <= j < k ==> starts[j] == s[j].start && roots[j] == runs[j].root
      invariant forall j :: 0 <= j < k ==> visited[j] == VisitedInBlock(blocks, s, runs, j)
    {
      starts, prefixes, roots := starts + [s[k].start], prefixes + [PrefixOf(s[k])], roots + [runs[k].root];
      visited := visited + [VisitedInBlock(blocks, s, runs, k)];
    }
    plan := Plan(starts, prefixes, roots, visited, refs);
  }

  lemma PlanIsValid(plan: Plan, nodes: map<int, AsmNode>, blocks: array<AsmNode?>, before: seq<AsmNode?>,
                    s: seq<AsmNode>, runs: seq<Run>, all: set<AsmNode>)
    requires Fits(plan, nodes, blocks, before, s, runs, all)
    ensures plan.Valid()
  {
    hide VisitedInBlock, Registered, Stale, LinksWithin, OnLoop, Describes, StartsBlock;
    forall k | 0 <= k < |s|
      ensures runs[k].root <= k && runs[runs[k].root].root == runs[k].root
      ensures plan.refs.other[k] ==> plan.refs.any[k]
    {
      RootIsItsRoot(runs, k);
      assert s[k] in all;
    }
  }

  /** `assignNodeLabels` */
  method AssignNodeLabels(nodes: map<int, AsmNode>, blocks: array<AsmNode?>, ghost before: seq<AsmNode?>,
                          ghost s: seq<AsmNode>, ghost runs: seq<Run>, ghost all: set<AsmNode>, ghost plan: Plan)
    requires Fits(plan, nodes, blocks, before, s, runs, all) && plan.Valid()
    modifies s`nodeLabel
    ensures plan.Labelled(old(Labels(s)), Labels(s))
  {
    hide *;
    ghost var labels := Labels(s);
    PlanFits(plan, nodes, blocks, before, s, runs, all);
    plan.NothingLabelled(labels, 0);
    for a := 0 to MEM_SIZE
      invariant plan.LabelledUpTo(labels, Labels(s), a)
    {
      if a in nodes && blocks[a] == nodes[a] {
        AssignBlockLabels(a, nodes, blocks, before, s, runs, all, plan, labels);
      } else {
        NoBlock(a, nodes, blocks, before, s, runs, all, plan);
        plan.NoBlockAt(labels, Labels(s), a);
      }
    }
    plan.AllLabelled(labels, Labels(s), MEM_SIZE);
  }

  lemma PlanFits(plan: Plan, nodes: map<int, AsmNode>, blocks: array<AsmNode?>, before: seq<AsmNode?>,
                 s: seq<AsmNode>, runs: seq<Run>, all: set<AsmNode>)
    requires Fits(plan, nodes, blocks, before, s, runs, all) && plan.Valid()
    ensures BlockInfo(nodes, blocks, before, s, runs, all, plan.refs) && blocks.Length == MEM_SIZE
    ensures |plan.starts| == |plan.prefixes| == |plan.roots| == |plan.visited| == |s| == |Labels(s)|
    ensures forall k :: 0 <= k < |s| ==> 0 <= plan.starts[k] == s[k].start < MEM_SIZE
  {
    hide HasBlocks, AreReferences;
  }

  /** No block starts at `a`, as far as the registered nodes are concerned. */
  lemma NoBlock(a: int, nodes: map<int, AsmNode>, blocks: array<AsmNode?>, before: seq<AsmNode?>,
                s: seq<AsmNode>, runs: seq<Run>, all: set<AsmNode>, plan: Plan)
    requires Fits(plan, nodes, blocks, before, s, runs, all) && plan.Valid()
    requires 0 <= a < MEM_SIZE == blocks.Length && (a in nodes ==> blocks[a] != nodes[a])
    ensures forall k :: 0 <= k < |plan.starts| && plan.starts[plan.roots[k]] == a ==> !plan.visited[k]
  {
    hide AreReferences, Partitioned, Registered;
    forall k | 0 <= k < |plan.starts| && plan.starts[plan.roots[k]] == a
      ensures !plan.visited[k]
    {
      SortedMember(s, nodes, plan.roots[k]);
    }
  }

  /** Labels the block that starts with the node at `a`. */
  method AssignBlockLabels(a: int, nodes: map<int, AsmNode>, blocks: array<AsmNode?>, ghost before: seq<AsmNode?>,
                           ghost s: seq<AsmNode>, ghost runs: seq<Run>, ghost all: set<AsmNode>, ghost plan: Plan,
                           ghost labels: seq<Option<Label>>)
    requires Fits(plan, nodes, blocks, before, s, runs, all) && plan.Valid()
    requires a in nodes && 0 <= a < MEM_SIZE == blocks.Length && blocks[a] == nodes[a]
    requires plan.LabelledUpTo(labels, Labels(s), a)
    modifies s`nodeLabel
    ensures plan.LabelledUpTo(labels, Labels(s), a + 1)
  {
    hide *;
    var node := nodes[a];
    ghost var earlier := Labels(s);
    ghost var r := BlockIndex(a, nodes, blocks, before, s, runs, all, plan);
    PlanFits(plan, nodes, blocks, before, s, runs, all);
    // Assign a label only if there is none yet, and only to a node to which there are references.
    if node.nodeLabel.None? && Referenced(node) {
      node.nodeLabel := Some(GlobalLabel(PrefixOf(node), a));
    }
    OneLabel(s, r, earlier, Labels(s));
    ghost var mid := Labels(s);
    // Now dive into the node and assign local names.
    ghost var end := AssignLocalLabels(node, nodes, blocks, before, s, runs, all, plan.refs, r);
    BlockIsVisited(nodes, blocks, before, s, runs, all, plan, mid, Labels(s), r, end);
    plan.OneMoreBlock(labels, earlier, mid, Labels(s), r, end);
  }

  /** The place of the node in memory order. */
  lemma BlockIndex(a: int, nodes: map<int, AsmNode>, blocks: array<AsmNode?>, before: seq<AsmNode?>,
                   s: seq<AsmNode>, runs: seq<Run>, all: set<AsmNode>, plan: Plan) returns (r: nat)
    requires Fits(plan, nodes, blocks, before, s, runs, all) && plan.Valid()
    requires a in nodes && 0 <= a < MEM_SIZE == blocks.Length && blocks[a] == nodes[a]
    ensures r < |s| && s[r] == nodes[a] && nodes[a].start == a == plan.starts[r] && plan.roots[r] == r
    ensures plan.refs.any[r] == Referenced(nodes[a]) && plan.prefixes[r] == PrefixOf(nodes[a]) && nodes[a] in s
    ensures forall k :: 0 <= k < |s| && k != r ==> s[k] != nodes[a]
  {
    hide Partitioned, Registered, OtherReference, OnLoop, LinksWithin;
    r :| r < |s| && s[r] == nodes[a];
    RegisteredStartsBlock(blocks, before, nodes, s, runs, all, r);
  }

  lemma OneLabel(s: seq<AsmNode>, r: nat, earlier: seq<Option<Label>>, labels: seq<Option<Label>>)
    requires r < |s| == |earlier| == |labels| && forall k :: 0 <= k < |s| && k != r ==> labels[k] == earlier[k]
    ensures labels == earlier[r := labels[r]]
  {
  }

  lemma BlockIsVisited(nodes: map<int, AsmNode>, blocks: array<AsmNode?>, before: seq<AsmNode?>,
                       s: seq<AsmNode>, runs: seq<Run>, all: set<AsmNode>, plan: Plan,
                       mid: seq<Option<Label>>, after: seq<Option<Label>>, r: nat, end: nat)
    requires BlockInfo(nodes, blocks, before, s, runs, all, plan.refs)
             && Fits(plan, nodes, blocks, before, s, runs, all)
    requires r < end <= |s| == |mid| == |after|
    requires forall j :: 0 <= j < |s| ==> (runs[j].root == r && VisitedInBlock(blocks, s, runs, j) <==> r <= j < end)
    requires BlockLabelled(s, mid, after, plan.refs, r, end)
    ensures forall k :: 0 <= k < |plan.starts| ==> (plan.roots[k] == r && plan.visited[k] <==> r <= k < end)
    ensures |plan.starts| == |plan.refs.other| == |plan.refs.loop| == |s|
    ensures forall k :: 0 <= k < |plan.starts| ==>
              after[k] ==
              if r <= k < end && Needs(mid, plan.refs, k) then
                Some(NewLabel(mid, plan.refs, r, end, k, plan.starts[k]))
              else mid[k]
  {
    hide VisitedInBlock, HasBlocks, AreReferences, NewLabel;
  }

  /** When no two nodes overlap, every node is visited from the first one of its block. */
  lemma AllVisited(plan: Plan, nodes: map<int, AsmNode>, blocks: array<AsmNode?>, before: seq<AsmNode?>,
                   s: seq<AsmNode>, runs: seq<Run>, all: set<AsmNode>, k: nat)
    requires Fits(plan, nodes, blocks, before, s, runs, all) && Apart(runs) && k < |s|
    ensures plan.visited[k]
  {
    hide AreReferences, Stale, IsSorted, LinksWithin, Describes, StartsBlock;
    var r := runs[k].root;
    RootIsItsRoot(runs, k);
    forall j | r <= j <= k
      ensures runs[j].root == r && blocks[s[j].start] == s[r]
    {
      RootsAscend(runs, r, j);
      RootsAscend(runs, j, k);
      DescribesAt(s, runs, all, j);
      DisjointLastCovering(runs, j, s[j].start);
    }
  }

  predicate IsLocal(l: Label, parent: Label, loop: bool) {
    l.LocalLabel? && l.parent == parent && l.loop == loop
  }
}
