/** Blocks: runs of adjacent nodes that share one global label. */
module Blocks {
  import opened Z80Image
  import opened AsmNodes
  import opened Sequences

  /** The successors of the nodes in `s`. */
  ghost function Successors(s: set<AsmNode>, all: set<AsmNode>): set<AsmNode>
    reads all`branchNodes
  {
    set y | y in all && exists x :: x in s && x in all && y in x.branchNodes
  }

  /** The nodes that are between one and `n` branches away from `from`. */
  ghost function ReachWithin(from: AsmNode, n: nat, all: set<AsmNode>): set<AsmNode>
    reads all`branchNodes
  {
    if n == 0 then {} else
      ReachWithin(from, n - 1, all) + Successors(ReachWithin(from, n - 1, all) + {from}, all)
  }

  ghost predicate BranchReaches(from: AsmNode, to: AsmNode, all: set<AsmNode>)
    reads all`branchNodes
  {
    exists n: nat :: to in ReachWithin(from, n, all)
  }

  /** A set that contains the successors of `from` and of its own members contains
      everything in reach. */
  lemma {:induction false} ClosedContainsReach(from: AsmNode, s: set<AsmNode>, n: nat, all: set<AsmNode>)
    requires from in all
    requires Successors(s + {from}, all) <= s
    ensures ReachWithin(from, n, all) <= s
  {
    if n > 0 {
      ClosedContainsReach(from, s, n - 1, all);
    }
  }

  lemma ReachStep(from: AsmNode, x: AsmNode, y: AsmNode, all: set<AsmNode>)
    requires from in all && x in all && y in all && y in x.branchNodes
    requires x == from || BranchReaches(from, x, all)
    ensures BranchReaches(from, y, all)
  {
    var n: nat :| x == from || x in ReachWithin(from, n, all);
    assert y in ReachWithin(from, n + 1, all);
  }

  lemma DistinctJoin(s: seq<AsmNode>, t: seq<AsmNode>)
    requires Distinct(s) && Distinct(t) && forall m :: m in t ==> m !in s
    ensures Distinct(s + t)
  {
    forall i, j | 0 <= i < j < |s + t|
      ensures (s + t)[i] != (s + t)[j]
    {
      if i < |s| <= j {
        assert t[j - |s|] in t;
      }
    }
  }

  lemma NoneTwice()
    ensures Distinct<AsmNode>([])
  {
  }

  lemma LinksLead(x: AsmNode, all: set<AsmNode>)
    requires LinksWithin(x, all)
    ensures forall y :: y in x.branchNodes ==> y in all
  {
  }

  /** The targets that are still missing among `branches`, each one once. */
  method Missing(branches: seq<AsmNode>, targets: seq<AsmNode>) returns (added: seq<AsmNode>)
    ensures forall m :: m in targets ==> m in branches || m in added
    ensures Distinct(added) && forall m :: m in added ==> m in targets && m !in branches
  {
    added := [];
    for k := 0 to |targets|
      invariant Distinct(added)
      invariant forall m :: m in targets[..k] ==> m in branches || m in added
      invariant forall m :: m in added ==> m in targets && m !in branches
    {
      var branch := targets[k];
      if branch !in branches + added {
        added := added + [branch];
      }
    }
  }

  /** `AsmNode.getBranchesRecursive`: collects everything in reach, each node once. */
  method GetBranches(from: AsmNode, ghost all: set<AsmNode>) returns (branches: seq<AsmNode>)
    requires from in all && forall x :: x in all ==> LinksWithin(x, all)
    ensures Distinct(branches) && forall m :: m in branches ==> m in all
    ensures forall m :: m in all ==> (m in branches <==> BranchReaches(from, m, all))
  {
    hide BranchReaches, Distinct, LinksWithin;
    NoneTwice();
    branches := [];
    var asmNodes := [from];
    var i := 0;
    while i < |asmNodes|
      invariant 0 <= i <= |asmNodes| && asmNodes == [from] + branches && Distinct(branches)
      invariant forall m :: m in branches ==> m in all && BranchReaches(from, m, all)
      invariant forall j, m :: 0 <= j < i && m in asmNodes[j].branchNodes ==> m in branches
      decreases all - (set m | m in branches), |asmNodes| - i
    {
      var asmNode := asmNodes[i];
      assert i > 0 ==> asmNode == branches[i - 1];
      assert asmNode in all && LinksWithin(asmNode, all);
      var added := Missing(branches, asmNode.branchNodes);
      LinksLead(asmNode, all);
      forall m | m in added ensures m in all && BranchReaches(from, m, all) {
        ReachStep(from, asmNode, m, all);
      }
      ghost var before := set m | m in branches;
      assert added != [] ==> added[0] in all - before;
      DistinctJoin(branches, added);
      branches, asmNodes := branches + added, asmNodes + added;
      i := i + 1;
    }
    forall x, m | (x == from || x in branches) && m in x.branchNodes ensures m in branches {
      assert x in asmNodes;
    }
    CollectedAll(from, branches, all);
  }

  /** Once nothing is missing, everything in reach has been collected. */
  lemma CollectedAll(from: AsmNode, branches: seq<AsmNode>, all: set<AsmNode>)
    requires from in all
    requires forall x, m :: (x == from || x in branches) && m in x.branchNodes ==> m in branches
    ensures forall m :: m in all && BranchReaches(from, m, all) ==> m in branches
  {
    var s := set m | m in branches;
    assert Successors(s + {from}, all) <= s;
    forall m | m in all && BranchReaches(from, m, all) ensures m in branches {
      var n: nat :| m in ReachWithin(from, n, all);
      ClosedContainsReach(from, s, n, all);
    }
  }

  /** `s` holds exactly the nodes of the map, sorted by address. */
  ghost predicate IsSorted(s: seq<AsmNode>, nodes: map<int, AsmNode>) {
    && (forall i, j :: 0 <= i < j < |s| ==> s[i].start < s[j].start)
    && (forall i :: 0 <= i < |s| ==> s[i].start in nodes && nodes[s[i].start] == s[i])
    && (forall a :: a in nodes ==> nodes[a] in s)
  }

  lemma SortedMember(s: seq<AsmNode>, nodes: map<int, AsmNode>, i: nat)
    requires IsSorted(s, nodes) && i < |s|
    ensures s[i].start in nodes && nodes[s[i].start] == s[i]
  {
  }

  /** The nodes sorted by address; `Array.sort` on their distinct start addresses. */
  method SortedNodes(nodes: map<int, AsmNode>) returns (s: seq<AsmNode>)
    requires forall a :: a in nodes ==> 0 <= a < MEM_SIZE && nodes[a].start == a
    ensures IsSorted(s, nodes)
  {
    s := [];
    for a := 0 to MEM_SIZE
      invariant forall i, j :: 0 <= i < j < |s| ==> s[i].start < s[j].start
      invariant forall i :: 0 <= i < |s| ==> s[i].start < a && s[i].start in nodes && nodes[s[i].start] == s[i]
      invariant forall b :: b in nodes && b < a ==> nodes[b] in s
    {
      if a in nodes {
        s := s + [nodes[a]];
      }
    }
  }

  /** The sorted nodes as address ranges, each one with the index of the first node
      of its block. */
  datatype Run = Run(start: int, end: int, root: nat)

  /** The last of the first `n` nodes that contains the address `x`, if any. */
  function LastCovering(runs: seq<Run>, n: nat, x: int): (k: int)
    requires n <= |runs|
    ensures -1 <= k < n
    ensures k >= 0 ==> runs[k].start <= x < runs[k].end
    ensures forall j :: k < j < n ==> !(runs[j].start <= x < runs[j].end)
  {
    if n == 0 then -1
    else if runs[n - 1].start <= x < runs[n - 1].end then n - 1
    else LastCovering(runs, n - 1, x)
  }

  /** The k-th node starts a block, or continues the block of the adjacent node. */
  ghost predicate Joins(runs: seq<Run>, k: int)
    requires 0 <= k < |runs|
  {
    || runs[k].root == k
    || (k > 0 && runs[k].root == runs[k - 1].root && runs[k - 1].end == runs[k].start)
  }

  /** Every block is one contiguous run of whole nodes. */
  ghost predicate Contiguous(runs: seq<Run>) {
    && (forall k {:trigger Joins(runs, k)} :: 0 <= k < |runs| ==> Joins(runs, k))
    && (forall k :: 0 <= k < |runs| ==> runs[k].start < runs[k].end)
  }

  lemma {:induction false} RootsAscend(runs: seq<Run>, i: nat, j: nat)
    requires Contiguous(runs) && i <= j < |runs|
    ensures runs[i].root <= runs[j].root <= j
    decreases j
  {
    assert Joins(runs, j);
    if i < j {
      RootsAscend(runs, i, j - 1);
    } else if runs[j].root != j {
      RootsAscend(runs, j - 1, j - 1);
    }
  }

  /** Between two nodes of a block all nodes are adjacent and belong to it. */
  lemma {:induction false} BlockIsGapless(runs: seq<Run>, i: nat, j: nat)
    requires Contiguous(runs) && i < j < |runs| && runs[i].root == runs[j].root
    ensures runs[i + 1].root == runs[i].root && runs[i + 1].start == runs[i].end
    ensures runs[i].end <= runs[j].start
    decreases j
  {
    assert Joins(runs, j);
    RootsAscend(runs, i, i);
    RootsAscend(runs, i, j - 1);
    RootsAscend(runs, j - 1, j);
    if i < j - 1 {
      BlockIsGapless(runs, i, j - 1);
    }
  }

  /** Whatever was written over it: where a block is registered right behind one of
      its nodes, its next node starts there. */
  lemma BlockGoesOnAtNode(runs: seq<Run>, k: nat)
    requires Contiguous(runs) && k < |runs|
    requires var j := LastCovering(runs, |runs|, runs[k].end); j >= 0 && runs[j].root == runs[k].root
    ensures k + 1 < |runs| && runs[k + 1].root == runs[k].root && runs[k + 1].start == runs[k].end
  {
    var j := LastCovering(runs, |runs|, runs[k].end);
    if j < k {
      BlockIsGapless(runs, j, k);
    } else if k < j {
      BlockIsGapless(runs, k, j);
    }
  }

  /** When no two nodes overlap, each address of a node is registered for its block. */
  lemma DisjointLastCovering(runs: seq<Run>, k: nat, x: int)
    requires k < |runs| && runs[k].start <= x < runs[k].end
    requires forall i, j :: 0 <= i < j < |runs| ==> runs[i].end <= runs[j].start
    ensures LastCovering(runs, |runs|, x) == k
  {
    var j := LastCovering(runs, |runs|, x);
  }

  lemma {:induction false} LastCoveringPush(runs: seq<Run>, r: Run, n: nat, x: int)
    requires n <= |runs|
    ensures LastCovering(runs + [r], n, x) == LastCovering(runs, n, x)
  {
    if n > 0 {
      LastCoveringPush(runs, r, n - 1, x);
    }
  }

  lemma ContiguousPush(runs: seq<Run>, r: Run)
    requires Contiguous(runs) && r.start < r.end
    requires r.root == |runs| || (|runs| > 0 && r.root == runs[|runs| - 1].root && runs[|runs| - 1].end == r.start)
    ensures Contiguous(runs + [r])
  {
    var q := runs + [r];
    forall k | 0 <= k < |q| ensures Joins(q, k) {
      assert k < |runs| ==> Joins(runs, k);
    }
  }

  /** `Array.fill` */
  method Fill(blocks: array<AsmNode?>, node: AsmNode, start: int, end: int)
    requires 0 <= start
    modifies blocks
    ensures forall x :: 0 <= x < blocks.Length ==>
              blocks[x] == if start <= x < end then node else old(blocks[x])
  {
    var x := start;
    while x < end && x < blocks.Length
      invariant start <= x
      invariant forall y :: 0 <= y < blocks.Length ==>
                  blocks[y] == if start <= y < end && y < x then node else old(blocks[y])
    {
      blocks[x] := node;
      x := x + 1;
    }
  }

  /** The sorted nodes `s` are described by `runs`. */
  ghost predicate Describes(runs: seq<Run>, s: seq<AsmNode>)
    reads s`length
  {
    |runs| == |s| && forall k :: 0 <= k < |s| ==> runs[k].start == s[k].start && runs[k].end == s[k].start + s[k].length
  }

  /** The k-th node starts a new block: it is not adjacent to the node before, or
      it is called, or it is out of reach of the current block. */
  ghost predicate StartsBlock(s: seq<AsmNode>, runs: seq<Run>, k: nat, all: set<AsmNode>)
    requires k < |s| && k <= |runs| && forall i :: 0 <= i < k ==> runs[i].root <= i
    reads all`branchNodes, s`callers
  {
    || k == 0
    || s[k].start != runs[k - 1].end
    || |s[k].callers| > 0
    || !BranchReaches(s[runs[k - 1].root], s[k], all)
  }

  /** The runs of the first `i` nodes have been determined. */
  ghost predicate Partitioned(s: seq<AsmNode>, runs: seq<Run>, i: nat, all: set<AsmNode>)
    reads all`branchNodes, s`callers, s`length
  {
    && i == |runs| <= |s|
    && Describes(runs, s[..i]) && Contiguous(runs)
    && (forall k :: 0 <= k < i ==> runs[k].root <= k)
    && (forall k :: 0 <= k < i ==> (runs[k].root == k <==> StartsBlock(s, runs, k, all)))
  }

  lemma DescribesPush(s: seq<AsmNode>, runs: seq<Run>, r: Run)
    requires |runs| < |s| && Describes(runs, s[..|runs|])
    requires var n := s[|runs|]; r.start == n.start && r.end == n.start + n.length
    ensures Describes(runs + [r], s[..|runs| + 1])
  {
    var i := |runs|;
    assert s[..i + 1] == s[..i] + [s[i]];
    forall k | 0 <= k <= i
      ensures (runs + [r])[k].start == s[k].start && (runs + [r])[k].end == s[k].start + s[k].length
    {
      assert k < i ==> s[..i][k] == s[k];
    }
  }

  lemma StartsBlockPush(s: seq<AsmNode>, runs: seq<Run>, r: Run, k: nat, all: set<AsmNode>)
    requires k < |s| && k <= |runs| && forall i :: 0 <= i < |runs| ==> runs[i].root <= i
    ensures StartsBlock(s, runs + [r], k, all) == StartsBlock(s, runs, k, all)
  {
    hide BranchReaches;
    assert k > 0 ==> (runs + [r])[k - 1] == runs[k - 1];
  }

  lemma RootOfNext(s: seq<AsmNode>, runs: seq<Run>, all: set<AsmNode>) returns (root: nat)
    requires |runs| < |s| && forall k :: 0 <= k < |runs| ==> runs[k].root <= k
    ensures root == if StartsBlock(s, runs, |runs|, all) then |runs| else runs[|runs| - 1].root
    ensures root <= |runs| && (root == |runs| <==> StartsBlock(s, runs, |runs|, all))
    ensures root != |runs| ==> |runs| > 0 && root == runs[|runs| - 1].root && runs[|runs| - 1].end == s[|runs|].start
  {
    root := if StartsBlock(s, runs, |runs|, all) then |runs| else runs[|runs| - 1].root;
  }

  lemma PartitionedPush(s: seq<AsmNode>, runs: seq<Run>, root: nat, all: set<AsmNode>)
    requires Partitioned(s, runs, |runs|, all) && |runs| < |s| && s[|runs|].length > 0
    requires root == if StartsBlock(s, runs, |runs|, all) then |runs| else runs[|runs| - 1].root
    ensures root <= |runs|
    ensures Partitioned(s, runs + [Run(s[|runs|].start, s[|runs|].start + s[|runs|].length, root)], |runs| + 1, all)
  {
    hide Describes, StartsBlock, Contiguous;
    var i := |runs|;
    var r := Run(s[i].start, s[i].start + s[i].length, root);
    var _ := RootOfNext(s, runs, all);
    ContiguousPush(runs, r);
    DescribesPush(s, runs, r);
    forall k | 0 <= k <= i
      ensures (runs + [r])[k].root == k <==> StartsBlock(s, runs + [r], k, all)
    {
      StartsBlockPush(s, runs, r, k, all);
    }
  }

  /** Every address is registered for the block of the last node that covers it. */
  ghost predicate Registered(blocks: array<AsmNode?>, before: seq<AsmNode?>, s: seq<AsmNode>, runs: seq<Run>)
    reads blocks
  {
    && blocks.Length == |before|
    && forall x :: 0 <= x < blocks.Length ==>
         var k := LastCovering(runs, |runs|, x);
         if k >= 0 then runs[k].root < |s| && blocks[x] == s[runs[k].root] else blocks[x] == before[x]
  }

  method RegisterNode(blocks: array<AsmNode?>, blockNode: AsmNode, start: int, end: int,
                      ghost before: seq<AsmNode?>, ghost s: seq<AsmNode>, ghost runs: seq<Run>, ghost r: Run)
    requires |runs| < |s|
    requires r.start == start && r.end == end && r.root <= |runs| && s[r.root] == blockNode && 0 <= start
    requires Registered(blocks, before, s, runs)
    modifies blocks
    ensures Registered(blocks, before, s, runs + [r])
  {
    Fill(blocks, blockNode, start, end);
    forall x ensures LastCovering(runs + [r], |runs|, x) == LastCovering(runs, |runs|, x) {
      LastCoveringPush(runs, r, |runs|, x);
    }
  }

  /** `branches` are the nodes in reach of the block node. */
  ghost predicate AreBranchesOf(branches: seq<AsmNode>, blockNode: AsmNode, all: set<AsmNode>)
    reads all`branchNodes
  {
    forall m :: m in all ==> (m in branches <==> BranchReaches(blockNode, m, all))
  }

  /** The block of the last run, its branches, and the address behind it. */
  ghost predicate IsBlockOfLast(addr: int, blockNode: AsmNode?, branches: seq<AsmNode>,
                                s: seq<AsmNode>, runs: seq<Run>, all: set<AsmNode>)
    reads all`branchNodes
  {
    if |runs| == 0 then addr == -1 else
      var last := runs[|runs| - 1];
      addr == last.end && last.root < |s| && blockNode == s[last.root] && AreBranchesOf(branches, s[last.root], all)
  }

  /** Decides whether the next node starts a new block. Returns the node of its block. */
  method ChooseBlock(node: AsmNode, addr: int, blockNode: AsmNode?, branches: seq<AsmNode>,
                     ghost s: seq<AsmNode>, ghost runs: seq<Run>, ghost all: set<AsmNode>)
    returns (blockNode': AsmNode, branches': seq<AsmNode>, addr': int, ghost root: nat)
    requires |runs| < |s| && s[|runs|] == node && node in all && node.start >= 0
    requires forall k :: 0 <= k < |runs| ==> runs[k].root <= k
    requires forall x :: x in all ==> LinksWithin(x, all)
    requires IsBlockOfLast(addr, blockNode, branches, s, runs, all)
    ensures root == if StartsBlock(s, runs, |runs|, all) then |runs| else runs[|runs| - 1].root
    ensures root <= |runs| && blockNode' == s[root] && addr' == node.start && AreBranchesOf(branches', blockNode', all)
  {
    hide BranchReaches;
    blockNode', branches', addr' := node, branches, addr;
    root := RootOfNext(s, runs, all);
    if node.start != addr || |node.callers| > 0 || node !in branches {
      addr' := node.start;
      branches' := GetBranches(node, all);
    } else {
      blockNode' := blockNode;
    }
  }

  /** Registers the start node of its block for every address of a node. */
  method PartitionBlocks(nodes: map<int, AsmNode>, blocks: array<AsmNode?>, ghost all: set<AsmNode>)
    returns (ghost s: seq<AsmNode>, ghost runs: seq<Run>)
    requires forall a :: a in nodes ==>
               0 <= a < MEM_SIZE && nodes[a].start == a && nodes[a].length > 0 && nodes[a] in all
    requires forall x :: x in all ==> LinksWithin(x, all)
    modifies blocks
    ensures IsSorted(s, nodes)
    ensures Partitioned(s, runs, |s|, all)
    ensures Registered(blocks, old(blocks[..]), s, runs)
  {
    hide *;
    var sortedNodes := SortedNodes(nodes);
    s, runs := sortedNodes, [];
    var blockNode: AsmNode? := null;
    var blockBranches: seq<AsmNode> := [];
    var addr := -1;
    EmptyPartition(s, all);
    EmptyRegistered(blocks, s);
    NoBlockYet(s, all);
    ghost var before := blocks[..];
    for i := 0 to |sortedNodes|
      invariant |runs| == i && Partitioned(s, runs, i, all) && Registered(blocks, before, s, runs)
      invariant IsBlockOfLast(addr, blockNode, blockBranches, s, runs, all)
    {
      var node := sortedNodes[i];
      SortedMember(s, nodes, i);
      PartitionedRoots(s, runs, i, all);
      ghost var root;
      blockNode, blockBranches, addr, root := ChooseBlock(node, addr, blockNode, blockBranches, s, runs, all);
      ghost var r := Run(node.start, node.start + node.length, root);
      PartitionedPush(s, runs, root, all);
      BlockOfNext(blockNode, blockBranches, s, runs, r, all);
      RegisterNode(blocks, blockNode, addr, addr + node.length, before, s, runs, r);
      runs := runs + [r];
      addr := addr + node.length;
    }
  }

  lemma NoBlockYet(s: seq<AsmNode>, all: set<AsmNode>)
    ensures IsBlockOfLast(-1, null, [], s, [], all)
  {
  }

  lemma BlockOfNext(blockNode: AsmNode, branches: seq<AsmNode>, s: seq<AsmNode>, runs: seq<Run>, r: Run,
                    all: set<AsmNode>)
    requires r.root < |s| && blockNode == s[r.root] && AreBranchesOf(branches, blockNode, all)
    ensures IsBlockOfLast(r.end, blockNode, branches, s, runs + [r], all)
  {
  }

  lemma PartitionedRoots(s: seq<AsmNode>, runs: seq<Run>, i: nat, all: set<AsmNode>)
    requires Partitioned(s, runs, i, all)
    ensures |runs| == i && forall k :: 0 <= k < i ==> runs[k].root <= k
  {
  }

  lemma EmptyPartition(s: seq<AsmNode>, all: set<AsmNode>)
    ensures Partitioned(s, [], 0, all)
  {
  }

  lemma EmptyRegistered(blocks: array<AsmNode?>, s: seq<AsmNode>)
    ensures Registered(blocks, blocks[..], s, [])
  {
  }

  /** No address is registered for a node of the map yet. The array may still hold
      nodes of an earlier disassembly. */
  ghost predicate Stale(before: seq<AsmNode?>, nodes: map<int, AsmNode>) {
    forall x, a :: 0 <= x < |before| && a in nodes ==> before[x] != nodes[a]
  }

  /** The addresses of all nodes have been registered. */
  ghost predicate HasBlocks(blocks: array<AsmNode?>, before: seq<AsmNode?>, nodes: map<int, AsmNode>,
                            s: seq<AsmNode>, runs: seq<Run>, all: set<AsmNode>)
    reads blocks, all`branchNodes, s`callers, s`length
  {
    && blocks.Length == MEM_SIZE
    && IsSorted(s, nodes) && Stale(before, nodes)
    && Partitioned(s, runs, |s|, all)
    && Registered(blocks, before, s, runs)
  }

  /** Every address of a node has a block, whether nodes overlap or not. */
  lemma NodeHasBlock(blocks: array<AsmNode?>, before: seq<AsmNode?>, nodes: map<int, AsmNode>,
                     s: seq<AsmNode>, runs: seq<Run>, all: set<AsmNode>, n: int, x: int)
    requires HasBlocks(blocks, before, nodes, s, runs, all)
    requires n in nodes && n <= x < n + nodes[n].length && nodes[n].start == n && 0 <= x < MEM_SIZE
    ensures blocks[x] != null && blocks[x] in s
  {
    hide BranchReaches, Contiguous, Stale;
    var k :| 0 <= k < |s| && s[k] == nodes[n];
    DescribesAt(s, runs, all, k);
  }

  lemma SortedIndex(s: seq<AsmNode>, nodes: map<int, AsmNode>, i: nat, j: nat)
    requires IsSorted(s, nodes) && i < |s| && j < |s| && s[i] == s[j]
    ensures i == j
  {
  }

  /** The node that covers an address registered for a block belongs to the block. */
  lemma RegisteredRoot(blocks: array<AsmNode?>, before: seq<AsmNode?>, nodes: map<int, AsmNode>,
                       s: seq<AsmNode>, runs: seq<Run>, all: set<AsmNode>, x: nat, root: nat)
    requires HasBlocks(blocks, before, nodes, s, runs, all)
    requires x < MEM_SIZE && root < |s| && blocks[x] == s[root]
    ensures var j := LastCovering(runs, |s|, x); j >= 0 && runs[j].root == root
  {
    hide IsSorted, Contiguous, Describes, BranchReaches;
    SortedMember(s, nodes, root);
    var j := LastCovering(runs, |s|, x);
    if j >= 0 {
      SortedIndex(s, nodes, root, runs[j].root);
    }
  }

  lemma DescribesAt(s: seq<AsmNode>, runs: seq<Run>, all: set<AsmNode>, k: nat)
    requires Partitioned(s, runs, |s|, all) && k < |s|
    ensures |runs| == |s| && runs[k].root <= k
    ensures runs[k].start == s[k].start && runs[k].end == s[k].start + s[k].length
  {
    assert s[..|s|] == s;
  }

  /** Where a block is registered right behind one of its nodes, its next node starts. */
  lemma BlockGoesOn(blocks: array<AsmNode?>, before: seq<AsmNode?>, nodes: map<int, AsmNode>,
                    s: seq<AsmNode>, runs: seq<Run>, all: set<AsmNode>, k: nat)
    requires HasBlocks(blocks, before, nodes, s, runs, all)
    requires |runs| == |s| && k < |s| && runs[k].root < |s| && 0 <= s[k].start + s[k].length < MEM_SIZE
    requires blocks[s[k].start + s[k].length] == s[runs[k].root]
    ensures k + 1 < |s| && runs[k + 1].root == runs[k].root
    ensures s[k + 1].start == s[k].start + s[k].length
    ensures s[k + 1].start in nodes && nodes[s[k + 1].start] == s[k + 1]
  {
    hide IsSorted, Registered, BranchReaches, Stale;
    DescribesAt(s, runs, all, k);
    RegisteredRoot(blocks, before, nodes, s, runs, all, runs[k].end, runs[k].root);
    BlockGoesOnAtNode(runs, k);
    DescribesAt(s, runs, all, k + 1);
    SortedMember(s, nodes, k + 1);
  }

  /** No two nodes overlap. */
  ghost predicate Apart(runs: seq<Run>) {
    forall i, j :: 0 <= i < j < |runs| ==> runs[i].end <= runs[j].start
  }

  lemma BlocksInMemory(blocks: array<AsmNode?>, before: seq<AsmNode?>, nodes: map<int, AsmNode>,
                       s: seq<AsmNode>, runs: seq<Run>, all: set<AsmNode>)
    requires HasBlocks(blocks, before, nodes, s, runs, all)
    requires forall a :: a in nodes ==> 0 <= a < MEM_SIZE
    ensures blocks.Length == MEM_SIZE
    ensures forall i :: 0 <= i < |s| ==> 0 <= s[i].start < MEM_SIZE
  {
    forall i | 0 <= i < |s| ensures 0 <= s[i].start < MEM_SIZE {
      SortedMember(s, nodes, i);
    }
  }

  /** The first node of a block belongs to the block that it starts. */
  lemma {:induction false} RootIsItsRoot(runs: seq<Run>, k: nat)
    requires Contiguous(runs) && k < |runs|
    ensures runs[k].root <= k && runs[runs[k].root].root == runs[k].root
  {
    assert Joins(runs, k);
    if runs[k].root != k {
      RootIsItsRoot(runs, k - 1);
    }
  }

  /** A node that is registered at its own address starts a block. */
  lemma RegisteredStartsBlock(blocks: array<AsmNode?>, before: seq<AsmNode?>, nodes: map<int, AsmNode>,
                              s: seq<AsmNode>, runs: seq<Run>, all: set<AsmNode>, r: nat)
    requires HasBlocks(blocks, before, nodes, s, runs, all)
    requires |runs| == |s| && r < |s| && 0 <= s[r].start < MEM_SIZE && blocks[s[r].start] == s[r]
    ensures runs[r].root == r
  {
    hide IsSorted, Registered, BranchReaches, Stale, Describes, StartsBlock;
    RegisteredRoot(blocks, before, nodes, s, runs, all, s[r].start, r);
    RootIsItsRoot(runs, LastCovering(runs, |s|, s[r].start));
  }
}
