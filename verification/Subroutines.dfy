/** Subroutines of the flow graph, and which of them call each other. */
module Subroutines {
  import opened AsmNodes
  import opened Blocks
  import opened Sequences

  /** The nodes that belong to a subroutine and the nodes that they call. */
  datatype Subroutine = Subroutine(nodes: seq<AsmNode>, callees: seq<AsmNode>, sizeInBytes: nat)

  /** The graph `all` is closed. */
  ghost predicate ClosedGraph(all: set<AsmNode>)
    reads all`branchNodes, all`predecessors, all`callers, all`callee
  {
    forall x {:trigger LinksWithin(x, all)} :: x in all ==> LinksWithin(x, all)
  }

  /** `m` is part of the subroutine that starts at `n`. */
  ghost predicate PartOf(m: AsmNode, n: AsmNode, all: set<AsmNode>)
    reads all`branchNodes
  {
    m == n || BranchReaches(n, m, all)
  }

  /** The subroutine that starts at `n` calls `c`. */
  ghost predicate Calls(n: AsmNode, c: AsmNode, all: set<AsmNode>)
    reads all`branchNodes, all`callee
  {
    exists m :: m in all && PartOf(m, n, all) && m.callee == c
  }

  function SumLengths(s: seq<AsmNode>): nat
    reads s`length
  {
    if s == [] then 0 else SumLengths(s[..|s| - 1]) + s[|s| - 1].length
  }

  /** The addresses of the nodes in `s`. */
  ghost function BytesOf(s: seq<AsmNode>): (r: set<int>)
    reads s`length
  {
    if s == [] then {} else
      var last := s[|s| - 1];
      BytesOf(s[..|s| - 1]) + Range(last.start, last.length)
  }

  ghost function Range(start: int, n: nat): (r: set<int>)
    ensures |r| == n && forall b :: b in r <==> start <= b < start + n
  {
    if n == 0 then {} else Range(start, n - 1) + {start + n - 1}
  }

  ghost predicate AreDisjoint(s: seq<AsmNode>)
    reads s`length
  {
    forall i, j :: 0 <= i < j < |s| ==> s[i].start + s[i].length <= s[j].start || s[j].start + s[j].length <= s[i].start
  }

  lemma {:induction false} BytesAre(s: seq<AsmNode>, b: int)
    ensures b in BytesOf(s) <==> exists n <- s :: n.start <= b < n.start + n.length
  {
    if s != [] {
      BytesAre(s[..|s| - 1], b);
      assert s == s[..|s| - 1] + [s[|s| - 1]];
    }
  }

  /** The size of a subroutine is the number of its bytes, if its nodes do not overlap. */
  lemma {:induction false} SizeIsByteCount(s: seq<AsmNode>)
    requires AreDisjoint(s)
    ensures SumLengths(s) == |BytesOf(s)|
  {
    if s != [] {
      var last := s[|s| - 1];
      SizeIsByteCount(s[..|s| - 1]);
      forall b | b in BytesOf(s[..|s| - 1])
        ensures b !in Range(last.start, last.length)
      {
        BytesAre(s[..|s| - 1], b);
      }
      assert BytesOf(s[..|s| - 1]) !! Range(last.start, last.length);
    }
  }

  /** The nodes that are called by those in `s`, in the same order. */
  function CalleesOf(s: seq<AsmNode>): (r: seq<AsmNode>)
    reads s`callee
  {
    if s == [] then [] else
      var last := s[|s| - 1];
      CalleesOf(s[..|s| - 1]) + if last.callee == null then [] else [last.callee]
  }

  lemma {:induction false} CalleesAre(s: seq<AsmNode>)
    ensures forall c :: c in CalleesOf(s) <==> exists m :: m in s && m.callee == c
  {
    if s != [] {
      CalleesAre(s[..|s| - 1]);
      assert s == s[..|s| - 1] + [s[|s| - 1]];
    }
  }

  /** The subroutine that starts at `node`: each of its nodes once, and what they call. */
  ghost predicate IsSubroutine(sub: Subroutine, node: AsmNode, all: set<AsmNode>)
    reads all`branchNodes, all`callee, all`length
  {
    && Distinct(sub.nodes)
    && (forall m :: m in sub.nodes ==> m in all)
    && (forall m :: m in all ==> (m in sub.nodes <==> PartOf(m, node, all)))
    && sub.callees == CalleesOf(sub.nodes)
    && sub.sizeInBytes == SumLengths(sub.nodes)
  }

  /** `Subroutine.processAllBranchNodes` */
  method NewSubroutine(node: AsmNode, ghost all: set<AsmNode>) returns (sub: Subroutine)
    requires ClosedGraph(all) && node in all
    ensures IsSubroutine(sub, node, all)
    ensures forall c :: c in sub.callees ==> c in all
    ensures forall c :: c in all ==> (c in sub.callees <==> Calls(node, c, all))
  {
    hide BranchReaches;
    var nodes: seq<AsmNode>, callees: seq<AsmNode>, size := [], [], 0;
    var asmNodes := [node];
    var i := 0;
    while i < |asmNodes|
      invariant 0 <= i <= |asmNodes| && node in asmNodes
      invariant forall m :: m in asmNodes ==> m in all && PartOf(m, node, all)
      invariant forall m :: m in nodes ==> m in asmNodes
      invariant forall m :: m in asmNodes[..i] ==> m in nodes
      invariant forall m, b :: m in nodes && b in m.branchNodes ==> b in asmNodes
      invariant Distinct(nodes) && callees == CalleesOf(nodes) && size == SumLengths(nodes)
      decreases all - (set m | m in nodes), |asmNodes| - i
    {
      var asmNode := asmNodes[i];
      i := i + 1;
      if asmNode in nodes {
        continue;
      }
      assert LinksWithin(asmNode, all);
      forall b | b in asmNode.branchNodes ensures PartOf(b, node, all) {
        ReachStep(node, asmNode, b, all);
      }
      ghost var before := nodes;
      nodes := nodes + [asmNode];
      assert nodes[..|before|] == before;
      size := size + asmNode.length;
      if asmNode.callee != null {
        callees := callees + [asmNode.callee];
      }
      asmNodes := asmNodes + asmNode.branchNodes;
      assert asmNode in nodes && asmNode in all - (set m | m in before);
    }
    assert asmNodes[..i] == asmNodes;
    CollectedAll(node, nodes, all);
    CalleesAre(nodes);
    forall m | m in nodes
      ensures m.callee != null ==> m.callee in all
    {
      assert LinksWithin(m, all);
    }
    sub := Subroutine(nodes, callees, size);
  }

  /** The subroutines that are called by those in `s`. */
  ghost function CalledBy(s: set<AsmNode>, all: set<AsmNode>): set<AsmNode>
    reads all`branchNodes, all`callee
  {
    set c | c in all && exists m :: m in s && m in all && Calls(m, c, all)
  }

  /** The subroutines that are at most `n` calls away from `from`. */
  ghost function CallsWithin(from: AsmNode, n: nat, all: set<AsmNode>): set<AsmNode>
    reads all`branchNodes, all`callee
  {
    if n == 0 then {from} else CallsWithin(from, n - 1, all) + CalledBy(CallsWithin(from, n - 1, all), all)
  }

  lemma {:induction false} CallsWithinGrows(from: AsmNode, n: nat, m: nat, all: set<AsmNode>)
    requires n <= m
    ensures CallsWithin(from, n, all) <= CallsWithin(from, m, all)
    decreases m
  {
    hide CalledBy;
    if n < m {
      CallsWithinGrows(from, n, m - 1, all);
    }
  }

  /** What is `n` calls away from a callee is one more call away from its caller. */
  lemma {:induction false} CallsWithinCallee(from: AsmNode, c: AsmNode, n: nat, all: set<AsmNode>)
    requires from in all && c in all && Calls(from, c, all)
    ensures CallsWithin(c, n, all) <= CallsWithin(from, n + 1, all)
  {
    hide Calls;
    if n == 0 {
      assert c in CalledBy({from}, all);
      assert CallsWithin(from, 0, all) == {from};
    } else {
      CallsWithinCallee(from, c, n - 1, all);
      CalledByMonotone(CallsWithin(c, n - 1, all), CallsWithin(from, n, all), all);
    }
  }

  lemma CalledByMonotone(s: set<AsmNode>, t: set<AsmNode>, all: set<AsmNode>)
    requires s <= t
    ensures CalledBy(s, all) <= CalledBy(t, all)
  {
    hide Calls;
  }

  /** The subroutines to which a chain of exactly `n` calls leads from `from`. */
  ghost function CallsExactly(from: AsmNode, n: nat, all: set<AsmNode>): set<AsmNode>
    reads all`branchNodes, all`callee
  {
    if n == 0 then {from} else CalledBy(CallsExactly(from, n - 1, all), all)
  }

  /** There is a chain of `n` calls. */
  ghost predicate HasChain(from: AsmNode, n: nat, all: set<AsmNode>)
    reads all`branchNodes, all`callee
  {
    CallsExactly(from, n, all) != {}
  }

  lemma NoCalls(from: AsmNode, all: set<AsmNode>)
    ensures HasChain(from, 0, all)
  {
  }

  lemma {:induction false} ChainOfCallee(from: AsmNode, c: AsmNode, n: nat, all: set<AsmNode>)
    requires from in all && c in all && Calls(from, c, all)
    ensures CallsExactly(c, n, all) <= CallsExactly(from, n + 1, all)
  {
    hide Calls;
    if n == 0 {
      assert c in CalledBy({from}, all);
      assert CallsExactly(from, 0, all) == {from};
    } else {
      ChainOfCallee(from, c, n - 1, all);
      CalledByMonotone(CallsExactly(c, n - 1, all), CallsExactly(from, n, all), all);
    }
  }

  lemma LongerChain(from: AsmNode, c: AsmNode, n: nat, all: set<AsmNode>)
    requires from in all && c in all && Calls(from, c, all) && HasChain(c, n, all)
    ensures HasChain(from, n + 1, all)
  {
    hide Calls, CallsExactly;
    ChainOfCallee(from, c, n, all);
  }

  /** The map knows the callees of `m`. */
  ghost predicate KnowsCallees(subs: map<AsmNode, Subroutine>, m: AsmNode, all: set<AsmNode>)
    reads all`branchNodes, all`callee
  {
    forall c :: c in all && Calls(m, c, all) ==> c in subs
  }

  /** Every node of the map has its own subroutine. */
  ghost predicate OwnSubroutines(subs: map<AsmNode, Subroutine>, all: set<AsmNode>)
    reads all`branchNodes, all`callee, all`length
  {
    forall m :: m in subs ==> IsSubroutine(subs[m], m, all)
  }

  lemma OneMoreSubroutine(subs: map<AsmNode, Subroutine>, node: AsmNode, sub: Subroutine, all: set<AsmNode>)
    requires OwnSubroutines(subs, all) && IsSubroutine(sub, node, all)
    ensures OwnSubroutines(subs[node := sub], all)
  {
    hide IsSubroutine;
  }

  /** `more` adds to `subs` only what is at most `depth` calls away from `node`. Apart
      from the subroutines in `open`, everything that these call is there as well. */
  ghost predicate Extends(subs: map<AsmNode, Subroutine>, more: map<AsmNode, Subroutine>, open: set<AsmNode>,
                          node: AsmNode, depth: nat, all: set<AsmNode>)
    reads all`branchNodes, all`callee
  {
    && (forall m :: m in subs ==> m in more && more[m] == subs[m])
    && (forall m :: m in more && m !in subs ==> m in all && m in CallsWithin(node, depth, all))
    && (forall m :: m in more && m !in subs && m !in open ==> KnowsCallees(more, m, all))
  }

  lemma ExtendsMore(subs: map<AsmNode, Subroutine>, before: map<AsmNode, Subroutine>, more: map<AsmNode, Subroutine>,
                    node: AsmNode, depth: nat, callee: AsmNode, d: nat, all: set<AsmNode>)
    requires node in all && callee in all && Calls(node, callee, all) && node in before
    requires Extends(subs, before, {node}, node, depth, all) && Extends(before, more, {}, callee, d, all)
    ensures Extends(subs, more, {node}, node, if d + 1 > depth then d + 1 else depth, all)
  {
    hide Calls, CallsWithin;
    CallsWithinCallee(node, callee, d, all);
    CallsWithinGrows(node, depth, if d + 1 > depth then d + 1 else depth, all);
    CallsWithinGrows(node, d + 1, if d + 1 > depth then d + 1 else depth, all);
  }

  lemma ExtendsByOne(subs: map<AsmNode, Subroutine>, node: AsmNode, sub: Subroutine, all: set<AsmNode>)
    requires node in all && node !in subs
    ensures Extends(subs, subs[node := sub], {node}, node, 0, all)
  {
  }

  lemma ExtendsFully(subs: map<AsmNode, Subroutine>, more: map<AsmNode, Subroutine>, node: AsmNode, depth: nat,
                     all: set<AsmNode>)
    requires Extends(subs, more, {node}, node, depth, all) && KnowsCallees(more, node, all)
    ensures Extends(subs, more, {}, node, depth, all)
  {
    hide CallsWithin, KnowsCallees;
  }

  lemma ExtendsNothing(subs: map<AsmNode, Subroutine>, node: AsmNode, all: set<AsmNode>)
    ensures Extends(subs, subs, {}, node, 0, all)
  {
  }

  lemma ExtendsKeys(subs: map<AsmNode, Subroutine>, more: map<AsmNode, Subroutine>, open: set<AsmNode>,
                    node: AsmNode, depth: nat, all: set<AsmNode>)
    requires Extends(subs, more, open, node, depth, all)
    ensures subs.Keys <= more.Keys
  {
  }

  /** `getSubroutinesRecursive`: adds a subroutine and everything it calls to the map. The
      new ones are at most `depth` calls away, and there is a chain of `depth` calls. */
  method GetSubroutinesRecursive(node: AsmNode, subs: map<AsmNode, Subroutine>, ghost all: set<AsmNode>)
    returns (depth: nat, subs': map<AsmNode, Subroutine>)
    requires ClosedGraph(all) && node in all && OwnSubroutines(subs, all)
    ensures OwnSubroutines(subs', all) && node in subs' && Extends(subs, subs', {}, node, depth, all)
    ensures HasChain(node, depth, all)
    decreases all - subs.Keys
  {
    hide Calls, ClosedGraph, CallsWithin, IsSubroutine, OwnSubroutines, Extends, HasChain;
    ExtendsNothing(subs, node, all);
    NoCalls(node, all);
    if node in subs {
      return 0, subs;
    }
    var sub := NewSubroutine(node, all);
    OneMoreSubroutine(subs, node, sub, all);
    ExtendsByOne(subs, node, sub, all);
    subs' := subs[node := sub];
    depth := 0;
    for i := 0 to |sub.callees|
      invariant OwnSubroutines(subs', all) && Extends(subs, subs', {node}, node, depth, all)
                && HasChain(node, depth, all)
      invariant node in subs' && subs.Keys <= subs'.Keys && forall c :: c in sub.callees[..i] ==> c in subs'
    {
      var callee := sub.callees[i];
      ghost var before, depth' := subs', depth;
      var d;
      assert node in all - subs.Keys && node !in all - subs'.Keys;
      d, subs' := GetSubroutinesRecursive(callee, subs', all);
      ExtendsMore(subs, before, subs', node, depth, callee, d, all);
      ExtendsKeys(before, subs', {}, callee, d, all);
      LongerChain(node, callee, d, all);
      if d + 1 > depth {
        depth := d + 1;
      }
    }
    assert sub.callees[..|sub.callees|] == sub.callees;
    ExtendsFully(subs, subs', node, depth, all);
  }

  /** Everything in the map is at most `depth` calls away from a start node. */
  ghost predicate WithinDepth(subs: map<AsmNode, Subroutine>, startNodes: seq<AsmNode>, depth: nat, all: set<AsmNode>)
    reads all`branchNodes, all`callee
  {
    forall m :: m in subs ==> exists n :: n in startNodes && m in CallsWithin(n, depth, all)
  }

  lemma WithinDepthGrows(subs: map<AsmNode, Subroutine>, startNodes: seq<AsmNode>, depth: nat,
                         subs': map<AsmNode, Subroutine>, node: AsmNode, d: nat, depth': nat, all: set<AsmNode>)
    requires WithinDepth(subs, startNodes, depth, all) && node in startNodes && depth <= depth' && d <= depth'
    requires forall m :: m in subs' && m !in subs ==> m in CallsWithin(node, d, all)
    ensures WithinDepth(subs', startNodes, depth', all)
  {
    hide CallsWithin;
    forall m | m in subs' ensures exists n :: n in startNodes && m in CallsWithin(n, depth', all) {
      if m in subs {
        var n :| n in startNodes && m in CallsWithin(n, depth, all);
        CallsWithinGrows(n, depth, depth', all);
      } else {
        CallsWithinGrows(node, d, depth', all);
      }
    }
  }

  ghost predicate AllKnown(subs: map<AsmNode, Subroutine>, all: set<AsmNode>)
    reads all`branchNodes, all`callee
  {
    forall m :: m in subs ==> m in all && KnowsCallees(subs, m, all)
  }

  /** `getSubroutinesFor`: exactly the subroutines in reach of the start nodes, each
      of them at most `depth` calls away from one of them, and under its own node. A chain
      of `depth` calls starts at one of them. */
  method GetSubroutinesFor(startNodes: seq<AsmNode>, ghost all: set<AsmNode>)
    returns (depth: nat, nodeSubs: map<AsmNode, Subroutine>)
    requires ClosedGraph(all) && forall n :: n in startNodes ==> n in all
    ensures OwnSubroutines(nodeSubs, all)
    ensures forall m :: m in nodeSubs ==> exists n :: n in startNodes && m in CallsWithin(n, depth, all)
    ensures if startNodes == [] then depth == 0 else exists n :: n in startNodes && HasChain(n, depth, all)
    ensures forall n, k: nat, m :: n in startNodes && m in CallsWithin(n, k, all) ==> m in nodeSubs
  {
    hide ClosedGraph, CallsWithin, WithinDepth, IsSubroutine, HasChain;
    depth, nodeSubs := 0, map[];
    assert WithinDepth(nodeSubs, startNodes, depth, all) by { NothingWithin(startNodes, all); }
    for i := 0 to |startNodes|
      invariant AllKnown(nodeSubs, all) && OwnSubroutines(nodeSubs, all)
                && WithinDepth(nodeSubs, startNodes, depth, all)
      invariant forall j :: 0 <= j < i ==> startNodes[j] in nodeSubs
      invariant if i == 0 then depth == 0 else exists n :: n in startNodes && HasChain(n, depth, all)
    {
      ghost var before, depth' := nodeSubs, depth;
      var d;
      d, nodeSubs := GetSubroutinesRecursive(startNodes[i], nodeSubs, all);
      if d > depth {
        depth := d;
      }
      WithinDepthGrows(before, startNodes, depth', nodeSubs, startNodes[i], d, depth, all);
    }
    WithinDepthMeans(nodeSubs, startNodes, depth, all);
    forall n, k: nat, m | n in startNodes && m in CallsWithin(n, k, all) ensures m in nodeSubs {
      KnownIsClosed(n, k, nodeSubs, all);
    }
  }

  lemma NothingWithin(startNodes: seq<AsmNode>, all: set<AsmNode>)
    ensures WithinDepth(map[], startNodes, 0, all)
  {
  }

  lemma WithinDepthMeans(subs: map<AsmNode, Subroutine>, startNodes: seq<AsmNode>, depth: nat, all: set<AsmNode>)
    requires WithinDepth(subs, startNodes, depth, all)
    ensures forall m :: m in subs ==> exists n :: n in startNodes && m in CallsWithin(n, depth, all)
  {
  }

  lemma {:induction false} KnownIsClosed(from: AsmNode, n: nat, subs: map<AsmNode, Subroutine>, all: set<AsmNode>)
    requires from in subs && AllKnown(subs, all)
    ensures forall m :: m in CallsWithin(from, n, all) ==> m in subs
  {
    hide Calls;
    if n > 0 {
      KnownIsClosed(from, n - 1, subs, all);
    }
  }
}
