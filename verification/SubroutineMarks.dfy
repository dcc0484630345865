/** Which nodes are marked as parts of a subroutine: from those with a RET the marks are
    handed on to the predecessors, and called nodes are marked as well. */
module SubroutineMarks {
  import opened AsmNodes
  import opened Sequences

  ghost function Marked(all: set<AsmNode>): set<AsmNode>
    reads all`isSubroutine
  {
    set x | x in all && x.isSubroutine
  }

  /** The nodes from which at most `n` branches lead to `targets`, all of them within
      `open`. */
  ghost function FlowsWithin(targets: set<AsmNode>, open: set<AsmNode>, n: nat): set<AsmNode>
    reads open`branchNodes
  {
    if n == 0 then targets * open else
      var s := FlowsWithin(targets, open, n - 1);
      s + set x | x in open && exists y :: y in x.branchNodes && y in s
  }

  /** The flow goes from `x` to one of `targets`, over nodes of `open` only. */
  ghost predicate FlowsTo(x: AsmNode, targets: set<AsmNode>, open: set<AsmNode>)
    reads open`branchNodes
  {
    exists n: nat :: x in FlowsWithin(targets, open, n)
  }

  ghost function Flowing(targets: set<AsmNode>, open: set<AsmNode>): set<AsmNode>
    reads open`branchNodes
  {
    set x | x in open && FlowsTo(x, targets, open)
  }

  lemma {:induction false} FlowsAreOpen(targets: set<AsmNode>, open: set<AsmNode>, n: nat)
    ensures FlowsWithin(targets, open, n) <= open
  {
    if n > 0 {
      FlowsAreOpen(targets, open, n - 1);
    }
  }

  lemma FlowStarts(x: AsmNode, targets: set<AsmNode>, open: set<AsmNode>)
    requires x in targets && x in open
    ensures FlowsTo(x, targets, open)
  {
    assert x in FlowsWithin(targets, open, 0);
  }

  lemma FlowGoesOn(x: AsmNode, y: AsmNode, targets: set<AsmNode>, open: set<AsmNode>)
    requires FlowsTo(y, targets, open) && x in open && y in x.branchNodes
    ensures FlowsTo(x, targets, open)
  {
    var n: nat :| y in FlowsWithin(targets, open, n);
    assert x in FlowsWithin(targets, open, n + 1);
  }

  /** A set that contains the targets and the open predecessors of its members contains
      everything that flows to the targets. */
  lemma {:induction false} ClosedContainsFlows(targets: set<AsmNode>, open: set<AsmNode>, s: set<AsmNode>, n: nat)
    requires targets * open <= s
    requires forall x, y :: x in open && y in x.branchNodes && y in s ==> x in s
    ensures FlowsWithin(targets, open, n) <= s
  {
    if n > 0 {
      ClosedContainsFlows(targets, open, s, n - 1);
    }
  }

  lemma ClosedContainsFlowing(targets: set<AsmNode>, open: set<AsmNode>, s: set<AsmNode>)
    requires targets * open <= s
    requires forall x, y :: x in open && y in x.branchNodes && y in s ==> x in s
    ensures Flowing(targets, open) <= s
  {
    forall x | x in Flowing(targets, open)
      ensures x in s
    {
      var n: nat :| x in FlowsWithin(targets, open, n);
      ClosedContainsFlows(targets, open, s, n);
    }
  }

  /** What flows to the targets is itself closed in this way. */
  lemma FlowingIsClosed(targets: set<AsmNode>, open: set<AsmNode>)
    ensures targets * open <= Flowing(targets, open)
    ensures forall x, y ::
              x in open && y in x.branchNodes && y in Flowing(targets, open) ==> x in Flowing(targets, open)
  {
    forall x | x in targets * open
      ensures FlowsTo(x, targets, open)
    {
      FlowStarts(x, targets, open);
    }
    forall x, y | x in open && y in x.branchNodes && y in Flowing(targets, open)
      ensures x in Flowing(targets, open)
    {
      FlowGoesOn(x, y, targets, open);
    }
  }

  /** More targets and more open nodes, more flows; and flows to flows are flows. */
  lemma FlowsChain(targets: set<AsmNode>, open: set<AsmNode>, targets': set<AsmNode>, open': set<AsmNode>)
    requires open <= open' && targets * open <= Flowing(targets', open')
    ensures Flowing(targets, open) <= Flowing(targets', open')
  {
    FlowingIsClosed(targets', open');
    ClosedContainsFlowing(targets, open, Flowing(targets', open'));
  }

  /** The predecessors of a node have marks. */
  ghost predicate HandedOn(y: AsmNode, marked: set<AsmNode>)
    reads y`predecessors
  {
    forall p :: p in y.predecessors ==> p in marked
  }

  /** Branches and predecessors are the same links. */
  lemma PredecessorsBranch(x: AsmNode, y: AsmNode, all: set<AsmNode>)
    requires MutualLinks(all) && x in all && y in all
    ensures x in y.predecessors <==> y in x.branchNodes
  {
    assert Mutual(x, y);
    assert x in y.predecessors <==> x in multiset(y.predecessors);
    assert y in x.branchNodes <==> y in multiset(x.branchNodes);
  }

  lemma PredecessorsAreInGraph(y: AsmNode, all: set<AsmNode>)
    requires MutualLinks(all) && y in all
    ensures forall p :: p in y.predecessors ==> p in all && y in p.branchNodes
    ensures forall x :: x in all && y in x.branchNodes ==> x in y.predecessors
  {
    assert LinksWithin(y, all);
    forall x | x in all
      ensures x in y.predecessors <==> y in x.branchNodes
    {
      PredecessorsBranch(x, y, all);
    }
  }

  /** From the marks `before` to the marks `after`, exactly what flows to `node` over
      unmarked nodes has been marked, and its marks have been handed on. */
  ghost predicate MarksFlow(node: AsmNode, before: set<AsmNode>, after: set<AsmNode>)
    reads after`branchNodes, after`predecessors
  {
    && before <= after && node in after
    && (node in before ==> after == before)
    && (forall y :: y in after && y !in before ==> HandedOn(y, after))
    && after - before <= Flowing({node}, after - before)
  }

  /** `AsmNode.markPredecessorsAsSubroutine`: marks a node and its predecessors, but
      stops at nodes that are marked already. */
  method MarkPredecessors(node: AsmNode, ghost all: set<AsmNode>)
    requires node in all && MutualLinks(all)
    modifies all`isSubroutine
    ensures MarksFlow(node, old(Marked(all)), Marked(all))
    decreases all - Marked(all)
  {
    hide MutualLinks, Flowing, HandedOn, MarksFlow;
    ghost var before := Marked(all);
    if node.isSubroutine {
      NothingToMark(node, before);
      return;
    }
    node.isSubroutine := true;
    PredecessorsAreInGraph(node, all);
    assert Marked(all) == before + {node};
    MarkFirst(node, before);
    for i := 0 to |node.predecessors|
      invariant before + {node} <= Marked(all)
      invariant UnderWay(node, before, Marked(all), i)
    {
      ghost var mid := Marked(all);
      MarkPredecessors(node.predecessors[i], all);
      MarkNext(node, before, mid, Marked(all), i);
    }
    MarkLast(node, before, Marked(all));
  }

  /** The marks have been handed on to the first `i` predecessors. */
  ghost predicate UnderWay(node: AsmNode, before: set<AsmNode>, now: set<AsmNode>, i: nat)
    reads now`branchNodes, now`predecessors, node`predecessors
  {
    && before <= now && node in now && node !in before && i <= |node.predecessors|
    && (forall y :: y in now && y !in before && y != node ==> HandedOn(y, now))
    && (forall j :: 0 <= j < i ==> node.predecessors[j] in now)
    && now - before <= Flowing({node}, now - before)
  }

  lemma NothingToMark(node: AsmNode, before: set<AsmNode>)
    requires node in before
    ensures MarksFlow(node, before, before)
  {
    assert before - before == {};
  }

  lemma MarkFirst(node: AsmNode, before: set<AsmNode>)
    requires node !in before
    ensures UnderWay(node, before, before + {node}, 0)
  {
    FlowingIsClosed({node}, {node});
    assert before + {node} - before == {node};
  }

  lemma MarkNext(node: AsmNode, before: set<AsmNode>, mid: set<AsmNode>, now: set<AsmNode>, i: nat)
    requires UnderWay(node, before, mid, i) && i < |node.predecessors|
    requires node in node.predecessors[i].branchNodes && MarksFlow(node.predecessors[i], mid, now)
    ensures UnderWay(node, before, now, i + 1)
  {
    hide Flowing;
    var p := node.predecessors[i];
    forall y | y in now && y !in before && y != node
      ensures HandedOn(y, now)
    {
      if y in mid {
        assert HandedOn(y, mid);
      }
    }
    FlowsChain({node}, mid - before, {node}, now - before) by {
      FlowingIsClosed({node}, now - before);
    }
    FlowsChain({p}, now - mid, {node}, now - before) by {
      FlowingIsClosed({node}, now - before);
      assert node in {node} * (now - before);
    }
  }

  lemma MarkLast(node: AsmNode, before: set<AsmNode>, now: set<AsmNode>)
    requires UnderWay(node, before, now, |node.predecessors|)
    ensures MarksFlow(node, before, now)
  {
    hide Flowing;
    assert HandedOn(node, now);
  }

  ghost function Predecessors(n: AsmNode): set<AsmNode>
    reads n`predecessors
  {
    set p | p in n.predecessors
  }

  /** From the marks `before` to the marks `after`, exactly what flows to predecessors of
      `n` over unmarked nodes has been marked, and all marks have been handed on. */
  ghost predicate HandsOn(n: AsmNode, before: set<AsmNode>, after: set<AsmNode>)
    reads after`branchNodes, after`predecessors, n`predecessors
  {
    && before <= after && HandedOn(n, after)
    && (forall y :: y in after && y !in before ==> HandedOn(y, after))
    && after - before <= Flowing(Predecessors(n), after - before)
  }

  /** Hands the mark of a node on. */
  method HandOn(node: AsmNode, ghost all: set<AsmNode>)
    requires node in all && MutualLinks(all)
    modifies all`isSubroutine
    ensures HandsOn(node, old(Marked(all)), Marked(all))
  {
    hide MutualLinks, Flowing, HandedOn, HandsOn;
    ghost var before := Marked(all);
    PredecessorsAreInGraph(node, all);
    HandsOnStarts(node, before);
    for i := 0 to |node.predecessors|
      invariant before <= Marked(all) && HandsOnUpTo(node, before, Marked(all), i)
    {
      ghost var mid := Marked(all);
      MarkPredecessors(node.predecessors[i], all);
      HandsOnMore(node, before, mid, Marked(all), i);
    }
    HandsOnEnds(node, before, Marked(all));
  }

  ghost predicate HandsOnUpTo(n: AsmNode, before: set<AsmNode>, now: set<AsmNode>, i: nat)
    reads now`branchNodes, now`predecessors, n`predecessors
  {
    && before <= now && i <= |n.predecessors| && (forall j :: 0 <= j < i ==> n.predecessors[j] in now)
    && (forall y :: y in now && y !in before ==> HandedOn(y, now))
    && now - before <= Flowing(Predecessors(n), now - before)
  }

  lemma HandsOnStarts(n: AsmNode, before: set<AsmNode>)
    ensures HandsOnUpTo(n, before, before, 0)
  {
    assert before - before == {};
  }

  lemma HandsOnMore(n: AsmNode, before: set<AsmNode>, mid: set<AsmNode>, now: set<AsmNode>, i: nat)
    requires HandsOnUpTo(n, before, mid, i) && i < |n.predecessors| && MarksFlow(n.predecessors[i], mid, now)
    ensures HandsOnUpTo(n, before, now, i + 1)
  {
    hide Flowing;
    var p := n.predecessors[i];
    forall y | y in now && y !in before
      ensures HandedOn(y, now)
    {
      if y in mid {
        assert HandedOn(y, mid);
      }
    }
    FlowingIsClosed(Predecessors(n), now - before);
    FlowsChain(Predecessors(n), mid - before, Predecessors(n), now - before);
    FlowsChain({p}, now - mid, Predecessors(n), now - before);
  }

  lemma HandsOnEnds(n: AsmNode, before: set<AsmNode>, now: set<AsmNode>)
    requires HandsOnUpTo(n, before, now, |n.predecessors|)
    ensures HandsOn(n, before, now)
  {
  }

  // All nodes, in the order in which the map yields them.

  /** The returning nodes among the first `i`: these have handed on their marks. */
  ghost function Turned(order: seq<AsmNode>, i: nat, returning: set<AsmNode>): set<AsmNode>
    requires i <= |order|
  {
    set r | r in order[..i] && r in returning
  }

  /** The nodes over which marks have been handed on when it is the turn of the i-th one:
      all but the returning ones whose turn is still to come, and those that were marked
      early. */
  ghost function Open(order: seq<AsmNode>, i: nat, returning: set<AsmNode>, early: set<AsmNode>, all: set<AsmNode>):
    set<AsmNode>
    requires i <= |order|
  {
    set x | x in all && !(x in early && x in order[..i]) && !(x in returning && x !in order[..i])
  }

  /** The i-th node is called, and not marked yet when its turn comes. Its mark is then never
      handed on. */
  ghost predicate IsEarly(order: seq<AsmNode>, i: nat, returning: set<AsmNode>, early: set<AsmNode>, all: set<AsmNode>)
    requires i < |order|
    reads all`branchNodes, order`callers
  {
    && order[i].callers != [] && order[i] !in returning
    && !FlowsTo(order[i], Turned(order, i, returning), Open(order, i, returning, early, all))
  }

  /** Exactly these nodes were marked early. */
  ghost predicate AreEarly(order: seq<AsmNode>, i: nat, returning: set<AsmNode>, early: set<AsmNode>, all: set<AsmNode>)
    requires i <= |order|
    reads all`branchNodes, order`callers
  {
    && (forall e :: e in early ==> e in order[..i])
    && forall j :: 0 <= j < i ==> (order[j] in early <==> IsEarly(order, j, returning, early, all))
  }

  /** The marks after the turn of the first `i` nodes. */
  ghost predicate MarksUpTo(order: seq<AsmNode>, i: nat, returning: set<AsmNode>, early: set<AsmNode>,
                            now: set<AsmNode>, all: set<AsmNode>)
    requires i <= |order|
    reads all`branchNodes, order`callers
  {
    && AreEarly(order, i, returning, early, all)
    && now == returning + early + Flowing(Turned(order, i, returning), Open(order, i, returning, early, all))
    && forall j :: 0 <= j < i && order[j].callers != [] ==> order[j] in now
  }

  ghost predicate IsOrder(order: seq<AsmNode>, returning: set<AsmNode>, all: set<AsmNode>) {
    Distinct(order) && (forall n :: n in order ==> n in all) && forall r :: r in returning ==> r in order
  }

  lemma NoTurnYet(order: seq<AsmNode>, returning: set<AsmNode>, all: set<AsmNode>)
    ensures MarksUpTo(order, 0, returning, {}, returning, all)
  {
    var targets, open := Turned(order, 0, returning), Open(order, 0, returning, {}, all);
    assert targets == {};
    ClosedContainsFlowing(targets, open, {});
  }

  lemma NextTurn(order: seq<AsmNode>, i: nat, returning: set<AsmNode>, early: set<AsmNode>, all: set<AsmNode>)
    requires IsOrder(order, returning, all) && i < |order| && AreEarly(order, i, returning, early, all)
    ensures order[i] !in order[..i] && order[i] !in early && order[..i + 1] == order[..i] + [order[i]]
    ensures var n := order[i];
            var add := if n in returning then {n} else {};
            && Turned(order, i + 1, returning) == Turned(order, i, returning) + add
            && Open(order, i + 1, returning, early, all) == Open(order, i, returning, early, all) + add
            && (n !in returning ==>
                  && Turned(order, i + 1, returning) == Turned(order, i, returning)
                  && Open(order, i + 1, returning, early, all) == Open(order, i, returning, early, all)
                  && Open(order, i + 1, returning, early + {n}, all) == Open(order, i, returning, early, all) - {n})
  {
  }

  /** What was early stays so. */
  lemma EarlyStays(order: seq<AsmNode>, i: nat, returning: set<AsmNode>, early: set<AsmNode>, all: set<AsmNode>)
    requires IsOrder(order, returning, all) && i < |order| && AreEarly(order, i, returning, early, all)
    ensures var n := order[i];
            IsEarly(order, i, returning, early + {n}, all) <==> IsEarly(order, i, returning, early, all)
    ensures IsEarly(order, i, returning, early, all) ==> AreEarly(order, i + 1, returning, early + {order[i]}, all)
    ensures !IsEarly(order, i, returning, early, all) ==> AreEarly(order, i + 1, returning, early, all)
  {
    hide FlowsTo;
    var n := order[i];
    NextTurn(order, i, returning, early, all);
    forall j | 0 <= j <= i
      ensures Open(order, j, returning, early + {n}, all) == Open(order, j, returning, early, all)
    {
      assert n !in order[..j];
    }
    assert forall j :: 0 <= j < i ==> order[j] in order[..i];
  }

  /** The turn of a marked node: its mark is handed on. */
  lemma MarkedTurn(order: seq<AsmNode>, i: nat, returning: set<AsmNode>, early: set<AsmNode>, now: set<AsmNode>,
                   after: set<AsmNode>, all: set<AsmNode>)
    requires IsOrder(order, returning, all) && MutualLinks(all) && i < |order|
    requires MarksUpTo(order, i, returning, early, now, all)
    requires order[i] in now && HandsOn(order[i], now, after) && after <= all
    ensures MarksUpTo(order, i + 1, returning, early, after, all)
  {
    hide MutualLinks, Flowing, HandedOn, AreEarly, IsEarly, Turned, Open, FlowsTo;
    var n := order[i];
    NextTurn(order, i, returning, early, all);
    EarlyStays(order, i, returning, early, all);
    MarkedIsNotEarly(order, i, returning, early, now, all);
    MarkedFlows(order, i, returning, early, now, after, all);
    MarkedContains(order, i, returning, early, now, after, all);
    assert now <= after;
  }

  lemma MarkedIsNotEarly(order: seq<AsmNode>, i: nat, returning: set<AsmNode>, early: set<AsmNode>, now: set<AsmNode>,
                         all: set<AsmNode>)
    requires IsOrder(order, returning, all) && i < |order| && MarksUpTo(order, i, returning, early, now, all)
    ensures IsEarly(order, i, returning, early, all) <==> order[i] !in now && order[i].callers != []
  {
    var n := order[i];
    NextTurn(order, i, returning, early, all);
    assert n !in returning ==> n in Open(order, i, returning, early, all);
  }

  /** Only what flows to the returning nodes is marked when marks are handed on. */
  lemma MarkedFlows(order: seq<AsmNode>, i: nat, returning: set<AsmNode>, early: set<AsmNode>, now: set<AsmNode>,
                    after: set<AsmNode>, all: set<AsmNode>)
    requires IsOrder(order, returning, all) && MutualLinks(all) && i < |order|
    requires MarksUpTo(order, i, returning, early, now, all)
    requires order[i] in now && HandsOn(order[i], now, after) && after <= all
    ensures after <= returning + early
                     + Flowing(Turned(order, i + 1, returning), Open(order, i + 1, returning, early, all))
  {
    hide MutualLinks, Flowing, HandedOn, AreEarly;
    var n := order[i];
    NextTurn(order, i, returning, early, all);
    var t, o := Turned(order, i, returning), Open(order, i, returning, early, all);
    var t', o' := Turned(order, i + 1, returning), Open(order, i + 1, returning, early, all);
    FlowingIsClosed(t', o');
    FlowsChain(t, o, t', o');
    assert n in Flowing(t', o');
    assert after - now <= o';
    PredecessorsAreInGraph(n, all);
    FlowsChain(Predecessors(n), after - now, t', o');
  }

  /** All that flows to the returning nodes is marked. */
  lemma MarkedContains(order: seq<AsmNode>, i: nat, returning: set<AsmNode>, early: set<AsmNode>, now: set<AsmNode>,
                       after: set<AsmNode>, all: set<AsmNode>)
    requires IsOrder(order, returning, all) && MutualLinks(all) && i < |order|
    requires MarksUpTo(order, i, returning, early, now, all)
    requires order[i] in now && HandsOn(order[i], now, after) && after <= all
    ensures Flowing(Turned(order, i + 1, returning), Open(order, i + 1, returning, early, all)) <= after
  {
    hide MutualLinks, Flowing, AreEarly;
    var n := order[i];
    NextTurn(order, i, returning, early, all);
    var t, o := Turned(order, i, returning), Open(order, i, returning, early, all);
    var t', o' := Turned(order, i + 1, returning), Open(order, i + 1, returning, early, all);
    FlowingIsClosed(t, o);
    forall x, y | x in o' && y in x.branchNodes && y in after * o'
      ensures x in after * o'
    {
      PredecessorsAreInGraph(y, all);
      if y !in now || y == n {
        assert HandedOn(y, after);
      } else {
        MarkedAndOpen(order, i, returning, early, now, all, y);
        assert x == n || x in o;
      }
    }
    ClosedContainsFlowing(t', o', after * o');
  }

  lemma MarkedAndOpen(order: seq<AsmNode>, i: nat, returning: set<AsmNode>, early: set<AsmNode>, now: set<AsmNode>,
                      all: set<AsmNode>, y: AsmNode)
    requires i <= |order| && MarksUpTo(order, i, returning, early, now, all)
    requires y in now && y in Open(order, i, returning, early, all)
    ensures y in Flowing(Turned(order, i, returning), Open(order, i, returning, early, all))
  {
    hide Flowing;
    FlowingIsClosed(Turned(order, i, returning), Open(order, i, returning, early, all));
  }

  /** The turn of a called node that is not marked yet. */
  lemma EarlyTurn(order: seq<AsmNode>, i: nat, returning: set<AsmNode>, early: set<AsmNode>, now: set<AsmNode>,
                  all: set<AsmNode>)
    requires IsOrder(order, returning, all) && i < |order|
    requires MarksUpTo(order, i, returning, early, now, all) && order[i] !in now && order[i].callers != []
    ensures MarksUpTo(order, i + 1, returning, early + {order[i]}, now + {order[i]}, all)
  {
    hide Flowing, AreEarly, IsEarly, Turned, Open;
    var n := order[i];
    NextTurn(order, i, returning, early, all);
    EarlyStays(order, i, returning, early, all);
    MarkedIsNotEarly(order, i, returning, early, now, all);
    WithoutNode(Turned(order, i, returning), Open(order, i, returning, early, all), n);
  }

  /** A node that does not flow to the targets can be left out. */
  lemma WithoutNode(targets: set<AsmNode>, open: set<AsmNode>, n: AsmNode)
    requires n !in Flowing(targets, open)
    ensures Flowing(targets, open - {n}) == Flowing(targets, open)
  {
    hide Flowing;
    FlowingIsClosed(targets, open);
    FlowingIsClosed(targets, open - {n});
    FlowsChain(targets, open - {n}, targets, open);
    ClosedContainsFlowing(targets, open, Flowing(targets, open - {n}));
  }

  /** The turn of a node that is neither marked nor called. */
  lemma EmptyTurn(order: seq<AsmNode>, i: nat, returning: set<AsmNode>, early: set<AsmNode>, now: set<AsmNode>,
                  all: set<AsmNode>)
    requires IsOrder(order, returning, all) && i < |order|
    requires MarksUpTo(order, i, returning, early, now, all) && order[i] !in now && order[i].callers == []
    ensures MarksUpTo(order, i + 1, returning, early, now, all)
  {
    hide Flowing, AreEarly, IsEarly, Turned, Open;
    NextTurn(order, i, returning, early, all);
    EarlyStays(order, i, returning, early, all);
    MarkedIsNotEarly(order, i, returning, early, now, all);
  }

  /** The marks of all nodes: those with a RET, those that were marked early because they are
      called, and what flows to the former without the latter. */
  ghost predicate AreMarks(order: seq<AsmNode>, returning: set<AsmNode>, early: set<AsmNode>, marked: set<AsmNode>,
                           all: set<AsmNode>)
    reads all`branchNodes, order`callers
  {
    && IsOrder(order, returning, all) && AreEarly(order, |order|, returning, early, all)
    && marked == early + Flowing(returning, all - early)
    && forall n :: n in order && n.callers != [] ==> n in marked
  }

  /** `markSubroutines` */
  method MarkSubroutines(order: seq<AsmNode>, ghost all: set<AsmNode>) returns (ghost early: set<AsmNode>)
    requires MutualLinks(all) && IsOrder(order, Marked(all), all)
    modifies all`isSubroutine
    ensures AreMarks(order, old(Marked(all)), early, Marked(all), all)
  {
    hide MutualLinks, MarksUpTo, HandsOn, IsOrder, AreMarks;
    ghost var returning := Marked(all);
    early := {};
    NoTurnYet(order, returning, all);
    for i := 0 to |order|
      invariant MarksUpTo(order, i, returning, early, Marked(all), all)
    {
      ghost var now := Marked(all);
      var node := order[i];
      assert node in all by { OrderIsInGraph(order, returning, all); }
      if node.isSubroutine {
        // Its predecessors as well.
        HandOn(node, all);
        MarkedTurn(order, i, returning, early, now, Marked(all), all);
      } else if node.callers != [] {
        node.isSubroutine := true;
        EarlyTurn(order, i, returning, early, now, all);
        early := early + {node};
        assert Marked(all) == now + {node};
      } else {
        EmptyTurn(order, i, returning, early, now, all);
      }
    }
    LastTurn(order, returning, early, Marked(all), all);
  }

  lemma OrderIsInGraph(order: seq<AsmNode>, returning: set<AsmNode>, all: set<AsmNode>)
    requires IsOrder(order, returning, all)
    ensures forall i :: 0 <= i < |order| ==> order[i] in all
  {
  }

  lemma LastTurn(order: seq<AsmNode>, returning: set<AsmNode>, early: set<AsmNode>, now: set<AsmNode>,
                 all: set<AsmNode>)
    requires IsOrder(order, returning, all) && MarksUpTo(order, |order|, returning, early, now, all)
    ensures AreMarks(order, returning, early, now, all)
  {
    hide Flowing, FlowsTo;
    assert order[..|order|] == order;
    assert Turned(order, |order|, returning) == returning;
    assert Open(order, |order|, returning, early, all) == all - early;
    EarlyNeverReturn(order, returning, early, all);
    FlowingIsClosed(returning, all - early);
  }

  lemma EarlyNeverReturn(order: seq<AsmNode>, returning: set<AsmNode>, early: set<AsmNode>, all: set<AsmNode>)
    requires AreEarly(order, |order|, returning, early, all)
    ensures forall e :: e in early ==> e in order && e !in returning && e.callers != []
  {
    forall e | e in early
      ensures e in order && e !in returning && e.callers != []
    {
      var j :| 0 <= j < |order| && order[j] == e;
      assert IsEarly(order, j, returning, early, all);
    }
  }

  // What the marks say.

  /** The called nodes, except for those with a RET. */
  ghost function Called(order: seq<AsmNode>, returning: set<AsmNode>): set<AsmNode>
    reads order`callers
  {
    set n | n in order && n.callers != [] && n !in returning
  }

  /** Whatever the order: what is marked is called or flows to a RET; what is called, has a
      RET, or flows to one over nodes that are not called, is marked. */
  lemma MarksAreBounded(order: seq<AsmNode>, returning: set<AsmNode>, early: set<AsmNode>, marked: set<AsmNode>,
                        all: set<AsmNode>)
    requires AreMarks(order, returning, early, marked, all)
    ensures marked <= Called(order, returning) + Flowing(returning, all)
    ensures Called(order, returning) + Flowing(returning, all - Called(order, returning)) <= marked
    ensures returning <= marked
  {
    hide Flowing, IsEarly, AreEarly;
    EarlyNeverReturn(order, returning, early, all);
    FlowingIsClosed(returning, all);
    FlowingIsClosed(returning, all - early);
    FlowsChain(returning, all - early, returning, all);
    FlowsChain(returning, all - Called(order, returning), returning, all - early);
  }

  /** Where no flow goes on, a mark means a RET, or a call. */
  lemma MarkedEnd(order: seq<AsmNode>, returning: set<AsmNode>, early: set<AsmNode>, marked: set<AsmNode>,
                  all: set<AsmNode>, x: AsmNode)
    requires AreMarks(order, returning, early, marked, all) && x in marked && x.branchNodes == []
    ensures x in order && (x in returning || x.callers != [])
  {
    hide IsEarly;
    EarlyNeverReturn(order, returning, early, all);
    if x !in early {
      FlowAtEnd(returning, all - early, x);
    }
  }

  lemma FlowAtEnd(targets: set<AsmNode>, open: set<AsmNode>, x: AsmNode)
    requires x in Flowing(targets, open) && x.branchNodes == []
    ensures x in targets
  {
    var n: nat :| x in FlowsWithin(targets, open, n);
    FlowAtEndWithin(targets, open, n, x);
  }

  lemma {:induction false} FlowAtEndWithin(targets: set<AsmNode>, open: set<AsmNode>, n: nat, x: AsmNode)
    requires x in FlowsWithin(targets, open, n) && x.branchNodes == []
    ensures x in targets
  {
    if n > 0 {
      FlowAtEndWithin(targets, open, n - 1, x);
    }
  }

  /** Everything that flows to a RET is marked if and only if the nodes that were marked
      early, and flow to a RET, have no unmarked predecessors. */
  lemma NothingIsMissedIff(order: seq<AsmNode>, returning: set<AsmNode>, early: set<AsmNode>, marked: set<AsmNode>,
                           all: set<AsmNode>)
    requires MutualLinks(all) && AreMarks(order, returning, early, marked, all)
    ensures Flowing(returning, all) <= marked <==>
            forall e :: e in early && e in Flowing(returning, all) ==> HandedOn(e, marked)
  {
    hide MutualLinks, Flowing, AreEarly;
    EarlyNeverReturn(order, returning, early, all);
    FlowingIsClosed(returning, all);
    FlowingIsClosed(returning, all - early);
    forall e | e in all
      ensures forall p :: p in e.predecessors ==> p in all && e in p.branchNodes
      ensures forall x :: x in all && e in x.branchNodes ==> x in e.predecessors
    {
      PredecessorsAreInGraph(e, all);
    }
    if forall e :: e in early && e in Flowing(returning, all) ==> HandedOn(e, marked) {
      ClosedContainsFlowing(returning, all, marked * Flowing(returning, all));
    }
  }

  /** The nodes with a RET come first. */
  ghost predicate ReturningFirst(order: seq<AsmNode>, returning: set<AsmNode>) {
    forall i, j :: 0 <= i < j < |order| && order[j] in returning ==> order[i] in returning
  }

  /** In that order nothing is missed: exactly the called nodes and what flows to a RET are
      marked. */
  lemma NothingIsMissedInOrder(order: seq<AsmNode>, returning: set<AsmNode>, early: set<AsmNode>, marked: set<AsmNode>,
                               all: set<AsmNode>)
    requires AreMarks(order, returning, early, marked, all) && ReturningFirst(order, returning)
    ensures marked == Called(order, returning) + Flowing(returning, all)
  {
    hide Flowing, AreEarly, ReturningFirst, FlowsTo;
    MarksAreBounded(order, returning, early, marked, all);
    FlowingIsClosed(returning, all - early);
    EarlyNeverReturn(order, returning, early, all);
    forall x, y | x in all && y in x.branchNodes && y in Flowing(returning, all - early)
      ensures x in Flowing(returning, all - early)
    {
      if x in early {
        EarlyDoesNotFlow(order, returning, early, all, x, y);
      }
    }
    ClosedContainsFlowing(returning, all, Flowing(returning, all - early));
  }

  lemma EarlyDoesNotFlow(order: seq<AsmNode>, returning: set<AsmNode>, early: set<AsmNode>, all: set<AsmNode>,
                         x: AsmNode, y: AsmNode)
    requires AreEarly(order, |order|, returning, early, all) && ReturningFirst(order, returning)
    requires IsOrder(order, returning, all) && x in early && y in x.branchNodes
    ensures y !in Flowing(returning, all - early)
  {
    hide Flowing;
    if y in Flowing(returning, all - early) {
      var i :| 0 <= i < |order| && order[i] == x;
      assert IsEarly(order, i, returning, early, all);
      var t, o := Turned(order, i, returning), Open(order, i, returning, early, all);
      forall r | r in returning
        ensures r in t
      {
        var j :| 0 <= j < |order| && order[j] == r;
        assert j < i && order[j] in order[..i];
      }
      assert t == returning;
      assert x !in order[..i];
      FlowsChain(returning, all - early, t, o) by {
        FlowingIsClosed(t, o);
      }
      FlowingIsClosed(t, o);
      assert x in Flowing(t, o);
      FlowingMeans(t, o);
    }
  }

  lemma FlowingMeans(targets: set<AsmNode>, open: set<AsmNode>)
    ensures forall x :: x in Flowing(targets, open) <==> x in open && FlowsTo(x, targets, open)
  {
  }

  /** A called node stands between a node and the RET to which it flows. As it comes first,
      it is marked early, and the node in front of it is not marked at all. */
  lemma CalledNodeBlocks(front: AsmNode, called: AsmNode, ret: AsmNode, caller: AsmNode,
                         early: set<AsmNode>, marked: set<AsmNode>, all: set<AsmNode>)
    requires all == {front, called, ret, caller} && AreMarks([called, ret, front, caller], {ret}, early, marked, all)
    requires front.branchNodes == [called] && called.branchNodes == [ret] && caller.branchNodes == []
    requires ret.branchNodes == [] && called.callers != [] && front.callers == []
    ensures FlowsTo(front, {ret}, all) && front !in marked && called in marked
  {
    hide Flowing, AreEarly, FlowsTo;
    var order := [called, ret, front, caller];
    EarlyNeverReturn(order, {ret}, early, all);
    FlowStarts(ret, {ret}, all);
    FlowGoesOn(called, ret, {ret}, all);
    FlowGoesOn(front, called, {ret}, all);
    CalledIsEarly(order, {ret}, early, all);
    ClosedContainsFlowing({ret}, all - early, {ret});
  }

  lemma CalledIsEarly(order: seq<AsmNode>, returning: set<AsmNode>, early: set<AsmNode>, all: set<AsmNode>)
    requires order != [] && AreEarly(order, |order|, returning, early, all)
    requires order[0].callers != [] && order[0] !in returning
    ensures order[0] in early
  {
    var t, o := Turned(order, 0, returning), Open(order, 0, returning, early, all);
    ClosedContainsFlowing(t, o, {});
    FlowingMeans(t, o);
    if FlowsTo(order[0], t, o) {
      var n: nat :| order[0] in FlowsWithin(t, o, n);
      FlowsAreOpen(t, o, n);
    }
    assert IsEarly(order, 0, returning, early, all);
  }

  /** `front` flows into `called`, and that into `ret`. */
  ghost predicate InLine(front: AsmNode, called: AsmNode, ret: AsmNode, caller: AsmNode)
    reads front, called, ret, caller
  {
    && front.branchNodes == [called] && called.branchNodes == [ret] && caller.branchNodes == [] && ret.branchNodes == []
    && called.callers != [] && front.callers == []
  }

  method NewLine() returns (front: AsmNode, called: AsmNode, ret: AsmNode, caller: AsmNode)
    ensures fresh({front, called, ret, caller}) && MutualLinks({front, called, ret, caller})
    ensures InLine(front, called, ret, caller) && !front.isSubroutine && !called.isSubroutine && !caller.isSubroutine
    ensures front.start < called.start < ret.start < caller.start
  {
    hide MutualLinks, InLine;
    front := new AsmNode(0x8000, 0, false);
    called := new AsmNode(0x8003, 0, false);
    ret := new AsmNode(0x8006, 0, false);
    caller := new AsmNode(0x9000, 0, false);
    ghost var all := {front, called, ret, caller};
    ShallowLinks(all);
    LinkBranch(front, called, all);
    LinkBranch(called, ret, all);
    LinkCall(caller, called, all);
    HasCaller(caller, called, all);
    AreInLine(front, called, ret, caller);
  }

  lemma AreInLine(front: AsmNode, called: AsmNode, ret: AsmNode, caller: AsmNode)
    requires front.branchNodes == [called] && called.branchNodes == [ret] && caller.branchNodes == []
    requires ret.branchNodes == [] && called.callers != [] && front.callers == []
    ensures InLine(front, called, ret, caller)
  {
  }

  method CalledNodeBlocksMarks() returns (front: AsmNode, called: AsmNode, ret: AsmNode)
    ensures called in front.branchNodes && ret in called.branchNodes
    ensures ret.isSubroutine && called.isSubroutine && !front.isSubroutine
  {
    hide AreMarks, Flowing, FlowsTo, MutualLinks, IsOrder;
    var caller;
    front, called, ret, caller := NewLine();
    ghost var all := {front, called, ret, caller};
    ret.isSubroutine := true;
    assert Marked(all) == {ret};
    var order := [called, ret, front, caller];
    assert IsOrder(order, {ret}, all) by { OrderOfFour(order, ret, all); }
    ghost var early := MarkSubroutines(order, all);
    CalledNodeBlocks(front, called, ret, caller, early, Marked(all), all);
    MarksAreBounded(order, {ret}, early, Marked(all), all);
  }

  lemma OrderOfFour(order: seq<AsmNode>, ret: AsmNode, all: set<AsmNode>)
    requires Distinct(order) && |order| == 4 && all == {order[0], order[1], order[2], order[3]} && ret == order[1]
    ensures IsOrder(order, {ret}, all)
  {
  }

  lemma HasCaller(caller: AsmNode, called: AsmNode, all: set<AsmNode>)
    requires MutualLinks(all) && caller in all && called in all && caller.callee == called
    ensures called.callers != []
  {
    assert Mutual(caller, called);
  }
}
