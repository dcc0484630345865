/** The nodes of the flow graph. */
module AsmNodes {
  import opened Options
  import opened Z80Image

  /** Labels, without their texts: a name from the list file, or one that is made up.
      The label of a loop that is the only one of its block has the index 0. */
  datatype Label =
    | Named(id: nat)
    | GlobalLabel(prefix: Prefix, addr: int)
    | LocalLabel(parent: Label, loop: bool, index: nat)
    | CodeLabel(block: Option<Label>, addr: int)
    | DataLabel(addr: int)

  datatype Prefix = SUB | RST | LBL

  /** A block of code up to the next branch, with its links to other nodes. */
  class AsmNode {
    const start: int
    const slot: int
    const bankBorder: bool
    var length: nat
    var isSubroutine: bool
    var stop: bool
    var instructions: seq<Opcode>
    var dataReferences: seq<int>
    var branchNodes: seq<AsmNode>
    var predecessors: seq<AsmNode>
    var callee: AsmNode?
    var callers: seq<AsmNode>
    var nodeLabel: Option<Label>

    constructor (start: int, slot: int, bankBorder: bool)
      ensures this.start == start && this.slot == slot && this.bankBorder == bankBorder
      ensures Unfilled() && predecessors == [] && callers == [] && nodeLabel == None
    {
      this.start, this.slot, this.bankBorder := start, slot, bankBorder;
      length, isSubroutine, stop := 0, false, false;
      instructions, dataReferences := [], [];
      branchNodes, predecessors, callee, callers := [], [], null, [];
      nodeLabel := None;
    }

    /** Nothing is known yet about the inside of the node. */
    ghost predicate Unfilled()
      reads `length, `isSubroutine, `stop, `instructions, `dataReferences, `branchNodes, `callee
    {
      length == 0 && !isSubroutine && !stop && instructions == [] && dataReferences == [] && branchNodes == []
      && callee == null
    }
  }

  function Count(s: seq<AsmNode>, n: AsmNode): nat {
    multiset(s)[n]
  }

  lemma CountPush(s: seq<AsmNode>, y: AsmNode, n: AsmNode)
    ensures Count(s + [y], n) == Count(s, n) + if y == n then 1 else 0
  {
  }

  /** The links of a node stay within `all`. */
  ghost predicate LinksWithin(x: AsmNode, all: set<AsmNode>)
    reads x`branchNodes, x`predecessors, x`callers, x`callee
  {
    && (forall y :: y in x.branchNodes ==> y in all)
    && (forall y :: y in x.predecessors ==> y in all)
    && (forall y :: y in x.callers ==> y in all)
    && (x.callee != null ==> x.callee in all)
  }

  /** The branches of a node are the predecessors of their targets, and its call is
      among the callers of the called node, counted with multiplicity. */
  ghost predicate Mutual(x: AsmNode, y: AsmNode)
    reads x`branchNodes, x`callee, y`predecessors, y`callers
  {
    && Count(x.branchNodes, y) == Count(y.predecessors, x)
    && Count(y.callers, x) == if x.callee == y then 1 else 0
  }

  ghost predicate MutualLinks(all: set<AsmNode>)
    reads all`branchNodes, all`predecessors, all`callers, all`callee
  {
    && (forall x {:trigger LinksWithin(x, all)} :: x in all ==> LinksWithin(x, all))
    && (forall x, y {:trigger Mutual(x, y)} :: x in all && y in all ==> Mutual(x, y))
  }

  /** Makes `y` a successor of `x`. */
  method LinkBranch(x: AsmNode, y: AsmNode, ghost all: set<AsmNode>)
    requires x in all && y in all && MutualLinks(all)
    modifies x`branchNodes, y`predecessors
    ensures x.branchNodes == old(x.branchNodes) + [y]
    ensures MutualLinks(all)
  {
    x.branchNodes := x.branchNodes + [y];
    y.predecessors := y.predecessors + [x];
    forall u | u in all ensures LinksWithin(u, all) {
      assert old(LinksWithin(u, all));
    }
    forall u, v | u in all && v in all ensures Mutual(u, v) {
      assert old(Mutual(u, v));
      CountPush(old(x.branchNodes), y, v);
      CountPush(old(y.predecessors), x, u);
    }
  }

  /** Makes `y` the node that is called by `x`. */
  method LinkCall(x: AsmNode, y: AsmNode, ghost all: set<AsmNode>)
    requires x in all && y in all && MutualLinks(all)
    requires x.callee == null
    modifies x`callee, y`callers
    ensures x.callee == y
    ensures MutualLinks(all)
  {
    x.callee := y;
    y.callers := y.callers + [x];
    forall u | u in all ensures LinksWithin(u, all) {
      assert old(LinksWithin(u, all));
    }
    forall u, v | u in all && v in all ensures Mutual(u, v) {
      assert old(Mutual(u, v));
      CountPush(old(y.callers), x, u);
    }
  }

  /** A node without any link may join. */
  lemma JoinLinks(all: set<AsmNode>, n: AsmNode)
    requires MutualLinks(all) && n !in all
    requires n.branchNodes == [] && n.predecessors == [] && n.callers == [] && n.callee == null
    ensures MutualLinks(all + {n})
  {
    forall u | u in all + {n} ensures LinksWithin(u, all + {n}) {
      assert u in all ==> LinksWithin(u, all);
    }
    forall u, v | u in all + {n} && v in all + {n} ensures Mutual(u, v) {
      assert u in all && v in all ==> Mutual(u, v);
      assert u in all ==> LinksWithin(u, all);
      assert v in all ==> LinksWithin(v, all);
    }
  }

  lemma ShallowLinks(all: set<AsmNode>)
    requires forall n :: n in all ==> n.Unfilled() && n.predecessors == [] && n.callers == []
    ensures MutualLinks(all)
  {
    forall u | u in all ensures LinksWithin(u, all) {
      assert u.Unfilled();
    }
    forall u, v | u in all && v in all ensures Mutual(u, v) {
      assert u.Unfilled() && v.Unfilled();
    }
  }
}
